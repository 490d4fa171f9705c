/** Go's `strconv.ParseInt(s, 0, 64)`, which every integer field of the
    package goes through: an optional sign, then digits whose base the text
    itself chooses ("0x" for hexadecimal, a leading "0" for octal, decimal
    otherwise), checked against the int64 range; and `strconv.FormatInt`
    in base 10, which writes integers back. */
module Numbers {
  import opened Errors

  const MinInt64: int := -0x8000_0000_0000_0000
  const MaxInt64: int := 0x7FFF_FFFF_FFFF_FFFF
  const MaxUint64: int := 0xFFFF_FFFF_FFFF_FFFF

  predicate IsDigit(c: char) { '0' <= c <= '9' }

  function DigitValue(c: char): (d: nat)
    requires IsDigit(c)
    ensures d < 10
  {
    c as int - '0' as int
  }

  function DigitChar(d: nat): (c: char)
    requires d < 10
    ensures IsDigit(c) && DigitValue(c) == d
  {
    ('0' as int + d) as char
  }

  predicate AllDigits(s: string) { forall i :: 0 <= i < |s| ==> IsDigit(s[i]) }

  /** Decimal digits as written by a person: not empty, and no leading zero
      unless the number is zero itself. */
  predicate IsDecimal(s: string) { |s| > 0 && AllDigits(s) && (s[0] == '0' ==> |s| == 1) }

  /** The value of a string of decimal digits, most significant first. */
  function DigitsValue(s: string): nat
    requires AllDigits(s)
  {
    if s == [] then 0 else DigitsValue(s[..|s| - 1]) * 10 + DigitValue(s[|s| - 1])
  }

  function Unsigned(s: string): string
  {
    if |s| > 0 && (s[0] == '-' || s[0] == '+') then s[1..] else s
  }

  predicate Negative(s: string) { |s| > 0 && s[0] == '-' }

  // ---------------------------------------------------------------------
  // Digits in a base chosen by the text
  // ---------------------------------------------------------------------

  /** The value strconv gives a character as a digit: 0-9, then letters of
      either case from 10 on; 36 (a digit in no base) for anything else. */
  function DigitIn(c: char): (d: nat)
    ensures d <= 36
    ensures d < 10 <==> IsDigit(c)
    ensures IsDigit(c) ==> d == DigitValue(c)
  {
    if IsDigit(c) then DigitValue(c)
    else if 'a' <= c <= 'z' then c as int - 'a' as int + 10
    else if 'A' <= c <= 'Z' then c as int - 'A' as int + 10
    else 36
  }

  /** The base an unsigned text asks for when the caller passes base 0. */
  function Base(u: string): nat
  {
    if |u| > 1 && u[0] == '0' && (u[1] == 'x' || u[1] == 'X') then 16
    else if |u| > 0 && u[0] == '0' then 8
    else 10
  }

  /** The digits after the base prefix; an octal text keeps its leading 0. */
  function Body(u: string): string
  {
    if Base(u) == 16 then u[2..] else u
  }

  predicate AllIn(d: string, base: nat) { forall i :: 0 <= i < |d| ==> DigitIn(d[i]) < base }

  /** The length of the run of digits valid in `base` at the front of `d`:
      how far a left-to-right scan gets before a character stops it. */
  function ValidRun(d: string, base: nat): (k: nat)
    ensures k <= |d|
  {
    if d == [] || DigitIn(d[0]) >= base then 0 else 1 + ValidRun(d[1..], base)
  }

  /** The value of digits in `base`, most significant first (meaningful
      when every character is a digit of the base). */
  function ValueIn(d: string, base: nat): nat
  {
    if d == [] then 0 else ValueIn(d[..|d| - 1], base) * base + DigitIn(d[|d| - 1])
  }

  /** What `strconv.ParseUint(u, 0, 64)` reports. */
  datatype Scan = Value(n: nat) | BadSyntax | OutOfRange

  /** `strconv.ParseUint(u, 0, 64)`. The digits are read left to right and
      the scan stops at the first of: a character that is not a digit of
      the base (a syntax error) or a prefix whose value exceeds 64 bits (a
      range error), so an overflow is reported even when a bad character
      follows it. */
  function ParseUint(u: string): (r: Scan)
    ensures r.Value? ==> r.n <= MaxUint64
  {
    var body := Body(u);
    if body == [] then BadSyntax
    else
      var k := ValidRun(body, Base(u));
      if ValueIn(body[..k], Base(u)) > MaxUint64 then OutOfRange
      else if k < |body| then BadSyntax
      else
        assert body[..k] == body;
        Value(ValueIn(body, Base(u)))
  }

  /** Text `strconv.ParseInt(s, 0, 64)` accepts as far as syntax goes: a
      sign, a base prefix and at least one digit of that base. */
  predicate WellFormed(s: string)
  {
    Body(Unsigned(s)) != [] && AllIn(Body(Unsigned(s)), Base(Unsigned(s)))
  }

  /** `strconv.ParseInt(s, 0, 64)`: a syntax error, a range error (the
      magnitude exceeds 64 bits, or the signed value the int64 range), or
      the value. */
  function ParseInt(s: string): (r: Result<int>)
    ensures r.Ok? ==> MinInt64 <= r.value <= MaxInt64
    ensures r.Err? ==> r.error == IntSyntax(s) || r.error == IntRange(s)
  {
    match ParseUint(Unsigned(s))
    case BadSyntax => Err(IntSyntax(s))
    case OutOfRange => Err(IntRange(s))
    case Value(n) =>
      var v: int := if Negative(s) then -(n as int) else n;
      if v < MinInt64 || MaxInt64 < v then Err(IntRange(s)) else Ok(v)
  }

  /** The number `strconv.ParseInt` returns beside its error: zero for a
      syntax error, the int64 bound of the input's sign for a range error. */
  function ParseIntValue(s: string): (v: int)
    ensures MinInt64 <= v <= MaxInt64
    ensures ParseInt(s).Ok? ==> v == ParseInt(s).value
    ensures ParseInt(s).Err? && ParseInt(s).error.IntSyntax? ==> v == 0
  {
    match ParseInt(s)
    case Ok(v) => v
    case Err(IntRange(_)) => if Negative(s) then MinInt64 else MaxInt64
    case Err(_) => 0
  }

  // ---------------------------------------------------------------------
  // Properties of ParseInt
  // ---------------------------------------------------------------------

  /** Syntax errors are exactly the ill-formed texts whose digits do not
      overflow first: text that is well formed fails, if at all, only for
      range, and any text that parses is well formed. */
  lemma ParseIntWellFormed(s: string)
    ensures ParseInt(s).Ok? ==> WellFormed(s)
    ensures WellFormed(s) ==> ParseInt(s).Ok? || ParseInt(s).error == IntRange(s)
  {
    var body := Body(Unsigned(s));
    ValidRunSpec(body, Base(Unsigned(s)));
    if ValidRun(body, Base(Unsigned(s))) == |body| {
      assert body[..|body|] == body;
    }
  }

  /** The scan stops exactly at the first character that is not a digit of
      the base. */
  lemma {:induction false} ValidRunSpec(d: string, base: nat)
    ensures AllIn(d[..ValidRun(d, base)], base)
    ensures ValidRun(d, base) < |d| ==> DigitIn(d[ValidRun(d, base)]) >= base
  {
    if d != [] && DigitIn(d[0]) < base {
      ValidRunSpec(d[1..], base);
      var k := ValidRun(d, base);
      assert forall i :: 1 <= i < k ==> d[..k][i] == d[1..][..k - 1][i - 1];
    }
  }

  lemma {:induction false} ValueInDecimal(d: string)
    requires AllDigits(d)
    ensures AllIn(d, 10) && ValueIn(d, 10) == DigitsValue(d)
  {
    if d != [] {
      ValueInDecimal(d[..|d| - 1]);
    }
  }

  /** A plain decimal text reads as its decimal value, or as a range error
      when that value leaves the int64 range. */
  lemma ParseIntDecimal(s: string)
    requires IsDecimal(Unsigned(s))
    ensures var v: int := if Negative(s) then -(DigitsValue(Unsigned(s)) as int) else DigitsValue(Unsigned(s));
      ParseInt(s) == if MinInt64 <= v <= MaxInt64 then Ok(v) else Err(IntRange(s))
  {
    var u := Unsigned(s);
    ValueInDecimal(u);
    if u[0] == '0' {
      assert |u| == 1 && Base(u) == 8 && Body(u) == u;
      assert DigitIn(u[0]) == 0;
      assert ValidRun(u, 8) == 1;
      assert u[..1] == u && u[..0] == [];
      assert ValueIn(u, 8) == 0 && DigitsValue(u) == 0;
    } else {
      assert Base(u) == 10 && Body(u) == u;
      ValidRunSpec(u, 10);
      assert ValidRun(u, 10) == |u| && u[..|u|] == u;
    }
  }

  /** Well-formed digits whose value fits 64 bits read as that value. */
  lemma ParseUintOf(u: string)
    requires Body(u) != [] && AllIn(Body(u), Base(u)) && ValueIn(Body(u), Base(u)) <= MaxUint64
    ensures ParseUint(u) == Value(ValueIn(Body(u), Base(u)))
  {
    var body := Body(u);
    ValidRunSpec(body, Base(u));
    assert ValidRun(body, Base(u)) == |body| && body[..|body|] == body;
  }

  /** Well-formed text whose digits are worth `n` in the base it names
      reads as `n` with the text's sign. */
  lemma ParseIntOf(s: string, n: nat)
    requires WellFormed(s) && ValueIn(Body(Unsigned(s)), Base(Unsigned(s))) == n && n <= MaxInt64
    ensures ParseInt(s) == Ok(if Negative(s) then -(n as int) else n)
  {
    ParseUintOf(Unsigned(s));
  }

  lemma TwoDigits(d: string, base: nat)
    requires |d| == 2 && DigitIn(d[0]) < base && DigitIn(d[1]) < base
    ensures AllIn(d, base) && ValueIn(d, base) == DigitIn(d[0]) * base + DigitIn(d[1])
  {
    var p := d[..1];
    assert p[..0] == [] && p[0] == d[0];
    assert ValueIn(p, base) == DigitIn(d[0]);
  }

  /** "0x" and "0X" select hexadecimal, with letters of either case. */
  lemma ParseIntHex()
    ensures ParseInt("0x1F") == Ok(31)
  {
    var s := "0x1F";
    assert Unsigned(s) == s && Base(s) == 16 && Body(s) == "1F";
    TwoDigits("1F", 16);
    ParseIntOf(s, 31);
  }

  lemma ParseIntNegativeHex()
    ensures ParseInt("-0Xff") == Ok(-255)
  {
    var s := "-0Xff";
    assert Unsigned(s) == "0Xff" && Base("0Xff") == 16 && Body("0Xff") == "ff";
    TwoDigits("ff", 16);
    ParseIntOf(s, 255);
  }

  /** A leading "0" selects octal, and the 0 counts as a digit. */
  lemma ParseIntOctal()
    ensures ParseInt("017") == Ok(15)
  {
    var s := "017";
    assert Unsigned(s) == s && Base(s) == 8 && Body(s) == s;
    TwoDigits("01", 8);
    assert s[..2] == "01";
    assert AllIn(s, 8) && ValueIn(s, 8) == 15;
    ParseIntOf(s, 15);
  }

  /** A prefix needs digits after it, octal text admits no 8 or 9, and a
      sign alone is no number. */
  lemma ParseIntSyntaxErrors()
    ensures ParseInt("0x") == Err(IntSyntax("0x"))
    ensures ParseInt("09") == Err(IntSyntax("09"))
    ensures ParseInt("+") == Err(IntSyntax("+"))
  {
    assert Body("0x") == [];
    assert Body("09") == "09" && ValidRun("09", 8) == 1;
    assert "09"[..1] == "0";
    assert Unsigned("+") == [];
  }

  /** The int64 range is signed: its least value has no positive
      counterpart. */
  lemma ParseIntLeast()
    ensures ParseInt(FormatInt(MinInt64)) == Ok(MinInt64)
  {
    FormatNatIsDecimal(-MinInt64);
    assert Unsigned(FormatInt(MinInt64)) == FormatNat(-MinInt64);
    ParseIntDecimal(FormatInt(MinInt64));
  }

  lemma ParseIntPastGreatest()
    ensures ParseInt(FormatNat(MaxInt64 + 1)) == Err(IntRange(FormatNat(MaxInt64 + 1)))
  {
    FormatNatIsDecimal(MaxInt64 + 1);
    assert Unsigned(FormatNat(MaxInt64 + 1)) == FormatNat(MaxInt64 + 1);
    ParseIntDecimal(FormatNat(MaxInt64 + 1));
  }

  lemma MulMono(x: nat, b: nat)
    requires b > 0
    ensures x * b >= x
  {
  }

  lemma {:induction false} ValueInPrefix(d: string, base: nat, j: nat, k: nat)
    requires j <= k <= |d| && base > 0
    ensures ValueIn(d[..j], base) <= ValueIn(d[..k], base)
    decreases k
  {
    if j < k {
      var p := d[..k - 1];
      assert d[..k][..k - 1] == p;
      ValueInPrefix(d, base, j, k - 1);
      assert ValueIn(d[..k], base) == ValueIn(p, base) * base + DigitIn(d[..k][k - 1]);
      MulMono(ValueIn(p, base), base);
    }
  }

  lemma {:induction false} ValidRunAppend(d: string, t: string, base: nat)
    ensures ValidRun(d + t, base) >= ValidRun(d, base)
    ensures ValidRun(d, base) < |d| ==> ValidRun(d + t, base) == ValidRun(d, base)
    ensures (d + t)[..ValidRun(d, base)] == d[..ValidRun(d, base)]
  {
    if d != [] && DigitIn(d[0]) < base {
      assert (d + t)[1..] == d[1..] + t;
      ValidRunAppend(d[1..], t, base);
    }
  }

  lemma ShortValue(d: string, base: nat)
    requires |d| <= 1
    ensures ValueIn(d, base) <= 36
  {
    if |d| == 1 {
      assert d[..0] == [];
    }
  }

  /** The base prefix of a text of two or more characters is settled. */
  lemma PrefixAppend(u: string, t: string)
    requires |u| >= 2
    ensures Base(u + t) == Base(u) && Body(u + t) == Body(u) + t
  {
    assert (u + t)[0] == u[0] && (u + t)[1] == u[1];
    if Base(u) == 16 {
      assert (u + t)[2..] == u[2..] + t;
    }
  }

  /** Once the digits read so far exceed 64 bits the scan stops with a range
      error: whatever follows them is never looked at. */
  lemma OverflowIgnoresRest(s: string, t: string)
    requires ParseUint(Unsigned(s)) == OutOfRange
    ensures ParseInt(s + t) == Err(IntRange(s + t))
  {
    var u := Unsigned(s);
    var base := Base(u);
    var body := Body(u);
    var k := ValidRun(body, base);
    assert ValueIn(body[..k], base) > MaxUint64;
    if |u| < 2 {
      assert |body| <= 1;
      ShortValue(body[..k], base);
      assert false;
    }
    assert Unsigned(s + t) == u + t;
    PrefixAppend(u, t);
    ValidRunAppend(body, t, base);
    ValueInPrefix(body + t, base, k, ValidRun(body + t, base));
  }

  // ---------------------------------------------------------------------
  // Writing integers back
  // ---------------------------------------------------------------------

  /** Decimal rendering of a natural number (`strconv.FormatInt`, base 10). */
  function FormatNat(n: nat): string
  {
    if n < 10 then [DigitChar(n)] else FormatNat(n / 10) + [DigitChar(n % 10)]
  }

  function FormatInt(n: int): string
  {
    if n < 0 then "-" + FormatNat(-n) else FormatNat(n)
  }

  lemma {:induction false} FormatNatIsDecimal(n: nat)
    ensures IsDecimal(FormatNat(n)) && DigitsValue(FormatNat(n)) == n
    ensures n > 0 ==> FormatNat(n)[0] != '0'
  {
    if n >= 10 {
      FormatNatIsDecimal(n / 10);
      var s := FormatNat(n / 10) + [DigitChar(n % 10)];
      assert s[..|s| - 1] == FormatNat(n / 10);
      assert s[0] == FormatNat(n / 10)[0];
    }
  }

  /** The decimal rendering of n: its sign, then digits without a leading
      zero whose value is the magnitude of n. */
  lemma FormatIntDecimal(n: int)
    ensures IsDecimal(Unsigned(FormatInt(n))) && (Negative(FormatInt(n)) <==> n < 0)
    ensures DigitsValue(Unsigned(FormatInt(n))) == if n < 0 then -n else n
  {
    var s := FormatInt(n);
    if n < 0 {
      FormatNatIsDecimal(-n);
      assert Unsigned(s) == FormatNat(-n);
    } else {
      FormatNatIsDecimal(n);
      assert FormatNat(n)[0] != '-' && FormatNat(n)[0] != '+';
      assert Unsigned(s) == FormatNat(n);
    }
  }

  /** Every int64 survives a round trip through its decimal rendering. */
  lemma ParseFormatRoundTrip(n: int)
    requires MinInt64 <= n <= MaxInt64
    ensures ParseInt(FormatInt(n)) == Ok(n)
  {
    FormatIntDecimal(n);
    ParseIntDecimal(FormatInt(n));
  }
}
