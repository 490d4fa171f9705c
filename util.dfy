/** util.go: value conversions shared by the endpoint decoders. */
module Util {
  import opened Errors
  import opened Etree
  import opened Numbers
  import opened Calendar

  // ---------------------------------------------------------------------
  // parseEveTs: time.Parse with the layout "2006-01-02 15:04:05", in UTC
  // ---------------------------------------------------------------------

  predicate IsSeparatorPos(i: int) { i == 4 || i == 7 || i == 10 || i == 13 || i == 16 }

  /** The text has the shape of the layout: four year digits, then two
      digits per field, with `-`, ` ` and `:` in between. */
  predicate MatchesLayout(s: string)
  {
    && |s| == 19
    && s[4] == '-' && s[7] == '-' && s[10] == ' ' && s[13] == ':' && s[16] == ':'
    && forall i :: 0 <= i < 19 && !IsSeparatorPos(i) ==> IsDigit(s[i])
  }

  function Num2(s: string, i: nat): (n: nat)
    requires i + 1 < |s| && IsDigit(s[i]) && IsDigit(s[i + 1])
    ensures n < 100
  {
    10 * DigitValue(s[i]) + DigitValue(s[i + 1])
  }

  /** The date and time fields read from a text of the layout's shape. */
  function LayoutFields(s: string): (dt: DateTime)
    requires MatchesLayout(s)
    ensures 0 <= dt.year < 10000
  {
    DateTime(100 * Num2(s, 0) + Num2(s, 2), Num2(s, 5), Num2(s, 8), Num2(s, 11), Num2(s, 14), Num2(s, 17))
  }

  /** util.go parseEveTs: the Unix time of a `YYYY-MM-DD HH:MM:SS` UTC
      timestamp; any other shape, or a field out of range (month, day of
      that month, hour, minute, second), is an error. */
  function ParseEveTs(s: string): (r: Result<int>)
  {
    if MatchesLayout(s) && Valid(LayoutFields(s)) then Ok(UnixSeconds(LayoutFields(s)))
    else Err(BadTimestamp(s))
  }

  function Pad2(n: nat): (s: string)
    requires n < 100
  {
    [DigitChar(n / 10), DigitChar(n % 10)]
  }

  /** The canonical text of a date-time in the layout (years 0 to 9999). */
  function FormatEveTs(dt: DateTime): (s: string)
    requires Valid(dt) && 0 <= dt.year < 10000
  {
    Pad2(dt.year / 100) + Pad2(dt.year % 100) + "-" + Pad2(dt.month) + "-" + Pad2(dt.day)
    + " " + Pad2(dt.hour) + ":" + Pad2(dt.minute) + ":" + Pad2(dt.second)
  }

  lemma Pad2Digits(n: nat)
    requires n < 100
    ensures IsDigit(Pad2(n)[0]) && IsDigit(Pad2(n)[1]) && Num2(Pad2(n), 0) == n
  {
  }

  /** Parsing the canonical text of a valid date-time gives its Unix time. */
  lemma ParseFormatEveTs(dt: DateTime)
    requires Valid(dt) && 0 <= dt.year < 10000
    ensures MatchesLayout(FormatEveTs(dt)) && LayoutFields(FormatEveTs(dt)) == dt
    ensures ParseEveTs(FormatEveTs(dt)) == Ok(UnixSeconds(dt))
  {
    var s := FormatEveTs(dt);
    FormatEveTsLayout(dt);
    Pad2Digits(dt.year / 100); Pad2Digits(dt.year % 100); Pad2Digits(dt.month); Pad2Digits(dt.day);
    Pad2Digits(dt.hour); Pad2Digits(dt.minute); Pad2Digits(dt.second);
    assert LayoutFields(s).year == 100 * (dt.year / 100) + dt.year % 100;
  }

  lemma Pad2OfNum2(s: string, i: nat)
    requires i + 1 < |s| && IsDigit(s[i]) && IsDigit(s[i + 1])
    ensures Pad2(Num2(s, i)) == [s[i], s[i + 1]]
  {
    var a, b := DigitValue(s[i]), DigitValue(s[i + 1]);
    assert Num2(s, i) / 10 == a && Num2(s, i) % 10 == b;
  }

  /** The canonical text of a date-time, read off character by character. */
  lemma FormatEveTsChars(dt: DateTime, s: string)
    requires Valid(dt) && 0 <= dt.year < 10000 && |s| == 19
    requires s[4] == '-' && s[7] == '-' && s[10] == ' ' && s[13] == ':' && s[16] == ':'
    requires Pad2(dt.year / 100) == [s[0], s[1]] && Pad2(dt.year % 100) == [s[2], s[3]]
    requires Pad2(dt.month) == [s[5], s[6]] && Pad2(dt.day) == [s[8], s[9]]
    requires Pad2(dt.hour) == [s[11], s[12]] && Pad2(dt.minute) == [s[14], s[15]]
    requires Pad2(dt.second) == [s[17], s[18]]
    ensures FormatEveTs(dt) == s
  {
    assert FormatEveTs(dt) == [s[0], s[1], s[2], s[3], '-', s[5], s[6], '-', s[8], s[9], ' ',
                               s[11], s[12], ':', s[14], s[15], ':', s[17], s[18]];
  }

  /** Where each field of the canonical text sits. */
  lemma FormatEveTsLayout(dt: DateTime)
    requires Valid(dt) && 0 <= dt.year < 10000
    ensures var s := FormatEveTs(dt);
      && |s| == 19 && s[4] == '-' && s[7] == '-' && s[10] == ' ' && s[13] == ':' && s[16] == ':'
      && [s[0], s[1]] == Pad2(dt.year / 100) && [s[2], s[3]] == Pad2(dt.year % 100)
      && [s[5], s[6]] == Pad2(dt.month) && [s[8], s[9]] == Pad2(dt.day)
      && [s[11], s[12]] == Pad2(dt.hour) && [s[14], s[15]] == Pad2(dt.minute)
      && [s[17], s[18]] == Pad2(dt.second)
  {
    var y1, y2, mo, d := Pad2(dt.year / 100), Pad2(dt.year % 100), Pad2(dt.month), Pad2(dt.day);
    var h, mi, se := Pad2(dt.hour), Pad2(dt.minute), Pad2(dt.second);
    FormatEveTsChars(dt, [y1[0], y1[1], y2[0], y2[1], '-', mo[0], mo[1], '-', d[0], d[1], ' ',
                          h[0], h[1], ':', mi[0], mi[1], ':', se[0], se[1]]);
  }

  /** Every text that parses is the canonical text of the date-time it
      denotes: the layout admits one spelling per instant. */
  lemma FormatParseEveTs(s: string)
    requires ParseEveTs(s).Ok?
    ensures Valid(LayoutFields(s)) && FormatEveTs(LayoutFields(s)) == s
  {
    var dt := LayoutFields(s);
    assert dt.year / 100 == Num2(s, 0) && dt.year % 100 == Num2(s, 2);
    assert IsDigit(s[0]) && IsDigit(s[1]) && IsDigit(s[2]) && IsDigit(s[3]);
    assert IsDigit(s[5]) && IsDigit(s[6]) && IsDigit(s[8]) && IsDigit(s[9]);
    assert IsDigit(s[11]) && IsDigit(s[12]) && IsDigit(s[14]) && IsDigit(s[15]);
    assert IsDigit(s[17]) && IsDigit(s[18]);
    Pad2OfNum2(s, 0); Pad2OfNum2(s, 2); Pad2OfNum2(s, 5); Pad2OfNum2(s, 8);
    Pad2OfNum2(s, 11); Pad2OfNum2(s, 14); Pad2OfNum2(s, 17);
    FormatEveTsChars(dt, s);
  }

  /** The instant of a canonical text: the day number of its date times
      the seconds of a day, plus the second of that day. */
  lemma ParseEveTsAt(s: string, dt: DateTime, days: int, seconds: int)
    requires Valid(dt) && 0 <= dt.year < 10000 && FormatEveTs(dt) == s
    requires DayNumber(dt) == days && SecondOfDay(dt) == seconds
    ensures ParseEveTs(s) == Ok(days * 86400 + seconds)
  {
    assert UnixSeconds(dt) == days * 86400 + seconds;
    ParseFormatEveTs(dt);
  }

  /** The same for a midnight, whose second of the day is 0. */
  lemma ParseMidnight(s: string, dt: DateTime, days: int)
    requires Valid(dt) && 0 <= dt.year < 10000 && FormatEveTs(dt) == s
    requires DayNumber(dt) == days && SecondOfDay(dt) == 0
    ensures ParseEveTs(s) == Ok(days * 86400)
  {
    assert UnixSeconds(dt) == days * 86400;
    ParseFormatEveTs(dt);
  }

  /** Distinct texts never parse to the same instant. */
  lemma ParseEveTsInjective(s1: string, s2: string)
    requires ParseEveTs(s1).Ok? && ParseEveTs(s1) == ParseEveTs(s2)
    ensures s1 == s2
  {
    UnixSecondsInjective(LayoutFields(s1), LayoutFields(s2));
    FormatParseEveTs(s1);
    FormatParseEveTs(s2);
  }

  /** A month out of range is rejected. */
  lemma RejectsMonth13()
    ensures ParseEveTs("2012-13-01 00:00:00").Err?
  {
  }

  /** A day past the end of its month is rejected (2011 is not a leap year). */
  lemma RejectsFebruary29()
    ensures ParseEveTs("2011-02-29 00:00:00").Err?
  {
    var s := "2011-02-29 00:00:00";
    if MatchesLayout(s) {
      assert Num2(s, 5) == 2 && Num2(s, 8) == 29 && Num2(s, 0) == 20 && Num2(s, 2) == 11;
      assert !IsLeap(LayoutFields(s).year);
    }
  }

  /** Hour 24 is rejected. */
  lemma RejectsHour24()
    ensures ParseEveTs("2012-06-12 24:00:00").Err?
  {
  }

  /** Another separator, or trailing text such as a zone, is rejected. */
  lemma RejectsOtherShapes()
    ensures ParseEveTs("2012-06-12T12:04:33").Err?
    ensures ParseEveTs("2012-06-12 12:04:33Z").Err?
  {
  }

  // ---------------------------------------------------------------------
  // first and the get*Value helpers
  // ---------------------------------------------------------------------

  /** util.go first: keeps the string of a `(string, bool)` pair, so
      `First(Get(e, name))` is the attribute's value or "" when absent. */
  function First(v: (string, bool)): string { v.0 }

  lemma FirstOfGet(e: Element, name: string)
    ensures First(Get(e, name)) == if name in e.attrs then e.attrs[name] else ""
    ensures name !in e.attrs ==> ParseInt(First(Get(e, name))) == Err(IntSyntax(""))
  {
  }

  function GetStrValue(e: Element, child: string): Result<string>
  {
    match Find(e, child)
    case None => Err(MissingChild(child, e.tag))
    case Some(c) => Ok(c.text)
  }

  function GetTimeValue(e: Element, child: string): Result<int>
  {
    match Find(e, child)
    case None => Err(MissingChild(child, e.tag))
    case Some(c) => ParseEveTs(c.text)
  }

  function GetIntValue(e: Element, child: string): Result<int>
  {
    match Find(e, child)
    case None => Err(MissingChild(child, e.tag))
    case Some(c) => ParseInt(c.text)
  }

  function BoolLiteral(b: bool): string { if b then "True" else "False" }

  function GetBoolValue(e: Element, child: string): Result<bool>
  {
    match Find(e, child)
    case None => Err(MissingChild(child, e.tag))
    case Some(c) =>
      if c.text == "True" then Ok(true)
      else if c.text == "False" then Ok(false)
      else Err(UnknownBool(c.text))
  }

  /** The rule the get*Value helpers share: a missing child is the error
      MissingChild, and only a missing child is; when the child exists the
      result is its text, parsed as the helper's type. */
  lemma MissingChildRule(e: Element, child: string)
    ensures GetStrValue(e, child).Err? <==> Find(e, child).None?
    ensures Find(e, child).None? ==>
      && GetStrValue(e, child) == Err(MissingChild(child, e.tag))
      && GetTimeValue(e, child) == Err(MissingChild(child, e.tag))
      && GetIntValue(e, child) == Err(MissingChild(child, e.tag))
      && GetBoolValue(e, child) == Err(MissingChild(child, e.tag))
    ensures Find(e, child).Some? ==>
      && GetStrValue(e, child) == Ok(Find(e, child).value.text)
      && GetTimeValue(e, child) == ParseEveTs(Find(e, child).value.text)
      && GetIntValue(e, child) == ParseInt(Find(e, child).value.text)
      && !(GetTimeValue(e, child).Err? && GetTimeValue(e, child).error.MissingChild?)
      && !(GetIntValue(e, child).Err? && GetIntValue(e, child).error.MissingChild?)
      && !(GetBoolValue(e, child).Err? && GetBoolValue(e, child).error.MissingChild?)
  {
  }

  /** getBoolValue accepts exactly the two literals "True" and "False". */
  lemma GetBoolValueLiterals(e: Element, child: string, b: bool)
    ensures GetBoolValue(e, child) == Ok(b) <==>
      Find(e, child).Some? && Find(e, child).value.text == BoolLiteral(b)
    ensures GetBoolValue(e, child).Err? <==>
      Find(e, child).None? || Find(e, child).value.text !in {"True", "False"}
  {
  }

  // ---------------------------------------------------------------------
  // extractKeyval
  // ---------------------------------------------------------------------

  /** Length of the leading run of characters other than '\n'. */
  function LineEnd(s: string): (n: nat)
    ensures n <= |s|
    ensures forall i :: 0 <= i < n ==> s[i] != '\n'
    ensures n < |s| ==> s[n] == '\n'
  {
    if s == [] || s[0] == '\n' then 0 else 1 + LineEnd(s[1..])
  }

  /** `strings.FieldsFunc(s, func(r) { r == '\n' })`: the maximal runs of
      characters other than '\n', so that empty lines are dropped. */
  function Lines(s: string): (r: seq<string>)
    ensures forall l :: l in r ==> |l| > 0 && '\n' !in l
    decreases |s|
  {
    if s == [] then []
    else if s[0] == '\n' then Lines(s[1..])
    else
      var n := LineEnd(s);
      [s[..n]] + Lines(s[n..])
  }

  /** The lines joined by single newlines. */
  function JoinLines(ls: seq<string>): string
  {
    if ls == [] then "" else if |ls| == 1 then ls[0] else ls[0] + "\n" + JoinLines(ls[1..])
  }

  lemma {:induction false} LineEndAppend(l: string, t: string)
    requires '\n' !in l
    requires t == [] || t[0] == '\n'
    ensures LineEnd(l + t) == |l|
  {
    if l != [] {
      assert (l + t)[1..] == l[1..] + t;
      LineEndAppend(l[1..], t);
    } else {
      assert l + t == t;
    }
  }

  /** A first line and the newline after it split off as one line. */
  lemma FirstLineOfJoin(l: string, rest: string)
    requires |l| > 0 && '\n' !in l
    ensures Lines(l + ("\n" + rest)) == [l] + Lines(rest)
  {
    var s := l + ("\n" + rest);
    LineEndAppend(l, "\n" + rest);
    assert s[..|l|] == l;
    assert s[|l|..] == "\n" + rest;
    assert ("\n" + rest)[1..] == rest;
  }

  /** Splitting joined lines gives the lines back (when none is empty). */
  lemma {:induction false} LinesOfJoin(ls: seq<string>)
    requires forall l :: l in ls ==> |l| > 0 && '\n' !in l
    ensures Lines(JoinLines(ls)) == ls
  {
    if ls == [] {
    } else if |ls| == 1 {
      var l := ls[0];
      LineEndAppend(l, []);
      assert l + [] == l;
      assert l[..|l|] == l && l[|l|..] == [];
    } else {
      assert JoinLines(ls) == ls[0] + ("\n" + JoinLines(ls[1..]));
      FirstLineOfJoin(ls[0], JoinLines(ls[1..]));
      LinesOfJoin(ls[1..]);
      assert ls == [ls[0]] + ls[1..];
    }
  }

  /** s holds ": " at index i. */
  predicate SepAt(s: string, i: int)
  {
    0 <= i && i + 1 < |s| && s[i] == ':' && s[i + 1] == ' '
  }

  /** Index of the first ": " in s. */
  function SepIndex(s: string): (r: Option<nat>)
    ensures r.Some? ==> SepAt(s, r.value)
    ensures r.Some? ==> forall i :: 0 <= i < r.value ==> !SepAt(s, i)
    ensures r.None? ==> forall i :: !SepAt(s, i)
  {
    if |s| < 2 then None
    else if s[0] == ':' && s[1] == ' ' then Some(0)
    else
      assert forall i :: 0 < i ==> SepAt(s, i) == SepAt(s[1..], i - 1);
      match SepIndex(s[1..])
      case None => None
      case Some(i) => Some(i + 1)
  }

  predicate HasSep(s: string) { SepIndex(s).Some? }

  /** `strings.Split(line, ": ")[0]`: the text before the first ": ". */
  function Key(line: string): string
    requires HasSep(line)
  {
    line[..SepIndex(line).value]
  }

  /** `strings.Split(line, ": ")[1]`: the text between the first and the
      second ": ", or to the end of the line when there is no second one. */
  function Value(line: string): string
    requires HasSep(line)
  {
    var rest := line[SepIndex(line).value + 2..];
    match SepIndex(rest)
    case None => rest
    case Some(j) => rest[..j]
  }

  /** The map built from the lines, first to last, later lines overwriting
      earlier ones with the same key. */
  function KeyvalMap(lines: seq<string>): map<string, string>
    requires forall l :: l in lines ==> HasSep(l)
  {
    if lines == [] then map[]
    else
      var last := lines[|lines| - 1];
      KeyvalMap(lines[..|lines| - 1])[Key(last) := Value(last)]
  }

  /** util.go extractKeyval. Go indexes `r[1]`, so a non-empty line without
      ": " is out of range; callers must not pass one. */
  method ExtractKeyval(data: string) returns (ret: map<string, string>)
    requires forall l :: l in Lines(data) ==> HasSep(l)
    ensures ret == KeyvalMap(Lines(data))
  {
    var pairs := Lines(data);
    ret := map[];
    for i := 0 to |pairs|
      invariant ret == KeyvalMap(pairs[..i])
    {
      var r := pairs[i];
      assert pairs[..i + 1][..i] == pairs[..i];
      ret := ret[Key(r) := Value(r)];
    }
    assert pairs[..|pairs|] == pairs;
  }

  /** A key is in the map exactly when some line has it. */
  lemma {:induction false} KeyvalKeys(lines: seq<string>, k: string)
    requires forall l :: l in lines ==> HasSep(l)
    ensures k in KeyvalMap(lines) <==> exists i :: 0 <= i < |lines| && Key(lines[i]) == k
  {
    if lines != [] {
      var n := |lines| - 1;
      var init := lines[..n];
      assert forall l :: l in init ==> l in lines;
      KeyvalKeys(init, k);
      assert KeyvalMap(lines) == KeyvalMap(init)[Key(lines[n]) := Value(lines[n])];
      if Key(lines[n]) != k {
        assert forall i :: 0 <= i < n ==> init[i] == lines[i];
        assert (exists i :: 0 <= i < |lines| && Key(lines[i]) == k) ==> exists i :: 0 <= i < n && Key(init[i]) == k;
      }
    }
  }

  /** The value of a key is that of the last line with that key. */
  lemma {:induction false} KeyvalLastWins(lines: seq<string>, i: int)
    requires forall l :: l in lines ==> HasSep(l)
    requires 0 <= i < |lines|
    requires forall j :: i < j < |lines| ==> Key(lines[j]) != Key(lines[i])
    ensures Key(lines[i]) in KeyvalMap(lines) && KeyvalMap(lines)[Key(lines[i])] == Value(lines[i])
  {
    var n := |lines| - 1;
    if i < n {
      var init := lines[..n];
      assert forall l :: l in init ==> l in lines;
      assert init[i] == lines[i];
      forall j | i < j < |init|
        ensures Key(init[j]) != Key(init[i])
      {
        assert init[j] == lines[j];
      }
      KeyvalLastWins(init, i);
    }
  }

  /** The line `key: value`. */
  function Render(p: (string, string)): string { p.0 + ": " + p.1 }

  /** The map built from pairs, later pairs overwriting earlier ones. */
  function PairsMap(ps: seq<(string, string)>): map<string, string>
  {
    if ps == [] then map[] else PairsMap(ps[..|ps| - 1])[ps[|ps| - 1].0 := ps[|ps| - 1].1]
  }

  predicate PlainText(s: string) { '\n' !in s && !HasSep(s) }

  lemma SepIndexAppend(k: string, v: string)
    requires !HasSep(k)
    ensures SepIndex(k + ": " + v) == Some(|k|)
  {
    var s := k + ": " + v;
    assert SepAt(s, |k|);
    forall i | 0 <= i < |k|
      ensures !SepAt(s, i)
    {
      if i + 1 < |k| {
        assert SepAt(s, i) == SepAt(k, i);
      }
    }
    KeyBeforeSep(s, |k|);
  }

  lemma {:induction false} KeyBeforeSep(s: string, n: nat)
    requires SepAt(s, n)
    requires forall i :: 0 <= i < n ==> !SepAt(s, i)
    ensures SepIndex(s) == Some(n)
  {
    if n > 0 {
      assert !SepAt(s, 0);
      forall i | 0 <= i < n - 1
        ensures !SepAt(s[1..], i)
      {
        assert SepAt(s[1..], i) == SepAt(s, i + 1);
      }
      assert SepAt(s[1..], n - 1) == SepAt(s, n);
      KeyBeforeSep(s[1..], n - 1);
    }
  }

  /** A rendered line splits back into its key and value. */
  lemma KeyValueOfRender(p: (string, string))
    requires PlainText(p.0) && PlainText(p.1)
    ensures HasSep(Render(p)) && Key(Render(p)) == p.0 && Value(Render(p)) == p.1
  {
    SepIndexAppend(p.0, p.1);
    var s := Render(p);
    assert s[..|p.0|] == p.0;
    assert s[|p.0| + 2..] == p.1;
  }

  function RenderAll(ps: seq<(string, string)>): (ls: seq<string>)
    ensures |ls| == |ps|
  {
    if ps == [] then [] else RenderAll(ps[..|ps| - 1]) + [Render(ps[|ps| - 1])]
  }

  /** extractKeyval inverts the rendering of key/value pairs as lines:
      the result maps each key to the value of its last pair. */
  lemma {:induction false} ExtractKeyvalOfRendered(ps: seq<(string, string)>)
    requires forall p :: p in ps ==> PlainText(p.0) && PlainText(p.1)
    ensures forall l :: l in Lines(JoinLines(RenderAll(ps))) ==> HasSep(l)
    ensures KeyvalMap(Lines(JoinLines(RenderAll(ps)))) == PairsMap(ps)
  {
    RenderedLines(ps);
    LinesOfJoin(RenderAll(ps));
  }

  lemma {:induction false} RenderedLines(ps: seq<(string, string)>)
    requires forall p :: p in ps ==> PlainText(p.0) && PlainText(p.1)
    ensures forall l :: l in RenderAll(ps) ==> |l| > 0 && '\n' !in l && HasSep(l)
    ensures KeyvalMap(RenderAll(ps)) == PairsMap(ps)
  {
    if ps != [] {
      var n := |ps| - 1;
      RenderedLines(ps[..n]);
      var p := ps[n];
      KeyValueOfRender(p);
      var l := Render(p);
      assert '\n' !in l by {
        assert l == p.0 + ": " + p.1;
        assert forall i :: 0 <= i < |l| ==> l[i] != '\n' by {
          forall i | 0 <= i < |l| ensures l[i] != '\n' {
            if i < |p.0| { assert l[i] == p.0[i]; }
            else if i >= |p.0| + 2 { assert l[i] == p.1[i - |p.0| - 2]; }
          }
        }
      }
      var ls := RenderAll(ps);
      assert ls[..n] == RenderAll(ps[..n]);
    }
  }

  // ---------------------------------------------------------------------
  // parseMSDate: Windows FILETIME ticks to Unix seconds
  // ---------------------------------------------------------------------

  /** FILETIME ticks (100 ns) per second, and seconds from 1601-01-01 to
      1970-01-01. */
  const TicksPerSecond: int := 10000000
  const FileTimeEpochOffset: int := 11644473600

  /** Go's integer division, which truncates toward zero. */
  function TruncDiv(a: int, b: int): (q: int)
    requires b > 0
    ensures a >= 0 ==> 0 <= a - q * b < b
    ensures a < 0 ==> -b < a - q * b <= 0
  {
    if a >= 0 then a / b else -((-a) / b)
  }

  /** util.go parseMSDate. */
  function ParseMSDate(data: string): Result<int>
  {
    var i :- ParseInt(data);
    Ok(TruncDiv(i, TicksPerSecond) - FileTimeEpochOffset)
  }

  /** Text that is not an integer is ParseInt's error; any integer count,
      in any base ParseInt accepts, is its truncated second minus the
      seconds from 1601 to 1970. */
  lemma ParseMSDateSpec(s: string)
    ensures ParseInt(s).Err? ==> ParseMSDate(s) == Err(ParseInt(s).error)
    ensures ParseInt(s).Ok? ==>
      ParseMSDate(s) == Ok(TruncDiv(ParseInt(s).value, TicksPerSecond) - FileTimeEpochOffset)
  {
  }

  /** A FILETIME written in decimal reads back as the Unix second it falls
      in (ticks from 1601 on, where truncation and flooring agree). */
  lemma ParseMSDateOfTicks(u: int, t: int)
    requires 0 <= t < TicksPerSecond
    requires 0 <= (u + FileTimeEpochOffset) * TicksPerSecond + t <= MaxInt64
    ensures ParseMSDate(FormatInt((u + FileTimeEpochOffset) * TicksPerSecond + t)) == Ok(u)
  {
    var ticks := (u + FileTimeEpochOffset) * TicksPerSecond + t;
    ParseFormatRoundTrip(ticks);
    var q := TruncDiv(ticks, TicksPerSecond);
    assert (q - (u + FileTimeEpochOffset)) * TicksPerSecond == t - (ticks - q * TicksPerSecond);
  }

  /** Ticks before 1601 are negative and Go's division truncates them
      toward zero: a FILETIME that falls inside a second before 1601 reads
      as the second after it, one later than flooring would give. */
  lemma ParseMSDateBefore1601(t: int)
    requires 0 < t <= -MinInt64
    ensures ParseMSDate(FormatInt(-t)) == Ok(-(t / TicksPerSecond) - FileTimeEpochOffset)
    ensures t % TicksPerSecond != 0 ==>
      ParseMSDate(FormatInt(-t)) == Ok((-t) / TicksPerSecond + 1 - FileTimeEpochOffset)
  {
    ParseFormatRoundTrip(-t);
    TruncDivNegative(t);
  }

  lemma TruncDivNegative(t: int)
    requires t > 0
    ensures TruncDiv(-t, TicksPerSecond) == -(t / TicksPerSecond)
    ensures t % TicksPerSecond != 0 ==> (-t) / TicksPerSecond == -(t / TicksPerSecond) - 1
  {
    var q, r := t / TicksPerSecond, t % TicksPerSecond;
    assert -t == (-q - 1) * TicksPerSecond + (TicksPerSecond - r);
  }

  /** A count of ticks in another base is read too: "0x0" is 1601 itself. */
  lemma ParseMSDateHex()
    ensures ParseMSDate("0x0") == Ok(-FileTimeEpochOffset)
  {
    var s := "0x0";
    assert Unsigned(s) == s && Base(s) == 16 && Body(s) == "0";
    assert "0"[..0] == [] && AllIn("0", 16) && ValueIn("0", 16) == 0;
    ParseIntOf(s, 0);
  }
}
