/** account.go: decoders for the account endpoints. Each takes what the
    request layer returned (a result element or an error) in place of the
    call `a.Get(path, params)`, whose code is not part of this model. */
module Account {
  import opened Errors
  import opened Etree
  import opened Numbers
  import opened Util
  import opened TimeFixtures

  /** aStatus: times are Unix seconds. */
  datatype Status = Status(paid: int, created: int, logins: int, minutesPlayed: int)

  /** aCharacter */
  datatype Character = Character(id: int, name: string, corpId: int, corpName: string)

  /** aKInfo: `expires` is None where Go leaves the pointer nil. */
  datatype KeyInfo = KeyInfo(accessMask: int, keyType: string, expires: Option<int>, characters: map<int, Character>)

  /** key_types: the server's key type names and the package's short names. */
  const KeyTypes: map<string, string> := map["Account" := "account", "Character" := "char", "Corporation" := "corp"]

  // ---------------------------------------------------------------------
  // AccountStatus
  // ---------------------------------------------------------------------

  /** AccountStatus: the four fields in order; the first that is missing
      or does not parse aborts with its error. */
  function AccountStatus(fetched: Result<Element>): Result<Status>
  {
    var result :- fetched;
    var paid :- GetTimeValue(result, "paidUntil");
    var created :- GetTimeValue(result, "createDate");
    var logins :- GetIntValue(result, "logonCount");
    var minutes :- GetIntValue(result, "logonMinutes");
    Ok(Status(paid, created, logins, minutes))
  }

  /** AccountStatus succeeds exactly when the request did and each field is
      present and parses; the record holds the parsed fields. An error of
      the request is returned unchanged, and otherwise the error is that of
      the first failing field in the order paidUntil, createDate,
      logonCount, logonMinutes. */
  lemma AccountStatusSpec(fetched: Result<Element>)
    ensures fetched.Err? ==> AccountStatus(fetched) == Err(fetched.error)
    ensures fetched.Ok? ==>
      var e := fetched.value;
      var paid, created := GetTimeValue(e, "paidUntil"), GetTimeValue(e, "createDate");
      var logins, minutes := GetIntValue(e, "logonCount"), GetIntValue(e, "logonMinutes");
      && (AccountStatus(fetched).Ok? <==> paid.Ok? && created.Ok? && logins.Ok? && minutes.Ok?)
      && (AccountStatus(fetched).Ok? ==>
            AccountStatus(fetched).value == Status(paid.value, created.value, logins.value, minutes.value))
      && (paid.Err? ==> AccountStatus(fetched) == Err(paid.error))
      && (paid.Ok? && created.Err? ==> AccountStatus(fetched) == Err(created.error))
      && (paid.Ok? && created.Ok? && logins.Err? ==> AccountStatus(fetched) == Err(logins.error))
      && (paid.Ok? && created.Ok? && logins.Ok? && minutes.Err? ==> AccountStatus(fetched) == Err(minutes.error))
  {
  }

  /** The status document of the package's test. */
  function StatusFixture(): Element
  {
    Element("result", map[], "", [
      Element("paidUntil", map[], "2011-01-01 00:00:00", []),
      Element("createDate", map[], "2004-01-01 00:00:00", []),
      Element("logonCount", map[], FormatInt(1234), []),
      Element("logonMinutes", map[], FormatInt(9999), [])])
  }

  lemma StatusFixtureTimes(e: Element)
    requires e == StatusFixture()
    ensures GetTimeValue(e, "paidUntil") == Ok(1293840000)
    ensures GetTimeValue(e, "createDate") == Ok(1072915200)
  {
    assert Find(e, "paidUntil") == Some(e.children[0]);
    assert Find(e, "createDate") == Some(e.children[1]);
    PaidUntilFixture();
    CreateDateFixture();
  }

  lemma StatusFixtureCounts(e: Element)
    requires e == StatusFixture()
    ensures GetIntValue(e, "logonCount") == Ok(1234)
    ensures GetIntValue(e, "logonMinutes") == Ok(9999)
  {
    assert Find(e, "logonCount") == Some(e.children[2]);
    assert Find(e, "logonMinutes") == Some(e.children[3]);
    ParseFormatRoundTrip(1234);
    ParseFormatRoundTrip(9999);
  }

  lemma AccountStatusFixture(e: Element)
    requires e == StatusFixture()
    ensures AccountStatus(Ok(e)) == Ok(Status(1293840000, 1072915200, 1234, 9999))
  {
    StatusFixtureTimes(e);
    StatusFixtureCounts(e);
  }

  // ---------------------------------------------------------------------
  // Character rows, shared by AccountKeyInfo and AccountCharacters
  // ---------------------------------------------------------------------

  /** One character row; `nameAttr` is "characterName" in the key info and
      "name" in the character list. */
  function DecodeCharacter(row: Element, nameAttr: string): Result<Character>
  {
    var id :- ParseInt(First(Get(row, "characterID")));
    var (name, hasName) := Get(row, nameAttr);
    if !hasName then Err(NoCharacterName)
    else
      var corpId :- ParseInt(First(Get(row, "corporationID")));
      var (corpName, hasCorp) := Get(row, "corporationName");
      if !hasCorp then Err(NoCorpName(name))
      else Ok(Character(id, name, corpId, corpName))
  }

  /** A row decodes exactly when its two ids parse and both names are
      present; a missing name is an error even when the ids are fine. */
  lemma DecodeCharacterSpec(row: Element, nameAttr: string)
    ensures DecodeCharacter(row, nameAttr).Ok? <==>
      && ParseInt(First(Get(row, "characterID"))).Ok?
      && nameAttr in row.attrs
      && ParseInt(First(Get(row, "corporationID"))).Ok?
      && "corporationName" in row.attrs
    ensures DecodeCharacter(row, nameAttr).Ok? ==>
      DecodeCharacter(row, nameAttr).value == Character(
        ParseInt(row.attrs["characterID"]).value, row.attrs[nameAttr],
        ParseInt(row.attrs["corporationID"]).value, row.attrs["corporationName"])
    ensures ParseInt(First(Get(row, "characterID"))).Ok? && nameAttr !in row.attrs ==>
      DecodeCharacter(row, nameAttr) == Err(NoCharacterName)
    ensures ParseInt(First(Get(row, "characterID"))).Ok? && nameAttr in row.attrs
            && ParseInt(First(Get(row, "corporationID"))).Ok? && "corporationName" !in row.attrs ==>
      DecodeCharacter(row, nameAttr) == Err(NoCorpName(row.attrs[nameAttr]))
    ensures ParseInt(First(Get(row, "characterID"))).Err? ==>
      DecodeCharacter(row, nameAttr) == Err(ParseInt(First(Get(row, "characterID"))).error)
    ensures ParseInt(First(Get(row, "characterID"))).Ok? && nameAttr in row.attrs
            && ParseInt(First(Get(row, "corporationID"))).Err? ==>
      DecodeCharacter(row, nameAttr) == Err(ParseInt(First(Get(row, "corporationID"))).error)
  {
  }

  /** The rows decoded in order into `acc`, each stored under its id; the
      first row that fails aborts the whole. */
  function CharacterMap(rows: seq<Element>, nameAttr: string, acc: map<int, Character>): Result<map<int, Character>>
  {
    if rows == [] then Ok(acc)
    else
      var c :- DecodeCharacter(rows[0], nameAttr);
      CharacterMap(rows[1..], nameAttr, acc[c.id := c])
  }

  /** The loop over `rowset.FindAll("row")` that fills the characters map. */
  method DecodeCharacterRows(rows: seq<Element>, nameAttr: string) returns (r: Result<map<int, Character>>)
    ensures r == CharacterMap(rows, nameAttr, map[])
  {
    var m: map<int, Character> := map[];
    for i := 0 to |rows|
      invariant CharacterMap(rows, nameAttr, map[]) == CharacterMap(rows[i..], nameAttr, m)
    {
      var c := DecodeCharacter(rows[i], nameAttr);
      if c.Err? {
        return Err(c.error);
      }
      assert rows[i..][1..] == rows[i + 1..];
      m := m[c.value.id := c.value];
    }
    assert rows[|rows|..] == [];
    return Ok(m);
  }

  /** A row after the others overwrites the entry of its id, so of several
      rows with one id the last wins; a row that fails makes the whole fail. */
  lemma {:induction false} CharacterMapSnoc(rows: seq<Element>, nameAttr: string, acc: map<int, Character>, row: Element)
    requires CharacterMap(rows, nameAttr, acc).Ok?
    ensures CharacterMap(rows + [row], nameAttr, acc) ==
      match DecodeCharacter(row, nameAttr)
      case Err(e) => Err(e)
      case Ok(c) => Ok(CharacterMap(rows, nameAttr, acc).value[c.id := c])
  {
    if rows == [] {
      assert [row][1..] == [];
    } else {
      var c := DecodeCharacter(rows[0], nameAttr).value;
      assert (rows + [row])[0] == rows[0];
      assert (rows + [row])[1..] == rows[1..] + [row];
      CharacterMapSnoc(rows[1..], nameAttr, acc[c.id := c], row);
    }
  }

  /** When the rows decode into a map, every row decoded. */
  lemma {:induction false} CharacterMapRowsDecode(rows: seq<Element>, nameAttr: string, acc: map<int, Character>)
    requires CharacterMap(rows, nameAttr, acc).Ok?
    ensures forall i :: 0 <= i < |rows| ==> DecodeCharacter(rows[i], nameAttr).Ok?
  {
    if rows != [] {
      var c := DecodeCharacter(rows[0], nameAttr).value;
      var tail := rows[1..];
      CharacterMapRowsDecode(tail, nameAttr, acc[c.id := c]);
      assert forall i :: 0 < i < |rows| ==> rows[i] == tail[i - 1];
    }
  }

  /** The ids in the map are those already in `acc` and those of the rows. */
  lemma {:induction false} CharacterMapKeys(rows: seq<Element>, nameAttr: string, acc: map<int, Character>, id: int)
    requires CharacterMap(rows, nameAttr, acc).Ok?
    ensures id in CharacterMap(rows, nameAttr, acc).value <==>
      || id in acc
      || exists i :: 0 <= i < |rows| && DecodeCharacter(rows[i], nameAttr).Ok? && DecodeCharacter(rows[i], nameAttr).value.id == id
  {
    if rows != [] {
      var c := DecodeCharacter(rows[0], nameAttr).value;
      var tail := rows[1..];
      CharacterMapKeys(tail, nameAttr, acc[c.id := c], id);
      if exists i :: 0 <= i < |tail| && DecodeCharacter(tail[i], nameAttr).Ok? && DecodeCharacter(tail[i], nameAttr).value.id == id {
        var k :| 0 <= k < |tail| && DecodeCharacter(tail[k], nameAttr).Ok? && DecodeCharacter(tail[k], nameAttr).value.id == id;
        assert rows[k + 1] == tail[k];
      }
      if exists i :: 0 <= i < |rows| && DecodeCharacter(rows[i], nameAttr).Ok? && DecodeCharacter(rows[i], nameAttr).value.id == id {
        var k :| 0 <= k < |rows| && DecodeCharacter(rows[k], nameAttr).Ok? && DecodeCharacter(rows[k], nameAttr).value.id == id;
        if k > 0 {
          assert tail[k - 1] == rows[k];
        }
      }
    }
  }

  /** Each character is stored under its own id. */
  lemma {:induction false} CharacterMapIds(rows: seq<Element>, nameAttr: string, acc: map<int, Character>)
    requires CharacterMap(rows, nameAttr, acc).Ok?
    requires forall id :: id in acc ==> acc[id].id == id
    ensures forall id :: id in CharacterMap(rows, nameAttr, acc).value ==> CharacterMap(rows, nameAttr, acc).value[id].id == id
  {
    if rows != [] {
      var c := DecodeCharacter(rows[0], nameAttr).value;
      CharacterMapIds(rows[1..], nameAttr, acc[c.id := c]);
    }
  }

  /** When some row fails, the result is the error of the first one. */
  lemma {:induction false} CharacterMapFirstError(rows: seq<Element>, nameAttr: string, acc: map<int, Character>, k: int)
    requires 0 <= k < |rows| && DecodeCharacter(rows[k], nameAttr).Err?
    requires forall i :: 0 <= i < k ==> DecodeCharacter(rows[i], nameAttr).Ok?
    ensures CharacterMap(rows, nameAttr, acc) == Err(DecodeCharacter(rows[k], nameAttr).error)
  {
    if k > 0 {
      var c := DecodeCharacter(rows[0], nameAttr).value;
      assert rows[1..][k - 1] == rows[k];
      forall i | 0 <= i < k - 1
        ensures DecodeCharacter(rows[1..][i], nameAttr).Ok?
      {
        assert rows[1..][i] == rows[i + 1];
      }
      CharacterMapFirstError(rows[1..], nameAttr, acc[c.id := c], k - 1);
    }
  }

  // ---------------------------------------------------------------------
  // AccountKeyInfo
  // ---------------------------------------------------------------------

  /** The attributes of the key element: access mask, key type, expiry. */
  function KeyHeader(key: Element): Result<(int, string, Option<int>)>
  {
    var mask :- ParseInt(First(Get(key, "accessMask")));
    var t := First(Get(key, "type"));
    if t !in KeyTypes then Err(NoKeyType)
    else
      var (exp, hasExp) := Get(key, "expires");
      if !hasExp then Ok((mask, KeyTypes[t], None))
      else
        var ts :- ParseEveTs(exp);
        Ok((mask, KeyTypes[t], Some(ts)))
  }

  /** The inputs on which AccountKeyInfo calls a method of a nil element,
      which panics in Go: a result without a `key` child, or a key whose
      attributes decode but that has no `rowset` child. */
  predicate KeyInfoPanics(fetched: Result<Element>)
  {
    && fetched.Ok?
    && match Find(fetched.value, "key")
       case None => true
       case Some(key) => KeyHeader(key).Ok? && Find(key, "rowset").None?
  }

  /** What AccountKeyInfo returns. */
  function KeyInfoOf(fetched: Result<Element>): Result<KeyInfo>
    requires !KeyInfoPanics(fetched)
  {
    var result :- fetched;
    var key := Find(result, "key").value;
    var header :- KeyHeader(key);
    var rowset := Find(key, "rowset").value;
    var chars :- CharacterMap(FindAll(rowset, "row"), "characterName", map[]);
    Ok(KeyInfo(header.0, header.1, header.2, chars))
  }

  method AccountKeyInfo(fetched: Result<Element>) returns (r: Result<KeyInfo>)
    requires !KeyInfoPanics(fetched)
    ensures r == KeyInfoOf(fetched)
    ensures fetched.Err? ==> r == Err(fetched.error)
  {
    if fetched.Err? {
      return Err(fetched.error);
    }
    var key := Find(fetched.value, "key").value;
    var mask := ParseInt(First(Get(key, "accessMask")));
    if mask.Err? {
      return Err(mask.error);
    }
    var t := First(Get(key, "type"));
    if t !in KeyTypes {
      return Err(NoKeyType);
    }
    var expires: Option<int> := None;
    var (temp, ok) := Get(key, "expires");
    if ok {
      var ts := ParseEveTs(temp);
      if ts.Err? {
        return Err(ts.error);
      }
      expires := Some(ts.value);
    }
    var rowset := Find(key, "rowset").value;
    var chars := DecodeCharacterRows(FindAll(rowset, "row"), "characterName");
    if chars.Err? {
      return Err(chars.error);
    }
    return Ok(KeyInfo(mask.value, KeyTypes[t], expires, chars.value));
  }

  /** The access mask is read first: a mask that does not parse is the
      header's error, and a header that decodes carries the parsed mask. */
  lemma KeyHeaderSpec(key: Element)
    ensures ParseInt(First(Get(key, "accessMask"))).Err? ==>
      KeyHeader(key) == Err(ParseInt(First(Get(key, "accessMask"))).error)
    ensures KeyHeader(key).Ok? ==>
      && ParseInt(First(Get(key, "accessMask"))).Ok?
      && KeyHeader(key).value.0 == ParseInt(First(Get(key, "accessMask"))).value
  {
  }

  /** The key type is decoded from exactly the three names of key_types;
      any other value, or no `type` attribute, is the error NoKeyType. */
  lemma KeyTypeMapping(key: Element)
    requires ParseInt(First(Get(key, "accessMask"))).Ok?
    ensures KeyHeader(key) == Err(NoKeyType) <==>
      "type" !in key.attrs || key.attrs["type"] !in {"Account", "Character", "Corporation"}
    ensures KeyHeader(key).Ok? ==>
      && "type" in key.attrs
      && (key.attrs["type"] == "Account" ==> KeyHeader(key).value.1 == "account")
      && (key.attrs["type"] == "Character" ==> KeyHeader(key).value.1 == "char")
      && (key.attrs["type"] == "Corporation" ==> KeyHeader(key).value.1 == "corp")
  {
    if "type" in key.attrs && key.attrs["type"] in {"Account", "Character", "Corporation"} {
      var h := KeyHeader(key);
      assert h.Err? ==> h.error.BadTimestamp?;
    }
  }

  /** Expires is nil exactly when the key has no `expires` attribute;
      otherwise it is the parsed timestamp, and a timestamp that does not
      parse makes the whole call fail. */
  lemma ExpiresRule(key: Element)
    requires ParseInt(First(Get(key, "accessMask"))).Ok? && First(Get(key, "type")) in KeyTypes
    ensures "expires" !in key.attrs ==> KeyHeader(key).Ok? && KeyHeader(key).value.2 == None
    ensures "expires" in key.attrs ==>
      match ParseEveTs(key.attrs["expires"])
      case Ok(t) => KeyHeader(key).Ok? && KeyHeader(key).value.2 == Some(t)
      case Err(e) => KeyHeader(key) == Err(e)
  {
  }

  /** The key info document of the package's test. */
  function KeyInfoFixtureDoc(): Element
  {
    Element("result", map[], "", [
      Element("key", map["accessMask" := FormatInt(59760264), "type" := "Character", "expires" := "2011-09-11 00:00:00"], "", [
        Element("rowset", map["name" := "characters"], "", [
          Element("row", map["characterID" := FormatInt(898901870), "characterName" := "Desmont McCallock",
                             "corporationID" := FormatInt(1000009), "corporationName" := "Caldari Provisions"], "", [])])])])
  }

  lemma KeyInfoFixtureParts(doc: Element)
    requires doc == KeyInfoFixtureDoc()
    ensures Find(doc, "key") == Some(doc.children[0])
    ensures Find(doc.children[0], "rowset") == Some(doc.children[0].children[0])
    ensures FindAll(doc.children[0].children[0], "row") == [doc.children[0].children[0].children[0]]
  {
  }

  /** A key whose attributes are the text of a mask, a known type and an
      expiry that parses has that header. */
  lemma KeyHeaderOf(key: Element, mask: int, ts: int)
    requires MinInt64 <= mask <= MaxInt64
    requires "accessMask" in key.attrs && key.attrs["accessMask"] == FormatInt(mask)
    requires "type" in key.attrs && key.attrs["type"] in KeyTypes
    requires "expires" in key.attrs && ParseEveTs(key.attrs["expires"]) == Ok(ts)
    ensures KeyHeader(key) == Ok((mask, KeyTypes[key.attrs["type"]], Some(ts)))
  {
    ParseFormatRoundTrip(mask);
  }

  /** A row whose attributes are the texts of a character's fields decodes
      to that character. */
  lemma DecodeCharacterOf(row: Element, nameAttr: string, c: Character)
    requires MinInt64 <= c.id <= MaxInt64 && MinInt64 <= c.corpId <= MaxInt64
    requires "characterID" in row.attrs && row.attrs["characterID"] == FormatInt(c.id)
    requires nameAttr in row.attrs && row.attrs[nameAttr] == c.name
    requires "corporationID" in row.attrs && row.attrs["corporationID"] == FormatInt(c.corpId)
    requires "corporationName" in row.attrs && row.attrs["corporationName"] == c.corpName
    ensures DecodeCharacter(row, nameAttr) == Ok(c)
  {
    ParseFormatRoundTrip(c.id);
    ParseFormatRoundTrip(c.corpId);
  }

  lemma KeyInfoFixtureHeader(key: Element)
    requires key == KeyInfoFixtureDoc().children[0]
    ensures KeyHeader(key) == Ok((59760264, "char", Some(1315699200)))
  {
    ExpiresFixture();
    KeyHeaderOf(key, 59760264, 1315699200);
  }

  lemma KeyInfoFixtureRow(row: Element)
    requires row == KeyInfoFixtureDoc().children[0].children[0].children[0]
    ensures DecodeCharacter(row, "characterName")
      == Ok(Character(898901870, "Desmont McCallock", 1000009, "Caldari Provisions"))
  {
    DecodeCharacterOf(row, "characterName", Character(898901870, "Desmont McCallock", 1000009, "Caldari Provisions"));
  }

  /** A single row that decodes gives a map of one character. */
  lemma CharacterMapSingle(row: Element, nameAttr: string, c: Character)
    requires DecodeCharacter(row, nameAttr) == Ok(c)
    ensures CharacterMap([row], nameAttr, map[]) == Ok(map[c.id := c])
  {
    assert [row][1..] == [];
  }

  /** KeyInfoOf from the results of its steps. */
  lemma KeyInfoOfSteps(doc: Element, key: Element, rowset: Element, h: (int, string, Option<int>), m: map<int, Character>)
    requires Find(doc, "key") == Some(key) && KeyHeader(key) == Ok(h) && Find(key, "rowset") == Some(rowset)
    requires CharacterMap(FindAll(rowset, "row"), "characterName", map[]) == Ok(m)
    ensures !KeyInfoPanics(Ok(doc))
    ensures KeyInfoOf(Ok(doc)) == Ok(KeyInfo(h.0, h.1, h.2, m))
  {
  }

  lemma KeyInfoFixture(doc: Element)
    requires doc == KeyInfoFixtureDoc()
    ensures !KeyInfoPanics(Ok(doc))
    ensures KeyInfoOf(Ok(doc)) == Ok(KeyInfo(59760264, "char", Some(1315699200),
      map[898901870 := Character(898901870, "Desmont McCallock", 1000009, "Caldari Provisions")]))
  {
    var key := doc.children[0];
    var rowset := key.children[0];
    var row := rowset.children[0];
    var c := Character(898901870, "Desmont McCallock", 1000009, "Caldari Provisions");
    KeyInfoFixtureParts(doc);
    KeyInfoFixtureHeader(key);
    KeyInfoFixtureRow(row);
    CharacterMapSingle(row, "characterName", c);
    KeyInfoOfSteps(doc, key, rowset, (59760264, "char", Some(1315699200)), map[898901870 := c]);
  }

  // ---------------------------------------------------------------------
  // AccountCharacters
  // ---------------------------------------------------------------------

  /** AccountCharacters: the characters map of the `rowset` child. */
  method AccountCharacters(fetched: Result<Element>) returns (r: Result<map<int, Character>>)
    ensures fetched.Err? ==> r == Err(fetched.error)
    ensures fetched.Ok? && Find(fetched.value, "rowset").None? ==> r == Err(NoRowset)
    ensures fetched.Ok? && Find(fetched.value, "rowset").Some? ==>
      r == CharacterMap(FindAll(Find(fetched.value, "rowset").value, "row"), "name", map[])
  {
    if fetched.Err? {
      return Err(fetched.error);
    }
    var rowset := Find(fetched.value, "rowset");
    if rowset.None? {
      return Err(NoRowset);
    }
    r := DecodeCharacterRows(FindAll(rowset.value, "row"), "name");
  }

  /** The character list document of the package's test. */
  function CharactersFixtureDoc(): Element
  {
    Element("result", map[], "", [
      Element("rowset", map["name" := "characters"], "", [
        Element("row", map["name" := "Alexis Prey", "characterID" := FormatInt(1365215823),
                           "corporationName" := "Puppies To the Rescue", "corporationID" := FormatInt(238510404)], "", [])])])
  }

  lemma CharactersFixtureRows(doc: Element)
    requires doc == CharactersFixtureDoc()
    ensures Find(doc, "rowset") == Some(doc.children[0])
    ensures FindAll(doc.children[0], "row") == [doc.children[0].children[0]]
  {
  }

  lemma CharactersFixtureRow(row: Element)
    requires row == CharactersFixtureDoc().children[0].children[0]
    ensures DecodeCharacter(row, "name") == Ok(Character(1365215823, "Alexis Prey", 238510404, "Puppies To the Rescue"))
  {
    DecodeCharacterOf(row, "name", Character(1365215823, "Alexis Prey", 238510404, "Puppies To the Rescue"));
  }

  lemma CharactersFixture(doc: Element)
    requires doc == CharactersFixtureDoc()
    ensures Find(doc, "rowset").Some?
    ensures CharacterMap(FindAll(Find(doc, "rowset").value, "row"), "name", map[])
      == Ok(map[1365215823 := Character(1365215823, "Alexis Prey", 238510404, "Puppies To the Rescue")])
  {
    var row := doc.children[0].children[0];
    var c := Character(1365215823, "Alexis Prey", 238510404, "Puppies To the Rescue");
    CharactersFixtureRows(doc);
    CharactersFixtureRow(row);
    CharacterMapSingle(row, "name", c);
  }
}
