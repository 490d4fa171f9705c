/** char.go: decoders for the character endpoints. As in the account
    decoders, each takes what the request layer returned in place of the
    call `a.Get(path, params)`. */
module Char {
  import opened Errors
  import opened Etree
  import opened Numbers
  import opened Util

  /** cAsset: `contents` holds the assets inside a container. */
  datatype Asset = Asset(id: int, itemTypeId: int, quantity: int, locationId: int, locationFlag: int,
                         packaged: bool, contents: seq<Asset>)

  /** cContractBid: the timestamp is in Unix seconds. */
  datatype ContractBid = ContractBid(id: int, contractId: int, bidderId: int, amount: int, timestamp: int)

  /** cContractItem */
  datatype ContractItem = ContractItem(id: int, typeId: int, quantity: int, rawQuantity: int,
                                       action: string, singleton: bool)

  /** `strconv.ParseInt(first(row.Get(name)), 0, 64)` */
  function IntAttr(row: Element, name: string): Result<int>
  {
    ParseInt(First(Get(row, name)))
  }

  // ---------------------------------------------------------------------
  // handleAssetRowset
  // ---------------------------------------------------------------------

  /** The attributes of one asset row, without its contents: five integers
      in order (the first that fails aborts) and the packaged flag. */
  function AssetFields(row: Element): Result<Asset>
  {
    var id :- IntAttr(row, "itemID");
    var typeId :- IntAttr(row, "typeID");
    var locationId :- IntAttr(row, "locationID");
    var flag :- IntAttr(row, "flag");
    var quantity :- IntAttr(row, "quantity");
    Ok(Asset(id, typeId, quantity, locationId, flag, First(Get(row, "singleton")) == "0", []))
  }

  /** The five integers decode in order, the error is that of the first
      that fails, and an asset is packaged exactly when its singleton
      attribute is "0" (a missing attribute counts as not packaged). */
  lemma AssetFieldsSpec(row: Element)
    ensures AssetFields(row).Ok? <==>
      && IntAttr(row, "itemID").Ok? && IntAttr(row, "typeID").Ok? && IntAttr(row, "locationID").Ok?
      && IntAttr(row, "flag").Ok? && IntAttr(row, "quantity").Ok?
    ensures AssetFields(row).Ok? ==>
      var a := AssetFields(row).value;
      && a.id == IntAttr(row, "itemID").value && a.itemTypeId == IntAttr(row, "typeID").value
      && a.locationId == IntAttr(row, "locationID").value && a.locationFlag == IntAttr(row, "flag").value
      && a.quantity == IntAttr(row, "quantity").value && a.contents == []
      && (a.packaged <==> "singleton" in row.attrs && row.attrs["singleton"] == "0")
    ensures IntAttr(row, "itemID").Err? ==> AssetFields(row) == Err(IntAttr(row, "itemID").error)
    ensures IntAttr(row, "itemID").Ok? && IntAttr(row, "typeID").Err? ==>
      AssetFields(row) == Err(IntAttr(row, "typeID").error)
    ensures IntAttr(row, "itemID").Ok? && IntAttr(row, "typeID").Ok? && IntAttr(row, "locationID").Err? ==>
      AssetFields(row) == Err(IntAttr(row, "locationID").error)
    ensures IntAttr(row, "itemID").Ok? && IntAttr(row, "typeID").Ok? && IntAttr(row, "locationID").Ok?
            && IntAttr(row, "flag").Err? ==>
      AssetFields(row) == Err(IntAttr(row, "flag").error)
    ensures IntAttr(row, "itemID").Ok? && IntAttr(row, "typeID").Ok? && IntAttr(row, "locationID").Ok?
            && IntAttr(row, "flag").Ok? && IntAttr(row, "quantity").Err? ==>
      AssetFields(row) == Err(IntAttr(row, "quantity").error)
  {
  }

  // As written: char.go:38-44 recurses only when the row has NO nested
  // rowset, that is on a nil element, and never decodes a nested rowset.

  /** The rows on which the code as written does not call a method of a
      nil element: every row reached with decodable fields has a nested
      rowset (which the code then ignores). */
  predicate AsWrittenSafe(rows: seq<Element>)
  {
    rows == [] || AssetFields(rows[0]).Err? || (Find(rows[0], "rowset").Some? && AsWrittenSafe(rows[1..]))
  }

  /** What handleAssetRowset as written returns on rows it does not panic on. */
  function AssetRowsAsWritten(rows: seq<Element>): Partial<seq<Asset>>
    requires AsWrittenSafe(rows)
  {
    if rows == [] then Partial([], None)
    else match AssetFields(rows[0])
      case Err(e) => Partial([], Some(e))
      case Ok(a) =>
        var rest := AssetRowsAsWritten(rows[1..]);
        Partial([a] + rest.value, rest.err)
  }

  /** `ret` before the result of the remaining rows. */
  function Prepend(ret: seq<Asset>, p: Partial<seq<Asset>>): Partial<seq<Asset>>
  {
    Partial(ret + p.value, p.err)
  }

  /** Prefixing `ret` and then `a` is prefixing `ret + [a]`. */
  lemma PrependStep(ret: seq<Asset>, a: Asset, p: Partial<seq<Asset>>)
    ensures Prepend(ret, Prepend([a], p)) == Prepend(ret + [a], p)
  {
    assert ret + ([a] + p.value) == (ret + [a]) + p.value;
  }

  /** One row of the loop as written. */
  lemma AsWrittenAdvance(rows: seq<Element>, i: int)
    requires 0 <= i < |rows| && AsWrittenSafe(rows[i..])
    ensures AssetFields(rows[i]).Err? ==>
      AssetRowsAsWritten(rows[i..]) == Partial([], Some(AssetFields(rows[i]).error))
    ensures AssetFields(rows[i]).Ok? ==>
      && Find(rows[i], "rowset").Some?
      && AsWrittenSafe(rows[i + 1..])
      && AssetRowsAsWritten(rows[i..]) == Prepend([AssetFields(rows[i]).value], AssetRowsAsWritten(rows[i + 1..]))
  {
    assert rows[i..][0] == rows[i] && rows[i..][1..] == rows[i + 1..];
  }

  /** handleAssetRowset as written (the location argument is unused). */
  method HandleAssetRowsetAsWritten(rowset: Element) returns (r: Partial<seq<Asset>>)
    requires AsWrittenSafe(FindAll(rowset, "row"))
    ensures r == AssetRowsAsWritten(FindAll(rowset, "row"))
  {
    var rows := FindAll(rowset, "row");
    var ret: seq<Asset> := [];
    assert rows[0..] == rows;
    assert AssetRowsAsWritten(rows) == Prepend(ret, AssetRowsAsWritten(rows[0..])) by {
      assert ret + AssetRowsAsWritten(rows).value == AssetRowsAsWritten(rows).value;
    }
    for i := 0 to |rows|
      invariant AsWrittenSafe(rows[i..])
      invariant AssetRowsAsWritten(rows) == Prepend(ret, AssetRowsAsWritten(rows[i..]))
    {
      AsWrittenAdvance(rows, i);
      var fields := AssetFields(rows[i]);
      if fields.Err? {
        assert Prepend(ret, Partial([], Some(fields.error))) == Partial(ret, Some(fields.error)) by {
          assert ret + [] == ret;
        }
        return Partial(ret, Some(fields.error));
      }
      var contents := Find(rows[i], "rowset");
      if contents.None? {
        // Here the code recurses on the nil element and panics.
        assert false;
      }
      PrependStep(ret, fields.value, AssetRowsAsWritten(rows[i + 1..]));
      ret := ret + [fields.value];
    }
    assert rows[|rows|..] == [];
    assert Prepend(ret, Partial([], None)) == Partial(ret, None) by {
      assert ret + [] == ret;
    }
    return Partial(ret, None);
  }

  /** As written, no decoded asset has contents. */
  lemma {:induction false} AsWrittenNoContents(rows: seq<Element>)
    requires AsWrittenSafe(rows)
    ensures forall a :: a in AssetRowsAsWritten(rows).value ==> a.contents == []
  {
    if rows != [] && AssetFields(rows[0]).Ok? {
      AsWrittenNoContents(rows[1..]);
      AssetFieldsSpec(rows[0]);
      assert AssetRowsAsWritten(rows).value == [AssetFields(rows[0]).value] + AssetRowsAsWritten(rows[1..]).value;
    }
  }

  /** Finding, first half: a row without a nested rowset (any item that is
      not a container) makes the code as written dereference nil, where the
      intended decoder returns the asset. */
  lemma AsWrittenPanicsOnLeaf(row: Element)
    requires row.tag == "row" && AssetFields(row).Ok? && Find(row, "rowset").None?
    ensures !AsWrittenSafe([row])
    ensures AssetRowset(Element("rowset", map[], "", [row])) == Partial([AssetFields(row).value], None)
  {
    var rowset := Element("rowset", map[], "", [row]);
    assert [row][1..] == [];
    assert FindAll(rowset, "row") == [row];
    assert AssetRow(row) == Ok(AssetFields(row).value);
    assert AssetRows(rowset, [row][1..]) == Partial([], None);
    assert [AssetFields(row).value] + [] == [AssetFields(row).value];
  }

  /** Finding, second half: a container whose contents decode gets no
      contents from the code as written, and gets them from the intended
      decoder. */
  lemma AsWrittenDropsContents(row: Element, nested: Element)
    requires AssetFields(row).Ok? && Find(row, "rowset") == Some(nested)
    requires AssetRowset(nested).err.None? && AssetRowset(nested).value != []
    ensures AsWrittenSafe([row]) && AssetRowsAsWritten([row]).value[0].contents == []
    ensures AssetRow(row).Ok? && AssetRow(row).value.contents == AssetRowset(nested).value
    ensures AssetRowsAsWritten([row]).value[0] != AssetRow(row).value
  {
    AssetRowCases(row);
  }

  // Corrected: recurse into the nested rowset when there is one.

  /** handleAssetRowset as intended: the assets of the rows in order, up to
      the first row that fails; `err` is that row's error. */
  function AssetRowset(rowset: Element): Partial<seq<Asset>>
    decreases rowset, 2
  {
    AssetRows(rowset, FindAll(rowset, "row"))
  }

  /** One row: its fields, and the assets of its nested rowset if it has
      one. A failure inside the nested rowset is the row's failure; the
      assets decoded there before it are dropped. */
  function AssetRow(row: Element): Result<Asset>
    decreases row, 0
  {
    var a :- AssetFields(row);
    match Find(row, "rowset")
    case None => Ok(a)
    case Some(nested) =>
      var sub := AssetRowset(nested);
      if sub.err.Some? then Err(sub.err.value) else Ok(a.(contents := sub.value))
  }

  function AssetRows(parent: Element, rows: seq<Element>): Partial<seq<Asset>>
    requires forall r :: r in rows ==> r in parent.children
    decreases parent, 1, |rows|
  {
    if rows == [] then Partial([], None)
    else
      assert rows[0] in parent.children;
      match AssetRow(rows[0])
      case Err(e) => Partial([], Some(e))
      case Ok(a) =>
        var rest := AssetRows(parent, rows[1..]);
        Partial([a] + rest.value, rest.err)
  }

  /** The result is a prefix of the rows' assets: each returned asset is
      its row's, the error is absent exactly when every row decoded, and
      otherwise it is the error of the first row that did not. */
  lemma {:induction false} AssetRowsShape(parent: Element, rows: seq<Element>)
    requires forall r :: r in rows ==> r in parent.children
    ensures |AssetRows(parent, rows).value| <= |rows|
    ensures forall i :: 0 <= i < |AssetRows(parent, rows).value| ==>
      AssetRow(rows[i]) == Ok(AssetRows(parent, rows).value[i])
    ensures AssetRows(parent, rows).err.None? <==> |AssetRows(parent, rows).value| == |rows|
    ensures AssetRows(parent, rows).err.Some? ==>
      var k := |AssetRows(parent, rows).value|;
      k < |rows| && AssetRow(rows[k]) == Err(AssetRows(parent, rows).err.value)
    decreases |rows|
  {
    if rows != [] {
      AssetRowsAdvance(parent, rows, 0);
      assert rows[0..] == rows;
      if AssetRow(rows[0]).Ok? {
        var tail := rows[1..];
        AssetRowsShape(parent, tail);
        var p, q := AssetRows(parent, rows), AssetRows(parent, tail);
        assert p.value == [AssetRow(rows[0]).value] + q.value && p.err == q.err;
        forall i | 0 < i < |p.value|
          ensures AssetRow(rows[i]) == Ok(p.value[i])
        {
          assert rows[i] == tail[i - 1] && p.value[i] == q.value[i - 1];
        }
        if p.err.Some? {
          assert rows[|p.value|] == tail[|q.value|];
        }
      }
    }
  }

  /** A row's asset has the row's fields and, when the row holds a nested
      rowset, exactly the assets decoded from it, all of them. */
  lemma AssetRowContents(row: Element)
    requires AssetRow(row).Ok?
    ensures AssetFields(row).Ok?
    ensures AssetRow(row).value == AssetFields(row).value.(contents := AssetRow(row).value.contents)
    ensures Find(row, "rowset").None? ==> AssetRow(row).value.contents == []
    ensures Find(row, "rowset").Some? ==>
      var nested := Find(row, "rowset").value;
      && AssetRowset(nested).err.None?
      && AssetRow(row).value.contents == AssetRowset(nested).value
  {
    AssetRowCases(row);
  }

  /** One row of the corrected loop. */
  lemma AssetRowsAdvance(parent: Element, rows: seq<Element>, i: int)
    requires 0 <= i < |rows| && forall r :: r in rows ==> r in parent.children
    ensures rows[i] in parent.children
    ensures AssetRow(rows[i]).Err? ==> AssetRows(parent, rows[i..]) == Partial([], Some(AssetRow(rows[i]).error))
    ensures AssetRow(rows[i]).Ok? ==>
      AssetRows(parent, rows[i..]) == Prepend([AssetRow(rows[i]).value], AssetRows(parent, rows[i + 1..]))
  {
    assert rows[i..][0] == rows[i] && rows[i..][1..] == rows[i + 1..];
  }

  /** The three outcomes of one row, case by case. */
  lemma AssetRowCases(row: Element)
    ensures AssetFields(row).Err? ==> AssetRow(row) == Err(AssetFields(row).error)
    ensures AssetFields(row).Ok? && Find(row, "rowset").None? ==> AssetRow(row) == Ok(AssetFields(row).value)
    ensures AssetFields(row).Ok? && Find(row, "rowset").Some? ==>
      var sub := AssetRowset(Find(row, "rowset").value);
      AssetRow(row) == if sub.err.Some? then Err(sub.err.value) else Ok(AssetFields(row).value.(contents := sub.value))
  {
  }

  /** handleAssetRowset with the guard of char.go:39 corrected. */
  method HandleAssetRowset(rowset: Element) returns (r: Partial<seq<Asset>>)
    ensures r == AssetRowset(rowset)
    decreases rowset, 2
  {
    var rows := FindAll(rowset, "row");
    var ret: seq<Asset> := [];
    assert rows[0..] == rows;
    assert AssetRowset(rowset) == Prepend(ret, AssetRows(rowset, rows[0..])) by {
      assert ret + AssetRowset(rowset).value == AssetRowset(rowset).value;
    }
    for i := 0 to |rows|
      invariant AssetRowset(rowset) == Prepend(ret, AssetRows(rowset, rows[i..]))
    {
      var row := rows[i];
      AssetRowsAdvance(rowset, rows, i);
      AssetRowCases(row);
      var fields := AssetFields(row);
      if fields.Err? {
        assert Prepend(ret, Partial([], Some(fields.error))) == Partial(ret, Some(fields.error)) by {
          assert ret + [] == ret;
        }
        return Partial(ret, Some(fields.error));
      }
      var asset := fields.value;
      var contents := Find(row, "rowset");
      if contents.Some? {
        var sub := HandleAssetRowset(contents.value);
        if sub.err.Some? {
          assert Prepend(ret, Partial([], sub.err)) == Partial(ret, sub.err) by {
            assert ret + [] == ret;
          }
          return Partial(ret, sub.err);
        }
        asset := asset.(contents := sub.value);
      }
      PrependStep(ret, asset, AssetRows(rowset, rows[i + 1..]));
      ret := ret + [asset];
    }
    assert rows[|rows|..] == [];
    assert Prepend(ret, Partial([], None)) == Partial(ret, None) by {
      assert ret + [] == ret;
    }
    return Partial(ret, None);
  }

  // ---------------------------------------------------------------------
  // CharAssets
  // ---------------------------------------------------------------------

  /** CharAssets: nothing and the request's error when it failed; nothing
      and no error when the result has no rowset; otherwise the assets of
      the rowset, decoded as intended. */
  method CharAssets(fetched: Result<Element>) returns (r: Partial<seq<Asset>>)
    ensures fetched.Err? ==> r == Partial([], Some(fetched.error))
    ensures fetched.Ok? && Find(fetched.value, "rowset").None? ==> r == Partial([], None)
    ensures fetched.Ok? && Find(fetched.value, "rowset").Some? ==>
      r == AssetRowset(Find(fetched.value, "rowset").value)
  {
    if fetched.Err? {
      return Partial([], Some(fetched.error));
    }
    var rowset := Find(fetched.value, "rowset");
    if rowset.None? {
      return Partial([], None);
    }
    r := HandleAssetRowset(rowset.value);
  }

  // ---------------------------------------------------------------------
  // Rows that decode all or nothing
  // ---------------------------------------------------------------------

  /** Every row decoded by `f`, in order; the first failure aborts and
      discards what was decoded before it. */
  function DecodeAll<T>(f: Element -> Result<T>, rows: seq<Element>): Result<seq<T>>
  {
    if rows == [] then Ok([])
    else
      var x :- f(rows[0]);
      var rest :- DecodeAll(f, rows[1..]);
      Ok([x] + rest)
  }

  /** DecodeAll succeeds exactly when every row decodes, and then holds one
      element per row, in the rows' order. */
  lemma {:induction false} DecodeAllOk<T>(f: Element -> Result<T>, rows: seq<Element>)
    ensures DecodeAll(f, rows).Ok? <==> forall i :: 0 <= i < |rows| ==> f(rows[i]).Ok?
    ensures DecodeAll(f, rows).Ok? ==>
      |DecodeAll(f, rows).value| == |rows|
      && forall i :: 0 <= i < |rows| ==> DecodeAll(f, rows).value[i] == f(rows[i]).value
  {
    if rows != [] {
      var tail := rows[1..];
      DecodeAllOk(f, tail);
      assert forall i :: 0 < i < |rows| ==> rows[i] == tail[i - 1];
      if DecodeAll(f, rows).Ok? {
        var v := DecodeAll(f, rows).value;
        forall i | 0 <= i < |rows|
          ensures f(rows[i]).Ok? && v[i] == f(rows[i]).value
        {
          if i > 0 {
            assert rows[i] == tail[i - 1];
          }
        }
      } else if f(rows[0]).Ok? {
        var k :| 0 <= k < |tail| && f(tail[k]).Err?;
        assert rows[k + 1] == tail[k];
      }
    }
  }

  /** When some row fails, the error is that of the first one. */
  lemma {:induction false} DecodeAllFirstError<T>(f: Element -> Result<T>, rows: seq<Element>, k: int)
    requires 0 <= k < |rows| && f(rows[k]).Err?
    requires forall i :: 0 <= i < k ==> f(rows[i]).Ok?
    ensures DecodeAll(f, rows) == Err(f(rows[k]).error)
  {
    if k > 0 {
      var tail := rows[1..];
      assert tail[k - 1] == rows[k];
      forall i | 0 <= i < k - 1
        ensures f(tail[i]).Ok?
      {
        assert tail[i] == rows[i + 1];
      }
      DecodeAllFirstError(f, tail, k - 1);
    }
  }

  /** `ret` before the result of the remaining rows. */
  function PrependAll<T>(ret: seq<T>, r: Result<seq<T>>): Result<seq<T>>
  {
    match r
    case Ok(rest) => Ok(ret + rest)
    case Err(e) => Err(e)
  }

  /** The loop shared by CharContractBids and CharContractItems. */
  method DecodeRows<T>(f: Element -> Result<T>, rows: seq<Element>) returns (r: Result<seq<T>>)
    ensures r == DecodeAll(f, rows)
  {
    var ret: seq<T> := [];
    assert rows[0..] == rows;
    assert DecodeAll(f, rows).Ok? ==> [] + DecodeAll(f, rows).value == DecodeAll(f, rows).value;
    assert PrependAll([], DecodeAll(f, rows)) == DecodeAll(f, rows);
    for i := 0 to |rows|
      invariant DecodeAll(f, rows) == PrependAll(ret, DecodeAll(f, rows[i..]))
    {
      assert rows[i..][0] == rows[i] && rows[i..][1..] == rows[i + 1..];
      var c := f(rows[i]);
      if c.Err? {
        return Err(c.error);
      }
      var rest := DecodeAll(f, rows[i + 1..]);
      assert DecodeAll(f, rows[i..]) == PrependAll([c.value], rest);
      if rest.Ok? {
        assert ret + ([c.value] + rest.value) == (ret + [c.value]) + rest.value;
      }
      ret := ret + [c.value];
    }
    assert rows[|rows|..] == [];
    assert DecodeAll(f, []) == Ok([]);
    assert ret + [] == ret;
    return Ok(ret);
  }

  // ---------------------------------------------------------------------
  // CharContractBids
  // ---------------------------------------------------------------------

  function DecodeBid(row: Element): Result<ContractBid>
  {
    var id :- IntAttr(row, "bidID");
    var contractId :- IntAttr(row, "contractID");
    var bidderId :- IntAttr(row, "bidderID");
    var amount :- IntAttr(row, "amount");
    var timestamp :- ParseEveTs(First(Get(row, "dateBid")));
    Ok(ContractBid(id, contractId, bidderId, amount, timestamp))
  }

  /** A bid decodes exactly when its four integers and its date do, and
      holds them; a date that is missing or malformed is a timestamp error. */
  lemma DecodeBidSpec(row: Element)
    ensures DecodeBid(row).Ok? <==>
      && IntAttr(row, "bidID").Ok? && IntAttr(row, "contractID").Ok? && IntAttr(row, "bidderID").Ok?
      && IntAttr(row, "amount").Ok? && ParseEveTs(First(Get(row, "dateBid"))).Ok?
    ensures DecodeBid(row).Ok? ==>
      DecodeBid(row).value == ContractBid(IntAttr(row, "bidID").value, IntAttr(row, "contractID").value,
        IntAttr(row, "bidderID").value, IntAttr(row, "amount").value, ParseEveTs(row.attrs["dateBid"]).value)
    ensures IntAttr(row, "bidID").Ok? && IntAttr(row, "contractID").Ok? && IntAttr(row, "bidderID").Ok?
            && IntAttr(row, "amount").Ok? && "dateBid" !in row.attrs ==>
      DecodeBid(row) == Err(BadTimestamp(""))
    ensures IntAttr(row, "bidID").Err? ==> DecodeBid(row) == Err(IntAttr(row, "bidID").error)
    ensures IntAttr(row, "bidID").Ok? && IntAttr(row, "contractID").Err? ==>
      DecodeBid(row) == Err(IntAttr(row, "contractID").error)
    ensures IntAttr(row, "bidID").Ok? && IntAttr(row, "contractID").Ok? && IntAttr(row, "bidderID").Err? ==>
      DecodeBid(row) == Err(IntAttr(row, "bidderID").error)
    ensures IntAttr(row, "bidID").Ok? && IntAttr(row, "contractID").Ok? && IntAttr(row, "bidderID").Ok?
            && IntAttr(row, "amount").Err? ==>
      DecodeBid(row) == Err(IntAttr(row, "amount").error)
    ensures IntAttr(row, "bidID").Ok? && IntAttr(row, "contractID").Ok? && IntAttr(row, "bidderID").Ok?
            && IntAttr(row, "amount").Ok? && ParseEveTs(First(Get(row, "dateBid"))).Err? ==>
      DecodeBid(row) == Err(ParseEveTs(First(Get(row, "dateBid"))).error)
  {
  }

  /** CharContractBids: the request's error, no bids when the result has no
      rowset, and otherwise every row's bid or the first row's error. */
  method CharContractBids(fetched: Result<Element>) returns (r: Result<seq<ContractBid>>)
    ensures fetched.Err? ==> r == Err(fetched.error)
    ensures fetched.Ok? && Find(fetched.value, "rowset").None? ==> r == Ok([])
    ensures fetched.Ok? && Find(fetched.value, "rowset").Some? ==>
      r == DecodeAll(DecodeBid, FindAll(Find(fetched.value, "rowset").value, "row"))
  {
    if fetched.Err? {
      return Err(fetched.error);
    }
    var rowset := Find(fetched.value, "rowset");
    if rowset.None? {
      return Ok([]);
    }
    r := DecodeRows(DecodeBid, FindAll(rowset.value, "row"));
  }

  // ---------------------------------------------------------------------
  // CharContractItems
  // ---------------------------------------------------------------------

  function DecodeItem(row: Element): Result<ContractItem>
  {
    var id :- IntAttr(row, "recordId");
    var typeId :- IntAttr(row, "typeId");
    var quantity :- IntAttr(row, "quantity");
    var rawQuantity := ParseIntValue(First(Get(row, "rawQuantity")));
    var (singleton, hasSingleton) := Get(row, "singleton");
    if !hasSingleton then Err(MissingAttribute("singleton"))
    else
      var (included, hasIncluded) := Get(row, "included");
      if !hasIncluded then Err(MissingAttribute("included"))
      else Ok(ContractItem(id, typeId, quantity, rawQuantity,
                           if included == "1" then "offered" else "requested", singleton == "1"))
  }

  /** An item is a singleton exactly when its attribute is "1", and is
      offered exactly when `included` is "1", requested otherwise; either
      attribute missing is an error once the integers decode. */
  lemma DecodeItemFlags(row: Element)
    ensures DecodeItem(row).Ok? ==>
      && "singleton" in row.attrs && "included" in row.attrs
      && (DecodeItem(row).value.singleton <==> row.attrs["singleton"] == "1")
      && (DecodeItem(row).value.action == "offered" <==> row.attrs["included"] == "1")
      && (DecodeItem(row).value.action == "requested" <==> row.attrs["included"] != "1")
    ensures IntAttr(row, "recordId").Ok? && IntAttr(row, "typeId").Ok? && IntAttr(row, "quantity").Ok? ==>
      && ("singleton" !in row.attrs ==> DecodeItem(row) == Err(MissingAttribute("singleton")))
      && ("singleton" in row.attrs && "included" !in row.attrs ==> DecodeItem(row) == Err(MissingAttribute("included")))
      && ("singleton" in row.attrs && "included" in row.attrs ==> DecodeItem(row).Ok?)
  {
  }

  /** An item's three integers are its parsed attributes, each must parse
      for the row to decode, and the first that fails, in the order
      recordId, typeId, quantity, is the row's error. */
  lemma DecodeItemIntegers(row: Element)
    ensures DecodeItem(row).Ok? ==>
      && IntAttr(row, "recordId").Ok? && DecodeItem(row).value.id == IntAttr(row, "recordId").value
      && IntAttr(row, "typeId").Ok? && DecodeItem(row).value.typeId == IntAttr(row, "typeId").value
      && IntAttr(row, "quantity").Ok? && DecodeItem(row).value.quantity == IntAttr(row, "quantity").value
    ensures IntAttr(row, "recordId").Err? ==> DecodeItem(row) == Err(IntAttr(row, "recordId").error)
    ensures IntAttr(row, "recordId").Ok? && IntAttr(row, "typeId").Err? ==>
      DecodeItem(row) == Err(IntAttr(row, "typeId").error)
    ensures IntAttr(row, "recordId").Ok? && IntAttr(row, "typeId").Ok? && IntAttr(row, "quantity").Err? ==>
      DecodeItem(row) == Err(IntAttr(row, "quantity").error)
  {
  }

  /** The raw quantity never makes a row fail: whatever that attribute
      holds, or its absence, the row decodes or fails alike and only the
      raw quantity differs, and it is what ParseIntValue makes of the text:
      the parsed value, 0 for text that is not a number, the int64 bound for
      one out of range. */
  lemma RawQuantityNeverFails(row: Element, raw: string)
    ensures DecodeItem(row.(attrs := row.attrs["rawQuantity" := raw])).Ok? <==> DecodeItem(row).Ok?
    ensures DecodeItem(row).Ok? ==>
      DecodeItem(row.(attrs := row.attrs["rawQuantity" := raw])).value
        == DecodeItem(row).value.(rawQuantity := ParseIntValue(raw))
  {
    var row' := row.(attrs := row.attrs["rawQuantity" := raw]);
    assert IntAttr(row', "recordId") == IntAttr(row, "recordId");
    assert IntAttr(row', "typeId") == IntAttr(row, "typeId");
    assert IntAttr(row', "quantity") == IntAttr(row, "quantity");
    assert Get(row', "singleton") == Get(row, "singleton");
    assert Get(row', "included") == Get(row, "included");
    assert First(Get(row', "rawQuantity")) == raw;
  }

  /** CharContractItems: the request's error, no items when the result has
      no rowset, and otherwise every row's item or the first row's error. */
  method CharContractItems(fetched: Result<Element>) returns (r: Result<seq<ContractItem>>)
    ensures fetched.Err? ==> r == Err(fetched.error)
    ensures fetched.Ok? && Find(fetched.value, "rowset").None? ==> r == Ok([])
    ensures fetched.Ok? && Find(fetched.value, "rowset").Some? ==>
      r == DecodeAll(DecodeItem, FindAll(Find(fetched.value, "rowset").value, "row"))
  {
    if fetched.Err? {
      return Err(fetched.error);
    }
    var rowset := Find(fetched.value, "rowset");
    if rowset.None? {
      return Ok([]);
    }
    r := DecodeRows(DecodeItem, FindAll(rowset.value, "row"));
  }
}
