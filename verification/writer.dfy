/** The writer (`JstoreMaker`): it collects payloads in memory and, on save,
    writes their lengths to `header` and their bytes to `data`. */
module Writer {
  import opened Bytes
  import opened Errors
  import opened Layout
  import Header
  import opened Blob

  /** The writer's state: the pending header values and the pending payloads. */
  datatype Maker = Maker(headerList: seq<uint32>, dataList: seq<seq<byte>>)

  /** The writer's invariant: one header value per payload, and each value is
      that payload's length. */
  predicate Valid(m: Maker)
  {
    |m.headerList| == |m.dataList| &&
    forall k :: 0 <= k < |m.headerList| ==> m.headerList[k] == |m.dataList[k]|
  }

  /** A valid writer's header values are the lengths of its payloads. */
  lemma ValidLengths(m: Maker)
    requires Valid(m)
    ensures m.headerList == Lengths(m.dataList)
  {
  }

  /** Construction: the target directory is created when it is missing and
      left as it is otherwise; the writer starts with no entries. */
  function Create(dir: Option<Files>): (r: (Maker, Files))
    ensures r.0.headerList == [] && r.0.dataList == []
    ensures Valid(r.0)
    ensures dir.Some? ==> r.1 == dir.value
    ensures dir.None? ==> |r.1| == 0
  {
    (Maker([], []), if dir.Some? then dir.value else map[])
  }

  /** `append` as written: the length is converted with `numpy.uint32`, so a
      payload of 2^32 bytes or more is recorded with a truncated length. */
  function AppendAsWritten(m: Maker, s: seq<byte>): (r: Maker)
    ensures r.dataList == m.dataList + [s]
    ensures r.headerList == m.headerList + [Wrap32(|s|)]
    ensures Valid(m) ==> (Valid(r) <==> |s| < Uint32Limit)
  {
    var r := Maker(m.headerList + [Wrap32(|s|)], m.dataList + [s]);
    assert r.headerList[|m.headerList|] == Wrap32(|s|);
    r
  }

  /** `append` with the length checked: a payload that fits the 32-bit field
      is recorded as the next entry, a longer one is refused. */
  function Append(m: Maker, s: seq<byte>): (r: Result<Maker>)
    ensures r.Ok? <==> |s| < Uint32Limit
    ensures r.Err? ==> r.error == EntryTooLarge
    ensures r.Ok? ==> r.value == AppendAsWritten(m, s)
    ensures r.Ok? ==> r.value.dataList == m.dataList + [s]
    ensures r.Ok? ==> r.value.headerList == m.headerList + [|s|]
    ensures r.Ok? && Valid(m) ==> Valid(r.value)
  {
    if |s| < Uint32Limit then Ok(AppendAsWritten(m, s)) else Err(EntryTooLarge)
  }

  /** Every payload fits the 32-bit length field. */
  predicate Fits(items: seq<seq<byte>>)
  {
    forall k :: 0 <= k < |items| ==> |items[k]| < Uint32Limit
  }

  /** A sequence of `append` calls, in call order; the first payload that does
      not fit stops the sequence. */
  function AppendAll(m: Maker, items: seq<seq<byte>>): (r: Result<Maker>)
    ensures r.Ok? <==> Fits(items)
    ensures r.Err? ==> r.error == EntryTooLarge
    ensures r.Ok? ==> r.value.dataList == m.dataList + items
    ensures r.Ok? ==> |r.value.headerList| == |m.headerList| + |items|
    ensures r.Ok? ==> r.value.headerList[..|m.headerList|] == m.headerList
    ensures r.Ok? ==> r.value.headerList == m.headerList + Lengths(items)
    ensures r.Ok? && Valid(m) ==> Valid(r.value)
    decreases |items|
  {
    if |items| == 0 then
      assert m.dataList + items == m.dataList;
      Ok(m)
    else
      match Append(m, items[0])
      case Err(e) => Err(e)
      case Ok(next) =>
        var r := AppendAll(next, items[1..]);
        assert m.dataList + items == m.dataList + [items[0]] + items[1..];
        assert r.Ok? ==> r.value.headerList[..|m.headerList|] == next.headerList[..|m.headerList|];
        r
  }

  /** `save`: writes the header values, four bytes each, to `header` and the
      payloads, back to back, to `data`, replacing any earlier files of those
      names and leaving every other file of the directory alone. */
  function Save(m: Maker, dir: Files): (r: Files)
    ensures r.Keys == dir.Keys + {HeaderName, DataName}
    ensures forall name :: name in dir && name != HeaderName && name != DataName ==> r[name] == dir[name]
    ensures |r[HeaderName]| == FieldWidth * |m.headerList|
    ensures Header.Decode(r[HeaderName]) == Ok(m.headerList)
    ensures r[DataName] == Concat(m.dataList)
    ensures Valid(m) ==> |r[DataName]| == Sum(m.headerList)
  {
    Header.DecodeEncode(m.headerList);
    assert Valid(m) ==> m.headerList == Lengths(m.dataList) by {
      if Valid(m) { ValidLengths(m); }
    }
    dir[HeaderName := Header.Encode(m.headerList)][DataName := Concat(m.dataList)]
  }

  /** Saving depends on the writer's state only: saving twice, or over any
      other directory contents, writes byte-identical `header` and `data`. */
  lemma SaveIdempotent(m: Maker, dir: Files, other: Files)
    ensures Save(m, Save(m, dir)) == Save(m, dir)
    ensures Save(m, dir)[HeaderName] == Save(m, other)[HeaderName]
    ensures Save(m, dir)[DataName] == Save(m, other)[DataName]
  {
  }

  /** Header field `k` of a saved container is the `k`-th value recorded by
      `append`: the lengths are written in call order. */
  lemma SavedHeaderField(m: Maker, dir: Files, k: nat)
    requires k < |m.headerList|
    ensures FieldWidth * k + FieldWidth <= |Save(m, dir)[HeaderName]|
    ensures Save(m, dir)[HeaderName][FieldWidth * k .. FieldWidth * k + FieldWidth] == EncodeU32(m.headerList[k])
  {
    Header.EncodeField(m.headerList, k);
  }

  /** Payload `k` of a saved container occupies the bytes of `data` between
      the `k`-th and `k+1`-th prefix sums of the header values. */
  lemma SavedDataEntry(m: Maker, dir: Files, k: nat)
    requires Valid(m)
    requires k < |m.dataList|
    ensures Offsets(m.headerList)[k] <= Offsets(m.headerList)[k + 1] <= |Save(m, dir)[DataName]|
    ensures Save(m, dir)[DataName][Offsets(m.headerList)[k] .. Offsets(m.headerList)[k + 1]] == m.dataList[k]
  {
    ValidLengths(m);
    SliceOfConcat(m.dataList, k);
  }
}
