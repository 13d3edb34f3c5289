/** What the writer and the reader promise together: a container written by
    `append` and `save` reads back, entry by entry, as what was appended. */
module RoundTrip {
  import opened Bytes
  import opened Errors
  import opened Layout
  import opened Blob
  import Header
  import W = Writer
  import R = Reader

  /** The writer's whole life: create it over `dir`, append `items` in order
      and save. */
  function Build(dir: Option<Files>, items: seq<seq<byte>>): (r: Result<Files>)
    ensures r.Ok? <==> W.Fits(items)
    ensures r.Err? ==> r.error == EntryTooLarge
    ensures r.Ok? ==> HeaderName in r.value && DataName in r.value
    ensures r.Ok? ==> |r.value[HeaderName]| == FieldWidth * |items|
    ensures r.Ok? ==> r.value[DataName] == Concat(items)
  {
    var (m, files) := W.Create(dir);
    match W.AppendAll(m, items)
    case Err(e) => Err(e)
    case Ok(full) =>
      assert full.dataList == items;
      Ok(W.Save(full, files))
  }

  /** Opening any saved container, in either mode, succeeds and yields the
      header values the writer held, whether or not they are the payload
      lengths. */
  lemma SavedHeaderReadsBack(m: W.Maker, dir: Files, mode: string)
    requires mode == "disk" || mode == "memory"
    ensures R.Open(Some(W.Save(m, dir)), mode).Ok?
    ensures R.Open(Some(W.Save(m, dir)), mode).value.header == m.headerList
    ensures R.Open(Some(W.Save(m, dir)), mode).value.data == Concat(m.dataList)
  {
    var files := W.Save(m, dir);
    assert Header.Decode(files[HeaderName]) == Ok(m.headerList);
  }

  /** Reading back any container saved by a writer that keeps its invariant:
      the reader sees one entry per append, the header values the writer
      recorded, an intact `data` file, and entry `i` is the `i`-th payload. */
  lemma SavedContainerReadsBack(m: W.Maker, dir: Files, mode: string)
    requires W.Valid(m)
    requires mode == "disk" || mode == "memory"
    ensures R.Open(Some(W.Save(m, dir)), mode).Ok?
    ensures R.Open(Some(W.Save(m, dir)), mode).value.numEntries == |m.dataList|
    ensures R.Open(Some(W.Save(m, dir)), mode).value.header == m.headerList
    ensures R.Consistent(R.Open(Some(W.Save(m, dir)), mode).value)
    ensures forall i :: 0 <= i < |m.dataList| ==>
              R.Get(R.Open(Some(W.Save(m, dir)), mode).value, i) == Ok(m.dataList[i])
  {
    var files := W.Save(m, dir);
    SavedHeaderReadsBack(m, dir, mode);
    var r := R.Open(Some(files), mode).value;
    forall i | 0 <= i < |m.dataList|
      ensures R.Get(r, i) == Ok(m.dataList[i])
    {
      W.SavedDataEntry(m, dir, i);
    }
  }

  /** The round trip: appending `items` and saving, then opening in either
      mode, gives a container of `|items|` entries whose entry `i` is
      `items[i]`, a zero-length payload included; every other index is
      refused. */
  lemma BuildThenGet(dir: Option<Files>, items: seq<seq<byte>>, mode: string, i: int)
    requires W.Fits(items)
    requires mode == "disk" || mode == "memory"
    ensures R.Open(Some(Build(dir, items).value), mode).Ok?
    ensures R.Open(Some(Build(dir, items).value), mode).value.numEntries == |items|
    ensures 0 <= i < |items| ==> R.Get(R.Open(Some(Build(dir, items).value), mode).value, i) == Ok(items[i])
    ensures !(0 <= i < |items|) ==> R.Get(R.Open(Some(Build(dir, items).value), mode).value, i) == Err(IndexOutOfRange)
  {
    var (m, files) := W.Create(dir);
    var full := W.AppendAll(m, items).value;
    assert full.dataList == items;
    SavedContainerReadsBack(full, files, mode);
  }

  /** Saving with no appends makes an empty container: no entries, and `get`
      refuses every index. */
  lemma EmptyContainer(dir: Option<Files>, mode: string, i: int)
    requires mode == "disk" || mode == "memory"
    ensures Build(dir, []).Ok?
    ensures Build(dir, []).value[HeaderName] == [] && Build(dir, []).value[DataName] == []
    ensures R.Open(Some(Build(dir, []).value), mode).Ok?
    ensures R.Open(Some(Build(dir, []).value), mode).value.numEntries == 0
    ensures R.Get(R.Open(Some(Build(dir, []).value), mode).value, i) == Err(IndexOutOfRange)
  {
    BuildThenGet(dir, [], mode, i);
  }

  /** The source's writer, appending a single payload of exactly 2^32 bytes:
      its length is recorded as 0, so the saved container serves that entry
      as the empty string. */
  lemma OversizedEntryReadsBackEmpty(s: seq<byte>, mode: string)
    requires |s| == Uint32Limit
    requires mode == "disk" || mode == "memory"
    ensures R.Open(Some(W.Save(W.AppendAsWritten(W.Maker([], []), s), map[])), mode).Ok?
    ensures R.Get(R.Open(Some(W.Save(W.AppendAsWritten(W.Maker([], []), s), map[])), mode).value, 0) == Ok([])
    ensures R.Get(R.Open(Some(W.Save(W.AppendAsWritten(W.Maker([], []), s), map[])), mode).value, 0) != Ok(s)
  {
    assert Wrap32(|s|) == 0;
    var m := W.AppendAsWritten(W.Maker([], []), s);
    assert m.headerList == [0];
    SavedHeaderReadsBack(m, map[], mode);
  }

  /** The source's `get(-1)` on the two-entry container [[1, 2], [3]]: it
      reads zero bytes from offset 3 instead of returning the last entry. */
  lemma NegativeIndexExample(mode: string)
    requires mode == "disk" || mode == "memory"
    ensures Build(None, [[1, 2], [3]]).Ok?
    ensures R.Open(Some(Build(None, [[1, 2], [3]]).value), mode).Ok?
    ensures R.GetAsWritten(R.Open(Some(Build(None, [[1, 2], [3]]).value), mode).value, -1) == Ok([])
    ensures R.Get(R.Open(Some(Build(None, [[1, 2], [3]]).value), mode).value, 1) == Ok([3])
  {
    var items: seq<seq<byte>> := [[1, 2], [3]];
    BuildThenGet(None, items, mode, 1);
    var r := R.Open(Some(Build(None, items).value), mode).value;
    SavedContainerReadsBack(W.AppendAll(W.Maker([], []), items).value, map[], mode);
    R.LastEntryByNegativeIndex(r);
  }
}
