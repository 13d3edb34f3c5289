/** The reader (`Jstore`): it parses `header`, derives the offsets table and
    serves entry `i` as the bytes of `data` between two offsets. */
module Reader {
  import opened Bytes
  import opened Errors
  import opened Layout
  import Header
  import opened Blob

  /** How `data` is accessed: through an open file, or through an in-memory
      copy read in full when the reader is opened. */
  datatype Mode = Disk | Memory

  /** The mode argument; any name other than "disk" and "memory" is unknown. */
  function ParseMode(name: string): (r: Option<Mode>)
    ensures r == Some(Disk) <==> name == "disk"
    ensures r == Some(Memory) <==> name == "memory"
    ensures r.None? <==> name != "disk" && name != "memory"
  {
    if name == "disk" then Some(Disk)
    else if name == "memory" then Some(Memory)
    else None
  }

  /** An opened container. `data` is the content of the `data` file, reached
      through the file handle in disk mode and through the copy in memory mode. */
  datatype Jstore = Jstore(mode: Mode, header: seq<uint32>, numEntries: nat,
                           offsets: seq<nat>, data: seq<byte>)

  /** What opening establishes: one entry per header value and the offsets
      table as the prefix sums of the header values. */
  predicate Valid(r: Jstore)
  {
    r.numEntries == |r.header| && r.offsets == Offsets(r.header)
  }

  /** The container invariant: `data` is exactly as long as the sum of the
      header values. The reader relies on it but never checks it. */
  predicate Consistent(r: Jstore)
    requires Valid(r)
  {
    |r.data| == r.offsets[r.numEntries]
  }

  /** Opening a container. The checks happen in the order the constructor
      makes them: the directory, the mode, the `header` file and its size,
      then the `data` file. */
  function Open(dir: Option<Files>, mode: string): (r: Result<Jstore>)
    ensures r.Ok? <==> dir.Some? && ParseMode(mode).Some? && HeaderName in dir.value
                       && |dir.value[HeaderName]| % FieldWidth == 0 && DataName in dir.value
    ensures dir.None? ==> r == Err(NotFound)
    ensures dir.Some? && ParseMode(mode).None? ==> r == Err(UnknownMode)
    ensures dir.Some? && ParseMode(mode).Some? && HeaderName !in dir.value ==> r == Err(MissingFile(HeaderName))
    ensures (dir.Some? && ParseMode(mode).Some? && HeaderName in dir.value
             && |dir.value[HeaderName]| % FieldWidth != 0) ==> r == Err(CorruptIndex)
    ensures (dir.Some? && ParseMode(mode).Some? && HeaderName in dir.value
             && |dir.value[HeaderName]| % FieldWidth == 0 && DataName !in dir.value)
            ==> r == Err(MissingFile(DataName))
    ensures r.Ok? ==> Valid(r.value)
    ensures r.Ok? ==> Some(r.value.mode) == ParseMode(mode)
    ensures r.Ok? ==> r.value.numEntries * FieldWidth == |dir.value[HeaderName]|
    ensures r.Ok? ==> Header.Encode(r.value.header) == dir.value[HeaderName]
    ensures r.Ok? ==> r.value.data == dir.value[DataName]
  {
    if dir.None? then Err(NotFound)
    else
      var files := dir.value;
      match ParseMode(mode)
      case None => Err(UnknownMode)
      case Some(m) =>
        if HeaderName !in files then Err(MissingFile(HeaderName))
        else
          match Header.Decode(files[HeaderName])
          case Err(e) => Err(e)
          case Ok(header) =>
            Header.EncodeDecode(files[HeaderName]);
            if DataName !in files then Err(MissingFile(DataName))
            else Ok(Jstore(m, header, |header|, Offsets(header), files[DataName]))
  }

  /** `seek(offset)` followed by `read(size)` on a file or an in-memory
      buffer: a seek past the end is allowed, and the read returns the bytes
      that are there, up to `size` of them. */
  function SeekRead(contents: seq<byte>, offset: nat, size: nat): (r: seq<byte>)
    ensures |r| <= size
    ensures offset + size <= |contents| ==> r == contents[offset .. offset + size]
    ensures offset <= |contents| < offset + size ==> r == contents[offset..]
    ensures offset >= |contents| ==> r == []
  {
    var start := if offset <= |contents| then offset else |contents|;
    var end := if offset + size <= |contents| then offset + size else |contents|;
    contents[start .. end]
  }

  /** `get` with the index checked: entry `i` for `0 <= i < numEntries`, read
      as `header[i]` bytes from `offsets[i]`; every other index is refused. */
  function Get(r: Jstore, i: int): (res: Result<seq<byte>>)
    requires Valid(r)
    ensures res.Ok? <==> 0 <= i < r.numEntries
    ensures res.Err? ==> res.error == IndexOutOfRange
    ensures res.Ok? ==> r.offsets[i] + r.header[i] == r.offsets[i + 1]
    ensures res.Ok? ==> |res.value| <= r.header[i]
    ensures res.Ok? && Consistent(r) ==> r.offsets[i + 1] <= |r.data|
    ensures res.Ok? && r.offsets[i + 1] <= |r.data| ==> res.value == r.data[r.offsets[i] .. r.offsets[i + 1]]
    ensures res.Ok? && r.offsets[i] <= |r.data| < r.offsets[i + 1] ==> res.value == r.data[r.offsets[i]..]
    ensures res.Ok? && r.offsets[i] > |r.data| ==> res.value == []
    ensures res.Ok? && r.header[i] > 0 && r.offsets[i + 1] > |r.data| ==> |res.value| < r.header[i]
  {
    if 0 <= i < r.numEntries then
      OffsetsStep(r.header);
      OffsetsMonotone(r.header, i + 1, r.numEntries);
      Ok(SeekRead(r.data, r.offsets[i], r.header[i]))
    else
      Err(IndexOutOfRange)
  }

  /** Indexing a numpy array of length `len` with `i`: a negative index counts
      from the end, and anything outside `[-len, len)` raises an error. */
  function PyIndex(len: nat, i: int): (r: Option<nat>)
    ensures r.Some? <==> -(len as int) <= i < len
    ensures r.Some? ==> r.value < len && (r.value - i) % len == 0
  {
    if 0 <= i < len then Some(i)
    else if -(len as int) <= i < 0 then Some(len + i)
    else None
  }

  /** `get` as written: `offsets[i]` and `header[i]` are looked up
      separately, so a negative index counts back from the end of two arrays
      of different lengths. */
  function GetAsWritten(r: Jstore, i: int): (res: Result<seq<byte>>)
    requires Valid(r)
    ensures res.Ok? <==> -(r.numEntries as int) <= i < r.numEntries
    ensures res.Err? ==> res.error == IndexOutOfRange
    ensures 0 <= i < r.numEntries ==> res == Get(r, i)
  {
    match PyIndex(|r.offsets|, i)
    case None => Err(IndexOutOfRange)
    case Some(oi) =>
      match PyIndex(|r.header|, i)
      case None => Err(IndexOutOfRange)
      case Some(hi) => Ok(SeekRead(r.data, r.offsets[oi], r.header[hi]))
  }

  /** With a negative index `-k`, the source reads from the start of entry
      `n-k+1` for the length of entry `n-k`: the two lookups disagree. */
  lemma NegativeIndexMisaligned(r: Jstore, k: nat)
    requires Valid(r)
    requires 1 <= k <= r.numEntries
    ensures GetAsWritten(r, -(k as int))
         == Ok(SeekRead(r.data, r.offsets[r.numEntries + 1 - k], r.header[r.numEntries - k]))
  {
  }

  /** On an intact container, `get(-1)` seeks to the end of `data` and
      returns no bytes, whatever the last entry holds. */
  lemma LastEntryByNegativeIndex(r: Jstore)
    requires Valid(r) && Consistent(r)
    requires r.numEntries > 0
    ensures GetAsWritten(r, -1) == Ok([])
    ensures r.header[r.numEntries - 1] > 0 ==> GetAsWritten(r, -1) != Get(r, r.numEntries - 1)
  {
    NegativeIndexMisaligned(r, 1);
  }

  /** Both modes open the same containers, with the same header, offsets and
      bytes, and so serve every index identically. */
  lemma ModesAgree(dir: Option<Files>, i: int)
    ensures Open(dir, "disk").Ok? <==> Open(dir, "memory").Ok?
    ensures Open(dir, "disk").Ok? ==>
              Get(Open(dir, "disk").value, i) == Get(Open(dir, "memory").value, i)
  {
  }
}
