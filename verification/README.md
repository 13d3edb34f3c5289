# jstore container format in Dafny

jstore stores many variable-length binary records (in its original use, JPEG
files) as a directory holding two files:

- `header`: one unsigned 32-bit length per entry, in append order. This model
  fixes the byte order to little-endian. The source writes numpy's native
  order, which is little-endian on the usual platforms.
- `data`: all payloads concatenated, with no separators.

The writer (`JstoreMaker`) collects payloads with `append` and writes both files
with `save`. The reader (`Jstore`) parses `header` into lengths and builds the
`offsets` table as prefix sums starting at 0. `get(i)` then reads `header[i]`
bytes from `offsets[i]`. Payloads are opaque byte strings.

Modules:

- `Bytes`: the byte type, the 32-bit field and its little-endian encoding.
- `Errors`: error kinds, plus `Result` and `Option`.
- `Layout`: a directory is a map from file name to contents.
- `Header`: the `header` file format.
- `Blob`: the `data` file and the offset arithmetic.
- `Writer`: `JstoreMaker`.
- `Reader`: `Jstore`.
- `RoundTrip`: properties of writing and then reading.

File I/O appears only as parameters:

- A directory is `Option<map<string, seq<byte>>>`, where `None` means the path
  does not exist.
- Seek and read on a file or a `StringIO` buffer is one pure function over the
  file's bytes.

The model follows the code, not a stricter reading of the format:

- A `header` file whose size is not a multiple of 4 is refused. In the code this
  happens through numpy's `fromstring` error, and the model calls it `CorruptIndex`.
- A truncated `data` file gives a short read, not an error.
- An oversized payload and a negative index are not refused by the code. These
  are the two findings below. In both cases the model keeps the as-written
  behaviour next to a corrected one.

## Model

| member | source | states |
|---|---|---|
| Bytes.Wrap32 | jstore.py:91 | `numpy.uint32(len)` keeps a length below 2^32 unchanged and shrinks any longer one, keeping it congruent modulo 2^32 |
| Bytes.EncodeU32 | jstore.py:99-100 | one length is written as 4 bytes, least significant first: byte j carries place value 256^j |
| Bytes.DecodeU32 | jstore.py:37-39 | four header bytes are read least significant first: the value's low byte is the first byte and its high byte the last |
| Bytes.DecodeEncodeU32 | jstore.py:100 | a length written as a 4-byte field decodes to the same length |
| Bytes.EncodeDecodeU32 | jstore.py:37-39 | every 4-byte group is the encoding of the value decoded from it, so no two groups decode to the same length |
| Header.Encode | jstore.py:98-101 | the header written for n lengths is exactly 4·n bytes |
| Header.EncodeField | jstore.py:98-101 | bytes 4k..4k+4 of the header encode the k-th length, so the lengths appear in append order |
| Header.DecodeFields | jstore.py:37-39 | a well-sized header yields size/4 values, and value k is the little-endian reading of bytes 4k..4k+4 |
| Header.Decode | jstore.py:37-41 | the header parse succeeds exactly when the size is a multiple of 4, refuses any other size as a corrupt index, and yields size/4 entries |
| Header.DecodeEncode | jstore.py:37-41 | parsing the header the writer wrote yields exactly the recorded lengths |
| Header.EncodeDecode | jstore.py:37-39 | a well-sized header file is the encoding of the lengths parsed from it |
| Blob.Concat | jstore.py:104-107 | the `data` blob is as long as the sum of the payload lengths |
| Blob.Offsets | jstore.py:43-46 | the offsets table has n+1 entries, starts at 0, and ends with the total of the lengths |
| Blob.OffsetsStep | jstore.py:43-46 | consecutive offsets differ by exactly the length of the entry between them |
| Blob.OffsetsMonotone | jstore.py:43-46 | offsets never decrease |
| Blob.CumSum | jstore.py:44-46 | the running-total computation of `cumsum` over `[0] + header` equals the prefix-sum table |
| Blob.SliceOfConcat | jstore.py:104-107 | in the concatenated blob, the bytes between offsets i and i+1 are exactly the i-th payload |
| Writer.ValidLengths | jstore.py:90-94 | in a writer that keeps its invariant, the header list is the list of payload lengths |
| Writer.Create | jstore.py:76-88 | a new writer has no entries and keeps its invariant; an existing directory is left untouched and a missing one is created empty |
| Writer.AppendAsWritten | jstore.py:90-94 | `append` as written adds the payload and one header value, keeps earlier entries, and keeps the length invariant if and only if the payload is shorter than 2^32 bytes |
| Writer.Append | jstore.py:90-94 | the corrected `append` succeeds exactly for payloads under 2^32 bytes and then matches the source; otherwise it fails with EntryTooLarge; it keeps the invariant |
| Writer.AppendAll | jstore.py:90-94 | a sequence of appends succeeds exactly when every payload fits; the payload list then gains the items in call order, the header list gains exactly their lengths, and the invariant holds |
| Writer.Save | jstore.py:96-107 | `save` writes a 4·n-byte `header` that parses back to the header list and a `data` file that concatenates the payloads (as long as the sum of the lengths); it adds exactly these two files and leaves every other file unchanged |
| Writer.SaveIdempotent | jstore.py:96-107 | saving twice, or over different earlier contents, gives identical `header` and `data` |
| Writer.SavedHeaderField | jstore.py:98-101 | header field k of a saved container encodes the k-th appended length |
| Writer.SavedDataEntry | jstore.py:104-107 | in a saved container, the `data` bytes between the k-th and (k+1)-th prefix sums are the k-th appended payload |
| Reader.ParseMode | jstore.py:28-29 | only "disk" and "memory" are accepted modes |
| Reader.Open | jstore.py:22-53 | opening succeeds exactly when the path exists, the mode is known, `header` exists with a size that is a multiple of 4, and `data` exists; each failure maps to its own error, in the constructor's order; on success the entry count is the header size / 4, the header re-encodes to the file, offsets are the prefix sums, and the data bytes are the file's |
| Reader.SeekRead | jstore.py:59-60 | seek-then-read returns at most `size` bytes; exactly the requested slice when it lies inside the file; the available tail at end of file; nothing past it |
| Reader.Get | jstore.py:56-60 | the corrected `get` succeeds exactly for 0 ≤ i < n; it never returns more than `header[i]` bytes; whenever `offsets[i+1]` lies inside `data` (an intact or an over-long file) it returns exactly the bytes between `offsets[i]` and `offsets[i+1]`; on a file truncated inside the entry it returns the tail from `offsets[i]`, and past the end it returns nothing |
| Reader.PyIndex | jstore.py:57-58 | numpy indexing accepts exactly −len ≤ i < len and picks the element congruent to i modulo len |
| Reader.GetAsWritten | jstore.py:56-60 | `get` as written fails exactly outside −n ≤ i < n and agrees with the corrected `get` on every non-negative index |
| Reader.NegativeIndexMisaligned | jstore.py:57-58 | as written, `get(-k)` reads from the start of entry n−k+1 for the length of entry n−k |
| Reader.LastEntryByNegativeIndex | jstore.py:57-60 | as written, `get(-1)` on an intact container returns no bytes, which differs from the last entry whenever that entry is non-empty |
| Reader.ModesAgree | jstore.py:49-53 | disk and memory mode open the same containers and serve identical bytes for every index |
| RoundTrip.Build | jstore.py:76-107 | create, append everything, then save succeeds exactly when every payload fits; the header is 4 bytes per item and the data file is the items concatenated |
| RoundTrip.SavedHeaderReadsBack | jstore.py:37-46 | any saved container opens in either mode; the reader's header is the writer's header list and its data is the concatenated payloads, even when the writer's invariant is broken |
| RoundTrip.SavedContainerReadsBack | jstore.py:56-60 | opening a saved container (either mode) gives one entry per append, the recorded header values, and an intact data file, and `get(i)` returns the i-th appended payload |
| RoundTrip.BuildThenGet | jstore.py:56-60 | round trip: after appending `items` and saving, `get(i)` returns `items[i]` (zero-length items included) for every valid i, and refuses every other index |
| RoundTrip.EmptyContainer | jstore.py:96-107 | saving with no appends writes two empty files; the opened container has 0 entries and refuses every index |
| RoundTrip.OversizedEntryReadsBackEmpty | jstore.py:91 | as written, a 2^32-byte payload is saved with length 0 and reads back as the empty string, not as itself |
| RoundTrip.NegativeIndexExample | jstore.py:57-58 | as written, for the container [[1,2],[3]], `get(-1)` returns no bytes while entry 1 is [3] |

## Findings

| source | as written | input that shows it | evidently intended | confidence | as-written member | corrected member |
|---|---|---|---|---|---|---|
| jstore.py:91 | the payload length is converted with `numpy.uint32`, which keeps only the low 32 bits | any payload of exactly 2^32 bytes: its header value is 0 and `get` returns the empty string | refuse a payload whose length does not fit the 32-bit field | medium (depends on the numpy version's out-of-range conversion); not executed | Writer.AppendAsWritten, RoundTrip.OversizedEntryReadsBackEmpty | Writer.Append |
| jstore.py:57-58 | `offsets[i]` and `header[i]` are indexed separately, and the two arrays have lengths n+1 and n, so a negative index selects misaligned elements | container [[1,2],[3]], `get(-1)`: reads 1 byte from offset 3 and returns no bytes instead of [3] | refuse any index outside 0 ≤ i < n | high; not executed | Reader.GetAsWritten, RoundTrip.NegativeIndexExample | Reader.Get |

The round-trip lemmas in `RoundTrip` use the corrected `Writer.Append` (through
`Writer.AppendAll`) and the corrected `Reader.Get`.

## Left out

- JPEG decoding and the numpy array conversion at the end of `get` (jstore.py:62-66): this is a foreign image library, so payloads stay opaque bytes.
- `make_jstore` (directory listing, `.jpeg` filtering) and every `print` line (jstore.py:110-137, 52, 54): command-line glue.
- Real file I/O: existence checks, `makedirs`, `open`, `StringIO`, and the file cursor. A directory is a map from names to bytes, and seek plus read is the pure `Reader.SeekRead`. Both reader modes read the same bytes, so the model keeps the mode only as a tag.
- The default argument `mode='disk'`: `Reader.Open` always takes the mode explicitly.
- Reader.Get: does not detect a `data` file that is shorter than the header declares. The source has no such check. It returns what seek and read give: the tail from `offsets[i]`, or nothing past the end. The contract states exactly that.
- Widths of the offsets: the model uses unbounded naturals. numpy's `cumsum` widens 32-bit values to the platform's unsigned integer, so a wrap of the offsets themselves is not modelled.
- `Jstore.path`, `header_path`, `data_path` and the maker's path fields: file naming is fixed to `header` and `data` inside the directory.
- Concurrency and crash atomicity of the two writes in `save`: there are no threads or crashes in the model.
