/** The `header` file: one little-endian 32-bit length per entry, in entry
    order, with nothing before, between or after the fields. */
module Header {
  import opened Bytes
  import opened Errors

  /** The bytes the writer puts in `header` for the lengths `hs`. */
  function Encode(hs: seq<uint32>): (r: seq<byte>)
    ensures |r| == FieldWidth * |hs|
  {
    if |hs| == 0 then [] else EncodeU32(hs[0]) + Encode(hs[1..])
  }

  /** Reads a byte string whose size is a multiple of the field width as a
      sequence of 32-bit lengths, four bytes each. */
  function DecodeFields(b: seq<byte>): (r: seq<uint32>)
    requires |b| % FieldWidth == 0
    ensures |r| * FieldWidth == |b|
    ensures forall k :: 0 <= k < |r| ==>
              r[k] == DecodeU32(b[FieldWidth * k .. FieldWidth * k + FieldWidth])
  {
    if |b| == 0 then []
    else
      var rest := DecodeFields(b[FieldWidth..]);
      var r := [DecodeU32(b[..FieldWidth])] + rest;
      assert forall k :: 1 <= k < |r| ==>
               b[FieldWidth * k .. FieldWidth * k + FieldWidth]
               == b[FieldWidth..][FieldWidth * (k - 1) .. FieldWidth * (k - 1) + FieldWidth];
      r
  }

  /** The header parse of the reader: a file whose size is not a multiple of
      the field width is refused, any other file is read field by field. */
  function Decode(b: seq<byte>): (r: Result<seq<uint32>>)
    ensures r.Ok? <==> |b| % FieldWidth == 0
    ensures r.Err? ==> r.error == CorruptIndex
    ensures r.Ok? ==> |r.value| * FieldWidth == |b|
  {
    if |b| % FieldWidth != 0 then Err(CorruptIndex) else Ok(DecodeFields(b))
  }

  /** Field `k` of an encoded header sits at bytes `4k .. 4k+4`, so the
      lengths appear in the order they were given. */
  lemma {:induction false} EncodeField(hs: seq<uint32>, k: nat)
    requires k < |hs|
    ensures Encode(hs)[FieldWidth * k .. FieldWidth * k + FieldWidth] == EncodeU32(hs[k])
    decreases k
  {
    var rest := Encode(hs[1..]);
    assert Encode(hs) == EncodeU32(hs[0]) + rest;
    if k > 0 {
      EncodeField(hs[1..], k - 1);
      assert Encode(hs)[FieldWidth * k .. FieldWidth * k + FieldWidth]
          == rest[FieldWidth * (k - 1) .. FieldWidth * (k - 1) + FieldWidth];
    }
  }

  /** Parsing what the writer wrote gives back exactly the written lengths. */
  lemma {:induction false} DecodeEncode(hs: seq<uint32>)
    ensures Decode(Encode(hs)) == Ok(hs)
  {
    DecodeFieldsEncode(hs);
  }

  lemma {:induction false} DecodeFieldsEncode(hs: seq<uint32>)
    ensures |Encode(hs)| % FieldWidth == 0
    ensures DecodeFields(Encode(hs)) == hs
  {
    if |hs| > 0 {
      var b := Encode(hs);
      assert b[..FieldWidth] == EncodeU32(hs[0]);
      assert b[FieldWidth..] == Encode(hs[1..]);
      DecodeEncodeU32(hs[0]);
      DecodeFieldsEncode(hs[1..]);
      assert hs == [hs[0]] + hs[1..];
    }
  }

  /** Every well-sized header file is the encoding of the lengths parsed
      from it, so parsing loses nothing. */
  lemma {:induction false} EncodeDecode(b: seq<byte>)
    requires Decode(b).Ok?
    ensures Encode(Decode(b).value) == b
  {
    EncodeDecodeFields(b);
  }

  lemma {:induction false} EncodeDecodeFields(b: seq<byte>)
    requires |b| % FieldWidth == 0
    ensures Encode(DecodeFields(b)) == b
    decreases |b|
  {
    if |b| > 0 {
      var hs := DecodeFields(b);
      assert hs[1..] == DecodeFields(b[FieldWidth..]);
      EncodeDecodeU32(b[..FieldWidth]);
      EncodeDecodeFields(b[FieldWidth..]);
      assert b == b[..FieldWidth] + b[FieldWidth..];
    }
  }
}
