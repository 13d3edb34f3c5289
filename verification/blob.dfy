/** The `data` file and the offset arithmetic shared by writer and reader:
    payloads are concatenated without separators, and the start of entry
    `i` is the sum of the lengths before it. */
module Blob {
  import opened Bytes

  /** Sum of a sequence of lengths. */
  function Sum(xs: seq<nat>): nat
  {
    if |xs| == 0 then 0 else Sum(xs[..|xs| - 1]) + xs[|xs| - 1]
  }

  /** The length of every payload, in order. */
  function Lengths(items: seq<seq<byte>>): (r: seq<nat>)
    ensures |r| == |items|
    ensures forall k :: 0 <= k < |items| ==> r[k] == |items[k]|
  {
    seq(|items|, k requires 0 <= k < |items| => |items[k]|)
  }

  /** The payloads written one after another, in order: the contents of `data`. */
  function Concat(items: seq<seq<byte>>): (r: seq<byte>)
    ensures |r| == Sum(Lengths(items))
  {
    if |items| == 0 then []
    else
      var init := items[..|items| - 1];
      assert Lengths(init) == Lengths(items)[..|items| - 1];
      Concat(init) + items[|items| - 1]
  }

  /** The offsets table: entry `i` starts at the sum of the lengths before it,
      and one extra sentinel entry holds the sum of all lengths. */
  function Offsets(h: seq<nat>): (r: seq<nat>)
    ensures |r| == |h| + 1
    ensures r[0] == 0
    ensures r[|h|] == Sum(h)
  {
    assert h[..|h|] == h;
    seq(|h| + 1, i requires 0 <= i <= |h| => Sum(h[..i]))
  }

  /** Sum over one more element. */
  lemma SumPrefixStep(h: seq<nat>, i: nat)
    requires i < |h|
    ensures Sum(h[..i + 1]) == Sum(h[..i]) + h[i]
  {
    assert h[..i + 1][..i] == h[..i];
  }

  /** Consecutive offsets differ by the length of the entry between them. */
  lemma OffsetsStep(h: seq<nat>)
    ensures forall i :: 0 <= i < |h| ==> Offsets(h)[i + 1] == Offsets(h)[i] + h[i]
  {
    forall i | 0 <= i < |h|
      ensures Offsets(h)[i + 1] == Offsets(h)[i] + h[i]
    {
      SumPrefixStep(h, i);
    }
  }

  /** Offsets never decrease, so every entry's byte range lies inside the
      range covered by the sentinel. */
  lemma {:induction false} OffsetsMonotone(h: seq<nat>, i: nat, j: nat)
    requires i <= j <= |h|
    ensures Offsets(h)[i] <= Offsets(h)[j]
    decreases j - i
  {
    if i < j {
      OffsetsStep(h);
      OffsetsMonotone(h, i, j - 1);
    }
  }

  /** The offsets computation of the reader, `cumsum` over the header with a
      leading zero, as a running total. */
  method CumSum(h: seq<nat>) returns (offsets: seq<nat>)
    ensures offsets == Offsets(h)
  {
    var total := 0;
    offsets := [0];
    for k := 0 to |h|
      invariant |offsets| == k + 1
      invariant total == Sum(h[..k])
      invariant forall j :: 0 <= j <= k ==> offsets[j] == Sum(h[..j])
    {
      SumPrefixStep(h, k);
      total := total + h[k];
      offsets := offsets + [total];
    }
  }

  /** The payloads before position `j` form a prefix of the whole blob. */
  lemma {:induction false} ConcatPrefix(items: seq<seq<byte>>, j: nat)
    requires j <= |items|
    ensures Concat(items[..j]) <= Concat(items)
    decreases |items| - j
  {
    if j < |items| {
      ConcatPrefix(items, j + 1);
      var next := items[..j + 1];
      assert next[..|next| - 1] == items[..j];
      assert Concat(next) == Concat(items[..j]) + items[j];
      assert items[..|items|] == items;
    } else {
      assert items[..j] == items;
    }
  }

  /** The start of entry `k` is the size of everything written before it. */
  lemma OffsetIsPrefixSize(items: seq<seq<byte>>, k: nat)
    requires k <= |items|
    ensures Offsets(Lengths(items))[k] == |Concat(items[..k])|
  {
    assert Lengths(items[..k]) == Lengths(items)[..k];
  }

  /** Entry `i` of the blob, cut out by its offset and length, is exactly the
      `i`-th payload. */
  lemma SliceOfConcat(items: seq<seq<byte>>, i: nat)
    requires i < |items|
    ensures Offsets(Lengths(items))[i] <= Offsets(Lengths(items))[i + 1] <= |Concat(items)|
    ensures Concat(items)[Offsets(Lengths(items))[i] .. Offsets(Lengths(items))[i + 1]] == items[i]
  {
    var blob := Concat(items);
    var before := Concat(items[..i]);
    var upto := items[..i + 1];
    assert upto[..|upto| - 1] == items[..i];
    assert Concat(upto) == before + items[i];
    ConcatPrefix(items, i + 1);
    OffsetIsPrefixSize(items, i);
    OffsetIsPrefixSize(items, i + 1);
    assert blob[..|before| + |items[i]|] == before + items[i];
  }
}
