// Byte-level view of the storage buffer: the effect of memcpy and memset,
// the fixed-size slots the buffer is cut into, and the zero padding a slot
// receives when a shorter item is written into it.
module Bytes {
  import opened EgQueueTypes

  function Zeros(n: nat): (z: seq<uint8>)
    ensures |z| == n
    ensures forall i :: 0 <= i < n ==> z[i] == 0
  {
    seq(n, _ => 0)
  }

  /** What a slot of `size` bytes holds after `item` is put into it: the item's
      bytes, then zeros up to the end of the slot. */
  function Pad(item: seq<uint8>, size: nat): (r: seq<uint8>)
    requires |item| <= size
    ensures |r| == size
    ensures r[..|item|] == item
    ensures forall i :: |item| <= i < size ==> r[i] == 0
  {
    item + Zeros(size - |item|)
  }

  /** `s` with the bytes from `off` on replaced by `v`. */
  function Overwrite(s: seq<uint8>, off: nat, v: seq<uint8>): (r: seq<uint8>)
    requires off + |v| <= |s|
    ensures |r| == |s|
    ensures r[..off] == s[..off]
    ensures r[off..off + |v|] == v
    ensures r[off + |v|..] == s[off + |v|..]
  {
    s[..off] + v + s[off + |v|..]
  }

  /** Two writes side by side are one write of the two pieces joined. */
  lemma OverwriteAdjacent(s: seq<uint8>, off: nat, a: seq<uint8>, b: seq<uint8>)
    requires off + |a| + |b| <= |s|
    ensures Overwrite(Overwrite(s, off, a), off + |a|, b) == Overwrite(s, off, a + b)
  {
  }

  /** The byte offset of slot `k` when slots of `size` bytes are laid end to
      end from offset 0; it is `k * size` (SlotStartIsProduct), written as a
      sum so that reasoning about slots stays linear. */
  function SlotStart(k: nat, size: nat): nat {
    if k == 0 then 0 else SlotStart(k - 1, size) + size
  }

  lemma {:induction false} SlotStartIsProduct(k: nat, size: nat)
    ensures SlotStart(k, size) == k * size
  {
    if k > 0 {
      SlotStartIsProduct(k - 1, size);
      assert (k - 1) * size + size == k * size;
    }
  }

  /** A lower slot ends at or before the start of a higher one; in
      particular slot `k` of `n` ends within the first `SlotStart(n)` bytes. */
  lemma {:induction false} SlotsInOrder(j: nat, k: nat, size: nat)
    requires j < k
    ensures SlotStart(j, size) + size <= SlotStart(k, size)
  {
    if j + 1 < k {
      SlotsInOrder(j, k - 1, size);
    }
  }

  /** The `size` bytes of slot `k`, in a buffer holding `n` such slots. */
  function Slot(s: seq<uint8>, size: nat, n: nat, k: nat): (r: seq<uint8>)
    requires k < n && SlotStart(n, size) <= |s|
    ensures SlotStart(k, size) + size <= |s|
    ensures |r| == size
  {
    SlotsInOrder(k, n, size);
    s[SlotStart(k, size)..SlotStart(k, size) + size]
  }

  /** Bytes outside the written range keep their values. */
  lemma OverwriteElsewhere(s: seq<uint8>, off: nat, v: seq<uint8>, a: nat, b: nat)
    requires off + |v| <= |s| && a <= b <= |s|
    requires b <= off || off + |v| <= a
    ensures Overwrite(s, off, v)[a..b] == s[a..b]
  {
    var w := Overwrite(s, off, v);
    forall i | a <= i < b
      ensures w[i] == s[i]
    {
    }
  }

  /** Writing slot `h` gives slot `h` the written bytes and leaves every
      other slot as it was. */
  lemma SlotAfterOverwrite(s: seq<uint8>, size: nat, n: nat, h: nat, j: nat, v: seq<uint8>)
    requires h < n && j < n && SlotStart(n, size) <= |s| && |v| == size
    ensures SlotStart(h, size) + size <= |s|
    ensures Slot(Overwrite(s, SlotStart(h, size), v), size, n, j) == if j == h then v else Slot(s, size, n, j)
  {
    SlotsInOrder(h, n, size);
    SlotsInOrder(j, n, size);
    var a := SlotStart(j, size);
    if j < h {
      SlotsInOrder(j, h, size);
      OverwriteElsewhere(s, SlotStart(h, size), v, a, a + size);
    } else if h < j {
      SlotsInOrder(h, j, size);
      OverwriteElsewhere(s, SlotStart(h, size), v, a, a + size);
    }
  }

  /** memcpy(dst + off, src, |src|): the bytes of `src`, copied one by one. */
  method CopyInto(dst: array<uint8>, off: nat, src: seq<uint8>)
    requires off + |src| <= dst.Length
    modifies dst
    ensures dst[..] == Overwrite(old(dst[..]), off, src)
  {
    var i := 0;
    while i < |src|
      invariant 0 <= i <= |src|
      invariant forall k :: 0 <= k < i ==> dst[off + k] == src[k]
      invariant forall k :: 0 <= k < dst.Length && !(off <= k < off + i) ==> dst[k] == old(dst[k])
    {
      dst[off + i] := src[i];
      i := i + 1;
    }
    assert dst[..] == Overwrite(old(dst[..]), off, src) by {
      var r := Overwrite(old(dst[..]), off, src);
      forall k | 0 <= k < dst.Length
        ensures dst[k] == r[k]
      {
        if off <= k < off + |src| {
          assert r[k] == r[off..off + |src|][k - off];
        }
      }
    }
  }

  /** memset(dst + off, 0, n). */
  method ZeroFill(dst: array<uint8>, off: nat, n: nat)
    requires off + n <= dst.Length
    modifies dst
    ensures dst[..] == Overwrite(old(dst[..]), off, Zeros(n))
  {
    var i := 0;
    while i < n
      invariant 0 <= i <= n
      invariant forall k :: off <= k < off + i ==> dst[k] == 0
      invariant forall k :: 0 <= k < dst.Length && !(off <= k < off + i) ==> dst[k] == old(dst[k])
    {
      dst[off + i] := 0;
      i := i + 1;
    }
    assert dst[..] == Overwrite(old(dst[..]), off, Zeros(n)) by {
      var r := Overwrite(old(dst[..]), off, Zeros(n));
      forall k | 0 <= k < dst.Length
        ensures dst[k] == r[k]
      {
        if off <= k < off + n {
          assert r[k] == r[off..off + n][k - off];
        }
      }
    }
  }
}
