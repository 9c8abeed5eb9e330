/** The Arrow validity bitmap: one bit per element, packed least-significant
    bit first, so element `i` lives in bit `i % 8` of byte `i / 8`. A set bit
    means the element is valid (non-null). */
module Bitmap {

  /** The byte holding the bit of element `i`. */
  function ByteIndex(i: nat): nat { i / 8 }

  /** The single-bit mask selecting bit `k` of a byte. */
  function Mask(k: nat): bv8
    requires k < 8
  {
    (1 as bv8) << k
  }

  predicate BitOf(b: bv8, k: nat)
    requires k < 8
  {
    b & Mask(k) != 0
  }

  /** Whether element `i` is marked valid. */
  predicate IsValid(bytes: seq<bv8>, i: nat)
    requires ByteIndex(i) < |bytes|
  {
    BitOf(bytes[ByteIndex(i)], i % 8)
  }

  /** Mark element `i` valid, the effect of setting its bit. */
  function SetBit(bytes: seq<bv8>, i: nat): seq<bv8>
    requires ByteIndex(i) < |bytes|
  {
    bytes[ByteIndex(i) := bytes[ByteIndex(i)] | Mask(i % 8)]
  }

  /** Mark element `i` null, the effect of clearing its bit. */
  function UnsetBit(bytes: seq<bv8>, i: nat): seq<bv8>
    requires ByteIndex(i) < |bytes|
  {
    bytes[ByteIndex(i) := bytes[ByteIndex(i)] & !Mask(i % 8)]
  }

  /** The validity of the first `n` elements, one boolean per element. */
  function View(bytes: seq<bv8>, n: nat): (v: seq<bool>)
    requires n <= |bytes| * 8
    ensures |v| == n
    ensures forall i :: 0 <= i < n ==> ByteIndex(i) < |bytes| && v[i] == IsValid(bytes, i)
  {
    seq(n, i requires 0 <= i < n => IsValid(bytes, i))
  }

  /** Or-ing in the mask of bit `k` sets bit `k` and no other bit. */
  lemma BitOfSet(b: bv8, k: nat, m: nat)
    requires k < 8 && m < 8
    ensures BitOf(b | Mask(k), m) == (m == k || BitOf(b, m))
  {
  }

  /** And-ing with the complement of bit `k`'s mask clears bit `k` and no other bit. */
  lemma BitOfUnset(b: bv8, k: nat, m: nat)
    requires k < 8 && m < 8
    ensures BitOf(b & !Mask(k), m) == (m != k && BitOf(b, m))
  {
  }

  /** Two elements that share a byte sit at different bit positions of it. */
  lemma DistinctBits(i: nat, j: nat)
    requires i != j && ByteIndex(i) == ByteIndex(j)
    ensures i % 8 != j % 8
  {
  }

  /** Setting the bit of element `i` marks `i` valid and keeps every other
      element's validity. */
  lemma ViewSetBit(bytes: seq<bv8>, n: nat, i: nat)
    requires i < n <= |bytes| * 8
    ensures |SetBit(bytes, i)| == |bytes|
    ensures View(SetBit(bytes, i), n) == View(bytes, n)[i := true]
  {
    var after := SetBit(bytes, i);
    forall j | 0 <= j < n
      ensures IsValid(after, j) == (j == i || IsValid(bytes, j))
    {
      if ByteIndex(j) == ByteIndex(i) {
        if j != i { DistinctBits(i, j); }
        BitOfSet(bytes[ByteIndex(i)], i % 8, j % 8);
      }
    }
  }

  /** Clearing the bit of element `i` marks `i` null and keeps every other
      element's validity. */
  lemma ViewUnsetBit(bytes: seq<bv8>, n: nat, i: nat)
    requires i < n <= |bytes| * 8
    ensures |UnsetBit(bytes, i)| == |bytes|
    ensures View(UnsetBit(bytes, i), n) == View(bytes, n)[i := false]
  {
    var after := UnsetBit(bytes, i);
    forall j | 0 <= j < n
      ensures IsValid(after, j) == (j != i && IsValid(bytes, j))
    {
      if ByteIndex(j) == ByteIndex(i) {
        if j != i { DistinctBits(i, j); }
        BitOfUnset(bytes[ByteIndex(i)], i % 8, j % 8);
      }
    }
  }
}
