/** Bit vectors kept in bytes, as the fetcher, the flash allocator and the slab allocator use them. */
module Bits {

  /** 1 << j in eight bits; 0 from j == 8 on. */
  function Mask(j: int): bv8 {
    if j == 0 then 1 else if j == 1 then 2 else if j == 2 then 4 else if j == 3 then 8
    else if j == 4 then 16 else if j == 5 then 32 else if j == 6 then 64 else if j == 7 then 128 else 0
  }

  predicate Test(b: bv8, j: int) { b & Mask(j) != 0 }

  lemma MaskShift(j: int)
    requires 0 <= j < 8
    ensures Mask(j) << 1 == Mask(j + 1) && Mask(j) != 0
  {
  }

  /** shift <<= 1, and the test b & shift. */
  function Shl(b: bv8): bv8 { b << 1 }

  predicate Hit(b: bv8, shift: bv8) { b & shift != 0 }

  lemma ShlMask(j: int)
    requires 0 <= j < 8
    ensures Shl(Mask(j)) == Mask(j + 1)
  {
  }

  lemma MaskZero()
    ensures Mask(0) == 1
  {
  }

  lemma TestSet(b: bv8, j: int, k: int)
    requires 0 <= j < 8 && 0 <= k < 8
    ensures Test(b | Mask(j), k) <==> k == j || Test(b, k)
  {
  }

  lemma TestClear(b: bv8, j: int, k: int)
    requires 0 <= j < 8 && 0 <= k < 8
    ensures Test(b & !Mask(j), k) <==> k != j && Test(b, k)
  {
  }

  lemma ZeroByte(b: bv8)
    ensures b == 0 <==> forall k :: 0 <= k < 8 ==> !Test(b, k)
  {
    if forall k :: 0 <= k < 8 ==> !Test(b, k) {
      assert !Test(b, 0) && !Test(b, 1) && !Test(b, 2) && !Test(b, 3);
      assert !Test(b, 4) && !Test(b, 5) && !Test(b, 6) && !Test(b, 7);
    }
  }

  lemma SameBits(a: bv8, b: bv8)
    ensures a == b <==> forall k :: 0 <= k < 8 ==> (Test(a, k) <==> Test(b, k))
  {
    if forall k :: 0 <= k < 8 ==> (Test(a, k) <==> Test(b, k)) {
      assert Test(a, 0) == Test(b, 0) && Test(a, 1) == Test(b, 1) && Test(a, 2) == Test(b, 2)
             && Test(a, 3) == Test(b, 3);
      assert Test(a, 4) == Test(b, 4) && Test(a, 5) == Test(b, 5) && Test(a, 6) == Test(b, 6)
             && Test(a, 7) == Test(b, 7);
    }
  }

  /** The n lowest bits. */
  function Full(n: int): bv8 { if n == 8 then 0xff else if n == 0 then 0 else Mask(n) - 1 }

  lemma FullStep(n: int)
    requires 0 <= n < 8
    ensures Shl(Full(n)) | 1 == Full(n + 1)
  {
  }

  lemma TestFullLow(n: int, k: int)
    requires 0 <= n <= 8 && 0 <= k < 8
    ensures Test(Full(n), k) <==> k < n
  {
  }

  lemma TestFull(k: int)
    requires 0 <= k < 8
    ensures Test(0xff, k) && !Test(0, k)
  {
  }

  /** Bit k of a vector; bits outside of it are clear. */
  predicate BitAt(v: seq<bv8>, k: int) { 0 <= k < 8 * |v| && Test(v[k / 8], k % 8) }

  ghost function BitSet(v: seq<bv8>): set<int> { set k | 0 <= k < 8 * |v| && BitAt(v, k) }

  lemma ClearBitInVector(v: seq<bv8>, f: int)
    requires 0 <= f < 8 * |v|
    ensures BitSet(v[f / 8 := v[f / 8] & !Mask(f % 8)]) == BitSet(v) - {f}
  {
    var v1 := v[f / 8 := v[f / 8] & !Mask(f % 8)];
    forall k | 0 <= k < 8 * |v| ensures BitAt(v1, k) <==> k != f && BitAt(v, k) {
      TestClear(v[f / 8], f % 8, k % 8);
    }
  }

  lemma ZeroVector(v: seq<bv8>)
    ensures BitSet(v) == {} <==> forall i :: 0 <= i < |v| ==> v[i] == 0
  {
    if forall i :: 0 <= i < |v| ==> v[i] == 0 {
      forall k | 0 <= k < 8 * |v| ensures !BitAt(v, k) {
        TestFull(k % 8);
      }
    }
    if BitSet(v) == {} {
      forall i | 0 <= i < |v| ensures v[i] == 0 {
        forall k | 0 <= k < 8 ensures !Test(v[i], k) {
          assert 8 * i + k !in BitSet(v) && (8 * i + k) / 8 == i;
        }
        ZeroByte(v[i]);
      }
    }
  }

  /** v[f / 8] &= ~(1 << (f % 8)). */
  method ClearBit(v: seq<bv8>, f: int) returns (r: seq<bv8>)
    requires 0 <= f < 8 * |v|
    ensures |r| == |v| && BitSet(r) == BitSet(v) - {f}
  {
    ClearBitInVector(v, f);
    r := v[f / 8 := v[f / 8] & !Mask(f % 8)];
  }

  /** v[f / 8] & (1 << (f % 8)). */
  method TestBit(v: seq<bv8>, f: int) returns (r: bool)
    requires 0 <= f < 8 * |v|
    ensures r <==> f in BitSet(v)
  {
    r := v[f / 8] & Mask(f % 8) != 0;
  }
}
