/** kernel/memmap.c: permission records of two or four bits, packed into bytes. */
module Memmap {
  import opened Bits

  /** MEMMAP_BLOCK_SIZE. */
  const BLOCK := 8

  /** MEMMAP_REC_BITS, and MEMMAP_REC_PER_BYTE and MEMMAP_REC_MASK for it. */
  predicate RecBits(r: int) { r == 2 || r == 4 }

  function PerByte(r: int): int { if r == 2 then 4 else 2 }

  function RecMask(r: int): bv8 { if r == 2 then 3 else 15 }

  /** x << o and x >> o for the bit offsets that occur. */
  function Lsl(x: bv8, o: int): bv8 {
    if o == 0 then x else if o == 2 then x << 2 else if o == 4 then x << 4 else if o == 6 then x << 6 else 0
  }

  function Lsr(x: bv8, o: int): bv8 {
    if o == 0 then x else if o == 2 then x >> 2 else if o == 4 then x >> 4 else if o == 6 then x >> 6 else 0
  }

  /** x << r. */
  function Next(x: bv8, r: int): bv8 { if r == 2 then x << 2 else x << 4 }

  function Offset(j: int, r: int): int { if r == 2 then 2 * j else 4 * j }

  predicate Fits(v: bv8, r: int) { v & !RecMask(r) == 0 }

  /** Record j of a byte. */
  function GetRec(b: bv8, j: int, r: int): bv8 { Lsr(b, Offset(j, r)) & RecMask(r) }

  /** The byte with v in place of what the mask covers. */
  function Put(b: bv8, bm: bv8, v: bv8): bv8 { (b & !bm) | v }

  /** The block whose record is number j of byte i. */
  function BlockAt(i: int, j: int, r: int): int { if r == 2 then 4 * i + j else 2 * i + j }

  /** The byte and the record in it of a block, and the number of blocks of a table. */
  function ByteOf(k: int, r: int): int { if r == 2 then k / 4 else k / 2 }

  function RecOf(k: int, r: int): int { if r == 2 then k % 4 else k % 2 }

  function Blocks(size: int, r: int): int { if r == 2 then 4 * size else 2 * size }

  /** (b & mask) == val. */
  predicate TestByte(b: bv8, mask: bv8, val: bv8) { b & mask == val }

  // ---------------------------------------------------------------------------------------------
  // Bytes
  // ---------------------------------------------------------------------------------------------

  lemma PutRec(b: bv8, v: bv8, j: int, k: int, r: int)
    requires RecBits(r) && Fits(v, r) && 0 <= j < PerByte(r) && 0 <= k < PerByte(r)
    ensures GetRec(Put(b, Lsl(RecMask(r), Offset(j, r)), Lsl(v, Offset(j, r))), k, r) ==
            if k == j then v else GetRec(b, k, r)
  {
  }

  /** Bit i of record j is bit r * j + i of the byte; a record has no further bits. */
  lemma GetRecBits(b: bv8, j: int, r: int, i: int)
    requires RecBits(r) && 0 <= j < PerByte(r) && 0 <= i < 8
    ensures Test(GetRec(b, j, r), i) <==> i < r && Test(b, r * j + i)
  {
  }

  /** The records of a byte take up its eight bits, and the blocks follow each other in the table. */
  lemma BlockAtIs(i: int, j: int, r: int)
    requires RecBits(r) && 0 <= j < PerByte(r)
    ensures r * PerByte(r) == 8 && BlockAt(i, j, r) == PerByte(r) * i + j
    ensures ByteOf(BlockAt(i, j, r), r) == i && RecOf(BlockAt(i, j, r), r) == j
  {
  }

  /** Shifting mask and value by one record; the mask vanishes behind the last record of the byte. */
  lemma ShiftRec(x: bv8, j: int, r: int)
    requires RecBits(r) && 0 <= j < PerByte(r)
    ensures Next(Lsl(x, Offset(j, r)), r) == Lsl(x, Offset(j + 1, r))
    ensures Lsl(RecMask(r), Offset(j + 1, r)) == 0 <==> j + 1 == PerByte(r)
  {
  }

  /** The test of memmap_change_perms looks at one record. */
  lemma TestRec(b: bv8, mask: bv8, val: bv8, j: int, r: int)
    requires RecBits(r) && Fits(mask, r) && Fits(val, r) && 0 <= j < PerByte(r)
    ensures TestByte(b, Lsl(mask, Offset(j, r)), Lsl(val, Offset(j, r))) <==> TestByte(GetRec(b, j, r), mask, val)
  {
  }

  // ---------------------------------------------------------------------------------------------
  // Tables
  // ---------------------------------------------------------------------------------------------

  /** The table t differs from t0 in the records of n blocks from start on, which hold v. */
  ghost predicate Written(t0: seq<bv8>, t: seq<bv8>, start: int, n: int, v: bv8, r: int) {
    |t| == |t0| && forall i, j {:trigger GetRec(t[i], j, r)} :: 0 <= i < |t| && 0 <= j < PerByte(r) ==>
      GetRec(t[i], j, r) == if start <= BlockAt(i, j, r) < start + n then v else GetRec(t0[i], j, r)
  }

  lemma WriteOne(t0: seq<bv8>, t: seq<bv8>, start: int, n: nat, v: bv8, r: int, i: int, j: int)
    requires RecBits(r) && Fits(v, r) && Written(t0, t, start, n, v, r)
    requires 0 <= i < |t| && 0 <= j < PerByte(r) && BlockAt(i, j, r) == start + n
    ensures Written(t0, t[i := Put(t[i], Lsl(RecMask(r), Offset(j, r)), Lsl(v, Offset(j, r)))], start, n + 1, v, r)
  {
    hide GetRec, Put, Lsl, Fits, Offset;
    var b := Put(t[i], Lsl(RecMask(r), Offset(j, r)), Lsl(v, Offset(j, r)));
    var t' := t[i := b];
    forall k, l {:trigger GetRec(t'[k], l, r)} | 0 <= k < |t| && 0 <= l < PerByte(r)
      ensures GetRec(t'[k], l, r) == if start <= BlockAt(k, l, r) < start + n + 1 then v else GetRec(t0[k], l, r)
    {
      assert GetRec(t[k], l, r) == if start <= BlockAt(k, l, r) < start + n then v else GetRec(t0[k], l, r);
      if k == i {
        PutRec(t[i], v, j, l, r);
      }
    }
  }

  lemma WriteNone(t: seq<bv8>, start: int, v: bv8, r: int)
    ensures Written(t, t, start, 0, v, r)
  {
  }

  class MemoryMap {
    const table: array<bv8>
    const r: int

    /** memmap_init: all blocks free. */
    constructor (size: nat, bits: int)
      requires RecBits(bits)
      ensures table.Length == size && r == bits && fresh(table)
      ensures forall i, j :: 0 <= i < size && 0 <= j < PerByte(bits) ==> GetRec(table[i], j, bits) == RecMask(bits)
    {
      table := new bv8[size](_ => 0xff);
      r := bits;
      new;
      forall j | 0 <= j < PerByte(bits)
        ensures GetRec(0xff, j, bits) == RecMask(bits)
      {
        FreeRec(j, bits);
      }
    }

    /**
      memmap_set_perms: exactly the records of the blocks of the range become v.  A range that reaches the
      end of the table makes the code read and write one byte behind it.
     */
    method SetPerms(base: nat, length: nat, v: bv8)
      requires RecBits(r) && Fits(v, r)
      requires length % BLOCK == 0 && length > 0 ==> base / BLOCK + length / BLOCK < Blocks(table.Length, r)
      modifies table
      ensures Written(old(table[..]), table[..], base / BLOCK, if length % BLOCK == 0 then length / BLOCK else 0, v, r)
    {
      hide Written, Lsl, RecMask, Put, Fits, Offset, Next, GetRec;
      WriteNone(table[..], base / BLOCK, v, r);
      if length == 0 {
        return;
      }
      if length % BLOCK != 0 {
        return;
      }
      Fill(base / BLOCK, length / BLOCK, v);
    }

    /** The loop of memmap_set_perms. */
    method Fill(start: nat, blocks: nat, v: bv8)
      requires RecBits(r) && Fits(v, r) && start + blocks < Blocks(table.Length, r)
      modifies table
      ensures Written(old(table[..]), table[..], start, blocks, v, r)
    {
      hide Written, Lsl, RecMask, Put, Fits, Offset, Next, GetRec;
      ghost var t0 := table[..];
      var i := ByteOf(start, r);
      ghost var j := RecOf(start, r);
      Position(start, r);
      var perms, left := table[i], blocks;
      var bm, val := Lsl(RecMask(r), Offset(RecOf(start, r), r)), Lsl(v, Offset(RecOf(start, r), r));
      ghost var t := t0;
      WriteNone(t0, start, v, r);
      while left > 0
        invariant 0 <= left <= blocks && 0 <= i < table.Length && 0 <= j < PerByte(r)
                  && BlockAt(i, j, r) == start + blocks - left
        invariant t == table[..][i := perms] && Written(t0, t, start, blocks - left, v, r)
        invariant bm == Lsl(RecMask(r), Offset(j, r)) && val == Lsl(v, Offset(j, r))
        decreases left
      {
        WriteOne(t0, t, start, blocks - left, v, r, i, j);
        ShiftRec(RecMask(r), j, r);
        ShiftRec(v, j, r);
        perms := Put(perms, bm, val);
        left := left - 1;
        bm, val := Next(bm, r), Next(val, r);
        t := t[i := perms];
        j := j + 1;
        if bm == 0 {
          table[i] := perms;
          assert table[..] == t;
          i, j := i + 1, 0;
          perms := table[i];
          assert table[..][i := perms] == t;
          FirstRec(RecMask(r), r);
          FirstRec(v, r);
          bm, val := RecMask(r), v;
        }
      }
      table[i] := perms;
      assert table[..] == t;
    }

    /**
      memmap_change_perms: the longest run of matching records from the base on is changed, and its length
      returned.  The block end, which does not match, keeps the run inside of the table.
     */
    method ChangePerms(base: nat, mask: bv8, check: bv8, v: bv8, ghost end: nat) returns (n: nat)
      requires RecBits(r) && Fits(mask, r) && Fits(check, r) && Fits(v, r)
      requires base / BLOCK <= end < Blocks(table.Length, r) && !Matches(table[..], end, mask, check, r)
      modifies table
      ensures Written(old(table[..]), table[..], base / BLOCK, n, v, r)
      ensures forall k :: base / BLOCK <= k < base / BLOCK + n ==> Matches(old(table[..]), k, mask, check, r)
      ensures base / BLOCK + n <= end && !Matches(old(table[..]), base / BLOCK + n, mask, check, r)
    {
      hide Written, Lsl, RecMask, Put, Fits, Offset, Next, GetRec, Matches, TestByte, ByteOf, RecOf;
      ghost var t0 := table[..];
      var start := base / BLOCK;
      var i := ByteOf(start, r);
      ghost var j := RecOf(start, r);
      Position(start, r);
      var perms, o := table[i], Offset(RecOf(start, r), r);
      var lmask, lcheck, val, bm := Lsl(mask, o), Lsl(check, o), Lsl(v, o), Lsl(RecMask(r), o);
      ghost var t := t0;
      n := 0;
      WriteNone(t0, start, v, r);
      MatchTest(t0, t, start, n, v, mask, check, r, i, j);
      while TestByte(perms, lmask, lcheck)
        invariant 0 <= i < table.Length && 0 <= j < PerByte(r) && BlockAt(i, j, r) == start + n <= end
        invariant t == table[..][i := perms] && Written(t0, t, start, n, v, r)
        invariant bm == Lsl(RecMask(r), Offset(j, r)) && val == Lsl(v, Offset(j, r))
        invariant lmask == Lsl(mask, Offset(j, r)) && lcheck == Lsl(check, Offset(j, r))
        invariant TestByte(perms, lmask, lcheck) <==> Matches(t0, start + n, mask, check, r)
        invariant forall k :: start <= k < start + n ==> Matches(t0, k, mask, check, r)
        decreases end - start - n
      {
        WriteOne(t0, t, start, n, v, r, i, j);
        ShiftRec(RecMask(r), j, r);
        ShiftRec(v, j, r);
        ShiftRec(mask, j, r);
        ShiftRec(check, j, r);
        perms := Put(perms, bm, val);
        n := n + 1;
        lmask, lcheck, val, bm := Next(lmask, r), Next(lcheck, r), Next(val, r), Next(bm, r);
        t := t[i := perms];
        j := j + 1;
        if bm == 0 {
          table[i] := perms;
          assert table[..] == t;
          i, j := i + 1, 0;
          perms := table[i];
          assert table[..][i := perms] == t;
          FirstRec(RecMask(r), r);
          FirstRec(v, r);
          FirstRec(mask, r);
          FirstRec(check, r);
          lmask, lcheck, val, bm := mask, check, v, RecMask(r);
        }
        MatchTest(t0, t, start, n, v, mask, check, r, i, j);
      }
      table[i] := perms;
      assert table[..] == t;
    }
  }

  /** The record of block k, under the mask, has the value. */
  ghost predicate Matches(t: seq<bv8>, k: int, mask: bv8, check: bv8, r: int) {
    0 <= k < Blocks(|t|, r) && TestByte(GetRec(t[ByteOf(k, r)], RecOf(k, r), r), mask, check)
  }

  /** The test of the loop is about the original record, which has not been written yet. */
  lemma MatchTest(t0: seq<bv8>, t: seq<bv8>, start: int, n: nat, v: bv8, mask: bv8, check: bv8, r: int,
                  i: int, j: int)
    requires RecBits(r) && Fits(mask, r) && Fits(check, r) && Written(t0, t, start, n, v, r)
    requires 0 <= i < |t| && 0 <= j < PerByte(r) && BlockAt(i, j, r) == start + n
    ensures TestByte(t[i], Lsl(mask, Offset(j, r)), Lsl(check, Offset(j, r))) <==>
              Matches(t0, start + n, mask, check, r)
  {
    hide GetRec, Lsl, Fits, Offset, TestByte, ByteOf, RecOf;
    TestRec(t[i], mask, check, j, r);
    assert GetRec(t[i], j, r) == GetRec(t0[i], j, r);
    Coordinates(i, j, r);
  }

  lemma Position(k: int, r: int)
    requires RecBits(r) && 0 <= k
    ensures BlockAt(ByteOf(k, r), RecOf(k, r), r) == k && 0 <= RecOf(k, r) < PerByte(r) && 0 <= ByteOf(k, r)
  {
  }

  lemma Coordinates(i: int, j: int, r: int)
    requires RecBits(r) && 0 <= i && 0 <= j < PerByte(r)
    ensures ByteOf(BlockAt(i, j, r), r) == i && RecOf(BlockAt(i, j, r), r) == j
  {
  }

  lemma FirstRec(x: bv8, r: int)
    ensures Lsl(x, Offset(0, r)) == x
  {
  }

  lemma FreeRec(j: int, r: int)
    requires RecBits(r) && 0 <= j < PerByte(r)
    ensures GetRec(0xff, j, r) == RecMask(r)
  {
  }
}
