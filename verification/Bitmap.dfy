/** The block and inode bitmaps of the file system: 512 bytes, most significant bit first, allocated next-fit. */
module Bitmap {
  import opened Words
  import opened Ring

  const NONE := 0xFFFF_FFFF

  // --------------------------------------------------------------------------
  // Bits of a byte
  // --------------------------------------------------------------------------

  /** Bit j of x. */
  predicate TestBit(x: nat, j: nat) {
    if j == 0 then x % 2 == 1 else TestBit(x / 2, j - 1)
  }

  /** The program's test: masking with a power of two. */
  lemma {:induction false} MaskTests(x: nat, j: nat)
    ensures And(x, Pow2(j)) != 0 <==> TestBit(x, j)
    decreases j
  {
    if j > 0 {
      AndEven(x, Pow2(j - 1));
      MaskTests(x / 2, j - 1);
    }
  }

  /** Adding a power of two whose bit is clear sets that bit only. */
  lemma {:induction false} AddBit(x: nat, j: nat, i: nat)
    requires !TestBit(x, j)
    ensures TestBit(x + Pow2(j), i) <==> i == j || TestBit(x, i)
    decreases j
  {
    if j == 0 {
      assert (x + 1) / 2 == x / 2;
    } else {
      assert (x + 2 * Pow2(j - 1)) / 2 == x / 2 + Pow2(j - 1);
      assert (x + 2 * Pow2(j - 1)) % 2 == x % 2;
      if i > 0 {
        AddBit(x / 2, j - 1, i - 1);
      }
    }
  }

  lemma {:induction false} AndBits(x: nat, m: nat, i: nat)
    ensures TestBit(And(x, m), i) <==> TestBit(x, i) && TestBit(m, i)
    decreases i
  {
    if x == 0 || m == 0 {
      NoBits(i);
    } else {
      var bit := if x % 2 == 1 && m % 2 == 1 then 1 else 0;
      var rest := And(x / 2, m / 2);
      assert And(x, m) == bit + 2 * rest;
      assert (bit + 2 * rest) / 2 == rest && (bit + 2 * rest) % 2 == bit;
      if i > 0 {
        AndBits(x / 2, m / 2, i - 1);
      }
    }
  }

  lemma {:induction false} NoBits(i: nat)
    ensures !TestBit(0, i)
  {
    if i > 0 {
      NoBits(i - 1);
    }
  }

  /** All ones but one. */
  lemma {:induction false} HoleBits(n: nat, j: nat, i: nat)
    requires j < n && i < n
    ensures Pow2(n) - 1 - Pow2(j) >= 0
    ensures TestBit(Pow2(n) - 1 - Pow2(j), i) <==> i != j
    decreases n
  {
    if j == 0 {
      assert Pow2(n) - 2 == 2 * (Pow2(n - 1) - 1);
      if i > 0 {
        OnesBits(n - 1, i - 1);
      }
    } else {
      HoleBits(n - 1, j - 1, if i > 0 then i - 1 else 0);
      var h := Pow2(n - 1) - 1 - Pow2(j - 1);
      assert Pow2(n) - 1 - Pow2(j) == 2 * h + 1;
      assert (2 * h + 1) / 2 == h;
    }
  }

  lemma {:induction false} OnesBits(n: nat, i: nat)
    requires i < n
    ensures TestBit(Pow2(n) - 1, i)
    decreases n
  {
    var h := Pow2(n - 1) - 1;
    assert Pow2(n) - 1 == 2 * h + 1;
    assert (2 * h + 1) / 2 == h;
    if i > 0 {
      OnesBits(n - 1, i - 1);
    }
  }

  /** A byte with all its bits set is 2^n - 1. */
  lemma {:induction false} AllOnes(x: nat, n: nat)
    requires x < Pow2(n) && forall i :: 0 <= i < n ==> TestBit(x, i)
    ensures x == Pow2(n) - 1
    decreases n
  {
    if n > 0 {
      assert TestBit(x, 0);
      forall i | 0 <= i < n - 1
        ensures TestBit(x / 2, i)
      {
        assert TestBit(x, i + 1);
      }
      AllOnes(x / 2, n - 1);
    }
  }

  // --------------------------------------------------------------------------
  // Counting clear bits
  // --------------------------------------------------------------------------

  /** Clear bits among the lowest n. */
  function ZerosIn(x: nat, n: nat): (z: nat)
    ensures z <= n
  {
    if n == 0 then 0 else ZerosIn(x, n - 1) + if TestBit(x, n - 1) then 0 else 1
  }

  function FreeBits(buf: seq<nat>): nat {
    if buf == [] then 0 else FreeBits(buf[..|buf| - 1]) + ZerosIn(buf[|buf| - 1], 8)
  }

  lemma {:induction false} ZerosUpdate(x: nat, y: nat, j: nat, n: nat)
    requires forall i :: 0 <= i < n && i != j ==> (TestBit(y, i) <==> TestBit(x, i))
    requires !TestBit(x, j) && TestBit(y, j)
    ensures ZerosIn(y, n) == ZerosIn(x, n) - if j < n then 1 else 0
  {
    if n > 0 {
      ZerosUpdate(x, y, j, n - 1);
    }
  }

  lemma {:induction false} FreeUpdate(buf: seq<nat>, c: nat, y: nat)
    requires c < |buf|
    ensures FreeBits(buf[c := y]) == FreeBits(buf) - ZerosIn(buf[c], 8) + ZerosIn(y, 8)
  {
    var n := |buf| - 1;
    if c == n {
      assert buf[c := y][..n] == buf[..n];
    } else {
      assert buf[c := y][..n] == buf[..n][c := y];
      FreeUpdate(buf[..n], c, y);
    }
  }

  lemma {:induction false} ZerosOfFull(n: nat)
    requires n <= 8
    ensures ZerosIn(0xFF, n) == 0
  {
    if n > 0 {
      assert Pow2(8) == 256;
      OnesBits(8, n - 1);
      ZerosOfFull(n - 1);
    }
  }

  /** While bits are clear some byte is not full. */
  lemma {:induction false} SomeByte(buf: seq<nat>) returns (c: nat)
    requires FreeBits(buf) > 0
    ensures c < |buf| && buf[c] != 0xFF
  {
    var n := |buf| - 1;
    ZerosOfFull(8);
    if buf[n] != 0xFF {
      c := n;
    } else {
      c := SomeByte(buf[..n]);
    }
  }

  // --------------------------------------------------------------------------
  // The map
  // --------------------------------------------------------------------------

  predicate Bytes(buf: seq<nat>) {
    |buf| == 512 && forall c :: 0 <= c < 512 ==> buf[c] < 256
  }

  /** Number k is in use. */
  predicate Used(buf: seq<nat>, k: nat)
    requires |buf| == 512 && k < 4096
  {
    TestBit(buf[k / 8], 7 - k % 8)
  }

  /** Exactly the bit of k differs, and it is `now`. */
  ghost predicate Changed(buf: seq<nat>, buf': seq<nat>, k: nat, now: bool)
    requires |buf| == 512 && k < 4096
  {
    && Bytes(buf') && Used(buf', k) == now
    && forall i: nat :: i < 4096 && i != k ==> Used(buf', i) == Used(buf, i)
  }

  lemma SetBit(buf: seq<nat>, c: nat, flag: nat)
    requires Bytes(buf) && c < 512 && flag < 8 && !TestBit(buf[c], 7 - flag)
    ensures buf[c] + Pow2(7 - flag) < 256
    ensures !Used(buf, 8 * c + flag) && Changed(buf, buf[c := buf[c] + Pow2(7 - flag)], 8 * c + flag, true)
    ensures FreeBits(buf[c := buf[c] + Pow2(7 - flag)]) == FreeBits(buf) - 1
  {
    var j, k := 7 - flag, 8 * c + flag;
    var y := buf[c] + Pow2(j);
    assert k / 8 == c && k % 8 == flag;
    BelowByte(buf[c], j, 8);
    forall i: nat | i < 8
      ensures TestBit(y, i) <==> i == j || TestBit(buf[c], i)
    {
      AddBit(buf[c], j, i);
    }
    ZerosUpdate(buf[c], y, j, 8);
    FreeUpdate(buf, c, y);
    SameByte(buf, buf[c := y], c, flag);
  }

  lemma SameByte(buf: seq<nat>, buf': seq<nat>, c: nat, flag: nat)
    requires |buf| == 512 && c < 512 && flag < 8 && |buf'| == 512 && buf' == buf[c := buf'[c]]
    requires forall i: nat :: i < 8 && i != 7 - flag ==> (TestBit(buf'[c], i) <==> TestBit(buf[c], i))
    ensures forall i: nat :: i < 4096 && i != 8 * c + flag ==> Used(buf', i) == Used(buf, i)
  {
    forall i: nat | i < 4096 && i != 8 * c + flag
      ensures Used(buf', i) == Used(buf, i)
    {
      if i / 8 == c {
        assert i == 8 * c + i % 8;
        assert TestBit(buf'[c], 7 - i % 8) <==> TestBit(buf[c], 7 - i % 8);
      }
    }
  }

  /** Setting a clear bit of a byte stays within the byte. */
  lemma {:induction false} BelowByte(x: nat, j: nat, n: nat)
    requires x < Pow2(n) && j < n && !TestBit(x, j)
    ensures x + Pow2(j) < Pow2(n)
    ensures Pow2(8) == 256
    decreases n
  {
    assert Pow2(8) == 256;
    if j > 0 {
      BelowByte(x / 2, j - 1, n - 1);
    }
  }

  /** The masks of the switch in the remove functions. */
  function ClearMask(r: nat): nat
    requires r < 8
  {
    match r
    case 0 => 127
    case 1 => 191
    case 2 => 223
    case 3 => 239
    case 4 => 247
    case 5 => 251
    case 6 => 253
    case 7 => 254
  }

  lemma ClearMaskIs(r: nat)
    requires r < 8
    ensures ClearMask(r) == 255 - Pow2(7 - r) && Pow2(8) == 256
  {
    assert Pow2(3) == 8;
    assert Pow2(7) == 16 * Pow2(3);
    assert r == 0 || r == 1 || r == 2 || r == 3 || r == 4 || r == 5 || r == 6 || r == 7;
  }

  /** Masking clears one bit of a byte. */
  lemma ClearByte(x: nat, r: nat)
    requires x < 256 && r < 8
    ensures var y := And(x, ClearMask(r));
      && y < 256 && (forall i: nat :: i < 8 ==> (TestBit(y, i) <==> i != 7 - r && TestBit(x, i)))
      && ZerosIn(y, 8) == ZerosIn(x, 8) + if TestBit(x, 7 - r) then 1 else 0
  {
    hide And, TestBit, ZerosIn, ClearMask, Pow2;
    var m, j := ClearMask(r), 7 - r;
    ClearMaskIs(r);
    var y := And(x, m);
    AndAtMost(x, m);
    forall i: nat | i < 8
      ensures TestBit(y, i) <==> i != j && TestBit(x, i)
    {
      AndBits(x, m, i);
      HoleBits(8, j, i);
    }
    if TestBit(x, j) {
      ZerosUpdate(y, x, j, 8);
    } else {
      SameZeros(x, y, 8);
    }
  }

  lemma ClearBit(buf: seq<nat>, k: nat)
    requires Bytes(buf) && k < 4096
    ensures var y := And(buf[k / 8], ClearMask(k % 8));
      && y < 256 && Changed(buf, buf[k / 8 := y], k, false)
      && FreeBits(buf[k / 8 := y]) == FreeBits(buf) + if Used(buf, k) then 1 else 0
  {
    hide And, TestBit, ZerosIn, ClearMask, FreeBits;
    var c := k / 8;
    var y := And(buf[c], ClearMask(k % 8));
    ClearByte(buf[c], k % 8);
    FreeUpdate(buf, c, y);
    SameByte(buf, buf[c := y], c, k % 8);
  }

  lemma {:induction false} SameZeros(x: nat, y: nat, n: nat)
    requires forall i :: 0 <= i < n ==> (TestBit(y, i) <==> TestBit(x, i))
    ensures ZerosIn(y, n) == ZerosIn(x, n)
  {
    if n > 0 {
      SameZeros(x, y, n - 1);
    }
  }

  lemma {:induction false} AndAtMost(x: nat, m: nat)
    ensures And(x, m) <= x
  {
    if x != 0 && m != 0 {
      AndAtMost(x / 2, m / 2);
    }
  }

  // --------------------------------------------------------------------------
  // The file system's allocators
  // --------------------------------------------------------------------------

  /** The search starts at byte `from`: every full byte is passed, round the end, and in the first byte that is not
      full the first clear bit is taken. */
  ghost predicate FirstClear(buf: seq<nat>, from: nat, k: nat)
    requires |buf| == 512 && k < 4096 && from < 512
  {
    && !Used(buf, k)
    && (forall j: nat :: 7 - k % 8 < j < 8 ==> TestBit(buf[k / 8], j))
    && exists d :: 0 <= d < 512 && PassedFull(buf, from, d, k / 8)
  }

  ghost predicate PassedFull(buf: seq<nat>, from: nat, d: int, c: int)
    requires |buf| == 512 && from < 512
  {
    0 <= d < 512 && c == Slot(from, d, 512) && forall e :: 0 <= e < d ==> FullAt(buf, Slot(from, e, 512))
  }

  predicate FullAt(buf: seq<nat>, c: int) {
    0 <= c < |buf| && buf[c] == 0xFF
  }

  /** In circular order from the first number of byte `from` on, no number before the one found is free. */
  lemma NextFree(buf: seq<nat>, from: nat, k: nat, j: nat)
    requires |buf| == 512 && from < 512 && k < 4096 && j < 4096 && FirstClear(buf, from, k)
    requires (j + 4096 - 8 * from) % 4096 < (k + 4096 - 8 * from) % 4096
    ensures Used(buf, j) && !Used(buf, k)
  {
    hide TestBit;
    var d :| 0 <= d < 512 && PassedFull(buf, from, d, k / 8);
    var e := if j / 8 >= from then j / 8 - from else j / 8 - from + 512;
    Circular(from, j, e);
    Circular(from, k, d);
    if e < d {
      assert FullAt(buf, Slot(from, e, 512));
      assert Pow2(8) == 256;
      OnesBits(8, 7 - j % 8);
    } else {
      assert j / 8 == k / 8;
    }
  }

  lemma Circular(from: nat, j: nat, e: nat)
    requires from < 512 && j < 4096 && e < 512 && j / 8 == Slot(from, e, 512)
    ensures (j + 4096 - 8 * from) % 4096 == 8 * e + j % 8
  {
    var x := j + 4096 - 8 * from;
    assert x == 8 * e + j % 8 || x == 8 * e + j % 8 + 4096;
  }

  /** The bit of a number: counted from the top of its byte. */
  lemma UsedIs(buf: seq<nat>, k: nat)
    requires |buf| == 512 && k < 4096
    ensures Used(buf, k) <==> And(buf[k / 8], Pow2(7 - k % 8)) != 0
  {
    MaskTests(buf[k / 8], 7 - k % 8);
  }

  class Ext2 {
    const blockBitmap: array<nat>
    const inodeBitmap: array<nat>
    var freeBlocks: nat
    var freeInodes: nat
    var lastBlock: nat
    var lastInode: nat

    /** The counts agree with the clear bits. Inode numbers start at 1. */
    ghost predicate Valid()
      reads this, blockBitmap, inodeBitmap
    {
      && blockBitmap != inodeBitmap
      && Bytes(blockBitmap[..]) && Bytes(inodeBitmap[..])
      && freeBlocks == FreeBits(blockBitmap[..]) && freeInodes == FreeBits(inodeBitmap[..])
      && lastBlock < 4096 && 1 <= lastInode <= 4096
    }

    /** A fresh file system: both bitmaps on disk are zero. */
    constructor ()
      ensures Valid() && freeBlocks == 4096 && freeInodes == 4096 && fresh(blockBitmap) && fresh(inodeBitmap)
    {
      blockBitmap := new nat[512](_ => 0);
      inodeBitmap := new nat[512](_ => 0);
      freeBlocks, freeInodes := 4096, 4096;
      lastBlock, lastInode := 0, 1;
      new;
      AllFree(blockBitmap[..]);
      AllFree(inodeBitmap[..]);
    }

    /** The scans shared by both allocators (lines 117-126, 143-152): the byte, the bit and its mask. */
    method FindClear(buf: array<nat>, from: nat) returns (cur: nat, flag: nat, con: nat)
      requires Bytes(buf[..]) && from < 512 && FreeBits(buf[..]) > 0
      ensures cur < 512 && flag < 8 && con == Pow2(7 - flag) && !TestBit(buf[cur], 7 - flag)
      ensures FirstClear(buf[..], from, 8 * cur + flag)
    {
      hide FreeBits, TestBit, And, Pow2;
      cur := FindByte(buf, from);
      con, flag := 0x80, 0;
      MaskValues();
      MaskTests(buf[cur], 7);
      while And(buf[cur], con) != 0
        invariant 0 <= flag < 8 && con == Pow2(7 - flag)
        invariant forall j: nat :: 7 - flag < j < 8 ==> TestBit(buf[cur], j)
        decreases 8 - flag
      {
        MaskTests(buf[cur], 7 - flag);
        if flag == 7 {
          FullByte(buf[cur]);
        }
        HalfMask(7 - flag);
        con := con / 2;
        flag := flag + 1;
      }
      MaskTests(buf[cur], 7 - flag);
      assert (8 * cur + flag) / 8 == cur && (8 * cur + flag) % 8 == flag;
    }

    /** The first byte from `from` on, round the end, that is not full. */
    method FindByte(buf: array<nat>, from: nat) returns (cur: nat)
      requires Bytes(buf[..]) && from < 512 && FreeBits(buf[..]) > 0
      ensures cur < 512 && buf[cur] != 0xFF
      ensures exists d :: 0 <= d < 512 && PassedFull(buf[..], from, d, cur)
    {
      hide FreeBits;
      ghost var w := SomeByte(buf[..]);
      ghost var far := if w >= from then w - from else w - from + 512;
      ghost var d := 0;
      cur := from;
      while buf[cur] == 0xFF
        invariant 0 <= d <= far && cur < 512 && PassedFull(buf[..], from, d, cur)
        decreases far - d
      {
        assert FullAt(buf[..], Slot(from, d, 512));
        NextSlot(from, d, 512);
        if cur == 511 {
          cur := 0;
        } else {
          cur := cur + 1;
        }
        d := d + 1;
      }
    }

    /** ext2_alloc_block. */
    method AllocBlock() returns (k: nat)
      requires Valid()
      modifies this, blockBitmap
      ensures Valid() && freeInodes == old(freeInodes) && lastInode == old(lastInode)
      ensures if old(freeBlocks) == 0 then k == NONE && blockBitmap[..] == old(blockBitmap[..])
              else k < 4096 && k == lastBlock && freeBlocks == old(freeBlocks) - 1
                   && FirstClear(old(blockBitmap[..]), old(lastBlock) / 8, k)
                   && Changed(old(blockBitmap[..]), blockBitmap[..], k, true)
                   && blockBitmap[..] == old(blockBitmap[..][k / 8 := blockBitmap[k / 8] + Pow2(7 - k % 8)])
    {
      hide FreeBits, FirstClear, Changed, Bytes;
      if freeBlocks == 0 {
        return NONE;
      }
      BytesLength(blockBitmap[..]);
      ghost var before := blockBitmap[..];
      var cur, flag, con := FindClear(blockBitmap, lastBlock / 8);
      SetBit(before, cur, flag);
      blockBitmap[cur] := blockBitmap[cur] + con;
      assert blockBitmap[..] == before[cur := before[cur] + con];
      ChangedBytes(before, blockBitmap[..], 8 * cur + flag, true);
      lastBlock := cur * 8 + flag;
      freeBlocks := freeBlocks - 1;
      k := lastBlock;
    }

    /** ext2_alloc_inode: the same on the other map, with numbers from 1 on. */
    method AllocInode() returns (k: nat)
      requires Valid()
      modifies this, inodeBitmap
      ensures Valid() && freeBlocks == old(freeBlocks) && lastBlock == old(lastBlock)
      ensures if old(freeInodes) == 0 then k == NONE && inodeBitmap[..] == old(inodeBitmap[..])
              else 1 <= k <= 4096 && k == lastInode && freeInodes == old(freeInodes) - 1
                   && FirstClear(old(inodeBitmap[..]), (old(lastInode) - 1) / 8, k - 1)
                   && Changed(old(inodeBitmap[..]), inodeBitmap[..], k - 1, true)
                   && inodeBitmap[..] == old(inodeBitmap[..][(k - 1) / 8 := inodeBitmap[(k - 1) / 8] + Pow2(7 - (k - 1) % 8)])
    {
      hide FreeBits, FirstClear, Changed, Bytes;
      if freeInodes == 0 {
        return NONE;
      }
      BytesLength(inodeBitmap[..]);
      ghost var before := inodeBitmap[..];
      var cur, flag, con := FindClear(inodeBitmap, (lastInode - 1) / 8);
      SetBit(before, cur, flag);
      inodeBitmap[cur] := inodeBitmap[cur] + con;
      assert inodeBitmap[..] == before[cur := before[cur] + con];
      ChangedBytes(before, inodeBitmap[..], 8 * cur + flag, true);
      lastInode := cur * 8 + flag + 1;
      freeInodes := freeInodes - 1;
      k := lastInode;
    }

    /** ext2_remove_block. Giving back a number twice breaks the count, and nothing else does. */
    method RemoveBlock(k: nat)
      requires Valid() && k < 4096
      modifies this`freeBlocks, blockBitmap
      ensures Changed(old(blockBitmap[..]), blockBitmap[..], k, false) && freeBlocks == old(freeBlocks) + 1
      ensures Valid() <==> old(Used(blockBitmap[..], k))
    {
      hide FreeBits, Changed, Bytes, Used, ClearMask;
      BytesLength(blockBitmap[..]);
      ghost var before := blockBitmap[..];
      var tmp := k / 8;
      ClearBit(before, k);
      blockBitmap[tmp] := And(blockBitmap[tmp], ClearMask(k % 8));
      assert blockBitmap[..] == before[tmp := And(before[tmp], ClearMask(k % 8))];
      ChangedBytes(before, blockBitmap[..], k, false);
      freeBlocks := freeBlocks + 1;
    }

    /** ext2_remove_inode. */
    method RemoveInode(k: nat)
      requires Valid() && 1 <= k <= 4096
      modifies this`freeInodes, inodeBitmap
      ensures Changed(old(inodeBitmap[..]), inodeBitmap[..], k - 1, false) && freeInodes == old(freeInodes) + 1
      ensures Valid() <==> old(Used(inodeBitmap[..], k - 1))
    {
      hide FreeBits, Changed, Bytes, Used, ClearMask;
      BytesLength(inodeBitmap[..]);
      ghost var before := inodeBitmap[..];
      var tmp := (k - 1) / 8;
      ClearBit(before, k - 1);
      inodeBitmap[tmp] := And(inodeBitmap[tmp], ClearMask((k - 1) % 8));
      assert inodeBitmap[..] == before[tmp := And(before[tmp], ClearMask((k - 1) % 8))];
      ChangedBytes(before, inodeBitmap[..], k - 1, false);
      freeInodes := freeInodes + 1;
    }
  }

  lemma BytesLength(buf: seq<nat>)
    requires Bytes(buf)
    ensures |buf| == 512 && forall c :: 0 <= c < 512 ==> buf[c] < 256
  {
  }

  lemma ChangedBytes(buf: seq<nat>, buf': seq<nat>, k: nat, now: bool)
    requires |buf| == 512 && k < 4096 && Changed(buf, buf', k, now)
    ensures Bytes(buf')
  {
  }

  lemma {:induction false} AllFree(buf: seq<nat>)
    requires forall c :: 0 <= c < |buf| ==> buf[c] == 0
    ensures FreeBits(buf) == 8 * |buf|
  {
    if buf != [] {
      AllFree(buf[..|buf| - 1]);
      ZerosOfNone(8);
    }
  }

  lemma {:induction false} ZerosOfNone(n: nat)
    ensures ZerosIn(0, n) == n
  {
    if n > 0 {
      NoBits(n - 1);
      ZerosOfNone(n - 1);
    }
  }

  lemma MaskValues()
    ensures Pow2(7) == 0x80
  {
    assert Pow2(4) == 16;
  }

  lemma HalfMask(j: nat)
    ensures j > 0 ==> Pow2(j) / 2 == Pow2(j - 1)
  {
  }

  /** If the last bit is set as well, the byte is full. */
  lemma FullByte(x: nat)
    requires x < 256 && forall j: nat :: 0 < j < 8 ==> TestBit(x, j)
    ensures TestBit(x, 0) ==> x == 0xFF
  {
    hide TestBit;
    assert Pow2(8) == 256;
    if TestBit(x, 0) {
      AllOnes(x, 8);
    }
  }
}
