/**
 The free map of a cylinder group in etc/mkfs.c: a bit for every fragment, eight to a byte, worked on
 a block of `frag` fragments at a time by masks.
 */
module MkfsBitmap {

  const NBBY := 8

  predicate FragOk(frag: nat) { frag == 1 || frag == 2 || frag == 4 || frag == 8 }

  /** The bit that setbit() sets in a byte. */
  function BitMask(k: nat): bv8
    requires k < NBBY
  {
    1 << k
  }

  predicate BitIn(b: bv8, k: nat)
    requires k < NBBY
  {
    b & BitMask(k) != 0
  }

  /** The mask of the q-th block in a byte. */
  function BlockMask(frag: nat, q: nat): bv8
    requires FragOk(frag) && q < NBBY / frag
  {
    if frag == 8 then 0xff
    else if frag == 4 then 0x0f << (q * 4)
    else if frag == 2 then 0x03 << (q * 2)
    else 0x01 << q
  }

  predicate InBlock(frag: nat, q: nat, k: nat) { q * frag <= k < (q + 1) * frag }

  lemma MaskTable(frag: nat, q: nat, k: nat)
    requires FragOk(frag) && q < NBBY / frag && k < NBBY
    ensures BlockMask(frag, q) & BitMask(k) != 0 <==> InBlock(frag, q, k)
  {
  }

  lemma SetMask(b: bv8, m: bv8, k: nat)
    requires k < NBBY
    ensures BitIn(b | m, k) <==> BitIn(b, k) || m & BitMask(k) != 0
  {
  }

  lemma ClearMask(b: bv8, m: bv8, k: nat)
    requires k < NBBY
    ensures BitIn(b & !m, k) <==> BitIn(b, k) && m & BitMask(k) == 0
  {
    assert k == 0 || k == 1 || k == 2 || k == 3 || k == 4 || k == 5 || k == 6 || k == 7;
  }

  /** All bits of the block are set. */
  predicate BlockSet(b: bv8, frag: nat, q: nat) {
    forall k :: 0 <= k < NBBY && InBlock(frag, q, k) ==> BitIn(b, k)
  }

  lemma TestMask(b: bv8, frag: nat, q: nat)
    requires FragOk(frag) && q < NBBY / frag
    ensures b & BlockMask(frag, q) == BlockMask(frag, q) <==> BlockSet(b, frag, q)
  {
    hide BitMask, BlockMask, BlockSet;
    if b & BlockMask(frag, q) == BlockMask(frag, q) {
      MaskIn(b, frag, q);
    } else {
      MaskOut(b, frag, q);
    }
  }

  lemma MaskIn(b: bv8, frag: nat, q: nat)
    requires FragOk(frag) && q < NBBY / frag && b & BlockMask(frag, q) == BlockMask(frag, q)
    ensures BlockSet(b, frag, q)
  {
    hide BitMask, BlockMask;
    forall k | 0 <= k < NBBY && InBlock(frag, q, k) ensures BitIn(b, k) {
      MaskTable(frag, q, k);
      Inside(b, BlockMask(frag, q), BitMask(k));
    }
  }

  lemma MaskOut(b: bv8, frag: nat, q: nat)
    requires FragOk(frag) && q < NBBY / frag && b & BlockMask(frag, q) != BlockMask(frag, q)
    ensures !BlockSet(b, frag, q)
  {
    hide BitMask, BlockMask;
    NotAllBits(b, BlockMask(frag, q));
    var k :| 0 <= k < NBBY && BlockMask(frag, q) & BitMask(k) != 0 && !BitIn(b, k);
    MaskTable(frag, q, k);
  }

  lemma Inside(b: bv8, m: bv8, x: bv8)
    requires b & m == m && m & x != 0
    ensures b & x != 0
  {
  }

  lemma NotAllBits(b: bv8, m: bv8)
    requires b & m != m
    ensures exists k :: 0 <= k < NBBY && m & BitMask(k) != 0 && !BitIn(b, k)
  {
    assert BitMask(0) == 1 && BitMask(1) == 2 && BitMask(2) == 4 && BitMask(3) == 8;
    assert BitMask(4) == 16 && BitMask(5) == 32 && BitMask(6) == 64 && BitMask(7) == 128;
  }

  /** Fragment d is free. */
  predicate Free(cp: seq<bv8>, d: nat)
    requires d < NBBY * |cp|
  {
    BitIn(cp[d / NBBY], d % NBBY)
  }

  /** The byte that holds block h, and the place of the block in it. */
  function ByteOf(frag: nat, h: nat): nat
    requires FragOk(frag)
  {
    h / (NBBY / frag)
  }

  function SlotOf(frag: nat, h: nat): (q: nat)
    requires FragOk(frag)
    ensures q < NBBY / frag
  {
    h % (NBBY / frag)
  }

  /** isblock() */
  predicate IsBlock(frag: nat, cp: seq<bv8>, h: nat)
    requires FragOk(frag) && (h + 1) * frag <= NBBY * |cp|
  {
    Place(frag, h, 0);
    var mask := BlockMask(frag, SlotOf(frag, h));
    cp[ByteOf(frag, h)] & mask == mask
  }

  /** setblock() */
  function SetBlock(frag: nat, cp: seq<bv8>, h: nat): (r: seq<bv8>)
    requires FragOk(frag) && (h + 1) * frag <= NBBY * |cp|
    ensures |r| == |cp|
  {
    Place(frag, h, 0);
    var i := ByteOf(frag, h);
    cp[i := cp[i] | BlockMask(frag, SlotOf(frag, h))]
  }

  /** clrblock() */
  function ClrBlock(frag: nat, cp: seq<bv8>, h: nat): (r: seq<bv8>)
    requires FragOk(frag) && (h + 1) * frag <= NBBY * |cp|
    ensures |r| == |cp|
  {
    Place(frag, h, 0);
    var i := ByteOf(frag, h);
    cp[i := cp[i] & !BlockMask(frag, SlotOf(frag, h))]
  }

  /** The macro setbit() */
  function SetBit(cp: seq<bv8>, d: nat): (r: seq<bv8>)
    requires d < NBBY * |cp|
    ensures |r| == |cp|
  {
    cp[d / NBBY := cp[d / NBBY] | BitMask(d % NBBY)]
  }

  /** Where the fragments of a block lie. */
  lemma Place(frag: nat, h: nat, i: nat)
    requires FragOk(frag) && i < frag
    ensures (h * frag + i) / NBBY == ByteOf(frag, h)
    ensures (h * frag + i) % NBBY == SlotOf(frag, h) * frag + i
  {
  }

  /** A fragment belongs to block h exactly when it lies in its byte, inside its mask. */
  lemma InPlace(frag: nat, h: nat, d: nat)
    requires FragOk(frag)
    ensures d / frag == h <==> d / NBBY == ByteOf(frag, h) && InBlock(frag, SlotOf(frag, h), d % NBBY)
  {
  }

  /** A block is there to take exactly when all its fragments are free. */
  lemma IsBlockMeans(frag: nat, cp: seq<bv8>, h: nat)
    requires FragOk(frag) && (h + 1) * frag <= NBBY * |cp|
    ensures IsBlock(frag, cp, h) <==> forall d :: h * frag <= d < (h + 1) * frag ==> Free(cp, d)
  {
    hide BitIn, BitMask, BlockMask, InBlock, ByteOf, SlotOf;
    var i, q := ByteOf(frag, h), SlotOf(frag, h);
    Place(frag, h, 0);
    TestMask(cp[i], frag, q);
    if IsBlock(frag, cp, h) {
      forall d | h * frag <= d < (h + 1) * frag ensures Free(cp, d) {
        InItsBlock(frag, h, d);
        InPlace(frag, h, d);
      }
    } else {
      var k :| 0 <= k < NBBY && InBlock(frag, q, k) && !BitIn(cp[i], k);
      var d: nat := NBBY * i + k;
      InPlace(frag, h, d);
      InItsBlock(frag, h, d);
      assert !Free(cp, d);
    }
  }

  lemma InItsBlock(frag: nat, h: nat, d: nat)
    requires FragOk(frag)
    ensures h * frag <= d < (h + 1) * frag <==> d / frag == h
  {
  }

  /** setblock() frees exactly the fragments of its block. */
  lemma SetBlockMeans(frag: nat, cp: seq<bv8>, h: nat, d: nat)
    requires FragOk(frag) && (h + 1) * frag <= NBBY * |cp| && d < NBBY * |cp|
    ensures Free(SetBlock(frag, cp, h), d) <==> Free(cp, d) || d / frag == h
  {
    hide BitIn, BitMask, BlockMask, InBlock, ByteOf, SlotOf;
    InPlace(frag, h, d);
    if d / NBBY == ByteOf(frag, h) {
      var q, j := SlotOf(frag, h), d % NBBY;
      SetMask(cp[d / NBBY], BlockMask(frag, q), j);
      MaskTable(frag, q, j);
    }
  }

  /** clrblock() takes exactly the fragments of its block. */
  lemma ClrBlockMeans(frag: nat, cp: seq<bv8>, h: nat, d: nat)
    requires FragOk(frag) && (h + 1) * frag <= NBBY * |cp| && d < NBBY * |cp|
    ensures Free(ClrBlock(frag, cp, h), d) <==> Free(cp, d) && d / frag != h
  {
    hide BitIn, BitMask, BlockMask, InBlock, ByteOf, SlotOf;
    InPlace(frag, h, d);
    if d / NBBY == ByteOf(frag, h) {
      var q, j := SlotOf(frag, h), d % NBBY;
      ClearMask(cp[d / NBBY], BlockMask(frag, q), j);
      MaskTable(frag, q, j);
    }
  }

  lemma SetBitMeans(cp: seq<bv8>, e: nat, d: nat)
    requires e < NBBY * |cp| && d < NBBY * |cp|
    ensures Free(SetBit(cp, e), d) <==> Free(cp, d) || d == e
  {
    SetMask(cp[d / NBBY], BitMask(e % NBBY), d % NBBY);
    OneBit(e % NBBY, d % NBBY);
  }

  lemma OneBit(j: nat, k: nat)
    requires j < NBBY && k < NBBY
    ensures BitMask(j) & BitMask(k) != 0 <==> j == k
  {
  }
}
