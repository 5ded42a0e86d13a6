/**
 The file system that etc/mkfs.c builds: its groups on the disk, their summaries, the totals.
 */
module Mkfs {
  import opened MkfsBitmap
  import opened MkfsCounts
  import opened MkfsGroup

  /** The numbers of the super block that place things in a group.  `cycle` is ~fs_cgmask + 1, `csfrags`
      the fragments of the summary area, `cyls` and the positions are those of the geometry. */
  datatype Layout = Layout(frag: nat, fpg: nat, size: nat, ncg: nat, cgoffset: nat, cycle: nat,
                           sblkno: nat, dblkno: nat, csfrags: nat)
  {
    function Base(c: nat): nat { fpg * c }

    /** cgsblock - cgbase */
    function Dlower(c: nat): nat
      requires cycle >= 1
    {
      cgoffset * (c % cycle) + sblkno
    }

    /** cgdmin - cgbase */
    function DataMin(c: nat): nat
      requires cycle >= 1
    {
      cgoffset * (c % cycle) + dblkno
    }

    /** Where the data begin: in the first group behind the summary area. */
    function Dupper(c: nat): nat
      requires cycle >= 1
    {
      DataMin(c) + if c == 0 then csfrags else 0
    }

    function Ndblk(c: nat): int {
      (if Base(c) + fpg > size then size else Base(c) + fpg) - Base(c)
    }

    /** Whole blocks, full groups but for the last, and the two tests of main(), which are about the data
        without the summary area; that one at least ends inside the map of its group. */
    ghost predicate Ok() {
      && FragOk(frag) && cycle >= 1 && ncg >= 1
      && fpg % frag == 0 && cgoffset % frag == 0 && sblkno % frag == 0 && dblkno % frag == 0
      && sblkno <= dblkno && Base(ncg - 1) <= size
      && DataMin(if cycle < ncg then cycle - 1 else ncg - 1) < fpg
      && DataMin(ncg - 1) <= Ndblk(ncg - 1)
      && RoundUp(Dupper(0), frag) <= fpg
    }

    /** Where the free fragments end. */
    function End(c: nat): nat
      requires FragOk(frag) && cycle >= 1
    {
      if Ndblk(c) < RoundUp(Dupper(c), frag) then RoundUp(Dupper(c), frag) else Ndblk(c)
    }

    /** How far the free fragments of the first group go beyond its end. */
    function Beyond(): nat
      requires FragOk(frag) && cycle >= 1
    {
      End(0) - Ndblk(0)
    }

    /** The free fragments in front of the super block copy. */
    function Low(c: nat): nat
      requires cycle >= 1
    {
      if c > 0 then Dlower(c) else 0
    }
  }

  function RoundUp(d: nat, frag: nat): nat
    requires frag >= 1
  {
    (d + frag - 1) / frag * frag
  }

  lemma MultipleOf(frag: nat, a: nat, k: nat, b: nat)
    requires FragOk(frag) && a % frag == 0 && b % frag == 0
    ensures (a * k + b) % frag == 0
    decreases k
  {
    if k > 0 {
      MultipleOf(frag, a, k - 1, b);
      assert a * k + b == (a * (k - 1) + b) + a;
      SumOf(frag, a * (k - 1) + b, a);
    }
  }

  lemma SumOf(frag: nat, x: nat, y: nat)
    requires FragOk(frag) && x % frag == 0 && y % frag == 0
    ensures (x + y) % frag == 0
  {
    DivMod(x, frag);
    DivMod(y, frag);
    Quotient(x + y, frag, x / frag + y / frag, 0);
  }

  lemma Aligned(lay: Layout, c: nat)
    requires lay.Ok() && c < lay.ncg
    ensures lay.Dlower(c) % lay.frag == 0 && 0 <= lay.Ndblk(c) <= lay.fpg
    ensures lay.Dlower(c) <= lay.Dupper(c) <= RoundUp(lay.Dupper(c), lay.frag) <= lay.fpg
    ensures c > 0 ==> RoundUp(lay.Dupper(c), lay.frag) == lay.Dupper(c) <= lay.Ndblk(c)
    ensures RoundUp(lay.Dupper(c), lay.frag) < lay.Dupper(c) + lay.frag
  {
    MultipleOf(lay.frag, lay.cgoffset, c % lay.cycle, lay.sblkno);
    MultipleOf(lay.frag, lay.cgoffset, c % lay.cycle, lay.dblkno);
    RoundsUp(lay.Dupper(c), lay.frag);
    DataInside(lay, c);
    hide RoundUp;
  }

  lemma EndIs(lay: Layout, c: nat)
    requires lay.Ok() && c < lay.ncg
    ensures lay.End(c) == lay.Ndblk(c) + if c == 0 then lay.Beyond() else 0
    ensures lay.Low(0) == 0
  {
    Aligned(lay, c);
  }

  lemma BeyondIs(lay: Layout)
    requires lay.Ok()
    ensures lay.Beyond() == 0 <==> RoundUp(lay.Dupper(0), lay.frag) <= lay.Ndblk(0)
  {
  }

  /** A file system of 44 fragments in one group, which main() lets through: the data begin at fragment 41, and
      initcg() counts four fragments as free that are not there. */
  lemma SummaryBeyond()
    ensures var lay := Layout(8, 64, 44, 1, 8, 1, 16, 40, 1); lay.Ok() && lay.Beyond() == 4
  {
  }

  /** What the tests of main() mean for every group. */
  lemma DataInside(lay: Layout, c: nat)
    requires lay.Ok() && c < lay.ncg
    ensures lay.DataMin(c) <= lay.Ndblk(c) <= lay.fpg
  {
    hide RoundUp;
    if c < lay.ncg - 1 {
      Times(lay.fpg, c + 1, lay.ncg - 1);
      Next(lay.fpg, c);
      DataLeast(lay, c);
      hide Layout.DataMin;
    }
  }

  lemma DataLeast(lay: Layout, c: nat)
    requires lay.cycle >= 1 && c < lay.ncg
    ensures lay.DataMin(c) <= lay.DataMin(if lay.cycle < lay.ncg then lay.cycle - 1 else lay.ncg - 1)
  {
    var top := if lay.cycle < lay.ncg then lay.cycle - 1 else lay.ncg - 1;
    Modulo(c, lay.cycle);
    Small(top, lay.cycle);
    Times(lay.cgoffset, c % lay.cycle, top);
  }

  lemma Next(a: nat, c: nat)
    ensures a * (c + 1) == a * c + a
  {
  }

  lemma Modulo(c: nat, m: nat)
    requires m >= 1
    ensures c % m <= c && c % m < m
  {
  }

  lemma Small(c: nat, m: nat)
    requires c < m
    ensures c % m == c
  {
  }

  lemma Times(a: nat, b: nat, c: nat)
    requires b <= c
    ensures a * b <= a * c
  {
  }

  lemma RoundsUp(d: nat, frag: nat)
    requires FragOk(frag)
    ensures d <= RoundUp(d, frag) < d + frag && RoundUp(d, frag) % frag == 0
    ensures d % frag == 0 ==> RoundUp(d, frag) == d
    ensures d % frag != 0 ==> RoundUp(d, frag) == d + frag - d % frag == d / frag * frag + frag
    ensures d == d / frag * frag + d % frag && d % frag < frag
  {
    DivMod(d, frag);
    NextMultiple(d, frag, d / frag, d % frag);
  }

  lemma DivMod(d: nat, frag: nat)
    requires FragOk(frag)
    ensures d == d / frag * frag + d % frag && d % frag < frag
  {
  }

  lemma NextMultiple(d: nat, frag: nat, q: nat, r: nat)
    requires FragOk(frag) && d == q * frag + r && r < frag
    ensures RoundUp(d, frag) == (if r == 0 then q * frag else q * frag + frag) && RoundUp(d, frag) % frag == 0
  {
    var u := if r == 0 then q else q + 1;
    Quotient(d + frag - 1, frag, u, if r == 0 then frag - 1 else r - 1);
    Quotient(u * frag, frag, u, 0);
  }

  lemma Quotient(x: nat, frag: nat, q: nat, r: nat)
    requires FragOk(frag) && x == q * frag + r && r < frag
    ensures x / frag == q && x % frag == r
  {
  }

  /** Block h begins at fragment d. */
  predicate BlockAt(frag: nat, n: nat, d: nat, h: nat) { d == h * frag && h < n }

  lemma BlocksOf(frag: nat, n: nat, d: nat, top: nat)
    requires FragOk(frag) && d % frag == 0 && top <= n * frag && d < top
    ensures BlockAt(frag, n, d, d / frag) && (d + frag) % frag == 0
  {
  }

  /** The whole free blocks lie before the end of the group. */
  ghost predicate WholeInside(frag: nat, bs: seq<Block>, ndblk: nat) {
    forall h :: 0 <= h < |bs| && bs[h] == Gap(frag, 0, frag) ==> h * frag + frag <= ndblk
  }

  class FileSystem {
    const lay: Layout
    const geo: Geometry
    const n: nat          // blocks in a group
    const fscs: array<Csum>
    var acg: Cg
    var disk: seq<Cg>
    var cstotal: Csum
    var dsize: int

    ghost predicate Fixed()
      reads {}
    {
      && lay.Ok() && geo.frag == lay.frag && n * geo.frag == lay.fpg && fscs.Length == lay.ncg
      && forall h :: 0 <= h < n ==> geo.cylno(h * geo.frag) < geo.cpg && geo.rpos(h * geo.frag) < geo.nrpos
    }

    ghost function Bs(): seq<Block>
      reads `acg
      requires Agrees(geo, n, acg)
    {
      Blocks(geo.frag, acg.free, n)
    }

    /** One whole block goes to the free map, and is counted. */
    method FreeBlock(d: nat)
      requires Agrees(geo, n, acg) && d % geo.frag == 0 && BlockAt(geo.frag, n, d, d / geo.frag)
      requires Bs()[d / geo.frag] == Gap(geo.frag, 0, 0)
      modifies `acg
      ensures Agrees(geo, n, acg) && acg.ndblk == old(acg.ndblk) && acg.cs.ndir == old(acg.cs.ndir)
      ensures Bs() == old(Bs())[d / geo.frag := Gap(geo.frag, 0, geo.frag)]
      ensures FreeFrags(Bs()) == FreeFrags(old(Bs())) + geo.frag
    {
      hide Blocks, Gap, Agrees;
      AgreesShape(geo, n, acg);
      ghost var h, was := d / geo.frag, acg;
      SetBlockBlocks(geo.frag, acg.free, h, n);
      var c, r := geo.cylno(d), geo.rpos(d);
      acg := acg.(free := SetBlock(geo.frag, acg.free, d / geo.frag));
      acg := acg.(cs := acg.cs.(nbfree := acg.cs.nbfree + 1));
      acg := acg.(blktot := acg.blktot[c := acg.blktot[c] + 1]);
      acg := acg.(blks := acg.blks[c := acg.blks[c][r := acg.blks[c][r] + 1]]);
      hide SetBlock;
      Recount(geo, n, was, acg, h, 0, 0, 0, geo.frag);
    }

    /** Part of a block goes to the free map: fragments from..to-1, which are lo..hi-1 of block h. */
    method FreeLoose(from: nat, to: nat, ghost h: nat, ghost lo: nat, ghost hi: nat)
      requires Agrees(geo, n, acg) && h < n && lo < hi <= geo.frag && !(lo == 0 && hi == geo.frag)
      requires from == h * geo.frag + lo && to == h * geo.frag + hi
      requires Bs()[h] == Gap(geo.frag, 0, 0)
      modifies `acg
      ensures Agrees(geo, n, acg) && acg.ndblk == old(acg.ndblk) && acg.cs.ndir == old(acg.cs.ndir)
      ensures Bs() == old(Bs())[h := Gap(geo.frag, lo, hi)]
      ensures FreeFrags(Bs()) == FreeFrags(old(Bs())) + (hi - lo)
    {
      hide Blocks, Gap, Agrees, SetBit;
      AgreesShape(geo, n, acg);
      NoGap(geo.frag, lo);
      ghost var bs, was := Bs(), acg;
      acg := acg.(frsum := acg.frsum[to - from := acg.frsum[to - from] + 1]);
      ghost var counted := acg;
      var d := from;
      while d < to
        invariant from <= d <= to && |acg.free| == |was.free|
        invariant acg == counted.(free := acg.free, cs := counted.cs.(nffree := counted.cs.nffree + d - from))
        invariant Blocks(geo.frag, acg.free, n) == bs[h := Gap(geo.frag, lo, lo + d - from)]
      {
        SetBitBlocks(geo.frag, acg.free, h, n, lo, lo + d - from);
        acg := acg.(free := SetBit(acg.free, d));
        acg := acg.(cs := acg.cs.(nffree := acg.cs.nffree + 1));
        d := d + 1;
      }
      Recount(geo, n, was, acg, h, 0, 0, lo, hi);
    }

    /** The blocks in front of the super block copy, in every group but the first. */
    method FreeLower(dlower: nat)
      requires Fixed() && Agrees(geo, n, acg) && dlower % geo.frag == 0 && dlower <= lay.fpg
      requires Bs() == Painted(geo.frag, n, 0, 0, 0)
      modifies `acg
      ensures Agrees(geo, n, acg) && acg.ndblk == old(acg.ndblk) && acg.cs.ndir == old(acg.cs.ndir)
      ensures Bs() == Painted(geo.frag, n, dlower, 0, 0)
      ensures FreeFrags(Bs()) == FreeFrags(old(Bs())) + dlower
    {
      hide Blocks, Gap, Agrees, Painted;
      var d := 0;
      while d < dlower
        invariant d <= dlower && d % geo.frag == 0
        invariant Agrees(geo, n, acg) && acg.ndblk == old(acg.ndblk) && acg.cs.ndir == old(acg.cs.ndir)
        invariant Bs() == Painted(geo.frag, n, d, 0, 0) && FreeFrags(Bs()) == FreeFrags(old(Bs())) + d
      {
        BlocksOf(geo.frag, n, d, lay.fpg);
        NextStays(geo.frag, d, dlower);
        PaintLow(geo.frag, n, d / geo.frag);
        FreeBlock(d);
        d := d + geo.frag;
      }
    }

    /** The group is as painted, and `count` fragments of it are free. */
    ghost predicate Shows(low: nat, lo: nat, hi: nat, count: nat)
      reads `acg
    {
      Agrees(geo, n, acg) && Bs() == Painted(geo.frag, n, low, lo, hi) && FreeFrags(Bs()) == count
    }

    /** The upper free range grows by one block, or by a part of one. */
    method Extend(from: nat, to: nat, ghost low: nat, ghost lo: nat, ghost h: nat, ghost a: nat, ghost b: nat,
                  ghost count: nat)
      requires Fixed() && Shows(low, lo, from, count) && h < n && a < b <= geo.frag && low <= h * geo.frag
      requires from == h * geo.frag + a && to == h * geo.frag + b
      requires if a == 0 then lo <= h * geo.frag else lo == h * geo.frag + a
      modifies `acg
      ensures Shows(low, lo, to, count + (to - from))
      ensures acg.ndblk == old(acg.ndblk) && acg.cs.ndir == old(acg.cs.ndir)
    {
      hide Blocks, Gap, Agrees, Painted;
      PaintHigh(geo.frag, n, low, lo, h, a, b);
      WholeBlock(geo.frag, h, from);
      if to - from == geo.frag { FreeBlock(from); } else { FreeLoose(from, to, h, a, b); }
    }

    /** The data blocks: a part of a block first, if they do not begin with a whole one, and a part last. */
    method FreeUpper(dupper0: nat, ghost low: nat, ghost count: nat)
      requires Fixed() && RoundUp(dupper0, geo.frag) <= lay.fpg && acg.ndblk <= lay.fpg
      requires low <= dupper0 && low % geo.frag == 0
      requires Shows(low, dupper0, dupper0, count)
      modifies `acg
      ensures acg.ndblk == old(acg.ndblk) && acg.cs.ndir == old(acg.cs.ndir)
      ensures var end := if acg.ndblk < RoundUp(dupper0, geo.frag) then RoundUp(dupper0, geo.frag) else acg.ndblk;
        dupper0 <= end && Shows(low, dupper0, end, count + end - dupper0)
    {
      hide Shows, RoundUp;
      var frag, ndblk, dupper := geo.frag, acg.ndblk, dupper0;
      RoundsUp(dupper, frag);
      var i := dupper % frag;
      if i != 0 {
        ghost var h := dupper / frag;
        PartInside(frag, n, h, i, lay.fpg, low);
        Extend(dupper, dupper + frag - i, low, dupper0, h, i, frag, count);
        dupper := dupper + frag - i;
      }
      var d := dupper;
      while d + frag <= ndblk
        invariant d % frag == 0 && (if ndblk < dupper then d == dupper else dupper <= d <= ndblk)
        invariant acg.ndblk == ndblk && acg.cs.ndir == old(acg.cs.ndir)
        invariant Shows(low, dupper0, d, count + d - dupper0)
      {
        BlocksOf(frag, n, d, lay.fpg);
        Extend(d, d + frag, low, dupper0, d / frag, 0, frag, count + d - dupper0);
        d := d + frag;
      }
      if d < ndblk {
        BlocksOf(frag, n, d, lay.fpg);
        Extend(d, ndblk, low, dupper0, d / frag, 0, ndblk - d, count + d - dupper0);
      }
    }

    /** Group c, as it is on the disk, is sound: its counters say what its map says, its summary is
        entered, and no whole block is free beyond its end. */
    ghost predicate GroupOk(c: nat)
      reads `disk, fscs
      requires c < |disk| && c < fscs.Length
    {
      && Agrees(geo, n, disk[c]) && fscs[c] == disk[c].cs && disk[c].ndblk == lay.Ndblk(c)
      && WholeInside(geo.frag, Blocks(geo.frag, disk[c].free, n), disk[c].ndblk)
    }

    /** The groups below `done` are built, and the totals are theirs. */
    ghost predicate Built(done: nat)
      reads `disk, `cstotal, fscs
    {
      && Fixed() && |disk| == lay.ncg && done <= lay.ncg
      && (forall c {:trigger GroupOk(c)} :: 0 <= c < done ==> GroupOk(c))
      && cstotal == Sum(fscs[..done])
    }

    /** initcg() */
    method InitCg(c: nat)
      requires Built(c) && c < lay.ncg
      modifies `acg, `disk, `cstotal, `dsize, fscs
      ensures Built(c + 1) && GroupOk(c) && dsize == old(dsize) + lay.Low(c) + lay.Ndblk(c) - lay.Dupper(c)
      ensures disk == old(disk)[c := acg] && fscs[..c] == old(fscs[..c])
      ensures cstotal == Plus(old(cstotal), acg.cs)
      ensures Blocks(geo.frag, disk[c].free, n) == Painted(geo.frag, n, lay.Low(c), lay.Dupper(c), lay.End(c))
      ensures FreeFrags(Blocks(geo.frag, disk[c].free, n)) == lay.Low(c) + lay.End(c) - lay.Dupper(c)
      ensures FreshMap(lay, c, disk[c].free)
    {
      hide Blocks, Gap, Agrees, Painted, RoundUp, Layout.Dlower, Layout.Dupper, Layout.Ndblk, Layout.End;
      hide WholeInside, Sum, FreshMap;
      Aligned(lay, c);
      MakeMap(c);
      if c > 0 { dsize := dsize + lay.Dlower(c); }
      dsize := dsize + lay.Ndblk(c) - lay.Dupper(c);
      cstotal := Plus(cstotal, acg.cs);
      fscs[c] := acg.cs;
      disk := disk[c := acg];
      SumNext(fscs[..], c);
      forall g | 0 <= g < c ensures GroupOk(g) {
        assert old(GroupOk(g));
      }
    }

    /** The part of initcg() that makes the group with its map and its counters. */
    method MakeMap(c: nat)
      requires Fixed() && c < lay.ncg
      modifies `acg
      ensures Agrees(geo, n, acg) && acg.ndblk == lay.Ndblk(c) && FreshMap(lay, c, acg.free)
      ensures Bs() == Painted(geo.frag, n, lay.Low(c), lay.Dupper(c), lay.End(c))
      ensures FreeFrags(Bs()) == lay.Low(c) + lay.End(c) - lay.Dupper(c) && WholeInside(geo.frag, Bs(), acg.ndblk)
    {
      hide Blocks, Gap, Agrees, Painted, RoundUp, Layout.Dlower, Layout.Dupper, Layout.Ndblk, WholeInside, FreshMap;
      Aligned(lay, c);
      var ndblk, dlower, dupper := lay.Ndblk(c), lay.Dlower(c), lay.Dupper(c);
      var bytes := (lay.fpg + NBBY - 1) / NBBY;
      ClearedAgrees(geo, n, ndblk, bytes);
      acg := Cleared(geo, ndblk, bytes);
      if c > 0 { FreeLower(dlower); }
      ghost var low := lay.Low(c);
      EmptyHigh(geo.frag, n, low, dupper);
      FreeUpper(dupper, low, low);
      NoneBeyond(geo.frag, n, low, dupper, lay.End(c), ndblk);
      AgreesShape(geo, n, acg);
      FreshIs(lay, c, n, acg.free);
    }

    /** The loop of main() over the groups: afterwards fs_dsize is what is free in all of them, if and only if
        the first group has room for the summary area and the block that it ends in. */
    method InitAll()
      requires Fixed() && |disk| == lay.ncg && dsize == 0 && cstotal == Csum(0, 0, 0)
      modifies `acg, `disk, `cstotal, `dsize, fscs
      ensures Built(lay.ncg) && FreeIn(cstotal, geo.frag) == dsize + lay.Beyond()
      ensures dsize == FreeIn(cstotal, geo.frag) <==> RoundUp(lay.Dupper(0), lay.frag) <= lay.Ndblk(0)
    {
      hide Fixed, GroupOk, FreeIn, RoundUp, Layout.Ok, Layout.Beyond, Layout.Dupper, Layout.Ndblk, Sum;
      FixedParts();
      BeyondIs(lay);
      SumNone();
      FreeNone(geo.frag);
      assert fscs[..0] == [];
      for c := 0 to lay.ncg
        invariant Built(c) && FreeIn(cstotal, geo.frag) == dsize + if c == 0 then 0 else lay.Beyond()
      {
        InitNext(c);
      }
    }

    lemma FixedParts()
      requires Fixed()
      ensures lay.Ok() && fscs.Length == lay.ncg >= 1 && FragOk(lay.frag) && lay.frag >= 1 && lay.cycle >= 1
    {
    }

    method InitNext(c: nat)
      requires Built(c) && c < lay.ncg && FreeIn(cstotal, geo.frag) == dsize + if c == 0 then 0 else lay.Beyond()
      modifies `acg, `disk, `cstotal, `dsize, fscs
      ensures Built(c + 1) && FreeIn(cstotal, geo.frag) == dsize + lay.Beyond()
    {
      hide Blocks, Gap, Agrees, Painted, FreeIn, RoundUp, Layout.End, Layout.Beyond, Layout.Dupper, Layout.Ndblk;
      hide Layout.Low, Plus, Sum;
      ghost var before := cstotal;
      EndIs(lay, c);
      InitCg(c);
      GroupCounts(c);
      hide GroupOk;
      FreeInPlus(before, acg.cs, geo.frag);
    }

    lemma GroupCounts(c: nat)
      requires c < |disk| && c < fscs.Length && GroupOk(c)
      ensures FreeIn(disk[c].cs, geo.frag) == FreeFrags(Blocks(geo.frag, disk[c].free, n))
    {
      hide Blocks, Gap, Agrees;
      GroupFree(geo, n, disk[c]);
    }

    /** alloc(): a whole block of the first group, or its first fragments.  0 when there is no block. */
    method Alloc(size: nat, fsize: nat, dir: bool) returns (d: nat)
      requires Built(lay.ncg) && fsize >= 1 && 0 < size <= geo.frag * fsize
      modifies `acg, `disk, `cstotal, fscs
      ensures Built(lay.ncg) && GroupOk(0) && old(GroupOk(0))
      ensures old(fscs[0].nbfree) == 0 ==>
        d == 0 && disk == old(disk) && cstotal == old(cstotal) && fscs[..] == old(fscs[..])
      ensures old(fscs[0].nbfree) != 0 ==>
        var h, k := d / geo.frag, Howmany(size, fsize);
        && 1 <= k <= geo.frag && h < n && d == h * geo.frag
        && old(Blocks(geo.frag, disk[0].free, n))[h] == Gap(geo.frag, 0, geo.frag)
        && (forall g :: 0 <= g < h ==> old(Blocks(geo.frag, disk[0].free, n))[g] != Gap(geo.frag, 0, geo.frag))
        && Blocks(geo.frag, disk[0].free, n) == old(Blocks(geo.frag, disk[0].free, n))[h := Gap(geo.frag, k, geo.frag)]
        && (k - 1) * fsize < size <= k * fsize
        && FreeIn(cstotal, geo.frag) == FreeIn(old(cstotal), geo.frag) - k
        && cstotal == Plus(old(cstotal), Csum(if dir then 1 else 0, -1, geo.frag - k))
      ensures forall c :: 1 <= c < lay.ncg ==> disk[c] == old(disk[c])
    {
      hide Blocks, Gap, Agrees, Howmany, WholeInside, Sum;
      assert GroupOk(0);
      assert fscs[..lay.ncg] == fscs[..];
      acg := disk[0];
      if acg.cs.nbfree == 0 { return 0; }
      d := FindBlock();
      HowmanyBound(geo.frag, fsize, size);
      StaysInside(geo.frag, Bs(), acg.ndblk, d / geo.frag, Howmany(size, fsize));
      Take(d, size, fsize, dir);
      assert fscs[..lay.ncg] == fscs[..];
      forall g | 1 <= g < lay.ncg ensures GroupOk(g) {
        assert old(GroupOk(g));
      }
    }

    /** main(): all groups, and then any allocations, of which the first m succeed: as long as the first group
        has a whole block.  What is free, and what those m took, is fs_dsize, and what lies beyond the end of
        the first group if the summary area does not fit. */
    method Build(fsize: nat, sizes: seq<nat>, dirs: seq<bool>) returns (ghost m: nat)
      requires Fixed() && |disk| == lay.ncg && dsize == 0 && cstotal == Csum(0, 0, 0)
      requires |sizes| == |dirs| && fsize >= 1 && forall i :: 0 <= i < |sizes| ==> 0 < sizes[i] <= geo.frag * fsize
      modifies `acg, `disk, `cstotal, `dsize, fscs
      ensures Built(lay.ncg) && forall c :: 0 <= c < lay.ncg ==> GroupOk(c)
      ensures m <= |sizes| && FreeIn(cstotal, geo.frag) + Taken(sizes[..m], fsize) == dsize + lay.Beyond()
      ensures m < |sizes| ==> fscs[0].nbfree == 0
    {
      hide FreeIn, Howmany, GroupOk, Blocks, Gap, RoundUp, Layout.Beyond, Taken, Sum;
      InitAll();
      m := 0;
      TakenNone(fsize);
      assert sizes[..0] == [];
      for i := 0 to |sizes|
        modifies `acg, `disk, `cstotal, fscs
        invariant Built(lay.ncg) && m <= i && (m < i ==> fscs[0].nbfree == 0)
        invariant FreeIn(cstotal, geo.frag) + Taken(sizes[..m], fsize) == dsize + lay.Beyond()
      {
        ghost var some := fscs[0].nbfree != 0;
        var d := Alloc(sizes[i], fsize, dirs[i]);
        TakenNext(sizes, i, fsize);
        if some { m := m + 1; }
      }
    }

    /** The search of alloc() finds the first free block: its `internal error` does not happen. */
    method FindBlock() returns (d: nat)
      requires Agrees(geo, n, acg) && acg.cs.nbfree != 0
      requires WholeInside(geo.frag, Bs(), acg.ndblk)
      ensures geo.frag >= 1 && BlockAt(geo.frag, n, d, d / geo.frag)
      ensures Bs()[d / geo.frag] == Gap(geo.frag, 0, geo.frag)
      ensures forall g :: 0 <= g < d / geo.frag ==> Bs()[g] != Gap(geo.frag, 0, geo.frag)
    {
      ghost var w := SomeBlock(geo, n, acg);
      ghost var bs := Bs();
      AgreesShape(geo, n, acg);
      hide Blocks, Gap, Agrees, IsBlock, WholeInside, Searching;
      d := 0;
      ghost var h := 0;
      SearchFirst(geo.frag, bs, acg.ndblk, w);
      SearchAt(geo.frag, acg.free, n, acg.ndblk, d, h, w);
      while d < acg.ndblk && !IsBlock(geo.frag, acg.free, d / geo.frag)
        invariant Searching(geo.frag, bs, acg.ndblk, d, h, w) && h <= w
        invariant d / geo.frag == h && d < acg.ndblk && (h + 1) * geo.frag <= NBBY * |acg.free|
        decreases w - h
      {
        SearchNext(geo.frag, acg.free, n, acg.ndblk, d, h, w);
        h := h + 1;
        d := d + geo.frag;
        SearchAt(geo.frag, acg.free, n, acg.ndblk, d, h, w);
      }
      SearchLast(geo.frag, acg.free, n, acg.ndblk, d, h, w);
    }

    /** The rest of alloc(), from the label goth on. */
    method Take(d: nat, size: nat, fsize: nat, dir: bool)
      requires Fixed() && Agrees(geo, n, acg) && BlockAt(geo.frag, n, d, d / geo.frag) && |disk| == lay.ncg
      requires Bs()[d / geo.frag] == Gap(geo.frag, 0, geo.frag) && fscs[0] == acg.cs && cstotal == Sum(fscs[..])
      requires fsize >= 1 && 0 < size <= geo.frag * fsize
      modifies `acg, `disk, `cstotal, fscs
      ensures Agrees(geo, n, acg) && acg.ndblk == old(acg.ndblk) && disk == old(disk)[0 := acg]
      ensures fscs[0] == acg.cs && fscs[1..] == old(fscs[1..]) && cstotal == Sum(fscs[..])
      ensures var h, k := d / geo.frag, Howmany(size, fsize);
        && 1 <= k <= geo.frag && Bs() == old(Bs())[h := Gap(geo.frag, k, geo.frag)]
        && FreeIn(cstotal, geo.frag) == old(FreeIn(cstotal, geo.frag)) - k
        && cstotal == Plus(old(cstotal), Csum(if dir then 1 else 0, -1, geo.frag - k))
    {
      hide Blocks, Gap, Agrees, SetBit, ClrBlock, Howmany, CountersTaken;
      AgreesShape(geo, n, acg);
      ghost var h, was, bs, s := d / geo.frag, acg, Bs(), fscs[..];
      ClrBlockBlocks(geo.frag, acg.free, h, n);
      var k := Count(d, size, fsize, dir);
      ghost var counted := acg;
      SetBits(d, k, h, bs);
      TakenRecount(geo, n, was, counted, acg, h, k);
      disk := disk[0 := acg];
      SumFirst(s, fscs[..]);
    }

    /** Takes the block out of the map and out of the three sets of counters. */
    method Count(d: nat, size: nat, fsize: nat, dir: bool) returns (k: nat)
      requires Fixed() && Shape(geo, n, acg) && BlockAt(geo.frag, n, d, d / geo.frag) && lay.ncg >= 1
      requires (d / geo.frag + 1) * geo.frag <= NBBY * |acg.free|
      requires fsize >= 1 && 0 < size <= geo.frag * fsize && fscs[0] == acg.cs
      modifies `acg, `cstotal, fscs
      ensures CountersTaken(geo, old(acg), acg, d, k) && k == Howmany(size, fsize) && 1 <= k <= geo.frag
      ensures Shape(geo, n, acg) && acg.ndblk == old(acg.ndblk)
      ensures acg.free == ClrBlock(geo.frag, old(acg.free), d / geo.frag)
      ensures fscs[0] == acg.cs && fscs[1..] == old(fscs[1..])
      ensures cstotal == Plus(old(cstotal), Csum(if dir then 1 else 0, -1, geo.frag - k))
      ensures acg.cs == Plus(old(acg.cs), Csum(if dir then 1 else 0, -1, geo.frag - k))
    {
      hide ClrBlock, Howmany;
      HowmanyBound(geo.frag, fsize, size);
      UncountBlock(d, dir);
      k := geo.frag;
      if size != geo.frag * fsize {
        k := Howmany(size, fsize);
        CountFrags(k);
      }
    }

    method UncountBlock(d: nat, dir: bool)
      requires Fixed() && Shape(geo, n, acg) && BlockAt(geo.frag, n, d, d / geo.frag) && lay.ncg >= 1
      requires (d / geo.frag + 1) * geo.frag <= NBBY * |acg.free| && fscs[0] == acg.cs
      modifies `acg, `cstotal, fscs
      ensures CountersTaken(geo, old(acg), acg, d, geo.frag) && Shape(geo, n, acg) && acg.ndblk == old(acg.ndblk)
      ensures acg.free == ClrBlock(geo.frag, old(acg.free), d / geo.frag) && acg.frsum == old(acg.frsum)
      ensures fscs[0] == acg.cs == Plus(old(acg.cs), Csum(if dir then 1 else 0, -1, 0)) && fscs[1..] == old(fscs[1..])
      ensures cstotal == Plus(old(cstotal), Csum(if dir then 1 else 0, -1, 0))
    {
      hide ClrBlock;
      acg := acg.(free := ClrBlock(geo.frag, acg.free, d / geo.frag), cs := acg.cs.(nbfree := acg.cs.nbfree - 1));
      cstotal := cstotal.(nbfree := cstotal.nbfree - 1);
      fscs[0] := fscs[0].(nbfree := fscs[0].nbfree - 1);
      if dir {
        acg := acg.(cs := acg.cs.(ndir := acg.cs.ndir + 1));
        cstotal := cstotal.(ndir := cstotal.ndir + 1);
        fscs[0] := fscs[0].(ndir := fscs[0].ndir + 1);
      }
      var c, r := geo.cylno(d), geo.rpos(d);
      acg := acg.(blktot := acg.blktot[c := acg.blktot[c] - 1]);
      acg := acg.(blks := acg.blks[c := acg.blks[c][r := acg.blks[c][r] - 1]]);
    }

    method CountFrags(k: nat)
      requires Fixed() && 1 <= k <= geo.frag == |acg.frsum| && fscs[0] == acg.cs
      modifies `acg, `cstotal, fscs
      ensures fscs[0] == acg.cs == Plus(old(acg.cs), Csum(0, 0, geo.frag - k)) && fscs[1..] == old(fscs[1..])
      ensures cstotal == Plus(old(cstotal), Csum(0, 0, geo.frag - k))
      ensures var j := geo.frag - k;
        acg == old(acg).(cs := acg.cs, frsum := old(acg).frsum[j := old(acg).frsum[j] + 1])
    {
      fscs[0] := fscs[0].(nffree := fscs[0].nffree + geo.frag - k);
      cstotal := cstotal.(nffree := cstotal.nffree + geo.frag - k);
      acg := acg.(cs := acg.cs.(nffree := acg.cs.nffree + geo.frag - k));
      acg := acg.(frsum := acg.frsum[geo.frag - k := acg.frsum[geo.frag - k] + 1]);
    }

    /** The loop that gives back the fragments behind the first k. */
    method SetBits(d: nat, k: nat, ghost h: nat, ghost bs: seq<Block>)
      requires Shape(geo, n, acg) && d == h * geo.frag && h < n == |bs| && k <= geo.frag
      requires Blocks(geo.frag, acg.free, n) == bs[h := Gap(geo.frag, 0, 0)]
      modifies `acg
      ensures acg == old(acg).(free := acg.free) && |acg.free| == |old(acg).free|
      ensures Blocks(geo.frag, acg.free, n) == bs[h := Gap(geo.frag, k, geo.frag)]
    {
      hide Blocks, Gap, SetBit;
      NoGap(geo.frag, k);
      for i := k to geo.frag
        invariant acg == old(acg).(free := acg.free) && |acg.free| == |old(acg).free|
        invariant Blocks(geo.frag, acg.free, n) == bs[h := Gap(geo.frag, k, i)]
      {
        SetBitBlocks(geo.frag, acg.free, h, n, k, i);
        acg := acg.(free := SetBit(acg.free, d + i));
      }
    }
  }

  /** The counters of a group from which the block at d went, and frag - k fragments of it came back. */
  ghost predicate CountersTaken(geo: Geometry, was: Cg, now: Cg, d: nat, k: nat) {
    var c, r := geo.cylno(d), geo.rpos(d);
    && 1 <= k <= geo.frag && |was.frsum| == |now.frsum| == geo.frag && |now.free| == |was.free|
    && now.cs.nbfree == was.cs.nbfree - 1 && now.cs.nffree == was.cs.nffree + (geo.frag - k)
    && (forall j :: 1 <= j < geo.frag ==> now.frsum[j] == was.frsum[j] + if j == geo.frag - k then 1 else 0)
    && c < |was.blktot| && now.blktot == was.blktot[c := was.blktot[c] - 1]
    && c < |was.blks| && r < |was.blks[c]| && now.blks == was.blks[c := was.blks[c][r := was.blks[c][r] - 1]]
  }

  lemma TakenRecount(geo: Geometry, n: nat, was: Cg, counted: Cg, now: Cg, h: nat, k: nat)
    requires Agrees(geo, n, was) && h < n && CountersTaken(geo, was, counted, h * geo.frag, k)
    requires now == counted.(free := now.free) && |now.free| == |was.free|
    requires Blocks(geo.frag, was.free, n)[h] == Gap(geo.frag, 0, geo.frag)
    requires Blocks(geo.frag, now.free, n) == Blocks(geo.frag, was.free, n)[h := Gap(geo.frag, k, geo.frag)]
    ensures Agrees(geo, n, now)
  {
    hide Blocks, Gap;
    AgreesShape(geo, n, was);
    forall m | Counted(geo, m)
      ensures Counter(m, now) == Counter(m, was) - Share(m, geo, h, 0, geo.frag) + Share(m, geo, h, k, geo.frag)
    {
    }
    hide Agrees;
    Recount(geo, n, was, now, h, 0, geo.frag, k, geo.frag);
  }

  lemma SomeBlock(geo: Geometry, n: nat, cg: Cg) returns (w: nat)
    requires Agrees(geo, n, cg) && cg.cs.nbfree != 0
    ensures w < n && Blocks(geo.frag, cg.free, n)[w] == Gap(geo.frag, 0, geo.frag)
  {
    assert Counted(geo, WholeBlocks) && Counter(WholeBlocks, cg) == cg.cs.nbfree;
    w := TotalSome(WholeBlocks, geo, Blocks(geo.frag, cg.free, n));
  }

  lemma IndexOf(frag: nat, n: nat, h: nat, w: nat)
    requires FragOk(frag) && h <= w < n
    ensures h * frag / frag == h && h * frag <= w * frag && (h + 1) * frag <= n * frag
    ensures h > 0 ==> h * frag == (h - 1) * frag + frag
  {
  }

  /** The search of alloc() stands at block h; none before it is free, and w is. */
  ghost predicate Searching(frag: nat, bs: seq<Block>, ndblk: nat, d: nat, h: nat, w: nat) {
    && h <= w < |bs| && d == h * frag && w * frag + frag <= ndblk && bs[w] == Gap(frag, 0, frag)
    && forall g :: 0 <= g < h ==> bs[g] != Gap(frag, 0, frag)
  }

  lemma SearchFirst(frag: nat, bs: seq<Block>, ndblk: nat, w: nat)
    requires w < |bs| && bs[w] == Gap(frag, 0, frag) && WholeInside(frag, bs, ndblk)
    ensures Searching(frag, bs, ndblk, 0, 0, w)
  {
    hide Gap;
  }

  lemma SearchAt(frag: nat, free: seq<bv8>, n: nat, ndblk: nat, d: nat, h: nat, w: nat)
    requires FragOk(frag) && n * frag <= NBBY * |free| && Searching(frag, Blocks(frag, free, n), ndblk, d, h, w)
    ensures h <= w < n && d / frag == h && d < ndblk && (h + 1) * frag <= NBBY * |free|
  {
    hide Gap, Blocks;
    IndexOf(frag, n, h, w);
  }

  lemma SearchNext(frag: nat, free: seq<bv8>, n: nat, ndblk: nat, d: nat, h: nat, w: nat)
    requires FragOk(frag) && n * frag <= NBBY * |free| && Searching(frag, Blocks(frag, free, n), ndblk, d, h, w)
    requires (h + 1) * frag <= NBBY * |free| && !IsBlock(frag, free, h)
    ensures Searching(frag, Blocks(frag, free, n), ndblk, d + frag, h + 1, w)
  {
    hide Gap, Blocks, IsBlock;
    IsBlockGap(frag, free, h, n);
    Next(frag, h);
  }

  lemma SearchLast(frag: nat, free: seq<bv8>, n: nat, ndblk: nat, d: nat, h: nat, w: nat)
    requires FragOk(frag) && n * frag <= NBBY * |free| && Searching(frag, Blocks(frag, free, n), ndblk, d, h, w)
    requires (h + 1) * frag <= NBBY * |free| && IsBlock(frag, free, h)
    ensures d == h * frag && h < n && Blocks(frag, free, n)[h] == Gap(frag, 0, frag)
    ensures forall g :: 0 <= g < h ==> Blocks(frag, free, n)[g] != Gap(frag, 0, frag)
  {
    hide Gap, Blocks, IsBlock;
    IsBlockGap(frag, free, h, n);
  }

  lemma HowmanyBound(frag: nat, fsize: nat, size: nat)
    requires fsize >= 1 && 0 < size <= frag * fsize
    ensures 1 <= Howmany(size, fsize) <= frag
    ensures (Howmany(size, fsize) - 1) * fsize < size <= Howmany(size, fsize) * fsize
    ensures size == frag * fsize ==> Howmany(size, fsize) == frag
  {
    var q := Howmany(size, fsize);
    assert q * fsize <= size + fsize - 1 < (q + 1) * fsize;
    Cancel(q, frag + 1, fsize);
    Cancel(0, q, fsize);
    if size == frag * fsize { Cancel(frag, q + 1, fsize); }
  }

  lemma Cancel(a: nat, b: nat, f: nat)
    requires f >= 1
    ensures a * f < b * f ==> a < b
  {
    if a >= b { assert a * f == b * f + (a - b) * f; }
  }

  lemma {:induction false} SumFirst(s: seq<Csum>, t: seq<Csum>)
    requires |s| == |t| >= 1 && s[1..] == t[1..]
    ensures Sum(t) == Plus(Plus(Sum(s), t[0]), Csum(-s[0].ndir, -s[0].nbfree, -s[0].nffree))
  {
    var n := |s| - 1;
    if n > 0 {
      assert s[..n][1..] == s[1..][..n - 1] == t[1..][..n - 1] == t[..n][1..];
      SumFirst(s[..n], t[..n]);
      assert s[n] == s[1..][n - 1] == t[1..][n - 1] == t[n];
    } else {
      assert s[..0] == [] && t[..0] == [];
    }
  }

  /** howmany(size, fsize) */
  function Howmany(size: nat, fsize: nat): nat
    requires fsize >= 1
  {
    (size + fsize - 1) / fsize
  }

  /** The fragments that allocations of these sizes take. */
  function Taken(sizes: seq<nat>, fsize: nat): nat
    requires fsize >= 1
  {
    if sizes == [] then 0 else Taken(sizes[..|sizes| - 1], fsize) + Howmany(sizes[|sizes| - 1], fsize)
  }

  lemma TakenNone(fsize: nat)
    requires fsize >= 1
    ensures Taken([], fsize) == 0
  {
  }

  lemma TakenNext(sizes: seq<nat>, i: nat, fsize: nat)
    requires i < |sizes| && fsize >= 1
    ensures Taken(sizes[..i + 1], fsize) == Taken(sizes[..i], fsize) + Howmany(sizes[i], fsize)
  {
    assert sizes[..i + 1][..i] == sizes[..i];
  }

  /** The fragments that a summary says are free. */
  function FreeIn(cs: Csum, frag: nat): int { cs.nbfree * frag + cs.nffree }

  lemma FreeNone(frag: nat)
    ensures FreeIn(Csum(0, 0, 0), frag) == 0
  {
  }

  lemma FreeInPlus(a: Csum, b: Csum, frag: nat)
    ensures FreeIn(Plus(a, b), frag) == FreeIn(a, frag) + FreeIn(b, frag)
  {
  }

  /** The summary of a sound group counts the free bits of its map. */
  lemma GroupFree(geo: Geometry, n: nat, cg: Cg)
    requires Agrees(geo, n, cg)
    ensures FreeIn(cg.cs, geo.frag) == FreeFrags(Blocks(geo.frag, cg.free, n))
  {
    FreeIsCounted(geo, Blocks(geo.frag, cg.free, n));
    assert Counted(geo, WholeBlocks) && Counted(geo, LooseFrags);
    assert Counter(WholeBlocks, cg) == cg.cs.nbfree;
  }

  /** The sum of group summaries. */
  function Sum(s: seq<Csum>): Csum {
    if s == [] then Csum(0, 0, 0) else Plus(Sum(s[..|s| - 1]), s[|s| - 1])
  }

  function Plus(a: Csum, b: Csum): Csum {
    Csum(a.ndir + b.ndir, a.nbfree + b.nbfree, a.nffree + b.nffree)
  }

  lemma SumNone()
    ensures Sum([]) == Csum(0, 0, 0)
  {
  }

  lemma SumNext(s: seq<Csum>, c: nat)
    requires c < |s|
    ensures Sum(s[..c + 1]) == Plus(Sum(s[..c]), s[c])
  {
    assert s[..c + 1][..c] == s[..c];
  }

  lemma EmptyHigh(frag: nat, n: nat, low: nat, d: nat)
    ensures Painted(frag, n, low, 0, 0) == Painted(frag, n, low, d, d)
  {
    forall h | 0 <= h < n ensures PaintedBlock(frag, h, low, 0, 0) == PaintedBlock(frag, h, low, d, d) {
    }
  }

  lemma NoneBeyond(frag: nat, n: nat, low: nat, lo: nat, hi: nat, ndblk: nat)
    requires FragOk(frag) && low <= ndblk && (hi == ndblk || (low == 0 && hi < lo + frag))
    ensures WholeInside(frag, Painted(frag, n, low, lo, hi), ndblk)
  {
    forall h | 0 <= h < n && Painted(frag, n, low, lo, hi)[h] == Gap(frag, 0, frag)
      ensures h * frag + frag <= ndblk
    {
      assert Gap(frag, 0, frag)[frag - 1] && Gap(frag, 0, frag)[0];
      assert PaintedBlock(frag, h, low, lo, hi)[frag - 1] && PaintedBlock(frag, h, low, lo, hi)[0];
    }
  }

  lemma StaysInside(frag: nat, bs: seq<Block>, ndblk: nat, h: nat, k: nat)
    requires WholeInside(frag, bs, ndblk) && h < |bs| && 1 <= k <= frag
    ensures WholeInside(frag, bs[h := Gap(frag, k, frag)], ndblk)
  {
    assert Gap(frag, 0, frag)[0] && !Gap(frag, k, frag)[0];
  }

  lemma WholeBlock(frag: nat, h: nat, from: nat)
    requires FragOk(frag)
    ensures from == h * frag ==> from / frag == h && from % frag == 0
  {
  }

  lemma NextStays(frag: nat, d: nat, top: nat)
    requires FragOk(frag) && d % frag == 0 && top % frag == 0 && d < top
    ensures d + frag <= top
  {
  }

  lemma PartInside(frag: nat, n: nat, h: nat, i: nat, top: nat, low: nat)
    requires FragOk(frag) && top == n * frag && h * frag + frag <= top
    requires low % frag == 0 && low <= h * frag + i && i < frag
    ensures h < n && low <= h * frag
  {
  }

  /** What is free in a new group c, fragment by fragment: not the super block copy, the group itself and its inodes,
      which lie between sblkno and dblkno of where the group starts, nor the summary area behind those of the first
      group, nor what is in front of them there. */
  ghost predicate FreshMap(lay: Layout, c: nat, free: seq<bv8>)
    requires FragOk(lay.frag) && lay.cycle >= 1
  {
    var start := lay.cgoffset * (c % lay.cycle);
    && lay.fpg <= NBBY * |free|
    && forall d :: 0 <= d < lay.fpg ==>
      (Free(free, d) <==>
       if c == 0 then lay.dblkno + lay.csfrags <= d < lay.End(0)
       else d < start + lay.sblkno || start + lay.dblkno <= d < lay.size - lay.fpg * c)
  }

  lemma FreshIs(lay: Layout, c: nat, n: nat, free: seq<bv8>)
    requires lay.Ok() && c < lay.ncg && n * lay.frag == lay.fpg <= NBBY * |free|
    requires Blocks(lay.frag, free, n) == Painted(lay.frag, n, lay.Low(c), lay.Dupper(c), lay.End(c))
    ensures FreshMap(lay, c, free)
  {
    hide Blocks, Painted, RoundUp, Free;
    Aligned(lay, c);
    FirstStart(lay);
    forall d | 0 <= d < lay.fpg ensures Free(free, d) <==> d < lay.Low(c) || lay.Dupper(c) <= d < lay.End(c) {
      PaintedFree(lay.frag, n, free, lay.Low(c), lay.Dupper(c), lay.End(c), d);
    }
  }

  lemma FirstStart(lay: Layout)
    requires lay.cycle >= 1
    ensures lay.cgoffset * (0 % lay.cycle) == 0
  {
  }

  lemma InGroup(frag: nat, n: nat, d: nat)
    requires FragOk(frag) && d < n * frag
    ensures d / frag < n
  {
  }

  lemma PaintedFree(frag: nat, n: nat, free: seq<bv8>, low: nat, lo: nat, hi: nat, d: nat)
    requires FragOk(frag) && n * frag <= NBBY * |free| && Blocks(frag, free, n) == Painted(frag, n, low, lo, hi)
    requires d < n * frag
    ensures Free(free, d) <==> d < low || lo <= d < hi
  {
    DivMod(d, frag);
    InGroup(frag, n, d);
    var h, i := d / frag, d % frag;
    assert Blocks(frag, free, n)[h][i] == Painted(frag, n, low, lo, hi)[h][i];
    hide Free;
  }

  lemma NoGap(frag: nat, lo: nat)
    ensures Gap(frag, lo, lo) == Gap(frag, 0, 0)
  {
  }

  function Zeros(k: nat): seq<int> { seq(k, i => 0) }

  /** A group as initcg() has it after the bzero calls. */
  function Cleared(geo: Geometry, ndblk: nat, bytes: nat): Cg {
    Cg(ndblk, Csum(0, 0, 0), Zeros(geo.frag), Zeros(geo.cpg), seq(geo.cpg, c => Zeros(geo.nrpos)), seq(bytes, i => 0))
  }

  lemma ClearedAgrees(geo: Geometry, n: nat, ndblk: nat, bytes: nat)
    requires FragOk(geo.frag) && n * geo.frag <= NBBY * bytes
    requires forall h :: 0 <= h < n ==> geo.cylno(h * geo.frag) < geo.cpg && geo.rpos(h * geo.frag) < geo.nrpos
    ensures Agrees(geo, n, Cleared(geo, ndblk, bytes))
    ensures Blocks(geo.frag, Cleared(geo, ndblk, bytes).free, n) == Painted(geo.frag, n, 0, 0, 0)
    ensures FreeFrags(Painted(geo.frag, n, 0, 0, 0)) == 0
  {
    var cg := Cleared(geo, ndblk, bytes);
    ClearedBlocks(geo.frag, cg.free, n);
    hide Blocks, Gap, Painted;
    var bs := Blocks(geo.frag, cg.free, n);
    NoneFree(bs, geo.frag);
    forall m | Counted(geo, m) ensures Counter(m, cg) == Total(m, geo, bs) {
      NoneCounted(m, geo, bs);
    }
  }

  lemma ClearedBlocks(frag: nat, free: seq<bv8>, n: nat)
    requires FragOk(frag) && n * frag <= NBBY * |free| && forall k :: 0 <= k < |free| ==> free[k] == 0
    ensures Blocks(frag, free, n) == Painted(frag, n, 0, 0, 0)
    ensures forall h :: 0 <= h < n ==> Blocks(frag, free, n)[h] == Gap(frag, 0, 0)
  {
    var bs, ps := Blocks(frag, free, n), Painted(frag, n, 0, 0, 0);
    forall h | 0 <= h < n ensures bs[h] == Gap(frag, 0, 0) == ps[h] {
      ClearedBlock(frag, free, n, h);
    }
  }

  lemma ClearedBlock(frag: nat, free: seq<bv8>, n: nat, h: nat)
    requires FragOk(frag) && n * frag <= NBBY * |free| && h < n && forall k :: 0 <= k < |free| ==> free[k] == 0
    ensures BlockOf(frag, free, h, n) == Gap(frag, 0, 0) == PaintedBlock(frag, h, 0, 0, 0)
  {
    forall i | 0 <= i < frag ensures !BlockOf(frag, free, h, n)[i] {
      MkfsGroup.Inside(frag, h, i, n);
      NoBit(free, h * frag + i);
    }
  }

  lemma NoneCounted(m: Measure, geo: Geometry, bs: seq<Block>)
    requires Counted(geo, m) && FragOk(geo.frag) && forall h :: 0 <= h < |bs| ==> bs[h] == Gap(geo.frag, 0, 0)
    ensures Total(m, geo, bs) == 0
  {
    hide Gap;
    forall h | 0 <= h < |bs| ensures Of(m, geo, h, bs[h]) == 0 {
      ShareIs(m, geo, h, 0, 0);
    }
    TotalZero(m, geo, bs);
  }

  lemma NoBit(free: seq<bv8>, d: nat)
    requires d < NBBY * |free| && free[d / NBBY] == 0
    ensures !Free(free, d)
  {
  }

  lemma {:induction false} NoneFree(bs: seq<Block>, frag: nat)
    requires forall h :: 0 <= h < |bs| ==> bs[h] == Gap(frag, 0, 0)
    ensures FreeFrags(bs) == 0
  {
    if bs != [] {
      NoneFree(bs[..|bs| - 1], frag);
      OnesGap(frag, 0, 0);
    }
  }

  lemma AgreesShape(geo: Geometry, n: nat, cg: Cg)
    requires Agrees(geo, n, cg)
    ensures Shape(geo, n, cg)
  {
  }
}
