/**
 initcg() and alloc() of etc/mkfs.c: the cylinder groups, their summaries, and the totals of the super
 block.
 */
module MkfsGroup {
  import opened MkfsBitmap
  import opened MkfsCounts

  datatype Csum = Csum(ndir: int, nbfree: int, nffree: int)

  datatype Cg = Cg(ndblk: nat, cs: Csum, frsum: seq<int>, blktot: seq<int>, blks: seq<seq<int>>, free: seq<bv8>)

  /** The free map as a row of blocks. */
  function Blocks(frag: nat, free: seq<bv8>, n: nat): (bs: seq<Block>)
    requires FragOk(frag) && n * frag <= NBBY * |free|
    ensures |bs| == n && forall h :: 0 <= h < n ==> |bs[h]| == frag
  {
    seq(n, h requires 0 <= h < n => BlockOf(frag, free, h, n))
  }

  function BlockOf(frag: nat, free: seq<bv8>, h: nat, n: nat): (b: Block)
    requires FragOk(frag) && n * frag <= NBBY * |free| && h < n
    ensures |b| == frag
  {
    seq(frag, i requires 0 <= i < frag => FreeAt(frag, free, h, i, n))
  }

  predicate FreeAt(frag: nat, free: seq<bv8>, h: nat, i: nat, n: nat)
    requires FragOk(frag) && n * frag <= NBBY * |free| && h < n && i < frag
  {
    Inside(frag, h, i, n);
    Free(free, h * frag + i)
  }

  lemma Inside(frag: nat, h: nat, i: nat, n: nat)
    requires FragOk(frag) && h < n && i < frag
    ensures h * frag + i < n * frag && (h * frag + i) / frag == h && (h + 1) * frag <= n * frag
  {
  }

  ghost predicate Shape(geo: Geometry, n: nat, cg: Cg) {
    && FragOk(geo.frag) && n * geo.frag <= NBBY * |cg.free|
    && |cg.frsum| == geo.frag && |cg.blktot| == geo.cpg && |cg.blks| == geo.cpg
    && (forall c :: 0 <= c < geo.cpg ==> |cg.blks[c]| == geo.nrpos)
    && (forall h :: 0 <= h < n ==> geo.cylno(h * geo.frag) < geo.cpg && geo.rpos(h * geo.frag) < geo.nrpos)
  }

  /** A counter of the group. */
  function Counter(m: Measure, cg: Cg): int {
    match m
    case WholeBlocks => cg.cs.nbfree
    case LooseFrags => cg.cs.nffree
    case Runs(k) => if k < |cg.frsum| then cg.frsum[k] else 0
    case Cylinder(c) => if c < |cg.blktot| then cg.blktot[c] else 0
    case Position(c, r) => if c < |cg.blks| && r < |cg.blks[c]| then cg.blks[c][r] else 0
  }

  predicate Counted(geo: Geometry, m: Measure) {
    match m
    case WholeBlocks => true
    case LooseFrags => true
    case Runs(k) => 1 <= k < geo.frag
    case Cylinder(c) => c < geo.cpg
    case Position(c, r) => c < geo.cpg && r < geo.nrpos
  }

  /** Every counter says what the free map says. */
  ghost predicate Agrees(geo: Geometry, n: nat, cg: Cg) {
    && Shape(geo, n, cg)
    && forall m :: Counted(geo, m) ==> Counter(m, cg) == Total(m, geo, Blocks(geo.frag, cg.free, n))
  }

  /** What a block of which lo..hi-1 are free adds to a counter. */
  function Share(m: Measure, geo: Geometry, h: nat, lo: nat, hi: nat): nat
    requires lo <= hi
  {
    var whole := lo == 0 && hi == geo.frag;
    match m
    case WholeBlocks => if whole then 1 else 0
    case LooseFrags => if whole then 0 else hi - lo
    case Runs(k) => if !whole && lo < hi && k == hi - lo then 1 else 0
    case Cylinder(c) => if whole && geo.cylno(h * geo.frag) == c then 1 else 0
    case Position(c, r) => if whole && geo.cylno(h * geo.frag) == c && geo.rpos(h * geo.frag) == r then 1 else 0
  }

  lemma ShareIs(m: Measure, geo: Geometry, h: nat, lo: nat, hi: nat)
    requires geo.frag >= 1 && lo <= hi <= geo.frag
    ensures Of(m, geo, h, Gap(geo.frag, lo, hi)) == Share(m, geo, h, lo, hi)
  {
    var b := Gap(geo.frag, lo, hi);
    if lo > 0 { assert !b[0]; }
    if hi < geo.frag { assert !b[geo.frag - 1]; }
    assert Full(b) <==> lo == 0 && hi == geo.frag;
    OnesGap(geo.frag, lo, hi);
    if m.Runs? { RunsGap(geo.frag, lo, hi, m.k, geo.frag); }
  }

  /** One block changes from one gap to another, and every counter by the difference. */
  lemma Recount(geo: Geometry, n: nat, cg: Cg, cg': Cg, h: nat, lo: nat, hi: nat, lo': nat, hi': nat)
    requires Agrees(geo, n, cg) && Shape(geo, n, cg') && h < n
    requires lo <= hi <= geo.frag && lo' <= hi' <= geo.frag
    requires Blocks(geo.frag, cg.free, n)[h] == Gap(geo.frag, lo, hi)
    requires Blocks(geo.frag, cg'.free, n) == Blocks(geo.frag, cg.free, n)[h := Gap(geo.frag, lo', hi')]
    requires forall m :: Counted(geo, m) ==>
      Counter(m, cg') == Counter(m, cg) - Share(m, geo, h, lo, hi) + Share(m, geo, h, lo', hi')
    ensures Agrees(geo, n, cg')
    ensures FreeFrags(Blocks(geo.frag, cg'.free, n))
      == FreeFrags(Blocks(geo.frag, cg.free, n)) - (hi - lo) + (hi' - lo')
  {
    hide Counter, Share, Counted, Blocks, Gap, Of;
    var bs := Blocks(geo.frag, cg.free, n);
    forall m | Counted(geo, m) ensures Counter(m, cg') == Total(m, geo, Blocks(geo.frag, cg'.free, n)) {
      TotalUpdate(m, geo, bs, h, Gap(geo.frag, lo', hi'));
      ShareIs(m, geo, h, lo, hi);
      ShareIs(m, geo, h, lo', hi');
    }
    FreeFragsUpdate(bs, h, Gap(geo.frag, lo', hi'));
    OnesGap(geo.frag, lo, hi);
    OnesGap(geo.frag, lo', hi');
  }

  lemma SetBlockBlocks(frag: nat, free: seq<bv8>, h: nat, n: nat)
    requires FragOk(frag) && h < n && n * frag <= NBBY * |free|
    ensures (h + 1) * frag <= n * frag
    ensures Blocks(frag, SetBlock(frag, free, h), n) == Blocks(frag, free, n)[h := Gap(frag, 0, frag)]
  {
    hide Free, SetBlock;
    Inside(frag, h, 0, n);
    var l, r := Blocks(frag, SetBlock(frag, free, h), n), Blocks(frag, free, n)[h := Gap(frag, 0, frag)];
    forall g, i | 0 <= g < n && 0 <= i < frag ensures l[g][i] == r[g][i] {
      Inside(frag, g, i, n);
      SetBlockMeans(frag, free, h, g * frag + i);
    }
    SameBlocks(l, r, frag);
  }

  lemma SameBlocks(l: seq<Block>, r: seq<Block>, frag: nat)
    requires |l| == |r|
    requires forall g :: 0 <= g < |l| ==> |l[g]| == |r[g]| == frag
    requires forall g, i :: 0 <= g < |l| && 0 <= i < frag ==> l[g][i] == r[g][i]
    ensures l == r
  {
    forall g | 0 <= g < |l| ensures l[g] == r[g] {
      assert forall i :: 0 <= i < frag ==> l[g][i] == r[g][i];
    }
  }

  lemma ClrBlockBlocks(frag: nat, free: seq<bv8>, h: nat, n: nat)
    requires FragOk(frag) && h < n && n * frag <= NBBY * |free|
    ensures (h + 1) * frag <= n * frag
    ensures Blocks(frag, ClrBlock(frag, free, h), n) == Blocks(frag, free, n)[h := Gap(frag, 0, 0)]
  {
    hide Free, ClrBlock;
    Inside(frag, h, 0, n);
    var l, r := Blocks(frag, ClrBlock(frag, free, h), n), Blocks(frag, free, n)[h := Gap(frag, 0, 0)];
    forall g, i | 0 <= g < n && 0 <= i < frag ensures l[g][i] == r[g][i] {
      Inside(frag, g, i, n);
      ClrBlockMeans(frag, free, h, g * frag + i);
    }
    SameBlocks(l, r, frag);
  }

  /** The next fragment of a gap. */
  lemma SetBitBlocks(frag: nat, free: seq<bv8>, h: nat, n: nat, lo: nat, i: nat)
    requires FragOk(frag) && h < n && n * frag <= NBBY * |free| && lo <= i < frag
    requires Blocks(frag, free, n)[h] == Gap(frag, lo, i)
    ensures h * frag + i < NBBY * |free|
    ensures Blocks(frag, SetBit(free, h * frag + i), n) == Blocks(frag, free, n)[h := Gap(frag, lo, i + 1)]
  {
    hide Free, SetBit;
    Inside(frag, h, i, n);
    var l, r := Blocks(frag, SetBit(free, h * frag + i), n), Blocks(frag, free, n)[h := Gap(frag, lo, i + 1)];
    forall g, j | 0 <= g < n && 0 <= j < frag ensures l[g][j] == r[g][j] {
      Inside(frag, g, j, n);
      SetBitMeans(free, h * frag + i, g * frag + j);
      SamePlace(frag, h, i, g, j);
      assert Blocks(frag, free, n)[g][j] == Free(free, g * frag + j);
    }
    SameBlocks(l, r, frag);
  }

  lemma SamePlace(frag: nat, h: nat, i: nat, g: nat, j: nat)
    requires FragOk(frag) && i < frag && j < frag
    ensures h * frag + i == g * frag + j <==> h == g && i == j
  {
  }

  lemma IsBlockGap(frag: nat, free: seq<bv8>, h: nat, n: nat)
    requires FragOk(frag) && h < n && n * frag <= NBBY * |free|
    ensures (h + 1) * frag <= n * frag
    ensures IsBlock(frag, free, h) <==> Blocks(frag, free, n)[h] == Gap(frag, 0, frag)
  {
    hide Free, IsBlock;
    Inside(frag, h, 0, n);
    IsBlockMeans(frag, free, h);
    var b := Blocks(frag, free, n)[h];
    if IsBlock(frag, free, h) {
      forall i | 0 <= i < frag ensures b[i] {
        InRange(frag, h, i);
        assert Free(free, h * frag + i);
      }
      assert b == Gap(frag, 0, frag);
    } else {
      var d :| h * frag <= d < (h + 1) * frag && !Free(free, d);
      var i: nat := d - h * frag;
      assert !b[i] && Gap(frag, 0, frag)[i];
    }
  }

  lemma InRange(frag: nat, h: nat, i: nat)
    requires i < frag
    ensures h * frag <= h * frag + i < (h + 1) * frag
  {
  }

  /** A group of which exactly the fragments below `low` and those from lo to hi-1 are free. */
  function Painted(frag: nat, n: nat, low: nat, lo: nat, hi: nat): (bs: seq<Block>)
    ensures |bs| == n && forall h :: 0 <= h < n ==> |bs[h]| == frag
  {
    seq(n, h requires 0 <= h < n => PaintedBlock(frag, h, low, lo, hi))
  }

  function PaintedBlock(frag: nat, h: nat, low: nat, lo: nat, hi: nat): (b: Block)
    ensures |b| == frag
  {
    seq(frag, i requires 0 <= i < frag => h * frag + i < low || lo <= h * frag + i < hi)
  }

  lemma PaintLow(frag: nat, n: nat, h: nat)
    requires FragOk(frag) && h < n
    ensures Painted(frag, n, h * frag, 0, 0)[h] == Gap(frag, 0, 0)
    ensures Painted(frag, n, h * frag, 0, 0)[h := Gap(frag, 0, frag)] == Painted(frag, n, h * frag + frag, 0, 0)
  {
    var l, r := Painted(frag, n, h * frag, 0, 0)[h := Gap(frag, 0, frag)], Painted(frag, n, h * frag + frag, 0, 0);
    forall g, i | 0 <= g < n && 0 <= i < frag ensures l[g][i] == r[g][i] {
      Compare(frag, g, i, h, 0);
    }
    SameBlocks(l, r, frag);
  }

  /** The upper range grows by a part of a block, which is not yet touched. */
  lemma PaintHigh(frag: nat, n: nat, low: nat, lo: nat, h: nat, a: nat, b: nat)
    requires FragOk(frag) && h < n && a < b <= frag && low <= h * frag
    requires if a == 0 then lo <= h * frag else lo == h * frag + a
    ensures Painted(frag, n, low, lo, h * frag + a)[h] == Gap(frag, 0, 0)
    ensures Painted(frag, n, low, lo, h * frag + a)[h := Gap(frag, a, b)] == Painted(frag, n, low, lo, h * frag + b)
  {
    var l, r := Painted(frag, n, low, lo, h * frag + a)[h := Gap(frag, a, b)], Painted(frag, n, low, lo, h * frag + b);
    forall g, i | 0 <= g < n && 0 <= i < frag ensures l[g][i] == r[g][i] {
      Compare(frag, g, i, h, a);
      Compare(frag, g, i, h, b - 1);
    }
    SameBlocks(l, r, frag);
  }

  lemma Compare(frag: nat, g: nat, i: nat, h: nat, j: nat)
    requires FragOk(frag) && i < frag && j < frag
    ensures g * frag + i < h * frag + j <==> g < h || (g == h && i < j)
  {
  }
}
