/**
 What the counters of a cylinder group in etc/mkfs.c count: a group is a row of blocks, a block a row of
 fragments, each free or not.
 */
module MkfsCounts {
  import opened MkfsBitmap

  type Block = seq<bool>

  /** Rotational geometry: the cylinder and the position of a fragment number, as the macros cbtocylno
      and cbtorpos compute them. */
  datatype Geometry = Geometry(frag: nat, cpg: nat, nrpos: nat, cylno: nat -> nat, rpos: nat -> nat)

  predicate Full(b: Block) { forall i :: 0 <= i < |b| ==> b[i] }

  function Ones(b: Block): (n: nat)
    ensures n <= |b|
  {
    if b == [] then 0 else Ones(b[..|b| - 1]) + if b[|b| - 1] then 1 else 0
  }

  /** A longest run of k free fragments begins at i. */
  predicate IsRun(b: Block, i: nat, k: nat) {
    && 1 <= k && i + k <= |b|
    && (forall j :: i <= j < i + k ==> b[j])
    && (i > 0 ==> !b[i - 1]) && (i + k < |b| ==> !b[i + k])
  }

  function RunsBefore(b: Block, k: nat, n: nat): nat {
    if n == 0 then 0 else RunsBefore(b, k, n - 1) + if IsRun(b, n - 1, k) then 1 else 0
  }

  datatype Measure =
    | WholeBlocks              // cs_nbfree
    | LooseFrags               // cs_nffree
    | Runs(k: nat)             // cg_frsum[k]
    | Cylinder(c: nat)         // cg_blktot[c]
    | Position(c: nat, r: nat) // cg_blks[c][r]

  /** What block h adds to a counter. */
  function Of(m: Measure, geo: Geometry, h: nat, b: Block): nat {
    match m
    case WholeBlocks => if Full(b) then 1 else 0
    case LooseFrags => if Full(b) then 0 else Ones(b)
    case Runs(k) => if Full(b) then 0 else RunsBefore(b, k, |b|)
    case Cylinder(c) => if Full(b) && geo.cylno(h * geo.frag) == c then 1 else 0
    case Position(c, r) =>
      if Full(b) && geo.cylno(h * geo.frag) == c && geo.rpos(h * geo.frag) == r then 1 else 0
  }

  function Total(m: Measure, geo: Geometry, bs: seq<Block>): nat {
    if bs == [] then 0
    else Total(m, geo, bs[..|bs| - 1]) + Of(m, geo, |bs| - 1, bs[|bs| - 1])
  }

  lemma {:induction false} TotalUpdate(m: Measure, geo: Geometry, bs: seq<Block>, h: nat, b: Block)
    requires h < |bs|
    ensures Total(m, geo, bs[h := b]) == Total(m, geo, bs) - Of(m, geo, h, bs[h]) + Of(m, geo, h, b)
  {
    var n := |bs| - 1;
    if h == n {
      assert bs[h := b][..n] == bs[..n];
    } else {
      assert bs[h := b][..n] == bs[..n][h := b];
      TotalUpdate(m, geo, bs[..n], h, b);
    }
  }

  lemma {:induction false} TotalZero(m: Measure, geo: Geometry, bs: seq<Block>)
    requires forall h :: 0 <= h < |bs| ==> Of(m, geo, h, bs[h]) == 0
    ensures Total(m, geo, bs) == 0
  {
    if bs != [] { TotalZero(m, geo, bs[..|bs| - 1]); }
  }

  /** A count that is not 0 counts something. */
  lemma {:induction false} TotalSome(m: Measure, geo: Geometry, bs: seq<Block>) returns (h: nat)
    requires Total(m, geo, bs) > 0
    ensures h < |bs| && Of(m, geo, h, bs[h]) > 0
  {
    var n := |bs| - 1;
    if Of(m, geo, n, bs[n]) > 0 { h := n; } else { h := TotalSome(m, geo, bs[..n]); }
  }

  /** The free fragments of a group. */
  function FreeFrags(bs: seq<Block>): nat {
    if bs == [] then 0 else FreeFrags(bs[..|bs| - 1]) + Ones(bs[|bs| - 1])
  }

  lemma {:induction false} OnesFull(b: Block)
    requires Full(b)
    ensures Ones(b) == |b|
  {
    if b != [] { OnesFull(b[..|b| - 1]); }
  }

  /** Whole blocks and loose fragments together are all that is free. */
  lemma {:induction false} FreeIsCounted(geo: Geometry, bs: seq<Block>)
    requires forall h :: 0 <= h < |bs| ==> |bs[h]| == geo.frag
    ensures FreeFrags(bs) == Total(WholeBlocks, geo, bs) * geo.frag + Total(LooseFrags, geo, bs)
  {
    if bs != [] {
      var n := |bs| - 1;
      FreeIsCounted(geo, bs[..n]);
      if Full(bs[n]) { OnesFull(bs[n]); }
      var t := Total(WholeBlocks, geo, bs[..n]);
      assert (t + 1) * geo.frag == t * geo.frag + geo.frag;
    }
  }

  lemma {:induction false} FreeFragsUpdate(bs: seq<Block>, h: nat, b: Block)
    requires h < |bs|
    ensures FreeFrags(bs[h := b]) == FreeFrags(bs) - Ones(bs[h]) + Ones(b)
  {
    var n := |bs| - 1;
    if h == n {
      assert bs[h := b][..n] == bs[..n];
    } else {
      assert bs[h := b][..n] == bs[..n][h := b];
      FreeFragsUpdate(bs[..n], h, b);
    }
  }

  /** A block of which exactly the fragments lo..hi-1 are free. */
  function Gap(frag: nat, lo: nat, hi: nat): (b: Block)
    ensures |b| == frag
  {
    seq(frag, i => lo <= i < hi)
  }

  lemma {:induction false} OnesGap(frag: nat, lo: nat, hi: nat)
    requires lo <= hi
    ensures Ones(Gap(frag, lo, hi)) == (if hi < frag then hi else frag) - (if lo < frag then lo else frag)
  {
    if frag > 0 {
      OnesGap(frag - 1, lo, hi);
      assert Gap(frag, lo, hi)[..frag - 1] == Gap(frag - 1, lo, hi);
    }
  }

  /** It has one run. */
  lemma {:induction false} RunsGap(frag: nat, lo: nat, hi: nat, k: nat, n: nat)
    requires lo <= hi <= frag && n <= frag
    ensures RunsBefore(Gap(frag, lo, hi), k, n) == if lo < hi && k == hi - lo && lo < n then 1 else 0
  {
    if n > 0 {
      RunsGap(frag, lo, hi, k, n - 1);
      OnlyRun(frag, lo, hi, n - 1, k);
    }
  }

  lemma OnlyRun(frag: nat, lo: nat, hi: nat, i: nat, k: nat)
    requires lo <= hi <= frag
    ensures IsRun(Gap(frag, lo, hi), i, k) <==> lo < hi && i == lo && k == hi - lo
  {
    var b := Gap(frag, lo, hi);
    if IsRun(b, i, k) {
      assert b[i] && b[i + k - 1];
      if i > 0 { assert !b[i - 1]; }
      if i + k < frag { assert !b[i + k]; }
    }
  }
}
