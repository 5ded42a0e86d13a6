/**
 The rotational layout tables of etc/mkfs.c.  Blocks that lie on the same cylinder at the same
 rotational position are chained: fs_postbl holds the first one, fs_rotbl, a table of bytes, the
 distance from each to the next.
 */
module MkfsRotation {

  const BYTE := 256

  /** The first block from b on that has its place in slot s of fs_postbl, or -1. */
  function First(slot: nat -> nat, s: nat, b: nat, n: nat): (f: int)
    ensures f == -1 || (b <= f < n && slot(f) == s)
    ensures forall x :: b <= x < n && (f == -1 || x < f) ==> slot(x) != s
    decreases n - b
  {
    if b >= n then -1 else if slot(b) == s then b else First(slot, s, b + 1, n)
  }

  /** All of them, in increasing order. */
  function Members(slot: nat -> nat, s: nat, b: nat, n: nat): seq<nat>
    decreases n - b
  {
    if b >= n then [] else if slot(b) == s then [b] + Members(slot, s, b + 1, n) else Members(slot, s, b + 1, n)
  }

  lemma {:induction false} MembersMeans(slot: nat -> nat, s: nat, b: nat, n: nat)
    ensures var r := Members(slot, s, b, n);
      (forall x :: x in r <==> b <= x < n && slot(x) == s) && (forall i, j :: 0 <= i < j < |r| ==> r[i] < r[j])
    decreases n - b
  {
    if b < n {
      MembersMeans(slot, s, b + 1, n);
      var r, t := Members(slot, s, b, n), Members(slot, s, b + 1, n);
      if slot(b) == s {
        assert r[0] == b && r[1..] == t;
        forall i, j | 0 <= i < j < |r| ensures r[i] < r[j] {
          assert r[j] == t[j - 1] && t[j - 1] in t;
          if i > 0 { assert r[i] == t[i - 1]; }
        }
        forall x ensures x in r <==> x == b || x in t {
        }
      }
    }
  }

  /** What the loop leaves in fs_rotbl for block b. */
  function Offset(slot: nat -> nat, b: nat, n: nat): nat {
    var next := First(slot, slot(b), b + 1, n);
    if next == -1 then 0 else (next - b) % BYTE
  }

  lemma FirstStep(slot: nat -> nat, b: nat, n: nat)
    requires b < n
    ensures forall s: nat :: First(slot, s, b, n) == if s == slot(b) then b else First(slot, s, b + 1, n)
    ensures Offset(slot, b, n) == (var f := First(slot, slot(b), b + 1, n); if f == -1 then 0 else (f - b) % BYTE)
  {
  }

  /** The loop of main() that fills both tables, from the last block to the first. */
  method FillTables(slot: nat -> nat, postbl: array<int>, rotbl: array<nat>)
    requires forall b :: 0 <= b < rotbl.Length ==> slot(b) < postbl.Length
    modifies postbl, rotbl
    ensures forall s :: 0 <= s < postbl.Length ==> postbl[s] == First(slot, s, 0, rotbl.Length)
    ensures forall b :: 0 <= b < rotbl.Length ==> rotbl[b] == Offset(slot, b, rotbl.Length)
  {
    var n := rotbl.Length;
    for s := 0 to postbl.Length
      invariant forall t :: 0 <= t < s ==> postbl[t] == -1 == First(slot, t, n, n)
    {
      postbl[s] := -1;
    }
    hide First, Offset;
    for blk := n downto 0
      invariant forall s :: 0 <= s < postbl.Length ==> postbl[s] == First(slot, s, blk, n)
      invariant forall b :: blk <= b < n ==> rotbl[b] == Offset(slot, b, n)
    {
      var s := slot(blk);
      FirstStep(slot, blk, n);
      if postbl[s] == -1 {
        rotbl[blk] := 0;
      } else {
        rotbl[blk] := (postbl[s] - blk) % BYTE;
      }
      postbl[s] := blk;
    }
  }

  ghost predicate Filled(slot: nat -> nat, rotbl: seq<nat>) {
    forall b :: 0 <= b < |rotbl| ==> rotbl[b] == Offset(slot, b, |rotbl|)
  }

  /** Following fs_rotbl from block b until an offset of 0. */
  function Chain(slot: nat -> nat, rotbl: seq<nat>, b: nat): (r: seq<nat>)
    requires Filled(slot, rotbl) && b < |rotbl|
    ensures |r| >= 1 && r[0] == b
    decreases |rotbl| - b
  {
    StaysInTable(slot, rotbl, b);
    if rotbl[b] == 0 then [b] else [b] + Chain(slot, rotbl, b + rotbl[b])
  }

  lemma StaysInTable(slot: nat -> nat, rotbl: seq<nat>, b: nat)
    requires Filled(slot, rotbl) && b < |rotbl|
    ensures b + rotbl[b] < |rotbl|
  {
    var next := First(slot, slot(b), b + 1, |rotbl|);
    assert rotbl[b] == Offset(slot, b, |rotbl|);
    if next != -1 { Truncated(next - b); }
  }

  lemma Truncated(g: nat)
    ensures g % BYTE <= g && (g % BYTE == g <==> g < BYTE)
  {
  }

  /** Neighbours are so near each other that their distance fits a byte. */
  predicate Near(ms: seq<nat>) { forall i :: 0 <= i < |ms| - 1 ==> ms[i + 1] - ms[i] < BYTE }

  lemma {:induction false} MembersFromFirst(slot: nat -> nat, s: nat, b: nat, n: nat)
    ensures var f := First(slot, s, b, n);
      Members(slot, s, b, n) == if f == -1 then [] else [f] + Members(slot, s, f + 1, n)
    decreases n - b
  {
    if b < n && slot(b) != s { MembersFromFirst(slot, s, b + 1, n); }
  }

  /** The chain from a block visits exactly the blocks of its slot from there on, in order, if and only if
      every distance between neighbours fits a byte. */
  lemma {:induction false} ChainIsMembers(slot: nat -> nat, rotbl: seq<nat>, b: nat)
    requires Filled(slot, rotbl) && b < |rotbl|
    ensures Chain(slot, rotbl, b) == Members(slot, slot(b), b, |rotbl|) <==> Near(Members(slot, slot(b), b, |rotbl|))
    decreases |rotbl| - b
  {
    var n := |rotbl|;
    var next := First(slot, slot(b), b + 1, n);
    assert rotbl[b] == Offset(slot, b, n);
    MembersFrom(slot, b, n);
    StaysInTable(slot, rotbl, b);
    if next != -1 {
      ChainIsMembers(slot, rotbl, next);
      Link(slot, rotbl, b, next);
    }
  }

  lemma MembersFrom(slot: nat -> nat, b: nat, n: nat)
    requires b < n
    ensures var next := First(slot, slot(b), b + 1, n);
      Members(slot, slot(b), b, n) == [b] + if next == -1 then [] else Members(slot, slot(b), next, n)
    ensures Members(slot, slot(b), b, n)[0] == b
  {
    MembersFromFirst(slot, slot(b), b + 1, n);
    var next := First(slot, slot(b), b + 1, n);
    if next != -1 { MembersFromFirst(slot, slot(b), next, n); }
  }

  lemma ChainStep(slot: nat -> nat, rotbl: seq<nat>, b: nat)
    requires Filled(slot, rotbl) && b < |rotbl|
    ensures rotbl[b] == 0 ==> Chain(slot, rotbl, b) == [b]
    ensures rotbl[b] != 0 ==> b + rotbl[b] < |rotbl| && Chain(slot, rotbl, b) == [b] + Chain(slot, rotbl, b + rotbl[b])
  {
    StaysInTable(slot, rotbl, b);
  }

  /** One link of the chain. */
  lemma Link(slot: nat -> nat, rotbl: seq<nat>, b: nat, next: nat)
    requires Filled(slot, rotbl) && b < next < |rotbl| && slot(next) == slot(b) && rotbl[b] == (next - b) % BYTE
    requires Members(slot, slot(b), b, |rotbl|) == [b] + Members(slot, slot(b), next, |rotbl|)
    requires Chain(slot, rotbl, next) == Members(slot, slot(b), next, |rotbl|) <==>
      Near(Members(slot, slot(b), next, |rotbl|))
    ensures Chain(slot, rotbl, b) == Members(slot, slot(b), b, |rotbl|) <==> Near(Members(slot, slot(b), b, |rotbl|))
  {
    hide Chain, Members, Filled, First, Near;
    MembersFrom(slot, next, |rotbl|);
    Truncated(next - b);
    ChainStep(slot, rotbl, b);
    LinkOf(b, next, rotbl[b], Chain(slot, rotbl, b), Chain(slot, rotbl, next),
           Members(slot, slot(b), b, |rotbl|), Members(slot, slot(b), next, |rotbl|));
  }

  lemma LinkOf(b: nat, next: nat, off: nat, chain: seq<nat>, rest: seq<nat>, ms: seq<nat>, tail: seq<nat>)
    requires b < next && off <= next - b && (off == next - b <==> next - b < BYTE)
    requires ms == [b] + tail && |tail| >= 1 && tail[0] == next
    requires if off == 0 then chain == [b] else |chain| >= 2 && chain[1] == b + off
    requires off == next - b ==> chain == [b] + rest
    requires rest == tail <==> Near(tail)
    ensures chain == ms <==> Near(ms)
  {
    NearTail(b, tail);
    hide Near;
    if next - b < BYTE {
      SameTail(b, rest, tail);
    } else {
      assert ms[1] == next && |ms| >= 2;
    }
  }

  lemma NearTail(b: nat, tail: seq<nat>)
    requires |tail| >= 1
    ensures Near([b] + tail) <==> Near(tail) && tail[0] - b < BYTE
  {
    var ms := [b] + tail;
    if Near(ms) {
      assert ms[1] - ms[0] < BYTE;
      forall i | 0 <= i < |tail| - 1 ensures tail[i + 1] - tail[i] < BYTE {
        assert ms[i + 2] - ms[i + 1] < BYTE;
      }
    }
  }

  lemma SameTail(b: nat, s: seq<nat>, t: seq<nat>)
    ensures [b] + s == [b] + t <==> s == t
  {
    assert ([b] + s)[1..] == s && ([b] + t)[1..] == t;
  }

  /** The tables are complete exactly for the slots whose blocks are near. */
  lemma TablesComplete(slot: nat -> nat, postbl: seq<int>, rotbl: seq<nat>, s: nat)
    requires Filled(slot, rotbl) && s < |postbl| && postbl[s] == First(slot, s, 0, |rotbl|)
    ensures postbl[s] == -1 <==> Members(slot, s, 0, |rotbl|) == []
    ensures postbl[s] >= 0 ==>
      (Chain(slot, rotbl, postbl[s]) == Members(slot, s, 0, |rotbl|) <==> Near(Members(slot, s, 0, |rotbl|)))
  {
    MembersFromFirst(slot, s, 0, |rotbl|);
    if postbl[s] >= 0 {
      MembersFromFirst(slot, s, postbl[s], |rotbl|);
      ChainIsMembers(slot, rotbl, postbl[s]);
    }
  }

  const SBSIZE := 8192

  function Scaled(x: nat, m: nat, d: nat): nat
    requires d >= 1
  {
    assert x * m >= 0;
    x * m / d
  }

  /** The disk as main() sees it: sectors in a track, tracks, sectors in a block, cylinders until the pattern
      repeats, rotational positions, and the bytes of the super block before the tables.  The interleave is 1
      and there is no track skew. */
  datatype Disk = Disk(nsect: nat, ntrak: nat, nspb: nat, cpc: nat, nrpos: nat, header: nat)
  {
    predicate Ok() { nsect * ntrak >= 1 && nsect >= 1 && nspb >= 1 }

    /** The number of blocks that the tables describe. */
    function Blocks(): nat
      requires Ok()
    {
      cpc * (nsect * ntrak) / nspb
    }

    /** main() makes tables for this disk. */
    predicate Accepted() {
      Ok() && ntrak > 1 && nsect <= BYTE * nspb && header + Blocks() + 2 * nrpos * cpc <= SBSIZE
    }

    function CylNo(b: nat): nat
      requires Ok()
    {
      b * nspb / (nsect * ntrak)
    }

    function RPos(b: nat): nat
      requires Ok()
    {
      Scaled(b * nspb % (nsect * ntrak) % nsect, nrpos, nsect)
    }
  }

  /** 4096 sectors in a track, two tracks, 16 sectors in a block, 256 positions. */
  const FAR := Disk(4096, 2, 16, 1, 256, 7000)

  /** Cylinder and position of block b, as one index of fs_postbl. */
  function Far(b: nat): nat { FAR.CylNo(b) * FAR.nrpos + FAR.RPos(b) }

  lemma FarSlot(b: nat)
    requires b < 512
    ensures Far(b) == b % 256
  {
    var x := b * 16;
    assert x / 8192 == 0 && x % 8192 == x && x % 4096 == b % 256 * 16;
  }

  lemma FarFirst(n: nat)
    requires n == 512
    ensures First(Far, 0, 1, n) == 256 && First(Far, 0, 257, n) == -1
  {
    hide Far, First;
    var f, g := First(Far, 0, 1, n), First(Far, 0, 257, n);
    FarSlot(256);
    if f != -1 { FarSlot(f); }
    if g != -1 { FarSlot(g); }
  }

  lemma FarOffset(rotbl: seq<nat>)
    requires |rotbl| == 512 && Filled(Far, rotbl)
    ensures rotbl[0] == 0
  {
    hide Far, First;
    FarSlot(0);
    FarFirst(|rotbl|);
    assert rotbl[0] == Offset(Far, 0, |rotbl|);
  }

  /** main() makes tables for this disk, and the chain of its position 0 misses the second of its two blocks. */
  lemma FarBlocks(rotbl: seq<nat>)
    requires |rotbl| == FAR.Blocks() && Filled(Far, rotbl)
    ensures FAR.Accepted()
    ensures Chain(Far, rotbl, 0) == [0] && Members(Far, Far(0), 0, |rotbl|) == [0, 256]
  {
    hide Far, First, Filled, Chain, Members;
    FarSlot(0);
    FarSlot(256);
    FarFirst(|rotbl|);
    FarOffset(rotbl);
    ChainStep(Far, rotbl, 0);
    MembersFrom(Far, 0, |rotbl|);
    MembersFrom(Far, 256, |rotbl|);
  }
}
