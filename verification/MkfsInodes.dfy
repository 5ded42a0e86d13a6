/**
 The inode maps of etc/mkfs.c and the counts of free inodes: of a group, in its summary, and in the super
 block.
 */
module MkfsInodes {
  import opened MkfsBitmap

  const ROOTINO := 2

  /** A group's map, in which the bits of used inodes are set, and its cs_nifree. */
  datatype Group = Group(used: seq<bv8>, nifree: int)

  predicate Used(map': seq<bv8>, i: nat)
    requires i < NBBY * |map'|
  {
    Free(map', i)
  }

  /** The free inodes among the first n. */
  function FreeInodes(used: seq<bv8>, n: nat): (k: nat)
    requires n <= NBBY * |used|
    ensures k <= n
  {
    if n == 0 then 0 else FreeInodes(used, n - 1) + if Used(used, n - 1) then 0 else 1
  }

  /** Setting a bit takes one inode, if it is one of them and was free. */
  lemma {:induction false} SetTakes(used: seq<bv8>, i: nat, n: nat)
    requires n <= NBBY * |used| && i < NBBY * |used|
    ensures FreeInodes(SetBit(used, i), n) == FreeInodes(used, n) - if i < n && !Used(used, i) then 1 else 0
  {
    hide SetBit, Used;
    if n > 0 {
      SetTakes(used, i, n - 1);
      SetUsed(used, i, n - 1);
    }
  }

  lemma SetUsed(used: seq<bv8>, i: nat, j: nat)
    requires i < NBBY * |used| && j < NBBY * |used|
    ensures Used(SetBit(used, i), j) <==> Used(used, j) || j == i
  {
    SetBitMeans(used, i, j);
  }

  lemma {:induction false} AllFree(used: seq<bv8>, n: nat)
    requires n <= NBBY * |used| && forall k :: 0 <= k < |used| ==> used[k] == 0
    ensures FreeInodes(used, n) == n && forall i :: 0 <= i < n ==> !Used(used, i)
  {
    if n > 0 {
      AllFree(used, n - 1);
      ZeroByte(used, n - 1);
    }
  }

  lemma ZeroByte(used: seq<bv8>, i: nat)
    requires i < NBBY * |used| && used[i / NBBY] == 0
    ensures !Used(used, i)
  {
  }

  /** A group with all inodes free, but, in the first one, for those in front of the root's. */
  method NewGroup(ipg: nat, first: bool) returns (acg: Group)
    requires ipg >= ROOTINO
    ensures ipg <= NBBY * |acg.used| && acg.nifree == FreeInodes(acg.used, ipg) == ipg - if first then ROOTINO else 0
    ensures forall i :: 0 <= i < ipg ==> (Used(acg.used, i) <==> first && i < ROOTINO)
  {
    var used := seq((ipg + NBBY - 1) / NBBY, _ => 0);
    assert ipg <= NBBY * |used|;
    AllFree(used, ipg);
    hide FreeInodes, Used, SetBit;
    var nifree := ipg as int;
    if first {
      for i := 0 to ROOTINO
        invariant ipg <= NBBY * |used| && nifree == FreeInodes(used, ipg) == ipg - i
        invariant forall j :: 0 <= j < ipg ==> (Used(used, j) <==> j < i)
      {
        SetTakes(used, i, ipg);
        UsedAfter(used, i, ipg);
        used := SetBit(used, i);
        nifree := nifree - 1;
      }
    }
    acg := Group(used, nifree);
  }

  lemma UsedAfter(used: seq<bv8>, i: nat, n: nat)
    requires n <= NBBY * |used| && i < NBBY * |used|
    ensures forall j :: 0 <= j < n ==> (Used(SetBit(used, i), j) <==> Used(used, j) || j == i)
  {
    forall j | 0 <= j < n ensures Used(SetBit(used, i), j) <==> Used(used, j) || j == i {
      SetUsed(used, i, j);
    }
  }

  function Sum(s: seq<int>): int {
    if s == [] then 0 else Sum(s[..|s| - 1]) + s[|s| - 1]
  }

  lemma Times(c: nat, n: nat)
    ensures (c + 1) * n == c * n + n
  {
  }

  lemma SumNext(s: seq<int>, c: nat)
    requires c < |s|
    ensures Sum(s[..c + 1]) == Sum(s[..c]) + s[c]
  {
    assert s[..c + 1][..c] == s[..c];
  }

  lemma {:induction false} SumUpdate(s: seq<int>, c: nat, x: int)
    requires c < |s|
    ensures Sum(s[c := x]) == Sum(s) - s[c] + x
  {
    var n := |s| - 1;
    if c < n {
      assert s[c := x][..n] == s[..n][c := x];
      SumUpdate(s[..n], c, x);
    } else {
      assert s[c := x][..n] == s[..n];
    }
  }

  /** Inodes that fsinit() can allocate without spoiling a count: of the first group, not reserved, none twice. */
  predicate Allocatable(inos: seq<nat>, ipg: nat) {
    && (forall k :: 0 <= k < |inos| ==> ROOTINO <= inos[k] < ipg)
    && forall j, k :: 0 <= j < k < |inos| ==> inos[j] != inos[k]
  }

  class Inodes {
    const ipg: nat
    const fscs: array<int>
    var disk: seq<Group>
    var total: int

    ghost predicate Shape()
      reads `disk
    {
      && ipg >= ROOTINO && fscs.Length >= 1 && |disk| == fscs.Length
      && forall c :: 0 <= c < |disk| ==> ipg <= NBBY * |disk[c].used|
    }

    /** A group's count, and its summary, are the free inodes of its map. */
    ghost predicate GroupCounts(c: nat)
      reads `disk, fscs
      requires Shape() && c < |disk|
    {
      disk[c].nifree == FreeInodes(disk[c].used, ipg) == fscs[c]
    }

    /** All counts of free inodes agree with the maps, and the total with the counts. */
    ghost predicate Counts()
      reads `disk, `total, fscs
      requires Shape()
    {
      (forall c :: 0 <= c < |disk| ==> GroupCounts(c)) && total == Sum(fscs[..])
    }

    constructor (ipg: nat, ncg: nat)
      requires ipg >= ROOTINO && ncg >= 1
      ensures Shape() && this.ipg == ipg && |disk| == ncg && total == 0 && fresh(fscs)
    {
      this.ipg := ipg;
      fscs := new int[ncg];
      disk := seq(ncg, _ => Group(seq((ipg + NBBY - 1) / NBBY, _ => 0), 0));
      total := 0;
    }

    /** The part of initcg() about inodes: all are free, but for those in front of the root's. */
    method InitGroup(c: nat)
      requires Shape() && c < |disk| && total == Sum(fscs[..c])
      modifies `disk, `total, fscs
      ensures Shape() && |disk| == |old(disk)| && GroupCounts(c)
      ensures disk == old(disk)[c := disk[c]] && fscs[..c] == old(fscs[..c])
      ensures total == Sum(fscs[..c + 1]) == old(total) + ipg - if c == 0 then ROOTINO else 0
      ensures forall i :: 0 <= i < ipg ==> (Used(disk[c].used, i) <==> c == 0 && i < ROOTINO)
    {
      var acg := NewGroup(ipg, c == 0);
      ghost var s := fscs[..c];
      total := total + acg.nifree;
      fscs[c] := acg.nifree;
      disk := disk[c := acg];
      SumNext(fscs[..], c);
      assert fscs[..][..c] == fscs[..c] == s && fscs[..][..c + 1] == fscs[..c + 1];
    }

    /** The groups below `done` are built, and the total is theirs. */
    ghost predicate Built(done: nat)
      reads `disk, `total, fscs
    {
      Shape() && done <= |disk| && (forall c :: 0 <= c < done ==> GroupCounts(c)) && total == Sum(fscs[..done])
    }

    method InitNext(c: nat)
      requires Built(c) && c < |disk|
      modifies `disk, `total, fscs
      ensures Built(c + 1) && |disk| == |old(disk)| && total == old(total) + ipg - if c == 0 then ROOTINO else 0
      ensures c > 0 ==> disk[0] == old(disk)[0]
      ensures c == 0 ==> forall i :: 0 <= i < ipg ==> (Used(disk[0].used, i) <==> i < ROOTINO)
    {
      hide Used, FreeInodes, Sum;
      ghost var before, s := disk, fscs[..c];
      forall g | 0 <= g < c ensures before[g].nifree == FreeInodes(before[g].used, ipg) == s[g] {
        assert GroupCounts(g) && s[g] == fscs[g];
      }
      InitGroup(c);
      ghost var s' := fscs[..c];
      forall g | 0 <= g < c ensures GroupCounts(g) {
        assert disk[g] == before[g] && fscs[g] == s'[g] && s'[g] == s[g];
      }
    }

    /** The loop of main() over the groups. */
    method InitAll()
      requires Shape() && total == 0
      modifies `disk, `total, fscs
      ensures Shape() && Counts() && |disk| == |old(disk)| && total == |disk| * ipg - ROOTINO
      ensures forall i :: 0 <= i < ipg ==> (Used(disk[0].used, i) <==> i < ROOTINO)
    {
      hide Used, GroupCounts;
      assert fscs[..0] == [];
      for c := 0 to |disk|
        invariant Built(c) && |disk| == |old(disk)| && total == if c == 0 then 0 else c * ipg - ROOTINO
        invariant c > 0 ==> forall i :: 0 <= i < ipg ==> (Used(disk[0].used, i) <==> i < ROOTINO)
      {
        Times(c, ipg);
        InitNext(c);
      }
      assert fscs[..|disk|] == fscs[..];
    }

    /** iput(), as far as it counts: the counts stay right if and only if the inode is one of the first group and
        was free.  The total always drops by one. */
    method IPut(ino: nat)
      requires Shape() && Counts() && ino < NBBY * |disk[0].used|
      modifies `disk, `total, fscs
      ensures Shape() && |disk| == |old(disk)| && total == old(total) - 1
      ensures Counts() <==> ino < ipg && !Used(old(disk)[0].used, ino)
      ensures forall i :: 0 <= i < ipg ==> (Used(disk[0].used, i) <==> Used(old(disk)[0].used, i) || i == ino)
    {
      hide FreeInodes;
      assert GroupCounts(0);
      ghost var s := fscs[..];
      SetTakes(disk[0].used, ino, ipg);
      UsedAfter(disk[0].used, ino, ipg);
      hide Used, SetBit;
      var acg := disk[0];
      acg := acg.(nifree := acg.nifree - 1);
      acg := acg.(used := SetBit(acg.used, ino));
      disk := disk[0 := acg];
      total := total - 1;
      fscs[0] := fscs[0] - 1;
      SumUpdate(s, 0, s[0] - 1);
      assert fscs[..] == s[0 := s[0] - 1];
      forall c | 1 <= c < |disk| ensures GroupCounts(c) {
        assert old(GroupCounts(c));
      }
      assert GroupCounts(0) <==> ino < ipg && !old(Used(disk[0].used, ino));
    }

    /** main(): all groups, and then the inodes that fsinit() allocates. */
    method Build(inos: seq<nat>)
      requires Shape() && total == 0 && Allocatable(inos, ipg)
      modifies `disk, `total, fscs
      ensures Shape() && Counts() && total == |disk| * ipg - ROOTINO - |inos|
      ensures forall i :: 0 <= i < ipg ==> (Used(disk[0].used, i) <==> i < ROOTINO || i in inos)
    {
      hide Used, Counts;
      InitAll();
      assert inos[..0] == [];
      for k := 0 to |inos|
        invariant Shape() && |disk| == |old(disk)| && Counts() && total == |disk| * ipg - ROOTINO - k
        invariant forall i :: 0 <= i < ipg ==> (Used(disk[0].used, i) <==> i < ROOTINO || i in inos[..k])
      {
        assert inos[k] !in inos[..k];
        assert inos[..k + 1] == inos[..k] + [inos[k]];
        IPut(inos[k]);
      }
      assert inos[..|inos|] == inos;
    }
  }
}
