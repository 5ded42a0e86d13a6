/**
 The wait channels of bin/ps.c: a table sorted by address, and a ten-entry index into it.
 */
module Ps {

  const NWCINDEX := 10

  datatype Channel = Channel(name: string, addr: nat)

  ghost predicate Sorted(t: seq<Channel>) {
    forall i, j :: 0 <= i < j < |t| ==> t[i].addr <= t[j].addr
  }

  /** A full scan: the last channel that is not above the address. */
  function Scan(t: seq<Channel>, chan: nat): string {
    if t == [] then "???"
    else if t[|t| - 1].addr <= chan then t[|t| - 1].name
    else Scan(t[..|t| - 1], chan)
  }

  /** Where index entry i points. */
  function Slot(i: nat, n: nat): nat { i * n / NWCINDEX }

  lemma SlotBounds(i: nat, n: nat)
    ensures Slot(i, n) <= Slot(i + 1, n) && (i < NWCINDEX && n > 0 ==> Slot(i, n) < n)
    ensures Slot(NWCINDEX, n) == n && Slot(0, n) == 0
  {
    var p := i * n;
    assert (i + 1) * n == p + n;
    if i < NWCINDEX && n > 0 {
      assert (NWCINDEX - 1 - i) * n >= 0;
      assert p + n <= NWCINDEX * n;
    }
  }

  /** What lies above the address does not matter. */
  lemma {:induction false} ScanPrefix(t: seq<Channel>, chan: nat, k: nat)
    requires k <= |t| && forall j :: k <= j < |t| ==> t[j].addr > chan
    ensures Scan(t, chan) == Scan(t[..k], chan)
  {
    if k < |t| {
      ScanPrefix(t[..|t| - 1], chan, k);
      assert t[..|t| - 1][..k] == t[..k];
    } else {
      assert t[..k] == t;
    }
  }

  class WaitChannels {
    const wchanhd: array<Channel>
    const wchan_index: array<nat>

    /** The table is sorted, as qsort() leaves it, and the index holds its samples. */
    ghost predicate Indexed()
      reads wchanhd, wchan_index
    {
      && wchanhd.Length >= 1 && wchan_index.Length == NWCINDEX && Sorted(wchanhd[..])
      && forall i :: 0 <= i < NWCINDEX ==>
        Slot(i, wchanhd.Length) < wchanhd.Length && wchan_index[i] == wchanhd[Slot(i, wchanhd.Length)].addr
    }

    /** The index part of getvchans(), for a table that has been sorted. */
    constructor (table: seq<Channel>)
      requires |table| >= 1 && Sorted(table)
      ensures Indexed() && wchanhd[..] == table
    {
      wchanhd := new Channel[|table|](i requires 0 <= i < |table| => table[i]);
      wchan_index := new nat[NWCINDEX];
      new;
      assert wchanhd[..] == table;
      var nchans := wchanhd.Length;
      for i := 0 to NWCINDEX
        modifies wchan_index
        invariant forall k :: 0 <= k < i ==> Slot(k, nchans) < nchans && wchan_index[k] == wchanhd[Slot(k, nchans)].addr
      {
        SlotBounds(i, nchans);
        var tmp := i * nchans;
        wchan_index[i] := wchanhd[tmp / NWCINDEX].addr;
      }
    }

    /** getchan(): the index gives the same name as a full scan; address 0 has none. */
    method GetChan(chan: nat) returns (name: string)
      requires Indexed()
      ensures name == if chan == 0 then "???" else Scan(wchanhd[..], chan)
    {
      name := "???";
      if chan == 0 { return; }
      hide Slot, Scan;
      var nchans := wchanhd.Length;
      ghost var t := wchanhd[..];
      var i := 0;
      while i < NWCINDEX && chan >= wchan_index[i]
        invariant 0 <= i <= NWCINDEX && (i > 0 ==> wchan_index[i - 1] <= chan)
      {
        i := i + 1;
      }
      SlotBounds(0, nchans);
      if i == 0 {
        NothingBelow(t, chan);
        return;
      }
      var iend := i * nchans / NWCINDEX;
      i := i - 1;
      Samples(t, chan, i, iend);
      SlotBounds(i, nchans);
      SlotIs(i, nchans);
      i := i * nchans / NWCINDEX;
      ghost var lo := i;
      while i < iend
        invariant lo <= i <= iend && name == if i == lo then "???" else t[i - 1].name
        invariant forall j :: lo <= j < i ==> t[j].addr <= chan
      {
        if wchanhd[i].addr > chan { break; }
        name := wchanhd[i].name;
        i := i + 1;
      }
      LastBelow(t, chan, i, iend);
    }
  }

  lemma SlotIs(i: nat, n: nat)
    ensures Slot(i, n) == i * n / NWCINDEX
  {
  }

  lemma NothingBelow(t: seq<Channel>, chan: nat)
    requires Sorted(t) && |t| >= 1 && t[0].addr > chan
    ensures Scan(t, chan) == "???"
  {
    ScanPrefix(t, chan, 0);
    assert t[..0] == [];
  }

  /** The two samples around the address: the first one is not above it, and from the second one on all are. */
  lemma Samples(t: seq<Channel>, chan: nat, i: nat, iend: nat)
    requires Sorted(t) && |t| >= 1 && i < NWCINDEX && iend == (i + 1) * |t| / NWCINDEX
    requires Slot(i, |t|) < |t| ==> t[Slot(i, |t|)].addr <= chan
    requires i + 1 < NWCINDEX && Slot(i + 1, |t|) < |t| ==> t[Slot(i + 1, |t|)].addr > chan
    ensures Slot(i, |t|) < iend <= |t|
    ensures t[Slot(i, |t|)].addr <= chan && forall j :: iend <= j < |t| ==> t[j].addr > chan
  {
    SlotBounds(i, |t|);
    SlotBounds(i + 1, |t|);
    SlotIs(i + 1, |t|);
    hide Slot;
    if i + 1 == NWCINDEX { SlotBounds(NWCINDEX, |t|); }
  }

  lemma LastBelow(t: seq<Channel>, chan: nat, i: nat, iend: nat)
    requires 0 < i <= iend <= |t| && t[i - 1].addr <= chan && Sorted(t)
    requires (i < iend ==> t[i].addr > chan) && forall j :: iend <= j < |t| ==> t[j].addr > chan
    ensures Scan(t, chan) == t[i - 1].name
  {
    ScanPrefix(t, chan, i);
    assert t[..i][i - 1] == t[i - 1];
  }
}
