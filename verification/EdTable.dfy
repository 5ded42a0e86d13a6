/**
 The line table of bin/ed.c.  Entry k of `cur` is the address of line k; entry 0 is `zero`.  `sav` is
 the other half of the same entries, what `save` keeps for `undo`.  The arrays stand for the memory
 that `sbrk` can give out; `endcore` is how much it has given.
 */
module EdTable {
  import opened EdLines

  const GROWTH := 512

  /** The mark bits of s[lo..hi] cleared. */
  function Cleared(s: seq<nat>, lo: nat, hi: nat): (r: seq<nat>)
    requires lo <= hi <= |s|
    ensures |r| == |s|
  {
    seq(|s|, i requires 0 <= i < |s| => if lo <= i < hi then s[i] - s[i] % 2 else s[i])
  }

  function Without(s: seq<nat>, lo: nat, hi: nat): seq<nat>
    requires lo <= hi <= |s|
  {
    s[..lo] + s[hi..]
  }

  function Min(a: nat, b: nat): nat { if a < b then a else b }

  function Max(a: nat, b: nat): nat { if a > b then a else b }

  function WithMark(tl: nat, mark: bool): nat { tl - tl % 2 + if mark then 1 else 0 }

  /** Exactly the lines addr1 to addr2 that match carry the mark bit. */
  function Selected(s: seq<nat>, addr1: nat, addr2: nat, matches: nat -> bool): (r: seq<nat>)
    ensures |r| == |s|
  {
    seq(|s|, k requires 0 <= k < |s| => WithMark(s[k], addr1 <= k + 1 <= addr2 && matches(k + 1)))
  }

  class LineTable {
    const cur: array<nat>
    const sav: array<nat>
    const names: array<nat>
    const savnames: array<nat>
    var dot: nat
    var dol: nat
    var savdot: nat
    var savdol: nat
    var endcore: int

    ghost predicate Valid()
      reads this
    {
      && cur.Length == sav.Length >= 2 && names.Length == savnames.Length == 26
      && cur != sav && cur != names && cur != savnames && sav != names && sav != savnames && names != savnames
      && -1 <= endcore && endcore + 1 < cur.Length
      && dot <= dol && (dol == 0 || dol <= endcore)
      && savdot <= savdol && (savdol == 0 || savdol <= endcore)
    }

    ghost function Lines(): (s: seq<nat>)
      reads `dol, cur
      requires dol < cur.Length
      ensures |s| == dol
    {
      cur[1..dol + 1]
    }

    ghost function Saved(): (s: seq<nat>)
      reads `savdol, sav
      requires savdol < sav.Length
      ensures |s| == savdol
    {
      sav[1..savdol + 1]
    }

    constructor (memory: nat)
      ensures Valid() && Lines() == Saved() == [] && fresh(cur) && fresh(sav) && fresh(names) && fresh(savnames)
    {
      cur, sav := new nat[memory + 2], new nat[memory + 2];
      names, savnames := new nat[26](_ => 0), new nat[26];
      dot, dol, savdot, savdol, endcore := 0, 0, 0, 0, -1;
    }

    /** save() */
    method Save()
      requires Valid()
      modifies `savdot, `savdol, sav, savnames
      ensures Valid() && Saved() == Lines() && savdot == dot && savnames[..] == names[..]
    {
      savdot, savdol := dot, dol;
      for j := 0 to 26
        modifies savnames
        invariant forall k :: 0 <= k < j ==> savnames[k] == names[k]
      {
        savnames[j] := names[j];
      }
      for i := 1 to dol + 1
        modifies sav
        invariant forall k :: 1 <= k < i ==> sav[k] == cur[k]
      {
        sav[i] := cur[i];
      }
    }

    /** undo() */
    method Undo()
      requires Valid()
      modifies `dot, `dol, `savdot, `savdol, cur, sav, names, savnames
      ensures Valid()
      ensures (dot, dol, savdot, savdol) == old((savdot, savdol, dot, dol))
      ensures var m := old(Max(dol, savdol));
        forall k :: 0 <= k < cur.Length ==>
          (cur[k], sav[k]) == if 1 <= k <= m then old((sav[k], cur[k])) else old((cur[k], sav[k]))
      ensures names[..] == old(savnames[..]) && savnames[..] == old(names[..])
      ensures Lines() == old(Saved()) && Saved() == old(Lines())
    {
      ghost var c, s := cur[..], sav[..];
      dot, savdot := savdot, dot;
      dol, savdol := savdol, dol;
      var m := if dol > savdol then dol else savdol;
      SwapLines(m);
      SwapNames();
      SameSlice(cur[..], s, 1, dol + 1);
      SameSlice(sav[..], c, 1, savdol + 1);
    }

    method SwapLines(m: nat)
      requires cur.Length == sav.Length && m < cur.Length && cur != sav
      modifies cur, sav
      ensures forall k :: 0 <= k < cur.Length ==>
        (cur[k], sav[k]) == if 1 <= k <= m then old((sav[k], cur[k])) else old((cur[k], sav[k]))
    {
      for i := 1 to m + 1
        invariant forall k :: 0 <= k < cur.Length ==>
          (cur[k], sav[k]) == if 1 <= k < i then old((sav[k], cur[k])) else old((cur[k], sav[k]))
      {
        cur[i], sav[i] := sav[i], cur[i];
      }
    }

    method SwapNames()
      requires names.Length == savnames.Length == 26 && names != savnames
      modifies names, savnames
      ensures names[..] == old(savnames[..]) && savnames[..] == old(names[..])
    {
      for j := 0 to 26
        invariant forall k :: 0 <= k < 26 ==>
          (names[k], savnames[k]) == if k < j then old((savnames[k], names[k])) else old((names[k], savnames[k]))
      {
        names[j], savnames[j] := savnames[j], names[j];
      }
    }

    /** Undoing an undo restores everything. */
    method UndoTwice()
      requires Valid()
      modifies `dot, `dol, `savdot, `savdol, cur, sav, names, savnames
      ensures Valid() && (dot, dol, savdot, savdol) == old((dot, dol, savdot, savdol))
      ensures cur[..] == old(cur[..]) && sav[..] == old(sav[..])
      ensures names[..] == old(names[..]) && savnames[..] == old(savnames[..])
    {
      Undo();
      Undo();
    }

    /** How far endcore can go. */
    ghost function Capacity(): int
      reads `endcore
    {
      endcore + (cur.Length - 2 - endcore) / GROWTH * GROWTH
    }

    /** How many lines there is memory for. */
    ghost function Free(): nat
      reads `endcore, `dol
    {
      if Capacity() <= dol then 0 else Capacity() - dol
    }

    /** The memory check of append(): false is error 30, exactly when the table is full and the system gives out
        no more. */
    method Room() returns (ok: bool)
      requires Valid()
      modifies `endcore
      ensures Valid() && (ok ==> dol < endcore) && Capacity() == old(Capacity())
      ensures !ok <==> dol >= old(endcore) && old(endcore) + GROWTH + 1 >= cur.Length
      ensures endcore == old(endcore) + if ok && dol >= old(endcore) then GROWTH else 0
      ensures ok <==> Free() > 0
    {
      ok := true;
      if dol >= endcore {
        if endcore + GROWTH + 1 >= cur.Length { return false; }
        endcore := endcore + GROWTH;
      }
    }

    /** The part of append() that puts one new line behind dot. */
    method Insert(tl: nat)
      requires Valid() && dol < endcore
      modifies `dot, `dol, cur
      ensures Valid() && dot == old(dot) + 1
      ensures Lines() == old(Lines()[..dot]) + [tl] + old(Lines()[dot..])
    {
      ghost var c := cur[..];
      dol := dol + 1;
      var a1, a2 := dol, dol + 1;
      dot := dot + 1;
      while a1 > dot
        modifies cur
        invariant dot <= a1 <= dol && a2 == a1 + 1
        invariant forall k :: 0 <= k < cur.Length && k <= a1 ==> cur[k] == c[k]
        invariant forall k :: a1 < k <= dol ==> cur[k] == c[k - 1]
      {
        a2, a1 := a2 - 1, a1 - 1;
        cur[a2] := cur[a1];
      }
      cur[dot] := tl;
      InsertedIs(c, cur[..], dot, dol, tl);
    }

    /** rdelete() */
    method RDelete(ad1: nat, ad2: nat)
      requires Valid() && 1 <= ad1 <= ad2 <= dol
      modifies `dot, `dol, cur
      ensures Valid() && Lines() == Without(old(Lines()), ad1 - 1, ad2)
      ensures dot == Min(ad1, dol)
    {
      hide Without;
      ghost var c := cur[..];
      assert Lines() == c[1..dol + 1];
      var a1, a2, a3 := ad1, ad2 + 1, dol;
      dol := dol - (a2 - a1);
      var again := true;
      while again
        modifies cur
        invariant ad1 <= a1 && a2 == a1 + ad2 + 1 - ad1 <= a3 + 2
        invariant again ==> a2 <= a3 + 1
        invariant !again ==> a2 > a3
        invariant forall k :: 0 <= k < ad1 ==> cur[k] == c[k]
        invariant forall k :: ad1 <= k < a1 ==> cur[k] == c[k + ad2 + 1 - ad1]
        invariant forall k :: a1 <= k < cur.Length ==> cur[k] == c[k]
        decreases again, a3 + 2 - a2
      {
        cur[a1] := cur[a2];
        a1, a2 := a1 + 1, a2 + 1;
        again := a2 <= a3;
      }
      a1 := ad1;
      if a1 > dol { a1 := dol; }
      dot := a1;
      DeletedIs(c, cur[..], ad1, ad2, a3);
      assert Lines() == cur[..][1..dol + 1];
    }

    /** reverse() */
    method Reverse(from: nat, to: nat)
      requires 1 <= from <= to <= cur.Length
      modifies cur
      ensures cur[..] == Flipped(old(cur[..]), from, to)
    {
      ghost var c := cur[..];
      var a1, a2 := from, to;
      while true
        invariant from <= a1 <= a2 <= to && a1 - from == to - a2
        invariant forall k :: 0 <= k < cur.Length ==>
          cur[k] == if from <= k < a1 || a2 <= k < to then old(cur[from + to - 1 - k]) else old(cur[k])
        decreases a2 - a1
      {
        a2 := a2 - 1;
        var t := cur[a2];
        if a2 <= a1 { break; }
        cur[a2] := cur[a1];
        cur[a1] := t;
        a1 := a1 + 1;
      }
      FlippedIs(c, cur[..], from, to);
    }

    /** Clear the marks of a block. */
    method Unmark(addr1: nat, addr2: nat)
      requires Valid() && 1 <= addr1 <= addr2 <= dol
      modifies cur
      ensures Lines() == Cleared(old(Lines()), addr1 - 1, addr2)
    {
      for a := addr1 to addr2 + 1
        invariant forall k :: 0 <= k < cur.Length ==>
          cur[k] == if addr1 <= k < a then old(cur[k]) - old(cur[k]) % 2 else old(cur[k])
      {
        cur[a] := cur[a] - cur[a] % 2;
      }
    }

    /** The first loop of global(): mark the lines addr1 to addr2 that `match` selects. */
    method MarkLines(addr1: nat, addr2: nat, matches: nat -> bool)
      requires Valid()
      modifies cur
      ensures Lines() == Selected(old(Lines()), addr1, addr2, matches) && (addr1 >= 1 ==> cur[0] % 2 == 0)
    {
      ghost var c := cur[..];
      for a1 := 0 to dol + 1
        invariant forall k :: 0 <= k < cur.Length ==>
          cur[k] == if k < a1 then WithMark(old(cur[k]), addr1 <= k <= addr2 && matches(k)) else old(cur[k])
      {
        cur[a1] := cur[a1] - cur[a1] % 2;
        if addr1 <= a1 <= addr2 && matches(a1) { cur[a1] := cur[a1] + 1; }
      }
      SelectedIs(c, cur[..], dol, addr1, addr2, matches);
      assert addr1 >= 1 ==> cur[0] == WithMark(c[0], false);
    }

    method Replace(at: nat, tl: nat)
      requires Valid() && 1 <= at <= dol
      modifies cur
      ensures Lines() == old(Lines())[at - 1 := tl]
    {
      cur[at] := tl;
    }

    /** The new address of a substituted line, also for the names that mark it. */
    method Rename(at: nat, tl: nat)
      requires Valid() && 1 <= at <= dol
      modifies cur, names
      ensures Lines() == old(Lines())[at - 1 := tl]
      ensures forall j :: 0 <= j < 26 ==>
        names[j] == if old(names[j]) == old(cur[at]) - old(cur[at]) % 2 then tl else old(names[j])
    {
      cur[at] := cur[at] - cur[at] % 2;
      for j := 0 to 26
        modifies names
        invariant forall k :: 0 <= k < 26 ==>
          names[k] == if k < j && old(names[k]) == cur[at] then tl else old(names[k])
      {
        if names[j] == cur[at] { names[j] := tl; }
      }
      cur[at] := tl;
    }

    /** Exchange the neighbouring blocks of entries p..q-1 and q..r-1 by three reversals. */
    method Exchange(p: nat, q: nat, r: nat)
      requires Valid() && 1 <= p <= q <= r <= dol + 1
      modifies cur
      ensures Lines() == Moved(old(Lines()), q - 1, r - 1, p - 1) == Moved(old(Lines()), p - 1, q - 1, r - 1)
    {
      hide Moved, Flipped;
      ExchangeLines(cur[..], p, q, r, dol);
      Reverse(p, q);
      Reverse(q, r);
      Reverse(p, r);
      assert Lines() == cur[..][1..dol + 1];
    }

    /** The part of move() behind the choice of the block: lines addr1 to addr2 go behind line adt.
        False is error 39. */
    method MoveBlock(addr1: nat, addr2: nat, adt: nat) returns (ok: bool)
      requires Valid() && 1 <= addr1 <= addr2 <= dol && adt <= dol
      modifies `dot, cur
      ensures Valid() && ok == !(addr1 <= adt <= addr2)
      ensures !ok ==> Lines() == old(Lines()) && dot == old(dot)
      ensures ok ==> Lines() == Moved(old(Lines()), addr1 - 1, addr2, adt)
      ensures ok ==> dot == (if adt < addr1 then adt + (addr2 + 1 - addr1) else adt) >= 1
      ensures ok ==> Lines()[dot - 1] == old(Lines()[addr2 - 1])
    {
      hide Moved, Lines;
      ghost var s := Lines();
      var ad1, ad2 := addr1, addr2 + 1;
      if adt < ad1 {
        dot := adt + (ad2 - ad1);
        LastOfMoved(s, addr1 - 1, addr2, adt);
        if adt + 1 == ad1 { return true; }
        Exchange(adt + 1, ad1, ad2);
        ok := true;
      } else if adt >= ad2 {
        dot := adt;
        LastOfMoved(s, addr1 - 1, addr2, adt);
        Exchange(ad1, ad2, adt + 1);
        ok := true;
      } else {
        ok := false;
      }
    }

    /** gdelete() */
    method GDelete()
      requires Valid() && dol >= 1
      modifies `dot, `dol, cur
      ensures Valid() && Lines() == Kept(old(Lines()))
      ensures var s, j := old(Lines()), LastMarked(old(Lines()));
        dot == Min(if j == -1 || j == FirstMarked(s) then old(dot) else 1 + |Kept(s[..j])|, dol)
    {
      hide Kept, LastMarked, FirstMarked;
      ghost var s := Lines();
      var a1 := 1;
      while cur[a1] % 2 == 0
        modifies {}
        invariant 1 <= a1 <= dol && forall k :: 0 <= k < a1 - 1 ==> s[k] % 2 == 0
        decreases dol - a1
      {
        if a1 >= dol {
          KeptAll(s);
          return;
        }
        a1 := a1 + 1;
      }
      Compact(a1);
    }

    /** The second loop of gdelete(), from the first marked line on. */
    method Compact(first: nat)
      requires Valid() && 1 <= first <= dol && cur[first] % 2 == 1
      requires forall k :: 0 <= k < first - 1 ==> Lines()[k] % 2 == 0
      modifies `dot, `dol, cur
      ensures Valid() && Lines() == Kept(old(Lines())) && LastMarked(old(Lines())) >= 0
      ensures var s, j := old(Lines()), LastMarked(old(Lines()));
        dot == Min(if j == FirstMarked(s) then old(dot) else 1 + |Kept(s[..Max0(j)])|, dol)
    {
      hide Scan, Kept, LastMarked, FirstMarked;
      ghost var s := Lines();
      var a1, a2, a3 := first, first + 1, dol;
      FirstKept(s, a1 - 1, dot);
      ghost var kept := s[..a1 - 1];
      while a2 <= a3
        modifies `dot, cur
        invariant a1 < a2 <= a3 + 1 && a1 == 1 + |kept| && Scan(s, a2 - 1, kept, old(dot), dot)
        invariant forall k :: 1 <= k < a1 ==> cur[k] == kept[k - 1]
        invariant forall k :: a2 <= k <= a3 ==> cur[k] == s[k - 1]
      {
        Scanned(s, a2 - 1, kept, old(dot), dot);
        if cur[a2] % 2 == 1 {
          a2 := a2 + 1;
          dot := a1;
        } else {
          kept := kept + [cur[a2]];
          cur[a1] := cur[a2];
          a1, a2 := a1 + 1, a2 + 1;
        }
      }
      ScanDone(s, kept, old(dot), dot);
      dol := a1 - 1;
      LinesAre(cur[..], kept);
      if dot > dol { dot := dol; }
    }
  }

  lemma SameSlice(c: seq<nat>, s: seq<nat>, i: nat, j: nat)
    requires i <= j <= |c| && j <= |s| && forall k :: i <= k < j ==> c[k] == s[k]
    ensures c[i..j] == s[i..j]
  {
    var a, b := c[i..j], s[i..j];
    forall k | 0 <= k < |a| ensures a[k] == b[k] {
      assert a[k] == c[i + k] && b[k] == s[i + k];
    }
  }

  lemma LinesAre(c: seq<nat>, s: seq<nat>)
    requires |s| < |c| && forall k :: 1 <= k <= |s| ==> c[k] == s[k - 1]
    ensures c[1..|s| + 1] == s
  {
    var a := c[1..|s| + 1];
    forall k | 0 <= k < |a| ensures a[k] == s[k] {
      assert a[k] == c[k + 1];
    }
  }

  /** What the loop of reverse() leaves. */
  lemma FlippedIs(c: seq<nat>, c': seq<nat>, from: nat, to: nat)
    requires from <= to <= |c| == |c'|
    requires forall k :: 0 <= k < |c| && !(from <= k < to) ==> c'[k] == c[k]
    requires forall k :: from <= k < to ==> c'[k] == c[from + to - 1 - k]
    ensures c' == Flipped(c, from, to)
  {
    var x := c[from..to];
    SameSlice(c', c, 0, from);
    SameSlice(c', c, to, |c|);
    var y, z := c'[from..to], Rev(x);
    forall k | 0 <= k < |y| ensures y[k] == z[k] {
      assert c'[from + k] == c[from + to - 1 - (from + k)];
      assert y[k] == c'[from + k] && z[k] == x[|x| - 1 - k] == c[from + (|x| - 1 - k)];
    }
    hide Rev;
    assert c'[..from] == c[..from] && c'[to..] == c[to..] by {
      assert c'[0..from] == c'[..from] && c[0..from] == c[..from];
      assert c'[to..|c|] == c'[to..] && c[to..|c|] == c[to..];
    }
    CutThree(c', from, to);
  }

  /** What the marking loop of global() leaves. */
  lemma SelectedIs(c: seq<nat>, c': seq<nat>, dol: nat, addr1: nat, addr2: nat, matches: nat -> bool)
    requires dol < |c| == |c'|
    requires forall k :: 0 <= k <= dol ==> c'[k] == WithMark(c[k], addr1 <= k <= addr2 && matches(k))
    ensures c'[1..dol + 1] == Selected(c[1..dol + 1], addr1, addr2, matches)
  {
    hide WithMark;
    var l, r := c'[1..dol + 1], Selected(c[1..dol + 1], addr1, addr2, matches);
    forall k | 0 <= k < dol ensures l[k] == r[k] {
      assert l[k] == c'[k + 1];
    }
  }

  /** What the shifting loop of append() leaves. */
  lemma InsertedIs(c: seq<nat>, c': seq<nat>, dot: nat, dol: nat, tl: nat)
    requires 1 <= dot <= dol < |c| == |c'| && c'[dot] == tl
    requires forall k :: 0 <= k < dot ==> c'[k] == c[k]
    requires forall k :: dot < k <= dol ==> c'[k] == c[k - 1]
    ensures c'[1..dol + 1] == c[1..dol][..dot - 1] + [tl] + c[1..dol][dot - 1..]
  {
  }

  /** What the shifting loop of rdelete() leaves. */
  lemma DeletedIs(c: seq<nat>, c': seq<nat>, ad1: nat, ad2: nat, dol: nat)
    requires 1 <= ad1 <= ad2 <= dol < |c| == |c'|
    requires forall k :: 0 <= k < ad1 ==> c'[k] == c[k]
    requires forall k :: ad1 <= k <= dol - (ad2 + 1 - ad1) ==> c'[k] == c[k + ad2 + 1 - ad1]
    ensures c'[1..dol - (ad2 + 1 - ad1) + 1] == Without(c[1..dol + 1], ad1 - 1, ad2)
  {
    var s, n := c[1..dol + 1], ad2 + 1 - ad1;
    var l, r := c'[1..dol - n + 1], Without(s, ad1 - 1, ad2);
    assert |l| == |r|;
    forall k | 0 <= k < |l| ensures l[k] == r[k] {
      assert l[k] == c'[k + 1];
      if k < ad1 - 1 {
        assert r[k] == s[k] == c[k + 1];
      } else {
        assert r[k] == s[k + n] == c[k + 1 + n];
      }
    }
  }

  /** The last line of a moved block. */
  lemma LastOfMoved(s: seq<nat>, lo: nat, hi: nat, to: nat)
    requires lo < hi <= |s| && to <= |s| && !(lo < to <= hi)
    ensures var d := if to <= lo then to + (hi - lo) else to;
      1 <= d <= |Moved(s, lo, hi, to)| == |s| && Moved(s, lo, hi, to)[d - 1] == s[hi - 1]
    ensures to == lo ==> Moved(s, lo, hi, to) == s
  {
    if to <= lo {
      SwapIsMove(s, to, lo, hi);
      assert to == lo ==> s[..to] + s[lo..hi] + s[to..lo] + s[hi..] == s;
    } else {
      SwapIsMove(s, lo, hi, to);
    }
  }

  /** Exchanging blocks of the array, seen from the lines. */
  lemma ExchangeLines(c: seq<nat>, p: nat, q: nat, r: nat, dol: nat)
    requires 1 <= p <= q <= r <= dol + 1 <= |c|
    ensures var s, t := c[1..dol + 1], Flipped(Flipped(Flipped(c, p, q), q, r), p, r);
      t[1..dol + 1] == Moved(s, q - 1, r - 1, p - 1) == Moved(s, p - 1, q - 1, r - 1)
  {
    hide Moved, Flipped;
    ThreeFlips(c, p, q, r);
    var s, t := c[1..dol + 1], Flipped(Flipped(Flipped(c, p, q), q, r), p, r);
    SwapIsMove(s, p - 1, q - 1, r - 1);
    InLines(c, p, q, r, dol);
  }

  lemma InLines(c: seq<nat>, p: nat, q: nat, r: nat, dol: nat)
    requires 1 <= p <= q <= r <= dol + 1 <= |c|
    ensures var s, t := c[1..dol + 1], c[..p] + c[q..r] + c[p..q] + c[r..];
      |t| == |c| && t[1..dol + 1] == s[..p - 1] + s[q - 1..r - 1] + s[p - 1..q - 1] + s[r - 1..]
  {
    Shift(c, dol + 1, 1, p);
    Shift(c, dol + 1, q, r);
    Shift(c, dol + 1, p, q);
    Shift(c, dol + 1, r, dol + 1);
  }

  lemma Shift(c: seq<nat>, n: nat, i: nat, j: nat)
    requires 1 <= i <= j <= n <= |c|
    ensures c[1..n][i - 1..j - 1] == c[i..j]
  {
    var l, r := c[1..n][i - 1..j - 1], c[i..j];
    forall k | 0 <= k < j - i ensures l[k] == r[k] {
      assert l[k] == c[1..n][i - 1 + k] == c[i + k];
    }
  }

  /** The compacting loop has kept `kept` of the first n entries, and dot is where it left it. */
  ghost predicate Scan(s: seq<nat>, n: nat, kept: seq<nat>, dot0: nat, dot: nat) {
    && FirstMarked(s) < n <= |s| && kept == Kept(s[..n])
    && dot == if LastMarked(s[..n]) == FirstMarked(s) then dot0 else 1 + |Kept(s[..Max0(LastMarked(s[..n]))])|
  }

  function Max0(j: int): nat { if j < 0 then 0 else j }

  lemma FirstKept(s: seq<nat>, f: nat, dot: nat)
    requires f < |s| && s[f] % 2 == 1 && forall k :: 0 <= k < f ==> s[k] % 2 == 0
    ensures Scan(s, f + 1, s[..f], dot, dot)
  {
    KeptAll(s[..f]);
    KeptNext(s, f);
  }

  lemma Scanned(s: seq<nat>, k: nat, kept: seq<nat>, dot0: nat, dot: nat)
    requires k < |s| && Scan(s, k, kept, dot0, dot)
    ensures s[k] % 2 == 1 ==> Scan(s, k + 1, kept, dot0, 1 + |kept|)
    ensures s[k] % 2 == 0 ==> Scan(s, k + 1, kept + [s[k]], dot0, dot)
  {
    KeptNext(s, k);
    assert s[..k + 1][..k] == s[..k];
  }

  lemma ScanDone(s: seq<nat>, kept: seq<nat>, dot0: nat, dot: nat)
    requires Scan(s, |s|, kept, dot0, dot)
    ensures kept == Kept(s) && LastMarked(s) >= 0
    ensures var j := LastMarked(s);
      dot == if j == FirstMarked(s) then dot0 else 1 + |Kept(s[..Max0(j)])|
  {
    assert s[..|s|] == s;
  }
}
