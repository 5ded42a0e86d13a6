/**
 global() of bin/ed.c.  The lines that match are marked first; then the table is scanned from the top
 for a marked line again and again, and the command list is run on each.
 */
module EdGlobal {
  import opened EdLines
  import opened EdTempFile
  import opened EdTable
  import opened EdTexts
  import opened EdEffects
  import opened EdEditor

  /** The mark of line a1 cleared. */
  lemma MarkTaken(s: seq<nat>, k: nat, store: map<nat, string>)
    requires k < |s| && s[k] % 2 == 1 && Stored(s, store)
    ensures Marked(Cleared(s, k, k + 1)) + multiset{s[k]} == Marked(s)
    ensures Stored(Cleared(s, k, k + 1), store)
    ensures Cleared(s, k, k + 1)[..k] + Cleared(s, k, k + 1)[k + 1..] == s[..k] + s[k + 1..]
  {
    OneCleared(s, k);
    OneMarked(s, k);
    hide Marked, Cleared;
    MarkedReplace(s, k, k + 1, [s[k] - 1]);
    ClearedLines(s, k, k + 1, store);
  }

  lemma OneCleared(s: seq<nat>, k: nat)
    requires k < |s| && s[k] % 2 == 1
    ensures Cleared(s, k, k + 1) == s[..k] + [s[k] - 1] + s[k + 1..]
    ensures Cleared(s, k, k + 1)[..k] == s[..k] && Cleared(s, k, k + 1)[k + 1..] == s[k + 1..]
  {
  }

  lemma OneMarked(s: seq<nat>, k: nat)
    requires k < |s| && s[k] % 2 == 1
    ensures Marked(s[k..k + 1]) == multiset{s[k]}
  {
    assert s[k..k + 1] == [s[k]] && [s[k]][1..] == [];
  }

  lemma SelectedStored(s: seq<nat>, addr1: nat, addr2: nat, matches: nat -> bool, store: map<nat, string>)
    requires Stored(s, store)
    ensures Stored(Selected(s, addr1, addr2, matches), store)
  {
    forall k | 0 <= k < |s| ensures Unmark(Selected(s, addr1, addr2, matches)[k]) in store {
      MarkIsFree(s[k], addr1 <= k + 1 <= addr2 && matches(k + 1));
    }
  }

  lemma MarkIsFree(tl: nat, mark: bool)
    ensures Unmark(WithMark(tl, mark)) == Unmark(tl)
    ensures WithMark(tl, mark) % 2 == 1 <==> mark
  {
  }

  /** How a run begins: the first marked line has lost its mark, and dot is there. */
  function Begun(v: View): View
    requires FirstMarked(v.lines) < |v.lines|
  {
    var k := FirstMarked(v.lines);
    v.(lines := v.lines[k := v.lines[k] - 1], dot := k + 1)
  }

  /** What the first i runs have left. */
  function Reached(runs: seq<Run>, i: nat, start: View): View
    requires i <= |runs|
  {
    if i == 0 then start else runs[i - 1].after
  }

  /** Run i is that of list i, on the first line that is marked when the runs before it are over. */
  ghost predicate RunAt(runs: seq<Run>, lists: seq<seq<Edit>>, start: View, i: nat)
    requires i < |runs| <= |lists|
  {
    var v := Reached(runs, i, start);
    && FirstMarked(v.lines) < |v.lines| && runs[i].before == Begun(v)
    && runs[i].list == lists[i] && DoneBy(lists[i], runs[i].before, runs[i].after, runs[i].ok)
    && Marked(runs[i].after.lines) <= Marked(runs[i].before.lines)
    && (i + 1 < |runs| ==> runs[i].ok)
  }

  /** From `start` to `now` by one run behind the other, up to the first that ends in an error. */
  ghost predicate Ran(runs: seq<Run>, lists: seq<seq<Edit>>, start: View, now: View, ok: bool) {
    && |runs| <= |lists| && now == Reached(runs, |runs|, start)
    && (forall i :: 0 <= i < |runs| ==> RunAt(runs, lists, start, i))
    && ok == (runs == [] || runs[|runs| - 1].ok)
  }

  /** The log has grown by such runs. */
  ghost predicate Logged(log: seq<Run>, log': seq<Run>, lists: seq<seq<Edit>>, start: View, now: View, ok: bool) {
    log <= log' && Ran(log'[|log|..], lists, start, now, ok)
  }

  lemma NoRun(log: seq<Run>, lists: seq<seq<Edit>>, v: View)
    ensures Logged(log, log, lists, v, v, true)
  {
  }

  lemma RunStays(runs: seq<Run>, r: Run, lists: seq<seq<Edit>>, start: View, i: nat)
    requires i < |runs| < |lists| && RunAt(runs, lists, start, i) && runs[|runs| - 1].ok
    ensures RunAt(runs + [r], lists, start, i)
  {
    hide FirstMarked, Begun, DoneBy, Marked;
    assert Reached(runs + [r], i, start) == Reached(runs, i, start);
  }

  lemma RunMore(runs: seq<Run>, lists: seq<seq<Edit>>, start: View, now: View, r: Run)
    requires Ran(runs, lists, start, now, true) && |runs| < |lists|
    requires FirstMarked(now.lines) < |now.lines| && r.before == Begun(now) && r.list == lists[|runs|]
    requires DoneBy(r.list, r.before, r.after, r.ok) && Marked(r.after.lines) <= Marked(r.before.lines)
    ensures Ran(runs + [r], lists, start, r.after, r.ok)
  {
    hide FirstMarked, Begun, DoneBy, Marked;
    assert RunAt(runs + [r], lists, start, |runs|) by {
      assert Reached(runs + [r], |runs|, start) == now;
    }
    hide RunAt;
    forall i | 0 <= i < |runs| ensures RunAt(runs + [r], lists, start, i) { RunStays(runs, r, lists, start, i); }
  }

  lemma LogMore(log: seq<Run>, log': seq<Run>, lists: seq<seq<Edit>>, start: View, now: View, r: Run)
    requires Logged(log, log', lists, start, now, true) && |log'| - |log| < |lists|
    requires FirstMarked(now.lines) < |now.lines| && r.before == Begun(now) && r.list == lists[|log'| - |log|]
    requires DoneBy(r.list, r.before, r.after, r.ok) && Marked(r.after.lines) <= Marked(r.before.lines)
    ensures Logged(log, log' + [r], lists, start, r.after, r.ok)
  {
    hide FirstMarked, Begun, DoneBy, Marked, Ran;
    RunMore(log'[|log|..], lists, start, now, r);
    assert (log' + [r])[|log|..] == log'[|log|..] + [r];
  }

  // ----- at most once and at least once -----

  /** The mark that a run has taken. */
  function TakenBy(r: Run): multiset<nat> {
    var v := r.before;
    if 1 <= v.dot <= |v.lines| then multiset{v.lines[v.dot - 1] + 1} else multiset{}
  }

  /** The marks that are gone after a run and were there when it began: of lines that its commands have deleted,
      joined, replaced or moved. */
  function LostBy(r: Run): multiset<nat> { Marked(r.before.lines) - Marked(r.after.lines) }

  function Taken(runs: seq<Run>): multiset<nat> {
    if runs == [] then multiset{} else Taken(runs[..|runs| - 1]) + TakenBy(runs[|runs| - 1])
  }

  function Lost(runs: seq<Run>): multiset<nat> {
    if runs == [] then multiset{} else Lost(runs[..|runs| - 1]) + LostBy(runs[|runs| - 1])
  }

  lemma RanBefore(runs: seq<Run>, lists: seq<seq<Edit>>, start: View, now: View, ok: bool)
    requires Ran(runs, lists, start, now, ok) && runs != []
    ensures var n := |runs| - 1; Ran(runs[..n], lists, start, Reached(runs, n, start), true)
  {
    hide FirstMarked, Begun, DoneBy, Marked;
    var n := |runs| - 1;
    forall i | 0 <= i < n ensures RunAt(runs[..n], lists, start, i) {
      assert RunAt(runs, lists, start, i) && Reached(runs[..n], i, start) == Reached(runs, i, start);
    }
    assert n > 0 ==> RunAt(runs, lists, start, n - 1);
  }

  /** A run takes the mark of its line and no other. */
  lemma OneAccounted(v: View, r: Run)
    requires FirstMarked(v.lines) < |v.lines| && r.before == Begun(v)
    requires Marked(r.after.lines) <= Marked(r.before.lines)
    ensures Marked(v.lines) == TakenBy(r) + LostBy(r) + Marked(r.after.lines)
    ensures TakenBy(r) == multiset{v.lines[FirstMarked(v.lines)]} && |TakenBy(r)| == 1
  {
    hide Marked;
    var k := FirstMarked(v.lines);
    MarkAt(v.lines, k);
    hide FirstMarked;
    assert TakenBy(r) == multiset{v.lines[k]};
    AddedBack(TakenBy(r), Marked(r.before.lines), Marked(r.after.lines));
  }

  lemma MarkAt(s: seq<nat>, k: nat)
    requires k < |s| && s[k] % 2 == 1
    ensures Marked(s) == multiset{s[k]} + Marked(s[k := s[k] - 1])
  {
    OneMarked(s, k);
    hide Marked;
    MarkedReplace(s, k, k + 1, [s[k] - 1]);
    assert s[k := s[k] - 1] == s[..k] + [s[k] - 1] + s[k + 1..];
  }

  lemma AddedBack(a: multiset<nat>, b: multiset<nat>, c: multiset<nat>)
    requires c <= b
    ensures a + b == a + (b - c) + c
  {
  }

  /** Every mark there was at the start is taken by a run of its own, or lost in the run of another line, or is
      there still. */
  lemma {:induction false} MarksAccounted(runs: seq<Run>, lists: seq<seq<Edit>>, start: View, now: View, ok: bool)
    requires Ran(runs, lists, start, now, ok)
    ensures Marked(start.lines) == Taken(runs) + Lost(runs) + Marked(now.lines)
    ensures |Taken(runs)| == |runs|
  {
    hide Marked, FirstMarked, Begun, DoneBy, TakenBy, LostBy;
    if runs != [] {
      var n := |runs| - 1;
      var v, r := Reached(runs, n, start), runs[n];
      assert RunAt(runs, lists, start, n);
      RanBefore(runs, lists, start, now, ok);
      MarksAccounted(runs[..n], lists, start, v, true);
      OneAccounted(v, r);
      assert now == r.after;
    }
  }

  /** When no mark is left, there have been as many runs as marks exactly if no run lost one; and then the lines
      with a run are those marked at the start, each once. */
  lemma RunsAsMarks(runs: seq<Run>, lists: seq<seq<Edit>>, start: View, now: View)
    requires Ran(runs, lists, start, now, true) && Marked(now.lines) == multiset{}
    ensures |runs| == |Marked(start.lines)| <==> Lost(runs) == multiset{}
    ensures Lost(runs) == multiset{} ==> Taken(runs) == Marked(start.lines)
  {
    hide Marked, Ran, Lost, Taken;
    MarksAccounted(runs, lists, start, now, true);
    assert |Taken(runs) + Lost(runs)| == |Taken(runs)| + |Lost(runs)|;
  }

  /** Nothing is lost by runs whose commands take no marked line away, change none and move none. */
  lemma {:induction false} NothingLost(runs: seq<Run>, lists: seq<seq<Edit>>, start: View, now: View, ok: bool)
    requires Ran(runs, lists, start, now, ok)
    requires forall i :: 0 <= i < |runs| ==> Sparing(lists[i], runs[i].before)
    ensures Lost(runs) == multiset{}
  {
    hide Marked, FirstMarked, Begun, DoneBy, Sparing;
    if runs != [] {
      var n := |runs| - 1;
      RanBefore(runs, lists, start, now, ok);
      NothingLost(runs[..n], lists, start, Reached(runs, n, start), true);
      assert RunAt(runs, lists, start, n);
      SparingLosesNone(lists[n], runs[n].before, runs[n].after, runs[n].ok);
    }
  }

  /** Wherever its commands come to be executed, they spare the marked lines. */
  ghost predicate Sparing(list: seq<Edit>, v: View) {
    forall k, w :: 0 <= k < |list| && Chain(list[..k], v, w) ==> SparesMarks(list[k], w)
  }

  lemma SparingLosesNone(list: seq<Edit>, v: View, v': View, ok: bool)
    requires DoneBy(list, v, v', ok) && Sparing(list, v)
    ensures Marked(v'.lines) == Marked(v.lines)
  {
    hide Marked, DoneBy, Chain, SparesMarks;
    ListSparesMarks(list, v, v', ok);
  }

  // ----- the program -----

  /** The lines before a1 are unmarked. */
  ghost predicate UnmarkedBefore(s: seq<nat>, a1: nat) { forall k :: 0 <= k < a1 - 1 && k < |s| ==> s[k] % 2 == 0 }

  lemma FirstIs(s: seq<nat>, a1: nat)
    requires 1 <= a1 <= |s| && s[a1 - 1] % 2 == 1 && UnmarkedBefore(s, a1)
    ensures FirstMarked(s) == a1 - 1
  {
  }

  lemma UnmarkedFirst(s: seq<nat>)
    ensures UnmarkedBefore(s, 0)
  {
  }

  lemma UnmarkedNext(s: seq<nat>, a1: nat)
    requires UnmarkedBefore(s, a1) && (1 <= a1 <= |s| ==> s[a1 - 1] % 2 == 0)
    ensures UnmarkedBefore(s, a1 + 1)
  {
  }

  lemma UnmarkedAll(s: seq<nat>, a1: nat)
    requires UnmarkedBefore(s, a1) && a1 > |s|
    ensures Marked(s) == multiset{} && Kept(s) == s
  {
    assert forall k :: 0 <= k < |s| ==> s[k] % 2 == 0;
    NoneMarked(s);
    KeptAll(s);
  }

  lemma FewerMarks(s: multiset<nat>, x: nat, s': multiset<nat>)
    requires s' + multiset{x} <= s
    ensures |s'| < |s|
  {
    assert s == s' + multiset{x} + (s - s' - multiset{x});
  }

  /** The mark of line a1, which is the first marked one, is cleared, and dot is set to it. */
  method TakeMark(ed: Editor, a1: nat)
    requires ed.Valid() && 1 <= a1 <= ed.table.dol && ed.table.cur[a1] % 2 == 1
    requires FirstMarked(ed.table.Lines()) == a1 - 1
    modifies ed.table`dot, ed.table.cur
    ensures ed.Valid() && ed.View() == Begun(old(ed.View()))
    ensures Marked(ed.table.Lines()) + multiset{old(ed.table.cur[a1])} == old(Marked(ed.table.Lines()))
  {
    hide TempFile.Valid, Marked, Stored, FirstMarked;
    MarkTaken(ed.table.Lines(), a1 - 1, ed.file.store);
    OneCleared(ed.table.Lines(), a1 - 1);
    hide Cleared;
    ed.table.Unmark(a1, a1);
    ed.table.dot := a1;
  }

  /** One run of the command list, on the marked line a1, which is the first. */
  method RunOn(ed: Editor, a1: nat, list: seq<Edit>) returns (ok: bool)
    requires ed.Valid() && 1 <= a1 <= ed.table.dol && ed.table.cur[a1] % 2 == 1
    requires FirstMarked(ed.table.Lines()) == a1 - 1
    modifies ed.table`dot, ed.table`dol, ed.table`endcore, ed.table.cur, ed.table.names, ed`log
    modifies ed.file`iblock, ed.file`oblock, ed.file`ichanged, ed.file`disk, ed.file`mem, ed.file`store, ed.file`tline
    modifies ed.file.ibuff, ed.file.obuff
    ensures ed.Valid() && Grows(old(ed.file.store), ed.file.store)
    ensures var v, v' := Begun(old(ed.View())), ed.View();
      && ed.log == old(ed.log) + [Run(v, list, v', ok)]
      && DoneBy(list, v, v', ok) && Marked(v'.lines) <= Marked(v.lines)
    ensures Marked(ed.table.Lines()) + multiset{old(ed.table.cur[a1])} <= old(Marked(ed.table.Lines()))
  {
    hide TempFile.Valid, Marked, Stored, Grows, FirstMarked, DoneBy, Begun;
    TakeMark(ed, a1);
    ok := ed.DoAll(list);
  }

  /** The next run, with those before it. */
  method NextRun(ed: Editor, a1: nat, lists: seq<seq<Edit>>, n: nat, ghost log: seq<Run>, ghost start: View)
    returns (ok: bool)
    requires ed.Valid() && 1 <= a1 <= ed.table.dol && ed.table.cur[a1] % 2 == 1
    requires UnmarkedBefore(ed.table.Lines(), a1)
    requires n < |lists| && Logged(log, ed.log, lists, start, ed.View(), true) && |ed.log| == |log| + n
    modifies ed.table`dot, ed.table`dol, ed.table`endcore, ed.table.cur, ed.table.names, ed`log
    modifies ed.file`iblock, ed.file`oblock, ed.file`ichanged, ed.file`disk, ed.file`mem, ed.file`store, ed.file`tline
    modifies ed.file.ibuff, ed.file.obuff
    ensures ed.Valid() && Grows(old(ed.file.store), ed.file.store)
    ensures Logged(log, ed.log, lists, start, ed.View(), ok) && |ed.log| == |log| + n + 1
    ensures |Marked(ed.table.Lines())| < |old(Marked(ed.table.Lines()))|
  {
    hide TempFile.Valid, Marked, Stored, Grows, Logged, DoneBy, Begun, FirstMarked, UnmarkedBefore;
    assert ed.table.Lines()[a1 - 1] == ed.table.cur[a1];
    FirstIs(ed.table.Lines(), a1);
    ghost var v, log', s := ed.View(), ed.log, Marked(ed.table.Lines());
    ok := RunOn(ed, a1, lists[n]);
    LogMore(log, log', lists, start, v, ed.log[|log'|]);
    FewerMarks(s, old(ed.table.cur[a1]), Marked(ed.table.Lines()));
  }

  /** The scan; `lists` gives the commands of each run, whatever they depend on: no more are needed than there
      are marks.  False is an error in the command list; `n` is the number of runs. */
  method Scan(ed: Editor, lists: seq<seq<Edit>>) returns (ok: bool, n: nat)
    requires ed.Valid() && ed.table.cur[0] % 2 == 0 && |lists| >= |Marked(ed.table.Lines())|
    modifies ed.table`dot, ed.table`dol, ed.table`endcore, ed.table.cur, ed.table.names, ed`log
    modifies ed.file`iblock, ed.file`oblock, ed.file`ichanged, ed.file`disk, ed.file`mem, ed.file`store, ed.file`tline
    modifies ed.file.ibuff, ed.file.obuff
    ensures ed.Valid() && Grows(old(ed.file.store), ed.file.store)
    ensures Logged(old(ed.log), ed.log, lists, old(ed.View()), ed.View(), ok)
    ensures n == |ed.log| - |old(ed.log)| <= |old(Marked(ed.table.Lines()))|
    ensures ok ==> Marked(ed.table.Lines()) == multiset{}
  {
    hide TempFile.Valid, Marked, Stored, Grows, Logged, UnmarkedBefore;
    ghost var all, start := Marked(ed.table.Lines()), ed.View();
    GrowsFirst(ed.file.store);
    NoRun(ed.log, lists, start);
    var a1 := 0;
    UnmarkedFirst(ed.table.Lines());
    n := 0;
    while a1 <= ed.table.dol
      modifies ed.table`dot, ed.table`dol, ed.table`endcore, ed.table.cur, ed.table.names, ed`log
      modifies ed.file`iblock, ed.file`oblock, ed.file`ichanged, ed.file`disk, ed.file`mem, ed.file`store, ed.file`tline
      modifies ed.file.ibuff, ed.file.obuff
      invariant ed.Valid() && Grows(old(ed.file.store), ed.file.store)
      invariant Logged(old(ed.log), ed.log, lists, start, ed.View(), true) && |ed.log| == |old(ed.log)| + n
      invariant n + |Marked(ed.table.Lines())| <= |all|
      invariant a1 == 0 ==> ed.table.cur[0] % 2 == 0
      invariant UnmarkedBefore(ed.table.Lines(), a1)
      decreases |Marked(ed.table.Lines())|, ed.table.dol + 1 - a1
    {
      assert a1 > 0 ==> ed.table.Lines()[a1 - 1] == ed.table.cur[a1];
      if ed.table.cur[a1] % 2 == 1 {
        ghost var store := ed.file.store;
        SomeMarked(ed.table.Lines(), a1 - 1);
        ok := NextRun(ed, a1, lists, n, old(ed.log), start);
        GrowsOn(old(ed.file.store), store, ed.file.store);
        n := n + 1;
        if !ok { return; }
        a1 := 0;
        UnmarkedFirst(ed.table.Lines());
      }
      UnmarkedNext(ed.table.Lines(), a1);
      a1 := a1 + 1;
    }
    UnmarkedAll(ed.table.Lines(), a1);
    ok := true;
  }

  lemma SomeMarked(s: seq<nat>, k: nat)
    requires k < |s| && s[k] % 2 == 1
    ensures |Marked(s)| > 0
  {
    MarkedAre(s, s[k]);
    hide Marked;
    assert Marked(s) == multiset{s[k]} + (Marked(s) - multiset{s[k]});
  }

  /** What there is to run on: the view with exactly the addressed lines that match marked. */
  ghost function Matching(v: View, addr1: nat, addr2: nat, matches: nat -> bool): View {
    v.(lines := Selected(v.lines, addr1, addr2, matches))
  }

  /** global(): terminates whatever the commands do; the runs are those of the scan, from the view in which the
      lines that match are marked; what `undo` would bring back is the buffer from before all of it. */
  method Global(ed: Editor, addr1: nat, addr2: nat, matches: nat -> bool, lists: seq<seq<Edit>>)
    returns (ok: bool, n: nat)
    requires ed.Valid() && 1 <= addr1 <= addr2 <= ed.table.dol
    requires |lists| >= |Marked(Selected(ed.table.Lines(), addr1, addr2, matches))|
    modifies ed.table`dot, ed.table`dol, ed.table`endcore, ed.table.cur, ed.table.names, ed`log
    modifies ed.file`iblock, ed.file`oblock, ed.file`ichanged, ed.file`disk, ed.file`mem, ed.file`store, ed.file`tline
    modifies ed.file.ibuff, ed.file.obuff
    modifies ed.table`savdot, ed.table`savdol, ed.table.sav, ed.table.savnames
    ensures ed.Valid() && Grows(old(ed.file.store), ed.file.store)
    ensures Logged(old(ed.log), ed.log, lists, old(Matching(ed.View(), addr1, addr2, matches)), ed.View(), ok)
    ensures n == |ed.log| - |old(ed.log)| <= |Marked(Selected(old(ed.table.Lines()), addr1, addr2, matches))|
    ensures ok ==> Marked(ed.table.Lines()) == multiset{}
    ensures ed.table.Saved() == old(ed.table.Lines()) && ed.table.savdot == old(ed.table.dot)
    ensures ed.table.savnames[..] == old(ed.table.names[..])
  {
    hide TempFile.Valid, Marked, Stored, Grows, Selected, Logged;
    SelectedStored(ed.table.Lines(), addr1, addr2, matches, ed.file.store);
    ed.table.Save();
    ed.table.MarkLines(addr1, addr2, matches);
    assert ed.View() == old(Matching(ed.View(), addr1, addr2, matches));
    ok, n := Scan(ed, lists);
  }

  ghost predicate Match(k: nat, addr1: nat, addr2: nat, matches: nat -> bool) { addr1 <= k <= addr2 && matches(k) }

  /** There are as many marks as lines that match. */
  lemma {:induction false} MarkedMatching(s: seq<nat>, addr1: nat, addr2: nat, matches: nat -> bool)
    ensures |Marked(Selected(s, addr1, addr2, matches))|
      == |set k: nat | 1 <= k <= |s| && Match(k, addr1, addr2, matches)|
  {
    if s != [] {
      var n := |s| - 1;
      var mark := Match(n + 1, addr1, addr2, matches);
      MarkedMatching(s[..n], addr1, addr2, matches);
      SelectedNext(s, addr1, addr2, matches);
      MarkIsFree(s[n], mark);
      OneSelected(WithMark(s[n], mark));
      hide Selected, WithMark, Marked, Match;
      MarkedConcat(Selected(s[..n], addr1, addr2, matches), [WithMark(s[n], mark)]);
      OneMatches(n, addr1, addr2, matches);
    }
  }

  lemma OneSelected(x: nat)
    ensures |Marked([x])| == if x % 2 == 1 then 1 else 0
  {
    assert [x][1..] == [];
  }

  lemma OneMatches(n: nat, addr1: nat, addr2: nat, matches: nat -> bool)
    ensures |set k: nat | 1 <= k <= n + 1 && Match(k, addr1, addr2, matches)|
      == |set k: nat | 1 <= k <= n && Match(k, addr1, addr2, matches)|
       + if Match(n + 1, addr1, addr2, matches) then 1 else 0
  {
    hide Match;
    var a := set k: nat | 1 <= k <= n && Match(k, addr1, addr2, matches);
    assert (set k: nat | 1 <= k <= n + 1 && Match(k, addr1, addr2, matches))
      == if Match(n + 1, addr1, addr2, matches) then a + {n + 1} else a;
  }

  /** A run of the command list `d`. */
  method DeleteOn(ed: Editor, a1: nat)
    requires ed.Valid() && 1 <= a1 <= ed.table.dol && ed.table.cur[a1] % 2 == 1
    modifies ed.table`dot, ed.table`dol, ed.table.cur
    ensures ed.Valid() && Kept(ed.table.Lines()) == Kept(old(ed.table.Lines())) && ed.table.dol == old(ed.table.dol) - 1
  {
    hide TempFile.Valid, Marked, Stored, Cleared, Kept;
    MarkTaken(ed.table.Lines(), a1 - 1, ed.file.store);
    KeptWithout(ed.table.Lines(), a1 - 1);
    ed.table.Unmark(a1, a1);
    ed.table.dot := a1;
    ed.DeleteLines(a1, a1);
  }

  /** The scan with the command list `d`. */
  method ScanDelete(ed: Editor)
    requires ed.Valid() && ed.table.cur[0] % 2 == 0
    modifies ed.table`dot, ed.table`dol, ed.table.cur
    ensures ed.Valid() && ed.table.Lines() == Kept(old(ed.table.Lines()))
  {
    hide TempFile.Valid, Marked, Stored, Cleared, Without, Kept, UnmarkedBefore;
    ghost var s := ed.table.Lines();
    var a1 := 0;
    UnmarkedFirst(ed.table.Lines());
    while a1 <= ed.table.dol
      modifies ed.table`dot, ed.table`dol, ed.table.cur
      invariant ed.Valid() && Kept(ed.table.Lines()) == Kept(s)
      invariant a1 == 0 ==> ed.table.cur[0] % 2 == 0
      invariant UnmarkedBefore(ed.table.Lines(), a1)
      decreases ed.table.dol, ed.table.dol + 1 - a1
    {
      assert a1 > 0 ==> ed.table.Lines()[a1 - 1] == ed.table.cur[a1];
      if ed.table.cur[a1] % 2 == 1 {
        DeleteOn(ed, a1);
        a1 := 0;
        UnmarkedFirst(ed.table.Lines());
      }
      UnmarkedNext(ed.table.Lines(), a1);
      a1 := a1 + 1;
    }
    UnmarkedAll(ed.table.Lines(), a1);
  }

  /** The special case g/.../d leaves the lines that the general scan would leave. */
  method GlobalDelete(ed: Editor, addr1: nat, addr2: nat, matches: nat -> bool, fast: bool)
    requires ed.Valid() && 1 <= addr1 <= addr2 <= ed.table.dol
    modifies ed.table`dot, ed.table`dol, ed.table.cur, ed.table`savdot, ed.table`savdol, ed.table.sav, ed.table.savnames
    ensures ed.Valid() && ed.table.Lines() == Unmatched(old(ed.table.Lines()), addr1, addr2, matches)
    ensures ed.table.Saved() == old(ed.table.Lines())
  {
    hide TempFile.Valid, Marked, Stored, Selected, Kept, Unmatched;
    hide LastMarked, FirstMarked;
    ghost var s := ed.table.Lines();
    SelectedStored(s, addr1, addr2, matches, ed.file.store);
    KeptStored(Selected(s, addr1, addr2, matches), ed.file.store);
    KeptSelected(s, addr1, addr2, matches);
    ed.table.Save();
    ed.table.MarkLines(addr1, addr2, matches);
    if fast { ed.table.GDelete(); } else { ScanDelete(ed); }
  }

  /** The addresses, without their marks, of the lines that do not match or are not addressed. */
  function Unmatched(s: seq<nat>, addr1: nat, addr2: nat, matches: nat -> bool): seq<nat> {
    if s == [] then []
    else
      var n := |s| - 1;
      Unmatched(s[..n], addr1, addr2, matches)
      + if addr1 <= n + 1 <= addr2 && matches(n + 1) then [] else [s[n] - s[n] % 2]
  }

  lemma {:induction false} KeptSelected(s: seq<nat>, addr1: nat, addr2: nat, matches: nat -> bool)
    ensures Kept(Selected(s, addr1, addr2, matches)) == Unmatched(s, addr1, addr2, matches)
  {
    if s != [] {
      var n := |s| - 1;
      var mark := addr1 <= n + 1 <= addr2 && matches(n + 1);
      KeptSelected(s[..n], addr1, addr2, matches);
      SelectedNext(s, addr1, addr2, matches);
      hide Selected, WithMark, Kept;
      KeptConcat(Selected(s[..n], addr1, addr2, matches), [WithMark(s[n], mark)]);
      KeptOne(s[n], mark);
    }
  }

  lemma SelectedNext(s: seq<nat>, addr1: nat, addr2: nat, matches: nat -> bool)
    requires s != []
    ensures var n := |s| - 1;
      var last := WithMark(s[n], addr1 <= n + 1 <= addr2 && matches(n + 1));
      Selected(s, addr1, addr2, matches) == Selected(s[..n], addr1, addr2, matches) + [last]
  {
    hide WithMark;
  }

  lemma KeptOne(tl: nat, mark: bool)
    ensures Kept([WithMark(tl, mark)]) == if mark then [] else [tl - tl % 2]
  {
    MarkIsFree(tl, mark);
    assert [WithMark(tl, mark)][1..] == [];
  }

  lemma {:induction false} KeptStored(s: seq<nat>, store: map<nat, string>)
    requires Stored(s, store)
    ensures Stored(Kept(s), store)
  {
    if s != [] { KeptStored(s[1..], store); }
  }
}
