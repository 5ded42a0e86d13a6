/**
 dodirtimes() of bin/tar.c: the times of directories are set late, when nothing more comes into them.  The
 directories that wait are the prefixes of one path; mtime[k] is the time of its k-th '/', and a negative
 time means none.
 */
module TarDirs {
  import opened Wrappers
  import opened TarHeader

  const NTIM := NAMSIZ / 2 + 1

  /** The last time recorded for, or given to, a directory. */
  function Last(calls: seq<(string, int)>, name: string): Option<int> {
    if calls == [] then None
    else if calls[|calls| - 1].0 == name then Some(calls[|calls| - 1].1)
    else Last(calls[..|calls| - 1], name)
  }

  function Slashes(s: string): (n: nat)
    ensures n <= |s|
  {
    if s == [] then 0 else Slashes(s[..|s| - 1]) + if s[|s| - 1] == '/' then 1 else 0
  }

  lemma {:induction false} SlashesMonotone(s: string, i: nat)
    requires i <= |s|
    ensures Slashes(s[..i]) <= Slashes(s)
  {
    if i < |s| {
      SlashesMonotone(s[..|s| - 1], i);
      assert s[..|s| - 1][..i] == s[..i];
    } else {
      assert s[..i] == s;
    }
  }

  lemma SlashesNext(s: string, i: nat)
    requires i < |s|
    ensures Slashes(s[..i + 1]) == Slashes(s[..i]) + if s[i] == '/' then 1 else 0
  {
    assert s[..i + 1][..i] == s[..i];
  }

  /** Without two slashes in a row, a name that fits its field fits the table. */
  lemma {:induction false} SlashesFit(s: string)
    requires forall i :: 0 <= i < |s| - 1 ==> !(s[i] == '/' && s[i + 1] == '/')
    ensures 2 * Slashes(s) <= |s| + if s != [] && s[|s| - 1] == '/' then 1 else 0
  {
    if s != [] {
      var r := s[..|s| - 1];
      SlashesFit(r);
      if |r| > 0 { assert r[|r| - 1] == s[|s| - 2]; }
    }
  }

  /** Directory d waits on the stack, to get its time. */
  predicate Waits(stack: string, mtime: seq<int>, d: string)
    requires |mtime| == NTIM && Slashes(stack) < NTIM
  {
    d + "/" <= stack && Time(stack, mtime, d) >= 0
  }

  /** The time on the stack of one of its directories. */
  function Time(stack: string, mtime: seq<int>, d: string): int
    requires |mtime| == NTIM && Slashes(stack) < NTIM && d + "/" <= stack
  {
    SlashesMonotone(stack, |d| + 1);
    assert stack[..|d| + 1] == d + "/";
    mtime[Slashes(d + "/")]
  }

  /** The directory whose slash is at i. */
  lemma DirAt(stack: string, mtime: seq<int>, i: nat)
    requires |mtime| == NTIM && Slashes(stack) < NTIM && i < |stack| && stack[i] == '/'
    ensures stack[..i] + "/" <= stack && Slashes(stack[..i + 1]) < NTIM
    ensures Time(stack, mtime, stack[..i]) == mtime[Slashes(stack[..i + 1])]
  {
    hide Slashes;
    SlashesMonotone(stack, i + 1);
    WithSlash(stack, i);
  }

  lemma WithSlash(stack: string, i: nat)
    requires i < |stack| && stack[i] == '/'
    ensures stack[..i] + "/" == stack[..i + 1] && stack[..i] + "/" <= stack
  {
  }

  /** Directory d has been given time t in these calls of utimes(). */
  predicate IsSet(sets: seq<(string, int)>, d: string, t: int) { exists k :: 0 <= k < |sets| && sets[k] == (d, t) }

  class DirTimes {
    const dirstack: array<char>
    const mtime: array<int>
    var sets: seq<(string, int)>
    ghost var stack: string

    ghost predicate Valid()
      reads this, dirstack, mtime
    {
      && dirstack.Length == NAMSIZ && mtime.Length == NTIM
      && |stack| < NAMSIZ && NUL !in stack && Slashes(stack) < NTIM
      && dirstack[..|stack|] == stack && dirstack[|stack|] == NUL
    }

    constructor ()
      ensures Valid() && stack == [] && sets == [] && fresh(dirstack) && fresh(mtime)
    {
      dirstack, mtime := new char[NAMSIZ](_ => NUL), new int[NTIM](_ => 0);
      sets, stack := [], [];
    }

    /** The length of the common prefix, and the slashes in it. */
    method Common(name: string) returns (p: nat, ndir: nat)
      requires Valid() && NUL !in name
      ensures p <= |stack| && p <= |name| && name[..p] == stack[..p] && ndir == Slashes(stack[..p])
      ensures p < |stack| && p < |name| ==> stack[p] != name[p]
    {
      p, ndir := 0, 0;
      while dirstack[p] == At(name, p) && dirstack[p] != NUL
        invariant p <= |stack| && p <= |name| && name[..p] == stack[..p] && ndir == Slashes(stack[..p])
        decreases |stack| - p
      {
        assert p < |stack| && dirstack[p] == stack[p];
        assert p < |name|;
        SlashesNext(stack, p);
        if dirstack[p] == '/' { ndir := ndir + 1; }
        assert name[..p + 1] == name[..p] + [name[p]] && stack[..p + 1] == stack[..p] + [stack[p]];
        p := p + 1;
      }
      if p < |stack| { assert stack[p] == dirstack[p] && stack[p] in stack; }
      if p < |name| { assert name[p] in name; }
    }

    /** The unwinding loop: every directory that waits behind the common prefix gets its time. */
    method Unwind(p0: nat, ndir0: nat) returns (ghost now: seq<(string, int)>)
      requires Valid() && p0 <= |stack| && ndir0 == Slashes(stack[..p0])
      modifies dirstack, `sets
      ensures Valid() && sets == old(sets) + now
      ensures forall d, t :: IsSet(now, d, t) <==>
        Waits(stack, mtime[..], d) && |d| >= p0 && t == Time(stack, mtime[..], d)
      ensures forall k, l :: 0 <= k < l < |now| ==> now[k].0 != now[l].0
    {
      hide IsSet, Slashes, SetSoFar, Waits, Time;
      var p, ndir := p0, ndir0;
      now := [];
      SetStart(stack, mtime[..], p0);
      while dirstack[p] != NUL
        invariant Valid() && p0 <= p <= |stack| && ndir == Slashes(stack[..p]) && sets == old(sets) + now
        invariant SetSoFar(stack, mtime[..], p0, p, now)
        decreases |stack| - p
      {
        AtEnd(dirstack[..], stack, p);
        SlashesNext(stack, p);
        p := p + 1;
        if dirstack[p - 1] == '/' {
          ndir := ndir + 1;
          DirAt(stack, mtime[..], p - 1);
          SetMore(stack, mtime[..], p0, p - 1, now);
          if mtime[ndir] >= 0 {
            SetTime(p - 1, mtime[ndir]);
            now := now + [(stack[..p - 1], mtime[ndir])];
          }
        } else {
          SetNone(stack, mtime[..], p0, p - 1, now);
        }
      }
      AtEnd(dirstack[..], stack, p);
      SetEnd(stack, mtime[..], p0, now);
    }

    /** setimes() for the directory whose slash is at p, which is zapped meanwhile. */
    method SetTime(p: nat, t: int)
      requires Valid() && p < |stack| && stack[p] == '/'
      modifies dirstack, `sets
      ensures Valid() && sets == old(sets) + [(stack[..p], t)]
    {
      ghost var all := dirstack[..|stack|];
      dirstack[p] := NUL;
      Cut(dirstack[..], stack, p);
      sets := sets + [(CString(dirstack[..]), t)];
      dirstack[p] := '/';
      assert dirstack[..|stack|] == all;
    }

    /** The pushing loop, and the time of the new directory. */
    method Push(name: string, t: int, p0: nat, ndir0: nat)
      requires Valid() && NUL !in name && |name| < NAMSIZ && Slashes(name) < NTIM
      requires p0 <= |stack| && p0 <= |name| && name[..p0] == stack[..p0] && ndir0 == Slashes(name[..p0])
      modifies dirstack, mtime, `stack
      ensures Valid() && stack == name
      ensures mtime[Slashes(name)] == t
      ensures forall k :: 0 <= k < NTIM && k != Slashes(name) ==>
        mtime[k] == if Slashes(name[..p0]) < k < Slashes(name) then -1 else old(mtime[k])
    {
      hide Slashes;
      var p, ndir := p0, ndir0;
      assert dirstack[..p0] == dirstack[..|stack|][..p0];
      SlashesMonotone(name, p0);
      while p < |name|
        modifies dirstack, mtime
        invariant p0 <= p <= |name| && ndir == Slashes(name[..p]) && dirstack[..p] == name[..p]
        invariant ndir0 <= ndir < NTIM
        invariant forall k :: 0 <= k < NTIM ==> mtime[k] == if ndir0 < k <= ndir then -1 else old(mtime[k])
      {
        dirstack[p] := name[p];
        SlashesNext(name, p);
        SlashesMonotone(name, p + 1);
        assert name[..p + 1] == name[..p] + [name[p]];
        assert dirstack[..p + 1] == dirstack[..p] + [name[p]];
        p := p + 1;
        if dirstack[p - 1] == '/' {
          ndir := ndir + 1;
          mtime[ndir] := -1;
        }
      }
      dirstack[p] := NUL;
      mtime[ndir] := t;
      assert name[..p] == name;
      stack := name;
    }

    /** dodirtimes() */
    method DoDirTimes(name: string, t: int) returns (ghost now: seq<(string, int)>)
      requires Valid() && NUL !in name && |name| < NAMSIZ && Slashes(name) < NTIM
      requires name == [] || name[|name| - 1] == '/'
      modifies dirstack, mtime, `stack, `sets
      ensures Valid() && stack == name && sets == old(sets) + now
      ensures Flushed(old(stack), old(mtime[..]), name, now)
      ensures Recorded(old(stack), old(mtime[..]), name, t, mtime[..])
    {
      hide Slashes, Waits, Time, Flushed, Recorded;
      var p, ndir := Common(name);
      now := Unwind(p, ndir);
      FlushedIs(stack, mtime[..], name, p, now);
      Push(name, t, p, ndir);
      RecordedIs(old(stack), old(mtime[..]), name, t, p, mtime[..]);
    }

    /** All directories of a tape, and the final call.  In the end a directory has, as the last time it was
        given, the last time that was recorded for it, if and only if that is not negative; nothing else has
        been given a time. */
    method Run(calls: seq<(string, int)>, t: int)
      requires Valid() && stack == [] && sets == []
      requires forall n :: 0 <= n < |calls| ==> NameOk(calls[n].0)
      modifies dirstack, mtime, `stack, `sets
      ensures forall d :: Last(calls, d + "/").Some? ==>
        (Last(sets, d) == Last(calls, d + "/") <==> Last(calls, d + "/").value >= 0)
      ensures forall d :: Last(calls, d + "/").None? ==> Last(sets, d).None?
    {
      hide Slashes, Waits, Flushed, Recorded, History, Last, TimesOk;
      HistoryStart(stack, mtime[..], sets);
      TimesNone();
      assert calls[..0] == [];
      for n := 0 to |calls|
        invariant Valid() && History(stack, mtime[..], sets, calls[..n]) && TimesOk(sets)
      {
        ghost var stack0, mtime0, sets0 := stack, mtime[..], sets;
        ghost var now := DoDirTimes(calls[n].0, calls[n].1);
        HistoryStep(stack0, mtime0, sets0, calls, n, now, mtime[..]);
        TimesMore(stack0, mtime0, calls[n].0, sets0, now);
      }
      assert calls[..|calls|] == calls;
      ghost var stack0, mtime0, sets0 := stack, mtime[..], sets;
      assert Slashes([]) == 0 by { SlashesNone(); }
      ghost var now := DoDirTimes([], t);
      HistoryEnd(stack0, mtime0, sets0, calls, now);
      TimesMore(stack0, mtime0, [], sets0, now);
      LastTimes(sets);
    }
  }

  /** A directory's name as it stands on the tape, short enough and without slashes in a row. */
  predicate NameOk(name: string) {
    name != [] && name[|name| - 1] == '/' && NUL !in name && |name| < NAMSIZ && Slashes(name) < NTIM
  }

  lemma SlashesNone()
    ensures Slashes([]) == 0
  {
  }

  /** No time given is negative. */
  ghost predicate TimesOk(sets: seq<(string, int)>) { forall k :: 0 <= k < |sets| ==> sets[k].1 >= 0 }

  lemma TimesNone()
    ensures TimesOk([])
  {
  }

  lemma TimesMore(stack: string, mtime: seq<int>, name: string, sets: seq<(string, int)>, now: seq<(string, int)>)
    requires |mtime| == NTIM && Slashes(stack) < NTIM && Flushed(stack, mtime, name, now) && TimesOk(sets)
    ensures TimesOk(sets + now)
  {
    hide Slashes, Time;
    forall k | 0 <= k < |now| ensures now[k].1 >= 0 {
      assert IsSet(now, now[k].0, now[k].1);
    }
  }

  lemma {:induction false} LastTimes(sets: seq<(string, int)>)
    requires TimesOk(sets)
    ensures forall d :: Last(sets, d).Some? ==> Last(sets, d).value >= 0
  {
    if sets != [] { LastTimes(sets[..|sets| - 1]); }
  }

  /** A tape with the one directory a/, of a time before the epoch: it is never set. */
  method NegativeTime() returns (sets: seq<(string, int)>)
    ensures Last([("a/", -1)], "a" + "/") == Some(-1) && Last(sets, "a") == None
  {
    hide Flushed, Recorded, Last;
    var d := new DirTimes();
    ghost var mtime := d.mtime[..];
    OneDirectory();
    ghost var none := d.DoDirTimes("a/", -1);
    ghost var mtime' := d.mtime[..];
    ghost var now := d.DoDirTimes([], 0);
    NegativeNever(mtime, none, mtime', now);
    sets := d.sets;
    assert sets == none + now;
  }

  lemma OneDirectory()
    ensures Slashes("a/") == 1 && Slashes([]) == 0 && Last([("a/", -1)], "a" + "/") == Some(-1)
  {
    SlashesNext("a/", 0);
    SlashesNext("a/", 1);
    assert "a/"[..2] == "a/" && "a" + "/" == "a/";
  }

  lemma NegativeNever(mtime: seq<int>, none: seq<(string, int)>, mtime': seq<int>, now: seq<(string, int)>)
    requires |mtime| == NTIM && |mtime'| == NTIM && Slashes("a/") < NTIM && Slashes([]) < NTIM
    requires Flushed([], mtime, "a/", none) && Recorded([], mtime, "a/", -1, mtime') && Flushed("a/", mtime', [], now)
    ensures Last(none + now, "a") == None
  {
    hide Slashes, Time, IsSet;
    var name := "a" + "/";
    assert name == "a/" && name <= "a/";
    assert Time("a/", mtime', "a") == -1;
    NeverSet(none, "a");
    NeverSet(now, "a");
    LastConcat(none, now, "a");
  }

  lemma NeverSet(now: seq<(string, int)>, d: string)
    requires forall t :: !IsSet(now, d, t)
    ensures Last(now, d) == None
  {
    forall k | 0 <= k < |now| ensures now[k].0 != d {
      assert IsSet(now, now[k].0, now[k].1);
    }
    NeverLast(now, d);
  }

  lemma {:induction false} NeverLast(now: seq<(string, int)>, d: string)
    requires forall k :: 0 <= k < |now| ==> now[k].0 != d
    ensures Last(now, d) == None
  {
    if now != [] { NeverLast(now[..|now| - 1], d); }
  }

  /** A directory that waits has its last recorded time; one that does not has been given it. */
  ghost predicate History(stack: string, mtime: seq<int>, sets: seq<(string, int)>, calls: seq<(string, int)>)
    requires |mtime| == NTIM && Slashes(stack) < NTIM
  {
    forall d: string :: Remembered(stack, mtime, sets, calls, d)
  }

  ghost predicate Remembered(stack: string, mtime: seq<int>, sets: seq<(string, int)>, calls: seq<(string, int)>,
                             d: string)
    requires |mtime| == NTIM && Slashes(stack) < NTIM
  {
    var r := Last(calls, d + "/");
    if Waits(stack, mtime, d) then r == Some(Time(stack, mtime, d))
    else if r.None? then Last(sets, d).None?
    else r.value >= 0 ==> Last(sets, d) == r
  }

  lemma HistoryStart(stack: string, mtime: seq<int>, sets: seq<(string, int)>)
    requires |mtime| == NTIM && stack == [] && Slashes(stack) < NTIM && sets == []
    ensures History(stack, mtime, sets, [])
  {
  }

  lemma {:induction false} LastOf(now: seq<(string, int)>, d: string)
    requires forall k, l :: 0 <= k < l < |now| ==> now[k].0 != now[l].0
    ensures forall t :: IsSet(now, d, t) <==> Last(now, d) == Some(t)
  {
    if now != [] {
      var n := |now| - 1;
      LastOf(now[..n], d);
      forall t ensures IsSet(now, d, t) <==> Last(now, d) == Some(t) {
        SetOne(now[..n], now[n].0, now[n].1, d, t);
        assert now[..n] + [(now[n].0, now[n].1)] == now;
        if IsSet(now[..n], d, t) {
          var k :| 0 <= k < n && now[..n][k] == (d, t);
          assert now[k].0 != now[n].0;
        }
      }
    }
  }

  lemma {:induction false} LastConcat(sets: seq<(string, int)>, now: seq<(string, int)>, d: string)
    ensures Last(sets + now, d) == if Last(now, d).Some? then Last(now, d) else Last(sets, d)
  {
    if now == [] {
      assert sets + now == sets;
    } else {
      assert (sets + now)[..|sets + now| - 1] == sets + now[..|now| - 1];
      LastConcat(sets, now[..|now| - 1], d);
    }
  }

  /** What the sets of one call leave as the last one of a directory. */
  lemma LastAfter(stack: string, mtime: seq<int>, name: string, sets: seq<(string, int)>, now: seq<(string, int)>,
                  d: string)
    requires |mtime| == NTIM && Slashes(stack) < NTIM && Flushed(stack, mtime, name, now)
    ensures Last(sets + now, d) ==
      if Waits(stack, mtime, d) && !(d + "/" <= name) then Some(Time(stack, mtime, d)) else Last(sets, d)
  {
    hide Slashes, Time;
    LastOf(now, d);
    LastConcat(sets, now, d);
    hide Last, IsSet;
    assert Last(now, d).Some? ==> IsSet(now, d, Last(now, d).value);
    if Waits(stack, mtime, d) && !(d + "/" <= name) {
      assert IsSet(now, d, Time(stack, mtime, d));
    }
  }

  lemma HistoryStep(stack: string, mtime: seq<int>, sets: seq<(string, int)>, calls: seq<(string, int)>, n: nat,
                    now: seq<(string, int)>, mtime': seq<int>)
    requires |mtime| == NTIM && |mtime'| == NTIM && Slashes(stack) < NTIM && n < |calls| && Slashes(calls[n].0) < NTIM
    requires History(stack, mtime, sets, calls[..n])
    requires Flushed(stack, mtime, calls[n].0, now) && Recorded(stack, mtime, calls[n].0, calls[n].1, mtime')
    ensures History(calls[n].0, mtime', sets + now, calls[..n + 1])
  {
    var name, all, done := calls[n].0, sets + now, calls[..n + 1];
    hide Slashes, Time, IsSet;
    forall d: string ensures Remembered(name, mtime', all, done, d) {
      LastAfter(stack, mtime, name, sets, now, d);
      assert Remembered(stack, mtime, sets, calls[..n], d);
      assert done[..n] == calls[..n];
    }
  }

  lemma HistoryEnd(stack: string, mtime: seq<int>, sets: seq<(string, int)>, calls: seq<(string, int)>,
                   now: seq<(string, int)>)
    requires |mtime| == NTIM && Slashes(stack) < NTIM
    requires History(stack, mtime, sets, calls) && Flushed(stack, mtime, [], now)
    ensures forall d :: Last(calls, d + "/").Some? && Last(calls, d + "/").value >= 0 ==>
      Last(sets + now, d) == Last(calls, d + "/")
    ensures forall d :: Last(calls, d + "/").None? ==> Last(sets + now, d).None?
  {
    hide Slashes, Time, IsSet, Last;
    forall d: string
      ensures Last(calls, d + "/").Some? && Last(calls, d + "/").value >= 0 ==>
        Last(sets + now, d) == Last(calls, d + "/")
      ensures Last(calls, d + "/").None? ==> Last(sets + now, d).None?
    {
      LastAfter(stack, mtime, [], sets, now, d);
      assert Remembered(stack, mtime, sets, calls, d);
    }
  }

  /** Exactly the waiting directories that name `name` lies outside of have been set, once, to their times. */
  ghost predicate Flushed(stack: string, mtime: seq<int>, name: string, now: seq<(string, int)>)
    requires |mtime| == NTIM && Slashes(stack) < NTIM
  {
    && (forall d, t :: IsSet(now, d, t) <==>
      Waits(stack, mtime, d) && !(d + "/" <= name) && t == Time(stack, mtime, d))
    && forall k, l :: 0 <= k < l < |now| ==> now[k].0 != now[l].0
  }

  /** Then the directory itself waits with its new time, and those that it lies in as before. */
  ghost predicate Recorded(stack: string, mtime: seq<int>, name: string, t: int, mtime': seq<int>)
    requires |mtime| == NTIM && |mtime'| == NTIM && Slashes(stack) < NTIM && Slashes(name) < NTIM
  {
    forall d :: d + "/" <= name ==>
      if d + "/" == name then Time(name, mtime', d) == t else Unchanged(stack, mtime, name, mtime', d)
  }

  /** Directory d, which both are inside of, or only the second, waits as before. */
  ghost predicate Unchanged(stack: string, mtime: seq<int>, name: string, mtime': seq<int>, d: string)
    requires |mtime| == NTIM && |mtime'| == NTIM && Slashes(stack) < NTIM && Slashes(name) < NTIM
    requires d + "/" <= name
  {
    && (Waits(name, mtime', d) <==> Waits(stack, mtime, d))
    && (Waits(stack, mtime, d) ==> Time(name, mtime', d) == Time(stack, mtime, d))
  }

  /** The directories with their slash between p0 and p have been set. */
  ghost predicate SetSoFar(stack: string, mtime: seq<int>, p0: nat, p: nat, now: seq<(string, int)>)
    requires |mtime| == NTIM && Slashes(stack) < NTIM
  {
    && (forall d, t :: IsSet(now, d, t) <==> Waits(stack, mtime, d) && p0 <= |d| < p && t == Time(stack, mtime, d))
    && (forall k :: 0 <= k < |now| ==> |now[k].0| < p)
    && forall k, l :: 0 <= k < l < |now| ==> now[k].0 != now[l].0
  }

  lemma SetStart(stack: string, mtime: seq<int>, p0: nat)
    requires |mtime| == NTIM && Slashes(stack) < NTIM
    ensures SetSoFar(stack, mtime, p0, p0, [])
  {
  }

  lemma SetEnd(stack: string, mtime: seq<int>, p0: nat, now: seq<(string, int)>)
    requires |mtime| == NTIM && Slashes(stack) < NTIM && SetSoFar(stack, mtime, p0, |stack|, now)
    ensures forall d, t :: IsSet(now, d, t) <==> Waits(stack, mtime, d) && |d| >= p0 && t == Time(stack, mtime, d)
    ensures forall k, l :: 0 <= k < l < |now| ==> now[k].0 != now[l].0
  {
  }

  /** What the loop does at a slash. */
  lemma SetMore(stack: string, mtime: seq<int>, p0: nat, i: nat, now: seq<(string, int)>)
    requires |mtime| == NTIM && Slashes(stack) < NTIM && SetSoFar(stack, mtime, p0, i, now)
    requires p0 <= i < |stack| && stack[i] == '/' && Slashes(stack[..i + 1]) < NTIM
    ensures var t := mtime[Slashes(stack[..i + 1])];
      SetSoFar(stack, mtime, p0, i + 1, if t >= 0 then now + [(stack[..i], t)] else now)
  {
    hide Slashes, IsSet, Waits, Time;
    var t := mtime[Slashes(stack[..i + 1])];
    forall d, u
      ensures IsSet(now + [(stack[..i], t)], d, u) <==> IsSet(now, d, u) || (d == stack[..i] && u == t)
      ensures Waits(stack, mtime, d) && |d| == i <==> d == stack[..i] && t >= 0
      ensures d == stack[..i] && t >= 0 ==> Time(stack, mtime, d) == t
    {
      SetOne(now, stack[..i], t, d, u);
      AtSlash(stack, mtime, i, d);
    }
  }

  /** The directory that waits with its slash at i. */
  lemma AtSlash(stack: string, mtime: seq<int>, i: nat, d: string)
    requires |mtime| == NTIM && Slashes(stack) < NTIM
    requires i < |stack| && stack[i] == '/' && Slashes(stack[..i + 1]) < NTIM
    ensures var t := mtime[Slashes(stack[..i + 1])];
      && (Waits(stack, mtime, d) && |d| == i <==> d == stack[..i] && t >= 0)
      && (Waits(stack, mtime, d) && |d| == i ==> Time(stack, mtime, d) == t)
  {
    hide Slashes, Time;
    DirAt(stack, mtime, i);
    if d + "/" <= stack && |d| == i { assert d == (d + "/")[..i] == stack[..i]; }
  }

  lemma SetOne(now: seq<(string, int)>, e: string, t: int, d: string, u: int)
    ensures IsSet(now + [(e, t)], d, u) <==> IsSet(now, d, u) || (d == e && u == t)
  {
    var n := now + [(e, t)];
    if IsSet(now, d, u) {
      var k :| 0 <= k < |now| && now[k] == (d, u);
      assert n[k] == (d, u);
    }
    assert n[|now|] == (e, t);
  }

  lemma SetNone(stack: string, mtime: seq<int>, p0: nat, i: nat, now: seq<(string, int)>)
    requires |mtime| == NTIM && Slashes(stack) < NTIM && SetSoFar(stack, mtime, p0, i, now)
    requires i < |stack| && stack[i] != '/'
    ensures SetSoFar(stack, mtime, p0, i + 1, now)
  {
    hide Slashes, IsSet;
    forall d | d + "/" <= stack ensures |d| != i {
      assert (d + "/")[|d|] == stack[|d|];
    }
  }

  /** The loop stops exactly at the end of the string. */
  lemma AtEnd(a: seq<char>, stack: string, p: nat)
    requires p <= |stack| < |a| && NUL !in stack && a[..|stack|] == stack && a[|stack|] == NUL
    ensures a[p] == NUL <==> p == |stack|
    ensures p < |stack| ==> a[p] == stack[p]
  {
    if p < |stack| { assert a[p] == stack[p] && stack[p] in stack; }
  }

  /** A C string that is cut off at p. */
  lemma Cut(a: seq<char>, stack: string, p: nat)
    requires p < |stack| && NUL !in stack && p < |a| && a[..p] == stack[..p] && a[p] == NUL
    ensures CString(a) == stack[..p]
  {
    forall c | c in stack[..p] ensures c != NUL {
      assert c in stack;
    }
    FieldRead(stack[..p], a[p..]);
    assert a == stack[..p] + a[p..];
  }

  lemma FlushedIs(stack: string, mtime: seq<int>, name: string, p: nat, now: seq<(string, int)>)
    requires |mtime| == NTIM && Slashes(stack) < NTIM
    requires p <= |stack| && p <= |name| && name[..p] == stack[..p]
    requires (p < |stack| && p < |name| ==> stack[p] != name[p])
    requires forall d, t :: IsSet(now, d, t) <==> Waits(stack, mtime, d) && |d| >= p && t == Time(stack, mtime, d)
    requires forall k, l :: 0 <= k < l < |now| ==> now[k].0 != now[l].0
    ensures Flushed(stack, mtime, name, now)
  {
    hide Slashes, IsSet, Time, Waits;
    forall d | Waits(stack, mtime, d) ensures |d| >= p <==> !(d + "/" <= name) {
      WaitsInside(stack, mtime, d);
      PrefixOf(stack, name, p, d);
    }
  }

  lemma WaitsInside(stack: string, mtime: seq<int>, d: string)
    requires |mtime| == NTIM && Slashes(stack) < NTIM && Waits(stack, mtime, d)
    ensures d + "/" <= stack
  {
  }

  lemma PrefixOf(stack: string, name: string, p: nat, d: string)
    requires p <= |stack| && p <= |name| && name[..p] == stack[..p]
    requires (p < |stack| && p < |name| ==> stack[p] != name[p])
    requires d + "/" <= stack
    ensures |d| >= p <==> !(d + "/" <= name)
  {
    var e := d + "/";
    if |d| < p {
      assert e == stack[..p][..|e|] == name[..p][..|e|];
    } else {
      assert e[p] == stack[p];
    }
  }

  lemma RecordedIs(stack: string, mtime: seq<int>, name: string, t: int, p: nat, mtime': seq<int>)
    requires |mtime| == NTIM && |mtime'| == NTIM && Slashes(stack) < NTIM && Slashes(name) < NTIM
    requires p <= |stack| && p <= |name| && name[..p] == stack[..p]
    requires (p < |stack| && p < |name| ==> stack[p] != name[p])
    requires mtime'[Slashes(name)] == t && (name == [] || name[|name| - 1] == '/')
    requires forall k :: 0 <= k < NTIM && k != Slashes(name) ==>
      mtime'[k] == if Slashes(name[..p]) < k < Slashes(name) then -1 else mtime[k]
    ensures Recorded(stack, mtime, name, t, mtime')
  {
    hide Slashes, Unchanged;
    forall d | d + "/" <= name
      ensures if d + "/" == name then Time(name, mtime', d) == t else Unchanged(stack, mtime, name, mtime', d)
    {
      if d + "/" != name { OuterUnchanged(stack, mtime, name, p, mtime', d); }
    }
  }

  lemma OuterUnchanged(stack: string, mtime: seq<int>, name: string, p: nat, mtime': seq<int>, d: string)
    requires |mtime| == NTIM && |mtime'| == NTIM && Slashes(stack) < NTIM && Slashes(name) < NTIM
    requires p <= |stack| && p <= |name| && name[..p] == stack[..p]
    requires (p < |stack| && p < |name| ==> stack[p] != name[p])
    requires forall k :: 0 <= k < NTIM && k != Slashes(name) ==>
      mtime'[k] == if Slashes(name[..p]) < k < Slashes(name) then -1 else mtime[k]
    requires d + "/" <= name && d + "/" != name && name[|name| - 1] == '/'
    ensures Unchanged(stack, mtime, name, mtime', d)
  {
    hide Slashes;
    var e := d + "/";
    PrefixSlash(name, e, p);
    if d + "/" <= stack {
      PrefixOf(stack, name, p, d);
    } else {
      ShortPrefix(stack, name, p, e);
    }
  }

  /** The slash of a directory that the name goes beyond is not the name's last one. */
  lemma PrefixSlash(name: string, e: string, p: nat)
    requires 0 < |e| < |name| && e[|e| - 1] == '/' && e <= name && p <= |name| && name[|name| - 1] == '/'
    ensures |e| <= p ==> Slashes(e) <= Slashes(name[..p])
    ensures |e| > p ==> Slashes(name[..p]) < Slashes(e)
    ensures Slashes(e) < Slashes(name)
  {
    assert e == name[..|e|] == name[..|name| - 1][..|e|];
    SlashesMonotone(name[..|name| - 1], |e|);
    if |e| <= p {
      assert e == name[..p][..|e|];
      SlashesMonotone(name[..p], |e|);
    } else {
      assert name[..p] == e[..|e| - 1][..p];
      SlashesMonotone(e[..|e| - 1], p);
    }
  }

  lemma ShortPrefix(stack: string, name: string, p: nat, e: string)
    requires p <= |stack| && p <= |name| && name[..p] == stack[..p] && e <= name
    ensures |e| <= p ==> e <= stack
  {
    if |e| <= p { assert e == name[..p][..|e|] == stack[..p][..|e|]; }
  }

  /** Byte i of a C string. */
  function At(s: string, i: nat): char { if i < |s| then s[i] else NUL }
}
