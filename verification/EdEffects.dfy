/** What each editing command of bin/ed.c makes of a buffer, and what a list of them does. */
module EdEffects {
  import opened Wrappers
  import opened EdLines
  import opened EdTempFile
  import opened EdTable
  import opened EdTexts

  /** What a command works on; `capacity` and `tline` say what the table and the file still have room for. */
  datatype View = View(lines: seq<nat>, store: map<nat, string>, dot: nat, names: seq<nat>, capacity: int, tline: nat)
  {
    function Free(): nat { if capacity <= |lines| then 0 else capacity - |lines| }

    predicate Has(lo: nat, hi: nat) { 1 <= lo <= hi <= |lines| }
  }

  /** The lines of both are stored, no text is lost, and there is no new mark. */
  ghost predicate Follows(v: View, v': View) {
    && Stored(v.lines, v.store) && Stored(v'.lines, v'.store) && Grows(v.store, v'.store)
    && Marked(v'.lines) <= Marked(v.lines) && v'.capacity == v.capacity && |v.names| == |v'.names| == 26
  }

  /** What a command makes of v; false is an error. */
  ghost predicate Effect(e: Edit, v: View, v': View, ok: bool) {
    && Follows(v, v')
    && match e
       case Append(at, texts) => if at <= |v.lines| then AppendEffect(at, texts, v, v', ok) else !ok && v' == v
       case Delete(lo, hi) => if v.Has(lo, hi) then ok && DeleteEffect(lo, hi, v, v') else !ok && v' == v
       case Move(lo, hi, to) =>
         if v.Has(lo, hi) && to <= |v.lines| then MoveEffect(lo, hi, to, v, v', ok) else !ok && v' == v
       case Copy(lo, hi, to) =>
         if v.Has(lo, hi) && to <= |v.lines| then CopyEffect(lo, hi, to, v, v', ok) else !ok && v' == v
       case Join(lo, hi) => if v.Has(lo, hi) then JoinEffect(lo, hi, v, v', ok) else !ok && v' == v
       case Substitute(lo, hi, change) =>
         if v.Has(lo, hi) then SubstituteEffect(lo, hi, change, v, v', ok) else !ok && v' == v
       case Mark(name, at) =>
         if name < 26 && v.Has(at, at) then ok && v' == v.(names := v.names[name := Unmark(v.lines[at - 1])])
         else !ok && v' == v
  }

  /** The lines come behind line `at`; an error exactly when a text is too long or there is no room, and then the
      texts before it have come. */
  ghost predicate AppendEffect(at: nat, texts: seq<string>, v: View, v': View, ok: bool) {
    && Appended(v.lines, at, v'.lines, v'.dot, texts, v'.store) && v'.names == v.names
    && (ok <==> v'.dot == at + |texts|)
    && (ok <==> Fits(texts, v.Free(), v.tline) && forall k :: 0 <= k < |texts| ==> Short(texts[k]))
    && v'.tline == v.tline + Needs(texts[..v'.dot - at])
  }

  ghost predicate DeleteEffect(lo: nat, hi: nat, v: View, v': View)
    requires v.Has(lo, hi)
  {
    v' == v.(lines := v.lines[..lo - 1] + v.lines[hi..], dot := Min(lo, |v.lines| - (hi + 1 - lo)))
  }

  /** An error exactly when the destination is inside the block; its marks go either way. */
  ghost predicate MoveEffect(lo: nat, hi: nat, to: nat, v: View, v': View, ok: bool)
    requires v.Has(lo, hi) && to <= |v.lines|
  {
    var s := Cleared(v.lines, lo - 1, hi);
    && ok == !(lo <= to <= hi)
    && v' == if ok then v.(lines := Moved(s, lo - 1, hi, to), dot := if to < lo then to + (hi + 1 - lo) else to)
             else v.(lines := s)
  }

  /** Without room, the copies made so far stay behind the last line. */
  ghost predicate CopyEffect(lo: nat, hi: nat, to: nat, v: View, v': View, ok: bool)
    requires v.Has(lo, hi) && Stored(v.lines, v.store)
  {
    var texts := Texts(v.lines, v.store)[lo - 1..hi];
    && (ok <==> Fits(texts, v.Free(), v.tline)) && v'.names == v.names
    && Appended(v.lines, if ok then to else |v.lines|, v'.lines, v'.dot, texts, v'.store)
    && (ok <==> |v'.lines| == |v.lines| + |texts|)
    && 0 <= |v'.lines| - |v.lines| <= |texts| && v'.tline == v.tline + Needs(texts[..|v'.lines| - |v.lines|])
  }

  ghost predicate JoinEffect(lo: nat, hi: nat, v: View, v': View, ok: bool)
    requires v.Has(lo, hi) && Stored(v.lines, v.store)
  {
    var joined := Concat(Texts(v.lines, v.store)[lo - 1..hi]);
    && (ok <==> lo == hi || (|joined| <= BLOCK - 2 && v.tline + Need(joined) <= LIMIT))
    && if !ok || lo == hi then v' == v
       else
         && |v'.lines| >= lo && HoldsText(v'.lines[lo - 1], joined, v'.store)
         && v' == v.(lines := v.lines[..lo - 1] + [v'.lines[lo - 1]] + v.lines[hi..], store := v'.store, dot := lo,
                     tline := v.tline + Need(joined))
  }

  ghost predicate SubstituteEffect(lo: nat, hi: nat, change: string -> Option<string>, v: View, v': View, ok: bool)
    requires v.Has(lo, hi) && Stored(v.lines, v.store) && Stored(v'.lines, v'.store)
  {
    var b := Texts(v.lines, v.store);
    var todo := b[lo - 1..hi];
    && (ok <==> FitsInstead(todo, change, v.Free(), v.tline))
    && Around(v.lines, v'.lines, lo - 1, hi)
    && (ok ==>
          && Texts(v'.lines, v'.store) == b[..lo - 1] + Substituted(todo, change) + b[hi..]
          && v'.dot == Landing(todo, change, lo, v.dot) && v'.tline == v.tline + NewNeeds(todo, change))
  }

  // ----- command lists -----

  /** All commands of the list, one behind the other. */
  ghost predicate Chain(list: seq<Edit>, v: View, v': View)
    decreases |list|, 0
  {
    if list == [] then v' == v else exists w :: Linked(list, v, w, v')
  }

  /** Between the last command and those before it there is w. */
  ghost predicate Linked(list: seq<Edit>, v: View, w: View, v': View)
    requires list != []
    decreases |list| - 1, 1
  {
    Chain(list[..|list| - 1], v, w) && Effect(list[|list| - 1], w, v', true)
  }

  /** All commands of the list, or those up to the first error. */
  ghost predicate DoneBy(list: seq<Edit>, v: View, v': View, ok: bool) {
    if ok then Chain(list, v, v')
    else exists k, w :: 0 <= k < |list| && Chain(list[..k], v, w) && Effect(list[k], w, v', false)
  }

  lemma ChainMore(list: seq<Edit>, k: nat, v: View, w: View, v': View)
    requires k < |list| && Chain(list[..k], v, w) && Effect(list[k], w, v', true)
    ensures Chain(list[..k + 1], v, v')
  {
    hide Effect;
    assert list[..k + 1][..k] == list[..k];
    assert Linked(list[..k + 1], v, w, v');
  }

  /** The lines that a command takes away, changes or moves are unmarked. */
  ghost predicate SparesMarks(e: Edit, v: View) {
    match e
    case Append(_, _) => true
    case Copy(_, _, _) => true
    case Mark(_, _) => true
    case Delete(lo, hi) => Unmarked(v, lo, hi)
    case Move(lo, hi, _) => Unmarked(v, lo, hi)
    case Join(lo, hi) => Unmarked(v, lo, hi)
    case Substitute(lo, hi, _) => Unmarked(v, lo, hi)
  }

  ghost predicate Unmarked(v: View, lo: nat, hi: nat) {
    v.Has(lo, hi) ==> forall x :: x in v.lines[lo - 1..hi] ==> x % 2 == 0
  }

  /** Such a command leaves all marks. */
  lemma MarksSpared(e: Edit, v: View, v': View, ok: bool)
    requires Effect(e, v, v', ok) && SparesMarks(e, v)
    ensures Marked(v'.lines) == Marked(v.lines)
  {
    hide Marked, Stored, Grows, AppendEffect, DeleteEffect, MoveEffect, CopyEffect, JoinEffect, SubstituteEffect,
      Unmarked;
    match e
    case Append(at, texts) => if at <= |v.lines| { AppendSpares(at, texts, v, v', ok); }
    case Copy(lo, hi, to) => if v.Has(lo, hi) && to <= |v.lines| { CopySpares(lo, hi, to, v, v', ok); }
    case Mark(_, _) =>
    case Delete(lo, hi) =>
      if v.Has(lo, hi) {
        DeleteAround(lo, hi, v, v');
        SparedAround(v, v', lo, hi);
      }
    case Join(lo, hi) =>
      if v.Has(lo, hi) {
        JoinAround(lo, hi, v, v', ok);
        SparedAround(v, v', lo, hi);
      }
    case Substitute(lo, hi, change) =>
      if v.Has(lo, hi) {
        SubstituteAround(lo, hi, change, v, v', ok);
        SparedAround(v, v', lo, hi);
      }
    case Move(lo, hi, to) => if v.Has(lo, hi) && to <= |v.lines| { MoveSpares(lo, hi, to, v, v', ok); }
  }

  lemma AppendSpares(at: nat, texts: seq<string>, v: View, v': View, ok: bool)
    requires AppendEffect(at, texts, v, v', ok)
    ensures Marked(v'.lines) == Marked(v.lines)
  {
    AppendedMarks(v.lines, at, v'.lines, v'.dot, texts, v'.store);
  }

  lemma CopySpares(lo: nat, hi: nat, to: nat, v: View, v': View, ok: bool)
    requires v.Has(lo, hi) && Stored(v.lines, v.store) && CopyEffect(lo, hi, to, v, v', ok)
    ensures Marked(v'.lines) == Marked(v.lines)
  {
    hide Appended, Marked, Fits, Needs, Texts, Stored;
    AppendedMarks(v.lines, if ok then to else |v.lines|, v'.lines, v'.dot, Texts(v.lines, v.store)[lo - 1..hi],
                  v'.store);
  }

  lemma MoveSpares(lo: nat, hi: nat, to: nat, v: View, v': View, ok: bool)
    requires v.Has(lo, hi) && to <= |v.lines| && MoveEffect(lo, hi, to, v, v', ok) && Unmarked(v, lo, hi)
    ensures Marked(v'.lines) == Marked(v.lines)
  {
    hide Marked, Moved;
    ClearedSame(v.lines, lo - 1, hi);
    hide Cleared;
    if ok { MarkedMove(v.lines, lo - 1, hi, to); }
  }

  lemma DeleteAround(lo: nat, hi: nat, v: View, v': View)
    requires v.Has(lo, hi) && DeleteEffect(lo, hi, v, v')
    ensures Around(v.lines, v'.lines, lo - 1, hi)
  {
  }

  lemma JoinAround(lo: nat, hi: nat, v: View, v': View, ok: bool)
    requires v.Has(lo, hi) && Stored(v.lines, v.store) && JoinEffect(lo, hi, v, v', ok)
    ensures Around(v.lines, v'.lines, lo - 1, hi)
  {
    hide Concat, Texts, Stored, HoldsText, Need;
  }

  lemma SubstituteAround(lo: nat, hi: nat, change: string -> Option<string>, v: View, v': View, ok: bool)
    requires v.Has(lo, hi) && Stored(v.lines, v.store) && Stored(v'.lines, v'.store)
    requires SubstituteEffect(lo, hi, change, v, v', ok)
    ensures Around(v.lines, v'.lines, lo - 1, hi)
  {
  }

  lemma SparedAround(v: View, v': View, lo: nat, hi: nat)
    requires v.Has(lo, hi) && Around(v.lines, v'.lines, lo - 1, hi) && Marked(v'.lines) <= Marked(v.lines)
    requires Unmarked(v, lo, hi)
    ensures Marked(v'.lines) == Marked(v.lines)
  {
    hide Marked;
    var s, s' := v.lines, v'.lines;
    var end := |s'| - (|s| - hi);
    CutThree(s, lo - 1, hi);
    CutThree(s', lo - 1, end);
    MarkedThree(s[..lo - 1], s[lo - 1..hi], s[hi..]);
    MarkedThree(s'[..lo - 1], s'[lo - 1..end], s'[end..]);
    NoneMarked(s[lo - 1..hi]);
  }

  lemma ClearedSame(s: seq<nat>, lo: nat, hi: nat)
    requires lo <= hi <= |s| && forall x :: x in s[lo..hi] ==> x % 2 == 0
    ensures Cleared(s, lo, hi) == s
  {
    forall k | lo <= k < hi ensures s[k] % 2 == 0 { assert s[lo..hi][k - lo] in s[lo..hi]; }
  }

  /** A list of such commands leaves all marks, also if there is an error on the way. */
  lemma ListSparesMarks(list: seq<Edit>, v: View, v': View, ok: bool)
    requires DoneBy(list, v, v', ok)
    requires forall k, w :: 0 <= k < |list| && Chain(list[..k], v, w) ==> SparesMarks(list[k], w)
    ensures Marked(v'.lines) == Marked(v.lines)
  {
    hide Chain, Effect, SparesMarks, Marked;
    if ok {
      assert list[..|list|] == list;
      ChainSparesMarks(list, |list|, v, v');
    } else {
      var k, w :| 0 <= k < |list| && Chain(list[..k], v, w) && Effect(list[k], w, v', false);
      ChainSparesMarks(list, k, v, w);
      MarksSpared(list[k], w, v', false);
    }
  }

  lemma {:induction false} ChainSparesMarks(list: seq<Edit>, n: nat, v: View, v': View)
    requires n <= |list| && Chain(list[..n], v, v')
    requires forall k, w :: 0 <= k < |list| && Chain(list[..k], v, w) ==> SparesMarks(list[k], w)
    ensures Marked(v'.lines) == Marked(v.lines)
  {
    hide Effect, SparesMarks, Marked;
    if n > 0 {
      assert list[..n][..n - 1] == list[..n - 1];
      var w :| Linked(list[..n], v, w, v');
      ChainSparesMarks(list, n - 1, v, w);
      MarksSpared(list[n - 1], w, v', true);
    }
  }
}
