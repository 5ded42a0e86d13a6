/**
 Sequences of line addresses, as the commands of bin/ed.c rearrange them.  The lowest bit of an address
 is the mark of a global command; a stored line's address is even.
 */
module EdLines {

  /** The block s[lo..hi] taken out and put back behind line `to` of the original numbering. */
  function Moved<T>(s: seq<T>, lo: nat, hi: nat, to: nat): seq<T>
    requires lo <= hi <= |s| && to <= |s| && !(lo < to < hi)
  {
    var rest := s[..lo] + s[hi..];
    var p := if to <= lo then to else to - (hi - lo);
    rest[..p] + s[lo..hi] + rest[p..]
  }

  function Rev<T>(s: seq<T>): (r: seq<T>)
    ensures |r| == |s|
  {
    seq(|s|, i requires 0 <= i < |s| => s[|s| - 1 - i])
  }

  /** s[i..j] turned round in place. */
  function Flipped<T>(s: seq<T>, i: nat, j: nat): (r: seq<T>)
    requires i <= j <= |s|
    ensures |r| == |s|
  {
    s[..i] + Rev(s[i..j]) + s[j..]
  }

  /** Turning two neighbouring blocks round, and then both together, exchanges them. */
  lemma ThreeFlips<T>(s: seq<T>, p: nat, q: nat, r: nat)
    requires p <= q <= r <= |s|
    ensures Flipped(Flipped(Flipped(s, p, q), q, r), p, r) == s[..p] + s[q..r] + s[p..q] + s[r..]
  {
    var x, y := s[p..q], s[q..r];
    var one := Flipped(s, p, q);
    assert one == s[..p] + Rev(x) + s[q..];
    var two := Flipped(one, q, r);
    assert one[q..r] == y && one[..q] == s[..p] + Rev(x) && one[r..] == s[r..];
    assert two[p..r] == Rev(x) + Rev(y) && two[..p] == s[..p] && two[r..] == s[r..];
    assert Rev(Rev(x) + Rev(y)) == y + x;
  }

  lemma SwapIsMove<T>(s: seq<T>, p: nat, q: nat, r: nat)
    requires p <= q <= r <= |s|
    ensures s[..p] + s[q..r] + s[p..q] + s[r..] == Moved(s, q, r, p) == Moved(s, p, q, r)
  {
    assert (s[..q] + s[r..])[..p] == s[..p] && (s[..q] + s[r..])[p..] == s[p..q] + s[r..];
    assert (s[..p] + s[q..])[..r - (q - p)] == s[..p] + s[q..r] && (s[..p] + s[q..])[r - (q - p)..] == s[r..];
  }

  /** The entries with the mark bit, with multiplicity. */
  function Marked(s: seq<nat>): multiset<nat> {
    if s == [] then multiset{}
    else (if s[0] % 2 == 1 then multiset{s[0]} else multiset{}) + Marked(s[1..])
  }

  lemma {:induction false} MarkedConcat(s: seq<nat>, t: seq<nat>)
    ensures Marked(s + t) == Marked(s) + Marked(t)
  {
    if s == [] {
      assert s + t == t;
    } else {
      assert (s + t)[1..] == s[1..] + t;
      MarkedConcat(s[1..], t);
    }
  }

  lemma {:induction false} MarkedAre(s: seq<nat>, x: nat)
    ensures x in Marked(s) <==> x % 2 == 1 && x in s
  {
    if s != [] { MarkedAre(s[1..], x); }
  }

  lemma MarkedThree(a: seq<nat>, b: seq<nat>, c: seq<nat>)
    ensures Marked(a + b + c) == Marked(a) + Marked(b) + Marked(c)
  {
    hide Marked;
    MarkedConcat(a + b, c);
    MarkedConcat(a, b);
  }

  lemma CutThree<T>(s: seq<T>, lo: nat, hi: nat)
    requires lo <= hi <= |s|
    ensures s == s[..lo] + s[lo..hi] + s[hi..]
  {
  }

  /** Marks neither appear nor double when a piece is replaced by unmarked entries. */
  lemma MarkedReplace(s: seq<nat>, lo: nat, hi: nat, t: seq<nat>)
    requires lo <= hi <= |s| && forall x :: x in t ==> x % 2 == 0
    ensures Marked(s[..lo] + t + s[hi..]) + Marked(s[lo..hi]) == Marked(s)
    ensures Marked(s[..lo] + t + s[hi..]) <= Marked(s)
  {
    hide Marked;
    CutThree(s, lo, hi);
    MarkedThree(s[..lo], s[lo..hi], s[hi..]);
    MarkedThree(s[..lo], t, s[hi..]);
    NoneMarked(t);
  }

  lemma {:induction false} NoneMarked(t: seq<nat>)
    requires forall x :: x in t ==> x % 2 == 0
    ensures Marked(t) == multiset{}
  {
    if t != [] {
      assert t[0] in t && forall x :: x in t[1..] ==> x in t;
      NoneMarked(t[1..]);
    }
  }

  lemma MarkedFour(a: seq<nat>, b: seq<nat>, c: seq<nat>, d: seq<nat>)
    ensures Marked(a + b + c + d) == Marked(a) + Marked(b) + Marked(c) + Marked(d)
  {
    hide Marked;
    MarkedConcat(a + b + c, d);
    MarkedConcat(a + b, c);
    MarkedConcat(a, b);
  }

  lemma MarkedMove(s: seq<nat>, lo: nat, hi: nat, to: nat)
    requires lo <= hi <= |s| && to <= |s| && !(lo < to < hi)
    ensures Marked(Moved(s, lo, hi, to)) == Marked(s)
  {
    var p, q, r := if to <= lo then to else lo, if to <= lo then lo else hi, if to <= lo then hi else to;
    SwapIsMove(s, p, q, r);
    hide Marked, Moved;
    MarkedFour(s[..p], s[q..r], s[p..q], s[r..]);
    MarkedFour(s[..p], s[p..q], s[q..r], s[r..]);
    CutFour(s, p, q, r);
  }

  lemma CutFour<T>(s: seq<T>, p: nat, q: nat, r: nat)
    requires p <= q <= r <= |s|
    ensures s == s[..p] + s[p..q] + s[q..r] + s[r..]
  {
  }

  /** The unmarked entries. */
  function Kept(s: seq<nat>): (r: seq<nat>)
    ensures |r| <= |s| && forall x :: x in r ==> x % 2 == 0
  {
    if s == [] then [] else (if s[0] % 2 == 1 then [] else [s[0]]) + Kept(s[1..])
  }

  lemma {:induction false} KeptConcat(s: seq<nat>, t: seq<nat>)
    ensures Kept(s + t) == Kept(s) + Kept(t)
  {
    if s == [] {
      assert s + t == t;
    } else {
      assert (s + t)[1..] == s[1..] + t;
      KeptConcat(s[1..], t);
    }
  }

  lemma {:induction false} KeptAll(s: seq<nat>)
    requires forall i :: 0 <= i < |s| ==> s[i] % 2 == 0
    ensures Kept(s) == s
  {
    if s != [] { KeptAll(s[1..]); }
  }

  lemma KeptNext(s: seq<nat>, k: nat)
    requires k < |s|
    ensures Kept(s[..k + 1]) == Kept(s[..k]) + if s[k] % 2 == 1 then [] else [s[k]]
    ensures |Kept(s[..k])| <= k
  {
    assert s[..k + 1] == s[..k] + [s[k]];
    KeptConcat(s[..k], [s[k]]);
    assert [s[k]][1..] == [];
  }

  /** The first marked entry, or the length. */
  function FirstMarked(s: seq<nat>): (k: nat)
    ensures k <= |s| && (k < |s| ==> s[k] % 2 == 1) && forall i :: 0 <= i < k ==> s[i] % 2 == 0
  {
    if s == [] || s[0] % 2 == 1 then 0 else 1 + FirstMarked(s[1..])
  }

  /** The last marked entry, or -1. */
  function LastMarked(s: seq<nat>): (j: int)
    ensures -1 <= j < |s| && (j >= 0 ==> s[j] % 2 == 1) && forall i :: j < i < |s| ==> s[i] % 2 == 0
  {
    if s == [] then -1 else if s[|s| - 1] % 2 == 1 then |s| - 1 else LastMarked(s[..|s| - 1])
  }

  /** What the scan of a global command does with the command list `d`: delete the first marked line
      and start again. */
  function OneByOne(s: seq<nat>): seq<nat>
    decreases |s|
  {
    var k := FirstMarked(s);
    if k == |s| then s else OneByOne(s[..k] + s[k + 1..])
  }

  lemma KeptWithout(s: seq<nat>, k: nat)
    requires k < |s| && s[k] % 2 == 1
    ensures Kept(s[..k] + s[k + 1..]) == Kept(s)
  {
    hide Kept;
    var a, b, b' := s[..k], s[k + 1..], s[..k + 1];
    assert s == b' + b;
    KeptConcat(a, b);
    KeptConcat(b', b);
    assert Kept(b') == Kept(a) by { KeptNext(s, k); }
  }

  lemma {:induction false} OneByOneIsKept(s: seq<nat>)
    ensures OneByOne(s) == Kept(s)
    decreases |s|
  {
    var k := FirstMarked(s);
    if k == |s| {
      KeptAll(s);
    } else {
      OneByOneIsKept(s[..k] + s[k + 1..]);
      KeptWithout(s, k);
    }
  }
}
