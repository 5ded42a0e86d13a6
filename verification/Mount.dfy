/**
 The mount tree of etc/mount.c: entries whose directory lies inside that of another one are its kids, and
 are mounted only after it.
 */
module Mount {

  const NRETRY := 10000

  type Int32 = x: int | -0x8000_0000 <= x < 0x8000_0000

  /** The entry of /etc/fstab, with the value of its option `retry`, 0 if there is none. */
  datatype Entry = Entry(dir: string, retry: Int32, line: nat)

  datatype Result = Mounted | NetworkError | Failed

  /** A call of mountfs(). */
  datatype Attempt = Attempt(e: Entry, result: Result)

  /** The counter `while (retry--)` seen as an unsigned number: so often it can still be taken down. */
  function Left(retry: Int32): nat { if retry >= 0 then retry else retry + 0x1_0000_0000 }

  function Decrement(retry: Int32): Int32 { if retry == -0x8000_0000 then 0x7fff_ffff else retry - 1 }

  function Tries(e: Entry): nat { Left(if e.retry == 0 then NRETRY else e.retry) + 1 }

  /** s1 is a directory that s2 lies in. */
  predicate Ancestor(s1: string, s2: string) {
    |s1| < |s2| && s1 == s2[..|s1|] && s2[|s1|] == '/'
  }

  function At(s: string, i: nat): char { if i < |s| then s[i] else '\0' }

  lemma EndsAt(s1: string, s2: string, i: nat)
    requires '\0' !in s1 && '\0' !in s2 && i <= |s1| && i <= |s2| && s1[..i] == s2[..i] && At(s1, i) != At(s2, i)
    ensures Ancestor(s1, s2) <==> At(s1, i) == '\0' && At(s2, i) == '/'
  {
    if i < |s1| { assert s1[i] in s1; }
    assert s1[..|s1|] == s1;
    assert |s1| <= |s2| ==> forall k :: 0 <= k < |s1| ==> s2[..|s1|][k] == s2[k];
  }

  /** The memory from the beginning of a string on: the string, its end, and what lies behind. */
  function MemoryOf(s: string, behind: seq<char>): seq<char> { s + ['\0'] + behind }

  /** The memories differ first at i. */
  predicate DifferAt(m1: seq<char>, m2: seq<char>, i: nat) {
    i < |m1| && i < |m2| && m1[i] != m2[i] && m1[..i] == m2[..i]
  }

  lemma SamePrefix(m1: seq<char>, m2: seq<char>, i: nat)
    requires i < |m1| && i < |m2| && m1[..i] == m2[..i] && m1[i] == m2[i]
    ensures m1[..i + 1] == m2[..i + 1]
  {
    assert m1[..i + 1] == m1[..i] + [m1[i]] && m2[..i + 1] == m2[..i] + [m2[i]];
  }

  lemma DifferLater(m1: seq<char>, m2: seq<char>, i: nat, j: nat)
    requires DifferAt(m1, m2, j) && i <= |m1| && i <= |m2| && m1[..i] == m2[..i]
    ensures i <= j
  {
    forall k | 0 <= k < i ensures m1[k] == m2[k] {
      assert m1[..i][k] == m2[..i][k];
    }
  }

  /** Different strings differ before their ends. */
  lemma StringsDiffer(s1: string, s2: string, b1: seq<char>, b2: seq<char>, i: nat, j: nat)
    requires s1 != s2 && DifferAt(MemoryOf(s1, b1), MemoryOf(s2, b2), i)
    requires DifferAt(MemoryOf(s1, b1), MemoryOf(s2, b2), j)
    requires j <= |s1| && j <= |s2| && s1[..j] == s2[..j]
    ensures i == j && At(s1, i) != At(s2, i)
    ensures MemoryOf(s1, b1)[i] == At(s1, i) && MemoryOf(s2, b2)[i] == At(s2, i)
  {
    var m1, m2 := MemoryOf(s1, b1), MemoryOf(s2, b2);
    DifferLater(m1, m2, i, j);
    DifferLater(m1, m2, j, i);
  }

  /** Equal ones differ behind them. */
  lemma BehindDiffers(s1: string, s2: string, b1: seq<char>, b2: seq<char>, i: nat)
    requires s1 == s2 && DifferAt(MemoryOf(s1, b1), MemoryOf(s2, b2), i)
    ensures i > |s1| && DifferAt(b1, b2, i - |s1| - 1)
    ensures MemoryOf(s1, b1)[i] == b1[i - |s1| - 1] && MemoryOf(s2, b2)[i] == b2[i - |s1| - 1]
  {
    var m1, m2 := MemoryOf(s1, b1), MemoryOf(s2, b2);
    assert i > |s1|;
    var k := i - |s1| - 1;
    assert b1[..k] == m1[..i][|s1| + 1..] && b2[..k] == m2[..i][|s1| + 1..];
  }

  lemma SomeDifference(s1: string, s2: string, b1: seq<char>, b2: seq<char>) returns (j: nat)
    requires '\0' !in s1 && '\0' !in s2 && (s1 == s2 ==> exists k: nat :: DifferAt(b1, b2, k))
    ensures DifferAt(MemoryOf(s1, b1), MemoryOf(s2, b2), j)
    ensures s1 != s2 ==> j <= |s1| && j <= |s2| && s1[..j] == s2[..j]
  {
    var m1, m2 := MemoryOf(s1, b1), MemoryOf(s2, b2);
    if s1 == s2 {
      var k: nat :| DifferAt(b1, b2, k);
      j := |s1| + 1 + k;
      assert m1[..j] == s1 + ['\0'] + b1[..k] && m2[..j] == s2 + ['\0'] + b2[..k];
    } else {
      j := 0;
      while j < |s1| && j < |s2| && s1[j] == s2[j]
        invariant j <= |s1| && j <= |s2| && m1[..j] == m2[..j]
      {
        SamePrefix(m1, m2, j);
        j := j + 1;
      }
      assert m1[..j] == s1[..j] && m2[..j] == s2[..j];
      assert s1[..|s1|] == s1 && s2[..|s2|] == s2;
    }
  }

  /** What substr() says of equal strings: the memory behind the first one goes on with an end mark where that
      behind the second one has a slash. */
  ghost predicate Behind(b1: seq<char>, b2: seq<char>) {
    exists k: nat :: DifferAt(b1, b2, k) && b1[k] == '\0' && b2[k] == '/'
  }

  lemma BehindIs(b1: seq<char>, b2: seq<char>, k: nat)
    requires DifferAt(b1, b2, k)
    ensures Behind(b1, b2) <==> b1[k] == '\0' && b2[k] == '/'
  {
    if j: nat :| DifferAt(b1, b2, j) && b1[j] == '\0' && b2[j] == '/' {
      DifferLater(b1, b2, k, j);
      DifferLater(b1, b2, j, k);
    }
  }

  /** substr(), with the memory behind both strings: with equal ones it runs on behind their ends. */
  method Substr(s1: string, s2: string, b1: seq<char>, b2: seq<char>) returns (r: bool)
    requires '\0' !in s1 && '\0' !in s2 && (s1 == s2 ==> exists k: nat :: DifferAt(b1, b2, k))
    ensures r <==> Ancestor(s1, s2) || (s1 == s2 && Behind(b1, b2))
  {
    var m1, m2, i := MemoryOf(s1, b1), MemoryOf(s2, b2), 0;
    ghost var j := SomeDifference(s1, s2, b1, b2);
    hide MemoryOf;
    while m1[i] == m2[i]
      invariant i < |m1| && i < |m2| && m1[..i] == m2[..i] && i <= j
      decreases j - i
    {
      SamePrefix(m1, m2, i);
      i := i + 1;
      DifferLater(m1, m2, i, j);
    }
    if s1 != s2 {
      StringsDiffer(s1, s2, b1, b2, i, j);
      EndsAt(s1, s2, i);
    } else {
      BehindDiffers(s1, s2, b1, b2, i);
      BehindIs(b1, b2, i - |s1| - 1);
    }
    r := m1[i] == '\0' && m2[i] == '/';
  }

  /** Entry x lies in the directory of entry d. */
  predicate Above(d: Entry, x: Entry) { Ancestor(d.dir, x.dir) }

  /** The memory behind the paths of two entries when they are compared. */
  type Memory = (Entry, Entry) -> (seq<char>, seq<char>)

  /** What substr() says of the paths of two entries. */
  ghost predicate Inside(d: Entry, x: Entry, mem: Memory) {
    Above(d, x) || (d.dir == x.dir && Behind(mem(d, x).0, mem(d, x).1))
  }

  /** The comparison of the two paths comes to an end. */
  ghost predicate Ends(d: Entry, x: Entry, mem: Memory) {
    d.dir == x.dir ==> exists k: nat :: DifferAt(mem(d, x).0, mem(d, x).1, k)
  }

  /** What an object structure stands for: a node, its first kid, and the next sibling. */
  datatype Tree = Nil | Node(e: Entry, kid: Tree, sib: Tree)

  function Nodes(t: Tree): set<Entry> {
    match t
    case Nil => {}
    case Node(e, kid, sib) => {e} + Nodes(kid) + Nodes(sib)
  }

  function Entries(t: Tree): multiset<Entry> {
    match t
    case Nil => multiset{}
    case Node(e, kid, sib) => multiset{e} + Entries(kid) + Entries(sib)
  }

  /** maketree() on values. */
  ghost function Insert(t: Tree, e: Entry, mem: Memory): Tree {
    match t
    case Nil => Node(e, Nil, Nil)
    case Node(m, kid, sib) =>
      if Inside(m, e, mem) then Node(m, Insert(kid, e, mem), sib) else Node(m, kid, Insert(sib, e, mem))
  }

  /** Nothing is lost, and nothing else comes in. */
  lemma {:induction false} InsertEntries(t: Tree, e: Entry, mem: Memory)
    ensures Entries(Insert(t, e, mem)) == Entries(t) + multiset{e}
  {
    hide Inside, Above;
    if t.Node? {
      if Inside(t.e, e, mem) { InsertEntries(t.kid, e, mem); } else { InsertEntries(t.sib, e, mem); }
    }
  }

  lemma {:induction false} InsertNodes(t: Tree, e: Entry, mem: Memory)
    ensures Nodes(Insert(t, e, mem)) == Nodes(t) + {e}
  {
    hide Inside, Above;
    if t.Node? {
      if Inside(t.e, e, mem) { InsertNodes(t.kid, e, mem); } else { InsertNodes(t.sib, e, mem); }
    }
  }

  /** Entry x is somewhere below entry d. */
  predicate Under(t: Tree, d: Entry, x: Entry) {
    match t
    case Nil => false
    case Node(e, kid, sib) => (e == d && x in Nodes(kid)) || Under(kid, d, x) || Under(sib, d, x)
  }

  /** Every directory occurs once. */
  predicate Distinct(t: Tree) {
    match t
    case Nil => true
    case Node(e, kid, sib) =>
      Distinct(kid) && Distinct(sib) && e !in Nodes(kid) && e !in Nodes(sib) && Nodes(kid) !! Nodes(sib)
  }

  /** Kids lie inside, siblings and what is below them have nothing to do with each other. */
  ghost predicate Placed(t: Tree) {
    match t
    case Nil => true
    case Node(e, kid, sib) =>
      && Placed(kid) && Placed(sib)
      && (forall x :: x in Nodes(kid) ==> Above(e, x))
      && Apart({e} + Nodes(kid), Nodes(sib))
  }

  ghost predicate Apart(a: set<Entry>, b: set<Entry>) {
    forall d, x :: d in a && x in b ==> d.dir != x.dir && !Above(d, x) && !Above(x, d)
  }

  lemma Transitive(a: string, b: string, c: string)
    requires Ancestor(a, b) && Ancestor(b, c)
    ensures Ancestor(a, c)
  {
    assert a == b[..|a|] == c[..|b|][..|a|] && c[|a|] == c[..|b|][|a|];
  }

  /** Of two directories that x lies in, one lies in the other. */
  lemma Comparable(a: string, b: string, x: string)
    requires Ancestor(a, x) && Ancestor(b, x)
    ensures a == b || Ancestor(a, b) || Ancestor(b, a)
  {
    if |a| < |b| {
      assert a == x[..|b|][..|a|] && b[|a|] == x[..|b|][|a|];
    } else if |b| < |a| {
      assert b == x[..|a|][..|b|] && a[|b|] == x[..|a|][|b|];
    }
  }

  /** Entry e has a directory of its own, and none of these lies in it. */
  ghost predicate Newcomer(s: set<Entry>, e: Entry) { forall x :: x in s ==> x.dir != e.dir && !Above(e, x) }

  lemma ApartLeft(a: set<Entry>, b: set<Entry>, e: Entry)
    requires Apart(a, b) && Newcomer(b, e) && forall x :: x in b ==> !Above(x, e)
    ensures Apart(a + {e}, b)
  {
    hide Above;
  }

  lemma ApartRight(a: set<Entry>, b: set<Entry>, e: Entry)
    requires Apart(a, b) && Newcomer(a, e) && forall x :: x in a ==> !Above(x, e)
    ensures Apart(a, b + {e})
  {
    hide Above;
  }

  /** Beside a directory that e lies in, there is none. */
  lemma NotBeside(m: Entry, sib: set<Entry>, e: Entry)
    requires Above(m, e) && Apart({m}, sib)
    ensures forall x :: x in sib ==> !Above(x, e)
  {
    forall x | x in sib ensures !Above(x, e) {
      if Above(x, e) { Comparable(x.dir, m.dir, e.dir); }
    }
  }

  /** Below a directory that e does not lie in, there is none either. */
  lemma NotBelow(m: Entry, kid: set<Entry>, e: Entry)
    requires !Above(m, e) && forall x :: x in kid ==> Above(m, x)
    ensures forall x :: x in kid ==> !Above(x, e)
  {
    forall d | d in kid ensures !Above(d, e) {
      if Above(d, e) { Transitive(m.dir, d.dir, e.dir); }
    }
  }

  /** A new directory that none of the others lies in finds its place. */
  lemma {:induction false} InsertPlaced(t: Tree, e: Entry, mem: Memory)
    requires Placed(t) && Distinct(t) && Newcomer(Nodes(t), e)
    ensures Placed(Insert(t, e, mem)) && Distinct(Insert(t, e, mem))
  {
    if t.Node? {
      var m, kid, sib := t.e, t.kid, t.sib;
      assert m in Nodes(t) && Nodes(t) == {m} + Nodes(kid) + Nodes(sib);
      assert Inside(m, e, mem) <==> Above(m, e);
      InsertDistinct(t, e, mem);
      hide Above, Inside, Distinct, Apart;
      if Inside(m, e, mem) {
        InsertNodes(kid, e, mem);
        DistinctParts(t);
        InsertPlaced(kid, e, mem);
        assert Apart({m}, Nodes(sib)) by { ApartLess({m} + Nodes(kid), Nodes(sib), m); }
        NotBeside(m, Nodes(sib), e);
        ApartLeft({m} + Nodes(kid), Nodes(sib), e);
        assert {m} + Nodes(kid) + {e} == {m} + (Nodes(kid) + {e});
      } else {
        InsertNodes(sib, e, mem);
        DistinctParts(t);
        InsertPlaced(sib, e, mem);
        NotBelow(m, Nodes(kid), e);
        ApartRight({m} + Nodes(kid), Nodes(sib), e);
      }
    }
  }

  lemma ApartLess(a: set<Entry>, b: set<Entry>, m: Entry)
    requires Apart(a, b) && m in a
    ensures Apart({m}, b)
  {
    hide Above;
  }

  /** In such a tree, to lie inside is to be below. */
  lemma {:induction false} PlacedUnder(t: Tree, d: Entry, x: Entry)
    requires Placed(t) && d in Nodes(t) && x in Nodes(t)
    ensures Under(t, d, x) <==> Above(d, x)
  {
    var kid, sib := t.kid, t.sib;
    NotUnder(kid, d, x);
    NotUnder(sib, d, x);
    if d in Nodes(kid) && x in Nodes(kid) { PlacedUnder(kid, d, x); }
    if d in Nodes(sib) && x in Nodes(sib) { PlacedUnder(sib, d, x); }
  }

  lemma {:induction false} NotUnder(t: Tree, d: Entry, x: Entry)
    ensures Under(t, d, x) ==> d in Nodes(t) && x in Nodes(t)
  {
    if t.Node? {
      NotUnder(t.kid, d, x);
      NotUnder(t.sib, d, x);
    }
  }

  /** The tree of a whole table. */
  ghost function Build(es: seq<Entry>, mem: Memory): Tree {
    if es == [] then Nil else Insert(Build(es[..|es| - 1], mem), es[|es| - 1], mem)
  }

  /** No line of the table twice. */
  ghost predicate Numbered(es: seq<Entry>) { forall i, j :: 0 <= i < j < |es| ==> es[i] != es[j] }

  /** No directory twice. */
  ghost predicate Different(es: seq<Entry>) { forall i, j :: 0 <= i < j < |es| ==> es[i].dir != es[j].dir }

  /** No directory before one that it lies in. */
  ghost predicate Ordered(es: seq<Entry>) { forall i, j :: 0 <= i < j < |es| ==> !Above(es[j], es[i]) }

  ghost predicate InOrder(es: seq<Entry>) { Different(es) && Ordered(es) }

  /** A directory of the table. */
  predicate Listed(es: seq<Entry>, x: Entry) { exists i :: 0 <= i < |es| && es[i] == x }

  lemma {:induction false} BuildNodes(es: seq<Entry>, x: Entry, mem: Memory)
    ensures x in Nodes(Build(es, mem)) <==> Listed(es, x)
  {
    if es != [] {
      var n := |es| - 1;
      BuildNodes(es[..n], x, mem);
      InsertNodes(Build(es[..n], mem), es[n], mem);
      if Listed(es[..n], x) {
        var i :| 0 <= i < n && es[..n][i] == x;
        assert es[i] == x;
      }
      if Listed(es, x) && x != es[n] {
        var i :| 0 <= i < |es| && es[i] == x;
        assert es[..n][i] == x;
      }
    }
  }

  lemma {:induction false} BuildEntries(es: seq<Entry>, mem: Memory)
    ensures Entries(Build(es, mem)) == multiset(es)
  {
    if es != [] {
      var n := |es| - 1;
      BuildEntries(es[..n], mem);
      InsertEntries(Build(es[..n], mem), es[n], mem);
      LastIn(es);
      hide Entries, Insert;
    }
  }

  lemma LastIn(es: seq<Entry>)
    requires es != []
    ensures multiset(es) == multiset(es[..|es| - 1]) + multiset{es[|es| - 1]}
  {
    assert es == es[..|es| - 1] + [es[|es| - 1]];
  }

  lemma {:induction false} InsertDistinct(t: Tree, e: Entry, mem: Memory)
    requires Distinct(t) && e !in Nodes(t)
    ensures Distinct(Insert(t, e, mem))
  {
    hide Inside, Above;
    if t.Node? {
      InsertNodes(t.kid, e, mem);
      InsertNodes(t.sib, e, mem);
      InsertDistinct(t.kid, e, mem);
      InsertDistinct(t.sib, e, mem);
    }
  }

  lemma {:induction false} BuildDistinct(es: seq<Entry>, mem: Memory)
    requires Numbered(es)
    ensures Distinct(Build(es, mem))
  {
    hide Inside, Above, Distinct;
    if es == [] {
      assert Distinct(Nil) by { NilDistinct(); }
    } else {
      var n := |es| - 1;
      BuildDistinct(es[..n], mem);
      BuildNodes(es[..n], es[n], mem);
      assert !Listed(es[..n], es[n]);
      InsertDistinct(Build(es[..n], mem), es[n], mem);
    }
  }

  lemma NilDistinct()
    ensures Distinct(Nil)
  {
  }

  lemma {:induction false} BuildPlaced(es: seq<Entry>, mem: Memory)
    requires InOrder(es)
    ensures Placed(Build(es, mem)) && Distinct(Build(es, mem))
  {
    if es != [] {
      var n := |es| - 1;
      var t := Build(es[..n], mem);
      BuildPlaced(es[..n], mem);
      hide Inside, Above, Placed, Distinct;
      forall x | x in Nodes(t) ensures x.dir != es[n].dir && !Above(es[n], x) {
        BuildNodes(es[..n], x, mem);
        var i :| 0 <= i < n && es[..n][i] == x;
        assert es[i] == x;
      }
      InsertPlaced(t, es[n], mem);
    }
  }

  /** Every entry is below every listed directory that it lies in, and below no other. */
  lemma BuildUnder(es: seq<Entry>, i: nat, j: nat, mem: Memory)
    requires InOrder(es) && i < |es| && j < |es|
    ensures Under(Build(es, mem), es[i], es[j]) <==> Above(es[i], es[j])
  {
    BuildPlaced(es, mem);
    BuildNodes(es, es[i], mem);
    BuildNodes(es, es[j], mem);
    PlacedUnder(Build(es, mem), es[i], es[j]);
  }

  /** An entry is below a new one only if it has come in later. */
  lemma {:induction false} InsertUnder(t: Tree, e: Entry, d: Entry, x: Entry, mem: Memory)
    requires e !in Nodes(t) && x != e
    ensures Under(Insert(t, e, mem), d, x) <==> Under(t, d, x)
  {
    hide Inside, Above;
    if t.Node? {
      InsertNodes(t.kid, e, mem);
      InsertNodes(t.sib, e, mem);
      InsertUnder(t.kid, e, d, x, mem);
      InsertUnder(t.sib, e, d, x, mem);
    }
  }

  /** To be below is to lie inside, and to come later in the table. */
  lemma {:induction false} BelowMeans(es: seq<Entry>, i: nat, j: nat, mem: Memory)
    requires Numbered(es) && i < |es| && j < |es| && Under(Build(es, mem), es[i], es[j])
    ensures i < j && Inside(es[i], es[j], mem)
  {
    var n := |es| - 1;
    hide Inside, Above, Under;
    var t := Build(es[..n], mem);
    BuildNodes(es[..n], es[n], mem);
    assert !Listed(es[..n], es[n]);
    if j < n {
      InsertUnder(t, es[n], es[i], es[j], mem);
      NotUnder(t, es[i], es[j]);
      BuildNodes(es[..n], es[i], mem);
      assert i < n;
      BelowMeans(es[..n], i, j, mem);
    } else {
      assert Build(es, mem) == Insert(t, es[n], mem) && es[j] == es[n];
      BelowNew(t, es[n], es[i], mem);
      assert i != n;
    }
  }

  lemma {:induction false} BelowNew(t: Tree, e: Entry, d: Entry, mem: Memory)
    requires e !in Nodes(t)
    ensures Under(Insert(t, e, mem), d, e) ==> Inside(d, e, mem) && d in Nodes(t)
  {
    hide Inside, Above;
    if t == Nil {
      assert Insert(t, e, mem) == Node(e, Nil, Nil) && !Under(Nil, d, e) && Nodes(Nil) == {};
    } else {
      NotUnder(t.kid, d, e);
      NotUnder(t.sib, d, e);
      if Inside(t.e, e, mem) { BelowNew(t.kid, e, d, mem); } else { BelowNew(t.sib, e, d, mem); }
    }
  }

  /** The tree has every entry below all listed directories that it lies in exactly if the table is ordered. */
  lemma UnderExact(es: seq<Entry>, mem: Memory)
    requires Different(es)
    ensures Ordered(es) <==> forall i, j :: 0 <= i < |es| && 0 <= j < |es| ==>
      (Under(Build(es, mem), es[i], es[j]) <==> Above(es[i], es[j]))
  {
    hide Inside, Above, Under, Build;
    if Ordered(es) {
      forall i, j | 0 <= i < |es| && 0 <= j < |es|
        ensures Under(Build(es, mem), es[i], es[j]) <==> Above(es[i], es[j])
      {
        BuildUnder(es, i, j, mem);
      }
    } else {
      var i, j :| 0 <= i < j < |es| && Above(es[j], es[i]);
      if Under(Build(es, mem), es[j], es[i]) { BelowMeans(es, j, i, mem); }
    }
  }

  /** With /a/b listed before /a, /a/b is not below /a, and is tried whatever becomes of /a. */
  lemma OutOfOrder(mem: Memory)
    ensures var es := [Entry("/a/b", 0, 1), Entry("/a", 0, 2)];
      && Different(es) && Above(es[1], es[0]) && !Ordered(es) && !Under(Build(es, mem), es[1], es[0])
      && forall now :: TriedBelow(es, es[0], now, mem) ==> Count(now, es[0]) > 0
  {
    var es := [Entry("/a/b", 0, 1), Entry("/a", 0, 2)];
    assert "/a" == "/a/b"[..2] && Above(es[1], es[0]);
    hide Under, Build, Inside, Above, Count, Tries;
    forall i | 0 <= i < 2 ensures !Under(Build(es, mem), es[i], es[0]) {
      if Under(Build(es, mem), es[i], es[0]) { BelowMeans(es, i, 0, mem); }
    }
  }

  class MntTree {
    var mnt: Entry
    var kid: MntTree?
    var sib: MntTree?
    ghost var Repr: set<MntTree>

    ghost predicate Valid()
      reads this, Repr
      decreases Repr
    {
      && this in Repr
      && (kid != null ==> kid in Repr && kid.Repr <= Repr && this !in kid.Repr && kid.Valid())
      && (sib != null ==> sib in Repr && sib.Repr <= Repr && this !in sib.Repr && sib.Valid())
      && (kid != null && sib != null ==> kid.Repr !! sib.Repr)
    }

    ghost function Tree(): (t: Tree)
      requires Valid()
      reads this, Repr
      ensures t.Node?
      decreases Repr
    {
      Node(mnt, if kid == null then Nil else kid.Tree(), if sib == null then Nil else sib.Tree())
    }

    constructor (mnt: Entry)
      ensures Valid() && Tree() == Node(mnt, Nil, Nil) && fresh(Repr)
    {
      this.mnt, kid, sib := mnt, null, null;
      Repr := {this};
    }
  }

  ghost predicate ValidTree(mt: MntTree?)
    reads mt, if mt == null then {} else mt.Repr
  {
    mt != null ==> mt.Valid()
  }

  ghost function TreeOf(mt: MntTree?): Tree
    requires ValidTree(mt)
    reads mt, if mt == null then {} else mt.Repr
  {
    if mt == null then Nil else mt.Tree()
  }

  predicate PathOk(dir: string) { '\0' !in dir }

  /** A node with separate trees below and beside it. */
  lemma Attached(mt: MntTree, kid: MntTree?, sib: MntTree?)
    requires mt.kid == kid && mt.sib == sib && mt in mt.Repr && ValidTree(kid) && ValidTree(sib)
    requires kid != null ==> mt !in kid.Repr && kid.Repr <= mt.Repr
    requires sib != null ==> mt !in sib.Repr && sib.Repr <= mt.Repr
    requires kid != null && sib != null ==> kid.Repr !! sib.Repr
    ensures mt.Valid() && mt.Tree() == Node(mt.mnt, TreeOf(kid), TreeOf(sib))
  {
  }

  /** Both paths are strings, and substr() comes to an end on them. */
  ghost predicate Fits(x: Entry, mnt: Entry, mem: Memory) { PathOk(x.dir) && PathOk(mnt.dir) && Ends(x, mnt, mem) }

  /** maketree() */
  method MakeTree(mt: MntTree?, mnt: Entry, mem: Memory) returns (r: MntTree)
    requires ValidTree(mt) && PathOk(mnt.dir)
    requires forall x :: x in Nodes(TreeOf(mt)) ==> Fits(x, mnt, mem)
    modifies if mt == null then {} else mt.Repr
    ensures r.Valid() && r.Tree() == Insert(old(TreeOf(mt)), mnt, mem)
    ensures mt != null ==> r == mt && fresh(r.Repr - old(mt.Repr))
    ensures mt == null ==> fresh(r.Repr)
    decreases if mt == null then {} else mt.Repr, 1
  {
    if mt == null {
      r := new MntTree(mnt);
    } else {
      NodesOf(mt.Tree());
      assert Fits(mt.mnt, mnt, mem);
      var inside := Substr(mt.mnt.dir, mnt.dir, mem(mt.mnt, mnt).0, mem(mt.mnt, mnt).1);
      if inside { AddKid(mt, mnt, mem); } else { AddSib(mt, mnt, mem); }
      r := mt;
    }
  }

  method AddKid(mt: MntTree, mnt: Entry, mem: Memory)
    requires mt.Valid() && PathOk(mnt.dir)
    requires forall x :: x in Nodes(mt.Tree()) ==> Fits(x, mnt, mem)
    modifies mt.Repr
    ensures mt.Valid() && fresh(mt.Repr - old(mt.Repr))
    ensures mt.Tree() == Node(old(mt.Tree().e), Insert(old(mt.Tree().kid), mnt, mem), old(mt.Tree().sib))
    decreases mt.Repr, 0
  {
    hide Insert, Nodes, Fits;
    ghost var t, rest := mt.Tree(), mt.sib;
    assert rest != null ==> rest.Valid() && rest.Tree() == t.sib && mt !in rest.Repr;
    assert rest != null && mt.kid != null ==> rest.Repr !! mt.kid.Repr;
    NodesOf(t);
    var kid := MakeTree(mt.kid, mnt, mem);
    assert rest != null ==> rest.Valid() && rest.Tree() == t.sib && rest.Repr !! kid.Repr;
    mt.kid := kid;
    mt.Repr := mt.Repr + kid.Repr;
    Attached(mt, kid, rest);
  }

  method AddSib(mt: MntTree, mnt: Entry, mem: Memory)
    requires mt.Valid() && PathOk(mnt.dir)
    requires forall x :: x in Nodes(mt.Tree()) ==> Fits(x, mnt, mem)
    modifies mt.Repr
    ensures mt.Valid() && fresh(mt.Repr - old(mt.Repr))
    ensures mt.Tree() == Node(old(mt.Tree().e), old(mt.Tree().kid), Insert(old(mt.Tree().sib), mnt, mem))
    decreases mt.Repr, 0
  {
    hide Insert, Nodes, Fits;
    ghost var t, rest := mt.Tree(), mt.kid;
    assert rest != null ==> rest.Valid() && rest.Tree() == t.kid && mt !in rest.Repr;
    assert rest != null && mt.sib != null ==> rest.Repr !! mt.sib.Repr;
    NodesOf(t);
    var sib := MakeTree(mt.sib, mnt, mem);
    assert rest != null ==> rest.Valid() && rest.Tree() == t.kid && rest.Repr !! sib.Repr;
    mt.sib := sib;
    mt.Repr := mt.Repr + sib.Repr;
    Attached(mt, rest, sib);
  }

  lemma NodesOf(t: Tree)
    requires t.Node?
    ensures Nodes(t) == {t.e} + Nodes(t.kid) + Nodes(t.sib)
  {
  }

  class Session {
    var log: seq<Attempt>
    var tick: nat
    const env: nat -> Result

    constructor (env: nat -> Result)
      ensures log == []
    {
      this.env := env;
      log, tick := [], 0;
    }

    /** The attempts for one entry: again after a network error, as often as `retry` allows. */
    method Try(e: Entry) returns (mounted: bool, ghost own: seq<Attempt>)
      modifies this
      ensures log == old(log) + own && 1 <= |own| <= Tries(e)
      ensures forall k :: 0 <= k < |own| ==> own[k].e == e && (k < |own| - 1 ==> own[k].result == NetworkError)
      ensures own[|own| - 1].result == NetworkError ==> |own| == Tries(e)
      ensures mounted == (own[|own| - 1].result == Mounted) && Came(own, env, old(tick), tick)
    {
      var retry: Int32 := if e.retry == 0 then NRETRY else e.retry;
      own := [];
      mounted := false;
      while true
        invariant log == old(log) + own && |own| + Left(retry) + 1 == Tries(e)
        invariant forall k :: 0 <= k < |own| ==>
          own[k] == Attempt(e, env(old(tick) + k)) && own[k].result == NetworkError
        invariant tick == old(tick) + |own|
        decreases Left(retry)
      {
        var result := env(tick);
        tick := tick + 1;
        log := log + [Attempt(e, result)];
        own := own + [Attempt(e, result)];
        if result != NetworkError {
          mounted := result == Mounted;
          return;
        }
        if retry == 0 { return; }
        retry := Decrement(retry);
      }
    }
  }

  /** Directory d has been mounted. */
  predicate WasMounted(now: seq<Attempt>, d: Entry) { Attempt(d, Mounted) in now }

  /** Directory d has been given up for another reason than the network. */
  predicate HasFailed(now: seq<Attempt>, d: Entry) { Attempt(d, Failed) in now }

  function Count(now: seq<Attempt>, x: Entry): (n: nat)
    ensures n > 0 <==> exists k :: 0 <= k < |now| && now[k].e == x
  {
    if now == [] then 0
    else
      assert forall k :: 0 <= k < |now| ==> now[k] == if k < |now| - 1 then now[..|now| - 1][k] else now[k];
      Count(now[..|now| - 1], x) + if now[|now| - 1].e == x then 1 else 0
  }

  lemma {:induction false} AllCount(now: seq<Attempt>, x: Entry)
    requires forall k :: 0 <= k < |now| ==> now[k].e == x
    ensures Count(now, x) == |now|
  {
    if now != [] { AllCount(now[..|now| - 1], x); }
  }

  lemma {:induction false} CountConcat(a: seq<Attempt>, b: seq<Attempt>, x: Entry)
    ensures Count(a + b, x) == Count(a, x) + Count(b, x)
  {
    if b == [] {
      assert a + b == a;
    } else {
      assert (a + b)[..|a + b| - 1] == a + b[..|b| - 1];
      CountConcat(a, b[..|b| - 1], x);
    }
  }

  /** The number of tries that the entries of a tree allow a directory. */
  function TriesIn(t: Tree, x: Entry): nat {
    match t
    case Nil => 0
    case Node(e, kid, sib) =>
      if e == x then Tries(e) else if x in Nodes(kid) then TriesIn(kid, x) else TriesIn(sib, x)
  }

  /** `cur` is what is left of t0 along its siblings. */
  ghost predicate Remains(t0: Tree, cur: Tree) {
    && Nodes(cur) <= Nodes(t0)
    && (forall x :: x in Nodes(cur) ==> TriesIn(t0, x) == TriesIn(cur, x))
    && (forall d, x :: x in Nodes(cur) ==> (Under(t0, d, x) <==> Under(cur, d, x)))
    && (forall d, x :: Under(t0, d, x) && d in Nodes(cur) ==> x in Nodes(cur))
  }

  /** No attempt before everything above has been mounted. */
  ghost predicate InTime(t: Tree, now: seq<Attempt>) {
    forall k, d :: 0 <= k < |now| && Under(t, d, now[k].e) ==> WasMounted(now[..k], d)
  }

  /** An entry that has been tried is mounted, or has failed, or has used up its tries. */
  predicate Concluded(now: seq<Attempt>, x: Entry, tries: nat) {
    Count(now, x) == 0 || WasMounted(now, x) || HasFailed(now, x) || Count(now, x) == tries
  }

  /** Entry x has been tried if and only if everything above it has been mounted, and not too often; the tries end
      only with a result or when there are no more. */
  ghost predicate Handled(t: Tree, x: Entry, now: seq<Attempt>) {
    && Count(now, x) <= TriesIn(t, x) && Concluded(now, x, TriesIn(t, x))
    && (Count(now, x) > 0 <==> forall d :: Under(t, d, x) ==> WasMounted(now, d))
  }

  /** What mounttree() has done when `cur` is left: `ok` tells whether everything so far is mounted. */
  ghost predicate Covered(t0: Tree, cur: Tree, now: seq<Attempt>, ok: bool) {
    && Remains(t0, cur)
    && (forall k :: 0 <= k < |now| ==> now[k].e in Nodes(t0) - Nodes(cur))
    && InTime(t0, now)
    && (forall x :: x in Nodes(t0) - Nodes(cur) ==> Handled(t0, x, now))
    && (ok <==> forall x :: x in Nodes(t0) - Nodes(cur) ==> WasMounted(now, x))
  }

  lemma CoveredStart(t: Tree)
    ensures Covered(t, t, [], true)
  {
    forall d, x | Under(t, d, x) ensures x in Nodes(t) {
      NotUnder(t, d, x);
    }
  }

  /** The attempts for one node and for its kids. */
  ghost predicate OneNode(e: Entry, own: seq<Attempt>, mounted: bool) {
    && 1 <= |own| <= Tries(e) && (own[|own| - 1].result == NetworkError ==> |own| == Tries(e))
    && (forall k :: 0 <= k < |own| ==> own[k].e == e && (k < |own| - 1 ==> own[k].result == NetworkError))
    && mounted == (own[|own| - 1].result == Mounted)
  }

  lemma MountedIn(a: seq<Attempt>, b: seq<Attempt>, d: Entry)
    ensures WasMounted(a + b, d) <==> WasMounted(a, d) || WasMounted(b, d)
    ensures HasFailed(a + b, d) <==> HasFailed(a, d) || HasFailed(b, d)
  {
  }

  lemma NoCount(now: seq<Attempt>, dirs: set<Entry>, x: Entry)
    requires x !in dirs && forall k :: 0 <= k < |now| ==> now[k].e in dirs
    ensures Count(now, x) == 0 && !WasMounted(now, x) && !HasFailed(now, x)
  {
  }

  /** The rest of the siblings. */
  lemma RemainsSib(t0: Tree, cur: Tree)
    requires Remains(t0, cur) && cur.Node? && Distinct(cur)
    ensures Remains(t0, cur.sib)
  {
    forall d, x | x in Nodes(cur.sib) ensures Under(t0, d, x) <==> Under(cur.sib, d, x) {
      NotUnder(cur.kid, d, x);
    }
    forall d, x | Under(t0, d, x) && d in Nodes(cur.sib) ensures x in Nodes(cur.sib) {
      NotUnder(cur.kid, d, x);
      NotUnder(cur.sib, d, x);
    }
  }

  /** What an entry of the node at hand needs. */
  lemma AboveKid(t0: Tree, cur: Tree, d: Entry, x: Entry)
    requires Remains(t0, cur) && cur.Node? && Distinct(cur) && x in Nodes(cur.kid) + {cur.e}
    ensures x == cur.e ==> !Under(t0, d, x)
    ensures x in Nodes(cur.kid) ==> (Under(t0, d, x) <==> d == cur.e || Under(cur.kid, d, x))
    ensures TriesIn(t0, x) == if x == cur.e then Tries(cur.e) else TriesIn(cur.kid, x)
  {
    NotUnder(cur.kid, d, x);
    NotUnder(cur.sib, d, x);
  }

  lemma StepHandled(t0: Tree, cur: Tree, now: seq<Attempt>, ok: bool, own: seq<Attempt>, mounted: bool,
                    kids: seq<Attempt>, kidsOk: bool, x: Entry)
    requires Covered(t0, cur, now, ok) && cur.Node? && Distinct(cur) && OneNode(cur.e, own, mounted)
    requires if mounted then Covered(cur.kid, Nil, kids, kidsOk) else kids == []
    requires x in Nodes(t0) - Nodes(cur.sib)
    ensures Handled(t0, x, now + own + kids)
  {
    if x !in Nodes(cur) {
      EarlierHandled(t0, cur, now, ok, own, mounted, kids, kidsOk, x);
    } else {
      ThreeParts(now, own, kids, x);
      NoCount(now, Nodes(t0) - Nodes(cur), x);
      hide Count, WasMounted, HasFailed, Tries;
      if x == cur.e {
        NoCount(kids, Nodes(cur.kid), x);
        forall d ensures !Under(t0, d, x) && TriesIn(t0, x) == Tries(cur.e) {
          AboveKid(t0, cur, d, x);
        }
        OwnCount(cur.e, own, mounted);
      } else {
        NoCount(own, {cur.e}, x);
        KidHandled(t0, cur, now, own, mounted, kids, kidsOk, x);
      }
    }
  }

  /** Attempts one after the other. */
  lemma ThreeParts(now: seq<Attempt>, own: seq<Attempt>, kids: seq<Attempt>, x: Entry)
    ensures Count(now + own + kids, x) == Count(now, x) + Count(own, x) + Count(kids, x)
    ensures forall d ::
      WasMounted(now + own + kids, d) <==> WasMounted(now, d) || WasMounted(own, d) || WasMounted(kids, d)
    ensures HasFailed(now + own + kids, x) <==> HasFailed(now, x) || HasFailed(own, x) || HasFailed(kids, x)
  {
    MountedIn(now + own, kids, x);
    MountedIn(now, own, x);
    CountConcat(now + own, kids, x);
    CountConcat(now, own, x);
    forall d
      ensures WasMounted(now + own + kids, d) <==> WasMounted(now, d) || WasMounted(own, d) || WasMounted(kids, d)
    {
      MountedIn(now + own, kids, d);
      MountedIn(now, own, d);
    }
  }

  /** An entry before the node at hand: nothing changes for it. */
  lemma EarlierHandled(t0: Tree, cur: Tree, now: seq<Attempt>, ok: bool, own: seq<Attempt>, mounted: bool,
                       kids: seq<Attempt>, kidsOk: bool, x: Entry)
    requires Covered(t0, cur, now, ok) && cur.Node? && OneNode(cur.e, own, mounted)
    requires if mounted then Covered(cur.kid, Nil, kids, kidsOk) else kids == []
    requires x in Nodes(t0) - Nodes(cur)
    ensures Handled(t0, x, now + own + kids)
  {
    hide Count, WasMounted, HasFailed, Tries, TriesIn, OneNode;
    assert Handled(t0, x, now) && Remains(t0, cur);
    ThreeParts(now, own, kids, x);
    NotOfNode(cur, own, mounted, kids, kidsOk, x);
    forall d | Under(t0, d, x) ensures WasMounted(now + own + kids, d) <==> WasMounted(now, d) {
      NotInRest(t0, cur, d, x);
      NotOfNode(cur, own, mounted, kids, kidsOk, d);
    }
    hide Covered, Remains, Under, Nodes;
  }

  /** Neither the node nor what is below it has anything to do with the entries before it. */
  lemma NotOfNode(cur: Tree, own: seq<Attempt>, mounted: bool, kids: seq<Attempt>, kidsOk: bool, d: Entry)
    requires cur.Node? && OneNode(cur.e, own, mounted) && d !in Nodes(cur)
    requires if mounted then Covered(cur.kid, Nil, kids, kidsOk) else kids == []
    ensures Count(own, d) == 0 && Count(kids, d) == 0 && !WasMounted(own, d) && !WasMounted(kids, d)
    ensures !HasFailed(own, d) && !HasFailed(kids, d)
  {
    NoCount(own, {cur.e}, d);
    NoCount(kids, Nodes(cur.kid), d);
  }

  lemma NotInRest(t0: Tree, cur: Tree, d: Entry, x: Entry)
    requires Remains(t0, cur) && Under(t0, d, x) && x !in Nodes(cur)
    ensures d !in Nodes(cur)
  {
  }

  lemma OwnCount(e: Entry, own: seq<Attempt>, mounted: bool)
    requires OneNode(e, own, mounted)
    ensures 0 < Count(own, e) <= Tries(e) && WasMounted(own, e) == mounted && Concluded(own, e, Tries(e))
  {
    assert own[0].e == e;
    var last := own[|own| - 1];
    assert last == Attempt(e, last.result) && last in own;
    AllCount(own, e);
  }

  lemma KidHandled(t0: Tree, cur: Tree, now: seq<Attempt>, own: seq<Attempt>, mounted: bool, kids: seq<Attempt>,
                   kidsOk: bool, x: Entry)
    requires Remains(t0, cur) && cur.Node? && Distinct(cur) && OneNode(cur.e, own, mounted)
    requires forall k :: 0 <= k < |now| ==> now[k].e in Nodes(t0) - Nodes(cur)
    requires if mounted then Covered(cur.kid, Nil, kids, kidsOk) else kids == []
    requires x in Nodes(cur.kid)
    ensures Count(kids, x) <= TriesIn(t0, x) && Concluded(kids, x, TriesIn(t0, x))
    ensures Count(kids, x) > 0 <==>
      forall d :: Under(t0, d, x) ==> WasMounted(now, d) || WasMounted(own, d) || WasMounted(kids, d)
  {
    hide Tries, OneNode;
    OwnCount(cur.e, own, mounted);
    NoCount(now, Nodes(t0) - Nodes(cur), cur.e);
    NoCount(kids, Nodes(cur.kid), cur.e);
    hide WasMounted, HasFailed;
    forall d
      ensures (Under(t0, d, x) <==> d == cur.e || Under(cur.kid, d, x)) && TriesIn(t0, x) == TriesIn(cur.kid, x)
    {
      AboveKid(t0, cur, d, x);
    }
    forall d | Under(cur.kid, d, x) ensures !WasMounted(now, d) && !WasMounted(own, d) {
      NotUnder(cur.kid, d, x);
      NoCount(now, Nodes(t0) - Nodes(cur), d);
      OwnOnly(cur.e, own, mounted, d);
    }
    if mounted {
      assert x in Nodes(cur.kid) - Nodes(Nil);
      assert Handled(cur.kid, x, kids);
    } else {
      assert Count(kids, x) == 0 && Under(t0, cur.e, x);
    }
  }

  lemma OwnOnly(e: Entry, own: seq<Attempt>, mounted: bool, d: Entry)
    requires OneNode(e, own, mounted) && d != e
    ensures Count(own, d) == 0 && !WasMounted(own, d) && !HasFailed(own, d)
  {
    NoCount(own, {e}, d);
  }

  lemma StepInTime(t0: Tree, cur: Tree, now: seq<Attempt>, ok: bool, own: seq<Attempt>, mounted: bool,
                    kids: seq<Attempt>, kidsOk: bool, k: nat, d: Entry)
    requires Covered(t0, cur, now, ok) && cur.Node? && Distinct(cur) && OneNode(cur.e, own, mounted)
    requires if mounted then Covered(cur.kid, Nil, kids, kidsOk) else kids == []
    requires k < |now + own + kids| && Under(t0, d, (now + own + kids)[k].e)
    ensures WasMounted((now + own + kids)[..k], d)
  {
    var all := now + own + kids;
    var x := all[k].e;
    if k < |now| {
      assert all[..k] == now[..k] && all[k] == now[k];
    } else if k < |now| + |own| {
      assert all[k] == own[k - |now|];
      AboveKid(t0, cur, d, x);
    } else {
      var j := k - |now| - |own|;
      assert all[k] == kids[j] && all[..k] == now + own + kids[..j];
      AboveKid(t0, cur, d, x);
      MountedIn(now + own, kids[..j], d);
      MountedIn(now, own, d);
      if d == cur.e {
        OwnCount(cur.e, own, mounted);
      } else {
        assert WasMounted(kids[..j], d);
      }
    }
  }

  lemma StepOk(t0: Tree, cur: Tree, now: seq<Attempt>, ok: bool, own: seq<Attempt>, mounted: bool,
               kids: seq<Attempt>, kidsOk: bool)
    requires Covered(t0, cur, now, ok) && cur.Node? && Distinct(cur) && OneNode(cur.e, own, mounted)
    requires if mounted then Covered(cur.kid, Nil, kids, kidsOk) else kids == [] && !kidsOk
    ensures ok && kidsOk <==> forall x :: x in Nodes(t0) - Nodes(cur.sib) ==> WasMounted(now + own + kids, x)
  {
    forall x
      ensures WasMounted(now + own + kids, x) <==> WasMounted(now, x) || WasMounted(own, x) || WasMounted(kids, x)
    {
      MountedIn(now + own, kids, x);
      MountedIn(now, own, x);
    }
    OwnCount(cur.e, own, mounted);
    hide WasMounted, HasFailed, Tries, Count, OneNode;
    forall x ensures
      && (x in Nodes(cur) ==> !WasMounted(now, x)) && (x != cur.e ==> !WasMounted(own, x))
      && (x !in Nodes(cur.kid) ==> !WasMounted(kids, x))
    {
      if x in Nodes(cur) { NoCount(now, Nodes(t0) - Nodes(cur), x); }
      if x != cur.e { OwnOnly(cur.e, own, mounted, x); }
      if x !in Nodes(cur.kid) { NoCount(kids, Nodes(cur.kid), x); }
    }
    AllMounted(t0, cur, now, ok, own, mounted, kids, kidsOk, now + own + kids);
  }

  lemma AllMounted(t0: Tree, cur: Tree, now: seq<Attempt>, ok: bool, own: seq<Attempt>, mounted: bool,
                   kids: seq<Attempt>, kidsOk: bool, all: seq<Attempt>)
    requires cur.Node? && Distinct(cur) && Nodes(cur) <= Nodes(t0)
    requires forall x :: WasMounted(all, x) <==> WasMounted(now, x) || WasMounted(own, x) || WasMounted(kids, x)
    requires forall x ::
      && (x in Nodes(cur) ==> !WasMounted(now, x)) && (x != cur.e ==> !WasMounted(own, x))
      && (x !in Nodes(cur.kid) ==> !WasMounted(kids, x))
    requires ok <==> forall x :: x in Nodes(t0) - Nodes(cur) ==> WasMounted(now, x)
    requires WasMounted(own, cur.e) == mounted && (kidsOk ==> mounted)
    requires mounted ==> (kidsOk <==> forall x :: x in Nodes(cur.kid) ==> WasMounted(kids, x))
    ensures ok && kidsOk <==> forall x :: x in Nodes(t0) - Nodes(cur.sib) ==> WasMounted(all, x)
  {
    hide WasMounted, HasFailed;
    if ok && kidsOk {
      forall x | x in Nodes(t0) - Nodes(cur.sib) ensures WasMounted(all, x) {
        if x in Nodes(cur) { assert x == cur.e || x in Nodes(cur.kid); }
      }
    } else if !ok {
      var x :| x in Nodes(t0) - Nodes(cur) && !WasMounted(now, x);
      assert !WasMounted(all, x) && x in Nodes(t0) - Nodes(cur.sib);
    } else if !mounted {
      assert !WasMounted(all, cur.e) && cur.e in Nodes(t0) - Nodes(cur.sib);
    } else {
      var x :| x in Nodes(cur.kid) && !WasMounted(kids, x);
      assert !WasMounted(all, x) && x in Nodes(t0) - Nodes(cur.sib);
    }
  }

  /** One round of the loop of mounttree(). */
  lemma Step(t0: Tree, cur: Tree, now: seq<Attempt>, ok: bool, own: seq<Attempt>, mounted: bool,
             kids: seq<Attempt>, kidsOk: bool)
    requires Covered(t0, cur, now, ok) && cur.Node? && Distinct(cur) && OneNode(cur.e, own, mounted)
    requires if mounted then Covered(cur.kid, Nil, kids, kidsOk) else kids == [] && !kidsOk
    ensures Covered(t0, cur.sib, now + own + kids, ok && kidsOk)
  {
    RemainsSib(t0, cur);
    StepOk(t0, cur, now, ok, own, mounted, kids, kidsOk);
    forall x | x in Nodes(t0) - Nodes(cur.sib) ensures Handled(t0, x, now + own + kids) {
      StepHandled(t0, cur, now, ok, own, mounted, kids, kidsOk, x);
    }
    var all := now + own + kids;
    forall k: nat, d: Entry | k < |all| && Under(t0, d, all[k].e) ensures WasMounted(all[..k], d) {
      StepInTime(t0, cur, now, ok, own, mounted, kids, kidsOk, k, d);
    }
    hide Handled, InTime, WasMounted, HasFailed, Remains, TriesIn, Tries;
    forall k | 0 <= k < |all| ensures all[k].e in Nodes(t0) - Nodes(cur.sib) {
      StepNodes(t0, cur, now, ok, own, mounted, kids, kidsOk, k);
    }
    assert InTime(t0, all) by { InTimeIs(t0, all); }
  }

  lemma InTimeIs(t: Tree, now: seq<Attempt>)
    requires forall k: nat, d: Entry :: k < |now| && Under(t, d, now[k].e) ==> WasMounted(now[..k], d)
    ensures InTime(t, now)
  {
  }

  lemma StepNodes(t0: Tree, cur: Tree, now: seq<Attempt>, ok: bool, own: seq<Attempt>, mounted: bool,
                 kids: seq<Attempt>, kidsOk: bool, k: nat)
    requires Covered(t0, cur, now, ok) && cur.Node? && Distinct(cur) && OneNode(cur.e, own, mounted)
    requires if mounted then Covered(cur.kid, Nil, kids, kidsOk) else kids == []
    requires k < |now + own + kids|
    ensures (now + own + kids)[k].e in Nodes(t0) - Nodes(cur.sib)
  {
    if k >= |now| + |own| { assert (now + own + kids)[k] == kids[k - |now| - |own|]; }
  }

  /** The attempts have the results that the system has given one after the other. */
  ghost predicate Came(now: seq<Attempt>, env: nat -> Result, tick: nat, tick': nat) {
    tick' == tick + |now| && forall k :: 0 <= k < |now| ==> now[k].result == env(tick + k)
  }

  lemma CameNone(env: nat -> Result, tick: nat)
    ensures Came([], env, tick, tick)
  {
  }

  lemma CameOn(a: seq<Attempt>, b: seq<Attempt>, env: nat -> Result, tick: nat, tick': nat, tick'': nat)
    requires Came(a, env, tick, tick') && Came(b, env, tick', tick'')
    ensures Came(a + b, env, tick, tick'')
  {
    forall k | 0 <= k < |a + b| ensures (a + b)[k].result == env(tick + k) {
      if k >= |a| { assert (a + b)[k] == b[k - |a|]; }
    }
  }

  /** mounttree() */
  method MountTree(mt0: MntTree?, s: Session) returns (ok: bool, ghost now: seq<Attempt>)
    requires ValidTree(mt0) && Distinct(TreeOf(mt0))
    modifies s
    ensures s.log == old(s.log) + now && Covered(TreeOf(mt0), Nil, now, ok)
    ensures Came(now, s.env, old(s.tick), s.tick)
    decreases if mt0 == null then {} else mt0.Repr
  {
    hide Covered, Tries, Distinct, OneNode, Came;
    var mt := mt0;
    ghost var t0 := TreeOf(mt0);
    now, ok := [], true;
    CoveredStart(t0);
    CameNone(s.env, s.tick);
    while mt != null
      invariant ValidTree(mt) && ValidTree(mt0) && TreeOf(mt0) == t0 && Distinct(TreeOf(mt))
      invariant s.log == old(s.log) + now && Covered(t0, TreeOf(mt), now, ok)
      invariant Came(now, s.env, old(s.tick), s.tick)
      invariant mt != null ==> mt0 != null && mt.Repr <= mt0.Repr
      decreases if mt == null then {} else mt.Repr
    {
      ghost var cur, own, kids := mt.Tree(), [], [];
      ghost var tick, tick' := s.tick, s.tick;
      var mounted, kidsOk;
      DistinctParts(cur);
      mounted, own := s.Try(mt.mnt);
      tick' := s.tick;
      CameNone(s.env, tick');
      kidsOk := false;
      if mounted { kidsOk, kids := MountTree(mt.kid, s); }
      CameOn(now, own, s.env, old(s.tick), tick, tick');
      CameOn(now + own, kids, s.env, old(s.tick), tick', s.tick);
      OneNodeIs(mt.mnt, own, mounted);
      Step(t0, cur, now, ok, own, mounted, kids, kidsOk);
      now := now + own + kids;
      ok := ok && kidsOk;
      mt := mt.sib;
    }
  }

  lemma DistinctParts(t: Tree)
    requires Distinct(t) && t.Node?
    ensures Distinct(t.kid) && Distinct(t.sib)
  {
  }

  lemma OneNodeIs(e: Entry, own: seq<Attempt>, mounted: bool)
    requires 1 <= |own| <= Tries(e) && mounted == (own[|own| - 1].result == Mounted)
    requires own[|own| - 1].result == NetworkError ==> |own| == Tries(e)
    requires forall k :: 0 <= k < |own| ==> own[k].e == e && (k < |own| - 1 ==> own[k].result == NetworkError)
    ensures OneNode(e, own, mounted)
  {
  }

  lemma {:induction false} InsertTries(t: Tree, e: Entry, x: Entry, mem: Memory)
    requires e !in Nodes(t)
    ensures TriesIn(Insert(t, e, mem), x) == if x == e then Tries(e) else TriesIn(t, x)
  {
    hide Inside, Above, Tries;
    if t.Node? {
      InsertNodes(t.kid, e, mem);
      InsertNodes(t.sib, e, mem);
      InsertTries(t.kid, e, x, mem);
      InsertTries(t.sib, e, x, mem);
    }
  }

  lemma {:induction false} BuildTries(es: seq<Entry>, j: nat, mem: Memory)
    requires Numbered(es) && j < |es|
    ensures TriesIn(Build(es, mem), es[j]) == Tries(es[j])
  {
    var n := |es| - 1;
    hide Inside, Above, Tries;
    BuildNodes(es[..n], es[n], mem);
    assert !Listed(es[..n], es[n]);
    InsertTries(Build(es[..n], mem), es[n], es[j], mem);
    if j < n { BuildTries(es[..n], j, mem); }
  }

  /** Entry x of the table has been tried exactly if everything that it lies in has been mounted, and not too
      often. */
  ghost predicate TriedRightly(es: seq<Entry>, x: Entry, now: seq<Attempt>) {
    && Count(now, x) <= Tries(x) && Concluded(now, x, Tries(x))
    && (Count(now, x) > 0 <==>
      forall i :: 0 <= i < |es| && Above(es[i], x) ==> WasMounted(now, es[i]))
  }

  lemma Rightly(es: seq<Entry>, j: nat, now: seq<Attempt>, ok: bool, mem: Memory)
    requires InOrder(es) && j < |es| && Covered(Build(es, mem), Nil, now, ok)
    ensures TriedRightly(es, es[j], now)
  {
    hide Inside, Above, Tries, Count, WasMounted, HasFailed, Build;
    var t, x := Build(es, mem), es[j];
    BuildNodes(es, x, mem);
    assert x in Nodes(t) - Nodes(Nil) && Handled(t, x, now);
    BuildTries(es, j, mem);
    forall i | 0 <= i < |es| ensures Under(t, es[i], x) <==> Above(es[i], x) {
      BuildUnder(es, i, j, mem);
    }
    forall d | Under(t, d, x) ensures Listed(es, d) {
      NotUnder(t, d, x);
      BuildNodes(es, d, mem);
    }
  }

  /** The attempts for any table: every entry is there, and the result tells whether all are mounted. */
  lemma TableMounted(es: seq<Entry>, now: seq<Attempt>, ok: bool, mem: Memory)
    requires Numbered(es) && Covered(Build(es, mem), Nil, now, ok)
    ensures forall j :: 0 <= j < |es| ==> TriedBelow(es, es[j], now, mem)
    ensures forall k, i :: 0 <= k < |now| && 0 <= i < |es| && Under(Build(es, mem), es[i], now[k].e) ==>
      WasMounted(now[..k], es[i])
    ensures ok <==> forall j :: 0 <= j < |es| ==> WasMounted(now, es[j])
  {
    hide Inside, Above, Tries, Count, WasMounted, HasFailed, Build, TriedBelow, Different, Under;
    forall j | 0 <= j < |es| ensures TriedBelow(es, es[j], now, mem) {
      Below(es, j, now, ok, mem);
    }
    forall x ensures x in Nodes(Build(es, mem)) <==> Listed(es, x) {
      BuildNodes(es, x, mem);
    }
    if ok {
      forall j | 0 <= j < |es| ensures WasMounted(now, es[j]) {
        assert Listed(es, es[j]) && es[j] in Nodes(Build(es, mem)) - Nodes(Nil);
      }
    } else {
      var x :| x in Nodes(Build(es, mem)) - Nodes(Nil) && !WasMounted(now, x);
      var j :| 0 <= j < |es| && es[j] == x;
      assert !WasMounted(now, es[j]);
    }
  }

  /** Entry x has been tried exactly if everything above it in the tree has been mounted, and not too often. */
  ghost predicate TriedBelow(es: seq<Entry>, x: Entry, now: seq<Attempt>, mem: Memory) {
    && Count(now, x) <= Tries(x) && Concluded(now, x, Tries(x))
    && (Count(now, x) > 0 <==>
        forall i :: 0 <= i < |es| && Under(Build(es, mem), es[i], x) ==> WasMounted(now, es[i]))
  }

  lemma Below(es: seq<Entry>, j: nat, now: seq<Attempt>, ok: bool, mem: Memory)
    requires Numbered(es) && j < |es| && Covered(Build(es, mem), Nil, now, ok)
    ensures TriedBelow(es, es[j], now, mem)
  {
    hide Inside, Above, Tries, Count, WasMounted, HasFailed, Build;
    var t, x := Build(es, mem), es[j];
    BuildNodes(es, x, mem);
    assert x in Nodes(t) - Nodes(Nil) && Handled(t, x, now);
    BuildTries(es, j, mem);
    forall d | Under(t, d, x) ensures Listed(es, d) {
      NotUnder(t, d, x);
      BuildNodes(es, d, mem);
    }
  }

  /** The same for an ordered table, where to be below is to lie inside. */
  lemma OrderedMounted(es: seq<Entry>, now: seq<Attempt>, ok: bool, mem: Memory)
    requires InOrder(es) && Covered(Build(es, mem), Nil, now, ok)
    ensures forall j :: 0 <= j < |es| ==> TriedRightly(es, es[j], now)
    ensures forall k, i :: 0 <= k < |now| && 0 <= i < |es| && Above(es[i], now[k].e) ==>
      WasMounted(now[..k], es[i])
  {
    hide Inside, Above, Tries, Count, WasMounted, HasFailed, Build, TriedRightly;
    forall j | 0 <= j < |es| ensures TriedRightly(es, es[j], now) {
      Rightly(es, j, now, ok, mem);
    }
    forall k, i | 0 <= k < |now| && 0 <= i < |es| && Above(es[i], now[k].e)
      ensures WasMounted(now[..k], es[i])
    {
      assert now[k].e in Nodes(Build(es, mem)) - Nodes(Nil);
      BuildNodes(es, now[k].e, mem);
      var j :| 0 <= j < |es| && es[j] == now[k].e;
      BuildUnder(es, i, j, mem);
    }
  }

  /** mount -a.  For every table an entry is attempted if and only if what is above it in the tree has been
      mounted, and only afterwards; in an ordered table that is every directory that it lies in. */
  method MountAll(es: seq<Entry>, s: Session, mem: Memory) returns (ok: bool, ghost now: seq<Attempt>)
    requires Numbered(es) && forall i :: 0 <= i < |es| ==> PathOk(es[i].dir)
    requires forall i, j :: 0 <= i < j < |es| ==> Ends(es[i], es[j], mem)
    modifies s
    ensures s.log == old(s.log) + now && Came(now, s.env, old(s.tick), s.tick)
    ensures forall j :: 0 <= j < |es| ==> TriedBelow(es, es[j], now, mem)
    ensures forall k, i :: 0 <= k < |now| && 0 <= i < |es| && Under(Build(es, mem), es[i], now[k].e) ==>
      WasMounted(now[..k], es[i])
    ensures ok <==> forall j :: 0 <= j < |es| ==> WasMounted(now, es[j])
    ensures InOrder(es) ==> forall j :: 0 <= j < |es| ==> TriedRightly(es, es[j], now)
    ensures InOrder(es) ==>
      forall k, i :: 0 <= k < |now| && 0 <= i < |es| && Above(es[i], now[k].e) ==> WasMounted(now[..k], es[i])
  {
    hide Covered, TriedRightly, TriedBelow, InOrder, Numbered, Above, Distinct, Under, PathOk, Build, Ends, Fits, Came;
    var mtree: MntTree? := null;
    assert es[..0] == [];
    BuildNone(mem);
    for n := 0 to |es|
      invariant ValidTree(mtree) && TreeOf(mtree) == Build(es[..n], mem)
      invariant s.log == old(s.log) && s.tick == old(s.tick) && (mtree != null ==> fresh(mtree.Repr))
    {
      NextEntry(es, n, mem);
      mtree := MakeTree(mtree, es[n], mem);
    }
    assert es[..|es|] == es;
    BuildDistinct(es, mem);
    ok, now := MountTree(mtree, s);
    TableMounted(es, now, ok, mem);
    if InOrder(es) { OrderedMounted(es, now, ok, mem); }
  }

  lemma BuildNone(mem: Memory)
    ensures Build([], mem) == Nil
  {
  }

  lemma NextEntry(es: seq<Entry>, n: nat, mem: Memory)
    requires n < |es| && forall i :: 0 <= i < |es| ==> PathOk(es[i].dir)
    requires forall i, j :: 0 <= i < j < |es| ==> Ends(es[i], es[j], mem)
    ensures Build(es[..n + 1], mem) == Insert(Build(es[..n], mem), es[n], mem)
    ensures PathOk(es[n].dir) && forall x :: x in Nodes(Build(es[..n], mem)) ==> Fits(x, es[n], mem)
  {
    assert es[..n + 1][..n] == es[..n];
    hide Inside, Build, PathOk, Ends;
    forall x | x in Nodes(Build(es[..n], mem)) ensures Fits(x, es[n], mem) {
      BuildNodes(es[..n], x, mem);
      var i :| 0 <= i < n && es[..n][i] == x;
      assert es[i] == x;
    }
  }
}
