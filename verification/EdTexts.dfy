/** What the editing commands of bin/ed.c make of the lines of a buffer and their texts. */
module EdTexts {
  import opened Wrappers
  import opened EdLines
  import opened EdTempFile
  import opened EdTable

  /** One buffer-modifying step, with its line numbers worked out. */
  datatype Edit =
    | Append(at: nat, texts: seq<string>)
    | Delete(lo: nat, hi: nat)
    | Move(lo: nat, hi: nat, to: nat)
    | Copy(lo: nat, hi: nat, to: nat)
    | Join(lo: nat, hi: nat)
    | Substitute(lo: nat, hi: nat, change: string -> Option<string>)
    | Mark(name: nat, at: nat)

  /** Every entry is the address of a stored line. */
  ghost predicate Stored(s: seq<nat>, store: map<nat, string>) {
    forall k :: 0 <= k < |s| ==> Unmark(s[k]) in store
  }

  /** No stored line is lost or changed. */
  ghost predicate Grows(store: map<nat, string>, store': map<nat, string>) {
    forall a :: a in store ==> a in store' && store'[a] == store[a]
  }

  ghost function Texts(s: seq<nat>, store: map<nat, string>): (r: seq<string>)
    requires Stored(s, store)
    ensures |r| == |s|
  {
    seq(|s|, k requires 0 <= k < |s| => store[Unmark(s[k])])
  }

  function Concat(s: seq<string>): string {
    if s == [] then "" else s[0] + Concat(s[1..])
  }

  lemma {:induction false} ConcatMore(s: seq<string>, x: string)
    ensures Concat(s + [x]) == Concat(s) + x && Concat([]) == ""
  {
    if s == [] {
      assert [x][1..] == [];
    } else {
      assert (s + [x])[1..] == s[1..] + [x];
      ConcatMore(s[1..], x);
    }
  }

  lemma StillStored(s: seq<nat>, store: map<nat, string>, store': map<nat, string>)
    requires Stored(s, store) && Grows(store, store')
    ensures Stored(s, store') && Texts(s, store') == Texts(s, store)
  {
  }

  lemma GrowsFirst(a: map<nat, string>)
    ensures Grows(a, a)
  {
  }

  lemma GrowsOn(a: map<nat, string>, b: map<nat, string>, c: map<nat, string>)
    requires Grows(a, b) && Grows(b, c)
    ensures Grows(a, c)
  {
  }

  /** The lines `s` with new lines behind line `at`, up to dot, that hold the first of `texts`. */
  ghost predicate Appended(s: seq<nat>, at: nat, s': seq<nat>, dot: nat, texts: seq<string>, store: map<nat, string>) {
    && at <= |s| && at <= dot <= at + |texts| && |s'| == |s| + (dot - at)
    && s'[..at] == s[..at] && s'[dot..] == s[at..]
    && forall k :: 0 <= k < dot - at ==> HoldsText(s'[at + k], texts[k], store)
  }

  ghost predicate HoldsText(tl: nat, text: string, store: map<nat, string>) {
    tl % 2 == 0 && tl in store && store[tl] == Text(text)
  }

  /** What putline() leaves over of a line buffer: the text behind its first newline. */
  function Rest(s: string): Option<string> {
    if |Text(s)| < |s| then Some(s[|Text(s)| + 1..]) else None
  }

  /** What getsub() hands over, time after time. */
  function Rests(linebp: Option<string>): seq<string>
    decreases if linebp.None? then 0 else |linebp.value| + 1
  {
    if linebp.None? then [] else [linebp.value] + Rests(Rest(linebp.value))
  }

  /** The lines that a text with newlines becomes. */
  function Pieces(text: string): (r: seq<string>)
    ensures |r| >= 1
    decreases |text|
  {
    [Text(text)] + match Rest(text) case None => [] case Some(s) => Pieces(s)
  }

  lemma {:induction false} PiecesAre(text: string)
    ensures var rests := Rests(Some(text));
      |Pieces(text)| == |rests| && forall k :: 0 <= k < |rests| ==> Pieces(text)[k] == Text(rests[k])
    decreases |text|
  {
    var rests := Rests(Some(text));
    assert rests == [text] + Rests(Rest(text));
    if Rest(text).Some? {
      PiecesAre(Rest(text).value);
      forall k | 0 <= k < |rests| ensures Pieces(text)[k] == Text(rests[k]) {
        if k > 0 { assert rests[k] == Rests(Rest(text))[k - 1]; }
      }
    }
  }

  /** What substitute makes of lines, when `change` gives the new text of each that it does not leave. */
  function Substituted(lines: seq<string>, change: string -> Option<string>): (r: seq<string>)
    ensures |r| >= |lines|
  {
    if lines == [] then [] else Changed(lines[0], change) + Substituted(lines[1..], change)
  }

  predicate AnyChange(lines: seq<string>, change: string -> Option<string>) {
    exists k :: 0 <= k < |lines| && change(lines[k]).Some?
  }

  function Changed(line: string, change: string -> Option<string>): (r: seq<string>)
    ensures |r| >= 1
  {
    match change(line) case None => [line] case Some(text) => Pieces(text)
  }

  lemma TextsConcat(a: seq<nat>, b: seq<nat>, store: map<nat, string>)
    requires Stored(a, store) && Stored(b, store)
    ensures Stored(a + b, store) && Texts(a + b, store) == Texts(a, store) + Texts(b, store)
  {
  }

  lemma TextsParts(s: seq<nat>, lo: nat, hi: nat, store: map<nat, string>)
    requires Stored(s, store) && lo <= |s| && hi <= |s|
    ensures Stored(s[..lo], store) && Texts(s[..lo], store) == Texts(s, store)[..lo]
    ensures Stored(s[hi..], store) && Texts(s[hi..], store) == Texts(s, store)[hi..]
  {
  }

  /** The new lines among those after a line has been replaced. */
  lemma ReplacedParts(s: seq<nat>, at: nat, tl: nat, s': seq<nat>, dot: nat, texts: seq<string>,
                      store: map<nat, string>)
    requires 1 <= at <= |s| && Appended(s[at - 1 := tl], at, s', dot, texts, store) && dot == at + |texts|
    ensures s' == s[..at - 1] + ([tl] + s'[at..dot]) + s[at..] && |s'[at..dot]| == |texts|
    ensures forall k :: 0 <= k < |texts| ==> HoldsText(s'[at..dot][k], texts[k], store)
  {
    UpdatedParts(s, at, tl);
    CutThree(s', at, dot);
    NewHeld(s', at, dot, texts, store);
    hide HoldsText;
    assert s[..at - 1] + [tl] + s'[at..dot] == s[..at - 1] + ([tl] + s'[at..dot]);
  }

  lemma UpdatedParts(s: seq<nat>, at: nat, tl: nat)
    requires 1 <= at <= |s|
    ensures s[at - 1 := tl][..at] == s[..at - 1] + [tl] && s[at - 1 := tl][at..] == s[at..]
  {
  }

  lemma NewHeld(s': seq<nat>, at: nat, dot: nat, texts: seq<string>, store: map<nat, string>)
    requires at <= dot <= |s'| && dot == at + |texts|
    requires forall k :: 0 <= k < |texts| ==> HoldsText(s'[at + k], texts[k], store)
    ensures forall k :: 0 <= k < |texts| ==> HoldsText(s'[at..dot][k], texts[k], store)
  {
    hide HoldsText;
    forall k | 0 <= k < |texts| ensures HoldsText(s'[at..dot][k], texts[k], store) {
      assert s'[at..dot][k] == s'[at + k];
    }
  }

  /** Lines that hold these texts. */
  lemma TextsHeld(n: seq<nat>, texts: seq<string>, store: map<nat, string>)
    requires |n| == |texts| && forall k :: 0 <= k < |texts| ==> HoldsText(n[k], texts[k], store)
    ensures Stored(n, store) && forall k :: 0 <= k < |n| ==> Texts(n, store)[k] == Text(texts[k])
  {
    forall k | 0 <= k < |n| ensures Unmark(n[k]) == n[k] && n[k] in store && store[n[k]] == Text(texts[k]) {
      assert HoldsText(n[k], texts[k], store);
    }
  }

  lemma PiecesHeld(tl: nat, n: seq<nat>, text: string, store: map<nat, string>)
    requires HoldsText(tl, text, store) && |n| == |Rests(Rest(text))|
    requires forall k :: 0 <= k < |n| ==> HoldsText(n[k], Rests(Rest(text))[k], store)
    ensures Stored([tl] + n, store) && Texts([tl] + n, store) == Pieces(text)
  {
    PiecesAre(text);
    var rests, m := Rests(Some(text)), [tl] + n;
    assert rests == [text] + Rests(Rest(text));
    hide Rests, Rest, Pieces, Text, HoldsText;
    forall k | 0 <= k < |m| ensures HoldsText(m[k], rests[k], store) {
      if k > 0 { assert m[k] == n[k - 1] && rests[k] == Rests(Rest(text))[k - 1]; }
    }
    TextsHeld(m, rests, store);
    hide Stored;
    assert Texts(m, store) == Pieces(text);
  }

  /** The buffer after one line has been replaced. */
  lemma ReplacedTexts(s: seq<nat>, at: nat, text: string, s': seq<nat>, dot: nat, names: seq<nat>, names': seq<nat>,
                      store: map<nat, string>)
    requires Replaced(s, at, text, s', dot, names, names', store) && dot == at + |Rests(Rest(text))|
    requires Stored(s, store) && Stored(s', store)
    ensures Texts(s', store) == Texts(s, store)[..at - 1] + Pieces(text) + Texts(s, store)[at..]
    ensures dot == at + |Pieces(text)| - 1
  {
    hide Text, Rests, Rest, Pieces, Stored, HoldsText, Appended, Texts;
    var tl :| HoldsText(tl, text, store) && Appended(s[at - 1 := tl], at, s', dot, Rests(Rest(text)), store);
    ReplacedParts(s, at, tl, s', dot, Rests(Rest(text)), store);
    var n := s'[at..dot];
    PiecesHeld(tl, n, text, store);
    TextsParts(s, at - 1, at, store);
    TextsConcat(s[..at - 1], [tl] + n, store);
    TextsConcat(s[..at - 1] + ([tl] + n), s[at..], store);
  }

  /** Between `front` and `tail`, what is done, and what is to do from line a1 to line `end`. */
  ghost predicate Halfway(now: seq<string>, front: seq<string>, done: seq<string>, todo: seq<string>, tail: seq<string>,
                          a1: nat, end: nat)
  {
    now == front + done + todo + tail && a1 == |front| + |done| + 1 && end + 1 == a1 + |todo|
  }

  lemma HalfwayStart(b: seq<string>, addr1: nat, addr2: nat)
    requires 1 <= addr1 <= addr2 <= |b|
    ensures Halfway(b, b[..addr1 - 1], [], b[addr1 - 1..addr2], b[addr2..], addr1, addr2)
  {
  }

  lemma HalfwayStep(now: seq<string>, front: seq<string>, done: seq<string>, todo: seq<string>, tail: seq<string>,
                    a1: nat, end: nat, c: seq<string>)
    requires Halfway(now, front, done, todo, tail, a1, end) && a1 <= end && c != []
    ensures todo != [] && 1 <= a1 <= |now| && now[a1 - 1] == todo[0]
    ensures Halfway(now[..a1 - 1] + c + now[a1..], front, done + c, todo[1..], tail, a1 + |c|, end + |c| - 1)
  {
    assert now[..a1 - 1] == front + done && now[a1..] == todo[1..] + tail;
  }

  lemma HalfwayTodo(now: seq<string>, front: seq<string>, done: seq<string>, todo: seq<string>, tail: seq<string>,
                    a1: nat, end: nat)
    requires Halfway(now, front, done, todo, tail, a1, end) && a1 <= end
    ensures todo != []
  {
  }

  lemma HalfwayLength(now: seq<string>, front: seq<string>, done: seq<string>, todo: seq<string>, tail: seq<string>,
                      a1: nat, end: nat)
    requires Halfway(now, front, done, todo, tail, a1, end)
    ensures end == |now| - |tail|
  {
  }

  lemma AnyNext(lines: seq<string>, change: string -> Option<string>)
    requires lines != []
    ensures AnyChange(lines, change) <==> change(lines[0]).Some? || AnyChange(lines[1..], change)
  {
    if AnyChange(lines, change) {
      var k :| 0 <= k < |lines| && change(lines[k]).Some?;
      assert k > 0 ==> lines[1..][k - 1] == lines[k];
    }
    if AnyChange(lines[1..], change) {
      var k :| 0 <= k < |lines[1..]| && change(lines[1..][k]).Some?;
      assert lines[k + 1] == lines[1..][k];
    }
  }

  lemma HalfwayEnd(now: seq<string>, all: seq<string>, front: seq<string>, done: seq<string>, todo: seq<string>,
                   tail: seq<string>, a1: nat, end: nat, found: bool, change: string -> Option<string>)
    requires Halfway(now, front, done, todo, tail, a1, end) && a1 > end && Accounted(all, done, todo, found, change)
    ensures now == front + Substituted(all, change) + tail && found == AnyChange(all, change)
    ensures todo == [] && end == |front| + |Substituted(all, change)|
  {
    assert todo == [];
  }

  /** What is done, with what is to come, is the result, and so for whether there is a change. */
  ghost predicate Accounted(all: seq<string>, done: seq<string>, todo: seq<string>, found: bool,
                            change: string -> Option<string>)
  {
    && done + Substituted(todo, change) == Substituted(all, change)
    && AnyChange(all, change) == (found || AnyChange(todo, change))
  }

  lemma AccountedStart(all: seq<string>, change: string -> Option<string>)
    ensures Accounted(all, [], all, false, change)
  {
  }

  lemma AccountedNext(all: seq<string>, done: seq<string>, todo: seq<string>, found: bool,
                      change: string -> Option<string>)
    requires todo != [] && Accounted(all, done, todo, found, change)
    ensures Accounted(all, done + Changed(todo[0], change), todo[1..], found || change(todo[0]).Some?, change)
  {
    AnyNext(todo, change);
    var c, more := Changed(todo[0], change), Substituted(todo[1..], change);
    assert Substituted(todo, change) == c + more;
    hide Changed, AnyChange, Substituted;
    SameOrder(done, c, more);
  }

  lemma SameOrder(a: seq<string>, b: seq<string>, c: seq<string>)
    ensures (a + b) + c == a + (b + c)
  {
  }

  lemma TextAt(s: seq<nat>, store: map<nat, string>, lo: nat, hi: nat, i: nat)
    requires Stored(s, store) && lo + i < hi <= |s|
    ensures Unmark(s[lo + i]) in store && Texts(s, store)[lo..hi][i] == store[Unmark(s[lo + i])]
  {
  }

  lemma StoredInsert(s: seq<nat>, k: nat, tl: nat, store: map<nat, string>)
    requires Stored(s, store) && k <= |s| && tl % 2 == 0 && tl in store
    ensures Stored(s[..k] + [tl] + s[k..], store)
  {
  }

  lemma StoredAt(s: seq<nat>, store: map<nat, string>, k: nat)
    requires Stored(s, store) && k < |s|
    ensures Unmark(s[k]) in store
  {
  }

  lemma RestsNone()
    ensures Rests(None) == []
  {
  }

  lemma RestsNext(texts: seq<string>, i: nat, text: string)
    requires i <= |texts| && Rests(Some(text)) == texts[i..]
    ensures i < |texts| && texts[i] == text && Rests(Rest(text)) == texts[i + 1..]
  {
    assert texts[i..][0] == text && texts[i..][1..] == texts[i + 1..];
  }

  /** What putline() leaves. */
  lemma Put(store: map<nat, string>, store': map<nat, string>, tl: nat, text: string, linebp: Option<string>)
    requires tl !in store && store' == store[tl := Text(text)] && tl % 2 == 0
    requires linebp == if |Text(text)| < |text| then Some(text[|Text(text)| + 1..]) else None
    ensures Grows(store, store') && HoldsText(tl, text, store') && linebp == Rest(text)
  {
  }

  lemma RestOk(s: string)
    requires |s| < BLOCK && NUL !in s
    ensures Rest(s).Some? ==> |Rest(s).value| < |s| && NUL !in Rest(s).value
  {
  }

  lemma HeldOn(tl: nat, text: string, store: map<nat, string>, store': map<nat, string>)
    requires HoldsText(tl, text, store) && Grows(store, store')
    ensures HoldsText(tl, text, store')
  {
  }

  lemma AppendedNone(s: seq<nat>, at: nat, texts: seq<string>, store: map<nat, string>)
    requires at <= |s|
    ensures Appended(s, at, s, at, texts, store)
  {
  }

  lemma AppendedOne(s: seq<nat>, at: nat, s': seq<nat>, dot: nat, texts: seq<string>,
                    store: map<nat, string>, tl: nat, store': map<nat, string>)
    requires Appended(s, at, s', dot, texts, store) && Grows(store, store') && dot - at < |texts|
    requires HoldsText(tl, texts[dot - at], store')
    ensures Appended(s, at, s'[..dot] + [tl] + s'[dot..], dot + 1, texts, store')
  {
    var r := s'[..dot] + [tl] + s'[dot..];
    assert r[dot + 1..] == s'[dot..];
    assert r[..at] == s'[..at];
    forall k | 0 <= k < dot + 1 - at ensures HoldsText(r[at + k], texts[k], store') {
      if k < dot - at { assert HoldsText(s'[at + k], texts[k], store) && r[at + k] == s'[at + k]; }
    }
  }

  lemma AppendedGrows(s: seq<nat>, at: nat, s': seq<nat>, dot: nat, texts: seq<string>,
                      store: map<nat, string>, store': map<nat, string>)
    requires Appended(s, at, s', dot, texts, store) && Grows(store, store')
    ensures Appended(s, at, s', dot, texts, store')
  {
    forall k | 0 <= k < dot - at ensures HoldsText(s'[at + k], texts[k], store') {
      assert HoldsText(s'[at + k], texts[k], store);
    }
  }

  lemma AppendedMarks(s: seq<nat>, at: nat, s': seq<nat>, dot: nat, texts: seq<string>, store: map<nat, string>)
    requires Appended(s, at, s', dot, texts, store)
    ensures Marked(s') == Marked(s)
  {
    var n := s'[at..dot];
    assert forall k :: 0 <= k < |n| ==> n[k] == s'[at + k] && HoldsText(n[k], texts[k], store);
    assert s[at..at] == [];
    MarkedReplace(s, at, at, n);
    assert s' == s'[..at] + n + s'[dot..];
  }

  /** The text after lines have been put in: theirs, between what was before and behind. */
  lemma AppendedTexts(s: seq<nat>, at: nat, s': seq<nat>, texts: seq<string>, store: map<nat, string>)
    requires Appended(s, at, s', at + |texts|, texts, store) && Stored(s, store) && Stored(s', store)
    requires forall k :: 0 <= k < |texts| ==> '\n' !in texts[k]
    ensures Texts(s', store) == Texts(s, store)[..at] + texts + Texts(s, store)[at..]
  {
    var l, r := Texts(s', store), Texts(s, store)[..at] + texts + Texts(s, store)[at..];
    forall k | 0 <= k < |l| ensures l[k] == r[k] {
      if k < at {
        assert s'[..at][k] == s[..at][k];
      } else if k < at + |texts| {
        assert HoldsText(s'[at + (k - at)], texts[k - at], store);
        TextOfText(texts[k - at]);
        EvenPart(s'[k]);
      } else {
        assert s'[at + |texts|..][k - at - |texts|] == s[at..][k - at - |texts|];
      }
    }
  }

  /** Lines appended at the end and then moved behind line `adt`. */
  lemma TailMoved(s: seq<nat>, s': seq<nat>, adt: nat, texts: seq<string>, store: map<nat, string>)
    requires Appended(s, |s|, s', |s| + |texts|, texts, store) && adt <= |s|
    ensures Appended(s, adt, Moved(s', |s|, |s'|, adt), adt + |texts|, texts, store)
  {
    var n, r := s'[|s|..], Moved(s', |s|, |s'|, adt);
    assert s' == s + n && r == s[..adt] + n + s[adt..];
    forall k | 0 <= k < |texts| ensures HoldsText(r[adt + k], texts[k], store) {
      assert HoldsText(s'[|s| + k], texts[k], store);
    }
  }

  lemma MovedStored(s: seq<nat>, lo: nat, hi: nat, to: nat, store: map<nat, string>)
    requires lo <= hi <= |s| && to <= |s| && !(lo < to < hi) && Stored(s, store)
    ensures Stored(Moved(s, lo, hi, to), store)
  {
  }

  lemma ClearedLines(s: seq<nat>, lo: nat, hi: nat, store: map<nat, string>)
    requires lo <= hi <= |s| && Stored(s, store)
    ensures Stored(Cleared(s, lo, hi), store)
    ensures Marked(Cleared(s, lo, hi)) <= Marked(s)
  {
    ClearedEntries(s, lo, hi, store);
    ClearedParts(s, lo, hi);
    hide Cleared, Marked, Stored;
    var r := Cleared(s, lo, hi);
    MarkedReplace(s, lo, hi, r[lo..hi]);
    CutThree(r, lo, hi);
  }

  lemma ClearedEntries(s: seq<nat>, lo: nat, hi: nat, store: map<nat, string>)
    requires lo <= hi <= |s| && Stored(s, store)
    ensures Stored(Cleared(s, lo, hi), store)
    ensures forall x :: x in Cleared(s, lo, hi)[lo..hi] ==> x % 2 == 0
  {
    var r := Cleared(s, lo, hi);
    forall k | 0 <= k < |s| ensures Unmark(r[k]) in store && (lo <= k < hi ==> r[k] % 2 == 0) {
      EvenPart(s[k]);
    }
  }

  lemma ClearedParts(s: seq<nat>, lo: nat, hi: nat)
    requires lo <= hi <= |s|
    ensures Cleared(s, lo, hi)[..lo] == s[..lo] && Cleared(s, lo, hi)[hi..] == s[hi..]
  {
  }

  /** One line in place of several. */
  lemma JoinedIs(s: seq<nat>, lo: nat, hi: nat, tl: nat, store: map<nat, string>)
    requires lo < hi <= |s| && tl % 2 == 0 && Stored(s, store) && tl in store
    ensures var t := s[lo := tl];
      Stored(t, store) && Without(t, lo + 1, hi) == s[..lo] + [tl] + s[hi..]
    ensures Stored(s[..lo] + [tl] + s[hi..], store)
    ensures Marked(s[..lo] + [tl] + s[hi..]) <= Marked(s)
  {
    EvenPart(tl);
    JoinedStored(s, lo, hi, tl, store);
    JoinedLines(s, lo, hi, tl);
    hide Marked, Stored, Without;
    MarkedReplace(s, lo, hi, [tl]);
  }

  lemma JoinedStored(s: seq<nat>, lo: nat, hi: nat, tl: nat, store: map<nat, string>)
    requires lo < hi <= |s| && Unmark(tl) in store && Stored(s, store)
    ensures Stored(s[lo := tl], store) && Stored(s[..lo] + [tl] + s[hi..], store)
  {
  }

  lemma JoinedLines(s: seq<nat>, lo: nat, hi: nat, tl: nat)
    requires lo < hi <= |s|
    ensures Without(s[lo := tl], lo + 1, hi) == s[..lo] + [tl] + s[hi..]
  {
  }

  lemma Updated(s: seq<nat>, k: nat, tl: nat)
    requires k < |s|
    ensures s[..k] + [tl] + s[k + 1..] == s[k := tl]
  {
  }

  lemma EvenPart(x: nat)
    ensures (x - x % 2) % 2 == 0 && Unmark(x - x % 2) == Unmark(x)
  {
  }

  /** Line `at` holds the new text up to its first newline, the lines behind it, up to dot, the rest of it; a
      name that marked the old line marks the new one. */
  ghost predicate Replaced(s: seq<nat>, at: nat, text: string, s': seq<nat>, dot: nat, names: seq<nat>,
                           names': seq<nat>, store: map<nat, string>)
  {
    1 <= at <= |s| && |names| == |names'| == 26 && exists tl ::
      && HoldsText(tl, text, store) && Appended(s[at - 1 := tl], at, s', dot, Rests(Rest(text)), store)
      && forall j :: 0 <= j < 26 ==> names'[j] == if names[j] == Unmark(s[at - 1]) then tl else names[j]
  }

  /** A line that is being copied still shows its text. */
  lemma SourceText(s: seq<nat>, store: map<nat, string>, s': seq<nat>, dot: nat, texts: seq<string>,
                   store': map<nat, string>, addr1: nat, addr2: nat, i: nat)
    requires Stored(s, store) && Grows(store, store') && 1 <= addr1 && i <= addr2 - addr1 && addr2 <= |s|
    requires texts == Texts(s, store)[addr1 - 1..addr2]
    requires Appended(s, |s|, s', dot, texts, store')
    ensures var tl := s'[addr1 + i - 1]; Unmark(tl) in store' && store'[Unmark(tl)] == texts[i]
  {
    assert s'[..|s|][addr1 + i - 1] == s[addr1 + i - 1];
  }

  // ----- what there is room for -----

  /** What a line with this text takes of the temporary file. */
  function Need(text: string): nat { Advance(|Text(text)| + 1) }

  function Needs(texts: seq<string>): nat {
    if texts == [] then 0 else Needs(texts[..|texts| - 1]) + Need(texts[|texts| - 1])
  }

  /** A text that the line buffer can hold. */
  predicate Short(text: string) { |text| < BLOCK && NUL !in text }

  /** There is memory for so many more lines, and room in the temporary file for their texts. */
  predicate Fits(texts: seq<string>, free: nat, tline: nat) {
    |texts| <= free && tline + Needs(texts) <= LIMIT
  }

  lemma {:induction false} NeedsBefore(texts: seq<string>, i: nat)
    requires i <= |texts|
    ensures Needs(texts[..i]) <= Needs(texts)
    decreases |texts| - i
  {
    if i < |texts| {
      NeedsBefore(texts, i + 1);
      assert texts[..i + 1][..i] == texts[..i];
    } else {
      assert texts[..i] == texts;
    }
  }

  lemma NeedsNext(texts: seq<string>, i: nat)
    requires i < |texts|
    ensures Needs(texts[..i + 1]) == Needs(texts[..i]) + Need(texts[i]) <= Needs(texts)
  {
    assert texts[..i + 1][..i] == texts[..i];
    NeedsBefore(texts, i + 1);
  }

  /** The first i texts have been put in. */
  ghost predicate Filled(texts: seq<string>, i: nat, free0: nat, tline0: nat, free: nat, tline: nat) {
    && i <= |texts| && free + i == free0
    && tline == tline0 + Needs(texts[..i]) && Fits(texts[..i], free0, tline0)
  }

  lemma FilledFirst(texts: seq<string>, free: nat, tline: nat)
    requires tline <= LIMIT
    ensures Filled(texts, 0, free, tline, free, tline)
  {
  }

  lemma FilledNext(texts: seq<string>, i: nat, free0: nat, tline0: nat, free: nat, tline: nat)
    requires Filled(texts, i, free0, tline0, free, tline) && i < |texts|
    ensures tline == tline0 + Needs(texts[..i])
    ensures if free > 0 && tline + Need(texts[i]) <= LIMIT
      then Filled(texts, i + 1, free0, tline0, free - 1, tline + Need(texts[i]))
      else !Fits(texts, free0, tline0)
  {
    hide Needs, Need;
    NeedsNext(texts, i);
  }

  lemma FilledLast(texts: seq<string>, free0: nat, tline0: nat, free: nat, tline: nat)
    requires Filled(texts, |texts|, free0, tline0, free, tline)
    ensures Fits(texts, free0, tline0) && tline == tline0 + Needs(texts) && texts[..|texts|] == texts
  {
    assert texts[..|texts|] == texts;
  }

  // ----- room for a substitution -----

  lemma {:induction false} NeedsFirst(text: string, texts: seq<string>)
    ensures Needs([text] + texts) == Need(text) + Needs(texts)
  {
    hide Need;
    var all := [text] + texts;
    if texts == [] {
      assert all[..0] == [] && all[0] == text;
    } else {
      NeedsFirst(text, texts[..|texts| - 1]);
      assert all[..|all| - 1] == [text] + texts[..|texts| - 1];
    }
  }

  lemma {:induction false} PiecesNeed(text: string)
    ensures Needs(Pieces(text)) == Need(text) + Needs(Rests(Rest(text)))
    ensures |Pieces(text)| == 1 + |Rests(Rest(text))|
    decreases |text|
  {
    TextOnce(text);
    hide Need;
    var rest := Rest(text);
    var more := match rest case None => [] case Some(s) => Pieces(s);
    assert Pieces(text) == [Text(text)] + more;
    NeedsFirst(Text(text), more);
    if rest.Some? {
      PiecesNeed(rest.value);
      assert Rests(rest) == [rest.value] + Rests(Rest(rest.value));
      NeedsFirst(rest.value, Rests(Rest(rest.value)));
    }
  }

  lemma TextOnce(text: string)
    ensures Need(Text(text)) == Need(text)
  {
    TextOfText(Text(text));
  }

  /** What the new text of a line takes of the temporary file. */
  function NewNeed(line: string, change: string -> Option<string>): nat {
    match change(line) case None => 0 case Some(text) => Needs(Pieces(text))
  }

  function NewNeeds(lines: seq<string>, change: string -> Option<string>): nat {
    if lines == [] then 0 else NewNeed(lines[0], change) + NewNeeds(lines[1..], change)
  }

  predicate ShortText(line: string, change: string -> Option<string>) {
    match change(line) case None => true case Some(text) => Short(text)
  }

  /** The line buffer can hold each new text, and there is room for all lines that they become. */
  ghost predicate FitsInstead(lines: seq<string>, change: string -> Option<string>, free: nat, tline: nat) {
    && (forall k :: 0 <= k < |lines| ==> ShortText(lines[k], change))
    && |Substituted(lines, change)| - |lines| <= free && tline + NewNeeds(lines, change) <= LIMIT
  }

  /** Where dot is when the last changed line has been replaced; `at` is the number of the first line. */
  function Landing(lines: seq<string>, change: string -> Option<string>, at: nat, dot: nat): nat {
    if lines == [] then dot
    else Landing(lines[1..], change, at + |Changed(lines[0], change)|, Landed(lines[0], change, at, dot))
  }

  function Landed(line: string, change: string -> Option<string>, at: nat, dot: nat): nat {
    if change(line).Some? then at + |Changed(line, change)| - 1 else dot
  }

  predicate FitsLine(line: string, change: string -> Option<string>, free: nat, tline: nat) {
    && ShortText(line, change) && |Changed(line, change)| - 1 <= free
    && (change(line).Some? ==> tline + NewNeed(line, change) <= LIMIT)
  }

  lemma FitsNext(lines: seq<string>, change: string -> Option<string>, free: nat, tline: nat)
    requires lines != []
    ensures FitsInstead(lines, change, free, tline) ==> FitsLine(lines[0], change, free, tline)
    ensures FitsLine(lines[0], change, free, tline) ==>
      var n := |Changed(lines[0], change)| - 1;
      FitsInstead(lines, change, free, tline)
      == FitsInstead(lines[1..], change, free - n, tline + NewNeed(lines[0], change))
  {
    hide ShortText, Changed, NewNeed;
    var rest := lines[1..];
    assert lines == [lines[0]] + rest;
    assert (forall k :: 0 <= k < |lines| ==> ShortText(lines[k], change))
      <==> (ShortText(lines[0], change) && forall k :: 0 <= k < |rest| ==> ShortText(rest[k], change));
  }

  /** A substitution on its way: `todo` is left to be done, from line `at` on. */
  ghost predicate Ahead(all: seq<string>, change: string -> Option<string>, at0: nat, dot0: nat, free0: nat,
                        tline0: nat, todo: seq<string>, at: nat, dot: nat, free: nat, tline: nat) {
    && Landing(all, change, at0, dot0) == Landing(todo, change, at, dot)
    && FitsInstead(all, change, free0, tline0) == FitsInstead(todo, change, free, tline)
    && tline0 + NewNeeds(all, change) == tline + NewNeeds(todo, change)
  }

  lemma AheadFirst(all: seq<string>, change: string -> Option<string>, at: nat, dot: nat, free: nat, tline: nat)
    ensures Ahead(all, change, at, dot, free, tline, all, at, dot, free, tline)
  {
  }

  lemma AheadNext(all: seq<string>, change: string -> Option<string>, at0: nat, dot0: nat, free0: nat, tline0: nat,
                  todo: seq<string>, at: nat, dot: nat, free: nat, tline: nat)
    requires Ahead(all, change, at0, dot0, free0, tline0, todo, at, dot, free, tline) && todo != []
    ensures !FitsLine(todo[0], change, free, tline) ==> !FitsInstead(all, change, free0, tline0)
    ensures FitsLine(todo[0], change, free, tline) ==>
      var n := |Changed(todo[0], change)|;
      Ahead(all, change, at0, dot0, free0, tline0, todo[1..], at + n, Landed(todo[0], change, at, dot),
            free - (n - 1), tline + NewNeed(todo[0], change))
  {
    FitsNext(todo, change, free, tline);
    hide FitsInstead, Changed, NewNeed, Landed;
  }

  lemma AheadLast(all: seq<string>, change: string -> Option<string>, at0: nat, dot0: nat, free0: nat, tline0: nat,
                  at: nat, dot: nat, free: nat, tline: nat)
    requires Ahead(all, change, at0, dot0, free0, tline0, [], at, dot, free, tline) && tline <= LIMIT
    ensures Landing(all, change, at0, dot0) == dot && FitsInstead(all, change, free0, tline0)
    ensures tline == tline0 + NewNeeds(all, change)
  {
  }

  /** The lines before and behind those that are addressed are as they were. */
  ghost predicate Around(s: seq<nat>, s': seq<nat>, lo: nat, hi: nat) {
    && lo <= hi <= |s| && lo + |s| - hi <= |s'|
    && s'[..lo] == s[..lo] && s'[|s'| - (|s| - hi)..] == s[hi..]
  }

  lemma AroundFirst(s: seq<nat>, lo: nat, hi: nat)
    requires lo <= hi <= |s|
    ensures Around(s, s, lo, hi)
  {
  }

  lemma AroundNext(s: seq<nat>, s': seq<nat>, lo: nat, hi: nat, s'': seq<nat>, at: nat)
    requires Around(s, s', lo, hi) && lo < at <= |s'| - (|s| - hi) && Around(s', s'', at - 1, at)
    ensures Around(s, s'', lo, hi)
  {
    var n, n', n'' := |s| - hi, |s'| - at, |s| - hi;
    assert s''[..lo] == s''[..at - 1][..lo] == s'[..at - 1][..lo];
    assert s''[|s''| - n..] == s''[|s''| - n'..][n' - n..];
    assert s'[|s'| - n..] == s'[at..][n' - n..];
  }

  lemma ReplacedAround(s: seq<nat>, at: nat, text: string, s': seq<nat>, dot: nat, names: seq<nat>, names': seq<nat>,
                       store: map<nat, string>)
    requires Replaced(s, at, text, s', dot, names, names', store)
    ensures Around(s, s', at - 1, at)
  {
    hide Text, Rests, Rest, HoldsText;
    var tl :| HoldsText(tl, text, store) && Appended(s[at - 1 := tl], at, s', dot, Rests(Rest(text)), store);
    var t := s[at - 1 := tl];
    assert s'[..at - 1] == s'[..at][..at - 1] == t[..at][..at - 1];
  }
}
