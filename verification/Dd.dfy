/**
 The conversions block and unblock of bin/dd.c, one character at a time, over its output buffer.
 */
module Dd {

  const NEWLINE := '\n'
  const SPACE := ' '

  /** The bytes of output records. */
  function Flat(out: seq<string>): string {
    if out == [] then [] else Flat(out[..|out| - 1]) + out[|out| - 1]
  }

  lemma FlatMore(out: seq<string>, rec: string)
    ensures Flat(out + [rec]) == Flat(out) + rec
  {
    assert (out + [rec])[..|out|] == out;
  }

  function Spaces(k: nat): string { seq(k, _ => SPACE) }

  function Take(l: string, n: nat): string { if |l| <= n then l else l[..n] }

  /** A line as `block` records it. */
  function Padded(l: string, cbs: nat): (r: string)
    ensures |r| == cbs
  {
    Take(l, cbs) + Spaces(cbs - |Take(l, cbs)|)
  }

  /** A record without its trailing blanks. */
  function Stripped(r: string): string {
    if r != [] && r[|r| - 1] == SPACE then Stripped(r[..|r| - 1]) else r
  }

  function BlockedLines(lines: seq<string>, cbs: nat): string {
    if lines == [] then [] else BlockedLines(lines[..|lines| - 1], cbs) + Padded(lines[|lines| - 1], cbs)
  }

  /** The lines that a round trip gives back, each with its newline. */
  function StrippedLines(lines: seq<string>, cbs: nat): string {
    if lines == [] then []
    else StrippedLines(lines[..|lines| - 1], cbs) + Stripped(Take(lines[|lines| - 1], cbs)) + [NEWLINE]
  }

  function Text(lines: seq<string>): string {
    if lines == [] then [] else Text(lines[..|lines| - 1]) + lines[|lines| - 1] + [NEWLINE]
  }

  function TooLong(lines: seq<string>, cbs: nat): nat {
    if lines == [] then 0
    else TooLong(lines[..|lines| - 1], cbs) + if |lines[|lines| - 1]| > cbs then 1 else 0
  }

  lemma {:induction false} StripSpaces(s: string, k: nat)
    ensures Stripped(s + Spaces(k)) == Stripped(s)
  {
    if k == 0 {
      assert s + Spaces(0) == s;
    } else {
      assert (s + Spaces(k))[..|s + Spaces(k)| - 1] == s + Spaces(k - 1);
      StripSpaces(s, k - 1);
    }
  }

  /** Blocking adds only what unblocking takes away. */
  lemma StripPadded(l: string, cbs: nat)
    ensures Stripped(Padded(l, cbs)) == Stripped(Take(l, cbs))
  {
    StripSpaces(Take(l, cbs), cbs - |Take(l, cbs)|);
  }

  /** A line survives exactly if it fits and does not end in a blank. */
  predicate Survives(l: string, cbs: nat) { |l| <= cbs && (l == [] || l[|l| - 1] != SPACE) }

  lemma {:induction false} StrippedShorter(s: string)
    ensures |Stripped(s)| <= |s| && (|Stripped(s)| == |s| ==> Stripped(s) == s)
    ensures Stripped(s) == s <==> s == [] || s[|s| - 1] != SPACE
  {
    if s != [] && s[|s| - 1] == SPACE { StrippedShorter(s[..|s| - 1]); }
  }

  lemma LineSurvives(l: string, cbs: nat)
    ensures Stripped(Padded(l, cbs)) == l <==> Survives(l, cbs)
  {
    StripPadded(l, cbs);
    StrippedShorter(Take(l, cbs));
  }

  /** The round trip is the identity exactly on lines that all survive. */
  lemma {:induction false} LinesSurvive(lines: seq<string>, cbs: nat)
    ensures |StrippedLines(lines, cbs)| <= |Text(lines)|
    ensures StrippedLines(lines, cbs) == Text(lines) <==> forall i :: 0 <= i < |lines| ==> Survives(lines[i], cbs)
  {
    if lines != [] {
      var n := |lines| - 1;
      LinesSurvive(lines[..n], cbs);
      StrippedShorter(Take(lines[n], cbs));
      SameParts(StrippedLines(lines[..n], cbs), Stripped(Take(lines[n], cbs)), Text(lines[..n]), lines[n]);
      forall i | 0 <= i < n ensures Survives(lines[i], cbs) <==> Survives(lines[..n][i], cbs) {
      }
      SurvivesTaken(lines[n], cbs);
      if forall i :: 0 <= i < |lines| ==> Survives(lines[i], cbs) { assert Survives(lines[n], cbs); }
    }
  }

  lemma SurvivesTaken(l: string, cbs: nat)
    ensures Stripped(Take(l, cbs)) == l <==> Survives(l, cbs)
  {
    LineSurvives(l, cbs);
    StripPadded(l, cbs);
  }

  lemma SameParts(a: string, b: string, c: string, d: string)
    requires |a| <= |c| && |b| <= |d|
    ensures a + b + [NEWLINE] == c + d + [NEWLINE] <==> a == c && b == d
  {
    if a + b + [NEWLINE] == c + d + [NEWLINE] {
      assert |a| == |c| && |b| == |d|;
      assert a == (a + b + [NEWLINE])[..|a|] && c == (c + d + [NEWLINE])[..|a|];
      assert b == (a + b + [NEWLINE])[|a|..|a| + |b|] && d == (c + d + [NEWLINE])[|a|..|a| + |b|];
    }
  }

  class Converter {
    const obs: nat
    const cbs: nat
    const obuf: array<char>
    var obc: nat     // op is obuf + obc
    var cbc: nat
    var nspace: nat
    var ntrunc: nat
    var out: seq<string>

    /** Records are of size obs, except for the last one after a flush. */
    ghost predicate Valid()
      reads this
    {
      obs >= 1 && obuf.Length == obs && obc < obs && forall i :: 0 <= i < |out| ==> |out[i]| == obs
    }

    /** Everything that has been put out, written or not. */
    ghost function Stream(): string
      reads this, obuf
      requires obc <= obuf.Length
    {
      Flat(out) + obuf[..obc]
    }

    constructor (obs: nat, cbs: nat)
      requires obs >= 1
      ensures Valid() && Stream() == [] && cbc == 0 && nspace == 0 && ntrunc == 0 && this.cbs == cbs && this.obs == obs
      ensures fresh(obuf)
    {
      this.obs, this.cbs := obs, cbs;
      obuf := new char[obs];
      obc, cbc, nspace, ntrunc, out := 0, 0, 0, 0, [];
    }

    /** flsh(): what is in the buffer becomes a record. */
    method Flsh()
      requires obs >= 1 && obuf.Length == obs && obc <= obs
      modifies `obc, `out
      ensures obc == 0 && out == old(out) + (if old(obc) == 0 then [] else [old(obuf[..obc])])
      ensures Stream() == old(Stream()) && Flat(out) == old(Stream())
    {
      assert obuf[..0] == [];
      if obc != 0 {
        FlatMore(out, obuf[..obc]);
        out := out + [obuf[..obc]];
        obc := 0;
      }
    }

    /** null() */
    method Null(c: char)
      requires Valid()
      modifies `obc, `out, obuf
      ensures Valid() && Stream() == old(Stream()) + [c]
    {
      obuf[obc] := c;
      obc := obc + 1;
      assert obuf[..obc] == old(obuf[..obc]) + [c];
      if obc >= obs { Flsh(); }
    }

    /** block() */
    method Block(c: char)
      requires Valid()
      modifies `obc, `out, `cbc, `ntrunc, obuf
      ensures Valid() && (cbs == 0 ==> Stream() == old(Stream()) + [c] && cbc == old(cbc) && ntrunc == old(ntrunc))
      ensures cbs > 0 && c == NEWLINE ==>
        cbc == 0 && ntrunc == old(ntrunc)
        && Stream() == old(Stream()) + Spaces(if old(cbc) < cbs then cbs - old(cbc) else 0)
      ensures cbs > 0 && c != NEWLINE ==>
        cbc == old(cbc) + 1 && ntrunc == old(ntrunc) + (if old(cbc) == cbs then 1 else 0)
        && Stream() == old(Stream()) + if old(cbc) < cbs then [c] else []
    {
      if cbs == 0 {
        Null(c);
        return;
      }
      if c == NEWLINE {
        ghost var n := 0;
        assert Stream() == Stream() + Spaces(0);
        while cbc < cbs
          invariant Valid() && cbc == old(cbc) + n && ntrunc == old(ntrunc) && Stream() == old(Stream()) + Spaces(n)
          invariant n == 0 || cbc <= cbs
        {
          Null(SPACE);
          assert Spaces(n) + [SPACE] == Spaces(n + 1);
          cbc := cbc + 1;
          n := n + 1;
        }
        cbc := 0;
        return;
      }
      if cbc == cbs { ntrunc := ntrunc + 1; }
      cbc := cbc + 1;
      if cbc <= cbs { Null(c); }
    }

    /** A line and its newline through block(): one record, filled up or cut off. */
    method BlockLine(line: string)
      requires Valid() && cbs > 0 && cbc == 0 && NEWLINE !in line
      modifies `obc, `out, `cbc, `ntrunc, obuf
      ensures Valid() && cbc == 0 && Stream() == old(Stream()) + Padded(line, cbs)
      ensures ntrunc == old(ntrunc) + if |line| > cbs then 1 else 0
    {
      for i := 0 to |line|
        invariant Valid() && cbc == i && ntrunc == old(ntrunc) + if i > cbs then 1 else 0
        invariant Stream() == old(Stream()) + Take(line[..i], cbs)
      {
        assert line[i] in line;
        TakeNext(line, i, cbs);
        Block(line[i]);
      }
      assert line[..|line|] == line;
      Block(NEWLINE);
    }

    /** All lines: the output is their records in a row, and ntrunc counts exactly those that were too long. */
    method BlockAll(lines: seq<string>)
      requires Valid() && cbs > 0 && cbc == 0 && forall i :: 0 <= i < |lines| ==> NEWLINE !in lines[i]
      modifies `obc, `out, `cbc, `ntrunc, obuf
      ensures Valid() && cbc == 0 && Stream() == old(Stream()) + BlockedLines(lines, cbs)
      ensures ntrunc == old(ntrunc) + TooLong(lines, cbs)
    {
      assert Stream() + [] == Stream();
      for i := 0 to |lines|
        invariant Valid() && cbc == 0 && Stream() == old(Stream()) + BlockedLines(lines[..i], cbs)
        invariant ntrunc == old(ntrunc) + TooLong(lines[..i], cbs)
      {
        assert lines[..i + 1][..i] == lines[..i];
        BlockLine(lines[i]);
      }
      assert lines[..|lines|] == lines;
    }

    /** The blanks that have been held back. */
    method PutSpaces()
      requires Valid()
      modifies `obc, `out, `nspace, obuf
      ensures Valid() && nspace == 0 && Stream() == old(Stream()) + Spaces(old(nspace))
    {
      ghost var n := 0;
      assert Stream() == Stream() + Spaces(0);
      while nspace > 0
        modifies `obc, `out, `nspace, obuf
        invariant Valid() && nspace + n == old(nspace) && Stream() == old(Stream()) + Spaces(n)
      {
        Null(SPACE);
        assert Spaces(n) + [SPACE] == Spaces(n + 1);
        nspace := nspace - 1;
        n := n + 1;
      }
    }

    /** unblock() */
    method Unblock(c: char)
      requires Valid() && (cbs > 0 ==> cbc < cbs)
      modifies `obc, `out, `cbc, `nspace, obuf
      ensures Valid() && (cbs == 0 ==> Stream() == old(Stream()) + [c] && cbc == old(cbc) && nspace == old(nspace))
      ensures cbs > 0 ==>
        Stream() == old(Stream()) + (if c == SPACE then [] else Spaces(old(nspace)) + [c])
          + (if old(cbc) + 1 >= cbs then [NEWLINE] else [])
      ensures cbs > 0 ==>
        (cbc, nspace) == if old(cbc) + 1 >= cbs then (0, 0)
          else (old(cbc) + 1, if c == SPACE then old(nspace) + 1 else 0)
    {
      hide Flat, Spaces;
      if cbs == 0 {
        Null(c);
        return;
      }
      if c == SPACE {
        nspace := nspace + 1;
      } else {
        PutSpaces();
        Null(c);
      }
      cbc := cbc + 1;
      if cbc >= cbs {
        Null(NEWLINE);
        cbc := 0;
        nspace := 0;
      }
    }

    /** A record through unblock(): a line without the trailing blanks. */
    method UnblockRecord(rec: string)
      requires Valid() && cbs > 0 && |rec| == cbs && cbc == 0 && nspace == 0
      modifies `obc, `out, `cbc, `nspace, obuf
      ensures Valid() && cbc == 0 && nspace == 0 && Stream() == old(Stream()) + Stripped(rec) + [NEWLINE]
    {
      hide Flat, Stripped, Pending, Spaces;
      ghost var s, done := Stream(), [];
      PendingNone(rec);
      for i := 0 to cbs - 1
        invariant Valid() && cbc == i && nspace <= i && Pending(rec[..i], nspace)
        invariant done == rec[..i - nspace] && Stream() == s + done
      {
        PendingNext(rec, i, nspace);
        HeldBack(rec, i, nspace, s);
        Unblock(rec[i]);
        done := rec[..i + 1 - nspace];
      }
      PendingNext(rec, cbs - 1, nspace);
      HeldBack(rec, cbs - 1, nspace, s);
      assert rec[..cbs] == rec;
      PendingStripped(rec, if rec[cbs - 1] == SPACE then nspace + 1 else 0);
      Unblock(rec[cbs - 1]);
    }

    /** Records in a row. */
    method UnblockAll(input: string, ghost lines: seq<string>)
      requires Valid() && cbs > 0 && cbc == 0 && nspace == 0 && input == BlockedLines(lines, cbs)
      modifies `obc, `out, `cbc, `nspace, obuf
      ensures Valid() && Stream() == old(Stream()) + StrippedLines(lines, cbs)
    {
      hide Padded, Stripped, Flat, Take;
      var rest := input;
      ghost var n := 0;
      assert lines[0..] == lines && lines[..0] == [] && Stream() + [] == Stream();
      while rest != []
        invariant Valid() && cbc == 0 && nspace == 0 && 0 <= n <= |lines| && rest == BlockedLines(lines[n..], cbs)
        invariant Stream() == old(Stream()) + StrippedLines(lines[..n], cbs)
        decreases |rest|
      {
        FirstRecord(lines[n..], cbs);
        assert lines[n..][1..] == lines[n + 1..];
        NextLine(lines, n, cbs, old(Stream()));
        UnblockRecord(rest[..cbs]);
        rest := rest[cbs..];
        n := n + 1;
      }
      NoRecord(lines[n..], cbs);
      assert lines[..n] == lines;
    }
  }

  lemma NextLine(lines: seq<string>, n: nat, cbs: nat, s: string)
    requires n < |lines|
    ensures s + StrippedLines(lines[..n], cbs) + Stripped(Padded(lines[n], cbs)) + [NEWLINE]
      == s + StrippedLines(lines[..n + 1], cbs)
  {
    StripPadded(lines[n], cbs);
    assert lines[..n + 1][..n] == lines[..n];
  }

  lemma TakeNext(line: string, i: nat, cbs: nat)
    requires i < |line|
    ensures Take(line[..i + 1], cbs) == Take(line[..i], cbs) + if i < cbs then [line[i]] else []
  {
    assert i >= cbs ==> line[..i + 1][..cbs] == line[..i][..cbs];
  }

  /** The last k characters are blanks that have not been put out, and before them is none. */
  predicate Pending(s: string, k: nat) {
    && k <= |s| && (forall j :: |s| - k <= j < |s| ==> s[j] == SPACE)
    && (|s| > k ==> s[|s| - k - 1] != SPACE)
  }

  lemma PendingNone(rec: string)
    ensures Pending(rec[..0], 0) && rec[..0] == []
  {
  }

  lemma PendingNext(rec: string, i: nat, k: nat)
    requires i < |rec| && Pending(rec[..i], k)
    ensures Pending(rec[..i + 1], if rec[i] == SPACE then k + 1 else 0)
  {
    assert forall j :: 0 <= j < i ==> rec[..i][j] == rec[..i + 1][j] == rec[j];
  }

  /** What unblock() adds to the output so far. */
  lemma HeldBack(rec: string, i: nat, k: nat, s: string)
    requires i < |rec| && Pending(rec[..i], k)
    ensures k <= i
    ensures rec[i] == SPACE ==> s + rec[..i - k] + [] == s + rec[..i + 1 - (k + 1)]
    ensures rec[i] != SPACE ==> s + rec[..i - k] + (Spaces(k) + [rec[i]]) == s + rec[..i + 1]
  {
    assert forall j :: 0 <= j < i ==> rec[..i][j] == rec[j];
    if rec[i] != SPACE {
      assert rec[..i - k] + Spaces(k) == rec[..i];
      assert rec[..i] + [rec[i]] == rec[..i + 1];
    }
  }

  lemma {:induction false} PendingStripped(s: string, k: nat)
    requires Pending(s[..|s|], k)
    ensures Stripped(s) == s[..|s| - k]
  {
    assert s[..|s|] == s;
    if k > 0 {
      var r := s[..|s| - 1];
      assert r[..|r|] == r;
      PendingStripped(r, k - 1);
      assert r[..|r| - (k - 1)] == s[..|s| - k];
    }
  }

  lemma {:induction false} FirstRecord(lines: seq<string>, cbs: nat)
    requires BlockedLines(lines, cbs) != []
    ensures lines != [] && cbs <= |BlockedLines(lines, cbs)| && BlockedLines(lines, cbs)[..cbs] == Padded(lines[0], cbs)
    ensures BlockedLines(lines, cbs)[cbs..] == BlockedLines(lines[1..], cbs)
  {
    FirstIs(lines, cbs);
  }

  lemma FirstIs(lines: seq<string>, cbs: nat)
    requires lines != []
    ensures BlockedLines(lines, cbs) == Padded(lines[0], cbs) + BlockedLines(lines[1..], cbs)
  {
    FirstAnd(lines[0], lines[1..], cbs);
    hide BlockedLines, Padded;
    assert lines == [lines[0]] + lines[1..];
  }

  lemma {:induction false} FirstAnd(first: string, lines: seq<string>, cbs: nat)
    ensures BlockedLines([first] + lines, cbs) == Padded(first, cbs) + BlockedLines(lines, cbs)
  {
    if lines == [] {
      BlockedMore([], first, cbs);
      assert BlockedLines([], cbs) == [];
      hide BlockedLines, Padded;
      assert [first] + lines == [] + [first];
    } else {
      var init, last := lines[..|lines| - 1], lines[|lines| - 1];
      FirstAnd(first, init, cbs);
      BlockedMore([first] + init, last, cbs);
      BlockedMore(init, last, cbs);
      hide BlockedLines, Padded;
      assert lines == init + [last] && [first] + lines == ([first] + init) + [last];
      Assoc(Padded(first, cbs), BlockedLines(init, cbs), Padded(last, cbs));
    }
  }

  lemma Assoc(a: string, b: string, c: string)
    ensures (a + b) + c == a + (b + c)
  {
  }

  lemma BlockedMore(lines: seq<string>, line: string, cbs: nat)
    ensures BlockedLines(lines + [line], cbs) == BlockedLines(lines, cbs) + Padded(line, cbs)
  {
    hide Padded;
    assert (lines + [line])[..|lines|] == lines;
  }

  lemma {:induction false} NoRecord(lines: seq<string>, cbs: nat)
    requires cbs > 0 && BlockedLines(lines, cbs) == []
    ensures lines == []
  {
    if lines != [] { FirstIs(lines, cbs); }
  }

  /** dd conv=block and then dd conv=unblock, with any output sizes: the lines come back without trailing
      blanks and cut to cbs; they come back as they were exactly if all of them fit and end in no blank. */
  method RoundTrip(lines: seq<string>, cbs: nat, obs: nat, obs': nat) returns (result: string, ntrunc: nat)
    requires cbs > 0 && obs >= 1 && obs' >= 1 && forall i :: 0 <= i < |lines| ==> NEWLINE !in lines[i]
    ensures result == StrippedLines(lines, cbs) && ntrunc == TooLong(lines, cbs)
    ensures result == Text(lines) <==> forall i :: 0 <= i < |lines| ==> Survives(lines[i], cbs)
  {
    hide Flat, BlockedLines, StrippedLines, TooLong, Text, Survives;
    var d := new Converter(obs, cbs);
    d.BlockAll(lines);
    d.Flsh();
    var u := new Converter(obs', cbs);
    u.UnblockAll(Flat(d.out), lines);
    u.Flsh();
    result, ntrunc := Flat(u.out), d.ntrunc;
    LinesSurvive(lines, cbs);
  }
}
