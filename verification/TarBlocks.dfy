/**
 The record blocking of bin/tar.c: 512-byte blocks go to the tape, and come from it, in records of
 `nblock` blocks.
 */
module TarBlocks {

  const TBLOCK := 512
  const NBLOCK := 20

  type Block = b: seq<char> | |b| == TBLOCK witness seq(TBLOCK, _ => '\0')

  const EMPTY: Block := seq(TBLOCK, _ => '\0')

  /** The blocks of a tape, in order. */
  function Flat(tape: seq<seq<Block>>): seq<Block> {
    if tape == [] then [] else Flat(tape[..|tape| - 1]) + tape[|tape| - 1]
  }

  predicate Uniform(tape: seq<seq<Block>>, nblock: nat) {
    forall i :: 0 <= i < |tape| ==> |tape[i]| == nblock
  }

  lemma FlatNone()
    ensures Flat([]) == []
  {
  }

  lemma FlatMore(tape: seq<seq<Block>>, rec: seq<Block>)
    ensures Flat(tape + [rec]) == Flat(tape) + rec
  {
    assert (tape + [rec])[..|tape|] == tape;
  }

  lemma FlatFirst(tape: seq<seq<Block>>)
    requires tape != []
    ensures Flat(tape) == tape[0] + Flat(tape[1..])
  {
    FlatAnd(tape[0], tape[1..]);
    hide Flat;
    assert tape == [tape[0]] + tape[1..];
  }

  lemma {:induction false} FlatAnd(rec: seq<Block>, tape: seq<seq<Block>>)
    ensures Flat([rec] + tape) == rec + Flat(tape)
  {
    if tape == [] {
      FlatMore([], rec);
      FlatNone();
      hide Flat;
      assert [rec] + tape == [] + [rec];
    } else {
      var init, last := tape[..|tape| - 1], tape[|tape| - 1];
      FlatAnd(rec, init);
      FlatMore([rec] + init, last);
      FlatMore(init, last);
      hide Flat;
      LastOff(tape, rec);
      Assoc(rec, Flat(init), last);
    }
  }

  lemma LastOff<T>(s: seq<T>, x: T)
    requires s != []
    ensures s == s[..|s| - 1] + [s[|s| - 1]] && [x] + s == ([x] + s[..|s| - 1]) + [s[|s| - 1]]
  {
  }

  lemma Assoc(a: seq<Block>, b: seq<Block>, c: seq<Block>)
    ensures (a + b) + c == a + (b + c)
  {
  }

  /** The place in the buffer after n more blocks. */
  function After(recno: nat, n: nat, nblock: nat): (r: nat)
    requires recno < nblock
    ensures r < nblock
    decreases n
  {
    if n == 0 then recno else After(if recno + 1 == nblock then 0 else recno + 1, n - 1, nblock)
  }

  lemma TakeMore(s: seq<Block>, at: nat, n: nat)
    requires at + n <= |s|
    ensures s[..at + n] == s[..at] + s[at..at + n]
  {
  }

  lemma {:induction false} AfterMore(recno: nat, n: nat, m: nat, nblock: nat)
    requires recno < nblock
    ensures After(recno, n + m, nblock) == After(After(recno, n, nblock), m, nblock)
    decreases n
  {
    if n > 0 { AfterMore(if recno + 1 == nblock then 0 else recno + 1, n - 1, m, nblock); }
  }

  lemma {:induction false} AfterRecord(recno: nat, nblock: nat)
    requires recno < nblock
    ensures After(recno, nblock - recno, nblock) == 0
    decreases nblock - recno
  {
    if recno + 1 < nblock { AfterRecord(recno + 1, nblock); }
  }

  class TapeWriter {
    const nblock: nat
    const tbuf: array<Block>
    var recno: nat
    var tape: seq<seq<Block>>

    ghost predicate Valid()
      reads this
    {
      1 <= nblock == tbuf.Length && recno < nblock && Uniform(tape, nblock)
    }

    /** Everything that has been submitted: what is on the tape and what waits in the buffer. */
    ghost function Stream(): seq<Block>
      reads this, tbuf
      requires Valid()
    {
      Flat(tape) + tbuf[..recno]
    }

    constructor (nblock: nat)
      requires nblock >= 1
      ensures Valid() && Stream() == [] && recno == 0 && this.nblock == nblock && fresh(tbuf)
    {
      this.nblock := nblock;
      tbuf := new Block[nblock](_ => EMPTY);
      recno, tape := 0, [];
    }

    /** writetbuf(): the blocks go through the buffer, or, while it is empty, whole records of them straight
        to the tape.  Returned is how many blocks are missing to the next record. */
    method WriteTBuf(buffer: seq<Block>) returns (hint: nat)
      requires Valid()
      modifies `recno, `tape, tbuf
      ensures Valid() && Stream() == old(Stream()) + buffer
      ensures 1 <= hint == nblock - recno && recno == After(old(recno), |buffer|, nblock)
    {
      hide After, Flat, Uniform;
      var at := WriteDirect(buffer);
      var n: nat := |buffer| - at;
      while n > 0
        invariant Valid() && at + n == |buffer| && Stream() == old(Stream()) + buffer[..at]
        invariant recno == After(old(recno), at, nblock)
        decreases n
      {
        n := n - 1;
        AfterMore(old(recno), at, 1, nblock);
        PutBlock(buffer[at]);
        TakeMore(buffer, at, 1);
        at := at + 1;
      }
      assert buffer[..at] == buffer;
      hint := nblock - recno;
    }

    /** The loop of writetbuf() that does without the buffer. */
    method WriteDirect(buffer: seq<Block>) returns (at: nat)
      requires Valid()
      modifies `tape
      ensures Valid() && at <= |buffer| && Stream() == old(Stream()) + buffer[..at]
      ensures recno == After(recno, at, nblock) && (recno == 0 ==> |buffer| - at < nblock)
    {
      var n: nat := |buffer|;
      at := 0;
      assert After(recno, 0, nblock) == recno && buffer[..0] == [];
      hide After, Flat, Uniform;
      while recno == 0 && n >= nblock
        modifies `tape
        invariant Valid() && at + n == |buffer| && Stream() == old(Stream()) + buffer[..at]
        invariant recno == After(recno, at, nblock)
        decreases n
      {
        AfterRecord(0, nblock);
        AfterMore(recno, at, nblock, nblock);
        PutRecord(buffer[at..at + nblock]);
        TakeMore(buffer, at, nblock);
        n := n - nblock;
        at := at + nblock;
      }
    }

    /** A record that does not go through the buffer. */
    method PutRecord(rec: seq<Block>)
      requires Valid() && recno == 0 && |rec| == nblock
      modifies `tape
      ensures Valid() && Stream() == old(Stream()) + rec
    {
      FlatMore(tape, rec);
      assert tbuf[..0] == [];
      tape := tape + [rec];
    }

    /** One block into the buffer, which goes to the tape when it is full. */
    method PutBlock(b: Block)
      requires Valid()
      modifies `recno, `tape, tbuf
      ensures Valid() && Stream() == old(Stream()) + [b]
      ensures recno == After(old(recno), 1, nblock)
    {
      FlatMore(tape, tbuf[..][recno := b]);
      hide Flat;
      tbuf[recno] := b;
      recno := recno + 1;
      assert tbuf[..recno] == old(tbuf[..recno]) + [b];
      if recno >= nblock {
        assert tbuf[..] == tbuf[..recno] == old(tbuf[..])[old(recno) := b];
        tape := tape + [tbuf[..]];
        recno := 0;
      }
    }

    /** flushtape(): the last record is filled up with what the buffer holds. */
    method FlushTape() returns (ghost pad: seq<Block>)
      requires Valid()
      modifies `tape
      ensures Valid() && Uniform(tape, nblock) && Flat(tape) == old(Stream()) + pad
      ensures |pad| < nblock && pad == if recno == 0 then [] else tbuf[recno..]
    {
      pad := [];
      if recno > 0 {
        pad := tbuf[recno..];
        FlatMore(tape, tbuf[..]);
        assert tbuf[..] == tbuf[..recno] + tbuf[recno..];
        tape := tape + [tbuf[..]];
      }
    }
  }

  lemma Split(b: seq<Block>, i: nat, j: nat, k: nat, rest: seq<Block>)
    requires i <= j <= k <= |b|
    ensures b[i..k] + rest == b[i..j] + (b[j..k] + rest)
  {
  }

  class TapeReader {
    const tape: seq<seq<Block>>
    const tbuf: array<Block>
    var nblock: nat
    var first: bool  // the first record has been read
    var recno: nat
    var at: nat      // records read

    /** The records of the tape are equally long and fit the buffer. */
    ghost predicate Valid()
      reads this
    {
      && at <= |tape| && (first <==> at > 0)
      && (first ==> 1 <= nblock <= tbuf.Length && recno <= nblock && Uniform(tape, nblock))
      && (!first ==> exists n :: 1 <= n <= tbuf.Length && Uniform(tape, n))
    }

    /** The blocks that are still to be read. */
    ghost function Rest(): seq<Block>
      reads this, tbuf
      requires Valid()
    {
      (if first then tbuf[recno..nblock] else []) + Flat(tape[at..])
    }

    constructor (tape: seq<seq<Block>>, size: nat)
      requires exists n :: 1 <= n <= size && Uniform(tape, n)
      ensures Valid() && Rest() == Flat(tape) && fresh(tbuf)
    {
      this.tape := tape;
      tbuf := new Block[size](_ => EMPTY);
      first, recno, at, nblock := false, 0, 0, size;
    }

    /** readtbuf(): the next blocks, as many as are wanted and are in the record; false at the end of the
        tape. */
    method ReadTBuf(size: nat) returns (ok: bool, got: seq<Block>)
      requires Valid()
      modifies `nblock, `first, `recno, `at, tbuf
      ensures Valid() && ok == (old(Rest()) != [])
      ensures ok ==> old(Rest()) == got + Rest() && |got| <= size && (size > 0 ==> |got| > 0)
      ensures !ok ==> Rest() == old(Rest())
    {
      hide Flat, Uniform;
      got := [];
      if recno >= nblock || !first {
        if at >= |tape| {
          assert tape[at..] == [];
          FlatNone();
          return false, [];
        }
        Fill();
      }
      var n := size;
      if n > nblock - recno { n := nblock - recno; }
      got := tbuf[recno..recno + n];
      Split(tbuf[..], recno, recno + n, nblock, Flat(tape[at..]));
      recno := recno + n;
      ok := true;
    }

    /** The next record into the buffer; the first one tells how long records are. */
    method Fill()
      requires Valid() && at < |tape| && (first ==> recno == nblock)
      modifies `nblock, `first, `recno, `at, tbuf
      ensures Valid() && first && recno == 0 && nblock >= 1 && Rest() == old(Rest())
    {
      FlatFirst(tape[at..]);
      assert tape[at..][1..] == tape[at + 1..];
      if !first {
        nblock := |tape[at]|;
        first := true;
      }
      recno := 0;
      forall j | 0 <= j < nblock {
        tbuf[j] := tape[at][j];
      }
      assert tbuf[..nblock] == tape[at];
      at := at + 1;
    }
  }
}
