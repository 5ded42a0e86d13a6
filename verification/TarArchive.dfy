/**
 Members of an archive in bin/tar.c: what putfile() puts on the tape, and where the readers land.
 */
module TarArchive {
  import opened TarBlocks
  import opened TarHeader

  const REGULAR := NUL
  const LINK := '1'
  const SYMLINK := '2'

  /** The blocks that hold `size` bytes. */
  function BlocksFor(size: nat): nat { (size + TBLOCK - 1) / TBLOCK }

  predicate IsDirectory(name: string) { |name| > 0 && name[|name| - 1] == '/' }

  /** Only regular files have data behind their header. */
  predicate HasData(h: Header) { h.link != LINK && h.link != SYMLINK && !IsDirectory(h.name) }

  datatype Member = Member(h: Header, data: seq<Block>)

  /** What putfile() writes: symbolic links and directories say that they have no bytes. */
  ghost predicate WellFormed(m: Member) {
    && Fits(m.h) && (m.h.link == SYMLINK || (IsDirectory(m.h.name) && m.h.link != LINK) ==> m.h.size == 0)
    && |m.data| == if HasData(m.h) then BlocksFor(m.h.size) else 0
  }

  ghost predicate AllWellFormed(ms: seq<Member>) { forall i :: 0 <= i < |ms| ==> WellFormed(ms[i]) }

  /** The blocks of an archive without its end. */
  ghost function Archive(ms: seq<Member>): seq<Block>
    requires AllWellFormed(ms)
  {
    if ms == [] then [] else OnTape(ms[0]) + Archive(ms[1..])
  }

  ghost function OnTape(m: Member): seq<Block>
    requires WellFormed(m)
  {
    [Encode(m.h)] + m.data
  }

  lemma ArchiveNone()
    ensures Archive([]) == []
  {
  }

  lemma {:induction false} ArchiveMore(ms: seq<Member>, m: Member)
    requires AllWellFormed(ms) && WellFormed(m)
    ensures AllWellFormed(ms + [m]) && Archive(ms + [m]) == Archive(ms) + OnTape(m)
  {
    hide WellFormed, OnTape;
    if ms == [] {
      assert [m][1..] == [] && [] + [m] == [m];
    } else {
      ArchiveMore(ms[1..], m);
      assert (ms + [m])[1..] == ms[1..] + [m];
    }
  }

  /** The bytes of blocks. */
  function Joined(bs: seq<Block>): (s: string)
    ensures |s| == TBLOCK * |bs|
  {
    if bs == [] then [] else Joined(bs[..|bs| - 1]) + bs[|bs| - 1]
  }

  /** Bytes cut into k blocks. */
  function Cut(s: string, k: nat): (bs: seq<Block>)
    requires |s| == TBLOCK * k
    ensures |bs| == k && Joined(bs) == s
  {
    if k == 0 then []
    else
      var n := TBLOCK * (k - 1);
      CutOne(Cut(s[..n], k - 1), s[n..]);
      assert s[..n] + s[n..] == s;
      Cut(s[..n], k - 1) + [s[n..]]
  }

  lemma CutOne(bs: seq<Block>, b: Block)
    ensures Joined(bs + [b]) == Joined(bs) + b
  {
    assert (bs + [b])[..|bs|] == bs;
  }

  lemma {:induction false} JoinedConcat(a: seq<Block>, b: seq<Block>)
    ensures Joined(a + b) == Joined(a) + Joined(b)
  {
    if b == [] {
      assert a + b == a;
    } else {
      assert (a + b)[..|a + b| - 1] == a + b[..|b| - 1];
      JoinedConcat(a, b[..|b| - 1]);
    }
  }

  function Min(a: int, b: int): int { if a < b then a else b }

  /** What read() would return at an offset when asked for a number of bytes: any answers at all. */
  type Reads = (nat, nat) -> int

  /** How many bytes a call of read() at `off` that asks for `want` returns: never more than asked for, nor
      than the file has; 0 or less at the end and on an error. */
  function Got(count: Reads, content: string, off: nat, want: nat): int
    requires off <= |content|
  {
    Min(Min(count(off, want), want), |content| - off)
  }

  /** As long as the file has it, read() returns whole blocks, or all that it is asked for. */
  ghost predicate BlockReads(count: Reads) {
    forall off, want :: count(off, want) > 0 && (count(off, want) % TBLOCK == 0 || count(off, want) >= want)
  }

  /** Every call of read() from `pos` on until the file's end returns whole blocks, or the rest of the file.
      What is asked for depends on the place in the tape buffer. */
  predicate GoodReads(count: Reads, nblock: nat, maxread: nat, size: nat, pos: nat, recno: nat)
    requires pos <= size && recno < nblock
    decreases size - pos
  {
    if pos == size then true
    else
      var want := Min((nblock - recno) * TBLOCK, maxread);
      var i := Min(Min(count(pos, want), want), size - pos);
      && i > 0
      && (pos + i == size
          || (i % TBLOCK == 0
              && GoodReads(count, nblock, maxread, size, pos + i, After(recno, i / TBLOCK, nblock))))
  }

  lemma {:induction false} BlockReadsGood(count: Reads, nblock: nat, maxread: nat, size: nat, pos: nat, recno: nat)
    requires BlockReads(count) && pos <= size && recno < nblock && ReadSize(maxread, nblock)
    ensures GoodReads(count, nblock, maxread, size, pos, recno)
    decreases size - pos
  {
    if pos < size {
      var want := Min((nblock - recno) * TBLOCK, maxread);
      assert want > 0 && want % TBLOCK == 0 by { WholeWant(nblock - recno, nblock, maxread, want, 1); }
      var i := Min(Min(count(pos, want), want), size - pos);
      assert count(pos, want) > 0;
      if pos + i != size {
        BlockReadsGood(count, nblock, maxread, size, pos + i, After(recno, i / TBLOCK, nblock));
      }
    }
  }

  /** Where the first read that is not good ends. */
  function FirstBad(count: Reads, nblock: nat, maxread: nat, size: nat, pos: nat, recno: nat): (e: nat)
    requires pos <= size && recno < nblock && !GoodReads(count, nblock, maxread, size, pos, recno)
    ensures pos <= e < size
    decreases size - pos
  {
    var want := Min((nblock - recno) * TBLOCK, maxread);
    var i := Min(Min(count(pos, want), want), size - pos);
    if i <= 0 then pos
    else if i % TBLOCK != 0 then pos + i
    else FirstBad(count, nblock, maxread, size, pos + i, After(recno, i / TBLOCK, nblock))
  }

  /** All of these are NUL or in the first bytes of the file. */
  ghost predicate Stale(s: string, content: string, off: nat)
    requires off <= |content|
  {
    forall k :: 0 <= k < |s| ==> s[k] == NUL || s[k] in content[..off]
  }

  lemma BlocksForMore(n: nat, k: nat)
    requires n > 0
    ensures (n - 1) / TBLOCK + 1 == BlocksFor(n) && TBLOCK * (BlocksFor(n) - 1) < n <= TBLOCK * BlocksFor(n)
    ensures n <= TBLOCK * k ==> BlocksFor(n) <= k
    ensures n == TBLOCK * k ==> BlocksFor(n) == k
  {
  }

  predicate ReadSize(maxread: nat, nblock: nat) { maxread == TBLOCK || maxread >= nblock * TBLOCK }

  /** The bytes that the two loops of putfile() put on the tape from `pos` on, when `blocks` are to come: of each
      read as many blocks as it fills, the last one filled up with what the buffer held; then empty blocks. */
  function Bytes(count: Reads, nblock: nat, maxread: nat, content: string, pos: nat, recno: nat, blocks: nat,
                 buf: string): (s: string)
    requires pos <= |content| && recno < nblock && |buf| == maxread && ReadSize(maxread, nblock)
    ensures |s| == TBLOCK * blocks
    decreases blocks
  {
    var want := Min((nblock - recno) * TBLOCK, maxread);
    var i := Got(count, content, pos, want);
    if i <= 0 || blocks == 0 then Nuls(TBLOCK * blocks)
    else
      WholeWant(nblock - recno, nblock, maxread, want, i);
      var now, n := content[pos..pos + i] + buf[i..], Nblks(i, blocks);
      now[..n * TBLOCK] + Bytes(count, nblock, maxread, content, pos + i, After(recno, n, nblock), blocks - n, now)
  }

  function Nuls(n: nat): (s: string)
    ensures |s| == n
  {
    seq(n, _ => NUL)
  }

  /** The bytes behind the header of a file that is to have `size` bytes. */
  function FileBytes(count: Reads, nblock: nat, maxread: nat, content: string, size: nat, recno: nat): (s: string)
    requires recno < nblock && ReadSize(maxread, nblock)
    ensures |s| == TBLOCK * BlocksFor(size)
  {
    Bytes(count, nblock, maxread, content, 0, recno, BlocksFor(size), Nuls(maxread))
  }

  /** One read and the blocks that it becomes. */
  lemma BytesStep(count: Reads, nblock: nat, maxread: nat, content: string, pos: nat, recno: nat, blocks: nat,
                  buf: string, i: nat)
    requires pos <= |content| && recno < nblock && |buf| == maxread && ReadSize(maxread, nblock)
    requires i == Got(count, content, pos, Min((nblock - recno) * TBLOCK, maxread)) > 0 && blocks > 0
    ensures var n := Nblks(i, blocks);
      && pos + i <= |content| && TBLOCK * n <= maxread && i <= maxread
      && var now := content[pos..pos + i] + buf[i..];
      |now| == maxread && Bytes(count, nblock, maxread, content, pos, recno, blocks, buf) == now[..TBLOCK * n]
        + Bytes(count, nblock, maxread, content, pos + i, After(recno, n, nblock), blocks - n, now)
  {
    hide Nblks, After, Got, Nuls, BlocksFor;
    GotBound(count, content, pos, Min((nblock - recno) * TBLOCK, maxread));
    WholeWant(nblock - recno, nblock, maxread, Min((nblock - recno) * TBLOCK, maxread), i);
  }

  /** How many bytes fit the blocks of a read. */
  lemma Amount(i: nat, blocks: nat)
    requires i > 0 && blocks > 0
    ensures var n := Nblks(i, blocks);
      && (n < blocks ==> TBLOCK * n >= i) && (i % TBLOCK == 0 ==> TBLOCK * n <= i)
      && (i % TBLOCK == 0 && n < blocks ==> n == i / TBLOCK && TBLOCK * n == i)
      && (i <= TBLOCK * blocks && i % TBLOCK == 0 ==> n == i / TBLOCK && TBLOCK * n == i)
      && (i < TBLOCK * blocks && i % TBLOCK != 0 ==> i < TBLOCK * n)
  {
    BlocksForMore(i, blocks);
    BlocksForMore(i, i / TBLOCK);
  }

  /** The beginning of what a read and the buffer put on the tape. */
  lemma FrontOf(content: string, pos: nat, i: nat, buf: string, k: nat, rest: string, m: nat)
    requires pos + i <= |content| && i <= |buf| && m <= i && m <= k <= |buf|
    ensures ((content[pos..pos + i] + buf[i..])[..k] + rest)[..m] == content[pos..pos + m]
  {
    var c, now := content[pos..pos + i], content[pos..pos + i] + buf[i..];
    assert (now[..k] + rest)[..m] == now[..k][..m] == now[..m];
    assert now[..m] == c[..m] == content[pos..pos + m];
  }

  lemma FrontAnd(content: string, pos: nat, i: nat, buf: string, rest: string, m: nat)
    requires pos + i + m <= |content| && i <= |buf| && m <= |rest| && rest[..m] == content[pos + i..pos + i + m]
    ensures ((content[pos..pos + i] + buf[i..])[..i] + rest)[..i + m] == content[pos..pos + i + m]
  {
    var c, now := content[pos..pos + i], content[pos..pos + i] + buf[i..];
    assert now[..i] == c;
    assert (c + rest)[..i + m] == c + rest[..m];
    assert c + content[pos + i..pos + i + m] == content[pos..pos + i + m];
  }

  /** With good reads the bytes are those of the file, as far as there are blocks for them. */
  lemma {:induction false} BytesGood(count: Reads, nblock: nat, maxread: nat, content: string, pos: nat, recno: nat,
                                     blocks: nat, buf: string)
    requires pos <= |content| && recno < nblock && |buf| == maxread && ReadSize(maxread, nblock)
    requires GoodReads(count, nblock, maxread, |content|, pos, recno)
    ensures var m := Min(TBLOCK * blocks, |content| - pos);
      Bytes(count, nblock, maxread, content, pos, recno, blocks, buf)[..m] == content[pos..pos + m]
    decreases blocks
  {
    hide Bytes, Nblks, After, GoodReads, Got, BlocksFor;
    var i := Got(count, content, pos, Min((nblock - recno) * TBLOCK, maxread));
    GoodStep(count, nblock, maxread, content, pos, recno);
    if i > 0 && blocks > 0 {
      var m, n := Min(TBLOCK * blocks, |content| - pos), Nblks(i, blocks);
      BytesStep(count, nblock, maxread, content, pos, recno, blocks, buf, i);
      Amount(i, blocks);
      var now, recno' := content[pos..pos + i] + buf[i..], After(recno, n, nblock);
      var rest := Bytes(count, nblock, maxread, content, pos + i, recno', blocks - n, now);
      if n == blocks || pos + i == |content| {
        FrontOf(content, pos, i, buf, TBLOCK * n, rest, m);
      } else {
        BytesGood(count, nblock, maxread, content, pos + i, recno', blocks - n, now);
        FrontAnd(content, pos, i, buf, rest, m - i);
      }
    }
  }

  /** The bytes are those of the file up to the end of the first bad read, and there NUL or an earlier byte of
      the file stands, which the buffer held. */
  lemma {:induction false} BytesBad(count: Reads, nblock: nat, maxread: nat, content: string, pos: nat, recno: nat,
                                    blocks: nat, buf: string)
    requires pos <= |content| && recno < nblock && |buf| == maxread && ReadSize(maxread, nblock)
    requires !GoodReads(count, nblock, maxread, |content|, pos, recno) && Stale(buf, content, pos)
    requires FirstBad(count, nblock, maxread, |content|, pos, recno) < pos + TBLOCK * blocks
    ensures var e, s := FirstBad(count, nblock, maxread, |content|, pos, recno),
        Bytes(count, nblock, maxread, content, pos, recno, blocks, buf);
      s[..e - pos] == content[pos..e] && (s[e - pos] == NUL || s[e - pos] in content[..e])
    decreases blocks
  {
    hide Nblks, After, Bytes, FirstBad, GoodReads, Got, BlocksFor, Nuls, Stale;
    var i := Got(count, content, pos, Min((nblock - recno) * TBLOCK, maxread));
    BadStep(count, nblock, maxread, content, pos, recno);
    if i <= 0 {
      CopyEnd(count, nblock, maxread, content, pos, recno, blocks, buf);
      NulsAt(TBLOCK * blocks);
    } else {
      var e, n := FirstBad(count, nblock, maxread, |content|, pos, recno), Nblks(i, blocks);
      BytesStep(count, nblock, maxread, content, pos, recno, blocks, buf, i);
      Amount(i, blocks);
      var now, recno' := content[pos..pos + i] + buf[i..], After(recno, n, nblock);
      var rest := Bytes(count, nblock, maxread, content, pos + i, recno', blocks - n, now);
      if i % TBLOCK != 0 {
        BadHere(content, pos, i, buf, TBLOCK * n, rest);
      } else {
        StaleMore(buf, content, pos, i);
        BytesBad(count, nblock, maxread, content, pos + i, recno', blocks - n, now);
        BadLater(content, pos, i, buf, rest, e);
      }
    }
  }

  lemma NulsAt(n: nat)
    ensures forall k :: 0 <= k < n ==> Nuls(n)[k] == NUL
  {
  }

  /** A good read gives the rest of the file, or whole blocks. */
  lemma GoodStep(count: Reads, nblock: nat, maxread: nat, content: string, pos: nat, recno: nat)
    requires pos <= |content| && recno < nblock && GoodReads(count, nblock, maxread, |content|, pos, recno)
    ensures var i := Got(count, content, pos, Min((nblock - recno) * TBLOCK, maxread));
      && (i <= 0 ==> pos == |content|)
      && (i > 0 ==> pos + i <= |content|)
      && (i > 0 && pos + i < |content| ==>
        i % TBLOCK == 0
        && GoodReads(count, nblock, maxread, |content|, pos + i, After(recno, i / TBLOCK, nblock)))
  {
  }

  /** Behind the bytes of a read that ends inside a block stands what the buffer held. */
  lemma BadHere(content: string, pos: nat, i: nat, buf: string, k: nat, rest: string)
    requires i < k <= |buf| && pos + i < |content| && Stale(buf, content, pos)
    ensures var s := (content[pos..pos + i] + buf[i..])[..k] + rest;
      s[..i] == content[pos..pos + i] && (s[i] == NUL || s[i] in content[..pos + i])
  {
    FrontOf(content, pos, i, buf, k, rest, i);
    if buf[i] != NUL { StaleAt(buf, content, pos, i, i); }
  }

  lemma BadLater(content: string, pos: nat, i: nat, buf: string, rest: string, e: nat)
    requires pos + i <= e < |content| && i <= |buf| && e - pos - i < |rest|
    requires rest[..e - pos - i] == content[pos + i..e]
    ensures var s := (content[pos..pos + i] + buf[i..])[..i] + rest;
      s[..e - pos] == content[pos..e] && s[e - pos] == rest[e - pos - i]
  {
    FrontAnd(content, pos, i, buf, rest, e - pos - i);
  }

  /** The first bad read is this one, or a later one. */
  lemma BadStep(count: Reads, nblock: nat, maxread: nat, content: string, pos: nat, recno: nat)
    requires pos <= |content| && recno < nblock && !GoodReads(count, nblock, maxread, |content|, pos, recno)
    ensures var i, e := Got(count, content, pos, Min((nblock - recno) * TBLOCK, maxread)),
        FirstBad(count, nblock, maxread, |content|, pos, recno);
      && (i <= 0 ==> e == pos)
      && (i > 0 ==> pos + i < |content|)
      && (i > 0 && i % TBLOCK != 0 ==> e == pos + i)
      && (i > 0 && i % TBLOCK == 0 ==>
        var recno' := After(recno, i / TBLOCK, nblock);
        && !GoodReads(count, nblock, maxread, |content|, pos + i, recno')
        && e == FirstBad(count, nblock, maxread, |content|, pos + i, recno'))
  {
  }

  /** Which reads keep a file: for the given size, every file is on the tape as it is exactly if all reads until
      its end are good. */
  lemma KeptExactly(count: Reads, nblock: nat, maxread: nat, size: nat, recno: nat)
    requires recno < nblock && ReadSize(maxread, nblock)
    ensures GoodReads(count, nblock, maxread, size, 0, recno) <==>
      forall content: string :: |content| == size ==> Kept(count, nblock, maxread, content, recno)
  {
    if GoodReads(count, nblock, maxread, size, 0, recno) {
      forall content: string | |content| == size ensures Kept(count, nblock, maxread, content, recno) {
        GoodKept(count, nblock, maxread, content, recno);
      }
    } else {
      var e := FirstBad(count, nblock, maxread, size, 0, recno);
      var content: string := seq(size, k => if k == e then 'b' else 'a');
      BadBytes(count, nblock, maxread, content, size, recno);
      BlocksForSize(size);
      assert FileBytes(count, nblock, maxread, content, size, recno)[e] != content[e];
    }
  }

  /** The file is on the tape as it is. */
  predicate Kept(count: Reads, nblock: nat, maxread: nat, content: string, recno: nat)
    requires recno < nblock && ReadSize(maxread, nblock)
  {
    BlocksForSize(|content|);
    FileBytes(count, nblock, maxread, content, |content|, recno)[..|content|] == content
  }

  lemma GoodKept(count: Reads, nblock: nat, maxread: nat, content: string, recno: nat)
    requires recno < nblock && ReadSize(maxread, nblock) && GoodReads(count, nblock, maxread, |content|, 0, recno)
    ensures Kept(count, nblock, maxread, content, recno)
  {
    BlocksForSize(|content|);
    hide Bytes, GoodReads, Nuls, BlocksFor;
    BytesGood(count, nblock, maxread, content, 0, recno, BlocksFor(|content|), Nuls(maxread));
    assert content[0..|content|] == content;
  }

  lemma BadBytes(count: Reads, nblock: nat, maxread: nat, content: string, size: nat, recno: nat)
    requires recno < nblock && ReadSize(maxread, nblock) && !GoodReads(count, nblock, maxread, |content|, 0, recno)
    ensures var e := FirstBad(count, nblock, maxread, |content|, 0, recno);
      e < TBLOCK * BlocksFor(size) ==>
        var s := FileBytes(count, nblock, maxread, content, size, recno);
        s[..e] == content[..e] && (s[e] == NUL || s[e] in content[..e])
  {
    hide Bytes, GoodReads, FirstBad, BlocksFor;
    var e := FirstBad(count, nblock, maxread, |content|, 0, recno);
    if e < TBLOCK * BlocksFor(size) {
      BytesBad(count, nblock, maxread, content, 0, recno, BlocksFor(size), Nuls(maxread));
      assert content[0..e] == content[..e];
    }
  }

  /** A file of 100 times `a` and 100 times `b`, of which read() returns 100 bytes at a time: the second half is
      not on the tape. */
  lemma ShortRead()
    ensures var count: Reads := (off, want) => 100;
      var content := seq(200, k => if k < 100 then 'a' else 'b');
      && !GoodReads(count, 1, TBLOCK, 200, 0, 0) && FirstBad(count, 1, TBLOCK, 200, 0, 0) == 100
      && !Kept(count, 1, TBLOCK, content, 0)
  {
    var count: Reads := (off, want) => 100;
    var content := seq(200, k => if k < 100 then 'a' else 'b');
    BadBytes(count, 1, TBLOCK, content, 200, 0);
    BlocksForSize(200);
    assert FileBytes(count, 1, TBLOCK, content, 200, 0)[100] != content[100];
  }

  /** The part of putfile() for a regular file: whatever read() returns, the header is followed by exactly the
      blocks that it announces.  They hold the bytes of the file if all reads are good, and else those up to the
      end of the first one that is not, and there NUL or an earlier byte. */
  method PutRegular(w: TapeWriter, h: Header, content: string, count: Reads, maxread: nat)
    returns (ghost data: seq<Block>)
    requires w.Valid() && Fits(h) && ReadSize(maxread, w.nblock)
    modifies w`recno, w`tape, w.tbuf
    ensures w.Valid() && w.Stream() == old(w.Stream()) + [Encode(h)] + data && |data| == BlocksFor(h.size)
    ensures var recno := After(old(w.recno), 1, w.nblock);
      && Joined(data) == FileBytes(count, w.nblock, maxread, content, h.size, recno)
      && if GoodReads(count, w.nblock, maxread, |content|, 0, recno) then
        var m := Min(TBLOCK * |data|, |content|); Joined(data)[..m] == content[..m]
      else
        var e := FirstBad(count, w.nblock, maxread, |content|, 0, recno);
        e < TBLOCK * |data| ==>
          Joined(data)[..e] == content[..e] && (Joined(data)[e] == NUL || Joined(data)[e] in content[..e])
  {
    hide Encode, Fits, BlocksFor, GoodReads, FirstBad, FileBytes, Joined, After;
    var hint := w.WriteTBuf([Encode(h)]);
    ghost var recno := w.recno;
    data := PutData(w, h.size, content, count, maxread, hint);
    RegularBytes(count, w.nblock, maxread, content, h.size, recno);
  }

  lemma RegularBytes(count: Reads, nblock: nat, maxread: nat, content: string, size: nat, recno: nat)
    requires recno < nblock && ReadSize(maxread, nblock)
    ensures var s := FileBytes(count, nblock, maxread, content, size, recno);
      if GoodReads(count, nblock, maxread, |content|, 0, recno) then
        var m := Min(TBLOCK * BlocksFor(size), |content|); s[..m] == content[..m]
      else
        var e := FirstBad(count, nblock, maxread, |content|, 0, recno);
        e < TBLOCK * BlocksFor(size) ==> s[..e] == content[..e] && (s[e] == NUL || s[e] in content[..e])
  {
    if GoodReads(count, nblock, maxread, |content|, 0, recno) {
      BytesGood(count, nblock, maxread, content, 0, recno, BlocksFor(size), Nuls(maxread));
      var m := Min(TBLOCK * BlocksFor(size), |content|);
      assert content[0..m] == content[..m];
    } else {
      BadBytes(count, nblock, maxread, content, size, recno);
    }
  }

  /** The two loops behind the header. */
  method PutData(w: TapeWriter, size: nat, content: string, count: Reads, maxread: nat, hint0: nat)
    returns (ghost data: seq<Block>)
    requires w.Valid() && hint0 == w.nblock - w.recno && ReadSize(maxread, w.nblock)
    modifies w`recno, w`tape, w.tbuf
    ensures w.Valid() && w.Stream() == old(w.Stream()) + data && |data| == BlocksFor(size)
    ensures Joined(data) == FileBytes(count, w.nblock, maxread, content, size, old(w.recno))
  {
    hide BlocksFor, Joined, FileBytes, After;
    ghost var rest, s := [], w.Stream();
    var blocks;
    blocks, data := CopyFile(w, size, content, count, maxread, hint0);
    rest := PutEmpties(w, blocks);
    Assoc(s, data, rest);
    JoinedConcat(data, rest);
    EmptiesAre(rest);
    data := data + rest;
  }

  lemma {:induction false} EmptiesAre(bs: seq<Block>)
    requires forall k :: 0 <= k < |bs| ==> bs[k] == EMPTY
    ensures Joined(bs) == Nuls(TBLOCK * |bs|)
  {
    if bs != [] { EmptiesAre(bs[..|bs| - 1]); }
  }

  /** As many empty blocks as the file has come short of. */
  method PutEmpties(w: TapeWriter, blocks0: nat) returns (ghost data: seq<Block>)
    requires w.Valid()
    modifies w`recno, w`tape, w.tbuf
    ensures w.Valid() && w.Stream() == old(w.Stream()) + data && |data| == blocks0
    ensures forall k :: 0 <= k < |data| ==> data[k] == EMPTY
  {
    hide After;
    var blocks := blocks0;
    data := [];
    while blocks > 0
      invariant w.Valid() && w.Stream() == old(w.Stream()) + data
      invariant blocks >= 0 && blocks + |data| == blocks0 && forall k :: 0 <= k < |data| ==> data[k] == EMPTY
    {
      var hint := w.WriteTBuf([EMPTY]);
      assert (old(w.Stream()) + data) + [EMPTY] == old(w.Stream()) + (data + [EMPTY]);
      data := data + [EMPTY];
      blocks := blocks - 1;
    }
  }

  /** The reading loop: as long as read() returns something, and blocks are to come. */
  method CopyFile(w: TapeWriter, size: nat, content: string, count: Reads, maxread: nat, hint0: nat)
    returns (blocks: nat, ghost data: seq<Block>)
    requires w.Valid() && hint0 == w.nblock - w.recno && ReadSize(maxread, w.nblock)
    modifies w`recno, w`tape, w.tbuf
    ensures w.Valid() && w.Stream() == old(w.Stream()) + data && blocks + |data| == BlocksFor(size)
    ensures Joined(data) + Nuls(TBLOCK * blocks)
      == FileBytes(count, w.nblock, maxread, content, size, old(w.recno))
  {
    hide BlocksFor, Joined, Got, Bytes, FileBytes, Nuls, Nblks, After, OnTheWay, Flat, Uniform, TapeWriter.Stream;
    var hint, bigbuf, pos := hint0, Nuls(maxread), 0;
    blocks, data := BlocksFor(size), [];
    ghost var s, all := w.Stream(), FileBytes(count, w.nblock, maxread, content, size, w.recno);
    CopyStart(count, w.nblock, maxread, content, size, w.recno, bigbuf);
    NoMore(s);
    while true
      invariant w.Valid() && w.Stream() == s + data && hint == w.nblock - w.recno
      invariant blocks + |data| == BlocksFor(size) && |bigbuf| == maxread && 0 <= pos <= |content|
      invariant OnTheWay(all, data, count, w.nblock, maxread, content, pos, w.recno, blocks, bigbuf)
      decreases blocks
    {
      var want := Min(hint * TBLOCK, maxread);
      var i := Got(count, content, pos, want);
      GotBound(count, content, pos, want);
      if i <= 0 || blocks == 0 {
        CopyDone(all, data, count, w.nblock, maxread, content, pos, w.recno, blocks, bigbuf);
        return;
      }
      var part;
      hint, blocks, bigbuf, part := CopyPart(w, content, count, maxread, pos, i, blocks, bigbuf, all, data);
      Assoc(s, data, part);
      data := data + part;
      pos := pos + i;
    }
  }

  lemma NoMore(s: seq<Block>)
    ensures s + [] == s
  {
  }

  /** The i bytes of one read go to the tape, in as many blocks as they fill. */
  method CopyPart(w: TapeWriter, content: string, count: Reads, maxread: nat, pos: nat, i: nat, blocks: nat,
                  bigbuf: string, ghost all: string, ghost data: seq<Block>)
    returns (hint: nat, blocks': nat, bigbuf': string, part: seq<Block>)
    requires w.Valid() && ReadSize(maxread, w.nblock) && pos <= |content| && |bigbuf| == maxread && blocks > 0
    requires i == Got(count, content, pos, Min((w.nblock - w.recno) * TBLOCK, maxread)) > 0
    requires OnTheWay(all, data, count, w.nblock, maxread, content, pos, w.recno, blocks, bigbuf)
    modifies w`recno, w`tape, w.tbuf
    ensures w.Valid() && w.Stream() == old(w.Stream()) + part && hint == w.nblock - w.recno
    ensures |part| >= 1 && blocks' + |part| == blocks && |bigbuf'| == maxread && pos + i <= |content|
    ensures OnTheWay(all, data + part, count, w.nblock, maxread, content, pos + i, w.recno, blocks', bigbuf')
  {
    hide BlocksFor, Joined, Got, Bytes, Nuls, After, OnTheWay;
    var want := Min((w.nblock - w.recno) * TBLOCK, maxread);
    GotBound(count, content, pos, want);
    WholeWant(w.nblock - w.recno, w.nblock, maxread, want, i);
    bigbuf' := content[pos..pos + i] + bigbuf[i..];
    var nblks := Nblks(i, blocks);
    part := Cut(bigbuf'[..nblks * TBLOCK], nblks);
    CopyStep(all, data, part, count, w.nblock, maxread, content, pos, w.recno, blocks, bigbuf);
    hint := w.WriteTBuf(part);
    blocks' := blocks - nblks;
  }

  /** The blocks `data` and the bytes to come are all. */
  ghost predicate OnTheWay(all: string, data: seq<Block>, count: Reads, nblock: nat, maxread: nat, content: string,
                           pos: nat, recno: nat, blocks: nat, buf: string)
  {
    && pos <= |content| && recno < nblock && |buf| == maxread && ReadSize(maxread, nblock)
    && Joined(data) + Bytes(count, nblock, maxread, content, pos, recno, blocks, buf) == all
  }

  lemma CopyStart(count: Reads, nblock: nat, maxread: nat, content: string, size: nat, recno: nat, buf: string)
    requires recno < nblock && ReadSize(maxread, nblock) && buf == Nuls(maxread)
    ensures OnTheWay(FileBytes(count, nblock, maxread, content, size, recno), [], count, nblock, maxread, content, 0,
                     recno, BlocksFor(size), buf)
  {
    hide Bytes, BlocksFor;
  }

  lemma CopyEnd(count: Reads, nblock: nat, maxread: nat, content: string, pos: nat, recno: nat, blocks: nat,
                buf: string)
    requires pos <= |content| && recno < nblock && |buf| == maxread && ReadSize(maxread, nblock)
    requires Got(count, content, pos, Min((nblock - recno) * TBLOCK, maxread)) <= 0 || blocks == 0
    ensures Bytes(count, nblock, maxread, content, pos, recno, blocks, buf) == Nuls(TBLOCK * blocks)
  {
  }

  lemma CopyDone(all: string, data: seq<Block>, count: Reads, nblock: nat, maxread: nat, content: string, pos: nat,
                 recno: nat, blocks: nat, buf: string)
    requires OnTheWay(all, data, count, nblock, maxread, content, pos, recno, blocks, buf)
    requires pos <= |content| && recno < nblock
    requires Got(count, content, pos, Min((nblock - recno) * TBLOCK, maxread)) <= 0 || blocks == 0
    ensures Joined(data) + Nuls(TBLOCK * blocks) == all
  {
    hide Bytes, Joined, Nuls;
    CopyEnd(count, nblock, maxread, content, pos, recno, blocks, buf);
  }

  lemma CopyStep(all: string, data: seq<Block>, part: seq<Block>, count: Reads, nblock: nat, maxread: nat,
                 content: string, pos: nat, recno: nat, blocks: nat, buf: string)
    requires OnTheWay(all, data, count, nblock, maxread, content, pos, recno, blocks, buf)
    requires pos <= |content| && recno < nblock && blocks > 0
    requires var i := Got(count, content, pos, Min((nblock - recno) * TBLOCK, maxread));
      && 0 < i <= |buf| && pos + i <= |content| && |part| == Nblks(i, blocks) && TBLOCK * |part| <= |buf|
      && Joined(part) == (content[pos..pos + i] + buf[i..])[..|part| * TBLOCK]
    ensures var i := Got(count, content, pos, Min((nblock - recno) * TBLOCK, maxread));
      OnTheWay(all, data + part, count, nblock, maxread, content, pos + i, After(recno, |part|, nblock),
               blocks - |part|, content[pos..pos + i] + buf[i..])
  {
    hide Bytes, Joined, After, Got, Nblks;
    var i: nat := Got(count, content, pos, Min((nblock - recno) * TBLOCK, maxread));
    JoinedConcat(data, part);
    BytesStep(count, nblock, maxread, content, pos, recno, blocks, buf, i);
    var now, recno' := content[pos..pos + i] + buf[i..], After(recno, |part|, nblock);
    JoinAssoc(Joined(data), Joined(part),
              Bytes(count, nblock, maxread, content, pos + i, recno', blocks - |part|, now));
  }

  lemma JoinAssoc(a: string, b: string, c: string)
    ensures (a + b) + c == a + (b + c)
  {
  }

  /** The blocks that a read of i bytes fills, but not more than are to come. */
  function Nblks(i: nat, blocks: nat): (n: nat)
    requires i > 0 && blocks > 0
    ensures 1 <= n == Min(BlocksFor(i), blocks) && n * TBLOCK < i + TBLOCK && n <= (i - 1) / TBLOCK + 1
  {
    BlocksForMore(i, 0);
    var n := (i - 1) / TBLOCK + 1;
    if n > blocks then blocks else n
  }

  lemma StaleMore(s: string, content: string, off: nat, i: nat)
    requires off + i <= |content| && i <= |s| && Stale(s, content, off)
    ensures Stale(content[off..off + i] + s[i..], content, off + i)
  {
    var r, c := content[off..off + i] + s[i..], content[..off + i];
    forall k | 0 <= k < |r| ensures r[k] == NUL || r[k] in c {
      if k < i { assert r[k] == c[off + k]; }
      else if s[k] != NUL { StaleAt(s, content, off, i, k); }
    }
  }

  lemma StaleAt(s: string, content: string, off: nat, i: nat, k: nat)
    requires off + i <= |content| && Stale(s, content, off) && k < |s| && s[k] != NUL
    ensures s[k] in content[..off + i]
  {
    var j :| 0 <= j < off && content[..off][j] == s[k];
    assert content[..off + i][j] == s[k];
  }

  lemma GotBound(count: Reads, content: string, off: nat, want: nat)
    requires off <= |content|
    ensures Got(count, content, off, want) <= want && Got(count, content, off, want) <= |content| - off
  {
  }

  /** A request is for whole blocks, and no more than are missing to the next record. */
  lemma WholeWant(hint: nat, nblock: nat, maxread: nat, want: nat, i: nat)
    requires 1 <= hint <= nblock && ReadSize(maxread, nblock)
    requires want == Min(hint * TBLOCK, maxread) && 0 < i <= want
    ensures want % TBLOCK == 0 && ((i - 1) / TBLOCK + 1) * TBLOCK <= want <= maxread
  {
    if hint * TBLOCK <= maxread { BlocksForMore(i, hint); } else { BlocksForMore(i, 1); }
  }

  /** What the extracting loop of doxtract() writes to the file: the bytes of the member, cut to its size. */
  method Extract(r: TapeReader, size: nat, ghost data: seq<Block>, ghost more: seq<Block>) returns (out: string)
    requires r.Valid() && r.Rest() == data + more && |data| == BlocksFor(size)
    modifies r`nblock, r`first, r`recno, r`at, r.tbuf
    ensures r.Valid() && r.Rest() == more && size <= TBLOCK * |data| && out == Joined(data)[..size]
  {
    var blocks, bytes := BlocksFor(size), size as int;
    out := [];
    ghost var done := 0;
    if size > 0 { BlocksForMore(size, 0); }
    assert data[0..] == data && data[..0] == [];
    hide Joined, BlocksFor;
    while blocks > 0
      invariant blocks >= 0 && done + blocks == |data| && r.Valid() && r.Rest() == data[done..] + more
      invariant done <= |data| && bytes == size - TBLOCK * done && Taken(out, data[..done], size)
      decreases blocks
    {
      var nwant := NBLOCK;
      if nwant > blocks { nwant := blocks; }
      ghost var rest := r.Rest();
      var ok, got := r.ReadTBuf(nwant);
      TakeGot(data, done, more, got, r.Rest(), rest, nwant);
      TakenMore(out, data[..done], size, got);
      out := out + Joined(got)[..Min(TBLOCK * |got|, bytes)];
      bytes := bytes - TBLOCK * |got|;
      blocks := blocks - |got|;
      done := done + |got|;
    }
    assert data[..done] == data && data[done..] == [];
  }

  /** The first blocks of a member, cut to its size. */
  ghost predicate Taken(out: string, blocks: seq<Block>, size: nat) {
    out == Joined(blocks)[..Min(size, TBLOCK * |blocks|)]
  }

  lemma TakenMore(out: string, blocks: seq<Block>, size: nat, got: seq<Block>)
    requires Taken(out, blocks, size) && TBLOCK * |blocks| < size
    ensures Taken(out + Joined(got)[..Min(TBLOCK * |got|, size - TBLOCK * |blocks|)], blocks + got, size)
  {
    hide Joined;
    JoinedConcat(blocks, got);
    TakeMore(out, Joined(blocks), Joined(got), size, TBLOCK * |blocks|, TBLOCK * |got|);
  }

  lemma TakeMore(out: string, j: string, g: string, size: nat, k: nat, m: nat)
    requires |j| == k && |g| == m && k < size && out == j[..Min(size, k)]
    ensures out + g[..Min(m, size - k)] == (j + g)[..Min(size, k + m)]
  {
    assert out == j;
    TakeConcat(j, g, Min(m, size - k));
  }

  lemma TakeConcat(s: string, t: string, n: nat)
    requires n <= |t|
    ensures (s + t)[..|s| + n] == s + t[..n]
  {
  }

  lemma TakeGot(data: seq<Block>, done: nat, more: seq<Block>, got: seq<Block>, rest': seq<Block>, rest: seq<Block>,
                n: nat)
    requires done < |data| && rest == data[done..] + more && rest == got + rest' && |got| <= n <= |data| - done
    ensures got == data[done..done + |got|] && rest' == data[done + |got|..] + more
    ensures data[..done + |got|] == data[..done] + got
  {
    assert rest[..|got|] == got && rest[|got|..] == rest';
  }

  /** A file that is put on the tape: its header as stat() and the name make it, and its bytes. */
  datatype File = File(h: Header, content: string)

  ghost predicate Storable(f: File) {
    && Fits(f.h) && (f.h.link == SYMLINK || (IsDirectory(f.h.name) && f.h.link != LINK) ==> f.h.size == 0)
  }

  /** A regular file has as many bytes as its header says, also while it is read; links and directories have none. */
  predicate Unchanged(f: File) {
    if f.h.link in {'1', '2'} || (f.h.name != "" && f.h.name[|f.h.name| - 1] == '/') then f.content == ""
    else |f.content| == f.h.size
  }

  /** The bytes of a member. */
  ghost function Contents(m: Member): string
    requires WellFormed(m)
  {
    if HasData(m.h) then
      BlocksForSize(m.h.size);
      Joined(m.data)[..m.h.size]
    else []
  }

  lemma BlocksForSize(size: nat)
    ensures size <= TBLOCK * BlocksFor(size)
  {
    if size > 0 { BlocksForMore(size, 0); }
  }

  /** putfile() */
  method PutFile(w: TapeWriter, f: File, count: Reads, maxread: nat) returns (ghost m: Member)
    requires w.Valid() && Storable(f) && ReadSize(maxread, w.nblock)
    modifies w`recno, w`tape, w.tbuf
    ensures w.Valid() && WellFormed(m) && m.h == f.h && w.Stream() == old(w.Stream()) + OnTape(m)
    ensures BlockReads(count) && Unchanged(f) ==> Contents(m) == f.content
  {
    hide Fits, Encode, BlockReads, GoodReads, FirstBad, FileBytes, After, BlocksFor, Joined;
    ghost var data := [];
    if HasData(f.h) {
      if BlockReads(count) {
        BlockReadsGood(count, w.nblock, maxread, |f.content|, 0, After(w.recno, 1, w.nblock));
      }
      BlocksForSize(f.h.size);
      data := PutRegular(w, f.h, f.content, count, maxread);
    } else {
      var hint := w.WriteTBuf([Encode(f.h)]);
    }
    m := Member(f.h, data);
    Assoc(old(w.Stream()), [Encode(f.h)], data);
  }

  /** passtape() */
  method PassTape(r: TapeReader, h: Header, ghost data: seq<Block>, ghost more: seq<Block>)
    requires r.Valid() && r.Rest() == data + more && WellFormed(Member(h, data))
    modifies r`nblock, r`first, r`recno, r`at, r.tbuf
    ensures r.Valid() && r.Rest() == more
  {
    hide Fits;
    assert data == [] ==> data + more == more;
    if h.link == LINK { return; }
    var blocks := BlocksFor(h.size);
    hide BlocksFor;
    ghost var done := 0;
    assert data[0..] == data;
    while blocks > 0
      invariant blocks >= 0 && done + blocks == |data| && r.Valid() && r.Rest() == data[done..] + more
      decreases blocks
    {
      blocks := blocks - 1;
      ghost var rest := r.Rest();
      var ok, got := r.ReadTBuf(1);
      TakeGot(data, done, more, got, r.Rest(), rest, 1);
      done := done + 1;
    }
    assert data[done..] == [];
  }

  /** A member as it is extracted: its header and its bytes. */
  type Extracted = (Header, string)

  /** Which members the caller wants. */
  type Choice = Header -> bool

  /** What the reader should see: the wanted members, each with its bytes. */
  ghost function Seen(ms: seq<Member>, wanted: Choice): seq<Extracted>
    requires AllWellFormed(ms)
  {
    if ms == [] then []
    else
      var n := |ms| - 1;
      Seen(ms[..n], wanted) + if wanted(ms[n].h) then [(ms[n].h, Contents(ms[n]))] else []
  }

  /** readtape() and getdir(): the next header, or None at the end of the archive. */
  method NextHeader(r: TapeReader, ghost ms: seq<Member>, ghost more: seq<Block>) returns (end: bool, h: Header)
    requires r.Valid() && AllWellFormed(ms) && r.Rest() == Archive(ms) + [EMPTY] + more
    modifies r`nblock, r`first, r`recno, r`at, r.tbuf
    ensures r.Valid() && end == (ms == [])
    ensures !end ==> h == ms[0].h && r.Rest() == ms[0].data + (Archive(ms[1..]) + [EMPTY] + more)
  {
    hide Fits, Encode, Decode, ChecksumOk, TapeReader.Valid;
    ghost var rest := r.Rest();
    var ok, got := r.ReadTBuf(1);
    var dblock := got[0];
    h := Decode(dblock);
    end := dblock[0] == NUL;
    NextBlock(ms, more, rest, dblock, r.Rest());
    assert end || ChecksumOk(dblock);
  }

  lemma NextBlock(ms: seq<Member>, more: seq<Block>, rest: seq<Block>, b: Block, rest': seq<Block>)
    requires AllWellFormed(ms) && rest == Archive(ms) + [EMPTY] + more && rest == [b] + rest'
    ensures ms == [] ==> b == EMPTY
    ensures ms != [] ==> b[0] != NUL && Decode(b) == ms[0].h && ChecksumOk(b)
    ensures ms != [] ==> rest' == ms[0].data + (Archive(ms[1..]) + [EMPTY] + more)
  {
    hide Encode, Decode, ChecksumOk, Fits;
    assert rest[0] == b && rest[1..] == rest';
    if ms != [] {
      assert WellFormed(ms[0]) && Fits(ms[0].h);
      HeaderRoundTrip(ms[0].h);
      NameFirst(ms[0].h, Encode(ms[0].h));
      FrontBlock(Encode(ms[0].h), ms[0].data, Archive(ms[1..]), more, rest);
    }
  }

  lemma FrontBlock(e: Block, d: seq<Block>, a: seq<Block>, more: seq<Block>, rest: seq<Block>)
    requires rest == ([e] + d) + a + [EMPTY] + more
    ensures rest[0] == e && rest[1..] == d + (a + [EMPTY] + more)
  {
  }

  /** A block whose name is not empty does not begin with NUL. */
  lemma NameFirst(h: Header, b: Block)
    requires Fits(h) && Decode(b) == h
    ensures b[0] != NUL
  {
  }

  /** doxtract(), or a listing: every member is found, in order, and those that are wanted with their bytes;
      the reader lands on every header, and stops at the end. */
  method ReadArchive(r: TapeReader, wanted: Choice, ghost ms: seq<Member>, ghost more: seq<Block>)
    returns (seen: seq<Extracted>)
    requires r.Valid() && AllWellFormed(ms) && r.Rest() == Archive(ms) + [EMPTY] + more
    modifies r`nblock, r`first, r`recno, r`at, r.tbuf
    ensures r.Valid() && seen == Seen(ms, wanted)
  {
    hide Fits, Encode, Decode, TapeReader.Valid, Archive, Contents;
    seen := [];
    ghost var n := 0;
    assert ms[0..] == ms && ms[..0] == [];
    while true
      invariant r.Valid() && 0 <= n <= |ms| && r.Rest() == Archive(ms[n..]) + [EMPTY] + more
      invariant seen == Seen(ms[..n], wanted)
      decreases |ms| - n
    {
      var end, h := NextHeader(r, ms[n..], more);
      if end { break; }
      ghost var m, tail := ms[n], Archive(ms[n + 1..]) + [EMPTY] + more;
      assert ms[n..][0] == m && ms[n..][1..] == ms[n + 1..] && WellFormed(m) && m == Member(h, m.data);
      assert ms[..n + 1][..n] == ms[..n];
      if !wanted(h) {
        PassTape(r, h, m.data, tail);
      } else {
        var content := ReadData(r, h, m.data, tail);
        seen := seen + [(h, content)];
      }
      n := n + 1;
    }
    assert ms[..n] == ms;
  }

  /** What doxtract() does with a wanted member: links and directories have no data to read. */
  method ReadData(r: TapeReader, h: Header, ghost data: seq<Block>, ghost more: seq<Block>) returns (content: string)
    requires r.Valid() && r.Rest() == data + more && WellFormed(Member(h, data))
    modifies r`nblock, r`first, r`recno, r`at, r.tbuf
    ensures r.Valid() && r.Rest() == more && content == Contents(Member(h, data))
  {
    hide Fits, BlocksFor, Joined;
    if HasData(h) {
      content := Extract(r, h.size, data, more);
    } else {
      content := [];
      assert data + more == more;
    }
  }

  function Wanted(files: seq<File>, wanted: Choice): seq<Extracted> {
    if files == [] then []
    else
      var n := |files| - 1;
      Wanted(files[..n], wanted) + if wanted(files[n].h) then [(files[n].h, files[n].content)] else []
  }

  /** The headers of the files, wanted or not. */
  function Headers(files: seq<File>, wanted: Choice): seq<Header> {
    if files == [] then []
    else
      var n := |files| - 1;
      Headers(files[..n], wanted) + if wanted(files[n].h) then [files[n].h] else []
  }

  /** The members that files have become: under their headers, and with their bytes if `kept`. */
  ghost predicate Stored(files: seq<File>, ms: seq<Member>, kept: bool) {
    && AllWellFormed(ms) && |ms| == |files|
    && forall i :: 0 <= i < |ms| ==> ms[i].h == files[i].h && (kept ==> Contents(ms[i]) == files[i].content)
  }

  lemma StoredNone(files: seq<File>, kept: bool)
    ensures Stored(files[..0], [], kept)
  {
  }

  lemma StoredMore(files: seq<File>, n: nat, ms: seq<Member>, m: Member, kept: bool)
    requires n < |files| && Stored(files[..n], ms, kept) && AllWellFormed(ms + [m])
    requires WellFormed(m) && m.h == files[n].h && (kept ==> Contents(m) == files[n].content)
    ensures Stored(files[..n + 1], ms + [m], kept)
  {
    hide WellFormed, Contents;
    forall i | 0 <= i < n ensures files[..n + 1][i] == files[..n][i] {
    }
  }

  lemma {:induction false} StoredSeen(files: seq<File>, ms: seq<Member>, wanted: Choice, kept: bool)
    requires Stored(files, ms, kept)
    ensures |Seen(ms, wanted)| == |Headers(files, wanted)|
    ensures forall i :: 0 <= i < |Seen(ms, wanted)| ==> Seen(ms, wanted)[i].0 == Headers(files, wanted)[i]
    ensures kept ==> Seen(ms, wanted) == Wanted(files, wanted)
  {
    hide WellFormed, Contents;
    if ms != [] { StoredSeen(files[..|ms| - 1], ms[..|ms| - 1], wanted, kept); }
  }

  /** Nothing happens to the bytes of these files. */
  ghost predicate AllKept(files: seq<File>, count: Reads) {
    BlockReads(count) && forall i :: 0 <= i < |files| ==> Unchanged(files[i])
  }

  lemma KeptOnes(files: seq<File>, count: Reads)
    requires AllKept(files, count)
    ensures BlockReads(count) && forall i :: 0 <= i < |files| ==> Unchanged(files[i])
  {
  }

  /** tar c: all files, two empty blocks, and the last record filled up. */
  method Create(files: seq<File>, nblock: nat, count: Reads, maxread: nat)
    returns (w: TapeWriter, ghost ms: seq<Member>, ghost pad: seq<Block>)
    requires nblock >= 1 && ReadSize(maxread, nblock) && forall i :: 0 <= i < |files| ==> Storable(files[i])
    ensures fresh(w) && Uniform(w.tape, nblock) && Stored(files, ms, AllKept(files, count))
    ensures Flat(w.tape) == Archive(ms) + [EMPTY] + ([EMPTY] + pad)
  {
    hide BlockReads, WellFormed, Contents, OnTape, Storable, Unchanged, Archive, Flat, Stored, After, AllKept;
    hide Uniform, TapeWriter.Stream;
    ghost var kept := AllKept(files, count);
    w := new TapeWriter(nblock);
    ms := [];
    ArchiveNone();
    StoredNone(files, kept);
    if kept { KeptOnes(files, count); }
    for n := 0 to |files|
      modifies w`recno, w`tape, w.tbuf
      invariant w.Valid() && Stored(files[..n], ms, kept) && AllWellFormed(ms) && w.Stream() == Archive(ms)
    {
      ghost var m := PutFile(w, files[n], count, maxread);
      ArchiveMore(ms, m);
      StoredMore(files, n, ms, m, kept);
      ms := ms + [m];
    }
    assert files[..|files|] == files;
    ghost var a := Archive(ms);
    var hint := w.WriteTBuf([EMPTY]);
    hint := w.WriteTBuf([EMPTY]);
    pad := w.FlushTape();
    assert a + [EMPTY] + [EMPTY] + pad == a + [EMPTY] + ([EMPTY] + pad);
  }

  /** What tar c has written, tar x reads back: whatever read() did, the headers of the wanted files, in order,
      and with reads of whole blocks all their bytes. */
  method CreateAndExtract(files: seq<File>, nblock: nat, count: Reads, maxread: nat, wanted: Choice)
    returns (seen: seq<Extracted>)
    requires nblock >= 1 && ReadSize(maxread, nblock) && forall i :: 0 <= i < |files| ==> Storable(files[i])
    ensures |seen| == |Headers(files, wanted)|
    ensures forall i :: 0 <= i < |seen| ==> seen[i].0 == Headers(files, wanted)[i]
    ensures AllKept(files, count) ==> seen == Wanted(files, wanted)
  {
    hide BlockReads, Uniform, AllKept;
    var w, ms, pad := Create(files, nblock, count, maxread);
    assert exists n :: 1 <= n <= nblock && Uniform(w.tape, n);
    var r := new TapeReader(w.tape, nblock);
    seen := ReadArchive(r, wanted, ms, [EMPTY] + pad);
    StoredSeen(files, ms, wanted, AllKept(files, count));
  }
}
