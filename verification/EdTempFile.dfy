/**
 The temporary file of bin/ed.c: lines of text behind two 512-byte buffers.

 A line's address counts in units of two bytes; byte `2 * a` is where the text of address `a`
 starts.  `mem` is the text as one run of bytes, `store` the lines by address; both are ghost.
 */
module EdTempFile {
  import opened Wrappers

  const BLOCK := 512
  const NUL := '\0'
  const LIMIT := 0x80_0000  // addresses whose block number survives the mask 077777

  /** (atl>>8)&077777 */
  function BlockOf(atl: nat): nat { atl / 256 % 0x8000 }

  /** (atl<<1)&0774 */
  function OffsetOf(atl: nat): nat { atl / 2 % 128 * 4 }

  /** (((n)+03)>>1)&077776 for the lengths that occur */
  function Advance(n: nat): nat { (n + 3) / 4 * 2 }

  /** The address without its mark bit. */
  function Unmark(tl: nat): nat { tl - tl % 2 }

  predicate Even(n: nat) { n % 2 == 0 }

  lemma AdvanceEven(addr: nat, n: nat)
    requires Even(addr)
    ensures Even(addr + Advance(n))
  {
  }

  function CharAt(s: string, i: nat): char { if i < |s| then s[i] else NUL }

  /** The copying loop stops exactly at the end of the stored part. */
  lemma StopsAtText(s: string, i: nat)
    requires NUL !in s && i <= |Text(s)|
    ensures CharAt(s, i) == NUL <==> i == |s|
    ensures CharAt(s, i) == NUL || CharAt(s, i) == '\n' <==> i == |Text(s)|
    ensures i < |Text(s)| ==> s[..i] + [CharAt(s, i)] == s[..i + 1]
    ensures NUL !in Text(s)
  {
    if i < |Text(s)| { assert Text(s)[i] == s[i] && s[i] in Text(s) && s[i] in s; }
    else if i < |s| { assert s[i] in s; }
  }

  /** The stored part of a line buffer: up to a newline, if there is one. */
  function Text(s: string): (t: string)
    ensures |t| <= |s| && t == s[..|t|] && '\n' !in t
    ensures |t| < |s| ==> s[|t|] == '\n'
  {
    if |s| == 0 || s[0] == '\n' then [] else [s[0]] + Text(s[1..])
  }

  lemma {:induction false} TextOfText(s: string)
    requires '\n' !in s
    ensures Text(s) == s
  {
    if s != [] {
      assert s[0] in s && forall c :: c in s[1..] ==> c in s;
      TextOfText(s[1..]);
    }
  }

  /** Line `t` stands at address `a`, with its terminator. */
  ghost predicate LineIn(mem: seq<char>, a: nat, t: string) {
    && a % 2 == 0 && 2 <= a && 2 * a + |t| < |mem|
    && (forall i :: 0 <= i < |t| ==> mem[2 * a + i] == t[i]) && mem[2 * a + |t|] == NUL
    && NUL !in t && '\n' !in t && |t| < BLOCK
  }

  ghost predicate Lines(mem: seq<char>, store: map<nat, string>) {
    forall a :: a in store ==> LineIn(mem, a, store[a])
  }

  lemma LineChar(mem: seq<char>, a: nat, t: string, i: nat)
    requires LineIn(mem, a, t) && i <= |t|
    ensures 4 <= 2 * a + i < |mem| && (mem[2 * a + i] == NUL <==> i == |t|)
    ensures i < |t| ==> mem[2 * a + i] == t[i] && 2 * a + i + 1 < |mem|
  {
    if i < |t| { assert t[i] in t; }
  }

  lemma LinesEnd(mem: seq<char>, store: map<nat, string>)
    requires Lines(mem, store)
    ensures forall a :: a in store ==> 2 * a < |mem|
  {
    forall a | a in store ensures 2 * a < |mem| {
      assert LineIn(mem, a, store[a]);
    }
  }

  /** Lines stay where they are when text is added behind them. */
  lemma LinesStay(mem: seq<char>, mem': seq<char>, store: map<nat, string>, addr: nat, t: string)
    requires Lines(mem, store) && mem <= mem' && LineIn(mem', addr, t)
    ensures Lines(mem', store[addr := t])
  {
    forall a | a in store ensures LineIn(mem', a, store[a]) {
      assert LineIn(mem, a, store[a]);
    }
  }

  lemma NewLine(mem: seq<char>, m: seq<char>, mem': seq<char>, addr: nat, t: string)
    requires addr % 2 == 0 && 2 <= addr && |mem| == 2 * addr
    requires NUL !in t && '\n' !in t && |t| < BLOCK
    requires m == mem + t + [NUL] && m <= mem'
    ensures mem <= mem' && LineIn(mem', addr, t)
  {
  }

  ghost predicate ReadUpTo(s: string, t: string, n: nat) {
    n <= |t| && s == t[..n]
  }

  lemma NoneRead(t: string)
    ensures ReadUpTo([], t, 0)
  {
  }

  lemma OneMore(s: string, t: string, n: nat, c: char)
    requires ReadUpTo(s, t, n)
    ensures n < |t| && c == t[n] ==> ReadUpTo(s + [c], t, n + 1)
    ensures n == |t| ==> s == t
  {
  }

  class TempFile {
    const ibuff: array<char>
    const obuff: array<char>
    var iblock: int
    var oblock: int
    var ichanged: bool
    var tline: nat
    var disk: map<int, seq<char>>
    ghost var mem: seq<char>
    ghost var store: map<nat, string>

    /** Byte `k` as the buffers and the file hold it. */
    ghost predicate ByteOk(k: nat)
      reads `iblock, `oblock, `disk, `mem, ibuff, obuff
      requires ibuff.Length == BLOCK && obuff.Length == BLOCK && k < |mem|
    {
      var b := k / BLOCK;
      if b == oblock then obuff[k % BLOCK] == mem[k]
      else if b == iblock then ibuff[k % BLOCK] == mem[k]
      else b in disk && |disk[b]| == BLOCK && disk[b][k % BLOCK] == mem[k]
    }

    /** The two buffers never hold the same block, and only the block at the end of the text is still
        in the write buffer. */
    ghost predicate Buffers()
      reads `iblock, `oblock, `ichanged, `disk, `mem, ibuff, obuff
    {
      && ibuff.Length == BLOCK && obuff.Length == BLOCK && ibuff != obuff
      && 4 <= |mem|
      && (oblock == -1 ==> |mem| == 4)
      && -1 <= oblock && (oblock >= 0 ==> (|mem| - 1) / BLOCK <= oblock <= |mem| / BLOCK)
      && -1 <= iblock
      && (iblock >= 0 ==> iblock < oblock && (!ichanged ==> iblock in disk && disk[iblock] == ibuff[..]))
      && (forall k {:trigger mem[k]} {:trigger ByteOk(k)} :: 4 <= k < |mem| ==> ByteOk(k))
    }

    ghost predicate Valid()
      reads this, ibuff, obuff
    {
      && Buffers() && !ichanged
      && Even(tline) && |mem| == 2 * tline && tline <= LIMIT
      && Lines(mem, store)
    }

    /** init() */
    constructor ()
      ensures Valid() && store == map[] && tline == 2
      ensures fresh(ibuff) && fresh(obuff)
    {
      ibuff := new char[BLOCK];
      obuff := new char[BLOCK];
      iblock, oblock, ichanged, tline := -1, -1, false, 2;
      disk := map[];
      mem := [NUL, NUL, NUL, NUL];
      store := map[];
    }

    predicate TwoBuffers() { ibuff.Length == BLOCK && obuff.Length == BLOCK && ibuff != obuff }

    /** A read miss: write the read buffer out if it has changed, and fill it with another block. */
    method Load(bno: int)
      requires TwoBuffers() && bno != iblock && bno in disk && |disk[bno]| == BLOCK
      modifies this`iblock, this`ichanged, this`disk, ibuff
      ensures iblock == bno && !ichanged && ibuff[..] == old(disk)[bno]
      ensures disk == if old(ichanged) then old(disk)[old(iblock) := old(ibuff[..])] else old(disk)
      ensures old(Buffers()) && 0 <= bno < oblock ==> Buffers()
    {
      if ichanged {
        disk := disk[iblock := ibuff[..]];
      }
      ichanged := false;
      iblock := bno;
      forall j | 0 <= j < BLOCK {
        ibuff[j] := disk[bno][j];
      }
      assert ibuff[..] == disk[bno];
      if old(Buffers()) && 0 <= bno < oblock {
        forall k | 4 <= k < |mem| ensures ByteOk(k) {
          assert old(mem[k]) == mem[k];
          assert old(ByteOk(k));
        }
      }
    }

    /** A write miss: write the other buffer out and start the next block in it, without reading. */
    method NextBlock(bno: int)
      requires TwoBuffers() && bno != oblock
      modifies this`oblock, this`disk
      ensures oblock == bno
      ensures disk == if old(oblock) >= 0 then old(disk)[old(oblock) := obuff[..]] else old(disk)
      ensures old(Buffers()) && bno == |mem| / BLOCK ==> Buffers()
    {
      if oblock >= 0 {
        disk := disk[oblock := obuff[..]];
      }
      oblock := bno;
      if old(Buffers()) && bno == |mem| / BLOCK {
        forall k | 4 <= k < |mem| ensures ByteOk(k) {
          assert old(mem[k]) == mem[k];
          assert old(ByteOk(k));
        }
      }
    }

    /** getblock(), for any address.  A block that is read and is in no buffer has to be in the file. */
    method Locate(atl: nat, write: bool) returns (buf: array<char>, off: nat, nleft: nat)
      requires TwoBuffers()
      requires var b := BlockOf(atl); !write && b != iblock && b != oblock ==> b in disk && |disk[b]| == BLOCK
      modifies this`iblock, this`oblock, this`ichanged, this`disk, ibuff
      ensures off == OffsetOf(atl) < BLOCK && nleft == BLOCK - off
      ensures var b := BlockOf(atl);
        if b == old(iblock) then
          buf == ibuff && ibuff[..] == old(ibuff[..]) && disk == old(disk)
          && iblock == b && oblock == old(oblock) && ichanged == (old(ichanged) || write)
        else if b == old(oblock) then
          buf == obuff && ibuff[..] == old(ibuff[..]) && disk == old(disk)
          && iblock == old(iblock) && oblock == b && ichanged == old(ichanged)
        else if !write then
          buf == ibuff && iblock == b && oblock == old(oblock) && !ichanged && ibuff[..] == old(disk)[b]
        else
          buf == obuff && ibuff[..] == old(ibuff[..]) && iblock == old(iblock)
            && oblock == b && ichanged == old(ichanged)
      ensures old(Buffers()) && (if write then BlockOf(atl) == |mem| / BLOCK else BlockOf(atl) <= old(oblock)) ==>
        Buffers()
    {
      var bno := BlockOf(atl);
      off := OffsetOf(atl);
      nleft := BLOCK - off;
      hide BlockOf, OffsetOf, ByteOk;
      if bno == iblock {
        ichanged := ichanged || write;
        buf := ibuff;
      } else if bno == oblock {
        buf := obuff;
      } else if !write {
        Load(bno);
        buf := ibuff;
      } else {
        NextBlock(bno);
        buf := obuff;
      }
    }

    /** getblock() below LIMIT: the buffer and offset where the byte at `atl` is, or is to be written.  `write` is
        only ever asked for at the end of the text. */
    method GetBlock(atl: nat, write: bool) returns (buf: array<char>, off: nat, nleft: nat)
      requires Buffers() && atl < LIMIT
      requires if write then atl % 2 == 0 && 2 * atl == |mem| else 4 <= 4 * (atl / 2) < |mem|
      modifies this`iblock, this`oblock, this`ichanged, this`disk, ibuff
      ensures Buffers() && (old(ichanged) || !ichanged)
      ensures 0 <= off < BLOCK && atl / 256 * BLOCK + off == 4 * (atl / 2) && nleft == BLOCK - off
      ensures write ==> buf == obuff && oblock == atl / 256
      ensures !write ==> oblock == old(oblock) && (buf == ibuff || buf == obuff)
      ensures !write ==> Shows(buf, atl / 256)
    {
      Cells(atl);
      if !write { ReadBlock(atl); }
      hide BlockOf, OffsetOf, ByteOk;
      buf, off, nleft := Locate(atl, write);
      if !write { BlockShows(atl, buf); }
    }

    /** A line that is stored at address `tl` overwrites the one at an address that shares its cell: after an
        empty line, nothing is left of that other line, whatever it was and wherever its block is. */
    method Overwrite(tl: nat, a: nat) returns (first: char)
      requires TwoBuffers() && tl % 2 == 0 && a % 2 == 0 && tl % LIMIT == a % LIMIT
      modifies this`iblock, this`oblock, this`ichanged, this`disk, ibuff, obuff
      ensures first == NUL
    {
      AddressesCollide(tl, a);
      hide BlockOf, OffsetOf;
      var buf, off, nleft := Locate(tl, true);
      buf[off] := NUL;
      var bp, at, nl := Locate(a, false);
      first := bp[at];
    }

    /** A block that is read has been written: it is in a buffer or in the file. */
    lemma ReadBlock(atl: nat)
      requires Buffers() && atl < LIMIT && 4 <= 4 * (atl / 2) < |mem|
      ensures var b := atl / 256; b <= oblock && (b != oblock && b != iblock ==> b in disk && |disk[b]| == BLOCK)
    {
      var k: nat := 4 * (atl / 2);
      Cells(atl);
      assert mem[k] == mem[k];
      assert ByteOk(k);
    }

    lemma BlockShows(atl: nat, buf: array<char>)
      requires Buffers() && buf.Length == BLOCK && (atl / 256 == oblock ==> buf == obuff)
      requires atl / 256 != oblock ==> buf == ibuff && iblock == atl / 256
      ensures Shows(buf, atl / 256)
    {
      var b := atl / 256;
      forall j | 0 <= j < BLOCK && 4 <= b * BLOCK + j < |mem| ensures buf[j] == mem[b * BLOCK + j] {
        var k: nat := b * BLOCK + j;
        assert k / BLOCK == b && k % BLOCK == j;
        assert mem[k] == mem[k];
        assert ByteOk(k);
      }
    }

    /** The buffer holds all that has been written of block `b`. */
    ghost predicate Shows(buf: array<char>, b: nat)
      reads `mem, buf
    {
      buf.Length == BLOCK
      && forall j {:trigger buf[j]} :: 0 <= j < BLOCK && 4 <= b * BLOCK + j < |mem| ==> buf[j] == mem[b * BLOCK + j]
    }

    /** Store the byte at the end of the text. */
    method PutByte(bp: nat, c: char)
      requires Buffers() && 0 <= oblock && oblock * BLOCK + bp == |mem| && bp < BLOCK
      modifies obuff, this`mem
      ensures Buffers() && mem == old(mem) + [c]
    {
      obuff[bp] := c;
      mem := mem + [c];
      forall k | 4 <= k < |mem| ensures ByteOk(k) {
        if k < |mem| - 1 {
          assert old(mem[k]) == mem[k];
          assert old(ByteOk(k));
        }
      }
    }

    /** The end of the text moves up to a multiple of four, still inside the block. */
    ghost method Pad()
      requires Buffers() && oblock >= 0 && |mem| % BLOCK != 0
      modifies this`mem
      ensures Buffers() && old(mem) <= mem && |mem| == (|old(mem)| + 3) / 4 * 4
      decreases 3 - (|mem| + 3) % 4
    {
      hide Buffers;
      Rounded(|mem|);
      if |mem| % 4 != 0 {
        PadOne();
        Rounded(|mem|);
        if |mem| % 4 != 0 { Pad(); }
      }
    }

    ghost method PadOne()
      requires Buffers() && oblock >= 0 && |mem| % BLOCK != 0
      modifies this`mem
      ensures Buffers() && old(mem) <= mem && |mem| == |old(mem)| + 1
    {
      mem := mem + [obuff[|mem| % BLOCK]];
      forall k | 4 <= k < |mem| ensures ByteOk(k) {
        if k < |mem| - 1 {
          assert old(mem[k]) == mem[k];
          assert old(ByteOk(k));
        }
      }
    }

    /** Writing stands at the end of the text, in the write buffer. */
    ghost predicate Writing(tl: nat, bp: nat, nl: nat)
      reads `mem, `oblock
    {
      tl % 256 == 0 && oblock == tl / 256 && tl / 256 * BLOCK + bp == |mem| && bp < BLOCK && nl == BLOCK - bp
    }

    /** Store one byte, and go on to the next block if this one is full. */
    method WriteByte(tl: nat, bp: nat, nl: nat, c: char) returns (tl': nat, bp': nat, nl': nat)
      requires Buffers() && !ichanged && Writing(tl, bp, nl) && |mem| + 1 < 2 * LIMIT
      modifies `iblock, `oblock, `ichanged, `disk, `mem, ibuff, obuff
      ensures Buffers() && !ichanged && Writing(tl', bp', nl') && mem == old(mem) + [c]
    {
      PutByte(bp, c);
      tl', bp', nl' := tl, bp + 1, nl - 1;
      if nl' == 0 {
        tl' := tl + 256;
        assert tl' / 256 == tl / 256 + 1 && tl' % 2 == 0;
        hide Buffers;
        var buf;
        buf, bp', nl' := GetBlock(tl', true);
      }
    }

    /** The first block to write to. */
    method StartWriting() returns (tl: nat, bp: nat, nl: nat)
      requires Buffers() && !ichanged && Even(tline) && |mem| == 2 * tline && tline < LIMIT
      modifies `iblock, `oblock, `ichanged, `disk, ibuff
      ensures Buffers() && !ichanged && Writing(tl, bp, nl)
    {
      hide Buffers;
      var buf;
      buf, bp, nl := GetBlock(tline, true);
      tl := tline - tline % 256;
      assert tl / 256 == tline / 256;
    }

    /** The copying loop: the stored part of the line goes to the end of the text, block after block. */
    method CopyIn(s: string) returns (lp: nat, linebp: Option<string>)
      requires Buffers() && !ichanged && |s| < BLOCK && NUL !in s
      requires Even(tline) && |mem| == 2 * tline && tline + Advance(|Text(s)| + 1) <= LIMIT
      modifies `iblock, `oblock, `ichanged, `disk, `mem, ibuff, obuff
      ensures Buffers() && !ichanged && 0 <= oblock
      ensures mem == old(mem) + Text(s) + [NUL] && lp == |Text(s)| + 1
      ensures linebp == if |Text(s)| < |s| then Some(s[|Text(s)| + 1..]) else None
    {
      linebp := None;
      ghost var t := Text(s);
      hide Buffers, Text, CharAt, Writing, Even;
      var tl, bp, nl := StartWriting();
      lp := 0;
      while true
        modifies `iblock, `oblock, `ichanged, `disk, `mem, ibuff, obuff
        invariant Buffers() && !ichanged && Writing(tl, bp, nl)
        invariant lp <= |t| && mem == old(mem) + s[..lp]
        decreases |t| - lp
      {
        StopsAtText(s, lp);
        var c := CharAt(s, lp);
        lp := lp + 1;
        if c == NUL || c == '\n' {
          if c == '\n' { linebp := Some(s[lp..]); }
          WriteLast(tl, bp, nl);
          return;
        }
        tl, bp, nl := WriteByte(tl, bp, nl, c);
      }
    }

    /** The terminator does not open another block. */
    method WriteLast(tl: nat, bp: nat, nl: nat)
      requires Buffers() && Writing(tl, bp, nl)
      modifies `mem, obuff
      ensures Buffers() && 0 <= oblock && mem == old(mem) + [NUL]
    {
      PutByte(bp, NUL);
    }

    lemma InsideLimit()
      requires Valid()
      ensures tline <= LIMIT
    {
    }

    /** Takes the line buffer up to its newline or its end, and returns the address of that line.  What
        follows a newline is left over for the next line. */
    method PutLine(s: string) returns (addr: nat, linebp: Option<string>)
      requires Valid() && |s| < BLOCK && NUL !in s
      requires tline + Advance(|Text(s)| + 1) <= LIMIT
      modifies `iblock, `oblock, `ichanged, `disk, `mem, `store, `tline, ibuff, obuff
      ensures Valid()
      ensures addr == old(tline) && Even(addr) && addr !in old(store) && store == old(store)[addr := Text(s)]
      ensures linebp == if |Text(s)| < |s| then Some(s[|Text(s)| + 1..]) else None
      ensures tline == old(tline) + Advance(|Text(s)| + 1)
    {
      addr := tline;
      assert 2 <= addr;
      StopsAtText(s, 0);
      LinesEnd(mem, store);
      hide Buffers, Text, Lines, LineIn, CharAt, Even, Advance;
      var lp;
      lp, linebp := CopyIn(s);
      Finish(old(mem), addr, Text(s));
      AdvanceEven(addr, |Text(s)| + 1);
      tline := tline + Advance(lp);
    }

    /** Round the end of the text up, and enter the line just copied behind `before`. */
    ghost method Finish(before: seq<char>, addr: nat, t: string)
      requires Buffers() && oblock >= 0 && Even(addr) && 2 <= addr && NUL !in t && '\n' !in t && |t| < BLOCK
      requires |before| == 2 * addr && mem == before + t + [NUL] && Lines(before, store)
      modifies this`mem, this`store
      ensures Buffers() && Lines(mem, store) && store == old(store)[addr := t]
      ensures |mem| == 2 * (addr + Advance(|t| + 1))
    {
      ghost var m := mem;
      if |mem| % BLOCK != 0 { Pad(); }
      hide Buffers, Lines;
      NewLine(before, m, mem, addr, t);
      LinesStay(before, mem, store, addr, t);
      store := store[addr := t];
      PadLength(addr, |t| + 1);
    }

    /** Reading stands at byte `k`, in a buffer that shows its block. */
    ghost predicate Reading(buf: array<char>, cur: nat, off: nat, nl: nat, k: nat)
      reads `mem, buf
    {
      cur % 256 == 0 && cur / 256 * BLOCK + off == k && off < BLOCK && nl == BLOCK - off && Shows(buf, cur / 256)
    }

    /** One byte further, into the next block if this one is used up. */
    method NextByte(buf: array<char>, cur: nat, off: nat, nl: nat, ghost k: nat)
      returns (buf': array<char>, cur': nat, off': nat, nl': nat)
      requires Buffers() && !ichanged && Reading(buf, cur, off, nl, k) && 4 <= k + 1 < |mem| && |mem| <= 2 * LIMIT
      modifies `iblock, `oblock, `ichanged, `disk, ibuff
      ensures Buffers() && !ichanged && Reading(buf', cur', off', nl', k + 1)
    {
      buf', cur', off', nl' := buf, cur, off + 1, nl - 1;
      if nl' == 0 {
        cur' := cur' + 256;
        assert cur' / 256 == cur / 256 + 1;
        hide Buffers;
        buf', off', nl' := GetBlock(cur', false);
      }
    }

    /** Stand at the first byte of a line. */
    method Open(tl: nat) returns (buf: array<char>, cur: nat, off: nat, nl: nat)
      requires Buffers() && !ichanged && 4 <= 2 * Unmark(tl) < |mem| && |mem| <= 2 * LIMIT
      modifies `iblock, `oblock, `ichanged, `disk, ibuff
      ensures Buffers() && !ichanged && Reading(buf, cur, off, nl, 2 * Unmark(tl))
    {
      hide Buffers;
      buf, off, nl := GetBlock(tl, false);
      cur := tl - tl % 256;
      assert cur / 256 == tl / 256;
    }

    /** Whatever has been read and written since, a line comes back as it was stored.  The mark bit of
        the address does not matter. */
    method GetLine(tl: nat) returns (s: string)
      requires Valid() && Unmark(tl) in store
      modifies `iblock, `ichanged, `disk, `oblock, ibuff
      ensures Valid() && s == store[Unmark(tl)] && |s| < BLOCK && NUL !in s && '\n' !in s
    {
      ghost var a, t := Unmark(tl), store[Unmark(tl)];
      assert LineIn(mem, a, t);
      LineChar(mem, a, t, 0);
      hide Buffers, Lines, LineIn, Reading, Unmark, Even;
      var bp, cur, off, nl := Open(tl);
      s := ReadText(bp, cur, off, nl, a, t);
    }

    /** The copying loop of getline(). */
    method ReadText(bp0: array<char>, cur0: nat, off0: nat, nl0: nat, ghost a: nat, ghost t: string)
      returns (s: string)
      requires Buffers() && !ichanged && Reading(bp0, cur0, off0, nl0, 2 * a) && LineIn(mem, a, t)
      requires |mem| <= 2 * LIMIT
      modifies `iblock, `ichanged, `disk, `oblock, ibuff
      ensures Buffers() && !ichanged && s == t
    {
      hide Buffers, LineIn, Reading, ReadUpTo;
      var bp, cur, off, nl := bp0, cur0, off0, nl0;
      s := [];
      NoneRead(t);
      ghost var n: nat := 0;
      while true
        modifies `iblock, `ichanged, `disk, `oblock, ibuff
        invariant Buffers() && !ichanged
        invariant n <= |t| && ReadUpTo(s, t, n)
        invariant Reading(bp, cur, off, nl, 2 * a + n)
        decreases |t| - n
      {
        LineChar(mem, a, t, n);
        ByteAt(bp, cur, off, nl, 2 * a + n);
        var c := bp[off];
        OneMore(s, t, n, c);
        if c == NUL { break; }
        bp, cur, off, nl := NextByte(bp, cur, off, nl, 2 * a + n);
        s := s + [c];
        n := n + 1;
      }
    }

    lemma ByteAt(buf: array<char>, cur: nat, off: nat, nl: nat, k: nat)
      requires Reading(buf, cur, off, nl, k) && 4 <= k < |mem|
      ensures off < buf.Length && buf[off] == mem[k]
    {
    }
  }

  lemma Rounded(n: nat)
    ensures n % 4 != 0 ==> n % BLOCK != 0 && (n + 3) / 4 == (n + 4) / 4
    ensures n % 4 == 0 ==> (n + 3) / 4 * 4 == n
  {
    var q, r := n / 4, n % 4;
    Quarter(n + 3, if r == 0 then q else q + 1, if r == 0 then 3 else r - 1);
    Quarter(n + 4, q + 1, r);
    if n % BLOCK == 0 { Quarter(n, 128 * (n / BLOCK), 0); }
  }

  lemma Quarter(x: nat, q: nat, r: nat)
    requires x == 4 * q + r && r < 4
    ensures x / 4 == q && x % 4 == r
  {
  }

  lemma PadLength(addr: nat, n: nat)
    requires addr % 2 == 0
    ensures (2 * addr + n + 3) / 4 * 4 == 2 * (addr + Advance(n))
    ensures (2 * addr + n) % BLOCK == 0 ==> 2 * addr + n == 2 * (addr + Advance(n))
  {
    var h, q, r := addr / 2, (n + 3) / 4, (n + 3) % 4;
    assert addr == 2 * h && n + 3 == 4 * q + r;
    Quarter(2 * addr + n + 3, h + q, r);
    if (2 * addr + n) % BLOCK == 0 {
      var b := (2 * addr + n) / BLOCK;
      assert n == 4 * (128 * b - h);
      Quarter(n + 3, 128 * b - h, 3);
    }
  }

  lemma Cells(atl: nat)
    requires atl < LIMIT
    ensures BlockOf(atl) == atl / 256 == 4 * (atl / 2) / BLOCK
    ensures OffsetOf(atl) == 4 * (atl / 2) % BLOCK
    ensures atl / 256 * BLOCK + OffsetOf(atl) == 4 * (atl / 2)
    ensures atl % 2 == 0 ==> 4 * (atl / 2) == 2 * atl
  {
    BlockIs(atl);
    OffsetIs(atl, atl / 256, atl % 256);
    hide BlockOf, OffsetOf;
    InBlock(4 * (atl / 2), atl / 256, OffsetOf(atl));
  }

  lemma BlockIs(atl: nat)
    requires atl < LIMIT
    ensures BlockOf(atl) == atl / 256
  {
    var q := atl / 256;
    assert q < 0x8000;
  }

  lemma OffsetIs(atl: nat, q: nat, r: nat)
    requires atl == 256 * q + r && r < 256
    ensures OffsetOf(atl) == 4 * (r / 2) < BLOCK && 4 * (atl / 2) == BLOCK * q + 4 * (r / 2)
  {
    var h := r / 2;
    Halved(atl, 128 * q + h, r % 2);
    Rest128(atl / 2, q, h);
  }

  lemma Halved(x: nat, h: nat, b: nat)
    requires x == 2 * h + b && b < 2
    ensures x / 2 == h
  {
  }

  lemma Rest128(x: nat, q: nat, r: nat)
    requires x == 128 * q + r && r < 128
    ensures x % 128 == r
  {
  }

  lemma InBlock(k: nat, b: nat, j: nat)
    requires k == BLOCK * b + j && j < BLOCK
    ensures k / BLOCK == b && k % BLOCK == j
  {
  }

  /** The check for a temporary file that is too big never fires ... */
  lemma TooBigNotDetected(atl: nat)
    ensures !(BlockOf(atl) >= 65534)
  {
  }

  /** ... and two line addresses share a cell exactly when they are a multiple of LIMIT apart. */
  lemma AddressesCollide(a: nat, b: nat)
    requires a % 2 == 0 && b % 2 == 0
    ensures BlockOf(a) == BlockOf(b) && OffsetOf(a) == OffsetOf(b) <==> a % LIMIT == b % LIMIT
  {
    hide BlockOf, OffsetOf;
    CellOf(a);
    CellOf(b);
    TwoDigits(BlockOf(a), OffsetOf(a), BlockOf(b), OffsetOf(b));
  }

  lemma TwoDigits(b: nat, o: nat, b': nat, o': nat)
    requires o < BLOCK && o % 4 == 0 && o' < BLOCK && o' % 4 == 0
    ensures b * 256 + o / 2 == b' * 256 + o' / 2 <==> b == b' && o == o'
  {
  }

  lemma HalfOffset(a: nat)
    requires a % 2 == 0
    ensures OffsetOf(a) / 2 == a % 256 && OffsetOf(a) < BLOCK && OffsetOf(a) % 4 == 0
  {
  }

  lemma CellOf(a: nat)
    requires a % 2 == 0
    ensures a % LIMIT == BlockOf(a) * 256 + OffsetOf(a) / 2 && OffsetOf(a) < BLOCK && OffsetOf(a) % 4 == 0
  {
    var q, r := a / 256, a % 256;
    var b := q % 0x8000;
    assert q == q / 0x8000 * 0x8000 + b && a == q * 256 + r;
    assert a == q / 0x8000 * LIMIT + (b * 256 + r) && b * 256 + r < LIMIT;
    HalfOffset(a);
  }
}
