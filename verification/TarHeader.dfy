/**
 The header block of bin/tar.c: numbers in octal, names ended by NUL, and a checksum over the block with
 the checksum's own field blank.
 */
module TarHeader {
  import opened TarBlocks

  const NAMSIZ := 100
  const NUL := '\0'

  datatype Header = Header(name: string, mode: nat, uid: nat, gid: nat, size: nat, mtime: nat, link: char,
                           linkname: string)

  function Pow8(k: nat): nat { if k == 0 then 1 else 8 * Pow8(k - 1) }

  function Digit(d: nat): char
    requires d < 8
  {
    ('0' as int + d) as char
  }

  predicate IsOctal(c: char) { '0' <= c <= '7' }

  /** The octal digits of v, as %o prints them. */
  function Digits(v: nat): (s: string)
    ensures |s| >= 1 && forall i :: 0 <= i < |s| ==> IsOctal(s[i])
  {
    if v < 8 then [Digit(v)] else Digits(v / 8) + [Digit(v % 8)]
  }

  function Blanks(k: nat): string { seq(k, _ => ' ') }

  /** %6o and %11lo */
  function Octal(v: nat, w: nat): string {
    var d := Digits(v);
    if |d| < w then Blanks(w - |d|) + d else d
  }

  lemma {:induction false} DigitsFit(v: nat, w: nat)
    requires w >= 1 && v < Pow8(w)
    ensures |Digits(v)| <= w
  {
    if v >= 8 {
      assert Pow8(1) == 8 * Pow8(0) == 8;
      DigitsFit(v / 8, w - 1);
    }
  }

  /** What %o of sscanf reads: blanks are skipped, and digits read as far as there are any. */
  function ReadOctal(s: string): nat { if s != [] && s[0] == ' ' then ReadOctal(s[1..]) else Value(s, 0) }

  function Value(s: string, acc: nat): nat {
    if s == [] || !IsOctal(s[0]) then acc else Value(s[1..], acc * 8 + (s[0] as int - '0' as int))
  }

  lemma {:induction false} DigitsRead(v: nat, rest: string)
    ensures Value(Digits(v) + rest, 0) == Value(rest, v)
  {
    if v < 8 {
      assert (Digits(v) + rest)[1..] == rest;
    } else {
      var d := [Digit(v % 8)];
      assert Digits(v) + rest == Digits(v / 8) + (d + rest);
      DigitsRead(v / 8, d + rest);
      assert (d + rest)[1..] == rest;
    }
  }

  lemma {:induction false} BlanksRead(k: nat, s: string)
    ensures ReadOctal(Blanks(k) + s) == ReadOctal(s)
  {
    if k == 0 {
      assert Blanks(0) + s == s;
    } else {
      assert (Blanks(k) + s)[1..] == Blanks(k - 1) + s;
      BlanksRead(k - 1, s);
    }
  }

  /** A number is read back if something else than a digit follows it. */
  lemma OctalRead(v: nat, w: nat, rest: string)
    requires rest != [] && !IsOctal(rest[0])
    ensures ReadOctal(Octal(v, w) + rest) == v
  {
    var d := Digits(v);
    DigitsRead(v, rest);
    NoBlank(d + rest);
    ValueEnds(rest, v);
    hide Digits, Value, ReadOctal, Blanks;
    if |d| < w {
      BlanksRead(w - |d|, d + rest);
      assert Octal(v, w) + rest == Blanks(w - |d|) + (d + rest);
    }
  }

  lemma NoBlank(s: string)
    requires s == [] || s[0] != ' '
    ensures ReadOctal(s) == Value(s, 0)
  {
  }

  lemma ValueEnds(s: string, acc: nat)
    requires s == [] || !IsOctal(s[0])
    ensures Value(s, acc) == acc
  {
  }

  lemma OctalWidth(v: nat, w: nat)
    requires w >= 1 && v < Pow8(w)
    ensures |Octal(v, w)| == w
  {
    DigitsFit(v, w);
  }

  /** A name in a field of NAMSIZ bytes. */
  function Field(s: string): (r: string)
    requires |s| < NAMSIZ
    ensures |r| == NAMSIZ
  {
    s + seq(NAMSIZ - |s|, _ => NUL)
  }

  /** The C string at the start of s. */
  function CString(s: string): string { if s == [] || s[0] == NUL then [] else [s[0]] + CString(s[1..]) }

  lemma {:induction false} FieldRead(s: string, rest: string)
    requires NUL !in s && rest != [] && rest[0] == NUL
    ensures CString(s + rest) == s
  {
    if s == [] {
      assert s + rest == rest;
    } else {
      assert s[0] in s && forall c :: c in s[1..] ==> c in s;
      assert (s + rest)[1..] == s[1..] + rest;
      FieldRead(s[1..], rest);
    }
  }

  predicate Bytes(s: string) { forall i :: 0 <= i < |s| ==> s[i] as int < 256 }

  /** Everything that can be told in a header. */
  ghost predicate Fits(h: Header) {
    && 1 <= |h.name| < NAMSIZ && NUL !in h.name && |h.linkname| < NAMSIZ && NUL !in h.linkname
    && Bytes(h.name) && Bytes(h.linkname) && Bytes([h.link])
    && h.mode < Pow8(6) && h.uid < Pow8(6) && h.gid < Pow8(6) && h.size < Pow8(11) && h.mtime < Pow8(11)
  }

  function Join(ps: seq<string>): string { if ps == [] then "" else ps[0] + Join(ps[1..]) }

  lemma {:induction false} JoinSplit(ps: seq<string>, k: nat)
    requires k <= |ps|
    ensures Join(ps) == Join(ps[..k]) + Join(ps[k..])
  {
    if k == 0 {
      assert ps[..0] == [] && ps[0..] == ps;
    } else {
      JoinSplit(ps[1..], k - 1);
      assert ps[..k][1..] == ps[1..][..k - 1] && ps[1..][k - 1..] == ps[k..];
    }
  }

  /** Where part k begins. */
  function Offset(ps: seq<string>, k: nat): nat
    requires k <= |ps|
  {
    if k == 0 then 0 else Offset(ps, k - 1) + |ps[k - 1]|
  }

  lemma {:induction false} OffsetIs(ps: seq<string>, k: nat)
    requires k <= |ps|
    ensures |Join(ps[..k])| == Offset(ps, k)
  {
    if k > 0 {
      OffsetIs(ps, k - 1);
      assert ps[..k][..k - 1] == ps[..k - 1] && ps[..k][k - 1..] == [ps[k - 1]] && [ps[k - 1]][1..] == [];
      JoinSplit(ps[..k], k - 1);
    }
  }

  lemma PartAt(ps: seq<string>, k: nat)
    requires k < |ps|
    ensures Offset(ps, k) + |ps[k]| <= |Join(ps)|
    ensures Join(ps)[Offset(ps, k)..] == ps[k] + Join(ps[k + 1..])
  {
    JoinSplit(ps, k);
    OffsetIs(ps, k);
    assert ps[k..][1..] == ps[k + 1..];
    assert Join(ps[k..]) == ps[k] + Join(ps[k + 1..]);
  }

  /** tomodes(), the size once more for a symbolic link, and the rest; `chk` is the checksum's field. */
  function Parts(h: Header, chk: string): (ps: seq<string>)
    requires |h.name| < NAMSIZ && |h.linkname| < NAMSIZ
    ensures |ps| == 10
  {
    [Field(h.name), Octal(h.mode, 6) + [' ', NUL], Octal(h.uid, 6) + [' ', NUL], Octal(h.gid, 6) + [' ', NUL],
     Octal(h.size, 11) + [if h.link == '2' then NUL else ' '], Octal(h.mtime, 11) + [' '], chk,
     [h.link], Field(h.linkname), seq(255, _ => NUL)]
  }

  ghost predicate Widths(ps: seq<string>) {
    && |ps| == 10 && |ps[0]| == 100 && |ps[1]| == 8 && |ps[2]| == 8 && |ps[3]| == 8 && |ps[4]| == 12
    && |ps[5]| == 12 && |ps[6]| == 8 && |ps[7]| == 1 && |ps[8]| == 100 && |ps[9]| == 255
  }

  lemma Offsets(ps: seq<string>)
    requires Widths(ps)
    ensures Offset(ps, 0) == 0 && Offset(ps, 1) == 100 && Offset(ps, 2) == 108 && Offset(ps, 3) == 116
    ensures Offset(ps, 4) == 124 && Offset(ps, 5) == 136 && Offset(ps, 6) == 148 && Offset(ps, 7) == 156
    ensures Offset(ps, 8) == 157 && |Join(ps)| == TBLOCK
  {
    assert Offset(ps, 1) == 100 && Offset(ps, 2) == 108 && Offset(ps, 3) == 116 && Offset(ps, 4) == 124;
    assert Offset(ps, 5) == 136 && Offset(ps, 6) == 148 && Offset(ps, 7) == 156 && Offset(ps, 8) == 157;
    assert Offset(ps, 9) == 257 && Offset(ps, 10) == TBLOCK;
    OffsetIs(ps, 10);
    assert ps[..10] == ps;
  }

  lemma PartsFit(h: Header, chk: string)
    requires Fits(h) && |chk| == 8
    ensures Widths(Parts(h, chk))
  {
    hide Octal, Bytes, Pow8;
    OctalWidth(h.mode, 6);
    OctalWidth(h.uid, 6);
    OctalWidth(h.gid, 6);
    OctalWidth(h.size, 11);
    OctalWidth(h.mtime, 11);
  }

  function Sum(s: string): nat { if s == [] then 0 else s[0] as int + Sum(s[1..]) }

  lemma {:induction false} SumBound(s: string)
    requires Bytes(s)
    ensures Sum(s) <= 255 * |s|
  {
    if s != [] { SumBound(s[1..]); }
  }

  lemma {:induction false} JoinBytes(ps: seq<string>)
    requires forall i :: 0 <= i < |ps| ==> Bytes(ps[i])
    ensures Bytes(Join(ps))
  {
    if ps != [] { JoinBytes(ps[1..]); }
  }

  lemma OctalBytes(v: nat, w: nat)
    ensures Bytes(Octal(v, w)) && Bytes(Octal(v, w) + [' '])
    ensures Bytes(Octal(v, w) + [NUL]) && Bytes(Octal(v, w) + [' ', NUL])
  {
  }

  lemma PartsBytes(h: Header)
    requires Fits(h)
    ensures Bytes(Join(Parts(h, Blanks(8))))
  {
    hide Octal, Join;
    OctalBytes(h.mode, 6);
    OctalBytes(h.uid, 6);
    OctalBytes(h.gid, 6);
    OctalBytes(h.size, 11);
    OctalBytes(h.mtime, 11);
    JoinBytes(Parts(h, Blanks(8)));
  }

  /** What checksum() counts over the block before the checksum is entered. */
  function Check(h: Header): (n: nat)
    requires Fits(h)
    ensures n < Pow8(6)
  {
    PartsFit(h, Blanks(8));
    Offsets(Parts(h, Blanks(8)));
    PartsBytes(h);
    SumBound(Join(Parts(h, Blanks(8))));
    assert Pow8(6) == 262144;
    Sum(Join(Parts(h, Blanks(8))))
  }

  /** The header block: "%6o" leaves the last blank of the checksum's field. */
  function Encode(h: Header): Block
    requires Fits(h)
  {
    OctalWidth(Check(h), 6);
    var chk := Octal(Check(h), 6) + [NUL, ' '];
    PartsFit(h, chk);
    Offsets(Parts(h, chk));
    Join(Parts(h, chk))
  }

  /** getdir() */
  function Decode(b: Block): Header {
    Header(CString(b), ReadOctal(b[100..]), ReadOctal(b[108..]), ReadOctal(b[116..]), ReadOctal(b[124..]),
           ReadOctal(b[136..]), b[156], CString(b[157..]))
  }

  predicate ChecksumOk(b: Block) { ReadOctal(b[148..]) == Sum(b[..148] + Blanks(8) + b[156..]) }

  lemma OctalPart(v: nat, w: nat, end: string, rest: string)
    requires end != [] && !IsOctal(end[0])
    ensures ReadOctal(Octal(v, w) + end + rest) == v
  {
    hide Octal, ReadOctal;
    OctalRead(v, w, end + rest);
    assert Octal(v, w) + end + rest == Octal(v, w) + (end + rest);
  }

  lemma FieldPart(s: string, rest: string)
    requires NUL !in s && |s| < NAMSIZ
    ensures CString(Field(s) + rest) == s
  {
    hide CString;
    var fill := seq(NAMSIZ - |s|, _ => NUL);
    FieldRead(s, fill + rest);
    assert Field(s) + rest == s + (fill + rest);
  }

  /** The reader finds in a header what the writer put there, and its checksum is right. */
  lemma HeaderRoundTrip(h: Header)
    requires Fits(h)
    ensures Decode(Encode(h)) == h && ChecksumOk(Encode(h))
  {
    OctalWidth(Check(h), 6);
    var chk := Octal(Check(h), 6) + [NUL, ' '];
    PartsFit(h, chk);
    PartsRead(h, chk);
    ChecksumRead(h, chk);
  }

  lemma PartsRead(h: Header, chk: string)
    requires Fits(h) && Widths(Parts(h, chk))
    ensures |Join(Parts(h, chk))| == TBLOCK && Decode(Join(Parts(h, chk))) == h
  {
    var ps := Parts(h, chk);
    Offsets(ps);
    NumbersRead(h, chk);
    hide Octal, ReadOctal, Join, CString, Field;
    var b := Join(ps);
    PartAt(ps, 0);
    FieldPart(h.name, Join(ps[1..]));
    assert b[0..] == b;
    PartAt(ps, 7);
    assert b[156..][0] == h.link;
    PartAt(ps, 8);
    FieldPart(h.linkname, Join(ps[9..]));
  }

  lemma NumbersRead(h: Header, chk: string)
    requires Fits(h) && Widths(Parts(h, chk)) && |Join(Parts(h, chk))| == TBLOCK
    ensures var b := Join(Parts(h, chk));
      && ReadOctal(b[100..]) == h.mode && ReadOctal(b[108..]) == h.uid && ReadOctal(b[116..]) == h.gid
      && ReadOctal(b[124..]) == h.size && ReadOctal(b[136..]) == h.mtime
  {
    var ps := Parts(h, chk);
    Offsets(ps);
    hide Octal, ReadOctal, Join;
    PartAt(ps, 1);
    OctalPart(h.mode, 6, [' ', NUL], Join(ps[2..]));
    PartAt(ps, 2);
    OctalPart(h.uid, 6, [' ', NUL], Join(ps[3..]));
    PartAt(ps, 3);
    OctalPart(h.gid, 6, [' ', NUL], Join(ps[4..]));
    PartAt(ps, 4);
    OctalPart(h.size, 11, [if h.link == '2' then NUL else ' '], Join(ps[5..]));
    PartAt(ps, 5);
    OctalPart(h.mtime, 11, [' '], Join(ps[6..]));
  }

  lemma ChecksumRead(h: Header, chk: string)
    requires Fits(h) && Widths(Parts(h, chk)) && chk == Octal(Check(h), 6) + [NUL, ' ']
    ensures |Join(Parts(h, chk))| == TBLOCK && ChecksumOk(Join(Parts(h, chk)))
  {
    var ps, ps' := Parts(h, chk), Parts(h, Blanks(8));
    PartsFit(h, Blanks(8));
    Offsets(ps);
    Offsets(ps');
    hide Octal, ReadOctal, Join, Sum;
    PartAt(ps, 6);
    OctalPart(Check(h), 6, [NUL, ' '], Join(ps[7..]));
    var b := Join(ps);
    JoinSplit(ps, 6);
    JoinSplit(ps', 6);
    OffsetIs(ps, 6);
    OffsetIs(ps', 6);
    assert ps[..6] == ps'[..6] && ps[7..] == ps'[7..];
    PartAt(ps, 7);
    PartAt(ps', 6);
    JoinSplit(ps, 7);
    OffsetIs(ps, 7);
    assert b[156..] == Join(ps[7..]) && b[..148] == Join(ps[..6]);
    assert Join(ps') == b[..148] + Blanks(8) + b[156..];
  }

  // ----- the layout of the block, and what the checksum is worth -----

  /** Where the fields stand, and how they end. */
  lemma HeaderLayout(h: Header)
    requires Fits(h)
    ensures var b := Encode(h);
      && CString(b) == h.name && b[100..108] == Octal(h.mode, 6) + " \0" && b[108..116] == Octal(h.uid, 6) + " \0"
      && b[116..124] == Octal(h.gid, 6) + " \0" && b[124..135] == Octal(h.size, 11)
      && b[136..148] == Octal(h.mtime, 11) + " " && b[154] == NUL && b[155] == ' ' && b[156] == h.link
      && CString(b[157..]) == h.linkname && forall i :: 257 <= i < TBLOCK ==> b[i] == NUL
  {
    HeaderRoundTrip(h);
    OctalWidth(Check(h), 6);
    OctalWidth(h.size, 11);
    var chk, b := Octal(Check(h), 6) + [NUL, ' '], Encode(h);
    ChecksumField(h, chk);
    FieldsAt(h, chk);
    hide Octal, ReadOctal, Join, CString, Field, Check, ChecksumOk, Fits, Encode;
    assert b[124..135] == b[124..136][..11];
    assert b[154] == b[148..156][6] && b[155] == b[148..156][7];
    forall i | 257 <= i < TBLOCK ensures b[i] == NUL { assert b[i] == b[257..512][i - 257]; }
  }

  lemma FieldsAt(h: Header, chk: string)
    requires Fits(h) && chk == Octal(Check(h), 6) + [NUL, ' ']
    ensures var b := Encode(h);
      && b[100..108] == Octal(h.mode, 6) + [' ', NUL] && b[108..116] == Octal(h.uid, 6) + [' ', NUL]
      && b[116..124] == Octal(h.gid, 6) + [' ', NUL] && b[136..148] == Octal(h.mtime, 11) + [' ']
      && b[124..136] == Octal(h.size, 11) + [if h.link == '2' then NUL else ' ']
      && b[257..512] == seq(255, _ => NUL)
  {
    OctalWidth(Check(h), 6);
    PartsFit(h, chk);
    var ps := Parts(h, chk);
    Offsets(ps);
    hide Octal, Join, Field, Check, Fits;
    FieldAt(ps, 1);
    FieldAt(ps, 2);
    FieldAt(ps, 3);
    FieldAt(ps, 4);
    FieldAt(ps, 5);
    FieldAt(ps, 9);
    assert Offset(ps, 9) == 257;
  }

  lemma FieldAt(ps: seq<string>, k: nat)
    requires k < |ps|
    ensures Offset(ps, k) + |ps[k]| <= |Join(ps)| && Join(ps)[Offset(ps, k)..Offset(ps, k) + |ps[k]|] == ps[k]
  {
    PartAt(ps, k);
    FrontPart(Join(ps), Offset(ps, k), ps[k], Join(ps[k + 1..]));
  }

  lemma FrontPart(b: string, o: nat, part: string, rest: string)
    requires o + |part| <= |b| && b[o..] == part + rest
    ensures b[o..o + |part|] == part
  {
    assert b[o..o + |part|] == b[o..][..|part|];
  }

  /** The checksum adds up the bytes, in any order. */
  lemma {:induction false} SumJoined(s: string, t: string)
    ensures Sum(s + t) == Sum(s) + Sum(t)
  {
    if s == [] {
      assert s + t == t;
    } else {
      assert (s + t)[1..] == s[1..] + t;
      SumJoined(s[1..], t);
    }
  }

  lemma SumAt(s: string, i: nat)
    requires i < |s|
    ensures Sum(s) == Sum(s[..i]) + s[i] as int + Sum(s[i + 1..])
  {
    assert s == s[..i] + ([s[i]] + s[i + 1..]);
    SumJoined(s[..i], [s[i]] + s[i + 1..]);
    assert ([s[i]] + s[i + 1..])[1..] == s[i + 1..];
  }

  lemma SumChanged(s: string, i: nat, c: char)
    requires i < |s|
    ensures Sum(s[i := c]) == Sum(s) - s[i] as int + c as int
  {
    var t := s[i := c];
    assert t[..i] == s[..i] && t[i + 1..] == s[i + 1..];
    SumAt(s, i);
    SumAt(t, i);
  }

  /** A header of which one byte outside the checksum's field has changed is rejected. */
  lemma ChangeDetected(h: Header, i: nat, c: char)
    requires Fits(h) && i < TBLOCK && !(148 <= i < 156) && c != Encode(h)[i]
    ensures !ChecksumOk(Encode(h)[i := c])
  {
    HeaderRoundTrip(h);
    var chk, b := Octal(Check(h), 6) + [NUL, ' '], Encode(h);
    ChecksumField(h, chk);
    ReadField(b, Check(h), chk);
    hide Encode, Octal, Fits, Check, ReadOctal, Sum;
    var b' := b[i := c];
    assert b'[148..156] == b[148..156];
    ReadField(b', Check(h), chk);
    OneChanged(b, i, c);
  }

  /** The sum over a block with the checksum's field blank. */
  lemma OneChanged(b: Block, i: nat, c: char)
    requires i < TBLOCK && !(148 <= i < 156)
    ensures var b' := b[i := c];
      Sum(b'[..148] + Blanks(8) + b'[156..]) == Sum(b[..148] + Blanks(8) + b[156..]) - b[i] as int + c as int
  {
    hide Sum;
    var b', k := b[i := c], Blanks(8);
    var s, s' := b[..148] + k + b[156..], b'[..148] + k + b'[156..];
    assert |k| == 8;
    hide Blanks;
    assert s[i] == b[i] && s' == s[i := c];
    SumChanged(s, i, c);
  }

  lemma ChecksumField(h: Header, chk: string)
    requires Fits(h) && chk == Octal(Check(h), 6) + [NUL, ' ']
    ensures |chk| == 8 && Encode(h)[148..156] == chk
  {
    OctalWidth(Check(h), 6);
    PartsFit(h, chk);
    Offsets(Parts(h, chk));
    hide Octal, Join, Check, Fits;
    FieldAt(Parts(h, chk), 6);
  }

  /** The number in the checksum's field ends inside it. */
  lemma ReadField(b: Block, v: nat, chk: string)
    requires chk == Octal(v, 6) + [NUL, ' '] && |chk| == 8 && b[148..156] == chk
    ensures ReadOctal(b[148..]) == v
  {
    hide Octal, ReadOctal;
    OctalPart(v, 6, [NUL, ' '], b[156..]);
    assert b[148..] == b[148..156] + b[156..];
  }
}
