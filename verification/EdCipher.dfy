/**
 The rotor machine of bin/ed.c (under CRYPT): crinit() builds three tables from random numbers, and
 crblock() turns every byte by them and by its place in the file.
 */
module EdCipher {

  const N := 256

  type Table = t: seq<nat> | |t| == N witness seq(N, _ => 0)

  ghost predicate Bytes(t: Table) {
    forall i :: 0 <= i < N ==> t[i] < N
  }

  /** t2 undoes t1. */
  ghost predicate Inverse(t1: Table, t2: Table) {
    Bytes(t1) && Bytes(t2)
    && (forall i :: 0 <= i < N ==> t2[t1[i]] == i) && (forall v :: 0 <= v < N ==> t1[t2[v]] == v)
  }

  /** t3 exchanges pairs of different bytes. */
  ghost predicate Reflector(t3: Table) {
    Bytes(t3) && forall i :: 0 <= i < N ==> t3[t3[i]] == i && t3[i] != i
  }

  ghost predicate Machine(t1: Table, t2: Table, t3: Table) {
    Inverse(t1, t2) && Reflector(t3)
  }

  /** How many of the first k slots have no partner yet. */
  function Unpaired(t3: seq<nat>, k: nat): (n: nat)
    requires k <= |t3|
    ensures n <= k
  {
    if k == 0 then 0 else Unpaired(t3, k - 1) + if t3[k - 1] == 0 then 1 else 0
  }

  lemma {:induction false} UnpairedSome(t3: seq<nat>, k: nat) returns (j: nat)
    requires k <= |t3| && Unpaired(t3, k) > 0
    ensures j < k && t3[j] == 0
  {
    if t3[k - 1] == 0 { j := k - 1; } else { j := UnpairedSome(t3, k - 1); }
  }

  lemma {:induction false} UnpairedSet(t3: seq<nat>, k: nat, j: nat, v: nat)
    requires k <= |t3| && j < |t3| && t3[j] == 0 && v != 0
    ensures Unpaired(t3[j := v], k) == Unpaired(t3, k) - if j < k then 1 else 0
  {
    if k > 0 { UnpairedSet(t3, k - 1, j, v); }
  }

  lemma {:induction false} UnpairedSame(t3: seq<nat>, t3': seq<nat>, k: nat)
    requires k <= |t3| == |t3'| && forall j :: 0 <= j < k ==> t3[j] == t3'[j]
    ensures Unpaired(t3, k) == Unpaired(t3', k)
  {
    if k > 0 { UnpairedSame(t3, t3', k - 1); }
  }

  lemma {:induction false} AllUnpaired(t3: seq<nat>, k: nat)
    requires k <= |t3| && forall j :: 0 <= j < k ==> t3[j] == 0
    ensures Unpaired(t3, k) == k
  {
    if k > 0 { AllUnpaired(t3, k - 1); }
  }

  ghost predicate PairedAt(t3: seq<nat>, j: nat)
    requires j < |t3|
  {
    t3[j] < |t3| && t3[j] != j && t3[t3[j]] == j
  }

  /** The slots from k on are paired; those below may be paired only with a slot from k on.  An even
      number of them is free. */
  ghost predicate Pairing(t3: seq<nat>, k: nat) {
    && |t3| == N && k <= N
    && (forall j {:trigger t3[j]} :: k <= j < N ==> PairedAt(t3, j))
    && (forall j {:trigger t3[j]} :: 0 <= j < k && t3[j] != 0 ==> k <= t3[j] && PairedAt(t3, j))
    && Unpaired(t3, k) % 2 == 0
  }

  /** A slot that a higher one has taken needs no partner. */
  lemma PairingSkip(t3: seq<nat>, k: nat)
    requires Pairing(t3, k + 1) && t3[k] != 0
    ensures Pairing(t3, k)
  {
    assert Unpaired(t3, k + 1) == Unpaired(t3, k);
    hide Unpaired;
    forall j | k <= j < N ensures PairedAt(t3, j) {
      if j > k {
        var paired := t3[j];
      } else {
        assert PairedAt(t3, k);
      }
    }
  }

  /** A free slot finds another free one below it: there is none only if their number were odd. */
  lemma PartnerExists(t3: seq<nat>, k: nat) returns (j: nat)
    requires Pairing(t3, k + 1) && t3[k] == 0
    ensures j < k && t3[j] == 0
  {
    assert Unpaired(t3, k + 1) == Unpaired(t3, k) + 1;
    j := UnpairedSome(t3, k);
  }

  lemma PairingJoin(t3: seq<nat>, k: nat, ic: nat)
    requires Pairing(t3, k + 1) && t3[k] == 0 && ic < k && t3[ic] == 0
    ensures Pairing(t3[k := ic][ic := k], k)
  {
    var t := t3[k := ic][ic := k];
    UnpairedSet(t3, k, ic, k);
    UnpairedSame(t3[ic := k], t, k);
    assert Unpaired(t3, k + 1) == Unpaired(t3, k) + 1;
    hide Unpaired;
    forall j | k <= j < N ensures PairedAt(t, j) {
      if j > k { assert t[j] == t3[j] && PairedAt(t3, j); }
    }
    forall j | 0 <= j < k && t[j] != 0 ensures k <= t[j] && PairedAt(t, j) {
      if j != ic { assert t[j] == t3[j] && PairedAt(t3, j); }
    }
  }

  lemma Wrap(ic: nat, k: nat)
    requires ic < k
    ensures (ic + 1) % k == if ic + 1 == k then 0 else ic + 1
  {
  }

  lemma Start(t1: seq<nat>, inv: seq<nat>, t3: seq<nat>)
    requires |t1| == |inv| == |t3| == N && forall i :: 0 <= i < N ==> t1[i] == inv[i] == i && t3[i] == 0
    ensures Inverse(t1, inv) && Pairing(t3, N)
  {
    AllUnpaired(t3, N);
  }

  lemma Paired(t3: seq<nat>)
    requires Pairing(t3, 0)
    ensures |t3| == N && Reflector(t3)
  {
    forall i | 0 <= i < N ensures t3[i] < N && t3[t3[i]] == i && t3[i] != i {
      assert PairedAt(t3, i);
    }
  }

  /** Exchanging two entries of a permutation exchanges two entries of its inverse. */
  lemma Exchanged(t: Table, inv: Table, i: nat, j: nat)
    requires Inverse(t, inv) && i < N && j < N
    ensures var t', inv' := t[i := t[j]][j := t[i]], inv[t[i] := j][t[j] := i];
      Inverse(t', inv')
  {
    var t', inv' := t[i := t[j]][j := t[i]], inv[t[i] := j][t[j] := i];
    forall v | 0 <= v < N ensures inv'[v] < N && t'[inv'[v]] == v {
      assert t[inv[v]] == v;
    }
    forall x | 0 <= x < N ensures t'[x] < N && inv'[t'[x]] == x {
      assert inv[t[x]] == x && inv[t[i]] == i && inv[t[j]] == j;
    }
  }

  // ----- the tables that a key gives -----

  /** A C long of 32 bits. */
  function Long(x: int): (r: int)
    ensures -0x8000_0000 <= r < 0x8000_0000 && (r - x) % 0x1_0000_0000 == 0
  {
    (x + 0x8000_0000) % 0x1_0000_0000 - 0x8000_0000
  }

  /** The seed after the first n bytes of the key. */
  function FirstSeed(key: seq<int>, n: nat): int
    requires n <= |key|
    decreases n
  {
    if n == 0 then 123 else Long(FirstSeed(key, n - 1) * key[n - 1] + (n - 1))
  }

  /** The seed after i rounds. */
  function Seed(key: seq<int>, i: nat): int
    requires |key| == KEY
    decreases i
  {
    if i == 0 then FirstSeed(key, KEY) else Long(5 * Seed(key, i - 1) + key[(i - 1) % KEY])
  }

  const KEY := 13

  const MODULUS := 65521

  /** seed % 65521 in C: the remainder has the sign of the seed. */
  function Rest(seed: int): (m: int)
    ensures -MODULUS < m < MODULUS && (seed - m) % MODULUS == 0 && (m == 0 || (m < 0 <==> seed < 0))
  {
    if seed >= 0 then
      NoRest(seed / MODULUS);
      seed % MODULUS
    else
      NoRest(-(-seed / MODULUS));
      -(-seed % MODULUS)
  }

  lemma NoRest(q: int)
    ensures MODULUS * q % MODULUS == 0
  {
  }

  /** The same number in an unsigned variable. */
  function Unsigned(m: int): (r: nat)
    requires -0x8000_0000 <= m < 0x8000_0000
    ensures r < 0x1_0000_0000 && (r == m || r == m + 0x1_0000_0000)
  {
    if m < 0 then m + 0x1_0000_0000 else m
  }

  /** What round i draws. */
  function Random(key: seq<int>, i: nat): nat
    requires |key| == KEY
  {
    Unsigned(Rest(Seed(key, i + 1)))
  }

  /** A round for the first table: slot k is exchanged with one that is drawn from those up to it. */
  function Exchange(t: Table, k: nat, random: nat): Table
    requires k < N
  {
    var ic := random % N % (k + 1);
    t[k := t[ic]][ic := t[k]]
  }

  /** The first slot without a partner from ic on, around the first k. */
  function NextFree(t: seq<nat>, ic: nat, k: nat, tries: nat): (r: nat)
    requires ic < k <= |t|
    ensures r < k
    decreases tries
  {
    if tries == 0 || t[ic] == 0 then ic else NextFree(t, (ic + 1) % k, k, tries - 1)
  }

  /** A round for the third table: slot k gets a partner below it, unless it has one. */
  function Couple(t: Table, k: nat, random: nat): Table
    requires k < N
  {
    if t[k] != 0 || k == 0 then t
    else
      var ic := NextFree(t, random / 256 % N % k, k, k);
      t[k := ic][ic := k]
  }

  /** The first table after i rounds. */
  function T1(key: seq<int>, i: nat): Table
    requires |key| == KEY && i <= N
    decreases i
  {
    if i == 0 then seq(N, j requires 0 <= j < N => j) else Exchange(T1(key, i - 1), N - i, Random(key, i - 1))
  }

  /** The third table after i rounds. */
  function T3(key: seq<int>, i: nat): Table
    requires |key| == KEY && i <= N
    decreases i
  {
    if i == 0 then seq(N, j requires 0 <= j < N => 0) else Couple(T3(key, i - 1), N - i, Random(key, i - 1))
  }

  /** What a round settles stays: slot k of the first table is what round N - 1 - k has drawn. */
  lemma {:induction false} Settled(key: seq<int>, k: nat, i: nat)
    requires |key| == KEY && k < N && N - k <= i <= N
    ensures T1(key, i)[k] == T1(key, N - 1 - k)[Random(key, N - 1 - k) % N % (k + 1)]
    decreases i
  {
    hide Random;
    if i > N - k { Settled(key, k, i - 1); }
  }

  method SwapEntries(t1: array<nat>, k: nat, ic: nat, ghost inv: Table) returns (ghost inv': Table)
    requires t1.Length == N && k < N && ic < N && Inverse(t1[..], inv)
    modifies t1
    ensures t1[..] == old(t1[..])[k := old(t1[ic])][ic := old(t1[k])]
    ensures Inverse(t1[..], inv')
  {
    Exchanged(t1[..], inv, k, ic);
    inv' := inv[t1[k] := ic][t1[ic] := k];
    ghost var t: seq<nat> := t1[..];
    var temp := t1[k];
    t1[k] := t1[ic];
    t1[ic] := temp;
    assert t1[..] == t[k := t[ic]][ic := t[k]];
  }

  /** The last loop of crinit(). */
  method Invert(t1: array<nat>, t2: array<nat>, ghost inv: Table)
    requires t1.Length == t2.Length == N && t1 != t2 && Inverse(t1[..], inv)
    modifies t2
    ensures Inverse(t1[..], t2[..])
  {
    for i := 0 to N
      invariant forall j :: 0 <= j < i ==> t2[t1[j]] == j
    {
      assert t1[..][i] < N;
      forall j | 0 <= j < i ensures t1[j] != t1[i] {
        assert inv[t1[..][j]] == j && inv[t1[..][i]] == i;
      }
      t2[t1[i]] := i;
    }
    forall v | 0 <= v < N ensures t2[v] == inv[v] {
      assert t1[..][inv[v]] == v && inv[v] < N;
      assert t2[t1[inv[v]]] == inv[v];
    }
    assert t2[..] == inv;
  }

  /** The probing loop: it ends at the first free slot. */
  method Probe(t3: array<nat>, start: nat, k: nat, ghost free: nat) returns (ic: nat)
    requires t3.Length == N && free < k <= N && t3[free] == 0 && start < k
    ensures ic < k && t3[ic] == 0 && ic == NextFree(t3[..], start, k, k)
  {
    ic := start;
    ghost var tries: nat := k;
    while t3[ic] != 0
      invariant ic < k && NextFree(t3[..], start, k, k) == NextFree(t3[..], ic, k, tries)
      invariant tries > if ic <= free then free - ic else free - ic + k
      decreases if ic <= free then free - ic else free - ic + k
    {
      Wrap(ic, k);
      assert t3[..][ic] == t3[ic];
      tries := tries - 1;
      ic := (ic + 1) % k;
    }
    assert t3[..][ic] == t3[ic];
  }

  /** The loop that makes the first seed. */
  method StartSeed(buf: seq<int>) returns (seed: int)
    requires |buf| == KEY
    ensures seed == Seed(buf, 0)
  {
    hide Long;
    seed := 123;
    for i := 0 to KEY
      invariant seed == FirstSeed(buf, i)
    {
      seed := Long(seed * buf[i] + i);
    }
  }

  /** The part of a round that is about the third table. */
  method CoupleSlot(t3: array<nat>, k: nat, random: nat)
    requires t3.Length == N && k < N && Pairing(t3[..], k + 1)
    modifies t3
    ensures Pairing(t3[..], k) && t3[..] == Couple(old(t3[..]), k, random)
  {
    hide Pairing, Unpaired, NextFree;
    if t3[k] != 0 {
      PairingSkip(t3[..], k);
    } else {
      ghost var free := PartnerExists(t3[..], k);
      var ic := Probe(t3, random / 256 % N % k, k, free);
      PairingJoin(t3[..], k, ic);
      ghost var t: seq<nat> := t3[..];
      t3[k] := ic;
      t3[ic] := k;
      assert t3[..] == t[k := ic][ic := k];
    }
  }

  /** crinit(), behind makekey, which has turned the key into `buf`: the tables are those that the key gives, and
      they are a permutation, its inverse, and an exchange of pairs. */
  method CrInit(buf: seq<int>, t1: array<nat>, t2: array<nat>, t3: array<nat>)
    requires t1.Length == t2.Length == t3.Length == N && t1 != t2 && t1 != t3 && t2 != t3 && |buf| == KEY
    modifies t1, t2, t3
    ensures t1[..] == T1(buf, N) && t3[..] == T3(buf, N)
    ensures Machine(t1[..], t2[..], t3[..])
  {
    hide Inverse, Reflector, Unpaired, Pairing, Long, Seed, Unsigned, Couple, T1, T3;
    var seed := StartSeed(buf);
    for i := 0 to N
      invariant forall j :: 0 <= j < i ==> t1[j] == j && t3[j] == 0
    {
      t1[i] := i;
      t3[i] := 0;
    }
    ghost var inv: Table := seq(N, i => i);
    Start(t1[..], inv, t3[..]);
    FirstTables(buf, t1[..], t3[..]);
    for i := 0 to N
      modifies t1, t3
      invariant Inverse(t1[..], inv) && Pairing(t3[..], N - i)
      invariant seed == Seed(buf, i) && t1[..] == T1(buf, i) && t3[..] == T3(buf, i)
    {
      NextSeed(buf, i);
      seed := Long(5 * seed + buf[i % KEY]);
      var random := Unsigned(Rest(seed));
      var k := N - 1 - i;
      inv := SwapEntries(t1, k, random % N % (k + 1), inv);
      CoupleSlot(t3, k, random);
      NextTables(buf, i);
    }
    Paired(t3[..]);
    Invert(t1, t2, inv);
  }

  lemma FirstTables(key: seq<int>, t1: seq<nat>, t3: seq<nat>)
    requires |key| == KEY && |t1| == |t3| == N && forall j :: 0 <= j < N ==> t1[j] == j && t3[j] == 0
    ensures t1 == T1(key, 0) && t3 == T3(key, 0)
  {
  }

  lemma NextSeed(key: seq<int>, i: nat)
    requires |key| == KEY
    ensures Seed(key, i + 1) == Long(5 * Seed(key, i) + key[i % KEY])
  {
  }

  lemma NextTables(key: seq<int>, i: nat)
    requires |key| == KEY && i < N
    ensures T1(key, i + 1) == Exchange(T1(key, i), N - 1 - i, Random(key, i))
    ensures T3(key, i + 1) == Couple(T3(key, i), N - 1 - i, Random(key, i))
  {
    hide Random, Exchange, Couple;
  }

  function Plus(a: nat, n: int): (r: nat) ensures r < N { (a + n) % N }

  function Minus(a: nat, n: int): (r: nat) ensures r < N { (a - n) % N }

  /** What crblock() makes of byte x at place p of the file. */
  function Turned(t1: Table, t2: Table, t3: Table, x: nat, p: int): nat
    requires Machine(t1, t2, t3)
  {
    var n1, n2 := p % N, p / N % N;
    Minus(t2[Minus(t3[Plus(t1[Plus(x, n1)], n2)], n2)], n1)
  }

  lemma Back(a: nat, n: int)
    requires a < N
    ensures Plus(Minus(a, n), n) == a && Minus(Plus(a, n), n) == a
  {
    var q, q' := (a - n) / N, (a + n) / N;
    assert Minus(a, n) + n == a + N * -q;
    Multiple(a, -q);
    assert Plus(a, n) - n == a + N * -q';
    Multiple(a, -q');
  }

  lemma Multiple(a: nat, q: int)
    requires a < N
    ensures (a + N * q) % N == a
  {
  }

  /** Turning a byte twice at the same place gives it back, because t3 is an exchange of pairs. */
  lemma TurnedTwice(t1: Table, t2: Table, t3: Table, x: nat, p: int)
    requires Machine(t1, t2, t3) && x < N
    ensures var y := Turned(t1, t2, t3, x, p); y < N && Turned(t1, t2, t3, y, p) == x
  {
    hide Plus, Minus;
    var n1, n2 := p % N, p / N % N;
    var a := t1[Plus(x, n1)];
    var v := Plus(a, n2);
    var w := Minus(t3[v], n2);
    Back(t2[w], n1);
    Back(t3[v], n2);
    Back(a, n2);
    Back(x, n1);
    assert t1[t2[w]] == w && t3[t3[v]] == v && t2[a] == Plus(x, n1);
  }

  /** No byte is ever turned into itself. */
  lemma NeverItself(t1: Table, t2: Table, t3: Table, x: nat, p: int)
    requires Machine(t1, t2, t3) && x < N
    ensures Turned(t1, t2, t3, x, p) != x
  {
    hide Plus, Minus;
    var n1, n2 := p % N, p / N % N;
    var a := t1[Plus(x, n1)];
    var v := Plus(a, n2);
    var w := Minus(t3[v], n2);
    Back(t2[w], n1);
    Back(t3[v], n2);
    assert t1[t2[w]] == w && t3[v] != v;
  }

  /** The bytes of `buf`, the first at place `start`, each turned by its own place. */
  function Crypt(t1: Table, t2: Table, t3: Table, buf: seq<nat>, start: int): (r: seq<nat>)
    requires Machine(t1, t2, t3)
    ensures |r| == |buf|
  {
    seq(|buf|, i requires 0 <= i < |buf| => Turned(t1, t2, t3, buf[i], start + i))
  }

  lemma CryptTwice(t1: Table, t2: Table, t3: Table, buf: seq<nat>, start: int)
    requires Machine(t1, t2, t3) && forall i :: 0 <= i < |buf| ==> buf[i] < N
    ensures Crypt(t1, t2, t3, Crypt(t1, t2, t3, buf, start), start) == buf
  {
    forall i | 0 <= i < |buf| ensures Turned(t1, t2, t3, Turned(t1, t2, t3, buf[i], start + i), start + i) == buf[i] {
      TurnedTwice(t1, t2, t3, buf[i], start + i);
    }
  }

  /** How the file is cut into blocks does not matter, if each block is given its place. */
  lemma CryptBlocks(t1: Table, t2: Table, t3: Table, a: seq<nat>, b: seq<nat>, start: int)
    requires Machine(t1, t2, t3)
    ensures Crypt(t1, t2, t3, a + b, start) == Crypt(t1, t2, t3, a, start) + Crypt(t1, t2, t3, b, start + |a|)
  {
    hide Turned;
  }

  ghost predicate Places(p: int, n1: nat, n2: nat) { n1 == p % N && n2 == p / N % N }

  lemma TurnedIs(t1: Table, t2: Table, t3: Table, x: nat, p: int, n1: nat, n2: nat)
    requires Machine(t1, t2, t3) && Places(p, n1, n2)
    ensures t1[Plus(x, n1)] < N
    ensures Turned(t1, t2, t3, x, p) == Minus(t2[Minus(t3[Plus(t1[Plus(x, n1)], n2)], n2)], n1) < N
    ensures t3[Plus(t1[Plus(x, n1)], n2)] < N && t2[Minus(t3[Plus(t1[Plus(x, n1)], n2)], n2)] < N
  {
    hide Plus, Minus;
  }

  lemma NextPlace(p: int, n1: nat, n2: nat)
    requires Places(p, n1, n2)
    ensures if n1 + 1 == N then Places(p + 1, 0, if n2 + 1 == N then 0 else n2 + 1) else Places(p + 1, n1 + 1, n2)
  {
    var q := p / N;
    assert p + 1 == (if n1 + 1 == N then q + 1 else q) * N + if n1 + 1 == N then 0 else n1 + 1;
    assert (p + 1) / N == if n1 + 1 == N then q + 1 else q;
  }

  /** crblock() */
  method CrBlock(t1: array<nat>, t2: array<nat>, t3: array<nat>, buf: array<nat>, startn: int)
    requires t1.Length == t2.Length == t3.Length == N && buf != t1 && buf != t2 && buf != t3
    requires Machine(t1[..], t2[..], t3[..]) && forall i :: 0 <= i < buf.Length ==> buf[i] < N
    modifies buf
    ensures buf[..] == Crypt(t1[..], t2[..], t3[..], old(buf[..]), startn)
    ensures forall i :: 0 <= i < buf.Length ==> buf[i] < N
  {
    var n1: nat, n2: nat := startn % N, startn / N % N;
    hide Machine, Turned, Plus, Minus;
    for i := 0 to buf.Length
      invariant Places(startn + i, n1, n2)
      invariant forall k :: 0 <= k < i ==> buf[k] == Turned(t1[..], t2[..], t3[..], old(buf[k]), startn + k) < N
      invariant forall k :: i <= k < buf.Length ==> buf[k] == old(buf[k]) < N
    {
      TurnedIs(t1[..], t2[..], t3[..], buf[i], startn + i, n1, n2);
      buf[i] := Minus(t2[Minus(t3[Plus(t1[Plus(buf[i], n1)], n2)], n2)], n1);
      NextPlace(startn + i, n1, n2);
      n1 := n1 + 1;
      if n1 == N {
        n1 := 0;
        n2 := n2 + 1;
        if n2 == N { n2 := 0; }
      }
    }
  }

  /** The first counter turns with every byte, the second with every 256, and both begin again after 65536. */
  lemma RotorPlaces(t1: Table, t2: Table, t3: Table, x: nat, n1: nat, n2: nat, m: int)
    requires Machine(t1, t2, t3) && n1 < 256 && n2 < 256
    ensures var into := t1[(x + n1) % 256];
      var turned := t3[(into + n2) % 256];
      var out := t2[(turned - n2) % 256];
      Turned(t1, t2, t3, x, n1 + 256 * n2 + 65536 * m) == (out - n1) % 256
  {
    PlacesOf(n1, n2, m);
    hide Machine, Turned, Places;
    TurnedIs(t1, t2, t3, x, n1 + 256 * n2 + 65536 * m, n1, n2);
  }

  lemma PlacesOf(n1: nat, n2: nat, m: int)
    requires n1 < 256 && n2 < 256
    ensures Places(n1 + 256 * n2 + 65536 * m, n1, n2)
  {
    var p, q := n1 + 256 * n2 + 65536 * m, n2 + 256 * m;
    assert p == n1 + 256 * q;
    assert p % 256 == n1 && p / 256 == q;
    assert q % 256 == n2;
  }

  lemma NoByteItself(t1: Table, t2: Table, t3: Table, buf: seq<nat>, start: int)
    requires Machine(t1, t2, t3) && forall i :: 0 <= i < |buf| ==> buf[i] < N
    ensures forall i :: 0 <= i < |buf| ==> Crypt(t1, t2, t3, buf, start)[i] != buf[i]
  {
    hide Turned, Machine;
    forall i | 0 <= i < |buf| ensures Turned(t1, t2, t3, buf[i], start + i) != buf[i] {
      NeverItself(t1, t2, t3, buf[i], start + i);
    }
  }

  /** What is written with a key differs in every byte, and is read back with the key. */
  method EncryptAndDecrypt(key: seq<int>, buf: array<nat>, startn: int) returns (cipher: seq<nat>)
    requires |key| == KEY && forall i :: 0 <= i < buf.Length ==> buf[i] < N
    modifies buf
    ensures |cipher| == buf.Length && forall i :: 0 <= i < buf.Length ==> cipher[i] != old(buf[i])
    ensures exists t2 :: Machine(T1(key, N), t2, T3(key, N)) &&
                         cipher == Crypt(T1(key, N), t2, T3(key, N), old(buf[..]), startn)
    ensures buf[..] == old(buf[..])
  {
    hide Machine, Crypt, T1, T3;
    var t1, t2, t3 := new nat[N], new nat[N], new nat[N];
    CrInit(key, t1, t2, t3);
    CryptTwice(t1[..], t2[..], t3[..], buf[..], startn);
    NoByteItself(t1[..], t2[..], t3[..], buf[..], startn);
    CrBlock(t1, t2, t3, buf, startn);
    cipher := buf[..];
    CrBlock(t1, t2, t3, buf, startn);
  }
}
