/** The service table of etc/inetd.c, its counters, and what opening, lending and closing a socket does to them. */
module InetdModel {
  import opened Wrappers

  /** What tells entries apart in config(): the program number, or the service name, with the protocol. */
  datatype Key = Rpc(prog: nat, proto: string) | Net(service: string, proto: string)

  /** `wait` is se_wait: 0, 1, or the pid of the daemon that has the socket.  `fd` is -1 when closed. */
  datatype Entry = Entry(key: Key, wait: int, builtin: bool, port: int, fd: int, checked: bool)

  /** What can happen to a ready socket in the loop of main(). */
  datatype Outcome = NoConnection | Looping | ForkFailed | Served(pid: nat)

  /** What is counted in the table. */
  datatype What = Opened | Pids | Lent(allsock: set<int>)

  predicate Is(w: What, e: Entry) {
    match w
    case Opened => e.fd != -1
    case Pids => e.wait > 1
    case Lent(allsock) => e.fd != -1 && e.fd !in allsock
  }

  function Count(w: What, tab: seq<Entry>): (n: nat)
    ensures n <= |tab|
  {
    if tab == [] then 0 else (if Is(w, tab[0]) then 1 else 0) + Count(w, tab[1..])
  }

  lemma {:induction false} CountUpdate(w: What, tab: seq<Entry>, i: nat, e: Entry)
    requires i < |tab|
    ensures Count(w, tab[i := e]) ==
      Count(w, tab) - (if Is(w, tab[i]) then 1 else 0) + (if Is(w, e) then 1 else 0)
  {
    if i == 0 {
      assert tab[i := e][1..] == tab[1..];
    } else {
      assert tab[i := e][1..] == tab[1..][i - 1 := e];
      CountUpdate(w, tab[1..], i - 1, e);
    }
  }

  lemma {:induction false} CountSame(w: What, w': What, tab: seq<Entry>, tab': seq<Entry>)
    requires |tab| == |tab'| && forall i :: 0 <= i < |tab| ==> (Is(w, tab[i]) <==> Is(w', tab'[i]))
    ensures Count(w, tab) == Count(w', tab')
  {
    if tab != [] { CountSame(w, w', tab[1..], tab'[1..]); }
  }

  lemma {:induction false} CountRemove(w: What, tab: seq<Entry>, i: nat)
    requires i < |tab|
    ensures Count(w, tab[..i] + tab[i + 1..]) == Count(w, tab) - if Is(w, tab[i]) then 1 else 0
  {
    if i == 0 {
      assert tab[..i] + tab[i + 1..] == tab[1..];
    } else {
      assert (tab[..i] + tab[i + 1..])[1..] == tab[1..][..i - 1] + tab[1..][i..];
      CountRemove(w, tab[1..], i - 1);
    }
  }

  lemma CountAdd(w: What, e: Entry, tab: seq<Entry>)
    ensures Count(w, [e] + tab) == (if Is(w, e) then 1 else 0) + Count(w, tab)
  {
    assert ([e] + tab)[1..] == tab;
  }

  /** Fewer of one kind than of another, unless they are the same entries. */
  lemma {:induction false} CountLess(w: What, w': What, tab: seq<Entry>, tab': seq<Entry>)
    requires |tab| == |tab'| && forall i :: 0 <= i < |tab| ==> (Is(w, tab[i]) ==> Is(w', tab'[i]))
    ensures Count(w, tab) <= Count(w', tab')
    ensures Count(w, tab) == Count(w', tab') <==> forall i :: 0 <= i < |tab| ==> (Is(w, tab[i]) <==> Is(w', tab'[i]))
  {
    if tab != [] {
      CountLess(w, w', tab[1..], tab'[1..]);
      if forall i :: 0 <= i < |tab| - 1 ==> (Is(w, tab[1..][i]) <==> Is(w', tab'[1..][i])) {
        forall i | 1 <= i < |tab| ensures Is(w, tab[i]) <==> Is(w', tab'[i]) {
          assert tab[i] == tab[1..][i - 1] && tab'[i] == tab'[1..][i - 1];
        }
      }
    }
  }

  predicate DistinctKeys(tab: seq<Entry>) {
    forall i, j :: 0 <= i < j < |tab| ==> tab[i].key != tab[j].key
  }

  predicate DistinctFds(tab: seq<Entry>) {
    (forall i :: 0 <= i < |tab| ==> tab[i].fd >= -1)
    && forall i, j :: 0 <= i < j < |tab| && tab[i].fd != -1 ==> tab[i].fd != tab[j].fd
  }

  /** Some entry has the socket. */
  predicate HasFd(tab: seq<Entry>, fd: int) { exists i :: 0 <= i < |tab| && tab[i].fd == fd }

  /** The sockets that are polled are sockets of the table, and a service that waits for nobody is polled. */
  ghost predicate Polled(tab: seq<Entry>, allsock: set<int>) {
    && (forall fd :: fd in allsock && fd != -1 ==> HasFd(tab, fd))
    && (forall i :: 0 <= i < |tab| && tab[i].fd != -1 && tab[i].wait <= 1 ==> tab[i].fd in allsock)
  }

  /** Polled sockets are as many as open ones that are not lent out. */
  lemma {:induction false} PolledCount(tab: seq<Entry>, allsock: set<int>)
    requires DistinctFds(tab) && -1 !in allsock && forall fd :: fd in allsock ==> HasFd(tab, fd)
    ensures |allsock| == Count(Opened, tab) - Count(Lent(allsock), tab)
  {
    if tab == [] {
      forall x ensures x !in allsock {
        assert !HasFd(tab, x);
      }
    } else {
      var fd, rest := tab[0].fd, allsock - {tab[0].fd};
      assert allsock == if fd in allsock then rest + {fd} else rest;
      forall x | x in rest ensures HasFd(tab[1..], x) {
        assert HasFd(tab, x);
        var i :| 0 <= i < |tab| && tab[i].fd == x;
        assert tab[1..][i - 1].fd == x;
      }
      PolledCount(tab[1..], rest);
      CountSame(Lent(rest), Lent(allsock), tab[1..], tab[1..]);
    }
  }

  /** The table with one entry's socket exchanged. */
  lemma OneChanged(tab: seq<Entry>, i: nat, e: Entry)
    requires i < |tab| && DistinctKeys(tab) && DistinctFds(tab) && e.key == tab[i].key && e.fd >= -1
    requires e.fd != -1 && e.fd != tab[i].fd ==> !HasFd(tab, e.fd)
    ensures DistinctKeys(tab[i := e]) && DistinctFds(tab[i := e])
    ensures forall fd :: fd != e.fd && fd != tab[i].fd ==> (HasFd(tab[i := e], fd) <==> HasFd(tab, fd))
    ensures HasFd(tab[i := e], e.fd)
  {
    var t := tab[i := e];
    forall j, k | 0 <= j < k < |t| && t[j].fd != -1 ensures t[j].fd != t[k].fd {
      if j == i { assert tab[k].fd == t[k].fd; }
      if k == i { assert tab[j].fd == t[j].fd; }
    }
    assert t[i] == e;
    forall fd | fd != e.fd && fd != tab[i].fd ensures HasFd(t, fd) <==> HasFd(tab, fd) {
      if HasFd(t, fd) {
        var j :| 0 <= j < |t| && t[j].fd == fd;
        assert tab[j].fd == fd;
      }
      if HasFd(tab, fd) {
        var j :| 0 <= j < |tab| && tab[j].fd == fd;
        assert t[j].fd == fd;
      }
    }
  }

  /** The globals.  `lost` counts the pids that were waited for in an entry that then forgot them, and `refused` the
      sockets that the system has not given. */
  datatype State = State(tab: seq<Entry>, allsock: set<int>, nsock: int, maxsock: int, nservers: int, lost: nat,
                         refused: nat)

  /** What holds after any events. */
  ghost predicate Sound(s: State, maxservers: nat) {
    && DistinctKeys(s.tab) && DistinctFds(s.tab) && Polled(s.tab, s.allsock)
    && s.nservers == Count(Opened, s.tab) <= maxservers
    && s.nsock == Count(Opened, s.tab) - Count(Pids, s.tab) - s.lost
    && s.maxsock >= 0 && (forall i :: 0 <= i < |s.tab| ==> s.tab[i].fd <= s.maxsock)
  }

  /** No entry has lost its socket or its daemon while that was running. */
  ghost predicate Undisturbed(s: State) {
    && s.lost == 0 && -1 !in s.allsock
    && forall i :: 0 <= i < |s.tab| ==> (Is(Pids, s.tab[i]) <==> Is(Lent(s.allsock), s.tab[i]))
  }

  /** While nothing has gone wrong, main() knows the number of the sockets it polls. */
  lemma UndisturbedCounts(s: State, maxservers: nat)
    requires Sound(s, maxservers) && Undisturbed(s)
    ensures s.nsock == |s.allsock| == s.nservers - Count(Pids, s.tab)
  {
    PolledCount(s.tab, s.allsock);
    CountSame(Pids, Lent(s.allsock), s.tab, s.tab);
  }

  /** How far nsock falls short of the sockets that are polled. */
  ghost function Slack(s: State): int {
    Count(Pids, s.tab) + s.lost - Count(Lent(s.allsock), s.tab)
  }

  lemma SlackIs(s: State, maxservers: nat)
    requires Sound(s, maxservers) && -1 !in s.allsock
    ensures Slack(s) == |s.allsock| - s.nsock
  {
    PolledCount(s.tab, s.allsock);
  }

  lemma UndisturbedSlack(s: State)
    requires Undisturbed(s)
    ensures Slack(s) == 0
  {
    CountSame(Pids, Lent(s.allsock), s.tab, s.tab);
  }

  /** The daemon is undisturbed exactly when nothing is missing from nsock. */
  lemma UndisturbedIff(s: State, maxservers: nat)
    requires Sound(s, maxservers) && -1 !in s.allsock
    ensures Undisturbed(s) <==> Slack(s) == 0
    ensures Slack(s) >= 0
  {
    forall i | 0 <= i < |s.tab| && Is(Lent(s.allsock), s.tab[i]) ensures Is(Pids, s.tab[i]) {
    }
    CountLess(Lent(s.allsock), Pids, s.tab, s.tab);
  }

  /** Only the entries' own sockets matter for who has lent his. */
  lemma LentOthers(tab: seq<Entry>, i: nat, e: Entry, allsock: set<int>, allsock': set<int>)
    requires i < |tab|
    requires forall j :: 0 <= j < |tab| && j != i && tab[j].fd != -1 ==>
      (tab[j].fd in allsock <==> tab[j].fd in allsock')
    ensures forall j :: 0 <= j < |tab| && j != i ==>
      (Is(Lent(allsock'), tab[i := e][j]) <==> Is(Lent(allsock), tab[j]))
    ensures Count(Lent(allsock'), tab[i := e]) == Count(Lent(allsock), tab)
      - (if Is(Lent(allsock), tab[i]) then 1 else 0) + (if Is(Lent(allsock'), e) then 1 else 0)
  {
    var t := tab[i := e];
    CountUpdate(Lent(allsock'), t, i, e.(fd := -1));
    CountUpdate(Lent(allsock), tab, i, e.(fd := -1));
    CountSame(Lent(allsock'), Lent(allsock), t[i := e.(fd := -1)], tab[i := e.(fd := -1)]);
  }

  /** Every polled socket is one that select() looks at. */
  lemma AllSelected(s: State, maxservers: nat, fd: int)
    requires Sound(s, maxservers) && fd in s.allsock
    ensures fd <= s.maxsock
  {
    if fd != -1 {
      assert HasFd(s.tab, fd);
      var i :| 0 <= i < |s.tab| && s.tab[i].fd == fd;
    }
  }

  /** A socket is opened for entry i. */
  function Opening(s: State, i: nat, fd: nat): State
    requires i < |s.tab|
  {
    State(s.tab[i := s.tab[i].(fd := fd)], s.allsock + {fd}, s.nsock + 1,
          if fd > s.maxsock then fd else s.maxsock, s.nservers + 1, s.lost, s.refused)
  }

  lemma OpeningSound(s: State, maxservers: nat, i: nat, fd: nat)
    requires Sound(s, maxservers) && i < |s.tab| && s.tab[i].fd == -1 && s.nservers < maxservers && !HasFd(s.tab, fd)
    ensures Sound(Opening(s, i, fd), maxservers)
    ensures fd !in s.allsock && Slack(Opening(s, i, fd)) == Slack(s)
    ensures Undisturbed(s) && s.tab[i].wait <= 1 ==> Undisturbed(Opening(s, i, fd))
  {
    var e, t := s.tab[i].(fd := fd), Opening(s, i, fd);
    OneChanged(s.tab, i, e);
    CountUpdate(Opened, s.tab, i, e);
    CountUpdate(Pids, s.tab, i, e);
    forall x | x in t.allsock && x != -1 ensures HasFd(t.tab, x) {
      if x != fd { assert HasFd(s.tab, x); }
    }
    forall j | 0 <= j < |s.tab| ensures s.tab[j].fd != fd {
      assert !HasFd(s.tab, fd);
    }
    LentOthers(s.tab, i, e, s.allsock, t.allsock);
    if Undisturbed(s) && s.tab[i].wait <= 1 {
      forall j | 0 <= j < |t.tab| ensures Is(Pids, t.tab[j]) <==> Is(Lent(t.allsock), t.tab[j]) {
        if j != i { assert t.tab[j] == s.tab[j]; }
      }
    }
  }

  /** The socket of entry i is closed. */
  function Closing(s: State, i: nat): State
    requires i < |s.tab|
  {
    State(s.tab[i := s.tab[i].(fd := -1)], s.allsock - {s.tab[i].fd}, s.nsock - 1, s.maxsock, s.nservers - 1, s.lost,
          s.refused)
  }

  lemma ClosingSound(s: State, maxservers: nat, i: nat)
    requires Sound(s, maxservers) && i < |s.tab| && s.tab[i].fd != -1
    ensures Sound(Closing(s, i), maxservers)
    ensures Undisturbed(s) ==> (Undisturbed(Closing(s, i)) <==> s.tab[i].wait <= 1)
    ensures Slack(Closing(s, i)) == Slack(s) + if Is(Lent(s.allsock), s.tab[i]) then 1 else 0
  {
    var e, t := s.tab[i].(fd := -1), Closing(s, i);
    OneChanged(s.tab, i, e);
    CountUpdate(Opened, s.tab, i, e);
    CountUpdate(Pids, s.tab, i, e);
    forall x | x in t.allsock && x != -1 ensures HasFd(t.tab, x) {
      assert HasFd(s.tab, x);
    }
    LentOthers(s.tab, i, e, s.allsock, t.allsock);
    if Undisturbed(s) {
      forall j | 0 <= j < |t.tab| && j != i ensures Is(Pids, t.tab[j]) <==> Is(Lent(t.allsock), t.tab[j]) {
        assert t.tab[j] == s.tab[j];
      }
      assert t.tab[i] == e && !Is(Lent(t.allsock), e);
    }
  }

  /** A daemon with the given pid gets the socket of entry i; a pid that was there before is forgotten. */
  function Lending(s: State, i: nat, pid: nat): State
    requires i < |s.tab|
  {
    State(s.tab[i := s.tab[i].(wait := pid)], s.allsock - {s.tab[i].fd}, s.nsock - 1, s.maxsock, s.nservers,
          s.lost + (if s.tab[i].wait > 1 then 1 else 0), s.refused)
  }

  lemma LendingSound(s: State, maxservers: nat, i: nat, pid: nat)
    requires Sound(s, maxservers) && i < |s.tab| && s.tab[i].fd != -1 && s.tab[i].fd in s.allsock && pid > 1
    ensures Sound(Lending(s, i, pid), maxservers)
    ensures Undisturbed(s) ==> Undisturbed(Lending(s, i, pid))
  {
    var e, t := s.tab[i].(wait := pid), Lending(s, i, pid);
    OneChanged(s.tab, i, e);
    CountUpdate(Opened, s.tab, i, e);
    CountUpdate(Pids, s.tab, i, e);
    forall x | x in t.allsock && x != -1 ensures HasFd(t.tab, x) {
      assert HasFd(s.tab, x);
    }
    LentOthers(s.tab, i, e, s.allsock, t.allsock);
    if Undisturbed(s) {
      assert !Is(Lent(s.allsock), s.tab[i]) && !Is(Pids, s.tab[i]);
      forall j | 0 <= j < |t.tab| && j != i ensures Is(Pids, t.tab[j]) <==> Is(Lent(t.allsock), t.tab[j]) {
        assert t.tab[j] == s.tab[j];
      }
    }
  }

  /** The daemon of entry i has exited. */
  function Reaping(s: State, i: nat): State
    requires i < |s.tab|
  {
    State(s.tab[i := s.tab[i].(wait := 1)], s.allsock + {s.tab[i].fd}, s.nsock + 1, s.maxsock, s.nservers, s.lost,
          s.refused)
  }

  lemma ReapingSound(s: State, maxservers: nat, i: nat)
    requires Sound(s, maxservers) && i < |s.tab| && s.tab[i].wait > 1
    ensures Sound(Reaping(s, i), maxservers)
    ensures Undisturbed(s) ==> Undisturbed(Reaping(s, i))
  {
    var e, t := s.tab[i].(wait := 1), Reaping(s, i);
    OneChanged(s.tab, i, e);
    CountUpdate(Opened, s.tab, i, e);
    CountUpdate(Pids, s.tab, i, e);
    forall x | x in t.allsock && x != -1 ensures HasFd(t.tab, x) {
      if x != e.fd { assert HasFd(s.tab, x); }
    }
    if Undisturbed(s) {
      assert Is(Lent(s.allsock), s.tab[i]);
      LentOthers(s.tab, i, e, s.allsock, t.allsock);
      forall j | 0 <= j < |t.tab| && j != i ensures Is(Pids, t.tab[j]) <==> Is(Lent(t.allsock), t.tab[j]) {
        assert t.tab[j] == s.tab[j];
      }
    }
  }

  /** Other fields of entry i change, and se_wait at most between 0 and 1. */
  predicate Retouched(e: Entry, e': Entry) {
    e'.key == e.key && e'.fd == e.fd && (e'.wait == e.wait || (e.wait <= 1 && e'.wait <= 1))
  }

  lemma RetouchSound(s: State, maxservers: nat, i: nat, e: Entry)
    requires Sound(s, maxservers) && i < |s.tab| && Retouched(s.tab[i], e)
    ensures var t := s.(tab := s.tab[i := e]);
      Sound(t, maxservers) && (Undisturbed(s) ==> Undisturbed(t)) && Slack(t) == Slack(s)
  {
    var t := s.(tab := s.tab[i := e]);
    OneChanged(s.tab, i, e);
    CountUpdate(Opened, s.tab, i, e);
    CountUpdate(Pids, s.tab, i, e);
    LentOthers(s.tab, i, e, s.allsock, s.allsock);
    forall x | x in t.allsock && x != -1 ensures HasFd(t.tab, x) {
      assert HasFd(s.tab, x);
    }
    forall j | 0 <= j < |t.tab| && t.tab[j].fd != -1 && t.tab[j].wait <= 1 ensures t.tab[j].fd in t.allsock {
      assert s.tab[j].fd == t.tab[j].fd && s.tab[j].wait <= 1;
    }
    if Undisturbed(s) {
      forall j | 0 <= j < |t.tab| ensures Is(Pids, t.tab[j]) <==> Is(Lent(t.allsock), t.tab[j]) {
        assert Is(Pids, s.tab[j]) <==> Is(Lent(s.allsock), s.tab[j]);
      }
    }
  }

  /** enter(): a new entry, closed, in front. */
  lemma EnterSound(s: State, maxservers: nat, e: Entry)
    requires Sound(s, maxservers) && e.fd == -1 && e.wait <= 1 && forall i :: 0 <= i < |s.tab| ==> s.tab[i].key != e.key
    ensures var t := s.(tab := [e] + s.tab);
      Sound(t, maxservers) && (Undisturbed(s) ==> Undisturbed(t)) && Slack(t) == Slack(s)
  {
    var t := s.(tab := [e] + s.tab);
    CountAdd(Opened, e, s.tab);
    CountAdd(Pids, e, s.tab);
    CountAdd(Lent(s.allsock), e, s.tab);
    forall x | x in t.allsock && x != -1 ensures HasFd(t.tab, x) {
      assert HasFd(s.tab, x);
      var i :| 0 <= i < |s.tab| && s.tab[i].fd == x;
      assert t.tab[i + 1].fd == x;
    }
  }

  /** A closed entry is purged; the pid it may wait for is forgotten. */
  function Purging(s: State, i: nat): State
    requires i < |s.tab|
  {
    s.(tab := s.tab[..i] + s.tab[i + 1..], lost := s.lost + if s.tab[i].wait > 1 then 1 else 0)
  }

  lemma PurgingSound(s: State, maxservers: nat, i: nat)
    requires Sound(s, maxservers) && i < |s.tab| && s.tab[i].fd == -1
    ensures Sound(Purging(s, i), maxservers) && Slack(Purging(s, i)) == Slack(s)
    ensures Undisturbed(s) && s.tab[i].wait <= 1 ==> Undisturbed(Purging(s, i))
  {
    CountRemove(Opened, s.tab, i);
    CountRemove(Pids, s.tab, i);
    CountRemove(Lent(s.allsock), s.tab, i);
    PurgingShape(s, i);
    PurgingFds(s, i);
    hide HasFd, Count, Is;
    var t := Purging(s, i);
    if Undisturbed(s) && s.tab[i].wait <= 1 {
      forall j | 0 <= j < |t.tab| ensures Is(Pids, t.tab[j]) <==> Is(Lent(t.allsock), t.tab[j]) {
        var m := if j < i then j else j + 1;
        assert t.tab[j] == s.tab[m];
        assert Is(Pids, s.tab[m]) <==> Is(Lent(s.allsock), s.tab[m]);
      }
      Waits(s.tab[i]);
    }
  }

  lemma Waits(e: Entry)
    ensures Is(Pids, e) <==> e.wait > 1
  {
  }

  lemma PurgingShape(s: State, i: nat)
    requires i < |s.tab| && DistinctKeys(s.tab) && DistinctFds(s.tab)
    ensures var t := Purging(s, i);
      |t.tab| == |s.tab| - 1 && DistinctKeys(t.tab) && DistinctFds(t.tab)
      && forall j :: 0 <= j < |t.tab| ==> t.tab[j] == s.tab[if j < i then j else j + 1]
  {
    var t := Purging(s, i);
    forall j | 0 <= j < |t.tab| ensures t.tab[j] == s.tab[if j < i then j else j + 1] {
    }
  }

  lemma PurgingFds(s: State, i: nat)
    requires i < |s.tab| && Polled(s.tab, s.allsock) && s.tab[i].fd == -1
    ensures Polled(Purging(s, i).tab, s.allsock)
  {
    var t := Purging(s, i);
    forall j | 0 <= j < |t.tab| ensures t.tab[j] == s.tab[if j < i then j else j + 1] {
    }
    forall x | x in t.allsock && x != -1 ensures HasFd(t.tab, x) {
      assert HasFd(s.tab, x);
      var j :| 0 <= j < |s.tab| && s.tab[j].fd == x;
      assert t.tab[if j < i then j else j - 1].fd == x;
    }
  }

  /** The first entry with the key, or the length. */
  function Find(tab: seq<Entry>, key: Key): (i: nat)
    ensures i <= |tab| && (i < |tab| ==> tab[i].key == key) && forall j :: 0 <= j < i ==> tab[j].key != key
  {
    if tab == [] || tab[0].key == key then 0 else 1 + Find(tab[1..], key)
  }

  // ----- which services are open -----

  /** Entry i without its socket. */
  function Closed(s: State, i: nat): State
    requires i < |s.tab|
  {
    if s.tab[i].fd != -1 then Closing(s, i) else s
  }

  /** The system has not given a socket. */
  function Refusing(s: State): State { s.(refused := s.refused + 1) }

  lemma RefusingSound(s: State, maxservers: nat)
    requires Sound(s, maxservers)
    ensures Sound(Refusing(s), maxservers) && Slack(Refusing(s)) == Slack(s)
    ensures Undisturbed(Refusing(s)) <==> Undisturbed(s)
  {
  }

  /** The system gives a descriptor that no entry has, and binds it. */
  predicate Given(tab: seq<Entry>, env: nat -> int, tick: nat) {
    env(tick) >= 0 && !HasFd(tab, env(tick)) && env(tick + 1) >= 0
  }

  /** What becomes of the closed entry i: its socket is opened, unless the system does not give one. */
  function SetUp(s: State, i: nat, env: nat -> int, tick: nat): State
    requires i < |s.tab|
  {
    if Given(s.tab, env, tick) then Opening(s, i, env(tick)) else Refusing(s)
  }

  /** From now on the system gives every socket that it is asked for. */
  ghost predicate Giving(tab: seq<Entry>, env: nat -> int, tick: nat) {
    forall t :: t >= tick ==> env(t) >= 0 && !HasFd(tab, env(t)) && forall u :: tick <= u < t ==> env(u) != env(t)
  }

  /** A step of the daemon: a system that gives sockets has given them, and goes on to. */
  ghost predicate Fared(s: State, tick: nat, s': State, tick': nat, env: nat -> int) {
    && s'.refused >= s.refused && tick' >= tick
    && (Giving(s.tab, env, tick) ==> s'.refused == s.refused && Giving(s'.tab, env, tick'))
  }

  lemma FaredTwice(s: State, t: nat, s': State, t': nat, s'': State, t'': nat, env: nat -> int)
    requires Fared(s, t, s', t', env) && Fared(s', t', s'', t'', env)
    ensures Fared(s, t, s'', t'', env)
  {
  }

  /** No new descriptor in the table. */
  lemma FaredSame(s: State, s': State, tick: nat, env: nat -> int)
    requires s'.refused == s.refused && forall fd :: fd >= 0 && HasFd(s'.tab, fd) ==> HasFd(s.tab, fd)
    ensures Fared(s, tick, s', tick, env)
  {
  }

  lemma FaredClosed(s: State, i: nat, tick: nat, env: nat -> int)
    requires i < |s.tab|
    ensures Fared(s, tick, Closed(s, i), tick, env)
  {
    var t := Closed(s, i);
    forall fd | fd >= 0 && HasFd(t.tab, fd) ensures HasFd(s.tab, fd) {
      var j :| 0 <= j < |t.tab| && t.tab[j].fd == fd;
      assert s.tab[j].fd == fd;
    }
    FaredSame(s, t, tick, env);
  }

  lemma FaredSetUp(s: State, i: nat, env: nat -> int, tick: nat, tick': nat)
    requires i < |s.tab| && tick < tick' && (Given(s.tab, env, tick) ==> tick' == tick + 2)
    ensures Fared(s, tick, SetUp(s, i, env, tick), tick', env)
  {
    if Giving(s.tab, env, tick) {
      assert Given(s.tab, env, tick);
      var t := SetUp(s, i, env, tick);
      forall k, j | k >= tick' && 0 <= j < |t.tab| ensures t.tab[j].fd != env(k) {
        if j != i { assert !HasFd(s.tab, env(k)) && t.tab[j] == s.tab[j]; }
      }
    }
  }

  lemma FaredIs(s: State, tick: nat, s': State, tick': nat, env: nat -> int)
    requires Fared(s, tick, s', tick', env)
    ensures Giving(s.tab, env, tick) ==> s'.refused == s.refused
  {
  }

  lemma FaredLent(s: State, i: nat, outcome: Outcome, tick: nat, env: nat -> int)
    requires i < |s.tab|
    ensures outcome.Served? ==> Fared(s, tick, Lending(s, i, outcome.pid), tick, env)
  {
    if outcome.Served? { FaredReaped(s, Lending(s, i, outcome.pid), tick, env); }
  }

  /** Nothing but se_wait changes. */
  lemma FaredReaped(s: State, s': State, tick: nat, env: nat -> int)
    requires s'.refused == s.refused && |s'.tab| == |s.tab|
    requires forall j :: 0 <= j < |s.tab| ==> s'.tab[j].fd == s.tab[j].fd
    ensures Fared(s, tick, s', tick, env)
  {
    forall fd | fd >= 0 && HasFd(s'.tab, fd) ensures HasFd(s.tab, fd) {
      var j :| 0 <= j < |s'.tab| && s'.tab[j].fd == fd;
      assert s.tab[j].fd == fd;
    }
    FaredSame(s, s', tick, env);
  }

  /** The services that are open. */
  function OpenKeys(tab: seq<Entry>): set<Key> {
    set i | 0 <= i < |tab| && tab[i].fd != -1 :: tab[i].key
  }

  /** The first n net services are open. */
  predicate NetOpen(tab: seq<Entry>, n: nat) {
    forall j :: 0 <= j < n && j < |tab| && tab[j].key.Net? ==> tab[j].fd != -1
  }

  function KeysOf(lines: seq<Entry>): set<Key> { set i | 0 <= i < |lines| :: lines[i].key }

  lemma {:induction false} OpenCount(tab: seq<Entry>)
    requires DistinctKeys(tab)
    ensures |OpenKeys(tab)| == Count(Opened, tab)
  {
    if tab != [] {
      var rest := tab[1..];
      OpenCount(rest);
      OpenFirst(tab);
      assert tab[0].key !in OpenKeys(rest);
    }
  }

  lemma OpenFirst(tab: seq<Entry>)
    requires tab != []
    ensures OpenKeys(tab) == OpenKeys(tab[1..]) + if tab[0].fd != -1 then {tab[0].key} else {}
  {
    forall k | k in OpenKeys(tab) ensures k in OpenKeys(tab[1..]) || (tab[0].fd != -1 && k == tab[0].key) {
      var i :| 0 <= i < |tab| && tab[i].fd != -1 && tab[i].key == k;
      if i > 0 { assert tab[1..][i - 1] == tab[i]; }
    }
  }

  lemma OpenUpdate(tab: seq<Entry>, i: nat, e: Entry)
    requires DistinctKeys(tab) && i < |tab| && e.key == tab[i].key
    ensures OpenKeys(tab[i := e]) == if e.fd != -1 then OpenKeys(tab) + {e.key} else OpenKeys(tab) - {e.key}
  {
    var t := tab[i := e];
    forall k ensures k in OpenKeys(t) <==> if k == e.key then e.fd != -1 else k in OpenKeys(tab) {
      if k == e.key {
        if e.fd != -1 { assert t[i].key == k && t[i].fd != -1; }
      } else {
        if k in OpenKeys(t) {
          var j :| 0 <= j < |t| && t[j].fd != -1 && t[j].key == k;
          assert tab[j] == t[j];
        }
        if k in OpenKeys(tab) {
          var j :| 0 <= j < |tab| && tab[j].fd != -1 && tab[j].key == k;
          assert t[j] == tab[j];
        }
      }
    }
  }

  /** A service is wanted if it is known where it is to listen. */
  predicate Wanted(key: Key, port: Option<int>) { key.Rpc? || port.Some? }

  /** What a line of the file makes of the open services when the system gives all sockets: a service that is not
      wanted is closed, and one that is gets a socket if there is room, or keeps its own. */
  function OpenAfter(open: set<Key>, key: Key, wanted: bool, maxservers: nat): set<Key> {
    if !wanted then open - {key} else if |open| < maxservers then open + {key} else open
  }

  /** What a line of the file has made of the open services: that, or a service less that has not got a socket. */
  ghost predicate Opens(s: State, s': State, key: Key, wanted: bool, maxservers: nat) {
    && s.refused <= s'.refused <= s.refused + 1
    && OpenKeys(s'.tab) == if s'.refused == s.refused then OpenAfter(OpenKeys(s.tab), key, wanted, maxservers)
                           else OpenKeys(s.tab) - {key}
  }

  /** The socket of entry i is closed, and a new one is asked for if there is room. */
  function Reopened(s: State, i: nat, maxservers: nat, env: nat -> int, tick: nat): State
    requires i < |s.tab|
  {
    var t := Closed(s, i);
    if t.nservers < maxservers then SetUp(t, i, env, tick) else t
  }

  lemma ClosedOpens(s: State, i: nat, maxservers: nat)
    requires Sound(s, maxservers) && i < |s.tab|
    ensures var t, key := Closed(s, i), s.tab[i].key;
      |t.tab| == |s.tab| && t.tab[i].key == key && Sound(t, maxservers) && t.refused == s.refused
      && OpenKeys(t.tab) == OpenKeys(s.tab) - {key} && t.nservers == |OpenKeys(t.tab)|
      && |OpenKeys(s.tab)| <= maxservers && (key !in OpenKeys(s.tab) ==> t == s)
  {
    var t := Closed(s, i);
    if s.tab[i].fd != -1 { ClosingSound(s, maxservers, i); }
    OpenCount(s.tab);
    OpenCount(t.tab);
    OpenUpdate(s.tab, i, s.tab[i].(fd := -1));
    hide HasFd, Count, Polled, DistinctFds;
    if s.tab[i].fd == -1 { assert s.tab[i := s.tab[i].(fd := -1)] == s.tab; }
  }

  lemma ReopenedOpens(s: State, i: nat, maxservers: nat, env: nat -> int, tick: nat)
    requires Sound(s, maxservers) && i < |s.tab|
    ensures Opens(s, Reopened(s, i, maxservers, env, tick), s.tab[i].key, true, maxservers)
  {
    var t, key := Closed(s, i), s.tab[i].key;
    ClosedOpens(s, i, maxservers);
    SoundDistinct(t, maxservers);
    RoomAgain(OpenKeys(s.tab), key, maxservers);
    hide Sound, Closed, OpenKeys, Given, OpenAfter;
    if t.nservers < maxservers && Given(t.tab, env, tick) {
      GivenIs(t.tab, env, tick);
      OpenUpdate(t.tab, i, t.tab[i].(fd := env(tick)));
    }
  }

  lemma RoomAgain(open: set<Key>, key: Key, maxservers: nat)
    requires |open| <= maxservers
    ensures OpenAfter(open, key, true, maxservers)
      == if |open - {key}| < maxservers then open - {key} + {key} else open - {key}
  {
    if key in open { assert open == open - {key} + {key}; } else { assert open - {key} == open; }
  }

  lemma SoundDistinct(s: State, maxservers: nat)
    requires Sound(s, maxservers)
    ensures DistinctKeys(s.tab) && s.nservers <= maxservers
  {
  }

  lemma GivenIs(tab: seq<Entry>, env: nat -> int, tick: nat)
    requires Given(tab, env, tick)
    ensures env(tick) >= 0
  {
  }

  /** Fields of entry i change that are not its socket. */
  lemma RetouchOpens(s: State, s': State, i: nat, e: Entry, tick: nat, env: nat -> int, maxservers: nat)
    requires Sound(s, maxservers) && i < |s.tab| && e.key == s.tab[i].key && e.fd == s.tab[i].fd
    requires s' == s.(tab := s.tab[i := e])
    ensures Fared(s, tick, s', tick, env) && OpenKeys(s'.tab) == OpenKeys(s.tab)
  {
    forall fd | fd >= 0 && HasFd(s'.tab, fd) ensures HasFd(s.tab, fd) {
      var j :| 0 <= j < |s'.tab| && s'.tab[j].fd == fd;
      assert s.tab[j].fd == fd;
    }
    FaredSame(s, s', tick, env);
    OpenUpdate(s.tab, i, s.tab[i]);
    OpenUpdate(s.tab, i, e);
    hide OpenKeys;
    assert s.tab[i := s.tab[i]] == s.tab;
  }

  lemma EnterOpens(s: State, s': State, e: Entry, tick: nat, env: nat -> int)
    requires e.fd == -1 && s' == s.(tab := [e] + s.tab)
    ensures Fared(s, tick, s', tick, env) && OpenKeys(s'.tab) == OpenKeys(s.tab)
  {
    forall fd | fd >= 0 && HasFd(s'.tab, fd) ensures HasFd(s.tab, fd) {
      var j :| 0 <= j < |s'.tab| && s'.tab[j].fd == fd;
      assert s.tab[j - 1].fd == fd;
    }
    FaredSame(s, s', tick, env);
    OpenFirst(s'.tab);
    assert s'.tab[1..] == s.tab;
  }

  lemma OpensOn(s: State, t: State, s': State, key: Key, wanted: bool, maxservers: nat)
    requires OpenKeys(t.tab) == OpenKeys(s.tab) && t.refused == s.refused && Opens(t, s', key, wanted, maxservers)
    ensures Opens(s, s', key, wanted, maxservers)
  {
  }

  lemma OpensKept(s: State, i: nat, maxservers: nat)
    requires i < |s.tab| && s.tab[i].fd != -1
    ensures Opens(s, s, s.tab[i].key, true, maxservers)
  {
    assert s.tab[i].key in OpenKeys(s.tab);
    assert OpenKeys(s.tab) + {s.tab[i].key} == OpenKeys(s.tab);
  }

  /** The same for all lines. */
  function OpenAll(open: set<Key>, lines: seq<Entry>, serv: Key -> Option<int>, maxservers: nat): set<Key> {
    if lines == [] then open
    else
      var n := |lines| - 1;
      OpenAfter(OpenAll(open, lines[..n], serv, maxservers), lines[n].key, Wanted(lines[n].key, serv(lines[n].key)),
                maxservers)
  }

  /** If there is room for all services together, every one that is wanted is opened, those that are not are
      closed, and the others stay as they are. */
  lemma {:induction false} RoomForAll(open: set<Key>, lines: seq<Entry>, serv: Key -> Option<int>, maxservers: nat)
    requires |open + KeysOf(lines)| <= maxservers
    ensures forall k ::
      (k in OpenAll(open, lines, serv, maxservers)) == if k in KeysOf(lines) then Wanted(k, serv(k)) else k in open
  {
    hide KeysOf;
    if lines == [] {
      NoKeys();
    } else {
      var n := |lines| - 1;
      KeysNext(lines, n);
      assert lines[..n + 1] == lines;
      Smaller(open + KeysOf(lines[..n]), open + KeysOf(lines));
      RoomForAll(open, lines[..n], serv, maxservers);
      var all := OpenAll(open, lines[..n], serv, maxservers);
      hide OpenAll;
      RoomForOne(open + KeysOf(lines), all, lines[n].key, maxservers);
    }
  }

  lemma RoomForOne(bound: set<Key>, all: set<Key>, key: Key, maxservers: nat)
    requires |bound| <= maxservers && key in bound && all <= bound
    ensures OpenAfter(all, key, true, maxservers) == all + {key}
  {
    Smaller(all, bound);
    if |all| >= maxservers { SameSize(all, bound); }
  }

  lemma NoKeys()
    ensures KeysOf([]) == {}
  {
  }

  lemma KeysNext(lines: seq<Entry>, n: nat)
    requires n < |lines|
    ensures KeysOf(lines[..n + 1]) == KeysOf(lines[..n]) + {lines[n].key}
  {
    var l, l' := lines[..n], lines[..n + 1];
    forall k | k in KeysOf(l) ensures k in KeysOf(l') {
      var i :| 0 <= i < |l| && l[i].key == k;
      assert l'[i].key == k;
    }
    forall k | k in KeysOf(l') ensures k in KeysOf(l) + {lines[n].key} {
      var i :| 0 <= i < |l'| && l'[i].key == k;
      if i < n { assert l[i].key == k; }
    }
    assert l'[n].key == lines[n].key;
  }

  lemma Smaller<T>(a: set<T>, b: set<T>)
    requires a <= b
    ensures |a| <= |b|
  {
    assert b == a + (b - a);
  }

  lemma SameSize<T>(a: set<T>, b: set<T>)
    requires a <= b && |a| >= |b|
    ensures a == b
  {
    assert b == a + (b - a);
  }

  /** What is open after a file of wanted services. */
  lemma {:induction false} AllWanted(open: set<Key>, lines: seq<Entry>, serv: Key -> Option<int>, maxservers: nat)
    requires |open| <= maxservers && forall n :: 0 <= n < |lines| ==> Wanted(lines[n].key, serv(lines[n].key))
    ensures var all := OpenAll(open, lines, serv, maxservers);
      open <= all <= open + KeysOf(lines) && |all| <= maxservers && (KeysOf(lines) <= all || |all| == maxservers)
  {
    if lines != [] {
      var n := |lines| - 1;
      AllWanted(open, lines[..n], serv, maxservers);
      KeysNext(lines, n);
      assert lines[..n + 1] == lines;
    }
  }

  /** A configuration with wanted services only leaves all of them open, or the table full, if and only if there is
      room for them and all that were open before, or none that was open before is dropped. */
  lemma AllOpenOrFull(open: set<Key>, lines: seq<Entry>, serv: Key -> Option<int>, maxservers: nat)
    requires |open| <= maxservers && forall n :: 0 <= n < |lines| ==> Wanted(lines[n].key, serv(lines[n].key))
    ensures var keys := KeysOf(lines);
      var left := OpenAll(open, lines, serv, maxservers) * keys;
      (keys <= left || |left| == maxservers) <==> |open + keys| <= maxservers || open <= keys
  {
    var keys, all := KeysOf(lines), OpenAll(open, lines, serv, maxservers);
    AllWanted(open, lines, serv, maxservers);
    hide KeysOf, OpenAll;
    var left := all * keys;
    Smaller(left, all);
    if open <= keys { assert left == all; }
    if |open + keys| <= maxservers && |all| == maxservers {
      SameSize(all, open + keys);
      assert keys <= left;
    }
    if keys <= left {
      assert all == open + keys;
    } else if |left| == maxservers {
      SameSize(left, all);
    }
  }

  /** A service on a known port is left out although the table is empty in the end: the one that makes room for it
      is closed too late. */
  lemma DroppedTooLate(open: set<Key>, lines: seq<Entry>, maxservers: nat)
    requires open == {Net("ftp", "tcp")} && lines == [Entry(Net("login", "tcp"), 0, false, 513, -1, false)]
    requires maxservers == 1
    ensures OpenAll(open, lines, _ => Some(513), maxservers) * KeysOf(lines) == {}
  {
    assert lines[..0] == [];
    assert OpenAll(open, lines[..0], _ => Some(513), maxservers) == open;
  }
}
