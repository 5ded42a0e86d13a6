/**
 The service table of etc/inetd.c under its event handlers.  Every handler is one step; sockets, forks
 and the configuration file are what the environment hands in.
 */
module Inetd {
  import opened Wrappers
  import opened InetdModel

  /** What the daemon reacts to. */
  datatype Event =
    | Ready(i: nat, outcome: Outcome)
    | Exited(pid: nat)
    | Reconfigure(lines: seq<Entry>, serv: Key -> Option<int>)
    | Alarm

  class Daemon {
    var servtab: seq<Entry>
    var allsock: set<int>
    var nsock: int
    var maxsock: int
    var nservers: int
    var tick: nat
    const maxservers: nat
    const env: nat -> int
    ghost var lost: nat
    ghost var refused: nat

    ghost function S(): State
      reads `servtab, `allsock, `nsock, `maxsock, `nservers, `lost, `refused
    {
      State(servtab, allsock, nsock, maxsock, nservers, lost, refused)
    }

    constructor (maxservers: nat, env: nat -> int)
      ensures Sound(S(), maxservers) && Undisturbed(S()) && servtab == [] && this.maxservers == maxservers
    {
      this.maxservers, this.env := maxservers, env;
      servtab, allsock, nsock, maxsock, nservers, tick, lost, refused := [], {}, 0, 0, 0, 0, 0, 0;
    }

    /** A descriptor from socket(), never one that an entry has; -1 is failure. */
    method Socket() returns (fd: int)
      modifies `tick
      ensures tick == old(tick) + 1
      ensures fd == if env(old(tick)) >= 0 && !HasFd(servtab, env(old(tick))) then env(old(tick)) else -1
    {
      fd := env(tick);
      tick := tick + 1;
      if fd < 0 { return -1; }
      for i := 0 to |servtab|
        modifies {}
        invariant forall j :: 0 <= j < i ==> servtab[j].fd != fd
      {
        if servtab[i].fd == fd { return -1; }
      }
    }

    /** setup() and setuprpc(): a socket is opened, bound and polled exactly if the system gives it; otherwise the
        entry stays closed. */
    method Setup(i: nat)
      requires Sound(S(), maxservers) && i < |servtab| && servtab[i].fd == -1 && nservers < maxservers
      modifies `servtab, `allsock, `nsock, `maxsock, `nservers, `tick, `refused
      ensures Sound(S(), maxservers) && Slack(S()) == old(Slack(S()))
      ensures S() == SetUp(old(S()), i, env, old(tick)) && Fared(old(S()), old(tick), S(), tick, env)
      ensures tick == old(tick) + if env(old(tick)) >= 0 && !HasFd(old(servtab), env(old(tick))) then 2 else 1
      ensures old(Undisturbed(S())) && old(servtab)[i].wait <= 1 ==> Undisturbed(S())
    {
      hide Sound, Slack, Undisturbed, HasFd, Fared;
      RefusingSound(S(), maxservers);
      var fd := Socket();
      FaredSetUp(old(S()), i, env, old(tick), old(tick) + 1 + if fd == -1 then 0 else 1);
      if fd == -1 {
        refused := refused + 1;
        assert S() == Refusing(old(S()));
        return;
      }
      var bound := env(tick);
      tick := tick + 1;
      if bound < 0 {
        refused := refused + 1;
        assert S() == Refusing(old(S()));
        return;
      }
      OpeningSound(S(), maxservers, i, fd);
      servtab := servtab[i := servtab[i].(fd := fd)];
      allsock := allsock + {fd};
      nsock := nsock + 1;
      if fd > maxsock { maxsock := fd; }
      nservers := nservers + 1;
      assert S() == Opening(old(S()), i, fd);
    }

    /** termserv(): it leaves the daemon undisturbed exactly if the entry does not wait for a pid. */
    method TermServ(i: nat)
      requires Sound(S(), maxservers) && i < |servtab| && servtab[i].fd != -1
      modifies `servtab, `allsock, `nsock, `nservers
      ensures Sound(S(), maxservers) && S() == Closing(old(S()), i)
      ensures Slack(S()) == old(Slack(S())) + if Is(Lent(old(allsock)), old(servtab)[i]) then 1 else 0
      ensures old(Undisturbed(S())) ==> (Undisturbed(S()) <==> old(servtab)[i].wait <= 1)
    {
      hide Sound, Slack, Undisturbed;
      ClosingSound(S(), maxservers, i);
      allsock := allsock - {servtab[i].fd};
      nsock := nsock - 1;
      servtab := servtab[i := servtab[i].(fd := -1)];
      nservers := nservers - 1;
      assert S() == Closing(old(S()), i);
    }

    /** The loop of main(), for one socket that select() reported. */
    method Dispatch(i: nat, outcome: Outcome)
      requires Sound(S(), maxservers) && i < |servtab| && servtab[i].fd != -1 && servtab[i].fd in allsock
      requires outcome.Served? ==> outcome.pid != 1
      modifies `servtab, `allsock, `nsock, `nservers, `lost
      ensures Sound(S(), maxservers) && (old(Undisturbed(S())) ==> Undisturbed(S()))
      ensures Fared(old(S()), tick, S(), tick, env)
      ensures outcome.Looping? ==> S() == Closing(old(S()), i)
      ensures outcome.Served? && outcome.pid != 0 && old(servtab)[i].wait != 0 ==>
        S() == Lending(old(S()), i, outcome.pid)
      ensures !outcome.Looping? && !(outcome.Served? && outcome.pid != 0 && old(servtab)[i].wait != 0) ==>
        S() == old(S())
    {
      hide Sound, Fared;
      FaredSame(S(), S(), tick, env);
      FaredClosed(S(), i, tick, env);
      FaredLent(S(), i, outcome, tick, env);
      if outcome.Looping? {
        PolledWaitsNot(S(), i);
        TermServ(i);
      } else if outcome.Served? && outcome.pid != 0 && servtab[i].wait != 0 {
        LendingSound(S(), maxservers, i, outcome.pid);
        if servtab[i].wait > 1 { lost := lost + 1; }
        allsock := allsock - {servtab[i].fd};
        servtab := servtab[i := servtab[i].(wait := outcome.pid)];
        nsock := nsock - 1;
        assert S() == Lending(old(S()), i, outcome.pid);
      }
    }

    /** reapchild(), for one pid. */
    method ReapChild(pid: nat)
      requires Sound(S(), maxservers) && pid > 1
      modifies `servtab, `allsock, `nsock
      ensures Sound(S(), maxservers) && (old(Undisturbed(S())) ==> Undisturbed(S()))
      ensures |servtab| == |old(servtab)| && forall j :: 0 <= j < |servtab| ==>
        servtab[j] == if old(servtab)[j].wait == pid then old(servtab)[j].(wait := 1) else old(servtab)[j]
    {
      hide Sound, Undisturbed;
      for i := 0 to |servtab|
        invariant Sound(S(), maxservers) && (old(Undisturbed(S())) ==> Undisturbed(S()))
        invariant |servtab| == |old(servtab)| && forall j :: 0 <= j < |servtab| ==>
          servtab[j] == if j < i && old(servtab)[j].wait == pid then old(servtab)[j].(wait := 1) else old(servtab)[j]
      {
        if servtab[i].wait == pid {
          ghost var s := S();
          ReapingSound(S(), maxservers, i);
          allsock := allsock + {servtab[i].fd};
          nsock := nsock + 1;
          servtab := servtab[i := servtab[i].(wait := 1)];
          assert S() == Reaping(s, i);
        }
      }
    }

    /** retry() */
    method Retry()
      requires Sound(S(), maxservers)
      modifies `servtab, `allsock, `nsock, `maxsock, `nservers, `tick, `refused
      ensures Sound(S(), maxservers) && (old(Undisturbed(S())) ==> Undisturbed(S()))
      ensures |servtab| == |old(servtab)| && forall j :: 0 <= j < |servtab| ==>
        servtab[j] == old(servtab)[j].(fd := servtab[j].fd)
        && (servtab[j].fd != old(servtab)[j].fd ==> old(servtab)[j].fd == -1 && servtab[j].key.Net?)
      ensures Fared(old(S()), old(tick), S(), tick, env)
      ensures refused == old(refused) ==> nservers == maxservers || NetOpen(servtab, |servtab|)
    {
      hide Sound, Slack, HasFd, Fared;
      FaredSame(S(), S(), tick, env);
      SoundDistinct(S(), maxservers);
      for i := 0 to |servtab|
        invariant Sound(S(), maxservers) && (old(Undisturbed(S())) ==> Undisturbed(S()))
        invariant |servtab| == |old(servtab)| && forall j :: 0 <= j < |servtab| ==>
          servtab[j] == old(servtab)[j].(fd := servtab[j].fd)
          && (servtab[j].fd != old(servtab)[j].fd ==> old(servtab)[j].fd == -1 && servtab[j].key.Net?)
        invariant Fared(old(S()), old(tick), S(), tick, env) && refused >= old(refused) && nservers <= maxservers
        invariant refused == old(refused) ==> nservers == maxservers || NetOpen(servtab, i)
      {
        if servtab[i].fd == -1 && servtab[i].key.Net? {
          ghost var s, t := S(), tick;
          if nservers < maxservers {
            Setup(i);
            FaredTwice(old(S()), old(tick), s, t, S(), tick, env);
            SoundDistinct(S(), maxservers);
          }
        }
      }
    }

    /** A service whose socket is to go, and a new socket if there is room. */
    method Reopen(i: nat)
      requires Sound(S(), maxservers) && i < |servtab|
      modifies `servtab, `allsock, `nsock, `maxsock, `nservers, `tick, `refused
      ensures Sound(S(), maxservers) && OnlyAt(old(S()), S(), i) && !Is(Lent(allsock), servtab[i])
      ensures S() == Reopened(old(S()), i, maxservers, env, old(tick)) && Fared(old(S()), old(tick), S(), tick, env)
      ensures Opens(old(S()), S(), old(servtab)[i].key, true, maxservers)
      ensures i < |servtab| && servtab[i].port == old(servtab)[i].port && servtab[i].key == old(servtab)[i].key
      ensures Slack(S()) == old(Slack(S())) + if Is(Lent(old(allsock)), old(servtab)[i]) then 1 else 0
    {
      hide Sound, Slack, HasFd, OnlyAt, SetUp, Closed, Opens, Fared;
      ReopenedOpens(S(), i, maxservers, env, tick);
      Close(i);
      if nservers < maxservers {
        ghost var s, t := S(), tick;
        Setup(i);
        OpenOrNot(s, i, env, t, maxservers);
        OnlyTwice(old(S()), s, S(), i);
        FaredTwice(old(S()), old(tick), s, t, S(), tick, env);
      }
    }

    method Close(i: nat)
      requires Sound(S(), maxservers) && i < |servtab|
      modifies `servtab, `allsock, `nsock, `nservers
      ensures Sound(S(), maxservers) && OnlyAt(old(S()), S(), i) && |servtab| == |old(servtab)| && servtab[i].fd == -1
      ensures S() == Closed(old(S()), i) && Fared(old(S()), tick, S(), tick, env)
      ensures Opens(old(S()), S(), old(servtab)[i].key, false, maxservers)
      ensures servtab[i].port == old(servtab)[i].port && servtab[i].key == old(servtab)[i].key
      ensures Slack(S()) == old(Slack(S())) + if Is(Lent(old(allsock)), old(servtab)[i]) then 1 else 0
    {
      hide Slack, Fared, OpenKeys;
      FaredClosed(S(), i, tick, env);
      ClosedOpens(S(), i, maxservers);
      if servtab[i].fd != -1 {
        OnlyClosing(S(), maxservers, i);
        TermServ(i);
      }
    }

    /** One line of the file in config(); `port` is what getservbyname() says of its service.  Returned is
        the place of its entry. */
    method ConfigLine(cp: Entry, port: Option<int>) returns (i: nat)
      requires Sound(S(), maxservers) && cp.wait <= 1
      modifies `servtab, `allsock, `nsock, `maxsock, `nservers, `tick, `refused
      ensures Sound(S(), maxservers) && LineDone(old(S()), S(), cp.key, i, port)
      ensures Entered(old(servtab), servtab, cp, i, port) && Fared(old(S()), old(tick), S(), tick, env)
      ensures Opens(old(S()), S(), cp.key, Wanted(cp.key, port), maxservers)
    {
      hide Sound, Slack, HasFd, OnlyAt, LineDone, Entered, Fared, Opens, OpenKeys, Keeps;
      ghost var s0 := S();
      i := Find(servtab, cp.key);
      if i < |servtab| {
        if !cp.builtin && servtab[i].wait <= 1 {
          servtab := servtab[i := servtab[i].(wait := cp.wait)];
        }
        servtab := servtab[i := servtab[i].(checked := true)];
        ghost var e := servtab[i];
        assert S() == s0.(tab := s0.tab[i := e]);
        RetouchSound(s0, maxservers, i, e);
        RetouchOpens(s0, S(), i, e, tick, env, maxservers);
        ghost var t := S();
        SetSocket(i, port);
        LineRedone(s0, e, S(), i, port);
        EntryRedone(s0, cp, S(), i, port);
        FaredTwice(s0, old(tick), t, old(tick), S(), tick, env);
        OpensOn(s0, t, S(), cp.key, Wanted(cp.key, port), maxservers);
      } else {
        ghost var e := cp.(fd := -1, checked := true);
        EnterSound(s0, maxservers, e);
        servtab := [cp.(fd := -1, checked := true)] + servtab;
        i := 0;
        assert S() == s0.(tab := [e] + s0.tab);
        EnterOpens(s0, S(), e, tick, env);
        ghost var t := S();
        SetSocket(0, port);
        LineEntered(s0, e, S(), port);
        EntryEntered(s0, cp, S(), port);
        FaredTwice(s0, old(tick), t, old(tick), S(), tick, env);
        OpensOn(s0, t, S(), cp.key, Wanted(cp.key, port), maxservers);
      }
    }

    /** The part of config() that sees to the socket of entry i. */
    method SetSocket(i: nat, port: Option<int>)
      requires Sound(S(), maxservers) && i < |servtab|
      modifies `servtab, `allsock, `nsock, `maxsock, `nservers, `tick, `refused
      ensures Sound(S(), maxservers) && SocketSet(old(S()), S(), i, port) && Fared(old(S()), old(tick), S(), tick, env)
      ensures Opens(old(S()), S(), old(servtab)[i].key, Wanted(old(servtab)[i].key, port), maxservers)
    {
      hide Sound, Slack, HasFd, OnlyAt, Fared, Opens, OpenKeys, Closed, SetUp;
      OnlySame(S(), i);
      FaredSame(S(), S(), tick, env);
      var sep := servtab[i];
      if sep.key.Rpc? {
        Reopen(i);
      } else if port.None? {
        Close(i);
        NotLent(S(), i);
      } else {
        if port.value != sep.port {
          ghost var s, k := S(), tick;
          RetouchSound(s, maxservers, i, sep.(port := port.value));
          OnlyPort(s, i, port.value);
          servtab := servtab[i := sep.(port := port.value)];
          assert S() == s.(tab := s.tab[i := sep.(port := port.value)]);
          RetouchOpens(s, S(), i, sep.(port := port.value), tick, env, maxservers);
          ghost var t := S();
          Reopen(i);
          OnlyTwice(s, t, S(), i);
          FaredTwice(s, k, t, k, S(), tick, env);
          OpensOn(s, t, S(), sep.key, true, maxservers);
        } else if sep.fd == -1 {
          NotLent(S(), i);
          Reopen(i);
        } else {
          OpensKept(S(), i, maxservers);
        }
      }
    }

    /** config(): the table has afterwards exactly the services of the file, and unless the system has refused a
        socket, those are open that the lines have opened one after the other and that the file names.  An
        undisturbed daemon stays so, and knows the number of its sockets, if and only if every service that waits
        for a pid is kept. */
    method Config(lines: seq<Entry>, serv: Key -> Option<int>)
      requires Sound(S(), maxservers) && forall n :: 0 <= n < |lines| ==> lines[n].wait <= 1
      modifies `servtab, `allsock, `nsock, `maxsock, `nservers, `tick, `lost, `refused
      ensures Sound(S(), maxservers)
      ensures forall key :: HasKey(servtab, key) <==> HasKey(lines, key)
      ensures Carried(old(servtab), servtab, lines, serv)
      ensures Fared(old(S()), old(tick), S(), tick, env)
      ensures refused == old(refused) ==>
        OpenKeys(servtab) == OpenAll(OpenKeys(old(servtab)), lines, serv, maxservers) * KeysOf(lines)
      ensures old(Undisturbed(S())) ==>
        (Undisturbed(S()) <==> AllKept(old(servtab), lines, serv))
        && (nsock == |allsock| <==> AllKept(old(servtab), lines, serv))
    {
      hide Sound, Slack, Undisturbed, LineDone, Progress, Traced, HasKey, AllKept, PurgeDone, Carried;
      hide Fared, OpenKeys, OpenAll, Opens, KeysOf;
      Uncheck();
      ghost var s0 := S();
      UncheckedOpens(old(S()), s0, tick, env);
      Start(s0, lines[..0], serv);
      OpenedFirst(s0, lines, serv, maxservers);
      for n := 0 to |lines|
        invariant Sound(S(), maxservers) && Progress(s0, S(), lines[..n], serv) && Traced(s0, S(), lines[..n], serv)
        invariant Fared(old(S()), old(tick), S(), tick, env)
        invariant OpenedBy(s0, S(), lines[..n], serv, maxservers)
      {
        ghost var s, t := S(), tick;
        var i := ConfigLine(lines[n], serv(lines[n].key));
        SoundKeys(s, maxservers);
        ProgressStep(s0, s, S(), lines, n, i, serv);
        TracedStep(s0, s, S(), lines, n, i, serv);
        FaredTwice(old(S()), old(tick), s, t, S(), tick, env);
        OpenedNext(s0, s, S(), lines, n, serv, maxservers);
      }
      assert lines[..|lines|] == lines;
      ghost var s1 := S();
      Purge();
      Purged(old(S()), s0, s1, S(), lines, serv, maxservers);
      CarriedOver(old(S()), s0, s1, S(), lines, serv);
      PurgedOpens(s0, s1, S(), lines, serv, tick, env);
      FaredTwice(old(S()), old(tick), s1, tick, S(), tick, env);
    }

    /** All entries are unmarked. */
    method Uncheck()
      requires Sound(S(), maxservers)
      modifies `servtab
      ensures Sound(S(), maxservers) && |servtab| == |old(servtab)| && Slack(S()) == old(Slack(S()))
      ensures forall j :: 0 <= j < |servtab| ==> servtab[j] == old(servtab)[j].(checked := false)
    {
      hide Sound, Slack;
      for i := 0 to |servtab|
        invariant Sound(S(), maxservers) && |servtab| == |old(servtab)| && Slack(S()) == old(Slack(S()))
        invariant forall j :: 0 <= j < |servtab| ==>
          servtab[j] == if j < i then old(servtab)[j].(checked := false) else old(servtab)[j]
      {
        ghost var s := S();
        RetouchSound(s, maxservers, i, servtab[i].(checked := false));
        servtab := servtab[i := servtab[i].(checked := false)];
        assert S() == s.(tab := s.tab[i := s.tab[i].(checked := false)]);
      }
    }

    /** The last loop of config(): what the file does not name is closed and removed. */
    method Purge()
      requires Sound(S(), maxservers)
      modifies `servtab, `allsock, `nsock, `nservers, `lost
      ensures Sound(S(), maxservers) && PurgeDone(old(S()), S(), |servtab|, |old(servtab)|)
    {
      hide Sound, Slack, PurgeDone, Purging;
      ghost var s1, k := S(), 0;
      PurgeStart(s1);
      var i := 0;
      while i < |servtab|
        invariant Sound(S(), maxservers) && PurgeDone(s1, S(), i, k)
        invariant i <= |servtab| && k <= |s1.tab| && |servtab| - i == |s1.tab| - k
        decreases |servtab| - i
      {
        ghost var s := S();
        if servtab[i].checked {
          PurgeKeep(s1, s, i, k);
          i := i + 1;
        } else {
          PurgeClosed(s1, s, i, k, maxservers);
          if servtab[i].fd != -1 { TermServ(i); }
          PurgingSound(S(), maxservers, i);
          ghost var t := S();
          assert t == Closed(s, i);
          if servtab[i].wait > 1 { lost := lost + 1; }
          servtab := servtab[..i] + servtab[i + 1..];
          assert S() == Purging(t, i) by { PurgingIs(t, i); }
        }
        k := k + 1;
      }
    }

    /** One event; what cannot happen, such as a connection on a socket that is not polled, does nothing. */
    method React(e: Event)
      requires Sound(S(), maxservers) && EventOk(e)
      modifies `servtab, `allsock, `nsock, `maxsock, `nservers, `tick, `lost, `refused
      ensures Sound(S(), maxservers) && Reacted(old(S()), e, S(), maxservers)
      ensures Fared(old(S()), old(tick), S(), tick, env)
    {
      hide Sound, Undisturbed, AllKept, HasKey, Closing, Lending, Fared, OpenKeys, OpenAll, KeysOf;
      FaredSame(S(), S(), tick, env);
      match e
      case Ready(i, outcome) =>
        if i < |servtab| && servtab[i].fd != -1 && servtab[i].fd in allsock && outcome != Served(1) {
          Dispatch(i, outcome);
        }
      case Exited(pid) =>
        if pid > 1 {
          ReapChild(pid);
          FaredReaped(old(S()), S(), tick, env);
        }
      case Reconfigure(lines, serv) =>
        Config(lines, serv);
      case Alarm =>
        Retry();
    }

    /** Any events, in any order; `trace` is the states between them.  While the configurations keep the
        services that wait for a pid, the daemon knows the number of its sockets. */
    method Run(events: seq<Event>) returns (ghost trace: seq<State>)
      requires Sound(S(), maxservers) && forall n :: 0 <= n < |events| ==> EventOk(events[n])
      modifies `servtab, `allsock, `nsock, `maxsock, `nservers, `tick, `lost, `refused
      ensures Sound(S(), maxservers)
      ensures nservers == Count(Opened, servtab) <= maxservers
      ensures IsTrace(trace, events, maxservers) && trace[0] == old(S()) && trace[|events|] == S()
      ensures old(Undisturbed(S())) && (forall n :: 0 <= n < |events| ==> KeepsWaiting(trace[n], events[n])) ==>
        Undisturbed(S()) && nsock == |allsock| == nservers - Count(Pids, servtab)
      ensures Giving(old(servtab), env, old(tick)) ==> refused == old(refused)
    {
      hide Sound, Undisturbed, Reacted, EventOk, Fared;
      FaredSame(S(), S(), tick, env);
      trace := [S()];
      for n := 0 to |events|
        invariant Sound(S(), maxservers) && |trace| == n + 1 && trace[0] == old(S()) && trace[n] == S()
        invariant IsTrace(trace, events[..n], maxservers) && Fared(old(S()), old(tick), S(), tick, env)
      {
        ghost var s, t := S(), tick;
        React(events[n]);
        FaredTwice(old(S()), old(tick), s, t, S(), tick, env);
        TraceOn(trace, events, n, S(), maxservers);
        trace := trace + [S()];
      }
      assert events[..|events|] == events;
      SoundOpened(S(), maxservers);
      FaredIs(old(S()), old(tick), S(), tick, env);
      TraceCalm(trace, events, maxservers);
      if Undisturbed(S()) { UndisturbedCounts(S(), maxservers); }
    }
  }

  /** What the parser of the file hands over: se_wait is 0 or 1. */
  predicate EventOk(e: Event) {
    e.Reconfigure? ==> forall m :: 0 <= m < |e.lines| ==> e.lines[m].wait <= 1
  }

  /** No service that waits for a pid loses its socket by this event. */
  predicate KeepsWaiting(s: State, e: Event) { e.Reconfigure? ==> AllKept(s.tab, e.lines, e.serv) }

  /** What one event does to the daemon. */
  ghost predicate Reacted(s: State, e: Event, s': State, maxservers: nat) {
    && (Undisturbed(s) && KeepsWaiting(s, e) ==> Undisturbed(s'))
    && (Undisturbed(s) && !KeepsWaiting(s, e) ==> !Undisturbed(s') && s'.nsock != |s'.allsock|)
    && match e
       case Ready(i, outcome) =>
         if i < |s.tab| && s.tab[i].fd != -1 && s.tab[i].fd in s.allsock && outcome.Looping? then s' == Closing(s, i)
         else if i < |s.tab| && s.tab[i].fd != -1 && s.tab[i].fd in s.allsock && s.tab[i].wait != 0
                 && outcome.Served? && outcome.pid > 1 then s' == Lending(s, i, outcome.pid)
         else s' == s
       case Exited(pid) =>
         s'.maxsock == s.maxsock && s'.nservers == s.nservers && s'.lost == s.lost
         && |s'.tab| == |s.tab| && forall j :: 0 <= j < |s.tab| ==>
           s'.tab[j] == if pid > 1 && s.tab[j].wait == pid then s.tab[j].(wait := 1) else s.tab[j]
       case Reconfigure(lines, serv) =>
         && (forall key :: HasKey(s'.tab, key) <==> HasKey(lines, key)) && Carried(s.tab, s'.tab, lines, serv)
         && (s'.refused == s.refused ==>
               OpenKeys(s'.tab) == OpenAll(OpenKeys(s.tab), lines, serv, maxservers) * KeysOf(lines))
       case Alarm =>
         && (s'.refused == s.refused ==> s'.nservers == maxservers || NetOpen(s'.tab, |s'.tab|))
         && |s'.tab| == |s.tab| && forall j :: 0 <= j < |s.tab| ==>
           s'.tab[j] == s.tab[j].(fd := s'.tab[j].fd)
           && (s'.tab[j].fd != s.tab[j].fd ==> s.tab[j].fd == -1 && s'.tab[j].key.Net?)
  }

  /** When there is room for all services, and the system gives every socket, exactly those of the file are open
      after a configuration that are wanted; otherwise see AllOpenOrFull and DroppedTooLate. */
  lemma WantedAreOpen(s: State, lines: seq<Entry>, serv: Key -> Option<int>, s': State, maxservers: nat)
    requires Reacted(s, Reconfigure(lines, serv), s', maxservers) && s'.refused == s.refused
    requires DistinctKeys(s'.tab) && |OpenKeys(s.tab) + KeysOf(lines)| <= maxservers
    ensures forall i :: 0 <= i < |s'.tab| ==>
      (s'.tab[i].fd != -1 <==> Wanted(s'.tab[i].key, serv(s'.tab[i].key)))
  {
    hide Undisturbed, KeepsWaiting, Carried;
    RoomForAll(OpenKeys(s.tab), lines, serv, maxservers);
    hide OpenAll;
    forall i | 0 <= i < |s'.tab| ensures s'.tab[i].fd != -1 <==> Wanted(s'.tab[i].key, serv(s'.tab[i].key)) {
      ThatKey(s'.tab, i);
      InFile(lines, s'.tab[i].key);
      OpenAt(s'.tab, i);
    }
  }

  lemma OpenAt(tab: seq<Entry>, i: nat)
    requires DistinctKeys(tab) && i < |tab|
    ensures tab[i].key in OpenKeys(tab) <==> tab[i].fd != -1
  {
  }

  /** The states between the events. */
  ghost predicate IsTrace(trace: seq<State>, events: seq<Event>, maxservers: nat) {
    |trace| == |events| + 1 && forall n :: 0 <= n < |events| ==> Reacted(trace[n], events[n], trace[n + 1], maxservers)
  }

  lemma TraceOn(trace: seq<State>, events: seq<Event>, n: nat, s: State, maxservers: nat)
    requires n < |events| && IsTrace(trace, events[..n], maxservers) && Reacted(trace[n], events[n], s, maxservers)
    ensures IsTrace(trace + [s], events[..n + 1], maxservers)
  {
    hide Reacted;
    forall k | 0 <= k < n + 1 ensures Reacted((trace + [s])[k], events[..n + 1][k], (trace + [s])[k + 1], maxservers) {
      if k < n { assert events[..n][k] == events[k]; }
    }
  }

  lemma {:induction false} TraceCalm(trace: seq<State>, events: seq<Event>, maxservers: nat)
    requires IsTrace(trace, events, maxservers)
    ensures Undisturbed(trace[0]) && (forall n :: 0 <= n < |events| ==> KeepsWaiting(trace[n], events[n])) ==>
      Undisturbed(trace[|events|])
  {
    var k := |events|;
    if k > 0 {
      TraceCalm(trace[..k], events[..k - 1], maxservers);
      assert Reacted(trace[k - 1], events[k - 1], trace[k], maxservers);
      assert KeepsWaiting(trace[k - 1], events[k - 1]) ==> (Undisturbed(trace[k - 1]) ==> Undisturbed(trace[k]));
    }
  }

  /** Every service is a net service of this file, on its known port. */
  ghost predicate Configured(s: State, lines: seq<Entry>, serv: Key -> Option<int>) {
    forall i :: 0 <= i < |s.tab| ==>
      s.tab[i].key.Net? && HasKey(lines, s.tab[i].key) && serv(s.tab[i].key) == Some(s.tab[i].port)
  }

  /** A configuration reads this file, of net services with known ports. */
  ghost predicate SameFile(e: Event, lines: seq<Entry>, serv: Key -> Option<int>) {
    e.Reconfigure? ==>
      e.lines == lines && forall key :: HasKey(lines, key) ==> key.Net? && serv(key).Some? && e.serv(key) == serv(key)
  }

  /** When all configurations of a run read the same file, no service that waits ever loses its socket, and the
      daemon stays undisturbed. */
  lemma {:induction false} SteadyRun(trace: seq<State>, events: seq<Event>, lines: seq<Entry>, serv: Key -> Option<int>,
                                     maxservers: nat)
    requires IsTrace(trace, events, maxservers) && Configured(trace[0], lines, serv)
    requires forall n :: 0 <= n < |events| ==> SameFile(events[n], lines, serv)
    ensures Configured(trace[|events|], lines, serv)
    ensures forall n :: 0 <= n < |events| ==> KeepsWaiting(trace[n], events[n])
    ensures Undisturbed(trace[0]) ==> Undisturbed(trace[|events|])
  {
    hide Undisturbed, KeepsWaiting, SameFile, Configured;
    var k := |events|;
    if k > 0 {
      var init := trace[..k];
      assert IsTrace(init, events[..k - 1], maxservers) && init[0] == trace[0] && init[k - 1] == trace[k - 1];
      SteadyRun(init, events[..k - 1], lines, serv, maxservers);
      assert Reacted(trace[k - 1], events[k - 1], trace[k - 1 + 1], maxservers);
      SteadyStep(trace[k - 1], events[k - 1], trace[k], lines, serv, maxservers);
      forall n | 0 <= n < k ensures KeepsWaiting(trace[n], events[n]) {
        if n < k - 1 { assert init[n] == trace[n] && events[..k - 1][n] == events[n]; }
      }
    }
  }

  lemma SteadyStep(s: State, e: Event, s': State, lines: seq<Entry>, serv: Key -> Option<int>, maxservers: nat)
    requires Reacted(s, e, s', maxservers) && Configured(s, lines, serv) && SameFile(e, lines, serv)
    ensures Configured(s', lines, serv) && KeepsWaiting(s, e)
    ensures Undisturbed(s) ==> Undisturbed(s')
  {
    hide Undisturbed, HasKey;
    if e.Reconfigure? {
      forall i | 0 <= i < |s'.tab| ensures HasKey(s'.tab, s'.tab[i].key) {
        ThatKey(s'.tab, i);
      }
    }
  }

  /** A service whose daemon is running, with the only socket. */
  function Ftp(wait: int, port: int): Entry { Entry(Net("ftp", "tcp"), wait, false, port, 3, true) }

  function FtpRuns(port: int): State { State([Ftp(100, port)], {}, 0, 3, 1, 0, 0) }

  lemma FtpSound(port: int)
    ensures Sound(FtpRuns(port), 2) && Undisturbed(FtpRuns(port))
  {
    var s := FtpRuns(port);
    assert s.tab[1..] == [];
  }

  /** The file is read again after the port of ftp has changed: config() closes a socket that is not polled,
      and nsock is not the number of polled sockets any more. */
  lemma PortChanged(s: State, t: State, port: int, port': int)
    requires s == FtpRuns(port) && t == FtpRuns(port') && port != port'
    ensures Sound(s, 2) && Undisturbed(s) && !AllKept(s.tab, [Ftp(1, port)], _ => Some(port'))
    ensures var u := Closing(t, 0); Sound(u, 2) && u.nsock == -1 && |u.allsock| == 0
  {
    FtpSound(port);
    FtpSound(port');
    hide Sound, Undisturbed;
    ClosingSound(t, 2, 0);
    assert s.tab[0].wait > 1 && !Keeps(s.tab[0], Some(port'));
  }

  lemma SoundOpened(s: State, maxservers: nat)
    requires Sound(s, maxservers)
    ensures s.nservers == Count(Opened, s.tab) <= maxservers
  {
  }

  predicate HasKey(tab: seq<Entry>, key: Key) { exists i :: 0 <= i < |tab| && tab[i].key == key }

  /** Every service that waits for a pid is in the file, is no RPC service, and has the port it had. */
  predicate AllKept(tab: seq<Entry>, lines: seq<Entry>, serv: Key -> Option<int>) {
    forall i :: 0 <= i < |tab| && tab[i].wait > 1 ==> HasKey(lines, tab[i].key) && Keeps(tab[i], serv(tab[i].key))
  }

  lemma PurgingIs(s: State, i: nat)
    requires i < |s.tab|
    ensures Purging(s, i) == s.(tab := s.tab[..i] + s.tab[i + 1..], lost := s.lost + if s.tab[i].wait > 1 then 1 else 0)
  {
  }

  lemma SoundKeys(s: State, maxservers: nat)
    requires Sound(s, maxservers)
    ensures DistinctKeys(s.tab)
  {
  }

  /** What the lines `done` of the file have made of the unmarked table s0. */
  ghost predicate Progress(s0: State, s: State, done: seq<Entry>, serv: Key -> Option<int>) {
    var a := |s.tab| - |s0.tab|;
    && a >= 0 && (-1 in s.allsock <==> -1 in s0.allsock)
    && (forall i :: a <= i < |s.tab| ==> Follows(s0, s, i, done, serv))
    && (forall j :: 0 <= j < a ==>
      s.tab[j].checked && HasKey(done, s.tab[j].key) && !Is(Lent(s.allsock), s.tab[j]))
    && (forall key :: HasKey(done, key) ==> HasKey(s.tab, key))
    && Slack(s) >= Slack(s0)
    && (Slack(s) == Slack(s0) <==> forall j :: 0 <= j < |s0.tab| ==> !Robbed(s0, j, done, serv))
  }

  /** Entry i, which was in s0, is marked if the file names it, and has its socket lent out still if the file
      lets it. */
  ghost predicate Follows(s0: State, s: State, i: nat, done: seq<Entry>, serv: Key -> Option<int>)
    requires |s.tab| - |s0.tab| <= i < |s.tab|
  {
    var j := i - (|s.tab| - |s0.tab|);
    var e0, e := s0.tab[j], s.tab[i];
    && e.key == e0.key && (e.checked <==> HasKey(done, e.key))
    && (Is(Lent(s.allsock), e) <==> Is(Lent(s0.allsock), e0) && !Robbed(s0, j, done, serv))
    && (Is(Lent(s.allsock), e) ==> e.port == e0.port)
  }

  /** The lines have closed a socket that entry j had lent out. */
  ghost predicate Robbed(s0: State, j: nat, done: seq<Entry>, serv: Key -> Option<int>)
    requires j < |s0.tab|
  {
    Is(Lent(s0.allsock), s0.tab[j]) && HasKey(done, s0.tab[j].key) && !Keeps(s0.tab[j], serv(s0.tab[j].key))
  }

  /** A service keeps the socket that it has lent out in config() if it is no RPC service and its port is
      still the same. */
  predicate Keeps(e: Entry, port: Option<int>) { e.key.Net? && port == Some(e.port) }

  lemma Start(s0: State, none: seq<Entry>, serv: Key -> Option<int>)
    requires none == [] && forall j :: 0 <= j < |s0.tab| ==> !s0.tab[j].checked
    ensures Progress(s0, s0, none, serv) && Traced(s0, s0, none, serv)
  {
  }

  /** What a configuration keeps of the services, and what it sets: who waits for a pid did so before, who did and
      is named still does, and the ports are those that the services are known for. */
  ghost predicate Carried(tab: seq<Entry>, tab': seq<Entry>, lines: seq<Entry>, serv: Key -> Option<int>) {
    && (forall i :: 0 <= i < |tab'| && tab'[i].wait > 1 ==> SameWait(tab, tab'[i]))
    && (forall j :: 0 <= j < |tab| && tab[j].wait > 1 && HasKey(lines, tab[j].key) ==> SameWait(tab', tab[j]))
    && forall i :: 0 <= i < |tab'| ==> PortSet(tab'[i], serv(tab'[i].key))
  }

  /** A service of the table has the same key, and waits for the same pid. */
  ghost predicate SameWait(tab: seq<Entry>, e: Entry) {
    exists j :: 0 <= j < |tab| && tab[j].key == e.key && tab[j].wait == e.wait
  }

  /** The entries after the lines `done`, seen from the unmarked table s0: new ones in front, and behind them the
      old ones, which wait for the same pids; those named have their ports. */
  ghost predicate Traced(s0: State, s: State, done: seq<Entry>, serv: Key -> Option<int>) {
    var a := |s.tab| - |s0.tab|;
    && a >= 0
    && (forall i :: 0 <= i < a ==> s.tab[i].wait <= 1 && PortSet(s.tab[i], serv(s.tab[i].key)))
    && forall i :: a <= i < |s.tab| ==> Tracks(s0.tab[i - a], s.tab[i], done, serv)
  }

  predicate Tracks(e0: Entry, e: Entry, done: seq<Entry>, serv: Key -> Option<int>) {
    && e.key == e0.key && (e0.wait > 1 || e.wait > 1 ==> e.wait == e0.wait)
    && (HasKey(done, e.key) ==> PortSet(e, serv(e.key)))
  }

  lemma TracedStep(s0: State, s: State, s': State, lines: seq<Entry>, n: nat, i: nat, serv: Key -> Option<int>)
    requires n < |lines| && Traced(s0, s, lines[..n], serv) && DistinctKeys(s.tab)
    requires LineDone(s, s', lines[n].key, i, serv(lines[n].key))
    ensures Traced(s0, s', lines[..n + 1], serv)
  {
    var key := lines[n].key;
    forall k ensures HasKey(lines[..n + 1], k) <==> HasKey(lines[..n], k) || k == key {
      OneMoreKey(lines, n, k);
    }
    hide Slack;
    if Find(s.tab, key) < |s.tab| {
      TracedFound(s0, s, s', lines[..n], lines[..n + 1], key, i, serv);
    } else {
      TracedNew(s0, s, s', lines[..n], lines[..n + 1], key, serv);
    }
  }

  lemma TracedFound(s0: State, s: State, s': State, done: seq<Entry>, done': seq<Entry>, key: Key, i: nat,
                    serv: Key -> Option<int>)
    requires Traced(s0, s, done, serv) && DistinctKeys(s.tab)
    requires LineDone(s, s', key, i, serv(key)) && Find(s.tab, key) == i < |s.tab|
    requires forall k :: HasKey(done', k) <==> HasKey(done, k) || k == key
    ensures Traced(s0, s', done', serv)
  {
    hide Slack, HasKey, PortSet, Is;
    var a := |s.tab| - |s0.tab|;
    forall m | a <= m < |s'.tab| ensures Tracks(s0.tab[m - a], s'.tab[m], done', serv) {
      assert Tracks(s0.tab[m - a], s.tab[m], done, serv);
      if m != i { assert s.tab[m].key != key && s'.tab[m] == s.tab[m]; }
    }
  }

  lemma TracedNew(s0: State, s: State, s': State, done: seq<Entry>, done': seq<Entry>, key: Key,
                  serv: Key -> Option<int>)
    requires Traced(s0, s, done, serv) && LineDone(s, s', key, 0, serv(key)) && Find(s.tab, key) == |s.tab|
    requires forall k :: HasKey(done', k) <==> HasKey(done, k) || k == key
    ensures Traced(s0, s', done', serv)
  {
    hide Slack, HasKey, PortSet, Is;
    var a := |s.tab| - |s0.tab|;
    forall m | a + 1 <= m < |s'.tab| ensures Tracks(s0.tab[m - (a + 1)], s'.tab[m], done', serv) {
      assert Tracks(s0.tab[m - 1 - a], s.tab[m - 1], done, serv) && s'.tab[(m - 1) + 1] == s.tab[m - 1];
      assert s.tab[m - 1].key != key;
    }
    forall m | 0 <= m < a + 1 ensures s'.tab[m].wait <= 1 && PortSet(s'.tab[m], serv(s'.tab[m].key)) {
      if m > 0 { assert s'.tab[(m - 1) + 1] == s.tab[m - 1]; }
    }
  }

  /** What is open after the lines `done`, unless the system has refused a socket. */
  ghost predicate OpenedBy(s0: State, s: State, done: seq<Entry>, serv: Key -> Option<int>, maxservers: nat) {
    && s.refused >= s0.refused
    && (s.refused == s0.refused ==> OpenKeys(s.tab) == OpenAll(OpenKeys(s0.tab), done, serv, maxservers))
  }

  lemma OpenedFirst(s0: State, lines: seq<Entry>, serv: Key -> Option<int>, maxservers: nat)
    ensures OpenedBy(s0, s0, lines[..0], serv, maxservers)
  {
  }

  lemma OpenedNext(s0: State, s: State, s': State, lines: seq<Entry>, n: nat, serv: Key -> Option<int>, maxservers: nat)
    requires n < |lines| && OpenedBy(s0, s, lines[..n], serv, maxservers)
    requires Opens(s, s', lines[n].key, Wanted(lines[n].key, serv(lines[n].key)), maxservers)
    ensures OpenedBy(s0, s', lines[..n + 1], serv, maxservers)
  {
    hide OpenKeys, OpenAfter;
    assert lines[..n + 1][..n] == lines[..n];
  }

  lemma UncheckedOpens(s: State, s': State, tick: nat, env: nat -> int)
    requires |s'.tab| == |s.tab| && forall j :: 0 <= j < |s.tab| ==> s'.tab[j] == s.tab[j].(checked := false)
    requires s'.refused == s.refused
    ensures OpenKeys(s'.tab) == OpenKeys(s.tab) && Fared(s, tick, s', tick, env)
  {
    forall fd | fd >= 0 && HasFd(s'.tab, fd) ensures HasFd(s.tab, fd) {
      var j :| 0 <= j < |s'.tab| && s'.tab[j].fd == fd;
      assert s.tab[j].fd == fd;
    }
    FaredSame(s, s', tick, env);
    forall k ensures k in OpenKeys(s'.tab) <==> k in OpenKeys(s.tab) {
      if k in OpenKeys(s'.tab) {
        var j :| 0 <= j < |s'.tab| && s'.tab[j].fd != -1 && s'.tab[j].key == k;
        assert s.tab[j].fd != -1 && s.tab[j].key == k;
      }
      if k in OpenKeys(s.tab) {
        var j :| 0 <= j < |s.tab| && s.tab[j].fd != -1 && s.tab[j].key == k;
        assert s'.tab[j].fd != -1 && s'.tab[j].key == k;
      }
    }
  }

  /** What is not in the file is not open after the purge, and the rest is as it was. */
  lemma PurgedOpens(s0: State, s1: State, s': State, lines: seq<Entry>, serv: Key -> Option<int>, tick: nat,
                    env: nat -> int)
    requires Progress(s0, s1, lines, serv) && PurgeDone(s1, s', |s'.tab|, |s1.tab|) && s'.refused == s1.refused
    ensures OpenKeys(s'.tab) == OpenKeys(s1.tab) * KeysOf(lines) && Fared(s1, tick, s', tick, env)
  {
    assert s'.tab[..|s'.tab|] == s'.tab && s1.tab[..|s1.tab|] == s1.tab;
    CheckedInFile(s0, s1, lines, serv);
    NamedAre(s1.tab);
    hide Progress, PurgeDone, Named, HasKey;
    forall fd | fd >= 0 && HasFd(s'.tab, fd) ensures HasFd(s1.tab, fd) {
      var j :| 0 <= j < |s'.tab| && s'.tab[j].fd == fd;
      assert s'.tab[j] in Named(s1.tab);
    }
    FaredSame(s1, s', tick, env);
    forall k ensures k in OpenKeys(s'.tab) <==> k in OpenKeys(s1.tab) && k in KeysOf(lines) {
      InFile(lines, k);
      if k in OpenKeys(s'.tab) {
        var j :| 0 <= j < |s'.tab| && s'.tab[j].fd != -1 && s'.tab[j].key == k;
        assert s'.tab[j] in Named(s1.tab);
      }
      if k in OpenKeys(s1.tab) && k in KeysOf(lines) {
        var j :| 0 <= j < |s1.tab| && s1.tab[j].fd != -1 && s1.tab[j].key == k;
        assert s1.tab[j] in Named(s1.tab);
      }
    }
  }

  lemma InFile(lines: seq<Entry>, k: Key)
    ensures k in KeysOf(lines) <==> HasKey(lines, k)
  {
  }

  lemma CheckedInFile(s0: State, s1: State, lines: seq<Entry>, serv: Key -> Option<int>)
    requires Progress(s0, s1, lines, serv)
    ensures forall m :: 0 <= m < |s1.tab| ==> (s1.tab[m].checked <==> HasKey(lines, s1.tab[m].key))
  {
    MarkedOld(s0, s1, lines, serv);
    hide Slack, HasKey, Is, Follows;
  }

  lemma CarriedOver(before: State, s0: State, s1: State, s': State, lines: seq<Entry>, serv: Key -> Option<int>)
    requires |s0.tab| == |before.tab| && forall j :: 0 <= j < |s0.tab| ==> s0.tab[j] == before.tab[j].(checked := false)
    requires Progress(s0, s1, lines, serv) && Traced(s0, s1, lines, serv) && PurgeDone(s1, s', |s'.tab|, |s1.tab|)
    ensures Carried(before.tab, s'.tab, lines, serv)
  {
    assert s'.tab[..|s'.tab|] == s'.tab && s1.tab[..|s1.tab|] == s1.tab;
    MarkedOld(s0, s1, lines, serv);
    hide Slack, Progress, PurgeDone, HasKey, PortSet, Is, Named, SameWait, Traced;
    forall i | 0 <= i < |s'.tab|
      ensures PortSet(s'.tab[i], serv(s'.tab[i].key)) && (s'.tab[i].wait > 1 ==> SameWait(before.tab, s'.tab[i]))
    {
      CarriedFrom(before, s0, s1, s', lines, serv, i);
    }
    forall j | 0 <= j < |before.tab| && before.tab[j].wait > 1 && HasKey(lines, before.tab[j].key)
      ensures SameWait(s'.tab, before.tab[j])
    {
      CarriedTo(before, s0, s1, s', lines, serv, j);
    }
  }

  /** Where an entry comes from that is there after the purge. */
  lemma CarriedFrom(before: State, s0: State, s1: State, s': State, lines: seq<Entry>, serv: Key -> Option<int>, i: nat)
    requires |s0.tab| == |before.tab| && forall j :: 0 <= j < |s0.tab| ==> s0.tab[j] == before.tab[j].(checked := false)
    requires Traced(s0, s1, lines, serv) && s'.tab == Named(s1.tab) && i < |s'.tab|
    requires forall m :: 0 <= m < |s1.tab| && s1.tab[m].checked ==> HasKey(lines, s1.tab[m].key)
    ensures PortSet(s'.tab[i], serv(s'.tab[i].key)) && (s'.tab[i].wait > 1 ==> SameWait(before.tab, s'.tab[i]))
  {
    NamedAre(s1.tab);
    hide HasKey, PortSet, Named;
    var a := |s1.tab| - |s0.tab|;
    assert s'.tab[i] in Named(s1.tab);
    var m :| 0 <= m < |s1.tab| && s1.tab[m] == s'.tab[i] && s1.tab[m].checked;
    if m >= a {
      assert Tracks(s0.tab[m - a], s1.tab[m], lines, serv);
      assert before.tab[m - a].key == s1.tab[m].key;
    }
  }

  /** A service that waits and is named goes through the purge. */
  lemma CarriedTo(before: State, s0: State, s1: State, s': State, lines: seq<Entry>, serv: Key -> Option<int>, j: nat)
    requires |s0.tab| == |before.tab| && forall j :: 0 <= j < |s0.tab| ==> s0.tab[j] == before.tab[j].(checked := false)
    requires Traced(s0, s1, lines, serv) && s'.tab == Named(s1.tab)
    requires forall m :: |s1.tab| - |s0.tab| <= m < |s1.tab| ==> (s1.tab[m].checked <==> HasKey(lines, s1.tab[m].key))
    requires j < |before.tab| && before.tab[j].wait > 1 && HasKey(lines, before.tab[j].key)
    ensures SameWait(s'.tab, before.tab[j])
  {
    NamedAre(s1.tab);
    hide HasKey, PortSet, Named;
    var m := |s1.tab| - |s0.tab| + j;
    assert Tracks(s0.tab[j], s1.tab[m], lines, serv) && s1.tab[m].checked;
    assert s1.tab[m] in Named(s1.tab);
    var i :| 0 <= i < |s'.tab| && s'.tab[i] == s1.tab[m];
  }

  /** Exactly the entries that the file names are marked. */
  lemma MarkedOld(s0: State, s1: State, lines: seq<Entry>, serv: Key -> Option<int>)
    requires Progress(s0, s1, lines, serv)
    ensures var a := |s1.tab| - |s0.tab|;
      a >= 0 && forall m :: a <= m < |s1.tab| ==> (s1.tab[m].checked <==> HasKey(lines, s1.tab[m].key))
    ensures forall m :: 0 <= m < |s1.tab| && s1.tab[m].checked ==> HasKey(lines, s1.tab[m].key)
  {
    hide Slack, HasKey, Is;
    var a := |s1.tab| - |s0.tab|;
    forall m | a <= m < |s1.tab| ensures s1.tab[m].checked <==> HasKey(lines, s1.tab[m].key) {
      assert Follows(s0, s1, m, lines, serv);
    }
  }

  lemma {:induction false} NamedAre(tab: seq<Entry>)
    ensures forall e :: e in Named(tab) <==> exists m :: 0 <= m < |tab| && tab[m] == e && tab[m].checked
  {
    if tab != [] {
      var n := |tab| - 1;
      NamedAre(tab[..n]);
      forall e ensures e in Named(tab) <==> exists m :: 0 <= m < |tab| && tab[m] == e && tab[m].checked {
        NamedOne(tab, n, e);
      }
    }
  }

  lemma NamedOne(tab: seq<Entry>, n: nat, e: Entry)
    requires n + 1 == |tab|
    requires e in Named(tab[..n]) <==> exists m :: 0 <= m < n && tab[..n][m] == e && tab[..n][m].checked
    ensures e in Named(tab) <==> exists m :: 0 <= m < |tab| && tab[m] == e && tab[m].checked
  {
    if m :| 0 <= m < n && tab[..n][m] == e && tab[..n][m].checked {
      assert tab[m] == e && tab[m].checked;
    }
    if m :| 0 <= m < n && tab[m] == e && tab[m].checked {
      assert tab[..n][m] == e && tab[..n][m].checked;
    }
  }

  lemma OneMoreKey(lines: seq<Entry>, n: nat, key: Key)
    requires n < |lines|
    ensures HasKey(lines[..n + 1], key) <==> HasKey(lines[..n], key) || key == lines[n].key
  {
    var l, l' := lines[..n], lines[..n + 1];
    if HasKey(l, key) {
      var i :| 0 <= i < |l| && l[i].key == key;
      assert l'[i].key == key;
    }
    if key == lines[n].key { assert l'[n].key == key; }
    if HasKey(l', key) {
      var i :| 0 <= i < |l'| && l'[i].key == key;
      if i < n { assert l[i].key == key; }
    }
  }

  lemma ProgressStep(s0: State, s: State, s': State, lines: seq<Entry>, n: nat, i: nat, serv: Key -> Option<int>)
    requires n < |lines| && Progress(s0, s, lines[..n], serv) && DistinctKeys(s.tab)
    requires LineDone(s, s', lines[n].key, i, serv(lines[n].key))
    ensures Progress(s0, s', lines[..n + 1], serv)
  {
    var key := lines[n].key;
    forall k ensures HasKey(lines[..n + 1], k) <==> HasKey(lines[..n], k) || k == key {
      OneMoreKey(lines, n, k);
    }
    hide Slack;
    if Find(s.tab, key) < |s.tab| {
      StepFound(s0, s, s', lines[..n], lines[..n + 1], key, i, serv);
    } else {
      StepNew(s0, s, s', lines[..n], lines[..n + 1], key, serv);
    }
  }

  lemma StepNew(s0: State, s: State, s': State, done: seq<Entry>, done': seq<Entry>, key: Key, serv: Key -> Option<int>)
    requires Progress(s0, s, done, serv) && LineDone(s, s', key, 0, serv(key)) && Find(s.tab, key) == |s.tab|
    requires forall k :: HasKey(done', k) <==> HasKey(done, k) || k == key
    ensures Progress(s0, s', done', serv)
  {
    hide Slack, HasKey, Keeps;
    var a := |s.tab| - |s0.tab|;
    forall j | 0 <= j < |s0.tab| ensures Robbed(s0, j, done', serv) <==> Robbed(s0, j, done, serv) {
      assert Follows(s0, s, a + j, done, serv) && s.tab[a + j].key != key;
    }
    forall i | a + 1 <= i < |s'.tab| ensures Follows(s0, s', i, done', serv) {
      assert Follows(s0, s, i - 1, done, serv) && s.tab[i - 1].key != key;
      assert s'.tab[(i - 1) + 1] == s.tab[i - 1];
    }
    forall j | 0 <= j < a + 1
      ensures s'.tab[j].checked && HasKey(done', s'.tab[j].key) && !Is(Lent(s'.allsock), s'.tab[j])
    {
      if j > 0 { assert s'.tab[(j - 1) + 1] == s.tab[j - 1]; }
    }
    forall k | HasKey(done', k) ensures HasKey(s'.tab, k) {
      KeyInTail(s.tab, s'.tab, k, key);
    }
  }

  lemma KeyInTail(tab: seq<Entry>, tab': seq<Entry>, k: Key, key: Key)
    requires |tab'| == |tab| + 1 && tab'[0].key == key && forall j :: 0 <= j < |tab| ==> tab'[j + 1] == tab[j]
    ensures HasKey(tab, k) || k == key ==> HasKey(tab', k)
  {
    if HasKey(tab, k) {
      var i :| 0 <= i < |tab| && tab[i].key == k;
      assert tab'[i + 1].key == k;
    }
  }

  lemma SameKeys(tab: seq<Entry>, tab': seq<Entry>, k: Key)
    requires |tab'| == |tab| && forall j :: 0 <= j < |tab| ==> tab'[j].key == tab[j].key
    ensures HasKey(tab, k) <==> HasKey(tab', k)
  {
    if HasKey(tab, k) {
      var i :| 0 <= i < |tab| && tab[i].key == k;
      assert tab'[i].key == k;
    }
  }

  lemma StepFound(s0: State, s: State, s': State, done: seq<Entry>, done': seq<Entry>, key: Key, i: nat,
                  serv: Key -> Option<int>)
    requires Progress(s0, s, done, serv) && DistinctKeys(s.tab)
    requires LineDone(s, s', key, i, serv(key)) && Find(s.tab, key) == i < |s.tab|
    requires forall k :: HasKey(done', k) <==> HasKey(done, k) || k == key
    ensures Progress(s0, s', done', serv)
  {
    hide Slack, HasKey;
    var a := |s.tab| - |s0.tab|;
    forall j | 0 <= j < |s0.tab|
      ensures Robbed(s0, j, done', serv) <==>
        Robbed(s0, j, done, serv) || (a + j == i && Is(Lent(s.allsock), s.tab[i]) && !Keeps(s.tab[i], serv(key)))
    {
      assert Follows(s0, s, a + j, done, serv);
      if a + j != i { assert s.tab[a + j].key != key; }
    }
    forall m | a <= m < |s'.tab| ensures Follows(s0, s', m, done', serv) {
      assert Follows(s0, s, m, done, serv);
      if m != i { assert s.tab[m].key != key && s'.tab[m] == s.tab[m]; }
    }
    forall j | 0 <= j < a
      ensures s'.tab[j].checked && HasKey(done', s'.tab[j].key) && !Is(Lent(s'.allsock), s'.tab[j])
    {
      if j != i { assert s'.tab[j] == s.tab[j]; }
    }
    forall j | 0 <= j < |s.tab| ensures s'.tab[j].key == s.tab[j].key {
      if j != i { assert s'.tab[j] == s.tab[j]; }
    }
    forall k | HasKey(done', k) ensures HasKey(s'.tab, k) {
      if k == key { ThatKey(s'.tab, i); } else { SameKeys(s.tab, s'.tab, k); }
    }
    if i >= a {
      assert Robbed(s0, i - a, done', serv) <==>
        Robbed(s0, i - a, done, serv) || (Is(Lent(s.allsock), s.tab[i]) && !Keeps(s.tab[i], serv(key)));
    }
  }

  lemma ThatKey(tab: seq<Entry>, i: nat)
    requires i < |tab|
    ensures HasKey(tab, tab[i].key)
  {
  }

  /** The marked entries. */
  function Named(tab: seq<Entry>): seq<Entry> {
    if tab == [] then []
    else Named(tab[..|tab| - 1]) + if tab[|tab| - 1].checked then [tab[|tab| - 1]] else []
  }

  lemma {:induction false} NamedKeys(tab: seq<Entry>, key: Key)
    ensures HasKey(Named(tab), key) <==> exists i :: 0 <= i < |tab| && tab[i].checked && tab[i].key == key
  {
    if tab != [] {
      var n := |tab| - 1;
      NamedKeys(tab[..n], key);
      var l := if tab[n].checked then [tab[n]] else [];
      HasKeyConcat(Named(tab[..n]), l, key);
      if i: nat :| i < n && tab[..n][i].checked && tab[..n][i].key == key {
        assert tab[i].checked && tab[i].key == key;
      }
      if i: nat :| i < n && tab[i].checked && tab[i].key == key {
        assert tab[..n][i].checked && tab[..n][i].key == key;
      }
      assert HasKey(l, key) <==> tab[n].checked && tab[n].key == key by {
        if tab[n].checked { assert l[0] == tab[n]; }
      }
    }
  }

  lemma HasKeyConcat(s: seq<Entry>, t: seq<Entry>, key: Key)
    ensures HasKey(s + t, key) <==> HasKey(s, key) || HasKey(t, key)
  {
    if HasKey(s, key) {
      var i :| 0 <= i < |s| && s[i].key == key;
      assert (s + t)[i].key == key;
    }
    if HasKey(t, key) {
      var i :| 0 <= i < |t| && t[i].key == key;
      assert (s + t)[|s| + i].key == key;
    }
  }

  /** The purging loop stands at entry i, which was entry k of s1. */
  ghost predicate PurgeDone(s1: State, s: State, i: nat, k: nat) {
    && i <= |s.tab| && k <= |s1.tab| && |s.tab| - i == |s1.tab| - k && (-1 in s.allsock <==> -1 in s1.allsock)
    && s.tab[..i] == Named(s1.tab[..k])
    && (forall j :: k <= j < |s1.tab| ==>
      s.tab[i + j - k] == s1.tab[j] && (Is(Lent(s.allsock), s1.tab[j]) <==> Is(Lent(s1.allsock), s1.tab[j])))
    && Slack(s) >= Slack(s1)
    && (Slack(s) == Slack(s1) <==> forall m :: 0 <= m < k ==> s1.tab[m].checked || !Is(Lent(s1.allsock), s1.tab[m]))
  }

  lemma PurgeStart(s1: State)
    ensures PurgeDone(s1, s1, 0, 0)
  {
  }

  lemma NamedNext(tab: seq<Entry>, k: nat)
    requires k < |tab|
    ensures Named(tab[..k + 1]) == Named(tab[..k]) + if tab[k].checked then [tab[k]] else []
  {
    assert tab[..k + 1][..k] == tab[..k];
  }

  lemma PurgeKeep(s1: State, s: State, i: nat, k: nat)
    requires PurgeDone(s1, s, i, k) && i < |s.tab| && s.tab[i].checked
    ensures PurgeDone(s1, s, i + 1, k + 1)
  {
    hide Slack, Named;
    NamedNext(s1.tab, k);
    assert s.tab[i + k - k] == s1.tab[k];
    assert s.tab[..i + 1] == s.tab[..i] + [s.tab[i]];
  }

  lemma ClosedOthers(s: State, maxservers: nat, i: nat)
    requires Sound(s, maxservers) && i < |s.tab|
    ensures var t := Closed(s, i);
      |t.tab| == |s.tab| && t.tab[i].fd == -1 && (-1 in t.allsock <==> -1 in s.allsock)
      && forall j :: 0 <= j < |s.tab| && j != i ==>
        t.tab[j] == s.tab[j] && (Is(Lent(t.allsock), s.tab[j]) <==> Is(Lent(s.allsock), s.tab[j]))
  {
  }

  lemma ClosedSlack(s: State, maxservers: nat, i: nat)
    requires Sound(s, maxservers) && i < |s.tab|
    ensures Closed(s, i).tab[i].fd == -1
    ensures Slack(Purging(Closed(s, i), i)) == Slack(s) + if Is(Lent(s.allsock), s.tab[i]) then 1 else 0
  {
    hide Sound, Slack, Purging;
    if s.tab[i].fd != -1 { ClosingSound(s, maxservers, i); }
    PurgingSound(Closed(s, i), maxservers, i);
  }

  lemma PurgingOthers(t: State, i: nat)
    requires i < |t.tab|
    ensures var u := Purging(t, i);
      |u.tab| == |t.tab| - 1 && u.tab[..i] == t.tab[..i] && u.allsock == t.allsock
      && forall j :: i <= j < |u.tab| ==> u.tab[j] == t.tab[j + 1]
  {
  }

  lemma PurgeClosed(s1: State, s: State, i: nat, k: nat, maxservers: nat)
    requires PurgeDone(s1, s, i, k) && Sound(s, maxservers) && i < |s.tab| && !s.tab[i].checked
    ensures PurgeDone(s1, Purging(Closed(s, i), i), i, k + 1)
  {
    var t := Closed(s, i);
    ClosedOthers(s, maxservers, i);
    ClosedSlack(s, maxservers, i);
    PurgingOthers(t, i);
    NamedNext(s1.tab, k);
    hide Slack, Named, Closed, Purging, Sound;
    assert s.tab[i + k - k] == s1.tab[k];
    var u := Purging(t, i);
    assert t.tab[..i] == s.tab[..i];
    forall j | k + 1 <= j < |s1.tab|
      ensures u.tab[i + j - (k + 1)] == s1.tab[j]
      ensures (Is(Lent(u.allsock), s1.tab[j]) <==> Is(Lent(s1.allsock), s1.tab[j]))
    {
      assert s.tab[i + j - k] == s1.tab[j];
      assert u.tab[i + j - (k + 1)] == t.tab[i + j - k] == s.tab[i + j - k];
    }
  }

  lemma Purged(before: State, s0: State, s1: State, s': State, lines: seq<Entry>, serv: Key -> Option<int>,
               maxservers: nat)
    requires Sound(before, maxservers) && Sound(s0, maxservers) && Sound(s', maxservers)
    requires |s0.tab| == |before.tab| && s0.allsock == before.allsock && Slack(s0) == Slack(before)
    requires forall j :: 0 <= j < |s0.tab| ==> s0.tab[j] == before.tab[j].(checked := false)
    requires Progress(s0, s1, lines, serv) && PurgeDone(s1, s', |s'.tab|, |s1.tab|)
    ensures forall key :: HasKey(s'.tab, key) <==> HasKey(lines, key)
    ensures Undisturbed(before) ==>
      (Undisturbed(s') <==> AllKept(before.tab, lines, serv))
        && (s'.nsock == |s'.allsock| <==> AllKept(before.tab, lines, serv))
  {
    assert s'.tab[..|s'.tab|] == s'.tab && s1.tab[..|s1.tab|] == s1.tab;
    forall key ensures HasKey(s'.tab, key) <==> HasKey(lines, key) {
      NamedKeys(s1.tab, key);
      MarkedKeys(s0, s1, lines, serv, key);
    }
    if Undisturbed(before) {
      UndisturbedSlack(before);
      SlackIs(s', maxservers);
      UndisturbedIff(s', maxservers);
      KeptSlack(s0, s1, s', lines, serv);
      KeptUnmarked(before, s0, lines, serv);
    }
  }

  lemma MarkedKeys(s0: State, s1: State, lines: seq<Entry>, serv: Key -> Option<int>, key: Key)
    requires Progress(s0, s1, lines, serv)
    ensures HasKey(lines, key) <==> exists i :: 0 <= i < |s1.tab| && s1.tab[i].checked && s1.tab[i].key == key
  {
    hide Slack, Keeps;
    var a := |s1.tab| - |s0.tab|;
    forall i | 0 <= i < |s1.tab| ensures s1.tab[i].checked <==> HasKey(lines, s1.tab[i].key) {
      if i >= a { assert Follows(s0, s1, i, lines, serv); }
    }
    if HasKey(lines, key) {
      assert HasKey(s1.tab, key);
      var i :| 0 <= i < |s1.tab| && s1.tab[i].key == key;
      assert s1.tab[i].checked;
    }
  }

  /** No socket that was lent out has been closed. */
  ghost predicate NoneRobbed(s0: State, lines: seq<Entry>, serv: Key -> Option<int>) {
    forall j :: 0 <= j < |s0.tab| && Is(Lent(s0.allsock), s0.tab[j]) ==>
      HasKey(lines, s0.tab[j].key) && Keeps(s0.tab[j], serv(s0.tab[j].key))
  }

  lemma KeptSlack(s0: State, s1: State, s': State, lines: seq<Entry>, serv: Key -> Option<int>)
    requires Progress(s0, s1, lines, serv) && PurgeDone(s1, s', |s'.tab|, |s1.tab|)
    ensures Slack(s') == Slack(s0) <==> NoneRobbed(s0, lines, serv)
    ensures -1 in s'.allsock <==> -1 in s0.allsock
  {
    hide Slack, HasKey, Keeps, Named;
    var a := |s1.tab| - |s0.tab|;
    if NoneRobbed(s0, lines, serv) {
      forall m | 0 <= m < |s1.tab| ensures s1.tab[m].checked || !Is(Lent(s1.allsock), s1.tab[m]) {
        if m >= a { assert Follows(s0, s1, m, lines, serv); }
      }
    } else {
      var j :| 0 <= j < |s0.tab| && Is(Lent(s0.allsock), s0.tab[j])
        && !(HasKey(lines, s0.tab[j].key) && Keeps(s0.tab[j], serv(s0.tab[j].key)));
      assert Follows(s0, s1, a + j, lines, serv);
      if !Robbed(s0, j, lines, serv) { assert !s1.tab[a + j].checked && Is(Lent(s1.allsock), s1.tab[a + j]); }
    }
  }

  lemma KeptUnmarked(before: State, s0: State, lines: seq<Entry>, serv: Key -> Option<int>)
    requires Undisturbed(before) && |s0.tab| == |before.tab| && s0.allsock == before.allsock
    requires forall j :: 0 <= j < |s0.tab| ==> s0.tab[j] == before.tab[j].(checked := false)
    ensures NoneRobbed(s0, lines, serv) <==> AllKept(before.tab, lines, serv)
  {
    hide HasKey;
    forall j | 0 <= j < |s0.tab|
      ensures Is(Lent(s0.allsock), s0.tab[j]) <==> before.tab[j].wait > 1
      ensures s0.tab[j].key == before.tab[j].key
      ensures Keeps(s0.tab[j], serv(s0.tab[j].key)) <==> Keeps(before.tab[j], serv(before.tab[j].key))
    {
      assert Is(Pids, before.tab[j]) <==> Is(Lent(before.allsock), before.tab[j]);
    }
    if AllKept(before.tab, lines, serv) {
      forall j | 0 <= j < |s0.tab| && Is(Lent(s0.allsock), s0.tab[j])
        ensures HasKey(lines, s0.tab[j].key) && Keeps(s0.tab[j], serv(s0.tab[j].key))
      {
        assert before.tab[j].wait > 1;
      }
    }
    if NoneRobbed(s0, lines, serv) {
      forall j | 0 <= j < |before.tab| && before.tab[j].wait > 1
        ensures HasKey(lines, before.tab[j].key) && Keeps(before.tab[j], serv(before.tab[j].key))
      {
        assert Is(Lent(s0.allsock), s0.tab[j]);
      }
    }
  }

  /** Only entry i has changed, and not what it is or waits for. */
  ghost predicate OnlyAt(s: State, s': State, i: nat) {
    && |s'.tab| == |s.tab| && i < |s.tab| && s'.lost == s.lost && (-1 in s'.allsock <==> -1 in s.allsock)
    && s'.tab[i] == s.tab[i].(port := s'.tab[i].port, fd := s'.tab[i].fd)
    && forall j :: 0 <= j < |s.tab| && j != i ==>
      s'.tab[j] == s.tab[j] && (Is(Lent(s'.allsock), s'.tab[j]) <==> Is(Lent(s.allsock), s.tab[j]))
  }

  lemma OnlySame(s: State, i: nat)
    requires i < |s.tab|
    ensures OnlyAt(s, s, i)
  {
  }

  lemma OnlyTwice(s: State, s': State, s'': State, i: nat)
    requires OnlyAt(s, s', i) && OnlyAt(s', s'', i)
    ensures OnlyAt(s, s'', i)
  {
  }

  lemma NotLent(s: State, i: nat)
    requires i < |s.tab| && s.tab[i].fd == -1
    ensures !Is(Lent(s.allsock), s.tab[i])
  {
  }

  lemma OnlyPort(s: State, i: nat, port: int)
    requires i < |s.tab|
    ensures var t := s.(tab := s.tab[i := s.tab[i].(port := port)]);
      OnlyAt(s, t, i) && (Is(Lent(t.allsock), t.tab[i]) <==> Is(Lent(s.allsock), s.tab[i]))
  {
  }

  lemma OnlyClosing(s: State, maxservers: nat, i: nat)
    requires Sound(s, maxservers) && i < |s.tab| && s.tab[i].fd != -1
    ensures OnlyAt(s, Closing(s, i), i)
  {
  }

  lemma OpenOrNot(s: State, i: nat, env: nat -> int, tick: nat, maxservers: nat)
    requires Sound(s, maxservers) && i < |s.tab| && s.tab[i].fd == -1
    ensures var s' := SetUp(s, i, env, tick);
      OnlyAt(s, s', i) && !Is(Lent(s'.allsock), s'.tab[i]) && s'.tab[i].port == s.tab[i].port
  {
    if Given(s.tab, env, tick) {
      forall j | 0 <= j < |s.tab| ensures s.tab[j].fd != env(tick) {
        assert !HasFd(s.tab, env(tick));
      }
    }
  }

  /** A service on a net that is known has the port that it is known for. */
  predicate PortSet(e: Entry, port: Option<int>) { e.key.Net? && port.Some? ==> e.port == port.value }

  /** After the line is done with its entry: a lent socket stays lent exactly if it is kept. */
  ghost predicate SocketSet(s: State, s': State, i: nat, port: Option<int>) {
    && OnlyAt(s, s', i)
    && (Is(Lent(s'.allsock), s'.tab[i]) <==> Is(Lent(s.allsock), s.tab[i]) && Keeps(s.tab[i], port))
    && (Is(Lent(s'.allsock), s'.tab[i]) ==> s'.tab[i].port == s.tab[i].port)
    && PortSet(s'.tab[i], port)
    && (s.tab[i].fd != -1 && Keeps(s.tab[i], port) ==> s' == s)
    && Slack(s') == Slack(s) + if Is(Lent(s.allsock), s.tab[i]) && !Keeps(s.tab[i], port) then 1 else 0
  }

  /** What a line of the file says of its service: the wait of an entry is set unless it is built in or waits for a
      pid; an open service on the port that it is known for keeps its socket. */
  ghost predicate Entered(tab: seq<Entry>, tab': seq<Entry>, cp: Entry, i: nat, port: Option<int>) {
    var f := Find(tab, cp.key);
    && i < |tab'|
    && if f == |tab| then tab'[i].wait == cp.wait && tab'[i].builtin == cp.builtin
       else
         && tab'[i].wait == (if !cp.builtin && tab[f].wait <= 1 then cp.wait else tab[f].wait)
         && tab'[i].builtin == tab[f].builtin && (tab[f].fd != -1 && Keeps(tab[f], port) ==> tab'[i].fd == tab[f].fd)
  }

  /** What a line of the file does to the table. */
  ghost predicate LineDone(s: State, s': State, key: Key, i: nat, port: Option<int>) {
    var f := Find(s.tab, key);
    && i < |s'.tab| && s'.tab[i].key == key && s'.tab[i].checked && PortSet(s'.tab[i], port)
    && s'.lost == s.lost && (-1 in s'.allsock <==> -1 in s.allsock)
    && if f < |s.tab| then
        && i == f && |s'.tab| == |s.tab|
        && (s.tab[i].wait > 1 || s'.tab[i].wait > 1 ==> s'.tab[i].wait == s.tab[i].wait)
        && (forall j :: 0 <= j < |s.tab| && j != i ==>
          s'.tab[j] == s.tab[j] && (Is(Lent(s'.allsock), s'.tab[j]) <==> Is(Lent(s.allsock), s.tab[j])))
        && (Is(Lent(s'.allsock), s'.tab[i]) <==> Is(Lent(s.allsock), s.tab[i]) && Keeps(s.tab[i], port))
        && (Is(Lent(s'.allsock), s'.tab[i]) ==> s'.tab[i].port == s.tab[i].port)
        && Slack(s') == Slack(s) + if Is(Lent(s.allsock), s.tab[i]) && !Keeps(s.tab[i], port) then 1 else 0
      else
        && i == 0 && |s'.tab| == |s.tab| + 1 && s'.tab[0].wait <= 1 && !Is(Lent(s'.allsock), s'.tab[0])
        && (forall j :: 0 <= j < |s.tab| ==>
          s'.tab[j + 1] == s.tab[j] && (Is(Lent(s'.allsock), s'.tab[j + 1]) <==> Is(Lent(s.allsock), s.tab[j])))
        && Slack(s') == Slack(s)
  }

  lemma LineRedone(s: State, e: Entry, s': State, i: nat, port: Option<int>)
    requires i < |s.tab| && i == Find(s.tab, e.key) && Retouched(s.tab[i], e) && e.port == s.tab[i].port && e.checked
    requires var t := s.(tab := s.tab[i := e]); SocketSet(t, s', i, port) && Slack(t) == Slack(s)
    ensures LineDone(s, s', e.key, i, port)
  {
    hide Slack;
    var t := s.(tab := s.tab[i := e]);
    assert t.tab[i] == e;
    forall j | 0 <= j < |s.tab| && j != i
      ensures s'.tab[j] == s.tab[j] && (Is(Lent(s'.allsock), s'.tab[j]) <==> Is(Lent(s.allsock), s.tab[j]))
    {
      assert t.tab[j] == s.tab[j];
    }
  }

  lemma LineEntered(s: State, e: Entry, s': State, port: Option<int>)
    requires Find(s.tab, e.key) == |s.tab| && e.fd == -1 && e.wait <= 1 && e.checked
    requires var t := s.(tab := [e] + s.tab); SocketSet(t, s', 0, port) && Slack(t) == Slack(s)
    ensures LineDone(s, s', e.key, 0, port)
  {
    hide Slack;
    var t := s.(tab := [e] + s.tab);
    assert t.tab[0] == e;
    forall j | 0 <= j < |s.tab|
      ensures s'.tab[j + 1] == s.tab[j] && (Is(Lent(s'.allsock), s'.tab[j + 1]) <==> Is(Lent(s.allsock), s.tab[j]))
    {
      assert t.tab[j + 1] == s.tab[j];
    }
  }

  lemma EntryRedone(s: State, cp: Entry, s': State, i: nat, port: Option<int>)
    requires i == Find(s.tab, cp.key) < |s.tab|
    requires var wait := if !cp.builtin && s.tab[i].wait <= 1 then cp.wait else s.tab[i].wait;
      SocketSet(s.(tab := s.tab[i := s.tab[i].(wait := wait, checked := true)]), s', i, port)
    ensures Entered(s.tab, s'.tab, cp, i, port)
  {
    hide Slack;
  }

  lemma EntryEntered(s: State, cp: Entry, s': State, port: Option<int>)
    requires Find(s.tab, cp.key) == |s.tab|
    requires SocketSet(s.(tab := [cp.(fd := -1, checked := true)] + s.tab), s', 0, port)
    ensures Entered(s.tab, s'.tab, cp, 0, port)
  {
    hide Slack;
  }

  /** In an undisturbed daemon, a polled service waits for nobody. */
  lemma PolledWaitsNot(s: State, i: nat)
    requires i < |s.tab| && s.tab[i].fd in s.allsock
    ensures Undisturbed(s) ==> s.tab[i].wait <= 1
  {
    if Undisturbed(s) { assert Is(Pids, s.tab[i]) <==> Is(Lent(s.allsock), s.tab[i]); }
  }
}
