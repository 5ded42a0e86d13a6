/** What the invariant of the tape server means for every run. */
module RmtTheorems {
  import opened Wrappers
  import opened RmtModel
  import opened RmtInvariant

  ghost predicate Reachable(c: Conf, s: State) {
    exists run: seq<State> :: IsRun(c, run) && s == run[|run| - 1]
  }

  lemma {:induction false} RunInv(c: Conf, run: seq<State>, s: State)
    requires IsRun(c, run) && s == run[|run| - 1]
    ensures exists g :: Inv(c, s, g)
  {
    var n := |run| - 1;
    hide Inv, Step;
    if n == 0 {
      InitInv(c);
    } else {
      var r := run[n - 1];
      assert IsRun(c, run[..n]);
      RunInv(c, run[..n], r);
      var g :| Inv(c, r, g);
      assert Next(c, r, run[n - 1 + 1]);
      var p: nat, ch: bool :| p < |r.procs| && Step(c, r, p, ch) == Some(s);
      var g' := StepInv(c, r, g, p, ch, s);
    }
  }

  lemma ReachableInv(c: Conf, s: State) returns (g: Phase)
    requires Reachable(c, s)
    ensures Inv(c, s, g)
  {
    hide Inv;
    var run: seq<State> :| IsRun(c, run) && s == run[|run| - 1];
    RunInv(c, run, s);
    g :| Inv(c, s, g);
  }

  // ----- tokens -----

  /** Between the signal of a rendezvous and its arrival the signaller still holds everything. */
  predicate Jumping(s: State) { |s.procs| > 0 && JumpSignal(s.procs[0].pend).Some? }

  predicate ParentWork(pc: PC) {
    pc.Reap? || pc.ParCloseOld? || pc.ParArgs? || pc.ParTape? || pc.ParRespond? || pc.ParKillTape? || pc.ParKillSend?
  }

  /** Whether a process at `pc` has taken the token and not yet sent it on. */
  predicate HoldsAt(pc: PC, next: nat, jumping: bool, sig: Sig) {
    var all := || pc.RvKill? || (pc.RvPause? && jumping) || (ParentWork(pc) && !pc.ParKillSend?)
               || ((pc.Fork? || pc.CheckNext?) && next == 0) || pc.StartRecv?;
    match sig
    case RECV => all || pc.Top? || pc.Args? || pc.PassRecv? || pc.ExitPass?
      || pc.RvTape? || pc.RvSend? || pc.ParKillSend?
    case TAPE => all || pc.DoTape? || pc.PassTape? || pc.RvSend? || pc.StartTape?
    case SEND => all || pc.Respond? || pc.Data? || pc.PassSend? || pc.StartTape? || pc.StartSend? || pc.ParKillSend?
    case _ => false
  }

  predicate Holds(s: State, p: nat, sig: Sig)
    requires p < |s.procs|
  {
    HoldsAt(s.procs[p].pc, s.procs[p].next, Jumping(s), sig)
  }

  predicate Pending(s: State, p: nat, sig: Sig)
    requires p < |s.procs|
  {
    s.procs[p].pend.Has(sig)
  }

  /** Process `w` owns the token, in exactly one of the two ways, and nobody else does. */
  ghost predicate SoleOwner(s: State, sig: Sig, w: nat) {
    && w < |s.procs|
    && Pending(s, w, sig) != Holds(s, w, sig)
    && forall q :: 0 <= q < |s.procs| && q != w ==> !Pending(s, q, sig) && !Holds(s, q, sig)
  }

  ghost predicate Nobody(s: State, sig: Sig) {
    forall q :: 0 <= q < |s.procs| ==> !Pending(s, q, sig) && !Holds(s, q, sig)
  }

  ghost predicate SomeoneExited(s: State) { exists p :: 0 <= p < |s.procs| && s.procs[p].pc.Dead? }

  predicate IsToken(sig: Sig) { sig.RECV? || sig.TAPE? || sig.SEND? }

  /** The command number a token has reached. */
  function TokenAt(g: Phase, sig: Sig): nat
    requires g.Ring?
  {
    match sig case RECV => g.R case TAPE => g.T case _ => g.S
  }

  function Transits(sig: Sig, pc: PC): bool {
    match sig case RECV => TransitRecv(pc) case TAPE => TransitTape(pc) case _ => TransitSend(pc)
  }

  /** Ring position of the owner of a token. */
  function RingOwner(s: State, g: Phase, sig: Sig): nat
    requires g.Ring? && g.b < |s.procs| && g.S <= TokenAt(g, sig) <= g.S + |s.procs|
  {
    if Transits(sig, s.procs[Starter(|s.procs|)].pc) then Starter(|s.procs|)
    else if TokenAt(g, sig) < g.S + |s.procs| then Pid(g, |s.procs|, TokenAt(g, sig))
    else g.b
  }

  lemma RecvOwner(c: Conf, g: Phase, m: nat, q: nat, pr: Proc, start: PC)
    requires g.Ring? && q < m && g.b < m && g.S <= g.T <= g.R <= g.S + m
    requires ProcOk(c, g, m, q, pr, start) && (q == Starter(m) ==> pr.pc == start) && StartOk(g, m, Starter(m), start)
    ensures var i, held, pending := Idx(g, m, q), HoldsAt(pr.pc, pr.next, false, RECV), pr.pend.recv;
      && !(held && pending)
      && (if TransitRecv(start) then q == Starter(m) <==> held || pending
          else && (held || pending ==> i == g.R || (g.R == g.S + m && i == g.S))
               && (i == g.R || (g.R == g.S + m && i == g.S) ==> held || pending || pr.pc.Dead?))
  {
    hide SeqResult;
  }

  lemma TapeOwner(c: Conf, g: Phase, m: nat, q: nat, pr: Proc, start: PC)
    requires g.Ring? && q < m && g.b < m && g.S <= g.T <= g.R <= g.S + m
    requires ProcOk(c, g, m, q, pr, start) && (q == Starter(m) ==> pr.pc == start) && StartOk(g, m, Starter(m), start)
    ensures var i, held, pending := Idx(g, m, q), HoldsAt(pr.pc, pr.next, false, TAPE), pr.pend.tape;
      && !(held && pending)
      && (if TransitTape(start) then q == Starter(m) <==> held || pending
          else && (held || pending ==> i == g.T || (g.T == g.S + m && i == g.S))
               && (i == g.T || (g.T == g.S + m && i == g.S) ==> held || pending || pr.pc.Dead?))
  {
    hide SeqResult;
  }

  lemma SendOwner(c: Conf, g: Phase, m: nat, q: nat, pr: Proc, start: PC)
    requires g.Ring? && q < m && g.b < m && g.S <= g.T <= g.R <= g.S + m
    requires ProcOk(c, g, m, q, pr, start) && (q == Starter(m) ==> pr.pc == start) && StartOk(g, m, Starter(m), start)
    ensures var i, held, pending := Idx(g, m, q), HoldsAt(pr.pc, pr.next, false, SEND), pr.pend.send;
      && !(held && pending)
      && (if TransitSend(start) then q == Starter(m) <==> held || pending
          else && (held || pending ==> i == g.S)
               && (i == g.S ==> held || pending || pr.pc.Dead?))
  {
    hide SeqResult;
  }

  lemma RingOwnerAt(c: Conf, s: State, g: Phase, sig: Sig, q: nat)
    requires g.Ring? && RingShape(c, s, g) && ProcsOk(c, s, g) && IsToken(sig) && q < |s.procs|
    ensures !Jumping(s)
    ensures Pending(s, q, sig) || Holds(s, q, sig) ==> q == RingOwner(s, g, sig)
    ensures !(Pending(s, q, sig) && Holds(s, q, sig))
    ensures q == RingOwner(s, g, sig) && !s.procs[q].pc.Dead? ==> Pending(s, q, sig) || Holds(s, q, sig)
  {
    var m, start := |s.procs|, s.procs[Starter(|s.procs|)].pc;
    assert ProcOk(c, g, m, q, s.procs[q], start);
    assert ProcOk(c, g, m, Starter(m), s.procs[Starter(m)], start);
    assert ProcOk(c, g, m, 0, s.procs[0], start);
    IdxFacts(g, m, q, Starter(m));
    IdxFacts(g, m, q, g.b);
    hide PlaceOk, HoldsAt, StartOk;
    assert !Jumping(s);
    hide PendOk, RecordOk, ProcsOk, TransitRecv, TransitTape, TransitSend;
    var t := TokenAt(g, sig);
    if t < g.S + m { IdxFacts(g, m, q, Pid(g, m, t)); }
    match sig
    case RECV => RecvOwner(c, g, m, q, s.procs[q], start);
    case TAPE => TapeOwner(c, g, m, q, s.procs[q], start);
    case SEND => SendOwner(c, g, m, q, s.procs[q], start);
  }

  lemma RingUnique(c: Conf, s: State, g: Phase, sig: Sig)
    requires g.Ring? && RingInv(c, s, g) && IsToken(sig)
    ensures (exists w :: SoleOwner(s, sig, w)) || (SomeoneExited(s) && Nobody(s, sig))
  {
    hide RingLogs, ProcsOk, Pending, Holds;
    var w := RingOwner(s, g, sig);
    forall q | 0 <= q < |s.procs|
      ensures Pending(s, q, sig) || Holds(s, q, sig) ==> q == w
      ensures !(Pending(s, q, sig) && Holds(s, q, sig))
      ensures q == w && !s.procs[q].pc.Dead? ==> Pending(s, q, sig) || Holds(s, q, sig)
    {
      RingOwnerAt(c, s, g, sig, q);
    }
    assert SoleOwner(s, sig, w) || s.procs[w].pc.Dead?;
  }

  lemma RendezvousUnique(c: Conf, s: State, g: Phase, sig: Sig)
    requires !g.Ring? && Inv(c, s, g) && IsToken(sig)
    ensures (exists w :: SoleOwner(s, sig, w)) || (SomeoneExited(s) && Nobody(s, sig))
  {
    hide SeqTape, SeqOut, SeqResult, AtCommand;
    var w := if g.Signalled? then g.q else 0;
    if g.Finished? {
      assert s.procs[0].pc.Dead?;
    } else {
      forall q | 0 <= q < |s.procs| ensures (Pending(s, q, sig) || Holds(s, q, sig)) <==> q == w {
      }
      assert SoleOwner(s, sig, w);
    }
  }

  /** In every reachable state each token is owned by exactly one process, either as a pending signal
      or as a signal taken and not sent on.  After a process has left at end of input (or the server
      has stopped on garbage) a token may have gone with it; it is never duplicated. */
  lemma UniqueTokens(c: Conf, s: State, sig: Sig)
    requires Reachable(c, s) && IsToken(sig)
    ensures (exists w :: SoleOwner(s, sig, w)) || (SomeoneExited(s) && Nobody(s, sig))
  {
    var g := ReachableInv(c, s);
    hide Reachable, SoleOwner, RingInv, SignalledInv, GatherInv, AloneInv;
    if g.Ring? { RingUnique(c, s, g, sig); } else { RendezvousUnique(c, s, g, sig); }
  }

  /** In every reachable state in which a rendezvous has been signalled, one process, which stands behind its
      signal, holds all three tokens; the parent has that one signal and no other, and all other processes
      wait at the end of the loop with nothing pending. */
  lemma RendezvousParksOthers(c: Conf, s: State) returns (q: nat)
    requires Reachable(c, s) && Jumping(s)
    ensures q < |s.procs| && s.procs[q].pc == RvPause
    ensures forall sig :: IsToken(sig) ==> SoleOwner(s, sig, q) && Holds(s, q, sig)
    ensures s.procs[0].pend == NONE.Set(JumpSignal(s.procs[0].pend).value, true)
    ensures q != 0 ==> s.procs[0].pc == Park
    ensures forall p :: 0 < p < |s.procs| ==> s.procs[p].pend == NONE && (p != q ==> Quiet(s.procs[p]))
  {
    var g := ReachableInv(c, s);
    hide Reachable, SeqTape, SeqOut, SeqResult, AtCommand, SoleOwner;
    if g.Ring? {
      NoJumpInRing(c, s, g);
      assert false;
    } else {
      q := if g.Signalled? then g.q else 0;
      SignalledHolds(c, s, g);
    }
  }

  lemma NoJumpInRing(c: Conf, s: State, g: Phase)
    requires g.Ring? && Inv(c, s, g)
    ensures !Jumping(s)
  {
    hide RingLogs;
    assert ProcOk(c, g, |s.procs|, 0, s.procs[0], s.procs[Starter(|s.procs|)].pc);
  }

  lemma SignalledHolds(c: Conf, s: State, g: Phase)
    requires !g.Ring? && Inv(c, s, g) && Jumping(s)
    ensures g.Signalled? && g.q < |s.procs| && forall sig :: IsToken(sig) ==>
      SoleOwner(s, sig, g.q) && Holds(s, g.q, sig)
  {
    hide SeqTape, SeqOut, SeqResult, AtCommand;
    forall sig, p | IsToken(sig) && 0 <= p < |s.procs| && p != g.q ensures !Pending(s, p, sig) && !Holds(s, p, sig) {
    }
  }

  lemma OneHolder(c: Conf, s: State, sig: Sig, p: nat, q: nat)
    requires Reachable(c, s) && IsToken(sig) && p < |s.procs| && q < |s.procs| && Holds(s, p, sig)
    ensures p != q ==> !Holds(s, q, sig)
    ensures !Pending(s, q, sig)
  {
    hide Reachable, Holds, Pending;
    UniqueTokens(c, s, sig);
    if w :| SoleOwner(s, sig, w) {
      assert w == p;
    }
  }

  /** At most one process reads standard input, at most one drives the tape, at most one writes. */
  predicate ReadsInput(pc: PC) { pc.Top? || pc.Args? || pc.ParArgs? }
  predicate DrivesTape(pc: PC) { pc.DoTape? || pc.ParCloseOld? || pc.ParTape? }
  predicate WritesOutput(pc: PC) { pc.Respond? || pc.Data? || pc.ParRespond? }

  lemma MutualExclusion(c: Conf, s: State, p: nat, q: nat)
    requires Reachable(c, s) && p < |s.procs| && q < |s.procs| && p != q
    ensures !(ReadsInput(s.procs[p].pc) && ReadsInput(s.procs[q].pc))
    ensures !(DrivesTape(s.procs[p].pc) && DrivesTape(s.procs[q].pc))
    ensures !(WritesOutput(s.procs[p].pc) && WritesOutput(s.procs[q].pc))
  {
    hide Reachable;
    if ReadsInput(s.procs[p].pc) { OneHolder(c, s, RECV, p, q); }
    if DrivesTape(s.procs[p].pc) { OneHolder(c, s, TAPE, p, q); }
    if WritesOutput(s.procs[p].pc) { OneHolder(c, s, SEND, p, q); }
  }

  /** The signal a process is about to send, and to whom. */
  function AboutToSend(s: State, p: nat): Option<(nat, Sig)>
    requires p < |s.procs|
  {
    var pr := s.procs[p];
    match pr.pc
    case PassRecv => Some((pr.next, RECV))
    case ExitPass => Some((pr.next, RECV))
    case PassTape => Some((pr.next, TAPE))
    case PassSend => Some((pr.next, SEND))
    case RvKill => Some((0, SigOf(pr.key)))
    case ParKillTape => Some((0, TAPE))
    case ParKillSend => Some((0, SEND))
    case StartRecv => Some((0, RECV))
    case StartTape => Some((0, TAPE))
    case StartSend => Some((0, SEND))
    case _ => None
  }

  /** No signal is ever sent to a process that already has one of that kind pending, so none is lost. */
  lemma NoSignalCoalesced(c: Conf, s: State, p: nat)
    requires Reachable(c, s) && p < |s.procs| && AboutToSend(s, p).Some?
    ensures var (to, sig) := AboutToSend(s, p).value; to < |s.procs| && !s.procs[to].pend.Has(sig)
  {
    hide Reachable, Inv;
    var g := ReachableInv(c, s);
    SenderInRange(c, s, g, p);
    var (to, sig) := AboutToSend(s, p).value;
    if IsToken(sig) { OneHolder(c, s, sig, p, to); }
  }

  lemma SenderInRange(c: Conf, s: State, g: Phase, p: nat)
    requires Inv(c, s, g) && p < |s.procs| && AboutToSend(s, p).Some?
    ensures var (to, sig) := AboutToSend(s, p).value;
      to < |s.procs| && (!IsToken(sig) ==> !s.procs[to].pend.Has(sig))
  {
    if g.Ring? {
      SenderInRing(c, s, g, p);
      hide Inv;
    } else {
      hide SeqTape, SeqOut, RingInv;
    }
  }

  lemma SenderInRing(c: Conf, s: State, g: Phase, p: nat)
    requires g.Ring? && RingInv(c, s, g) && p < |s.procs| && AboutToSend(s, p).Some?
    ensures var (to, sig) := AboutToSend(s, p).value;
      to < |s.procs| && (!IsToken(sig) ==> !s.procs[to].pend.Has(sig))
  {
    RingPC(c, s, g, p);
    hide RingLogs;
    assert ProcOk(c, g, |s.procs|, 0, s.procs[0], s.procs[Starter(|s.procs|)].pc);
  }

  // ----- refinement of the sequential server -----

  lemma ServedCovers(cmds: seq<Cmd>, i: nat)
    requires i <= |cmds| && forall k :: 0 <= k < i ==> !cmds[k].Garbage?
    ensures i <= Served(cmds)
  {
  }

  lemma {:induction false} SeqTapePrefix(cmds: seq<Cmd>, i: nat, j: nat)
    requires i <= j <= |cmds|
    ensures SeqTape(cmds, i) <= SeqTape(cmds, j)
    decreases j
  {
    if i < j { SeqTapePrefix(cmds, i, j - 1); }
  }

  lemma {:induction false} SeqOutPrefix(c: Conf, i: nat, j: nat)
    requires i <= j <= |c.cmds|
    ensures SeqOut(c, i) <= SeqOut(c, j)
    decreases j
  {
    if i < j { SeqOutPrefix(c, i, j - 1); }
  }

  lemma RingRefines(c: Conf, s: State, g: Phase)
    requires g.Ring? && RingInv(c, s, g)
    ensures exists i, j :: SeqTapeAt(c, s, i) && SeqOutAt(c, s, j)
  {
    hide ProcsOk, RingLogs, SeqTapeAt, SeqOutAt, SeqTape, SeqOut, TapeAhead;
    TapeAheadInFlight(c, s, g);
    var i := RingTape(c, s, g);
    FrontAnswers(c, s, g);
    var j := RingOut(c, s, g);
    assert SeqTapeAt(c, s, i) && SeqOutAt(c, s, j);
  }

  lemma RingTape(c: Conf, s: State, g: Phase) returns (i: nat)
    requires g.Ring? && RingShape(c, s, g) && RingLogs(c, s, g) && (TapeAhead(s, g) ==> g.T < g.R)
    ensures SeqTapeAt(c, s, i)
  {
    hide TapeAhead, Ahead, SeqTape, SeqOut, Partial, Served;
    i := if TapeAhead(s, g) then g.T + 1 else g.T;
    ServedCovers(c.cmds, i);
  }

  lemma FrontAnswers(c: Conf, s: State, g: Phase)
    requires g.Ring? && RingShape(c, s, g) && ProcsOk(c, s, g)
    ensures s.procs[g.b].pc.Data? || s.procs[g.b].pc.PassSend? ==> g.S < g.R && g.S < |c.cmds|
  {
    assert ProcOk(c, g, |s.procs|, g.b, s.procs[g.b], s.procs[Starter(|s.procs|)].pc);
    hide ProcsOk, SeqResult, PendOk, StartOk;
  }

  lemma RingOut(c: Conf, s: State, g: Phase) returns (j: nat)
    requires g.Ring? && RingShape(c, s, g) && RingLogs(c, s, g)
    requires s.procs[g.b].pc.Data? || s.procs[g.b].pc.PassSend? ==> g.S < g.R && g.S < |c.cmds|
    ensures SeqOutAt(c, s, j)
  {
    hide TapeAhead, Ahead, SeqTape, Served, SeqResult, ReplyLine, ReplyData;
    j := if s.procs[g.b].pc.Data? || s.procs[g.b].pc.PassSend? then g.S + 1 else g.S;
    ServedCovers(c.cmds, j);
  }

  lemma TapeAheadInFlight(c: Conf, s: State, g: Phase)
    requires g.Ring? && RingShape(c, s, g) && ProcsOk(c, s, g)
    ensures TapeAhead(s, g) ==> g.T < g.R
  {
    if TapeAhead(s, g) {
      var q := Pid(g, |s.procs|, g.T);
      hide PendOk, StartOk;
      assert ProcOk(c, g, |s.procs|, q, s.procs[q], s.procs[Starter(|s.procs|)].pc);
    }
  }

  /** The tape operations so far are a prefix of those of the first `i` commands, all of them served. */
  ghost predicate SeqTapeAt(c: Conf, s: State, i: nat) {
    i <= Served(c.cmds) && s.tape <= SeqTape(c.cmds, i)
  }

  ghost predicate SeqOutAt(c: Conf, s: State, j: nat) {
    j <= Served(c.cmds) && s.out <= SeqOut(c, j)
  }

  lemma RendezvousRefines(c: Conf, s: State, g: Phase)
    requires !g.Ring? && Inv(c, s, g)
    ensures exists i, j :: SeqTapeAt(c, s, i) && SeqOutAt(c, s, j)
  {
    if g.Alone? {
      AloneRefines(c, s, g);
    } else {
      hide Served, SeqTape, SeqOut;
      ServedCovers(c.cmds, g.i);
      assert SeqTapeAt(c, s, g.i) && SeqOutAt(c, s, g.i);
    }
  }

  lemma AloneRefines(c: Conf, s: State, g: Phase)
    requires g.Alone? && AloneInv(c, s, g)
    ensures SeqTapeAt(c, s, g.i + 1) && SeqOutAt(c, s, g.i + 1)
  {
    hide Served, SeqResult;
    ServedCovers(c.cmds, g.i + 1);
    SequentialStep(c, g.i);
  }

  /** The concurrent server refines the sequential one: at every moment the tape has seen a prefix of
      the sequential server's operations and the client a prefix of its replies. */
  lemma RefinesSequential(c: Conf, s: State)
    requires Reachable(c, s)
    ensures s.tape <= SeqTape(c.cmds, Served(c.cmds))
    ensures s.out <= SeqOut(c, Served(c.cmds))
  {
    hide Reachable, Inv, Served, SeqTape, SeqOut;
    var g := ReachableInv(c, s);
    InvRefines(c, s, g);
    var i, j :| SeqTapeAt(c, s, i) && SeqOutAt(c, s, j);
    SeqTapePrefix(c.cmds, i, Served(c.cmds));
    SeqOutPrefix(c, j, Served(c.cmds));
  }

  lemma InvRefines(c: Conf, s: State, g: Phase)
    requires Inv(c, s, g)
    ensures exists i, j :: SeqTapeAt(c, s, i) && SeqOutAt(c, s, j)
  {
    hide SeqTapeAt, SeqOutAt, RingInv, SignalledInv, GatherInv, AloneInv;
    if g.Ring? { RingRefines(c, s, g); } else { RendezvousRefines(c, s, g); }
  }

  // ----- what the client reads -----

  /** The answer that a client expects for a command, when the device has returned `r` for it. */
  ghost predicate IsAnswer(cmd: Cmd, r: Result, answer: seq<Out>) {
    if r.rval < 0 then answer == [Nak(r.err)]
    else
      match cmd
      case Op(Read(_)) => answer == if r.rval > 0 then [Ack(r.rval), Bytes(r.data)] else [Ack(0)]
      case Op(Status) => answer == [Ack(20), Bytes(r.data)]
      case Op(Ioctl(_, count)) => answer == RespondsWith(count, r.err)
      case _ => answer == [Ack(r.rval)]
  }

  /** respond() of a number: a client asking for a negative count is told of an error. */
  ghost function RespondsWith(n: int, err: int): seq<Out> { if n < 0 then [Nak(err)] else [Ack(n)] }

  /** The operations for a command come behind those before: the operation itself, a close, or a close and an
      open. */
  ghost predicate Asks(cmd: Cmd, before: seq<TapeOp>, asked: seq<TapeOp>) {
    match cmd
    case Op(op) => asked == before + [op]
    case Close(_) => asked == before + [CloseDev]
    case Open(device, mode) => asked == before + [CloseDev, OpenDev(device, mode)]
    case Garbage => false
  }

  function Joined(answers: seq<seq<Out>>): seq<Out> {
    if answers == [] then [] else Joined(answers[..|answers| - 1]) + answers[|answers| - 1]
  }

  /** All that the device has been asked up to and with command k. */
  function AskedUpTo(asked: seq<seq<TapeOp>>, k: nat): seq<TapeOp>
    requires k <= |asked|
  {
    if k == 0 then [] else asked[k - 1]
  }

  /** Command k is asked for behind those before it, and the answer is that to what the device returns then. */
  ghost predicate AnswersAt(c: Conf, answers: seq<seq<Out>>, asked: seq<seq<TapeOp>>, k: nat)
    requires k < |answers| == |asked| <= |c.cmds|
  {
    Asks(c.cmds[k], AskedUpTo(asked, k), asked[k]) && IsAnswer(c.cmds[k], c.dev(asked[k]), answers[k])
  }

  ghost predicate Answers(c: Conf, answers: seq<seq<Out>>, asked: seq<seq<TapeOp>>) {
    |answers| == |asked| <= |c.cmds| && forall k :: 0 <= k < |answers| ==> AnswersAt(c, answers, asked, k)
  }

  lemma ReplyMeans(c: Conf, k: nat)
    requires k < |c.cmds| && !c.cmds[k].Garbage?
    ensures IsAnswer(c.cmds[k], SeqResult(c, k), Reply(c, k))
    ensures Asks(c.cmds[k], SeqTape(c.cmds, k), SeqTape(c.cmds, k + 1))
  {
  }

  lemma AnswerStays(c: Conf, answers: seq<seq<Out>>, asked: seq<seq<TapeOp>>, answer: seq<Out>, all: seq<TapeOp>,
                    k: nat)
    requires k < |answers| == |asked| < |c.cmds| && AnswersAt(c, answers, asked, k)
    ensures AnswersAt(c, answers + [answer], asked + [all], k)
  {
    hide Asks, IsAnswer;
    assert (answers + [answer])[k] == answers[k] && (asked + [all])[k] == asked[k];
    assert AskedUpTo(asked + [all], k) == AskedUpTo(asked, k);
  }

  lemma OneAnswerMore(c: Conf, answers: seq<seq<Out>>, asked: seq<seq<TapeOp>>, answer: seq<Out>, all: seq<TapeOp>)
    requires Answers(c, answers, asked) && |answers| < |c.cmds|
    requires Asks(c.cmds[|answers|], AskedUpTo(asked, |asked|), all)
    requires IsAnswer(c.cmds[|answers|], c.dev(all), answer)
    ensures Answers(c, answers + [answer], asked + [all])
  {
    hide Asks, IsAnswer;
    var answers', asked', n := answers + [answer], asked + [all], |answers|;
    assert AnswersAt(c, answers', asked', n) by {
      assert answers'[n] == answer && asked'[n] == all && AskedUpTo(asked', n) == AskedUpTo(asked, n);
    }
    hide AnswersAt;
    forall k | 0 <= k < n
      ensures AnswersAt(c, answers', asked', k)
    {
      AnswerStays(c, answers, asked, answer, all, k);
    }
  }

  lemma JoinedOneMore(answers: seq<seq<Out>>, answer: seq<Out>)
    ensures Joined(answers + [answer]) == Joined(answers) + answer
  {
    assert (answers + [answer])[..|answers|] == answers;
  }

  lemma {:induction false} SequentialAnswers(c: Conf, n: nat)
    returns (answers: seq<seq<Out>>, asked: seq<seq<TapeOp>>)
    requires n <= |c.cmds| && forall k :: 0 <= k < n ==> !c.cmds[k].Garbage?
    ensures |answers| == |asked| == n && Answers(c, answers, asked)
    ensures Joined(answers) == SeqOut(c, n) && AskedUpTo(asked, n) == SeqTape(c.cmds, n)
  {
    hide IsAnswer, Asks, Reply;
    if n == 0 { return [], []; }
    hide Joined;
    answers, asked := SequentialAnswers(c, n - 1);
    hide Answers;
    ReplyMeans(c, n - 1);
    JoinedOneMore(answers, Reply(c, n - 1));
    OneAnswerMore(c, answers, asked, Reply(c, n - 1), SeqTape(c.cmds, n));
    answers, asked := answers + [Reply(c, n - 1)], asked + [SeqTape(c.cmds, n)];
  }

  /** At every moment the client has read a beginning of the right answers: to each command in turn, as the device
      has returned for it, and the bytes read behind the number of a read; and the device has been asked a
      beginning of the right operations. */
  lemma ClientReads(c: Conf, s: State) returns (answers: seq<seq<Out>>, asked: seq<seq<TapeOp>>)
    requires Reachable(c, s)
    ensures |answers| == Served(c.cmds) && Answers(c, answers, asked)
    ensures s.out <= Joined(answers) && s.tape <= AskedUpTo(asked, |asked|)
  {
    hide Reachable, SeqTape, SeqOut, Answers, Joined;
    RefinesSequential(c, s);
    answers, asked := SequentialAnswers(c, Served(c.cmds));
    AnswersAsMany(c, answers, asked);
  }

  lemma AnswersAsMany(c: Conf, answers: seq<seq<Out>>, asked: seq<seq<TapeOp>>)
    requires Answers(c, answers, asked)
    ensures |answers| == |asked|
  {
  }
}
