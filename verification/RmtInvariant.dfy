/**
 The inductive invariant of the tape server.

 Commands are numbered from 0.  Each process of the ring has a current number, its place in the
 ring counted from process `b`, which is on command S.  RECV has been passed on for the commands
 below R, TAPE for those below T, SEND for those below S; S <= T <= R <= S + m.
 */
module RmtInvariant {
  import opened Wrappers
  import opened RmtModel

  datatype Phase =
    | Ring(b: nat, S: nat, T: nat, R: nat)
    | Signalled(q: nat, i: nat)  // q holds everything, its signal is pending at the parent
    | Gather(i: nat)             // the parent is killing its children
    | Alone(i: nat)              // one process, working on command i
    | Finished(i: nat)           // the parent has exited on garbage

  function Min(a: nat, b: nat): nat { if a < b then a else b }

  /** Ring order is descending: child k passes to child k-1, child 0 to the parent, and the parent
      to its youngest child. */
  function Prev(m: nat, p: nat): nat
    requires p < m
  {
    if p == 0 then m - 1 else p - 1
  }

  /** The command number of process `p`. */
  function Idx(g: Phase, m: nat, p: nat): nat
    requires g.Ring? && p < m && g.b < m
  {
    if p <= g.b then g.S + (g.b - p) else g.S + (g.b + m - p)
  }

  /** The process whose command number is `i`. */
  function Pid(g: Phase, m: nat, i: nat): (p: nat)
    requires g.Ring? && g.b < m && g.S <= i < g.S + m
    ensures p < m && Idx(g, m, p) == i
  {
    if i - g.S <= g.b then g.b - (i - g.S) else g.b + m - (i - g.S)
  }

  predicate Parkish(pc: PC) { pc.Park? || TransitSend(pc) }

  /** The process that sends the parent its first tokens after an open. */
  function Starter(m: nat): nat { if m <= 1 then 0 else 1 }

  predicate TransitRecv(pc: PC) { pc.Fork? || pc.CheckNext? || pc.StartRecv? }
  predicate TransitTape(pc: PC) { TransitRecv(pc) || pc.StartTape? }
  predicate TransitSend(pc: PC) { TransitTape(pc) || pc.StartSend? }

  predicate HoldsTape(pc: PC) { pc.DoTape? || pc.PassTape? || pc.RvSend? || pc.RvKill? }
  predicate HoldsSend(pc: PC) { pc.Respond? || pc.Data? || pc.PassSend? || pc.RvKill? }

  /** Exactly the tokens due to number `i` are pending, and none is held that is still in transit. */
  ghost predicate PendOk(g: Phase, m: nat, pr: Proc, i: nat, start: PC)
    requires g.Ring?
  {
    && !pr.pend.open && !pr.pend.close && !pr.pend.error
    && (pr.pend.recv <==>
        || (i == g.R && Parkish(pr.pc) && !TransitRecv(start))
        || (g.R == g.S + m && i == g.S && pr.pc != Dead))
    && (pr.pend.tape <==>
        || (i == g.T && !TransitTape(start) && !HoldsTape(pr.pc) && pr.pc != Dead)
        || (g.T == g.S + m && i == g.S && pr.pc != Dead))
    && (pr.pend.send <==> i == g.S && !TransitSend(start) && !HoldsSend(pr.pc) && pr.pc != Dead)
    && (i == g.R && TransitRecv(start) ==> Parkish(pr.pc))
    && (i == g.T && TransitTape(start) ==> !HoldsTape(pr.pc))
    && (i == g.S && TransitSend(start) ==> !HoldsSend(pr.pc))
  }

  /** A process that has passed RECV on for command `i` and not finished with it. */
  ghost predicate InFlightOk(c: Conf, g: Phase, pr: Proc, i: nat)
    requires g.Ring? && i < |c.cmds|
  {
    && c.cmds[i].Op? && pr.cmd == i
    && (match pr.pc
        case WaitTape => g.T <= i
        case DoTape => g.T == i
        case PassTape => g.T == i && pr.res == SeqResult(c, i)
        case WaitSend => i < g.T && pr.res == SeqResult(c, i)
        case Respond => g.S == i < g.T && pr.res == SeqResult(c, i)
        case Data => g.S == i < g.T && pr.res == SeqResult(c, i)
        case PassSend => g.S == i < g.T
        case _ => false)
  }

  /** The process whose turn it is to read command `i`. */
  ghost predicate ReaderOk(c: Conf, g: Phase, pr: Proc, i: nat)
    requires g.Ring?
  {
    match pr.pc
    case Top => true
    case ExitPass => |c.cmds| <= i
    case Args => i < |c.cmds| && c.cmds[i].Op?
    case PassRecv => i < |c.cmds| && c.cmds[i].Op? && pr.cmd == i
    case RvTape => i < |c.cmds| && !c.cmds[i].Op? && pr.key == KeyOf(c.cmds[i])
    case RvSend => i < |c.cmds| && !c.cmds[i].Op? && pr.key == KeyOf(c.cmds[i]) && g.T == i
    case RvKill => i < |c.cmds| && !c.cmds[i].Op? && pr.key == KeyOf(c.cmds[i]) && g.S == g.T == i
    case _ => Parkish(pr.pc)
  }

  /** Where a process can be, given its command number. */
  ghost predicate PlaceOk(c: Conf, g: Phase, pr: Proc, i: nat)
    requires g.Ring?
  {
    if i < g.R then (if i < |c.cmds| then InFlightOk(c, g, pr, i) else pr.pc.Dead?)
    else if i == g.R then ReaderOk(c, g, pr, i)
    else Parkish(pr.pc)
  }

  /** Processes that have not yet entered the loop after an open. */
  ghost predicate StartOk(g: Phase, m: nat, p: nat, pc: PC)
    requires g.Ring?
  {
    if p == 0 then
      && (TransitSend(pc) ==> g.b == 0 && g.S == g.T == g.R)
      && (pc.StartRecv? || pc.StartTape? || pc.StartSend? ==> m == 1)
    else if p == 1 then
      && !pc.Fork?
      && (TransitRecv(pc) ==> g.R == g.S)
      && (TransitTape(pc) ==> g.T == g.S)
      && (TransitSend(pc) ==> g.b == 0)
    else TransitSend(pc) ==> pc.CheckNext?
  }

  /** The record of the process with number `i`; `start` is where the starter is. */
  ghost predicate RecordOk(c: Conf, g: Phase, m: nat, i: nat, pr: Proc, start: PC)
    requires g.Ring?
  {
    PendOk(g, m, pr, i, start) && PlaceOk(c, g, pr, i)
  }

  ghost predicate ProcOk(c: Conf, g: Phase, m: nat, p: nat, pr: Proc, start: PC)
    requires g.Ring? && p < m && g.b < m
  {
    var i := Idx(g, m, p);
    && pr.next == Prev(m, p)
    && RecordOk(c, g, m, i, pr, start)
    && StartOk(g, m, p, pr.pc)
  }

  ghost predicate ProcsOk(c: Conf, s: State, g: Phase)
    requires g.Ring? && g.b < |s.procs|
  {
    var m := |s.procs|;
    forall p {:trigger s.procs[p]} :: 0 <= p < m ==> ProcOk(c, g, m, p, s.procs[p], s.procs[Starter(m)].pc)
  }

  function InOffset(pc: PC): nat {
    match pc
    case Args => 1
    case PassRecv => 2
    case RvTape => 1
    case RvSend => 1
    case RvKill => 1
    case _ => 0
  }

  /** Half commands consumed beyond the first min(R, n) commands. */
  function Ahead(s: State, g: Phase): nat
    requires g.Ring? && g.b < |s.procs| && g.S <= g.R
  {
    if g.R < g.S + |s.procs| then InOffset(s.procs[Pid(g, |s.procs|, g.R)].pc) else 0
  }

  /** Whether command T's tape operation is done although TAPE has not been passed on. */
  predicate TapeAhead(s: State, g: Phase)
    requires g.Ring? && g.b < |s.procs| && g.S <= g.T
  {
    g.T < g.S + |s.procs| && s.procs[Pid(g, |s.procs|, g.T)].pc == PassTape
  }

  /** The part of command `k`'s reply that has been written when its process is at `pc`. */
  function Partial(c: Conf, k: nat, pc: PC): seq<Out> {
    if k < |c.cmds| then
      match pc
      case Data => [ReplyLine(c.cmds[k], SeqResult(c, k))]
      case PassSend => Reply(c, k)
      case _ => []
    else []
  }

  ghost predicate RingShape(c: Conf, s: State, g: Phase)
    requires g.Ring?
  {
    var m := |s.procs|;
    && g.b < m <= c.maxChild + 1
    && g.S <= g.T <= g.R <= g.S + m
    && g.T <= |c.cmds|
    && (forall k :: 0 <= k < g.R && k < |c.cmds| ==> !c.cmds[k].Garbage?)
  }

  /** Input, tape and output are where the sequential server has them after R, T and S commands. */
  ghost predicate RingLogs(c: Conf, s: State, g: Phase)
    requires g.Ring? && RingShape(c, s, g)
  {
    && s.inpos == 2 * Min(g.R, |c.cmds|) + Ahead(s, g)
    && (TapeAhead(s, g) ==> g.T < |c.cmds|)
    && s.tape == SeqTape(c.cmds, if TapeAhead(s, g) then g.T + 1 else g.T)
    && s.out == SeqOut(c, g.S) + Partial(c, g.S, s.procs[g.b].pc)
  }

  ghost predicate RingInv(c: Conf, s: State, g: Phase)
    requires g.Ring?
  {
    && RingShape(c, s, g)
    && RingLogs(c, s, g)
    && ProcsOk(c, s, g)
  }

  /** What holds of input and logs while command `i`, an open, a close or garbage, has only been read. */
  ghost predicate AtCommand(c: Conf, s: State, i: nat) {
    && i < |c.cmds| && !c.cmds[i].Op?
    && (forall k :: 0 <= k < i ==> !c.cmds[k].Garbage?)
    && s.out == SeqOut(c, i)
  }

  /** Waiting at the end of the loop with no token, or about to. */
  predicate Quiet(pr: Proc) { pr.pend == NONE && (pr.pc == Park || (pr.pc == CheckNext && pr.next != 0)) }

  ghost predicate SignalledInv(c: Conf, s: State, g: Phase)
    requires g.Signalled?
  {
    && AtCommand(c, s, g.i) && s.inpos == 2 * g.i + 1 && s.tape == SeqTape(c.cmds, g.i)
    && g.q < |s.procs|
    && s.procs[0].pend == NONE.Set(SigOf(KeyOf(c.cmds[g.i])), true)
    && s.procs[g.q].pc == RvPause
    && (g.q != 0 ==> s.procs[g.q].pend == NONE && s.procs[0].pc == Park)
    && (forall p {:trigger s.procs[p]} :: 0 < p < |s.procs| && p != g.q ==> Quiet(s.procs[p]))
  }

  ghost predicate GatherInv(c: Conf, s: State, g: Phase)
    requires g.Gather?
  {
    && AtCommand(c, s, g.i) && s.inpos == 2 * g.i + 1 && s.tape == SeqTape(c.cmds, g.i)
    && |s.procs| > 0
    && s.procs[0].pc == Reap && s.procs[0].pend == NONE && s.procs[0].key == KeyOf(c.cmds[g.i])
    && (forall p {:trigger s.procs[p]} :: 0 < p < |s.procs| ==>
          Quiet(s.procs[p]) || (s.procs[p].pend == NONE && s.procs[p].pc == RvPause))
  }

  ghost predicate AloneInv(c: Conf, s: State, g: Phase)
    requires g.Alone?
  {
    && g.i < |c.cmds| && !c.cmds[g.i].Op? && !c.cmds[g.i].Garbage?
    && (forall k :: 0 <= k < g.i ==> !c.cmds[k].Garbage?)
    && |s.procs| == 1
    && var pr := s.procs[0];
    && pr.next == 0
    && pr.key == KeyOf(c.cmds[g.i])
    && (pr.pc in {ParTape} ==> pr.cmd == g.i)
    && (pr.pc == ParRespond ==> pr.res == SeqResult(c, g.i))
    && pr.pend == (if pr.pc.ParKillSend? then NONE.(tape := true) else NONE)
    && (pr.pc in {ParCloseOld, ParArgs, ParTape, ParRespond}
        || (pr.key == KClose && pr.pc in {ParKillTape, ParKillSend}))
    && (pr.pc == ParCloseOld ==> pr.key == KOpen)
    && s.inpos == (if pr.pc in {ParCloseOld, ParArgs} then 2 * g.i + 1 else 2 * g.i + 2)
    && s.tape ==
       (if pr.pc == ParCloseOld || (pr.key == KClose && pr.pc in {ParArgs, ParTape}) then SeqTape(c.cmds, g.i)
        else if pr.pc in {ParArgs, ParTape} then SeqTape(c.cmds, g.i) + [CloseDev]
        else SeqTape(c.cmds, g.i + 1))
    && s.out == SeqOut(c, if pr.pc in {ParKillTape, ParKillSend} then g.i + 1 else g.i)
  }

  ghost predicate FinishedInv(c: Conf, s: State, g: Phase)
    requires g.Finished?
  {
    && g.i < |c.cmds| && c.cmds[g.i].Garbage?
    && (forall k :: 0 <= k < g.i ==> !c.cmds[k].Garbage?)
    && |s.procs| == 1 && s.procs[0].pc == Dead && s.procs[0].pend == NONE
    && s.inpos == 2 * g.i + 1
    && s.tape == SeqTape(c.cmds, g.i)
    && s.out == SeqOut(c, g.i)
  }

  ghost predicate Inv(c: Conf, s: State, g: Phase) {
    match g
    case Ring(_, _, _, _) => RingInv(c, s, g)
    case Signalled(_, _) => SignalledInv(c, s, g)
    case Gather(_) => GatherInv(c, s, g)
    case Alone(_) => AloneInv(c, s, g)
    case Finished(_) => FinishedInv(c, s, g)
  }

  lemma InitInv(c: Conf)
    ensures Inv(c, Init(), Ring(0, 0, 0, 0))
  {
  }

  // ----- steps inside the ring: effect on one process record -----

  /** The record of one process after its predecessor, or itself, sent `sig` and moved to `pc`. */
  function After(pr: Proc, hit: bool, sig: Sig, self: bool, pc: PC): Proc {
    var pr1 := if hit && !pr.pc.Dead? then pr.(pend := pr.pend.Set(sig, true)) else pr;
    if self then MoveTo(pr1, pc) else pr1
  }

  /** Whether number `i` comes right after number `j` in the ring. */
  predicate Follows(g: Phase, m: nat, i: nat, j: nat)
    requires g.Ring?
  {
    i == j + 1 || (j + 1 == g.S + m && i == g.S)
  }

  lemma PassRecvOne(c: Conf, g: Phase, m: nat, i: nat, pr: Proc, start: PC)
    requires g.Ring? && g.S <= i < g.S + m && RecordOk(c, g, m, i, pr, start)
    requires g.S <= g.T <= g.R < g.S + m && g.R < |c.cmds|
    requires i == g.R ==> pr.pc == PassRecv
    requires !TransitRecv(start)
    ensures RecordOk(c, g.(R := g.R + 1), m, i, After(pr, Follows(g, m, i, g.R), RECV, i == g.R, WaitTape), start)
  {
  }

  lemma ExitOne(c: Conf, g: Phase, m: nat, i: nat, pr: Proc, start: PC)
    requires g.Ring? && g.S <= i < g.S + m && RecordOk(c, g, m, i, pr, start)
    requires g.S <= g.T <= g.R < g.S + m && g.T <= |c.cmds| <= g.R
    requires i == g.R ==> pr.pc == ExitPass
    requires !TransitRecv(start)
    ensures RecordOk(c, g.(R := g.R + 1), m, i, After(pr, Follows(g, m, i, g.R), RECV, i == g.R, Dead), start)
  {
  }

  lemma PassTapeOne(c: Conf, g: Phase, m: nat, i: nat, pr: Proc, start: PC)
    requires g.Ring? && g.S <= i < g.S + m && RecordOk(c, g, m, i, pr, start)
    requires g.S <= g.T < g.R <= g.S + m && g.T < |c.cmds|
    requires i == g.T ==> pr.pc == PassTape
    requires !TransitTape(start)
    ensures RecordOk(c, g.(T := g.T + 1), m, i, After(pr, Follows(g, m, i, g.T), TAPE, i == g.T, WaitSend), start)
  {
  }

  lemma PassSendOne(c: Conf, g: Phase, m: nat, i: nat, pr: Proc, start: PC, b': nat)
    requires g.Ring? && g.S <= i < g.S + m && RecordOk(c, g, m, i, pr, start)
    requires g.S < g.T <= g.R <= g.S + m && g.S < |c.cmds|
    requires i == g.S ==> pr.pc == PassSend
    requires !TransitSend(start)
    ensures RecordOk(c, g.(S := g.S + 1, b := b'), m, if i == g.S then g.S + m else i,
                     After(pr, Follows(g, m, i, g.S), SEND, i == g.S, Park), start)
  {
    PassSendPend(c, g, m, i, pr, start, b');
    PassSendPlace(c, g, m, i, pr, start, b');
    hide *;
  }

  lemma PassSendPend(c: Conf, g: Phase, m: nat, i: nat, pr: Proc, start: PC, b': nat)
    requires g.Ring? && g.S <= i < g.S + m && RecordOk(c, g, m, i, pr, start)
    requires g.S < g.T <= g.R <= g.S + m && g.S < |c.cmds|
    requires i == g.S ==> pr.pc == PassSend
    requires !TransitSend(start)
    ensures PendOk(g.(S := g.S + 1, b := b'), m, After(pr, Follows(g, m, i, g.S), SEND, i == g.S, Park),
                   if i == g.S then g.S + m else i, start)
  {
  }

  lemma PassSendPlace(c: Conf, g: Phase, m: nat, i: nat, pr: Proc, start: PC, b': nat)
    requires g.Ring? && g.S <= i < g.S + m && RecordOk(c, g, m, i, pr, start)
    requires g.S < g.T <= g.R <= g.S + m && g.S < |c.cmds|
    requires i == g.S ==> pr.pc == PassSend
    ensures PlaceOk(c, g.(S := g.S + 1, b := b'), After(pr, Follows(g, m, i, g.S), SEND, i == g.S, Park),
                    if i == g.S then g.S + m else i)
  {
  }

  // ----- the ring's geometry -----

  lemma IdxFacts(g: Phase, m: nat, p: nat, q: nat)
    requires g.Ring? && p < m && q < m && g.b < m
    ensures g.S <= Idx(g, m, p) < g.S + m
    ensures Idx(g, m, p) == Idx(g, m, q) <==> p == q
    ensures q == Prev(m, p) <==> Follows(g, m, Idx(g, m, q), Idx(g, m, p))
    ensures Idx(g, m, p) == g.S <==> p == g.b
  {
  }

  lemma IdxShift(g: Phase, m: nat, p: nat)
    requires g.Ring? && p < m && g.b < m
    ensures Idx(g.(S := g.S + 1, b := Prev(m, g.b)), m, p) == (if p == g.b then g.S + m else Idx(g, m, p))
  {
  }

  // ----- lifting record steps to the state -----

  predicate SameTransit(pc: PC, pc': PC) {
    TransitRecv(pc) == TransitRecv(pc') && TransitTape(pc) == TransitTape(pc') && TransitSend(pc) == TransitSend(pc')
  }

  lemma TransitCongruence(c: Conf, g: Phase, m: nat, i: nat, pr: Proc, start: PC, start': PC)
    requires g.Ring? && SameTransit(start, start') && RecordOk(c, g, m, i, pr, start)
    ensures RecordOk(c, g, m, i, pr, start')
  {
  }

  /** A step that changes the record of one process only. */
  lemma SetProcKeeps(c: Conf, s: State, g: Phase, p: nat, pr': Proc)
    requires g.Ring? && p < |s.procs| && g.b < |s.procs| && ProcsOk(c, s, g)
    requires p == Starter(|s.procs|) ==> SameTransit(s.procs[p].pc, pr'.pc)
    requires ProcOk(c, g, |s.procs|, p, pr', s.procs[Starter(|s.procs|)].pc)
    ensures ProcsOk(c, SetProc(s, p, pr'), g)
  {
    hide RecordOk, StartOk, Idx;
    var m, s', start := |s.procs|, SetProc(s, p, pr'), s.procs[Starter(|s.procs|)].pc;
    forall q | 0 <= q < m ensures ProcOk(c, g, m, q, s'.procs[q], s'.procs[Starter(m)].pc) {
      assert ProcOk(c, g, m, q, s.procs[q], start);
      TransitCongruence(c, g, m, Idx(g, m, q), s'.procs[q], start, s'.procs[Starter(m)].pc);
    }
  }

  /** What KillGoto does to each record. */
  lemma KillGotoAt(s: State, g: Phase, p: nat, sig: Sig, pc: PC, q: nat)
    requires g.Ring? && p < |s.procs| && q < |s.procs| && g.b < |s.procs|
    requires s.procs[p].next == Prev(|s.procs|, p) && !s.procs[p].pc.Dead?
    ensures var m := |s.procs|;
            |KillGoto(s, p, s.procs[p].next, sig, pc).procs| == m
            && KillGoto(s, p, s.procs[p].next, sig, pc).procs[q]
            == After(s.procs[q], Follows(g, m, Idx(g, m, q), Idx(g, m, p)), sig, q == p, pc)
  {
    KillGotoRecord(s, p, s.procs[p].next, sig, pc, q);
    hide KillGoto, After;
    IdxFacts(g, |s.procs|, p, q);
  }

  lemma KillGotoRecord(s: State, p: nat, to: nat, sig: Sig, pc: PC, q: nat)
    requires p < |s.procs| && q < |s.procs|
    ensures var s' := KillGoto(s, p, to, sig, pc);
      |s'.procs| == |s.procs| && s'.procs[q] == After(s.procs[q], q == to, sig, q == p, pc)
  {
  }

  /** The record of process q fits the new phase after p has sent `sig` and moved to `pc`. */
  ghost predicate Lifts(c: Conf, s: State, g: Phase, g': Phase, p: nat, sig: Sig, pc: PC, q: nat)
    requires g.Ring? && g'.Ring? && p < |s.procs| && q < |s.procs| && g.b < |s.procs| && g'.b < |s.procs|
  {
    var m := |s.procs|;
    var pr' := After(s.procs[q], Follows(g, m, Idx(g, m, q), Idx(g, m, p)), sig, q == p, pc);
    RecordOk(c, g', m, Idx(g', m, q), pr', s.procs[Starter(m)].pc) && StartOk(g', m, q, pr'.pc)
  }

  /** Lifts a record-level step that sends a token along the ring. */
  lemma LiftKill(c: Conf, s: State, g: Phase, g': Phase, p: nat, sig: Sig, pc: PC)
    requires g.Ring? && g'.Ring? && p < |s.procs| && g.b < |s.procs| && g'.b < |s.procs| && ProcsOk(c, s, g)
    requires !s.procs[p].pc.Dead? && SameTransit(s.procs[p].pc, pc)
    requires forall q {:trigger s.procs[q]} :: 0 <= q < |s.procs| ==> Lifts(c, s, g, g', p, sig, pc, q)
    ensures ProcsOk(c, KillGoto(s, p, s.procs[p].next, sig, pc), g')
  {
    hide RecordOk, StartOk, Idx, Follows;
    var m, s', start := |s.procs|, KillGoto(s, p, s.procs[p].next, sig, pc), s.procs[Starter(|s.procs|)].pc;
    assert ProcOk(c, g, m, p, s.procs[p], start);
    KillGotoAt(s, g, p, sig, pc, Starter(m));
    forall q | 0 <= q < m ensures ProcOk(c, g', m, q, s'.procs[q], s'.procs[Starter(m)].pc) {
      assert ProcOk(c, g, m, q, s.procs[q], start);
      KillGotoAt(s, g, p, sig, pc, q);
      TransitCongruence(c, g', m, Idx(g', m, q), s'.procs[q], start, s'.procs[Starter(m)].pc);
    }
  }

  /** The starter and the parent have left the start-up code once a token they send has moved on. */
  lemma StartKeeps(g: Phase, g': Phase, m: nat, q: nat, pc: PC, start: PC)
    requires g.Ring? && g'.Ring? && q < m && StartOk(g, m, q, pc)
    requires q == Starter(m) ==> pc == start
    requires g'.b == g.b && g'.S == g.S
    requires g'.R == g.R || !TransitRecv(start)
    requires g'.T == g.T || !TransitTape(start)
    requires q == 0 ==> !TransitSend(pc) || g' == g
    ensures StartOk(g', m, q, pc)
  {
  }

  lemma PassTapeAt(c: Conf, g: Phase, m: nat, q: nat, pr: Proc, start: PC, p: nat)
    requires g.Ring? && q < m && p < m && g.b < m && ProcOk(c, g, m, q, pr, start)
    requires Idx(g, m, p) == g.T < g.R <= g.S + m && g.T < |c.cmds| && !TransitTape(start)
    requires (q == p ==> pr.pc == PassTape) && (q == Starter(m) ==> pr.pc == start)
    ensures var g' := g.(T := g.T + 1);
      var pr' := After(pr, Follows(g, m, Idx(g, m, q), Idx(g, m, p)), TAPE, q == p, WaitSend);
      RecordOk(c, g', m, Idx(g', m, q), pr', start) && StartOk(g', m, q, pr'.pc)
  {
    hide RecordOk, Follows;
    IdxFacts(g, m, p, q);
    PassTapeOne(c, g, m, Idx(g, m, q), pr, start);
    StartKeeps(g, g.(T := g.T + 1), m, q, pr.pc, start);
  }

  lemma PassTapeProcs(c: Conf, s: State, g: Phase, p: nat)
    requires g.Ring? && RingShape(c, s, g) && ProcsOk(c, s, g) && p < |s.procs| && s.procs[p].pc == PassTape
    ensures Idx(g, |s.procs|, p) == g.T < g.R && g.T < |c.cmds|
    ensures ProcsOk(c, KillGoto(s, p, s.procs[p].next, TAPE, WaitSend), g.(T := g.T + 1))
  {
    var m, start := |s.procs|, s.procs[Starter(|s.procs|)].pc;
    assert ProcOk(c, g, m, p, s.procs[p], start);
    IdxFacts(g, m, p, p);
    assert Idx(g, m, p) == g.T < g.R && g.T < |c.cmds| && !TransitTape(start);
    hide RecordOk, StartOk, Follows, Idx, KillGoto;
    var g' := g.(T := g.T + 1);
    forall q | 0 <= q < m ensures Lifts(c, s, g, g', p, TAPE, WaitSend, q) {
      assert ProcOk(c, g, m, q, s.procs[q], start);
      PassTapeAt(c, g, m, q, s.procs[q], start, p);
    }
    LiftKill(c, s, g, g', p, TAPE, WaitSend);
  }

  lemma PassRecvAt(c: Conf, g: Phase, m: nat, q: nat, pr: Proc, start: PC, p: nat)
    requires g.Ring? && q < m && p < m && g.b < m && ProcOk(c, g, m, q, pr, start)
    requires Idx(g, m, p) == g.R < g.S + m && g.S <= g.T <= g.R < |c.cmds| && !TransitRecv(start)
    requires (q == p ==> pr.pc == PassRecv) && (q == Starter(m) ==> pr.pc == start)
    ensures var g' := g.(R := g.R + 1);
      var pr' := After(pr, Follows(g, m, Idx(g, m, q), Idx(g, m, p)), RECV, q == p, WaitTape);
      RecordOk(c, g', m, Idx(g', m, q), pr', start) && StartOk(g', m, q, pr'.pc)
  {
    hide RecordOk, Follows;
    IdxFacts(g, m, p, q);
    PassRecvOne(c, g, m, Idx(g, m, q), pr, start);
    StartKeeps(g, g.(R := g.R + 1), m, q, pr.pc, start);
  }

  lemma PassRecvProcs(c: Conf, s: State, g: Phase, p: nat)
    requires g.Ring? && RingShape(c, s, g) && ProcsOk(c, s, g) && p < |s.procs| && s.procs[p].pc == PassRecv
    ensures Idx(g, |s.procs|, p) == g.R < |c.cmds| && c.cmds[g.R].Op?
    ensures ProcsOk(c, KillGoto(s, p, s.procs[p].next, RECV, WaitTape), g.(R := g.R + 1))
  {
    var m, start := |s.procs|, s.procs[Starter(|s.procs|)].pc;
    assert ProcOk(c, g, m, p, s.procs[p], start);
    IdxFacts(g, m, p, p);
    assert Idx(g, m, p) == g.R < |c.cmds| && c.cmds[g.R].Op? && !TransitRecv(start);
    hide RecordOk, StartOk, Follows, Idx, KillGoto;
    var g' := g.(R := g.R + 1);
    forall q | 0 <= q < m ensures Lifts(c, s, g, g', p, RECV, WaitTape, q) {
      assert ProcOk(c, g, m, q, s.procs[q], start);
      PassRecvAt(c, g, m, q, s.procs[q], start, p);
    }
    LiftKill(c, s, g, g', p, RECV, WaitTape);
  }

  lemma ExitAt(c: Conf, g: Phase, m: nat, q: nat, pr: Proc, start: PC, p: nat)
    requires g.Ring? && q < m && p < m && g.b < m && ProcOk(c, g, m, q, pr, start)
    requires Idx(g, m, p) == g.R < g.S + m && g.S <= g.T <= |c.cmds| <= g.R && !TransitRecv(start)
    requires (q == p ==> pr.pc == ExitPass) && (q == Starter(m) ==> pr.pc == start)
    ensures var g' := g.(R := g.R + 1);
      var pr' := After(pr, Follows(g, m, Idx(g, m, q), Idx(g, m, p)), RECV, q == p, Dead);
      RecordOk(c, g', m, Idx(g', m, q), pr', start) && StartOk(g', m, q, pr'.pc)
  {
    hide RecordOk, Follows;
    IdxFacts(g, m, p, q);
    ExitOne(c, g, m, Idx(g, m, q), pr, start);
    StartKeeps(g, g.(R := g.R + 1), m, q, pr.pc, start);
  }

  lemma ExitProcs(c: Conf, s: State, g: Phase, p: nat)
    requires g.Ring? && RingShape(c, s, g) && ProcsOk(c, s, g) && p < |s.procs| && s.procs[p].pc == ExitPass
    ensures |c.cmds| <= g.R == Idx(g, |s.procs|, p)
    ensures ProcsOk(c, KillGoto(s, p, s.procs[p].next, RECV, Dead), g.(R := g.R + 1))
  {
    var m, start := |s.procs|, s.procs[Starter(|s.procs|)].pc;
    assert ProcOk(c, g, m, p, s.procs[p], start);
    IdxFacts(g, m, p, p);
    assert |c.cmds| <= g.R == Idx(g, m, p) && !TransitRecv(start);
    hide RecordOk, StartOk, Follows, Idx, KillGoto;
    var g' := g.(R := g.R + 1);
    forall q | 0 <= q < m ensures Lifts(c, s, g, g', p, RECV, Dead, q) {
      assert ProcOk(c, g, m, q, s.procs[q], start);
      ExitAt(c, g, m, q, s.procs[q], start, p);
    }
    LiftKill(c, s, g, g', p, RECV, Dead);
  }

  lemma PassSendAt(c: Conf, g: Phase, m: nat, q: nat, pr: Proc, start: PC, p: nat)
    requires g.Ring? && q < m && p == g.b < m && ProcOk(c, g, m, q, pr, start)
    requires g.S < g.T <= g.R <= g.S + m && g.S < |c.cmds| && !TransitSend(start)
    requires (q == p ==> pr.pc == PassSend) && (q == Starter(m) ==> pr.pc == start)
    ensures var g' := g.(S := g.S + 1, b := Prev(m, g.b));
      var pr' := After(pr, Follows(g, m, Idx(g, m, q), Idx(g, m, p)), SEND, q == p, Park);
      RecordOk(c, g', m, Idx(g', m, q), pr', start) && StartOk(g', m, q, pr'.pc)
  {
    IdxFacts(g, m, p, q);
    IdxShift(g, m, q);
    hide RecordOk, Follows, Idx;
    PassSendOne(c, g, m, Idx(g, m, q), pr, start, Prev(m, g.b));
  }

  lemma PassSendProcs(c: Conf, s: State, g: Phase, p: nat)
    requires g.Ring? && RingShape(c, s, g) && ProcsOk(c, s, g) && p < |s.procs| && s.procs[p].pc == PassSend
    ensures p == g.b && g.S < g.T && g.S < |c.cmds|
    ensures ProcsOk(c, KillGoto(s, p, s.procs[p].next, SEND, Park), g.(S := g.S + 1, b := Prev(|s.procs|, g.b)))
  {
    var m, start := |s.procs|, s.procs[Starter(|s.procs|)].pc;
    var g' := g.(S := g.S + 1, b := Prev(m, g.b));
    assert ProcOk(c, g, m, p, s.procs[p], start);
    IdxFacts(g, m, p, p);
    assert p == g.b && g.S < g.T && g.S < |c.cmds| && !TransitSend(start);
    hide RecordOk, StartOk, Follows, Idx, KillGoto;
    forall q | 0 <= q < m ensures Lifts(c, s, g, g', p, SEND, Park, q) {
      assert ProcOk(c, g, m, q, s.procs[q], start);
      PassSendAt(c, g, m, q, s.procs[q], start, p);
    }
    LiftKill(c, s, g, g', p, SEND, Park);
  }

  // ----- steps that change one record only -----

  /** The new record of a process that takes a step without sending a token, or None if blocked. */
  function LocalRecord(c: Conf, pr: Proc, i: nat): Option<Proc>
    requires i < |c.cmds| || pr.pc !in {Args, DoTape}
  {
    match pr.pc
    case Top => Some(if i >= |c.cmds| then pr.(pc := ExitPass)
                     else pr.(key := KeyOf(c.cmds[i]), pc := if c.cmds[i].Op? then Args else RvTape))
    case Args => Some(pr.(cmd := i, pc := PassRecv))
    case WaitTape => if pr.pend.tape then Some(pr.(pend := pr.pend.(tape := false), pc := DoTape)) else None
    case DoTape => Some(pr.(res := SeqResult(c, i), pc := PassTape))
    case WaitSend => if pr.pend.send then Some(pr.(pend := pr.pend.(send := false), pc := Respond)) else None
    case Respond => Some(pr.(pc := Data))
    case Data => Some(pr.(pc := PassSend))
    case Park => if pr.pend.recv then Some(pr.(pend := pr.pend.(recv := false), pc := Top)) else None
    case RvTape => if pr.pend.tape then Some(pr.(pend := pr.pend.(tape := false), pc := RvSend)) else None
    case RvSend => if pr.pend.send then Some(pr.(pend := pr.pend.(send := false), pc := RvKill)) else None
    case _ => None
  }

  lemma LocalRead(c: Conf, g: Phase, m: nat, i: nat, pr: Proc, start: PC)
    requires g.Ring? && g.S <= i < g.S + m && RecordOk(c, g, m, i, pr, start)
    requires g.S <= g.T <= g.R <= g.S + m && g.T <= |c.cmds|
    requires pr.pc.Top? || (pr.pc.Args? && i < |c.cmds|)
    ensures i == g.R && (pr.pc.Args? ==> i < |c.cmds|)
    ensures RecordOk(c, g, m, i, LocalRecord(c, pr, i).value, start)
  {
  }

  lemma LocalWait(c: Conf, g: Phase, m: nat, i: nat, pr: Proc, start: PC)
    requires g.Ring? && g.S <= i < g.S + m && RecordOk(c, g, m, i, pr, start)
    requires g.S <= g.T <= g.R <= g.S + m && g.T <= |c.cmds|
    requires pr.pc.Park? || pr.pc.RvTape? || pr.pc.RvSend?
    requires LocalRecord(c, pr, i).Some?
    ensures i == g.R && RecordOk(c, g, m, i, LocalRecord(c, pr, i).value, start)
  {
  }

  predicate InFlightPC(pc: PC) { pc.WaitTape? || pc.DoTape? || pc.WaitSend? || pc.Respond? || pc.Data? }

  lemma LocalInFlight(c: Conf, g: Phase, m: nat, i: nat, pr: Proc, start: PC)
    requires g.Ring? && g.S <= i < g.S + m && RecordOk(c, g, m, i, pr, start)
    requires g.S <= g.T <= g.R <= g.S + m && g.T <= |c.cmds|
    requires InFlightPC(pr.pc) && (pr.pc.DoTape? ==> i < |c.cmds|)
    requires LocalRecord(c, pr, i).Some?
    ensures i < g.R && i < |c.cmds| && c.cmds[i].Op? && pr.cmd == i
    ensures i == if pr.pc.WaitTape? || pr.pc.DoTape? then g.T else g.S
    ensures !(pr.pc.WaitTape? || pr.pc.DoTape?) ==> pr.res == SeqResult(c, i)
    ensures RecordOk(c, g, m, i, LocalRecord(c, pr, i).value, start)
  {
  }

  /** The program counters that LocalRecord handles and that are not start-up code. */
  predicate LocalPC(pc: PC) {
    InFlightPC(pc) || pc.Top? || pc.Args? || pc.Park? || pc.RvTape? || pc.RvSend?
  }

  lemma PlaceBound(c: Conf, g: Phase, pr: Proc, i: nat)
    requires g.Ring? && PlaceOk(c, g, pr, i) && (pr.pc.Args? || pr.pc.DoTape?)
    ensures i < |c.cmds|
  {
  }

  /** Steps of the loop proper that send nothing keep every record in order. */
  lemma LocalProcs(c: Conf, s: State, g: Phase, p: nat)
    requires g.Ring? && RingShape(c, s, g) && ProcsOk(c, s, g) && p < |s.procs| && LocalPC(s.procs[p].pc)
    ensures var i, pr := Idx(g, |s.procs|, p), s.procs[p];
      && (pr.pc.Args? || pr.pc.DoTape? ==> i < |c.cmds|)
      && (LocalRecord(c, pr, i).Some? ==>
          && (if InFlightPC(pr.pc) then
                && i < g.R && i < |c.cmds| && c.cmds[i].Op? && pr.cmd == i
                && i == (if pr.pc.WaitTape? || pr.pc.DoTape? then g.T else g.S)
                && (pr.pc.WaitTape? || pr.pc.DoTape? || pr.res == SeqResult(c, i))
              else i == g.R)
          && ProcsOk(c, SetProc(s, p, LocalRecord(c, pr, i).value), g))
  {
    var m, pr, start := |s.procs|, s.procs[p], s.procs[Starter(|s.procs|)].pc;
    var i := Idx(g, m, p);
    assert ProcOk(c, g, m, p, pr, start);
    IdxFacts(g, m, p, p);
    hide PendOk, PlaceOk, Idx;
    if pr.pc.Args? || pr.pc.DoTape? { PlaceBound(c, g, pr, i); }
    if LocalRecord(c, pr, i).Some? {
      LocalOne(c, g, m, i, pr, start);
      hide RecordOk;
      SetProcKeeps(c, s, g, p, LocalRecord(c, pr, i).value);
    }
  }

  lemma LocalOne(c: Conf, g: Phase, m: nat, i: nat, pr: Proc, start: PC)
    requires g.Ring? && g.S <= i < g.S + m && RecordOk(c, g, m, i, pr, start)
    requires g.S <= g.T <= g.R <= g.S + m && g.T <= |c.cmds|
    requires LocalPC(pr.pc) && (pr.pc.Args? || pr.pc.DoTape? ==> i < |c.cmds|)
    requires LocalRecord(c, pr, i).Some?
    ensures if InFlightPC(pr.pc) then
              && i < g.R && i < |c.cmds| && c.cmds[i].Op? && pr.cmd == i
              && i == (if pr.pc.WaitTape? || pr.pc.DoTape? then g.T else g.S)
              && (pr.pc.WaitTape? || pr.pc.DoTape? || pr.res == SeqResult(c, i))
            else i == g.R
    ensures RecordOk(c, g, m, i, LocalRecord(c, pr, i).value, start)
  {
    hide RecordOk;
    if InFlightPC(pr.pc) { LocalInFlight(c, g, m, i, pr, start); }
    else if pr.pc.Top? || pr.pc.Args? { LocalRead(c, g, m, i, pr, start); }
    else { LocalWait(c, g, m, i, pr, start); }
  }

  // ----- start-up after an open -----

  predicate Starting(pc: PC) { pc.StartRecv? || pc.StartTape? || pc.StartSend? }

  function StartSig(pc: PC): Sig {
    match pc case StartRecv => RECV case StartTape => TAPE case _ => SEND
  }

  function StartNext(pc: PC): PC {
    match pc case StartRecv => StartTape case StartTape => StartSend case _ => Park
  }

  lemma StartOne(c: Conf, g: Phase, m: nat, i: nat, pr: Proc, start: PC, self: bool)
    requires g.Ring? && m > 0 && g.S <= i < g.S + m && RecordOk(c, g, m, i, pr, start)
    requires g.S <= g.T <= g.R <= g.S + m && Starting(start)
    requires (TransitRecv(start) ==> g.R == g.S) && (TransitTape(start) ==> g.T == g.S)
    requires self ==> pr.pc == start
    ensures RecordOk(c, g, m, i, After(pr, i == g.S, StartSig(start), self, StartNext(start)), StartNext(start))
  {
  }

  lemma StartAt(c: Conf, g: Phase, m: nat, q: nat, pr: Proc, start: PC, p: nat)
    requires g.Ring? && q < m && p == Starter(m) && g.b == 0 && ProcOk(c, g, m, q, pr, start)
    requires g.S <= g.T <= g.R <= g.S + m && Starting(start) && (q == p ==> pr.pc == start)
    requires (TransitRecv(start) ==> g.R == g.S) && (TransitTape(start) ==> g.T == g.S)
    ensures ProcOk(c, g, m, q, After(pr, q == 0, StartSig(start), q == p, StartNext(start)), StartNext(start))
  {
    IdxFacts(g, m, p, q);
    hide RecordOk;
    StartOne(c, g, m, Idx(g, m, q), pr, start, q == p);
  }

  lemma StartProcs(c: Conf, s: State, g: Phase, p: nat)
    requires g.Ring? && RingShape(c, s, g) && ProcsOk(c, s, g) && p < |s.procs| && Starting(s.procs[p].pc)
    ensures p == Starter(|s.procs|)
    ensures ProcsOk(c, KillGoto(s, p, 0, StartSig(s.procs[p].pc), StartNext(s.procs[p].pc)), g)
  {
    var m, start := |s.procs|, s.procs[p].pc;
    var s' := KillGoto(s, p, 0, StartSig(start), StartNext(start));
    assert ProcOk(c, g, m, p, s.procs[p], s.procs[Starter(m)].pc);
    assert p == Starter(m) && g.b == 0;
    hide RecordOk, StartOk, Idx, StartSig, StartNext;
    forall q | 0 <= q < m ensures ProcOk(c, g, m, q, s'.procs[q], StartNext(start)) {
      assert ProcOk(c, g, m, q, s.procs[q], start);
      StartAt(c, g, m, q, s.procs[q], start, p);
      assert s'.procs[q] == After(s.procs[q], q == 0, StartSig(start), q == p, StartNext(start));
    }
  }

  lemma ParkishPlace(c: Conf, g: Phase, pr: Proc, i: nat)
    requires g.Ring? && Parkish(pr.pc)
    ensures PlaceOk(c, g, pr, i) <==> g.R <= i
  {
  }

  lemma ParkishSwap(c: Conf, g: Phase, m: nat, i: nat, pr: Proc, start: PC, pc: PC)
    requires g.Ring? && RecordOk(c, g, m, i, pr, start) && Parkish(pr.pc) && Parkish(pc)
    ensures RecordOk(c, g, m, i, pr.(pc := pc), start)
  {
    hide PlaceOk;
    ParkishPlace(c, g, pr, i);
    ParkishPlace(c, g, pr.(pc := pc), i);
  }

  lemma CheckNextProcs(c: Conf, s: State, g: Phase, p: nat)
    requires g.Ring? && RingShape(c, s, g) && ProcsOk(c, s, g) && p < |s.procs|
    requires s.procs[p].pc.CheckNext? || s.procs[p].pc.Fork?
    ensures var pc := if s.procs[p].pc.Fork? then CheckNext else if s.procs[p].next == 0 then StartRecv else Park;
            ProcsOk(c, Goto(s, p, pc), g)
  {
    var m, pr, start := |s.procs|, s.procs[p], s.procs[Starter(|s.procs|)].pc;
    var pc := if pr.pc.Fork? then CheckNext else if pr.next == 0 then StartRecv else Park;
    assert ProcOk(c, g, m, p, pr, start);
    hide RecordOk, Idx;
    ParkishSwap(c, g, m, Idx(g, m, p), pr, start, pc);
    SetProcKeeps(c, s, g, p, pr.(pc := pc));
  }

  /** The state after the parent has forked one more child. */
  function Forked(s: State): State
    requires |s.procs| > 0
  {
    s.(procs := s.procs[0 := s.procs[0].(next := |s.procs|)] + [s.procs[0].(pc := CheckNext, pend := NONE)])
  }

  lemma ForkOne(c: Conf, g: Phase, m: nat, i: nat, i': nat, pr: Proc, start: PC, start': PC)
    requires g.Ring? && m > 0 && RecordOk(c, g, m, i, pr, start) && SameTransit(start, start')
    requires g.S == g.T == g.R <= i && (i == g.S ==> i' == g.S) && (i > g.S ==> i' > g.S)
    ensures RecordOk(c, g, m + 1, i', pr, start')
  {
  }

  lemma ForkProcs(c: Conf, s: State, g: Phase)
    requires g.Ring? && RingShape(c, s, g) && ProcsOk(c, s, g) && s.procs[0].pc.Fork?
    ensures g.b == 0 && g.S == g.T == g.R
    ensures ProcsOk(c, Forked(s), g)
  {
    var m, s', start := |s.procs|, Forked(s), s.procs[Starter(|s.procs|)].pc;
    assert ProcOk(c, g, m, 0, s.procs[0], start);
    assert g.b == 0 && g.S == g.T == g.R;
    var start' := s'.procs[Starter(m + 1)].pc;
    assert SameTransit(start, start') by { hide RecordOk; }
    forall q | 0 <= q < m + 1 ensures ProcOk(c, g, m + 1, q, s'.procs[q], start') {
      if q < m {
        assert ProcOk(c, g, m, q, s.procs[q], start);
        ForkOne(c, g, m, Idx(g, m, q), Idx(g, m + 1, q), s.procs[q], start, start');
      }
    }
  }

  // ----- leaving the ring for a rendezvous -----

  lemma SignalOthers(c: Conf, g: Phase, m: nat, q: nat, pr: Proc, start: PC)
    requires g.Ring? && q < m && g.b < m && ProcOk(c, g, m, q, pr, start)
    requires g.S == g.T == g.R && q != g.b && !TransitSend(start) && (q == Starter(m) ==> pr.pc == start)
    ensures Quiet(pr) && (q == 0 ==> pr.pc.Park?)
  {
    IdxFacts(g, m, g.b, q);
  }

  lemma RingSignal(c: Conf, s: State, g: Phase, p: nat)
    requires g.Ring? && RingInv(c, s, g) && p < |s.procs| && s.procs[p].pc == RvKill
    ensures SignalledInv(c, KillGoto(s, p, 0, SigOf(s.procs[p].key), RvPause), Signalled(p, g.R))
  {
    var m, start := |s.procs|, s.procs[Starter(|s.procs|)].pc;
    assert ProcOk(c, g, m, p, s.procs[p], start);
    IdxFacts(g, m, g.b, p);
    assert p == g.b && g.S == g.T == g.R && !TransitSend(start);
    assert s.procs[p].pend == NONE;
    forall q | 0 <= q < m && q != p ensures Quiet(s.procs[q]) && (q == 0 ==> s.procs[q].pc.Park?) {
      assert ProcOk(c, g, m, q, s.procs[q], start);
      SignalOthers(c, g, m, q, s.procs[q], start);
    }
  }

  // ----- input, tape and output positions -----

  /** How the log positions look after process `p` moved to `pc` and nobody else moved. */
  lemma CursorAfter(s: State, s': State, g: Phase, p: nat)
    requires g.Ring? && g.b < |s.procs| == |s'.procs| && g.S <= g.T && g.S <= g.R && p < |s.procs|
    requires forall q {:trigger s'.procs[q]} :: 0 <= q < |s.procs| && q != p ==> s'.procs[q].pc == s.procs[q].pc
    ensures Idx(g, |s.procs|, p) == g.R ==>
      Ahead(s, g) == InOffset(s.procs[p].pc) && Ahead(s', g) == InOffset(s'.procs[p].pc)
    ensures Idx(g, |s.procs|, p) != g.R ==> Ahead(s', g) == Ahead(s, g)
    ensures Idx(g, |s.procs|, p) == g.T ==>
      TapeAhead(s, g) == s.procs[p].pc.PassTape? && TapeAhead(s', g) == s'.procs[p].pc.PassTape?
    ensures Idx(g, |s.procs|, p) != g.T ==> TapeAhead(s', g) == TapeAhead(s, g)
  {
    IdxFacts(g, |s.procs|, p, p);
    if g.R < g.S + |s.procs| { IdxFacts(g, |s.procs|, p, Pid(g, |s.procs|, g.R)); }
    if g.T < g.S + |s.procs| { IdxFacts(g, |s.procs|, p, Pid(g, |s.procs|, g.T)); }
  }

  /** Only the process whose turn it is can be ahead on a log. */
  lemma CursorOf(c: Conf, s: State, g: Phase, q: nat)
    requires g.Ring? && RingShape(c, s, g) && ProcsOk(c, s, g) && q < |s.procs|
    ensures s.procs[q].pc.PassTape? ==> Idx(g, |s.procs|, q) == g.T
    ensures s.procs[q].pc.Data? || s.procs[q].pc.PassSend? ==> q == g.b
    ensures InOffset(s.procs[q].pc) > 0 ==> Idx(g, |s.procs|, q) == g.R
  {
    assert ProcOk(c, g, |s.procs|, q, s.procs[q], s.procs[Starter(|s.procs|)].pc);
    IdxFacts(g, |s.procs|, q, q);
  }

  lemma KillGotoFrame(s: State, p: nat, to: nat, sig: Sig, pc: PC)
    requires p < |s.procs|
    ensures var s' := KillGoto(s, p, to, sig, pc);
      && |s'.procs| == |s.procs| && s'.inpos == s.inpos && s'.tape == s.tape && s'.out == s.out
      && s'.procs[p].pc == pc
      && forall q {:trigger s'.procs[q]} :: 0 <= q < |s.procs| && q != p ==> s'.procs[q].pc == s.procs[q].pc
  {
  }

  /** Log positions when RECV moves on, by a command that has been read or by an exit. */
  lemma RecvPositions(c: Conf, s: State, s': State, g: Phase, p: nat, pc: PC)
    requires g.Ring? && RingShape(c, s, g) && ProcsOk(c, s, g) && p < |s.procs| && g.R < g.S + |s.procs|
    requires s' == KillGoto(s, p, s.procs[p].next, RECV, pc) && InOffset(pc) == 0 && !pc.PassTape?
    requires Idx(g, |s.procs|, p) == g.R && !s.procs[p].pc.PassTape?
    ensures Ahead(s, g) == InOffset(s.procs[p].pc) && Ahead(s', g.(R := g.R + 1)) == 0
    ensures TapeAhead(s', g.(R := g.R + 1)) == TapeAhead(s, g)
  {
    hide KillGoto, ProcsOk, InOffset;
    var m, g' := |s.procs|, g.(R := g.R + 1);
    KillGotoFrame(s, p, s.procs[p].next, RECV, pc);
    CursorAfter(s, s', g, p);
    if g'.R < g.S + m {
      var q := Pid(g', m, g'.R);
      CursorOf(c, s, g, q);
      assert Idx(g, m, q) == g.R + 1;
    }
  }

  lemma RecvLogs(c: Conf, s: State, s': State, g: Phase, p: nat, pc: PC)
    requires g.Ring? && RingInv(c, s, g) && p < |s.procs|
    requires s' == KillGoto(s, p, s.procs[p].next, RECV, pc) && (pc.WaitTape? || pc.Dead?)
    requires Idx(g, |s.procs|, p) == g.R < g.S + |s.procs|
    requires if g.R < |c.cmds| then s.procs[p].pc.PassRecv? && c.cmds[g.R].Op? else s.procs[p].pc.ExitPass?
    ensures RingShape(c, s', g.(R := g.R + 1)) && RingLogs(c, s', g.(R := g.R + 1))
  {
    hide ProcsOk, KillGoto, SeqTape, SeqOut, Idx, Pid, Reply, Ahead, TapeAhead, SeqResult, ReplyLine;
    RecvPositions(c, s, s', g, p, pc);
    KillGotoFrame(s, p, s.procs[p].next, RECV, pc);
  }

  lemma TapePositions(c: Conf, s: State, s': State, g: Phase, p: nat)
    requires g.Ring? && RingShape(c, s, g) && ProcsOk(c, s, g) && p < |s.procs|
    requires s' == KillGoto(s, p, s.procs[p].next, TAPE, WaitSend) && s.procs[p].pc.PassTape?
    requires Idx(g, |s.procs|, p) == g.T
    ensures TapeAhead(s, g) && !TapeAhead(s', g.(T := g.T + 1))
    ensures Ahead(s', g.(T := g.T + 1)) == Ahead(s, g)
  {
    hide KillGoto, ProcsOk;
    var m, g' := |s.procs|, g.(T := g.T + 1);
    KillGotoFrame(s, p, s.procs[p].next, TAPE, WaitSend);
    CursorAfter(s, s', g, p);
    if g'.T < g.S + m {
      var q := Pid(g', m, g'.T);
      CursorOf(c, s, g, q);
      assert Idx(g, m, q) == g.T + 1;
    }
  }

  lemma TapeLogs(c: Conf, s: State, s': State, g: Phase, p: nat)
    requires g.Ring? && RingInv(c, s, g) && p < |s.procs|
    requires s' == KillGoto(s, p, s.procs[p].next, TAPE, WaitSend) && s.procs[p].pc.PassTape?
    requires Idx(g, |s.procs|, p) == g.T < g.R && g.T < |c.cmds|
    ensures RingShape(c, s', g.(T := g.T + 1)) && RingLogs(c, s', g.(T := g.T + 1))
  {
    hide ProcsOk, KillGoto, SeqTape, SeqOut, Idx, Pid, Reply, Ahead, TapeAhead, SeqResult, ReplyLine;
    TapePositions(c, s, s', g, p);
    KillGotoFrame(s, p, s.procs[p].next, TAPE, WaitSend);
  }

  lemma SendPositions(c: Conf, s: State, s': State, g: Phase, p: nat)
    requires g.Ring? && RingShape(c, s, g) && ProcsOk(c, s, g) && p < |s.procs|
    requires s' == KillGoto(s, p, s.procs[p].next, SEND, Park) && s.procs[p].pc.PassSend? && p == g.b
    ensures var g' := g.(S := g.S + 1, b := Prev(|s.procs|, g.b));
      Ahead(s', g') == Ahead(s, g) && TapeAhead(s', g') == TapeAhead(s, g)
      && Partial(c, g'.S, s'.procs[g'.b].pc) == []
  {
    hide KillGoto, ProcsOk, SeqResult, Reply, ReplyLine;
    var m, g' := |s.procs|, g.(S := g.S + 1, b := Prev(|s.procs|, g.b));
    KillGotoFrame(s, p, s.procs[p].next, SEND, Park);
    CursorAfter(s, s', g, p);
    CursorOf(c, s, g, g'.b);
    CursorOf(c, s, g, p);
  }

  lemma SendLogs(c: Conf, s: State, s': State, g: Phase, p: nat)
    requires g.Ring? && RingInv(c, s, g) && p < |s.procs|
    requires s' == KillGoto(s, p, s.procs[p].next, SEND, Park) && s.procs[p].pc.PassSend?
    requires p == g.b && g.S < g.T && g.S < |c.cmds|
    ensures var g' := g.(S := g.S + 1, b := Prev(|s.procs|, g.b)); RingShape(c, s', g') && RingLogs(c, s', g')
  {
    hide ProcsOk, KillGoto, SeqTape, Idx, Pid, Reply, Ahead, TapeAhead, SeqResult, ReplyLine;
    SendPositions(c, s, s', g, p);
    KillGotoFrame(s, p, s.procs[p].next, SEND, Park);
  }

  /** The state after a local step of process `p`, which is on command `i`. */
  function LocalState(c: Conf, s: State, p: nat, i: nat): State
    requires p < |s.procs| && (i < |c.cmds| || s.procs[p].pc !in {Args, DoTape})
    requires LocalRecord(c, s.procs[p], i).Some?
  {
    var s1 := SetProc(s, p, LocalRecord(c, s.procs[p], i).value);
    match s.procs[p].pc
    case Top => if i < |c.cmds| then s1.(inpos := s.inpos + 1) else s1
    case Args => s1.(inpos := s.inpos + 1)
    case DoTape => s1.(tape := s.tape + TapeOps(c.cmds[i]))
    case Respond => if i < |c.cmds| then s1.(out := s.out + [ReplyLine(c.cmds[i], SeqResult(c, i))]) else s1
    case Data => if i < |c.cmds| then s1.(out := s.out + ReplyData(c.cmds[i], SeqResult(c, i))) else s1
    case _ => s1
  }

  lemma LocalInput(c: Conf, s: State, g: Phase, p: nat)
    requires g.Ring? && RingInv(c, s, g) && p < |s.procs| && LocalPC(s.procs[p].pc) && !InFlightPC(s.procs[p].pc)
    requires Idx(g, |s.procs|, p) == g.R && (s.procs[p].pc.Args? ==> g.R < |c.cmds|)
    requires LocalRecord(c, s.procs[p], g.R).Some?
    ensures RingShape(c, LocalState(c, s, p, g.R), g) && RingLogs(c, LocalState(c, s, p, g.R), g)
  {
    hide ProcsOk, SeqTape, SeqOut, Idx, Pid, Reply, Ahead, TapeAhead, SeqResult, ReplyLine, ReplyData, RespondLine;
    var s' := LocalState(c, s, p, g.R);
    CursorAfter(s, s', g, p);
  }

  lemma LocalOutput(c: Conf, s: State, g: Phase, p: nat)
    requires g.Ring? && RingInv(c, s, g) && p < |s.procs| && InFlightPC(s.procs[p].pc)
    requires LocalRecord(c, s.procs[p], Idx(g, |s.procs|, p)).Some?
    requires var i, pc := Idx(g, |s.procs|, p), s.procs[p].pc;
      i < g.R && i < |c.cmds| && i == (if pc.WaitTape? || pc.DoTape? then g.T else g.S)
    ensures var s' := LocalState(c, s, p, Idx(g, |s.procs|, p)); RingShape(c, s', g) && RingLogs(c, s', g)
  {
    hide ProcsOk, SeqOut, Pid, Ahead, TapeAhead, ReplyLine, ReplyData, RespondLine;
    var s' := LocalState(c, s, p, Idx(g, |s.procs|, p));
    CursorAfter(s, s', g, p);
    IdxFacts(g, |s.procs|, p, p);
  }

  /** Start-up steps leave all log positions alone. */
  lemma QuietLogs(c: Conf, s: State, s': State, g: Phase, p: nat)
    requires g.Ring? && RingInv(c, s, g) && p < |s.procs| == |s'.procs|
    requires Parkish(s.procs[p].pc) && Parkish(s'.procs[p].pc)
    requires s'.inpos == s.inpos && s'.tape == s.tape && s'.out == s.out
    requires forall q {:trigger s'.procs[q]} :: 0 <= q < |s.procs| && q != p ==> s'.procs[q].pc == s.procs[q].pc
    ensures RingShape(c, s', g) && RingLogs(c, s', g)
  {
    hide ProcsOk, SeqTape, SeqOut, Idx, Pid, Reply, Ahead, TapeAhead, SeqResult, ReplyLine;
    CursorAfter(s, s', g, p);
  }

  lemma ForkPositions(c: Conf, s: State, g: Phase)
    requires g.Ring? && RingShape(c, s, g) && ProcsOk(c, s, g) && s.procs[0].pc.Fork? && g.b == 0 && g.S == g.T == g.R
    ensures Ahead(Forked(s), g) == Ahead(s, g) && TapeAhead(Forked(s), g) == TapeAhead(s, g)
  {
    hide ProcsOk;
    assert Pid(g, |s.procs|, g.R) == 0 && Pid(g, |s.procs| + 1, g.R) == 0;
  }

  lemma ForkLogs(c: Conf, s: State, g: Phase)
    requires g.Ring? && RingInv(c, s, g) && s.procs[0].pc.Fork? && g.b == 0 && g.S == g.T == g.R
    requires |s.procs| - 1 < c.maxChild
    ensures RingShape(c, Forked(s), g) && RingLogs(c, Forked(s), g)
  {
    hide ProcsOk, SeqTape, SeqOut, Idx, Pid, Reply, Ahead, TapeAhead, SeqResult, ReplyLine;
    ForkPositions(c, s, g);
  }

  // ----- every step of the ring -----

  /** Command number and input position of a process about to take a local step. */
  lemma LocalPosition(c: Conf, s: State, g: Phase, p: nat)
    requires g.Ring? && RingInv(c, s, g) && p < |s.procs| && LocalPC(s.procs[p].pc)
    ensures (s.procs[p].pc.Top? || s.procs[p].pc.Args? ==> s.inpos / 2 == Min(Idx(g, |s.procs|, p), |c.cmds|))
    ensures s.procs[p].pc.DoTape? ==> Idx(g, |s.procs|, p) < |c.cmds| && s.tape == SeqTape(c.cmds, Idx(g, |s.procs|, p))
    ensures s.procs[p].pc.Park? ==> JumpSignal(s.procs[p].pend).None?
  {
    hide SeqTape, SeqOut, Pid, ReplyLine, ReplyData, RespondLine, SeqResult, Reply;
    assert ProcOk(c, g, |s.procs|, p, s.procs[p], s.procs[Starter(|s.procs|)].pc);
    IdxFacts(g, |s.procs|, p, p);
    CursorAfter(s, s, g, p);
  }

  /** The transition relation agrees with LocalState wherever the invariant has put the process. */
  lemma LocalStepIs(c: Conf, s: State, p: nat, i: nat, ch: bool, s': State)
    requires p < |s.procs| && LocalPC(s.procs[p].pc) && Step(c, s, p, ch) == Some(s')
    requires var pr := s.procs[p];
      && (pr.pc.Top? || pr.pc.Args? ==> s.inpos / 2 == Min(i, |c.cmds|))
      && (pr.pc.Args? ==> i < |c.cmds|)
      && (pr.pc.Park? ==> JumpSignal(pr.pend).None?)
      && (pr.pc.DoTape? ==> i < |c.cmds| && c.cmds[i].Op? && pr.cmd == i && s.tape == SeqTape(c.cmds, i))
      && (pr.pc.Respond? || pr.pc.Data? ==> i < |c.cmds| && pr.cmd == i && pr.res == SeqResult(c, i))
    ensures LocalRecord(c, s.procs[p], i).Some? && s' == LocalState(c, s, p, i)
  {
    hide ReplyLine, ReplyData, JumpSignal;
  }

  lemma LocalStep(c: Conf, s: State, g: Phase, p: nat, ch: bool, s': State)
    requires g.Ring? && RingInv(c, s, g) && p < |s.procs| && LocalPC(s.procs[p].pc)
    requires Step(c, s, p, ch) == Some(s')
    ensures RingInv(c, s', g)
  {
    hide Step, ProcsOk, RingLogs, Idx, LocalState, LocalRecord;
    var i := Idx(g, |s.procs|, p);
    LocalPosition(c, s, g, p);
    LocalProcs(c, s, g, p);
    LocalBlocked(c, s, p, i, ch);
    LocalStepIs(c, s, p, i, ch, s');
    LocalKeepsProcs(c, s, g, p, i);
    if InFlightPC(s.procs[p].pc) { LocalOutput(c, s, g, p); } else { LocalInput(c, s, g, p); }
  }

  lemma LocalKeepsProcs(c: Conf, s: State, g: Phase, p: nat, i: nat)
    requires g.Ring? && g.b < |s.procs|
    requires p < |s.procs| && LocalPC(s.procs[p].pc) && (s.procs[p].pc.Args? || s.procs[p].pc.DoTape? ==> i < |c.cmds|)
    requires LocalRecord(c, s.procs[p], i).Some? && ProcsOk(c, SetProc(s, p, LocalRecord(c, s.procs[p], i).value), g)
    ensures ProcsOk(c, LocalState(c, s, p, i), g)
  {
    hide ProcOk, LocalRecord;
    assert LocalState(c, s, p, i).procs == SetProc(s, p, LocalRecord(c, s.procs[p], i).value).procs;
  }

  lemma LocalBlocked(c: Conf, s: State, p: nat, i: nat, ch: bool)
    requires p < |s.procs| && LocalPC(s.procs[p].pc) && (s.procs[p].pc.Args? || s.procs[p].pc.DoTape? ==> i < |c.cmds|)
    requires Step(c, s, p, ch).Some? && (s.procs[p].pc.Park? ==> JumpSignal(s.procs[p].pend).None?)
    ensures LocalRecord(c, s.procs[p], i).Some?
  {
    hide JumpSignal;
  }

  /** The phase after a step of process `p`. */
  function NextPhase(c: Conf, s: State, g: Phase, p: nat): Phase
    requires p < |s.procs|
  {
    var pc := s.procs[p].pc;
    match g
    case Ring(b, S, T, R) =>
      if pc.PassRecv? || pc.ExitPass? then Ring(b, S, T, R + 1)
      else if pc.PassTape? then Ring(b, S, T + 1, R)
      else if pc.PassSend? && b < |s.procs| then Ring(Prev(|s.procs|, b), S + 1, T, R)
      else if pc.RvKill? then Signalled(p, R)
      else g
    case Signalled(_, i) => if p == 0 then Gather(i) else g
    case Gather(i) =>
      if p != 0 || |s.procs| > 1 then g
      else if i < |c.cmds| && c.cmds[i].Garbage? then Finished(i) else Alone(i)
    case Alone(i) =>
      if pc.ParKillSend? || (pc.ParRespond? && s.procs[p].key.KOpen?) then Ring(0, i + 1, i + 1, i + 1) else g
    case Finished(_) => g
  }

  /** Every step from inside the ring leads to a state that is again in order. */
  lemma RingStep(c: Conf, s: State, g: Phase, p: nat, ch: bool, s': State) returns (g': Phase)
    requires g.Ring? && RingInv(c, s, g) && p < |s.procs| && Step(c, s, p, ch) == Some(s')
    ensures Inv(c, s', g') && g' == NextPhase(c, s, g, p)
  {
    hide Step, RingInv, SignalledInv;
    g' := NextPhase(c, s, g, p);
    RingPC(c, s, g, p);
    if LocalPC(s.procs[p].pc) {
      LocalStep(c, s, g, p, ch, s');
    } else if s.procs[p].pc.RvKill? {
      SignalStep(c, s, p, ch, s');
      RingSignal(c, s, g, p);
    } else {
      DeadStep(c, s, p, ch);
      g' := TokenStep(c, s, g, p, ch, s');
    }
  }

  lemma SignalStep(c: Conf, s: State, p: nat, ch: bool, s': State)
    requires p < |s.procs| && s.procs[p].pc.RvKill? && Step(c, s, p, ch) == Some(s')
    ensures s' == KillGoto(s, p, 0, SigOf(s.procs[p].key), RvPause)
  {
  }

  lemma DeadStep(c: Conf, s: State, p: nat, ch: bool)
    requires p < |s.procs| && Step(c, s, p, ch).Some?
    ensures !s.procs[p].pc.Dead?
  {
  }

  /** The parent's and the rendezvous' own program counters do not occur inside the ring. */
  lemma RingPC(c: Conf, s: State, g: Phase, p: nat)
    requires g.Ring? && RingInv(c, s, g) && p < |s.procs|
    ensures var pc := s.procs[p].pc;
      || LocalPC(pc) || pc.RvKill? || pc.PassRecv? || pc.PassTape? || pc.PassSend? || pc.ExitPass? || pc.Dead?
      || Starting(pc) || pc.CheckNext? || pc.Fork?
    ensures s.procs[p].next == Prev(|s.procs|, p)
    ensures s.procs[p].pc.Fork? ==> p == 0
  {
    hide RingLogs, PendOk;
    assert ProcOk(c, g, |s.procs|, p, s.procs[p], s.procs[Starter(|s.procs|)].pc);
  }

  lemma TokenStep(c: Conf, s: State, g: Phase, p: nat, ch: bool, s': State) returns (g': Phase)
    requires g.Ring? && RingInv(c, s, g) && p < |s.procs| && Step(c, s, p, ch) == Some(s')
    requires !LocalPC(s.procs[p].pc) && !s.procs[p].pc.RvKill?
    ensures g'.Ring? && RingInv(c, s', g') && g' == NextPhase(c, s, g, p)
  {
    hide RingLogs, ProcsOk, KillGoto, Idx, LocalRecord;
    RingPC(c, s, g, p);
    var pr := s.procs[p];
    if pr.pc.PassRecv? {
      PassRecvProcs(c, s, g, p);
      IdxFacts(g, |s.procs|, p, p);
      RecvLogs(c, s, s', g, p, WaitTape);
      g' := g.(R := g.R + 1);
    } else if pr.pc.ExitPass? {
      ExitProcs(c, s, g, p);
      IdxFacts(g, |s.procs|, p, p);
      RecvLogs(c, s, s', g, p, Dead);
      g' := g.(R := g.R + 1);
    } else if pr.pc.PassTape? {
      PassTapeProcs(c, s, g, p);
      TapeLogs(c, s, s', g, p);
      g' := g.(T := g.T + 1);
    } else if pr.pc.PassSend? {
      PassSendProcs(c, s, g, p);
      SendLogs(c, s, s', g, p);
      g' := g.(S := g.S + 1, b := Prev(|s.procs|, g.b));
    } else if pr.pc.Fork? {
      g' := g;
      if |s.procs| - 1 < c.maxChild && ch {
        ForkProcs(c, s, g);
        ForkLogs(c, s, g);
      } else {
        CheckNextProcs(c, s, g, p);
        QuietLogs(c, s, s', g, p);
      }
    } else if pr.pc.CheckNext? {
      CheckNextProcs(c, s, g, p);
      QuietLogs(c, s, s', g, p);
      g' := g;
    } else {
      StartProcs(c, s, g, p);
      KillGotoFrame(s, p, 0, StartSig(pr.pc), StartNext(pr.pc));
      QuietLogs(c, s, s', g, p);
      g' := g;
    }
  }

  // ----- the rendezvous -----

  lemma SignalledStep(c: Conf, s: State, g: Phase, p: nat, ch: bool, s': State) returns (g': Phase)
    requires g.Signalled? && SignalledInv(c, s, g) && p < |s.procs| && Step(c, s, p, ch) == Some(s')
    ensures Inv(c, s', g') && g' == NextPhase(c, s, g, p)
  {
    hide SeqTape, SeqOut;
    if p == 0 {
      g' := Gather(g.i);
      assert s' == LongJump(s, 0, SigOf(KeyOf(c.cmds[g.i])));
      hide Step;
    } else {
      g' := g;
      assert s' == Goto(s, p, Park);
      hide Step;
    }
  }

  lemma GatherStep(c: Conf, s: State, g: Phase, p: nat, ch: bool, s': State) returns (g': Phase)
    requires g.Gather? && GatherInv(c, s, g) && p < |s.procs| && Step(c, s, p, ch) == Some(s')
    ensures Inv(c, s', g') && g' == NextPhase(c, s, g, p)
  {
    hide SeqTape, SeqOut;
    if p != 0 {
      g' := g;
      assert s' == Goto(s, p, Park);
      hide Step;
    } else if |s.procs| > 1 {
      g' := g;
    } else {
      g' := if c.cmds[g.i].Garbage? then Finished(g.i) else Alone(g.i);
    }
  }

  lemma AloneStep(c: Conf, s: State, g: Phase, p: nat, ch: bool, s': State) returns (g': Phase)
    requires g.Alone? && AloneInv(c, s, g) && p < |s.procs| && Step(c, s, p, ch) == Some(s')
    ensures Inv(c, s', g') && g' == NextPhase(c, s, g, p)
  {
    var pc := s.procs[0].pc;
    if pc.ParKillSend? || (pc.ParRespond? && s.procs[0].key.KOpen?) {
      g' := Ring(0, g.i + 1, g.i + 1, g.i + 1);
      AloneRejoins(c, s, g, ch, s');
    } else {
      g' := g;
      AloneKeeps(c, s, g, ch, s');
    }
  }

  /** The sequential server's step for an open or a close. */
  lemma SequentialStep(c: Conf, i: nat)
    requires i < |c.cmds| && (c.cmds[i].Open? || c.cmds[i].Close?)
    ensures c.cmds[i].Close? ==> SeqTape(c.cmds, i + 1) == SeqTape(c.cmds, i) + [CloseDev]
    ensures c.cmds[i].Open? ==>
      SeqTape(c.cmds, i + 1) == SeqTape(c.cmds, i) + [CloseDev] + [OpenDev(c.cmds[i].device, c.cmds[i].mode)]
    ensures SeqOut(c, i + 1) == SeqOut(c, i) + [RespondLine(SeqResult(c, i).rval, SeqResult(c, i).err)]
  {
    hide SeqResult;
  }

  lemma AloneKeeps(c: Conf, s: State, g: Phase, ch: bool, s': State)
    requires g.Alone? && AloneInv(c, s, g) && Step(c, s, 0, ch) == Some(s')
    requires !s.procs[0].pc.ParKillSend? && !(s.procs[0].pc.ParRespond? && s.procs[0].key.KOpen?)
    ensures AloneInv(c, s', g)
  {
    hide SeqTape, SeqOut;
    SequentialStep(c, g.i);
  }

  lemma AloneRejoins(c: Conf, s: State, g: Phase, ch: bool, s': State)
    requires g.Alone? && AloneInv(c, s, g) && Step(c, s, 0, ch) == Some(s')
    requires s.procs[0].pc.ParKillSend? || (s.procs[0].pc.ParRespond? && s.procs[0].key.KOpen?)
    ensures RingInv(c, s', Ring(0, g.i + 1, g.i + 1, g.i + 1))
  {
    hide SeqTape, SeqOut, SeqResult, PlaceOk, PendOk, StartOk, RingLogs;
    RejoinedLogs(c, s, g, ch, s');
    LoneRecord(c, Ring(0, g.i + 1, g.i + 1, g.i + 1), s'.procs[0]);
  }

  lemma RejoinedLogs(c: Conf, s: State, g: Phase, ch: bool, s': State)
    requires g.Alone? && AloneInv(c, s, g) && Step(c, s, 0, ch) == Some(s')
    requires s.procs[0].pc.ParKillSend? || (s.procs[0].pc.ParRespond? && s.procs[0].key.KOpen?)
    ensures var g' := Ring(0, g.i + 1, g.i + 1, g.i + 1); RingShape(c, s', g') && RingLogs(c, s', g')
  {
    hide SeqTape, SeqOut, SeqResult;
    SequentialStep(c, g.i);
  }

  /** The parent by itself, about to read the next command or to fork. */
  lemma LoneRecord(c: Conf, g: Phase, pr: Proc)
    requires g.Ring? && g.b == 0 && g.S == g.T == g.R && pr.next == 0
    requires if pr.pc.Top? then pr.pend == NONE.(tape := true, send := true)
             else (pr.pc.Fork? || pr.pc.CheckNext?) && pr.pend == NONE
    ensures ProcOk(c, g, 1, 0, pr, pr.pc)
  {
  }

  /** The invariant is inductive. */
  lemma StepInv(c: Conf, s: State, g: Phase, p: nat, ch: bool, s': State) returns (g': Phase)
    requires Inv(c, s, g) && p < |s.procs| && Step(c, s, p, ch) == Some(s')
    ensures Inv(c, s', g') && g' == NextPhase(c, s, g, p)
  {
    hide RingInv, SignalledInv, GatherInv, AloneInv;
    if g.Ring? { g' := RingStep(c, s, g, p, ch, s'); }
    else if g.Signalled? { g' := SignalledStep(c, s, g, p, ch, s'); }
    else if g.Gather? { g' := GatherStep(c, s, g, p, ch, s'); }
    else if g.Alone? { g' := AloneStep(c, s, g, p, ch, s'); }
    else { g' := g; }
  }
}
