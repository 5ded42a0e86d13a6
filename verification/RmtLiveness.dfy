/** The tape server never deadlocks, stops after boundedly many steps, and then has done everything. */
module RmtLiveness {
  import opened Wrappers
  import opened RmtModel
  import opened RmtInvariant
  import opened RmtTheorems

  // ----- progress -----

  predicate AllDead(s: State) { forall p :: 0 <= p < |s.procs| ==> s.procs[p].pc.Dead? }

  predicate Enabled(c: Conf, s: State, p: nat) {
    p < |s.procs| && Step(c, s, p, true).Some?
  }

  lemma StarterEnabled(c: Conf, s: State)
    requires |s.procs| > 0 && TransitSend(s.procs[Starter(|s.procs|)].pc) && Starter(|s.procs|) < |s.procs|
    ensures Enabled(c, s, Starter(|s.procs|))
  {
  }

  /** A process in flight, or reading, is enabled unless it waits for a token that is not there. */
  lemma WorkingEnabled(c: Conf, s: State, p: nat)
    requires p < |s.procs|
    requires var pr := s.procs[p];
      || (pr.pc.WaitTape? && pr.pend.tape) || (pr.pc.WaitSend? && pr.pend.send)
      || (pr.pc.RvTape? && pr.pend.tape) || (pr.pc.RvSend? && pr.pend.send)
      || (pr.pc.Park? && pr.pend.recv)
      || (pr.pc.DoTape? && pr.cmd < |c.cmds| && c.cmds[pr.cmd].Op?)
      || ((pr.pc.Respond? || pr.pc.Data?) && pr.cmd < |c.cmds|)
      || pr.pc.Top? || pr.pc.Args? || pr.pc.PassRecv? || pr.pc.PassTape?
        || pr.pc.PassSend? || pr.pc.ExitPass? || pr.pc.RvKill?
      || TransitSend(pr.pc)
    ensures Enabled(c, s, p)
  {
  }

  lemma FrontEnabled(c: Conf, s: State, g: Phase, p: nat)
    requires g.Ring? && RingShape(c, s, g) && ProcsOk(c, s, g) && p < |s.procs|
    requires !TransitSend(s.procs[Starter(|s.procs|)].pc)
    requires var i := Idx(g, |s.procs|, p);
      (i == g.S && (i < |c.cmds| || i == g.R)) || (i == g.R && |c.cmds| <= g.S)
    ensures Enabled(c, s, p)
  {
    var m := |s.procs|;
    assert ProcOk(c, g, m, p, s.procs[p], s.procs[Starter(m)].pc);
    hide ProcsOk, SeqResult, Step;
    WorkingEnabled(c, s, p);
  }

  lemma RingProgress(c: Conf, s: State, g: Phase)
    requires g.Ring? && RingInv(c, s, g) && !AllDead(s)
    ensures exists p :: Enabled(c, s, p)
  {
    var m := |s.procs|;
    hide Enabled, RingLogs;
    if TransitSend(s.procs[Starter(m)].pc) {
      StarterEnabled(c, s);
    } else if g.S < |c.cmds| || g.S == g.R {
      IdxFacts(g, m, g.b, g.b);
      FrontEnabled(c, s, g, g.b);
    } else if g.R < g.S + m {
      FrontEnabled(c, s, g, Pid(g, m, g.R));
    } else {
      DrainedDead(c, s, g);
    }
  }

  /** Once every command is answered and everybody has read end of file, everybody has exited. */
  lemma DrainedDead(c: Conf, s: State, g: Phase)
    requires g.Ring? && RingShape(c, s, g) && ProcsOk(c, s, g) && |c.cmds| <= g.S && g.R == g.S + |s.procs|
    ensures AllDead(s)
  {
    forall p | 0 <= p < |s.procs| ensures s.procs[p].pc.Dead? {
      assert ProcOk(c, g, |s.procs|, p, s.procs[p], s.procs[Starter(|s.procs|)].pc);
      hide PendOk, StartOk;
      IdxFacts(g, |s.procs|, p, p);
    }
  }

  lemma RendezvousProgress(c: Conf, s: State, g: Phase)
    requires !g.Ring? && Inv(c, s, g) && !AllDead(s)
    ensures exists p :: Enabled(c, s, p)
  {
    hide SeqTape, SeqOut, SeqResult;
    assert Enabled(c, s, 0);
  }

  /** No deadlock: while a process is left, some process can take a step. */
  lemma Progress(c: Conf, s: State)
    requires Reachable(c, s) && !AllDead(s)
    ensures exists s' :: Next(c, s, s')
  {
    hide Reachable, Inv, Step;
    var g := ReachableInv(c, s);
    InvProgress(c, s, g);
    var p :| Enabled(c, s, p);
    assert Next(c, s, Step(c, s, p, true).value);
  }

  lemma InvProgress(c: Conf, s: State, g: Phase)
    requires Inv(c, s, g) && !AllDead(s)
    ensures exists p :: Enabled(c, s, p)
  {
    hide Enabled, RingInv, SignalledInv, GatherInv, AloneInv, AllDead;
    if g.Ring? { RingProgress(c, s, g); } else { RendezvousProgress(c, s, g); }
  }

  // ----- completion -----

  lemma RingComplete(c: Conf, s: State, g: Phase)
    requires g.Ring? && RingInv(c, s, g) && AllDead(s)
    ensures g.S == g.T == |c.cmds| == Served(c.cmds)
    ensures s.tape == SeqTape(c.cmds, |c.cmds|) && s.out == SeqOut(c, |c.cmds|)
  {
    hide SeqTape, SeqOut, SeqResult, Reply;
    assert ProcOk(c, g, |s.procs|, g.b, s.procs[g.b], s.procs[Starter(|s.procs|)].pc);
    IdxFacts(g, |s.procs|, g.b, g.b);
    assert |c.cmds| <= g.S;
    ServedCovers(c.cmds, |c.cmds|);
  }

  /** When nobody can move any more, the tape and the client have seen exactly what the sequential
      server would have produced. */
  lemma StoppedIsComplete(c: Conf, s: State)
    requires Reachable(c, s) && forall s' :: !Next(c, s, s')
    ensures s.tape == SeqTape(c.cmds, Served(c.cmds)) && s.out == SeqOut(c, Served(c.cmds))
  {
    hide Reachable, Inv, Next, Served, SeqTape, SeqOut;
    if !AllDead(s) { Progress(c, s); }
    var g := ReachableInv(c, s);
    DeadIsComplete(c, s, g);
  }

  /** In the end the client has read the right answer to every command that is served, and nothing else, and the
      device has been asked for each of them and for nothing else. */
  lemma ClientHasRead(c: Conf, s: State) returns (answers: seq<seq<Out>>, asked: seq<seq<TapeOp>>)
    requires Reachable(c, s) && forall s' :: !Next(c, s, s')
    ensures |answers| == Served(c.cmds) && Answers(c, answers, asked)
    ensures s.out == Joined(answers) && s.tape == AskedUpTo(asked, |asked|)
  {
    hide Reachable, Next, SeqTape, SeqOut, Answers, Joined;
    StoppedIsComplete(c, s);
    answers, asked := SequentialAnswers(c, Served(c.cmds));
    AnswersAsMany(c, answers, asked);
  }

  lemma DeadIsComplete(c: Conf, s: State, g: Phase)
    requires Inv(c, s, g) && AllDead(s)
    ensures s.tape == SeqTape(c.cmds, Served(c.cmds)) && s.out == SeqOut(c, Served(c.cmds))
  {
    hide SeqTape, SeqOut, RingInv, SeqResult;
    if g.Ring? {
      RingComplete(c, s, g);
    } else {
      assert |s.procs| > 0 && s.procs[0].pc.Dead?;
      ServedCovers(c.cmds, g.i);
    }
  }

  // ----- bounded runs -----

  /** How far a program counter is from the end of its command. */
  function Rank(pc: PC): (r: nat)
    ensures r <= 18
  {
    match pc
    case Fork => 18 case CheckNext => 17 case StartRecv => 16 case StartTape => 15 case StartSend => 14
    case Park => 13 case Top => 12 case Args => 11 case PassRecv => 10 case WaitTape => 9
    case DoTape => 8 case PassTape => 7 case WaitSend => 6 case Respond => 5 case Data => 4 case PassSend => 3
    case ExitPass => 1 case RvTape => 11 case RvSend => 10 case RvKill => 9 case RvPause => 8
    case Reap => 7 case ParCloseOld => 6 case ParArgs => 5 case ParTape => 4
    case ParRespond => 3 case ParKillTape => 2 case ParKillSend => 1 case Dead => 0
  }

  function RankSum(procs: seq<Proc>): nat {
    if |procs| == 0 then 0 else RankSum(procs[..|procs| - 1]) + Rank(procs[|procs| - 1].pc)
  }

  lemma {:induction false} RankSumUpdate(procs: seq<Proc>, procs': seq<Proc>, p: nat)
    requires p < |procs| == |procs'|
    requires forall q :: 0 <= q < |procs| && q != p ==> procs'[q].pc == procs[q].pc
    ensures RankSum(procs') == RankSum(procs) - Rank(procs[p].pc) + Rank(procs'[p].pc)
  {
    var n := |procs| - 1;
    if p == n {
      RankSumSame(procs[..n], procs'[..n]);
    } else {
      RankSumUpdate(procs[..n], procs'[..n], p);
    }
  }

  lemma {:induction false} RankSumSame(procs: seq<Proc>, procs': seq<Proc>)
    requires |procs| == |procs'| && forall q :: 0 <= q < |procs| ==> procs'[q].pc == procs[q].pc
    ensures RankSum(procs) == RankSum(procs')
  {
    if |procs| > 0 { RankSumSame(procs[..|procs| - 1], procs'[..|procs| - 1]); }
  }

  function Answered(g: Phase): nat {
    match g
    case Ring(_, S, _, _) => S
    case Signalled(_, i) => i
    case Gather(i) => i
    case Alone(i) => i
    case Finished(i) => i
  }

  /** Work left within the current command, counting children the ring may still fork. */
  function Inner(c: Conf, s: State, g: Phase): int {
    RankSum(s.procs) + if g.Ring? then (c.maxChild + 1 - |s.procs|) * 18 else 0
  }

  function Work(c: Conf): nat { (c.maxChild + 2) * 18 }

  function Measure(c: Conf, s: State, g: Phase): int {
    (|c.cmds| - Answered(g)) * Work(c) + Inner(c, s, g)
  }

  predicate Reaps(s: State, p: nat)
    requires p < |s.procs|
  {
    s.procs[p].pc.Reap? && |s.procs| > 1
  }

  predicate Forks(c: Conf, s: State, p: nat, ch: bool)
    requires p < |s.procs|
  {
    s.procs[p].pc.Fork? && |s.procs| - 1 < c.maxChild && ch
  }

  /** Where a process goes after sending a signal. */
  function AfterSend(pc: PC): PC {
    match pc
    case PassRecv => WaitTape
    case PassTape => WaitSend
    case PassSend => Park
    case RvKill => RvPause
    case ParKillTape => ParKillSend
    case ParKillSend => Top
    case StartRecv => StartTape
    case StartTape => StartSend
    case StartSend => Park
    case _ => Dead
  }

  lemma SendStep(c: Conf, s: State, p: nat, ch: bool, s': State)
    requires p < |s.procs| && Step(c, s, p, ch) == Some(s') && AboutToSend(s, p).Some?
    ensures s' == KillGoto(s, p, AboutToSend(s, p).value.0, AboutToSend(s, p).value.1, AfterSend(s.procs[p].pc))
  {
    hide KillGoto;
  }

  /** Apart from a reap or a fork, a step moves one program counter. */
  lemma StepMovesOne(c: Conf, s: State, p: nat, ch: bool, s': State)
    requires p < |s.procs| && Step(c, s, p, ch) == Some(s') && !Reaps(s, p) && !Forks(c, s, p, ch)
    ensures |s'.procs| == |s.procs|
    ensures forall q :: 0 <= q < |s.procs| && q != p ==> s'.procs[q].pc == s.procs[q].pc
  {
    hide Step, AfterSend, KillGoto, AboutToSend;
    if AboutToSend(s, p).Some? {
      var (to, sig) := AboutToSend(s, p).value;
      SendStep(c, s, p, ch, s');
      KillGotoFrame(s, p, to, sig, AfterSend(s.procs[p].pc));
    } else {
      QuietMovesOne(c, s, p, ch, s');
    }
  }

  lemma QuietMovesOne(c: Conf, s: State, p: nat, ch: bool, s': State)
    requires p < |s.procs| && Step(c, s, p, ch) == Some(s') && !Reaps(s, p) && !Forks(c, s, p, ch)
    requires AboutToSend(s, p).None?
    ensures |s'.procs| == |s.procs|
    ensures forall q :: 0 <= q < |s.procs| && q != p ==> s'.procs[q] == s.procs[q]
  {
    hide ReplyLine, ReplyData, JumpSignal, KeyOf, RespondLine;
  }

  /** Whether a move may complete a command rather than come closer to completing it. */
  predicate Completes(pc: PC, key: Key) { pc.PassSend? || pc.ParKillSend? || (pc.ParRespond? && key.KOpen?) }

  lemma StepRank(c: Conf, s: State, p: nat, ch: bool, s': State)
    requires p < |s.procs| && Step(c, s, p, ch) == Some(s') && !Reaps(s, p) && !Forks(c, s, p, ch)
    requires |s'.procs| == |s.procs| && (s.procs[p].pc.RvPause? ==> p == 0)
    requires s.procs[p].pc.ParRespond? ==> s.procs[p].key.KOpen? || s.procs[p].key.KClose?
    ensures Rank(s'.procs[p].pc) < Rank(s.procs[p].pc)
      || (Completes(s.procs[p].pc, s.procs[p].key) && Rank(s'.procs[p].pc) <= 18)
  {
    hide Step, AfterSend, KillGoto, AboutToSend;
    if AboutToSend(s, p).Some? {
      var (to, sig) := AboutToSend(s, p).value;
      SendStep(c, s, p, ch, s');
      KillGotoFrame(s, p, to, sig, AfterSend(s.procs[p].pc));
      SendRank(s, p);
    } else {
      QuietRank(c, s, p, ch, s');
    }
  }

  lemma SendRank(s: State, p: nat)
    requires p < |s.procs| && AboutToSend(s, p).Some?
    ensures var pc := s.procs[p].pc;
      Rank(AfterSend(pc)) < Rank(pc) || (Completes(pc, s.procs[p].key) && Rank(AfterSend(pc)) <= 18)
  {
  }

  lemma QuietRank(c: Conf, s: State, p: nat, ch: bool, s': State)
    requires p < |s.procs| && Step(c, s, p, ch) == Some(s') && !Reaps(s, p) && !Forks(c, s, p, ch)
    requires AboutToSend(s, p).None? && |s'.procs| == |s.procs| && (s.procs[p].pc.RvPause? ==> p == 0)
    requires s.procs[p].pc.ParRespond? ==> s.procs[p].key.KOpen? || s.procs[p].key.KClose?
    ensures Rank(s'.procs[p].pc) < Rank(s.procs[p].pc)
      || (Completes(s.procs[p].pc, s.procs[p].key) && Rank(s'.procs[p].pc) <= 18)
  {
    if InLoop(s.procs[p].pc) { LoopRank(c, s, p, ch, s'); } else { ParentRank(c, s, p, ch, s'); }
  }

  /** The places of the command loop. */
  predicate InLoop(pc: PC) {
    pc.Top? || pc.Args? || pc.WaitTape? || pc.DoTape? || pc.WaitSend? || pc.Respond? || pc.Data? || pc.Park?
  }

  lemma LoopRank(c: Conf, s: State, p: nat, ch: bool, s': State)
    requires p < |s.procs| && Step(c, s, p, ch) == Some(s') && InLoop(s.procs[p].pc)
    ensures p < |s'.procs| && Rank(s'.procs[p].pc) < Rank(s.procs[p].pc)
  {
    hide ReplyLine, ReplyData, JumpSignal, KeyOf, RespondLine, KillGoto;
  }

  lemma ParentRank(c: Conf, s: State, p: nat, ch: bool, s': State)
    requires p < |s.procs| && Step(c, s, p, ch) == Some(s') && !Reaps(s, p) && !Forks(c, s, p, ch)
    requires AboutToSend(s, p).None? && |s'.procs| == |s.procs| && (s.procs[p].pc.RvPause? ==> p == 0)
    requires s.procs[p].pc.ParRespond? ==> s.procs[p].key.KOpen? || s.procs[p].key.KClose?
    requires !InLoop(s.procs[p].pc)
    ensures Rank(s'.procs[p].pc) < Rank(s.procs[p].pc)
      || (Completes(s.procs[p].pc, s.procs[p].key) && Rank(s'.procs[p].pc) <= 18)
  {
    hide ReplyLine, ReplyData, JumpSignal, KeyOf, RespondLine, KillGoto;
  }

  lemma MeasureFork(c: Conf, s: State, g: Phase, p: nat, s': State)
    requires p == 0 < |s.procs| && g.Ring? && |s.procs| - 1 < c.maxChild
    requires s.procs[0].pc.Fork? && s'.procs == Forked(s).procs
    ensures Inner(c, s', g) < Inner(c, s, g)
  {
    var n := |s.procs|;
    assert s'.procs[..n] == Forked(s).procs[..n];
    RankSumSame(s.procs, s'.procs[..n]);
  }

  lemma MeasureReap(c: Conf, s: State, g: Phase, s': State)
    requires g.Gather? && GatherInv(c, s, g) && |s.procs| > 1 && s'.procs == s.procs[..|s.procs| - 1]
    ensures Inner(c, s', g) < Inner(c, s, g)
  {
  }

  lemma RankSumBound(procs: seq<Proc>)
    ensures RankSum(procs) <= 18 * |procs|
  {
  }

  lemma WorkStep(a: int, c: Conf)
    ensures a * Work(c) == (a - 1) * Work(c) + Work(c)
  {
  }

  /** Facts of the invariant that the measure needs. */
  lemma InvForMeasure(c: Conf, s: State, g: Phase, p: nat)
    requires Inv(c, s, g) && p < |s.procs|
    ensures s.procs[p].pc.RvPause? && Jumping(s) ==> g.Signalled?
    ensures s.procs[p].pc.RvPause? && p != 0 ==> s.procs[p].pend == NONE
    ensures s.procs[p].pc.ParRespond? ==> s.procs[p].key.KOpen? || s.procs[p].key.KClose?
    ensures s.procs[p].pc.Reap? ==> g.Gather?
    ensures s.procs[p].pc.Fork? ==> g.Ring? && p == 0
    ensures Completes(s.procs[p].pc, s.procs[p].key) ==>
      if s.procs[p].pc.PassSend? then g.Ring? && g.b < |s.procs| else g.Alone? && |s.procs| == 1
    ensures g.Ring? && s.procs[p].pc.RvKill? ==> g.S == g.R
    ensures g.Ring? ==> |s.procs| <= c.maxChild + 1
    ensures Answered(g) <= |c.cmds|
  {
    if g.Ring? {
      RingForMeasure(c, s, g, p);
      hide Inv;
    } else {
      hide SeqTape, SeqOut, SeqResult, RingInv;
    }
  }

  lemma RingForMeasure(c: Conf, s: State, g: Phase, p: nat)
    requires g.Ring? && RingInv(c, s, g) && p < |s.procs|
    ensures !(s.procs[p].pc.RvPause? && Jumping(s)) && !(s.procs[p].pc.RvPause? && p != 0) && !s.procs[p].pc.Reap?
    ensures s.procs[p].pc.ParRespond? ==> s.procs[p].key.KOpen? || s.procs[p].key.KClose?
    ensures s.procs[p].pc.Fork? ==> p == 0
    ensures Completes(s.procs[p].pc, s.procs[p].key) ==> s.procs[p].pc.PassSend? && g.b < |s.procs|
    ensures s.procs[p].pc.RvKill? ==> g.S == g.R
    ensures |s.procs| <= c.maxChild + 1 && Answered(g) <= |c.cmds|
  {
    RingPC(c, s, g, p);
    hide RingLogs, ProcsOk;
    RingPlaces(c, s, g, p);
    hide RingShape;
  }

  lemma RingPlaces(c: Conf, s: State, g: Phase, p: nat)
    requires g.Ring? && RingInv(c, s, g) && p < |s.procs|
    ensures Completes(s.procs[p].pc, s.procs[p].key) ==> s.procs[p].pc.PassSend?
    ensures s.procs[p].pc.RvKill? ==> g.S == g.R
    ensures |s.procs| <= c.maxChild + 1 && Answered(g) <= |c.cmds| && g.b < |s.procs|
  {
    hide RingLogs, PendOk, StartOk;
    assert ProcOk(c, g, |s.procs|, p, s.procs[p], s.procs[Starter(|s.procs|)].pc);
  }

  lemma MeasureSame(c: Conf, s: State, g: Phase, p: nat, ch: bool, s': State)
    requires p < |s.procs| && Step(c, s, p, ch) == Some(s') && !Reaps(s, p) && !Forks(c, s, p, ch)
    requires Inv(c, s, g) && !Completes(s.procs[p].pc, s.procs[p].key)
    ensures Measure(c, s', NextPhase(c, s, g, p)) < Measure(c, s, g)
  {
    hide Step, Inv, Rank, Work;
    var g' := NextPhase(c, s, g, p);
    InvForMeasure(c, s, g, p);
    StepMovesOne(c, s, p, ch, s');
    RvPauseIsParent(c, s, g, p, ch);
    StepRank(c, s, p, ch, s');
    RankSumUpdate(s.procs, s'.procs, p);
    assert Answered(g') == Answered(g);
    assert g'.Ring? ==> g.Ring?;
  }

  lemma RvPauseIsParent(c: Conf, s: State, g: Phase, p: nat, ch: bool)
    requires p < |s.procs| && Step(c, s, p, ch).Some? && Inv(c, s, g)
    ensures s.procs[p].pc.RvPause? ==> p == 0
  {
    hide Inv;
    InvForMeasure(c, s, g, p);
  }

  lemma MeasureCompletes(c: Conf, s: State, g: Phase, p: nat, ch: bool, s': State)
    requires p < |s.procs| && Step(c, s, p, ch) == Some(s')
    requires Inv(c, s, g) && Completes(s.procs[p].pc, s.procs[p].key)
    ensures Measure(c, s', NextPhase(c, s, g, p)) < Measure(c, s, g)
  {
    hide Step, Inv;
    var g' := NextPhase(c, s, g, p);
    InvForMeasure(c, s, g, p);
    StepMovesOne(c, s, p, ch, s');
    StepRank(c, s, p, ch, s');
    hide Rank;
    RankSumUpdate(s.procs, s'.procs, p);
    if g.Alone? { RankSumBound(s'.procs); }
    assert Answered(g') == Answered(g) + 1 && g'.Ring?;
    assert RankSum(s'.procs) <= RankSum(s.procs) + 18;
    hide NextPhase, Answered, Completes, RankSum;
    InnerOne(c, s, g, s', g');
  }

  /** An answer weighs more than all that a step can add. */
  lemma InnerOne(c: Conf, s: State, g: Phase, s': State, g': Phase)
    requires Answered(g') == Answered(g) + 1 && g'.Ring? && |s'.procs| == |s.procs|
    requires RankSum(s'.procs) <= RankSum(s.procs) + 18 && (g.Ring? || |s.procs| == 1)
    requires g.Ring? ==> |s.procs| <= c.maxChild + 1
    ensures Measure(c, s', g') < Measure(c, s, g)
  {
    WorkStep(|c.cmds| - Answered(g), c);
    hide Answered, RankSum;
    assert Inner(c, s', g') < Inner(c, s, g) + Work(c);
  }

  lemma MeasureDecreases(c: Conf, s: State, g: Phase, p: nat, ch: bool, s': State)
    requires p < |s.procs| && Step(c, s, p, ch) == Some(s') && Inv(c, s, g)
    ensures Measure(c, s', NextPhase(c, s, g, p)) < Measure(c, s, g)
  {
    hide RingInv, SignalledInv, AloneInv;
    InvForMeasure(c, s, g, p);
    if Reaps(s, p) {
      hide Step;
      ReapStep(c, s, g, p, ch, s');
      MeasureReap(c, s, g, s');
    } else if Forks(c, s, p, ch) {
      hide Inv;
      ForkStep(c, s, ch, s');
      hide Step;
      MeasureFork(c, s, g, p, s');
    } else {
      hide Step, Inv;
      if Completes(s.procs[p].pc, s.procs[p].key) { MeasureCompletes(c, s, g, p, ch, s'); }
      else { MeasureSame(c, s, g, p, ch, s'); }
    }
  }

  lemma ForkStep(c: Conf, s: State, ch: bool, s': State)
    requires 0 < |s.procs| && Step(c, s, 0, ch) == Some(s') && Forks(c, s, 0, ch)
    ensures s'.procs == Forked(s).procs
  {
  }

  lemma ReapStep(c: Conf, s: State, g: Phase, p: nat, ch: bool, s': State)
    requires p < |s.procs| && Step(c, s, p, ch) == Some(s') && Inv(c, s, g) && Reaps(s, p)
    ensures g.Gather? && s'.procs == s.procs[..|s.procs| - 1] && NextPhase(c, s, g, p) == g
  {
    hide Inv;
    InvForMeasure(c, s, g, p);
  }

  lemma MeasureNonNegative(c: Conf, s: State, g: Phase)
    requires Inv(c, s, g) && |s.procs| > 0
    ensures 0 <= Measure(c, s, g)
  {
    hide Inv, Work, Answered;
    InvForMeasure(c, s, g, 0);
    InnerNonNegative(c, s, g);
    hide Inner;
    NoSign(|c.cmds| - Answered(g), Work(c));
  }

  lemma NoSign(a: nat, b: nat)
    ensures 0 <= a * b
  {
  }

  lemma InnerNonNegative(c: Conf, s: State, g: Phase)
    requires g.Ring? ==> |s.procs| <= c.maxChild + 1
    ensures 0 <= Inner(c, s, g)
  {
  }

  lemma {:induction false} RunMeasure(c: Conf, run: seq<State>, s: State)
    requires IsRun(c, run) && s == run[|run| - 1]
    ensures exists g :: Inv(c, s, g) && |run| + Measure(c, s, g) <= (|c.cmds| + 1) * Work(c)
  {
    hide Inv, Step, Measure;
    var n := |run| - 1;
    if n == 0 {
      InitInv(c);
      InitMeasure(c);
    } else {
      var r := run[n - 1];
      assert IsRun(c, run[..n]);
      RunMeasure(c, run[..n], r);
      var g :| Inv(c, r, g) && n + Measure(c, r, g) <= (|c.cmds| + 1) * Work(c);
      assert Next(c, r, run[n - 1 + 1]);
      var p: nat, ch: bool :| p < |r.procs| && Step(c, r, p, ch) == Some(s);
      var g' := StepInv(c, r, g, p, ch, s);
      MeasureDecreases(c, r, g, p, ch, s);
    }
  }

  lemma InitMeasure(c: Conf)
    ensures 1 + Measure(c, Init(), Ring(0, 0, 0, 0)) <= (|c.cmds| + 1) * Work(c)
  {
    WorkStep(|c.cmds| + 1, c);
    assert RankSum(Init().procs) == 12;
  }

  lemma InvHasProcs(c: Conf, s: State, g: Phase)
    requires Inv(c, s, g)
    ensures |s.procs| > 0
  {
  }

  /** Every run is finite: the number of its states is bounded by the commands and the ring size. */
  lemma RunsAreBounded(c: Conf, run: seq<State>)
    requires IsRun(c, run)
    ensures |run| <= (|c.cmds| + 1) * (c.maxChild + 2) * 18
  {
    hide Inv, Step, Measure;
    var s := run[|run| - 1];
    RunMeasure(c, run, s);
    var g :| Inv(c, s, g) && |run| + Measure(c, s, g) <= (|c.cmds| + 1) * Work(c);
    InvHasProcs(c, s, g);
    MeasureNonNegative(c, s, g);
  }

  // ----- the ring can be filled -----

  lemma ReachedNext(c: Conf, s: State, p: nat, choice: bool, s': State)
    requires Reachable(c, s) && p < |s.procs| && Step(c, s, p, choice) == Some(s')
    ensures Reachable(c, s')
  {
    hide Step;
    var run :| IsRun(c, run) && s == run[|run| - 1];
    assert Next(c, s, s');
    var run' := run + [s'];
    forall k | 0 <= k < |run'| - 1 ensures Next(c, run'[k], run'[k + 1]) {
      if k < |run| - 1 { assert run'[k] == run[k] && run'[k + 1] == run[k + 1]; }
    }
    assert IsRun(c, run') && s' == run'[|run'| - 1];
  }

  /** The parent on its own, at the first command, an open. */
  function Alone(pc: PC, pend: Sigs, key: Key, res: Result, inpos: nat, tape: seq<TapeOp>, out: seq<Out>): State {
    State([Proc(pc, pend, 0, key, 0, res)], inpos, tape, out)
  }

  lemma Sole()
    ensures forall x: Proc, y: Proc {:trigger [x][0 := y]} :: [x][0 := y] == [y]
  {
  }

  /** It reads the key and takes back both tokens. */
  lemma OpenIsRead(c: Conf)
    requires |c.cmds| > 0 && c.cmds[0].Open?
    ensures Reachable(c, Alone(RvKill, NONE, KOpen, Result(0, 0, []), 1, [], []))
  {
    hide Reachable;
    Sole();
    var r, both := Result(0, 0, []), NONE.(tape := true, send := true);
    assert Reachable(c, Init()) by { ReachedInit(c); }
    var s1, s2 := Alone(RvTape, both, KOpen, r, 1, [], []), Alone(RvSend, NONE.(send := true), KOpen, r, 1, [], []);
    assert Step(c, Init(), 0, true) == Some(s1);
    ReachedNext(c, Init(), 0, true, s1);
    assert Step(c, s1, 0, true) == Some(s2);
    ReachedNext(c, s1, 0, true, s2);
    var s3 := Alone(RvKill, NONE, KOpen, r, 1, [], []);
    assert Step(c, s2, 0, true) == Some(s3);
    ReachedNext(c, s2, 0, true, s3);
  }

  lemma ReachedInit(c: Conf)
    ensures Reachable(c, Init())
  {
    assert IsRun(c, [Init()]);
  }

  /** The signal to itself brings it to the end of the rendezvous. */
  lemma OpenIsReaped(c: Conf)
    requires |c.cmds| > 0 && c.cmds[0].Open?
    ensures Reachable(c, Alone(ParCloseOld, NONE, KOpen, Result(0, 0, []), 1, [], []))
  {
    hide Reachable;
    Sole();
    var r := Result(0, 0, []);
    OpenIsRead(c);
    var s3, s4 := Alone(RvKill, NONE, KOpen, r, 1, [], []), Alone(RvPause, NONE.(open := true), KOpen, r, 1, [], []);
    assert Step(c, s3, 0, true) == Some(s4);
    ReachedNext(c, s3, 0, true, s4);
    var s5, s6 := Alone(Reap, NONE, KOpen, r, 1, [], []), Alone(ParCloseOld, NONE, KOpen, r, 1, [], []);
    assert Step(c, s4, 0, true) == Some(s5);
    ReachedNext(c, s4, 0, true, s5);
    assert Step(c, s5, 0, true) == Some(s6);
    ReachedNext(c, s5, 0, true, s6);
  }

  /** The device is opened and the client told. */
  lemma OpenIsDone(c: Conf, tape: seq<TapeOp>)
    requires |c.cmds| > 0 && c.cmds[0].Open?
    requires tape == [CloseDev, OpenDev(c.cmds[0].device, c.cmds[0].mode)] && c.dev(tape).rval >= 0
    ensures Reachable(c, Alone(Fork, NONE, KOpen, c.dev(tape), 2, tape, [Ack(c.dev(tape).rval)]))
  {
    hide Reachable;
    Sole();
    var r := Result(0, 0, []);
    var none: seq<TapeOp>, nothing: seq<Out> := [], [];
    assert none + [CloseDev] == [CloseDev] && nothing + [Ack(c.dev(tape).rval)] == [Ack(c.dev(tape).rval)];
    assert [CloseDev] + [OpenDev(c.cmds[0].device, c.cmds[0].mode)] == tape;
    OpenIsReaped(c);
    var s6, s7 := Alone(ParCloseOld, NONE, KOpen, r, 1, [], []), Alone(ParArgs, NONE, KOpen, r, 1, [CloseDev], []);
    assert Step(c, s6, 0, true) == Some(s7);
    ReachedNext(c, s6, 0, true, s7);
    var s8 := Alone(ParTape, NONE, KOpen, r, 2, [CloseDev], []);
    assert Step(c, s7, 0, true) == Some(s8);
    ReachedNext(c, s7, 0, true, s8);
    var s9 := Alone(ParRespond, NONE, KOpen, c.dev(tape), 2, tape, []);
    assert Step(c, s8, 0, true) == Some(s9);
    ReachedNext(c, s8, 0, true, s9);
    var s10 := Alone(Fork, NONE, KOpen, c.dev(tape), 2, tape, [Ack(c.dev(tape).rval)]);
    assert Step(c, s9, 0, true) == Some(s10);
    ReachedNext(c, s9, 0, true, s10);
  }

  /** After an open that succeeds there can be as many children as the ring has room for, each behind the next. */
  lemma {:induction false} RingFills(c: Conf, n: nat) returns (s: State)
    requires |c.cmds| > 0 && c.cmds[0].Open? && n <= c.maxChild
    requires c.dev([CloseDev, OpenDev(c.cmds[0].device, c.cmds[0].mode)]).rval >= 0
    ensures Reachable(c, s) && |s.procs| == n + 1 && s.procs[0].pc == Fork
    ensures forall k :: 1 <= k <= n ==> s.procs[k].pc == CheckNext && s.procs[k].next == k - 1
    ensures s.procs[0].next == n
    decreases n
  {
    hide Reachable;
    if n == 0 {
      var tape := [CloseDev, OpenDev(c.cmds[0].device, c.cmds[0].mode)];
      OpenIsDone(c, tape);
      s := Alone(Fork, NONE, KOpen, c.dev(tape), 2, tape, [Ack(c.dev(tape).rval)]);
    } else {
      var s' := RingFills(c, n - 1);
      s := Step(c, s', 0, true).value;
      ReachedNext(c, s', 0, true, s);
    }
  }
}
