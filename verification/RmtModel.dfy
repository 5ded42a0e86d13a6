/**
 The multi-process tape server of etc/rmt.c as a transition system.

 Process 0 is the parent; process k+1 is the child whose pid sits in childpid[k].  A process is
 its program counter, its set of pending signals (a set: a second signal of one kind would be
 lost), and the variables that matter.  All signals are blocked except inside `sigpause`, so a
 waiting program counter is enabled only when an awaited signal is pending.
 */
module RmtModel {
  import opened Wrappers

  datatype Sig = RECV | TAPE | SEND | OPEN | CLOSE | ERROR

  /** A set of pending signals, one bit a signal as the kernel keeps it: a second signal of a kind
      that is already pending is lost. */
  datatype Sigs = Sigs(recv: bool, tape: bool, send: bool, open: bool, close: bool, error: bool) {
    predicate Has(sig: Sig) {
      match sig
      case RECV => recv
      case TAPE => tape
      case SEND => send
      case OPEN => open
      case CLOSE => close
      case ERROR => error
    }

    function Set(sig: Sig, bit: bool): Sigs {
      match sig
      case RECV => this.(recv := bit)
      case TAPE => this.(tape := bit)
      case SEND => this.(send := bit)
      case OPEN => this.(open := bit)
      case CLOSE => this.(close := bit)
      case ERROR => this.(error := bit)
    }
  }

  const NONE := Sigs(false, false, false, false, false, false)

  /** One operation on the tape device. */
  datatype TapeOp =
    | Seek(count: int, pos: int)
    | Ioctl(op: int, count: int)
    | Status
    | Write(record: seq<int>)
    | Read(n: int)
    | CloseDev
    | OpenDev(device: string, mode: int)

  /** What a device call yields: return value, errno, and the bytes it delivered. */
  datatype Result = Result(rval: int, err: int, data: seq<int>)

  /** A command as a client sends it.  `Op` carries the operation of L, I, S, W or R. */
  datatype Cmd =
    | Op(op: TapeOp)
    | Close(device: string)
    | Open(device: string, mode: int)
    | Garbage

  datatype Out = Ack(n: int) | Nak(err: int) | Bytes(data: seq<int>)

  const STATUS_SIZE := 20  // sizeof (struct mtget)

  /** The device is any function of the history of operations, the one asked about being last. */
  datatype Conf = Conf(cmds: seq<Cmd>, dev: seq<TapeOp> -> Result, maxChild: nat)

  datatype PC =
    // the ordinary command loop
    | Top | Args | PassRecv | WaitTape | DoTape | PassTape | WaitSend | Respond | Data | PassSend | Park
    // rendezvous, as seen by the process that read the key
    | RvTape | RvSend | RvKill | RvPause
    // rendezvous, as run by the parent
    | Reap | ParCloseOld | ParArgs | ParTape | ParRespond | ParKillTape | ParKillSend
    // rebuilding the ring after an open
    | Fork | CheckNext | StartRecv | StartTape | StartSend
    | ExitPass | Dead

  datatype Key = KOp | KOpen | KClose | KError

  datatype Proc = Proc(pc: PC, pend: Sigs, next: nat, key: Key, cmd: nat, res: Result)

  /** `inpos` counts half commands taken from standard input: 2*i+1 when only the key of command i
      has been read, 2*i+2 when its arguments have been read as well. */
  datatype State = State(procs: seq<Proc>, inpos: nat, tape: seq<TapeOp>, out: seq<Out>)

  function KeyOf(cmd: Cmd): Key {
    match cmd
    case Op(_) => KOp
    case Close(_) => KClose
    case Open(_, _) => KOpen
    case Garbage => KError
  }

  function SigOf(key: Key): Sig {
    match key
    case KOpen => OPEN
    case KClose => CLOSE
    case _ => ERROR
  }

  /** The key that `catch` leaves behind. */
  function KeyOfSig(sig: Sig): Key {
    match sig
    case OPEN => KOpen
    case CLOSE => KClose
    case _ => KError
  }

  function RespondLine(rval: int, err: int): Out {
    if rval < 0 then Nak(err) else Ack(rval)
  }

  /** First write of a reply: the response line. */
  function ReplyLine(cmd: Cmd, r: Result): Out {
    match cmd
    case Op(Ioctl(_, count)) => RespondLine(if r.rval < 0 then r.rval else count, r.err)
    case Op(Status) => RespondLine(if r.rval < 0 then r.rval else STATUS_SIZE, r.err)
    case _ => RespondLine(r.rval, r.err)
  }

  /** Second write of a reply: the status structure or the bytes read, if there are any. */
  function ReplyData(cmd: Cmd, r: Result): seq<Out> {
    match cmd
    case Op(Status) => if r.rval < 0 then [] else [Bytes(r.data)]
    case Op(Read(_)) => if r.rval <= 0 then [] else [Bytes(r.data)]
    case _ => []
  }

  function SetProc(s: State, p: nat, pr: Proc): State
    requires p < |s.procs|
  {
    s.(procs := s.procs[p := pr])
  }

  /** kill(2).  A process that has exited absorbs the signal without effect. */
  function Kill(s: State, to: nat, sig: Sig): State {
    if to < |s.procs| && s.procs[to].pc != Dead
    then SetProc(s, to, s.procs[to].(pend := s.procs[to].pend.Set(sig, true)))
    else s
  }

  /** A process that exits takes its pending signals with it. */
  function MoveTo(pr: Proc, pc: PC): Proc {
    if pc.Dead? then pr.(pc := pc, pend := NONE) else pr.(pc := pc)
  }

  function Goto(s: State, p: nat, pc: PC): State
    requires p < |s.procs|
  {
    SetProc(s, p, MoveTo(s.procs[p], pc))
  }

  /** Kill `to`, then move on to `pc`. */
  function KillGoto(s: State, p: nat, to: nat, sig: Sig, pc: PC): State
    requires p < |s.procs|
  {
    Goto(Kill(s, to, sig), p, pc)
  }

  /** `sigpause` releasing exactly one token signal. */
  function Await(s: State, p: nat, sig: Sig, pc: PC): Option<State>
    requires p < |s.procs|
  {
    var pr := s.procs[p];
    if pr.pend.Has(sig) then Some(SetProc(s, p, pr.(pend := pr.pend.Set(sig, false), pc := pc))) else None
  }

  /** The handler's longjmp: back to the setjmp of the rendezvous, with the key set. */
  function LongJump(s: State, p: nat, sig: Sig): State
    requires p < |s.procs|
  {
    var pr := s.procs[p];
    SetProc(s, p, pr.(pend := pr.pend.Set(sig, false), key := KeyOfSig(sig), pc := if p == 0 then Reap else RvTape))
  }

  function JumpSignal(pend: Sigs): Option<Sig> {
    if pend.open then Some(OPEN) else if pend.close then Some(CLOSE)
    else if pend.error then Some(ERROR) else None
  }

  /** One atomic step of process `p`; `None` when it is blocked or gone.  `choice` resolves the
      outcome of fork and the order in which two deliverable signals are taken. */
  function Step(c: Conf, s: State, p: nat, choice: bool): Option<State>
    requires p < |s.procs|
  {
    var pr := s.procs[p];
    var i := s.inpos / 2;
    match pr.pc
    case Top =>
      if i >= |c.cmds| then Some(Goto(s, p, ExitPass))
      else
        var key := KeyOf(c.cmds[i]);
        Some(SetProc(s, p, pr.(key := key, pc := if key == KOp then Args else RvTape)).(inpos := s.inpos + 1))
    case Args => Some(SetProc(s, p, pr.(cmd := i, pc := PassRecv)).(inpos := s.inpos + 1))
    case PassRecv => Some(KillGoto(s, p, pr.next, RECV, WaitTape))
    case WaitTape => Await(s, p, TAPE, DoTape)
    case DoTape =>
      if pr.cmd < |c.cmds| && c.cmds[pr.cmd].Op? then
        var log := s.tape + [c.cmds[pr.cmd].op];
        Some(SetProc(s, p, pr.(res := c.dev(log), pc := PassTape)).(tape := log))
      else None
    case PassTape => Some(KillGoto(s, p, pr.next, TAPE, WaitSend))
    case WaitSend => Await(s, p, SEND, Respond)
    case Respond =>
      if pr.cmd < |c.cmds|
      then Some(Goto(s, p, Data).(out := s.out + [ReplyLine(c.cmds[pr.cmd], pr.res)]))
      else None
    case Data =>
      if pr.cmd < |c.cmds|
      then Some(Goto(s, p, PassSend).(out := s.out + ReplyData(c.cmds[pr.cmd], pr.res)))
      else None
    case PassSend => Some(KillGoto(s, p, pr.next, SEND, Park))
    case Park =>
      var jump := JumpSignal(pr.pend);
      if pr.pend.recv && (choice || jump.None?) then Await(s, p, RECV, Top)
      else if jump.Some? then Some(LongJump(s, p, jump.value))
      else None
    case RvTape => Await(s, p, TAPE, RvSend)
    case RvSend => Await(s, p, SEND, RvKill)
    case RvKill => Some(KillGoto(s, p, 0, SigOf(pr.key), RvPause))
    case RvPause =>
      var jump := JumpSignal(pr.pend);
      if jump.Some? then Some(LongJump(s, p, jump.value))
      else if pr.pend != NONE then Some(SetProc(s, p, pr.(pend := NONE, pc := Reap)))
      else None
    case Reap =>
      // only the parent owns childpid[]; the invariant shows nobody else gets here
      if p != 0 then None
      else if |s.procs| > 1 then Some(s.(procs := s.procs[..|s.procs| - 1]))
      else
        var pc := match pr.key case KClose => ParArgs case KOpen => ParCloseOld case _ => Dead;
        Some(SetProc(s, p, pr.(next := 0, pc := pc)))
    case ParCloseOld => Some(Goto(s, p, ParArgs).(tape := s.tape + [CloseDev]))
    case ParArgs => Some(SetProc(s, p, pr.(cmd := i, pc := ParTape)).(inpos := s.inpos + 1))
    case ParTape =>
      if pr.key == KClose then
        var log := s.tape + [CloseDev];
        Some(SetProc(s, p, pr.(res := c.dev(log), pc := ParRespond)).(tape := log))
      else if pr.cmd < |c.cmds| && c.cmds[pr.cmd].Open? then
        var log := s.tape + [OpenDev(c.cmds[pr.cmd].device, c.cmds[pr.cmd].mode)];
        Some(SetProc(s, p, pr.(res := c.dev(log), pc := ParRespond)).(tape := log))
      else None
    case ParRespond =>
      var pc := if pr.key == KClose then ParKillTape else if pr.res.rval >= 0 then Fork else CheckNext;
      Some(Goto(s, p, pc).(out := s.out + [RespondLine(pr.res.rval, pr.res.err)]))
    case ParKillTape => Some(KillGoto(s, p, 0, TAPE, ParKillSend))
    case ParKillSend => Some(KillGoto(s, p, 0, SEND, Top))
    case Fork =>
      if |s.procs| - 1 < c.maxChild && choice then
        var child := pr.(pc := CheckNext, pend := NONE);
        Some(s.(procs := s.procs[p := pr.(next := |s.procs|)] + [child]))
      else Some(Goto(s, p, CheckNext))
    case CheckNext => Some(Goto(s, p, if pr.next == 0 then StartRecv else Park))
    case StartRecv => Some(KillGoto(s, p, 0, RECV, StartTape))
    case StartTape => Some(KillGoto(s, p, 0, TAPE, StartSend))
    case StartSend => Some(KillGoto(s, p, 0, SEND, Park))
    case ExitPass => Some(KillGoto(s, p, pr.next, RECV, Dead))
    case Dead => None
  }

  ghost predicate Next(c: Conf, s: State, s': State) {
    exists p: nat, choice: bool :: p < |s.procs| && Step(c, s, p, choice) == Some(s')
  }

  /** main() before its loop: one process that has signalled TAPE and SEND to itself. */
  function Init(): State {
    State([Proc(Top, NONE.(tape := true, send := true), 0, KOp, 0, Result(0, 0, []))], 0, [], [])
  }

  /** A run, as the list of states it passes through. */
  ghost predicate IsRun(c: Conf, run: seq<State>) {
    && |run| > 0
    && run[0] == Init()
    && forall k :: 0 <= k < |run| - 1 ==> Next(c, run[k], run[k + 1])
  }

  // ----- the sequential server -----

  function TapeOps(cmd: Cmd): seq<TapeOp> {
    match cmd
    case Op(op) => [op]
    case Close(_) => [CloseDev]
    case Open(device, mode) => [CloseDev, OpenDev(device, mode)]
    case Garbage => []
  }

  /** Tape operations of the first `k` commands, in command order. */
  function SeqTape(cmds: seq<Cmd>, k: nat): seq<TapeOp>
    requires k <= |cmds|
  {
    if k == 0 then [] else SeqTape(cmds, k - 1) + TapeOps(cmds[k - 1])
  }

  /** What the last tape operation of command `k` returns. */
  function SeqResult(c: Conf, k: nat): Result
    requires k < |c.cmds|
  {
    c.dev(SeqTape(c.cmds, k + 1))
  }

  function Reply(c: Conf, k: nat): seq<Out>
    requires k < |c.cmds|
  {
    [ReplyLine(c.cmds[k], SeqResult(c, k))] + ReplyData(c.cmds[k], SeqResult(c, k))
  }

  /** Replies to the first `k` commands, in command order, data right behind its response. */
  function SeqOut(c: Conf, k: nat): seq<Out>
    requires k <= |c.cmds|
  {
    if k == 0 then [] else SeqOut(c, k - 1) + Reply(c, k - 1)
  }

  /** How many commands the sequential server answers: it exits at the first garbage command. */
  function Served(cmds: seq<Cmd>): (n: nat)
    ensures n <= |cmds|
    ensures n < |cmds| ==> cmds[n].Garbage?
    ensures forall i :: 0 <= i < n ==> !cmds[i].Garbage?
  {
    if |cmds| == 0 || cmds[0].Garbage? then 0
    else
      var n := Served(cmds[1..]);
      assert forall i :: 0 < i < n + 1 ==> cmds[i] == cmds[1..][i - 1];
      n + 1
  }
}
