/**
 Exactly which token lists the evaluator accepts.

 A left-to-right scan keeps one flag for each parenthesis still open (and one for the outermost
 level): whether an operator has been seen at that level.  The evaluator accepts the well-formed
 expressions and, because it steps its cursor back after every call, one family of lists with
 unclosed parentheses.
 */
module ExprAccept {
  import opened ExprModel
  import opened ExprGrammar

  datatype Verdict =
    | Bad                              // an operand is missing
    | Excess                           // a right parenthesis too many
    | Junk(j: nat, S: seq<bool>)       // an operand starts at j where an operator is expected
    | Ends(S: seq<bool>)               // end of input behind an operand

  function Last(S: seq<bool>): bool
    requires |S| > 0
  {
    S[|S| - 1]
  }

  /** `need`: an operand must come next. */
  function Scan(toks: seq<Token>, i: nat, need: bool, S: seq<bool>): Verdict
    requires i <= |toks| && |S| > 0
    decreases |toks| - i
  {
    if need then
      match At(toks, i)
      case Str(_) => Scan(toks, i + 1, false, S)
      case LP => Scan(toks, i + 1, true, S + [false])
      case _ => Bad
    else
      match At(toks, i)
      case Bin(_) => Scan(toks, i + 1, true, Mark(S))
      case RP => if |S| == 1 then Excess else Scan(toks, i + 1, false, S[..|S| - 1])
      case End => Ends(S)
      case _ => Junk(i, S)
  }

  function Mark(S: seq<bool>): seq<bool>
    requires |S| > 0
  {
    S[|S| - 1 := true]
  }

  function MarkIf(S: seq<bool>, b: bool): seq<bool>
    requires |S| > 0
  {
    if b then Mark(S) else S
  }

  // ----- how a call unwinds once the scan is stuck -----

  /** Stuck at an operand behind a right parenthesis: (whether the cursor ends one too far, change of
      the parenthesis count) for the call reading an innermost-last list of open levels. */
  function UnwindJunk(body: bool, T: seq<bool>): (bool, int)
    requires |T| > 0
    decreases |T|
  {
    if |T| == 1 then (body && T[0], if body && T[0] then -1 else 0)
    else
      var (over, d) := UnwindJunk(true, T[1..]);
      if !body then (false, d + 1)
      else if T[0] || !over then (true, d)
      else (false, d + 1)
  }

  /** Stuck at the end of input behind a right parenthesis, with levels still open. */
  function UnwindEnd(body: bool, T: seq<bool>): (bool, int)
    requires |T| > 0
    decreases |T|
  {
    if |T| == 1 then (false, 0)
    else
      var (over, d) := UnwindEnd(true, T[1..]);
      if !body || T[0] || over then (false, d + 1) else (true, d)
  }

  function Shift(over: bool): nat { if over then 1 else 0 }

  /** What Parse returns at a clean stop. */
  function Stop(toks: seq<Token>, par: nat, e: nat, paren: int, t: Ast): Parsed {
    match At(toks, e)
    case End => Done(t, e, true, paren)
    case RP => if par != 0 then Done(t, e + 2, false, paren - 1) else Done(t, e + 1, false, paren)
    case _ => Done(t, e + 1, false, paren)
  }

  // ----- the two ways of getting stuck behind a word -----

  ghost predicate WordJunk(toks: seq<Token>, j: nat) {
    0 < j < |toks| && toks[j - 1].Str? && OperandStart(toks[j])
  }

  /** No call that starts before such a place ever gets past it. */
  lemma {:induction false} BarrierCall(toks: seq<Token>, prior: nat, par: nat, a: nat, noarg: bool, paren: int, j: nat)
    requires WordJunk(toks, j) && a < j
    ensures var r := Parse(toks, prior, par, a, noarg, paren); r.Done? ==> r.argi <= j
    decreases |toks| + 1 - a, 1
  {
    if toks[a].Str? {
      BarrierRest(toks, prior, par, a + 1, noarg, paren, Lit(toks[a].s), j);
    } else if toks[a].LP? {
      BarrierCall(toks, 0, a + 1, a + 1, noarg, paren + 1, j);
      var r := Parse(toks, 0, a + 1, a + 1, noarg, paren + 1);
      if r.Done? { BarrierRest(toks, prior, par, r.argi - 1, r.noarg, r.paren, r.t, j); }
    }
  }

  lemma {:induction false} BarrierRest(toks: seq<Token>, prior: nat, par: nat, a: nat, noarg: bool, paren: int,
                                       t: Ast, j: nat)
    requires WordJunk(toks, j) && a <= j
    ensures var r := ParseRest(toks, prior, par, a, noarg, paren, t); r.Done? ==> r.argi <= j
    decreases |toks| + 1 - a, 0
  {
    if toks[a].Bin? && Pri(toks[a].op) > prior {
      var op := toks[a].op;
      BarrierCall(toks, Pri(op), 0, a + 1, noarg, paren, j);
      var r := Parse(toks, Pri(op), 0, a + 1, noarg, paren);
      if r.Done? && !r.noarg { BarrierRest(toks, prior, par, r.argi - 1, false, r.paren, App(op, t, r.t), j); }
    }
  }

  /** The last stretch of tokens without a right parenthesis, ending in a word. */
  ghost predicate WordTail(toks: seq<Token>, rho: nat) {
    && 1 <= rho < |toks| && toks[|toks| - 1].Str? && Proper(toks)
    && (forall i :: rho <= i < |toks| ==> !toks[i].RP?)
    && (rho == 1 || toks[rho - 1].RP?)
    && (forall i :: 1 < i < |toks| && OperandStart(toks[i]) ==> !toks[i - 1].Str? && !toks[i - 1].RP?)
  }

  /** Inside it no parenthesis is ever counted as closed. */
  lemma {:induction false} TailCall(toks: seq<Token>, prior: nat, par: nat, a: nat, paren: int, rho: nat)
    requires WordTail(toks, rho) && rho <= a <= |toks|
    ensures var r := Parse(toks, prior, par, a, true, paren);
      r.Done? ==> r.noarg && paren <= r.paren && rho < r.argi <= |toks|
    decreases |toks| + 1 - a, 1
  {
    if a < |toks| {
      if toks[a].Str? {
        TailRest(toks, prior, par, a + 1, paren, Lit(toks[a].s), rho);
      } else if toks[a].LP? {
        TailCall(toks, 0, a + 1, a + 1, paren + 1, rho);
        var r := Parse(toks, 0, a + 1, a + 1, true, paren + 1);
        if r.Done? { TailRest(toks, prior, par, r.argi - 1, r.paren, r.t, rho); }
      }
    }
  }

  lemma {:induction false} TailRest(toks: seq<Token>, prior: nat, par: nat, a: nat, paren: int, t: Ast, rho: nat)
    requires WordTail(toks, rho) && rho <= a <= |toks| && 2 <= a
    ensures var r := ParseRest(toks, prior, par, a, true, paren, t);
      r.Done? ==> r.noarg && paren <= r.paren && rho < r.argi <= |toks|
    decreases |toks| + 1 - a, 0
  {
    if a < |toks| && toks[a].Bin? && Pri(toks[a].op) > prior {
      TailCall(toks, Pri(toks[a].op), 0, a + 1, paren, rho);
    }
  }

  // ----- clean and stuck calls -----

  /** The call reads a complete expression `t` up to `e`. */
  ghost predicate Clean(toks: seq<Token>, i: nat, need: bool, prior: nat, par: nat, paren: int, S: seq<bool>,
                        p: Parsed, t: Tree, e: nat)
    requires i <= |toks| && |S| > 0
  {
    && i <= e <= |toks| && 0 < e
    && Scan(toks, i, need, S) == Scan(toks, e, false, MarkIf(S, t.Node?))
    && Canonical(t) && TopPri(t) > prior && Closes(At(toks, e), prior)
    && p == Stop(toks, par, e, paren, ToAst(t))
  }

  ghost predicate StuckAtJunk(toks: seq<Token>, par: nat, paren: int, S: seq<bool>, p: Parsed, j: nat, S2: seq<bool>)
    requires |S| > 0
  {
    && 0 < j < |toks| && OperandStart(toks[j])
    && |S2| >= |S| && S2[..|S| - 1] == S[..|S| - 1] && (Last(S) ==> S2[|S| - 1])
    && (toks[j - 1].RP? ==>
          var (over, d) := UnwindJunk(par != 0, S2[|S| - 1..]);
          p.Done? && p.argi == j + Shift(over) && !p.noarg && p.paren == paren + d)
  }

  ghost predicate StuckAtEnd(toks: seq<Token>, par: nat, paren: int, S: seq<bool>, p: Parsed, S2: seq<bool>, rho: nat)
    requires |S| > 0
  {
    && |S2| > |S| && S2[..|S| - 1] == S[..|S| - 1] && (Last(S) ==> S2[|S| - 1])
    && (|toks| > 0 && toks[|toks| - 1].RP? ==>
          var (over, d) := UnwindEnd(par != 0, S2[|S| - 1..]);
          p.Done? && p.argi == |toks| + Shift(over) && p.noarg && p.paren == paren + d)
    && (WordTail(toks, rho) && p.Done? ==>
          p.noarg && paren + |S2| - |S| <= p.paren && rho < p.argi <= |toks|)
  }

  ghost predicate Stuck(toks: seq<Token>, par: nat, paren: int, S: seq<bool>, p: Parsed, v: Verdict, rho: nat)
    requires |S| > 0
  {
    match v
    case Bad => p.Fail?
    case Excess => false
    case Junk(j, S2) => StuckAtJunk(toks, par, paren, S, p, j, S2)
    case Ends(S2) => StuckAtEnd(toks, par, paren, S, p, S2, rho)
  }

  /** Behind a stuck call in parentheses. */
  lemma GroupStuck(toks: seq<Token>, prior: nat, par: nat, a: nat, paren: int, S: seq<bool>, rho: nat)
    requires Proper(toks) && 0 < a < |toks| && toks[a].LP? && |S| > 0
    requires if par == 0 then Last(S) else par == a && !Last(S)
    requires Stuck(toks, a + 1, paren + 1, S + [false], Parse(toks, 0, a + 1, a + 1, false, paren + 1),
                   Scan(toks, a + 1, true, S + [false]), rho)
    ensures Stuck(toks, par, paren, S, Parse(toks, prior, par, a, false, paren), Scan(toks, a, true, S), rho)
  {
    var v, inner := Scan(toks, a + 1, true, S + [false]), Parse(toks, 0, a + 1, a + 1, false, paren + 1);
    match v
    case Bad =>
    case Excess =>
    case Junk(j, S2) => GroupStuckJunk(toks, prior, par, a, paren, S, inner, j, S2);
    case Ends(S2) => GroupStuckEnd(toks, prior, par, a, paren, S, inner, S2, rho);
  }

  lemma GroupStuckJunk(toks: seq<Token>, prior: nat, par: nat, a: nat, paren: int, S: seq<bool>, inner: Parsed,
                       j: nat, S2: seq<bool>)
    requires Proper(toks) && 0 < a < |toks| && toks[a].LP? && |S| > 0
    requires if par == 0 then Last(S) else par == a && !Last(S)
    requires inner == Parse(toks, 0, a + 1, a + 1, false, paren + 1)
    requires StuckAtJunk(toks, a + 1, paren + 1, S + [false], inner, j, S2)
    ensures StuckAtJunk(toks, par, paren, S, Parse(toks, prior, par, a, false, paren), j, S2)
  {
    var S' := S + [false];
    assert S2[..|S'| - 1] == S;
    assert S2[..|S| - 1] == S[..|S| - 1] by { assert S2[..|S| - 1] == S2[..|S'| - 1][..|S| - 1]; }
    assert S2[|S| - 1] == Last(S) by { assert S2[|S| - 1] == S2[..|S'| - 1][|S| - 1]; }
    assert S2[|S| - 1..][1..] == S2[|S|..];
  }

  lemma GroupStuckEnd(toks: seq<Token>, prior: nat, par: nat, a: nat, paren: int, S: seq<bool>, inner: Parsed,
                      S2: seq<bool>, rho: nat)
    requires Proper(toks) && 0 < a < |toks| && toks[a].LP? && |S| > 0
    requires if par == 0 then Last(S) else par == a && !Last(S)
    requires inner == Parse(toks, 0, a + 1, a + 1, false, paren + 1)
    requires StuckAtEnd(toks, a + 1, paren + 1, S + [false], inner, S2, rho)
    ensures StuckAtEnd(toks, par, paren, S, Parse(toks, prior, par, a, false, paren), S2, rho)
  {
    var S' := S + [false];
    assert S2[..|S'| - 1] == S;
    assert S2[..|S| - 1] == S[..|S| - 1] by { assert S2[..|S| - 1] == S2[..|S'| - 1][..|S| - 1]; }
    assert S2[|S| - 1] == Last(S) by { assert S2[|S| - 1] == S2[..|S'| - 1][|S| - 1]; }
    assert S2[|S| - 1..][1..] == S2[|S|..];
    if WordTail(toks, rho) && inner.Done? {
      TailRest(toks, prior, par, inner.argi - 1, inner.paren, inner.t, rho);
    }
  }

  /** A parenthesis whose contents run to the end of input. */
  lemma GroupUnclosed(toks: seq<Token>, prior: nat, par: nat, a: nat, paren: int, S: seq<bool>, rho: nat, u: Tree)
    requires Proper(toks) && 0 < a && a + 1 < |toks| && toks[a].LP? && |S| > 0
    requires if par == 0 then Last(S) else par == a && !Last(S)
    requires Clean(toks, a + 1, true, 0, a + 1, paren + 1, S + [false],
                   Parse(toks, 0, a + 1, a + 1, false, paren + 1), u, |toks|)
    ensures Stuck(toks, par, paren, S, Parse(toks, prior, par, a, false, paren), Scan(toks, a, true, S), rho)
  {
    var S2 := MarkIf(S + [false], u.Node?);
    assert S2[..|S| - 1] == S[..|S| - 1] && S2[|S| - 1] == Last(S);
    assert Scan(toks, a, true, S) == Ends(S2);
    assert |S2[|S| - 1..]| == 2 && |S2[|S| - 1..][1..]| == 1;
    if WordTail(toks, rho) {
      TailRest(toks, prior, par, |toks| - 1, paren + 1, ToAst(u), rho);
    }
  }

  /** Behind a stuck right operand. */
  lemma OperatorStuck(toks: seq<Token>, op: Op, prior: nat, par: nat, k: nat, paren: int, S: seq<bool>, t: Ast,
                      rho: nat)
    requires Proper(toks) && 0 < k < |toks| && toks[k] == Bin(op) && Pri(op) > prior && |S| > 0 && par < k
    requires par == 0 ==> Last(S)
    requires Stuck(toks, 0, paren, Mark(S), Parse(toks, Pri(op), 0, k + 1, false, paren),
                   Scan(toks, k + 1, true, Mark(S)), rho)
    ensures Stuck(toks, par, paren, S, ParseRest(toks, prior, par, k, false, paren, t), Scan(toks, k, false, S), rho)
  {
    var v, rhs := Scan(toks, k + 1, true, Mark(S)), Parse(toks, Pri(op), 0, k + 1, false, paren);
    assert Mark(S)[..|S| - 1] == S[..|S| - 1];
    match v
    case Bad =>
    case Excess =>
    case Junk(j, S2) => OperatorStuckJunk(toks, op, prior, par, k, paren, S, t, rhs, j, S2);
    case Ends(S2) =>
  }

  lemma OperatorStuckJunk(toks: seq<Token>, op: Op, prior: nat, par: nat, k: nat, paren: int, S: seq<bool>, t: Ast,
                          rhs: Parsed, j: nat, S2: seq<bool>)
    requires Proper(toks) && 0 < k < |toks| && toks[k] == Bin(op) && Pri(op) > prior && |S| > 0 && par < k
    requires par == 0 ==> Last(S)
    requires rhs == Parse(toks, Pri(op), 0, k + 1, false, paren)
    requires StuckAtJunk(toks, 0, paren, Mark(S), rhs, j, S2)
    ensures StuckAtJunk(toks, par, paren, S, ParseRest(toks, prior, par, k, false, paren, t), j, S2)
  {
    assert Mark(S)[..|S| - 1] == S[..|S| - 1];
  }

  // ----- every call -----

  datatype Outcome = Complete(t: Tree, e: nat) | Incomplete

  lemma CallGroup(toks: seq<Token>, prior: nat, par: nat, a: nat, paren: int, S: seq<bool>, u: Tree, e: nat)
    requires Proper(toks) && 0 < a && a + 1 < e < |toks| && toks[a].LP? && |S| > 0
    requires Clean(toks, a + 1, true, 0, a + 1, paren + 1, S + [false],
                   Parse(toks, 0, a + 1, a + 1, false, paren + 1), u, e)
    ensures toks[e].RP?
    ensures Scan(toks, a, true, S) == Scan(toks, e + 1, false, S)
    ensures Parse(toks, prior, par, a, false, paren)
      == ParseRest(toks, prior, par, e + 1, false, paren, ToAst(Group(u)))
  {
    var S1 := MarkIf(S + [false], u.Node?);
    assert S1[..|S1| - 1] == S;
  }

  lemma RestStops(toks: seq<Token>, prior: nat, par: nat, k: nat, paren: int, S: seq<bool>, t: Tree)
    requires Proper(toks) && 0 < k <= |toks| && |S| > 0 && Closes(At(toks, k), prior) && par < k
    requires Canonical(t) && TopPri(t) > prior && (t.Node? ==> Last(S))
    ensures Clean(toks, k, false, prior, par, paren, S, ParseRest(toks, prior, par, k, false, paren, ToAst(t)), t, k)
  {
    assert MarkIf(S, t.Node?) == S;
  }

  lemma RestJunk(toks: seq<Token>, prior: nat, par: nat, k: nat, paren: int, S: seq<bool>, t: Ast, rho: nat)
    requires Proper(toks) && 0 < k < |toks| && |S| > 0 && OperandStart(toks[k])
    requires if par == 0 then Last(S) else !Last(S)
    ensures Stuck(toks, par, paren, S, ParseRest(toks, prior, par, k, false, paren, t), Scan(toks, k, false, S), rho)
  {
    assert S[|S| - 1..] == [Last(S)];
  }

  lemma RestOperator(toks: seq<Token>, op: Op, prior: nat, par: nat, k: nat, paren: int, S: seq<bool>, t: Ast,
                     r: Tree, e: nat)
    requires Proper(toks) && k < |toks| && toks[k] == Bin(op) && Pri(op) > prior && |S| > 0
    requires Clean(toks, k + 1, true, Pri(op), 0, paren, Mark(S), Parse(toks, Pri(op), 0, k + 1, false, paren), r, e)
    ensures Scan(toks, k, false, S) == Scan(toks, e, false, Mark(S))
    ensures ParseRest(toks, prior, par, k, false, paren, t)
         == if e == |toks| then Done(App(op, t, ToAst(r)), e, true, paren)
            else ParseRest(toks, prior, par, e, false, paren, App(op, t, ToAst(r)))
  {
    hide Stuck, Yield, Canonical, Accepted;
    MarkedAlready(S, r.Node?);
  }

  lemma MarkedAlready(S: seq<bool>, b: bool)
    requires |S| > 0
    ensures MarkIf(Mark(S), b) == Mark(S)
  {
  }

  lemma StuckUnmark(toks: seq<Token>, par: nat, paren: int, S: seq<bool>, p: Parsed, v: Verdict, rho: nat)
    requires |S| > 0 && Stuck(toks, par, paren, Mark(S), p, v, rho)
    ensures Stuck(toks, par, paren, S, p, v, rho)
  {
    assert Mark(S)[..|S| - 1] == S[..|S| - 1];
  }

  /** A call that starts where an operand is due either reads a complete expression, or is stuck where
      the scan is. */
  lemma {:induction false} RunCall(toks: seq<Token>, prior: nat, par: nat, a: nat, paren: int, S: seq<bool>, rho: nat)
    returns (o: Outcome)
    requires Proper(toks) && 0 < a <= |toks| && |S| > 0 && prior < TIGHT
    requires if par == 0 then Last(S) else par == a && !Last(S)
    ensures match o
      case Complete(t, e) =>
        && Clean(toks, a, true, prior, par, paren, S, Parse(toks, prior, par, a, false, paren), t, e)
        && a < e && toks[a..e] == Yield(t)
      case Incomplete => Stuck(toks, par, paren, S, Parse(toks, prior, par, a, false, paren), Scan(toks, a, true, S),
                               rho)
    decreases |toks| + 1 - a, 1
  {
    hide Clean, Stuck, Canonical, Stop, Parse, ParseRest, Scan, Yield, ToAst;
    match At(toks, a)
    case Str(s) =>
      WordStep(toks, prior, par, a, paren, S, s);
      o := RunRest(toks, prior, par, a, a + 1, paren, S, Leaf(s), rho);
      if o.Complete? {
        CleanEarlier(toks, prior, par, a, a + 1, paren, S, Parse(toks, prior, par, a, false, paren), o.t, o.e);
      }
      hide *;
    case LP =>
      var inner := RunCall(toks, 0, a + 1, a + 1, paren + 1, S + [false], rho);
      if inner.Incomplete? {
        GroupStuck(toks, prior, par, a, paren, S, rho);
        o := Incomplete;
      } else {
        CleanBounds(toks, a + 1, true, 0, a + 1, paren + 1, S + [false],
                    Parse(toks, 0, a + 1, a + 1, false, paren + 1), inner.t, inner.e);
        if inner.e == |toks| {
          GroupUnclosed(toks, prior, par, a, paren, S, rho, inner.t);
          o := Incomplete;
        } else {
          CallGroup(toks, prior, par, a, paren, S, inner.t, inner.e);
          GroupYield(toks, a, inner.t, inner.e);
          o := RunRest(toks, prior, par, a, inner.e + 1, paren, S, Group(inner.t), rho);
          if o.Complete? {
            CleanEarlier(toks, prior, par, a, inner.e + 1, paren, S, Parse(toks, prior, par, a, false, paren), o.t,
                         o.e);
          }
          hide *;
        }
      }
    case _ =>
      o := Incomplete;
      MissingOperand(toks, prior, par, a, paren, S, rho);
  }

  lemma CleanEarlier(toks: seq<Token>, prior: nat, par: nat, a: nat, k: nat, paren: int, S: seq<bool>, p: Parsed,
                     t: Tree, e: nat)
    requires a < k <= |toks| && |S| > 0 && Scan(toks, a, true, S) == Scan(toks, k, false, S)
    requires Clean(toks, k, false, prior, par, paren, S, p, t, e)
    ensures Clean(toks, a, true, prior, par, paren, S, p, t, e)
  {
  }

  lemma WordStep(toks: seq<Token>, prior: nat, par: nat, a: nat, paren: int, S: seq<bool>, s: string)
    requires 0 < a < |toks| && |S| > 0 && toks[a] == Str(s)
    ensures Parse(toks, prior, par, a, false, paren) == ParseRest(toks, prior, par, a + 1, false, paren, ToAst(Leaf(s)))
    ensures Scan(toks, a, true, S) == Scan(toks, a + 1, false, S)
    ensures toks[a..a + 1] == Yield(Leaf(s)) && Canonical(Leaf(s)) && TopPri(Leaf(s)) == TIGHT
  {
  }

  lemma GroupYield(toks: seq<Token>, a: nat, u: Tree, e: nat)
    requires a + 1 < e < |toks| && toks[a].LP? && toks[e].RP? && toks[a + 1..e] == Yield(u)
    ensures toks[a..e + 1] == Yield(Group(u)) && TopPri(Group(u)) == TIGHT && Canonical(Group(u)) == Canonical(u)
  {
    assert toks[a..e + 1] == [LP] + toks[a + 1..e] + [RP];
  }

  lemma CleanBounds(toks: seq<Token>, i: nat, need: bool, prior: nat, par: nat, paren: int, S: seq<bool>, p: Parsed,
                    t: Tree, e: nat)
    requires i <= |toks| && |S| > 0 && Clean(toks, i, need, prior, par, paren, S, p, t, e)
    ensures e <= |toks| && Canonical(t) && TopPri(t) > prior && Closes(At(toks, e), prior)
  {
  }

  lemma MissingOperand(toks: seq<Token>, prior: nat, par: nat, a: nat, paren: int, S: seq<bool>, rho: nat)
    requires a <= |toks| && |S| > 0 && !OperandStart(At(toks, a))
    ensures Stuck(toks, par, paren, S, Parse(toks, prior, par, a, false, paren), Scan(toks, a, true, S), rho)
  {
  }

  lemma NodeYield(toks: seq<Token>, a: nat, k: nat, op: Op, t: Tree, r: Tree, e: nat)
    requires a < k && k + 1 < e <= |toks| && toks[k] == Bin(op) && toks[a..k] == Yield(t) && toks[k + 1..e] == Yield(r)
    ensures toks[a..e] == Yield(Node(op, t, r))
  {
    assert toks[a..e] == toks[a..k] + [Bin(op)] + toks[k + 1..e];
  }

  /** The loop of a call that has read `t` so far and stands at `k`. */
  lemma {:induction false} RunRest(toks: seq<Token>, prior: nat, par: nat, a: nat, k: nat, paren: int, S: seq<bool>,
                                   t: Tree, rho: nat)
    returns (o: Outcome)
    requires Proper(toks) && 0 < a < k <= |toks| && |S| > 0 && prior < TIGHT
    requires if par == 0 then Last(S) else par == a && Last(S) == t.Node?
    requires Canonical(t) && TopPri(t) > prior && toks[a..k] == Yield(t)
    requires t.Node? ==> Closes(At(toks, k), Pri(t.op))
    ensures match o
      case Complete(u, e) =>
        && Clean(toks, k, false, prior, par, paren, S, ParseRest(toks, prior, par, k, false, paren, ToAst(t)), u, e)
        && a < e && toks[a..e] == Yield(u) && (t.Node? ==> u.Node?)
      case Incomplete => Stuck(toks, par, paren, S, ParseRest(toks, prior, par, k, false, paren, ToAst(t)),
                               Scan(toks, k, false, S), rho)
    decreases |toks| + 1 - k, 0
  {
    hide Clean, Stuck, Stop, Parse, ParseRest, Scan;
    if OperandStart(At(toks, k)) {
      RestJunk(toks, prior, par, k, paren, S, ToAst(t), rho);
      o := Incomplete;
    } else if At(toks, k).Bin? && Pri(toks[k].op) > prior {
      var op := toks[k].op;
      var rhs := RunCall(toks, Pri(op), 0, k + 1, paren, Mark(S), rho);
      if rhs.Incomplete? {
        OperatorStuck(toks, op, prior, par, k, paren, S, ToAst(t), rho);
        o := Incomplete;
      } else {
        o := RunOperator(toks, prior, par, a, k, paren, S, t, rho, rhs.t, rhs.e);
      }
    } else {
      RestStops(toks, prior, par, k, paren, S, t);
      o := Complete(t, k);
    }
  }

  lemma {:induction false} RunOperator(toks: seq<Token>, prior: nat, par: nat, a: nat, k: nat, paren: int,
                                       S: seq<bool>, t: Tree, rho: nat,
                                       r: Tree, e: nat)
    returns (o: Outcome)
    requires Proper(toks) && 0 < a < k < |toks| && |S| > 0 && toks[k].Bin? && prior < Pri(toks[k].op)
    requires if par == 0 then Last(S) else par == a && Last(S) == t.Node?
    requires Canonical(t) && toks[a..k] == Yield(t) && TopPri(t) >= Pri(toks[k].op)
    requires k + 1 < e
    requires Clean(toks, k + 1, true, Pri(toks[k].op), 0, paren, Mark(S),
                   Parse(toks, Pri(toks[k].op), 0, k + 1, false, paren), r, e)
    requires toks[k + 1..e] == Yield(r)
    ensures match o
      case Complete(u, e) =>
        && Clean(toks, k, false, prior, par, paren, S, ParseRest(toks, prior, par, k, false, paren, ToAst(t)), u, e)
        && a < e && toks[a..e] == Yield(u) && u.Node?
      case Incomplete => Stuck(toks, par, paren, S, ParseRest(toks, prior, par, k, false, paren, ToAst(t)),
                               Scan(toks, k, false, S), rho)
    decreases |toks| + 1 - k, -1
  {
    hide Stuck, Parse, ParseRest, Scan;
    var op := toks[k].op;
    var u := Node(op, t, r);
    RestOperator(toks, op, prior, par, k, paren, S, ToAst(t), r, e);
    CleanBounds(toks, k + 1, true, Pri(op), 0, paren, Mark(S), Parse(toks, Pri(op), 0, k + 1, false, paren), r, e);
    NodeYield(toks, a, k, op, t, r, e);
    assert Mark(Mark(S)) == Mark(S);
    if e == |toks| {
      o := Complete(u, e);
    } else {
      hide Yield;
      o := RunRest(toks, prior, par, a, e, paren, Mark(S), u, rho);
      if o.Incomplete? {
        StuckUnmark(toks, par, paren, S, ParseRest(toks, prior, par, k, false, paren, ToAst(t)),
                    Scan(toks, k, false, S), rho);
      }
    }
  }

  // ----- facts about the scan -----

  predicate OperandEnd(t: Token) { t.Str? || t.RP? }

  ghost predicate NoJunk(toks: seq<Token>, i: nat) {
    forall k :: i < k < |toks| && OperandStart(toks[k]) ==> !OperandEnd(toks[k - 1])
  }

  lemma {:induction false} ScanBehind(toks: seq<Token>, i: nat, need: bool, S: seq<bool>)
    requires Proper(toks) && 0 < i <= |toks| && |S| > 0 && (need || OperandEnd(toks[i - 1]))
    ensures var v := Scan(toks, i, need, S);
      && (v.Junk? ==> i <= v.j < |toks| && (need ==> i < v.j) && OperandEnd(toks[v.j - 1]) && |v.S| > 0)
      && (v.Ends? ==> |v.S| > 0 && OperandEnd(toks[|toks| - 1]) && NoJunk(toks, i)
                      && (!need && i < |toks| ==> !OperandStart(toks[i])))
    decreases |toks| - i
  {
    if need {
      if i < |toks| && toks[i].Str? { ScanBehind(toks, i + 1, false, S); }
      else if i < |toks| && toks[i].LP? { ScanBehind(toks, i + 1, true, S + [false]); }
    } else if i < |toks| {
      if toks[i].Bin? { ScanBehind(toks, i + 1, true, Mark(S)); }
      else if toks[i].RP? && |S| > 1 { ScanBehind(toks, i + 1, false, S[..|S| - 1]); }
    }
  }

  /** Just behind the last right parenthesis. */
  function TailStart(toks: seq<Token>, n: nat): (rho: nat)
    requires n <= |toks|
    ensures 1 <= rho && (rho == 1 || (rho <= n && toks[rho - 1].RP?))
    ensures forall i :: rho <= i < n ==> !toks[i].RP?
  {
    if n <= 1 then 1 else if toks[n - 1].RP? then n else TailStart(toks, n - 1)
  }

  lemma {:induction false} UnwindEndPositive(T: seq<bool>)
    requires |T| >= 1
    ensures UnwindEnd(true, T).1 >= 0
    ensures |T| >= 2 && !UnwindEnd(true, T).0 ==> UnwindEnd(true, T).1 >= 1
    decreases |T|
  {
    if |T| > 1 { UnwindEndPositive(T[1..]); }
  }

  // ----- the family of lists that slip through -----

  /** One level inside the outermost starts with the parenthesis of the next and has had no operator;
      every other level, except possibly the one around it, has had one. */
  ghost predicate SlipShape(S: seq<bool>) {
    exists i :: SlipAt(S, i)
  }

  ghost predicate SlipAt(S: seq<bool>, i: int) {
    1 <= i < |S| && !S[i] && forall k :: 0 <= k < |S| && k != i && k != i - 1 ==> S[k]
  }

  ghost predicate AllMarked(T: seq<bool>) { forall k :: 0 <= k < |T| ==> T[k] }

  lemma {:induction false} UnwindJunkShape(T: seq<bool>)
    requires |T| >= 1
    ensures UnwindJunk(true, T) == (true, 0) <==> SlipShape(T)
    ensures UnwindJunk(true, T) == (true, -1) <==> AllMarked(T)
    ensures UnwindJunk(true, T) == (false, 0) <==> !T[0] && AllMarked(T[1..])
    ensures UnwindJunk(true, T).1 >= -1
    ensures UnwindJunk(true, T).1 == -1 ==> UnwindJunk(true, T).0
    decreases |T|
  {
    if |T| > 1 {
      var U := T[1..];
      UnwindJunkShape(U);
      forall i ensures SlipAt(T, i) <==> if i == 1 then !T[1] && AllMarked(U[1..]) else T[0] && SlipAt(U, i - 1) {
        SlipShift(T, i);
      }
      if SlipShape(U) {
        var i :| SlipAt(U, i);
        if T[0] { assert SlipAt(T, i + 1); }
      }
      if !U[0] && AllMarked(U[1..]) { assert SlipAt(T, 1); }
    }
  }

  lemma SlipShift(T: seq<bool>, i: int)
    requires |T| > 1
    ensures SlipAt(T, i) <==> if i == 1 then !T[1] && AllMarked(T[1..][1..]) else T[0] && SlipAt(T[1..], i - 1)
  {
    var U := T[1..];
    assert forall k :: 0 < k < |T| ==> T[k] == U[k - 1];
    assert forall k :: 1 < k < |T| ==> T[k] == U[1..][k - 2];
  }

  // ----- the accepted language -----

  ghost predicate WellFormed(toks: seq<Token>) {
    |toks| >= 1 && exists t: Tree :: Canonical(t) && toks[1..] == Yield(t)
  }

  /** The last token is an operand right behind a right parenthesis, with the levels open there in the
      shape that lets the cursor step over it. */
  ghost predicate Slips(toks: seq<Token>)
    requires |toks| >= 1
  {
    match Scan(toks, 1, true, [false])
    case Junk(j, S) => j + 1 == |toks| && 0 < j && toks[j - 1].RP? && SlipShape(S)
    case _ => false
  }

  lemma StuckOutcome(toks: seq<Token>)
    requires Proper(toks) && |toks| >= 1
    requires Stuck(toks, 1, 0, [false], ParseAll(toks), Scan(toks, 1, true, [false]), TailStart(toks, |toks|))
    ensures Accepted(toks, ParseAll(toks)) <==> Slips(toks)
    ensures Accepted(toks, ParseAll(toks)) ==> !ParseAll(toks).noarg
  {
    hide ParseAll, Scan, StuckAtJunk, StuckAtEnd, TailStart, SlipShape;
    match Scan(toks, 1, true, [false])
    case Bad =>
    case Excess =>
    case Junk(j, S) => JunkOutcome(toks, j, S);
    case Ends(S) => EndsOutcome(toks, S);
  }

  lemma JunkOutcome(toks: seq<Token>, j: nat, S: seq<bool>)
    requires Proper(toks) && |toks| >= 1 && Scan(toks, 1, true, [false]) == Junk(j, S)
    requires StuckAtJunk(toks, 1, 0, [false], ParseAll(toks), j, S)
    ensures Accepted(toks, ParseAll(toks)) <==> j + 1 == |toks| && 0 < j && toks[j - 1].RP? && SlipShape(S)
    ensures Accepted(toks, ParseAll(toks)) ==> !ParseAll(toks).noarg
  {
    hide Parse, ParseRest, ParseAll, SlipShape, Scan, UnwindJunk;
    ScanBehind(toks, 1, true, [false]);
    assert S[0..] == S;
    UnwindJunkShape(S);
    if toks[j - 1].Str? {
      BarrierCall(toks, 0, 1, 1, false, 0, j);
      ParseAllIs(toks);
    }
  }

  lemma EndsOutcome(toks: seq<Token>, S: seq<bool>)
    requires Proper(toks) && |toks| >= 1 && Scan(toks, 1, true, [false]) == Ends(S)
    requires StuckAtEnd(toks, 1, 0, [false], ParseAll(toks), S, TailStart(toks, |toks|))
    ensures !Accepted(toks, ParseAll(toks))
  {
    assert |toks| >= 2;
    hide Parse, ParseRest, ParseAll, Scan, UnwindEnd;
    ScanBehind(toks, 1, true, [false]);
    assert S[0..] == S;
    UnwindEndPositive(S);
    if toks[|toks| - 1].Str? {
      assert WordTail(toks, TailStart(toks, |toks|)) by { hide TailStart; TailStartInside(toks); }
    }
  }

  lemma ParseAllIs(toks: seq<Token>)
    requires |toks| >= 1
    ensures ParseAll(toks) == Parse(toks, 0, 1, 1, false, 0)
  {
  }

  lemma TailStartInside(toks: seq<Token>)
    requires |toks| >= 2 && toks[|toks| - 1].Str?
    ensures TailStart(toks, |toks|) < |toks|
  {
  }

  lemma CleanOutcome(toks: seq<Token>, t: Tree, e: nat)
    requires Proper(toks) && |toks| >= 1 && Clean(toks, 1, true, 0, 1, 0, [false], ParseAll(toks), t, e)
    requires 1 < e && toks[1..e] == Yield(t)
    ensures Accepted(toks, ParseAll(toks)) <==> e == |toks|
    ensures !Slips(toks) && (e == |toks| ==> WellFormed(toks))
  {
    hide Parse, ParseRest, Yield, Canonical, SlipShape;
    if e == |toks| { assert toks[1..] == toks[1..e]; }
  }

  /** Which argument lists expr accepts: exactly the well-formed expressions, and those that slip. */
  lemma ExactAcceptance(toks: seq<Token>)
    requires Proper(toks) && |toks| >= 1
    ensures Accepted(toks, ParseAll(toks)) <==> WellFormed(toks) || Slips(toks)
    ensures !(WellFormed(toks) && Slips(toks))
  {
    hide Clean, Stuck, Slips, Yield, Canonical;
    ParseAllIs(toks);
    if WellFormed(toks) {
      var t: Tree :| Canonical(t) && toks[1..] == Yield(t);
      WellFormedParses(toks, t);
    }
    var o := RunCall(toks, 0, 1, 1, 0, [false], TailStart(toks, |toks|));
    if o.Complete? { CleanOutcome(toks, o.t, o.e); } else { StuckOutcome(toks); }
  }

  // ----- parentheses -----

  function Depth(toks: seq<Token>, i: nat): int
    requires i <= |toks|
  {
    if i == 0 then 0 else Depth(toks, i - 1) + (if toks[i - 1].LP? then 1 else if toks[i - 1].RP? then -1 else 0)
  }

  predicate Balanced(toks: seq<Token>) { Depth(toks, |toks|) == 0 }

  lemma {:induction false} ScanDepth(toks: seq<Token>, i: nat, need: bool, S: seq<bool>)
    requires Proper(toks) && i <= |toks| && |S| > 0
    ensures var v := Scan(toks, i, need, S);
      && (v.Junk? ==> v.j < |toks| && |v.S| > 0 && Depth(toks, v.j) - Depth(toks, i) == |v.S| - |S|)
      && (v.Ends? ==> |v.S| > 0 && Depth(toks, |toks|) - Depth(toks, i) == |v.S| - |S|)
    decreases |toks| - i
  {
    if need {
      if i < |toks| && toks[i].Str? { ScanDepth(toks, i + 1, false, S); }
      else if i < |toks| && toks[i].LP? { ScanDepth(toks, i + 1, true, S + [false]); }
    } else if i < |toks| {
      if toks[i].Bin? { ScanDepth(toks, i + 1, true, Mark(S)); }
      else if toks[i].RP? && |S| > 1 { ScanDepth(toks, i + 1, false, S[..|S| - 1]); }
    }
  }

  /** Unbalanced parentheses are rejected if and only if the list does not slip. */
  lemma UnbalancedRejected(toks: seq<Token>)
    requires Proper(toks) && |toks| >= 1 && toks[0].Str? && !Balanced(toks)
    ensures !Accepted(toks, ParseAll(toks)) <==> !Slips(toks)
  {
    ExactAcceptance(toks);
    hide Slips, ParseAll;
    if WellFormed(toks) { WellFormedBalanced(toks); }
  }

  lemma WellFormedBalanced(toks: seq<Token>)
    requires Proper(toks) && |toks| >= 1 && toks[0].Str? && WellFormed(toks)
    ensures Balanced(toks)
  {
    hide Parse, ParseRest;
    var t: Tree :| Canonical(t) && toks[1..] == Yield(t);
    YieldBalanced(toks, t, 1);
    assert toks[1..1 + |Yield(t)|] == Yield(t);
    assert Depth(toks, 1) == 0;
  }

  lemma DepthNext(toks: seq<Token>, i: nat)
    requires i < |toks|
    ensures Depth(toks, i + 1) == Depth(toks, i) + if toks[i].LP? then 1 else if toks[i].RP? then -1 else 0
  {
  }

  lemma {:induction false} YieldBalanced(toks: seq<Token>, t: Tree, a: nat)
    requires a + |Yield(t)| <= |toks| && toks[a..a + |Yield(t)|] == Yield(t)
    ensures Depth(toks, a + |Yield(t)|) == Depth(toks, a)
  {
    hide Depth;
    match t
    case Leaf(s) =>
      assert toks[a] == toks[a..a + 1][0];
      DepthNext(toks, a);
    case Group(u) =>
      GroupSplit(toks, t, a);
      DepthNext(toks, a);
      DepthNext(toks, a + |Yield(t)| - 1);
      hide Yield;
      YieldBalanced(toks, u, a + 1);
    case Node(op, l, r) =>
      var k := NodeSplit(toks, t, a);
      hide Yield;
      DepthNext(toks, k);
      YieldBalanced(toks, l, a);
      YieldBalanced(toks, r, k + 1);
  }

  /** `( ( b ) c`: two parentheses open, one closes, and expr accepts it. */
  lemma UnbalancedAccepted()
    ensures var toks := [Str("expr"), LP, LP, Str("b"), RP, Str("c")];
      !Balanced(toks) && !WellFormed(toks) && ParseAll(toks) == Done(Lit("b"), 6, false, 0)
        && Accepted(toks, ParseAll(toks))
  {
    var toks := [Str("expr"), LP, LP, Str("b"), RP, Str("c")];
    assert Depth(toks, 4) == 2 && Depth(toks, 5) == 1;
    assert Parse(toks, 0, 3, 3, false, 2) == Done(Lit("b"), 6, false, 1);
    assert Parse(toks, 0, 2, 2, false, 1) == Done(Lit("b"), 5, false, 1);
    if WellFormed(toks) { WellFormedBalanced(toks); }
  }
}
