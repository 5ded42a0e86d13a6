/** The expression grammar, and what the evaluator's cursor does on every list of tokens. */
module ExprGrammar {
  import opened ExprModel

  /** A derivation; `Group` is a parenthesised expression. */
  datatype Tree = Leaf(s: string) | Group(t: Tree) | Node(op: Op, l: Tree, r: Tree)

  /** The tokens a derivation stands for. */
  function Yield(t: Tree): (y: seq<Token>)
    ensures |y| > 0
  {
    match t
    case Leaf(s) => [Str(s)]
    case Group(u) => [LP] + Yield(u) + [RP]
    case Node(op, l, r) => Yield(l) + [Bin(op)] + Yield(r)
  }

  const TIGHT := 7

  function TopPri(t: Tree): nat {
    if t.Node? then Pri(t.op) else TIGHT
  }

  /** Derivations that respect pri[] and associate to the left. */
  predicate Canonical(t: Tree) {
    match t
    case Leaf(_) => true
    case Group(u) => Canonical(u)
    case Node(op, l, r) => Canonical(l) && Canonical(r) && TopPri(l) >= Pri(op) && TopPri(r) > Pri(op)
  }

  function ToAst(t: Tree): Ast {
    match t
    case Leaf(s) => Lit(s)
    case Group(u) => ToAst(u)
    case Node(op, l, r) => App(op, ToAst(l), ToAst(r))
  }

  /** Tokens a complete expression of priority `p` can be followed by. */
  predicate Closes(f: Token, p: nat) {
    f.End? || f.RP? || (f.Bin? && Pri(f.op) <= p)
  }

  // ----- well-formed input -----

  /** From the start of a complete expression the evaluator gets to the loop right behind it, in the
      same call and with that expression as its value. */
  lemma {:induction false} ParseTree(toks: seq<Token>, t: Tree, prior: nat, par: nat, a: nat, paren: int)
    requires Proper(toks) && Canonical(t) && TopPri(t) > prior
    requires a + |Yield(t)| <= |toks| && toks[a..a + |Yield(t)|] == Yield(t)
    requires Closes(At(toks, a + |Yield(t)|), TopPri(t))
    ensures Parse(toks, prior, par, a, false, paren)
         == ParseRest(toks, prior, par, a + |Yield(t)|, false, paren, ToAst(t))
    decreases t
  {
    hide Yield, Parse, ParseRest;
    var e := a + |Yield(t)|;
    match t
    case Leaf(s) =>
      LeafStep(toks, s, prior, par, a, paren);
    case Group(u) =>
      GroupSplit(toks, t, a);
      ParseTree(toks, u, 0, a + 1, a + 1, paren + 1);
      GroupStep(toks, prior, par, a, e, paren, ToAst(u));
    case Node(op, l, r) =>
      var k := NodeSplit(toks, t, a);
      ParseTree(toks, l, prior, par, a, paren);
      ParseTree(toks, r, Pri(op), 0, k + 1, paren);
      OperatorStep(toks, op, prior, par, k, e, paren, ToAst(l), ToAst(r));
  }

  lemma LeafStep(toks: seq<Token>, s: string, prior: nat, par: nat, a: nat, paren: int)
    requires a + |Yield(Leaf(s))| <= |toks| && toks[a..a + |Yield(Leaf(s))|] == Yield(Leaf(s))
    ensures Parse(toks, prior, par, a, false, paren)
         == ParseRest(toks, prior, par, a + |Yield(Leaf(s))|, false, paren, ToAst(Leaf(s)))
  {
    assert toks[a] == toks[a..a + 1][0];
  }

  lemma GroupStep(toks: seq<Token>, prior: nat, par: nat, a: nat, e: nat, paren: int, u: Ast)
    requires a + 1 < e <= |toks| && toks[a] == LP && toks[e - 1] == RP
    requires Parse(toks, 0, a + 1, a + 1, false, paren + 1) == ParseRest(toks, 0, a + 1, e - 1, false, paren + 1, u)
    requires e - 1 != a + 1
    ensures Parse(toks, prior, par, a, false, paren) == ParseRest(toks, prior, par, e, false, paren, u)
  {
  }

  /** One turn of the evaluator's loop, at an operator that binds tighter than `prior` and whose right
      operand ends at `e`. */
  lemma OperatorStep(toks: seq<Token>, op: Op, prior: nat, par: nat, k: nat, e: nat, paren: int, l: Ast, r: Ast)
    requires Proper(toks) && k < e <= |toks| && toks[k] == Bin(op) && Pri(op) > prior && Closes(At(toks, e), Pri(op))
    requires Parse(toks, Pri(op), 0, k + 1, false, paren) == ParseRest(toks, Pri(op), 0, e, false, paren, r)
    ensures ParseRest(toks, prior, par, k, false, paren, l)
      == ParseRest(toks, prior, par, e, false, paren, App(op, l, r))
  {
    OperandStops(toks, Pri(op), e, paren, r);
  }

  /** A right operand ends at the end of input, or one past the operator or parenthesis that stops it. */
  lemma OperandStops(toks: seq<Token>, p: nat, e: nat, paren: int, t: Ast)
    requires Proper(toks) && 0 < e <= |toks| && Closes(At(toks, e), p)
    ensures ParseRest(toks, p, 0, e, false, paren, t)
         == if e == |toks| then Done(t, e, true, paren) else Done(t, e + 1, false, paren)
  {
  }

  lemma GroupSplit(toks: seq<Token>, t: Tree, a: nat)
    requires t.Group? && a + |Yield(t)| <= |toks| && toks[a..a + |Yield(t)|] == Yield(t)
    ensures var e := a + |Yield(t)|;
      a + 1 + |Yield(t.t)| == e - 1 && toks[a] == LP && toks[e - 1] == RP && toks[a + 1..e - 1] == Yield(t.t)
  {
    var e, w := a + |Yield(t)|, Yield(t.t);
    var y := toks[a..e];
    assert y == [LP] + w + [RP];
    assert toks[a] == y[0] && toks[e - 1] == y[|y| - 1];
    forall i | 0 <= i < |w| ensures toks[a + 1..e - 1][i] == w[i] {
      assert toks[a + 1..e - 1][i] == y[1 + i];
    }
  }

  /** Where the operator of a node stands. */
  lemma NodeSplit(toks: seq<Token>, t: Tree, a: nat) returns (k: nat)
    requires t.Node? && a + |Yield(t)| <= |toks| && toks[a..a + |Yield(t)|] == Yield(t)
    ensures k == a + |Yield(t.l)| && k + 1 + |Yield(t.r)| == a + |Yield(t)|
    ensures toks[a..k] == Yield(t.l) && toks[k] == Bin(t.op) && toks[k + 1..a + |Yield(t)|] == Yield(t.r)
  {
    k := a + |Yield(t.l)|;
    var y := toks[a..a + |Yield(t)|];
    assert y == Yield(t.l) + [Bin(t.op)] + Yield(t.r);
    assert y[..k - a] == Yield(t.l) && y[k - a] == Bin(t.op) && y[k - a + 1..] == Yield(t.r);
    assert toks[a..k] == y[..k - a] && toks[k] == y[k - a] && toks[k + 1..a + |Yield(t)|] == y[k + 1 - a..];
  }

  /** On a well-formed expression the evaluator consumes exactly all tokens, leaves no parenthesis
      open, and applies the operators as the grammar says. */
  lemma WellFormedParses(toks: seq<Token>, t: Tree)
    requires |toks| >= 1 && Proper(toks) && Canonical(t) && toks[1..] == Yield(t)
    ensures ParseAll(toks) == Done(ToAst(t), |toks|, true, 0)
    ensures Accepted(toks, ParseAll(toks))
  {
    assert toks[1..1 + |Yield(t)|] == Yield(t);
    ParseTree(toks, t, 0, 1, 1, 0);
  }
}
