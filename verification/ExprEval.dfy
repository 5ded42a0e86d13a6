/** The evaluator as the program has it, over argi, noarg and paren. */
module ExprEval {
  import opened ExprModel
  import opened ExprGrammar
  import opened ExprAccept
  import opened ExprValue

  function LexAll(av: seq<string>): (toks: seq<Token>)
    ensures |toks| == |av| && Proper(toks)
    ensures forall i :: 0 <= i < |av| ==> toks[i] == Lex(av[i])
  {
    seq(|av|, i requires 0 <= i < |av| => Lex(av[i]))
  }

  /** operator[] and op[], but for the word "match". */
  const OPERATOR: seq<string> :=
    ["|", "&", "+", "-", "*", "/", "%", ":", "=", "==", "<", "<=", ">", ">=", "!=", ""]
  const OP: seq<Op> := [OR, AND, ADD, SUBT, MULT, DIV, REM, MCH, EQ, EQ, LT, LEQ, GT, GEQ, NEQ]

  lemma InTable(i: nat)
    requires i < |OPERATOR| && OPERATOR[i] != ""
    ensures i < |OP| && Lex(OPERATOR[i]) == Bin(OP[i])
  {
  }

  lemma NotInTable(p: string, n: nat)
    requires n < |OPERATOR| && OPERATOR[n] == "" && forall j :: 0 <= j < n ==> OPERATOR[j] != p
    requires p != "(" && p != ")"
    ensures Lex(p) == Str(p)
  {
    assert n == 15;
    assert p != OPERATOR[0] && p != OPERATOR[1] && p != OPERATOR[2] && p != OPERATOR[3] && p != OPERATOR[4];
    assert p != OPERATOR[5] && p != OPERATOR[6] && p != OPERATOR[7] && p != OPERATOR[8] && p != OPERATOR[9];
    assert p != OPERATOR[10] && p != OPERATOR[11] && p != OPERATOR[12] && p != OPERATOR[13] && p != OPERATOR[14];
  }

  lemma Brackets(p: string)
    ensures (|p| == 1 && p[0] == '(' <==> p == "(") && (|p| == 1 && p[0] == ')' <==> p == ")")
    ensures Lex("(") == LP && Lex(")") == RP
  {
  }

  /** An error in the part already read is the error of whatever is read around it. */
  lemma {:induction false} ErrorSticks(re: Matcher, toks: seq<Token>, prior: nat, par: nat, argi: nat, noarg: bool,
                                       paren: int, t: Ast)
    requires argi <= |toks| && Eval(re, t).Err?
    ensures var p := ParseRest(toks, prior, par, argi, noarg, paren, t); p.Done? ==> Eval(re, p.t) == Eval(re, t)
    decreases |toks| - argi
  {
    if argi < |toks| && toks[argi].Bin? && Pri(toks[argi].op) > prior {
      var op := toks[argi].op;
      var rhs := Parse(toks, Pri(op), 0, argi + 1, noarg, paren);
      if rhs.Done? && !rhs.noarg && rhs.argi - 1 <= |toks| {
        ErrorSticks(re, toks, prior, par, rhs.argi - 1, false, rhs.paren, App(op, t, rhs.t));
      }
    }
  }

  lemma EvalWord(re: Matcher, s: string)
    ensures Eval(re, Lit(s)) == Val(s)
  {
  }

  lemma AtOperand(toks: seq<Token>, prior: nat, par: nat, argi: nat, noarg: bool, paren: int)
    requires argi <= |toks|
    ensures Parse(toks, prior, par, argi, noarg, paren)
      == match At(toks, argi)
         case Str(s) => ParseRest(toks, prior, par, argi + 1, noarg, paren, Lit(s))
         case LP =>
           var inner := Parse(toks, 0, argi + 1, argi + 1, noarg, paren + 1);
           if inner.Fail? then Fail
           else ParseRest(toks, prior, par, inner.argi - 1, inner.noarg, inner.paren, inner.t)
         case _ => Fail
  {
  }

  lemma AtOperator(toks: seq<Token>, prior: nat, par: nat, argi: nat, noarg: bool, paren: int, t: Ast)
    requires argi < |toks| && toks[argi].Bin?
    ensures var op := toks[argi].op;
      ParseRest(toks, prior, par, argi, noarg, paren, t)
      == if Pri(op) <= prior then Done(t, argi + 1, noarg, paren)
         else
           var rhs := Parse(toks, Pri(op), 0, argi + 1, noarg, paren);
           if rhs.Fail? then Fail
           else if rhs.noarg then Done(App(op, t, rhs.t), rhs.argi, true, rhs.paren)
           else ParseRest(toks, prior, par, rhs.argi - 1, false, rhs.paren, App(op, t, rhs.t))
  {
  }

  lemma AtOther(toks: seq<Token>, prior: nat, par: nat, argi: nat, noarg: bool, paren: int, t: Ast)
    requires argi <= |toks| && !At(toks, argi).Bin?
    ensures ParseRest(toks, prior, par, argi, noarg, paren, t)
      == match At(toks, argi)
         case RP =>
           if par == argi then Fail
           else if par != 0 then Done(t, argi + 2, noarg, paren - 1)
           else Done(t, argi + 1, noarg, paren)
         case End => Done(t, argi, true, paren)
         case _ => Done(t, argi, noarg, paren)
  {
  }

  class Expr {
    const av: seq<string>
    const re: Matcher
    var argi: nat
    var noarg: bool
    var paren: int

    constructor (av: seq<string>, re: Matcher)
      ensures this.av == av && this.re == re && argi == 1 && !noarg && paren == 0
    {
      this.av, this.re := av, re;
      argi, noarg, paren := 1, false, 0;
    }

    /** yylex(): the tables are searched up to their end mark. */
    method Yylex() returns (t: Token)
      ensures t == At(LexAll(av), argi)
    {
      hide Lex;
      if argi >= |av| { return End; }
      var p := av[argi];
      Brackets(p);
      if |p| == 1 && (p[0] == '(' || p[0] == ')') {
        return if p[0] == '(' then LP else RP;
      }
      var i := 0;
      while OPERATOR[i] != ""
        invariant i < |OPERATOR| && forall j :: 0 <= j < i ==> OPERATOR[j] != p
        decreases |OPERATOR| - i
      {
        InTable(i);
        if OPERATOR[i] == p { return Bin(OP[i]); }
        i := i + 1;
      }
      NotInTable(p, i);
      return Str(p);
    }

    /** Follows Parse, and returns the value of what Parse reads or the first error. */
    method Expres(prior: nat, par: nat) returns (r: Result)
      requires argi <= |av|
      modifies this
      decreases |av| + 1 - argi, 1
      ensures match Parse(LexAll(av), prior, par, old(argi), old(noarg), old(paren))
        case Fail => r.Err?
        case Done(t, a, n, p) => r == Eval(re, t) && (r.Val? ==> argi == a && noarg == n && paren == p)
    {
      hide Parse, ParseRest, Eval, Lex, LexAll;
      ghost var toks := LexAll(av);
      AtOperand(toks, prior, par, argi, noarg, paren);
      var ylex := Yylex();
      if ylex.Str? {
        LexWord(av[argi]);
        EvalWord(re, av[argi]);
        argi := argi + 1;
        r := Lop(prior, par, av[argi - 1], Lit(av[argi - 1]));
      } else if ylex.LP? {
        paren := paren + 1;
        argi := argi + 1;
        ghost var inner := Parse(toks, 0, argi, argi, noarg, paren);
        r := Expres(0, argi);
        if r.Err? {
          if inner.Done? { ErrorSticks(re, toks, prior, par, inner.argi - 1, inner.noarg, inner.paren, inner.t); }
          return;
        }
        argi := argi - 1;
        r := Lop(prior, par, r.s, inner.t);
      } else {
        return Err(SyntaxError);
      }
    }

    /** The loop of Expres, from its label, with value `r1` so far. */
    method Lop(prior: nat, par: nat, r1: string, ghost t1: Ast) returns (r: Result)
      requires argi <= |av| && Eval(re, t1) == Val(r1)
      modifies this
      decreases |av| + 1 - argi, 0
      ensures match ParseRest(LexAll(av), prior, par, old(argi), old(noarg), old(paren), t1)
        case Fail => r.Err?
        case Done(t, a, n, p) => r == Eval(re, t) && (r.Val? ==> argi == a && noarg == n && paren == p)
    {
      hide Parse, ParseRest, Eval, Apply, Lex;
      ghost var toks := LexAll(av);
      ghost var t := t1;
      r := Val(r1);
      while true
        invariant argi <= |av| && r.Val? && Eval(re, t) == r
        invariant old(argi) <= argi
        invariant ParseRest(toks, prior, par, old(argi), old(noarg), old(paren), t1)
               == ParseRest(toks, prior, par, argi, noarg, paren, t)
        decreases |av| - argi
      {
        var ylex := Yylex();
        if !ylex.Bin? {
          AtOther(toks, prior, par, argi, noarg, paren, t);
          if ylex.RP? {
            if par == argi { return Err(SyntaxError); }
            if par != 0 {
              paren := paren - 1;
              argi := argi + 1;
            }
            argi := argi + 1;
          } else if ylex.End? {
            noarg := true;
          }
          return;
        }
        AtOperator(toks, prior, par, argi, noarg, paren, t);
        var op := ylex.op;
        argi := argi + 1;
        if Pri(op) <= prior { return; }
        ghost var rhs := Parse(toks, Pri(op), 0, argi, noarg, paren);
        r := Operand(op, r.s, t);
        if r.Err? {
          if rhs.Done? && !rhs.noarg {
            ErrorSticks(re, toks, prior, par, rhs.argi - 1, false, rhs.paren, App(op, t, rhs.t));
          }
          return;
        }
        t := App(op, t, rhs.t);
        if noarg { return; }
        argi := argi - 1;
      }
    }

    /** Evaluate a right operand and apply the operator to the two values. */
    method Operand(op: Op, r1: string, ghost t: Ast) returns (r: Result)
      requires argi <= |av| && Eval(re, t) == Val(r1)
      modifies this
      decreases |av| + 1 - argi, 2
      ensures match Parse(LexAll(av), Pri(op), 0, old(argi), old(noarg), old(paren))
        case Fail => r.Err?
        case Done(t2, a, n, p) => r == Eval(re, App(op, t, t2)) && (r.Val? ==> argi == a && noarg == n && paren == p)
    {
      hide Parse, ParseRest, Lex;
      r := Expres(Pri(op), 0);
      if r.Val? { r := Apply(re, op, r1, r.s); }
    }

    /** main: evaluate, then check that everything was read. */
    method Run() returns (r: Result)
      requires argi == 1 <= |av| && !noarg && paren == 0
      modifies this
      ensures var p := ParseAll(LexAll(av));
        if Accepted(LexAll(av), p) then r == Eval(re, p.t) && Means(re, p.t, r) else r.Err?
      ensures |av| == 4 && Word(av[1]) && Word(av[3]) ==>
        forall op :: Spells(av[2], op) ==> Applied(re, op, av[1], av[3], r)
    {
      hide Means, Applied, Lex, LexAll;
      r := Expres(0, 1);
      if r.Val? && (|av| != argi || paren != 0) {
        r := Err(SyntaxError);
      }
      ghost var p := ParseAll(LexAll(av));
      if Accepted(LexAll(av), p) { EvalMeans(re, p.t, r); }
      forall op | |av| == 4 && Word(av[1]) && Word(av[3]) && Spells(av[2], op)
        ensures Applied(re, op, av[1], av[3], r)
      {
        ThreeWords(av, op);
        ApplyMeans(re, op, av[1], av[3]);
      }
    }
  }

  lemma LexWord(s: string)
    requires Lex(s).Str?
    ensures Lex(s) == Str(s)
  {
  }

  /** An argument that is neither an operator nor a parenthesis. */
  predicate Word(s: string) { s !in OPERATOR[..15] && s != "(" && s != ")" }

  /** The operators as expr(1) spells them. */
  predicate Spells(s: string, op: Op) {
    match op
    case OR => s == "|"
    case AND => s == "&"
    case EQ => s == "=" || s == "=="
    case LT => s == "<"
    case GT => s == ">"
    case GEQ => s == ">="
    case LEQ => s == "<="
    case NEQ => s == "!="
    case ADD => s == "+"
    case SUBT => s == "-"
    case MULT => s == "*"
    case DIV => s == "/"
    case REM => s == "%"
    case MCH => s == ":"
  }

  lemma LexSpelled(s: string, op: Op)
    requires Spells(s, op)
    ensures Lex(s) == Bin(op)
  {
  }

  lemma LexOther(s: string)
    requires Word(s)
    ensures Lex(s) == Str(s)
  {
    assert forall j :: 0 <= j < 15 ==> OPERATOR[..15][j] == OPERATOR[j];
    NotInTable(s, 15);
  }

  /** `expr r1 op r2` applies op to the two words. */
  lemma ThreeWords(av: seq<string>, op: Op)
    requires |av| == 4 && Word(av[1]) && Spells(av[2], op) && Word(av[3])
    ensures ParseAll(LexAll(av)) == Done(App(op, Lit(av[1]), Lit(av[3])), 4, true, 0)
    ensures Accepted(LexAll(av), ParseAll(LexAll(av)))
  {
    hide Lex, Word, Spells;
    LexOther(av[1]);
    LexSpelled(av[2], op);
    LexOther(av[3]);
    var t := Node(op, Leaf(av[1]), Leaf(av[3]));
    assert Yield(t) == [Str(av[1]), Bin(op), Str(av[3])];
    assert LexAll(av)[1..] == Yield(t);
    hide LexAll;
    WellFormedParses(LexAll(av), t);
  }

  /** From the operators that bind least to the one that binds most. */
  const LEVELS: seq<set<Op>> :=
    [{OR}, {AND}, {EQ, LT, GT, GEQ, LEQ, NEQ}, {ADD, SUBT}, {MULT, DIV, REM}, {MCH}]

  lemma LevelIsPri(op: Op, level: nat)
    requires level < |LEVELS| && op in LEVELS[level]
    ensures Pri(op) == level + 1
  {
  }

  lemma TwoLeaves(op: Op, a: string, b: string, t: Tree)
    requires t == Node(op, Leaf(a), Leaf(b))
    ensures Yield(t) == [Str(a), Bin(op), Str(b)] && ToAst(t) == App(op, Lit(a), Lit(b)) && Canonical(t)
  {
    var l, r := t.l, t.r;
    assert ToAst(l) == Lit(a) && ToAst(r) == Lit(b) && Canonical(l) && Canonical(r);
  }

  lemma LeftFirst(op1: Op, op2: Op, a: string, b: string, c: string) returns (t: Tree)
    ensures Yield(t) == [Str(a), Bin(op1), Str(b), Bin(op2), Str(c)]
    ensures ToAst(t) == App(op2, App(op1, Lit(a), Lit(b)), Lit(c))
    ensures Canonical(t) <==> Pri(op1) >= Pri(op2)
  {
    t := Node(op2, Node(op1, Leaf(a), Leaf(b)), Leaf(c));
    TwoLeaves(op1, a, b, t.l);
    var r := t.r;
    assert Yield(r) == [Str(c)] && ToAst(r) == Lit(c) && Canonical(r);
  }

  lemma RightFirst(op1: Op, op2: Op, a: string, b: string, c: string) returns (t: Tree)
    ensures Yield(t) == [Str(a), Bin(op1), Str(b), Bin(op2), Str(c)]
    ensures ToAst(t) == App(op1, Lit(a), App(op2, Lit(b), Lit(c)))
    ensures Canonical(t) <==> Pri(op1) < Pri(op2)
  {
    t := Node(op1, Leaf(a), Node(op2, Leaf(b), Leaf(c)));
    TwoLeaves(op2, b, c, t.r);
    var l := t.l;
    assert Yield(l) == [Str(a)] && ToAst(l) == Lit(a) && Canonical(l);
  }

  /** `expr r1 op1 r2 op2 r3`: the second operator goes first exactly if it binds more. */
  lemma FiveWords(av: seq<string>, op1: Op, op2: Op, level1: nat, level2: nat)
    requires |av| == 6 && Word(av[1]) && Spells(av[2], op1) && Word(av[3]) && Spells(av[4], op2) && Word(av[5])
    requires level1 < |LEVELS| && op1 in LEVELS[level1] && level2 < |LEVELS| && op2 in LEVELS[level2]
    ensures var a, b, c := Lit(av[1]), Lit(av[3]), Lit(av[5]);
      ParseAll(LexAll(av))
      == Done(if level1 < level2 then App(op1, a, App(op2, b, c)) else App(op2, App(op1, a, b), c), 6, true, 0)
    ensures Accepted(LexAll(av), ParseAll(LexAll(av)))
  {
    LevelIsPri(op1, level1);
    LevelIsPri(op2, level2);
    hide Lex, Word, Spells, Pri, LEVELS;
    LexOther(av[1]);
    LexSpelled(av[2], op1);
    LexOther(av[3]);
    LexSpelled(av[4], op2);
    LexOther(av[5]);
    var toks := LexAll(av);
    assert toks[1..] == [Str(av[1]), Bin(op1), Str(av[3]), Bin(op2), Str(av[5])];
    hide LexAll;
    if level1 < level2 {
      var t := RightFirst(op1, op2, av[1], av[3], av[5]);
      WellFormedParses(toks, t);
    } else {
      var t := LeftFirst(op1, op2, av[1], av[3], av[5]);
      WellFormedParses(toks, t);
    }
  }
}
