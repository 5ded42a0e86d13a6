/** The numbers of 5bin/expr.c, and what the value of an expression is. */
module ExprValue {
  import opened ExprModel

  // ----- numbers -----

  lemma {:induction false} DecimalMagnitude(n: nat)
    ensures Magnitude(Decimal(n)) == n
  {
    if n >= 10 {
      DecimalMagnitude(n / 10);
      var s := Decimal(n);
      assert s[..|s| - 1] == Decimal(n / 10) && s[|s| - 1] == DigitChar(n % 10);
    } else {
      assert Magnitude([]) == 0;
      assert [DigitChar(n)][..0] == [];
    }
  }

  /** ltoa: digits are stored from the right; the most negative long is a case by itself. */
  method PrintLong(l: int) returns (s: string)
    requires MIN <= l <= -MIN - 1
    ensures s == Ltoa(l)
  {
    if l == MIN {
      SmallestLong();
      return "-2147483648";
    }
    var neg, n := l < 0, if l < 0 then -l else l;
    ghost var whole := Decimal(n);
    s := [DigitChar(n % 10)];
    n := n / 10;
    while n != 0
      invariant 0 <= n && whole == if n == 0 then s else Decimal(n) + s
      decreases n
    {
      s := [DigitChar(n % 10)] + s;
      n := n / 10;
    }
    if neg { s := "-" + s; }
  }

  /** Appending a digit to a number appends it to the text. */
  lemma DecimalAppend(n: nat, d: nat, s: string)
    requires n > 0 && d < 10 && Decimal(n) == s
    ensures Decimal(n * 10 + d) == s + [DigitChar(d)]
  {
    assert (n * 10 + d) / 10 == n && (n * 10 + d) % 10 == d;
  }

  lemma SmallestLong()
    ensures Ltoa(MIN) == "-2147483648"
  {
    FirstDigits();
    DecimalAppend(214748364, 8, "214748364");
    hide Decimal;
  }

  lemma FirstDigits()
    ensures Decimal(214748364) == "214748364"
  {
    assert Decimal(2) == "2";
    DecimalAppend(2, 1, "2");
    DecimalAppend(21, 4, "21");
    DecimalAppend(214, 7, "214");
    hide Decimal;
    MoreDigits();
  }

  lemma MoreDigits()
    requires Decimal(2147) == "2147"
    ensures Decimal(214748364) == "214748364"
  {
    hide Decimal;
    DecimalAppend(2147, 4, "2147");
    DecimalAppend(21474, 8, "21474");
    DecimalAppend(214748, 3, "214748");
    DecimalAppend(2147483, 6, "2147483");
    DecimalAppend(21474836, 4, "21474836");
  }

  /** ltoa prints every long as a number that atol reads back. */
  lemma NumberRoundTrip(l: int)
    requires MIN <= l <= -MIN - 1
    ensures Numeric(Ltoa(l)) && Atol(Ltoa(l)) == l
  {
    var n := if l < 0 then -l else l;
    DecimalMagnitude(n);
    if l < 0 {
      assert Ltoa(l)[1..] == Decimal(n);
    } else {
      assert Digit(Decimal(n)[0]);
    }
  }

  predicate Ordering(op: Op) { op.LT? || op.GT? || op.LEQ? || op.GEQ? }

  /** = and != compare numbers correctly; the four orderings do exactly when the difference of the two
      numbers is itself a 32-bit number. */
  lemma ComparisonExact(op: Op, r1: string, r2: string)
    requires Numeric(r1) && Numeric(r2) && (op.EQ? || op.NEQ? || Ordering(op))
    ensures Ordering(op) ==>
      ((Rel(op, r1, r2) == "1" <==> Ordered(op, Atol(r1) < Atol(r2), Atol(r1) == Atol(r2)))
       <==> MIN <= Atol(r1) - Atol(r2) <= -MIN - 1)
    ensures !Ordering(op) ==> (Rel(op, r1, r2) == "1" <==> Ordered(op, Atol(r1) < Atol(r2), Atol(r1) == Atol(r2)))
  {
    var d := Atol(r1) - Atol(r2);
    WrapRange(d);
  }

  /** A comparison that is wrong: 2147483647 counts as less than -1. */
  lemma WrongComparison()
    ensures Numeric("2147483647") && Atol("2147483647") == 2147483647 && Numeric("-1") && Atol("-1") == -1
    ensures Rel(LT, "2147483647", "-1") == "1" && Rel(GT, "2147483647", "-1") == "0"
  {
    hide Decimal, Ltoa, Numeric, Atol;
    LargestLong();
    NumberRoundTrip(2147483647);
    MinusOne();
    NumberRoundTrip(-1);
    assert Wrap(2147483648) == MIN;
  }

  lemma MinusOne()
    ensures Ltoa(-1) == "-1"
  {
    assert Decimal(1) == "1";
  }

  lemma LargestLong()
    ensures Ltoa(2147483647) == "2147483647"
  {
    FirstDigits();
    DecimalAppend(214748364, 7, "214748364");
    hide Decimal;
  }

  lemma WrapRange(d: int)
    requires 2 * MIN < d < -2 * MIN
    ensures Wrap(d) == if d < MIN then d + MODULUS else if d > -MIN - 1 then d - MODULUS else d
  {
  }

  lemma MagnitudeLast(s: string, c: char)
    requires AllDigits(s) && Digit(c)
    ensures AllDigits(s + [c]) && Magnitude(s + [c]) == 10 * Magnitude(s) + (c as int - '0' as int)
  {
    assert (s + [c])[..|s|] == s;
  }

  /** Numbers are read as positional: what stands before the last n digits counts 10^n times. */
  lemma {:induction false} MagnitudeJoined(s: string, t: string)
    requires AllDigits(s) && AllDigits(t)
    ensures AllDigits(s + t) && Magnitude(s + t) == Magnitude(s) * Power(|t|) + Magnitude(t)
  {
    if t == "" {
      assert s + t == s;
    } else {
      var n := |t| - 1;
      var t', c := t[..n], t[n];
      assert t == t' + [c] && s + t == (s + t') + [c] && AllDigits(t') && Digit(c);
      MagnitudeJoined(s, t');
      MagnitudeLast(t', c);
      MagnitudeLast(s + t', c);
      hide Magnitude, AllDigits;
      Tenfold(Magnitude(s), Power(n));
    }
  }

  lemma Tenfold(x: int, y: int)
    ensures 10 * (x * y) == x * (10 * y)
  {
  }

  function Power(n: nat): nat { if n == 0 then 1 else 10 * Power(n - 1) }

  // ----- what an expression means -----

  predicate IsLong(x: int) { -0x8000_0000 <= x < 0x8000_0000 }

  /** The same number of 32 bits. */
  predicate Same(x: int, y: int) { (x - y) % 0x1_0000_0000 == 0 }

  predicate IsNumber(s: string) {
    s != "" && forall i :: 0 <= i < |s| ==> '0' <= s[i] <= '9' || (i == 0 && s[i] == '-')
  }

  function Abs(x: int): nat { if x < 0 then -x else x }

  /** Division toward zero: what is left over is smaller than the divisor and has the sign of the dividend. */
  predicate Divided(a: int, b: int, q: int, r: int) {
    a == q * b + r && Abs(r) < Abs(b) && (r == 0 || (r < 0 <==> a < 0))
  }

  /** What a comparison says of two things that are less, equal or greater. */
  predicate Ordered(op: Op, less: bool, equal: bool) {
    match op
    case LT => less
    case LEQ => less || equal
    case GT => !less && !equal
    case GEQ => !less
    case EQ => equal
    case _ => !equal
  }

  /** Alphabetical order: the first place where the strings differ decides, and a beginning comes first. */
  ghost predicate Less(a: string, b: string) {
    exists k: nat :: k <= |a| && k < |b| && a[..k] == b[..k] && (k < |a| ==> a[k] < b[k])
  }

  ghost predicate Compared(op: Op, a: string, b: string) {
    if IsNumber(a) && IsNumber(b)
    then
      NumericIsNumber(a);
      NumericIsNumber(b);
      exists z :: IsLong(z) && Same(z, Atol(a) - Atol(b)) && Ordered(op, z < 0, z == 0)
    else Ordered(op, Less(a, b), a == b)
  }

  /** z is what arithmetic makes of x and y. */
  ghost predicate Computed(op: Op, x: int, y: int, z: int) {
    && IsLong(z)
    && match op
       case ADD => Same(z, x + y)
       case SUBT => Same(z, x - y)
       case MULT => Same(z, x * y)
       case DIV => exists q, r :: Divided(x, y, q, r) && Same(z, q)
       case REM => exists q :: Divided(x, y, q, z)
       case _ => false
  }

  predicate Arithmetic(op: Op) { op in {ADD, SUBT, MULT, DIV, REM} }

  /** The number z is printed. */
  ghost predicate Prints(r: Result, z: int) {
    r == Val(Ltoa(z)) && Numeric(r.s) && Atol(r.s) == z
  }

  /** What an operator makes of two operands. */
  ghost predicate Applied(re: Matcher, op: Op, a: string, b: string, r: Result) {
    if op.OR? then r == Val(if a != "" && a != "0" then a else if b != "" && b != "0" then b else "0")
    else if op.AND? then r == Val(if {a, b} !! {"", "0"} then a else "0")
    else if op.MCH? then r == re(a, b)
    else if !Arithmetic(op) then r == Val(if Compared(op, a, b) then "1" else "0")
    else if !IsNumber(a) || !IsNumber(b) then r == Err(NonNumeric)
    else
      NumericIsNumber(a);
      NumericIsNumber(b);
      if op in {DIV, REM} && Atol(b) == 0 then r == Err(DivisionByZero)
      else exists z :: Computed(op, Atol(a), Atol(b), z) && Prints(r, z)
  }

  /** The operands have values, the left one first; the first error is the value of the whole. */
  ghost predicate Means(re: Matcher, t: Ast, r: Result) {
    match t
    case Lit(s) => r == Val(s)
    case App(op, t1, t2) =>
      exists x, y :: Means(re, t1, x) && Means(re, t2, y) && Combined(re, op, x, y, r)
  }

  ghost predicate Combined(re: Matcher, op: Op, x: Result, y: Result, r: Result) {
    if x.Err? then r == x else if y.Err? then r == y else Applied(re, op, x.s, y.s, r)
  }

  lemma CombinedOnce(re: Matcher, op: Op, x: Result, y: Result, r: Result)
    ensures Combined(re, op, x, y, r)
      <==> r == if x.Err? then x else if y.Err? then y else Apply(re, op, x.s, y.s)
  {
    hide Applied, Apply;
    if x.Val? && y.Val? {
      var v := Apply(re, op, x.s, y.s);
      ApplyMeans(re, op, x.s, y.s);
      if Applied(re, op, x.s, y.s, r) { AppliedOnce(re, op, x.s, y.s, r, v); }
    }
  }

  lemma NumericIsNumber(s: string)
    ensures Numeric(s) <==> IsNumber(s)
  {
    if Numeric(s) {
      forall i | 0 <= i < |s| ensures '0' <= s[i] <= '9' || (i == 0 && s[i] == '-') {
        if s[0] == '-' && i > 0 { assert Digit(s[1..][i - 1]); } else if s[0] != '-' { assert Digit(s[i]); }
      }
    }
  }

  lemma WrapIsLong(x: int)
    ensures IsLong(Wrap(x)) && Same(Wrap(x), x)
  {
  }

  lemma OneLong(x: int, y: int, z: int)
    requires IsLong(x) && IsLong(y) && Same(x, z) && Same(y, z)
    ensures x == y
  {
  }

  lemma DividedOnce(a: int, b: int, q: int, r: int, q': int, r': int)
    requires Divided(a, b, q, r) && Divided(a, b, q', r')
    ensures q == q' && r == r'
  {
    assert (q - q') * b == r' - r;
    if q - q' >= 1 {
      Larger(q - q', b);
    } else if q' - q >= 1 {
      assert (q' - q) * b == r - r';
      Larger(q' - q, b);
    }
  }

  lemma Larger(k: int, b: int)
    requires k >= 1
    ensures Abs(k * b) >= Abs(b)
  {
    if b >= 0 { assert k * b == (k - 1) * b + b; } else { assert k * b == (k - 1) * b + b && (k - 1) * b <= 0; }
  }

  lemma QuotientDivides(a: int, b: int)
    requires b != 0
    ensures Divided(a, b, Quotient(a, b), Remainder(a, b))
  {
  }

  lemma {:induction false} StrCmpOrders(a: string, b: string)
    ensures StrCmp(a, b) == 0 <==> a == b
    ensures StrCmp(a, b) < 0 <==> Less(a, b)
  {
    hide Less;
    if |a| > 0 && |b| > 0 {
      if a[0] == b[0] {
        StrCmpOrders(a[1..], b[1..]);
        LessBehind(a, b);
        assert a == [a[0]] + a[1..] && b == [b[0]] + b[1..];
      } else {
        LessAtOnce(a, b);
      }
    } else {
      LessEmpty(a, b);
    }
  }

  lemma LessEmpty(a: string, b: string)
    requires a == "" || b == ""
    ensures Less(a, b) <==> a == "" && b != ""
  {
    if a == "" && b != "" { assert a[..0] == b[..0]; }
  }

  lemma SameStart(a: string, b: string, k: nat)
    requires k <= |a| && k <= |b| && a[..k] == b[..k]
    ensures k == 0 || a[0] == b[0]
  {
    if k > 0 { assert a[..k][0] == b[..k][0]; }
  }

  lemma LessAtOnce(a: string, b: string)
    requires a != "" && b != "" && a[0] != b[0]
    ensures Less(a, b) <==> a[0] < b[0]
  {
    assert a[..0] == b[..0];
    if k: nat :| k <= |a| && k < |b| && a[..k] == b[..k] && (k < |a| ==> a[k] < b[k]) {
      SameStart(a, b, k);
    }
  }

  lemma LessBehind(a: string, b: string)
    requires a != "" && b != "" && a[0] == b[0]
    ensures Less(a, b) <==> Less(a[1..], b[1..])
  {
    var a', b' := a[1..], b[1..];
    if k: nat :| k <= |a| && k < |b| && a[..k] == b[..k] && (k < |a| ==> a[k] < b[k]) {
      assert k > 0 && a'[..k - 1] == a[..k][1..] == b[..k][1..] == b'[..k - 1];
    }
    if k: nat :| k <= |a'| && k < |b'| && a'[..k] == b'[..k] && (k < |a'| ==> a'[k] < b'[k]) {
      assert a[..k + 1] == [a[0]] + a'[..k] == [b[0]] + b'[..k] == b[..k + 1];
    }
  }

  lemma RelMeans(op: Op, a: string, b: string)
    requires op in {EQ, LT, GT, GEQ, LEQ, NEQ}
    ensures Rel(op, a, b) == if Compared(op, a, b) then "1" else "0"
  {
    NumericIsNumber(a);
    NumericIsNumber(b);
    hide Less, IsNumber, Numeric, Atol;
    StrCmpOrders(a, b);
    if Numeric(a) && Numeric(b) {
      var d := Atol(a) - Atol(b);
      WrapIsLong(d);
      forall z | IsLong(z) && Same(z, d) ensures z == Wrap(d) { OneLong(z, Wrap(d), d); }
    }
  }

  lemma ArithMeans(re: Matcher, op: Op, a: string, b: string)
    requires Arithmetic(op)
    ensures Applied(re, op, a, b, Arith(op, a, b))
  {
    NumericIsNumber(a);
    NumericIsNumber(b);
    hide IsNumber, Numeric, Atol, Ltoa, Wrap;
    if Numeric(a) && Numeric(b) {
      var x, y := Atol(a), Atol(b);
      if op in {DIV, REM} {
        AtolIsLong(b);
        if y != 0 { DivisionMeans(op, x, y); }
      } else {
        var z := if op.ADD? then x + y else if op.SUBT? then x - y else x * y;
        WrapIsLong(z);
        NumberRoundTrip(Wrap(z));
        assert Computed(op, x, y, Wrap(z)) && Prints(Arith(op, a, b), Wrap(z));
      }
    }
  }

  lemma DivisionMeans(op: Op, x: int, y: int)
    requires op in {DIV, REM} && y != 0 && IsLong(y)
    ensures var z := Wrap(if op.DIV? then Quotient(x, y) else Remainder(x, y));
      Computed(op, x, y, z) && Prints(Val(Ltoa(z)), z)
  {
    QuotientDivides(x, y);
    hide Divided, Wrap, Numeric, Atol, Ltoa;
    var q, r := Quotient(x, y), Remainder(x, y);
    WrapIsLong(q);
    if op.REM? { RemainderIsLong(x, y, q, r); }
    NumberRoundTrip(Wrap(if op.DIV? then q else r));
  }

  lemma AtolIsLong(s: string)
    requires Numeric(s)
    ensures IsLong(Atol(s))
  {
  }

  lemma RemainderIsLong(x: int, y: int, q: int, r: int)
    requires Divided(x, y, q, r) && IsLong(y)
    ensures Wrap(r) == r
  {
  }

  lemma ComputedOnce(op: Op, x: int, y: int, z: int, z': int)
    requires Computed(op, x, y, z) && Computed(op, x, y, z')
    ensures z == z'
  {
    hide Divided, IsLong, Same;
    match op
    case ADD => OneLong(z, z', x + y);
    case SUBT => OneLong(z, z', x - y);
    case MULT => OneLong(z, z', x * y);
    case DIV =>
      var q, r :| Divided(x, y, q, r) && Same(z, q);
      var q', r' :| Divided(x, y, q', r') && Same(z', q');
      DividedOnce(x, y, q, r, q', r');
      OneLong(z, z', q);
    case REM =>
      var q :| Divided(x, y, q, z);
      var q' :| Divided(x, y, q', z');
      DividedOnce(x, y, q, z, q', z');
  }

  lemma ApplyMeans(re: Matcher, op: Op, a: string, b: string)
    ensures Applied(re, op, a, b, Apply(re, op, a, b))
  {
    hide Arith, Rel, Compared, IsNumber, Computed;
    if Arithmetic(op) { ArithMeans(re, op, a, b); }
    else if op !in {OR, AND, MCH} { RelMeans(op, a, b); }
  }

  lemma AppliedOnce(re: Matcher, op: Op, a: string, b: string, r: Result, r': Result)
    requires Applied(re, op, a, b, r) && Applied(re, op, a, b, r')
    ensures r == r'
  {
    NumericIsNumber(a);
    NumericIsNumber(b);
    hide Compared, IsNumber, Computed, Numeric, Atol, Ltoa;
    if Arithmetic(op) && Numeric(a) && Numeric(b) && !(op in {DIV, REM} && Atol(b) == 0) {
      var z :| Computed(op, Atol(a), Atol(b), z) && Prints(r, z);
      var z' :| Computed(op, Atol(a), Atol(b), z') && Prints(r', z');
      ComputedOnce(op, Atol(a), Atol(b), z, z');
    }
  }

  /** Every expression has one meaning, and that is what the evaluator computes. */
  lemma {:induction false} EvalMeans(re: Matcher, t: Ast, r: Result)
    ensures Means(re, t, r) <==> r == Eval(re, t)
  {
    hide Combined, Apply;
    if t.App? {
      var x, y := Eval(re, t.l), Eval(re, t.r);
      EvalMeans(re, t.l, x);
      EvalMeans(re, t.r, y);
      CombinedOnce(re, t.op, x, y, r);
      if x', y' :| Means(re, t.l, x') && Means(re, t.r, y') && Combined(re, t.op, x', y', r) {
        EvalMeans(re, t.l, x');
        EvalMeans(re, t.r, y');
      }
    }
  }
}
