/** `Simplify` (metric.py) and the value of a metric expression over exact numbers. */
module MetricSimplify {
  import opened Options
  import opened MetricExpr

  /** A simplified tree, or the Python exception that is raised instead. */
  datatype Outcome<+T> = Ok(value: T) | ValueError | AttributeError {
    predicate IsFailure() { !Ok? }
    function PropagateFailure<U>(): Outcome<U>
      requires IsFailure()
    {
      if ValueError? then ValueError else AttributeError
    }
    function Extract(): T
      requires Ok?
    {
      value
    }
  }

  predicate Mentions(s: string, word: string) {
    |word| <= |s| && (word <= s || (s != [] && Mentions(s[1..], word)))
  }

  /** The event that a multiplication by zero is written for on purpose. */
  predicate IsSlotsEvent(e: Expr) {
    e.Event? && Mentions(Lower(e.name), "slots")
  }

  /** Folding two constants goes through `ast.literal_eval` of something it refuses. */
  function SimplifyOperator(op: BinOp, lhs: Expr, rhs: Expr, l: Expr, r: Expr): Outcome<Expr>
    requires lhs.Constant? ==> l == lhs
  {
    if l.Constant? && r.Constant? then ValueError
    else if lhs.Constant? && op in {Add, Or} && l.value == 0.0 then Ok(r)
    else if lhs.Constant? && op == Mul && l.value == 0.0 && !IsSlotsEvent(r) then Ok(Constant(0.0))
    else if lhs.Constant? && op == Mul && l.value == 1.0 then Ok(r)
    else if r.Constant? && op in {Add, Or} && r.value == 0.0 then Ok(l)
    else if r.Constant? && op == Mul && r.value == 0.0 then Ok(Constant(0.0))
    else if r.Constant? && op == Mul && !rhs.Constant? then AttributeError // no such operand has a `value`
    else if r.Constant? && op == Mul && rhs.value == 1.0 then Ok(l)
    else Ok(Operator(op, l, r))
  }

  function SimplifyFunction(fn: string, x: Expr, y: Option<Expr>): Outcome<Expr> {
    if x.Constant? && y.Some? && y.value.Constant? then
      if fn == "d_ratio" && y.value.value == 0.0 then Ok(Constant(0.0)) else ValueError
    else
      Ok(Function(fn, x, y))
  }

  function Simplify(e: Expr): (r: Outcome<Expr>)
    ensures e.Constant? ==> r == Ok(e)
  {
    match e
    case Operator(op, lhs, rhs) =>
      var l :- Simplify(lhs);
      var r :- Simplify(rhs);
      SimplifyOperator(op, lhs, rhs, l, r)
    case Select(t, c, f) =>
      var cond :- Simplify(c);
      var trueVal :- Simplify(t);
      var falseVal :- Simplify(f);
      if cond.Constant? then Ok(if cond.value == 0.0 then falseVal else trueVal)
      else if Equals(trueVal, falseVal) then Ok(trueVal)
      else Ok(Select(trueVal, cond, falseVal))
    case Function(fn, x, y) =>
      var arg :- Simplify(x);
      if y.None? then SimplifyFunction(fn, arg, None)
      else var second :- Simplify(y.value); SimplifyFunction(fn, arg, Some(second))
    case _ => Ok(e)
  }

  // ----- Outcomes

  /** When an operator raises, which exception, and what it becomes where no constant is involved. */
  lemma OperatorOutcome(op: BinOp, lhs: Expr, rhs: Expr)
    ensures var (l, r, after) := (Simplify(lhs), Simplify(rhs), Simplify(Operator(op, lhs, rhs)));
            && (!l.Ok? ==> after == l)
            && (l.Ok? && !r.Ok? ==> after == r)
            && (l.Ok? && r.Ok? ==>
                  && (after == ValueError <==> l.value.Constant? && r.value.Constant?)
                  && (after == AttributeError <==>
                        op == Mul && !l.value.Constant? && r.value.Constant? && r.value.value != 0.0 && !rhs.Constant?)
                  && (!l.value.Constant? && !r.value.Constant? ==> after == Ok(Operator(op, l.value, r.value))))
  {
  }

  /** The same for calls, of which only `d_ratio` with a zero divisor is folded, and for selects. */
  lemma CallOutcome(fn: string, x: Expr, y: Expr)
    requires Simplify(x).Ok? && Simplify(y).Ok?
    ensures var (a, b, after) := (Simplify(x).value, Simplify(y).value, Simplify(Function(fn, x, Some(y))));
            if !a.Constant? || !b.Constant? then after == Ok(Function(fn, a, Some(b)))
            else if fn == "d_ratio" && b == Constant(0.0) then after == Ok(Constant(0.0))
            else after == ValueError
    ensures Simplify(Function(fn, x, None)) == Ok(Function(fn, Simplify(x).value, None))
  {
  }

  predicate WordAt(s: string, word: string, i: nat) {
    i + |word| <= |s| && s[i..i + |word|] == word
  }

  lemma {:induction false} MentionsExactly(s: string, word: string)
    ensures Mentions(s, word) <==> exists i: nat :: WordAt(s, word, i)
  {
    if word <= s {
      assert WordAt(s, word, 0);
    } else if |word| <= |s| && s != [] {
      MentionsExactly(s[1..], word);
      if i: nat :| WordAt(s[1..], word, i) {
        assert s[i + 1..i + 1 + |word|] == s[1..][i..i + |word|];
        assert WordAt(s, word, i + 1);
      }
      if i: nat :| WordAt(s, word, i) {
        assert i > 0 && s[1..][i - 1..i - 1 + |word|] == s[i..i + |word|];
        assert WordAt(s[1..], word, i - 1);
      }
    }
  }

  /** The name has `slots` in it, in any case of letters. */
  ghost predicate NamesSlots(name: string) {
    exists i: nat :: SlotsAt(name, i)
  }

  predicate SlotsAt(name: string, i: nat) {
    i + 5 <= |name| && SameIgnoringCase(name[i..i + 5], "slots")
  }

  lemma SlotsInLowerCase(name: string)
    ensures Mentions(Lower(name), "slots") <==> NamesSlots(name)
  {
    hide Mentions, SameIgnoringCase;
    MentionsExactly(Lower(name), "slots");
    assert Lower("slots") == "slots";
    forall i: nat ensures WordAt(Lower(name), "slots", i) <==> SlotsAt(name, i) {
      if i + 5 <= |name| {
        assert Lower(name[i..i + 5]) == Lower(name)[i..i + 5];
        LowerIgnoresCase(name[i..i + 5], "slots");
      }
    }
  }

  /** Zero times an event vanishes unless its name has `slots` in it; event times zero always does. */
  lemma ZeroTimesEvent(name: string)
    ensures var product := Operator(Mul, Constant(0.0), Event(name));
            Simplify(product) == if NamesSlots(name) then Ok(product) else Ok(Constant(0.0))
    ensures Simplify(Operator(Mul, Event(name), Constant(0.0))) == Ok(Constant(0.0))
  {
    hide Mentions, Lower, NamesSlots;
    SlotsInLowerCase(name);
  }

  // ----- Values

  /** What the runtime supplies: event counts, `#` literals, and the answers of calls that ask about an event. */
  datatype Env = Env(event: string -> real, literal: string -> real, ask: (string, string) -> real)

  predicate Integral(x: real) { x == x.Floor as real }

  function Abs(a: int): nat { if a < 0 then -a else a }

  /** Bitwise operators on integers in two's complement of unbounded width. */
  function BitOr(a: int, b: int): int
    decreases Abs(a) + Abs(b)
  {
    if a == 0 then b else if b == 0 then a
    else if a == -1 || b == -1 then -1
    else 2 * BitOr(a / 2, b / 2) + (if a % 2 == 1 || b % 2 == 1 then 1 else 0)
  }

  function BitAnd(a: int, b: int): int {
    -1 - BitOr(-1 - a, -1 - b)
  }

  function BitXor(a: int, b: int): int {
    BitOr(a, b) - BitAnd(a, b)
  }

  /** C's remainder, which takes the sign of the dividend. */
  function Remainder(a: int, b: int): int
    requires b != 0
  {
    if a >= 0 then a % b else -(-a % b)
  }

  function Truth(b: bool): real { if b then 1.0 else 0.0 }

  /** Bitwise operators and `%` are defined on integers, division and `%` on a divisor other than zero. */
  function Apply(op: BinOp, a: real, b: real): Option<real> {
    if op == Add then Some(a + b)
    else if op == Sub then Some(a - b)
    else if op == Mul then Some(a * b)
    else if op == Lt then Some(Truth(a < b))
    else if op == Gt then Some(Truth(a > b))
    else if op == Div then if b == 0.0 then None else Some(a / b)
    else if !Integral(a) || !Integral(b) then None
    else if op == Or then Some(BitOr(a.Floor, b.Floor) as real)
    else if op == And then Some(BitAnd(a.Floor, b.Floor) as real)
    else if op == Xor then Some(BitXor(a.Floor, b.Floor) as real)
    else if b.Floor == 0 then None
    else Some(Remainder(a.Floor, b.Floor) as real)
  }

  function Call(fn: string, a: real, b: real): Option<real> {
    if fn == "min" then Some(if a < b then a else b)
    else if fn == "max" then Some(if a > b then a else b)
    else if fn == "d_ratio" then Some(if b == 0.0 then 0.0 else a / b)
    else None
  }

  /** The value of a tree, if it is defined. Only the selected branch of a select has to be. */
  function Eval(e: Expr, env: Env): Option<real> {
    match e
    case Operator(op, l, r) =>
      var a, b := Eval(l, env), Eval(r, env);
      if a.Some? && b.Some? then Apply(op, a.value, b.value) else None
    case Select(t, c, f) =>
      var cond := Eval(c, env);
      if cond.None? then None else if cond.value != 0.0 then Eval(t, env) else Eval(f, env)
    case Function(fn, x, None) => if x.Event? then Some(env.ask(fn, x.name)) else None
    case Function(fn, x, Some(y)) =>
      var a, b := Eval(x, env), Eval(y, env);
      if a.Some? && b.Some? then Call(fn, a.value, b.value) else None
    case Event(n) => Some(env.event(n))
    case Constant(v) => Some(v)
    case Literal(t) => Some(env.literal(t))
  }

  // ----- Simplify keeps the value

  lemma {:induction false} SimplifyKeepsArity(e: Expr, binary: set<string>)
    requires FixedArity(e, binary) && Simplify(e).Ok?
    ensures FixedArity(Simplify(e).value, binary)
  {
    match e
    case Operator(_, l, r) => SimplifyKeepsArity(l, binary); SimplifyKeepsArity(r, binary);
    case Select(t, c, f) =>
      SimplifyKeepsArity(t, binary);
      SimplifyKeepsArity(c, binary);
      SimplifyKeepsArity(f, binary);
    case Function(_, x, y) =>
      SimplifyKeepsArity(x, binary);
      if y.Some? { SimplifyKeepsArity(y.value, binary); }
    case _ =>
  }

  lemma SimplifyOperatorKeepsValue(op: BinOp, lhs: Expr, rhs: Expr, l: Expr, r: Expr, env: Env)
    requires lhs.Constant? ==> l == lhs
    requires rhs.Constant? ==> r == rhs
    requires SimplifyOperator(op, lhs, rhs, l, r).Ok? && Eval(Operator(op, l, r), env).Some?
    ensures Eval(SimplifyOperator(op, lhs, rhs, l, r).value, env) == Eval(Operator(op, l, r), env)
  {
  }

  /** A select whose simplified branches look equal has the same branch twice, in all of the tree. */
  predicate CollapsesSame(e: Expr) {
    match e
    case Operator(_, l, r) => CollapsesSame(l) && CollapsesSame(r)
    case Select(t, c, f) =>
      && CollapsesSame(t) && CollapsesSame(c) && CollapsesSame(f)
      && (Simplify(t).Ok? && Simplify(f).Ok? && Equals(Simplify(t).value, Simplify(f).value) ==>
            Simplify(t) == Simplify(f))
    case Function(_, x, y) => CollapsesSame(x) && (y.Some? ==> CollapsesSame(y.value))
    case _ => true
  }

  lemma {:induction false} FixedArityCollapsesSame(e: Expr, binary: set<string>)
    requires FixedArity(e, binary)
    ensures CollapsesSame(e)
  {
    match e
    case Operator(_, l, r) => FixedArityCollapsesSame(l, binary); FixedArityCollapsesSame(r, binary);
    case Select(t, c, f) =>
      FixedArityCollapsesSame(t, binary);
      FixedArityCollapsesSame(c, binary);
      FixedArityCollapsesSame(f, binary);
      if Simplify(t).Ok? && Simplify(f).Ok? {
        SimplifyKeepsArity(t, binary);
        SimplifyKeepsArity(f, binary);
        EqualsIsIdentity(Simplify(t).value, Simplify(f).value, binary);
      }
    case Function(_, x, y) =>
      FixedArityCollapsesSame(x, binary);
      if y.Some? { FixedArityCollapsesSame(y.value, binary); }
    case _ =>
  }

  /** Whenever `Simplify` returns, the result has the value of the input wherever the input has one. */
  lemma {:induction false} SimplifyKeepsValue(e: Expr, env: Env)
    requires CollapsesSame(e)
    requires Simplify(e).Ok? && Eval(e, env).Some?
    ensures Eval(Simplify(e).value, env) == Eval(e, env)
  {
    match e
    case Operator(op, lhs, rhs) =>
      SimplifyKeepsValue(lhs, env);
      SimplifyKeepsValue(rhs, env);
      SimplifyOperatorKeepsValue(op, lhs, rhs, Simplify(lhs).value, Simplify(rhs).value, env);
    case Select(t, c, f) =>
      SimplifyKeepsValue(c, env);
      if Eval(c, env).value != 0.0 { SimplifyKeepsValue(t, env); } else { SimplifyKeepsValue(f, env); }
    case Function(fn, x, y) =>
      if y.Some? {
        SimplifyKeepsValue(x, env);
        SimplifyKeepsValue(y.value, env);
      }
    case _ =>
  }

  /** In particular for all trees that the functions of metric.py build. */
  lemma BuiltTreeKeepsValue(e: Expr, env: Env)
    requires Built(e) && Simplify(e).Ok? && Eval(e, env).Some?
    ensures Eval(Simplify(e).value, env) == Eval(e, env)
  {
    BuiltHasFixedArity(e);
    FixedArityCollapsesSame(e, TWO_ARGUMENTS);
    SimplifyKeepsValue(e, env);
  }

  /**
   * A call with the wrong number of arguments, which only the node constructor itself can make, can lose the value:
   * both branches of this select look equal.
   */
  lemma SimplifyWithoutFixedArity()
    ensures var one, two := Function("min", Event("a"), None), Function("min", Event("a"), Some(Event("b")));
            var e := Select(one, Event("c"), two);
            var env := Env(_ => 0.0, _ => 0.0, (_, _) => 1.0);
            && Simplify(e) == Ok(one)
            && Eval(e, env) == Some(0.0) && Eval(one, env) == Some(1.0)
  {
  }

  /** Branches that only look equal do not always matter: here both are zero. */
  lemma LostBranchCanBeHarmless(env: Env)
    ensures var one, two := Function("min", Event("a"), None), Function("min", Event("a"), Some(Event("b")));
            var e := Select(Operator(Sub, one, one), Event("c"), Operator(Sub, two, two));
            && !CollapsesSame(e) && Simplify(e).Ok?
            && Eval(Simplify(e).value, env) == Eval(e, env) == Some(0.0)
  {
    var one, two := Function("min", Event("a"), None), Function("min", Event("a"), Some(Event("b")));
    var t, f := Operator(Sub, one, one), Operator(Sub, two, two);
    assert Simplify(one) == Ok(one) && Simplify(two) == Ok(two);
    assert Simplify(t) == Ok(t) && Simplify(f) == Ok(f);
    assert Equals(one, two) && Equals(t, f);
    assert Eval(t, env) == Some(0.0) && Eval(f, env) == Some(0.0) by {
      assert Eval(one, env).Some? && Eval(two, env).Some?;
    }
  }

  // ----- What is left after one pass

  /** No rule that looks at the right operand, at a condition or at two constants applies anywhere. */
  predicate Reduced(e: Expr) {
    match e
    case Operator(op, l, r) =>
      && Reduced(l) && Reduced(r)
      && !(l.Constant? && r.Constant?)
      && (r.Constant? && op in {Add, Or} ==> r.value != 0.0)
      && (r.Constant? && op == Mul ==> r.value != 0.0 && r.value != 1.0)
    case Select(t, c, f) => Reduced(t) && Reduced(c) && Reduced(f) && !c.Constant? && !Equals(t, f)
    case Function(_, x, y) =>
      Reduced(x) && (y.Some? ==> Reduced(y.value) && !(x.Constant? && y.value.Constant?))
    case _ => true
  }

  /** No rule that looks at the left operand applies anywhere. */
  predicate LeftReduced(e: Expr) {
    match e
    case Operator(op, l, r) =>
      && LeftReduced(l) && LeftReduced(r)
      && (l.Constant? && op in {Add, Or} ==> l.value != 0.0)
      && (l.Constant? && op == Mul ==> l.value != 1.0 && (l.value == 0.0 ==> IsSlotsEvent(r)))
    case Select(t, c, f) => LeftReduced(t) && LeftReduced(c) && LeftReduced(f)
    case Function(_, x, y) => LeftReduced(x) && (y.Some? ==> LeftReduced(y.value))
    case _ => true
  }

  lemma SimplifyOperatorReduces(op: BinOp, lhs: Expr, rhs: Expr, l: Expr, r: Expr)
    requires (lhs.Constant? ==> l == lhs) && (rhs.Constant? ==> r == rhs)
    requires Reduced(l) && Reduced(r) && SimplifyOperator(op, lhs, rhs, l, r).Ok?
    ensures var after := SimplifyOperator(op, lhs, rhs, l, r).value;
            Reduced(after) && (after == Operator(op, l, r) || Size(after) < Size(Operator(op, l, r)))
  {
    hide Equals, IsSlotsEvent;
  }

  lemma {:induction false} SimplifyReduces(e: Expr)
    requires Simplify(e).Ok?
    ensures Reduced(Simplify(e).value)
    ensures Simplify(e).value == e || Size(Simplify(e).value) < Size(e)
  {
    hide Equals, IsSlotsEvent;
    match e
    case Operator(op, l, r) =>
      SimplifyReduces(l);
      SimplifyReduces(r);
      SimplifyOperatorReduces(op, l, r, Simplify(l).value, Simplify(r).value);
    case Select(t, c, f) => SimplifyReduces(t); SimplifyReduces(c); SimplifyReduces(f);
    case Function(_, x, y) =>
      SimplifyReduces(x);
      if y.Some? { SimplifyReduces(y.value); }
    case _ =>
  }

  lemma OperatorFixpoint(op: BinOp, lhs: Expr, rhs: Expr)
    requires Simplify(lhs).Ok? ==> Reduced(Simplify(lhs).value)
    requires Simplify(rhs).Ok? ==> Reduced(Simplify(rhs).value)
    requires Simplify(lhs) == Ok(lhs) <==> Reduced(lhs) && LeftReduced(lhs)
    requires Simplify(rhs) == Ok(rhs) <==> Reduced(rhs) && LeftReduced(rhs)
    requires Simplify(lhs).Ok? ==> Simplify(lhs).value == lhs || Size(Simplify(lhs).value) < Size(lhs)
    requires Simplify(rhs).Ok? ==> Simplify(rhs).value == rhs || Size(Simplify(rhs).value) < Size(rhs)
    ensures var e := Operator(op, lhs, rhs); Simplify(e) == Ok(e) <==> Reduced(e) && LeftReduced(e)
  {
    hide Equals, IsSlotsEvent;
  }

  /** A tree is left alone exactly when no rule applies anywhere in it. */
  lemma {:induction false} SimplifyFixpoints(e: Expr)
    ensures Simplify(e) == Ok(e) <==> Reduced(e) && LeftReduced(e)
  {
    hide Equals, IsSlotsEvent;
    match e
    case Operator(op, l, r) =>
      SimplifyFixpoints(l);
      SimplifyFixpoints(r);
      if Simplify(l).Ok? { SimplifyReduces(l); }
      if Simplify(r).Ok? { SimplifyReduces(r); }
      OperatorFixpoint(op, l, r);
    case Select(t, c, f) =>
      SimplifyFixpoints(t);
      SimplifyFixpoints(c);
      SimplifyFixpoints(f);
      if Simplify(e).Ok? { SimplifyReduces(t); SimplifyReduces(c); SimplifyReduces(f); }
    case Function(_, x, y) =>
      SimplifyFixpoints(x);
      if y.Some? { SimplifyFixpoints(y.value); }
    case _ =>
  }

  /** One pass can leave work for the next: the left rules look at the operand before it is simplified. */
  lemma SimplifyIsNotIdempotent()
    ensures var e := Operator(Add, Select(Constant(0.0), Constant(1.0), Event("x")), Event("y"));
            var once := Operator(Add, Constant(0.0), Event("y"));
            Simplify(e) == Ok(once) && Simplify(once) == Ok(Event("y"))
  {
    var s := Select(Constant(0.0), Constant(1.0), Event("x"));
    assert Simplify(s) == Ok(Constant(0.0));
  }
}
