/** Metric expression trees (metric.py): the node classes with `Equals` and `Substitute`. */
module MetricExpr {
  import opened Options

  datatype BinOp = Or | Xor | And | Lt | Gt | Add | Sub | Mul | Div | Mod

  /** One constructor per node class. A constant is an exact number, not its decimal text. */
  datatype Expr =
    | Operator(op: BinOp, lhs: Expr, rhs: Expr)
    | Select(trueVal: Expr, cond: Expr, falseVal: Expr)
    | Function(fn: string, arg: Expr, second: Option<Expr>)
    | Event(name: string)
    | Constant(value: real)
    | Literal(text: string)

  function Size(e: Expr): (n: nat)
    ensures n >= 1
  {
    match e
    case Operator(_, l, r) => 1 + Size(l) + Size(r)
    case Select(t, c, f) => 1 + Size(t) + Size(c) + Size(f)
    case Function(_, x, y) => 1 + Size(x) + (if y.Some? then Size(y.value) else 0)
    case _ => 1
  }

  /** Every function name is used with one number of arguments: two exactly for the names in `binary`. */
  predicate FixedArity(e: Expr, binary: set<string>) {
    match e
    case Operator(_, l, r) => FixedArity(l, binary) && FixedArity(r, binary)
    case Select(t, c, f) => FixedArity(t, binary) && FixedArity(c, binary) && FixedArity(f, binary)
    case Function(fn, x, y) =>
      && FixedArity(x, binary)
      && (y.Some? <==> fn in binary)
      && (y.Some? ==> FixedArity(y.value, binary))
    case _ => true
  }

  // The functions of metric.py that build a call: `min(a, b)` and so on.
  const TWO_ARGUMENTS: set<string> := {"min", "max", "d_ratio"}
  const ONE_ARGUMENT: set<string> := {"source_count", "has_event", "strcmp_cpuid_str"}

  /** All calls in the tree were built by one of those functions. */
  predicate Built(e: Expr) {
    match e
    case Operator(_, l, r) => Built(l) && Built(r)
    case Select(t, c, f) => Built(t) && Built(c) && Built(f)
    case Function(fn, x, y) => Built(x) && if y.Some? then fn in TWO_ARGUMENTS && Built(y.value) else fn in ONE_ARGUMENT
    case _ => true
  }

  lemma {:induction false} BuiltHasFixedArity(e: Expr)
    ensures Built(e) ==> FixedArity(e, TWO_ARGUMENTS)
  {
    match e
    case Operator(_, l, r) => BuiltHasFixedArity(l); BuiltHasFixedArity(r);
    case Select(t, c, f) => BuiltHasFixedArity(t); BuiltHasFixedArity(c); BuiltHasFixedArity(f);
    case Function(_, x, y) =>
      BuiltHasFixedArity(x);
      if y.Some? { BuiltHasFixedArity(y.value); }
    case _ =>
  }

  // ----- Equals

  /** A call without a second argument does not look at the second argument of the other call. */
  predicate Equals(a: Expr, b: Expr) {
    match a
    case Operator(op, l, r) => b.Operator? && op == b.op && Equals(l, b.lhs) && Equals(r, b.rhs)
    case Select(t, c, f) => b.Select? && Equals(c, b.cond) && Equals(f, b.falseVal) && Equals(t, b.trueVal)
    case Function(fn, x, y) =>
      && b.Function?
      && fn == b.fn
      && Equals(x, b.arg)
      && (y.Some? ==> b.second.Some? && Equals(y.value, b.second.value))
    case Event(n) => b.Event? && n == b.name
    case Constant(v) => b.Constant? && v == b.value
    case Literal(t) => b.Literal? && t == b.text
  }

  lemma {:induction false} EqualsReflexive(e: Expr)
    ensures Equals(e, e)
  {
    match e
    case Operator(_, l, r) => EqualsReflexive(l); EqualsReflexive(r);
    case Select(t, c, f) => EqualsReflexive(t); EqualsReflexive(c); EqualsReflexive(f);
    case Function(_, x, y) =>
      EqualsReflexive(x);
      if y.Some? { EqualsReflexive(y.value); }
    case _ =>
  }

  /** `Equals` is identity exactly when it holds in both directions. */
  lemma {:induction false} EqualsBothWaysIsIdentity(a: Expr, b: Expr)
    ensures Equals(a, b) && Equals(b, a) <==> a == b
  {
    EqualsReflexive(a);
    if Equals(a, b) && Equals(b, a) {
      match a
      case Operator(_, l, r) => EqualsBothWaysIsIdentity(l, b.lhs); EqualsBothWaysIsIdentity(r, b.rhs);
      case Select(t, c, f) =>
        EqualsBothWaysIsIdentity(t, b.trueVal);
        EqualsBothWaysIsIdentity(c, b.cond);
        EqualsBothWaysIsIdentity(f, b.falseVal);
      case Function(_, x, y) =>
        EqualsBothWaysIsIdentity(x, b.arg);
        if y.Some? { EqualsBothWaysIsIdentity(y.value, b.second.value); }
      case _ =>
    }
  }

  /** One direction is not enough: `f(a)` equals `f(a, b)`, and `f(a, b)` does not equal `f(a)`. */
  lemma EqualsIgnoresMissingArgument(fn: string, a: Expr, b: Expr)
    ensures Equals(Function(fn, a, None), Function(fn, a, Some(b)))
    ensures !Equals(Function(fn, a, Some(b)), Function(fn, a, None))
  {
    EqualsReflexive(a);
  }

  /** Trees that look equal are called with the same operators and functions, and their parts look equal. */
  lemma EqualsOfParts(op: BinOp, p: BinOp, fn: string, gn: string, a: Expr, b: Expr, c: Expr, x: Expr, y: Expr, z: Expr)
    ensures Equals(Operator(op, a, b), Operator(p, x, y)) <==> op == p && Equals(a, x) && Equals(b, y)
    ensures Equals(Select(a, b, c), Select(x, y, z)) <==> Equals(a, x) && Equals(b, y) && Equals(c, z)
    ensures Equals(Function(fn, a, Some(b)), Function(gn, x, Some(y))) <==> fn == gn && Equals(a, x) && Equals(b, y)
    ensures Equals(Function(fn, a, None), Function(gn, x, Some(y))) <==> fn == gn && Equals(a, x)
    ensures Equals(Function(fn, a, None), Function(gn, x, None)) <==> fn == gn && Equals(a, x)
  {
  }

  /** With an arity fixed by name, `Equals` is identity. */
  lemma {:induction false} EqualsIsIdentity(a: Expr, b: Expr, binary: set<string>)
    requires FixedArity(a, binary) && FixedArity(b, binary)
    ensures Equals(a, b) <==> a == b
  {
    EqualsReflexive(a);
    if Equals(a, b) {
      match a
      case Operator(_, l, r) => EqualsIsIdentity(l, b.lhs, binary); EqualsIsIdentity(r, b.rhs, binary);
      case Select(t, c, f) =>
        EqualsIsIdentity(t, b.trueVal, binary);
        EqualsIsIdentity(c, b.cond, binary);
        EqualsIsIdentity(f, b.falseVal, binary);
      case Function(_, x, y) =>
        EqualsIsIdentity(x, b.arg, binary);
        if y.Some? { EqualsIsIdentity(y.value, b.second.value, binary); }
      case _ =>
    }
  }

  // ----- Names

  function LowerChar(c: char): char {
    if 'A' <= c <= 'Z' then (c as int + 32) as char else c
  }

  /** `str.lower()`, for the letters A to Z. */
  function Lower(s: string): string {
    seq(|s|, i requires 0 <= i < |s| => LowerChar(s[i]))
  }

  predicate SameLetter(x: char, y: char) {
    || x == y
    || ('A' <= x <= 'Z' && y as int == x as int + 32)
    || ('A' <= y <= 'Z' && x as int == y as int + 32)
  }

  /** The names differ in the case of letters at most. */
  predicate SameIgnoringCase(a: string, b: string) {
    |a| == |b| && forall i :: 0 <= i < |a| ==> SameLetter(a[i], b[i])
  }

  lemma LowerIgnoresCase(a: string, b: string)
    ensures Lower(a) == Lower(b) <==> SameIgnoringCase(a, b)
  {
    if Lower(a) == Lower(b) {
      assert |Lower(a)| == |a| && |Lower(b)| == |b|;
      forall i | 0 <= i < |a| ensures SameLetter(a[i], b[i]) {
        assert Lower(a)[i] == Lower(b)[i];
      }
    }
  }

  /** `re.sub` of an unescaped separator: the two matched characters are consumed together. */
  function EscapeSeparator(s: string, c: char): string {
    if |s| >= 2 && s[0] != '\\' && s[1] == c then [s[0], '\\', c] + EscapeSeparator(s[2..], c)
    else if |s| >= 1 then [s[0]] + EscapeSeparator(s[1..], c)
    else []
  }

  function FixEscapes(s: string): string {
    EscapeSeparator(EscapeSeparator(s, ','), '=')
  }

  /** The constructor of an event. */
  function MakeEvent(name: string): Expr {
    Event(FixEscapes(name))
  }

  ghost predicate Unescaped(s: string, c: char) {
    exists i :: 0 < i < |s| && s[i] == c && s[i - 1] != '\\'
  }

  lemma {:induction false} EscapeSeparatorGrows(s: string, c: char)
    ensures |EscapeSeparator(s, c)| >= |s|
    ensures EscapeSeparator(s, c) == s || |EscapeSeparator(s, c)| > |s|
    ensures EscapeSeparator(s, c) == s <==> !Unescaped(s, c)
  {
    if |s| >= 2 && s[0] != '\\' && s[1] == c {
      EscapeSeparatorGrows(s[2..], c);
      assert 0 < 1 < |s| && s[1] == c && s[1 - 1] != '\\';
    } else if |s| >= 1 {
      var t := s[1..];
      EscapeSeparatorGrows(t, c);
      assert s == [s[0]] + t;
      if Unescaped(s, c) {
        var i :| 0 < i < |s| && s[i] == c && s[i - 1] != '\\';
        assert 0 < i - 1 < |t| && t[i - 1] == c && t[i - 1 - 1] != '\\';
      }
      if Unescaped(t, c) {
        var i :| 0 < i < |t| && t[i] == c && t[i - 1] != '\\';
        assert 0 < i + 1 < |s| && s[i + 1] == c && s[i + 1 - 1] != '\\';
      }
      if EscapeSeparator(t, c) != t {
        assert EscapeSeparator(s, c)[1..] == EscapeSeparator(t, c);
      }
    }
  }

  /** A name survives the event constructor exactly when no `,` or `=` follows a character other than a backslash. */
  lemma NameKeptExactlyWhenEscaped(name: string)
    ensures MakeEvent(name) == Event(name) <==> !Unescaped(name, ',') && !Unescaped(name, '=')
  {
    var once := EscapeSeparator(name, ',');
    EscapeSeparatorGrows(name, ',');
    EscapeSeparatorGrows(once, '=');
  }

  /** The first separator that follows something other than a backslash gets a backslash, and so on behind it. */
  lemma {:induction false} SeparatorIsEscaped(a: string, c: char, b: string)
    requires c != '\\' && a != [] && c !in a && a[|a| - 1] != '\\'
    ensures EscapeSeparator(a + [c] + b, c) == a + ['\\', c] + EscapeSeparator(b, c)
  {
    var s := a + [c] + b;
    if |a| == 1 {
      assert s[2..] == b;
    } else {
      var rest := a[1..];
      SeparatorIsEscaped(rest, c, b);
      assert s[1..] == rest + [c] + b;
      assert a == [a[0]] + rest && s[1] == rest[0] != c;
    }
  }

  lemma NothingToEscape(s: string, c: char)
    requires c !in s
    ensures EscapeSeparator(s, c) == s
  {
    EscapeSeparatorGrows(s, c);
  }

  lemma OneSeparator(a: string, c: char, b: string)
    requires c != '\\' && a != [] && c !in a && c !in b && a[|a| - 1] != '\\'
    ensures EscapeSeparator(a + [c] + b, c) == a + ['\\', c] + b
  {
    SeparatorIsEscaped(a, c, b);
    NothingToEscape(b, c);
  }

  /** An event is constructed with its commas and its equal signs escaped. */
  lemma EventIsEscaped(a: string, b: string)
    requires a != [] && ',' !in a && '=' !in a && ',' !in b && '=' !in b && a[|a| - 1] != '\\'
    ensures MakeEvent(a + [','] + b) == Event(a + ['\\', ','] + b)
    ensures MakeEvent(a + ['='] + b) == Event(a + ['\\', '='] + b)
  {
    hide EscapeSeparator;
    OneSeparator(a, ',', b);
    NothingToEscape(a + ['\\', ','] + b, '=');
    NothingToEscape(a + ['='] + b, ',');
    OneSeparator(a, '=', b);
  }

  // ----- Substitute

  /** Replaces every maximal non-leaf subtree that equals `target` by an event called `name`. */
  function Substitute(e: Expr, name: string, target: Expr): Expr {
    match e
    case Operator(op, l, r) =>
      if Equals(e, target) then MakeEvent(name)
      else Operator(op, Substitute(l, name, target), Substitute(r, name, target))
    case Select(t, c, f) =>
      if Equals(e, target) then MakeEvent(name)
      else Select(Substitute(t, name, target), Substitute(c, name, target), Substitute(f, name, target))
    case Function(fn, x, y) =>
      if Equals(e, target) then MakeEvent(name)
      else Function(fn, Substitute(x, name, target),
                    if y.Some? then Some(Substitute(y.value, name, target)) else None)
    case _ => e
  }

  /** Some non-leaf subtree of `e` equals `target`. */
  predicate Occurs(e: Expr, target: Expr) {
    match e
    case Operator(_, l, r) => Equals(e, target) || Occurs(l, target) || Occurs(r, target)
    case Select(t, c, f) => Equals(e, target) || Occurs(t, target) || Occurs(c, target) || Occurs(f, target)
    case Function(_, x, y) => Equals(e, target) || Occurs(x, target) || (y.Some? && Occurs(y.value, target))
    case _ => false
  }

  lemma {:induction false} SubstituteAbsent(e: Expr, name: string, target: Expr)
    requires !Occurs(e, target)
    ensures Substitute(e, name, target) == e
  {
    hide Equals, FixEscapes;
    match e
    case Operator(_, l, r) =>
      SubstituteAbsent(l, name, target);
      SubstituteAbsent(r, name, target);
    case Select(t, c, f) =>
      SubstituteAbsent(t, name, target);
      SubstituteAbsent(c, name, target);
      SubstituteAbsent(f, name, target);
    case Function(_, x, y) =>
      SubstituteAbsent(x, name, target);
      if y.Some? { SubstituteAbsent(y.value, name, target); }
    case _ =>
  }

  lemma {:induction false} SubstitutePresent(e: Expr, name: string, target: Expr)
    requires Occurs(e, target)
    ensures Size(Substitute(e, name, target)) < Size(e)
    decreases e, 0
  {
    hide Equals, FixEscapes;
    match e
    case Operator(_, l, r) =>
      SubstituteShrinks(l, name, target);
      SubstituteShrinks(r, name, target);
    case Select(t, c, f) =>
      SubstituteShrinks(t, name, target);
      SubstituteShrinks(c, name, target);
      SubstituteShrinks(f, name, target);
    case Function(_, x, y) =>
      SubstituteShrinks(x, name, target);
      if y.Some? { SubstituteShrinks(y.value, name, target); }
  }

  /** A substitution shrinks the tree exactly when the target occurs, and otherwise changes nothing. */
  lemma {:induction false} SubstituteShrinks(e: Expr, name: string, target: Expr)
    ensures if Occurs(e, target) then Size(Substitute(e, name, target)) < Size(e)
            else Substitute(e, name, target) == e
    decreases e, 1
  {
    if Occurs(e, target) { SubstitutePresent(e, name, target); } else { SubstituteAbsent(e, name, target); }
  }

  lemma {:induction false} SubstituteKeepsArity(e: Expr, name: string, target: Expr, binary: set<string>)
    requires FixedArity(e, binary)
    ensures FixedArity(Substitute(e, name, target), binary)
  {
    match e
    case Operator(_, l, r) =>
      SubstituteKeepsArity(l, name, target, binary);
      SubstituteKeepsArity(r, name, target, binary);
    case Select(t, c, f) =>
      SubstituteKeepsArity(t, name, target, binary);
      SubstituteKeepsArity(c, name, target, binary);
      SubstituteKeepsArity(f, name, target, binary);
    case Function(_, x, y) =>
      SubstituteKeepsArity(x, name, target, binary);
      if y.Some? { SubstituteKeepsArity(y.value, name, target, binary); }
    case _ =>
  }

  /** The event stands somewhere in the tree. */
  predicate HasLeaf(e: Expr, leaf: Expr) {
    match e
    case Operator(_, l, r) => HasLeaf(l, leaf) || HasLeaf(r, leaf)
    case Select(t, c, f) => HasLeaf(t, leaf) || HasLeaf(c, leaf) || HasLeaf(f, leaf)
    case Function(_, x, y) => HasLeaf(x, leaf) || (y.Some? && HasLeaf(y.value, leaf))
    case _ => e == leaf
  }

  /** A tree that looks equal to another has no events that the other does not have. */
  lemma {:induction false} EqualsKeepsLeaves(a: Expr, b: Expr, name: string)
    requires Equals(a, b) && HasLeaf(a, Event(name))
    ensures HasLeaf(b, Event(name))
  {
    match a
    case Operator(_, l, r) =>
      if HasLeaf(l, Event(name)) { EqualsKeepsLeaves(l, b.lhs, name); } else { EqualsKeepsLeaves(r, b.rhs, name); }
    case Select(t, c, f) =>
      if HasLeaf(t, Event(name)) { EqualsKeepsLeaves(t, b.trueVal, name); }
      else if HasLeaf(c, Event(name)) { EqualsKeepsLeaves(c, b.cond, name); }
      else { EqualsKeepsLeaves(f, b.falseVal, name); }
    case Function(_, x, y) =>
      if HasLeaf(x, Event(name)) { EqualsKeepsLeaves(x, b.arg, name); }
      else { EqualsKeepsLeaves(y.value, b.second.value, name); }
    case _ =>
  }

  /** Unchanged, or marked by the new event. */
  lemma {:induction false} SubstituteMarks(e: Expr, name: string, target: Expr)
    ensures Substitute(e, name, target) == e || HasLeaf(Substitute(e, name, target), MakeEvent(name))
  {
    match e
    case Operator(_, l, r) => SubstituteMarks(l, name, target); SubstituteMarks(r, name, target);
    case Select(t, c, f) =>
      SubstituteMarks(t, name, target);
      SubstituteMarks(c, name, target);
      SubstituteMarks(f, name, target);
    case Function(_, x, y) =>
      SubstituteMarks(x, name, target);
      if y.Some? { SubstituteMarks(y.value, name, target); }
    case _ =>
  }

  /** Every occurrence is replaced in one go, unless the target itself refers to the name. */
  lemma {:induction false} SubstituteLeavesNone(e: Expr, name: string, target: Expr)
    requires !HasLeaf(target, MakeEvent(name))
    ensures !Occurs(Substitute(e, name, target), target)
  {
    hide FixEscapes;
    var after := Substitute(e, name, target);
    SubstituteMarks(e, name, target);
    if Equals(after, target) && after != e { EqualsKeepsLeaves(after, target, FixEscapes(name)); }
    match e
    case Operator(_, l, r) => SubstituteLeavesNone(l, name, target); SubstituteLeavesNone(r, name, target);
    case Select(t, c, f) =>
      SubstituteLeavesNone(t, name, target);
      SubstituteLeavesNone(c, name, target);
      SubstituteLeavesNone(f, name, target);
    case Function(_, x, y) =>
      SubstituteLeavesNone(x, name, target);
      if y.Some? { SubstituteLeavesNone(y.value, name, target); }
    case _ =>
  }
}
