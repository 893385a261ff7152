/** `ToPerfJson` (metric.py) as a list of tokens, and the expression grammar it is written for. */
module MetricPrint {
  import opened Options
  import opened MetricExpr

  datatype Token =
    | Open | Close | Comma | If | Else
    | Sign(op: BinOp)
    | Ident(name: string)
    | Number(value: real)
    | Hash(text: string)

  function Prec(op: BinOp): nat {
    match op
    case Or => 0
    case Xor => 1
    case And => 2
    case Lt => 3
    case Gt => 3
    case Add => 4
    case Sub => 4
    case Mul => 5
    case Div => 5
    case Mod => 5
  }

  /** Events are printed with '@' in place of '/'. */
  function AtSigns(s: string): string {
    seq(|s|, i requires 0 <= i < |s| => if s[i] == '/' then '@' else s[i])
  }

  /** Every '/' becomes '@', and nothing else changes. */
  lemma AtSignsParts(a: string, b: string)
    ensures '/' !in a ==> AtSigns(a) == a
    ensures AtSigns(a + "/" + b) == AtSigns(a) + "@" + AtSigns(b)
  {
  }

  /** The tree that is meant by the printed text. */
  function Printed(e: Expr): Expr {
    match e
    case Operator(op, l, r) => Operator(op, Printed(l), Printed(r))
    case Select(t, c, f) => Select(Printed(t), Printed(c), Printed(f))
    case Function(fn, x, y) => Function(fn, Printed(x), if y.Some? then Some(Printed(y.value)) else None)
    case Event(n) => Event(AtSigns(n))
    case _ => e
  }

  // ----- Printing

  predicate NeedsBracket(op: BinOp, other: Expr, rhs: bool) {
    other.Operator? && (Prec(op) > Prec(other.op) || (rhs && Prec(op) == Prec(other.op)))
  }

  function Wrap(ts: seq<Token>): seq<Token> { [Open] + ts + [Close] }

  function Bracket(op: BinOp, other: Expr, ts: seq<Token>, rhs: bool): seq<Token> {
    if NeedsBracket(op, other, rhs) then Wrap(ts) else ts
  }

  function ToPerfJson(e: Expr): seq<Token> {
    match e
    case Operator(op, l, r) => Bracket(op, l, ToPerfJson(l), false) + [Sign(op)] + Bracket(op, r, ToPerfJson(r), true)
    case Select(t, c, f) => [Open] + ToPerfJson(t) + [If] + ToPerfJson(c) + [Else] + ToPerfJson(f) + [Close]
    case Function(fn, x, y) =>
      [Ident(fn), Open] + ToPerfJson(x) + (if y.Some? then [Comma] + ToPerfJson(y.value) else []) + [Close]
    case Event(n) => [Ident(AtSigns(n))]
    case Constant(v) => [Number(v)]
    case Literal(t) => [Hash(t)]
  }

  // ----- Parsing: left-associative operators of the given precedences

  type Parse = Option<(Expr, seq<Token>)>

  function Expect(t: Token, r: Parse): Parse {
    if r.Some? && r.value.1 != [] && r.value.1[0] == t then Some((r.value.0, r.value.1[1..])) else None
  }

  function ParsePrimary(ts: seq<Token>): (r: Parse)
    ensures r.Some? ==> |r.value.1| < |ts|
    decreases |ts|, 0
  {
    if ts == [] then None
    else match ts[0]
      case Number(v) => Some((Constant(v), ts[1..]))
      case Hash(t) => Some((Literal(t), ts[1..]))
      case Ident(n) =>
        if |ts| == 1 || ts[1] != Open then Some((Event(n), ts[1..]))
        else
          var x := ParseBinary(0, ts[2..]);
          if Expect(Close, x).Some? then Some((Function(n, x.value.0, None), x.value.1[1..]))
          else if Expect(Comma, x).None? then None
          else
            var y := Expect(Close, ParseBinary(0, x.value.1[1..]));
            if y.None? then None else Some((Function(n, x.value.0, Some(y.value.0)), y.value.1))
      case Open =>
        var t := ParseBinary(0, ts[1..]);
        if Expect(Close, t).Some? then Expect(Close, t)
        else if Expect(If, t).None? then None
        else
          var c := Expect(Else, ParseBinary(0, t.value.1[1..]));
          if c.None? then None
          else
            var f := Expect(Close, ParseBinary(0, c.value.1));
            if f.None? then None else Some((Select(t.value.0, c.value.0, f.value.0), f.value.1))
      case _ => None
  }

  function ParseBinary(p: nat, ts: seq<Token>): (r: Parse)
    ensures r.Some? ==> |r.value.1| < |ts|
    decreases |ts|, 1
  {
    var x := ParsePrimary(ts);
    if x.None? then None else ParseRest(p, x.value.0, x.value.1)
  }

  /** Extends `lhs` by the operators of precedence at least `p` that follow. */
  function ParseRest(p: nat, lhs: Expr, ts: seq<Token>): (r: Parse)
    ensures r.Some? ==> |r.value.1| <= |ts|
    decreases |ts|, 2
  {
    if ts != [] && ts[0].Sign? && Prec(ts[0].op) >= p then
      var rhs := ParseBinary(Prec(ts[0].op) + 1, ts[1..]);
      if rhs.None? then None else ParseRest(p, Operator(ts[0].op, lhs, rhs.value.0), rhs.value.1)
    else Some((lhs, ts))
  }

  function ParseAll(ts: seq<Token>): Option<Expr> {
    var r := ParseBinary(0, ts);
    if r.Some? && r.value.1 == [] then Some(r.value.0) else None
  }

  // ----- Round trip

  function Level(e: Expr): nat {
    if e.Operator? then Prec(e.op) else 6
  }

  /** What may follow the text of `e` without becoming part of it. */
  predicate Follows(e: Expr, k: seq<Token>) {
    k != [] ==> k[0] != Open && (k[0].Sign? ==> Prec(k[0].op) <= Level(e))
  }

  /** The three composite forms, for the texts of any parts that parse as they should. */
  lemma OperatorText(p: nat, op: BinOp, left: seq<Token>, right: seq<Token>, l: Expr, r: Expr, k: seq<Token>)
    requires p <= Prec(op) && (k != [] && k[0].Sign? ==> Prec(k[0].op) <= Prec(op))
    requires var k1 := [Sign(op)] + (right + k); ParseBinary(p, left + k1) == ParseRest(p, l, k1)
    requires ParseBinary(Prec(op) + 1, right + k) == ParseRest(Prec(op) + 1, r, k)
    ensures ParseBinary(p, left + [Sign(op)] + right + k) == ParseRest(p, Operator(op, l, r), k)
  {
    hide ParseBinary;
    var k1 := [Sign(op)] + (right + k);
    assert left + [Sign(op)] + right + k == left + k1;
    assert k1[1..] == right + k;
  }

  lemma SelectText(tt: seq<Token>, ct: seq<Token>, ft: seq<Token>, t: Expr, c: Expr, f: Expr, k: seq<Token>)
    requires var k1 := [If] + (ct + ([Else] + (ft + ([Close] + k)))); ParseBinary(0, tt + k1) == Some((t, k1))
    requires var k2 := [Else] + (ft + ([Close] + k)); ParseBinary(0, ct + k2) == Some((c, k2))
    requires var k3 := [Close] + k; ParseBinary(0, ft + k3) == Some((f, k3))
    ensures ParsePrimary([Open] + tt + [If] + ct + [Else] + ft + [Close] + k) == Some((Select(t, c, f), k))
  {
    hide ParseBinary;
    var ts := [Open] + tt + [If] + ct + [Else] + ft + [Close] + k;
    var k3 := [Close] + k;
    var k2 := [Else] + (ft + k3);
    var k1 := [If] + (ct + k2);
    assert ts[1..] == tt + k1;
    assert k1[1..] == ct + k2;
    assert k2[1..] == ft + k3;
    assert k3[1..] == k;
  }

  lemma CallText(fn: string, xt: seq<Token>, x: Expr, k: seq<Token>)
    requires ParseBinary(0, xt + ([Close] + k)) == Some((x, [Close] + k))
    ensures ParsePrimary([Ident(fn), Open] + xt + [] + [Close] + k) == Some((Function(fn, x, None), k))
  {
    var ts := [Ident(fn), Open] + xt + [] + [Close] + k;
    var k1 := [Close] + k;
    assert ts[2..] == xt + k1;
    assert k1[1..] == k;
  }

  lemma CallText2(fn: string, xt: seq<Token>, yt: seq<Token>, x: Expr, y: Expr, k: seq<Token>)
    requires var k1 := [Comma] + (yt + ([Close] + k)); ParseBinary(0, xt + k1) == Some((x, k1))
    requires var k2 := [Close] + k; ParseBinary(0, yt + k2) == Some((y, k2))
    ensures ParsePrimary([Ident(fn), Open] + xt + ([Comma] + yt) + [Close] + k) == Some((Function(fn, x, Some(y)), k))
  {
    hide ParseBinary;
    var ts := [Ident(fn), Open] + xt + ([Comma] + yt) + [Close] + k;
    var k2 := [Close] + k;
    var k1 := [Comma] + (yt + k2);
    assert ts[2..] == xt + k1;
    assert k1[1..] == yt + k2;
    assert k2[1..] == k;
  }

  lemma WrapText(p: nat, ts: seq<Token>, e: Expr, k: seq<Token>)
    requires ParseBinary(0, ts + ([Close] + k)) == Some((e, [Close] + k))
    ensures ParseBinary(p, Wrap(ts) + k) == ParseRest(p, e, k)
  {
    var k1 := [Close] + k;
    assert (Wrap(ts) + k)[1..] == ts + k1;
    assert k1[1..] == k;
  }

  lemma {:induction false} ParseUnit(e: Expr, wrapped: bool, p: nat, k: seq<Token>)
    requires !wrapped ==> p <= Level(e) && Follows(e, k)
    ensures ParseBinary(p, (if wrapped then Wrap(ToPerfJson(e)) else ToPerfJson(e)) + k) == ParseRest(p, Printed(e), k)
    decreases e, 2
  {
    if wrapped {
      ParseExpr(e, 0, [Close] + k);
      WrapText(p, ToPerfJson(e), Printed(e), k);
    } else {
      ParseExpr(e, p, k);
    }
  }

  lemma {:induction false} ParseExpr(e: Expr, p: nat, k: seq<Token>)
    requires p <= Level(e) && Follows(e, k)
    ensures ParseBinary(p, ToPerfJson(e) + k) == ParseRest(p, Printed(e), k)
    decreases e, 1
  {
    match e
    case Operator(op, l, r) =>
      var left := Bracket(op, l, ToPerfJson(l), false);
      var right := Bracket(op, r, ToPerfJson(r), true);
      ParseUnit(l, NeedsBracket(op, l, false), p, [Sign(op)] + (right + k));
      ParseUnit(r, NeedsBracket(op, r, true), Prec(op) + 1, k);
      OperatorText(p, op, left, right, Printed(l), Printed(r), k);
    case _ =>
      PrimaryRoundTrip(e, k);
  }

  lemma {:induction false} PrimaryRoundTrip(e: Expr, k: seq<Token>)
    requires !e.Operator? && Follows(e, k)
    ensures ParsePrimary(ToPerfJson(e) + k) == Some((Printed(e), k))
    decreases e, 0
  {
    match e
    case Select(t, c, f) =>
      var tt, ct, ft := ToPerfJson(t), ToPerfJson(c), ToPerfJson(f);
      ParseExpr(t, 0, [If] + (ct + ([Else] + (ft + ([Close] + k)))));
      ParseExpr(c, 0, [Else] + (ft + ([Close] + k)));
      ParseExpr(f, 0, [Close] + k);
      SelectText(tt, ct, ft, Printed(t), Printed(c), Printed(f), k);
    case Function(fn, x, None) =>
      ParseExpr(x, 0, [Close] + k);
      CallText(fn, ToPerfJson(x), Printed(x), k);
    case Function(fn, x, Some(y)) =>
      ParseExpr(x, 0, [Comma] + (ToPerfJson(y) + ([Close] + k)));
      ParseExpr(y, 0, [Close] + k);
      CallText2(fn, ToPerfJson(x), ToPerfJson(y), Printed(x), Printed(y), k);
    case Event(n) => assert (ToPerfJson(e) + k)[1..] == k;
    case Constant(v) => assert (ToPerfJson(e) + k)[1..] == k;
    case Literal(t) => assert (ToPerfJson(e) + k)[1..] == k;
  }

  /** Printing then parsing gives the tree back, up to the '/' that is printed as '@'. */
  lemma PrintParse(e: Expr)
    ensures ParseAll(ToPerfJson(e)) == Some(Printed(e))
  {
    ParseExpr(e, 0, []);
    assert ToPerfJson(e) + [] == ToPerfJson(e);
  }

  /** Two trees are printed alike only if they are the same tree up to '/' and '@'. */
  lemma PrintIsUnambiguous(a: Expr, b: Expr)
    ensures ToPerfJson(a) == ToPerfJson(b) ==> Printed(a) == Printed(b)
  {
    PrintParse(a);
    PrintParse(b);
  }

  predicate SlashFree(e: Expr) {
    match e
    case Operator(_, l, r) => SlashFree(l) && SlashFree(r)
    case Select(t, c, f) => SlashFree(t) && SlashFree(c) && SlashFree(f)
    case Function(_, x, y) => SlashFree(x) && (y.Some? ==> SlashFree(y.value))
    case Event(n) => '/' !in n
    case _ => true
  }

  /** The round trip is the identity exactly on trees without '/' in event names. */
  lemma {:induction false} RoundTripIsIdentity(e: Expr)
    ensures ParseAll(ToPerfJson(e)) == Some(e) <==> SlashFree(e)
  {
    PrintParse(e);
    PrintedIsIdentity(e);
  }

  lemma {:induction false} PrintedIsIdentity(e: Expr)
    ensures Printed(e) == e <==> SlashFree(e)
  {
    match e
    case Operator(_, l, r) => PrintedIsIdentity(l); PrintedIsIdentity(r);
    case Select(t, c, f) => PrintedIsIdentity(t); PrintedIsIdentity(c); PrintedIsIdentity(f);
    case Function(_, x, y) =>
      PrintedIsIdentity(x);
      if y.Some? { PrintedIsIdentity(y.value); }
    case Event(n) =>
      if '/' in n {
        var i :| 0 <= i < |n| && n[i] == '/';
        assert AtSigns(n)[i] != n[i];
      } else {
        assert AtSigns(n) == n;
      }
    case _ =>
  }

  // ----- No bracket is superfluous

  /** How many brackets an operand needs where operators of precedence `p` or higher are read. */
  function Brackets(e: Expr, p: nat): nat {
    if e.Operator? && Prec(e.op) < p then 2 else 0
  }

  /** The length of the shortest text for `e` in such a place. */
  function TextLen(e: Expr, p: nat): nat {
    |ToPerfJson(e)| + Brackets(e, p)
  }

  /** The operand was read from `used` tokens, and `ts` follows; an operator in it is not to be extended. */
  predicate Paid(used: nat, e: Expr, p: nat, ts: seq<Token>) {
    || used >= TextLen(e, 6)
    || (used >= |ToPerfJson(e)| && e.Operator? && Prec(e.op) >= p
        && (ts != [] && ts[0].Sign? ==> Prec(ts[0].op) <= Prec(e.op)))
  }

  lemma {:induction false} RestStops(p: nat, lhs: Expr, ts: seq<Token>)
    ensures var r := ParseRest(p, lhs, ts);
            r.Some? && r.value.1 != [] && r.value.1[0].Sign? ==> Prec(r.value.1[0].op) < p
    decreases |ts|
  {
    if ts != [] && ts[0].Sign? && Prec(ts[0].op) >= p {
      var rhs := ParseBinary(Prec(ts[0].op) + 1, ts[1..]);
      if rhs.Some? { RestStops(p, Operator(ts[0].op, lhs, rhs.value.0), rhs.value.1); }
    }
  }

  /** What is read from tokens is never printed with more of them. */
  lemma {:induction false} PrimaryPays(ts: seq<Token>)
    requires ParsePrimary(ts).Some?
    ensures var (e, k) := ParsePrimary(ts).value; |ts| - |k| >= TextLen(e, 6)
    decreases |ts|, 0
  {
    match ts[0]
    case Ident(n) =>
      if |ts| > 1 && ts[1] == Open {
        var x := ParseBinary(0, ts[2..]);
        BinaryPays(0, ts[2..]);
        if Expect(Close, x).None? { BinaryPays(0, x.value.1[1..]); }
      }
    case Open =>
      var t := ParseBinary(0, ts[1..]);
      BinaryPays(0, ts[1..]);
      if Expect(Close, t).None? {
        var c := Expect(Else, ParseBinary(0, t.value.1[1..]));
        BinaryPays(0, t.value.1[1..]);
        BinaryPays(0, c.value.1);
      }
    case _ =>
  }

  lemma {:induction false} BinaryPays(p: nat, ts: seq<Token>)
    requires p <= 6 && ParseBinary(p, ts).Some?
    ensures var (e, k) := ParseBinary(p, ts).value; |ts| - |k| >= TextLen(e, p)
    decreases |ts|, 2
  {
    var (x, k) := ParsePrimary(ts).value;
    PrimaryPays(ts);
    RestPays(p, x, k, |ts| - |k|);
  }

  lemma {:induction false} RestPays(p: nat, lhs: Expr, ts: seq<Token>, used: nat)
    requires p <= 6 && ParseRest(p, lhs, ts).Some? && Paid(used, lhs, p, ts)
    ensures var (e, k) := ParseRest(p, lhs, ts).value; used + |ts| - |k| >= TextLen(e, p)
    decreases |ts|, 1
  {
    if ts != [] && ts[0].Sign? && Prec(ts[0].op) >= p {
      var op := ts[0].op;
      var (r, k) := ParseBinary(Prec(op) + 1, ts[1..]).value;
      BinaryPays(Prec(op) + 1, ts[1..]);
      var (x, rest) := ParsePrimary(ts[1..]).value;
      RestStops(Prec(op) + 1, x, rest);
      RestPays(p, Operator(op, lhs, r), k, used + |ts| - |k|);
    }
  }

  lemma {:induction false} PrintedLength(e: Expr)
    ensures |ToPerfJson(Printed(e))| == |ToPerfJson(e)|
  {
    match e
    case Operator(_, l, r) => PrintedLength(l); PrintedLength(r);
    case Select(t, c, f) => PrintedLength(t); PrintedLength(c); PrintedLength(f);
    case Function(_, x, y) =>
      PrintedLength(x);
      if y.Some? { PrintedLength(y.value); }
    case _ =>
  }

  /** No text of the grammar that means the same tree is shorter than the printed one. */
  lemma PrintIsShortest(e: Expr, ts: seq<Token>)
    requires ParseAll(ts) == Some(Printed(e))
    ensures |ToPerfJson(e)| <= |ts|
  {
    BinaryPays(0, ts);
    PrintedLength(e);
  }

  /** Leaving out any bracket, at any depth, gives a text that means another tree or none. */
  lemma BracketsAreNeeded(e: Expr, before: seq<Token>, inside: seq<Token>, after: seq<Token>)
    requires ToPerfJson(e) == before + [Open] + inside + [Close] + after
    ensures ParseAll(before + inside + after) != Some(Printed(e))
  {
    var ts := before + inside + after;
    if ParseAll(ts) == Some(Printed(e)) { PrintIsShortest(e, ts); }
  }
}
