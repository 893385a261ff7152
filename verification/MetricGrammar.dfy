/** The expression grammar of metrics, one nonterminal for each level of operators (metric.py). */
module MetricGrammar {
  import opened Options
  import opened MetricExpr
  import opened MetricPrint

  // ----- The grammar, lowest precedence first; all operators associate to the left

  ghost predicate OrText(ts: seq<Token>, e: Expr)
    decreases |ts|, 6
  {
    || XorText(ts, e)
    || (e.Operator? && e.op == Or &&
        exists l, r :: ts == l + [Sign(e.op)] + r && OrText(l, e.lhs) && XorText(r, e.rhs))
  }

  ghost predicate XorText(ts: seq<Token>, e: Expr)
    decreases |ts|, 5
  {
    || AndText(ts, e)
    || (e.Operator? && e.op == Xor &&
        exists l, r :: ts == l + [Sign(e.op)] + r && XorText(l, e.lhs) && AndText(r, e.rhs))
  }

  ghost predicate AndText(ts: seq<Token>, e: Expr)
    decreases |ts|, 4
  {
    || CompareText(ts, e)
    || (e.Operator? && e.op == And &&
        exists l, r :: ts == l + [Sign(e.op)] + r && AndText(l, e.lhs) && CompareText(r, e.rhs))
  }

  ghost predicate CompareText(ts: seq<Token>, e: Expr)
    decreases |ts|, 3
  {
    || SumText(ts, e)
    || (e.Operator? && e.op in {Lt, Gt} &&
        exists l, r :: ts == l + [Sign(e.op)] + r && CompareText(l, e.lhs) && SumText(r, e.rhs))
  }

  ghost predicate SumText(ts: seq<Token>, e: Expr)
    decreases |ts|, 2
  {
    || ProductText(ts, e)
    || (e.Operator? && e.op in {Add, Sub} &&
        exists l, r :: ts == l + [Sign(e.op)] + r && SumText(l, e.lhs) && ProductText(r, e.rhs))
  }

  ghost predicate ProductText(ts: seq<Token>, e: Expr)
    decreases |ts|, 1
  {
    || PrimaryText(ts, e)
    || (e.Operator? && e.op in {Mul, Div, Mod} &&
        exists l, r :: ts == l + [Sign(e.op)] + r && ProductText(l, e.lhs) && PrimaryText(r, e.rhs))
  }

  /** A bracketed expression, `(t if c else f)`, `f(x)`, `f(x, y)` or a leaf. */
  ghost predicate PrimaryText(ts: seq<Token>, e: Expr)
    decreases |ts|, 0
  {
    || (exists u :: ts == [Open] + u + [Close] && OrText(u, e))
    || match e
       case Select(t, c, f) =>
         exists tt, ct, ft :: ts == [Open] + tt + [If] + ct + [Else] + ft + [Close]
           && OrText(tt, t) && OrText(ct, c) && OrText(ft, f)
       case Function(fn, x, None) => exists xt :: ts == [Ident(fn), Open] + xt + [] + [Close] && OrText(xt, x)
       case Function(fn, x, Some(y)) =>
         exists xt, yt :: ts == [Ident(fn), Open] + xt + ([Comma] + yt) + [Close] && OrText(xt, x) && OrText(yt, y)
       case Event(n) => ts == [Ident(n)]
       case Constant(v) => ts == [Number(v)]
       case Literal(t) => ts == [Hash(t)]
       case Operator(_, _, _) => false
  }

  // ----- The levels by number

  ghost predicate LevelText(n: nat, ts: seq<Token>, e: Expr) {
    if n == 0 then OrText(ts, e)
    else if n == 1 then XorText(ts, e)
    else if n == 2 then AndText(ts, e)
    else if n == 3 then CompareText(ts, e)
    else if n == 4 then SumText(ts, e)
    else if n == 5 then ProductText(ts, e)
    else PrimaryText(ts, e)
  }

  ghost predicate BinaryText(n: nat, ts: seq<Token>, e: Expr, l: seq<Token>, r: seq<Token>) {
    e.Operator? && ts == l + [Sign(e.op)] + r && LevelText(n, l, e.lhs) && LevelText(n + 1, r, e.rhs)
  }

  /** Each level has the operators of its precedence. */
  lemma LevelHasOperators(n: nat, ts: seq<Token>, e: Expr)
    requires n < 6
    ensures LevelText(n, ts, e) <==>
              LevelText(n + 1, ts, e) || (e.Operator? && Prec(e.op) == n && exists l, r :: BinaryText(n, ts, e, l, r))
  {
    hide PrimaryText;
    if e.Operator? && Prec(e.op) == n && exists l, r :: BinaryText(n, ts, e, l, r) {
      var l, r :| BinaryText(n, ts, e, l, r);
      LevelOfBinary(n, ts, e, l, r);
    }
    if LevelText(n, ts, e) && !LevelText(n + 1, ts, e) {
      var l, r := PartsOfBinary(n, ts, e);
    }
  }

  lemma LevelOfBinary(n: nat, ts: seq<Token>, e: Expr, l: seq<Token>, r: seq<Token>)
    requires n < 6 && BinaryText(n, ts, e, l, r) && Prec(e.op) == n
    ensures LevelText(n, ts, e)
  {
    hide PrimaryText;
  }

  lemma PartsOfBinary(n: nat, ts: seq<Token>, e: Expr) returns (l: seq<Token>, r: seq<Token>)
    requires n < 6 && LevelText(n, ts, e) && !LevelText(n + 1, ts, e)
    ensures e.Operator? && Prec(e.op) == n && BinaryText(n, ts, e, l, r)
  {
    hide PrimaryText;
    match n
    case 0 =>
      assert OrText(ts, e);
      l, r :| ts == l + [Sign(e.op)] + r && OrText(l, e.lhs) && XorText(r, e.rhs);
    case 1 =>
      assert XorText(ts, e);
      l, r :| ts == l + [Sign(e.op)] + r && XorText(l, e.lhs) && AndText(r, e.rhs);
    case 2 =>
      assert AndText(ts, e);
      l, r :| ts == l + [Sign(e.op)] + r && AndText(l, e.lhs) && CompareText(r, e.rhs);
    case 3 =>
      assert CompareText(ts, e);
      l, r :| ts == l + [Sign(e.op)] + r && CompareText(l, e.lhs) && SumText(r, e.rhs);
    case 4 =>
      assert SumText(ts, e);
      l, r :| ts == l + [Sign(e.op)] + r && SumText(l, e.lhs) && ProductText(r, e.rhs);
    case _ =>
      assert ProductText(ts, e);
      l, r :| ts == l + [Sign(e.op)] + r && ProductText(l, e.lhs) && PrimaryText(r, e.rhs);
  }

  /** What a higher level reads, the lower levels read. */
  lemma {:induction false} LowerLevels(n: nat, p: nat, ts: seq<Token>, e: Expr)
    requires p <= n <= 6 && LevelText(n, ts, e)
    ensures LevelText(p, ts, e)
    decreases n
  {
    if n == p {
    } else {
      LevelHasOperators(n - 1, ts, e);
      LowerLevels(n - 1, p, ts, e);
    }
  }

  // ----- The parser reads what the grammar allows

  predicate Stops(k: seq<Token>, n: nat) {
    k != [] ==> k[0] != Open && (k[0].Sign? ==> Prec(k[0].op) <= n)
  }

  lemma {:induction false} TextIsParsed(n: nat, u: seq<Token>, e: Expr, p: nat, k: seq<Token>)
    requires p <= n <= 6 && LevelText(n, u, e) && Stops(k, n)
    ensures ParseBinary(p, u + k) == ParseRest(p, e, k)
    decreases |u|, 7 - n
  {
    hide ParseBinary, ParseRest, ParsePrimary, PrimaryText;
    if n == 6 {
      PrimaryIsParsed(u, e, k);
      AfterPrimary(p, u + k, e, k);
    } else if LevelText(n + 1, u, e) {
      TextIsParsed(n + 1, u, e, p, k);
    } else {
      var l, r := PartsOfBinary(n, u, e);
      TextIsParsed(n, l, e.lhs, p, [Sign(e.op)] + (r + k));
      TextIsParsed(n + 1, r, e.rhs, n + 1, k);
      OperatorText(p, e.op, l, r, e.lhs, e.rhs, k);
    }
  }

  lemma AfterPrimary(p: nat, ts: seq<Token>, e: Expr, k: seq<Token>)
    requires ParsePrimary(ts) == Some((e, k))
    ensures ParseBinary(p, ts) == ParseRest(p, e, k)
  {
  }

  lemma WholeIsParsed(u: seq<Token>, e: Expr, k: seq<Token>)
    requires ParseBinary(0, u + k) == ParseRest(0, e, k) && k != [] && !k[0].Sign?
    ensures ParseBinary(0, u + k) == Some((e, k))
  {
    hide ParseBinary;
  }

  lemma {:induction false} PrimaryIsParsed(u: seq<Token>, e: Expr, k: seq<Token>)
    requires PrimaryText(u, e) && (k != [] ==> k[0] != Open)
    ensures ParsePrimary(u + k) == Some((e, k))
    decreases |u|, 0
  {
    hide OrText, ParseBinary, ParseRest, ParsePrimary;
    if v :| u == [Open] + v + [Close] && OrText(v, e) {
      PartIsParsed(v, e, [Close] + k);
      BracketedText(v, e, k);
    } else {
      match e
      case Select(t, c, f) =>
        var tt, ct, ft :| u == [Open] + tt + [If] + ct + [Else] + ft + [Close]
          && OrText(tt, t) && OrText(ct, c) && OrText(ft, f);
        PartIsParsed(tt, t, [If] + (ct + ([Else] + (ft + ([Close] + k)))));
        PartIsParsed(ct, c, [Else] + (ft + ([Close] + k)));
        PartIsParsed(ft, f, [Close] + k);
        SelectText(tt, ct, ft, t, c, f, k);
      case Function(fn, x, None) =>
        var xt :| u == [Ident(fn), Open] + xt + [] + [Close] && OrText(xt, x);
        PartIsParsed(xt, x, [Close] + k);
        CallText(fn, xt, x, k);
      case Function(fn, x, Some(y)) =>
        var xt, yt :| u == [Ident(fn), Open] + xt + ([Comma] + yt) + [Close] && OrText(xt, x) && OrText(yt, y);
        PartIsParsed(xt, x, [Comma] + (yt + ([Close] + k)));
        PartIsParsed(yt, y, [Close] + k);
        CallText2(fn, xt, yt, x, y, k);
      case _ => LeafIsParsed(u, e, k);
    }
  }

  lemma {:induction false} PartIsParsed(u: seq<Token>, e: Expr, k: seq<Token>)
    requires OrText(u, e) && k != [] && !k[0].Sign? && k[0] != Open
    ensures ParseBinary(0, u + k) == Some((e, k))
    decreases |u|, 8
  {
    hide OrText, ParseBinary, ParseRest;
    TextIsParsed(0, u, e, 0, k);
    WholeIsParsed(u, e, k);
  }

  lemma BracketedText(v: seq<Token>, e: Expr, k: seq<Token>)
    requires ParseBinary(0, v + ([Close] + k)) == Some((e, [Close] + k))
    ensures ParsePrimary([Open] + v + [Close] + k) == Some((e, k))
  {
    hide ParseBinary;
    var ts, k1 := [Open] + v + [Close] + k, [Close] + k;
    assert ts[1..] == v + k1;
    assert k1[1..] == k;
  }

  lemma LeafIsParsed(u: seq<Token>, e: Expr, k: seq<Token>)
    requires |u| == 1 && (k != [] ==> k[0] != Open)
    requires match e
             case Event(n) => u == [Ident(n)]
             case Constant(v) => u == [Number(v)]
             case Literal(t) => u == [Hash(t)]
             case _ => false
    ensures ParsePrimary(u + k) == Some((e, k))
  {
    assert (u + k)[1..] == k;
  }

  // ----- The grammar allows what the parser reads

  lemma {:induction false} PrimaryIsText(ts: seq<Token>) returns (u: seq<Token>)
    requires ParsePrimary(ts).Some?
    ensures var (e, k) := ParsePrimary(ts).value; ts == u + k && PrimaryText(u, e)
    decreases |ts|, 1
  {
    hide OrText, PrimaryText, ParseBinary;
    if ts[0] == Open {
      u := OpenIsText(ts);
    } else if ts[0].Ident? && |ts| > 1 && ts[1] == Open {
      u := FunctionIsText(ts);
    } else {
      u := [ts[0]];
      assert ts == [ts[0]] + ts[1..];
      LeafIsText(u, ParsePrimary(ts).value.0);
    }
  }

  lemma {:induction false} FunctionIsText(ts: seq<Token>) returns (u: seq<Token>)
    requires ParsePrimary(ts).Some? && |ts| > 1 && ts[0].Ident? && ts[1] == Open
    ensures var (e, k) := ParsePrimary(ts).value; ts == u + k && PrimaryText(u, e)
    decreases |ts|, 0
  {
    hide OrText, PrimaryText, ParseBinary;
    var n := ts[0].name;
    var (x, rest) := ParseBinary(0, ts[2..]).value;
    var xt := BinaryIsText(0, ts[2..]);
    assert ts == [Ident(n), Open] + (xt + rest);
    assert rest == [rest[0]] + rest[1..];
    if rest[0] == Close {
      u := [Ident(n), Open] + xt + [] + [Close];
      CallIsText(n, xt, x);
    } else {
      var (y, k) := ParseBinary(0, rest[1..]).value;
      var yt := BinaryIsText(0, rest[1..]);
      assert k == [Close] + k[1..];
      u := [Ident(n), Open] + xt + ([Comma] + yt) + [Close];
      Call2IsText(n, xt, yt, x, y);
      JoinCall2(Ident(n), xt, yt, k[1..]);
    }
  }

  lemma JoinCall2(fn: Token, xt: seq<Token>, yt: seq<Token>, k: seq<Token>)
    ensures [fn, Open] + (xt + ([Comma] + (yt + ([Close] + k)))) == [fn, Open] + xt + ([Comma] + yt) + [Close] + k
  {
  }

  lemma {:induction false} OpenIsText(ts: seq<Token>) returns (u: seq<Token>)
    requires ParsePrimary(ts).Some? && ts[0] == Open
    ensures var (e, k) := ParsePrimary(ts).value; ts == u + k && PrimaryText(u, e)
    decreases |ts|, 0
  {
    hide OrText, PrimaryText, ParseBinary;
    var (t, rest) := ParseBinary(0, ts[1..]).value;
    var tt := BinaryIsText(0, ts[1..]);
    assert ts == [Open] + (tt + rest);
    assert rest == [rest[0]] + rest[1..];
    if rest[0] == Close {
      u := [Open] + tt + [Close];
      BracketIsText(tt, t);
    } else {
      var (c, more) := ParseBinary(0, rest[1..]).value;
      var ct := BinaryIsText(0, rest[1..]);
      assert more == [Else] + more[1..];
      var (f, k) := ParseBinary(0, more[1..]).value;
      var ft := BinaryIsText(0, more[1..]);
      assert k == [Close] + k[1..];
      u := [Open] + tt + [If] + ct + [Else] + ft + [Close];
      SelectIsText(tt, ct, ft, t, c, f);
      JoinSelect(tt, ct, ft, k[1..]);
    }
  }

  lemma JoinSelect(tt: seq<Token>, ct: seq<Token>, ft: seq<Token>, k: seq<Token>)
    ensures [Open] + (tt + ([If] + (ct + ([Else] + (ft + ([Close] + k))))))
            == [Open] + tt + [If] + ct + [Else] + ft + [Close] + k
  {
  }

  lemma LeafIsText(u: seq<Token>, e: Expr)
    requires match e
             case Event(n) => u == [Ident(n)]
             case Constant(v) => u == [Number(v)]
             case Literal(t) => u == [Hash(t)]
             case _ => false
    ensures PrimaryText(u, e)
  {
  }

  lemma BracketIsText(tt: seq<Token>, t: Expr)
    requires OrText(tt, t)
    ensures PrimaryText([Open] + tt + [Close], t)
  {
    hide OrText;
  }

  lemma SelectIsText(tt: seq<Token>, ct: seq<Token>, ft: seq<Token>, t: Expr, c: Expr, f: Expr)
    requires OrText(tt, t) && OrText(ct, c) && OrText(ft, f)
    ensures PrimaryText([Open] + tt + [If] + ct + [Else] + ft + [Close], Select(t, c, f))
  {
    hide OrText;
  }

  lemma CallIsText(fn: string, xt: seq<Token>, x: Expr)
    requires OrText(xt, x)
    ensures PrimaryText([Ident(fn), Open] + xt + [] + [Close], Function(fn, x, None))
  {
    hide OrText;
  }

  lemma Call2IsText(fn: string, xt: seq<Token>, yt: seq<Token>, x: Expr, y: Expr)
    requires OrText(xt, x) && OrText(yt, y)
    ensures PrimaryText([Ident(fn), Open] + xt + ([Comma] + yt) + [Close], Function(fn, x, Some(y)))
  {
    hide OrText;
  }

  lemma {:induction false} BinaryIsText(p: nat, ts: seq<Token>) returns (u: seq<Token>)
    requires p <= 6 && ParseBinary(p, ts).Some?
    ensures var (e, k) := ParseBinary(p, ts).value; ts == u + k && LevelText(p, u, e)
    decreases |ts|, 3
  {
    hide PrimaryText, ParsePrimary, ParseRest;
    var (x, k) := ParsePrimary(ts).value;
    var first := PrimaryIsText(ts);
    var more := RestIsText(p, 6, first, x, k);
    u := first + more;
  }

  /** `lhs` was read from `first` at level `m`, and the next operator is not of a higher level. */
  lemma {:induction false} RestIsText(p: nat, m: nat, first: seq<Token>, lhs: Expr, ts: seq<Token>)
    returns (more: seq<Token>)
    requires p <= m <= 6 && LevelText(m, first, lhs) && ParseRest(p, lhs, ts).Some?
    requires ts != [] && ts[0].Sign? ==> Prec(ts[0].op) <= m
    ensures var (e, k) := ParseRest(p, lhs, ts).value; ts == more + k && LevelText(p, first + more, e)
    decreases |ts|, 2
  {
    hide LevelText, ParseBinary, BinaryText;
    if ts != [] && ts[0].Sign? && Prec(ts[0].op) >= p {
      var op := ts[0].op;
      var q := Prec(op);
      var (r, k) := ParseBinary(q + 1, ts[1..]).value;
      var right := BinaryIsText(q + 1, ts[1..]);
      NextStops(q + 1, ts[1..]);
      LowerLevels(m, q, first, lhs);
      BinaryOfLevel(op, first, right, lhs, r);
      var both := first + [Sign(op)] + right;
      var rest := RestIsText(p, q, both, Operator(op, lhs, r), k);
      more := [Sign(op)] + right + rest;
      assert ts == [Sign(op)] + ts[1..];
      JoinRest(first, [Sign(op)], right, rest, ParseRest(p, lhs, ts).value.1);
    } else {
      more := [];
      assert first + [] == first;
      LowerLevels(m, p, first, lhs);
    }
  }

  lemma JoinRest(a: seq<Token>, b: seq<Token>, c: seq<Token>, d: seq<Token>, k: seq<Token>)
    ensures a + (b + c + d) == (a + b + c) + d
    ensures b + (c + (d + k)) == b + c + d + k
  {
  }

  lemma BinaryOfLevel(op: BinOp, left: seq<Token>, right: seq<Token>, l: Expr, r: Expr)
    requires LevelText(Prec(op), left, l) && LevelText(Prec(op) + 1, right, r)
    ensures LevelText(Prec(op), left + [Sign(op)] + right, Operator(op, l, r))
  {
    hide LevelText;
    LevelOfBinary(Prec(op), left + [Sign(op)] + right, Operator(op, l, r), left, right);
  }

  lemma NextStops(p: nat, ts: seq<Token>)
    requires ParseBinary(p, ts).Some?
    ensures var k := ParseBinary(p, ts).value.1; k != [] && k[0].Sign? ==> Prec(k[0].op) < p
  {
    var (x, rest) := ParsePrimary(ts).value;
    RestStops(p, x, rest);
  }

  // ----- Both together

  /** The parser reads exactly the texts of the grammar, and each as the one tree that it stands for. */
  lemma ParserIsGrammar(ts: seq<Token>, e: Expr)
    ensures ParseAll(ts) == Some(e) <==> OrText(ts, e)
  {
    hide OrText, ParseBinary;
    if OrText(ts, e) {
      TextIsParsed(0, ts, e, 0, []);
      assert ts + [] == ts;
    }
    if ParseAll(ts) == Some(e) {
      var u := BinaryIsText(0, ts);
      assert u + [] == u;
    }
  }

  /** The printed text of every tree is a text of the grammar for it. */
  lemma PrintedTextIsGrammatical(e: Expr)
    ensures OrText(ToPerfJson(e), Printed(e))
  {
    PrintParse(e);
    ParserIsGrammar(ToPerfJson(e), Printed(e));
  }

  /** And for no other tree. */
  lemma PrintedTextMeansOneTree(e: Expr, other: Expr)
    ensures OrText(ToPerfJson(e), other) <==> other == Printed(e)
  {
    PrintParse(e);
    ParserIsGrammar(ToPerfJson(e), other);
  }
}
