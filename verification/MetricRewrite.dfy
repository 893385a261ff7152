/** `RewriteMetricsInTermsOfOthers` (metric.py): shortening metrics by references to other metrics. */
module MetricRewrite {
  import opened Options
  import opened MetricExpr

  datatype Metric = Metric(pmu: Option<string>, name: string, expr: Expr)

  /** Keys of the result: a pmu and a metric name, as spelled in the list. */
  type Updates = map<(string, string), Expr>

  /** What a reference resolves to: names and pmus are compared ignoring case. */
  type Id = (string, string)

  function PmuOf(m: Metric): string {
    if m.pmu.Some? then m.pmu.value else "cpu"
  }

  function KeyOf(m: Metric): (string, string) { (PmuOf(m), m.name) }

  function IdOf(m: Metric): Id { (Lower(PmuOf(m)), Lower(m.name)) }

  /** The definition of a metric at this point of the run. */
  function Current(m: Metric, updates: Updates): Expr {
    if KeyOf(m) in updates then updates[KeyOf(m)] else m.expr
  }

  predicate MayFold(inner: Metric, outer: Metric) {
    IdOf(inner).0 == IdOf(outer).0 && IdOf(inner).1 != IdOf(outer).1
  }

  // ----- Names

  /** The pmus are the same up to the case of letters; a metric without one is of the pmu `cpu`. */
  predicate SamePmu(a: Option<string>, b: Option<string>) {
    SameIgnoringCase(if a.Some? then a.value else "cpu", if b.Some? then b.value else "cpu")
  }

  lemma IdsAreNames(a: Metric, b: Metric)
    ensures IdOf(a).0 == IdOf(b).0 <==> SamePmu(a.pmu, b.pmu)
    ensures IdOf(a).1 == IdOf(b).1 <==> SameIgnoringCase(a.name, b.name)
  {
    LowerIgnoresCase(PmuOf(a), PmuOf(b));
    LowerIgnoresCase(a.name, b.name);
  }

  /** A metric is folded into another one exactly if their pmus are the same and their names are not. */
  lemma FoldsWithinPmu(inner: Metric, outer: Metric)
    ensures MayFold(inner, outer) <==> SamePmu(inner.pmu, outer.pmu) && !SameIgnoringCase(inner.name, outer.name)
  {
    IdsAreNames(inner, outer);
  }

  /** The definition of a metric in the result: the one stored for its pmu and its name as spelled, or its own. */
  lemma DefinitionInResult(m: Metric, updates: Updates)
    ensures var key := (if m.pmu.Some? then m.pmu.value else "cpu", m.name);
            Current(m, updates) == if key in updates then updates[key] else m.expr
  {
  }

  // ----- The run as functions

  function FoldOne(inner: Metric, updates: Updates, outer: Metric, e: Expr): Expr {
    if MayFold(inner, outer) then Substitute(e, inner.name, Current(inner, updates)) else e
  }

  /** One pass of the inner loop, from the metric at index `k` on. */
  function Pass(metrics: seq<Metric>, updates: Updates, outer: Metric, e: Expr, k: nat): Expr
    requires k <= |metrics|
    decreases |metrics| - k
  {
    if k == |metrics| then e
    else Pass(metrics, updates, outer, FoldOne(metrics[k], updates, outer, e), k + 1)
  }

  lemma {:induction false} PassShrinks(metrics: seq<Metric>, updates: Updates, outer: Metric, e: Expr, k: nat)
    requires k <= |metrics|
    ensures var next := Pass(metrics, updates, outer, e, k); next == e || Size(next) < Size(e)
    ensures Pass(metrics, updates, outer, e, k) == e ==>
              forall i :: k <= i < |metrics| && MayFold(metrics[i], outer) ==> !Occurs(e, Current(metrics[i], updates))
    decreases |metrics| - k
  {
    if k == |metrics| {
    } else {
      var inner := metrics[k];
      SubstituteShrinks(e, inner.name, Current(inner, updates));
      PassShrinks(metrics, updates, outer, FoldOne(inner, updates, outer, e), k + 1);
    }
  }

  /** The tree a pass starts from is the listed one or the one the pass before stored. */
  predicate AtPassStart(updates: Updates, outer: Metric, e: Expr) {
    e == outer.expr || (KeyOf(outer) in updates && e == updates[KeyOf(outer)])
  }

  predicate Settled(updates: Updates, outer: Metric, next: Expr) {
    Equals(next, outer.expr) || (KeyOf(outer) in updates && Equals(next, updates[KeyOf(outer)]))
  }

  /** A pass that does not end the loop strictly shrinks the tree: the measure of the unbounded loop. */
  lemma UnsettledPassShrinks(metrics: seq<Metric>, updates: Updates, outer: Metric, e: Expr)
    requires AtPassStart(updates, outer, e)
    ensures var next := Pass(metrics, updates, outer, e, 0);
            Settled(updates, outer, next) || Size(next) < Size(e)
  {
    PassShrinks(metrics, updates, outer, e, 0);
    EqualsReflexive(e);
  }

  /** The unbounded loop for one metric. */
  function Settle(metrics: seq<Metric>, updates: Updates, outer: Metric, e: Expr): Updates
    requires AtPassStart(updates, outer, e)
    decreases Size(e)
  {
    var next := Pass(metrics, updates, outer, e, 0);
    UnsettledPassShrinks(metrics, updates, outer, e);
    if Settled(updates, outer, next) then updates
    else Settle(metrics, updates[KeyOf(outer) := next], outer, next)
  }

  function PassCount(metrics: seq<Metric>, updates: Updates, outer: Metric, e: Expr): nat
    requires AtPassStart(updates, outer, e)
    decreases Size(e)
  {
    var next := Pass(metrics, updates, outer, e, 0);
    UnsettledPassShrinks(metrics, updates, outer, e);
    if Settled(updates, outer, next) then 1
    else 1 + PassCount(metrics, updates[KeyOf(outer) := next], outer, next)
  }

  /** Any metric list, with duplicates or not: no metric takes more passes than its tree has nodes. */
  lemma {:induction false} PassCountBounded(metrics: seq<Metric>, updates: Updates, outer: Metric, e: Expr)
    requires AtPassStart(updates, outer, e)
    ensures PassCount(metrics, updates, outer, e) <= Size(e)
    decreases Size(e)
  {
    var next := Pass(metrics, updates, outer, e, 0);
    UnsettledPassShrinks(metrics, updates, outer, e);
    if Settled(updates, outer, next) {
    } else {
      PassCountBounded(metrics, updates[KeyOf(outer) := next], outer, next);
    }
  }

  function RewriteFrom(metrics: seq<Metric>, updates: Updates, o: nat): Updates
    requires o <= |metrics|
    decreases |metrics| - o
  {
    if o == |metrics| then updates
    else RewriteFrom(metrics, Settle(metrics, updates, metrics[o], metrics[o].expr), o + 1)
  }

  function Rewritten(metrics: seq<Metric>): Updates {
    RewriteFrom(metrics, map[], 0)
  }

  /** The nested loops, for every metric list. */
  method RewriteMetricsInTermsOfOthers(metrics: seq<Metric>) returns (updates: Updates)
    ensures updates == Rewritten(metrics)
  {
    updates := map[];
    for o := 0 to |metrics|
      invariant RewriteFrom(metrics, updates, o) == Rewritten(metrics)
    {
      var outer := metrics[o];
      var updated := outer.expr;
      ghost var settled := Settle(metrics, updates, outer, updated);
      while true
        invariant AtPassStart(updates, outer, updated)
        invariant Settle(metrics, updates, outer, updated) == settled
        decreases Size(updated)
      {
        ghost var start := updated;
        for i := 0 to |metrics|
          invariant Pass(metrics, updates, outer, updated, i) == Pass(metrics, updates, outer, start, 0)
        {
          updated := FoldOne(metrics[i], updates, outer, updated);
        }
        UnsettledPassShrinks(metrics, updates, outer, start);
        if Equals(updated, outer.expr) {
          break;
        }
        if KeyOf(outer) in updates && Equals(updated, updates[KeyOf(outer)]) {
          break;
        }
        updates := updates[KeyOf(outer) := updated];
      }
    }
  }

  // ----- Reference graph and full inlining

  /** The definitions in force, by identity of the metric. */
  function Defs(metrics: seq<Metric>, updates: Updates): map<Id, Expr> {
    if metrics == [] then map[]
    else
      var last := metrics[|metrics| - 1];
      Defs(metrics[..|metrics| - 1], updates)[IdOf(last) := Current(last, updates)]
  }

  /** The names referred to by a tree. */
  function Refs(e: Expr): set<string> {
    match e
    case Operator(_, l, r) => Refs(l) + Refs(r)
    case Select(t, c, f) => Refs(t) + Refs(c) + Refs(f)
    case Function(_, x, y) => Refs(x) + (if y.Some? then Refs(y.value) else {})
    case Event(n) => {Lower(n)}
    case _ => {}
  }

  /** Some metric of `ids` refers to none of `ids`. */
  ghost predicate HasSink(defs: map<Id, Expr>, ids: set<Id>) {
    exists k :: k in ids && k in defs && forall n :: n in Refs(defs[k]) ==> (k.0, n) !in ids
  }

  /** No nonempty set of metrics in which each refers to another of the set. */
  ghost predicate Acyclic(defs: map<Id, Expr>) {
    forall ids {:trigger HasSink(defs, ids)} :: ids != {} && ids <= defs.Keys ==> HasSink(defs, ids)
  }

  lemma SinkOf(defs: map<Id, Expr>, ids: set<Id>) returns (k: Id)
    requires Acyclic(defs) && ids != {} && ids <= defs.Keys
    ensures k in ids && k in defs && forall n :: n in Refs(defs[k]) ==> (k.0, n) !in ids
  {
    assert HasSink(defs, ids);
    k :| k in ids && k in defs && forall n :: n in Refs(defs[k]) ==> (k.0, n) !in ids;
  }

  /** Replaces every reference made from pmu `pmu` to a metric in `trees` by the metric's tree. */
  function Expand(e: Expr, pmu: string, trees: map<Id, Expr>): Expr {
    match e
    case Operator(op, l, r) => Operator(op, Expand(l, pmu, trees), Expand(r, pmu, trees))
    case Select(t, c, f) => Select(Expand(t, pmu, trees), Expand(c, pmu, trees), Expand(f, pmu, trees))
    case Function(fn, x, y) =>
      Function(fn, Expand(x, pmu, trees), if y.Some? then Some(Expand(y.value, pmu, trees)) else None)
    case Event(n) => if (pmu, Lower(n)) in trees then trees[(pmu, Lower(n))] else e
    case _ => e
  }

  /** `trees` gives each metric its definition with all references replaced by their own `trees`. */
  ghost predicate IsInlining(defs: map<Id, Expr>, trees: map<Id, Expr>) {
    trees.Keys == defs.Keys && forall k :: k in defs ==> trees[k] == Expand(defs[k], k.0, trees)
  }

  lemma {:induction false} ExpandDependsOnRefs(e: Expr, pmu: string, t: map<Id, Expr>, u: map<Id, Expr>)
    requires forall n :: n in Refs(e) ==>
               ((pmu, n) in t <==> (pmu, n) in u) && ((pmu, n) in t ==> t[(pmu, n)] == u[(pmu, n)])
    ensures Expand(e, pmu, t) == Expand(e, pmu, u)
  {
    match e
    case Operator(_, l, r) => ExpandDependsOnRefs(l, pmu, t, u); ExpandDependsOnRefs(r, pmu, t, u);
    case Select(a, c, f) =>
      ExpandDependsOnRefs(a, pmu, t, u);
      ExpandDependsOnRefs(c, pmu, t, u);
      ExpandDependsOnRefs(f, pmu, t, u);
    case Function(_, x, y) =>
      ExpandDependsOnRefs(x, pmu, t, u);
      if y.Some? { ExpandDependsOnRefs(y.value, pmu, t, u); }
    case _ =>
  }

  /** `trees` is an inlining as far as `done`, a set closed under references. */
  ghost predicate InlinedSoFar(defs: map<Id, Expr>, done: set<Id>, trees: map<Id, Expr>) {
    && done <= defs.Keys == trees.Keys
    && (forall k, n :: k in done && n in Refs(defs[k]) && (k.0, n) in defs ==> (k.0, n) in done)
    && (forall k :: k in done ==> trees[k] == Expand(defs[k], k.0, trees))
  }

  lemma InlineOneMore(defs: map<Id, Expr>, done: set<Id>, trees: map<Id, Expr>, i: Id)
    requires InlinedSoFar(defs, done, trees)
    requires i in defs && i !in done
    requires forall n :: n in Refs(defs[i]) && (i.0, n) in defs ==> (i.0, n) in done
    ensures InlinedSoFar(defs, done + {i}, trees[i := Expand(defs[i], i.0, trees)])
  {
    var more := trees[i := Expand(defs[i], i.0, trees)];
    forall k | k in done + {i}
      ensures more[k] == Expand(defs[k], k.0, more)
    {
      ExpandDependsOnRefs(defs[k], k.0, trees, more);
    }
  }

  lemma {:induction false} ExtendInlining(defs: map<Id, Expr>, done: set<Id>, trees: map<Id, Expr>)
    returns (all: map<Id, Expr>)
    requires Acyclic(defs) && InlinedSoFar(defs, done, trees)
    ensures IsInlining(defs, all)
    decreases |defs.Keys - done|
  {
    var rest := defs.Keys - done;
    if rest == {} {
      assert done == defs.Keys;
      return trees;
    }
    var i := SinkOf(defs, rest);
    InlineOneMore(defs, done, trees, i);
    assert defs.Keys - (done + {i}) == rest - {i};
    all := ExtendInlining(defs, done + {i}, trees[i := Expand(defs[i], i.0, trees)]);
  }

  /** An acyclic set of definitions can be fully inlined ... */
  lemma InliningExists(defs: map<Id, Expr>)
    requires Acyclic(defs)
    ensures exists trees :: IsInlining(defs, trees)
  {
    var trees := ExtendInlining(defs, {}, defs);
  }

  /** ... in exactly one way. */
  lemma InliningUnique(defs: map<Id, Expr>, t: map<Id, Expr>, u: map<Id, Expr>)
    requires Acyclic(defs) && IsInlining(defs, t) && IsInlining(defs, u)
    ensures t == u
  {
    var differ := set k | k in defs && t[k] != u[k];
    if differ != {} {
      var k := SinkOf(defs, differ);
      ExpandDependsOnRefs(defs[k], k.0, t, u);
    }
    assert forall k :: k in defs ==> k !in differ;
  }

  ghost function FullyInlined(defs: map<Id, Expr>): (trees: map<Id, Expr>)
    requires Acyclic(defs)
    ensures IsInlining(defs, trees)
  {
    InliningExists(defs);
    var trees :| IsInlining(defs, trees);
    trees
  }

  /** Nothing is left to inline: no fully inlined tree refers to a metric. */
  lemma FullyInlinedHasNoReference(defs: map<Id, Expr>, k: Id)
    requires Acyclic(defs) && k in defs
    ensures forall n :: n in Refs(FullyInlined(defs)[k]) ==> (k.0, n) !in defs
  {
    var trees := FullyInlined(defs);
    var open := set i | i in defs && exists n :: n in Refs(trees[i]) && (i.0, n) in defs;
    if open != {} {
      var i := SinkOf(defs, open);
      RefsOfExpand(defs[i], i.0, trees);
    }
    assert k !in open;
  }

  lemma {:induction false} RefsOfExpand(e: Expr, pmu: string, trees: map<Id, Expr>)
    ensures forall n :: n in Refs(Expand(e, pmu, trees)) ==>
              (n in Refs(e) && (pmu, n) !in trees) ||
              exists m :: m in Refs(e) && (pmu, m) in trees && n in Refs(trees[(pmu, m)])
  {
    match e
    case Operator(_, l, r) => RefsOfExpand(l, pmu, trees); RefsOfExpand(r, pmu, trees);
    case Select(a, c, f) => RefsOfExpand(a, pmu, trees); RefsOfExpand(c, pmu, trees); RefsOfExpand(f, pmu, trees);
    case Function(_, x, y) =>
      RefsOfExpand(x, pmu, trees);
      if y.Some? { RefsOfExpand(y.value, pmu, trees); }
    case _ =>
  }

  // ----- One substitution

  lemma {:induction false} SubstituteRefs(e: Expr, name: string, target: Expr, binary: set<string>)
    requires FixedArity(e, binary) && FixedArity(target, binary)
    ensures Refs(Substitute(e, name, target)) <= Refs(e) + Refs(MakeEvent(name))
    ensures Occurs(e, target) ==> Refs(target) <= Refs(e)
  {
    EqualsIsIdentity(e, target, binary);
    match e
    case Operator(_, l, r) => SubstituteRefs(l, name, target, binary); SubstituteRefs(r, name, target, binary);
    case Select(t, c, f) =>
      SubstituteRefs(t, name, target, binary);
      SubstituteRefs(c, name, target, binary);
      SubstituteRefs(f, name, target, binary);
    case Function(_, x, y) =>
      SubstituteRefs(x, name, target, binary);
      if y.Some? { SubstituteRefs(y.value, name, target, binary); }
    case _ =>
  }

  /** Every subtree that a substitution of `target` replaces is `target` itself, not just equal to it. */
  predicate ReplacesItself(e: Expr, target: Expr) {
    match e
    case Operator(_, l, r) =>
      if Equals(e, target) then e == target else ReplacesItself(l, target) && ReplacesItself(r, target)
    case Select(t, c, f) =>
      if Equals(e, target) then e == target
      else ReplacesItself(t, target) && ReplacesItself(c, target) && ReplacesItself(f, target)
    case Function(_, x, y) =>
      if Equals(e, target) then e == target
      else ReplacesItself(x, target) && (y.Some? ==> ReplacesItself(y.value, target))
    case _ => true
  }

  /** Trees that look equal but differ still differ when they are expanded. */
  lemma {:induction false} ExpandSeparates(a: Expr, b: Expr, pmu: string, trees: map<Id, Expr>)
    requires Equals(a, b)
    ensures Expand(a, pmu, trees) == Expand(b, pmu, trees) <==> a == b
  {
    match a
    case Operator(_, l, r) =>
      ExpandSeparates(l, b.lhs, pmu, trees);
      ExpandSeparates(r, b.rhs, pmu, trees);
    case Select(t, c, f) =>
      ExpandSeparates(t, b.trueVal, pmu, trees);
      ExpandSeparates(c, b.cond, pmu, trees);
      ExpandSeparates(f, b.falseVal, pmu, trees);
    case Function(_, x, y) =>
      ExpandSeparates(x, b.arg, pmu, trees);
      if y.Some? { ExpandSeparates(y.value, b.second.value, pmu, trees); }
    case _ =>
  }

  /** A substitution keeps the inlined tree exactly when every subtree that it replaces is the target itself. */
  lemma {:induction false} SubstituteKeepsExpansion(e: Expr, name: string, target: Expr,
                                                    pmu: string, trees: map<Id, Expr>)
    requires Expand(MakeEvent(name), pmu, trees) == Expand(target, pmu, trees)
    ensures Expand(Substitute(e, name, target), pmu, trees) == Expand(e, pmu, trees) <==> ReplacesItself(e, target)
  {
    if Equals(e, target) { ExpandSeparates(e, target, pmu, trees); }
    match e
    case Operator(_, l, r) =>
      SubstituteKeepsExpansion(l, name, target, pmu, trees);
      SubstituteKeepsExpansion(r, name, target, pmu, trees);
    case Select(t, c, f) =>
      SubstituteKeepsExpansion(t, name, target, pmu, trees);
      SubstituteKeepsExpansion(c, name, target, pmu, trees);
      SubstituteKeepsExpansion(f, name, target, pmu, trees);
    case Function(_, x, y) =>
      SubstituteKeepsExpansion(x, name, target, pmu, trees);
      if y.Some? { SubstituteKeepsExpansion(y.value, name, target, pmu, trees); }
    case _ =>
  }

  lemma {:induction false} FixedArityReplacesItself(e: Expr, target: Expr, binary: set<string>)
    requires FixedArity(e, binary) && FixedArity(target, binary)
    ensures ReplacesItself(e, target)
  {
    EqualsIsIdentity(e, target, binary);
    match e
    case Operator(_, l, r) =>
      FixedArityReplacesItself(l, target, binary);
      FixedArityReplacesItself(r, target, binary);
    case Select(t, c, f) =>
      FixedArityReplacesItself(t, target, binary);
      FixedArityReplacesItself(c, target, binary);
      FixedArityReplacesItself(f, target, binary);
    case Function(_, x, y) =>
      FixedArityReplacesItself(x, target, binary);
      if y.Some? { FixedArityReplacesItself(y.value, target, binary); }
    case _ =>
  }

  /** The new edge `o -> n` closes no cycle, because `o` already refers to all that `n` refers to. */
  lemma NewReferenceKeepsAcyclic(defs: map<Id, Expr>, o: Id, n: Id, after: Expr)
    requires Acyclic(defs) && o in defs && n in defs && o != n && o.0 == n.0
    requires Refs(after) <= Refs(defs[o]) + {n.1}
    requires Refs(defs[n]) <= Refs(defs[o])
    ensures Acyclic(defs[o := after])
  {
    var next := defs[o := after];
    forall ids: set<Id> | ids != {} && ids <= next.Keys
      ensures HasSink(next, ids)
    {
      var k := SinkOf(defs, ids);
      // A sink of the old graph stops being one only if it is `o` and `n` is in the set; then `n` is one.
      var sink := if k == o && n in ids then n else k;
      assert sink in ids && sink in next && forall m :: m in Refs(next[sink]) ==> (sink.0, m) !in ids;
    }
  }

  /** What every step of the run keeps. */
  ghost predicate Consistent(defs: map<Id, Expr>, trees: map<Id, Expr>, binary: set<string>) {
    && Acyclic(defs)
    && IsInlining(defs, trees)
    && forall k :: k in defs ==> FixedArity(defs[k], binary)
  }

  lemma SubstituteKeepsInlining(defs: map<Id, Expr>, trees: map<Id, Expr>, binary: set<string>,
                                o: Id, n: Id, name: string)
    requires IsInlining(defs, trees) && o in defs && n in defs && o != n && o.0 == n.0
    requires FixedArity(defs[o], binary) && FixedArity(defs[n], binary)
    requires MakeEvent(name) == Event(name) && Lower(name) == n.1
    ensures IsInlining(defs[o := Substitute(defs[o], name, defs[n])], trees)
  {
    hide Substitute, FixedArity, FixEscapes, Lower;
    assert Expand(MakeEvent(name), o.0, trees) == trees[n] == Expand(defs[n], o.0, trees);
    FixedArityReplacesItself(defs[o], defs[n], binary);
    SubstituteKeepsExpansion(defs[o], name, defs[n], o.0, trees);
  }

  lemma SubstituteKeepsAcyclic(defs: map<Id, Expr>, binary: set<string>, o: Id, n: Id, name: string)
    requires Acyclic(defs) && o in defs && n in defs && o != n && o.0 == n.0
    requires FixedArity(defs[o], binary) && FixedArity(defs[n], binary)
    requires MakeEvent(name) == Event(name) && Lower(name) == n.1
    ensures Acyclic(defs[o := Substitute(defs[o], name, defs[n])])
  {
    hide Substitute, FixedArity, FixEscapes, Lower, Acyclic, Occurs;
    var e, target := defs[o], defs[n];
    SubstituteRefs(e, name, target, binary);
    if Occurs(e, target) {
      NewReferenceKeepsAcyclic(defs, o, n, Substitute(e, name, target));
    } else {
      SubstituteShrinks(e, name, target);
      assert defs[o := e] == defs;
    }
  }

  lemma SubstituteKeepsConsistent(defs: map<Id, Expr>, trees: map<Id, Expr>, binary: set<string>,
                                  o: Id, n: Id, name: string)
    requires Consistent(defs, trees, binary)
    requires o in defs && n in defs && o != n && o.0 == n.0
    requires MakeEvent(name) == Event(name) && Lower(name) == n.1
    ensures Consistent(defs[o := Substitute(defs[o], name, defs[n])], trees, binary)
  {
    hide Substitute, FixedArity, FixEscapes, Lower, Acyclic, IsInlining;
    SubstituteKeepsInlining(defs, trees, binary, o, n, name);
    SubstituteKeepsAcyclic(defs, binary, o, n, name);
    SubstituteKeepsArity(defs[o], name, defs[n], binary);
  }

  // ----- The whole run

  ghost predicate UniqueIds(metrics: seq<Metric>) {
    forall i, j :: 0 <= i < j < |metrics| ==> IdOf(metrics[i]) != IdOf(metrics[j])
  }

  /** Metric names that the event constructor keeps, see `NameKeptExactlyWhenEscaped`. */
  ghost predicate PlainNames(metrics: seq<Metric>) {
    forall i :: 0 <= i < |metrics| ==> MakeEvent(metrics[i].name) == Event(metrics[i].name)
  }

  lemma {:induction false} DefsAt(metrics: seq<Metric>, updates: Updates, i: nat)
    requires UniqueIds(metrics) && i < |metrics|
    ensures IdOf(metrics[i]) in Defs(metrics, updates)
    ensures Defs(metrics, updates)[IdOf(metrics[i])] == Current(metrics[i], updates)
  {
    var n := |metrics| - 1;
    if i < n { DefsAt(metrics[..n], updates, i); }
  }

  lemma IdOfKey(a: Metric, b: Metric)
    ensures KeyOf(a) == KeyOf(b) ==> IdOf(a) == IdOf(b)
  {
  }

  lemma {:induction false} DefsUpdated(metrics: seq<Metric>, updates: Updates, o: nat, e: Expr)
    requires UniqueIds(metrics) && o < |metrics|
    ensures Defs(metrics, updates[KeyOf(metrics[o]) := e]) == Defs(metrics, updates)[IdOf(metrics[o]) := e]
  {
    hide Lower, IdOf;
    var n := |metrics| - 1;
    var last := metrics[n];
    if o < n {
      IdOfKey(last, metrics[o]);
      DefsUpdated(metrics[..n], updates, o, e);
      assert IdOf(last) != IdOf(metrics[o]);
    } else {
      DefsUnaffected(metrics[..n], updates, last, e);
    }
  }

  lemma {:induction false} DefsUnaffected(metrics: seq<Metric>, updates: Updates, other: Metric, e: Expr)
    requires forall i :: 0 <= i < |metrics| ==> IdOf(metrics[i]) != IdOf(other)
    ensures Defs(metrics, updates[KeyOf(other) := e]) == Defs(metrics, updates)
  {
    if metrics == [] {
    } else {
      DefsUnaffected(metrics[..|metrics| - 1], updates, other, e);
    }
  }

  lemma FoldOneKeepsConsistent(metrics: seq<Metric>, updates: Updates, o: nat, e: Expr, k: nat,
                               trees: map<Id, Expr>, binary: set<string>)
    requires UniqueIds(metrics) && PlainNames(metrics) && o < |metrics| && k < |metrics|
    requires Consistent(Defs(metrics, updates)[IdOf(metrics[o]) := e], trees, binary)
    ensures var next := FoldOne(metrics[k], updates, metrics[o], e);
            Consistent(Defs(metrics, updates)[IdOf(metrics[o]) := next], trees, binary)
  {
    hide Substitute, FixedArity, FixEscapes, Lower, Consistent;
    var inner, outer := metrics[k], metrics[o];
    if MayFold(inner, outer) {
      var defs := Defs(metrics, updates)[IdOf(outer) := e];
      DefsAt(metrics, updates, k);
      var next := Substitute(e, inner.name, Current(inner, updates));
      SubstituteKeepsConsistent(defs, trees, binary, IdOf(outer), IdOf(inner), inner.name);
      assert defs[IdOf(outer) := next] == Defs(metrics, updates)[IdOf(outer) := next];
    }
  }

  lemma {:induction false} PassKeepsConsistent(metrics: seq<Metric>, updates: Updates, o: nat, e: Expr, k: nat,
                                               trees: map<Id, Expr>, binary: set<string>)
    requires UniqueIds(metrics) && PlainNames(metrics) && o < |metrics| && k <= |metrics|
    requires Consistent(Defs(metrics, updates)[IdOf(metrics[o]) := e], trees, binary)
    ensures var next := Pass(metrics, updates, metrics[o], e, k);
            Consistent(Defs(metrics, updates)[IdOf(metrics[o]) := next], trees, binary)
    decreases |metrics| - k
  {
    hide Consistent, Defs, FoldOne, UniqueIds, PlainNames, Lower;
    if k == |metrics| {
    } else {
      FoldOneKeepsConsistent(metrics, updates, o, e, k, trees, binary);
      PassKeepsConsistent(metrics, updates, o, FoldOne(metrics[k], updates, metrics[o], e), k + 1, trees, binary);
    }
  }

  lemma {:induction false} SettleKeepsConsistent(metrics: seq<Metric>, updates: Updates, o: nat, e: Expr,
                                                 trees: map<Id, Expr>, binary: set<string>)
    requires UniqueIds(metrics) && PlainNames(metrics) && o < |metrics|
    requires AtPassStart(updates, metrics[o], e) && e == Current(metrics[o], updates)
    requires Consistent(Defs(metrics, updates), trees, binary)
    ensures Consistent(Defs(metrics, Settle(metrics, updates, metrics[o], e)), trees, binary)
    decreases Size(e)
  {
    var outer := metrics[o];
    var next := Pass(metrics, updates, outer, e, 0);
    UnsettledPassShrinks(metrics, updates, outer, e);
    if Settled(updates, outer, next) {
    } else {
      DefsAt(metrics, updates, o);
      assert Defs(metrics, updates)[IdOf(outer) := e] == Defs(metrics, updates);
      PassKeepsConsistent(metrics, updates, o, e, 0, trees, binary);
      DefsUpdated(metrics, updates, o, next);
      SettleKeepsConsistent(metrics, updates[KeyOf(outer) := next], o, next, trees, binary);
    }
  }

  lemma {:induction false} SettleFrame(metrics: seq<Metric>, updates: Updates, outer: Metric, e: Expr)
    requires AtPassStart(updates, outer, e)
    ensures var after := Settle(metrics, updates, outer, e);
            forall k :: k != KeyOf(outer) ==>
              (k in after <==> k in updates) && (k in updates ==> after[k] == updates[k])
    decreases Size(e)
  {
    var next := Pass(metrics, updates, outer, e, 0);
    UnsettledPassShrinks(metrics, updates, outer, e);
    if Settled(updates, outer, next) {
    } else {
      SettleFrame(metrics, updates[KeyOf(outer) := next], outer, next);
    }
  }

  /** The metrics from index `o` on have not been rewritten yet. */
  ghost predicate Untouched(metrics: seq<Metric>, updates: Updates, o: nat) {
    forall i :: o <= i < |metrics| ==> KeyOf(metrics[i]) !in updates
  }

  lemma {:induction false} RewriteKeepsConsistent(metrics: seq<Metric>, updates: Updates, o: nat,
                                                  trees: map<Id, Expr>, binary: set<string>)
    requires UniqueIds(metrics) && PlainNames(metrics) && o <= |metrics|
    requires Untouched(metrics, updates, o)
    requires Consistent(Defs(metrics, updates), trees, binary)
    ensures Consistent(Defs(metrics, RewriteFrom(metrics, updates, o)), trees, binary)
    decreases |metrics| - o
  {
    hide Consistent, Settle, Defs, Lower;
    if o == |metrics| {
    } else {
      SettleKeepsConsistent(metrics, updates, o, metrics[o].expr, trees, binary);
      SettleFrame(metrics, updates, metrics[o], metrics[o].expr);
      var after := Settle(metrics, updates, metrics[o], metrics[o].expr);
      assert Untouched(metrics, after, o + 1) by {
        forall i | o + 1 <= i < |metrics| ensures KeyOf(metrics[i]) !in after {
          assert IdOf(metrics[i]) != IdOf(metrics[o]);
        }
      }
      RewriteKeepsConsistent(metrics, after, o + 1, trees, binary);
    }
  }

  lemma {:induction false} DefsArity(metrics: seq<Metric>, binary: set<string>)
    requires forall i :: 0 <= i < |metrics| ==> FixedArity(metrics[i].expr, binary)
    ensures forall k :: k in Defs(metrics, map[]) ==> FixedArity(Defs(metrics, map[])[k], binary)
  {
    if metrics == [] {
    } else {
      DefsArity(metrics[..|metrics| - 1], binary);
    }
  }

  /** Rewriting keeps the reference graph acyclic and the fully inlined tree of every metric. */
  lemma RewritingKeepsInlinedTrees(metrics: seq<Metric>, binary: set<string>)
    requires UniqueIds(metrics) && PlainNames(metrics)
    requires forall i :: 0 <= i < |metrics| ==> FixedArity(metrics[i].expr, binary)
    requires Acyclic(Defs(metrics, map[]))
    ensures Acyclic(Defs(metrics, Rewritten(metrics)))
    ensures FullyInlined(Defs(metrics, Rewritten(metrics))) == FullyInlined(Defs(metrics, map[]))
  {
    var trees := FullyInlined(Defs(metrics, map[]));
    DefsArity(metrics, binary);
    RewriteKeepsConsistent(metrics, map[], 0, trees, binary);
    var after := Defs(metrics, Rewritten(metrics));
    InliningUnique(after, trees, FullyInlined(after));
  }

  /** In particular when the expressions were built by the functions of metric.py. */
  lemma RewritingBuiltMetrics(metrics: seq<Metric>)
    requires UniqueIds(metrics) && PlainNames(metrics)
    requires forall i :: 0 <= i < |metrics| ==> Built(metrics[i].expr)
    requires Acyclic(Defs(metrics, map[]))
    ensures Acyclic(Defs(metrics, Rewritten(metrics)))
    ensures FullyInlined(Defs(metrics, Rewritten(metrics))) == FullyInlined(Defs(metrics, map[]))
  {
    hide UniqueIds, PlainNames, Acyclic, Rewritten, Defs, Built, FixedArity, IsInlining;
    forall i | 0 <= i < |metrics| ensures FixedArity(metrics[i].expr, TWO_ARGUMENTS) {
      BuiltHasFixedArity(metrics[i].expr);
    }
    RewritingKeepsInlinedTrees(metrics, TWO_ARGUMENTS);
  }

  /** Why the arity has to be fixed by name: `f(x)` is replaced by a reference to a metric that is `f(x, y)`. */
  lemma ReplacingWithoutFixedArity(fn: string, pmu: string, x: Expr, y: Expr)
    requires Refs(x) == {} && Refs(y) == {}
    ensures var trees := map[(pmu, "m") := Function(fn, x, Some(y))];
            var short := Substitute(Function(fn, x, None), "m", Function(fn, x, Some(y)));
            && short == Event("m")
            && Expand(short, pmu, trees) == Function(fn, x, Some(y))
            && Expand(Function(fn, x, None), pmu, trees) != Function(fn, x, Some(y))
  {
    EqualsIgnoresMissingArgument(fn, x, y);
    assert FixEscapes("m") == "m" && Lower("m") == "m";
  }

  // ----- Nothing is left to fold

  lemma {:induction false} PassKeepsArity(metrics: seq<Metric>, updates: Updates, outer: Metric, e: Expr, k: nat,
                                          binary: set<string>)
    requires k <= |metrics| && FixedArity(e, binary)
    ensures FixedArity(Pass(metrics, updates, outer, e, k), binary)
    decreases |metrics| - k
  {
    if k == |metrics| {
    } else {
      var inner := metrics[k];
      SubstituteKeepsArity(e, inner.name, Current(inner, updates), binary);
      PassKeepsArity(metrics, updates, outer, FoldOne(inner, updates, outer, e), k + 1, binary);
    }
  }

  predicate NotLonger(e: Expr, outer: Metric) { e == outer.expr || Size(e) < Size(outer.expr) }

  /** The loop for one metric stops only at a tree that another pass would not change. */
  lemma {:induction false} SettlesAtFixpoint(metrics: seq<Metric>, updates: Updates, outer: Metric, e: Expr,
                                             binary: set<string>)
    requires AtPassStart(updates, outer, e) && e == Current(outer, updates)
    requires FixedArity(e, binary) && FixedArity(outer.expr, binary)
    requires NotLonger(e, outer)
    ensures var after := Settle(metrics, updates, outer, e);
            var f := Current(outer, after);
            NotLonger(f, outer) && Pass(metrics, after, outer, f, 0) == f
    decreases Size(e)
  {
    var next := Pass(metrics, updates, outer, e, 0);
    UnsettledPassShrinks(metrics, updates, outer, e);
    PassShrinks(metrics, updates, outer, e, 0);
    PassKeepsArity(metrics, updates, outer, e, 0, binary);
    EqualsIsIdentity(next, outer.expr, binary);
    EqualsIsIdentity(next, e, binary);
    if Settled(updates, outer, next) {
    } else {
      SettlesAtFixpoint(metrics, updates[KeyOf(outer) := next], outer, next, binary);
    }
  }

  lemma {:induction false} RewriteFrame(metrics: seq<Metric>, updates: Updates, o: nat, i: nat)
    requires UniqueIds(metrics) && i < o <= |metrics|
    ensures Current(metrics[i], RewriteFrom(metrics, updates, o)) == Current(metrics[i], updates)
    decreases |metrics| - o
  {
    if o == |metrics| {
    } else {
      assert IdOf(metrics[i]) != IdOf(metrics[o]);
      SettleFrame(metrics, updates, metrics[o], metrics[o].expr);
      RewriteFrame(metrics, Settle(metrics, updates, metrics[o], metrics[o].expr), o + 1, i);
    }
  }

  lemma {:induction false} RewriteFoldsAll(metrics: seq<Metric>, updates: Updates, o: nat, i: nat, j: nat,
                                           binary: set<string>)
    requires UniqueIds(metrics) && o <= j < |metrics| && i < |metrics|
    requires forall k :: 0 <= k < |metrics| ==> FixedArity(metrics[k].expr, binary)
    requires Untouched(metrics, updates, o)
    requires MayFold(metrics[i], metrics[j])
    ensures var after := RewriteFrom(metrics, updates, o);
            && NotLonger(Current(metrics[j], after), metrics[j])
            && !Occurs(Current(metrics[j], after), if i < j then Current(metrics[i], after) else metrics[i].expr)
    decreases |metrics| - o
  {
    hide Settle, Occurs, FixedArity, Lower, Size, Substitute;
    var outer := metrics[o];
    var after := Settle(metrics, updates, outer, outer.expr);
    SettleFrame(metrics, updates, outer, outer.expr);
    assert forall k :: 0 <= k < |metrics| && k != o ==> KeyOf(metrics[k]) != KeyOf(outer) by {
      forall k | 0 <= k < |metrics| && k != o ensures KeyOf(metrics[k]) != KeyOf(outer) {
        assert IdOf(metrics[k]) != IdOf(outer);
      }
    }
    if o < j {
      RewriteFoldsAll(metrics, after, o + 1, i, j, binary);
    } else {
      SettlesAtFixpoint(metrics, updates, outer, outer.expr, binary);
      PassShrinks(metrics, after, outer, Current(outer, after), 0);
      RewriteFrame(metrics, after, o + 1, o);
      if i < o { RewriteFrame(metrics, after, o + 1, i); }
    }
  }

  /** No two metrics have the same pmu and the same name, up to the case of letters. */
  ghost predicate UniqueNames(metrics: seq<Metric>) {
    forall i, j :: 0 <= i < j < |metrics| ==>
      !(SamePmu(metrics[i].pmu, metrics[j].pmu) && SameIgnoringCase(metrics[i].name, metrics[j].name))
  }

  lemma UniqueNamesAreIds(metrics: seq<Metric>)
    ensures UniqueNames(metrics) <==> UniqueIds(metrics)
  {
    hide IdOf, SamePmu, SameIgnoringCase;
    forall i, j | 0 <= i < j < |metrics|
      ensures IdOf(metrics[i]) != IdOf(metrics[j]) <==>
                !(SamePmu(metrics[i].pmu, metrics[j].pmu) && SameIgnoringCase(metrics[i].name, metrics[j].name))
    {
      IdsAreNames(metrics[i], metrics[j]);
    }
  }

  /**
   * The result is completely folded: a metric contains neither the final tree of a metric of its pmu that is
   * listed before it nor the original tree of one listed after it; and no metric became longer.
   */
  lemma RewritingFoldsAll(metrics: seq<Metric>, i: nat, j: nat, binary: set<string>)
    requires UniqueNames(metrics) && i < |metrics| && j < |metrics| && i != j
    requires SamePmu(metrics[i].pmu, metrics[j].pmu)
    requires forall k :: 0 <= k < |metrics| ==> FixedArity(metrics[k].expr, binary)
    ensures var after := Rewritten(metrics);
            && NotLonger(Current(metrics[j], after), metrics[j])
            && !Occurs(Current(metrics[j], after), if i < j then Current(metrics[i], after) else metrics[i].expr)
  {
    hide SamePmu, SameIgnoringCase, IdOf, MayFold, FixedArity;
    UniqueNamesAreIds(metrics);
    IdsAreNames(metrics[i], metrics[j]);
    OtherName(metrics, i, j);
    FoldsWithinPmu(metrics[i], metrics[j]);
    RewriteFoldsAll(metrics, map[], 0, i, j, binary);
  }

  lemma OtherName(metrics: seq<Metric>, i: nat, j: nat)
    requires UniqueNames(metrics) && i < |metrics| && j < |metrics| && i != j
    requires SamePmu(metrics[i].pmu, metrics[j].pmu)
    ensures !SameIgnoringCase(metrics[i].name, metrics[j].name)
  {
  }

  // ----- Nothing is folded across pmus

  /** The event names that metrics of the same pmu with other names are referred to by. */
  ghost function NamesOfPmu(metrics: seq<Metric>, outer: Metric): set<string> {
    set i | 0 <= i < |metrics| && SamePmu(metrics[i].pmu, outer.pmu) && !SameIgnoringCase(metrics[i].name, outer.name)
      :: Lower(FixEscapes(metrics[i].name))
  }

  lemma {:induction false} SubstituteAddsOneRef(e: Expr, name: string, target: Expr)
    ensures Refs(Substitute(e, name, target)) <= Refs(e) + {Lower(FixEscapes(name))}
  {
    hide FixEscapes, Lower, Equals;
    match e
    case Operator(_, l, r) => SubstituteAddsOneRef(l, name, target); SubstituteAddsOneRef(r, name, target);
    case Select(t, c, f) =>
      SubstituteAddsOneRef(t, name, target);
      SubstituteAddsOneRef(c, name, target);
      SubstituteAddsOneRef(f, name, target);
    case Function(_, x, y) =>
      SubstituteAddsOneRef(x, name, target);
      if y.Some? { SubstituteAddsOneRef(y.value, name, target); }
    case _ =>
  }

  lemma {:induction false} PassAddsNamesOfPmu(metrics: seq<Metric>, updates: Updates, outer: Metric, e: Expr, k: nat)
    requires k <= |metrics|
    ensures Refs(Pass(metrics, updates, outer, e, k)) <= Refs(e) + NamesOfPmu(metrics, outer)
    decreases |metrics| - k
  {
    hide SamePmu, SameIgnoringCase, MayFold, Substitute, Refs, Lower, FixEscapes;
    if k == |metrics| {
    } else {
      var inner := metrics[k];
      FoldsWithinPmu(inner, outer);
      SubstituteAddsOneRef(e, inner.name, Current(inner, updates));
      PassAddsNamesOfPmu(metrics, updates, outer, FoldOne(inner, updates, outer, e), k + 1);
    }
  }

  lemma {:induction false} SettleAddsNamesOfPmu(metrics: seq<Metric>, updates: Updates, outer: Metric, e: Expr)
    requires AtPassStart(updates, outer, e)
    ensures var after := Settle(metrics, updates, outer, e);
            Refs(Current(outer, after)) <= Refs(Current(outer, updates)) + Refs(e) + NamesOfPmu(metrics, outer)
    decreases Size(e)
  {
    hide Refs, NamesOfPmu;
    var next := Pass(metrics, updates, outer, e, 0);
    UnsettledPassShrinks(metrics, updates, outer, e);
    PassAddsNamesOfPmu(metrics, updates, outer, e, 0);
    if Settled(updates, outer, next) {
    } else {
      SettleAddsNamesOfPmu(metrics, updates[KeyOf(outer) := next], outer, next);
    }
  }

  lemma {:induction false} RewriteAddsNamesOfPmu(metrics: seq<Metric>, updates: Updates, o: nat, j: nat)
    requires UniqueIds(metrics) && o <= j < |metrics| && Untouched(metrics, updates, o)
    ensures Refs(Current(metrics[j], RewriteFrom(metrics, updates, o)))
            <= Refs(metrics[j].expr) + NamesOfPmu(metrics, metrics[j])
    decreases |metrics| - o
  {
    hide Settle, Refs, NamesOfPmu, IdOf;
    var outer := metrics[o];
    var after := Settle(metrics, updates, outer, outer.expr);
    SettleFrame(metrics, updates, outer, outer.expr);
    forall k | 0 <= k < |metrics| && k != o ensures KeyOf(metrics[k]) != KeyOf(outer) {
      IdOfKey(metrics[k], outer);
    }
    if o < j {
      RewriteAddsNamesOfPmu(metrics, after, o + 1, j);
    } else {
      SettleAddsNamesOfPmu(metrics, updates, outer, outer.expr);
      RewriteFrame(metrics, after, o + 1, o);
    }
  }

  /** Every reference that a metric gets in the run is to a metric of its own pmu, with another name. */
  lemma ReferencesStayInPmu(metrics: seq<Metric>, j: nat)
    requires UniqueNames(metrics) && j < |metrics|
    ensures Refs(Current(metrics[j], Rewritten(metrics))) <= Refs(metrics[j].expr) + NamesOfPmu(metrics, metrics[j])
  {
    UniqueNamesAreIds(metrics);
    RewriteAddsNamesOfPmu(metrics, map[], 0, j);
  }

  lemma {:induction false} PassWithoutFold(metrics: seq<Metric>, updates: Updates, outer: Metric, e: Expr, k: nat)
    requires k <= |metrics| && forall i :: 0 <= i < |metrics| ==> !MayFold(metrics[i], outer)
    ensures Pass(metrics, updates, outer, e, k) == e
    decreases |metrics| - k
  {
    if k == |metrics| {
    } else {
      PassWithoutFold(metrics, updates, outer, e, k + 1);
    }
  }

  lemma {:induction false} NothingStored(metrics: seq<Metric>, updates: Updates, o: nat, j: nat)
    requires o <= |metrics| && j < |metrics| && KeyOf(metrics[j]) !in updates
    requires forall i :: 0 <= i < |metrics| && i != j ==> !SamePmu(metrics[i].pmu, metrics[j].pmu)
    ensures KeyOf(metrics[j]) !in RewriteFrom(metrics, updates, o)
    decreases |metrics| - o
  {
    hide SamePmu, Settle, Pass, SameIgnoringCase, MayFold, IdOf;
    if o == |metrics| {
    } else {
      var outer := metrics[o];
      if o == j {
        SameItself(outer);
        forall i | 0 <= i < |metrics| ensures !MayFold(metrics[i], outer) {
          FoldsWithinPmu(metrics[i], outer);
        }
        PassWithoutFold(metrics, updates, outer, outer.expr, 0);
        SettledAtOnce(metrics, updates, outer);
      } else {
        SettleFrame(metrics, updates, outer, outer.expr);
        IdsAreNames(outer, metrics[j]);
        IdOfKey(outer, metrics[j]);
      }
      NothingStored(metrics, Settle(metrics, updates, outer, outer.expr), o + 1, j);
    }
  }

  lemma SameItself(m: Metric)
    ensures SamePmu(m.pmu, m.pmu) && SameIgnoringCase(m.name, m.name)
  {
  }

  lemma SettledAtOnce(metrics: seq<Metric>, updates: Updates, outer: Metric)
    requires Pass(metrics, updates, outer, outer.expr, 0) == outer.expr
    ensures Settle(metrics, updates, outer, outer.expr) == updates
  {
    EqualsReflexive(outer.expr);
  }

  /** A metric that is alone in its pmu is not rewritten, whatever metrics other pmus have. */
  lemma LoneMetricIsKept(metrics: seq<Metric>, j: nat)
    requires j < |metrics|
    requires forall i :: 0 <= i < |metrics| && i != j ==> !SamePmu(metrics[i].pmu, metrics[j].pmu)
    ensures (if metrics[j].pmu.Some? then metrics[j].pmu.value else "cpu", metrics[j].name) !in Rewritten(metrics)
  {
    NothingStored(metrics, map[], 0, j);
  }

  // ----- Acyclic means: no cycle

  ghost predicate RefersTo(defs: map<Id, Expr>, a: Id, b: Id) {
    a in defs && b in defs && a.0 == b.0 && b.1 in Refs(defs[a])
  }

  ghost predicate IsWalk(defs: map<Id, Expr>, walk: seq<Id>) {
    forall i :: 0 <= i < |walk| - 1 ==> RefersTo(defs, walk[i], walk[i + 1])
  }

  ghost predicate IsCycle(defs: map<Id, Expr>, walk: seq<Id>) {
    |walk| >= 2 && walk[0] == walk[|walk| - 1] && IsWalk(defs, walk)
  }

  lemma {:induction false} Pigeonhole(s: seq<Id>, holes: set<Id>)
    requires |s| > |holes|
    requires forall i :: 0 <= i < |s| ==> s[i] in holes
    ensures exists i, j :: 0 <= i < j < |s| && s[i] == s[j]
    decreases |s|
  {
    var n := |s| - 1;
    if s[n] in s[..n] {
      var i :| 0 <= i < n && s[i] == s[n];
    } else {
      Pigeonhole(s[..n], holes - {s[n]});
    }
  }

  lemma NextWithoutSink(defs: map<Id, Expr>, ids: set<Id>, k: Id) returns (next: Id)
    requires ids <= defs.Keys && !HasSink(defs, ids) && k in ids
    ensures next in ids && RefersTo(defs, k, next)
  {
    var n :| n in Refs(defs[k]) && (k.0, n) in ids;
    next := (k.0, n);
  }

  lemma {:induction false} WalkWithoutSink(defs: map<Id, Expr>, ids: set<Id>, length: nat) returns (walk: seq<Id>)
    requires ids != {} && ids <= defs.Keys && !HasSink(defs, ids)
    ensures |walk| == length + 1 && IsWalk(defs, walk)
    ensures forall i :: 0 <= i < |walk| ==> walk[i] in ids
  {
    hide RefersTo, HasSink;
    if length == 0 {
      var k :| k in ids;
      walk := [k];
    } else {
      var shorter := WalkWithoutSink(defs, ids, length - 1);
      var next := NextWithoutSink(defs, ids, shorter[length - 1]);
      walk := shorter + [next];
      forall i | 0 <= i < length ensures RefersTo(defs, walk[i], walk[i + 1]) {
        if i < length - 1 { assert RefersTo(defs, shorter[i], shorter[i + 1]); }
      }
    }
  }

  lemma CycleStep(defs: map<Id, Expr>, walk: seq<Id>, i: nat) returns (j: nat, n: string)
    requires IsCycle(defs, walk) && i < |walk| - 1
    ensures walk[i] in defs && j < |walk| - 1
    ensures n in Refs(defs[walk[i]]) && (walk[i].0, n) == walk[j]
  {
    assert RefersTo(defs, walk[i], walk[i + 1]);
    j := if i + 1 == |walk| - 1 then 0 else i + 1;
    n := walk[j].1;
  }

  ghost function Nodes(walk: seq<Id>): (ids: set<Id>)
    ensures forall k :: k in ids <==> exists i :: 0 <= i < |walk| && walk[i] == k
  {
    set i | 0 <= i < |walk| :: walk[i]
  }

  lemma SinkIsNotOnCycle(defs: map<Id, Expr>, walk: seq<Id>, k: Id)
    requires IsCycle(defs, walk) && k in Nodes(walk[..|walk| - 1])
    ensures k in defs && exists m :: m in Refs(defs[k]) && (k.0, m) in Nodes(walk[..|walk| - 1])
  {
    var path := walk[..|walk| - 1];
    var i :| 0 <= i < |path| && path[i] == k;
    var j, n := CycleStep(defs, walk, i);
    assert path[j] == walk[j];
  }

  lemma CycleHasNoSink(defs: map<Id, Expr>, walk: seq<Id>)
    requires IsCycle(defs, walk)
    ensures !Acyclic(defs)
  {
    var ids := Nodes(walk[..|walk| - 1]);
    assert walk[..|walk| - 1][0] in ids;
    assert ids <= defs.Keys by {
      forall k | k in ids ensures k in defs { SinkIsNotOnCycle(defs, walk, k); }
    }
    if HasSink(defs, ids) {
      var k :| k in ids && k in defs && forall n :: n in Refs(defs[k]) ==> (k.0, n) !in ids;
      SinkIsNotOnCycle(defs, walk, k);
      assert false;
    }
  }

  lemma NoSinkHasCycle(defs: map<Id, Expr>, ids: set<Id>) returns (cycle: seq<Id>)
    requires ids != {} && ids <= defs.Keys && !HasSink(defs, ids)
    ensures IsCycle(defs, cycle)
  {
    hide RefersTo, HasSink;
    var walk := WalkWithoutSink(defs, ids, |ids|);
    Pigeonhole(walk, ids);
    var i, j :| 0 <= i < j < |walk| && walk[i] == walk[j];
    cycle := walk[i..j + 1];
    forall m | 0 <= m < |cycle| - 1 ensures RefersTo(defs, cycle[m], cycle[m + 1]) {
      assert RefersTo(defs, walk[i + m], walk[i + m + 1]);
    }
  }

  lemma AcyclicIsNoCycle(defs: map<Id, Expr>)
    ensures Acyclic(defs) <==> forall walk: seq<Id> :: !IsCycle(defs, walk)
  {
    if walk: seq<Id> :| IsCycle(defs, walk) {
      CycleHasNoSink(defs, walk);
    } else if !Acyclic(defs) {
      var ids: set<Id> :| ids != {} && ids <= defs.Keys && !HasSink(defs, ids);
      var cycle := NoSinkHasCycle(defs, ids);
    }
  }
}
