/** `BigCString` (jevents.py): many strings stored in one, a string being shared with the end of a longer one. */
module BigCString {
  import opened Order
  import opened CText

  // ----- Which string is stored where

  /** `s` is not a proper suffix of another added string. */
  ghost predicate Maximal(strings: set<string>, s: string) {
    s in strings && forall t :: t in strings && IsSuffix(s, t) ==> t == s
  }

  /** `t` stores `s`: it ends with `s`, and is last among those strings in the order of the reversed strings. */
  ghost predicate IsHost(strings: set<string>, s: string, t: string) {
    && t in strings && IsSuffix(s, t)
    && forall u :: u in strings && IsSuffix(s, u) ==> StrLeq(Reverse(u), Reverse(t))
  }

  /** Where the piece at index `i` starts. */
  function Start(pieces: seq<string>, i: nat): int
    requires i <= |pieces|
  {
    if i == 0 then 0 else Start(pieces, i - 1) + CLen(pieces[i - 1])
  }

  function TotalLen(pieces: seq<string>): int {
    Start(pieces, |pieces|)
  }

  lemma {:induction false} StartOfPrefix(pieces: seq<string>, more: seq<string>, i: nat)
    requires i <= |pieces| && pieces <= more
    ensures Start(pieces, i) == Start(more, i)
  {
    if i > 0 { StartOfPrefix(pieces, more, i - 1); }
  }

  /** What `compute` establishes about the stored pieces and the offsets. */
  ghost predicate Packed(strings: set<string>, pieces: seq<string>, offsets: map<string, int>) {
    && Distinct(pieces)
    && (forall s :: s in pieces <==> Maximal(strings, s))
    && offsets.Keys == strings
    && (forall i :: 0 <= i < |pieces| ==> pieces[i] in offsets && offsets[pieces[i]] == Start(pieces, i))
    && forall s {:trigger Placed(strings, offsets, s)} :: s in strings ==> Placed(strings, offsets, s)
  }

  /** `s` is read from the end of its host, which is stored in full. */
  ghost predicate Placed(strings: set<string>, offsets: map<string, int>, s: string) {
    exists t :: IsHost(strings, s, t) && Maximal(strings, t)
      && s in offsets && t in offsets && offsets[s] == offsets[t] + CLen(t) - CLen(s)
  }

  lemma HostUnique(strings: set<string>, s: string, t: string, u: string)
    requires IsHost(strings, s, t) && IsHost(strings, s, u)
    ensures t == u
  {
    StrTrichotomy(Reverse(t), Reverse(u));
    ReverseReverse(t);
    ReverseReverse(u);
  }

  /** A string that stores another is itself not stored in a third one. */
  lemma HostIsMaximal(strings: set<string>, s: string, t: string)
    requires IsHost(strings, s, t)
    ensures Maximal(strings, t)
  {
    forall u | u in strings && IsSuffix(t, u) ensures u == t {
      SuffixTransitive(s, t, u);
      SuffixIsReversedPrefix(t, u);
      PrefixIsLeq(Reverse(t), Reverse(u));
      StrTrichotomy(Reverse(t), Reverse(u));
      ReverseReverse(t);
      ReverseReverse(u);
    }
  }

  lemma SuffixTransitive(s: string, t: string, u: string)
    requires IsSuffix(s, t) && IsSuffix(t, u)
    ensures IsSuffix(s, u)
  {
    assert u[|u| - |s|..] == u[|u| - |t|..][|t| - |s|..];
  }

  // ----- The class

  class BigCString {
    var strings: set<string>
    var insertNumber: nat
    var insertPoint: map<string, nat>
    var metrics: set<string>
    var bigString: seq<string>
    var offsets: map<string, int>

    ghost predicate Valid()
      reads this
    {
      && insertPoint.Keys == strings
      && metrics <= strings
      && (forall s :: s in strings ==> insertPoint[s] < insertNumber)
      && forall s, t :: s in strings && t in strings && insertPoint[s] == insertPoint[t] ==> s == t
    }

    constructor ()
      ensures Valid() && strings == {} && metrics == {} && insertPoint == map[] && insertNumber == 0
    {
      strings, insertNumber, insertPoint, metrics := {}, 0, map[], {};
      bigString, offsets := [], map[];
    }

    /** The first addition of a string decides its place and whether it counts as a metric string. */
    method Add(s: string, metric: bool)
      requires Valid()
      modifies `strings, `insertNumber, `insertPoint, `metrics
      ensures Valid()
      ensures strings == old(strings) + {s}
      ensures insertPoint == if s in old(strings) then old(insertPoint) else old(insertPoint)[s := old(insertNumber)]
      ensures metrics == old(metrics) + (if s !in old(strings) && metric then {s} else {})
      ensures insertNumber == old(insertNumber) + (if s in old(strings) then 0 else 1)
    {
      if s !in strings {
        strings := strings + {s};
        insertPoint := insertPoint[s := insertNumber];
        insertNumber := insertNumber + 1;
        if metric {
          metrics := metrics + {s};
        }
      }
    }

    /** Places every added string; the stored pieces come in the order of their keys. */
    method Compute()
      requires Valid()
      modifies `bigString, `offsets
      ensures Valid()
      ensures Packed(strings, bigString, offsets)
      ensures Sorted(bigString, KeyOrder(metrics, insertPoint))
      ensures forall i, j :: 0 <= i < j < |bigString| ==>
                InOrder(bigString[i], bigString[j], metrics, insertPoint)
    {
      var big, offs := Pack(strings, metrics, insertPoint);
      OrderOfPieces(strings, big, offs, metrics, insertPoint);
      bigString, offsets := big, offs;
    }
  }

  /** `a` is emitted in front of `b`: strings of events before strings of metrics, and then by insertion. */
  predicate InOrder(a: string, b: string, metrics: set<string>, insertPoint: map<string, nat>) {
    a in insertPoint && b in insertPoint &&
    if a !in metrics && b in metrics then true
    else if a in metrics && b !in metrics then false
    else insertPoint[a] < insertPoint[b]
  }

  lemma OrderOfPieces(strings: set<string>, pieces: seq<string>, offsets: map<string, int>,
                      metrics: set<string>, insertPoint: map<string, nat>)
    requires Packed(strings, pieces, offsets) && Sorted(pieces, KeyOrder(metrics, insertPoint))
    requires insertPoint.Keys == strings
    requires forall s, t :: s in strings && t in strings && insertPoint[s] == insertPoint[t] ==> s == t
    ensures forall i, j :: 0 <= i < j < |pieces| ==> InOrder(pieces[i], pieces[j], metrics, insertPoint)
  {
    forall i, j | 0 <= i < j < |pieces| ensures InOrder(pieces[i], pieces[j], metrics, insertPoint) {
      assert pieces[i] in pieces && pieces[j] in pieces;
      assert Maximal(strings, pieces[i]) && Maximal(strings, pieces[j]);
      assert KeyOrder(metrics, insertPoint)(pieces[i], pieces[j]);
    }
  }

  /** The place of every string after a sequence of additions. */
  function Points(additions: seq<(string, bool)>): map<string, nat> {
    if additions == [] then map[]
    else
      var n := |additions| - 1;
      var points := Points(additions[..n]);
      if additions[n].0 in points then points else points[additions[n].0 := |points|]
  }

  /** The strings that count as strings of metrics. */
  function Flagged(additions: seq<(string, bool)>): set<string> {
    if additions == [] then {}
    else
      var n := |additions| - 1;
      Flagged(additions[..n])
      + (if additions[n].1 && additions[n].0 !in Points(additions[..n]) then {additions[n].0} else {})
  }

  /** Any sequence of additions, with repetitions or not, followed by the computation. */
  method StoreAll(additions: seq<(string, bool)>) returns (b: BigCString)
    ensures forall s :: s in b.strings <==> exists i :: 0 <= i < |additions| && additions[i].0 == s
    ensures Packed(b.strings, b.bigString, b.offsets)
    ensures forall i, j :: 0 <= i < j < |b.bigString| ==>
              InOrder(b.bigString[i], b.bigString[j], Flagged(additions), Points(additions))
  {
    hide Points, Flagged, Packed, InOrder, KeyOrder;
    b := new BigCString();
    NoAdditions();
    for n := 0 to |additions|
      invariant fresh(b) && b.Valid()
      invariant b.insertPoint == Points(additions[..n]) && b.insertNumber == |b.insertPoint|
      invariant b.metrics == Flagged(additions[..n])
    {
      OneAddition(additions, n);
      b.Add(additions[n].0, additions[n].1);
    }
    assert additions[..|additions|] == additions;
    PointsOfAdditions(additions);
    b.Compute();
  }

  lemma NoAdditions()
    ensures Points([]) == map[] && Flagged([]) == {}
  {
  }

  lemma OneAddition(additions: seq<(string, bool)>, n: nat)
    requires n < |additions|
    ensures var (s, metric), points := additions[n], Points(additions[..n]);
            && Points(additions[..n + 1]) == (if s in points then points else points[s := |points|])
            && Flagged(additions[..n + 1]) == Flagged(additions[..n]) + (if metric && s !in points then {s} else {})
  {
    assert additions[..n + 1][..n] == additions[..n];
  }

  /** The addition at `i` is the first one of its string. */
  ghost predicate IsFirst(additions: seq<(string, bool)>, i: nat) {
    i < |additions| && forall k :: 0 <= k < i ==> additions[k].0 != additions[i].0
  }

  lemma {:induction false} PointsOfAdditions(additions: seq<(string, bool)>)
    ensures forall s :: s in Points(additions) <==> exists i :: 0 <= i < |additions| && additions[i].0 == s
    ensures forall s :: s in Points(additions) ==> Points(additions)[s] < |Points(additions)|
    ensures forall s :: s in Flagged(additions) ==> s in Points(additions)
  {
    hide Points, Flagged;
    if additions == [] {
      NoAdditions();
    } else {
      var n := |additions| - 1;
      var init := additions[..n];
      PointsOfAdditions(init);
      assert additions[..n + 1] == additions;
      OneAddition(additions, n);
      forall s ensures s in Points(additions) <==> exists i :: 0 <= i < |additions| && additions[i].0 == s {
        assert s in Points(additions) <==> s in Points(init) || s == additions[n].0;
        if i :| 0 <= i < n && init[i].0 == s { assert additions[i].0 == s; }
      }
    }
  }

  /** The first addition of a string decides its flag, and first additions are numbered in their order. */
  lemma {:induction false} FirstAdditionDecides(additions: seq<(string, bool)>, i: nat, j: nat)
    requires IsFirst(additions, i) && IsFirst(additions, j) && i < j
    ensures additions[i].0 in Points(additions) && additions[j].0 in Points(additions)
    ensures Points(additions)[additions[i].0] < Points(additions)[additions[j].0]
    ensures additions[i].0 in Flagged(additions) <==> additions[i].1
    ensures additions[j].0 in Flagged(additions) <==> additions[j].1
  {
    var n := |additions| - 1;
    var init := additions[..n];
    PointsOfAdditions(init);
    if j == n {
      FirstFlag(init, i);
      assert additions[n].0 !in Points(init);
    } else {
      FirstAdditionDecides(init, i, j);
    }
  }

  lemma {:induction false} FirstFlag(additions: seq<(string, bool)>, i: nat)
    requires IsFirst(additions, i)
    ensures additions[i].0 in Points(additions) && (additions[i].0 in Flagged(additions) <==> additions[i].1)
  {
    var n := |additions| - 1;
    var init := additions[..n];
    PointsOfAdditions(init);
    if i < n { FirstFlag(init, i); }
  }

  /** The body of `compute`, on the set of strings and the order of emission. */
  method Pack(strings: set<string>, metrics: set<string>, insertPoint: map<string, nat>)
    returns (big: seq<string>, offsets: map<string, int>)
    ensures Packed(strings, big, offsets) && Sorted(big, KeyOrder(metrics, insertPoint))
  {
    var reversed := SortedReversed(strings);
    var folded := FoldStrings(strings, reversed);
    var unfolded;
    var order := SortedElements(strings, metrics, insertPoint);
    big, unfolded := EmitUnfolded(order, folded.Keys, KeyOrder(metrics, insertPoint));
    offsets := OffsetsOfFolded(folded, unfolded);
    AllPlaced(strings, folded, big, unfolded, offsets);
  }

  lemma MaximalIsOwnHost(strings: set<string>, s: string)
    requires Maximal(strings, s)
    ensures IsHost(strings, s, s)
  {
    assert s[0..] == s;
  }

  // ----- The sort key of the emission

  predicate KeyLess(metrics: set<string>, insertPoint: map<string, nat>, a: string, b: string) {
    var ma, mb := a in metrics, b in metrics;
    var ia, ib := if a in insertPoint then insertPoint[a] else 0, if b in insertPoint then insertPoint[b] else 0;
    (!ma && mb) || (ma == mb && (ia < ib || (ia == ib && StrLess(a, b))))
  }

  predicate KeyLeq(metrics: set<string>, insertPoint: map<string, nat>, a: string, b: string) {
    a == b || KeyLess(metrics, insertPoint, a, b)
  }

  function KeyOrder(metrics: set<string>, insertPoint: map<string, nat>): (string, string) -> bool {
    (a, b) => KeyLeq(metrics, insertPoint, a, b)
  }

  lemma KeyIsPreorder(metrics: set<string>, insertPoint: map<string, nat>)
    ensures TotalPreorder(KeyOrder(metrics, insertPoint))
  {
    forall a, b ensures KeyLeq(metrics, insertPoint, a, b) || KeyLeq(metrics, insertPoint, b, a) {
      StrTrichotomy(a, b);
    }
    forall a, b, c | KeyLeq(metrics, insertPoint, a, b) && KeyLeq(metrics, insertPoint, b, c)
      ensures KeyLeq(metrics, insertPoint, a, c)
    {
      if StrLess(a, b) && StrLess(b, c) { StrTransitive(a, b, c); }
    }
  }

  // ----- Folding

  /** The strings of a set, reversed and in ascending order. */
  ghost predicate ReversedList(strings: set<string>, reversed: seq<string>) {
    && (forall i, j :: 0 <= i < j < |reversed| ==> StrLess(reversed[i], reversed[j]))
    && forall r :: r in reversed <==> Reverse(r) in strings
  }

  lemma StrIsPreorder()
    ensures TotalPreorder(StrLeq)
  {
    forall a, b ensures StrLeq(a, b) || StrLeq(b, a) { StrTrichotomy(a, b); }
    forall a, b, c | StrLeq(a, b) && StrLeq(b, c) ensures StrLeq(a, c) {
      if StrLess(a, b) && StrLess(b, c) { StrTransitive(a, b, c); }
    }
  }

  method SortedReversed(strings: set<string>) returns (reversed: seq<string>)
    ensures ReversedList(strings, reversed)
  {
    var flipped := set s | s in strings :: Reverse(s);
    forall r ensures r in flipped <==> Reverse(r) in strings {
      ReverseReverse(r);
      if r in flipped {
        var s :| s in strings && r == Reverse(s);
        ReverseReverse(s);
      }
    }
    var listed := Elements(flipped);
    StrIsPreorder();
    reversed := Sort(listed, StrLeq);
    PermutationKeepsDistinct(listed, reversed);
  }

  /** The scan for the last string that extends the one at `pos`, stopping at the first that does not. */
  method BestPosition(reversed: seq<string>, pos: nat) returns (best: nat)
    requires pos < |reversed|
    requires forall i, j :: 0 <= i < j < |reversed| ==> StrLess(reversed[i], reversed[j])
    ensures IsRun(reversed, pos, best)
  {
    var s := reversed[pos];
    best := pos;
    var check := pos + 1;
    while check < |reversed| && s <= reversed[check]
      invariant pos < check <= |reversed| && best == check - 1
      invariant forall k :: pos <= k < check ==> s <= reversed[k]
    {
      best := check;
      check := check + 1;
    }
    forall k | check <= k < |reversed| ensures !(s <= reversed[k]) {
      if s <= reversed[k] { PrefixBetween(s, reversed[check], reversed[k]); }
    }
    forall k | 0 <= k < pos ensures !(s <= reversed[k]) {
      if s <= reversed[k] {
        PrefixIsLeq(s, reversed[k]);
        StrTrichotomy(s, reversed[k]);
      }
    }
  }

  /** All strings that end like the one at `pos` lie between `pos` and `best`. */
  ghost predicate IsRun(reversed: seq<string>, pos: nat, best: nat) {
    && pos <= best < |reversed|
    && forall k :: 0 <= k < |reversed| ==> (reversed[pos] <= reversed[k] <==> pos <= k <= best)
  }

  lemma BestIsHost(strings: set<string>, reversed: seq<string>, pos: nat, best: nat)
    requires ReversedList(strings, reversed) && IsRun(reversed, pos, best)
    ensures IsHost(strings, Reverse(reversed[pos]), Reverse(reversed[best]))
  {
    var s, t := Reverse(reversed[pos]), Reverse(reversed[best]);
    ReverseReverse(reversed[pos]);
    ReverseReverse(reversed[best]);
    SuffixIsReversedPrefix(s, t);
    forall u | u in strings && IsSuffix(s, u) ensures StrLeq(Reverse(u), Reverse(t)) {
      SuffixIsReversedPrefix(s, u);
      ReverseReverse(u);
      var k :| 0 <= k < |reversed| && reversed[k] == Reverse(u);
      assert reversed[pos] <= reversed[k];
    }
  }

  lemma AtPosition(strings: set<string>, reversed: seq<string>, pos: nat, best: nat)
    requires ReversedList(strings, reversed) && IsRun(reversed, pos, best)
    ensures var s, t := Reverse(reversed[pos]), Reverse(reversed[best]);
            s in strings && IsHost(strings, s, t) && Maximal(strings, t) && (pos == best <==> Maximal(strings, s))
  {
    var s, t := Reverse(reversed[pos]), Reverse(reversed[best]);
    BestIsHost(strings, reversed, pos, best);
    HostIsMaximal(strings, s, t);
    if pos != best {
      assert StrLess(reversed[pos], reversed[best]);
      StrTrichotomy(reversed[pos], reversed[best]);
      ReverseReverse(reversed[pos]);
      ReverseReverse(reversed[best]);
    }
  }

  /** A string is folded exactly when it is a proper suffix of another, and then into its host. */
  ghost predicate AllFolded(strings: set<string>, folded: map<string, string>) {
    && (forall s :: s in folded <==> s in strings && !Maximal(strings, s))
    && forall s :: s in folded ==> IsHost(strings, s, folded[s]) && Maximal(strings, folded[s])
  }

  method FoldStrings(strings: set<string>, reversed: seq<string>) returns (folded: map<string, string>)
    requires ReversedList(strings, reversed)
    ensures AllFolded(strings, folded)
  {
    folded := map[];
    for pos := 0 to |reversed|
      invariant forall s :: s in folded ==> s in strings && !Maximal(strings, s)
      invariant forall s :: s in folded ==> IsHost(strings, s, folded[s]) && Maximal(strings, folded[s])
      invariant forall k :: 0 <= k < pos ==> Maximal(strings, Reverse(reversed[k])) || Reverse(reversed[k]) in folded
    {
      var best := BestPosition(reversed, pos);
      AtPosition(strings, reversed, pos, best);
      if pos != best {
        folded := folded[Reverse(reversed[pos]) := Reverse(reversed[best])];
      }
    }
    forall s | s in strings && !Maximal(strings, s) ensures s in folded {
      ReverseReverse(s);
      var k :| 0 <= k < |reversed| && reversed[k] == Reverse(s);
    }
  }

  // ----- Offsets

  /** Every piece of `big` has as offset the length of the pieces before it. */
  ghost predicate Laid(big: seq<string>, offsets: map<string, int>) {
    && (forall s :: s in offsets <==> s in big)
    && forall i :: 0 <= i < |big| ==> big[i] in offsets && offsets[big[i]] == Start(big, i)
  }

  lemma LayOneMore(big: seq<string>, offsets: map<string, int>, s: string)
    requires Laid(big, offsets) && s !in big
    ensures Laid(big + [s], offsets[s := TotalLen(big)])
    ensures TotalLen(big + [s]) == TotalLen(big) + CLen(s)
  {
    var more, next := big + [s], offsets[s := TotalLen(big)];
    StartOfPrefix(big, more, |big|);
    forall i | 0 <= i < |more| ensures more[i] in next && next[more[i]] == Start(more, i) {
      if i < |big| {
        assert more[i] == big[i];
        StartOfPrefix(big, more, i);
      }
    }
    forall t ensures t in next <==> t in more {}
  }

  method SortedElements(strings: set<string>, metrics: set<string>, insertPoint: map<string, nat>)
    returns (order: seq<string>)
    ensures Distinct(order) && Sorted(order, KeyOrder(metrics, insertPoint)) && forall s :: s in order <==> s in strings
  {
    var listed := Elements(strings);
    KeyIsPreorder(metrics, insertPoint);
    order := Sort(listed, KeyOrder(metrics, insertPoint));
    PermutationKeepsDistinct(listed, order);
  }

  /** `big` are the unfolded strings among the first `n` of `order`. */
  ghost predicate Emitted(order: seq<string>, n: nat, folded: set<string>, keyLeq: (string, string) -> bool,
                          big: seq<string>)
    requires n <= |order|
  {
    Distinct(big) && Sorted(big, keyLeq) && forall s :: s in big <==> s in order[..n] && s !in folded
  }

  lemma EmitOneMore(order: seq<string>, n: nat, folded: set<string>, keyLeq: (string, string) -> bool, big: seq<string>)
    requires n < |order| && Distinct(order) && Sorted(order, keyLeq)
    requires Emitted(order, n, folded, keyLeq, big)
    ensures order[n] !in big
    ensures Emitted(order, n + 1, folded, keyLeq, if order[n] in folded then big else big + [order[n]])
  {
    var s := order[n];
    assert order[..n + 1] == order[..n] + [s];
    assert s !in order[..n];
    forall j | 0 <= j < |big| ensures keyLeq(big[j], s) {
      assert big[j] in order[..n];
      var k :| 0 <= k < n && order[k] == big[j];
    }
  }

  method EmitUnfolded(order: seq<string>, folded: set<string>, ghost keyLeq: (string, string) -> bool)
    returns (big: seq<string>, offsets: map<string, int>)
    requires Distinct(order) && Sorted(order, keyLeq)
    ensures Distinct(big) && Sorted(big, keyLeq) && Laid(big, offsets)
    ensures forall s :: s in big <==> s in order && s !in folded
  {
    var offset := 0;
    big, offsets := [], map[];
    for i := 0 to |order|
      invariant Emitted(order, i, folded, keyLeq, big)
      invariant Laid(big, offsets) && offset == TotalLen(big)
    {
      var s := order[i];
      EmitOneMore(order, i, folded, keyLeq, big);
      if s !in folded {
        LayOneMore(big, offsets, s);
        offsets := offsets[s := offset];
        big := big + [s];
        offset := offset + CLen(s);
      }
    }
    assert order[..|order|] == order;
  }

  /** The target of every fold has an offset already. */
  method OffsetsOfFolded(folded: map<string, string>, unfolded: map<string, int>) returns (offsets: map<string, int>)
    requires forall s :: s in folded ==> s !in unfolded && folded[s] in unfolded
    ensures forall s :: s in offsets <==> s in unfolded || s in folded
    ensures forall s :: s in unfolded ==> offsets[s] == unfolded[s]
    ensures forall s :: s in folded ==> offsets[s] == unfolded[folded[s]] + CLen(folded[s]) - CLen(s)
  {
    offsets := unfolded;
    var rest := folded.Keys;
    while rest != {}
      invariant forall s :: s in rest ==> s in folded
      invariant forall s :: s in offsets <==> s in unfolded || (s in folded && s !in rest)
      invariant forall s :: s in unfolded ==> offsets[s] == unfolded[s]
      invariant forall s :: s in folded && s !in rest ==> offsets[s] == unfolded[folded[s]] + CLen(folded[s]) - CLen(s)
      decreases |rest|
    {
      var s :| s in rest;
      var host := folded[s];
      offsets := offsets[s := offsets[host] + CLen(host) - CLen(s)];
      rest := rest - {s};
    }
  }

  lemma PlacedAt(strings: set<string>, offsets: map<string, int>, s: string, t: string)
    requires IsHost(strings, s, t) && Maximal(strings, t) && s in offsets && t in offsets
    requires offsets[s] == offsets[t] + CLen(t) - CLen(s)
    ensures Placed(strings, offsets, s)
  {
    hide IsHost, Maximal, CLen;
  }

  lemma AllPlaced(strings: set<string>, folded: map<string, string>, big: seq<string>,
                  unfolded: map<string, int>, offsets: map<string, int>)
    requires AllFolded(strings, folded)
    requires Distinct(big) && Laid(big, unfolded)
    requires forall s :: s in big <==> s in strings && s !in folded
    requires forall s :: s in offsets <==> s in unfolded || s in folded
    requires forall s :: s in unfolded ==> offsets[s] == unfolded[s]
    requires forall s :: s in folded ==>
               folded[s] in unfolded && offsets[s] == unfolded[folded[s]] + CLen(folded[s]) - CLen(s)
    ensures Packed(strings, big, offsets)
  {
    hide IsHost, Placed, CLen, Start;
    forall s | s in strings ensures Placed(strings, offsets, s) {
      if s in folded {
        PlacedAt(strings, offsets, s, folded[s]);
      } else {
        MaximalIsOwnHost(strings, s);
        PlacedAt(strings, offsets, s, s);
      }
    }
  }
}
