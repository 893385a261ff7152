/** `apply_range_list_to_val` (src/pmu-events.c): the bits of a value spread over ranges of a 64-bit word. */
module ConfigBits {
  import opened Words
  import opened Ranges
  import opened Order

  predicate InBounds(r: Range) { r.start <= r.end < 64 }

  function Width(r: Range): nat
    requires InBounds(r)
  {
    r.end - r.start + 1
  }

  /** Ranges inside the word; after a range of all 64 bits the shift of the value is undefined, so it is the last. */
  predicate Usable(list: seq<Range>) {
    forall i :: 0 <= i < |list| ==> InBounds(list[i]) && (i + 1 < |list| ==> Width(list[i]) < 64)
  }

  /** The word with `bits` in place of its bits from `start` on. */
  function Splice(w: Word, start: nat, bits: seq<bool>): Word
    requires start + |bits| <= 64
  {
    w[..start] + bits + w[start + |bits|..]
  }

  /** Range after range takes the lowest bits left of the value. */
  function Scatter(w: Word, v: Word, list: seq<Range>): Word
    requires Usable(list)
    decreases |list|
  {
    if list == [] then w
    else
      var n := Width(list[0]);
      var next := Splice(w, list[0].start, v[..n]);
      if |list| == 1 then next else Scatter(next, Shr(v, n), list[1..])
  }

  function Mask(start: nat, n: nat): Word
    requires 1 <= n && start + n <= 64
  {
    Shl(Shr(AllOnes(), 64 - n), start)
  }

  lemma MaskBit(start: nat, n: nat, p: nat)
    requires 1 <= n && start + n <= 64 && p < 64
    ensures Mask(start, n)[p] <==> start <= p < start + n
  {
    var ones := Shr(AllOnes(), 64 - n);
    if p >= start { assert Mask(start, n)[p] == ones[p - start]; }
  }

  lemma OneRange(w: Word, v: Word, start: nat, n: nat)
    requires 1 <= n && start + n <= 64
    ensures BitOr(BitAnd(w, BitNot(Mask(start, n))), BitAnd(Shl(v, start), Mask(start, n))) == Splice(w, start, v[..n])
  {
    var mask := Mask(start, n);
    var r := BitOr(BitAnd(w, BitNot(mask)), BitAnd(Shl(v, start), mask));
    forall p | 0 <= p < 64 ensures r[p] == Splice(w, start, v[..n])[p] {
      MaskBit(start, n, p);
      if p >= start { assert Shl(v, start)[p] == v[p - start]; }
    }
  }

  /** The loop over the ranges; what a shift by 64 leaves in the value is arbitrary. */
  method ApplyRangeListToVal(config: Word, value: Word, list: seq<Range>) returns (result: Word)
    requires Usable(list)
    ensures result == Scatter(config, value, list)
  {
    result := config;
    var toApply := value;
    assert list[0..] == list;
    for i := 0 to |list|
      invariant i == |list| ==> result == Scatter(config, value, list)
      invariant i < |list| ==> Scatter(result, toApply, list[i..]) == Scatter(config, value, list)
    {
      var range := list[i];
      var len := range.end - range.start + 1;
      assert list[i..][0] == range && list[i..][1..] == list[i + 1..];
      OneRange(result, toApply, range.start, len);
      var mask := Mask(range.start, len);
      var cur := BitAnd(Shl(toApply, range.start), mask);
      result := BitAnd(result, BitNot(mask));
      result := BitOr(result, cur);
      if len < 64 {
        toApply := Shr(toApply, len);
      } else {
        toApply := *;
      }
    }
  }

  // ----- Which bit goes where

  function Indices(r: Range): (s: seq<nat>)
    requires InBounds(r)
  {
    seq(Width(r), i requires 0 <= i < Width(r) => r.start + i)
  }

  lemma IndicesMember(r: Range, p: nat)
    requires InBounds(r)
    ensures p in Indices(r) <==> r.start <= p <= r.end
  {
    if r.start <= p <= r.end { assert Indices(r)[p - r.start] == p; }
  }

  /** All bit positions of a list, in the order in which they take the bits of a value. */
  function Positions(list: seq<Range>): seq<nat>
    requires forall i :: 0 <= i < |list| ==> InBounds(list[i])
  {
    if list == [] then [] else Indices(list[0]) + Positions(list[1..])
  }

  /** In-bounds ranges that do not overlap. */
  ghost predicate Disjoint(list: seq<Range>) {
    && (forall i :: 0 <= i < |list| ==> InBounds(list[i]))
    && forall i, j :: 0 <= i < j < |list| ==> list[i].end < list[j].start || list[j].end < list[i].start
  }

  lemma DisjointIsUsable(list: seq<Range>)
    requires Disjoint(list)
    ensures Usable(list)
  {
    forall i | 0 <= i < |list| && i + 1 < |list| ensures Width(list[i]) < 64 {
      assert list[i].end < list[i + 1].start || list[i + 1].end < list[i].start;
    }
  }

  lemma {:induction false} PositionInRange(list: seq<Range>, p: nat)
    requires forall i :: 0 <= i < |list| ==> InBounds(list[i])
    ensures p in Positions(list) <==> exists i :: 0 <= i < |list| && list[i].start <= p <= list[i].end
  {
    if list == [] {
    } else {
      PositionInRange(list[1..], p);
      IndicesMember(list[0], p);
      if i :| 0 <= i < |list| && list[i].start <= p <= list[i].end && i > 0 { assert list[1..][i - 1] == list[i]; }
    }
  }

  lemma {:induction false} PositionsAreDistinct(list: seq<Range>)
    requires Disjoint(list)
    ensures Distinct(Positions(list))
  {
    if list == [] {
    } else {
      var first, rest := Indices(list[0]), Positions(list[1..]);
      PositionsAreDistinct(list[1..]);
      forall k, m | 0 <= k < |first| && 0 <= m < |rest| ensures first[k] != rest[m] {
        PositionInRange(list[1..], rest[m]);
        var i :| 0 <= i < |list[1..]| && list[1..][i].start <= rest[m] <= list[1..][i].end;
        assert list[i + 1] == list[1..][i];
      }
    }
  }

  /** The `k`-th bit of a value that is filled up with zeros. */
  function BitAt(v: Word, k: nat): bool { k < 64 && v[k] }

  lemma {:induction false} ScatterElsewhere(w: Word, v: Word, list: seq<Range>, p: nat)
    requires Usable(list) && p < 64 && p !in Positions(list)
    ensures Scatter(w, v, list)[p] == w[p]
    decreases |list|
  {
    if list == [] {
    } else {
      var n := Width(list[0]);
      var next := Splice(w, list[0].start, v[..n]);
      IndicesMember(list[0], p);
      assert next[p] == w[p];
      if |list| > 1 { ScatterElsewhere(next, Shr(v, n), list[1..], p); }
    }
  }

  /** The list has position `k` of its positions nowhere behind it. */
  ghost predicate IsLast(positions: seq<nat>, k: nat) {
    k < |positions| && forall m :: k < m < |positions| ==> positions[m] != positions[k]
  }

  lemma {:induction false} HasLast(positions: seq<nat>, p: nat) returns (k: nat)
    requires p in positions
    ensures IsLast(positions, k) && positions[k] == p
  {
    var n := |positions| - 1;
    if positions[n] == p {
      k := n;
    } else {
      k := HasLast(positions[..n], p);
    }
  }

  /** A listed bit of the word holds the bit of the value at the last place where it is listed. */
  lemma {:induction false} ScatterHolds(w: Word, v: Word, list: seq<Range>, k: nat)
    requires Usable(list) && IsLast(Positions(list), k)
    ensures Positions(list)[k] < 64
    ensures Scatter(w, v, list)[Positions(list)[k]] == BitAt(v, k)
    decreases |list|
  {
    var n, rest := Width(list[0]), Positions(list[1..]);
    var next := Splice(w, list[0].start, v[..n]);
    if k < n {
      var p := list[0].start + k;
      assert Positions(list)[k] == p && next[p] == v[k];
      assert forall m :: 0 <= m < |rest| ==> rest[m] == Positions(list)[n + m] != p;
      if |list| > 1 { ScatterElsewhere(next, Shr(v, n), list[1..], p); }
    } else {
      assert forall m :: 0 <= m < |rest| ==> rest[m] == Positions(list)[n + m];
      ScatterHolds(next, Shr(v, n), list[1..], k - n);
    }
  }

  /** Bit `k` of the value stands at the `k`-th position, if the ranges do not overlap. */
  lemma ScatterPlacesBits(w: Word, v: Word, list: seq<Range>, k: nat)
    requires Disjoint(list) && k < |Positions(list)|
    ensures Usable(list) && Positions(list)[k] < 64
    ensures Scatter(w, v, list)[Positions(list)[k]] == BitAt(v, k)
  {
    DisjointIsUsable(list);
    PositionsAreDistinct(list);
    ScatterHolds(w, v, list, k);
  }

  // ----- Reading a value back

  function Gather(w: Word, list: seq<Range>): seq<bool>
    requires forall i :: 0 <= i < |list| ==> InBounds(list[i])
  {
    seq(|Positions(list)|, k requires 0 <= k < |Positions(list)| =>
          Positions(list)[k] < 64 && w[Positions(list)[k]])
  }

  function TotalWidth(list: seq<Range>): nat
    requires forall i :: 0 <= i < |list| ==> InBounds(list[i])
  {
    |Positions(list)|
  }

  lemma BitsOfWord(x: nat, n: nat, k: nat)
    requires x < Pow2(64) && k < n
    ensures ToBits(x, n)[k] == BitAt(ToBits(x, 64), k)
  {
    if k < 64 { BitsAgree(x, n, 64, k); } else { HighBitsAreZero(x, n, 64, k); }
  }

  /** The positions of the list hold the value modulo two to their number. */
  lemma ScatterReadsBack(w: Word, x: nat, list: seq<Range>)
    requires Disjoint(list) && x < Pow2(64)
    ensures Usable(list)
    ensures ToNat(Gather(Scatter(w, ToBits(x, 64), list), list)) == x % Pow2(TotalWidth(list))
  {
    DisjointIsUsable(list);
    var n := TotalWidth(list);
    var got := Gather(Scatter(w, ToBits(x, 64), list), list);
    forall k | 0 <= k < n ensures got[k] == ToBits(x, n)[k] {
      ScatterPlacesBits(w, ToBits(x, 64), list, k);
      BitsOfWord(x, n, k);
    }
    assert got == ToBits(x, n);
    NumberOfBits(x, n);
  }

  /** Applying the same value twice is applying it once, also for overlapping ranges. */
  lemma ScatterIsIdempotent(w: Word, v: Word, list: seq<Range>)
    requires Usable(list)
    ensures Scatter(Scatter(w, v, list), v, list) == Scatter(w, v, list)
  {
    var once := Scatter(w, v, list);
    forall p: nat | p < 64 ensures Scatter(once, v, list)[p] == once[p] {
      if p in Positions(list) {
        var k := HasLast(Positions(list), p);
        ScatterHolds(w, v, list, k);
        ScatterHolds(once, v, list, k);
      } else {
        ScatterElsewhere(once, v, list, p);
      }
    }
  }
}
