/** Range lists (src/pmu-events.c): `parse_range`, `parse_range_list` and the printing in examples/main.c. */
module Ranges {
  import opened Options
  import opened Numbers
  import opened CommaLists

  /** Both bounds are 64-bit values; the parser does not require `start <= end`. */
  datatype Range = Range(start: nat, end: nat)

  function ParseRange(term: string): Option<Range> {
    if term == "" then None
    else
      var minus := IndexOf(term, '-');
      if minus == |term| then
        var (x, used) := StrToULL(term, 10);
        if used == |term| then Some(Range(x, x)) else None
      else
        var (start, used) := StrToULL(term, 10);
        if used == |term| || term[used] != '-' || minus + 1 == |term| then None
        else
          var (end, usedEnd) := StrToULL(term[minus + 1..], 10);
          if minus + 1 + usedEnd == |term| then Some(Range(start, end)) else None
  }

  function ParseRangeListSpec(term: string): Option<seq<Range>> {
    ParseList(term, ParseRange)
  }

  method ParseRangeList(term: string) returns (r: Option<seq<Range>>)
    requires '\0' !in term
    ensures r == ParseRangeListSpec(term)
  {
    r := ParseListInPlace(term, ParseRange);
  }

  /** Both numbers of a pair, or the one number, are used up to their ends. */
  ghost predicate IsPair(term: string, k: nat, r: Range) {
    && k + 1 < |term| && term[k] == '-' && '-' !in term[..k]
    && (exists used :: 0 <= used < |term| && term[used] == '-' && StrToULL(term, 10) == (r.start, used))
    && StrToULL(term[k + 1..], 10) == (r.end, |term| - k - 1)
  }

  ghost predicate IsSingle(term: string, r: Range) {
    term != "" && '-' !in term && StrToULL(term, 10) == (r.start, |term|) && r.end == r.start
  }

  /** Which terms are accepted, and as what. */
  lemma RangeExactly(term: string, r: Range)
    ensures ParseRange(term) == Some(r) <==> IsSingle(term, r) || exists k: nat :: IsPair(term, k, r)
  {
    hide StrToULL;
    var minus := IndexOf(term, '-');
    if minus == |term| {
      assert term[..|term|] == term;
    } else {
      assert term[minus] == '-';
      if k: nat :| IsPair(term, k, r) {
        assert term == term[..k] + ['-'] + term[k + 1..];
        IndexOfAfter(term[..k], '-', term[k + 1..]);
      }
      if ParseRange(term) == Some(r) { assert IsPair(term, minus, r); }
    }
  }

  /** Refused: nothing, a number with something behind it, and a pair with something behind either number. */
  lemma RefusedRanges(a: nat, b: nat, junk: string)
    requires junk != "" && DigitValue(junk[0]) >= 10 && '-' !in junk
    ensures ParseRange("") == None
    ensures ParseRange(Print(a, 10) + junk) == None
    ensures ParseRange(Print(a, 10) + "-") == None
    ensures ParseRange(Print(a, 10) + junk + "-" + Print(b, 10)) == None
    ensures ParseRange(Print(a, 10) + "-" + (Print(b, 10) + junk)) == None
  {
    hide StrToULL, Print;
    var low, high := Print(a, 10), Print(b, 10);
    DecimalHas(a, '-');
    DecimalReadsBack(a, junk);
    IndexOfAbsent(low + junk, '-');
    DecimalReadsBack(b, junk);
    RefusedPair(low, "", a);
    RefusedPair(low, high + junk, a);
    RefusedFirst(low, junk, high, a);
  }

  lemma RefusedPair(low: string, second: string, a: nat)
    requires '-' !in low && low == Print(a, 10)
    requires second == "" || StrToULL(second, 10).1 < |second|
    ensures ParseRange(low + "-" + second) == None
  {
    hide StrToULL;
    var term := low + "-" + second;
    IndexOfAfter(low, '-', second);
    assert term == low + ['-'] + second && term[|low| + 1..] == second;
  }

  lemma RefusedFirst(low: string, junk: string, high: string, a: nat)
    requires '-' !in low && '-' !in junk && low == Print(a, 10) && junk != "" && DigitValue(junk[0]) >= 10
    ensures ParseRange(low + junk + "-" + high) == None
  {
    hide StrToULL;
    var term := low + junk + "-" + high;
    DecimalReadsBack(a, junk + ("-" + high));
    assert term == low + (junk + ("-" + high));
    assert term[|low|] == junk[0];
  }

  // ----- Printing

  function PrintPair(a: nat, b: nat): string { Print(a, 10) + ("-" + Print(b, 10)) }

  function PrintRange(r: Range): string {
    if r.start == r.end then Print(r.start, 10) else PrintPair(r.start, r.end)
  }

  function RangeTexts(rs: seq<Range>): seq<string> {
    seq(|rs|, i requires 0 <= i < |rs| => PrintRange(rs[i]))
  }

  /** Items separated by a comma and a space. */
  function PrintRanges(rs: seq<Range>): string {
    Join(RangeTexts(rs), " ")
  }

  /** The loop of the example program. */
  method PrintRangeList(rs: seq<Range>) returns (text: string)
    ensures text == PrintRanges(rs)
  {
    text := "";
    hide PrintRanges, Print;
    ghost var whole := PrintRanges(rs);
    assert rs[0..] == rs;
    for id := 0 to |rs|
      invariant text + PrintRanges(rs[id..]) == whole
    {
      ghost var before, rest := text, PrintRanges(rs[id + 1..]);
      var range := rs[id];
      PrintRangesStep(rs[id..]);
      assert rs[id..][1..] == rs[id + 1..];
      if range.start == range.end {
        text := text + Print(range.start, 10);
      } else {
        text := text + Print(range.start, 10) + "-" + Print(range.end, 10);
      }
      assert text == before + PrintRange(range);
      if id + 1 != |rs| {
        text := text + ", ";
      }
      Regroup(before, PrintRange(range), if id + 1 == |rs| then "" else ", ", rest);
    }
    assert rs[|rs|..] == [];
    NoRangesPrinted();
  }

  lemma Regroup(a: string, b: string, c: string, d: string)
    ensures (a + b + c) + d == a + (b + c + d)
    ensures c == "" ==> a + b + c == a + b
  {
  }

  lemma NoRangesPrinted()
    ensures PrintRanges([]) == ""
  {
  }

  lemma PrintRangesStep(rs: seq<Range>)
    requires rs != []
    ensures PrintRanges(rs) == PrintRange(rs[0]) + (if |rs| == 1 then "" else ", ") + PrintRanges(rs[1..])
  {
    assert RangeTexts(rs)[1..] == RangeTexts(rs[1..]);
  }

  predicate InWord(r: Range) { r.start <= ULLONG_MAX && r.end <= ULLONG_MAX }

  predicate AllInWord(rs: seq<Range>) {
    forall i :: 0 <= i < |rs| ==> InWord(rs[i])
  }

  /** Numbers beyond 64 bits are read as the largest one. */
  function Clamped(r: Range): Range { Range(Clamp(r.start), Clamp(r.end)) }

  function AllClamped(rs: seq<Range>): seq<Range> {
    seq(|rs|, i requires 0 <= i < |rs| => Clamped(rs[i]))
  }

  lemma ClampedIsSame(rs: seq<Range>)
    ensures AllClamped(rs) == rs <==> AllInWord(rs)
  {
    if AllClamped(rs) == rs {
      forall i | 0 <= i < |rs| ensures InWord(rs[i]) {
        assert AllClamped(rs)[i] == rs[i];
      }
    }
  }

  lemma DecimalHas(n: nat, c: char)
    requires DigitValue(c) >= 10
    ensures c !in Print(n, 10)
  {
    PrintDigits(n, 10);
    forall i | 0 <= i < |Print(n, 10)| ensures Print(n, 10)[i] != c {}
  }

  lemma SecondReadsBack(b: nat)
    ensures StrToULL(Print(b, 10), 10) == (Clamp(b), |Print(b, 10)|)
  {
    DecimalReadsBack(b, []);
    assert Print(b, 10) + [] == Print(b, 10);
  }

  lemma SpacedIndex(s: string)
    ensures IndexOf([' '] + s, '-') == 1 + IndexOf(s, '-')
    ensures IndexOf(s, '-') < |s| ==> ([' '] + s)[IndexOf(s, '-') + 2..] == s[IndexOf(s, '-') + 1..]
  {
    assert ([' '] + s)[1..] == s;
  }

  /** A term with a minus sign, from the position of the sign and what the two conversions return. */
  lemma ParsePair(s: string, k: nat, a: nat, b: nat)
    requires k == IndexOf(s, '-') && k + 1 < |s|
    requires StrToULL(s, 10) == (a, k) && StrToULL(s[k + 1..], 10) == (b, |s| - k - 1)
    ensures ParseRange(s) == Some(Range(a, b))
  {
    hide StrToULL, IndexOf;
  }

  lemma SingleParse(s: string, n: nat)
    requires s != "" && '-' !in s && StrToULL(s, 10) == (n, |s|)
    ensures ParseRange(s) == Some(Range(n, n))
  {
    hide StrToULL;
    IndexOfAbsent(s, '-');
  }

  lemma PairIndex(low: string, high: string)
    requires '-' !in low
    ensures var s := low + ("-" + high);
            IndexOf(s, '-') == |low| && s[|low|] == '-' && s[|low| + 1..] == high
  {
    var s := low + ("-" + high);
    IndexOfAfter(low, '-', high);
    assert s == low + ['-'] + high;
  }

  lemma SecondPart(high: string, b: nat, s: string, k: nat)
    requires StrToULL(high, 10) == (b, |high|) && k + 1 <= |s| && s[k + 1..] == high
    ensures StrToULL(s[k + 1..], 10) == (b, |s| - k - 1)
  {
    hide StrToULL;
  }

  lemma PairReadsBack(a: nat, b: nat)
    ensures ParseRange(PrintPair(a, b)) == ParseRange([' '] + PrintPair(a, b)) == Some(Clamped(Range(a, b)))
  {
    hide StrToULL, IndexOf, Print;
    var low, high := Print(a, 10), Print(b, 10);
    var s := PrintPair(a, b);
    DecimalHas(a, '-');
    PairIndex(low, high);
    DecimalReadsBack(a, "-" + high);
    SecondReadsBack(b);
    SecondPart(high, Clamp(b), s, |low|);
    ParsePair(s, |low|, Clamp(a), Clamp(b));
    SpacedIndex(s);
    LeadingSpace(s, 10);
    SecondPart(high, Clamp(b), [' '] + s, |low| + 1);
    ParsePair([' '] + s, |low| + 1, Clamp(a), Clamp(b));
  }

  lemma SingleReadsBack(n: nat)
    ensures ParseRange(Print(n, 10)) == ParseRange([' '] + Print(n, 10)) == Some(Clamped(Range(n, n)))
  {
    hide StrToULL, Print;
    var s := Print(n, 10);
    DecimalHas(n, '-');
    SecondReadsBack(n);
    SingleParse(s, Clamp(n));
    LeadingSpace(s, 10);
    SingleParse([' '] + s, Clamp(n));
  }

  /** Items separated by a comma, with or without a space behind it. */
  lemma RangePartsReadBack(rs: seq<Range>, gap: string)
    requires rs != [] && (gap == "" || gap == " ")
    ensures ParseRangeListSpec(Join(RangeTexts(rs), gap)) == Some(AllClamped(rs))
  {
    hide StrToULL, ParseRange;
    var parts := RangeTexts(rs);
    forall i | 0 <= i < |rs| ensures ',' !in parts[i] && parts[i] == "" + parts[i] {
      DecimalHas(rs[i].start, ',');
      DecimalHas(rs[i].end, ',');
    }
    forall i | 0 <= i < |rs| ensures ParseRange(parts[i]) == ParseRange(" " + parts[i]) == Some(Clamped(rs[i])) {
      SingleReadsBack(rs[i].start);
      PairReadsBack(rs[i].start, rs[i].end);
    }
    ParseJoined("", parts, gap, ParseRange, AllClamped(rs));
    assert "" + Join(parts, gap) == Join(parts, gap);
  }

  /** Printing a range list and parsing it gives the list back exactly if it is not empty and all bounds fit. */
  lemma RangeListRoundTrip(rs: seq<Range>)
    ensures ParseRangeListSpec(PrintRanges(rs)) == Some(rs) <==> rs != [] && AllInWord(rs)
  {
    if rs == [] {
      assert ParseRange(""[..0]) == None;
    } else {
      RangePartsReadBack(rs, " ");
      ClampedIsSame(rs);
    }
  }

  lemma {:induction false} JoinLacks(parts: seq<string>, gap: string, c: char)
    requires c != ',' && c !in gap && forall i :: 0 <= i < |parts| ==> c !in parts[i]
    ensures c !in Join(parts, gap)
  {
    if |parts| <= 1 {
    } else {
      JoinLacks(parts[1..], gap, c);
    }
  }

  lemma RangePartsLackNul(rs: seq<Range>, gap: string)
    requires '\0' !in gap
    ensures '\0' !in Join(RangeTexts(rs), gap)
  {
    forall i | 0 <= i < |rs| ensures '\0' !in PrintRange(rs[i]) {
      DecimalHas(rs[i].start, '\0');
      DecimalHas(rs[i].end, '\0');
    }
    JoinLacks(RangeTexts(rs), gap, '\0');
  }
}
