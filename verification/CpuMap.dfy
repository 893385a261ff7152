/** The CPU map builder of include/pmu-events/aarch64/util.h. */
module CpuMap {
  import opened Options
  import opened Order
  import opened Numbers
  import opened Ranges

  const INT16_MAX: nat := 0x7FFF

  // ----- What a CPU list means

  /** The character at a position, or the terminator. */
  function CharAt(s: string, i: nat): char
    requires i <= |s|
  {
    if i < |s| then s[i] else '\0'
  }

  lemma DigitHasMagnitude(s: string)
    requires s != [] && IsDigit(s[0])
    ensures Magnitude(s, 0).1 > 0
  {
    var skip := if HexPrefix(s) then 2 else 0;
    var u := s[skip..];
    assert u[0] == s[skip];
    assert DigitRun(u, EffectiveBase(s, 0)) > 0;
  }

  lemma DigitIsUsed(s: string)
    requires s != [] && IsDigit(s[0])
    ensures StrToULL(s, 0).1 > 0
  {
    hide Magnitude;
    DigitHasMagnitude(s);
    UnsignedReads(s, 0);
  }

  /** What follows the range, after the separator if there is one. */
  function Rest(s: string, used: nat): string
    requires used <= |s|
  {
    if CharAt(s, used) == '\0' then s[used..] else s[used + 1..]
  }

  /** The first range of a list that starts with a digit, and what follows it; none if it is invalid. */
  function FirstRange(s: string): (r: Option<(Range, string)>)
    requires s != [] && IsDigit(s[0])
    ensures r.Some? ==> r.value.0.start <= r.value.0.end < INT16_MAX && |r.value.1| < |s|
  {
    DigitIsUsed(s);
    var (start, used) := StrToULL(s, 0);
    var c := CharAt(s, used);
    if start >= INT16_MAX || c !in {'\0', ',', '-', '\n'} then None
    else if c == '-' then
      var t := s[used + 1..];
      var (end, usedEnd) := StrToULL(t, 0);
      if end >= INT16_MAX || CharAt(t, usedEnd) !in {'\0', ',', '\n'} || end < start then None
      else Some((Range(start, end), Rest(t, usedEnd)))
    else Some((Range(start, start), Rest(s, used)))
  }

  function Interval(r: Range): (s: seq<nat>)
    ensures forall n :: n in s <==> r.start <= n <= r.end
  {
    var size := if r.start <= r.end then r.end - r.start + 1 else 0;
    var s := seq(size, i requires 0 <= i < size => r.start + i);
    assert forall n :: r.start <= n <= r.end ==> n in s by {
      forall n | r.start <= n <= r.end ensures n in s { assert s[n - r.start] == n; }
    }
    s
  }

  predicate Meets(s: seq<nat>, r: Range) {
    exists n :: n in s && r.start <= n <= r.end
  }

  /** The CPUs in the order of the list, added to those of `acc`; none if the list is refused. */
  function Listed(s: string, acc: seq<nat>): Option<seq<nat>>
    decreases |s|
  {
    if s == [] || !IsDigit(s[0]) then Some(acc)
    else
      var r := FirstRange(s);
      if r.None? || Meets(acc, r.value.0) then None else Listed(r.value.1, acc + Interval(r.value.0))
  }

  // ----- The builder

  class PerfCpuMap {
    var nr: nat
    var values: array<int>

    constructor (nr: nat)
      ensures this.nr == nr && values.Length == nr && fresh(values)
    {
      this.nr := nr;
      values := new int[nr];
    }

    function Cpus(): seq<int>
      reads this, values
      requires nr <= values.Length
    {
      values[..nr]
    }
  }

  ghost predicate Increasing(s: seq<int>) {
    forall i, j :: 0 <= i < j < |s| ==> s[i] < s[j]
  }

  predicate AtMost(a: int, b: int) { a <= b }

  method QSort(a: array<int>)
    modifies a
    ensures multiset(a[..]) == multiset(old(a[..])) && Sorted(a[..], AtMost)
  {
    var s := Sort(a[..], AtMost);
    SameSize(s, a[..]);
    forall i | 0 <= i < a.Length { a[i] := s[i]; }
    assert a[..] == s;
  }

  lemma SameSize(s: seq<int>, t: seq<int>)
    requires multiset(s) == multiset(t)
    ensures |s| == |t|
  {
    assert |multiset(s)| == |s| && |multiset(t)| == |t|;
  }

  /** Removes repetitions from a sorted array in place; a cell is read only while it still holds its value. */
  method RemoveDups(a: array<int>) returns (j: nat)
    requires Sorted(a[..], AtMost)
    modifies a
    ensures j <= a.Length && Increasing(a[..j])
    ensures forall x :: x in a[..j] <==> x in old(a[..])
  {
    ghost var sorted := a[..];
    j := 0;
    for i := 0 to a.Length
      invariant j <= i
      invariant forall k :: i <= k + 1 && k < a.Length && 0 <= k ==> a[k] == sorted[k]
      invariant j > 0 <==> i > 0
      invariant i > 0 ==> a[j - 1] == sorted[i - 1]
      invariant Increasing(a[..j])
      invariant forall x :: x in a[..j] <==> x in sorted[..i]
    {
      assert sorted[..i + 1] == sorted[..i] + [sorted[i]];
      assert i > 0 ==> AtMost(sorted[i - 1], sorted[i]);
      if i == 0 || a[i] != a[i - 1] {
        ghost var before := a[..j];
        a[j] := a[i];
        j := j + 1;
        assert a[..j] == before + [sorted[i]];
      } else {
        assert sorted[i] == sorted[i - 1] && sorted[i - 1] in sorted[..i];
      }
    }
    assert sorted[..a.Length] == sorted;
  }

  method TrimNew(nrCpus: nat, tmp: array<int>) returns (cpus: PerfCpuMap)
    requires nrCpus <= tmp.Length
    ensures fresh(cpus) && fresh(cpus.values) && cpus.nr <= cpus.values.Length
    ensures Increasing(cpus.Cpus()) && forall x :: x in cpus.Cpus() <==> x in tmp[..nrCpus]
  {
    cpus := new PerfCpuMap(nrCpus);
    forall i | 0 <= i < nrCpus { cpus.values[i] := tmp[i]; }
    assert cpus.values[..] == tmp[..nrCpus];
    QSort(cpus.values);
    assert forall x :: x in cpus.values[..] <==> x in multiset(cpus.values[..]);
    assert forall x :: x in tmp[..nrCpus] <==> x in multiset(tmp[..nrCpus]);
    var j := RemoveDups(cpus.values);
    cpus.nr := j;
  }

  /** The CPUs collected so far, in an array that grows. */
  class CpuBuffer {
    var cells: array<int>
    var nr: nat

    ghost predicate Valid()
      reads this, cells
    {
      nr <= cells.Length
    }

    ghost function Cpus(): seq<int>
      reads this, cells
      requires Valid()
    {
      cells[..nr]
    }

    constructor ()
      ensures Valid() && Cpus() == [] && fresh(cells)
    {
      cells := new int[0];
      nr := 0;
    }

    method Contains(cpu: int) returns (found: bool)
      requires Valid()
      ensures found <==> cpu in Cpus()
    {
      for i := 0 to nr
        invariant cpu !in cells[..i]
      {
        if cells[i] == cpu {
          return true;
        }
        assert cells[..i + 1] == cells[..i] + [cells[i]];
      }
      return false;
    }

    /** Room for `wanted` more cells, or for 16. */
    method Push(cpu: int, wanted: nat)
      requires Valid() && wanted > 0
      modifies this, cells
      ensures Valid() && Cpus() == old(Cpus()) + [cpu]
      ensures cells == old(cells) || fresh(cells)
    {
      if nr == cells.Length {
        var more := new int[cells.Length + (if wanted > 16 then wanted else 16)];
        forall i | 0 <= i < nr { more[i] := cells[i]; }
        assert more[..nr] == cells[..nr];
        cells := more;
      }
      cells[nr] := cpu;
      nr := nr + 1;
      assert cells[..nr] == old(cells[..nr]) + [cpu];
    }

    /** Adds the CPUs of a range one by one, and stops at one that is there already. */
    method AddRange(r: Range) returns (ok: bool)
      requires Valid() && r.start <= r.end
      modifies this, cells
      ensures Valid() && (cells == old(cells) || fresh(cells))
      ensures ok <==> forall n :: n in old(Cpus()) ==> !(r.start <= n <= r.end)
      ensures ok ==> Cpus() == old(Cpus()) + Interval(r)
    {
      ghost var before := Cpus();
      assert Interval(r)[..0] == [] && before + [] == before;
      for cpu := r.start to r.end + 1
        invariant Valid() && (cells == old(cells) || fresh(cells))
        invariant Cpus() == before + Interval(r)[..cpu - r.start]
        invariant forall n :: n in before ==> !(r.start <= n < cpu)
      {
        var found := Contains(cpu);
        if found {
          assert cpu !in Interval(r)[..cpu - r.start];
          return false;
        }
        assert Interval(r)[..cpu + 1 - r.start] == Interval(r)[..cpu - r.start] + [cpu];
        Push(cpu, r.end - cpu + 1);
      }
      assert Interval(r)[..r.end + 1 - r.start] == Interval(r);
      return true;
    }
  }

  /** The map of a CPU list: null if the list is refused, the single CPU -1 for the empty list. */
  method PerfCpuMapNew(list: string) returns (cpus: PerfCpuMap?)
    ensures cpus == null <==> (list != [] && !IsDigit(list[0])) || Listed(list, []).None?
    ensures cpus != null ==> cpus.nr <= cpus.values.Length && Increasing(cpus.Cpus())
    ensures cpus != null && list != [] ==> forall x: int :: x in cpus.Cpus() <==> x >= 0 && x in Listed(list, []).value
    ensures cpus != null && list == [] ==> cpus.Cpus() == [-1]
  {
    if list != [] && !IsDigit(list[0]) {
      return null;
    }
    var buffer := new CpuBuffer();
    var s := list;
    ghost var acc: seq<nat> := [];
    while s != [] && IsDigit(s[0])
      invariant fresh(buffer) && fresh(buffer.cells) && buffer.Valid() && buffer.Cpus() == acc
      invariant Listed(list, []) == Listed(s, acc)
      invariant acc == [] ==> s == list
      decreases |s|
    {
      var r := FirstRange(s);
      if r.None? {
        return null;
      }
      var ok := buffer.AddRange(r.value.0);
      if !ok {
        return null;
      }
      acc := acc + Interval(r.value.0);
      s := r.value.1;
    }
    if buffer.nr > 0 {
      cpus := TrimNew(buffer.nr, buffer.cells);
    } else {
      // Nothing was collected, so nothing was read: the branch for an unread rest is never taken.
      assert s == [];
      cpus := new PerfCpuMap(1);
      cpus.values[0] := -1;
    }
  }

  // ----- Lists as they are written

  /** The text of a list, with or without a line feed at the end. */
  function PrintCpus(rs: seq<Range>, tail: string): string {
    if rs == [] then tail
    else PrintRange(rs[0]) + (if |rs| == 1 then tail else "," + PrintCpus(rs[1..], tail))
  }

  predicate Proper(r: Range) { r.start <= r.end < 32767 }

  /** Behind the last range: nothing, or a separator behind which no further range begins. */
  predicate Ends(tail: string) {
    tail == "" || ((tail[0] == ',' || tail[0] == '\n') && (|tail| == 1 || !IsDigit(tail[1])))
  }

  predicate Overlap(a: Range, b: Range) { a.start <= b.end && b.start <= a.end }

  /** Ranges in order, inside the limit and without a common CPU. */
  ghost predicate Acceptable(rs: seq<Range>) {
    && (forall i :: 0 <= i < |rs| ==> Proper(rs[i]))
    && forall i, j :: 0 <= i < j < |rs| ==> !Overlap(rs[i], rs[j])
  }

  function Union(rs: seq<Range>): seq<nat> {
    if rs == [] then [] else Interval(rs[0]) + Union(rs[1..])
  }

  lemma {:induction false} UnionMembers(rs: seq<Range>, n: nat)
    ensures n in Union(rs) <==> exists i :: 0 <= i < |rs| && rs[i].start <= n <= rs[i].end
  {
    if rs == [] {
    } else {
      UnionMembers(rs[1..], n);
      if i :| 0 <= i < |rs| && rs[i].start <= n <= rs[i].end && i > 0 { assert rs[1..][i - 1] == rs[i]; }
      if i :| 0 <= i < |rs[1..]| && rs[1..][i].start <= n <= rs[1..][i].end { assert rs[i + 1] == rs[1..][i]; }
    }
  }

  /** A separator or the end, as it can follow a range. */
  predicate Separated(rest: string) {
    rest != [] ==> rest[0] == ',' || rest[0] == '\n'
  }

  function AfterSeparator(rest: string): string { if rest == [] then [] else rest[1..] }

  lemma NumberReadsBack(n: nat, rest: string)
    requires Separated(rest) || (rest != [] && rest[0] == '-')
    ensures var s := Print(n, 10) + rest;
            && s != [] && IsDigit(s[0])
            && StrToULL(s, 0) == (Clamp(n), |Print(n, 10)|)
            && s[|Print(n, 10)|..] == rest
            && CharAt(s, |Print(n, 10)|) == CharAt(rest, 0)
  {
    PrintDigits(n, 10);
    DecimalReadsBackInBaseZero(n, rest);
    assert (Print(n, 10) + rest)[0] == Print(n, 10)[0];
  }

  /** A printed range is read back if it is proper, and refused otherwise. */
  lemma RangeIsRead(r: Range, rest: string)
    requires Separated(rest)
    ensures var s := PrintRange(r) + rest;
            && s != [] && IsDigit(s[0])
            && FirstRange(s) == (if Proper(r) then Some((r, AfterSeparator(rest))) else None)
  {
    hide StrToULL, Print;
    var low, high := Print(r.start, 10), Print(r.end, 10);
    var s := PrintRange(r) + rest;
    if r.start == r.end {
      NumberReadsBack(r.start, rest);
    } else {
      var t := high + rest;
      assert s == low + ("-" + t);
      NumberReadsBack(r.start, "-" + t);
      NumberReadsBack(r.end, rest);
      assert s[|low| + 1..] == t;
    }
  }

  lemma PairIsRefused(s: string, second: string, start: nat, used: nat, end: nat, usedEnd: nat)
    requires s != [] && IsDigit(s[0]) && used < |s| && s[used] == '-' && s[used + 1..] == second
    requires StrToULL(s, 0) == (start, used) && StrToULL(second, 0) == (end, usedEnd)
    requires end < start || (usedEnd < |second| && second[usedEnd] !in {'\0', ',', '\n'})
    ensures FirstRange(s) == None
  {
    hide StrToULL, Rest;
  }

  /** Refused: anything but a separator behind a number, and anything but a comma or line feed behind a pair. */
  lemma RefusedCpus(a: nat, b: nat, junk: string)
    requires junk != "" && !IsDigit(junk[0]) && junk[0] !in {'\0', ',', '\n', 'x', 'X'}
    ensures var s := Print(a, 10) + junk; IsDigit(s[0]) && (junk[0] != '-' ==> FirstRange(s) == None)
    ensures var s := Print(a, 10) + ("-" + (Print(b, 10) + junk)); IsDigit(s[0]) && FirstRange(s) == None
  {
    hide StrToULL, Print;
    var low, second := Print(a, 10), Print(b, 10) + junk;
    PrintDigits(a, 10);
    OnlyDigitsCount(low[0]);
    OnlyDigitsCount(junk[0]);
    DecimalReadsBackInBaseZero(a, junk);
    DecimalReadsBackInBaseZero(a, "-" + second);
    DecimalReadsBackInBaseZero(b, junk);
    assert (low + junk)[|low|] == junk[0] && second[|Print(b, 10)|] == junk[0];
    var s := low + ("-" + second);
    assert s[|low|] == '-' && s[|low| + 1..] == second;
    PairIsRefused(s, second, Clamp(a), |low|, Clamp(b), |Print(b, 10)|);
  }

  /** A pair without a second number is read as one that ends at zero. */
  lemma MissingEnd(a: nat)
    ensures var s := Print(a, 10) + "-";
            IsDigit(s[0]) && FirstRange(s) == if a == 0 then Some((Range(0, 0), "")) else None
  {
    hide StrToULL, Print;
    var low := Print(a, 10);
    var s := low + "-";
    PrintDigits(a, 10);
    OnlyDigitsCount(low[0]);
    DecimalReadsBackInBaseZero(a, "-");
    assert s[|low| + 1..] == "" && s[|low|] == '-';
    NoNumber("", 0);
  }

  /** Numbers may also be written in hexadecimal, and in octal with a leading zero. */
  lemma OtherBases(prefix: string, digits: string, rest: string, b: Base)
    requires IsWritten(prefix, digits, rest, 0, b) && digits != [] && AllDigits(digits, b) && Separated(rest)
    ensures var s, n := prefix + digits + rest, ValueOf(digits, b);
            && s != [] && IsDigit(s[0])
            && FirstRange(s) == if n < 32767 then Some((Range(n, n), AfterSeparator(rest))) else None
  {
    hide StrToULL, ValueOf;
    var s := prefix + digits + rest;
    OnlyDigitsCount(digits[0]);
    NumberIsRead(prefix, digits, rest, 0, b);
    assert s[|prefix| + |digits|..] == rest;
    assert s[0] == if prefix == "" then digits[0] else '0';
  }

  /** Acceptable, and without a CPU that was collected before. */
  ghost predicate Fits(rs: seq<Range>, acc: seq<nat>) {
    Acceptable(rs) && forall i :: 0 <= i < |rs| ==> !Meets(acc, rs[i])
  }

  lemma {:induction false} PrintedIsListed(rs: seq<Range>, tail: string, acc: seq<nat>)
    requires rs != [] && Ends(tail)
    ensures Listed(PrintCpus(rs, tail), acc) == if Fits(rs, acc) then Some(acc + Union(rs)) else None
    decreases |rs|
  {
    hide FirstRange, Interval, Meets, Fits, PrintRange;
    var first, others := rs[0], rs[1..];
    var rest := if |rs| == 1 then tail else "," + PrintCpus(others, tail);
    RangeIsRead(first, rest);
    FitsStep(rs, acc);
    if Proper(first) && !Meets(acc, first) {
      var more := acc + Interval(first);
      if |rs| == 1 {
        assert Listed(AfterSeparator(rest), more) == Some(more) && Union(others) == [];
        assert acc + Union(rs) == acc + (Interval(first) + []) == more;
      } else {
        assert AfterSeparator(rest) == PrintCpus(others, tail);
        PrintedIsListed(others, tail, more);
        assert acc + (Interval(first) + Union(others)) == more + Union(others);
      }
    }
  }

  lemma FitsStep(rs: seq<Range>, acc: seq<nat>)
    requires rs != []
    ensures Fits(rs, acc) <==> Proper(rs[0]) && !Meets(acc, rs[0]) && Fits(rs[1..], acc + Interval(rs[0]))
    ensures |rs| == 1 ==> Fits(rs[1..], acc + Interval(rs[0]))
  {
    var others, more := rs[1..], acc + Interval(rs[0]);
    assert forall i :: 0 <= i < |others| ==> others[i] == rs[i + 1];
    if Proper(rs[0]) {
      forall i | 0 <= i < |others|
        ensures Meets(more, others[i]) <==>
                  Meets(acc, rs[i + 1]) || (others[i].start <= others[i].end && Overlap(rs[0], rs[i + 1]))
      {
        MeetsMore(acc, rs[0], others[i]);
      }
    }
  }

  lemma MeetsMore(acc: seq<nat>, a: Range, r: Range)
    requires Proper(a)
    ensures Meets(acc + Interval(a), r) <==> Meets(acc, r) || (r.start <= r.end && Overlap(a, r))
  {
    var more := acc + Interval(a);
    if Meets(acc, r) {
      var n :| n in acc && r.start <= n <= r.end;
      assert n in more;
    }
    if r.start <= r.end && Overlap(a, r) {
      var n := if a.start <= r.start then r.start else a.start;
      assert n in Interval(a) && n in more;
    }
  }

  /**
   * A written list is refused exactly when a range is reversed, a number reaches the limit or a CPU is repeated;
   * otherwise the builder is left with the union of the ranges.
   */
  lemma WrittenListIsBuilt(rs: seq<Range>, tail: string)
    requires rs != [] && Ends(tail)
    ensures var list := PrintCpus(rs, tail);
            && list != [] && IsDigit(list[0])
            && (Listed(list, []).Some? <==> Acceptable(rs))
            && (Acceptable(rs) ==> forall n :: n in Listed(list, []).value <==>
                                               exists i :: 0 <= i < |rs| && rs[i].start <= n <= rs[i].end)
  {
    hide FirstRange, Listed, PrintRange, Interval, Proper, Overlap;
    RangeIsRead(rs[0], if |rs| == 1 then tail else "," + PrintCpus(rs[1..], tail));
    PrintedIsListed(rs, tail, []);
    assert Fits(rs, []) <==> Acceptable(rs);
    if Acceptable(rs) {
      assert [] + Union(rs) == Union(rs);
      forall n: nat ensures n in Union(rs) <==> exists i :: 0 <= i < |rs| && rs[i].start <= n <= rs[i].end {
        UnionMembers(rs, n);
      }
    }
  }
}
