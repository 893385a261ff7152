/** The binary search of the generated `describe_metricgroup` and the order of its table (jevents.py). */
module MetricGroups {
  import opened Options
  import opened Order

  /** Name and description of a metric group, as the C strings at the two offsets of a row. */
  datatype Group = Group(name: string, description: string)

  // ----- The binary search

  function Search(groups: seq<Group>, name: string, low: int, high: int): Option<string>
    requires 0 <= low && high < |groups|
    decreases high - low + 1
  {
    if low > high then None
    else
      var mid := (low + high) / 2;
      if groups[mid].name == name then Some(groups[mid].description)
      else if StrLess(groups[mid].name, name) then Search(groups, name, mid + 1, high)
      else Search(groups, name, low, mid - 1)
  }

  ghost predicate Ascending(groups: seq<Group>) {
    forall i, j :: 0 <= i < j < |groups| ==> StrLess(groups[i].name, groups[j].name)
  }

  lemma {:induction false} SearchInRange(groups: seq<Group>, name: string, low: int, high: int)
    requires Ascending(groups) && 0 <= low && high < |groups|
    ensures Search(groups, name, low, high).None? <==> forall i :: low <= i <= high ==> groups[i].name != name
    ensures forall i :: low <= i <= high && groups[i].name == name ==>
              Search(groups, name, low, high) == Some(groups[i].description)
    decreases high - low + 1
  {
    hide StrLess;
    if low > high {
    } else {
      var mid := (low + high) / 2;
      SearchInRange(groups, name, mid + 1, high);
      SearchInRange(groups, name, low, mid - 1);
      forall i | low <= i <= high && groups[i].name == name
        ensures if i < mid then StrLess(name, groups[mid].name)
                else if i > mid then StrLess(groups[mid].name, name)
                else true
      {
      }
      StrTrichotomy(groups[mid].name, name);
    }
  }

  /** On an ascending table the search finds every group and nothing else. */
  lemma SearchIsLookup(groups: seq<Group>, name: string)
    requires Ascending(groups)
    ensures Search(groups, name, 0, |groups| - 1).None? <==> forall i :: 0 <= i < |groups| ==> groups[i].name != name
    ensures forall i :: 0 <= i < |groups| && groups[i].name == name ==>
              Search(groups, name, 0, |groups| - 1) == Some(groups[i].description)
  {
    SearchInRange(groups, name, 0, |groups| - 1);
  }

  // ----- The search needs the order

  ghost predicate DistinctNames(groups: seq<Group>) {
    forall i, j :: 0 <= i < j < |groups| ==> groups[i].name != groups[j].name
  }

  /** Every group of the table is found by its name. */
  ghost predicate AllFound(groups: seq<Group>, low: int, high: int)
    requires 0 <= low && high < |groups|
  {
    forall i :: low <= i <= high ==> Search(groups, groups[i].name, low, high) == Some(groups[i].description)
  }

  ghost predicate AscendingFrom(groups: seq<Group>, low: int, high: int)
    requires 0 <= low && high < |groups|
  {
    forall i, j :: low <= i < j <= high ==> StrLess(groups[i].name, groups[j].name)
  }

  /** The search stays in its range: what it returns is the description of a group there. */
  lemma {:induction false} SearchHit(groups: seq<Group>, name: string, low: int, high: int)
    requires 0 <= low && high < |groups| && Search(groups, name, low, high).Some?
    ensures exists i :: low <= i <= high && groups[i].name == name
    decreases high - low + 1
  {
    var mid := (low + high) / 2;
    if groups[mid].name == name {
    } else if StrLess(groups[mid].name, name) {
      SearchHit(groups, name, mid + 1, high);
    } else {
      SearchHit(groups, name, low, mid - 1);
    }
  }

  /** A group that is found stands on its side of the middle. */
  lemma SideOfMiddle(groups: seq<Group>, low: int, high: int, i: int)
    requires 0 <= low <= i <= high < |groups| && DistinctNames(groups)
    requires Search(groups, groups[i].name, low, high) == Some(groups[i].description)
    ensures var mid := (low + high) / 2;
            && (i < mid ==> StrLess(groups[i].name, groups[mid].name)
                            && Search(groups, groups[i].name, low, mid - 1) == Some(groups[i].description))
            && (i > mid ==> StrLess(groups[mid].name, groups[i].name)
                            && Search(groups, groups[i].name, mid + 1, high) == Some(groups[i].description))
  {
    var mid := (low + high) / 2;
    var name := groups[i].name;
    StrTrichotomy(groups[mid].name, name);
    if i < mid && StrLess(groups[mid].name, name) {
      SearchHit(groups, name, mid + 1, high);
    }
    if i > mid && StrLess(name, groups[mid].name) {
      SearchHit(groups, name, low, mid - 1);
    }
  }

  lemma {:induction false} FoundAscends(groups: seq<Group>, low: int, high: int)
    requires 0 <= low && high < |groups| && DistinctNames(groups)
    requires AllFound(groups, low, high)
    ensures AscendingFrom(groups, low, high)
    decreases high - low + 1
  {
    hide Search, StrLess;
    if low > high {
    } else {
      var mid := (low + high) / 2;
      forall i | low <= i <= high
        ensures i < mid ==> StrLess(groups[i].name, groups[mid].name)
                            && Search(groups, groups[i].name, low, mid - 1) == Some(groups[i].description)
        ensures i > mid ==> StrLess(groups[mid].name, groups[i].name)
                            && Search(groups, groups[i].name, mid + 1, high) == Some(groups[i].description)
      {
        SideOfMiddle(groups, low, high, i);
      }
      FoundAscends(groups, low, mid - 1);
      FoundAscends(groups, mid + 1, high);
      forall i, j | low <= i < j <= high ensures StrLess(groups[i].name, groups[j].name) {
        if i < mid < j { StrTransitive(groups[i].name, groups[mid].name, groups[j].name); }
      }
    }
  }

  /** Among distinct names the search finds every group exactly when the table is ascending. */
  lemma AllFoundExactlyWhenAscending(groups: seq<Group>)
    requires DistinctNames(groups)
    ensures AllFound(groups, 0, |groups| - 1) <==> Ascending(groups)
  {
    if AllFound(groups, 0, |groups| - 1) { FoundAscends(groups, 0, |groups| - 1); }
    if Ascending(groups) {
      forall i | 0 <= i < |groups|
        ensures Search(groups, groups[i].name, 0, |groups| - 1) == Some(groups[i].description)
      {
        SearchIsLookup(groups, groups[i].name);
      }
    }
  }

  // ----- The order in which the generator writes the table

  /** The generator sorts the texts of the names, which end in an escaped NUL. */
  function NameText(name: string): string { name + ['\\', '0', '0', '0'] }

  /** `b` goes on where `a` ends, with a character below the backslash. */
  predicate ExtendsLow(a: string, b: string) {
    a < b && b[|a|] < '\\'
  }

  /** The two orders differ exactly on such pairs. */
  lemma {:induction false} TextOrder(a: string, b: string)
    requires '\\' !in a && '\\' !in b && a != b
    ensures StrLess(NameText(a), NameText(b)) <==>
              (StrLess(a, b) && !ExtendsLow(a, b)) || ExtendsLow(b, a)
  {
    var ta, tb := NameText(a), NameText(b);
    if a != [] && b != [] {
      assert ta[1..] == NameText(a[1..]) && tb[1..] == NameText(b[1..]);
      if a[0] == b[0] {
        assert a == [a[0]] + a[1..] && b == [b[0]] + b[1..];
        TextOrder(a[1..], b[1..]);
        assert ExtendsLow(a, b) == ExtendsLow(a[1..], b[1..]);
        assert ExtendsLow(b, a) == ExtendsLow(b[1..], a[1..]);
      }
    } else if a == [] {
      assert tb[0] == b[0] && ta[0] == '\\' && b[0] in b;
    } else {
      assert ta[0] == a[0] && tb[0] == '\\' && a[0] in a;
    }
  }

  /** A table as the generator writes it, for names without backslashes. */
  ghost predicate IsGenerated(groups: seq<Group>) {
    && (forall i :: 0 <= i < |groups| ==> '\\' !in groups[i].name)
    && DistinctNames(groups)
    && forall i, j :: 0 <= i < j < |groups| ==> StrLess(NameText(groups[i].name), NameText(groups[j].name))
  }

  /** The table is ascending exactly when no name extends another with a next character below the backslash. */
  lemma GeneratedOrderIsAscending(groups: seq<Group>)
    requires IsGenerated(groups)
    ensures Ascending(groups) <==>
              forall i, j :: 0 <= i < |groups| && 0 <= j < |groups| ==> !ExtendsLow(groups[i].name, groups[j].name)
  {
    forall i, j | 0 <= i < j < |groups|
      ensures StrLess(groups[i].name, groups[j].name) <==> !ExtendsLow(groups[j].name, groups[i].name)
      ensures !ExtendsLow(groups[i].name, groups[j].name)
    {
      var a, b := groups[i].name, groups[j].name;
      TextOrder(a, b);
      if a < b { PrefixIsLeq(a, b); }
      if b < a { PrefixIsLeq(b, a); StrTrichotomy(a, b); }
    }
  }

  /**
   * Every group of the generated table is found exactly when no name extends another with a next character
   * below the backslash.
   */
  lemma GeneratedTableIsSearchable(groups: seq<Group>)
    requires IsGenerated(groups)
    ensures AllFound(groups, 0, |groups| - 1) <==>
              forall i, j :: 0 <= i < |groups| && 0 <= j < |groups| ==> !ExtendsLow(groups[i].name, groups[j].name)
  {
    AllFoundExactlyWhenAscending(groups);
    GeneratedOrderIsAscending(groups);
  }

  /** Without that condition a group can be missed: "BadSpec" is written before "Bad". */
  lemma GroupMissed(d: string, e: string)
    ensures StrLess(NameText("BadSpec"), NameText("Bad"))
    ensures Search([Group("BadSpec", d), Group("Bad", e)], "Bad", 0, 1) == None
  {
    var bad, spec := "Bad", "BadSpec";
    assert ExtendsLow(bad, spec);
    TextOrder(spec, bad);
    PrefixIsLeq(bad, spec);
    StrTrichotomy(bad, spec);
    var groups := [Group(spec, d), Group(bad, e)];
    assert Search(groups, bad, 0, -1) == None;
    assert (0 + 1) / 2 == 0;
  }
}
