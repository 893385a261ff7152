/** `print_pending_events` (jevents.py): the tables of events, one for each pmu. */
module EventTables {
  import opened Options
  import opened Order

  /** What the sort key and the output of a pending event depend on; `offset` is where its record is stored. */
  datatype Event = Event(pmu: string, name: string, hasDesc: bool, topic: string, metricName: string, offset: nat)

  /** A printed array of events: the pmu, and the name of the array in C. */
  datatype Table = Table(pmu: string, cName: string, entries: seq<Event>)

  function Underscored(s: string): string {
    seq(|s|, i requires 0 <= i < |s| => if s[i] == ',' then '_' else s[i])
  }

  /** Every ',' becomes '_', and nothing else changes. */
  lemma UnderscoredParts(a: string, b: string)
    ensures ',' !in a ==> Underscored(a) == a
    ensures Underscored(a + "," + b) == Underscored(a) + "_" + Underscored(b)
  {
  }

  // ----- The sort key

  predicate BoolLess(a: bool, b: bool) { !a && b }

  predicate EventKeyLess(a: Event, b: Event) {
    var p, q := Underscored(a.pmu), Underscored(b.pmu);
    StrLess(p, q) || (p == q &&
    (StrLess(a.name, b.name) || (a.name == b.name &&
    (BoolLess(a.hasDesc, b.hasDesc) || (a.hasDesc == b.hasDesc &&
    (StrLess(a.topic, b.topic) || (a.topic == b.topic && StrLess(a.metricName, b.metricName))))))))
  }

  predicate EventKeyLeq(a: Event, b: Event) { !EventKeyLess(b, a) }

  /** The key as a tuple of Python, in which `False` comes before `True`. */
  function KeyTuple(e: Event): seq<string> {
    [Underscored(e.pmu), e.name, if e.hasDesc then "1" else "0", e.topic, e.metricName]
  }

  /** Events are sorted by their tuples: by the first component that differs. */
  lemma KeyIsTupleOrder(a: Event, b: Event)
    ensures EventKeyLess(a, b) <==>
              exists k :: 0 <= k < 5 && StrLess(KeyTuple(a)[k], KeyTuple(b)[k])
                && forall m :: 0 <= m < k ==> KeyTuple(a)[m] == KeyTuple(b)[m]
  {
    var x, y := KeyTuple(a), KeyTuple(b);
    assert x[0] == Underscored(a.pmu) && x[1] == a.name && x[3] == a.topic && x[4] == a.metricName;
    assert y[0] == Underscored(b.pmu) && y[1] == b.name && y[3] == b.topic && y[4] == b.metricName;
    assert StrLess("0", "1") && !StrLess("1", "0");
    StrTrichotomy(x[0], y[0]);
    StrTrichotomy(x[1], y[1]);
    StrTrichotomy(x[2], y[2]);
    StrTrichotomy(x[3], y[3]);
    StrTrichotomy(x[4], y[4]);
  }

  lemma EventKeyTransitive(a: Event, b: Event, c: Event)
    requires EventKeyLeq(a, b) && EventKeyLeq(b, c)
    ensures EventKeyLeq(a, c)
  {
    StrLeqTransitive(Underscored(a.pmu), Underscored(b.pmu), Underscored(c.pmu));
    StrLeqTransitive(a.name, b.name, c.name);
    StrLeqTransitive(a.topic, b.topic, c.topic);
    StrLeqTransitive(a.metricName, b.metricName, c.metricName);
  }

  lemma StrLeqTransitive(a: string, b: string, c: string)
    ensures !StrLess(b, a) && !StrLess(c, b) ==> !StrLess(c, a) && (a == c ==> a == b == c)
    ensures StrLess(a, b) || a == b || StrLess(b, a)
    ensures !(StrLess(a, b) && StrLess(b, a))
  {
    StrTrichotomy(a, b);
    StrTrichotomy(b, c);
    StrTrichotomy(a, c);
    if StrLess(a, b) && StrLess(b, c) { StrTransitive(a, b, c); }
  }

  lemma KeyIsPreorder()
    ensures TotalPreorder(EventKeyLeq)
  {
    forall a, b ensures EventKeyLeq(a, b) || EventKeyLeq(b, a) {
      StrTrichotomy(Underscored(a.pmu), Underscored(b.pmu));
      StrTrichotomy(a.name, b.name);
      StrTrichotomy(a.topic, b.topic);
      StrTrichotomy(a.metricName, b.metricName);
    }
    forall a, b, c | EventKeyLeq(a, b) && EventKeyLeq(b, c) ensures EventKeyLeq(a, c) { EventKeyTransitive(a, b, c); }
  }

  // ----- Printing

  predicate SamePlace(a: Event, b: Event) { a.pmu == b.pmu && a.name == b.name }

  /** The event joins the last table if it is of the same pmu, and otherwise opens a table. */
  function Printed(tables: seq<Table>, e: Event): seq<Table> {
    var n := |tables| - 1;
    if tables != [] && tables[n].pmu == e.pmu then tables[..n] + [tables[n].(entries := tables[n].entries + [e])]
    else tables + [Table(e.pmu, Underscored(e.pmu), [e])]
  }

  predicate Repeated(tables: seq<Table>, e: Event) {
    var n := |tables| - 1;
    tables != [] && tables[n].pmu == e.pmu && e.pmu != "" && tables[n].entries != [] &&
    tables[n].entries[|tables[n].entries| - 1].name == e.name
  }

  /** The printed tables; none if the assertion on adjacent names fails. */
  function Emit(s: seq<Event>): Option<seq<Table>> {
    if s == [] then Some([])
    else
      var tables := Emit(s[..|s| - 1]);
      if tables.None? || Repeated(tables.value, s[|s| - 1]) then None else Some(Printed(tables.value, s[|s| - 1]))
  }

  method SortEvents(pending: seq<Event>) returns (sorted: seq<Event>)
    ensures multiset(sorted) == multiset(pending) && Sorted(sorted, EventKeyLeq)
  {
    KeyIsPreorder();
    sorted := Sort(pending, EventKeyLeq);
  }

  lemma EmitNext(s: seq<Event>, i: nat)
    requires i < |s|
    ensures var tables := Emit(s[..i]);
            Emit(s[..i + 1]) ==
            if tables.None? || Repeated(tables.value, s[i]) then None else Some(Printed(tables.value, s[i]))
  {
    assert s[..i + 1][..i] == s[..i];
  }

  method PrintPendingEvents(pending: seq<Event>) returns (sorted: seq<Event>, r: Option<seq<Table>>)
    ensures multiset(sorted) == multiset(pending) && Sorted(sorted, EventKeyLeq)
    ensures r == Emit(sorted)
  {
    hide Emit, Sorted;
    sorted := SortEvents(pending);
    EmitNothing();
    var tables: seq<Table> := [];
    var lastPmu: Option<string> := None;
    var lastName := "";
    for i := 0 to |sorted|
      invariant Emit(sorted[..i]) == Some(tables)
      invariant lastPmu.None? <==> tables == []
      invariant lastPmu.Some? ==>
                  var last := tables[|tables| - 1];
                  last.pmu == lastPmu.value && last.entries != [] && last.entries[|last.entries| - 1].name == lastName
    {
      var e := sorted[i];
      EmitNext(sorted, i);
      if lastPmu.Some? && lastPmu.value != "" && lastPmu.value == e.pmu && e.name == lastName {
        EmitStopped(sorted, i + 1);
        return sorted, None;
      }
      ghost var before := tables;
      if lastPmu != Some(e.pmu) {
        tables := tables + [Table(e.pmu, Underscored(e.pmu), [])];
        assert tables[..|tables| - 1] == before;
        lastPmu := Some(e.pmu);
      }
      var last := tables[|tables| - 1];
      tables := tables[..|tables| - 1] + [last.(entries := last.entries + [e])];
      lastName := e.name;
      assert [] + [e] == [e] && tables == Printed(before, e);
    }
    assert sorted[..|sorted|] == sorted;
    r := Some(tables);
  }

  lemma {:induction false} EmitStopped(s: seq<Event>, n: nat)
    requires n <= |s| && Emit(s[..n]).None?
    ensures Emit(s).None?
    decreases |s|
  {
    if n < |s| {
      assert s[..|s| - 1][..n] == s[..n];
      EmitStopped(s[..|s| - 1], n);
    } else {
      assert s[..n] == s;
    }
  }

  // ----- What is printed

  function Entries(tables: seq<Table>): seq<Event> {
    if tables == [] then [] else Entries(tables[..|tables| - 1]) + tables[|tables| - 1].entries
  }

  ghost predicate ProperTable(t: Table) {
    && t.entries != [] && t.cName == Underscored(t.pmu)
    && (forall i :: 0 <= i < |t.entries| ==> t.entries[i].pmu == t.pmu)
    && forall i, j :: 0 <= i < j < |t.entries| ==> StrLess(t.entries[i].name, t.entries[j].name)
  }

  ghost predicate AdjacentDistinct(s: seq<Event>) {
    forall i :: 0 <= i < |s| - 1 ==> !SamePlace(s[i], s[i + 1])
  }

  /** Every printed event is of a pmu that has a name. */
  ghost predicate NamedPmus(s: seq<Event>) {
    forall i :: 0 <= i < |s| ==> s[i].pmu != ""
  }

  lemma NamesAscend(t: Table, e: Event)
    requires ProperTable(t) && e.pmu == t.pmu
    requires EventKeyLeq(t.entries[|t.entries| - 1], e) && t.entries[|t.entries| - 1].name != e.name
    ensures ProperTable(t.(entries := t.entries + [e]))
  {
    var last := t.entries[|t.entries| - 1];
    StrLeqTransitive(last.name, e.name, e.name);
    StrTrichotomy(Underscored(e.pmu), Underscored(e.pmu));
    assert StrLess(last.name, e.name);
    forall i | 0 <= i < |t.entries| ensures StrLess(t.entries[i].name, e.name) {
      if i < |t.entries| - 1 { StrTransitive(t.entries[i].name, last.name, e.name); }
    }
  }

  ghost predicate Holds(tables: seq<Table>, s: seq<Event>) {
    Entries(tables) == s && forall i :: 0 <= i < |tables| ==> ProperTable(tables[i])
  }

  lemma LastPrinted(tables: seq<Table>, s: seq<Event>)
    requires tables != [] && Holds(tables, s)
    ensures s != []
    ensures var last := tables[|tables| - 1];
            last.entries != [] && last.entries[|last.entries| - 1] == s[|s| - 1] && last.pmu == s[|s| - 1].pmu
  {
    assert ProperTable(tables[|tables| - 1]);
  }

  lemma RepeatedIsAdjacent(tables: seq<Table>, s: seq<Event>, e: Event)
    requires Holds(tables, s) && e.pmu != ""
    ensures Repeated(tables, e) <==> s != [] && SamePlace(s[|s| - 1], e)
  {
    if tables != [] { LastPrinted(tables, s); }
  }

  lemma PrintOneMore(tables: seq<Table>, s: seq<Event>, e: Event)
    requires Holds(tables, s) && (s != [] ==> EventKeyLeq(s[|s| - 1], e))
    requires s != [] ==> !SamePlace(s[|s| - 1], e)
    ensures Holds(Printed(tables, e), s + [e])
  {
    var n, after := |tables| - 1, Printed(tables, e);
    if tables != [] && tables[n].pmu == e.pmu {
      LastPrinted(tables, s);
      NamesAscend(tables[n], e);
      assert after[..n] == tables[..n];
      assert Entries(after) == Entries(tables[..n]) + (tables[n].entries + [e]);
    } else {
      assert after[..n + 1] == tables;
    }
  }

  lemma EmitNothing()
    ensures Emit([]) == Some([])
  {
  }

  lemma EmitOneMore(tables: seq<Table>, s: seq<Event>, e: Event)
    requires Holds(tables, s) && (s != [] ==> EventKeyLeq(s[|s| - 1], e)) && e.pmu != ""
    ensures Repeated(tables, e) <==> s != [] && SamePlace(s[|s| - 1], e)
    ensures !Repeated(tables, e) ==> Holds(Printed(tables, e), s + [e])
  {
    RepeatedIsAdjacent(tables, s, e);
    if !Repeated(tables, e) { PrintOneMore(tables, s, e); }
  }

  lemma AdjacentStep(s: seq<Event>)
    requires s != []
    ensures var n := |s| - 1;
            AdjacentDistinct(s) <==> AdjacentDistinct(s[..n]) && (n == 0 || !SamePlace(s[n - 1], s[n]))
  {
    var init := s[..|s| - 1];
    assert forall i :: 0 <= i < |init| ==> init[i] == s[i];
  }

  lemma NoTablesHoldNothing()
    ensures Holds([], [])
  {
  }

  /** The tables in the order of printing hold exactly the sorted events; the assertion sees adjacent repetitions. */
  lemma {:induction false} EmitTables(s: seq<Event>)
    requires Sorted(s, EventKeyLeq) && NamedPmus(s)
    ensures Emit(s).Some? <==> AdjacentDistinct(s)
    ensures Emit(s).Some? ==> Holds(Emit(s).value, s)
  {
    hide Holds, Repeated, Printed, EventKeyLess, SamePlace;
    if s == [] {
      NoTablesHoldNothing();
    } else {
      var n := |s| - 1;
      var init, e := s[..n], s[n];
      EmitTables(init);
      AdjacentStep(s);
      if Emit(init).Some? {
        assert n > 0 ==> init[n - 1] == s[n - 1] && EventKeyLeq(s[n - 1], s[n]);
        EmitOneMore(Emit(init).value, init, e);
        assert s == init + [e];
      }
    }
  }

  /** The assertion is made only for a pmu that has a name. */
  lemma UnnamedPmuIsNotChecked(name: string, e: Event, f: Event)
    requires e.pmu == f.pmu == "" && e.name == f.name == name
    ensures Emit([e, f]) == Some([Table("", "", [e, f])])
  {
    var s := [e, f];
    assert s[..0] == [] && s[..1] == [e] && s[..2] == s;
    assert Underscored(e.pmu) == "" && [e] + [f] == s;
    var one := [Table("", "", [e])];
    EmitNothing();
    EmitNext(s, 0);
    assert Printed([], e) == one;
    EmitNext(s, 1);
    assert Printed(one, f) == [Table("", "", s)];
  }

  // ----- When pmu names stay distinct

  /** Replacing ',' by '_' keeps the pmu names of the events distinct. */
  ghost predicate DistinctPmus(s: seq<Event>) {
    forall i, j :: 0 <= i < |s| && 0 <= j < |s| && Underscored(s[i].pmu) == Underscored(s[j].pmu) ==>
      s[i].pmu == s[j].pmu
  }

  lemma BetweenEqual(a: Event, b: Event, c: Event)
    requires EventKeyLeq(a, b) && EventKeyLeq(b, c) && Underscored(a.pmu) == Underscored(c.pmu)
    ensures Underscored(b.pmu) == Underscored(a.pmu) && (a.name == c.name ==> b.name == a.name)
  {
    StrLeqTransitive(Underscored(a.pmu), Underscored(b.pmu), Underscored(c.pmu));
    StrLeqTransitive(Underscored(b.pmu), Underscored(c.pmu), Underscored(c.pmu));
    StrTrichotomy(Underscored(a.pmu), Underscored(a.pmu));
    StrLeqTransitive(a.name, b.name, c.name);
    StrLeqTransitive(b.name, c.name, c.name);
  }

  lemma RepetitionIsAdjacent(s: seq<Event>, i: nat, j: nat)
    requires Sorted(s, EventKeyLeq) && DistinctPmus(s)
    requires i < j < |s| && SamePlace(s[i], s[j])
    ensures SamePlace(s[i], s[i + 1])
  {
    if i + 1 < j {
      assert EventKeyLeq(s[i], s[i + 1]) && EventKeyLeq(s[i + 1], s[j]);
      BetweenEqual(s[i], s[i + 1], s[j]);
    }
  }

  ghost predicate HasRepetition(s: seq<Event>) {
    exists i, j :: 0 <= i < j < |s| && SamePlace(s[i], s[j])
  }

  /** With distinct pmu names the assertion catches every repetition of a name within a pmu. */
  lemma EveryRepetitionIsCaught(s: seq<Event>)
    requires Sorted(s, EventKeyLeq) && NamedPmus(s) && DistinctPmus(s)
    ensures Emit(s).None? <==> HasRepetition(s)
  {
    EmitTables(s);
    if i, j :| 0 <= i < j < |s| && SamePlace(s[i], s[j]) {
      RepetitionIsAdjacent(s, i, j);
      assert !AdjacentDistinct(s);
    }
    if !AdjacentDistinct(s) {
      var i :| 0 <= i < |s| - 1 && SamePlace(s[i], s[i + 1]);
    }
  }

  /** The same name, first without and last with a description, and between them for a pmu that is spelled alike. */
  function Interleaved(p: string, q: string, name: string): seq<Event> {
    [Event(p, name, false, "", "", 0), Event(q, name, true, "", "", 1), Event(p, name, true, "t", "", 2)]
  }

  lemma InterleavedIsSorted(p: string, q: string, name: string)
    requires Underscored(p) == Underscored(q)
    ensures Sorted(Interleaved(p, q, name), EventKeyLeq)
  {
    var s := Interleaved(p, q, name);
    StrTrichotomy(Underscored(p), Underscored(p));
    StrTrichotomy(name, name);
    StrTrichotomy("", "t");
    assert EventKeyLess(s[0], s[1]) && EventKeyLess(s[1], s[2]) && EventKeyLess(s[0], s[2]);
  }

  /** Pmus that are spelled alike in C hide a repetition: an event of the other pmu comes in between. */
  lemma RepetitionMissed(p: string, q: string, name: string)
    requires p != "" && q != "" && p != q && Underscored(p) == Underscored(q)
    ensures var s := Interleaved(p, q, name);
            Sorted(s, EventKeyLeq) && NamedPmus(s) && SamePlace(s[0], s[2]) && Emit(s).Some?
  {
    var s := Interleaved(p, q, name);
    InterleavedIsSorted(p, q, name);
    assert NamedPmus(s) && AdjacentDistinct(s);
    EmitTables(s);
  }

  ghost predicate PmusAreIn(s: seq<Event>, pmus: set<string>) {
    forall i :: 0 <= i < |s| ==> s[i].pmu in pmus
  }

  /** For events of these pmus, the assertion fails on every repetition. */
  ghost predicate AssertionIsReliable(pmus: set<string>) {
    forall s :: Sorted(s, EventKeyLeq) && PmusAreIn(s, pmus) ==> (Emit(s).None? <==> HasRepetition(s))
  }

  /** The assertion catches the repetitions of all events of some pmus exactly when their names stay distinct. */
  lemma AssertionIsReliableExactly(pmus: set<string>)
    requires "" !in pmus
    ensures AssertionIsReliable(pmus) <==>
              forall p, q :: p in pmus && q in pmus && Underscored(p) == Underscored(q) ==> p == q
  {
    if p, q :| p in pmus && q in pmus && Underscored(p) == Underscored(q) && p != q {
      var s := Interleaved(p, q, "e");
      RepetitionMissed(p, q, "e");
      assert PmusAreIn(s, pmus) && HasRepetition(s);
    } else {
      forall s | Sorted(s, EventKeyLeq) && PmusAreIn(s, pmus) ensures Emit(s).None? <==> HasRepetition(s) {
        EveryRepetitionIsCaught(s);
      }
    }
  }

  /** The names of the tables in C are in ascending order. */
  ghost predicate TablesAscend(tables: seq<Table>) {
    forall i, j :: 0 <= i < j < |tables| ==> StrLess(tables[i].cName, tables[j].cName)
  }

  lemma TablesKeepAscending(tables: seq<Table>, s: seq<Event>, e: Event)
    requires Holds(tables, s) && TablesAscend(tables)
    requires s != [] ==> EventKeyLeq(s[|s| - 1], e)
    requires forall i :: 0 <= i < |s| && Underscored(s[i].pmu) == Underscored(e.pmu) ==> s[i].pmu == e.pmu
    ensures TablesAscend(Printed(tables, e))
  {
    if tables != [] {
      LastPrinted(tables, s);
      var last := tables[|tables| - 1];
      assert ProperTable(last);
      if last.pmu != e.pmu {
        StrTrichotomy(last.cName, Underscored(e.pmu));
        assert StrLess(last.cName, Underscored(e.pmu));
        forall i | 0 <= i < |tables| - 1 ensures StrLess(tables[i].cName, Underscored(e.pmu)) {
          StrTransitive(tables[i].cName, last.cName, Underscored(e.pmu));
        }
      }
    }
  }

  lemma {:induction false} OneTablePerPmu(s: seq<Event>)
    requires Sorted(s, EventKeyLeq) && NamedPmus(s) && DistinctPmus(s) && Emit(s).Some?
    ensures TablesAscend(Emit(s).value)
  {
    hide Holds, Printed, Repeated, EventKeyLess, ProperTable, SamePlace;
    if s == [] {
      EmitNothing();
    } else {
      var n := |s| - 1;
      var init, e := s[..n], s[n];
      EmitTables(init);
      OneTablePerPmu(init);
      assert n > 0 ==> init[n - 1] == s[n - 1] && EventKeyLeq(s[n - 1], s[n]);
      TablesKeepAscending(Emit(init).value, init, e);
    }
  }

  lemma {:induction false} EntryHasTable(tables: seq<Table>, k: nat) returns (t: nat, m: nat)
    requires k < |Entries(tables)|
    ensures t < |tables| && m < |tables[t].entries| && tables[t].entries[m] == Entries(tables)[k]
  {
    var n := |tables| - 1;
    var init := tables[..n];
    if k < |Entries(init)| {
      t, m := EntryHasTable(init, k);
    } else {
      t, m := n, k - |Entries(init)|;
    }
  }

  /** The names of the tables in C are distinct exactly when the pmu names stay distinct. */
  lemma TableNamesAreDistinct(s: seq<Event>)
    requires Sorted(s, EventKeyLeq) && NamedPmus(s) && Emit(s).Some?
    ensures DistinctPmus(s) <==>
              forall i, j :: 0 <= i < j < |Emit(s).value| ==> Emit(s).value[i].cName != Emit(s).value[j].cName
  {
    var tables := Emit(s).value;
    EmitTables(s);
    if DistinctPmus(s) {
      OneTablePerPmu(s);
      forall i, j | 0 <= i < j < |tables| ensures tables[i].cName != tables[j].cName {
        StrTrichotomy(tables[i].cName, tables[j].cName);
      }
    } else {
      var i, j :| && 0 <= i < |s| && 0 <= j < |s|
                  && Underscored(s[i].pmu) == Underscored(s[j].pmu) && s[i].pmu != s[j].pmu;
      var t, m := EntryHasTable(tables, i);
      var u, k := EntryHasTable(tables, j);
      assert ProperTable(tables[t]) && ProperTable(tables[u]);
      assert tables[t].cName == tables[u].cName && t != u;
    }
  }

  /** Every sorted event is an entry of exactly one table, and that table is of its pmu. */
  lemma EveryEventHasItsTable(s: seq<Event>, k: nat) returns (t: nat, m: nat)
    requires Sorted(s, EventKeyLeq) && NamedPmus(s) && DistinctPmus(s) && Emit(s).Some? && k < |s|
    ensures var tables := Emit(s).value;
            && t < |tables| && ProperTable(tables[t]) && tables[t].pmu == s[k].pmu
            && m < |tables[t].entries| && tables[t].entries[m] == s[k]
            && forall u :: 0 <= u < |tables| && (s[k] in tables[u].entries || tables[u].pmu == s[k].pmu) ==> u == t
  {
    var tables := Emit(s).value;
    EmitTables(s);
    t, m := EntryHasTable(tables, k);
    assert ProperTable(tables[t]);
    forall u | 0 <= u < |tables| && (s[k] in tables[u].entries || tables[u].pmu == s[k].pmu) ensures u == t {
      TableNamesAreDistinct(s);
      assert ProperTable(tables[u]);
      if s[k] in tables[u].entries {
        var i :| 0 <= i < |tables[u].entries| && tables[u].entries[i] == s[k];
      }
    }
  }
}
