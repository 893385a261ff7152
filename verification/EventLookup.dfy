/** `get_event_by_name` (src/pmu-events.c), and the way of an event from the generator to the caller of the library. */
module EventLookup {
  import opened Options
  import opened Order
  import opened CText
  import opened BigCString
  import opened PackedStrings
  import opened Records
  import opened EventTables

  /** The event at `offset` can be decoded and has a name. */
  ghost predicate HasName(big: string, offset: nat) {
    Fields(EVENT_LAYOUT, big, offset).Some? && NameOf(Fields(EVENT_LAYOUT, big, offset).value).Some?
  }

  /** The `name` member of a decoded event. */
  function NameOf(values: seq<Value>): Option<string> {
    if values != [] && values[0].Pointer? then values[0].target else None
  }

  /** The first entry with the name; none is the error return. */
  function FindByName(big: string, entries: seq<nat>, ev: string): Option<seq<Value>> {
    if entries == [] then None
    else
      var values := Fields(EVENT_LAYOUT, big, entries[0]);
      if values.Some? && NameOf(values.value) == Some(ev) then values else FindByName(big, entries[1..], ev)
  }

  method GetEventByName(big: string, entries: seq<nat>, ev: string) returns (r: Option<seq<Value>>)
    requires forall x :: 0 <= x < |entries| ==> HasName(big, entries[x])
    ensures r == FindByName(big, entries, ev)
  {
    assert entries[0..] == entries;
    for x := 0 to |entries|
      invariant FindByName(big, entries[x..], ev) == FindByName(big, entries, ev)
    {
      assert entries[x..][0] == entries[x] && entries[x..][1..] == entries[x + 1..];
      var values := Decompress(EVENT_LAYOUT, big, entries[x]);
      if NameOf(values) == Some(ev) {
        return Some(values);
      }
    }
    return None;
  }

  /** The entry decodes to a record whose first attribute points to this name. */
  ghost predicate IsNamed(big: string, offset: nat, ev: string) {
    var values := Fields(EVENT_LAYOUT, big, offset);
    values.Some? && values.value != [] && values.value[0] == Pointer(Some(ev))
  }

  /** The error is returned exactly when no entry has the name; otherwise the first one that has it is decoded. */
  lemma {:induction false} FindsLeastEntry(big: string, entries: seq<nat>, ev: string)
    ensures FindByName(big, entries, ev).None? <==> forall i :: 0 <= i < |entries| ==> !IsNamed(big, entries[i], ev)
    ensures FindByName(big, entries, ev).Some? ==>
              exists i :: 0 <= i < |entries| && IsNamed(big, entries[i], ev)
                && FindByName(big, entries, ev) == Fields(EVENT_LAYOUT, big, entries[i])
                && forall k :: 0 <= k < i ==> !IsNamed(big, entries[k], ev)
  {
    if entries == [] {
    } else {
      var rest := entries[1..];
      assert forall i :: 0 < i < |entries| ==> entries[i] == rest[i - 1];
      FindsLeastEntry(big, rest, ev);
      if !IsNamed(big, entries[0], ev) && FindByName(big, rest, ev).Some? {
        var i :| 0 <= i < |rest| && IsNamed(big, rest[i], ev)
          && FindByName(big, rest, ev) == Fields(EVENT_LAYOUT, big, rest[i])
          && forall k :: 0 <= k < i ==> !IsNamed(big, rest[k], ev);
        assert entries[i + 1] == rest[i];
      }
    }
  }

  lemma {:induction false} FindsEntry(big: string, entries: seq<nat>, names: seq<string>, k: nat)
    requires |names| == |entries| && k < |entries| && Distinct(names)
    requires forall i :: 0 <= i < |entries| ==>
               && Fields(EVENT_LAYOUT, big, entries[i]).Some?
               && NameOf(Fields(EVENT_LAYOUT, big, entries[i]).value) == Some(names[i])
    ensures FindByName(big, entries, names[k]) == Fields(EVENT_LAYOUT, big, entries[k])
  {
    if k == 0 {
    } else {
      FindsEntry(big, entries[1..], names[1..], k - 1);
    }
  }

  // ----- From the generator to the caller

  /** The attributes of an event: its name first, spelled without escapes. */
  ghost predicate IsRecordOf(e: Event, fields: seq<Option<string>>) {
    && StorableAll(EVENT_LAYOUT, fields)
    && fields[0] == Some(e.name) && e.name != "" && Decode(e.name) == e.name
  }

  function Offsets(t: Table): seq<nat> {
    seq(|t.entries|, i requires 0 <= i < |t.entries| => t.entries[i].offset)
  }

  /** The record of an event is stored where it can be read, and its table entry refers to it. */
  ghost predicate IsStored(e: Event, fields: seq<Option<string>>,
                           strings: set<string>, pieces: seq<string>, offsets: map<string, int>)
  {
    IsRecordOf(e, fields) &&
    var text := BuildCString(EVENT_LAYOUT, fields);
    text in strings && IsReadable(strings, pieces, text) && text in offsets && e.offset == offsets[text]
  }

  lemma StoredEventDecodes(e: Event, fields: seq<Option<string>>,
                           strings: set<string>, pieces: seq<string>, offsets: map<string, int>)
    requires Packed(strings, pieces, offsets) && AllWellFormed(strings)
    requires IsStored(e, fields, strings, pieces, offsets)
    ensures Fields(EVENT_LAYOUT, BigText(pieces), e.offset) == Some(ExpectedAll(EVENT_LAYOUT, fields))
    ensures NameOf(ExpectedAll(EVENT_LAYOUT, fields)) == Some(e.name)
  {
    hide Packed, AllWellFormed, IsReadable, BigText, Fields;
    PackThenDecode(EVENT_LAYOUT, fields, strings, pieces, offsets);
  }

  /**
   * Looking up the name of a pending event in the printed table of its pmu returns the attributes
   * it was generated from, also when its record is stored at the end of another one. Only the records of
   * that pmu have to be readable.
   */
  lemma GeneratedEventIsFound(s: seq<Event>, fieldsOf: Event -> seq<Option<string>>, k: nat,
                              strings: set<string>, pieces: seq<string>, offsets: map<string, int>) returns (t: nat)
    requires Sorted(s, EventKeyLeq) && NamedPmus(s) && DistinctPmus(s) && Emit(s).Some? && k < |s|
    requires Packed(strings, pieces, offsets) && AllWellFormed(strings)
    requires forall e :: e in s && e.pmu == s[k].pmu ==> IsStored(e, fieldsOf(e), strings, pieces, offsets)
    ensures t < |Emit(s).value| && Emit(s).value[t].pmu == s[k].pmu
    ensures FindByName(BigText(pieces), Offsets(Emit(s).value[t]), s[k].name)
            == Some(ExpectedAll(EVENT_LAYOUT, fieldsOf(s[k])))
  {
    hide Fields, ExpectedAll, IsStored, Packed, AllWellFormed, BigText, Emit, NameOf, FindByName;
    var m;
    t, m := EveryEventHasItsTable(s, k);
    var table := Emit(s).value[t];
    var names := seq(|table.entries|, i requires 0 <= i < |table.entries| => table.entries[i].name);
    TableEntriesArePending(s, t);
    forall i | 0 <= i < |table.entries|
      ensures Fields(EVENT_LAYOUT, BigText(pieces), table.entries[i].offset)
              == Some(ExpectedAll(EVENT_LAYOUT, fieldsOf(table.entries[i])))
      ensures NameOf(ExpectedAll(EVENT_LAYOUT, fieldsOf(table.entries[i]))) == Some(names[i])
    {
      StoredEventDecodes(table.entries[i], fieldsOf(table.entries[i]), strings, pieces, offsets);
    }
    forall i, j | 0 <= i < j < |names| ensures names[i] != names[j] {
      StrTrichotomy(names[i], names[j]);
    }
    FindsEntry(BigText(pieces), Offsets(table), names, m);
  }

  /** A name that no pending event of the pmu has is not found in the table of the pmu. */
  lemma AbsentEventIsNotFound(s: seq<Event>, fieldsOf: Event -> seq<Option<string>>, t: nat, ev: string,
                              strings: set<string>, pieces: seq<string>, offsets: map<string, int>)
    requires Sorted(s, EventKeyLeq) && NamedPmus(s) && Emit(s).Some? && t < |Emit(s).value|
    requires Packed(strings, pieces, offsets) && AllWellFormed(strings)
    requires forall e :: e in s && e.pmu == Emit(s).value[t].pmu ==>
               IsStored(e, fieldsOf(e), strings, pieces, offsets) && e.name != ev
    ensures FindByName(BigText(pieces), Offsets(Emit(s).value[t]), ev).None?
  {
    hide Fields, ExpectedAll, IsStored, Packed, AllWellFormed, BigText, Emit, FindByName;
    var table := Emit(s).value[t];
    TableEntriesArePending(s, t);
    EmitTables(s);
    assert ProperTable(table);
    forall i | 0 <= i < |table.entries| ensures !IsNamed(BigText(pieces), Offsets(table)[i], ev) {
      StoredEventDecodes(table.entries[i], fieldsOf(table.entries[i]), strings, pieces, offsets);
    }
    FindsLeastEntry(BigText(pieces), Offsets(table), ev);
  }

  lemma {:induction false} EntryIsListed(tables: seq<Table>, t: nat, i: nat)
    requires t < |tables| && i < |tables[t].entries|
    ensures tables[t].entries[i] in Entries(tables)
  {
    if t < |tables| - 1 { EntryIsListed(tables[..|tables| - 1], t, i); }
  }

  lemma TableEntriesArePending(s: seq<Event>, t: nat)
    requires Sorted(s, EventKeyLeq) && NamedPmus(s) && Emit(s).Some? && t < |Emit(s).value|
    ensures forall i :: 0 <= i < |Emit(s).value[t].entries| ==> Emit(s).value[t].entries[i] in s
  {
    EmitTables(s);
    forall i | 0 <= i < |Emit(s).value[t].entries| ensures Emit(s).value[t].entries[i] in s {
      EntryIsListed(Emit(s).value, t, i);
    }
  }
}
