/** The generated `describe_metricgroup` on the texts that its rows refer to (jevents.py). */
module GroupLookup {
  import opened Options
  import opened Order
  import opened CText
  import opened BigCString
  import opened PackedStrings
  import opened Records
  import opened MetricGroups

  /** The offsets of a name and of a description. */
  type Row = (nat, nat)

  predicate RowsInside(big: string, rows: seq<Row>) {
    forall i :: 0 <= i < |rows| ==> rows[i].0 <= |big| && rows[i].1 <= |big|
  }

  function CStringAt(big: string, p: nat): string
    requires p <= |big|
  {
    big[p..NulAt(big, p)]
  }

  /** The groups that the rows stand for. */
  function GroupsAt(big: string, rows: seq<Row>): seq<Group>
    requires RowsInside(big, rows)
  {
    seq(|rows|, i requires 0 <= i < |rows| => Group(CStringAt(big, rows[i].0), CStringAt(big, rows[i].1)))
  }

  /** The loop reads only the names in the middle of the remaining rows, and one description at the end. */
  method DescribeMetricgroup(big: string, rows: seq<Row>, name: string) returns (r: Option<string>)
    requires RowsInside(big, rows)
    ensures r == Search(GroupsAt(big, rows), name, 0, |rows| - 1)
  {
    hide CStringAt, StrLess;
    ghost var groups := GroupsAt(big, rows);
    var low, high := 0, |rows| - 1;
    while low <= high
      invariant 0 <= low && high < |rows|
      invariant Search(groups, name, low, high) == Search(groups, name, 0, |rows| - 1)
      decreases high - low + 1
    {
      var mid := (low + high) / 2;
      assert groups[mid] == Group(CStringAt(big, rows[mid].0), CStringAt(big, rows[mid].1));
      var group := CStringAt(big, rows[mid].0);
      if group == name {
        return Some(CStringAt(big, rows[mid].1));
      } else if StrLess(group, name) {
        low := mid + 1;
      } else {
        high := mid - 1;
      }
    }
    return None;
  }

  // ----- From the generator to the caller

  /** The text with its terminator is stored where it can be read, at this offset. */
  ghost predicate IsStoredAt(v: string, offset: nat,
                             strings: set<string>, pieces: seq<string>, offsets: map<string, int>)
  {
    var text := NameText(v);
    text in strings && IsReadable(strings, pieces, text) && text in offsets && offset == offsets[text]
  }

  ghost predicate IsCText(v: string) {
    WellFormed(v) && '\0' !in Decode(v)
  }

  lemma TerminatedDecodes(v: string)
    requires WellFormed(v)
    ensures Decode(NameText(v)) == Decode(v) + ['\0']
  {
    Terminated();
    DecodeJoins(v, "\\000");
  }

  lemma StoredTextIsRead(v: string, offset: nat, strings: set<string>, pieces: seq<string>, offsets: map<string, int>)
    requires Packed(strings, pieces, offsets) && AllWellFormed(strings)
    requires IsCText(v) && IsStoredAt(v, offset, strings, pieces, offsets)
    ensures offset <= |BigText(pieces)| && CStringAt(BigText(pieces), offset) == Decode(v)
  {
    hide Packed, AllWellFormed, IsReadable, BigText, Decode, WellFormed, NameText;
    ReadableReadsBack(strings, pieces, offsets, NameText(v));
    TerminatedDecodes(v);
    TextReads(BigText(pieces), offset, Decode(v));
  }

  /** A group name is plain: it stands for itself in C. */
  predicate IsPlain(name: string) {
    '\\' !in name && '"' !in name && '\n' !in name && '\0' !in name
  }

  lemma {:induction false} PlainStandsForItself(name: string)
    requires IsPlain(name)
    ensures WellFormed(name) && Decode(name) == name
  {
    if name == [] {
    } else {
      PlainStandsForItself(name[1..]);
      assert TokenLen(name) == 1 && name == [name[0]] + name[1..];
    }
  }

  /** Names with their descriptions, in the order of the generator, and the rows that are written for them. */
  ghost predicate IsWritten(groups: seq<Group>, rows: seq<Row>,
                            strings: set<string>, pieces: seq<string>, offsets: map<string, int>)
  {
    && |rows| == |groups| && IsGenerated(groups)
    && forall i :: 0 <= i < |groups| ==>
         && IsPlain(groups[i].name) && IsStoredAt(groups[i].name, rows[i].0, strings, pieces, offsets)
         && IsCText(groups[i].description) && IsStoredAt(groups[i].description, rows[i].1, strings, pieces, offsets)
  }

  /** What the rows stand for: the names as they are, and the descriptions as C reads them. */
  lemma RowsAreRead(groups: seq<Group>, rows: seq<Row>,
                    strings: set<string>, pieces: seq<string>, offsets: map<string, int>)
    requires Packed(strings, pieces, offsets) && AllWellFormed(strings)
    requires IsWritten(groups, rows, strings, pieces, offsets)
    ensures RowsInside(BigText(pieces), rows)
    ensures forall i :: 0 <= i < |groups| ==>
              GroupsAt(BigText(pieces), rows)[i] == Group(groups[i].name, Decode(groups[i].description))
  {
    hide Packed, AllWellFormed, BigText, Decode, WellFormed, IsStoredAt, IsGenerated, CStringAt;
    forall i | 0 <= i < |groups|
      ensures rows[i].0 <= |BigText(pieces)| && CStringAt(BigText(pieces), rows[i].0) == groups[i].name
      ensures rows[i].1 <= |BigText(pieces)|
              && CStringAt(BigText(pieces), rows[i].1) == Decode(groups[i].description)
    {
      PlainStandsForItself(groups[i].name);
      StoredTextIsRead(groups[i].name, rows[i].0, strings, pieces, offsets);
      StoredTextIsRead(groups[i].description, rows[i].1, strings, pieces, offsets);
    }
  }

  /**
   * For the rows and the big string of the generator: every group is described by its text if and only if no name
   * extends another with a next character below the backslash.
   */
  lemma GeneratedGroupsAreDescribed(groups: seq<Group>, rows: seq<Row>,
                                    strings: set<string>, pieces: seq<string>, offsets: map<string, int>)
    requires Packed(strings, pieces, offsets) && AllWellFormed(strings)
    requires IsWritten(groups, rows, strings, pieces, offsets)
    ensures RowsInside(BigText(pieces), rows)
    ensures (forall i :: 0 <= i < |groups| ==>
               Search(GroupsAt(BigText(pieces), rows), groups[i].name, 0, |rows| - 1)
               == Some(Decode(groups[i].description)))
            <==>
            forall i, j :: 0 <= i < |groups| && 0 <= j < |groups| ==> !ExtendsLow(groups[i].name, groups[j].name)
  {
    hide Packed, AllWellFormed, BigText, Decode, WellFormed, IsStoredAt, CStringAt, Search, ExtendsLow, NameText;
    hide StrLess;
    RowsAreRead(groups, rows, strings, pieces, offsets);
    var table := GroupsAt(BigText(pieces), rows);
    assert forall i :: 0 <= i < |groups| ==> table[i].name == groups[i].name;
    GeneratedTableIsSearchable(table);
  }
}
