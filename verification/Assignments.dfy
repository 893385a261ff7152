/** Assignment lists such as `event=0x3c,umask=1`: printed by jevents.py, parsed by src/pmu-events.c. */
module Assignments {
  import opened Options
  import opened Numbers
  import opened CommaLists

  datatype Assignment = Assignment(key: string, value: nat)

  /** A value that is spelled `None` counts as zero; all others are read in base 16. */
  function ParseAssignment(term: string): Option<Assignment> {
    var equal := IndexOf(term, '=');
    if equal == |term| || equal == 0 || equal + 1 == |term| then None
    else
      var text := term[equal + 1..];
      if text == "None" then Some(Assignment(term[..equal], 0))
      else
        var (x, used) := StrToULL(text, 16);
        if used == |text| then Some(Assignment(term[..equal], x)) else None
  }

  function ParseAssignmentListSpec(s: string): Option<seq<Assignment>> {
    ParseList(s, ParseAssignment)
  }

  method ParseAssignmentList(s: string) returns (r: Option<seq<Assignment>>)
    requires '\0' !in s
    ensures r == ParseAssignmentListSpec(s)
  {
    r := ParseListInPlace(s, ParseAssignment);
  }

  // ----- Which terms are accepted

  /** The value of a key without '=': nothing is refused, `None` is zero, and a number has to be used up. */
  lemma KeyAndTextParse(key: string, text: string)
    requires key != "" && '=' !in key
    ensures text == "" ==> ParseAssignment(key + "=" + text) == None
    ensures text == "None" ==> ParseAssignment(key + "=" + text) == Some(Assignment(key, 0))
    ensures text != "" && text != "None" ==>
              ParseAssignment(key + "=" + text) ==
              (var (x, used) := StrToULL(text, 16); if used == |text| then Some(Assignment(key, x)) else None)
  {
    hide StrToULL;
    var term := key + "=" + text;
    IndexOfAfter(key, '=', text);
    assert term == key + ['='] + text;
    assert term[..|key|] == key && term[|key| + 1..] == text;
  }

  /** Terms without '=', without a key or with something behind the number are refused. */
  lemma RefusedAssignments(key: string, text: string, n: nat, junk: string)
    requires key != "" && '=' !in key
    requires junk != "" && DigitValue(junk[0]) >= 16 && (n == 0 ==> junk[0] != 'x' && junk[0] != 'X')
    ensures ParseAssignment("") == ParseAssignment(key) == ParseAssignment("=" + text) == None
    ensures ParseAssignment(key + "=" + (Llx(n) + junk)) == None
  {
    hide StrToULL, Llx;
    IndexOfAbsent(key, '=');
    LlxChars(n);
    LlxReadsBackBefore(n, junk);
    var value := Llx(n) + junk;
    assert value[0] == Llx(n)[0] && value != "None";
    KeyAndTextParse(key, value);
  }

  // ----- Printing

  /** A field of the generator: a number, or no value, which Python prints as `None`. */
  datatype Field = Field(key: string, value: Option<nat>)

  /** Keys without separators. */
  predicate Printable(f: Field) {
    f.key != "" && ',' !in f.key && '=' !in f.key
  }

  function ValueText(f: Field): string {
    if f.value.None? then "None" else Llx(f.value.value)
  }

  function FieldText(f: Field): string { f.key + "=" + ValueText(f) }

  function FieldTexts(fields: seq<Field>): seq<string> {
    seq(|fields|, i requires 0 <= i < |fields| => FieldText(fields[i]))
  }

  function PrintFields(fields: seq<Field>): string { Join(FieldTexts(fields), "") }

  /** The event string is started with its code, and one field after the other is appended. */
  method PrintEvent(code: Field, fields: seq<Field>) returns (event: string)
    ensures event == PrintFields([code] + fields)
  {
    hide PrintFields;
    event := FieldText(code);
    ghost var all := [code] + fields;
    assert all[..1] == [code];
    PrintFieldsMore([], code);
    assert [] + [code] == [code];
    for i := 0 to |fields|
      invariant event == PrintFields(all[..i + 1])
    {
      assert all[..i + 2] == all[..i + 1] + [fields[i]];
      PrintFieldsMore(all[..i + 1], fields[i]);
      event := event + "," + fields[i].key + "=" + ValueText(fields[i]);
      Regroup(PrintFields(all[..i + 1]), ",", fields[i].key, "=", ValueText(fields[i]));
    }
    assert all[..|fields| + 1] == all;
  }

  lemma Regroup(a: string, b: string, c: string, d: string, e: string)
    ensures a + b + c + d + e == a + b + (c + d + e)
  {
  }

  lemma PrintFieldsMore(fields: seq<Field>, f: Field)
    ensures PrintFields(fields + [f]) == (if fields == [] then "" else PrintFields(fields) + ",") + FieldText(f)
  {
    assert FieldTexts(fields + [f]) == FieldTexts(fields) + [FieldText(f)];
    JoinMore(FieldTexts(fields), FieldText(f));
  }

  lemma {:induction false} JoinMore(parts: seq<string>, last: string)
    ensures Join(parts + [last], "") == (if parts == [] then "" else Join(parts, "") + ",") + last
  {
    if parts == [] {
      assert parts + [last] == [last];
    } else {
      var rest := parts[1..];
      assert (parts + [last])[1..] == rest + [last];
      JoinMore(rest, last);
      if rest != [] {
        assert parts[0] + "," + (Join(rest, "") + "," + last) == parts[0] + "," + Join(rest, "") + "," + last;
      }
    }
  }

  lemma LlxChars(n: nat)
    ensures Llx(n) != "" && Llx(n)[0] != 'N' && ',' !in Llx(n)
  {
    PrintDigits(n, 10);
    PrintDigits(n, 16);
    forall i | 0 <= i < |Llx(n)| ensures Llx(n)[i] != ',' {
      if n >= 10 && i >= 2 { assert Llx(n)[i] == Print(n, 16)[i - 2]; }
    }
  }

  lemma LlxReadsBackBefore(n: nat, rest: string)
    requires rest != [] ==> DigitValue(rest[0]) >= 16 && (n == 0 ==> rest[0] != 'x' && rest[0] != 'X')
    ensures StrToULL(Llx(n) + rest, 16).1 == |Llx(n)|
  {
    var prefix, digits := if n < 10 then "" else "0x", if n < 10 then Print(n, 10) else Print(n, 16);
    PrintDigits(n, 10);
    PrintDigits(n, 16);
    assert Llx(n) + rest == prefix + digits + rest;
    assert n < 10 ==> |digits| == 1;
    NumberIsRead(prefix, digits, rest, 16, 16);
  }

  /** What the library makes of a field: no value counts as zero, and values beyond 64 bits as the largest one. */
  function Assigned(f: Field): Assignment {
    Assignment(f.key, if f.value.None? then 0 else Clamp(f.value.value))
  }

  function AllAssigned(fields: seq<Field>): seq<Assignment> {
    seq(|fields|, i requires 0 <= i < |fields| => Assigned(fields[i]))
  }

  lemma FieldParses(f: Field)
    requires Printable(f)
    ensures ',' !in FieldText(f) && ParseAssignment(FieldText(f)) == Some(Assigned(f))
  {
    hide StrToULL, ParseAssignment;
    KeyAndTextParse(f.key, ValueText(f));
    if f.value.Some? {
      LlxChars(f.value.value);
      LlxReadsBack(f.value.value);
    }
  }

  /** Printed fields are parsed to their keys and values in order. */
  lemma PrintedFieldsParse(fields: seq<Field>)
    requires fields != [] && forall i :: 0 <= i < |fields| ==> Printable(fields[i])
    ensures ParseAssignmentListSpec(PrintFields(fields)) == Some(AllAssigned(fields))
  {
    hide FieldText, ParseAssignment;
    var parts := FieldTexts(fields);
    forall i | 0 <= i < |fields|
      ensures ',' !in parts[i] && ParseAssignment(parts[i]) == Some(Assigned(fields[i])) && "" + parts[i] == parts[i]
    {
      FieldParses(fields[i]);
    }
    ParseJoined("", parts, "", ParseAssignment, AllAssigned(fields));
    assert "" + Join(parts, "") == PrintFields(fields);
  }

  /** The fields that give all assignments their values. */
  function FieldsOf(asns: seq<Assignment>): seq<Field> {
    seq(|asns|, i requires 0 <= i < |asns| => Field(asns[i].key, Some(asns[i].value)))
  }

  /**
   * Printing assignments as the generator does and parsing them gives them back exactly if there is one at all
   * and all values have 64 bits.
   */
  lemma AssignmentListRoundTrip(asns: seq<Assignment>)
    requires forall i :: 0 <= i < |asns| ==> Printable(FieldsOf(asns)[i])
    ensures ParseAssignmentListSpec(PrintFields(FieldsOf(asns))) == Some(asns) <==>
              asns != [] && forall i :: 0 <= i < |asns| ==> asns[i].value <= ULLONG_MAX
  {
    var fields := FieldsOf(asns);
    if asns == [] {
      assert ParseAssignment(""[..0]) == None;
    } else {
      PrintedFieldsParse(fields);
      if AllAssigned(fields) == asns {
        forall i | 0 <= i < |asns| ensures asns[i].value <= ULLONG_MAX {
          assert AllAssigned(fields)[i] == asns[i];
        }
      } else {
        var i :| 0 <= i < |asns| && AllAssigned(fields)[i] != asns[i];
      }
    }
  }

  /**
   * Fields that the generator prints in decimal are read back with their value only if they have one digit
   * (or are at the limit of 64 bits): the parser always reads base 16.
   */
  lemma DecimalFieldReadsBack(key: string, n: nat)
    requires key != "" && '=' !in key
    ensures ParseAssignment(key + "=" + Print(n, 10)) == Some(Assignment(key, n)) <==> n < 10 || n == ULLONG_MAX
  {
    var text := Print(n, 10);
    PrintDigits(n, 10);
    KeyAndTextParse(key, text);
    DecimalInBaseSixteen(n);
    DecimalIsUsedUp(n);
  }

  lemma DecimalIsUsedUp(n: nat)
    ensures StrToULL(Print(n, 10), 16).1 == |Print(n, 10)|
  {
    var digits := Print(n, 10);
    PrintDigits(n, 10);
    assert digits[0..] == digits + [] && !HexPrefix(digits);
    MagnitudeReads(digits, 16, 16, 0, digits, []);
    UnsignedReads(digits, 16);
  }
}
