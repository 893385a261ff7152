/** Records in the big string: `build_c_string` and the generated decoders of events and metrics (jevents.py). */
module Records {
  import opened Options
  import opened CText
  import opened BigCString
  import opened PackedStrings
  import Numbers

  /** A field is a pointer to a string, a C `bool` or a C enumeration. */
  datatype Kind = Text | Flag | Enum

  const EVENT_LAYOUT: seq<Kind> := [Text, Text, Text, Text, Text, Flag, Flag, Text, Text, Text, Text, Text]

  const METRIC_LAYOUT: seq<Kind> := [Text, Text, Text, Text, Text, Text, Text, Text, Text, Text, Enum, Enum]

  /** The attributes in the order in which they are written and read. */
  const EVENT_ATTRIBUTES: seq<string> := [
    "name", "topic", "desc", "event", "compat", "deprecated", "perpkg", "unit",
    "retirement_latency_mean", "retirement_latency_min", "retirement_latency_max", "long_desc"]

  const METRIC_ATTRIBUTES: seq<string> := [
    "metric_name", "metric_group", "metric_expr", "metric_threshold", "desc", "long_desc", "unit", "compat",
    "metricgroup_no_group", "default_metricgroup_name", "aggr_mode", "event_grouping"]

  /** The attributes that are written as one digit, of which two are a `bool` in C. */
  const DIGIT_ATTRIBUTES: set<string> := {"aggr_mode", "deprecated", "event_grouping", "perpkg"}

  /** Each attribute has the kind of its name. */
  lemma KindsOfAttributes(i: nat)
    requires i < 12
    ensures |EVENT_LAYOUT| == |EVENT_ATTRIBUTES| == |METRIC_LAYOUT| == |METRIC_ATTRIBUTES| == 12
    ensures EVENT_LAYOUT[i] != Text <==> EVENT_ATTRIBUTES[i] in DIGIT_ATTRIBUTES
    ensures METRIC_LAYOUT[i] != Text <==> METRIC_ATTRIBUTES[i] in DIGIT_ATTRIBUTES
    ensures EVENT_LAYOUT[i] == Flag <==> EVENT_ATTRIBUTES[i] in {"deprecated", "perpkg"}
    ensures METRIC_LAYOUT[i] != Flag
  {
  }

  // ----- Writing

  /** Python's truth of an attribute. */
  predicate Given(x: Option<string>) { x.Some? && x.value != "" }

  function FieldText(kind: Kind, x: Option<string>): string {
    if kind == Text then (if Given(x) then x.value + "\\000" else "\\000")
    else if Given(x) then x.value
    else "0"
  }

  function BuildCString(layout: seq<Kind>, fields: seq<Option<string>>): string
    requires |layout| == |fields|
  {
    if layout == [] then "" else FieldText(layout[0], fields[0]) + BuildCString(layout[1..], fields[1..])
  }

  // ----- Reading

  datatype Value = Pointer(target: Option<string>) | Bool(value: bool) | Number(number: int)

  /** The character at a position, with the terminator of the whole literal. */
  function At(big: string, p: nat): char
    requires p <= |big|
  {
    if p < |big| then big[p] else '\0'
  }

  function NulAt(big: string, p: nat): (n: nat)
    requires p <= |big|
    ensures p <= n <= |big| && At(big, n) == '\0'
    decreases |big| - p
  {
    if At(big, p) == '\0' then p else NulAt(big, p + 1)
  }

  function ValueAt(kind: Kind, big: string, p: nat): Value
    requires p <= |big|
  {
    match kind
    case Text => Pointer(if At(big, p) == '\0' then None else Some(big[p..NulAt(big, p)]))
    case Flag => Bool(At(big, p) as int - '0' as int != 0)
    case Enum => Number(At(big, p) as int - '0' as int)
  }

  function After(kind: Kind, big: string, p: nat): nat
    requires p <= |big|
  {
    if kind == Text then NulAt(big, p) + 1 else p + 1
  }

  /** The fields read from position `p` on; none if that would read beyond the literal. */
  function Fields(layout: seq<Kind>, big: string, p: nat): Option<seq<Value>> {
    if layout == [] then Some([])
    else if p > |big| then None
    else
      var rest := Fields(layout[1..], big, After(layout[0], big, p));
      if rest.None? then None else Some([ValueAt(layout[0], big, p)] + rest.value)
  }

  /** Moves to the next field. */
  method Advance(kind: Kind, big: string, p: nat) returns (next: nat)
    requires p <= |big|
    ensures next == After(kind, big, p)
  {
    next := p;
    if kind == Text {
      while At(big, next) != '\0'
        invariant p <= next <= NulAt(big, p) && NulAt(big, next) == NulAt(big, p)
        decreases |big| - next
      {
        next := next + 1;
      }
    }
    next := next + 1;
  }

  lemma FieldsStep(layout: seq<Kind>, i: nat, big: string, p: nat)
    requires i < |layout| && Fields(layout[i..], big, p).Some?
    ensures p <= |big|
    ensures var rest := Fields(layout[i + 1..], big, After(layout[i], big, p));
            rest.Some? && Fields(layout[i..], big, p).value == [ValueAt(layout[i], big, p)] + rest.value
  {
    assert layout[i..][0] == layout[i] && layout[i..][1..] == layout[i + 1..];
  }

  /** The generated decoder: one step per attribute, the last one without moving on. */
  method Decompress(layout: seq<Kind>, big: string, offset: nat) returns (values: seq<Value>)
    requires Fields(layout, big, offset).Some?
    ensures Fields(layout, big, offset) == Some(values)
  {
    var p := offset;
    values := [];
    assert layout[0..] == layout;
    for i := 0 to |layout|
      invariant Fields(layout[i..], big, p).Some?
      invariant Fields(layout, big, offset).value == values + Fields(layout[i..], big, p).value
    {
      FieldsStep(layout, i, big, p);
      values := values + [ValueAt(layout[i], big, p)];
      if i + 1 < |layout| {
        p := Advance(layout[i], big, p);
      } else {
        assert layout[i + 1..] == [];
      }
    }
    assert layout[|layout|..] == [];
    assert Fields(layout, big, offset).value == values;
  }

  // ----- Round trip

  /** What the C side is to see for an attribute. */
  function Expected(kind: Kind, x: Option<string>): Value {
    match kind
    case Text => Pointer(if Given(x) then Some(Decode(x.value)) else None)
    case Flag => Bool(Given(x) && x.value[0] != '0')
    case Enum => Number(if Given(x) then x.value[0] as int - '0' as int else 0)
  }

  function ExpectedAll(layout: seq<Kind>, fields: seq<Option<string>>): seq<Value> {
    seq(|layout|, i requires 0 <= i < |layout| => Expected(layout[i], if i < |fields| then fields[i] else None))
  }

  /** Texts are well-formed and without NUL; enumerations are absent or one digit. */
  predicate Storable(kind: Kind, x: Option<string>) {
    Given(x) ==>
      if kind == Text then WellFormed(x.value) && '\0' !in Decode(x.value)
      else |x.value| == 1 && Numbers.IsDigit(x.value[0])
  }

  predicate StorableAll(layout: seq<Kind>, fields: seq<Option<string>>) {
    |layout| == |fields| && forall i :: 0 <= i < |layout| ==> Storable(layout[i], fields[i])
  }

  function FieldBytes(kind: Kind, x: Option<string>): string {
    if kind == Text then (if Given(x) then Decode(x.value) else []) + ['\0'] else FieldText(kind, x)
  }

  lemma FieldDecodes(kind: Kind, x: Option<string>)
    requires Storable(kind, x)
    ensures WellFormed(FieldText(kind, x)) && Decode(FieldText(kind, x)) == FieldBytes(kind, x)
  {
    var nul := "\\000";
    assert TokenLen(nul) == 4 && nul[4..] == [];
    assert WellFormed(nul) && Decode(nul) == ['\0'];
    if kind == Text {
      if Given(x) { DecodeJoins(x.value, nul); }
    } else {
      var t := FieldText(kind, x);
      assert TokenLen(t) == 1 && t[1..] == [];
    }
  }

  function RecordBytes(layout: seq<Kind>, fields: seq<Option<string>>): string
    requires |layout| == |fields|
  {
    if layout == [] then [] else FieldBytes(layout[0], fields[0]) + RecordBytes(layout[1..], fields[1..])
  }

  lemma {:induction false} RecordDecodes(layout: seq<Kind>, fields: seq<Option<string>>)
    requires StorableAll(layout, fields)
    ensures WellFormed(BuildCString(layout, fields))
    ensures Decode(BuildCString(layout, fields)) == RecordBytes(layout, fields)
  {
    if layout == [] {
    } else {
      FieldDecodes(layout[0], fields[0]);
      RecordDecodes(layout[1..], fields[1..]);
      DecodeJoins(FieldText(layout[0], fields[0]), BuildCString(layout[1..], fields[1..]));
    }
  }

  lemma {:induction false} NulAfter(big: string, p: nat, v: string)
    requires '\0' !in v && p + |v| < |big| && big[p..p + |v|] == v && big[p + |v|] == '\0'
    ensures NulAt(big, p) == p + |v|
    decreases |v|
  {
    if v == [] {
    } else {
      assert big[p] == big[p..p + |v|][0] == v[0];
      assert big[p + 1..p + 1 + |v[1..]|] == big[p..p + |v|][1..];
      NulAfter(big, p + 1, v[1..]);
    }
  }

  lemma ReadsParts(big: string, p: nat, a: string, b: string)
    requires ReadsAt(big, p, a + b)
    ensures ReadsAt(big, p, a) && ReadsAt(big, p + |a|, b)
  {
    assert big[p..p + |a|] == big[p..p + |a + b|][..|a|];
    assert big[p + |a|..p + |a| + |b|] == big[p..p + |a + b|][|a|..];
  }

  /** A terminated text is read from where it stands. */
  lemma TextReads(big: string, p: nat, v: string)
    requires '\0' !in v && ReadsAt(big, p, v + ['\0'])
    ensures p + |v| < |big| && big[p..p + |v|] == v && NulAt(big, p) == p + |v|
    ensures v != [] ==> big[p] == v[0]
  {
    ReadsParts(big, p, v, ['\0']);
    assert big[p + |v|] == big[p + |v|..p + |v| + 1][0];
    NulAfter(big, p, v);
    assert v != [] ==> big[p] == big[p..p + |v|][0];
  }

  lemma FieldReadsBack(kind: Kind, x: Option<string>, big: string, p: nat)
    requires Storable(kind, x)
    requires ReadsAt(big, p, FieldBytes(kind, x))
    ensures ValueAt(kind, big, p) == Expected(kind, x)
    ensures After(kind, big, p) == p + |FieldBytes(kind, x)|
  {
    hide NulAt, ReadsAt;
    if kind == Text {
      var v := if Given(x) then Decode(x.value) else [];
      TextReads(big, p, v);
      assert Given(x) ==> v != [] && v[0] != '\0';
    } else {
      ByteReads(big, p, FieldBytes(kind, x));
    }
  }

  lemma ByteReads(big: string, p: nat, bytes: string)
    requires |bytes| == 1 && ReadsAt(big, p, bytes)
    ensures p < |big| && big[p] == bytes[0]
  {
    assert big[p] == big[p..p + |bytes|][0];
  }

  lemma ExpectedFirst(layout: seq<Kind>, fields: seq<Option<string>>)
    requires |layout| == |fields| > 0
    ensures ExpectedAll(layout, fields) == [Expected(layout[0], fields[0])] + ExpectedAll(layout[1..], fields[1..])
  {
  }

  /** A record that stands at `p`, alone or at the end of another record, is read back field by field. */
  lemma {:induction false} RecordReadsBack(layout: seq<Kind>, fields: seq<Option<string>>, big: string, p: nat)
    requires StorableAll(layout, fields)
    requires ReadsAt(big, p, RecordBytes(layout, fields))
    ensures Fields(layout, big, p) == Some(ExpectedAll(layout, fields))
    decreases |layout|
  {
    hide FieldBytes, Storable, Expected, ReadsAt;
    if layout == [] {
      assert ExpectedAll(layout, fields) == [];
    } else {
      var bytes := FieldBytes(layout[0], fields[0]);
      ReadsParts(big, p, bytes, RecordBytes(layout[1..], fields[1..]));
      FieldReadsBack(layout[0], fields[0], big, p);
      RecordReadsBack(layout[1..], fields[1..], big, p + |bytes|);
      ExpectedFirst(layout, fields);
    }
  }

  /**
   * Packing then decoding is the identity, for records of any layout and in particular for the two generated ones:
   * at the offset computed for the text of a record the decoder returns the record, also when it was folded.
   * What the cuts of the other strings are does not matter.
   */
  lemma PackThenDecode(layout: seq<Kind>, fields: seq<Option<string>>,
                       strings: set<string>, pieces: seq<string>, offsets: map<string, int>)
    requires StorableAll(layout, fields)
    requires Packed(strings, pieces, offsets) && AllWellFormed(strings)
    requires BuildCString(layout, fields) in strings
    requires IsReadable(strings, pieces, BuildCString(layout, fields))
    ensures BuildCString(layout, fields) in offsets && offsets[BuildCString(layout, fields)] >= 0
    ensures Fields(layout, BigText(pieces), offsets[BuildCString(layout, fields)]) == Some(ExpectedAll(layout, fields))
  {
    hide Packed, IsReadable, BigText, Decode, WellFormed, Storable, Fields, ExpectedAll, BuildCString, RecordBytes;
    var text := BuildCString(layout, fields);
    ReadableReadsBack(strings, pieces, offsets, text);
    RecordDecodes(layout, fields);
    RecordReadsBack(layout, fields, BigText(pieces), offsets[text]);
  }

  // ----- Metric expressions

  function DoubleBackslashes(s: string): string {
    if s == [] then [] else (if s[0] == '\\' then ['\\', '\\'] else [s[0]]) + DoubleBackslashes(s[1..])
  }

  /** Doubling the backslashes of an expression makes the C compiler read the expression itself. */
  lemma {:induction false} DoubledExpressionDecodes(s: string)
    requires '"' !in s && '\n' !in s
    ensures WellFormed(DoubleBackslashes(s)) && Decode(DoubleBackslashes(s)) == s
  {
    if s == [] {
    } else {
      DoubledExpressionDecodes(s[1..]);
      var head := if s[0] == '\\' then ['\\', '\\'] else [s[0]];
      var t := DoubleBackslashes(s);
      assert TokenLen(t) == |head| && t[|head|..] == DoubleBackslashes(s[1..]);
    }
  }

  /** The third attribute of a metric is the text of its expression, the printed tree with doubled backslashes. */
  ghost predicate IsMetric(fields: seq<Option<string>>, expr: string) {
    && StorableAll(METRIC_LAYOUT, fields)
    && '"' !in expr && '\n' !in expr && expr != "" && fields[2] == Some(DoubleBackslashes(expr))
  }

  /** A stored metric is decoded with the very text of its expression. */
  lemma StoredMetricDecodes(fields: seq<Option<string>>, expr: string,
                            strings: set<string>, pieces: seq<string>, offsets: map<string, int>)
    requires IsMetric(fields, expr)
    requires Packed(strings, pieces, offsets) && AllWellFormed(strings)
    requires BuildCString(METRIC_LAYOUT, fields) in strings
    requires IsReadable(strings, pieces, BuildCString(METRIC_LAYOUT, fields))
    ensures BuildCString(METRIC_LAYOUT, fields) in offsets && offsets[BuildCString(METRIC_LAYOUT, fields)] >= 0
    ensures var values := Fields(METRIC_LAYOUT, BigText(pieces), offsets[BuildCString(METRIC_LAYOUT, fields)]);
            values == Some(ExpectedAll(METRIC_LAYOUT, fields)) && values.value[2] == Pointer(Some(expr))
  {
    PackThenDecode(METRIC_LAYOUT, fields, strings, pieces, offsets);
    DoubledExpressionDecodes(expr);
    DoubledIsGiven(expr);
  }

  lemma DoubledIsGiven(expr: string)
    requires expr != ""
    ensures DoubleBackslashes(expr) != ""
  {
  }
}
