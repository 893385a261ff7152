/** Event encoding (src/pmu-events.c): `parse_config_def`, `apply_config_def_to_attr` and `gen_attr_for_event`. */
module EventAttr {
  import opened Options
  import opened Numbers
  import opened CommaLists
  import opened Words
  import opened Ranges
  import opened ConfigBits
  import opened Assignments

  // ----- Config definitions

  datatype AttrVar = CONFIG | CONFIG1 | CONFIG2

  datatype ConfigDef = ConfigDef(reg: AttrVar, ranges: seq<Range>)

  function DefPrefix(reg: AttrVar): string {
    match reg
    case CONFIG => "config:"
    case CONFIG1 => "config1:"
    case CONFIG2 => "config2:"
  }

  function RangesOfDef(reg: AttrVar, term: string): Option<ConfigDef>
    requires DefPrefix(reg) <= term
  {
    var list := ParseRangeListSpec(term[|DefPrefix(reg)|..]);
    if list.None? then None else Some(ConfigDef(reg, list.value))
  }

  function ParseConfigDefSpec(term: string): Option<ConfigDef> {
    if DefPrefix(CONFIG) <= term then RangesOfDef(CONFIG, term)
    else if DefPrefix(CONFIG1) <= term then RangesOfDef(CONFIG1, term)
    else if DefPrefix(CONFIG2) <= term then RangesOfDef(CONFIG2, term)
    else None
  }

  method ParseConfigDef(term: string) returns (r: Option<ConfigDef>)
    requires '\0' !in term
    ensures r == ParseConfigDefSpec(term)
  {
    var reg;
    if DefPrefix(CONFIG) <= term {
      reg := CONFIG;
    } else if DefPrefix(CONFIG1) <= term {
      reg := CONFIG1;
    } else if DefPrefix(CONFIG2) <= term {
      reg := CONFIG2;
    } else {
      return None;
    }
    var list := ParseRangeList(term[|DefPrefix(reg)|..]);
    r := if list.None? then None else Some(ConfigDef(reg, list.value));
  }

  /** The three prefixes select the words, and what follows them is the range list. */
  lemma PrefixSelectsWord(list: string)
    ensures var ranges := ParseRangeListSpec(list);
            && ParseConfigDefSpec("config:" + list)
               == (if ranges.None? then None else Some(ConfigDef(CONFIG, ranges.value)))
            && ParseConfigDefSpec("config1:" + list)
               == (if ranges.None? then None else Some(ConfigDef(CONFIG1, ranges.value)))
            && ParseConfigDefSpec("config2:" + list)
               == (if ranges.None? then None else Some(ConfigDef(CONFIG2, ranges.value)))
  {
    PrefixIsRead(CONFIG, list);
    PrefixIsRead(CONFIG1, list);
    PrefixIsRead(CONFIG2, list);
  }

  /** Every other text is refused. */
  lemma OtherPrefixIsRefused(text: string)
    requires !("config:" <= text) && !("config1:" <= text) && !("config2:" <= text)
    ensures ParseConfigDefSpec(text) == None
  {
  }

  /** A definition as the kernel writes it. */
  function DefText(def: ConfigDef): string {
    DefPrefix(def.reg) + Join(RangeTexts(def.ranges), "")
  }

  /** A written definition is parsed to the same word and ranges exactly if there are any and all bounds fit. */
  lemma ConfigDefRoundTrip(def: ConfigDef)
    ensures ParseConfigDefSpec(DefText(def)) == Some(def) <==> def.ranges != [] && AllInWord(def.ranges)
  {
    hide ParseConfigDefSpec, ParseRangeListSpec, Join, RangeTexts;
    PrefixIsRead(def.reg, Join(RangeTexts(def.ranges), ""));
    if def.ranges == [] {
      NoRanges();
    } else {
      RangePartsReadBack(def.ranges, "");
      ClampedIsSame(def.ranges);
    }
  }

  lemma NoRanges()
    ensures ParseRangeListSpec(Join(RangeTexts([]), "")) == None
  {
    assert ParseRange(""[..0]) == None;
  }

  lemma PrefixIsRead(reg: AttrVar, list: string)
    ensures var ranges := ParseRangeListSpec(list);
            ParseConfigDefSpec(DefPrefix(reg) + list) ==
            if ranges.None? then None else Some(ConfigDef(reg, ranges.value))
  {
    hide ParseRangeListSpec;
    var text, prefix := DefPrefix(reg) + list, DefPrefix(reg);
    assert text[|prefix|..] == list;
    assert prefix <= text && text[6] == prefix[6];
  }

  lemma DefTextLacksNul(def: ConfigDef)
    ensures '\0' !in DefText(def)
  {
    RangePartsLackNul(def.ranges, "");
  }

  // ----- The attribute and one assignment

  /** The three words of `struct perf_event_attr` that an event can set. */
  datatype Regs = Regs(config: Word, config1: Word, config2: Word) {
    function Get(reg: AttrVar): Word {
      match reg
      case CONFIG => config
      case CONFIG1 => config1
      case CONFIG2 => config2
    }

    function Set(reg: AttrVar, w: Word): Regs {
      match reg
      case CONFIG => this.(config := w)
      case CONFIG1 => this.(config1 := w)
      case CONFIG2 => this.(config2 := w)
    }
  }

  function Applied(regs: Regs, value: nat, def: ConfigDef): Regs
    requires Usable(def.ranges)
  {
    regs.Set(def.reg, Scatter(regs.Get(def.reg), ToBits(value, 64), def.ranges))
  }

  class PerfEventAttr {
    var kind: nat
    var config: Word
    var config1: Word
    var config2: Word

    function State(): Regs
      reads this
    {
      Regs(config, config1, config2)
    }

    method ApplyConfigDef(value: nat, def: ConfigDef)
      requires Usable(def.ranges)
      modifies `config, `config1, `config2
      ensures State() == Applied(old(State()), value, def)
    {
      match def.reg
      case CONFIG => config := ApplyRangeListToVal(config, ToBits(value, 64), def.ranges);
      case CONFIG1 => config1 := ApplyRangeListToVal(config1, ToBits(value, 64), def.ranges);
      case CONFIG2 => config2 := ApplyRangeListToVal(config2, ToBits(value, 64), def.ranges);
    }
  }

  // ----- All assignments of an event

  predicate IsPeriod(a: Assignment) { a.key == "period" }

  /** The content of a format file: a C string, in whose definition no shift is undefined. */
  ghost predicate SafeFormat(text: string) {
    '\0' !in text && (ParseConfigDefSpec(text).Some? ==> Usable(ParseConfigDefSpec(text).value.ranges))
  }

  /** The format files, by key, as far as the assignments use them. */
  ghost predicate SafeFormats(asns: seq<Assignment>, formats: map<string, string>) {
    forall i :: 0 <= i < |asns| && !IsPeriod(asns[i]) && asns[i].key in formats ==> SafeFormat(formats[asns[i].key])
  }

  function DefOf(a: Assignment, formats: map<string, string>): Option<ConfigDef> {
    if a.key in formats then ParseConfigDefSpec(formats[a.key]) else None
  }

  /** Success, and the words after it; a failure leaves what was applied before it. */
  function Encode(regs: Regs, asns: seq<Assignment>, formats: map<string, string>): (bool, Regs)
    requires SafeFormats(asns, formats)
    decreases |asns|
  {
    if asns == [] then (true, regs)
    else if IsPeriod(asns[0]) then Encode(regs, asns[1..], formats)
    else
      var def := DefOf(asns[0], formats);
      if def.None? then (false, regs) else Encode(Applied(regs, asns[0].value, def.value), asns[1..], formats)
  }

  /** `perfType` is the content of the type file, or -1 if it cannot be read. */
  method GenAttrForEvent(attr: PerfEventAttr, perfType: int, event: string, formats: map<string, string>)
    returns (ok: bool)
    requires -0x8000_0000 <= perfType < 0x8000_0000 && '\0' !in event
    requires ParseAssignmentListSpec(event).Some? ==> SafeFormats(ParseAssignmentListSpec(event).value, formats)
    modifies attr
    ensures attr.kind == perfType % 0x1_0000_0000
    ensures perfType == -1 || ParseAssignmentListSpec(event).None? ==> !ok && attr.State() == old(attr.State())
    ensures perfType != -1 && ParseAssignmentListSpec(event).Some? ==>
              (ok, attr.State()) == Encode(old(attr.State()), ParseAssignmentListSpec(event).value, formats)
  {
    hide ParseAssignmentListSpec, ParseConfigDefSpec, Applied, Usable;
    attr.kind := perfType % 0x1_0000_0000;
    if attr.kind == 0xFFFF_FFFF {
      return false;
    }
    var list := ParseAssignmentList(event);
    if list.None? {
      return false;
    }
    var asns := list.value;
    assert asns[0..] == asns;
    for i := 0 to |asns|
      invariant Encode(attr.State(), asns[i..], formats) == Encode(old(attr.State()), asns, formats)
      invariant attr.kind == perfType % 0x1_0000_0000
    {
      assert asns[i..][0] == asns[i] && asns[i..][1..] == asns[i + 1..];
      if asns[i].key == "period" {
        continue;
      }
      if asns[i].key !in formats {
        return false;
      }
      var def := ParseConfigDef(formats[asns[i].key]);
      if def.None? {
        return false;
      }
      attr.ApplyConfigDef(asns[i].value, def.value);
    }
    return true;
  }

  // ----- What a successful encoding means

  /** The format of the assignment has bit `p` of the word `reg` in one of its ranges. */
  ghost predicate Writes(a: Assignment, formats: map<string, string>, reg: AttrVar, p: nat) {
    DefOf(a, formats).Some? &&
    var def := DefOf(a, formats).value;
    def.reg == reg && exists i :: 0 <= i < |def.ranges| && def.ranges[i].start <= p <= def.ranges[i].end
  }

  ghost predicate SoundDef(a: Assignment, formats: map<string, string>) {
    DefOf(a, formats).Some? && DefOf(a, formats).value.ranges != [] && Disjoint(DefOf(a, formats).value.ranges)
  }

  ghost predicate Apart(a: Assignment, b: Assignment, formats: map<string, string>) {
    forall reg: AttrVar, p: nat :: !(Writes(a, formats, reg, p) && Writes(b, formats, reg, p))
  }

  /** Every assignment but `period` has a format, in-bounds and disjoint from the formats of the others. */
  ghost predicate WellSpread(asns: seq<Assignment>, formats: map<string, string>) {
    && (forall i :: 0 <= i < |asns| && !IsPeriod(asns[i]) ==> SoundDef(asns[i], formats))
    && forall i, j :: 0 <= i < j < |asns| && !IsPeriod(asns[i]) && !IsPeriod(asns[j]) ==>
         Apart(asns[i], asns[j], formats)
  }

  lemma {:induction false} EncodeSucceeds(regs: Regs, asns: seq<Assignment>, formats: map<string, string>)
    requires SafeFormats(asns, formats)
    ensures Encode(regs, asns, formats).0 <==>
              forall i :: 0 <= i < |asns| ==> IsPeriod(asns[i]) || DefOf(asns[i], formats).Some?
    decreases |asns|
  {
    if asns == [] {
    } else {
      var rest := asns[1..];
      assert asns == [asns[0]] + rest;
      if IsPeriod(asns[0]) {
        EncodeSucceeds(regs, rest, formats);
      } else if DefOf(asns[0], formats).Some? {
        EncodeSucceeds(Applied(regs, asns[0].value, DefOf(asns[0], formats).value), rest, formats);
      }
    }
  }

  lemma AppliedElsewhere(regs: Regs, a: Assignment, formats: map<string, string>, reg: AttrVar, p: nat)
    requires DefOf(a, formats).Some? && Usable(DefOf(a, formats).value.ranges)
    requires p < 64 && !Writes(a, formats, reg, p)
    ensures Applied(regs, a.value, DefOf(a, formats).value).Get(reg)[p] == regs.Get(reg)[p]
  {
    var def := DefOf(a, formats).value;
    if def.reg == reg {
      PositionInRange(def.ranges, p);
      ScatterElsewhere(regs.Get(reg), ToBits(a.value, 64), def.ranges, p);
    }
  }

  /** The number of assignments in front of the first one without a format that parses. */
  function Executed(asns: seq<Assignment>, formats: map<string, string>): (n: nat)
    ensures n <= |asns|
  {
    if asns != [] && (IsPeriod(asns[0]) || DefOf(asns[0], formats).Some?) then 1 + Executed(asns[1..], formats) else 0
  }

  lemma {:induction false} ExecutedHasDef(asns: seq<Assignment>, formats: map<string, string>, i: nat)
    requires i < Executed(asns, formats) && !IsPeriod(asns[i])
    ensures DefOf(asns[i], formats).Some?
  {
    if i == 0 {
    } else {
      ExecutedHasDef(asns[1..], formats, i - 1);
    }
  }

  lemma {:induction false} AllExecuted(asns: seq<Assignment>, formats: map<string, string>)
    requires forall i :: 0 <= i < |asns| ==> IsPeriod(asns[i]) || DefOf(asns[i], formats).Some?
    ensures Executed(asns, formats) == |asns|
  {
    if asns == [] {
    } else {
      AllExecuted(asns[1..], formats);
    }
  }

  /** No executed assignment from `i` on writes the bit. */
  ghost predicate NotWritten(asns: seq<Assignment>, formats: map<string, string>, i: nat, reg: AttrVar, p: nat) {
    forall j :: i <= j < Executed(asns, formats) && !IsPeriod(asns[j]) ==> !Writes(asns[j], formats, reg, p)
  }

  lemma NotWrittenByRest(asns: seq<Assignment>, formats: map<string, string>, i: nat, reg: AttrVar, p: nat)
    requires Executed(asns, formats) > 0 && NotWritten(asns, formats, i, reg, p)
    ensures NotWritten(asns[1..], formats, if i == 0 then 0 else i - 1, reg, p)
  {
    var rest := asns[1..];
    forall j | (if i == 0 then 0 else i - 1) <= j < Executed(rest, formats) && !IsPeriod(rest[j])
      ensures !Writes(rest[j], formats, reg, p)
    {
      assert rest[j] == asns[j + 1];
    }
  }

  /** A bit that no executed assignment writes is unchanged, also by overlapping formats and by a failing run. */
  lemma {:induction false} EncodeElsewhere(regs: Regs, asns: seq<Assignment>, formats: map<string, string>,
                                           reg: AttrVar, p: nat)
    requires SafeFormats(asns, formats) && p < 64 && NotWritten(asns, formats, 0, reg, p)
    ensures Encode(regs, asns, formats).1.Get(reg)[p] == regs.Get(reg)[p]
    decreases |asns|
  {
    hide Writes, Applied;
    if Executed(asns, formats) == 0 {
    } else {
      NotWrittenByRest(asns, formats, 0, reg, p);
      if IsPeriod(asns[0]) {
        EncodeElsewhere(regs, asns[1..], formats, reg, p);
      } else {
        var next := Applied(regs, asns[0].value, DefOf(asns[0], formats).value);
        AppliedElsewhere(regs, asns[0], formats, reg, p);
        EncodeElsewhere(next, asns[1..], formats, reg, p);
      }
    }
  }

  /** The bit is the `k`-th position of the assignment's format, and not listed again behind it. */
  ghost predicate WritesLast(a: Assignment, formats: map<string, string>, k: nat, reg: AttrVar, p: nat) {
    DefOf(a, formats).Some? &&
    var def := DefOf(a, formats).value;
    && Usable(def.ranges) && def.reg == reg
    && IsLast(Positions(def.ranges), k) && Positions(def.ranges)[k] == p
  }

  lemma AppliedHolds(regs: Regs, a: Assignment, formats: map<string, string>, k: nat, reg: AttrVar, p: nat)
    requires WritesLast(a, formats, k, reg, p)
    ensures p < 64 && Applied(regs, a.value, DefOf(a, formats).value).Get(reg)[p] == BitAt(ToBits(a.value, 64), k)
  {
    ScatterHolds(regs.Get(reg), ToBits(a.value, 64), DefOf(a, formats).value.ranges, k);
  }

  /**
   * A bit holds the bit of the last executed assignment whose format lists it, at the last place where it lists it:
   * for formats that overlap, with each other or in themselves, and for a failing run too.
   */
  lemma {:induction false} EncodeHolds(regs: Regs, asns: seq<Assignment>, formats: map<string, string>,
                                       i: nat, k: nat, reg: AttrVar, p: nat)
    requires SafeFormats(asns, formats) && i < Executed(asns, formats) && !IsPeriod(asns[i])
    requires WritesLast(asns[i], formats, k, reg, p) && NotWritten(asns, formats, i + 1, reg, p)
    ensures p < 64 && Encode(regs, asns, formats).1.Get(reg)[p] == BitAt(ToBits(asns[i].value, 64), k)
    decreases |asns|
  {
    hide Writes, WritesLast, Applied;
    var a, rest := asns[0], asns[1..];
    var next := if IsPeriod(a) then regs else Applied(regs, a.value, DefOf(a, formats).value);
    NotWrittenByRest(asns, formats, i + 1, reg, p);
    if i == 0 {
      AppliedHolds(regs, a, formats, k, reg, p);
      EncodeElsewhere(next, rest, formats, reg, p);
    } else {
      assert rest[i - 1] == asns[i];
      EncodeHolds(next, rest, formats, i - 1, k, reg, p);
    }
  }

  /** An assignment whose bits no later one writes is read back, whatever earlier ones wrote. */
  lemma LastValueReadsBack(regs: Regs, asns: seq<Assignment>, formats: map<string, string>, i: nat)
    requires SafeFormats(asns, formats) && i < Executed(asns, formats) && !IsPeriod(asns[i])
    requires SoundDef(asns[i], formats) && asns[i].value < Pow2(64)
    requires forall j :: i < j < Executed(asns, formats) && !IsPeriod(asns[j]) ==> Apart(asns[i], asns[j], formats)
    ensures var def := DefOf(asns[i], formats).value;
            ToNat(Gather(Encode(regs, asns, formats).1.Get(def.reg), def.ranges))
            == asns[i].value % Pow2(TotalWidth(def.ranges))
  {
    var def := DefOf(asns[i], formats).value;
    var n, x := TotalWidth(def.ranges), asns[i].value;
    var got := Gather(Encode(regs, asns, formats).1.Get(def.reg), def.ranges);
    forall k | 0 <= k < n ensures got[k] == ToBits(x, n)[k] {
      EncodeWrites(regs, asns, formats, i, k);
      BitsOfWord(x, n, k);
    }
    assert got == ToBits(x, n);
    NumberOfBits(x, n);
  }

  /** A bit that an assignment writes holds the bit of its value if no later one writes there. */
  lemma EncodeWrites(regs: Regs, asns: seq<Assignment>, formats: map<string, string>, i: nat, k: nat)
    requires SafeFormats(asns, formats) && i < Executed(asns, formats) && !IsPeriod(asns[i])
    requires SoundDef(asns[i], formats) && k < |Positions(DefOf(asns[i], formats).value.ranges)|
    requires forall j :: i < j < Executed(asns, formats) && !IsPeriod(asns[j]) ==> Apart(asns[i], asns[j], formats)
    ensures var def := DefOf(asns[i], formats).value;
            var p := Positions(def.ranges)[k];
            p < 64 && Encode(regs, asns, formats).1.Get(def.reg)[p] == BitAt(ToBits(asns[i].value, 64), k)
  {
    var def := DefOf(asns[i], formats).value;
    var p := Positions(def.ranges)[k];
    DisjointIsUsable(def.ranges);
    PositionsAreDistinct(def.ranges);
    assert WritesLast(asns[i], formats, k, def.reg, p);
    PositionInRange(def.ranges, p);
    assert Writes(asns[i], formats, def.reg, p);
    assert NotWritten(asns, formats, i + 1, def.reg, p);
    EncodeHolds(regs, asns, formats, i, k, def.reg, p);
  }

  /** Every key but `period` is read back from its bits as its value modulo two to the width of its format. */
  lemma EncodedValueReadsBack(regs: Regs, asns: seq<Assignment>, formats: map<string, string>, i: nat)
    requires SafeFormats(asns, formats) && WellSpread(asns, formats)
    requires i < |asns| && !IsPeriod(asns[i]) && asns[i].value < Pow2(64)
    ensures Encode(regs, asns, formats).0
    ensures var def := DefOf(asns[i], formats).value;
            ToNat(Gather(Encode(regs, asns, formats).1.Get(def.reg), def.ranges))
            == asns[i].value % Pow2(TotalWidth(def.ranges))
  {
    EncodeSucceeds(regs, asns, formats);
    AllExecuted(asns, formats);
    LastValueReadsBack(regs, asns, formats, i);
  }

  // ----- Independence of the order

  lemma {:induction false} TwoPlaces(s: seq<Assignment>, x: Assignment)
    requires multiset(s)[x] >= 2
    ensures exists i, j :: 0 <= i < j < |s| && s[i] == s[j] == x
  {
    var n := |s| - 1;
    assert s == s[..n] + [s[n]];
    if s[n] == x {
      assert x in multiset(s[..n]);
      var i :| 0 <= i < n && s[..n][i] == x;
      assert s[i] == s[n] == x;
    } else {
      TwoPlaces(s[..n], x);
    }
  }

  lemma NotApartFromItself(a: Assignment, formats: map<string, string>)
    requires SoundDef(a, formats)
    ensures !Apart(a, a, formats)
  {
    var def := DefOf(a, formats).value;
    assert Writes(a, formats, def.reg, def.ranges[0].start);
  }

  lemma ApartIsSymmetric(a: Assignment, b: Assignment, formats: map<string, string>)
    ensures Apart(a, b, formats) == Apart(b, a, formats)
  {
  }

  lemma {:induction false} ReorderedTwice(s: seq<Assignment>, i: nat, j: nat)
    requires i < j < |s| && s[i] == s[j]
    ensures multiset(s)[s[i]] >= 2
  {
    assert s == s[..j] + s[j..];
    assert s[i] == s[..j][i] && s[j] == s[j..][0];
  }

  lemma ReorderingKeepsSpread(asns: seq<Assignment>, other: seq<Assignment>, formats: map<string, string>)
    requires WellSpread(asns, formats) && multiset(asns) == multiset(other)
    ensures WellSpread(other, formats)
  {
    forall i | 0 <= i < |other| && !IsPeriod(other[i]) ensures SoundDef(other[i], formats) {
      assert other[i] in multiset(asns);
    }
    forall i, j | 0 <= i < j < |other| && !IsPeriod(other[i]) && !IsPeriod(other[j])
      ensures Apart(other[i], other[j], formats)
    {
      var a, b := other[i], other[j];
      assert a in multiset(asns) && b in multiset(asns);
      if a == b {
        ReorderedTwice(other, i, j);
        TwoPlaces(asns, a);
        NotApartFromItself(a, formats);
        assert false;
      }
      var m :| 0 <= m < |asns| && asns[m] == a;
      var n :| 0 <= n < |asns| && asns[n] == b;
      ApartIsSymmetric(a, b, formats);
    }
  }

  lemma ReorderingKeepsSafe(asns: seq<Assignment>, other: seq<Assignment>, formats: map<string, string>)
    requires SafeFormats(asns, formats) && multiset(asns) == multiset(other)
    ensures SafeFormats(other, formats)
  {
    forall i | 0 <= i < |other| && !IsPeriod(other[i]) && other[i].key in formats
      ensures SafeFormat(formats[other[i].key])
    {
      assert other[i] in multiset(asns);
    }
  }

  /** The words do not depend on the order of the assignments. */
  lemma EncodingIgnoresOrder(regs: Regs, asns: seq<Assignment>, other: seq<Assignment>, formats: map<string, string>)
    requires SafeFormats(asns, formats) && WellSpread(asns, formats) && multiset(asns) == multiset(other)
    ensures SafeFormats(other, formats) && Encode(regs, asns, formats) == Encode(regs, other, formats)
  {
    ReorderingKeepsSafe(asns, other, formats);
    ReorderingKeepsSpread(asns, other, formats);
    EncodeSucceeds(regs, asns, formats);
    EncodeSucceeds(regs, other, formats);
    var left, right := Encode(regs, asns, formats).1, Encode(regs, other, formats).1;
    forall reg: AttrVar, p: nat | p < 64 ensures left.Get(reg)[p] == right.Get(reg)[p] {
      SameBit(regs, asns, other, formats, reg, p);
    }
    forall reg: AttrVar ensures left.Get(reg) == right.Get(reg) {}
    assert left == Regs(left.Get(CONFIG), left.Get(CONFIG1), left.Get(CONFIG2));
    assert right == Regs(right.Get(CONFIG), right.Get(CONFIG1), right.Get(CONFIG2));
  }

  lemma SameBit(regs: Regs, asns: seq<Assignment>, other: seq<Assignment>, formats: map<string, string>,
                reg: AttrVar, p: nat)
    requires SafeFormats(asns, formats) && SafeFormats(other, formats)
    requires multiset(asns) == multiset(other) && p < 64
    requires WellSpread(asns, formats) && WellSpread(other, formats)
    ensures Encode(regs, asns, formats).1.Get(reg)[p] == Encode(regs, other, formats).1.Get(reg)[p]
  {
    AllExecuted(asns, formats);
    AllExecuted(other, formats);
    if i :| 0 <= i < |asns| && !IsPeriod(asns[i]) && Writes(asns[i], formats, reg, p) {
      assert asns[i] in multiset(other);
      var j :| 0 <= j < |other| && other[j] == asns[i];
      var ranges := DefOf(asns[i], formats).value.ranges;
      PositionInRange(ranges, p);
      var k :| 0 <= k < |Positions(ranges)| && Positions(ranges)[k] == p;
      EncodeWrites(regs, asns, formats, i, k);
      EncodeWrites(regs, other, formats, j, k);
    } else {
      forall j | 0 <= j < |other| && !IsPeriod(other[j]) ensures !Writes(other[j], formats, reg, p) {
        assert other[j] in multiset(asns);
      }
      EncodeElsewhere(regs, asns, formats, reg, p);
      EncodeElsewhere(regs, other, formats, reg, p);
    }
  }

  // ----- From the generator to the attribute

  /** Fields of 64 bits, or without a value. */
  predicate IsEvent(fields: seq<Field>) {
    forall j :: 0 <= j < |fields| ==>
      Printable(fields[j]) && (fields[j].value.Some? ==> fields[j].value.value <= ULLONG_MAX)
  }

  /** The value that is meant: a field without one sets its bits to zero. */
  function Meant(f: Field): nat {
    if f.value.None? then 0 else f.value.value
  }

  /** An event string printed by the generator is parsed and encoded so that each of its values can be read back. */
  lemma PrintedEventReadsBack(regs: Regs, fields: seq<Field>, formats: map<string, string>, i: nat)
    requires IsEvent(fields) && i < |fields| && fields[i].key != "period"
    requires SafeFormats(AllAssigned(fields), formats) && WellSpread(AllAssigned(fields), formats)
    ensures ParseAssignmentListSpec(PrintFields(fields)) == Some(AllAssigned(fields))
    ensures Encode(regs, AllAssigned(fields), formats).0
    ensures var def := DefOf(AllAssigned(fields)[i], formats).value;
            ToNat(Gather(Encode(regs, AllAssigned(fields), formats).1.Get(def.reg), def.ranges))
            == Meant(fields[i]) % Pow2(TotalWidth(def.ranges))
  {
    PrintedFieldsParse(fields);
    WordSize();
    EncodedValueReadsBack(regs, AllAssigned(fields), formats, i);
  }

  /** The format files of these keys hold their definitions. */
  ghost predicate AreWritten(defs: map<string, ConfigDef>, formats: map<string, string>) {
    forall key :: key in defs ==> key in formats && formats[key] == DefText(defs[key])
  }

  /** Definitions of different words, or without a common bit. */
  ghost predicate DefsApart(a: ConfigDef, b: ConfigDef) {
    a.reg == b.reg ==>
      forall i, j :: 0 <= i < |a.ranges| && 0 <= j < |b.ranges| ==>
        a.ranges[i].end < b.ranges[j].start || b.ranges[j].end < a.ranges[i].start
  }

  /** Every key but `period` has a definition, in bounds and without overlap in itself or with the others used. */
  ghost predicate SoundDefs(asns: seq<Assignment>, defs: map<string, ConfigDef>) {
    && (forall i :: 0 <= i < |asns| && !IsPeriod(asns[i]) ==>
          && asns[i].key in defs
          && defs[asns[i].key].ranges != [] && Disjoint(defs[asns[i].key].ranges))
    && forall i, j :: 0 <= i < j < |asns| && !IsPeriod(asns[i]) && !IsPeriod(asns[j]) ==>
         DefsApart(defs[asns[i].key], defs[asns[j].key])
  }

  lemma FormatIsRead(defs: map<string, ConfigDef>, formats: map<string, string>, key: string)
    requires AreWritten(defs, formats) && key in defs && defs[key].ranges != [] && Disjoint(defs[key].ranges)
    ensures ParseConfigDefSpec(formats[key]) == Some(defs[key])
    ensures SafeFormat(formats[key])
  {
    DefTextLacksNul(defs[key]);
    ConfigDefRoundTrip(defs[key]);
    DisjointIsUsable(defs[key].ranges);
  }

  lemma WrittenFormatsAreSpread(asns: seq<Assignment>, defs: map<string, ConfigDef>, formats: map<string, string>)
    requires SoundDefs(asns, defs) && AreWritten(defs, formats)
    ensures SafeFormats(asns, formats) && WellSpread(asns, formats)
  {
    hide SafeFormat;
    forall i | 0 <= i < |asns| && !IsPeriod(asns[i])
      ensures DefOf(asns[i], formats) == Some(defs[asns[i].key]) && SoundDef(asns[i], formats)
      ensures SafeFormat(formats[asns[i].key])
    {
      FormatIsRead(defs, formats, asns[i].key);
    }
    forall i, j | 0 <= i < j < |asns| && !IsPeriod(asns[i]) && !IsPeriod(asns[j])
      ensures Apart(asns[i], asns[j], formats)
    {
      assert DefsApart(defs[asns[i].key], defs[asns[j].key]);
    }
  }

  /**
   * A printed event string and written format files: the parsers, the encoding and the scatter together
   * place every value where the ranges of its key say. Files that the event does not use may hold anything.
   */
  lemma WrittenEventReadsBack(regs: Regs, fields: seq<Field>, defs: map<string, ConfigDef>,
                              formats: map<string, string>, i: nat)
    requires IsEvent(fields) && i < |fields| && fields[i].key != "period"
    requires SoundDefs(AllAssigned(fields), defs) && AreWritten(defs, formats)
    ensures SafeFormats(AllAssigned(fields), formats) && fields[i].key in defs
    ensures ParseAssignmentListSpec(PrintFields(fields)) == Some(AllAssigned(fields))
    ensures Encode(regs, AllAssigned(fields), formats).0
    ensures var def := defs[fields[i].key];
            Disjoint(def.ranges) &&
            ToNat(Gather(Encode(regs, AllAssigned(fields), formats).1.Get(def.reg), def.ranges))
            == Meant(fields[i]) % Pow2(TotalWidth(def.ranges))
  {
    var asns := AllAssigned(fields);
    assert !IsPeriod(asns[i]);
    WrittenFormatsAreSpread(asns, defs, formats);
    FormatIsRead(defs, formats, asns[i].key);
    PrintedEventReadsBack(regs, fields, formats, i);
  }

  lemma Square(n: nat, p: nat)
    requires Pow2(n) == p
    ensures Pow2(2 * n) == p * p
  {
    Pow2Sum(n, n);
  }

  lemma WordSize()
    ensures Pow2(64) == ULLONG_MAX + 1
  {
    assert Pow2(4) == 16;
    hide Pow2;
    Square(4, 16);
    Square(8, 0x100);
    Square(16, 0x1_0000);
    Square(32, 0x1_0000_0000);
  }
}
