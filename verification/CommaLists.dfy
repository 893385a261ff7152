/** The loop shared by `parse_range_list` and `parse_assignment_list` (src/pmu-events.c). */
module CommaLists {
  import opened Options

  // ----- Specification: split at commas, then parse every part

  /** `strchr`: the first position of `c`, or the length if there is none. */
  function IndexOf(s: string, c: char): (n: nat)
    ensures n <= |s|
    ensures n < |s| ==> s[n] == c
    ensures c !in s[..n]
  {
    if s == [] || s[0] == c then 0
    else
      var n := IndexOf(s[1..], c);
      assert s[..n + 1] == [s[0]] + s[1..][..n];
      n + 1
  }

  /** Parses every part between commas. */
  function ParseList<T>(s: string, parse: string -> Option<T>): (r: Option<seq<T>>)
    decreases |s|
  {
    var n := IndexOf(s, ',');
    var first := parse(s[..n]);
    if first.None? then None
    else if n == |s| then Some([first.value])
    else
      var rest := ParseList(s[n + 1..], parse);
      if rest.None? then None else Some([first.value] + rest.value)
  }

  // ----- Printing with a separator after the comma

  function Join(parts: seq<string>, gap: string): string {
    if parts == [] then "" else if |parts| == 1 then parts[0]
    else parts[0] + "," + gap + Join(parts[1..], gap)
  }

  lemma {:induction false} IndexOfAfter(a: string, c: char, b: string)
    requires c !in a
    ensures IndexOf(a + [c] + b, c) == |a|
  {
    if a == [] {
    } else {
      assert (a + [c] + b)[1..] == a[1..] + [c] + b;
      IndexOfAfter(a[1..], c, b);
    }
  }

  lemma {:induction false} IndexOfAbsent(s: string, c: char)
    requires c !in s
    ensures IndexOf(s, c) == |s|
  {
    if s != [] { IndexOfAbsent(s[1..], c); }
  }

  /** A joined list is parsed part by part; every part but the first is read with the gap in front of it. */
  lemma {:induction false} ParseJoined<T>(prefix: string, parts: seq<string>, gap: string,
                                          parse: string -> Option<T>, values: seq<T>)
    requires parts != [] && |values| == |parts| && ',' !in prefix && ',' !in gap
    requires forall i :: 0 <= i < |parts| ==> ',' !in parts[i]
    requires parse(prefix + parts[0]) == Some(values[0])
    requires forall i :: 1 <= i < |parts| ==> parse(gap + parts[i]) == Some(values[i])
    ensures ParseList(prefix + Join(parts, gap), parse) == Some(values)
    decreases |parts|
  {
    hide IndexOf;
    var head := prefix + parts[0];
    if |parts| == 1 {
      IndexOfAbsent(head, ',');
      assert head[..|head|] == head && values == [values[0]];
    } else {
      var rest := gap + Join(parts[1..], gap);
      var s := head + [','] + rest;
      assert prefix + Join(parts, gap) == s;
      IndexOfAfter(head, ',', rest);
      assert s[..|head|] == head && s[|head| + 1..] == rest;
      ParseJoined(gap, parts[1..], gap, parse, values[1..]);
      assert values == [values[0]] + values[1..];
    }
  }

  /** The parts of a text between its commas. */
  ghost predicate IsSplit(s: string, parts: seq<string>) {
    parts != [] && s == Join(parts, "") && forall i :: 0 <= i < |parts| ==> ',' !in parts[i]
  }

  /** Every text has such parts. */
  lemma {:induction false} SplitExists(s: string) returns (parts: seq<string>)
    ensures IsSplit(s, parts)
    decreases |s|
  {
    var n := IndexOf(s, ',');
    if n == |s| {
      assert s[..n] == s;
      parts := [s];
    } else {
      var more := SplitExists(s[n + 1..]);
      parts := [s[..n]] + more;
      assert parts[1..] == more;
      assert s == s[..n] + [','] + s[n + 1..];
    }
  }

  lemma FirstOfJoined<T>(first: string, more: seq<string>, parse: string -> Option<T>)
    requires ',' !in first
    ensures var rest := ParseList(Join(more, ""), parse);
            ParseList(Join([first] + more, ""), parse) ==
            if parse(first).None? then None
            else if more == [] then Some([parse(first).value])
            else if rest.None? then None else Some([parse(first).value] + rest.value)
  {
    hide IndexOf;
    var rest := Join(more, "");
    assert ([first] + more)[1..] == more;
    if more == [] {
      IndexOfAbsent(first, ',');
      assert first[..|first|] == first;
    } else {
      var s := first + [','] + rest;
      assert Join([first] + more, "") == s;
      IndexOfAfter(first, ',', rest);
      assert s[..|first|] == first && s[|first| + 1..] == rest;
    }
  }

  /** A list fails exactly when some part does; otherwise it has one value for each part, in order. */
  lemma {:induction false} ParseListExactly<T>(s: string, parts: seq<string>, parse: string -> Option<T>)
    requires IsSplit(s, parts)
    ensures ParseList(s, parse).None? <==> exists i :: 0 <= i < |parts| && parse(parts[i]).None?
    ensures ParseList(s, parse).Some? ==>
              && |ParseList(s, parse).value| == |parts|
              && forall i :: 0 <= i < |parts| ==> parse(parts[i]) == Some(ParseList(s, parse).value[i])
    decreases |parts|
  {
    hide ParseList, Join;
    var first, more := parts[0], parts[1..];
    assert parts == [first] + more;
    FirstOfJoined(first, more, parse);
    if more != [] {
      ParseListExactly(Join(more, ""), more, parse);
      if i :| 0 <= i < |more| && parse(more[i]).None? { assert parts[i + 1] == more[i]; }
    }
  }

  // ----- The loop on a copied buffer

  /** The C string at a position: up to the next NUL. */
  function CStringAt(s: string, i: nat): string
    decreases |s| - i
  {
    if i >= |s| || s[i] == '\0' then [] else [s[i]] + CStringAt(s, i + 1)
  }

  lemma {:induction false} CStringIs(s: string, i: nat, t: string)
    requires i + |t| < |s| && s[i + |t|] == '\0'
    requires forall k :: 0 <= k < |t| ==> t[k] == s[i + k] && t[k] != '\0'
    ensures CStringAt(s, i) == t
    decreases |t|
  {
    if t == [] {
    } else {
      var rest := t[1..];
      assert forall k :: 0 <= k < |rest| ==> rest[k] == t[k + 1];
      assert t[0] == s[i + 0];
      CStringIs(s, i + 1, rest);
      assert t == [t[0]] + rest;
    }
  }

  /** The terminated buffer holds `rest` from position `cur` on. */
  ghost predicate Holds(buf: array<char>, cur: nat, rest: string)
    reads buf
  {
    && buf.Length == cur + |rest| + 1 && buf[cur + |rest|] == '\0'
    && forall k :: 0 <= k < |rest| ==> rest[k] == buf[cur + k] && rest[k] != '\0'
  }

  /** `strchr(&buf[cur], ',')`, relative to `cur`. */
  method FindComma(buf: array<char>, cur: nat, ghost rest: string) returns (n: nat)
    requires Holds(buf, cur, rest)
    ensures n == IndexOf(rest, ',')
  {
    n := 0;
    ghost var comma := IndexOf(rest, ',');
    forall k | 0 <= k < comma ensures rest[k] != ',' { assert rest[..comma][k] == rest[k]; }
    while buf[cur + n] != '\0' && buf[cur + n] != ','
      invariant n <= comma
      decreases comma - n
    {
      assert rest[n] == buf[cur + n];
      n := n + 1;
    }
    assert n < |rest| ==> rest[n] == buf[cur + n];
  }

  /** Reads the part in front of the next comma, which is overwritten. */
  method TakePart(buf: array<char>, cur: nat, ghost rest: string) returns (part: string, n: nat, last: bool)
    requires Holds(buf, cur, rest)
    modifies buf
    ensures n == IndexOf(rest, ',') && part == rest[..n] && (last <==> n == |rest|)
    ensures !last ==> Holds(buf, cur + n + 1, rest[n + 1..])
  {
    n := FindComma(buf, cur, rest);
    last := buf[cur + n] == '\0';
    buf[cur + n] := '\0';
    CStringIs(buf[..], cur, rest[..n]);
    part := CStringAt(buf[..], cur);
    if !last {
      ghost var tail := rest[n + 1..];
      assert forall k :: 0 <= k < |tail| ==> tail[k] == rest[n + 1 + k];
    }
  }

  /**
   * Copies the text, overwrites one comma after the other by NUL and parses the part in front of it.
   * `None` is the error return.
   */
  method ParseListInPlace<T>(term: string, parse: string -> Option<T>) returns (r: Option<seq<T>>)
    requires '\0' !in term
    ensures r == ParseList(term, parse)
  {
    hide ParseList, Prepend;
    var buf := new char[|term| + 1](i => if 0 <= i < |term| then term[i] else '\0');
    var list: seq<T> := [];
    var cur := 0;
    ghost var rest := term;
    PrependNone(ParseList(term, parse));
    while true
      invariant fresh(buf) && Holds(buf, cur, rest)
      invariant ParseList(term, parse) == Prepend(list, ParseList(rest, parse))
      decreases |rest|
    {
      PrependStep(list, rest, parse);
      var part, n, last := TakePart(buf, cur, rest);
      var item := parse(part);
      if item.None? {
        return None;
      }
      list := list + [item.value];
      if last {
        return Some(list);
      }
      cur := cur + n + 1;
      rest := rest[n + 1..];
    }
  }

  function Prepend<T>(list: seq<T>, rest: Option<seq<T>>): Option<seq<T>> {
    if rest.None? then None else Some(list + rest.value)
  }

  lemma PrependNone<T>(rest: Option<seq<T>>)
    ensures Prepend([], rest) == rest
  {
    if rest.Some? { assert [] + rest.value == rest.value; }
  }

  lemma PrependStep<T>(list: seq<T>, rest: string, parse: string -> Option<T>)
    ensures var n := IndexOf(rest, ',');
            var first := parse(rest[..n]);
            Prepend(list, ParseList(rest, parse)) ==
            if first.None? then None
            else if n == |rest| then Some(list + [first.value])
            else Prepend(list + [first.value], ParseList(rest[n + 1..], parse))
  {
    var n := IndexOf(rest, ',');
    var first := parse(rest[..n]);
    if first.Some? && n < |rest| {
      PrependMore(list, first.value, ParseList(rest[n + 1..], parse));
    }
  }

  lemma PrependMore<T>(list: seq<T>, x: T, rest: Option<seq<T>>)
    ensures Prepend(list, if rest.None? then None else Some([x] + rest.value)) == Prepend(list + [x], rest)
  {
    if rest.Some? { assert list + ([x] + rest.value) == list + [x] + rest.value; }
  }
}
