/** What the big string of `BigCString` reads like at the computed offsets, and how long it is. */
module PackedStrings {
  import opened Order
  import opened CText
  import opened BigCString

  ghost predicate AllWellFormed(strings: set<string>) {
    forall s :: s in strings ==> WellFormed(s)
  }

  /** What the C compiler makes of the consecutive literals. */
  function BigText(pieces: seq<string>): string {
    if pieces == [] then []
    else BigText(pieces[..|pieces| - 1]) + Decode(pieces[|pieces| - 1])
  }

  function MiscountsIn(pieces: seq<string>): nat {
    if pieces == [] then 0
    else MiscountsIn(pieces[..|pieces| - 1]) + Miscounts(pieces[|pieces| - 1])
  }

  ghost predicate ReadsAt(big: string, offset: int, d: string) {
    0 <= offset && offset + |d| <= |big| && big[offset..offset + |d|] == d
  }

  /** The sum of the computed lengths is two short of the length in C for every miscount. */
  lemma {:induction false} BigTextLength(pieces: seq<string>)
    requires forall k :: 0 <= k < |pieces| ==> WellFormed(pieces[k])
    ensures |BigText(pieces)| == TotalLen(pieces) + 2 * MiscountsIn(pieces)
  {
    hide WellFormed, Decode, Miscounts, CLen;
    if pieces == [] {
    } else {
      var n := |pieces| - 1;
      BigTextLength(pieces[..n]);
      StartOfPrefix(pieces[..n], pieces, n);
      CLenIsDecodedLength(pieces[n]);
    }
  }

  lemma {:induction false} BigTextParts(pieces: seq<string>, i: nat) returns (before: string, after: string)
    requires forall k :: 0 <= k < |pieces| ==> WellFormed(pieces[k])
    requires i < |pieces|
    ensures BigText(pieces) == before + Decode(pieces[i]) + after
    ensures |before| == Start(pieces, i) + 2 * MiscountsIn(pieces[..i])
  {
    hide WellFormed, Decode, Miscounts, CLen;
    var n := |pieces| - 1;
    var init := pieces[..n];
    if i < n {
      var mid;
      before, mid := BigTextParts(init, i);
      after := mid + Decode(pieces[n]);
      StartOfPrefix(init, pieces, i);
      assert init[..i] == pieces[..i];
      assert before + Decode(pieces[i]) + after == before + Decode(pieces[i]) + mid + Decode(pieces[n]);
    } else {
      before, after := BigText(init), [];
      BigTextLength(init);
      StartOfPrefix(init, pieces, n);
    }
  }

  lemma ReadEnd(big: string, before: string, whole: string, after: string, d: string)
    requires big == before + whole + after
    requires |d| <= |whole| && whole[|whole| - |d|..] == d
    ensures ReadsAt(big, |before| + |whole| - |d|, d)
  {
    var offset := |before| + |whole| - |d|;
    assert big[offset..offset + |d|] == whole[|whole| - |d|..];
  }

  lemma ReadOther(big: string, before: string, whole: string, after: string, d: string)
    requires big == before + whole + after
    requires DifferFromEnd(d, whole)
    ensures !ReadsAt(big, |before| + |whole| - |d|, d)
  {
    var offset := |before| + |whole| - |d|;
    var j :| 1 <= j <= |d| && j <= |whole| && FromEnd(d, j) != FromEnd(whole, j);
    if 0 <= offset && offset + |d| <= |big| {
      assert big[offset..offset + |d|][|d| - j] == big[offset + |d| - j] == whole[|whole| - j];
    }
  }

  lemma ReadShared(big: string, before: string, host: string, after: string, s: string, offset: int)
    requires WellFormed(host) && WellFormed(s) && IsSuffix(s, host)
    requires big == before + Decode(host) + after
    requires offset == |before| + |Decode(host)| - |Decode(s)|
    ensures ReadsAt(big, offset, Decode(s)) <==> Boundary(host, |host| - |s|)
  {
    hide WellFormed, Decode, Miscounts, Boundary, ReadsAt, DifferFromEnd, CutsMiscount;
    if Boundary(host, |host| - |s|) {
      DecodeSplits(host, |host| - |s|);
      ReadEnd(big, before, Decode(host), after, Decode(s));
    } else {
      CutEscapeDiffers(host, |host| - |s|);
      ReadOther(big, before, Decode(host), after, Decode(s));
    }
  }

  /** A host is one of the pieces, and every string has one. */
  lemma HostIsPiece(strings: set<string>, pieces: seq<string>, offsets: map<string, int>, s: string, t: string)
    returns (i: nat)
    requires Packed(strings, pieces, offsets) && IsHost(strings, s, t)
    ensures i < |pieces| && pieces[i] == t
  {
    HostIsMaximal(strings, s, t);
    assert t in pieces;
    i :| 0 <= i < |pieces| && pieces[i] == t;
  }

  lemma HasHost(strings: set<string>, pieces: seq<string>, offsets: map<string, int>, s: string) returns (i: nat)
    requires Packed(strings, pieces, offsets) && s in strings
    ensures i < |pieces| && IsHost(strings, s, pieces[i]) && s in offsets
  {
    assert Placed(strings, offsets, s);
    var t :| IsHost(strings, s, t);
    i := HostIsPiece(strings, pieces, offsets, s, t);
  }

  lemma OffsetFromHost(strings: set<string>, pieces: seq<string>, offsets: map<string, int>, s: string, i: nat)
    requires Packed(strings, pieces, offsets)
    requires s in strings && i < |pieces| && IsHost(strings, s, pieces[i])
    ensures s in offsets && offsets[s] == Start(pieces, i) + CLen(pieces[i]) - CLen(s)
  {
    assert Placed(strings, offsets, s);
    var t :| IsHost(strings, s, t) && offsets[s] == offsets[t] + CLen(t) - CLen(s);
    HostUnique(strings, s, t, pieces[i]);
  }

  lemma PiecesAreStrings(strings: set<string>, pieces: seq<string>, offsets: map<string, int>)
    requires Packed(strings, pieces, offsets)
    ensures forall i :: 0 <= i < |pieces| ==> pieces[i] in strings && Maximal(strings, pieces[i])
  {
    forall i | 0 <= i < |pieces| ensures Maximal(strings, pieces[i]) { assert pieces[i] in pieces; }
  }

  /** How far the computed offset of `s`, stored in piece `i`, falls short of where `s` ends its host. */
  function Shift(pieces: seq<string>, i: nat, s: string): int
    requires i < |pieces|
  {
    2 * (MiscountsIn(pieces[..i]) + Miscounts(pieces[i]) - Miscounts(s))
  }

  /**
   * Corrected for the miscounts, the offset of an added string reads exactly that string if and only if the cut
   * that takes it from its host is not inside an escape.
   */
  lemma ReadsBackShifted(strings: set<string>, pieces: seq<string>, offsets: map<string, int>, s: string, i: nat)
    requires Packed(strings, pieces, offsets) && AllWellFormed(strings)
    requires s in strings && i < |pieces| && IsHost(strings, s, pieces[i])
    ensures ReadsAt(BigText(pieces), offsets[s] + Shift(pieces, i, s), Decode(s)) <==>
              Boundary(pieces[i], |pieces[i]| - |s|)
  {
    hide Packed, IsHost, IsSuffix, Decode, Miscounts, WellFormed, CLen, BigText, ReadsAt, Boundary, Start, MiscountsIn;
    OffsetFromHost(strings, pieces, offsets, s, i);
    PiecesAreWellFormed(strings, pieces, offsets);
    HostEndsWith(strings, s, pieces[i]);
    var before, after := BigTextParts(pieces, i);
    CLenIsDecodedLength(pieces[i]);
    CLenIsDecodedLength(s);
    ReadShared(BigText(pieces), before, pieces[i], after, s, offsets[s] + Shift(pieces, i, s));
  }

  lemma PiecesAreWellFormed(strings: set<string>, pieces: seq<string>, offsets: map<string, int>)
    requires Packed(strings, pieces, offsets) && AllWellFormed(strings)
    ensures forall i :: 0 <= i < |pieces| ==> WellFormed(pieces[i])
  {
    hide WellFormed;
    PiecesAreStrings(strings, pieces, offsets);
  }

  lemma HostEndsWith(strings: set<string>, s: string, t: string)
    requires IsHost(strings, s, t)
    ensures IsSuffix(s, t) && |s| <= |t|
  {
  }

  /** So the offset itself is right exactly then, if no text up to there is miscounted. */
  lemma ReadsBackExactly(strings: set<string>, pieces: seq<string>, offsets: map<string, int>, s: string, i: nat)
    requires Packed(strings, pieces, offsets) && AllWellFormed(strings)
    requires s in strings && i < |pieces| && IsHost(strings, s, pieces[i]) && Shift(pieces, i, s) == 0
    ensures ReadsAt(BigText(pieces), offsets[s], Decode(s)) <==> Boundary(pieces[i], |pieces[i]| - |s|)
  {
    ReadsBackShifted(strings, pieces, offsets, s, i);
  }

  /** `s` is cut out of its host between escapes, and no text up to there is miscounted. */
  ghost predicate IsReadable(strings: set<string>, pieces: seq<string>, s: string) {
    exists i :: 0 <= i < |pieces| && IsHost(strings, s, pieces[i])
      && Boundary(pieces[i], |pieces[i]| - |s|) && Shift(pieces, i, s) == 0
  }

  lemma ReadableReadsBack(strings: set<string>, pieces: seq<string>, offsets: map<string, int>, s: string)
    requires Packed(strings, pieces, offsets) && AllWellFormed(strings)
    requires s in strings && IsReadable(strings, pieces, s)
    ensures s in offsets && ReadsAt(BigText(pieces), offsets[s], Decode(s))
  {
    hide BigText, ReadsAt, Decode, WellFormed, Miscounts;
    var i :| 0 <= i < |pieces| && IsHost(strings, s, pieces[i])
      && Boundary(pieces[i], |pieces[i]| - |s|) && Shift(pieces, i, s) == 0;
    OffsetFromHost(strings, pieces, offsets, s, i);
    ReadsBackExactly(strings, pieces, offsets, s, i);
  }

  /** No string is taken from the inside of an escape of its host. */
  ghost predicate Aligned(strings: set<string>) {
    forall s, t :: s in strings && IsHost(strings, s, t) ==> Boundary(t, |t| - |s|)
  }

  /** Where `s` ends its host, counted in characters of C. */
  ghost predicate ReadsFromHost(strings: set<string>, pieces: seq<string>, offsets: map<string, int>, s: string) {
    s in offsets && forall i :: 0 <= i < |pieces| && IsHost(strings, s, pieces[i]) ==>
      ReadsAt(BigText(pieces), offsets[s] + Shift(pieces, i, s), Decode(s))
  }

  /** All offsets, corrected for the miscounts, are right exactly when the set is aligned. */
  lemma AllReadBackExactlyWhenAligned(strings: set<string>, pieces: seq<string>, offsets: map<string, int>)
    requires Packed(strings, pieces, offsets) && AllWellFormed(strings)
    ensures Aligned(strings) <==> forall s :: s in strings ==> ReadsFromHost(strings, pieces, offsets, s)
  {
    hide Packed, IsHost, BigText, ReadsAt, Decode, WellFormed, Boundary, Shift;
    if Aligned(strings) {
      forall s | s in strings ensures ReadsFromHost(strings, pieces, offsets, s) {
        var j := HasHost(strings, pieces, offsets, s);
        forall i | 0 <= i < |pieces| && IsHost(strings, s, pieces[i])
          ensures ReadsAt(BigText(pieces), offsets[s] + Shift(pieces, i, s), Decode(s))
        {
          HostEndsWith(strings, s, pieces[i]);
          ReadsBackShifted(strings, pieces, offsets, s, i);
        }
      }
    }
    if forall s :: s in strings ==> ReadsFromHost(strings, pieces, offsets, s) {
      forall s, t | s in strings && IsHost(strings, s, t)
        ensures IsSuffix(s, t) && Boundary(t, |t| - |s|)
      {
        HostEndsWith(strings, s, t);
        var i := HostIsPiece(strings, pieces, offsets, s, t);
        ReadsBackShifted(strings, pieces, offsets, s, i);
      }
    }
  }

  lemma NoShift(strings: set<string>, pieces: seq<string>, offsets: map<string, int>, i: nat, s: string)
    requires Packed(strings, pieces, offsets) && i < |pieces|
    requires s in strings && forall t :: t in strings ==> Miscounts(t) == 0
    ensures Shift(pieces, i, s) == 0
  {
    PiecesAreStrings(strings, pieces, offsets);
    NoMiscounts(pieces[..i]);
  }

  lemma ReadsWithoutShift(strings: set<string>, pieces: seq<string>, offsets: map<string, int>, s: string)
    requires Packed(strings, pieces, offsets)
    requires s in strings && forall t :: t in strings ==> Miscounts(t) == 0
    ensures ReadsFromHost(strings, pieces, offsets, s) <==>
              s in offsets && ReadsAt(BigText(pieces), offsets[s], Decode(s))
  {
    hide Packed, IsHost, BigText, ReadsAt, Decode, Miscounts, Shift;
    var i := HasHost(strings, pieces, offsets, s);
    forall k | 0 <= k < |pieces| ensures Shift(pieces, k, s) == 0 {
      NoShift(strings, pieces, offsets, k, s);
    }
    assert offsets[s] + Shift(pieces, i, s) == offsets[s];
  }

  /** Without miscounts no correction is needed. */
  lemma OffsetsAreExact(strings: set<string>, pieces: seq<string>, offsets: map<string, int>)
    requires Packed(strings, pieces, offsets) && AllWellFormed(strings)
    requires forall t :: t in strings ==> Miscounts(t) == 0
    ensures Aligned(strings) <==>
              forall s :: s in strings ==> s in offsets && ReadsAt(BigText(pieces), offsets[s], Decode(s))
  {
    hide *;
    AllReadBackExactlyWhenAligned(strings, pieces, offsets);
    forall s | s in strings
      ensures ReadsFromHost(strings, pieces, offsets, s) <==>
                s in offsets && ReadsAt(BigText(pieces), offsets[s], Decode(s))
    {
      ReadsWithoutShift(strings, pieces, offsets, s);
    }
  }

  lemma {:induction false} NoMiscounts(pieces: seq<string>)
    requires forall k :: 0 <= k < |pieces| ==> Miscounts(pieces[k]) == 0
    ensures MiscountsIn(pieces) == 0
  {
    if pieces == [] {
    } else {
      NoMiscounts(pieces[..|pieces| - 1]);
    }
  }

  // ----- Two stores with a wrong offset

  lemma FirstToken(s: string, rest: string)
    requires TokenLen(s) > 0 && s[TokenLen(s)..] == rest && WellFormed(rest)
    ensures WellFormed(s) && Decode(s) == [TokenChar(s)] + Decode(rest)
    ensures (s[0] == '\\' && s[1] == '\\' && ZerosAt(s, 2)) || Miscounts(s) == Miscounts(rest)
  {
  }

  lemma NoTokens()
    ensures WellFormed([]) && Decode([]) == [] && Miscounts([]) == 0
  {
  }

  /** A text behind one plain character or escape. */
  lemma Prepended(token: string, c: char, rest: string)
    requires TokenLen(token) == |token| > 0 && TokenChar(token) == c
    requires WellFormed(rest) && (token == "\\\\" ==> !ZerosAt(rest, 0))
    ensures var s := token + rest;
            WellFormed(s) && Decode(s) == [c] + Decode(rest) && Miscounts(s) == Miscounts(rest)
  {
    hide WellFormed, Decode, Miscounts;
    var s := token + rest;
    assert s[|token|..] == rest;
    TokenOfPrefix(token, s);
    FirstToken(s, rest);
  }

  lemma Terminated()
    ensures WellFormed("\\000") && Decode("\\000") == ['\0'] && Miscounts("\\000") == 0
  {
    hide WellFormed, Decode, Miscounts;
    NoTokens();
    Prepended("\\000", '\0', []);
    assert "\\000" + [] == "\\000";
    assert ['\0'] + [] == ['\0'];
  }

  lemma ShortName()
    ensures WellFormed("nb\\000") && Miscounts("nb\\000") == 0
  {
    hide WellFormed, Decode, Miscounts;
    Terminated();
    var nul, b, n := "\\000", ['b'], ['n'];
    Prepended(b, 'b', nul);
    Prepended(n, 'n', b + nul);
    assert n + (b + nul) == "nb\\000";
  }

  lemma LongName()
    ensures WellFormed("a\\nb\\000") && Miscounts("a\\nb\\000") == 0
  {
    hide WellFormed, Decode, Miscounts;
    Terminated();
    var nul, b, n, a := "\\000", ['b'], ['\\', 'n'], ['a'];
    Prepended(b, 'b', nul);
    Prepended(n, '\n', b + nul);
    Prepended(a, 'a', n + (b + nul));
    assert a + (n + (b + nul)) == "a\\nb\\000";
  }

  lemma OnlyHost(s: string, t: string)
    requires IsSuffix(s, t)
    ensures IsHost({s, t}, s, t)
  {
    SuffixIsReversedPrefix(s, t);
    PrefixIsLeq(Reverse(s), Reverse(t));
  }

  lemma UnalignedPair(s: string, t: string, pieces: seq<string>, offsets: map<string, int>)
    requires Packed({s, t}, pieces, offsets)
    requires WellFormed(s) && WellFormed(t) && Miscounts(s) == Miscounts(t) == 0
    requires IsSuffix(s, t) && !Boundary(t, |t| - |s|)
    ensures s in offsets && !ReadsAt(BigText(pieces), offsets[s], Decode(s))
  {
    hide Packed, IsHost, WellFormed, Miscounts, Boundary, BigText, Decode, ReadsAt, Shift;
    OnlyHost(s, t);
    var i := HasHost({s, t}, pieces, offsets, s);
    HostUnique({s, t}, s, t, pieces[i]);
    NoShift({s, t}, pieces, offsets, i, s);
    ReadsBackExactly({s, t}, pieces, offsets, s, i);
  }

  /**
   * Two terminated texts that are not aligned: `nb` is stored at the end of a text with a line feed and `b`,
   * and its offset does not read `nb`.
   */
  lemma UnalignedStrings(pieces: seq<string>, offsets: map<string, int>)
    requires Packed({"nb\\000", "a\\nb\\000"}, pieces, offsets)
    ensures "nb\\000" in offsets && !ReadsAt(BigText(pieces), offsets["nb\\000"], Decode("nb\\000"))
  {
    hide Packed, WellFormed, Miscounts, BigText, Decode, ReadsAt;
    var s, t := "nb\\000", "a\\nb\\000";
    ShortName();
    LongName();
    assert t[2..] == s;
    assert !Boundary(t, 2) by { assert TokenLen(t) == 1 && TokenLen(t[1..]) == 2; }
    UnalignedPair(s, t, pieces, offsets);
  }

  /** An escaped backslash and three zeros, terminated: five characters in C, of which two are not counted. */
  const MISCOUNTED: string := ['\\', '\\', '0', '0', '0', '\\', '0', '0', '0']

  lemma MiscountedText()
    ensures WellFormed(MISCOUNTED) && Decode(MISCOUNTED) == ['\\', '0', '0', '0', '\0'] && Miscounts(MISCOUNTED) == 1
  {
    hide WellFormed, Decode, Miscounts;
    Terminated();
    var nul, z := "\\000", ['0'];
    Prepended(z, '0', nul);
    Prepended(z, '0', z + nul);
    Prepended(z, '0', z + (z + nul));
    var zeros := z + (z + (z + nul));
    assert MISCOUNTED[2..] == zeros && TokenLen(MISCOUNTED) == 2;
    FirstToken(MISCOUNTED, zeros);
    MiscountsOfToken(MISCOUNTED, MISCOUNTED);
    assert ['\\'] + (['0'] + (['0'] + (['0'] + ['\0']))) == ['\\', '0', '0', '0', '\0'];
  }

  lemma PlainName(head: string, c: char, rest: string)
    requires head == [c] && c != '\\' && c != '"' && c != '\n' && WellFormed(rest)
    ensures WellFormed(head + rest) && Decode(head + rest) == [c] + Decode(rest)
    ensures Miscounts(head + rest) == Miscounts(rest)
  {
    Prepended(head, c, rest);
  }

  /**
   * A store without cuts inside escapes, but with a miscounted text in front: the offset of `x`, which is stored
   * at the end of `ax`, does not read it.
   */
  lemma MiscountedStore(pieces: seq<string>, offsets: map<string, int>)
    requires Packed({MISCOUNTED, "ax\\000", "x\\000"}, pieces, offsets)
    requires pieces == [MISCOUNTED, "ax\\000"]
    ensures Boundary("ax\\000", 1)
    ensures "x\\000" in offsets && !ReadsAt(BigText(pieces), offsets["x\\000"], Decode("x\\000"))
  {
    hide Packed, IsHost, WellFormed, Decode, Miscounts, CLen;
    var nul, h, s := "\\000", "ax\\000", "x\\000";
    Terminated();
    PlainName(['x'], 'x', nul);
    assert ['x'] + nul == s && ['a'] + s == h;
    PlainName(['a'], 'a', s);
    MiscountedText();
    CLenIsDecodedLength(MISCOUNTED);
    CLenIsDecodedLength(h);
    CLenIsDecodedLength(s);
    var i := HasHost({MISCOUNTED, h, s}, pieces, offsets, s);
    HostEndsWith({MISCOUNTED, h, s}, s, pieces[i]);
    assert i == 1 by { assert MISCOUNTED[4..][0] != s[0]; }
    OffsetFromHost({MISCOUNTED, h, s}, pieces, offsets, s, i);
    assert Start(pieces, 1) == 3 && offsets[s] == 4;
    assert pieces[..1] == [MISCOUNTED] && [MISCOUNTED][..0] == [];
    assert BigText([MISCOUNTED]) == [] + Decode(MISCOUNTED);
    assert BigText(pieces) == Decode(MISCOUNTED) + Decode(h);
    assert BigText(pieces)[4] == '\0' != Decode(s)[0];
    assert TokenLen(h) == 1;
  }

  // ----- Length

  /** `s` can be read from the end of some literal of `q`. */
  ghost predicate SharedByOne(s: string, q: seq<string>) {
    exists j :: 0 <= j < |q| && SharedBy(s, q[j])
  }

  ghost predicate SharedBy(s: string, t: string) {
    WellFormed(t) && IsSuffix(s, t) && Boundary(t, |t| - |s|)
  }

  lemma SharedIsShorter(s: string, t: string)
    requires SharedBy(s, t)
    ensures IsSuffix(s, t) && |Decode(s)| <= |Decode(t)|
  {
    DecodeSplits(t, |t| - |s|);
  }

  lemma {:induction false} BigTextWithout(q: seq<string>, j: nat)
    requires j < |q|
    ensures |BigText(q)| == |BigText(q[..j] + q[j + 1..])| + |Decode(q[j])|
  {
    hide Decode;
    var n := |q| - 1;
    if j < n {
      BigTextWithout(q[..n], j);
      var shorter := q[..j] + q[j + 1..];
      assert q[..n][..j] + q[..n][j + 1..] == shorter[..n - 1];
    } else {
      assert q[..j] + q[j + 1..] == q[..n];
    }
  }

  lemma {:induction false} TotalLenWithout(q: seq<string>, j: nat)
    requires j < |q|
    ensures TotalLen(q) == TotalLen(q[..j] + q[j + 1..]) + CLen(q[j])
  {
    var n := |q| - 1;
    StartOfPrefix(q[..n], q, n);
    if j < n {
      TotalLenWithout(q[..n], j);
      var shorter := q[..j] + q[j + 1..];
      assert q[..n][..j] + q[..n][j + 1..] == shorter[..n - 1];
      StartOfPrefix(shorter[..n - 1], shorter, n - 1);
    } else {
      assert q[..j] + q[j + 1..] == q[..n];
    }
  }

  /** Different literals hold different strings, and each is long enough: the sum is at most as long. */
  lemma {:induction false} HoldersAreLonger(pieces: seq<string>, q: seq<string>, holder: seq<nat>)
    requires |holder| == |pieces| && Distinct(holder)
    requires forall i :: 0 <= i < |pieces| ==> holder[i] < |q| && |Decode(pieces[i])| <= |Decode(q[holder[i]])|
    ensures |BigText(pieces)| <= |BigText(q)|
    decreases |q|
  {
    hide Decode;
    if q == [] {
    } else {
      var n := |q| - 1;
      if i :| 0 <= i < |holder| && holder[i] == n {
        BigTextWithout(pieces, i);
        HoldersAreLonger(pieces[..i] + pieces[i + 1..], q[..n], holder[..i] + holder[i + 1..]);
      } else {
        HoldersAreLonger(pieces, q[..n], holder);
      }
    }
  }

  ghost function Holder(s: string, q: seq<string>): (j: nat)
    requires SharedByOne(s, q)
    ensures j < |q| && SharedBy(s, q[j])
  {
    var j :| 0 <= j < |q| && SharedBy(s, q[j]);
    j
  }

  lemma SuffixesOfOne(a: string, b: string, t: string)
    requires IsSuffix(a, t) && IsSuffix(b, t)
    ensures IsSuffix(a, b) || IsSuffix(b, a)
  {
    if |a| <= |b| {
      assert t[|t| - |a|..] == t[|t| - |b|..][|b| - |a|..];
    } else {
      assert t[|t| - |b|..] == t[|t| - |a|..][|a| - |b|..];
    }
  }

  lemma MaximalNeverShare(strings: set<string>, a: string, b: string, t: string)
    requires Maximal(strings, a) && Maximal(strings, b) && a != b
    ensures !(IsSuffix(a, t) && IsSuffix(b, t))
  {
    if IsSuffix(a, t) && IsSuffix(b, t) { SuffixesOfOne(a, b, t); }
  }

  /**
   * The big string is as short as any sequence of literals from whose ends all added strings can be read,
   * whatever the order of additions and the metric flags were.
   */
  lemma PackingIsShortest(strings: set<string>, pieces: seq<string>, offsets: map<string, int>, q: seq<string>)
    requires Packed(strings, pieces, offsets)
    requires forall s :: s in strings ==> SharedByOne(s, q)
    ensures |BigText(pieces)| <= |BigText(q)|
  {
    hide Decode, Boundary, WellFormed, BigText;
    PiecesAreStrings(strings, pieces, offsets);
    var holder := seq(|pieces|, i requires 0 <= i < |pieces| => Holder(pieces[i], q));
    forall i | 0 <= i < |pieces| ensures |Decode(pieces[i])| <= |Decode(q[holder[i]])| {
      SharedIsShorter(pieces[i], q[holder[i]]);
    }
    forall i, j | 0 <= i < j < |pieces| ensures holder[i] != holder[j] {
      assert SharedBy(pieces[i], q[holder[i]]) && SharedBy(pieces[j], q[holder[j]]);
      MaximalNeverShare(strings, pieces[i], pieces[j], q[holder[i]]);
    }
    HoldersAreLonger(pieces, q, holder);
  }

  /** The same for the computed lengths, if no text is miscounted. */
  lemma ComputedLengthIsShortest(strings: set<string>, pieces: seq<string>, offsets: map<string, int>, q: seq<string>)
    requires Packed(strings, pieces, offsets) && AllWellFormed(strings)
    requires forall s :: s in strings ==> Miscounts(s) == 0 && SharedByOne(s, q)
    requires forall j :: 0 <= j < |q| ==> WellFormed(q[j]) && Miscounts(q[j]) == 0
    ensures TotalLen(pieces) <= TotalLen(q)
  {
    hide Packed, WellFormed, Miscounts, SharedByOne, BigText;
    PackingIsShortest(strings, pieces, offsets, q);
    PiecesAreWellFormed(strings, pieces, offsets);
    PiecesAreStrings(strings, pieces, offsets);
    BigTextLength(pieces);
    BigTextLength(q);
    NoMiscounts(pieces);
    NoMiscounts(q);
  }

  /** The same pieces in another order have the same total, whatever `c_len` makes of them. */
  lemma {:induction false} SameLength(p: seq<string>, q: seq<string>)
    requires Distinct(p) && Distinct(q) && forall s :: s in p <==> s in q
    ensures TotalLen(p) == TotalLen(q)
    decreases |p|
  {
    if p == [] {
      assert forall i :: 0 <= i < |q| ==> q[i] in p;
    } else {
      var n := |p| - 1;
      assert p[n] in p;
      var j :| 0 <= j < |q| && q[j] == p[n];
      var rest := q[..j] + q[j + 1..];
      TotalLenWithout(p, n);
      TotalLenWithout(q, j);
      assert p[..n] + p[n + 1..] == p[..n];
      forall s ensures s in p[..n] <==> s in rest {
        WithoutOne(p, n, s);
        WithoutOne(q, j, s);
      }
      SameLength(p[..n], rest);
    }
  }

  lemma WithoutOne(q: seq<string>, j: nat, s: string)
    requires Distinct(q) && j < |q|
    ensures s in q[..j] + q[j + 1..] <==> s in q && s != q[j]
  {
    var rest := q[..j] + q[j + 1..];
    if s in q && s != q[j] {
      var i :| 0 <= i < |q| && q[i] == s;
      assert rest[if i < j then i else i - 1] == s;
    }
  }

  /** The length of the big string does not depend on the order of additions or on the metric flags. */
  lemma LengthIgnoresOrder(strings: set<string>, p: seq<string>, o: map<string, int>,
                           q: seq<string>, r: map<string, int>)
    requires Packed(strings, p, o) && Packed(strings, q, r)
    ensures TotalLen(p) == TotalLen(q)
  {
    SameLength(p, q);
  }
}
