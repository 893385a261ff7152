/** The text inside a C string literal, and `c_len` (jevents.py). */
module CText {

  predicate IsEscapeLetter(c: char) {
    c == '\\' || c == '"' || c == 'n' || c == 'r'
  }

  predicate ZerosAt(s: string, i: nat) {
    i + 3 <= |s| && s[i] == '0' && s[i + 1] == '0' && s[i + 2] == '0'
  }

  /**
   * The number of characters of the escape or plain character a text starts with; 0 if it starts with neither.
   * The escapes are `\\`, `\"`, `\n`, `\r` and `\000`. Characters stand for bytes of UTF-8.
   */
  function TokenLen(s: string): (n: nat)
    ensures n <= |s|
  {
    if s == [] || s[0] == '"' || s[0] == '\n' then 0
    else if s[0] != '\\' then 1
    else if |s| >= 2 && IsEscapeLetter(s[1]) then 2
    else if ZerosAt(s, 1) then 4
    else 0
  }

  function TokenChar(s: string): char
    requires TokenLen(s) > 0
  {
    if s[0] != '\\' then s[0]
    else if s[1] == 'n' then '\n'
    else if s[1] == 'r' then '\r'
    else if s[1] == '0' then '\0'
    else s[1]
  }

  lemma OneToken(token: string, rest: string)
    requires TokenLen(token) == |token| > 0
    ensures Decode(token + rest) == [TokenChar(token)] + Decode(rest)
  {
    assert (token + rest)[|token|..] == rest;
    assert token <= token + rest;
  }

  /** What the escapes and the other characters stand for. */
  lemma TokensMean(c: char, rest: string)
    ensures Decode("\\\\" + rest) == "\\" + Decode(rest)
    ensures Decode("\\\"" + rest) == "\"" + Decode(rest)
    ensures Decode("\\n" + rest) == "\n" + Decode(rest)
    ensures Decode("\\r" + rest) == "\r" + Decode(rest)
    ensures Decode("\\000" + rest) == ['\0'] + Decode(rest)
    ensures c != '\\' && c != '"' && c != '\n' ==> Decode([c] + rest) == [c] + Decode(rest)
  {
    hide Decode;
    OneToken("\\\\", rest);
    OneToken("\\\"", rest);
    OneToken("\\n", rest);
    OneToken("\\r", rest);
    OneToken("\\000", rest);
    if c != '\\' && c != '"' && c != '\n' { OneToken([c], rest); }
  }

  predicate WellFormed(s: string) {
    s == [] || (TokenLen(s) > 0 && WellFormed(s[TokenLen(s)..]))
  }

  /** What the C compiler reads, up to the first character that is not part of a well-formed text. */
  function Decode(s: string): string {
    if TokenLen(s) == 0 then [] else [TokenChar(s)] + Decode(s[TokenLen(s)..])
  }

  /** `bytes.count`: occurrences from the left that do not overlap. */
  function Count(s: string, word: string): nat
    requires word != []
  {
    if |s| < |word| then 0
    else if word <= s then 1 + Count(s[|word|..], word)
    else Count(s[1..], word)
  }

  function CLen(s: string): int {
    |s| - Count(s, "\\") + Count(s, "\\\\") - 2 * Count(s, "\\000")
  }

  /** The escaped backslashes that are directly followed by `000`. */
  function Miscounts(s: string): nat {
    if TokenLen(s) == 0 then 0
    else (if s[0] == '\\' && s[1] == '\\' && ZerosAt(s, 2) then 1 else 0) + Miscounts(s[TokenLen(s)..])
  }

  lemma CountNothing(word: string)
    requires word != []
    ensures Count([], word) == 0
  {
  }

  lemma CountHere(s: string, word: string)
    requires word != [] && word <= s
    ensures Count(s, word) == 1 + Count(s[|word|..], word)
  {
  }

  lemma CountLater(s: string, word: string)
    requires word != [] && s != [] && !(word <= s)
    ensures Count(s, word) == Count(s[1..], word)
  {
    if |s| < |word| { assert |s[1..]| < |word|; }
  }

  lemma SkipOne(s: string, word: string)
    requires word != [] && s != [] && s[0] != word[0]
    ensures Count(s, word) == Count(s[1..], word)
  {
    CountLater(s, word);
  }

  lemma CountDoubled(s: string)
    requires |s| >= 2 && s[0] == '\\' && s[1] == '\\'
    ensures Count(s, "\\") == Count(s[2..], "\\") + 2
    ensures Count(s, "\\\\") == Count(s[2..], "\\\\") + 1
  {
    hide Count;
    var tail := s[1..];
    assert tail[1..] == s[2..];
    CountHere(s, "\\");
    CountHere(tail, "\\");
    CountHere(s, "\\\\");
  }

  lemma CountNulAfterDoubled(s: string)
    requires |s| >= 2 && s[0] == '\\' && s[1] == '\\'
    ensures Count(s, "\\000") == Count(s[2..], "\\000") + (if ZerosAt(s, 2) then 1 else 0)
  {
    hide Count;
    var rest, tail, word := s[2..], s[1..], "\\000";
    assert tail[1..] == rest;
    CountLater(s, word);
    if ZerosAt(s, 2) {
      assert tail[4..] == rest[3..];
      CountHere(tail, word);
      SkipZeros(rest, word);
    } else {
      CountLater(tail, word);
    }
  }

  lemma CountShort(s: string)
    requires |s| >= 2 && s[0] == '\\' && s[1] != '\\' && IsEscapeLetter(s[1])
    ensures Count(s, "\\") == Count(s[2..], "\\") + 1
    ensures Count(s, "\\\\") == Count(s[2..], "\\\\")
    ensures Count(s, "\\000") == Count(s[2..], "\\000")
  {
    hide Count;
    var tail := s[1..];
    assert tail[1..] == s[2..];
    CountHere(s, "\\"); SkipOne(tail, "\\");
    CountLater(s, "\\\\"); SkipOne(tail, "\\\\");
    CountLater(s, "\\000"); SkipOne(tail, "\\000");
  }

  lemma CountNul(s: string)
    requires |s| >= 4 && s[0] == '\\' && ZerosAt(s, 1)
    ensures Count(s, "\\") == Count(s[4..], "\\") + 1
    ensures Count(s, "\\\\") == Count(s[4..], "\\\\")
    ensures Count(s, "\\000") == Count(s[4..], "\\000") + 1
  {
    hide Count;
    var tail := s[1..];
    assert tail[3..] == s[4..];
    CountHere(s, "\\"); SkipZeros(tail, "\\");
    CountLater(s, "\\\\"); SkipZeros(tail, "\\\\");
    CountHere(s, "\\000");
  }

  lemma SkipZeros(s: string, word: string)
    requires ZerosAt(s, 0) && word != [] && word[0] != '0'
    ensures Count(s, word) == Count(s[3..], word)
  {
    hide Count;
    SkipOne(s, word);
    SkipOne(s[1..], word);
    SkipOne(s[1..][1..], word);
    assert s[1..][1..][1..] == s[3..];
  }

  /** `c_len` is two short of the decoded length for every escaped backslash that is followed by `000`. */
  lemma {:induction false} CLenIsDecodedLength(s: string)
    requires WellFormed(s)
    ensures CLen(s) == |Decode(s)| - 2 * Miscounts(s)
  {
    hide Count;
    if s == [] {
      CountNothing("\\"); CountNothing("\\\\"); CountNothing("\\000");
    } else {
      if s[0] != '\\' {
        SkipOne(s, "\\"); SkipOne(s, "\\\\"); SkipOne(s, "\\000");
      } else if s[1] == '\\' {
        CountDoubled(s);
        CountNulAfterDoubled(s);
      } else if TokenLen(s) == 2 {
        CountShort(s);
      } else {
        CountNul(s);
      }
      CLenIsDecodedLength(s[TokenLen(s)..]);
    }
  }

  /** `k` does not cut an escape of `t` in two. */
  predicate Boundary(t: string, k: nat)
    requires k <= |t|
  {
    k == 0 || (0 < TokenLen(t) <= k && Boundary(t[TokenLen(t)..], k - TokenLen(t)))
  }

  lemma TokenOfPrefix(a: string, t: string)
    requires a <= t && TokenLen(a) > 0
    ensures TokenLen(t) == TokenLen(a) && TokenChar(t) == TokenChar(a)
  {
  }

  lemma SameToken(a: string, ab: string, rest: string)
    requires TokenLen(a) > 0 && TokenLen(ab) == TokenLen(a) && TokenChar(ab) == TokenChar(a)
    requires ab[TokenLen(a)..] == rest && WellFormed(rest)
    ensures WellFormed(ab) && Decode(ab) == [TokenChar(a)] + Decode(rest)
  {
  }

  lemma Associative(x: string, y: string, z: string)
    ensures x + (y + z) == (x + y) + z
  {
  }

  lemma {:induction false} BoundaryJoins(a: string, b: string)
    requires WellFormed(a)
    ensures Boundary(a + b, |a|)
  {
    if a == [] {
    } else {
      BoundaryJoins(a[TokenLen(a)..], b);
      TokenOfPrefix(a, a + b);
      assert (a + b)[TokenLen(a)..] == a[TokenLen(a)..] + b;
    }
  }

  lemma {:induction false} DecodeJoins(a: string, b: string)
    requires WellFormed(a) && WellFormed(b)
    ensures WellFormed(a + b)
    ensures Decode(a + b) == Decode(a) + Decode(b)
  {
    if a == [] {
      assert a + b == b;
    } else {
      var rest := a[TokenLen(a)..];
      DecodeJoins(rest, b);
      TokenOfPrefix(a, a + b);
      assert (a + b)[TokenLen(a)..] == rest + b;
      SameToken(a, a + b, rest + b);
      Associative([TokenChar(a)], Decode(rest), Decode(b));
    }
  }

  /** Neither an escaped backslash nor a textual NUL stands in the text; other escapes may. */
  predicate OnlyLoneBackslashes(s: string) {
    forall i :: 0 <= i < |s| && s[i] == '\\' ==> (i + 1 == |s| || s[i + 1] != '\\') && !ZerosAt(s, i + 1)
  }

  function OtherThanBackslash(s: string): nat {
    if s == [] then 0 else (if s[0] == '\\' then 0 else 1) + OtherThanBackslash(s[1..])
  }

  lemma TokensInFront(s: string)
    ensures "\\\\" <= s <==> |s| >= 2 && s[0] == '\\' && s[1] == '\\'
    ensures "\\000" <= s <==> |s| >= 4 && s[0] == '\\' && ZerosAt(s, 0 + 1)
  {
  }

  /** For any text, well-formed or not: a lone backslash does not count, whatever escape it starts. */
  lemma {:induction false} CLenOfLoneBackslashes(s: string)
    requires OnlyLoneBackslashes(s)
    ensures CLen(s) == OtherThanBackslash(s)
  {
    hide Count;
    if s == [] {
      CountNothing("\\"); CountNothing("\\\\"); CountNothing("\\000");
    } else {
      var rest := s[1..];
      assert forall i :: 0 <= i < |rest| ==> rest[i] == s[i + 1] && ZerosAt(rest, i + 1) == ZerosAt(s, i + 2);
      CLenOfLoneBackslashes(rest);
      TokensInFront(s);
      CountLater(s, "\\\\");
      CountLater(s, "\\000");
      if s[0] == '\\' { CountHere(s, "\\"); } else { CountLater(s, "\\"); }
    }
  }

  predicate AllZeros(s: string) {
    forall i :: 0 <= i < |s| ==> s[i] == '0'
  }

  /** Less than three zeros, and `b` goes on with those that are missing to three. */
  predicate ZerosCut(zeros: string, b: string) {
    |zeros| < 3 && AllZeros(zeros) && 3 - |zeros| <= |b| && AllZeros(b[..3 - |zeros|])
  }

  /** `d` ends in a backslash and `z` zeros of three. */
  predicate CutAfter(d: string, b: string, z: nat) {
    |d| > z && d[|d| - 1 - z] == '\\' && ZerosCut(d[|d| - z..], b)
  }

  predicate CutsZeros(d: string, b: string) {
    CutAfter(d, b, 0) || CutAfter(d, b, 1) || CutAfter(d, b, 2)
  }

  /** Between the texts runs a cut through the `000` that follows an escaped backslash, or directly in front of it. */
  predicate CutsMiscount(a: string, b: string) {
    CutsZeros(Decode(a), b)
  }

  lemma {:induction false} ZerosAreDecoded(s: string)
    requires WellFormed(s)
    ensures AllZeros(Decode(s)) || AllZeros(s) ==> Decode(s) == s
  {
    if s == [] {
    } else {
      var rest := s[TokenLen(s)..];
      ZerosAreDecoded(rest);
      if AllZeros(Decode(s)) {
        assert Decode(s)[0] == '0';
        assert forall i :: 0 <= i < |Decode(rest)| ==> Decode(rest)[i] == Decode(s)[i + 1];
      }
    }
  }

  lemma CutAfterMore(c: char, d: string, b: string, z: nat)
    ensures CutAfter([c] + d, b, z) <==> CutAfter(d, b, z) || (|d| == z && c == '\\' && ZerosCut(d, b))
  {
    var more := [c] + d;
    if |d| >= z {
      assert more[|more| - z..] == d[|d| - z..];
    }
  }

  /** A character in front of `d` adds a cut only if it is the backslash. */
  lemma CutsZerosMore(c: char, d: string, b: string)
    ensures CutsZeros([c] + d, b) <==> CutsZeros(d, b) || (c == '\\' && ZerosCut(d, b))
    ensures ZerosCut(d, b) ==> !CutsZeros(d, b)
  {
    CutAfterMore(c, d, b, 0);
    CutAfterMore(c, d, b, 1);
    CutAfterMore(c, d, b, 2);
  }

  lemma ZerosOfJoin(rest: string, b: string)
    ensures ZerosAt(rest + b, 0) <==> ZerosAt(rest, 0) || ZerosCut(rest, b)
    ensures ZerosAt(rest, 0) ==> !ZerosCut(rest, b)
  {
    var t := rest + b;
    if |rest| < 3 && |t| >= 3 {
      var more := b[..3 - |rest|];
      assert t[..3] == rest + more;
      assert AllZeros(t[..3]) <==> AllZeros(rest) && AllZeros(more) by {
        assert forall i :: 0 <= i < |rest| ==> t[..3][i] == rest[i];
        assert forall i :: 0 <= i < |more| ==> t[..3][|rest| + i] == more[i];
      }
      assert ZerosAt(t, 0) <==> AllZeros(t[..3]);
    }
  }

  lemma MiscountsOfToken(a: string, ab: string)
    requires TokenLen(a) > 0 && a <= ab
    ensures var zeros := ab[TokenLen(a)..];
            Miscounts(ab) == Miscounts(zeros) + (if TokenChar(a) == '\\' && ZerosAt(zeros, 0) then 1 else 0)
  {
    TokenOfPrefix(a, ab);
  }

  /** Joining two texts adds one miscount if the cut between them was such a cut, and none otherwise. */
  lemma {:induction false} MiscountsJoin(a: string, b: string)
    requires WellFormed(a) && WellFormed(b)
    ensures Miscounts(a + b) == Miscounts(a) + Miscounts(b) + (if CutsMiscount(a, b) then 1 else 0)
  {
    hide Miscounts, ZerosAt, ZerosCut, CutsZeros, AllZeros;
    if a == [] {
      assert a + b == b;
      NoCutsOrMiscounts(b);
    } else {
      var rest := a[TokenLen(a)..];
      assert (a + b)[TokenLen(a)..] == rest + b;
      MiscountsJoin(rest, b);
      MiscountsOfToken(a, a);
      MiscountsOfToken(a, a + b);
      CutsZerosMore(TokenChar(a), Decode(rest), b);
      ZerosOfJoin(rest, b);
      ZerosCutOfDecoded(rest, b);
    }
  }

  lemma NoCutsOrMiscounts(b: string)
    ensures Miscounts([]) == 0 && !CutsZeros([], b)
  {
  }

  lemma ZerosCutOfDecoded(s: string, b: string)
    requires WellFormed(s)
    ensures ZerosCut(Decode(s), b) == ZerosCut(s, b)
  {
    ZerosAreDecoded(s);
  }

  lemma {:induction false} BoundaryParts(t: string, k: nat)
    requires WellFormed(t) && k <= |t| && Boundary(t, k)
    ensures WellFormed(t[..k]) && WellFormed(t[k..])
  {
    if k == 0 {
      assert t[k..] == t;
    } else {
      var n := TokenLen(t);
      var head, rest := t[..k], t[n..];
      BoundaryParts(rest, k - n);
      assert rest[k - n..] == t[k..] && rest[..k - n] == head[n..];
    }
  }

  /** A cut at a boundary splits the decoded text. */
  lemma DecodeSplits(t: string, k: nat)
    requires WellFormed(t) && k <= |t| && Boundary(t, k)
    ensures WellFormed(t[..k]) && WellFormed(t[k..])
    ensures Decode(t) == Decode(t[..k]) + Decode(t[k..])
    ensures Miscounts(t) == Miscounts(t[..k]) + Miscounts(t[k..]) + (if CutsMiscount(t[..k], t[k..]) then 1 else 0)
  {
    hide Decode, WellFormed, Miscounts, Boundary, CutsMiscount;
    BoundaryParts(t, k);
    var a, b := t[..k], t[k..];
    assert t == a + b;
    DecodeJoins(a, b);
    MiscountsJoin(a, b);
  }

  /**
   * `c_len` is additive over a cut at a boundary exactly when the cut is neither inside the three zeros that
   * follow an escaped backslash nor directly in front of them.
   */
  lemma CLenSplits(t: string, k: nat)
    requires WellFormed(t) && k <= |t| && Boundary(t, k)
    ensures CLen(t) == CLen(t[..k]) + CLen(t[k..]) <==> !CutsMiscount(t[..k], t[k..])
  {
    DecodeSplits(t, k);
    CLenIsDecodedLength(t);
    CLenIsDecodedLength(t[..k]);
    CLenIsDecodedLength(t[k..]);
  }

  /** A text that `c_len` does not measure correctly: an escaped backslash and three zeros, four characters in C. */
  lemma CLenMiscounts()
    ensures var s := ['\\', '\\', '0', '0', '0'];
            WellFormed(s) && Decode(s) == ['\\', '0', '0', '0'] && CLen(s) == 2
  {
    var s := ['\\', '\\', '0', '0', '0'];
    var zeros := ['0', '0', '0'];
    assert s[2..] == zeros && zeros[1..] == ['0', '0'] && zeros[1..][1..] == ['0'] && ['0'][1..] == [];
    assert WellFormed(zeros) && Decode(zeros) == zeros && Miscounts(zeros) == 0 by {
      assert WellFormed(['0']) && Decode(['0']) == ['0'] && Miscounts(['0']) == 0;
      assert WellFormed(['0', '0']) && Decode(['0', '0']) == ['0', '0'] && Miscounts(['0', '0']) == 0;
    }
    CLenIsDecodedLength(s);
  }

  function FromEnd(s: string, j: nat): char
    requires 1 <= j <= |s|
  {
    s[|s| - j]
  }

  /** Counted from the end, the two strings differ at some position that both have. */
  ghost predicate DifferFromEnd(a: string, b: string) {
    exists j :: 1 <= j <= |a| && j <= |b| && FromEnd(a, j) != FromEnd(b, j)
  }

  lemma DifferMore(a: string, b: string, c: char)
    requires DifferFromEnd(a, b)
    ensures DifferFromEnd(a, [c] + b) && DifferFromEnd([c] + a, b)
  {
    var j :| 1 <= j <= |a| && j <= |b| && FromEnd(a, j) != FromEnd(b, j);
    assert FromEnd([c] + b, j) == FromEnd(b, j);
    assert FromEnd([c] + a, j) == FromEnd(a, j);
  }

  lemma DifferAt(a: string, b: string, x: char, y: char, rest: string)
    requires x != y && |a| > |rest| && |b| > |rest|
    requires FromEnd(a, |rest| + 1) == x && FromEnd(b, |rest| + 1) == y
    ensures DifferFromEnd(a, b)
  {
    var j := |rest| + 1;
    assert FromEnd(a, j) != FromEnd(b, j);
  }

  /** A well-formed text that starts inside an escape of `t` does not read like the end of `t`. */
  lemma {:induction false} CutEscapeDiffers(t: string, k: nat)
    requires WellFormed(t) && k <= |t| && !Boundary(t, k)
    requires WellFormed(t[k..])
    ensures DifferFromEnd(Decode(t[k..]), Decode(t))
  {
    hide DifferFromEnd;
    var n := TokenLen(t);
    var rest, s := t[n..], t[k..];
    if k >= n {
      assert rest[k - n..] == s;
      CutEscapeDiffers(rest, k - n);
      DifferMore(Decode(s), Decode(rest), TokenChar(t));
    } else if n == 4 {
      CutNulDiffers(t, k);
    } else if t[1] != '\\' {
      CutShortDiffers(t);
    } else if t[2..] != [] && t[2] == '\\' {
      assert s[0] == '\\' && s[1] == '\\' && s[2..] == rest[1..];
      CutEscapeDiffers(rest, 1);
      DifferMore(Decode(rest[1..]), Decode(rest), '\\');
      DifferMore(Decode(rest[1..]), Decode(t), '\\');
    } else {
      CutDoubledDiffers(t);
    }
  }

  /** The letter of an escape is read as itself. */
  lemma CutShortDiffers(t: string)
    requires WellFormed(t) && TokenLen(t) == 2 && t[1] != '\\' && WellFormed(t[1..])
    ensures DifferFromEnd(Decode(t[1..]), Decode(t))
  {
    var s, rest := t[1..], t[2..];
    assert s[1..] == rest;
    DifferAt(Decode(s), Decode(t), s[0], TokenChar(t), Decode(rest));
  }

  /** The second backslash of an escaped one starts another escape. */
  lemma CutDoubledDiffers(t: string)
    requires WellFormed(t) && |t| >= 2 && t[0] == '\\' && t[1] == '\\' && (|t| > 2 ==> t[2] != '\\')
    requires WellFormed(t[1..])
    ensures DifferFromEnd(Decode(t[1..]), Decode(t))
  {
    var s, rest := t[1..], t[2..];
    assert TokenLen(s) > 0 && |t| > 2;
    if ZerosAt(s, 1) {
      ZerosAreThreeCharacters(rest);
      assert s[4..] == rest[3..];
      DifferAt(Decode(s), Decode(t), '\0', '0', Decode(rest[3..]));
    } else {
      assert s[2..] == rest[1..];
      assert Decode(rest) == [t[2]] + Decode(rest[1..]);
      DifferAt(Decode(s), Decode(t), TokenChar(s), t[2], Decode(rest[1..]));
    }
  }

  lemma ZerosAreThreeCharacters(s: string)
    requires WellFormed(s) && ZerosAt(s, 0)
    ensures Decode(s) == ['0', '0', '0'] + Decode(s[3..])
  {
    var u := s[1..];
    assert u[1..] == s[2..] && s[2..][1..] == s[3..];
    assert Decode(u) == ['0'] + Decode(s[2..]) && Decode(s[2..]) == ['0'] + Decode(s[3..]);
  }

  lemma CutNulDiffers(t: string, k: nat)
    requires WellFormed(t) && TokenLen(t) == 4 && 0 < k < 4
    requires WellFormed(t[k..])
    ensures DifferFromEnd(Decode(t[k..]), Decode(t))
  {
    var rest := t[4..];
    assert t[3..][1..] == rest && t[2..][1..] == t[3..] && t[1..][1..] == t[2..];
    assert Decode(t[3..]) == ['0'] + Decode(rest);
    DifferAt(Decode(t[3..]), Decode(t), '0', '\0', Decode(rest));
    if k <= 2 { DifferMore(Decode(t[3..]), Decode(t), '0'); }
    if k == 1 { DifferMore(Decode(t[2..]), Decode(t), '0'); }
  }
}
