/** Thumbprints: normalisation, upper-case hex, and the C strings that carry them. */
module Thumbprint {
  import opened Bytes

  // ----- the store's normaliser: a pipeline of string functions -----

  predicate IsSpace(c: char) {
    c == ' ' || c == '\t' || c == '\n' || c == '\r' || c == '\U{b}' || c == '\U{c}'
  }

  predicate IsSeparator(c: char) {
    c == ':' || c == ' ' || c == '-'
  }

  function Upper(c: char): char {
    if 'a' <= c <= 'z' then c - 'a' + 'A' else c
  }

  function ToUpper(s: string): (r: string)
    ensures |r| == |s|
  {
    if s == [] then [] else [Upper(s[0])] + ToUpper(s[1..])
  }

  function TrimLeft(s: string): string {
    if s != [] && IsSpace(s[0]) then TrimLeft(s[1..]) else s
  }

  function TrimSpace(s: string): string
    decreases |s|
  {
    if s != [] && IsSpace(s[|s| - 1]) then TrimSpace(s[..|s| - 1]) else TrimLeft(s)
  }

  /** strings.ReplaceAll with the empty string. */
  function Remove(s: string, c: char): string {
    if s == [] then [] else (if s[0] == c then [] else [s[0]]) + Remove(s[1..], c)
  }

  /** NormalizeThumbprint. */
  function Normalize(s: string): string {
    Remove(Remove(Remove(ToUpper(TrimSpace(s)), ':'), ' '), '-')
  }

  // ----- the bridge's normaliser: one pass -----

  function BridgeUpper(c: char): char {
    if 'a' <= c <= 'f' then c - 'a' + 'A' else c
  }

  /** What normalizeThumbprint of the bridge returns. */
  function BridgeNormalize(s: string): string {
    if s == [] then [] else (if IsSeparator(s[0]) then [] else [BridgeUpper(s[0])]) + BridgeNormalize(s[1..])
  }

  lemma HeadTail(s: string, t: string)
    requires s != []
    ensures s == [s[0]] + s[1..] && s + t == [s[0]] + (s[1..] + t)
  {
  }

  lemma Associative(a: string, b: string, c: string)
    ensures (a + b) + c == a + (b + c)
  {
  }

  lemma {:induction false} BridgeCons(x: char, s: string)
    ensures BridgeNormalize([x] + s) == (if IsSeparator(x) then [] else [BridgeUpper(x)]) + BridgeNormalize(s)
  {
    assert ([x] + s)[1..] == s;
  }

  lemma {:induction false} BridgeAppend(s: string, t: string)
    ensures BridgeNormalize(s + t) == BridgeNormalize(s) + BridgeNormalize(t)
  {
    if s == [] {
      assert s + t == t;
    } else {
      hide BridgeNormalize, IsSeparator;
      var x, rest := s[0], s[1..];
      var piece := if IsSeparator(x) then [] else [BridgeUpper(x)];
      BridgeAppend(rest, t);
      BridgeCons(x, rest);
      BridgeCons(x, rest + t);
      HeadTail(s, t);
      Associative(piece, BridgeNormalize(rest), BridgeNormalize(t));
    }
  }

  method NormalizeInBridge(s: string) returns (out: string)
    ensures out == BridgeNormalize(s)
  {
    out := [];
    var i := 0;
    while i < |s|
      invariant 0 <= i <= |s|
      invariant out == BridgeNormalize(s[..i])
    {
      assert s[..i + 1] == s[..i] + [s[i]];
      BridgeAppend(s[..i], [s[i]]);
      var ch := s[i];
      i := i + 1;
      if ch == ':' || ch == ' ' || ch == '-' {
        continue;
      }
      if 'a' <= ch <= 'f' {
        ch := ch - 'a' + 'A';
      }
      out := out + [ch];
    }
    assert s[..i] == s;
  }

  // ----- what normalising means -----

  /** Everything up to character i, or from it on, is white space. */
  predicate SpaceUpTo(s: string, i: nat)
    requires i < |s|
  {
    forall k | 0 <= k <= i :: IsSpace(s[k])
  }

  predicate SpaceFrom(s: string, i: nat)
    requires i < |s|
  {
    forall k | i <= k < |s| :: IsSpace(s[k])
  }

  predicate PlainStart(s: string) {
    forall i | 0 <= i < |s| && SpaceUpTo(s, i) :: s[i] == ' '
  }

  /** The white space at the two ends, which trimming takes away, is only the space. */
  predicate PlainEnds(s: string) {
    forall i | 0 <= i < |s| && (SpaceUpTo(s, i) || SpaceFrom(s, i)) :: s[i] == ' '
  }

  /** No letter that only the store's normaliser raises. */
  predicate NoHighLetter(s: string) {
    forall i | 0 <= i < |s| :: !('g' <= s[i] <= 'z')
  }

  /** The characters that are no separators, in order and in upper case. */
  function Significant(s: string): string {
    if s == [] then [] else (if IsSeparator(s[0]) then [] else [Upper(s[0])]) + Significant(s[1..])
  }

  lemma {:induction false} SignificantCons(x: char, s: string)
    ensures Significant([x] + s) == (if IsSeparator(x) then [] else [Upper(x)]) + Significant(s)
  {
    assert ([x] + s)[1..] == s;
  }

  lemma {:induction false} SignificantAppend(s: string, t: string)
    ensures Significant(s + t) == Significant(s) + Significant(t)
  {
    if s == [] {
      assert s + t == t;
    } else {
      hide Significant, IsSeparator;
      var x, rest := s[0], s[1..];
      var piece := if IsSeparator(x) then [] else [Upper(x)];
      SignificantAppend(rest, t);
      SignificantCons(x, rest);
      SignificantCons(x, rest + t);
      HeadTail(s, t);
      Associative(piece, Significant(rest), Significant(t));
    }
  }

  lemma RemoveCons(x: char, s: string, c: char)
    ensures Remove([x] + s, c) == (if x == c then [] else [x]) + Remove(s, c)
  {
    assert ([x] + s)[1..] == s;
  }

  lemma {:induction false} RemoveSeparators(s: string)
    ensures Remove(Remove(Remove(ToUpper(s), ':'), ' '), '-') == Significant(s)
  {
    if s != [] {
      RemoveSeparators(s[1..]);
      var x, u := Upper(s[0]), ToUpper(s[1..]);
      RemoveCons(x, u, ':');
      var a := Remove(u, ':');
      if x == ':' {
        assert Remove([x] + u, ':') == a;
      } else {
        RemoveCons(x, a, ' ');
        if x == ' ' {
          assert Remove([x] + a, ' ') == Remove(a, ' ');
        } else {
          RemoveCons(x, Remove(a, ' '), '-');
        }
      }
    }
  }

  lemma StartStep(s: string)
    requires s != []
    ensures PlainStart(s) <==> !IsSpace(s[0]) || (s[0] == ' ' && PlainStart(s[1..]))
  {
    var t := s[1..];
    if IsSpace(s[0]) {
      assert SpaceUpTo(s, 0);
      forall i | 0 <= i < |t|
        ensures SpaceUpTo(s, i + 1) <==> SpaceUpTo(t, i)
      {
        UpToStep(s, i);
      }
      if PlainStart(s) {
        forall i | 0 <= i < |t| && SpaceUpTo(t, i)
          ensures t[i] == ' '
        {
          assert SpaceUpTo(s, i + 1);
        }
      } else {
        var i :| 0 <= i < |s| && SpaceUpTo(s, i) && s[i] != ' ';
        assert i > 0 ==> SpaceUpTo(t, i - 1) && t[i - 1] != ' ';
      }
    }
  }

  lemma UpToStep(s: string, i: nat)
    requires i + 1 < |s| && IsSpace(s[0])
    ensures SpaceUpTo(s, i + 1) <==> SpaceUpTo(s[1..], i)
  {
    var t := s[1..];
    if SpaceUpTo(s, i + 1) {
      forall k | 0 <= k <= i
        ensures IsSpace(t[k])
      {
        assert t[k] == s[k + 1];
      }
    }
    if SpaceUpTo(t, i) {
      forall k | 0 <= k <= i + 1
        ensures IsSpace(s[k])
      {
        assert k > 0 ==> s[k] == t[k - 1];
      }
    }
  }

  lemma EndStep(s: string)
    requires s != [] && IsSpace(s[|s| - 1])
    ensures PlainEnds(s) <==> s[|s| - 1] == ' ' && PlainEnds(s[..|s| - 1])
  {
    var n, t := |s| - 1, s[..|s| - 1];
    assert SpaceFrom(s, n);
    forall i | 0 <= i < n
      ensures SpaceUpTo(s, i) <==> SpaceUpTo(t, i)
      ensures SpaceFrom(s, i) <==> SpaceFrom(t, i)
    {
      assert forall k | 0 <= k < n :: t[k] == s[k];
    }
  }

  lemma EndsAreStart(s: string)
    requires s != [] ==> !IsSpace(s[|s| - 1])
    ensures PlainEnds(s) <==> PlainStart(s)
  {
    forall i | 0 <= i < |s|
      ensures !SpaceFrom(s, i)
    {
      assert !IsSpace(s[|s| - 1]);
    }
  }

  /** Trimming at the left drops no significant character exactly when it only drops
      spaces. */
  lemma {:induction false} TrimLeftExactly(s: string)
    ensures |Significant(TrimLeft(s))| <= |Significant(s)|
    ensures PlainStart(s) ==> Significant(TrimLeft(s)) == Significant(s)
    ensures !PlainStart(s) ==> |Significant(TrimLeft(s))| < |Significant(s)|
  {
    if s != [] {
      StartStep(s);
      if IsSpace(s[0]) {
        TrimLeftExactly(s[1..]);
      }
    }
  }

  /** The same for both ends. */
  lemma {:induction false} TrimSpaceExactly(s: string)
    ensures |Significant(TrimSpace(s))| <= |Significant(s)|
    ensures PlainEnds(s) ==> Significant(TrimSpace(s)) == Significant(s)
    ensures !PlainEnds(s) ==> |Significant(TrimSpace(s))| < |Significant(s)|
    decreases |s|
  {
    hide Significant, PlainEnds, PlainStart, TrimLeft;
    if s != [] && IsSpace(s[|s| - 1]) {
      var front, last := s[..|s| - 1], s[|s| - 1];
      EndStep(s);
      TrimSpaceExactly(front);
      LastSignificant(s);
      assert TrimSpace(s) == TrimSpace(front);
    } else {
      EndsAreStart(s);
      TrimLeftExactly(s);
    }
  }

  lemma LastSignificant(s: string)
    requires s != []
    ensures Significant(s) == Significant(s[..|s| - 1]) + if IsSeparator(s[|s| - 1]) then [] else [Upper(s[|s| - 1])]
  {
    hide Significant, IsSeparator, Upper;
    var front, last := s[..|s| - 1], s[|s| - 1];
    assert s == front + [last];
    SignificantAppend(front, [last]);
    SignificantOne(last);
  }

  /** A thumbprint normalises to its significant characters after trimming, so separators
      and case do not matter; and to all its significant characters exactly when nothing
      but spaces is trimmed. */
  lemma NormalizeMeaning(s: string)
    ensures Normalize(s) == Significant(TrimSpace(s))
    ensures Normalize(s) == Significant(s) <==> PlainEnds(s)
  {
    RemoveSeparators(TrimSpace(s));
    TrimSpaceExactly(s);
  }

  /** Normalised text has no separator and no small letter, and nothing left to remove. */
  lemma {:induction false} SignificantFixed(s: string)
    ensures Significant(Significant(s)) == Significant(s)
    ensures forall i | 0 <= i < |Significant(s)| ::
              !IsSeparator(Significant(s)[i]) && !('a' <= Significant(s)[i] <= 'z')
  {
    if s != [] {
      SignificantFixed(s[1..]);
      if !IsSeparator(s[0]) {
        assert Significant(s)[1..] == Significant(s[1..]);
      } else {
        assert Significant(s) == Significant(s[1..]);
      }
    }
  }

  /** What the bridge makes has as many characters, and the same ones exactly when there
      is no letter beyond f. */
  lemma {:induction false} BridgeSignificant(s: string)
    ensures |BridgeNormalize(s)| == |Significant(s)|
    ensures BridgeNormalize(s) == Significant(s) <==> NoHighLetter(s)
  {
    if s != [] {
      var x, rest := s[0], s[1..];
      BridgeSignificant(rest);
      HeadTail(s, []);
      BridgeCons(x, rest);
      SignificantCons(x, rest);
      HighLetterStep(s);
      if IsSeparator(x) {
        assert BridgeNormalize(s) == BridgeNormalize(rest) && Significant(s) == Significant(rest);
      } else {
        assert BridgeNormalize(s)[0] == BridgeUpper(x) && BridgeNormalize(s)[1..] == BridgeNormalize(rest);
        assert Significant(s)[0] == Upper(x) && Significant(s)[1..] == Significant(rest);
      }
    }
  }

  lemma HighLetterStep(s: string)
    requires s != []
    ensures NoHighLetter(s) <==> !('g' <= s[0] <= 'z') && NoHighLetter(s[1..])
  {
    var t := s[1..];
    if !NoHighLetter(t) {
      var i :| 0 <= i < |t| && 'g' <= t[i] <= 'z';
      assert s[i + 1] == t[i];
    }
  }

  lemma {:induction false} BridgeFixed(s: string)
    ensures BridgeNormalize(BridgeNormalize(s)) == BridgeNormalize(s)
  {
    if s != [] {
      BridgeFixed(s[1..]);
      var x, rest := s[0], s[1..];
      if IsSeparator(x) {
        assert BridgeNormalize(s) == BridgeNormalize(rest);
      } else {
        assert BridgeNormalize(s) == [BridgeUpper(x)] + BridgeNormalize(rest);
        BridgeCons(BridgeUpper(x), BridgeNormalize(rest));
      }
    }
  }

  /** The two normalisers agree exactly on text without a letter beyond f in which trimming
      takes only spaces from the ends; white space inside does not matter. */
  lemma NormalisersAgree(s: string)
    ensures Normalize(s) == BridgeNormalize(s) <==> NoHighLetter(s) && PlainEnds(s)
  {
    NormalizeMeaning(s);
    TrimSpaceExactly(s);
    BridgeSignificant(s);
  }

  /** White space that is no separator: normalising keeps it, trimming removes it. */
  predicate IsHidden(c: char) {
    IsSpace(c) && !IsSeparator(c)
  }

  /** Such a character with nothing but separators before it, or behind it. */
  predicate HiddenFront(t: string) {
    exists i | 0 <= i < |t| :: IsHidden(t[i]) && SeparatorsBefore(t, i)
  }

  predicate HiddenBack(t: string) {
    exists i | 0 <= i < |t| :: IsHidden(t[i]) && SeparatorsBehind(t, i)
  }

  predicate SeparatorsBefore(t: string, i: nat)
    requires i < |t|
  {
    forall k | 0 <= k < i :: IsSeparator(t[k])
  }

  predicate SeparatorsBehind(t: string, i: nat)
    requires i < |t|
  {
    forall k | i < k < |t| :: IsSeparator(t[k])
  }

  lemma FrontStep(t: string)
    requires t != []
    ensures HiddenFront(t) <==> if IsSeparator(t[0]) then HiddenFront(t[1..]) else IsHidden(t[0])
  {
    var rest := t[1..];
    if HiddenFront(t) {
      var i :| 0 <= i < |t| && IsHidden(t[i]) && SeparatorsBefore(t, i);
      if i > 0 {
        assert IsHidden(rest[i - 1]) && SeparatorsBefore(rest, i - 1);
      }
    }
    if IsSeparator(t[0]) && HiddenFront(rest) {
      var i :| 0 <= i < |rest| && IsHidden(rest[i]) && SeparatorsBefore(rest, i);
      assert IsHidden(t[i + 1]);
      assert SeparatorsBefore(t, i + 1) by {
        assert forall k | 0 < k <= i :: t[k] == rest[k - 1];
      }
    }
    if IsHidden(t[0]) {
      assert SeparatorsBefore(t, 0);
    }
  }

  lemma BackStep(t: string)
    requires t != []
    ensures HiddenBack(t) <==>
            if IsSeparator(t[|t| - 1]) then HiddenBack(t[..|t| - 1]) else IsHidden(t[|t| - 1])
  {
    var n, rest := |t| - 1, t[..|t| - 1];
    if HiddenBack(t) {
      var i :| 0 <= i < |t| && IsHidden(t[i]) && SeparatorsBehind(t, i);
      if i < n {
        assert IsHidden(rest[i]) && SeparatorsBehind(rest, i);
      }
    }
    if IsSeparator(t[n]) && HiddenBack(rest) {
      var i :| 0 <= i < |rest| && IsHidden(rest[i]) && SeparatorsBehind(rest, i);
      assert IsHidden(t[i]);
      assert SeparatorsBehind(t, i) by {
        assert forall k | i < k < n :: t[k] == rest[k];
      }
    }
    if IsHidden(t[n]) {
      assert SeparatorsBehind(t, n);
    }
  }

  lemma UpperSpace(c: char)
    ensures IsSpace(Upper(c)) <==> IsSpace(c)
  {
  }

  lemma {:induction false} FrontOfSignificant(t: string)
    ensures Significant(t) != [] && IsSpace(Significant(t)[0]) <==> HiddenFront(t)
  {
    if t != [] {
      hide HiddenFront, IsSpace, IsSeparator, Upper;
      FrontStep(t);
      FrontOfSignificant(t[1..]);
      UpperSpace(t[0]);
    } else {
      assert !HiddenFront(t);
    }
  }

  lemma {:induction false} BackOfSignificant(t: string)
    ensures var n := Significant(t); n != [] && IsSpace(n[|n| - 1]) <==> HiddenBack(t)
    decreases |t|
  {
    if t != [] {
      hide Significant, HiddenBack, IsSpace, IsSeparator, Upper;
      BackStep(t);
      LastSignificant(t);
      BackOfSignificant(t[..|t| - 1]);
      UpperSpace(t[|t| - 1]);
    } else {
      assert !HiddenBack(t);
    }
  }

  /** The bridge's normaliser is idempotent. The store's is exactly where, after trimming,
      no separator at either end hides white space from it. */
  lemma NormalisersIdempotent(s: string)
    ensures BridgeNormalize(BridgeNormalize(s)) == BridgeNormalize(s)
    ensures Normalize(Normalize(s)) == Normalize(s) <==> !HiddenFront(TrimSpace(s)) && !HiddenBack(TrimSpace(s))
  {
    hide Normalize, Significant, TrimSpace, HiddenFront, HiddenBack;
    BridgeFixed(s);
    NormalizeMeaning(s);
    NormalTwice(TrimSpace(s));
    FrontOfSignificant(TrimSpace(s));
    BackOfSignificant(TrimSpace(s));
  }

  /** Normalising leaves significant text alone exactly where it has no white space at its
      ends. */
  lemma NormalTwice(t: string)
    ensures var n := Significant(t);
            Normalize(n) == n <==> n == "" || (!IsSpace(n[0]) && !IsSpace(n[|n| - 1]))
  {
    hide Normalize, Significant, TrimSpace, PlainEnds, IsSpace;
    var n := Significant(t);
    NormalizeMeaning(n);
    SignificantFixed(t);
    NoBlank(n);
    EndsWithoutBlank(n);
  }

  lemma NoBlank(n: string)
    requires forall i | 0 <= i < |n| :: !IsSeparator(n[i])
    ensures ' ' !in n
  {
  }

  lemma EndsWithoutBlank(n: string)
    requires ' ' !in n
    ensures PlainEnds(n) <==> n == "" || (!IsSpace(n[0]) && !IsSpace(n[|n| - 1]))
  {
    if n != "" {
      if !IsSpace(n[0]) && !IsSpace(n[|n| - 1]) {
        NotSpaceEnds(n);
      } else if IsSpace(n[0]) {
        assert SpaceUpTo(n, 0) && n[0] in n;
      } else {
        assert SpaceFrom(n, |n| - 1) && n[|n| - 1] in n;
      }
    }
  }

  /** Hex digits in either case, and the separators. */
  predicate IsHexText(s: string) {
    forall i | 0 <= i < |s| :: HexVal(s[i]) >= 0 || IsSeparator(s[i])
  }

  /** On text of hex digits, colons, spaces and dashes both normalisers agree and are
      idempotent. */
  lemma HexTextNormalises(s: string)
    requires IsHexText(s)
    ensures Normalize(s) == BridgeNormalize(s)
    ensures Normalize(Normalize(s)) == Normalize(s) && BridgeNormalize(BridgeNormalize(s)) == BridgeNormalize(s)
  {
    hide Normalize, BridgeNormalize, TrimSpace, PlainEnds, HiddenFront, HiddenBack;
    NormalisersAgree(s);
    NormalisersIdempotent(s);
    HexTextIsPlain(s);
    TrimmedHexText(s);
    HexTextHidesNothing(TrimSpace(s));
  }

  lemma HexTextIsPlain(s: string)
    requires IsHexText(s)
    ensures NoHighLetter(s) && PlainEnds(s)
  {
    forall i | 0 <= i < |s|
      ensures !('g' <= s[i] <= 'z') && (IsSpace(s[i]) ==> s[i] == ' ')
    {
      assert HexVal(s[i]) >= 0 || IsSeparator(s[i]);
    }
  }

  lemma HexTextHidesNothing(t: string)
    requires IsHexText(t)
    ensures !HiddenFront(t) && !HiddenBack(t)
  {
    forall i | 0 <= i < |t|
      ensures !IsHidden(t[i])
    {
      assert HexVal(t[i]) >= 0 || IsSeparator(t[i]);
    }
  }

  lemma {:induction false} TrimmedHexText(s: string)
    requires IsHexText(s)
    ensures IsHexText(TrimSpace(s))
    decreases |s|
  {
    hide HexVal, IsSeparator, IsSpace;
    if s != [] && IsSpace(s[|s| - 1]) {
      TrimmedHexText(s[..|s| - 1]);
    } else {
      LeftTrimmedHexText(s);
    }
  }

  lemma {:induction false} LeftTrimmedHexText(s: string)
    requires IsHexText(s)
    ensures IsHexText(TrimLeft(s))
  {
    hide HexVal, IsSeparator, IsSpace;
    if s != [] && IsSpace(s[0]) {
      LeftTrimmedHexText(s[1..]);
    }
  }

  /** Every text that begins with a tab normalises differently. */
  lemma TabInFront(s: string)
    requires s != [] && s[0] == '\t'
    ensures Normalize(s) != BridgeNormalize(s)
  {
    hide Normalize, BridgeNormalize;
    NormalisersAgree(s);
    assert SpaceUpTo(s, 0);
  }

  /** A tab behind a colon is not trimmed the first time, but the second time. */
  lemma TabBehindColon(s: string)
    requires |s| > 2 && s[0] == ':' && s[1] == '\t' && !IsSpace(s[|s| - 1])
    ensures Normalize(Normalize(s)) != Normalize(s)
  {
    hide Normalize;
    NormalisersIdempotent(s);
    assert IsHidden(s[1]) && SeparatorsBefore(s, 1);
  }

  /** Witnesses of each way to differ, and of white space inside doing no harm. */
  lemma NormalisersDiffer()
    ensures Normalize("\t1") != BridgeNormalize("\t1")
    ensures Normalize("g") != BridgeNormalize("g")
    ensures Normalize("1\t1") == BridgeNormalize("1\t1")
    ensures Normalize(Normalize(":\t1")) != Normalize(":\t1")
  {
    hide Normalize, BridgeNormalize, TrimSpace, Significant;
    TabInFront("\t1");
    HighLetterAlone("g");
    TabInside("1\t1");
    TabBehindColon(":\t1");
  }

  lemma HighLetterAlone(s: string)
    requires |s| == 1 && s[0] == 'g'
    ensures Normalize(s) != BridgeNormalize(s)
  {
    hide Normalize, BridgeNormalize;
    NormalisersAgree(s);
  }

  lemma TabInside(s: string)
    requires |s| == 3 && s[0] == '1' == s[2] && s[1] == '\t'
    ensures Normalize(s) == BridgeNormalize(s)
  {
    hide Normalize, BridgeNormalize, PlainEnds;
    NormalisersAgree(s);
    NotSpaceEnds(s);
    assert s[0] == '1' && s[1] == '\t' && s[2] == '1';
  }

  lemma NotSpaceEnds(s: string)
    requires s != [] && !IsSpace(s[0]) && !IsSpace(s[|s| - 1])
    ensures PlainEnds(s)
  {
    forall i | 0 <= i < |s|
      ensures !SpaceUpTo(s, i) && !SpaceFrom(s, i)
    {
      assert !IsSpace(s[0]) && !IsSpace(s[|s| - 1]);
    }
  }

  lemma SignificantOne(x: char)
    ensures Significant([x]) == if IsSeparator(x) then [] else [Upper(x)]
    ensures BridgeNormalize([x]) == if IsSeparator(x) then [] else [BridgeUpper(x)]
  {
    SignificantCons(x, []);
    BridgeCons(x, []);
    assert [x] + [] == [x];
  }

  // ----- hex -----

  function HexDigit(v: int): (c: char)
    requires 0 <= v < 16
  {
    if v < 10 then '0' + v as char else 'A' + (v - 10) as char
  }

  /** Upper-case hexadecimal, two characters a byte. */
  function HexUpper(b: seq<byte>): (s: string)
    ensures |s| == 2 * |b|
  {
    if b == [] then [] else [HexDigit(b[0] / 16), HexDigit(b[0] % 16)] + HexUpper(b[1..])
  }

  /** hexval: the value of a hex digit, or -1. */
  function HexVal(c: char): (v: int)
    ensures -1 <= v < 16
  {
    if '0' <= c <= '9' then (c - '0') as int
    else if 'a' <= c <= 'f' then (c - 'a') as int + 10
    else if 'A' <= c <= 'F' then (c - 'A') as int + 10
    else -1
  }

  /** The bytes hex_decode writes: whole pairs of digits, up to the capacity. */
  function HexDecode(hex: string, cap: nat): (b: seq<byte>)
    ensures |b| <= cap
  {
    if |hex| < 2 || cap == 0 || HexVal(hex[0]) < 0 || HexVal(hex[1]) < 0 then []
    else [HexVal(hex[0]) * 16 + HexVal(hex[1])] + HexDecode(hex[2..], cap - 1)
  }

  lemma HexDecodeStep(hex: string, i: nat, cap: nat)
    requires i + 1 < |hex| && cap > 0 && HexVal(hex[i]) >= 0 && HexVal(hex[i + 1]) >= 0
    ensures HexDecode(hex[i..], cap) == [HexVal(hex[i]) * 16 + HexVal(hex[i + 1])] + HexDecode(hex[i + 2..], cap - 1)
  {
    assert hex[i..][2..] == hex[i + 2..];
  }

  lemma HexDecodeEnd(hex: string, cap: nat)
    requires |hex| < 2 || cap == 0 || HexVal(hex[0]) < 0 || HexVal(hex[1]) < 0
    ensures HexDecode(hex, cap) == []
  {
  }

  method HexDecodeInto(hex: string, out: array<byte>) returns (n: nat)
    modifies out
    ensures n <= out.Length && out[..n] == HexDecode(hex, out.Length)
    ensures out[n..] == old(out[n..])
  {
    hide HexVal, HexDecode;
    ghost var before, all := out[..], HexDecode(hex, out.Length);
    n := 0;
    var i := 0;
    while i + 1 < |hex| && n < out.Length
      invariant i == 2 * n && n <= out.Length && 2 * n <= |hex|
      invariant all == out[..n] + HexDecode(hex[i..], out.Length - n)
      invariant out[n..] == before[n..]
    {
      var hi, lo := HexVal(hex[i]), HexVal(hex[i + 1]);
      if hi < 0 || lo < 0 {
        break;
      }
      ghost var done, rest := out[..n], HexDecode(hex[i + 2..], out.Length - n - 1);
      HexDecodeStep(hex, i, out.Length - n);
      out[n] := hi * 16 + lo;
      assert out[..n + 1] == done + [hi * 16 + lo];
      assert out[n + 1..] == before[n + 1..];
      n := n + 1;
      i := i + 2;
    }
    HexDecodeEnd(hex[i..], out.Length - n);
  }

  lemma HexDigitRoundTrip(v: int)
    requires 0 <= v < 16
    ensures HexVal(HexDigit(v)) == v && HexDigit(v) != '\0' && !IsSpace(HexDigit(v)) && !IsSeparator(HexDigit(v))
    ensures Upper(HexDigit(v)) == HexDigit(v)
  {
  }

  /** Decoding inverts upper-case hex, up to the capacity. */
  lemma {:induction false} HexRoundTrip(b: seq<byte>, cap: nat)
    ensures HexDecode(HexUpper(b), cap) == b[..if |b| <= cap then |b| else cap]
  {
    if b != [] && cap > 0 {
      hide HexVal, HexDigit, HexDecode, HexUpper;
      HexUpperStep(b);
      HexRoundTrip(b[1..], cap - 1);
      HexPair(b[0], HexUpper(b[1..]), cap);
    } else {
      HexDecodeEnd(HexUpper(b), cap);
    }
  }

  lemma HexUpperStep(b: seq<byte>)
    requires b != []
    ensures HexUpper(b) == [HexDigit(b[0] / 16), HexDigit(b[0] % 16)] + HexUpper(b[1..])
    ensures b == [b[0]] + b[1..]
  {
  }

  /** The two digits of a byte in front of other text decode to that byte first. */
  lemma HexPair(x: byte, rest: string, cap: nat)
    requires cap > 0
    ensures HexDecode([HexDigit(x / 16), HexDigit(x % 16)] + rest, cap) == [x] + HexDecode(rest, cap - 1)
  {
    hide HexVal, HexDigit;
    HexDigitRoundTrip(x / 16);
    HexDigitRoundTrip(x % 16);
    var text := [HexDigit(x / 16), HexDigit(x % 16)] + rest;
    HexDecodeStep(text, 0, cap);
    assert text[2..] == rest && text[0..] == text;
  }

  /** Hex text has no white space and no NUL, and all its characters are significant. */
  lemma {:induction false} HexIsPlain(b: seq<byte>)
    ensures forall i | 0 <= i < |HexUpper(b)| :: !IsSpace(HexUpper(b)[i])
    ensures '\0' !in HexUpper(b)
    ensures Significant(HexUpper(b)) == HexUpper(b)
  {
    if b != [] {
      HexDigitRoundTrip(b[0] / 16);
      HexDigitRoundTrip(b[0] % 16);
      HexIsPlain(b[1..]);
      var two := [HexDigit(b[0] / 16), HexDigit(b[0] % 16)];
      assert two[1..] == [two[1]] && [two[1]][1..] == [];
      assert Significant([two[1]]) == [two[1]];
      assert Significant(two) == two;
      SignificantAppend(two, HexUpper(b[1..]));
    }
  }

  /** Normalising leaves hex text alone. */
  lemma HexIsNormal(b: seq<byte>)
    ensures Normalize(HexUpper(b)) == HexUpper(b)
  {
    HexIsPlain(b);
    NormalizeMeaning(HexUpper(b));
    if b != [] {
      NotSpaceEnds(HexUpper(b));
    }
  }

  // ----- C strings -----

  /** The characters before the first NUL. */
  function CString(buf: seq<char>): string {
    if buf == [] || buf[0] == '\0' then [] else [buf[0]] + CString(buf[1..])
  }

  function Truncate<T>(s: seq<T>, cap: nat): seq<T>
    requires cap > 0
  {
    if |s| < cap then s else s[..cap - 1]
  }

  /** copyToCChars: a bounded copy that always ends in NUL. */
  method CopyToCChars(dst: array<char>, s: string)
    requires dst.Length > 0
    modifies dst
    ensures Truncate(s, dst.Length) + ['\0'] <= dst[..]
    ensures '\0' !in s ==> CString(dst[..]) == Truncate(s, dst.Length)
  {
    var n := dst.Length - 1;
    if n > |s| {
      n := |s|;
    }
    var i := 0;
    while i < n
      invariant 0 <= i <= n
      invariant dst[..i] == s[..i]
    {
      dst[i] := s[i];
      i := i + 1;
    }
    dst[n] := '\0';
    assert dst[..n] == s[..n] == Truncate(s, dst.Length);
    assert dst[..] == dst[..n] + ['\0'] + dst[n + 1..];
    if '\0' !in s {
      CStringOf(Truncate(s, dst.Length), dst[n + 1..]);
    }
  }

  lemma {:induction false} CStringOf(s: string, junk: seq<char>)
    requires '\0' !in s
    ensures CString(s + ['\0'] + junk) == s
  {
    if s != [] {
      CStringOf(s[1..], junk);
      assert (s + ['\0'] + junk)[1..] == s[1..] + ['\0'] + junk;
    }
  }

  /** A thumbprint survives the whole path: hex in the store, normalised by the
      client, copied into 64 characters by the bridge, decoded into 20 bytes. */
  lemma ThumbprintSurvives(sha1: seq<byte>)
    requires |sha1| == 20
    ensures HexDecode(Truncate(Normalize(HexUpper(sha1)), 64), 20) == sha1
  {
    HexRoundTrip(sha1, 20);
    HexIsNormal(sha1);
  }
}
