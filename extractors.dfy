/**
 * The field extractors of nlp.js: each regular expression it matches against
 * a text window, written as a matcher at one position plus the leftmost
 * search that `String.prototype.match` performs, and the helpers
 * `getUrl`, `getQuote`, `getPosition`, `getRotation` and `getSize`.
 */
module Extractors {
  import opened Wrappers
  import opened Text
  import opened Vocabulary

  /** A run of `P` characters ending just before a non-`P` character is where `RunEnd` stops. */
  lemma RunEndAt(s: string, i: nat, j: nat, P: char -> bool)
    requires i <= j <= |s|
    requires forall k :: i <= k < j ==> P(s[k])
    requires j < |s| ==> !P(s[j])
    ensures RunEnd(s, i, P) == j
    decreases j - i
  {
    if i < j { RunEndAt(s, i + 1, j, P); }
  }

  // ---------------------------------------------------------------------------
  // Duration: /[0-9]+ (⏲|seconds?|segundos)/ (case-sensitive)

  /** `(⏲|seconds?|segundos)` can start at `j`. */
  predicate UnitAt(s: string, j: nat) {
    (j < |s| && s[j] == '⏲') || StartsWithAt(s, j, "second") || StartsWithAt(s, j, "segundos")
  }

  /**
   * The duration pattern matches at `i`. The greedy `[0-9]+` can only be
   * followed by the space once it has taken the whole run of digits, so the
   * run is the only candidate.
   */
  predicate DurationAt(s: string, i: nat) {
    i < |s| && IsDigit(s[i]) &&
    var j := RunEnd(s, i, IsDigit);
    j < |s| && s[j] == ' ' && UnitAt(s, j + 1)
  }

  /** Digits `s[i..j]`, then one space, then a unit: what a duration expression looks like. */
  predicate DigitsSpaceUnit(s: string, i: nat, j: nat) {
    i < j < |s| && (forall k :: i <= k < j ==> IsDigit(s[k])) && s[j] == ' ' && UnitAt(s, j + 1)
  }

  /** Where the leftmost duration expression starts. */
  function FindDuration(s: string): (r: Option<nat>)
    ensures r.Some? ==> DurationAt(s, r.value) && forall k: nat :: k < r.value ==> !DurationAt(s, k)
    ensures r.None? ==> forall k: nat :: !DurationAt(s, k)
  {
    var P := (i: nat) => DurationAt(s, i);
    assert forall k: nat :: P(k) == DurationAt(s, k);
    FirstFrom(0, |s|, P)
  }

  /** The line filter's `test`: some duration expression occurs in `s`. */
  predicate ContainsDuration(s: string) {
    FindDuration(s).Some?
  }

  /** What `parseInt(…, 10)` gives for a string of decimal digits. */
  function DecimalValue(digits: string): nat
    requires forall k :: 0 <= k < |digits| ==> IsDigit(digits[k])
  {
    if |digits| == 0 then 0
    else
      var last := digits[|digits| - 1];
      assert IsDigit(last);
      DecimalValue(digits[..|digits| - 1]) * 10 + (last as int - '0' as int)
  }

  /** The duration branch: the number of the first duration expression of the window. */
  function DurationValue(s: string): Option<nat> {
    match FindDuration(s)
    case None => None
    case Some(i) => Some(DecimalValue(s[i..RunEnd(s, i, IsDigit)]))
  }

  /** The filter keeps exactly the lines holding digits, one space and a unit (both directions). */
  lemma ContainsDurationIff(s: string)
    ensures ContainsDuration(s) <==> exists i: nat, j: nat :: DigitsSpaceUnit(s, i, j)
  {
    if ContainsDuration(s) {
      var i := FindDuration(s).value;
      assert DigitsSpaceUnit(s, i, RunEnd(s, i, IsDigit));
    }
    if exists i: nat, j: nat :: DigitsSpaceUnit(s, i, j) {
      var i: nat, j: nat :| DigitsSpaceUnit(s, i, j);
      RunEndAt(s, i, j, IsDigit);
      assert DurationAt(s, i);
    }
  }

  /** A duration expression preceded by a digit also starts one position earlier. */
  lemma DurationExtendsLeft(s: string, i: nat)
    requires DurationAt(s, i) && i > 0 && IsDigit(s[i - 1])
    ensures DurationAt(s, i - 1)
  {
    RunEndAt(s, i - 1, RunEnd(s, i, IsDigit), IsDigit);
  }

  /** `s[i..j]` holds the leftmost duration expression, with every digit of its number. */
  ghost predicate FirstDuration(s: string, i: nat, j: nat) {
    DigitsSpaceUnit(s, i, j) && (i == 0 || !IsDigit(s[i - 1]))
    && forall k: nat, l: nat :: DigitsSpaceUnit(s, k, l) ==> i <= k
  }

  /** The search finds the leftmost duration expression, with its whole run of digits. */
  lemma FindDurationIsFirst(s: string)
    requires FindDuration(s).Some?
    ensures FirstDuration(s, FindDuration(s).value, RunEnd(s, FindDuration(s).value, IsDigit))
  {
    var i := FindDuration(s).value;
    var j := RunEnd(s, i, IsDigit);
    assert DigitsSpaceUnit(s, i, j);
    if i > 0 && IsDigit(s[i - 1]) {
      DurationExtendsLeft(s, i);
      assert false;
    }
    forall k: nat, l: nat | DigitsSpaceUnit(s, k, l) ensures i <= k {
      RunEndAt(s, k, l, IsDigit);
      assert DurationAt(s, k);
    }
  }

  /**
   * The value read for a window is the number written by all the digits of its
   * first duration expression: the run is not preceded by a digit, and no
   * duration expression starts earlier.
   */
  lemma DurationValueSpec(s: string)
    ensures DurationValue(s).None? <==> !ContainsDuration(s)
    ensures DurationValue(s).Some? ==>
      exists i: nat, j: nat :: FirstDuration(s, i, j) && DurationValue(s).value == DecimalValue(s[i..j])
  {
    if DurationValue(s).Some? {
      FindDurationIsFirst(s);
    }
  }

  // ---------------------------------------------------------------------------
  // Background: /(#[a-fA-F0-9]{3,6}|\w+) background/i

  const BackgroundSuffix: string := " background"

  /**
   * The background pattern matches at `i`; the result is where the colour
   * token ends (where " background" starts). A `#` with 3 to 6 hex digits, or a
   * whole run of word characters: the backtracking `{3,6}` and `\w+` can only
   * be followed by the space after the full run.
   */
  function BackgroundTokenEnd(s: string, i: nat): (r: Option<nat>)
    ensures r.Some? ==> i < r.value && StartsWithCI(s, r.value, BackgroundSuffix)
    ensures r.Some? ==> forall k :: i <= k < r.value ==> s[k] != ' '
  {
    if i >= |s| then None
    else if s[i] == '#' then
      var j := RunEnd(s, i + 1, IsHexDigit);
      if 3 <= j - (i + 1) <= 6 && StartsWithCI(s, j, BackgroundSuffix) then Some(j) else None
    else if IsWordChar(s[i]) then
      var j := RunEnd(s, i, IsWordChar);
      if StartsWithCI(s, j, BackgroundSuffix) then Some(j) else None
    else None
  }

  /** No background pattern starts before `i`. */
  predicate NoBackgroundBefore(s: string, i: nat) {
    forall k: nat :: k < i ==> BackgroundTokenEnd(s, k).None?
  }

  /** Where the leftmost background pattern starts. */
  function FindBackground(s: string): (r: Option<nat>)
    ensures r.Some? ==> BackgroundTokenEnd(s, r.value).Some? && NoBackgroundBefore(s, r.value)
    ensures r.None? ==> forall k: nat :: BackgroundTokenEnd(s, k).None?
  {
    var P := (i: nat) => BackgroundTokenEnd(s, i).Some?;
    assert forall k: nat :: P(k) == BackgroundTokenEnd(s, k).Some?;
    FirstFrom(0, |s|, P)
  }

  /** The text of the first background match, the colour token and the suffix as written. */
  function BackgroundMatch(s: string): Option<string> {
    match FindBackground(s)
    case None => None
    case Some(i) =>
      var j := BackgroundTokenEnd(s, i).value;
      Some(s[i..j + |BackgroundSuffix|])
  }

  /** The `background` branch: the first match with " background" removed; None is the null dereference. */
  function BackgroundColor(s: string): Option<string> {
    match BackgroundMatch(s)
    case None => None
    case Some(t) => Some(RemoveFirst(t, BackgroundSuffix))
  }

  /** A colour token: a `#` and 3 to 6 hex digits, or a non-empty run of word characters. */
  predicate IsColourToken(t: string) {
    |t| > 0 &&
    ((t[0] == '#' && 4 <= |t| <= 7 && forall k :: 1 <= k < |t| ==> IsHexDigit(t[k]))
     || (forall k :: 0 <= k < |t| ==> IsWordChar(t[k])))
  }

  lemma BackgroundTokenShape(s: string, i: nat)
    requires BackgroundTokenEnd(s, i).Some?
    ensures IsColourToken(s[i..BackgroundTokenEnd(s, i).value])
  {
  }

  /** Removing a pattern whose first character occurs nowhere before it leaves exactly what precedes it. */
  lemma RemoveFirstSuffix(token: string, pat: string)
    requires |pat| > 0
    requires forall k :: 0 <= k < |token| ==> token[k] != pat[0]
    ensures RemoveFirst(token + pat, pat) == token
  {
    var s := token + pat;
    assert StartsWithAt(s, |token|, pat);
    var f := FindPattern(s, pat).value;
    assert s[..f] == token;
  }

  /** The leftmost background pattern starts at `i`, and its colour token is `s[i..j]`. */
  ghost predicate FirstBackground(s: string, i: nat, j: nat) {
    BackgroundTokenEnd(s, i) == Some(j) && NoBackgroundBefore(s, i) && IsColourToken(s[i..j])
  }

  /** Followed by " background" in lower case, the token is what the `background` branch keeps. */
  lemma BackgroundColorOfLowerCase(s: string, i: nat, j: nat)
    requires FindBackground(s) == Some(i) && BackgroundTokenEnd(s, i) == Some(j)
    requires s[j..j + |BackgroundSuffix|] == BackgroundSuffix
    ensures BackgroundColor(s) == Some(s[i..j])
  {
    BackgroundWindow(s, i, j);
    SliceSplit(s, i, j, j + |BackgroundSuffix|);
    NoSpaceInToken(s, i, j);
    RemoveFirstSuffix(s[i..j], BackgroundSuffix);
  }

  /** The matched text runs from the token to the end of the suffix. */
  lemma BackgroundWindow(s: string, i: nat, j: nat)
    requires FindBackground(s) == Some(i) && BackgroundTokenEnd(s, i) == Some(j)
    ensures i <= j && j + |BackgroundSuffix| <= |s|
    ensures BackgroundMatch(s) == Some(s[i..j + |BackgroundSuffix|])
  {
  }

  /** The colour token holds no space, the first character of the suffix. */
  lemma NoSpaceInToken(s: string, i: nat, j: nat)
    requires BackgroundTokenEnd(s, i) == Some(j)
    ensures forall k :: 0 <= k < |s[i..j]| ==> s[i..j][k] != BackgroundSuffix[0]
  {
    assert BackgroundSuffix[0] == ' ';
    assert forall k :: 0 <= k < j - i ==> s[i..j][k] == s[i + k];
  }

  /**
   * Followed by " background" in any other case, the literal `replace` finds
   * nothing to remove, and the branch keeps the whole match.
   */
  lemma BackgroundColorOfOtherCase(s: string, i: nat, j: nat)
    requires FindBackground(s) == Some(i) && BackgroundTokenEnd(s, i) == Some(j)
    requires s[j..j + |BackgroundSuffix|] != BackgroundSuffix
    ensures BackgroundColor(s) == Some(s[i..j + |BackgroundSuffix|])
  {
    BackgroundWindow(s, i, j);
    var n := |BackgroundSuffix|;
    var t := s[i..j + n];
    forall k: nat | k < j - i ensures t[k] != BackgroundSuffix[0] {
      assert t[k] == s[i + k];
    }
    assert t[j - i..] == s[j..j + n];
    forall k: nat ensures !StartsWithAt(t, k, BackgroundSuffix) {
      if k < j - i {
        assert t[k] != BackgroundSuffix[0];
      } else if k > j - i {
        assert k + n > |t|;
      } else {
        assert t[k..k + n] == t[j - i..];
      }
    }
  }

  /**
   * The colour comes from the leftmost "<colour> background", a `#` and 3 to 6
   * hex digits or a word: it is that match with the literal " background"
   * removed, so the token alone when the suffix is written in lower case and
   * the whole match when it is not.
   */
  lemma BackgroundColorIsToken(s: string)
    ensures BackgroundColor(s).None? <==> forall k: nat :: BackgroundTokenEnd(s, k).None?
    ensures BackgroundColor(s).None? <==> forall i: nat, j: nat :: !ColourBeforeSuffix(s, i, j)
    ensures BackgroundColor(s).Some? ==>
      exists i: nat, j: nat :: FirstBackground(s, i, j) && ColourOfMatch(s, i, j)
    ensures BackgroundColor(s).Some? ==>
      exists i: nat, j: nat :: ColourBeforeSuffix(s, i, j) && NoColourBefore(s, i) && ColourOfMatch(s, i, j)
  {
    if BackgroundColor(s).Some? {
      var i := FindBackground(s).value;
      var j := BackgroundTokenEnd(s, i).value;
      BackgroundTokenShape(s, i);
      assert FirstBackground(s, i, j);
      BackgroundColorOfMatch(s, i, j);
      BackgroundTokenEndSound(s, i);
      forall k: nat, l: nat | k < i ensures !ColourBeforeSuffix(s, k, l) {
        if ColourBeforeSuffix(s, k, l) {
          BackgroundTokenEndComplete(s, k, l);
        }
      }
    } else {
      forall i: nat, j: nat ensures !ColourBeforeSuffix(s, i, j) {
        if ColourBeforeSuffix(s, i, j) {
          BackgroundTokenEndComplete(s, i, j);
        }
      }
    }
  }

  /** The pattern as written: a colour token `s[i..j]` followed, ignoring case, by " background". */
  ghost predicate ColourBeforeSuffix(s: string, i: nat, j: nat) {
    i <= j <= |s| && IsColourToken(s[i..j]) && StartsWithCI(s, j, BackgroundSuffix)
  }

  /** No colour token followed by " background" starts before `i`. */
  ghost predicate NoColourBefore(s: string, i: nat) {
    forall k: nat, l: nat :: k < i ==> !ColourBeforeSuffix(s, k, l)
  }

  /** What the matcher finds is the pattern. */
  lemma BackgroundTokenEndSound(s: string, i: nat)
    requires BackgroundTokenEnd(s, i).Some?
    ensures ColourBeforeSuffix(s, i, BackgroundTokenEnd(s, i).value)
  {
    BackgroundTokenShape(s, i);
  }

  /** Wherever the pattern occurs, the matcher finds it, with the same token. */
  lemma BackgroundTokenEndComplete(s: string, i: nat, j: nat)
    requires ColourBeforeSuffix(s, i, j)
    ensures BackgroundTokenEnd(s, i) == Some(j)
  {
    var t := s[i..j];
    assert Fold(s[j]) == Fold(BackgroundSuffix[0]);
    assert s[j] == ' ';
    assert forall k :: i <= k < j ==> s[k] == t[k - i];
    if t[0] == '#' {
      RunEndAt(s, i + 1, j, IsHexDigit);
    } else {
      RunEndAt(s, i, j, IsWordChar);
    }
  }

  /**
   * The colour read from the match `s[i..j]` + suffix: the match with the
   * literal " background" removed, which is the token alone when the suffix
   * is in lower case and the whole match when it is not.
   */
  ghost predicate ColourOfMatch(s: string, i: nat, j: nat) {
    var n := |BackgroundSuffix|;
    i <= j && j + n <= |s|
    && BackgroundColor(s) == Some(RemoveFirst(s[i..j + n], BackgroundSuffix))
    && (s[j..j + n] == BackgroundSuffix ==> BackgroundColor(s) == Some(s[i..j]))
    && (s[j..j + n] != BackgroundSuffix ==> BackgroundColor(s) == Some(s[i..j + n]))
  }

  lemma BackgroundColorOfMatch(s: string, i: nat, j: nat)
    requires FindBackground(s) == Some(i) && BackgroundTokenEnd(s, i) == Some(j)
    ensures ColourOfMatch(s, i, j)
  {
    BackgroundWindow(s, i, j);
    if s[j..j + |BackgroundSuffix|] == BackgroundSuffix {
      BackgroundColorOfLowerCase(s, i, j);
    } else {
      BackgroundColorOfOtherCase(s, i, j);
    }
  }

  // ---------------------------------------------------------------------------
  // Fondo: /fondo (#[a-fA-F0-9]{3,6})/i

  /** The `fondo` pattern matches at `i`; the result is where the captured hex code ends. */
  function FondoHexEnd(s: string, i: nat): (r: Option<nat>)
    ensures r.Some? ==> StartsWithCI(s, i, "fondo #") && i + 10 <= r.value <= |s| && r.value <= i + 13 && s[i + 6] == '#'
    ensures r.Some? ==> forall k :: i + 7 <= k < r.value ==> IsHexDigit(s[k])
    ensures r.Some? ==> r.value == i + 13 || r.value == |s| || !IsHexDigit(s[r.value])
    ensures StartsWithCI(s, i, "fondo #") && i + 10 <= |s| && (forall k :: i + 7 <= k < i + 10 ==> IsHexDigit(s[k]))
      ==> r.Some?
  {
    if StartsWithCI(s, i, "fondo #") then
      assert Fold(s[i + 6]) == Fold("fondo #"[6]);
      var run := RunEnd(s, i + 7, IsHexDigit) - (i + 7);
      if run >= 3 then Some(i + 7 + (if run <= 6 then run else 6)) else None
    else None
  }

  /** Where the leftmost `fondo` pattern starts. */
  function FindFondo(s: string): (r: Option<nat>)
    ensures r.Some? ==> FondoHexEnd(s, r.value).Some? && forall k: nat :: k < r.value ==> FondoHexEnd(s, k).None?
    ensures r.None? ==> forall k: nat :: FondoHexEnd(s, k).None?
  {
    var P := (i: nat) => FondoHexEnd(s, i).Some?;
    assert forall k: nat :: P(k) == FondoHexEnd(s, k).Some?;
    FirstFrom(0, |s|, P)
  }

  /** The `fondo` branch: the captured hex code, at most six digits of it; None is the null dereference. */
  function FondoColor(s: string): (r: Option<string>)
    ensures r.Some? ==> (4 <= |r.value| <= 7 && r.value[0] == '#'
      && (forall k :: 1 <= k < |r.value| ==> IsHexDigit(r.value[k])))
    ensures r.None? <==> forall k: nat :: FondoHexEnd(s, k).None?
    ensures r.Some? ==> exists i: nat :: (FondoHexEnd(s, i).Some? && (forall k: nat :: k < i ==> FondoHexEnd(s, k).None?)
      && r.value == s[i + 6..FondoHexEnd(s, i).value])
  {
    match FindFondo(s)
    case None => None
    case Some(i) => Some(s[i + 6..FondoHexEnd(s, i).value])
  }

  // ---------------------------------------------------------------------------
  // Location and size words: LOCATION_REGEX and SIZE_REGEX (both /i)

  /** LOCATION_REGEX's alternatives, in the order they are tried. */
  const LocationWords: seq<string> :=
    ["right", "left", "behind", "front", "above", "below", "atrás", "frente", "izquierda", "derecha", "arriba", "abajo"]

  /** SIZE_REGEX's alternatives, in the order they are tried. */
  const SizeWords: seq<string> := ["tiny", "small", "large", "huge", "diminuto", "pequeño", "grande", "enorme"]

  /** The first of `words[k..]` that occurs at `i` ignoring case, as the text of `s` it matched. */
  function WordAt(s: string, i: nat, words: seq<string>, k: nat): (r: Option<string>)
    decreases |words| - k
    ensures r.Some? ==> exists m :: k <= m < |words| && StartsWithCI(s, i, words[m]) && r.value == s[i..i + |words[m]|]
    ensures r.None? ==> forall m :: k <= m < |words| ==> !StartsWithCI(s, i, words[m])
  {
    if k >= |words| then None
    else if StartsWithCI(s, i, words[k]) then Some(s[i..i + |words[k]|])
    else WordAt(s, i, words, k + 1)
  }

  /** Where the leftmost occurrence of one of `words` starts. */
  function FindWordStart(s: string, words: seq<string>): (r: Option<nat>)
    ensures r.Some? ==> WordAt(s, r.value, words, 0).Some? && forall k: nat :: k < r.value ==> WordAt(s, k, words, 0).None?
    ensures r.None? ==> forall k: nat :: k < |s| ==> WordAt(s, k, words, 0).None?
  {
    var P := (i: nat) => WordAt(s, i, words, 0).Some?;
    assert forall k: nat :: P(k) == WordAt(s, k, words, 0).Some?;
    FirstFrom(0, |s|, P)
  }

  /** `str.match(regex)[0]` for an alternation of words. */
  function FindWord(s: string, words: seq<string>): Option<string> {
    match FindWordStart(s, words)
    case None => None
    case Some(i) => WordAt(s, i, words, 0)
  }

  /** `getPosition(str, width, height)`. */
  function GetPosition(s: string, width: real, height: real): (r: Vec3)
    ensures FindWord(s, LocationWords).None? ==> r == Vec3(-width / 2.0, EyeHeight - height / 2.0, -WallDistance)
  {
    AbsPos(FindWord(s, LocationWords).GetOr("front"), width, height)
  }

  /** `getRotation(str)`. */
  function GetRotation(s: string): (r: Vec3)
    ensures FindWord(s, LocationWords).None? ==> r == Vec3(0.0, 0.0, 0.0)
  {
    RotationOf(FindWord(s, LocationWords).GetOr("front"))
  }

  /** `getSize(str)`. */
  function GetSize(s: string): (r: Vec3)
    ensures r.x == r.y == r.z && 0.0 < r.x
    ensures FindWord(s, SizeWords).None? ==> r == Vec3(1.0, 1.0, 1.0)
  {
    AbsSize(FindWord(s, SizeWords).GetOr("normal"))
  }

  /** The word found is the leftmost occurrence of one of the alternatives, in the window's own case. */
  lemma FindWordSpec(s: string, words: seq<string>)
    ensures FindWord(s, words).Some? ==>
      exists i: nat, m :: (0 <= m < |words| && StartsWithCI(s, i, words[m])
        && FindWord(s, words).value == s[i..i + |words[m]|]
        && forall k: nat, n :: k < i && 0 <= n < |words| ==> !StartsWithCI(s, k, words[n]))
    ensures FindWord(s, words).None? <==> forall i: nat, m :: i < |s| && 0 <= m < |words| ==> !StartsWithCI(s, i, words[m])
  {
    var f := FindWordStart(s, words);
    if f.Some? {
      var i := f.value;
      forall k: nat, n | k < i && 0 <= n < |words| ensures !StartsWithCI(s, k, words[n]) {
        assert WordAt(s, k, words, 0).None?;
      }
    } else {
      forall i: nat, m | i < |s| && 0 <= m < |words| ensures !StartsWithCI(s, i, words[m]) {
        assert WordAt(s, i, words, 0).None?;
      }
    }
  }

  /**
   * With no location word in the window the anchor is the front wall and the
   * rotation is zero; the same holds when the word found is not written in
   * lower case, since the switches compare exactly.
   */
  lemma DefaultPlacement(s: string, w: real, h: real)
    requires FindWord(s, LocationWords).None? || FindWord(s, LocationWords).value !in LocationCases
    ensures GetPosition(s, w, h) == Vec3(-w / 2.0, EyeHeight - h / 2.0, -WallDistance)
    ensures GetRotation(s) == Vec3(0.0, 0.0, 0.0)
  {
    if FindWord(s, LocationWords).Some? {
      UnnamedLocationIsFront(FindWord(s, LocationWords).value, w, h);
    }
  }

  /** With no size word in the window, or one not in lower case, the scale is one. */
  lemma DefaultSize(s: string)
    requires FindWord(s, SizeWords).None? || FindWord(s, SizeWords).value !in SizeCases
    ensures GetSize(s) == Vec3(1.0, 1.0, 1.0)
  {
    if FindWord(s, SizeWords).Some? {
      UnnamedSizeIsUnit(FindWord(s, SizeWords).value);
    }
  }

  // ---------------------------------------------------------------------------
  // Quote: /".*"/

  /** Where the line containing position `j` ends: `.` stops at a line terminator. */
  function LineEnd(s: string, j: nat): (e: nat)
    requires j <= |s|
    ensures j <= e <= |s|
    ensures (forall k :: j <= k < |s| ==> !IsLineTerminator(s[k])) ==> e == |s|
  {
    var notTerminator := (c: char) => !IsLineTerminator(c);
    var e := RunEnd(s, j, notTerminator);
    assert (forall k :: j <= k < |s| ==> !IsLineTerminator(s[k])) ==> e == |s| by {
      if forall k :: j <= k < |s| ==> !IsLineTerminator(s[k]) {
        RunEndAt(s, j, |s|, notTerminator);
      }
    }
    e
  }

  /** `".*"` matches at `i`; the result is the position of its closing quote, the last one reachable. */
  function QuoteCloseAt(s: string, i: nat): (r: Option<nat>)
    ensures r.Some? ==> i < r.value < |s| && s[i] == '"' && s[r.value] == '"'
  {
    if i < |s| && s[i] == '"' then LastIndexOf(s, '"', i + 1, LineEnd(s, i + 1)) else None
  }

  /** Where the leftmost quoted stretch starts. */
  function FindQuote(s: string): (r: Option<nat>)
    ensures r.Some? ==> QuoteCloseAt(s, r.value).Some? && forall k: nat :: k < r.value ==> QuoteCloseAt(s, k).None?
    ensures r.None? ==> forall k: nat :: QuoteCloseAt(s, k).None?
  {
    var P := (i: nat) => QuoteCloseAt(s, i).Some?;
    assert forall k: nat :: P(k) == QuoteCloseAt(s, k).Some?;
    FirstFrom(0, |s|, P)
  }

  /** `getQuote(str)`: the first greedy quoted stretch with every `"` removed, or undefined. */
  function GetQuote(s: string): (r: Option<string>)
    ensures r.Some? ==> '"' !in r.value
    ensures r.None? <==> forall k: nat :: QuoteCloseAt(s, k).None?
  {
    match FindQuote(s)
    case None => None
    case Some(i) => Some(RemoveAll(s[i..QuoteCloseAt(s, i).value + 1], '"'))
  }

  /** Two quotes on one line, with what lies between them. */
  predicate QuotedSpan(s: string, a: nat, b: nat) {
    a < b < |s| && s[a] == '"' && s[b] == '"'
  }

  /** On a window without line terminators a quote at `i` closes at the last quote after it, if any. */
  lemma QuoteCloseOnOneLine(s: string, i: nat)
    requires forall k :: 0 <= k < |s| ==> !IsLineTerminator(s[k])
    requires i < |s| && s[i] == '"'
    ensures QuoteCloseAt(s, i).Some? <==> exists b :: i < b < |s| && s[b] == '"'
    ensures QuoteCloseAt(s, i).Some? ==> forall k :: QuoteCloseAt(s, i).value < k < |s| ==> s[k] != '"'
  {
    assert LineEnd(s, i + 1) == |s|;
  }

  /**
   * On a window without line terminators the caption is everything from the
   * first `"` to the last `"`, with the quotes removed; there is one exactly
   * when the window holds at least two `"`.
   */
  lemma QuoteSpan(s: string)
    requires forall k :: 0 <= k < |s| ==> !IsLineTerminator(s[k])
    ensures GetQuote(s).Some? <==> exists a: nat, b: nat :: QuotedSpan(s, a, b)
    ensures GetQuote(s).Some? ==>
      exists a: nat, b: nat :: (QuotedSpan(s, a, b)
        && (forall k :: 0 <= k < a ==> s[k] != '"') && (forall k :: b < k < |s| ==> s[k] != '"')
        && GetQuote(s).value == RemoveAll(s[a..b + 1], '"'))
  {
    if exists a: nat, b: nat :: QuotedSpan(s, a, b) {
      var a: nat, b: nat :| QuotedSpan(s, a, b);
      QuoteCloseOnOneLine(s, a);
      assert QuoteCloseAt(s, a).Some?;
    }
    if FindQuote(s).Some? {
      var a := FindQuote(s).value;
      var b := QuoteCloseAt(s, a).value;
      QuoteCloseOnOneLine(s, a);
      forall k | 0 <= k < a ensures s[k] != '"' {
        if s[k] == '"' {
          QuoteCloseOnOneLine(s, k);
        }
      }
      assert QuotedSpan(s, a, b);
    }
  }

  // ---------------------------------------------------------------------------
  // URL: /https?:\/\/…/g, simplified to a scheme and a maximal run of URL characters

  /** The characters of the path part `[-a-zA-Z0-9@:%_\+.~#?&//=]`, a superset of the host part. */
  predicate IsUrlChar(c: char) {
    IsDigit(c) || 'a' <= c <= 'z' || 'A' <= c <= 'Z'
    || c == '-' || c == '@' || c == ':' || c == '%' || c == '_' || c == '+' || c == '.'
    || c == '~' || c == '#' || c == '?' || c == '&' || c == '/' || c == '='
  }

  /** Length of the scheme `https?://` at `i`, or 0. */
  function SchemeLength(s: string, i: nat): nat {
    if StartsWithAt(s, i, "https://") then 8 else if StartsWithAt(s, i, "http://") then 7 else 0
  }

  /** A URL starts at `i`; the result is where it ends. */
  function UrlEndAt(s: string, i: nat): (r: Option<nat>)
    ensures r.Some? ==> i < r.value <= |s|
  {
    var scheme := SchemeLength(s, i);
    if scheme == 0 then None
    else
      var j := RunEnd(s, i + scheme, IsUrlChar);
      if j > i + scheme then Some(j) else None
  }

  /** Where the leftmost URL at or after `from` starts. */
  function FindUrl(s: string, from: nat): (r: Option<nat>)
    ensures r.Some? ==> (from <= r.value && UrlEndAt(s, r.value).Some?
      && forall k: nat :: from <= k < r.value ==> UrlEndAt(s, k).None?)
    ensures r.None? ==> forall k: nat :: from <= k ==> UrlEndAt(s, k).None?
  {
    var P := (i: nat) => UrlEndAt(s, i).Some?;
    assert forall k: nat :: P(k) == UrlEndAt(s, k).Some?;
    FirstFrom(from, |s|, P)
  }

  /** A URL as matched: the scheme, then only URL characters, and not followed by another one. */
  predicate IsUrlIn(s: string, i: nat, u: string) {
    SchemeLength(s, i) > 0 && i + |u| <= |s| && u == s[i..i + |u|] && |u| > SchemeLength(s, i)
    && (forall k :: SchemeLength(s, i) <= k < |u| ==> IsUrlChar(u[k]))
    && (i + |u| < |s| ==> !IsUrlChar(s[i + |u|]))
  }

  /** `str.match(URL_REGEX)` with the `g` flag: every match, left to right, each search from the previous end. */
  function UrlMatches(s: string, from: nat): (ms: seq<string>)
    requires from <= |s|
    decreases |s| - from
  {
    match FindUrl(s, from)
    case None => []
    case Some(i) =>
      var j := UrlEndAt(s, i).value;
      [s[i..j]] + UrlMatches(s, j)
  }

  /** The first of `ms` that ends with `suffix`. */
  function FirstEndingWith(ms: seq<string>, suffix: string): Option<string>
  {
    if |ms| == 0 then None
    else if EndsWith(ms[0], suffix) then Some(ms[0])
    else FirstEndingWith(ms[1..], suffix)
  }

  /** `FirstEndingWith` picks the earliest element that passes the suffix test. */
  lemma {:induction false} FirstEndingWithSpec(ms: seq<string>, suffix: string)
    ensures var r := FirstEndingWith(ms, suffix);
      r.Some? ==> exists k :: (0 <= k < |ms| && ms[k] == r.value && EndsWith(ms[k], suffix)
        && forall m :: 0 <= m < k ==> !EndsWith(ms[m], suffix))
    ensures FirstEndingWith(ms, suffix).None? <==> forall k :: 0 <= k < |ms| ==> !EndsWith(ms[k], suffix)
  {
    if |ms| > 0 && !EndsWith(ms[0], suffix) {
      var rest := ms[1..];
      FirstEndingWithSpec(rest, suffix);
      assert forall k :: 1 <= k < |ms| ==> ms[k] == rest[k - 1];
      var r := FirstEndingWith(rest, suffix);
      if r.Some? {
        var k :| 0 <= k < |rest| && rest[k] == r.value && EndsWith(rest[k], suffix)
          && forall m :: 0 <= m < k ==> !EndsWith(rest[m], suffix);
        assert ms[k + 1] == r.value;
        assert forall m :: 0 <= m < k + 1 ==> !EndsWith(ms[m], suffix);
      }
    }
  }

  /** `getUrl(str, validate)`, with the validating regex `/\.ext$/` given as its suffix. */
  function GetUrl(s: string, suffix: Option<string>): (r: Option<string>)
    ensures r.Some? ==> r.value in UrlMatches(s, 0)
    ensures r.Some? && suffix.Some? ==> EndsWith(r.value, suffix.value)
    ensures suffix.None? ==> (r.Some? <==> |UrlMatches(s, 0)| > 0)
  {
    var ms := UrlMatches(s, 0);
    if |ms| == 0 then None
    else if suffix.None? then Some(ms[0])
    else
      FirstEndingWithSpec(ms, suffix.value);
      FirstEndingWith(ms, suffix.value)
  }

  /** Every element of `ms` is a URL of `s` starting at or after `from`. */
  ghost predicate UrlsFrom(s: string, from: nat, ms: seq<string>) {
    forall k :: 0 <= k < |ms| ==> UrlAtOrAfter(s, from, ms[k])
  }

  /** `u` is a URL of `s` starting at or after `from`. */
  ghost predicate UrlAtOrAfter(s: string, from: nat, u: string) {
    exists i: nat :: from <= i && IsUrlIn(s, i, u)
  }

  /** What `UrlEndAt` delimits is a URL. */
  lemma UrlEndAtIsUrl(s: string, i: nat)
    requires UrlEndAt(s, i).Some?
    ensures IsUrlIn(s, i, s[i..UrlEndAt(s, i).value])
  {
    var scheme := SchemeLength(s, i);
    var j := UrlEndAt(s, i).value;
    assert j == RunEnd(s, i + scheme, IsUrlChar);
    var u := s[i..j];
    assert forall k :: i + scheme <= k < j ==> IsUrlChar(s[k]);
    forall k | scheme <= k < |u| ensures IsUrlChar(u[k]) {
      assert u[k] == s[i + k];
    }
  }

  lemma UrlsFromCons(s: string, from: nat, i: nat, j: nat, u: string, rest: seq<string>)
    requires from <= i <= j && IsUrlIn(s, i, u) && UrlsFrom(s, j, rest)
    ensures UrlsFrom(s, from, [u] + rest)
  {
    var ms := [u] + rest;
    forall k | 0 <= k < |ms| ensures UrlAtOrAfter(s, from, ms[k]) {
      if k == 0 {
        assert ms[0] == u && IsUrlIn(s, i, ms[0]);
      } else {
        assert ms[k] == rest[k - 1];
        assert UrlAtOrAfter(s, j, rest[k - 1]);
      }
    }
  }

  /** Every URL match is one: starting at a scheme, made of URL characters, as long as possible. */
  lemma {:induction false} UrlMatchesAreUrls(s: string, from: nat)
    requires from <= |s|
    ensures UrlsFrom(s, from, UrlMatches(s, from))
    decreases |s| - from
  {
    match FindUrl(s, from)
    case None =>
    case Some(i) =>
      var j := UrlEndAt(s, i).value;
      UrlMatchesAreUrls(s, j);
      UrlEndAtIsUrl(s, i);
      UrlsFromCons(s, from, i, j, s[i..j], UrlMatches(s, j));
  }

  /**
   * The match list is empty exactly when no URL starts at or after `from`, and
   * its first element is the URL at the leftmost position where one starts.
   */
  lemma UrlMatchesFirst(s: string, from: nat)
    requires from <= |s|
    ensures |UrlMatches(s, from)| > 0 <==> exists i: nat :: from <= i && UrlEndAt(s, i).Some?
    ensures |UrlMatches(s, from)| > 0 <==> exists i: nat, u :: from <= i && IsUrlIn(s, i, u)
    ensures |UrlMatches(s, from)| > 0 ==> exists i: nat :: (from <= i && UrlEndAt(s, i).Some?
      && (forall k: nat :: from <= k < i ==> UrlEndAt(s, k).None?)
      && UrlMatches(s, from)[0] == s[i..UrlEndAt(s, i).value])
    ensures |UrlMatches(s, from)| > 0 ==> exists i: nat :: (from <= i && IsUrlIn(s, i, UrlMatches(s, from)[0])
      && NoUrlIn(s, from, i))
  {
    match FindUrl(s, from)
    case None =>
      NoUrlWhereNoneEnds(s, from, |s|);
    case Some(i) =>
      assert UrlMatches(s, from)[0] == s[i..UrlEndAt(s, i).value];
      UrlEndAtIsUrl(s, i);
      NoUrlWhereNoneEnds(s, from, i);
  }

  /** No URL starts in `[lo, hi)`. */
  ghost predicate NoUrlIn(s: string, lo: nat, hi: nat) {
    forall m: nat, u :: lo <= m < hi ==> !IsUrlIn(s, m, u)
  }

  /** Wherever a URL starts, `UrlEndAt` finds all of it. */
  lemma UrlEndAtComplete(s: string, i: nat, u: string)
    requires IsUrlIn(s, i, u)
    ensures UrlEndAt(s, i) == Some(i + |u|)
  {
    var scheme := SchemeLength(s, i);
    forall k | i + scheme <= k < i + |u| ensures IsUrlChar(s[k]) {
      assert s[k] == u[k - i];
    }
    RunEndAt(s, i + scheme, i + |u|, IsUrlChar);
  }

  /** Where `UrlEndAt` finds nothing, no URL starts. */
  lemma NoUrlWhereNoneEnds(s: string, lo: nat, hi: nat)
    requires forall k: nat :: lo <= k < hi ==> UrlEndAt(s, k).None?
    ensures NoUrlIn(s, lo, hi)
  {
    forall m: nat, u | lo <= m < hi ensures !IsUrlIn(s, m, u) {
      if IsUrlIn(s, m, u) {
        UrlEndAtComplete(s, m, u);
      }
    }
  }

  /** Where a match lies in the window: it starts at `start` and ends before `end`. */
  datatype Span = Span(start: nat, end: nat)

  /** The spans of the matches `UrlMatches(s, from)` lists, found the same way. */
  function UrlSpans(s: string, from: nat): (sp: seq<Span>)
    requires from <= |s|
    decreases |s| - from
  {
    match FindUrl(s, from)
    case None => []
    case Some(i) =>
      var j := UrlEndAt(s, i).value;
      [Span(i, j)] + UrlSpans(s, j)
  }

  /** Where the search for match `k` began: `from` for the first, the end of match `k - 1` after it. */
  function SearchStart(from: nat, sp: seq<Span>, k: nat): nat
    requires k <= |sp|
  {
    if k == 0 then from else sp[k - 1].end
  }

  /**
   * The matches `ms` lie at `sp` in text order: each is a URL starting at its
   * span, no URL starts between the previous match's end and its start, and
   * none after the last match.
   */
  ghost predicate MatchedInOrder(s: string, from: nat, sp: seq<Span>, ms: seq<string>) {
    |sp| == |ms| && SpansHoldUrls(s, sp, ms) && SpansLeftmost(s, from, sp)
    && NoUrlIn(s, SearchStart(from, sp, |sp|), |s|)
  }

  /** Match `k` is a URL starting at `sp[k].start` and ending at `sp[k].end`. */
  ghost predicate SpansHoldUrls(s: string, sp: seq<Span>, ms: seq<string>)
    requires |sp| == |ms|
  {
    forall k :: 0 <= k < |sp| ==> IsUrlIn(s, sp[k].start, ms[k]) && sp[k].end == sp[k].start + |ms[k]|
  }

  /** Each span starts at the leftmost URL at or after where its search began. */
  ghost predicate SpansLeftmost(s: string, from: nat, sp: seq<Span>) {
    forall k :: 0 <= k < |sp| ==> SearchStart(from, sp, k) <= sp[k].start && NoUrlIn(s, SearchStart(from, sp, k), sp[k].start)
  }

  /**
   * `match(…/g)` lists the URLs in text order: match `k + 1` is the leftmost
   * URL at or after the end of match `k`, and no URL is left out.
   */
  lemma {:induction false} UrlMatchesInOrder(s: string, from: nat)
    requires from <= |s|
    ensures MatchedInOrder(s, from, UrlSpans(s, from), UrlMatches(s, from))
    decreases |s| - from
  {
    match FindUrl(s, from)
    case None =>
      NoUrlWhereNoneEnds(s, from, |s|);
    case Some(i) =>
      var j := UrlEndAt(s, i).value;
      UrlMatchesInOrder(s, j);
      UrlEndAtIsUrl(s, i);
      NoUrlWhereNoneEnds(s, from, i);
      MatchedInOrderCons(s, from, i, j, UrlSpans(s, j), UrlMatches(s, j));
  }

  lemma MatchedInOrderCons(s: string, from: nat, i: nat, j: nat, sp: seq<Span>, ms: seq<string>)
    requires i <= j <= |s| && from <= i && IsUrlIn(s, i, s[i..j]) && NoUrlIn(s, from, i)
    requires MatchedInOrder(s, j, sp, ms)
    ensures MatchedInOrder(s, from, [Span(i, j)] + sp, [s[i..j]] + ms)
  {
    SpansHoldUrlsCons(s, i, j, sp, ms);
    SpansLeftmostCons(s, from, i, j, sp);
    assert SearchStart(from, [Span(i, j)] + sp, |sp| + 1) == SearchStart(j, sp, |sp|);
  }

  lemma SpansHoldUrlsCons(s: string, i: nat, j: nat, sp: seq<Span>, ms: seq<string>)
    requires i <= j <= |s| && IsUrlIn(s, i, s[i..j])
    requires |sp| == |ms| && SpansHoldUrls(s, sp, ms)
    ensures SpansHoldUrls(s, [Span(i, j)] + sp, [s[i..j]] + ms)
  {
    var sp' := [Span(i, j)] + sp;
    var ms' := [s[i..j]] + ms;
    forall k | 0 <= k < |sp'|
      ensures IsUrlIn(s, sp'[k].start, ms'[k]) && sp'[k].end == sp'[k].start + |ms'[k]|
    {
      if k > 0 {
        assert sp'[k] == sp[k - 1] && ms'[k] == ms[k - 1];
      }
    }
  }

  lemma SpansLeftmostCons(s: string, from: nat, i: nat, j: nat, sp: seq<Span>)
    requires from <= i && NoUrlIn(s, from, i)
    requires SpansLeftmost(s, j, sp)
    ensures SpansLeftmost(s, from, [Span(i, j)] + sp)
  {
    var sp' := [Span(i, j)] + sp;
    forall k | 0 <= k < |sp'|
      ensures SearchStart(from, sp', k) <= sp'[k].start && NoUrlIn(s, SearchStart(from, sp', k), sp'[k].start)
    {
      if k > 0 {
        assert sp'[k] == sp[k - 1] && SearchStart(from, sp', k) == SearchStart(j, sp, k - 1);
      }
    }
  }

  /**
   * `getUrl` gives the first match that passes the suffix test, and undefined
   * exactly when none passes (or there is no match at all).
   */
  lemma GetUrlSpec(s: string, suffix: string)
    ensures var ms := UrlMatches(s, 0);
      (GetUrl(s, None).Some? <==> |ms| > 0) && (|ms| > 0 ==> GetUrl(s, None).value == ms[0])
    ensures var ms := UrlMatches(s, 0);
      (GetUrl(s, Some(suffix)).None? <==> forall k :: 0 <= k < |ms| ==> !EndsWith(ms[k], suffix))
    ensures var ms := UrlMatches(s, 0); var r := GetUrl(s, Some(suffix));
      r.Some? ==> exists k :: (0 <= k < |ms| && ms[k] == r.value
          && EndsWith(ms[k], suffix) && forall m :: 0 <= m < k ==> !EndsWith(ms[m], suffix))
  {
    FirstEndingWithSpec(UrlMatches(s, 0), suffix);
  }

  // ---------------------------------------------------------------------------
  // The source of a 3-D model

  /** `mtl`: null when no `.obj` was found, otherwise `getUrl(str, /\.mtl$/)`, possibly undefined. */
  datatype MtlRef = NullMtl | UndefinedMtl | MtlUrl(url: string)

  datatype ModelSource = ModelSource(src: Option<string>, mtl: MtlRef, extension: Option<string>)

  /** The `model` branch's choice of file, material file and extension. */
  function GetModelSource(s: string): (m: ModelSource)
    ensures m.src.Some? ==> m.src.value in UrlMatches(s, 0)
    ensures m.src.None? <==> m.extension.None?
    ensures m.mtl.MtlUrl? ==> EndsWith(m.mtl.url, ".mtl") && m.extension == Some("obj")
  {
    var obj := GetUrl(s, Some(".obj"));
    if obj.Some? then
      var mtl := GetUrl(s, Some(".mtl"));
      ModelSource(obj, if mtl.Some? then MtlUrl(mtl.value) else UndefinedMtl, Some("obj"))
    else
      var url := GetUrl(s, None);
      ModelSource(url, NullMtl, if url.Some? then Some(LastPiece(url.value, '.')) else None)
  }

  /**
   * A `.obj` URL wins over every other: it is the first `.obj` match, its
   * extension is "obj", and the material is the first `.mtl` match. Otherwise
   * the first URL is taken, its extension is what follows its last dot, and the
   * material stays null; with no URL there is no extension.
   */
  lemma ModelSourceSpec(s: string)
    ensures var m := GetModelSource(s); var ms := UrlMatches(s, 0);
      (exists k :: 0 <= k < |ms| && EndsWith(ms[k], ".obj")) ==>
        m.src == FirstEndingWith(ms, ".obj") && m.src.Some? && m.extension == Some("obj")
        && m.mtl == (if FirstEndingWith(ms, ".mtl").Some? then MtlUrl(FirstEndingWith(ms, ".mtl").value) else UndefinedMtl)
    ensures var m := GetModelSource(s); var ms := UrlMatches(s, 0);
      (forall k :: 0 <= k < |ms| ==> !EndsWith(ms[k], ".obj")) ==>
        m.mtl == NullMtl && (|ms| == 0 ==> m.src.None? && m.extension.None?)
        && (|ms| > 0 ==> m.src == Some(ms[0]) && m.extension == Some(LastPiece(ms[0], '.')))
  {
    var ms := UrlMatches(s, 0);
    FirstEndingWithSpec(ms, ".obj");
    FirstEndingWithSpec(ms, ".mtl");
  }

  /**
   * Without a `.obj` URL the extension is the text after the last dot of the
   * first URL (`glb` of `…/model.glb`), or the whole URL when it has no dot.
   */
  lemma ModelExtensionIsLastPiece(s: string)
    ensures var ms := UrlMatches(s, 0); var m := GetModelSource(s);
      (|ms| > 0 && forall k :: 0 <= k < |ms| ==> !EndsWith(ms[k], ".obj")) ==>
        m.extension.Some? && IsDotSuffix(ms[0], m.extension.value)
  {
    var ms := UrlMatches(s, 0);
    if |ms| > 0 && forall k :: 0 <= k < |ms| ==> !EndsWith(ms[k], ".obj") {
      ModelSourceSpec(s);
      LastPieceIsDotSuffix(ms[0]);
    }
  }

  /**
   * `ext` is what follows the last dot of `u`: it holds no dot, ends `u`, and
   * is preceded by a dot, or is all of `u` when `u` has no dot.
   */
  ghost predicate IsDotSuffix(u: string, ext: string) {
    '.' !in ext && EndsWith(u, ext)
    && ('.' in u ==> |ext| < |u| && u[|u| - |ext| - 1] == '.')
    && ('.' !in u ==> ext == u)
  }

  lemma LastPieceIsDotSuffix(u: string)
    ensures IsDotSuffix(u, LastPiece(u, '.'))
  {
    LastPieceAfterDot(u, '.');
  }
}
