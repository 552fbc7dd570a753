/**
 * The entity scanner of `getObjects`: the module-level `ENTITIES_REGEX`
 * (global and case-insensitive) run with `exec` until it finds nothing more.
 * A match is a leading delimiter (or the start of the paragraph), one of the
 * keywords, then a trailing delimiter (or the end of the paragraph), which the
 * match consumes.
 */
module Scanner {
  import opened Wrappers
  import opened Text

  /** A list of keyword alternatives, in the order they are tried. */
  type Keywords = seq<string>

  /** The keyword alternatives of `ENTITIES_REGEX`, in the order they are tried. */
  const EntityKeywords: Keywords :=
    ["audio", "sound", "🔊", "panorama", "🌅", "image", "foto", "picture", "text", "texto", "📝",
     "videosphere", "video esfera", "🎥", "video", "seconds", "second", "segundos", "⏲",
     "voiceover", "voz en off", "📢", "chart", "gráfico", "📊", "background", "fondo", "model", "modelo"]

  /** `\s|;|\.|,|:`, the characters that may surround a keyword. */
  predicate IsDelimiter(c: char) {
    IsSpace(c) || c == ';' || c == '.' || c == ',' || c == ':'
  }

  /** The trailing group `(\s|$|;|\.|,|:)` can match at `j`. */
  predicate TrailOk(p: string, j: nat) {
    j == |p| || (j < |p| && IsDelimiter(p[j]))
  }

  /** Keyword number `m` matches at `at`, ignoring case, and is followed by the trailing group. */
  predicate KeywordFits(kws: Keywords, p: string, at: nat, m: nat)
    requires m < |kws|
  {
    StartsWithCI(p, at, kws[m]) && TrailOk(p, at + |kws[m]|)
  }

  /** The first keyword alternative from number `k` on that fits at `at`: the backtracking order of the alternation. */
  function KeywordFrom(kws: Keywords, p: string, at: nat, k: nat): (r: Option<nat>)
    decreases |kws| - k
    ensures r.Some? ==> k <= r.value < |kws| && KeywordFits(kws, p, at, r.value)
  {
    if k >= |kws| then None
    else if KeywordFits(kws, p, at, k) then Some(k)
    else KeywordFrom(kws, p, at, k + 1)
  }

  /** `KeywordFrom` skips only alternatives that do not fit: it finds the first that does, or none when none does. */
  lemma {:induction false} KeywordFromSpec(kws: Keywords, p: string, at: nat, k: nat)
    decreases |kws| - k
    ensures var r := KeywordFrom(kws, p, at, k);
      r.Some? ==> forall m :: k <= m < r.value ==> !KeywordFits(kws, p, at, m)
    ensures var r := KeywordFrom(kws, p, at, k);
      r.None? ==> forall m :: k <= m < |kws| ==> !KeywordFits(kws, p, at, m)
  {
    if k < |kws| && !KeywordFits(kws, p, at, k) {
      KeywordFromSpec(kws, p, at, k + 1);
    }
  }

  /**
   * One match of `ENTITIES_REGEX`: it begins at `index`, its keyword text (as
   * written in the paragraph) begins at `start`, and it ends at `end`, where
   * the next search resumes.
   */
  datatype Match = Match(index: nat, start: nat, kind: string, end: nat)

  /** The match built from keyword number `m` found at `start`, for a search that began at `index`. */
  function MatchOf(kws: Keywords, p: string, index: nat, start: nat, m: nat): (r: Match)
    requires m < |kws| && KeywordFits(kws, p, start, m)
    ensures r.index == index && r.start == start && start + |r.kind| <= r.end <= |p|
    ensures r.kind == p[start..start + |kws[m]|]
    ensures r.end == if start + |r.kind| < |p| then start + |r.kind| + 1 else |p|
  {
    var kwEnd := start + |kws[m]|;
    Match(index, start, p[start..kwEnd], if kwEnd < |p| then kwEnd + 1 else |p|)
  }

  /**
   * `ENTITIES_REGEX` matches at `i`. At the start of the paragraph `^` is tried
   * before a leading delimiter; elsewhere the match needs a delimiter at `i`.
   */
  function MatchAt(kws: Keywords, p: string, i: nat): (r: Option<Match>)
    ensures r.Some? ==> r.value.index == i && r.value.end <= |p|
    ensures r.Some? && i < |p| ==> i < r.value.end
  {
    var atStart := if i == 0 then KeywordFrom(kws, p, 0, 0) else None;
    if atStart.Some? then
      Some(MatchOf(kws, p, i, i, atStart.value))
    else if i < |p| && IsDelimiter(p[i]) then
      var afterDelimiter := KeywordFrom(kws, p, i + 1, 0);
      if afterDelimiter.Some? then Some(MatchOf(kws, p, i, i + 1, afterDelimiter.value)) else None
    else None
  }

  /** `kind` is the text at `start` of some keyword alternative that fits there. */
  predicate IsKeywordAt(kws: Keywords, p: string, start: nat, kind: string) {
    exists m :: 0 <= m < |kws| && KeywordFits(kws, p, start, m) && kind == p[start..start + |kws[m]|]
  }

  /** One `exec` from `lastIndex == from`: the leftmost match that begins at or after `from`. */
  function Exec(kws: Keywords, p: string, from: nat): (r: Option<Match>)
    decreases |p| - from
    ensures r.Some? ==> from <= r.value.index < r.value.end <= |p|
  {
    if from >= |p| then None
    else if MatchAt(kws, p, from).Some? then MatchAt(kws, p, from)
    else Exec(kws, p, from + 1)
  }

  /** `exec` returns the leftmost position at or after `from` where the pattern matches, or null when there is none. */
  lemma {:induction false} ExecSpec(kws: Keywords, p: string, from: nat)
    decreases |p| - from
    ensures var r := Exec(kws, p, from);
      r.Some? ==> from <= r.value.index && MatchAt(kws, p, r.value.index) == r
    ensures var r := Exec(kws, p, from);
      r.Some? ==> forall k: nat :: from <= k < r.value.index ==> MatchAt(kws, p, k).None?
    ensures Exec(kws, p, from).None? ==> forall k: nat :: from <= k < |p| ==> MatchAt(kws, p, k).None?
  {
    if from < |p| {
      var here := MatchAt(kws, p, from);
      if here.Some? {
        assert Exec(kws, p, from) == here;
      } else {
        ExecSpec(kws, p, from + 1);
        assert Exec(kws, p, from) == Exec(kws, p, from + 1);
      }
    }
  }

  /** `{ type, index }`, one recorded entity. */
  datatype Token = Token(kind: string, index: nat)

  /** The matches `exec` returns from `lastIndex == from` on, until it finds nothing. */
  function MatchesFrom(kws: Keywords, p: string, from: nat): seq<Match>
    requires from <= |p|
    decreases |p| - from
  {
    match Exec(kws, p, from)
    case None => []
    case Some(m) => [m] + MatchesFrom(kws, p, m.end)
  }

  /** The entity recorded for each match. */
  function TokensOf(ms: seq<Match>): (ts: seq<Token>)
    ensures |ts| == |ms|
    ensures forall a :: 0 <= a < |ms| ==> ts[a] == Token(ms[a].kind, ms[a].index)
  {
    if |ms| == 0 then [] else [Token(ms[0].kind, ms[0].index)] + TokensOf(ms[1..])
  }

  /** The entities of paragraph `p`, in the order they are found. */
  function Tokens(p: string): seq<Token> {
    TokensOf(MatchesFrom(EntityKeywords, p, 0))
  }

  /**
   * The scanning loop of `getObjects`: `exec` from the last index, recording
   * each match's keyword and index, until it returns null.
   */
  method ScanEntities(kws: Keywords, p: string) returns (entities: seq<Token>)
    ensures entities == TokensOf(MatchesFrom(kws, p, 0))
  {
    entities := [];
    var lastIndex: nat := 0;
    ghost var rest := MatchesFrom(kws, p, 0);
    while true
      invariant lastIndex <= |p|
      invariant rest == MatchesFrom(kws, p, lastIndex)
      invariant TokensOf(MatchesFrom(kws, p, 0)) == entities + TokensOf(rest)
      decreases |p| - lastIndex
    {
      var m := Exec(kws, p, lastIndex);
      MatchesFromStep(kws, p, lastIndex);
      if m.None? {
        break;
      }
      ghost var next := MatchesFrom(kws, p, m.value.end);
      TokensOfCons(m.value, next, entities);
      entities := entities + [Token(m.value.kind, m.value.index)];
      rest := next;
      lastIndex := m.value.end;
    }
  }

  lemma TokensOfCons(m: Match, ms: seq<Match>, before: seq<Token>)
    ensures before + TokensOf([m] + ms) == (before + [Token(m.kind, m.index)]) + TokensOf(ms)
  {
    assert ([m] + ms)[1..] == ms;
  }

  /** One `exec` either ends the scan or contributes the next match and moves `lastIndex` past it. */
  lemma MatchesFromStep(kws: Keywords, p: string, from: nat)
    requires from <= |p|
    ensures Exec(kws, p, from).None? ==> MatchesFrom(kws, p, from) == []
    ensures Exec(kws, p, from).Some? ==> var m := Exec(kws, p, from).value;
      from < m.end <= |p| && MatchesFrom(kws, p, from) == [m] + MatchesFrom(kws, p, m.end)
  {
  }

  /**
   * The matches found from `from` on: each is the scanner's match at its own
   * index, at or after `from`, and each begins no earlier than where the one
   * before it ended.
   */
  ghost predicate ScanOrder(kws: Keywords, p: string, from: nat, ms: seq<Match>) {
    (forall a :: 0 <= a < |ms| ==> from <= ms[a].index && MatchAt(kws, p, ms[a].index) == Some(ms[a]))
    && (forall a, b :: 0 <= a < b < |ms| ==> ms[a].end <= ms[b].index)
  }

  lemma {:induction false} MatchesFromOrdered(kws: Keywords, p: string, from: nat)
    requires from <= |p|
    ensures ScanOrder(kws, p, from, MatchesFrom(kws, p, from))
    decreases |p| - from
  {
    MatchesFromStep(kws, p, from);
    ExecSpec(kws, p, from);
    var r := Exec(kws, p, from);
    if r.Some? {
      MatchesFromOrdered(kws, p, r.value.end);
      ScanOrderCons(kws, p, from, r.value, MatchesFrom(kws, p, r.value.end));
    }
  }

  lemma ScanOrderCons(kws: Keywords, p: string, from: nat, m: Match, rest: seq<Match>)
    requires from <= m.index < m.end && MatchAt(kws, p, m.index) == Some(m)
    requires ScanOrder(kws, p, m.end, rest)
    ensures ScanOrder(kws, p, from, [m] + rest)
  {
    var ms := [m] + rest;
    assert forall a :: 1 <= a < |ms| ==> ms[a] == rest[a - 1];
  }

  /**
   * The entities come with strictly increasing indices, each at a real match
   * of the scanner whose index is its leading delimiter, or 0 where the match
   * is at the start of the paragraph; and the keyword of a later entity never
   * begins where an earlier match ended, so a keyword whose only leading
   * delimiter was consumed as the trailing one of the match before is missed.
   */
  lemma TokensIncreasing(kws: Keywords, p: string)
    ensures var ms := MatchesFrom(kws, p, 0); var ts := TokensOf(ms);
      forall a :: 0 <= a < |ts| ==> (ts[a].index < |p| && MatchAt(kws, p, ts[a].index) == Some(ms[a])
        && ms[a].kind == ts[a].kind
        && ((ms[a].start == ts[a].index == 0) || (ms[a].start == ts[a].index + 1 && IsDelimiter(p[ts[a].index]))))
    ensures var ts := TokensOf(MatchesFrom(kws, p, 0));
      forall a, b :: 0 <= a < b < |ts| ==> ts[a].index < ts[b].index
    ensures var ms := MatchesFrom(kws, p, 0);
      forall a, b :: 0 <= a < b < |ms| ==> ms[a].end < ms[b].start
  {
    var ms := MatchesFrom(kws, p, 0);
    MatchesFromOrdered(kws, p, 0);
    forall a | 0 <= a < |ms|
      ensures (ms[a].start == ms[a].index == 0) || (ms[a].start == ms[a].index + 1 && IsDelimiter(p[ms[a].index]))
      ensures ms[a].index < ms[a].end
    {
      assert MatchAt(kws, p, ms[a].index) == Some(ms[a]);
      MatchFound(kws, p, ms[a].index);
    }
  }

  /** A match's keyword is the text at its start, after at most one delimiter, and is consumed with it. */
  predicate WellPlaced(p: string, m: Match) {
    m.index <= m.start <= m.index + 1 && m.start + |m.kind| <= m.end <= |p|
    && p[m.start..m.start + |m.kind|] == m.kind
  }

  /**
   * A match begins at the start of the paragraph or at a delimiter, its keyword
   * text follows at once and is an alternative that fits there, and the match
   * consumes it. There is no match exactly when no alternative fits at the
   * start of the paragraph and none fits after a delimiter at `i`.
   */
  lemma MatchAtSpec(kws: Keywords, p: string, i: nat)
    ensures MatchAt(kws, p, i).Some? ==> var m := MatchAt(kws, p, i).value;
      (m.start == i && i == 0) || (m.start == i + 1 && IsDelimiter(p[i]))
    ensures MatchAt(kws, p, i).Some? ==> var m := MatchAt(kws, p, i).value;
      IsKeywordAt(kws, p, m.start, m.kind) && WellPlaced(p, m)
    ensures MatchAt(kws, p, i).None? ==> NoKeywordFits(kws, p, i)
  {
    if MatchAt(kws, p, i).Some? {
      MatchFound(kws, p, i);
    } else {
      KeywordFromSpec(kws, p, 0, 0);
      KeywordFromSpec(kws, p, i + 1, 0);
    }
  }

  /** No alternative fits at the start of the paragraph, nor after a delimiter at `i`. */
  ghost predicate NoKeywordFits(kws: Keywords, p: string, i: nat) {
    (i == 0 ==> NoneFitsAt(kws, p, 0)) && (i < |p| && IsDelimiter(p[i]) ==> NoneFitsAt(kws, p, i + 1))
  }

  /** No alternative fits at `at`. */
  ghost predicate NoneFitsAt(kws: Keywords, p: string, at: nat) {
    forall m :: 0 <= m < |kws| ==> !KeywordFits(kws, p, at, m)
  }

  lemma MatchFound(kws: Keywords, p: string, i: nat)
    requires MatchAt(kws, p, i).Some?
    ensures var m := MatchAt(kws, p, i).value;
      (m.start == i && i == 0) || (m.start == i + 1 && IsDelimiter(p[i]))
    ensures var m := MatchAt(kws, p, i).value;
      IsKeywordAt(kws, p, m.start, m.kind) && WellPlaced(p, m)
  {
    var atStart := if i == 0 then KeywordFrom(kws, p, 0, 0) else None;
    if atStart.Some? {
      var r := MatchOf(kws, p, i, i, atStart.value);
      assert MatchAt(kws, p, i) == Some(r);
    } else {
      var k := KeywordFrom(kws, p, i + 1, 0).value;
      var r := MatchOf(kws, p, i, i + 1, k);
      assert MatchAt(kws, p, i) == Some(r);
    }
  }

  /** What the scanner guarantees about match number `a`, one match at a time. */
  lemma MatchNumber(kws: Keywords, p: string, a: nat)
    requires a < |MatchesFrom(kws, p, 0)|
    ensures var ms := MatchesFrom(kws, p, 0);
      WellPlaced(p, ms[a]) && (a + 1 < |ms| ==> ms[a].end <= ms[a + 1].index < ms[a + 1].start)
  {
    var ms := MatchesFrom(kws, p, 0);
    MatchesFromOrdered(kws, p, 0);
    assert MatchAt(kws, p, ms[a].index) == Some(ms[a]);
    MatchFound(kws, p, ms[a].index);
    if a + 1 < |ms| {
      assert MatchAt(kws, p, ms[a + 1].index) == Some(ms[a + 1]);
      MatchFound(kws, p, ms[a + 1].index);
    }
  }

  /**
   * No match is skipped: every position from `from` on where the scanner's
   * pattern matches lies inside the stretch some recorded match consumed,
   * from its index up to where the next search resumed.
   */
  lemma {:induction false} MatchesFromComplete(kws: Keywords, p: string, from: nat, k: nat)
    requires from <= k < |p| && MatchAt(kws, p, k).Some?
    ensures exists a :: (0 <= a < |MatchesFrom(kws, p, from)|
      && MatchesFrom(kws, p, from)[a].index <= k < MatchesFrom(kws, p, from)[a].end)
    decreases |p| - from
  {
    ExecSpec(kws, p, from);
    match Exec(kws, p, from)
    case None =>
      assert false;
    case Some(m) =>
      var rest := MatchesFrom(kws, p, m.end);
      var ms := [m] + rest;
      assert MatchesFrom(kws, p, from) == ms;
      if k < m.end {
        assert ms[0].index <= k < ms[0].end;
      } else {
        MatchesFromComplete(kws, p, m.end, k);
        var a :| 0 <= a < |rest| && rest[a].index <= k < rest[a].end;
        assert ms[a + 1] == rest[a];
      }
  }

  /**
   * Complete against the pattern itself: wherever a keyword fits at the start
   * of the paragraph, or after a delimiter at `k`, that position lies inside
   * the stretch some recorded match consumed.
   */
  lemma DelimitedKeywordIsCovered(kws: Keywords, p: string, k: nat, m: nat)
    requires k < |p| && m < |kws|
    requires (k == 0 && KeywordFits(kws, p, 0, m)) || (IsDelimiter(p[k]) && KeywordFits(kws, p, k + 1, m))
    ensures exists a :: (0 <= a < |MatchesFrom(kws, p, 0)|
      && MatchesFrom(kws, p, 0)[a].index <= k < MatchesFrom(kws, p, 0)[a].end)
  {
    MatchAtSpec(kws, p, k);
    assert MatchAt(kws, p, k).Some? by {
      assert !NoKeywordFits(kws, p, k);
    }
    MatchesFromComplete(kws, p, 0, k);
  }

  /** After `from` no position holds a delimiter, so `exec` finds nothing there. */
  lemma NoMatchWithoutDelimiter(kws: Keywords, p: string, from: nat)
    requires 0 < from <= |p|
    requires forall k :: from <= k < |p| ==> !IsDelimiter(p[k])
    ensures MatchesFrom(kws, p, from) == []
  {
    forall k: nat | from <= k < |p| ensures MatchAt(kws, p, k).None? {
    }
    ExecSpec(kws, p, from);
  }

  /** No keyword alternative is empty or begins with a digit or a delimiter, whatever its case. */
  lemma KeywordInitials()
    ensures forall m :: 0 <= m < |EntityKeywords| ==>
      (|EntityKeywords[m]| > 0 && !IsDigit(Fold(EntityKeywords[m][0])) && !IsDelimiter(Fold(EntityKeywords[m][0])))
  {
  }

  /**
   * "seconds" is tried just before "second", and of the alternatives before
   * it only "sound" begins with an `s`.
   */
  lemma AlternativesBeforeSeconds()
    ensures EntityKeywords[1] == "sound" && EntityKeywords[15] == "seconds" && EntityKeywords[16] == "second"
    ensures forall m :: 0 <= m < 15 && m != 1 ==> |EntityKeywords[m]| > 0 && Fold(EntityKeywords[m][0]) != 's'
  {
  }

  /** An alternative does not fit where its first character differs, ignoring case. */
  lemma InitialMismatch(kws: Keywords, p: string, at: nat, m: nat)
    requires m < |kws| && at < |p| && |kws[m]| > 0 && Fold(kws[m][0]) != Fold(p[at])
    ensures !KeywordFits(kws, p, at, m)
  {
  }

  /** No alternative fits where the character differs, ignoring case, from every alternative's first. */
  lemma NoKeywordAt(kws: Keywords, p: string, at: nat, k: nat)
    requires at < |p|
    requires forall m :: k <= m < |kws| ==> |kws[m]| > 0 && Fold(kws[m][0]) != Fold(p[at])
    ensures KeywordFrom(kws, p, at, k).None?
  {
    forall m | k <= m < |kws| ensures !KeywordFits(kws, p, at, m) {
      InitialMismatch(kws, p, at, m);
    }
  }

  /** The alternative that fits first in list order is the one `KeywordFrom` picks. */
  lemma FirstFit(kws: Keywords, p: string, at: nat, k: nat)
    requires k < |kws| && KeywordFits(kws, p, at, k)
    requires forall m :: 0 <= m < k ==> !KeywordFits(kws, p, at, m)
    ensures KeywordFrom(kws, p, at, 0) == Some(k)
  {
    KeywordFromSpec(kws, p, at, 0);
  }

  /** No keyword begins at a digit or a delimiter. */
  lemma NoKeywordAtDigitOrDelimiter(p: string, at: nat)
    requires at < |p| && (IsDigit(p[at]) || IsDelimiter(p[at]))
    ensures KeywordFrom(EntityKeywords, p, at, 0).None?
  {
    KeywordInitials();
    assert Fold(p[at]) == p[at];
    NoKeywordAt(EntityKeywords, p, at, 0);
  }

  /** After the space of "5 seconds audio" the first alternative that fits is "seconds". */
  lemma SecondsAfterDigit(p: string)
    requires p == "5 seconds audio"
    ensures KeywordFrom(EntityKeywords, p, 2, 0) == Some(15)
  {
    var kws := EntityKeywords;
    AlternativesBeforeSeconds();
    forall m | 0 <= m < 15 && m != 1 ensures !KeywordFits(kws, p, 2, m) {
      InitialMismatch(kws, p, 2, m);
    }
    assert !StartsWithCI(p, 2, kws[1]) by { assert Fold(p[3]) != Fold(kws[1][1]); }
    FirstFit(kws, p, 2, 15);
  }

  /** Of the alternatives before "video esfera", only "videosphere" begins with a `v`. */
  lemma AlternativesBeforeVideoEsfera()
    ensures EntityKeywords[11] == "videosphere" && EntityKeywords[12] == "video esfera" && EntityKeywords[14] == "video"
    ensures forall m :: 0 <= m < 11 ==> |EntityKeywords[m]| > 0 && Fold(EntityKeywords[m][0]) != 'v'
  {
  }

  /** At the start of "video esfera" the first alternative that fits is "video esfera" itself. */
  lemma VideoEsferaFirst(p: string)
    requires p == "video esfera"
    ensures KeywordFrom(EntityKeywords, p, 0, 0) == Some(12)
  {
    var kws := EntityKeywords;
    AlternativesBeforeVideoEsfera();
    forall m | 0 <= m < 11 ensures !KeywordFits(kws, p, 0, m) {
      InitialMismatch(kws, p, 0, m);
    }
    assert !StartsWithCI(p, 0, kws[11]) by { assert Fold(p[5]) != Fold(kws[11][5]); }
    FirstFit(kws, p, 0, 12);
  }

  /** In " seconds" the first alternative that fits after the space is "seconds". */
  lemma SecondsAfterSpace(q: string)
    requires q == " seconds"
    ensures KeywordFrom(EntityKeywords, q, 1, 0) == Some(15)
  {
    var kws := EntityKeywords;
    AlternativesBeforeSeconds();
    forall m | 0 <= m < 15 && m != 1 ensures !KeywordFits(kws, q, 1, m) {
      InitialMismatch(kws, q, 1, m);
    }
    assert !StartsWithCI(q, 1, kws[1]) by { assert Fold(q[2]) != Fold(kws[1][1]); }
    FirstFit(kws, q, 1, 15);
  }

  /** A keyword found at the start of the paragraph makes the match there. */
  lemma MatchAtStart(kws: Keywords, p: string, m: nat)
    requires KeywordFrom(kws, p, 0, 0) == Some(m)
    ensures MatchAt(kws, p, 0) == Some(MatchOf(kws, p, 0, 0, m))
  {
  }

  /** Where no keyword begins at `i` itself, a delimiter at `i` followed by a keyword makes the match at `i`. */
  lemma MatchAfterDelimiter(kws: Keywords, p: string, i: nat, m: nat)
    requires i < |p| && IsDelimiter(p[i])
    requires i == 0 ==> KeywordFrom(kws, p, 0, 0).None?
    requires KeywordFrom(kws, p, i + 1, 0) == Some(m)
    ensures MatchAt(kws, p, i) == Some(MatchOf(kws, p, i, i + 1, m))
  {
  }

  /** Alternative number 15 is "seconds". */
  lemma SecondsIsKeyword()
    ensures EntityKeywords[15] == "seconds"
  {
  }

  /** Alternative number 12 is "video esfera". */
  lemma VideoEsferaIsKeyword()
    ensures EntityKeywords[12] == "video esfera"
  {
  }

  /** The match "video esfera" makes at the start of the paragraph. */
  lemma VideoEsferaMatch(p: string)
    requires p == "video esfera"
    ensures MatchOf(EntityKeywords, p, 0, 0, 12) == Match(0, 0, "video esfera", 12)
  {
    VideoEsferaFirst(p);
    VideoEsferaIsKeyword();
  }

  /** A paragraph that begins with a delimiter and no keyword has its match at 0 after the delimiter. */
  lemma MatchAfterLeadingDelimiter(kws: Keywords, p: string, m: nat)
    requires 0 < |p| && IsDelimiter(p[0])
    requires KeywordFrom(kws, p, 0, 0).None? && KeywordFrom(kws, p, 1, 0) == Some(m)
    ensures MatchAt(kws, p, 0) == Some(MatchOf(kws, p, 0, 1, m))
  {
  }

  /** Alternatives are tried in order: "video esfera" is found whole, not as "video". */
  lemma VideoEsferaFoundWhole(p: string)
    requires p == "video esfera"
    ensures MatchAt(EntityKeywords, p, 0) == Some(Match(0, 0, "video esfera", 12))
  {
    VideoEsferaFirst(p);
    VideoEsferaMatch(p);
    MatchAtStart(EntityKeywords, p, 12);
  }

  /** " seconds" begins with a delimiter, at which no keyword begins, and "seconds" fits after it. */
  lemma SpaceThenSeconds(q: string)
    requires q == " seconds"
    ensures 0 < |q| && IsDelimiter(q[0])
    ensures KeywordFrom(EntityKeywords, q, 0, 0).None? && KeywordFrom(EntityKeywords, q, 1, 0) == Some(15)
  {
    LeadingSpace(q);
    NoKeywordAtSpace(q);
    SecondsAfterSpace(q);
  }

  /** No keyword begins at the digit of "5 seconds audio". */
  lemma NoKeywordAtDigit(p: string)
    requires p == "5 seconds audio"
    ensures KeywordFrom(EntityKeywords, p, 0, 0).None?
  {
    DigitThenSpace(p);
    NoKeywordAtDigitOrDelimiter(p, 0);
  }

  /** "5 seconds audio" begins with a digit and then a delimiter. */
  lemma DigitThenSpace(p: string)
    requires p == "5 seconds audio"
    ensures 1 < |p| && IsDigit(p[0]) && !IsDelimiter(p[0]) && IsDelimiter(p[1])
  {
  }

  /** No keyword begins at the space of " seconds". */
  lemma NoKeywordAtSpace(q: string)
    requires q == " seconds"
    ensures KeywordFrom(EntityKeywords, q, 0, 0).None?
  {
    LeadingSpace(q);
    NoKeywordAtDigitOrDelimiter(q, 0);
  }

  /** " seconds" begins with a delimiter. */
  lemma LeadingSpace(q: string)
    requires q == " seconds"
    ensures 0 < |q| && IsDelimiter(q[0])
  {
  }

  /** The slices of the two example paragraphs that hold "seconds". */
  lemma SecondsSlices(p: string, q: string)
    requires p == "5 seconds audio" && q == " seconds"
    ensures p[2..9] == "seconds" && q[1..8] == "seconds" && |p| == 15 && |q| == 8
  {
  }

  /** The match "seconds" makes after the leading space of " seconds". */
  lemma SecondsAfterSpaceMatch(q: string)
    requires q == " seconds"
    ensures MatchOf(EntityKeywords, q, 0, 1, 15) == Match(0, 1, "seconds", 8)
  {
    SecondsAfterSpace(q);
    SecondsIsKeyword();
    SecondsSlices("5 seconds audio", q);
  }

  /** A match after a leading delimiter is indexed at the delimiter, not at its keyword. */
  lemma IndexAtLeadingDelimiter(q: string)
    requires q == " seconds"
    ensures MatchAt(EntityKeywords, q, 0) == Some(Match(0, 1, "seconds", 8))
  {
    SecondsAfterSpaceAt(q);
    SecondsAfterSpaceMatch(q);
  }

  /** In " seconds" the match at 0 is the one "seconds" makes after the space. */
  lemma SecondsAfterSpaceAt(q: string)
    requires q == " seconds"
    ensures MatchAt(EntityKeywords, q, 0) == Some(MatchOf(EntityKeywords, q, 0, 1, 15))
  {
    SpaceThenSeconds(q);
    MatchAfterLeadingDelimiter(EntityKeywords, q, 15);
  }

  /** The match "seconds" makes in "5 seconds audio": it consumes the space after it. */
  lemma SecondsAfterDigitMatch(p: string)
    requires p == "5 seconds audio"
    ensures MatchOf(EntityKeywords, p, 1, 2, 15) == Match(1, 2, "seconds", 10)
  {
    SecondsAfterDigit(p);
    SecondsIsKeyword();
    SecondsSlices(p, " seconds");
  }

  /** No match begins at the start of a paragraph that begins with neither a keyword nor a delimiter. */
  lemma NoMatchAtStart(kws: Keywords, p: string)
    requires 0 < |p| && !IsDelimiter(p[0]) && KeywordFrom(kws, p, 0, 0).None?
    ensures MatchAt(kws, p, 0).None?
  {
  }

  /** Where nothing matches at `from`, `exec` goes on to the next position. */
  lemma ExecSkips(kws: Keywords, p: string, from: nat)
    requires from < |p| && MatchAt(kws, p, from).None?
    ensures Exec(kws, p, from) == Exec(kws, p, from + 1)
  {
  }

  /** A match at `from` is what `exec` from `from` returns. */
  lemma ExecFinds(kws: Keywords, p: string, from: nat)
    requires from < |p| && MatchAt(kws, p, from).Some?
    ensures Exec(kws, p, from) == MatchAt(kws, p, from)
  {
  }

  /** The first `exec` on "5 seconds audio" finds "seconds" at the space before it. */
  lemma FirstExecFindsSeconds(p: string)
    requires p == "5 seconds audio"
    ensures Exec(EntityKeywords, p, 0) == Some(Match(1, 2, "seconds", 10))
  {
    var kws := EntityKeywords;
    DigitThenSpace(p);
    NoKeywordAtDigit(p);
    SecondsAfterDigit(p);
    NoMatchAtStart(kws, p);
    MatchAfterDelimiter(kws, p, 1, 15);
    SecondsAfterDigitMatch(p);
    ExecSkips(kws, p, 0);
    ExecFinds(kws, p, 1);
  }

  /** "audio" holds no delimiter. */
  lemma NoDelimiterInAudio(p: string)
    requires p == "5 seconds audio"
    ensures forall k :: 10 <= k < |p| ==> !IsDelimiter(p[k])
  {
    assert p[10..] == "audio";
  }

  /** A search that finds one match and then nothing gives that match alone. */
  lemma SingleMatch(kws: Keywords, p: string, m: Match)
    requires Exec(kws, p, 0) == Some(m) && m.end <= |p| && MatchesFrom(kws, p, m.end) == []
    ensures MatchesFrom(kws, p, 0) == [m]
  {
  }

  /**
   * The trailing delimiter belongs to the earlier match: of "5 seconds audio"
   * only "seconds" is found, its index at the space before it, because the
   * space before "audio" was consumed with it.
   */
  lemma SharedDelimiterIsMissed(p: string)
    requires p == "5 seconds audio"
    ensures Tokens(p) == [Token("seconds", 1)]
  {
    var kws := EntityKeywords;
    var m := Match(1, 2, "seconds", 10);
    FirstExecFindsSeconds(p);
    SecondsSlices(p, " seconds");
    NoDelimiterInAudio(p);
    NoMatchWithoutDelimiter(kws, p, 10);
    SingleMatch(kws, p, m);
  }
}
