/**
 * Character classes and string primitives of the JavaScript regular expressions
 * and `String.prototype` methods that nlp.js relies on, written as explicit
 * scanners over `seq<char>`.
 */
module Text {
  import opened Wrappers

  /** `[0-9]` */
  predicate IsDigit(c: char) { '0' <= c <= '9' }

  /** `[a-fA-F0-9]` (the same class with or without the `i` flag) */
  predicate IsHexDigit(c: char) { IsDigit(c) || 'a' <= c <= 'f' || 'A' <= c <= 'F' }

  /** `\w` (the same class with or without the `i` flag, outside unicode mode) */
  predicate IsWordChar(c: char) { IsDigit(c) || 'a' <= c <= 'z' || 'A' <= c <= 'Z' || c == '_' }

  /** `\s`: the ECMAScript WhiteSpace and LineTerminator code points. */
  predicate IsSpace(c: char) {
    c == '\t' || c == '\n' || c == '\U{B}' || c == '\U{C}' || c == '\r' || c == ' '
    || c == '\U{A0}' || c == '\U{1680}' || ('\U{2000}' <= c <= '\U{200A}')
    || c == '\U{2028}' || c == '\U{2029}' || c == '\U{202F}' || c == '\U{205F}'
    || c == '\U{3000}' || c == '\U{FEFF}'
  }

  /** The characters `.` does not match. */
  predicate IsLineTerminator(c: char) { c == '\n' || c == '\r' || c == '\U{2028}' || c == '\U{2029}' }

  /**
   * Case folding of the `i` flag outside unicode mode, for the Basic Latin and
   * Latin-1 letters: two characters match ignoring case iff their folds agree.
   */
  function Fold(c: char): (f: char)
    ensures 'A' <= c <= 'Z' ==> 'a' <= f <= 'z'
    ensures IsCapital(c) ==> f as int == c as int + 32
    ensures !IsCapital(c) ==> f == c
  {
    if IsCapital(c) then (c as int + 32) as char else c
  }

  /** The capitals the `i` flag folds: A to Z and the Latin-1 capitals À to Þ except ×. */
  predicate IsCapital(c: char) {
    'A' <= c <= 'Z' || ('\U{C0}' <= c <= '\U{DE}' && c != '\U{D7}')
  }

  /**
   * Folding lands on a character that folds to itself, and a lower-case letter
   * and its capital fold to the same character: that letter.
   */
  lemma FoldIgnoresCase(c: char)
    ensures Fold(Fold(c)) == Fold(c)
    ensures IsCapital(c) ==> Fold((c as int + 32) as char) == Fold(c) && !IsCapital(Fold(c))
  {
  }

  /** `w` occurs in `s` at offset `at`. */
  predicate StartsWithAt(s: string, at: nat, w: string) {
    at + |w| <= |s| && s[at..at + |w|] == w
  }

  /** `w` occurs in `s` at offset `at`, ignoring case. */
  predicate StartsWithCI(s: string, at: nat, w: string) {
    at + |w| <= |s| && forall k :: 0 <= k < |w| ==> Fold(s[at + k]) == Fold(w[k])
  }

  predicate EndsWith(s: string, suffix: string) {
    |suffix| <= |s| && s[|s| - |suffix|..] == suffix
  }

  /** The leftmost position in [from, n) that satisfies `P`: how a regex search picks its match. */
  function FirstFrom(from: nat, n: nat, P: nat -> bool): (r: Option<nat>)
    decreases n - from
    ensures r.Some? ==> from <= r.value < n && P(r.value)
    ensures r.Some? ==> forall k :: from <= k < r.value ==> !P(k)
    ensures r.None? ==> forall k :: from <= k < n ==> !P(k)
  {
    if from >= n then None else if P(from) then Some(from) else FirstFrom(from + 1, n, P)
  }

  /** End of the maximal run of `P` characters starting at `i`: a greedy `P*`. */
  function RunEnd(s: string, i: nat, P: char -> bool): (j: nat)
    requires i <= |s|
    decreases |s| - i
    ensures i <= j <= |s|
    ensures forall k :: i <= k < j ==> P(s[k])
    ensures j < |s| ==> !P(s[j])
  {
    if i < |s| && P(s[i]) then RunEnd(s, i + 1, P) else i
  }

  /** The last position in [lo, hi) holding `c`. */
  function LastIndexOf(s: string, c: char, lo: nat, hi: nat): (r: Option<nat>)
    requires lo <= hi <= |s|
    decreases hi - lo
    ensures r.Some? ==> lo <= r.value < hi && s[r.value] == c
    ensures r.Some? ==> forall k :: r.value < k < hi ==> s[k] != c
    ensures r.None? ==> forall k :: lo <= k < hi ==> s[k] != c
  {
    if lo == hi then None else if s[hi - 1] == c then Some(hi - 1) else LastIndexOf(s, c, lo, hi - 1)
  }

  lemma SliceSplit(s: string, i: nat, j: nat, k: nat)
    requires i <= j <= k <= |s|
    ensures s[i..k] == s[i..j] + s[j..k]
  {
  }

  lemma SliceOfSlice(s: string, lo: nat, hi: nat, a: nat, b: nat)
    requires lo <= hi <= |s| && a <= b <= hi - lo
    ensures s[lo..hi][a..b] == s[lo + a..lo + b]
  {
    assert forall k :: 0 <= k < b - a ==> s[lo..hi][a..b][k] == s[lo + a + k];
  }

  /** `s.substring(start, end)`: both ends clamped to the string, swapped when reversed. */
  function Substring(s: string, start: nat, end: nat): string {
    var a := if start <= |s| then start else |s|;
    var b := if end <= |s| then end else |s|;
    if a <= b then s[a..b] else s[b..a]
  }

  /** The first occurrence of `pat` in `s`. */
  function FindPattern(s: string, pat: string): (r: Option<nat>)
    ensures r.Some? ==> StartsWithAt(s, r.value, pat) && forall k: nat :: k < r.value ==> !StartsWithAt(s, k, pat)
    ensures r.None? ==> forall k: nat :: !StartsWithAt(s, k, pat)
  {
    var P := (k: nat) => StartsWithAt(s, k, pat);
    assert forall k: nat :: P(k) == StartsWithAt(s, k, pat);
    FirstFrom(0, |s| + 1, P)
  }

  /** `s.replace(pat, '')` for a literal pattern: drops its first occurrence. */
  function RemoveFirst(s: string, pat: string): (r: string)
    ensures (forall k: nat :: !StartsWithAt(s, k, pat)) ==> r == s
    ensures FindPattern(s, pat).Some? ==> var k := FindPattern(s, pat).value;
      k <= |r| && |r| + |pat| == |s| && r[..k] + pat + r[k..] == s
  {
    match FindPattern(s, pat)
    case None => s
    case Some(k) => s[..k] + s[k + |pat|..]
  }

  /** `s.replace(/c/g, '')`: every `c` removed, everything else kept in order. */
  function RemoveAll(s: string, c: char): (r: string)
    ensures c !in r
    ensures |r| <= |s|
    ensures c !in s ==> r == s
  {
    if |s| == 0 then [] else (if s[0] == c then [] else [s[0]]) + RemoveAll(s[1..], c)
  }

  /**
   * `replace(/c/g, '')` is a filter: a single character is dropped exactly
   * when it is `c`, and removal distributes over concatenation, so every other
   * character is kept, in order.
   */
  lemma RemoveAllIsFilter(a: string, b: string, c: char)
    ensures RemoveAll(a + b, c) == RemoveAll(a, c) + RemoveAll(b, c)
    ensures forall x :: RemoveAll([x], c) == if x == c then [] else [x]
  {
    RemoveAllConcat(a, b, c);
    forall x ensures RemoveAll([x], c) == if x == c then [] else [x] {
      RemoveAllSingle(x, c);
    }
  }

  lemma {:induction false} RemoveAllConcat(a: string, b: string, c: char)
    ensures RemoveAll(a + b, c) == RemoveAll(a, c) + RemoveAll(b, c)
    decreases |a|
  {
    if |a| > 0 {
      var t := a[1..];
      assert a == [a[0]] + t;
      assert a + b == [a[0]] + (t + b);
      RemoveAllConcat(t, b, c);
      RemoveAllCons(a[0], t, c);
      RemoveAllCons(a[0], t + b, c);
    } else {
      assert a + b == b;
    }
  }

  lemma RemoveAllCons(x: char, s: string, c: char)
    ensures RemoveAll([x] + s, c) == (if x == c then [] else [x]) + RemoveAll(s, c)
  {
    assert ([x] + s)[0] == x && ([x] + s)[1..] == s;
  }

  lemma RemoveAllSingle(x: char, c: char)
    ensures RemoveAll([x], c) == if x == c then [] else [x]
  {
    assert [x][1..] == [];
  }

  /** `s.split(sep)` for a one-character separator. */
  function Split(s: string, sep: char): (parts: seq<string>)
    decreases |s|
    ensures |parts| >= 1
  {
    if |s| == 0 then [""]
    else
      var rest := Split(s[1..], sep);
      if s[0] == sep then [""] + rest else [[s[0]] + rest[0]] + rest[1..]
  }

  /** `parts.join(sep)`, the inverse of `Split`. */
  function Join(parts: seq<string>, sep: char): string
    requires |parts| >= 1
  {
    if |parts| == 1 then parts[0] else parts[0] + [sep] + Join(parts[1..], sep)
  }

  lemma {:induction false} JoinCons(c: char, parts: seq<string>, sep: char)
    requires |parts| >= 1
    ensures Join([[c] + parts[0]] + parts[1..], sep) == [c] + Join(parts, sep)
  {
    if |parts| > 1 {
      assert ([[c] + parts[0]] + parts[1..])[1..] == parts[1..];
    }
  }

  /** Joining the pieces of a split gives back the string, and no piece holds the separator. */
  lemma {:induction false} SplitJoin(s: string, sep: char)
    ensures Join(Split(s, sep), sep) == s
    ensures forall k :: 0 <= k < |Split(s, sep)| ==> sep !in Split(s, sep)[k]
    decreases |s|
  {
    if |s| > 0 {
      var rest := Split(s[1..], sep);
      SplitJoin(s[1..], sep);
      if s[0] == sep {
        assert ([""] + rest)[1..] == rest;
      } else {
        JoinCons(s[0], rest, sep);
        var parts := Split(s, sep);
        forall k | 0 <= k < |parts| ensures sep !in parts[k] {
          if k > 0 { assert parts[k] == rest[k]; }
        }
      }
      assert s == [s[0]] + s[1..];
    }
  }

  /** Splitting a join of separator-free pieces gives back the pieces. */
  lemma {:induction false} JoinSplit(parts: seq<string>, sep: char)
    requires |parts| >= 1
    requires forall k :: 0 <= k < |parts| ==> sep !in parts[k]
    ensures Split(Join(parts, sep), sep) == parts
    decreases |parts|, |parts[0]|
  {
    var first := parts[0];
    if |first| == 0 {
      if |parts| > 1 {
        var tail := Join(parts[1..], sep);
        assert Join(parts, sep) == [sep] + tail;
        assert ([sep] + tail)[1..] == tail;
        JoinSplit(parts[1..], sep);
        assert parts == [""] + parts[1..];
      }
    } else {
      var shorter := [first[1..]] + parts[1..];
      assert shorter[1..] == parts[1..];
      assert forall k :: 0 <= k < |shorter| ==> sep !in shorter[k] by {
        forall k | 0 <= k < |shorter| ensures sep !in shorter[k] {
          if k == 0 {
            assert forall x :: x in first[1..] ==> x in first;
          } else {
            assert shorter[k] == parts[k];
          }
        }
      }
      JoinSplit(shorter, sep);
      assert first == [first[0]] + first[1..];
      assert [[first[0]] + shorter[0]] + shorter[1..] == parts;
      JoinCons(first[0], shorter, sep);
      var j := Join(parts, sep);
      assert j == [first[0]] + Join(shorter, sep);
      assert j[0] == first[0] && j[0] != sep;
      assert j[1..] == Join(shorter, sep);
    }
  }

  /** The last piece of `s.split(sep)`: what follows the last `sep`, or all of `s`. */
  function LastPiece(s: string, sep: char): (r: string)
  {
    var parts := Split(s, sep);
    parts[|parts| - 1]
  }

  /**
   * The last piece holds no separator and ends `s`; when `s` holds the
   * separator the last piece follows its last occurrence, and otherwise it is
   * all of `s`.
   */
  lemma LastPieceAfterDot(s: string, sep: char)
    ensures sep !in LastPiece(s, sep) && EndsWith(s, LastPiece(s, sep))
    ensures sep in s ==> |LastPiece(s, sep)| < |s| && s[|s| - |LastPiece(s, sep)| - 1] == sep
    ensures sep !in s ==> LastPiece(s, sep) == s
  {
    LastPieceIsSuffix(s, sep);
  }

  /** How the last piece of `s` relates to the last piece of its tail. */
  lemma LastPieceStep(s: string, sep: char)
    requires |s| > 0
    ensures s[0] == sep ==> LastPiece(s, sep) == LastPiece(s[1..], sep) && |Split(s, sep)| > 1
    ensures s[0] != sep && |Split(s[1..], sep)| > 1 ==>
      LastPiece(s, sep) == LastPiece(s[1..], sep) && |Split(s, sep)| > 1
    ensures s[0] != sep && |Split(s[1..], sep)| == 1 ==>
      LastPiece(s, sep) == [s[0]] + LastPiece(s[1..], sep) && |Split(s, sep)| == 1
  {
  }

  lemma {:induction false} LastPieceIsSuffix(s: string, sep: char)
    ensures sep !in LastPiece(s, sep)
    ensures EndsWith(s, LastPiece(s, sep))
    ensures |Split(s, sep)| == 1 ==> LastPiece(s, sep) == s
    ensures |Split(s, sep)| > 1 ==> |LastPiece(s, sep)| < |s| && s[|s| - |LastPiece(s, sep)| - 1] == sep
    ensures sep !in s ==> |Split(s, sep)| == 1
    decreases |s|
  {
    if |s| > 0 {
      var t := s[1..];
      LastPieceIsSuffix(t, sep);
      LastPieceStep(s, sep);
      var last := LastPiece(t, sep);
      assert s == [s[0]] + t;
      assert t[|t| - |last|..] == s[|s| - |last|..];
      if s[0] != sep && |Split(t, sep)| > 1 {
        assert sep in t by { assert t[|t| - |last| - 1] == sep; }
      }
    }
  }
}
