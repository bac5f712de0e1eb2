/**
 * The identifier pattern of the publisher decoder, `\[(?:\w+:[^\]]+)(?:\s+\w+:[^\]]+)*\]`,
 * with Python's `search` and `sub(…, "")` over it.
 *
 * The repeated tail `(?:\s+\w+:[^\]]+)*` adds no string to the language, because `[^\]]+`
 * already takes any run of characters other than `]`. So a match is `[`, one or more word
 * characters, `:`, one or more characters other than `]`, and `]` (`IsIdGroup`). The class
 * `\w` is a parameter.
 */
module IdPattern {
  import opened Wrappers

  /** Length of the run of word characters that starts at `i`. */
  function WordRun(s: string, i: nat, isWord: char -> bool): (k: nat)
    requires i <= |s|
    ensures i + k <= |s|
    ensures forall m :: i <= m < i + k ==> isWord(s[m])
    ensures i + k == |s| || !isWord(s[i + k])
    decreases |s| - i
  {
    if i < |s| && isWord(s[i]) then 1 + WordRun(s, i + 1, isWord) else 0
  }

  /** Index of the first `c` at or after `i`. */
  function IndexFrom(s: string, i: nat, c: char): (r: Option<nat>)
    requires i <= |s|
    ensures r.Some? ==> i <= r.value < |s| && s[r.value] == c
    ensures r.Some? ==> forall m :: i <= m < r.value ==> s[m] != c
    ensures r.None? ==> forall m :: i <= m < |s| ==> s[m] != c
    decreases |s| - i
  {
    if i == |s| then None
    else if s[i] == c then Some(i)
    else IndexFrom(s, i + 1, c)
  }

  /**
   * What the regex engine does when it tries the pattern at position `i`: the end of the match,
   * if there is one. The word run is maximal because `:` is not a word character, and the value
   * runs to the first `]` after the colon.
   */
  function MatchAt(s: string, i: nat, isWord: char -> bool): (r: Option<nat>)
    requires i <= |s|
    ensures r.Some? ==> i < r.value <= |s|
  {
    if i < |s| && s[i] == '[' then
      var k := WordRun(s, i + 1, isWord);
      var colon := i + 1 + k;
      if k >= 1 && colon < |s| && s[colon] == ':' then
        match IndexFrom(s, colon + 1, ']')
        case Some(j) => if j > colon + 1 then Some(j + 1) else None
        case None => None
      else None
    else None
  }

  /** `g` splits as `[` key `:` value `]` with the colon at index `k`. */
  ghost predicate KeyValueAt(g: string, k: int, isWord: char -> bool) {
    && 2 <= k && k + 2 < |g|
    && g[k] == ':'
    && (forall m :: 1 <= m < k ==> isWord(g[m]))
    && (forall m :: k < m < |g| - 1 ==> g[m] != ']')
  }

  /** The language of the pattern. */
  ghost predicate IsIdGroup(g: string, isWord: char -> bool) {
    |g| >= 2 && g[0] == '[' && g[|g| - 1] == ']' && exists k :: KeyValueAt(g, k, isWord)
  }

  ghost predicate GroupAt(s: string, i: int, e: int, isWord: char -> bool) {
    0 <= i < e <= |s| && IsIdGroup(s[i..e], isWord)
  }

  ghost predicate HasGroup(s: string, isWord: char -> bool) {
    exists i, e :: GroupAt(s, i, e, isWord)
  }

  /** `s[b..e]` is a match and no match starts before `b`. */
  ghost predicate IsLeftmostGroup(s: string, b: int, e: int, isWord: char -> bool) {
    GroupAt(s, b, e, isWord) && forall i, e' :: 0 <= i < b ==> !GroupAt(s, i, e', isWord)
  }

  /** The engine's answer at `i` is exactly the language: a match ends at `e` iff `s[i..e]` is in it. */
  lemma MatchAtIff(s: string, i: nat, e: int, isWord: char -> bool)
    requires i <= |s| && !isWord(':')
    ensures MatchAt(s, i, isWord) == Some(e) <==> GroupAt(s, i, e, isWord)
  {
    if MatchAt(s, i, isWord) == Some(e) {
      var k := WordRun(s, i + 1, isWord);
      var colon := i + 1 + k;
      var g := s[i..e];
      assert KeyValueAt(g, 1 + k, isWord) by {
        forall m | 1 <= m < 1 + k ensures isWord(g[m]) {
          assert g[m] == s[i + m];
        }
        forall m | 1 + k < m < |g| - 1 ensures g[m] != ']' {
          assert g[m] == s[i + m];
        }
      }
    }
    if GroupAt(s, i, e, isWord) {
      var g := s[i..e];
      var k' :| KeyValueAt(g, k', isWord);
      var k := WordRun(s, i + 1, isWord);
      assert s[i + k'] == g[k'] == ':';
      assert k == k' - 1;
      var colon := i + k';
      forall m | colon + 1 <= m < e - 1 ensures s[m] != ']' {
        assert s[m] == g[m - i];
      }
      assert s[e - 1] == g[|g| - 1] == ']';
      var j := IndexFrom(s, colon + 1, ']');
      assert j == Some(e - 1);
    }
  }

  /** Leftmost-first scan from `from`, as `re.search` does. */
  function SearchFrom(s: string, from: nat, isWord: char -> bool): (r: Option<(nat, nat)>)
    requires from <= |s|
    ensures r.Some? ==> from <= r.value.0 < r.value.1 <= |s| && MatchAt(s, r.value.0, isWord) == Some(r.value.1)
    ensures r.Some? ==> forall j :: from <= j < r.value.0 ==> MatchAt(s, j, isWord).None?
    ensures r.None? ==> forall j :: from <= j <= |s| ==> MatchAt(s, j, isWord).None?
    decreases |s| - from
  {
    match MatchAt(s, from, isWord)
    case Some(e) => Some((from, e))
    case None => if from == |s| then None else SearchFrom(s, from + 1, isWord)
  }

  /** `pattern.search(s)`: start and end of the leftmost match. */
  function Search(s: string, isWord: char -> bool): (r: Option<(nat, nat)>)
    ensures r.Some? ==> r.value.0 < r.value.1 <= |s| && MatchAt(s, r.value.0, isWord) == Some(r.value.1)
  {
    SearchFrom(s, 0, isWord)
  }

  /** `search` finds nothing exactly when no substring is in the language. */
  lemma SearchNoneIff(s: string, isWord: char -> bool)
    requires !isWord(':')
    ensures Search(s, isWord).None? <==> !HasGroup(s, isWord)
  {
    if Search(s, isWord).None? && HasGroup(s, isWord) {
      var i, e :| GroupAt(s, i, e, isWord);
      MatchAtIff(s, i, e, isWord);
    }
    if Search(s, isWord).Some? {
      var (b, e) := Search(s, isWord).value;
      MatchAtIff(s, b, e, isWord);
    }
  }

  /** `search` returns `(b, e)` exactly when `s[b..e]` is the leftmost match. */
  lemma SearchIsLeftmost(s: string, b: nat, e: nat, isWord: char -> bool)
    requires !isWord(':')
    ensures Search(s, isWord) == Some((b, e)) <==> IsLeftmostGroup(s, b, e, isWord)
  {
    if Search(s, isWord) == Some((b, e)) {
      MatchAtIff(s, b, e, isWord);
      forall i, e' | 0 <= i < b ensures !GroupAt(s, i, e', isWord) {
        MatchAtIff(s, i, e', isWord);
      }
    }
    if IsLeftmostGroup(s, b, e, isWord) {
      MatchAtIff(s, b, e, isWord);
      SearchNoneIff(s, isWord);
      var (b', e') := Search(s, isWord).value;
      MatchAtIff(s, b', e', isWord);
    }
  }

  /**
   * `pattern.sub("", s)`: every non-overlapping match, leftmost first, removed. The scan
   * resumes at the end of each match; the pattern looks only forward, so searching the rest
   * of the string is the same as searching from that position.
   */
  function RemoveMatches(s: string, isWord: char -> bool): (r: string)
    ensures |r| <= |s|
    ensures r == s <==> Search(s, isWord).None?
    decreases |s|
  {
    match Search(s, isWord)
    case None => s
    case Some((b, e)) => s[..b] + RemoveMatches(s[e..], isWord)
  }

  /**
   * Removing the only match: the text before it, which has no `[`, and the text after it,
   * which holds no match, are kept as they are.
   */
  lemma RemoveOnlyGroup(prefix: string, g: string, suffix: string, isWord: char -> bool)
    requires !isWord(':')
    requires '[' !in prefix && IsIdGroup(g, isWord) && !HasGroup(suffix, isWord)
    ensures RemoveMatches(prefix + g + suffix, isWord) == prefix + suffix
  {
    var s := prefix + g + suffix;
    var b, e := |prefix|, |prefix| + |g|;
    assert s[b..e] == g;
    forall i, e' | 0 <= i < b ensures !GroupAt(s, i, e', isWord) {
      assert s[i] == prefix[i];
    }
    SearchIsLeftmost(s, b, e, isWord);
    assert s[e..] == suffix && s[..b] == prefix;
    SearchNoneIff(suffix, isWord);
  }

  /** Every match starts with `[`, so text without `[` has none. */
  lemma NoBracketNoGroup(s: string, isWord: char -> bool)
    requires '[' !in s
    ensures !HasGroup(s, isWord)
  {
  }
}
