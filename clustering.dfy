/**
 * The script classifiers of the clustering step and the filter that chooses which publishers
 * are embedded: `is_cjk` asks whether some character lies in a CJK block, `is_not_latin`
 * whether some character is CJK or Cyrillic, and the list comprehension keeps the non-empty,
 * non-CJK publishers. A character's code point is `c as int`.
 */
module Clustering {
  import opened Wrappers

  /** An inclusive range of code points, `(start, end)`. */
  type CodeRange = (int, int)

  /** The blocks `is_cjk` tests, in the order it lists them. */
  const CjkRanges: seq<CodeRange> := [
    (0x4E00, 0x9FFF),   // CJK Unified Ideographs
    (0x3040, 0x309F),   // Hiragana
    (0x30A0, 0x30FF),   // Katakana
    (0x3400, 0x4DBF),   // CJK Unified Ideographs Extension A
    (0xF900, 0xFAFF),   // CJK Compatibility Ideographs
    (0xAC00, 0xD7AF),   // Hangul Syllables
    (0x20000, 0x2A6DF), // Extension B
    (0x2A700, 0x2B73F), // Extension C
    (0x2B740, 0x2B81F), // Extension D
    (0x2B820, 0x2CEAF), // Extension E
    (0x2CEB0, 0x2EBEF), // Extension F
    (0x30000, 0x3134F), // Extension G
    (0x31350, 0x323AF), // Extension H
    (0xFF00, 0xFFEF)    // Half-width and Full-width Forms
  ]

  /** The blocks `is_not_latin` tests after the CJK ones. */
  const CyrillicRanges: seq<CodeRange> := [
    (0x0400, 0x04FF),   // Cyrillic
    (0x0500, 0x052F),   // Cyrillic Supplement
    (0x2DE0, 0x2DFF),   // Cyrillic Extended-A
    (0xA640, 0xA69F),   // Cyrillic Extended-B
    (0x1C80, 0x1C8F)    // Cyrillic Extended-C
  ]

  /** `any(start <= code <= end for start, end in ranges)`, tried range by range. */
  function AnyRange(code: int, ranges: seq<CodeRange>): (b: bool)
    ensures b <==> exists k :: 0 <= k < |ranges| && ranges[k].0 <= code <= ranges[k].1
  {
    if ranges == [] then false
    else if ranges[0].0 <= code <= ranges[0].1 then true
    else
      assert forall k :: 1 <= k < |ranges| ==> ranges[k] == ranges[1..][k - 1];
      AnyRange(code, ranges[1..])
  }

  /** The search loop of both classifiers: the first character in one of `ranges` answers true. */
  function HasCharIn(text: string, ranges: seq<CodeRange>): (b: bool)
    ensures b <==> exists i :: 0 <= i < |text| && AnyRange(text[i] as int, ranges)
  {
    if text == [] then false
    else if AnyRange(text[0] as int, ranges) then true
    else
      assert forall i :: 1 <= i < |text| ==> text[i] == text[1..][i - 1];
      HasCharIn(text[1..], ranges)
  }

  /** `is_cjk`. */
  function IsCjk(text: string): (b: bool)
    ensures b <==> exists i, k :: 0 <= i < |text| && 0 <= k < |CjkRanges|
                                   && CjkRanges[k].0 <= text[i] as int <= CjkRanges[k].1
    ensures text == [] ==> !b
  {
    HasCharIn(text, CjkRanges)
  }

  /** Whether some character lies in a Cyrillic block. */
  function HasCyrillic(text: string): (b: bool)
    ensures b <==> exists i, k :: 0 <= i < |text| && 0 <= k < |CyrillicRanges|
                                   && CyrillicRanges[k].0 <= text[i] as int <= CyrillicRanges[k].1
  {
    HasCharIn(text, CyrillicRanges)
  }

  /** `is_not_latin`: CJK first, then Cyrillic. */
  function IsNotLatin(text: string): (b: bool)
    ensures b <==> exists i :: 0 <= i < |text| && (AnyRange(text[i] as int, CjkRanges) || AnyRange(text[i] as int, CyrillicRanges))
    ensures IsCjk(text) ==> b
  {
    if IsCjk(text) then true else HasCyrillic(text)
  }

  /** Whether a string has a CJK character is decided character by character. */
  lemma IsCjkConcat(s: string, t: string)
    ensures IsCjk(s + t) <==> IsCjk(s) || IsCjk(t)
  {
    var st := s + t;
    if IsCjk(st) {
      var i :| 0 <= i < |st| && AnyRange(st[i] as int, CjkRanges);
      if i >= |s| {
        assert t[i - |s|] == st[i];
      }
    }
    if IsCjk(t) {
      var i :| 0 <= i < |t| && AnyRange(t[i] as int, CjkRanges);
      assert st[|s| + i] == t[i];
    }
    if IsCjk(s) {
      var i :| 0 <= i < |s| && AnyRange(s[i] as int, CjkRanges);
      assert st[i] == s[i];
    }
  }

  /** Every block either classifier tests starts at U+0400 or later. */
  lemma RangesStartAtCyrillic(code: int)
    requires code < 0x400
    ensures !AnyRange(code, CjkRanges) && !AnyRange(code, CyrillicRanges)
  {
    forall k | 0 <= k < |CjkRanges| ensures CjkRanges[k].0 >= 0x400 { }
    forall k | 0 <= k < |CyrillicRanges| ensures CyrillicRanges[k].0 >= 0x400 { }
  }

  /** A string made of characters below U+0400 (ASCII, Latin-1, Greek) is Latin by both tests. */
  lemma BelowCyrillicIsLatin(text: string)
    requires forall i :: 0 <= i < |text| ==> (text[i] as int) < 0x400
    ensures !IsCjk(text) && !IsNotLatin(text)
  {
    forall i | 0 <= i < |text|
      ensures !AnyRange(text[i] as int, CjkRanges) && !AnyRange(text[i] as int, CyrillicRanges)
    {
      RangesStartAtCyrillic(text[i] as int);
    }
  }

  /** Whether the comprehension keeps `p`: `p and not is_cjk(p)`. */
  predicate Keep(p: Option<string>) {
    p.Some? && p.value != [] && !IsCjk(p.value)
  }

  /** `[p for p in raw if p and not is_cjk(p)]`. */
  function FilterPublishers(raw: seq<Option<string>>): (filtered: seq<string>)
    ensures |filtered| <= |raw|
    ensures forall j :: 0 <= j < |filtered| ==> filtered[j] != [] && !IsCjk(filtered[j])
  {
    if raw == [] then []
    else
      var front, last := raw[..|raw| - 1], raw[|raw| - 1];
      FilterPublishers(front) + (if Keep(last) then [last.value] else [])
  }

  /** The filter works element by element, so it distributes over concatenation. */
  lemma {:induction false} FilterConcat(a: seq<Option<string>>, b: seq<Option<string>>)
    ensures FilterPublishers(a + b) == FilterPublishers(a) + FilterPublishers(b)
    decreases |b|
  {
    if b == [] {
      assert a + b == a;
    } else {
      var b' := b[..|b| - 1];
      FilterConcat(a, b');
      assert (a + b)[..|a + b| - 1] == a + b';
    }
  }

  /**
   * Exactly the kept elements survive: a string is in the result iff it occurs in the input as
   * a non-empty, non-CJK publisher.
   */
  lemma {:induction false} FilterMembership(raw: seq<Option<string>>, s: string)
    ensures s in FilterPublishers(raw) <==> Some(s) in raw && Keep(Some(s))
  {
    if raw != [] {
      var front, last := raw[..|raw| - 1], raw[|raw| - 1];
      FilterMembership(front, s);
      assert raw == front + [last];
    }
  }

  /** The positions of `raw` the filter keeps, in increasing order. */
  function KeptPositions(raw: seq<Option<string>>): (pos: seq<nat>)
    ensures forall j :: 0 <= j < |pos| ==> pos[j] < |raw|
  {
    if raw == [] then []
    else KeptPositions(raw[..|raw| - 1]) + (if Keep(raw[|raw| - 1]) then [|raw| - 1] else [])
  }

  /** `filtered` is `raw` with some elements dropped: its j-th string sits at position `pos[j]`, and positions increase. */
  ghost predicate SubsequenceAt(raw: seq<Option<string>>, filtered: seq<string>, pos: seq<nat>) {
    && |pos| == |filtered|
    && (forall j :: 0 <= j < |pos| ==> pos[j] < |raw| && raw[pos[j]] == Some(filtered[j]))
    && (forall j :: 0 < j < |pos| ==> pos[j - 1] < pos[j])
  }

  /** The result keeps the input's order: it is an order-preserving subsequence of the input. */
  lemma {:induction false} FilterIsSubsequence(raw: seq<Option<string>>)
    ensures SubsequenceAt(raw, FilterPublishers(raw), KeptPositions(raw))
  {
    if raw != [] {
      var front, last := raw[..|raw| - 1], raw[|raw| - 1];
      FilterIsSubsequence(front);
      var pos, f := KeptPositions(front), FilterPublishers(front);
      assert forall j :: 0 <= j < |pos| ==> raw[pos[j]] == front[pos[j]];
      if Keep(last) {
        assert KeptPositions(raw) == pos + [|raw| - 1];
        assert FilterPublishers(raw) == f + [last.value];
      } else {
        assert KeptPositions(raw) == pos + [];
        assert FilterPublishers(raw) == f + [];
      }
    }
  }

  /** A non-empty Cyrillic publisher without CJK characters reaches the embedding step. */
  lemma CyrillicKept(raw: seq<Option<string>>, s: string)
    requires Some(s) in raw && s != [] && HasCyrillic(s) && !IsCjk(s)
    ensures s in FilterPublishers(raw) && IsNotLatin(s)
  {
    FilterMembership(raw, s);
  }
}
