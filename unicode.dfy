/**
 * The Unicode data the decoder borrows from Python and its libraries: the regex class `\w`,
 * `str.isspace` (used by `str.strip()`), `str.lower`, `unicodedata.normalize("NFKD", _)` and
 * `unicodedata.combining`. Their tables are not modelled; they are carried as function values,
 * and `Tables.Wf` records the few facts about the real tables that the proofs use.
 */
module Unicode {

  predicate IsAsciiWordChar(c: char) {
    'a' <= c <= 'z' || 'A' <= c <= 'Z' || '0' <= c <= '9' || c == '_'
  }

  /** Printable ASCII other than the space. */
  predicate IsAsciiGraphic(c: char) {
    '!' <= c <= '~'
  }

  predicate IsAscii(s: string) {
    forall i :: 0 <= i < |s| ==> (s[i] as int) < 128
  }

  function AsciiLowerChar(c: char): char {
    if 'A' <= c <= 'Z' then ((c as int) + 32) as char else c
  }

  /** What `str.lower` does to an ASCII string. */
  function AsciiLower(s: string): (r: string)
    ensures |r| == |s|
    ensures forall i :: 0 <= i < |r| ==> !('A' <= r[i] <= 'Z')
    ensures forall i :: 0 <= i < |s| && !('A' <= s[i] <= 'Z') ==> r[i] == s[i]
  {
    seq(|s|, i requires 0 <= i < |s| => AsciiLowerChar(s[i]))
  }

  /** What the proofs use of the regex class `\w`: it holds every ASCII letter, digit and `_`,
   * and none of the four characters the identifier pattern spells out. */
  ghost predicate WordClassWf(isWord: char -> bool) {
    && (forall c :: IsAsciiWordChar(c) ==> isWord(c))
    && !isWord(' ') && !isWord(':') && !isWord('[') && !isWord(']')
  }

  datatype Tables = Tables(
    isWord: char -> bool,        // membership in the regex class \w
    isSpace: char -> bool,       // str.isspace, the class str.strip() removes
    lower: string -> string,     // str.lower
    nfkd: string -> string,      // unicodedata.normalize("NFKD", _)
    combining: char -> bool      // unicodedata.combining(c) != 0
  ) {
    /** Facts that hold of Python's own tables. */
    ghost predicate Wf() {
      && WordClassWf(isWord)
      && isSpace(' ')
      && (forall c :: IsAsciiGraphic(c) ==> !isSpace(c))
      && (forall s :: IsAscii(s) ==> lower(s) == AsciiLower(s))
      && (forall s :: IsAscii(s) ==> nfkd(s) == s)
      && (forall c :: (c as int) < 0x300 ==> !combining(c))
    }
  }
}
