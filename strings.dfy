/** The Python `str` methods the publisher decoder uses: `strip`, `split`, `join` and `in`. */
module Strings {

  predicate IsOpenBracket(c: char) {
    c == '['
  }

  predicate IsCloseBracket(c: char) {
    c == ']'
  }

  /** `s.lstrip(chars)`: drops the leading characters that `drop` accepts. */
  function TrimStart(s: string, drop: char -> bool): (r: string)
    ensures |r| <= |s| && r == s[|s| - |r|..]
    ensures forall i :: 0 <= i < |s| - |r| ==> drop(s[i])
    ensures r == [] || !drop(r[0])
  {
    if s != [] && drop(s[0]) then TrimStart(s[1..], drop) else s
  }

  /** `s.rstrip(chars)`: drops the trailing characters that `drop` accepts. */
  function TrimEnd(s: string, drop: char -> bool): (r: string)
    ensures |r| <= |s| && r == s[..|r|]
    ensures forall i :: |r| <= i < |s| ==> drop(s[i])
    ensures r == [] || !drop(r[|r| - 1])
  {
    if s != [] && drop(s[|s| - 1]) then TrimEnd(s[..|s| - 1], drop) else s
  }

  /** `s.strip(chars)` (and `s.strip()` when `drop` is the whitespace class). */
  function Strip(s: string, drop: char -> bool): (r: string)
    ensures |r| <= |s|
    ensures r == [] || (!drop(r[0]) && !drop(r[|r| - 1]))
    ensures (s == [] || (!drop(s[0]) && !drop(s[|s| - 1]))) ==> r == s
  {
    TrimEnd(TrimStart(s, drop), drop)
  }

  /** Only droppable characters are removed: every other one survives `strip`. */
  lemma StripKeeps(s: string, drop: char -> bool, i: int)
    requires 0 <= i < |s| && !drop(s[i])
    ensures s[i] in Strip(s, drop)
  {
    var t := TrimStart(s, drop);
    var r := TrimEnd(t, drop);
    assert s[i] == t[i - (|s| - |t|)];
    assert s[i] == r[i - (|s| - |t|)];
  }

  /** `strip` only removes characters, so it adds none. */
  lemma NotInStrip(s: string, drop: char -> bool, c: char)
    requires c !in s
    ensures c !in Strip(s, drop)
  {
    var m, r := TrimStart(s, drop), Strip(s, drop);
    var j := |s| - |m|;
    assert r == m[..|r|];
    assert r == s[j..j + |r|];
  }

  /** `rstrip` removes one trailing droppable character from a string with a clean end. */
  lemma TrimEndOne(m: string, c: char, drop: char -> bool)
    requires drop(c) && (m == [] || !drop(m[|m| - 1]))
    ensures TrimEnd(m + [c], drop) == m
  {
    assert (m + [c])[..|m|] == m;
  }

  /** Stripping a string whose only droppable characters are one extra at the end. */
  lemma StripDropsLast(m: string, c: char, drop: char -> bool)
    requires drop(c) && (m == [] || (!drop(m[0]) && !drop(m[|m| - 1])))
    ensures Strip(m + [c], drop) == m
  {
    if m == [] {
      assert [c][1..] == [];
    } else {
      assert (m + [c])[0] == m[0];
      TrimEndOne(m, c, drop);
    }
  }

  /** Stripping a string whose only droppable characters are one extra at the start. */
  lemma StripDropsFirst(c: char, m: string, drop: char -> bool)
    requires drop(c) && (m == [] || (!drop(m[0]) && !drop(m[|m| - 1])))
    ensures Strip([c] + m, drop) == m
  {
    assert ([c] + m)[1..] == m;
    assert TrimStart([c] + m, drop) == TrimStart(m, drop) == m;
  }

  /** `s.strip("[").strip("]")` of a bracketed string whose inside does not start or end with a bracket. */
  lemma StripBrackets(g: string)
    requires |g| >= 3 && g[0] == '[' && g[|g| - 1] == ']'
    requires g[1] != '[' && g[1] != ']' && g[|g| - 2] != ']'
    ensures Strip(Strip(g, IsOpenBracket), IsCloseBracket) == g[1..|g| - 1]
  {
    var inner, tail := g[1..|g| - 1], g[1..];
    assert g == [g[0]] + tail;
    assert tail == inner + [g[|g| - 1]];
    StripDropsFirst('[', tail, IsOpenBracket);
    StripDropsLast(inner, ']', IsCloseBracket);
  }

  /** `"; " in s` */
  predicate ContainsSeparator(s: string) {
    exists i :: 0 <= i < |s| - 1 && s[i] == ';' && s[i + 1] == ' '
  }

  /** `s.split("; ", maxsplit=1)[0]`: the text before the first `"; "`, or all of `s`. */
  function BeforeSeparator(s: string): (r: string)
    ensures r <= s && !ContainsSeparator(r)
    ensures r == s || (|r| + 2 <= |s| && s[|r|] == ';' && s[|r| + 1] == ' ')
  {
    if |s| < 2 then s
    else if s[0] == ';' && s[1] == ' ' then []
    else
      [s[0]] + BeforeSeparator(s[1..])
  }

  /** Whatever follows the first `"; "` never reaches the part that is kept. */
  lemma {:induction false} BeforeSeparatorIgnoresTail(d: string, tail: string)
    requires !ContainsSeparator(d)
    ensures BeforeSeparator(d + "; " + tail) == d
  {
    if d != [] {
      var s := d + "; " + tail;
      assert s[1..] == d[1..] + "; " + tail;
      BeforeSeparatorIgnoresTail(d[1..], tail);
      assert !(s[0] == ';' && s[1] == ' ') by {
        if |d| >= 2 {
          assert !(d[0] == ';' && d[1] == ' ');
        }
      }
    }
  }

  /** With no `"; "` at all, the whole string is kept. */
  lemma BeforeSeparatorWhole(s: string)
    requires !ContainsSeparator(s)
    ensures BeforeSeparator(s) == s
  {
  }

  /** `sep.join(parts)` */
  function Join(sep: string, parts: seq<string>): string {
    if parts == [] then []
    else if |parts| == 1 then parts[0]
    else parts[0] + sep + Join(sep, parts[1..])
  }

  /** `s.split(sep)` for a one-character separator: empty pieces are kept. */
  function SplitOn(s: string, sep: char): (parts: seq<string>)
    ensures |parts| >= 1
    ensures forall i :: 0 <= i < |parts| ==> sep !in parts[i]
  {
    if s == [] then [[]]
    else
      var rest := SplitOn(s[1..], sep);
      if s[0] == sep then [[]] + rest else [[s[0]] + rest[0]] + rest[1..]
  }

  /** A character absent from the string is absent from every piece. */
  lemma {:induction false} NotInSplitOn(s: string, sep: char, c: char)
    requires c !in s
    ensures forall i :: 0 <= i < |SplitOn(s, sep)| ==> c !in SplitOn(s, sep)[i]
  {
    if s != [] {
      NotInSplitOn(s[1..], sep, c);
    }
  }

  /** Joining the pieces with the separator gives the string back. */
  lemma {:induction false} JoinSplitOn(s: string, sep: char)
    ensures Join([sep], SplitOn(s, sep)) == s
  {
    if s != [] {
      var rest := SplitOn(s[1..], sep);
      JoinSplitOn(s[1..], sep);
      if s[0] == sep {
        assert SplitOn(s, sep) == [[]] + rest;
        assert ([[]] + rest)[1..] == rest;
      } else {
        var parts := [[s[0]] + rest[0]] + rest[1..];
        if |rest| > 1 {
          assert parts[1..] == rest[1..];
          assert Join([sep], rest) == rest[0] + [sep] + Join([sep], rest[1..]);
        }
      }
    }
  }

  /** A character in no piece and not in the joiner is not in the joined string. */
  lemma {:induction false} NotInJoin(joiner: string, parts: seq<string>, c: char)
    requires c !in joiner && forall i :: 0 <= i < |parts| ==> c !in parts[i]
    ensures c !in Join(joiner, parts)
  {
    if |parts| > 1 {
      NotInJoin(joiner, parts[1..], c);
    }
  }

  /** A string without the separator is a single piece. */
  lemma {:induction false} SplitOnAbsent(s: string, sep: char)
    requires sep !in s
    ensures SplitOn(s, sep) == [s]
  {
    if s != [] {
      SplitOnAbsent(s[1..], sep);
      assert [s[0]] + s[1..] == s;
    }
  }

  /** Splitting at the first separator: the first piece is everything before it. */
  lemma {:induction false} SplitOnFirst(s: string, sep: char, k: nat)
    requires k < |s| && s[k] == sep && sep !in s[..k]
    ensures SplitOn(s, sep) == [s[..k]] + SplitOn(s[k + 1..], sep)
  {
    if k > 0 {
      assert s[0] == s[..k][0] != sep;
      assert s[1..][..k - 1] == s[..k][1..];
      SplitOnFirst(s[1..], sep, k - 1);
      assert s[1..][k - 1 + 1..] == s[k + 1..];
      assert [s[0]] + s[1..][..k - 1] == s[..k];
    }
  }

  /** A single non-separator character is one piece. */
  lemma SplitOnSingle(sep: char, c: char)
    requires c != sep
    ensures SplitOn([c], sep) == [[c]]
  {
    var e: string := [];
    assert [c][1..] == e;
    var rest := SplitOn([c][1..], sep);
    assert rest == [[]];
    assert rest[0] == e && rest[1..] == [];
    assert [c] + e == [c];
  }

  /** Prefixing the first piece with a character prefixes the joined string with it. */
  lemma JoinConsFirst(joiner: string, x: char, parts: seq<string>)
    requires |parts| >= 1
    ensures Join(joiner, [[x] + parts[0]] + parts[1..]) == [x] + Join(joiner, parts)
  {
    var q := [[x] + parts[0]] + parts[1..];
    if |parts| > 1 {
      assert q[1..] == parts[1..];
      assert Join(joiner, q) == q[0] + joiner + Join(joiner, parts[1..]);
    }
  }

  /** Appending a non-separator character appends it to the joined pieces. */
  lemma {:induction false} JoinSplitOnAppend(s: string, sep: char, joiner: string, c: char)
    requires c != sep
    ensures Join(joiner, SplitOn(s + [c], sep)) == Join(joiner, SplitOn(s, sep)) + [c]
  {
    if s == [] {
      SplitOnSingle(sep, c);
      assert s + [c] == [c];
    } else {
      var s' := s + [c];
      assert s'[1..] == s[1..] + [c] && s'[0] == s[0];
      JoinSplitOnAppend(s[1..], sep, joiner, c);
      var rest, rest' := SplitOn(s[1..], sep), SplitOn(s[1..] + [c], sep);
      if s[0] == sep {
        assert SplitOn(s, sep) == [[]] + rest && SplitOn(s', sep) == [[]] + rest';
        assert ([[]] + rest)[1..] == rest && ([[]] + rest')[1..] == rest';
      } else {
        JoinConsFirst(joiner, s[0], rest);
        JoinConsFirst(joiner, s[0], rest');
      }
    }
  }
}
