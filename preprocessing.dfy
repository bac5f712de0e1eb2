/**
 * The publisher-field decoder: `normalize` and `process_row`. A raw publisher cell such as
 * `"Acme Press [omid:01234 crossref:55]"` becomes a tuple (row id, literal, omid, cr), where the
 * identifiers come from the first bracketed `key:value` group. The row id, written in decimal,
 * fills both identifiers when there is no group and `cr` for a one-token group; a group with
 * nothing after its space leaves `cr` empty.
 */
module Preprocessing {
  import opened Wrappers
  import opened Strings
  import opened Decimal
  import opened Unicode
  import opened IdPattern

  /** Python's `string.punctuation`. */
  const Punctuation: string := "!\"#$%&'()*+,-./:;<=>?@[\\]^_`{|}~"

  /** The filter condition of `normalize`: not a combining mark, or ASCII punctuation. */
  predicate Kept(c: char, combining: char -> bool) {
    !combining(c) || c in Punctuation
  }

  /** The comprehension in `normalize`: the characters that pass `Kept`, in order. */
  function DropMarks(s: string, combining: char -> bool): (r: string)
    ensures |r| <= |s|
    ensures forall c :: c in r <==> c in s && Kept(c, combining)
  {
    if s == [] then []
    else (if Kept(s[0], combining) then [s[0]] else []) + DropMarks(s[1..], combining)
  }

  /** The filter works character by character, so it keeps the order of what it keeps. */
  lemma {:induction false} DropMarksConcat(a: string, b: string, combining: char -> bool)
    ensures DropMarks(a + b, combining) == DropMarks(a, combining) + DropMarks(b, combining)
  {
    if a != [] {
      assert (a + b)[0] == a[0] && (a + b)[1..] == a[1..] + b;
      DropMarksConcat(a[1..], b, combining);
      var head := if Kept(a[0], combining) then [a[0]] else [];
      assert a + b != [];
      assert DropMarks(a + b, combining) == head + DropMarks(a[1..] + b, combining);
      assert DropMarks(a, combining) == head + DropMarks(a[1..], combining);
    } else {
      assert a + b == b;
    }
  }

  /** Filtering twice is filtering once. */
  lemma {:induction false} DropMarksIdempotent(s: string, combining: char -> bool)
    ensures DropMarks(DropMarks(s, combining), combining) == DropMarks(s, combining)
  {
    if s != [] {
      DropMarksIdempotent(s[1..], combining);
      var head := if Kept(s[0], combining) then [s[0]] else [];
      DropMarksConcat(head, DropMarks(s[1..], combining), combining);
      if Kept(s[0], combining) {
        assert DropMarks(head, combining) == head by {
          assert head[1..] == [];
        }
      }
    }
  }

  /** `normalize(s)`: NFKD decomposition, then the combining-mark filter. */
  function Normalize(s: string, t: Tables): (r: string)
    ensures forall i :: 0 <= i < |r| ==> Kept(r[i], t.combining)
  {
    DropMarks(t.nfkd(s), t.combining)
  }

  /** The tuple `(idx, literal, omid, cr)` that `process_row` returns. */
  datatype Parsed = Parsed(rowId: string, literal: string, omid: string, cr: string)

  /** `row[1].strip().lower()`, then only the part before the first `"; "`. */
  function DataField(publisher: string, t: Tables): (d: string)
    ensures d <= t.lower(Strip(publisher, t.isSpace)) && !ContainsSeparator(d)
  {
    BeforeSeparator(t.lower(Strip(publisher, t.isSpace)))
  }

  /** The two identifiers read from the matched group; `idx` fills `cr` for a one-token group. */
  function IdFields(group: string, idx: string): (ids: (string, string))
    requires |group| >= 1
    ensures ' ' !in ids.0
  {
    if ' ' in group then
      var pieces := SplitOn(group[1..], ' ');
      NotInStrip(pieces[0], IsOpenBracket, ' ');
      (Strip(pieces[0], IsOpenBracket), Strip(Join("; ", pieces[1..]), IsCloseBracket))
    else
      NotInStrip(group, IsOpenBracket, ' ');
      NotInStrip(Strip(group, IsOpenBracket), IsCloseBracket, ' ');
      (Strip(Strip(group, IsOpenBracket), IsCloseBracket), idx)
  }

  /** `.strip().strip("[").strip("]")` */
  function Trimmed(s: string, t: Tables): (r: string)
    ensures |r| <= |s|
    ensures r == [] || (r[0] != ']' && r[|r| - 1] != ']')
  {
    var inner := Strip(Strip(s, t.isSpace), IsOpenBracket);
    Strip(inner, IsCloseBracket)
  }

  /** The literal before normalisation: every match removed, then trimmed. */
  function Literal(field: string, t: Tables): (r: string)
    ensures |r| <= |field|
  {
    Trimmed(RemoveMatches(field, t.isWord), t)
  }

  /** `process_row` from the point where the data field is known. */
  function ParseField(idx: string, field: string, t: Tables): (r: Parsed)
    ensures r.rowId == idx
  {
    match Search(field, t.isWord)
    case None => Parsed(idx, field, idx, idx)
    case Some((b, e)) =>
      var (omid, cr) := IdFields(field[b..e], idx);
      Parsed(idx, Normalize(Literal(field, t), t), omid, cr)
  }

  /**
   * `process_row((row_id, publisher, _, _))`. A null or empty publisher gives `None`; otherwise
   * the row id in decimal is the first component. The two placeholder columns are ignored.
   */
  function ParseRow(rowId: nat, publisher: Option<string>, t: Tables): (r: Option<Parsed>)
    ensures r.None? <==> publisher.None? || publisher.value == ""
    ensures r.Some? ==> r.value.rowId == NatToString(rowId)
  {
    match publisher
    case None => None
    case Some(p) =>
      if p == "" then None else Some(ParseField(NatToString(rowId), DataField(p, t), t))
  }

  /** Only the text before the first `"; "` of the stripped, lower-cased cell is decoded. */
  lemma OnlyFirstSegmentDecoded(rowId: nat, p: string, d: string, tail: string, t: Tables)
    requires p != "" && !ContainsSeparator(d)
    requires t.lower(Strip(p, t.isSpace)) == d + "; " + tail
    ensures ParseRow(rowId, Some(p), t) == Some(ParseField(NatToString(rowId), d, t))
  {
    BeforeSeparatorIgnoresTail(d, tail);
  }

  /**
   * With no identifier group in the field, the row is kept: the literal is the field itself,
   * not normalised, and both identifiers are the row id.
   */
  lemma NoGroupKeepsRow(rowId: nat, p: string, t: Tables)
    requires WordClassWf(t.isWord) && p != "" && !HasGroup(DataField(p, t), t.isWord)
    ensures var idx := NatToString(rowId);
      ParseRow(rowId, Some(p), t) == Some(Parsed(idx, DataField(p, t), idx, idx))
  {
    SearchNoneIff(DataField(p, t), t.isWord);
  }

  /**
   * The omid of a decoded row is either its own row id (no group was found) or a keyed
   * identifier that no row id can equal.
   */
  lemma RowOmidIsRowIdOrKeyed(rowId: nat, publisher: Option<string>, t: Tables)
    requires WordClassWf(t.isWord) && ParseRow(rowId, publisher, t).Some?
    ensures var omid := ParseRow(rowId, publisher, t).value.omid;
      omid == NatToString(rowId) || forall n: nat :: omid != NatToString(n)
  {
    var p := publisher.value;
    var field := DataField(p, t);
    if HasGroup(field, t.isWord) {
      FoundOmidIsNotRowId(NatToString(rowId), field, t);
    } else {
      NoGroupKeepsRow(rowId, p, t);
    }
  }

  /** The first space of a group lies after its colon, in the value part. */
  lemma FirstSpaceAfterColon(g: string, k: int, t: Tables) returns (sp: nat)
    requires WordClassWf(t.isWord) && |g| >= 2 && g[0] == '[' && KeyValueAt(g, k, t.isWord) && ' ' in g
    ensures k <= sp < |g| - 1 && g[1..][sp] == ' ' && ' ' !in g[1..][..sp]
  {
    var inner := g[1..];
    assert ' ' in inner;
    sp := IndexFrom(inner, 0, ' ').value;
    assert ' ' !in inner[..sp] by {
      forall m | 0 <= m < sp ensures inner[..sp][m] != ' ' {
        assert inner[..sp][m] == inner[m];
      }
    }
  }

  /** The omid read from a group keeps the group's colon. */
  lemma GroupOmidHasColon(g: string, idx: string, t: Tables)
    requires WordClassWf(t.isWord) && IsIdGroup(g, t.isWord)
    ensures ':' in IdFields(g, idx).0
  {
    var k :| KeyValueAt(g, k, t.isWord);
    if ' ' in g {
      var sp := FirstSpaceAfterColon(g, k, t);
      SplitOnFirst(g[1..], ' ', sp);
      var first := g[1..][..sp];
      assert first[k - 1] == ':';
      StripKeeps(first, IsOpenBracket, k - 1);
      assert IdFields(g, idx).0 == Strip(first, IsOpenBracket);
    } else {
      StripKeeps(g, IsOpenBracket, k);
      var once := Strip(g, IsOpenBracket);
      var i :| 0 <= i < |once| && once[i] == ':';
      StripKeeps(once, IsCloseBracket, i);
    }
  }

  /** A found omid always holds a colon, so it never equals a decimal row id. */
  lemma FoundOmidIsNotRowId(idx: string, field: string, t: Tables)
    requires WordClassWf(t.isWord) && HasGroup(field, t.isWord)
    ensures ':' in ParseField(idx, field, t).omid
    ensures forall n: nat :: ParseField(idx, field, t).omid != NatToString(n)
  {
    SearchNoneIff(field, t.isWord);
    var (b, e) := Search(field, t.isWord).value;
    MatchAtIff(field, b, e, t.isWord);
    GroupOmidHasColon(field[b..e], idx, t);
    var omid := ParseField(idx, field, t).omid;
    assert omid == IdFields(field[b..e], idx).0;
  }

  /** A one-token group: omid is the group without its outer brackets, key prefix kept. */
  lemma OneTokenGroupFields(g: string, idx: string, t: Tables)
    requires WordClassWf(t.isWord) && IsIdGroup(g, t.isWord) && ' ' !in g
    ensures IdFields(g, idx) == (g[1..|g| - 1], idx)
  {
    var k :| KeyValueAt(g, k, t.isWord);
    assert g[1] != '[' by {
      assert t.isWord(g[1]);
    }
    assert g[|g| - 2] != ']';
    StripBrackets(g);
  }

  /**
   * A group with a space: omid is the first space-separated token after `[` (key prefix kept),
   * and cr is the remaining tokens joined by `"; "` (possibly empty).
   */
  lemma SpacedGroupFields(g: string, idx: string, sp: nat, t: Tables)
    requires WordClassWf(t.isWord) && IsIdGroup(g, t.isWord)
    requires sp < |g| - 2 && g[1..|g| - 1][sp] == ' ' && ' ' !in g[1..|g| - 1][..sp]
    ensures var inner := g[1..|g| - 1];
      IdFields(g, idx) == (Strip(inner[..sp], IsOpenBracket), Join("; ", SplitOn(inner[sp + 1..], ' ')))
  {
    var inner := g[1..|g| - 1];
    assert g[sp + 1] == ' ';
    assert g[1..] == inner + "]";
    assert g[1..][..sp] == inner[..sp];
    SplitOnFirst(g[1..], ' ', sp);
    assert g[1..][sp + 1..] == inner[sp + 1..] + "]";
    var pieces := SplitOn(g[1..], ' ');
    assert pieces[1..] == SplitOn(inner[sp + 1..] + "]", ' ');
    var rest := inner[sp + 1..];
    var joined := Join("; ", SplitOn(rest, ' '));
    JoinSplitOnAppend(rest, ' ', "; ", ']');
    var k :| KeyValueAt(g, k, t.isWord);
    assert ']' !in inner by {
      forall m | 0 <= m < |inner| ensures inner[m] != ']' {
        assert inner[m] == g[m + 1];
      }
    }
    assert ']' !in joined by {
      var parts := SplitOn(rest, ' ');
      NotInSplitOn(rest, ' ', ']');
      NotInJoin("; ", parts, ']');
    }
    assert joined != [] ==> joined[0] in joined && joined[|joined| - 1] in joined;
    StripDropsLast(joined, ']', IsCloseBracket);
  }

  /**
   * When the leftmost substring in the pattern's language is `field[b..e]`, the identifiers are
   * read from it and the literal is the field with every match removed, trimmed and normalised.
   */
  lemma LeftmostGroupDecoded(idx: string, field: string, b: nat, e: nat, t: Tables)
    requires WordClassWf(t.isWord) && IsLeftmostGroup(field, b, e, t.isWord)
    ensures b < e <= |field|
    ensures ParseField(idx, field, t)
      == Parsed(idx, Normalize(Literal(field, t), t), IdFields(field[b..e], idx).0, IdFields(field[b..e], idx).1)
  {
    SearchIsLeftmost(field, b, e, t.isWord);
    assert Search(field, t.isWord) == Some((b, e));
  }

  /**
   * A field whose one match is `g`: the literal is the rest of the field, trimmed and
   * normalised, and the identifiers are read from `g`.
   */
  lemma OnlyGroupRow(idx: string, prefix: string, g: string, suffix: string, t: Tables)
    requires WordClassWf(t.isWord) && '[' !in prefix && IsIdGroup(g, t.isWord) && !HasGroup(suffix, t.isWord)
    ensures ParseField(idx, prefix + g + suffix, t)
      == Parsed(idx, Normalize(Trimmed(prefix + suffix, t), t), IdFields(g, idx).0, IdFields(g, idx).1)
  {
    var field := prefix + g + suffix;
    var b, e := |prefix|, |prefix| + |g|;
    assert field[b..e] == g;
    forall i, e' | 0 <= i < b ensures !GroupAt(field, i, e', t.isWord) {
      assert field[i] == prefix[i];
    }
    SearchIsLeftmost(field, b, e, t.isWord);
    RemoveOnlyGroup(prefix, g, suffix, t.isWord);
  }

  /** An ASCII string is its own normal form. */
  lemma NormalizeAscii(s: string, t: Tables)
    requires t.Wf() && IsAscii(s)
    ensures Normalize(s, t) == s
  {
    DropMarksAllKept(s, t.combining);
  }

  lemma {:induction false} DropMarksAllKept(s: string, combining: char -> bool)
    requires forall i :: 0 <= i < |s| ==> Kept(s[i], combining)
    ensures DropMarks(s, combining) == s
  {
    if s != [] {
      DropMarksAllKept(s[1..], combining);
    }
  }

  /** The data field of an ASCII cell without surrounding blanks and without `;`. */
  lemma AsciiDataField(p: string, t: Tables)
    requires t.Wf() && p != [] && IsAscii(p) && IsAsciiGraphic(p[0]) && IsAsciiGraphic(p[|p| - 1])
    requires ';' !in p
    ensures DataField(p, t) == AsciiLower(p)
  {
    var d := AsciiLower(p);
    assert ';' !in d by {
      forall i | 0 <= i < |d| ensures d[i] != ';' {
        assert p[i] != ';';
      }
    }
    BeforeSeparatorWhole(d);
  }

  /**
   * A group whose only space is the one before `]`, such as `"[omid:x ]"`: cr is the empty
   * string, not the row id.
   */
  lemma TrailingSpaceEmptyCr(g: string, idx: string, t: Tables)
    requires WordClassWf(t.isWord) && IsIdGroup(g, t.isWord)
    requires g[|g| - 2] == ' ' && ' ' !in g[1..|g| - 2]
    ensures IdFields(g, idx).1 == ""
  {
    var inner := g[1..|g| - 1];
    var sp := |g| - 3;
    assert inner[..sp] == g[1..|g| - 2];
    SpacedGroupFields(g, idx, sp, t);
    assert inner[sp + 1..] == [];
  }
}
