/**
 * The frame pipeline of `process_data`: the row index and the first `unique` on the raw
 * `publisher` column, the row-by-row decoding, the cascade of three `unique` passes keyed on
 * `pub_cr`, `pub_omid` and `publisher`, and the sorted lines of `publishers.txt`.
 */
module ProcessData {
  import opened Wrappers
  import opened Decimal
  import opened Unicode
  import opened Preprocessing
  import opened Unique
  import opened StringOrder

  /**
   * A row of the loaded frame after `with_row_index`: its position in the file and its
   * `publisher` cell. The two empty placeholder columns are constant and not carried.
   */
  datatype RawRow = RawRow(rowId: nat, publisher: Option<string>)

  function RawRowId(r: RawRow): nat { r.rowId }

  function RawPublisher(r: RawRow): Option<string> { r.publisher }

  /** A row of the decoded frame: `row_id`, `publisher`, `pub_omid`, `pub_cr`, each nullable. */
  datatype Row = Row(rowId: Option<string>, publisher: Option<string>, omid: Option<string>, cr: Option<string>)

  function RowId(r: Row): Option<string> { r.rowId }

  function RowPublisher(r: Row): Option<string> { r.publisher }

  function RowOmid(r: Row): Option<string> { r.omid }

  function RowCr(r: Row): Option<string> { r.cr }

  /** `with_row_index("row_id")`: each cell numbered by its position, from 0. */
  function WithRowIndex(cells: seq<Option<string>>): seq<RawRow> {
    seq(|cells|, i requires 0 <= i < |cells| => RawRow(i, cells[i]))
  }

  /** One row of `map_rows(process_row)`; a row the decoder rejects becomes a row of nulls. */
  function DecodeRow(r: RawRow, t: Tables): (row: Row)
    ensures row.rowId.None? <==> r.publisher.None? || r.publisher.value == ""
    ensures row.rowId.None? ==> row == Row(None, None, None, None)
    ensures row.rowId.Some? ==> row.rowId.value == NatToString(r.rowId)
  {
    match ParseRow(r.rowId, r.publisher, t)
    case None => Row(None, None, None, None)
    case Some(p) => Row(Some(p.rowId), Some(p.literal), Some(p.omid), Some(p.cr))
  }

  /** `raw.map_rows(process_row)`: one decoded row per raw row, in the same order. */
  function DecodeFrame(raw: seq<RawRow>, t: Tables): seq<Row> {
    seq(|raw|, i requires 0 <= i < |raw| => DecodeRow(raw[i], t))
  }

  /** The three passes of the cascade with the frames between them. */
  ghost predicate CascadeSteps(frame: seq<Row>, byCr: seq<Row>, byOmid: seq<Row>, out: seq<Row>) {
    && UniqueBy(frame, byCr, RowCr)
    && UniqueBy(byCr, byOmid, RowOmid)
    && UniqueBy(byOmid, out, RowPublisher)
  }

  /** `out` is an admissible `deduped_df` for the decoded `frame`. */
  ghost predicate Cascade(frame: seq<Row>, out: seq<Row>) {
    exists byCr, byOmid :: CascadeSteps(frame, byCr, byOmid, out)
  }

  /** One admissible outcome, keeping the first row of each key at every pass. */
  function CascadeFirst(frame: seq<Row>): (out: seq<Row>)
    ensures Cascade(frame, out)
  {
    var byCr := KeepFirst(frame, RowCr);
    var byOmid := KeepFirst(byCr, RowOmid);
    var out := KeepFirst(byOmid, RowPublisher);
    KeepFirstIsUnique(frame, RowCr);
    KeepFirstIsUnique(byCr, RowOmid);
    KeepFirstIsUnique(byOmid, RowPublisher);
    assert CascadeSteps(frame, byCr, byOmid, out);
    out
  }

  /** Decoded rows of raw rows with different ids share a `row_id` only if both are the null row. */
  lemma DecodedRowIds(a: RawRow, b: RawRow, t: Tables)
    requires a.rowId != b.rowId
    ensures DecodeRow(a, t).rowId == DecodeRow(b, t).rowId ==> DecodeRow(a, t) == DecodeRow(b, t)
  {
    NatToStringInjective(a.rowId, b.rowId);
  }

  /**
   * The `row_id` column of `deduped_df` has no repeats: rows that share a decimal id come from
   * one raw row and so are equal, and the null rows are equal too, but the `pub_cr` pass keeps
   * at most one of a set of equal rows.
   */
  lemma CascadeRowIdsDistinct(raw: seq<RawRow>, t: Tables, out: seq<Row>)
    requires DistinctOn(raw, RawRowId)
    requires Cascade(DecodeFrame(raw, t), out)
    ensures DistinctOn(out, RowId)
  {
    var frame := DecodeFrame(raw, t);
    CascadeSubMultiset(frame, out);
    CascadeDistinct(frame, out);
    forall i, j | 0 <= i < j < |out| ensures RowId(out[i]) != RowId(out[j]) {
      assert out[i] in multiset(frame) && out[j] in multiset(frame);
      var p :| 0 <= p < |frame| && frame[p] == out[i];
      var q :| 0 <= q < |frame| && frame[q] == out[j];
      if p != q {
        assert p < q ==> RawRowId(raw[p]) != RawRowId(raw[q]);
        assert q < p ==> RawRowId(raw[q]) != RawRowId(raw[p]);
        DecodedRowIds(raw[p], raw[q], t);
      }
      assert RowCr(out[i]) != RowCr(out[j]);
    }
  }

  /** Whatever rows `unique` keeps, the cascade keeps some rows of its input and invents none. */
  lemma CascadeSubMultiset(frame: seq<Row>, out: seq<Row>)
    requires Cascade(frame, out)
    ensures multiset(out) <= multiset(frame)
  {
    var byCr, byOmid :| CascadeSteps(frame, byCr, byOmid, out);
  }

  /** After the cascade no two rows share a `pub_cr`, a `pub_omid` or a `publisher`. */
  lemma CascadeDistinct(frame: seq<Row>, out: seq<Row>)
    requires Cascade(frame, out)
    ensures DistinctOn(out, RowCr) && DistinctOn(out, RowOmid) && DistinctOn(out, RowPublisher)
  {
    var byCr, byOmid :| CascadeSteps(frame, byCr, byOmid, out);
    SubMultisetDistinct(byCr, byOmid, RowCr);
    SubMultisetDistinct(byCr, out, RowCr);
    SubMultisetDistinct(byOmid, out, RowOmid);
  }

  /**
   * All rows whose `pub_cr` is the empty string share one key, so the `pub_cr` pass keeps at
   * most one of them, whatever their omids and literals.
   */
  lemma EmptyCrKeepsOne(frame: seq<Row>, out: seq<Row>, a: Row, b: Row)
    requires Cascade(frame, out)
    requires a != b && a.cr == Some("") && b.cr == Some("")
    ensures !(a in out && b in out)
  {
    CascadeDistinct(frame, out);
  }

  /** Running the cascade again on its own output keeps every row: it is idempotent. */
  lemma CascadeIdempotent(frame: seq<Row>, out: seq<Row>, again: seq<Row>)
    requires Cascade(frame, out) && Cascade(out, again)
    ensures multiset(again) == multiset(out)
  {
    CascadeDistinct(frame, out);
    var byCr, byOmid :| CascadeSteps(out, byCr, byOmid, again);
    UniqueByOfDistinct(out, byCr, RowCr);
    SubMultisetDistinct(out, byCr, RowOmid);
    UniqueByOfDistinct(byCr, byOmid, RowOmid);
    SubMultisetDistinct(out, byOmid, RowPublisher);
    UniqueByOfDistinct(byOmid, again, RowPublisher);
  }

  /**
   * The row ids are assigned before the first `unique`, so the rows it keeps have distinct
   * row ids, as well as distinct raw `publisher` cells.
   */
  lemma PrePassDistinct(cells: seq<Option<string>>, raw: seq<RawRow>)
    requires UniqueBy(WithRowIndex(cells), raw, RawPublisher)
    ensures DistinctOn(raw, RawRowId) && DistinctOn(raw, RawPublisher)
  {
    var indexed := WithRowIndex(cells);
    assert DistinctOn(indexed, RawRowId);
    SubMultisetDistinct(indexed, raw, RawRowId);
  }

  /**
   * A row without an identifier group gets its own row id as omid, and no other decoded row
   * can have that omid: other such rows have other row ids, and a found omid holds a colon.
   * So the `pub_omid` pass never merges a row without a group with any other row.
   */
  lemma SentinelOmidUnique(raw: seq<RawRow>, t: Tables, i: int, j: int)
    requires WordClassWf(t.isWord) && DistinctOn(raw, RawRowId)
    requires 0 <= i < |raw| && 0 <= j < |raw| && i != j
    requires DecodeFrame(raw, t)[i].omid == Some(NatToString(raw[i].rowId))
    ensures DecodeFrame(raw, t)[j].omid != DecodeFrame(raw, t)[i].omid
  {
    var frame := DecodeFrame(raw, t);
    var a, b := raw[i], raw[j];
    assert frame[j] == DecodeRow(b, t);
    if ParseRow(b.rowId, b.publisher, t).Some? {
      RowOmidIsRowIdOrKeyed(b.rowId, b.publisher, t);
      if i < j {
        assert RawRowId(a) != RawRowId(b);
      } else {
        assert RawRowId(b) != RawRowId(a);
      }
      NatToStringInjective(a.rowId, b.rowId);
    }
  }

  /** The publisher column with its nulls left out, each value followed by a newline. */
  function Lines(out: seq<Row>): (lines: seq<string>)
    ensures |lines| <= |out|
    ensures forall i :: 0 <= i < |lines| ==> |lines[i]| >= 1 && lines[i][|lines[i]| - 1] == '\n'
  {
    if out == [] then []
    else
      var rest := Lines(out[..|out| - 1]);
      match out[|out| - 1].publisher
      case None => rest
      case Some(p) => rest + [p + "\n"]
  }

  /** A line `p + "\n"` is listed exactly when some row has the literal `p`. */
  lemma {:induction false} LinesMembership(out: seq<Row>, p: string)
    ensures p + "\n" in Lines(out) <==> exists r :: r in out && r.publisher == Some(p)
  {
    if out != [] {
      var front, last := out[..|out| - 1], out[|out| - 1];
      LinesMembership(front, p);
      assert out == front + [last];
      if last.publisher.Some? {
        var q := last.publisher.value;
        if q + "\n" == p + "\n" {
          assert q == (q + "\n")[..|q|] && p == (p + "\n")[..|p|];
        }
      }
    }
  }

  /**
   * The contents of `publishers.txt`: every non-null `publisher` of the deduplicated frame
   * plus a newline, in ascending order.
   */
  function PublishersFile(out: seq<Row>): (lines: seq<string>)
    ensures Sorted(lines) && multiset(lines) == multiset(Lines(out))
  {
    Sort(Lines(out))
  }

  /** The file lists exactly the non-null literals of the frame. */
  lemma PublishersFileMembership(out: seq<Row>, p: string)
    ensures p + "\n" in PublishersFile(out) <==> exists r :: r in out && r.publisher == Some(p)
  {
    LinesMembership(out, p);
    var line := p + "\n";
    assert line in PublishersFile(out) <==> line in multiset(PublishersFile(out));
    assert line in Lines(out) <==> line in multiset(Lines(out));
  }

  /**
   * The file does not depend on the order in which `unique` returns its rows: two frames with
   * the same rows give the same lines.
   */
  lemma PublishersFileIgnoresOrder(a: seq<Row>, b: seq<Row>)
    requires multiset(a) == multiset(b)
    ensures PublishersFile(a) == PublishersFile(b)
  {
    LinesPermutation(a, b);
    SortedUnique(PublishersFile(a), PublishersFile(b));
  }

  lemma {:induction false} LinesPermutation(a: seq<Row>, b: seq<Row>)
    requires multiset(a) == multiset(b)
    ensures multiset(Lines(a)) == multiset(Lines(b))
    decreases |a|
  {
    if a != [] {
      var last := a[|a| - 1];
      assert a == a[..|a| - 1] + [last];
      assert last in multiset(b);
      var k :| 0 <= k < |b| && b[k] == last;
      var b' := b[..k] + b[k + 1..];
      assert b == b[..k] + [last] + b[k + 1..];
      assert multiset(a[..|a| - 1]) == multiset(a) - multiset{last};
      assert multiset(b') == multiset(b) - multiset{last};
      LinesPermutation(a[..|a| - 1], b');
      LinesRemove(b, k);
    } else {
      assert |b| == |multiset(b)| == 0;
    }
  }

  /** The lines of a frame are those of the frame without row `k` plus that row's line. */
  lemma {:induction false} LinesRemove(b: seq<Row>, k: int)
    requires 0 <= k < |b|
    ensures multiset(Lines(b)) == multiset(Lines(b[..k] + b[k + 1..])) + multiset(Lines([b[k]]))
    decreases |b|
  {
    var front := b[..|b| - 1];
    assert b == front + [b[|b| - 1]];
    if k == |b| - 1 {
      assert b[..k] + b[k + 1..] == front;
      assert Lines([b[k]]) == Lines([]) + Lines([b[k]])[|Lines([])|..] by {
        assert [b[k]][..0] == [];
      }
    } else {
      LinesRemove(front, k);
      var rest := b[..k] + b[k + 1..];
      assert front[..k] + front[k + 1..] == rest[..|rest| - 1];
      assert rest == rest[..|rest| - 1] + [b[|b| - 1]];
      assert [b[k]][..0] == [];
    }
  }

  /**
   * The whole of `process_data` from the loaded column to `deduped_df` and the listing, for
   * any admissible choice of kept rows: the kept rows are decoded rows of distinct raw rows,
   * the three key columns are pairwise distinct, and the listing holds one sorted line per
   * non-null literal, so no line appears twice.
   */
  lemma ProcessDataOutcome(cells: seq<Option<string>>, raw: seq<RawRow>, out: seq<Row>, t: Tables)
    requires UniqueBy(WithRowIndex(cells), raw, RawPublisher)
    requires Cascade(DecodeFrame(raw, t), out)
    ensures DistinctOn(raw, RawRowId)
    ensures multiset(out) <= multiset(DecodeFrame(raw, t))
    ensures DistinctOn(out, RowCr) && DistinctOn(out, RowOmid) && DistinctOn(out, RowPublisher)
    ensures DistinctOn(out, RowId)
    ensures Sorted(PublishersFile(out))
    ensures forall i, j :: 0 <= i < j < |PublishersFile(out)| ==> PublishersFile(out)[i] != PublishersFile(out)[j]
  {
    PrePassDistinct(cells, raw);
    CascadeSubMultiset(DecodeFrame(raw, t), out);
    CascadeDistinct(DecodeFrame(raw, t), out);
    CascadeRowIdsDistinct(raw, t, out);
    LinesDistinct(out);
    var file := PublishersFile(out);
    forall i, j | 0 <= i < j < |file| ensures file[i] != file[j] {
      if file[i] == file[j] {
        CountOfRepeat(file, i, j);
        assert multiset(Lines(out))[file[i]] >= 2;
        RepeatOfCount(Lines(out), file[i]);
      }
    }
  }

  /** Distinct publishers give distinct lines. */
  lemma {:induction false} LinesDistinct(out: seq<Row>)
    requires DistinctOn(out, RowPublisher)
    ensures forall i, j :: 0 <= i < j < |Lines(out)| ==> Lines(out)[i] != Lines(out)[j]
  {
    if out != [] {
      var front, last := out[..|out| - 1], out[|out| - 1];
      assert out == front + [last];
      assert DistinctOn(front, RowPublisher);
      LinesDistinct(front);
      if last.publisher.Some? {
        var p := last.publisher.value;
        LinesMembership(front, p);
      }
    }
  }
}
