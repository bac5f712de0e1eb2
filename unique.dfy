/**
 * Polars `DataFrame.unique(subset=...)` over a sequence of rows. The library keeps one row per
 * distinct key value but does not say which one, nor in what order the rows come out, so
 * `unique` is modelled as a relation between its input and its output: every admissible answer
 * satisfies `UniqueBy`, and only facts that hold for all of them are proved. Null keys are
 * values like any other, so all rows with a null key count as one key.
 */
module Unique {

  /** No two rows of `rows` share a key. */
  ghost predicate DistinctOn<T, K>(rows: seq<T>, key: T -> K) {
    forall i, j :: 0 <= i < j < |rows| ==> key(rows[i]) != key(rows[j])
  }

  /**
   * `out` is an admissible result of `inp.unique(subset=key)`: some of the input rows, in any
   * order, one for each distinct key value of the input.
   */
  ghost predicate UniqueBy<T(!new), K>(inp: seq<T>, out: seq<T>, key: T -> K) {
    && multiset(out) <= multiset(inp)
    && DistinctOn(out, key)
    && (forall x :: x in inp ==> exists y :: y in out && key(y) == key(x))
  }

  /** Whether some row of `rows` has key `k`. */
  predicate HasKey<T, K(==)>(rows: seq<T>, key: T -> K, k: K) {
    exists i :: 0 <= i < |rows| && key(rows[i]) == k
  }

  /** One admissible result of `unique`: the first row of each key, in input order. */
  function KeepFirst<T(!new), K(==)>(rows: seq<T>, key: T -> K): (out: seq<T>)
    ensures multiset(out) <= multiset(rows)
  {
    if rows == [] then []
    else
      var front, last := rows[..|rows| - 1], rows[|rows| - 1];
      assert rows == front + [last];
      var kept := KeepFirst(front, key);
      if HasKey(front, key, key(last)) then kept else kept + [last]
  }

  /** A row kept from `rows` is one of its rows, so its key occurs in `rows`. */
  lemma KeptHasKey<T, K>(rows: seq<T>, out: seq<T>, key: T -> K, i: int)
    requires multiset(out) <= multiset(rows) && 0 <= i < |out|
    ensures HasKey(rows, key, key(out[i]))
  {
    assert out[i] in multiset(out);
    assert out[i] in multiset(rows);
    var p :| 0 <= p < |rows| && rows[p] == out[i];
  }

  /** `KeepFirst` keeps at most one row per key. */
  lemma {:induction false} KeepFirstDistinct<T(!new), K>(rows: seq<T>, key: T -> K)
    ensures DistinctOn(KeepFirst(rows, key), key)
  {
    if rows != [] {
      var front, last := rows[..|rows| - 1], rows[|rows| - 1];
      var kept := KeepFirst(front, key);
      KeepFirstDistinct(front, key);
      if !HasKey(front, key, key(last)) {
        forall i | 0 <= i < |kept| ensures key(kept[i]) != key(last) {
          KeptHasKey(front, kept, key, i);
        }
      }
    }
  }

  /** `KeepFirst` keeps every key of its input. */
  lemma {:induction false} KeepFirstCovers<T(!new), K>(rows: seq<T>, key: T -> K, x: T)
    requires x in rows
    ensures HasKey(KeepFirst(rows, key), key, key(x))
  {
    var front, last := rows[..|rows| - 1], rows[|rows| - 1];
    var kept := KeepFirst(front, key);
    assert rows == front + [last];
    if x in front {
      KeepFirstCovers(front, key, x);
      var i :| 0 <= i < |kept| && key(kept[i]) == key(x);
      assert KeepFirst(rows, key)[i] == kept[i];
    } else if HasKey(front, key, key(last)) {
      var p :| 0 <= p < |front| && key(front[p]) == key(last);
      KeepFirstCovers(front, key, front[p]);
    } else {
      assert KeepFirst(rows, key)[|kept|] == last;
    }
  }

  /** `KeepFirst` is an admissible outcome of `unique`. */
  lemma KeepFirstIsUnique<T(!new), K>(rows: seq<T>, key: T -> K)
    ensures UniqueBy(rows, KeepFirst(rows, key), key)
  {
    var out := KeepFirst(rows, key);
    KeepFirstDistinct(rows, key);
    forall x | x in rows ensures exists y :: y in out && key(y) == key(x) {
      KeepFirstCovers(rows, key, x);
      var i :| 0 <= i < |out| && key(out[i]) == key(x);
      assert out[i] in out;
    }
  }

  /** Two equal rows at different positions give a count of at least two. */
  lemma CountOfRepeat<T>(s: seq<T>, i: int, j: int)
    requires 0 <= i < j < |s| && s[i] == s[j]
    ensures multiset(s)[s[i]] >= 2
  {
    assert s == s[..j] + [s[j]] + s[j + 1..];
    assert s[i] in s[..j];
  }

  /** A value counted twice occurs at two different positions. */
  lemma {:induction false} RepeatOfCount<T>(s: seq<T>, v: T)
    requires multiset(s)[v] >= 2
    ensures exists p, q :: 0 <= p < q < |s| && s[p] == v && s[q] == v
  {
    var last := |s| - 1;
    assert s == s[..last] + [s[last]];
    if s[last] == v {
      assert v in s[..last];
      var p :| 0 <= p < last && s[..last][p] == v;
      assert s[p] == v;
    } else {
      RepeatOfCount(s[..last], v);
      var p, q :| 0 <= p < q < last && s[..last][p] == v && s[..last][q] == v;
      assert s[p] == v && s[q] == v;
    }
  }

  /** Keeping some of the rows keeps any key distinct that was distinct before. */
  lemma SubMultisetDistinct<T, K>(inp: seq<T>, out: seq<T>, key: T -> K)
    requires multiset(out) <= multiset(inp) && DistinctOn(inp, key)
    ensures DistinctOn(out, key)
  {
    forall i, j | 0 <= i < j < |out| ensures key(out[i]) != key(out[j]) {
      assert out[i] in multiset(inp) && out[j] in multiset(inp);
      if out[i] == out[j] {
        CountOfRepeat(out, i, j);
        RepeatOfCount(inp, out[i]);
      } else {
        var p :| 0 <= p < |inp| && inp[p] == out[i];
        var q :| 0 <= q < |inp| && inp[q] == out[j];
        assert p != q;
        if p > q {
          assert key(inp[q]) != key(inp[p]);
        }
      }
    }
  }

  /** A row whose key is unique in `rows` occurs exactly once. */
  lemma DistinctCountsOne<T, K>(rows: seq<T>, key: T -> K, x: T)
    requires DistinctOn(rows, key) && x in rows
    ensures multiset(rows)[x] == 1
  {
    if multiset(rows)[x] >= 2 {
      RepeatOfCount(rows, x);
      assert false;
    }
  }

  /**
   * When the key is already distinct, `unique` has only one choice: it keeps every row (up to
   * order).
   */
  lemma UniqueByOfDistinct<T(!new), K>(inp: seq<T>, out: seq<T>, key: T -> K)
    requires DistinctOn(inp, key) && UniqueBy(inp, out, key)
    ensures multiset(out) == multiset(inp)
  {
    forall x ensures multiset(out)[x] == multiset(inp)[x] {
      if x in inp {
        var y :| y in out && key(y) == key(x);
        assert y in multiset(inp);
        var p :| 0 <= p < |inp| && inp[p] == x;
        var q :| 0 <= q < |inp| && inp[q] == y;
        if p < q {
          assert key(inp[p]) != key(inp[q]);
        } else if q < p {
          assert key(inp[q]) != key(inp[p]);
        }
        DistinctCountsOne(inp, key, x);
        SubMultisetDistinct(inp, out, key);
        DistinctCountsOne(out, key, x);
      } else {
        assert multiset(inp)[x] == 0;
      }
    }
  }
}
