/**
 * The archive loader: `batched_members` groups the file members of a tar stream into batches,
 * `process_batch` turns one batch into the concatenated `publisher` column of its CSV files,
 * and `dump_to_parquet` writes one partition per batch that produced data, named after the
 * batch's position. Reading the archive and the CSV files is abstracted: each member carries
 * the outcome its extraction and read would have.
 */
module DataLoader {
  import opened Wrappers
  import opened Decimal

  /** What reading a member comes to. */
  datatype Outcome =
    | Unextractable                   // `extractfile` returned `None`
    | ReadFails                       // `extractfile`, `scan_csv`, `select` or `fetch` raised
    | Table(cells: seq<Option<string>>) // the `publisher` column of the member's CSV, maybe empty

  /** A tar member: its name, whether `isfile()` holds, and the outcome of reading it. */
  datatype Member = Member(name: string, isFile: bool, outcome: Outcome)

  /** A written partition: the file name under the partitions directory and its rows. */
  datatype Partition = Partition(name: string, cells: seq<Option<string>>)

  /** The concatenation of a sequence of sequences, in order. */
  function Flatten<T>(xs: seq<seq<T>>): seq<T> {
    if xs == [] then [] else Flatten(xs[..|xs| - 1]) + xs[|xs| - 1]
  }

  lemma FlattenAppend<T>(xs: seq<seq<T>>, x: seq<T>)
    ensures Flatten(xs + [x]) == Flatten(xs) + x
  {
    assert (xs + [x])[..|xs|] == xs;
  }

  /** The members for which `isfile()` holds, in stream order. */
  function Files(stream: seq<Member>): (files: seq<Member>)
    ensures |files| <= |stream|
    ensures forall k :: 0 <= k < |files| ==> files[k].isFile
  {
    if stream == [] then []
    else
      var last := stream[|stream| - 1];
      Files(stream[..|stream| - 1]) + (if last.isFile then [last] else [])
  }

  /** Files of a prefix of the stream that grew by one member. */
  lemma FilesStep(stream: seq<Member>, i: nat)
    requires i < |stream|
    ensures Files(stream[..i + 1]) == Files(stream[..i]) + (if stream[i].isFile then [stream[i]] else [])
  {
    assert stream[..i + 1][..i] == stream[..i];
  }

  /** A member is a file member exactly when it is a member of the stream for which `isfile()` holds. */
  lemma {:induction false} FilesMembership(stream: seq<Member>, m: Member)
    ensures m in Files(stream) <==> m in stream && m.isFile
  {
    if stream != [] {
      var front, last := stream[..|stream| - 1], stream[|stream| - 1];
      FilesMembership(front, m);
      assert stream == front + [last];
    }
  }

  /** The positions of the stream's file members, in increasing order. */
  function FilePositions(stream: seq<Member>): (pos: seq<nat>)
    ensures forall j :: 0 <= j < |pos| ==> pos[j] < |stream|
  {
    if stream == [] then []
    else FilePositions(stream[..|stream| - 1]) + (if stream[|stream| - 1].isFile then [|stream| - 1] else [])
  }

  /** The positions holding file members are exactly those where `isfile()` holds. */
  lemma {:induction false} FilePositionsExact(stream: seq<Member>, k: int)
    ensures k in FilePositions(stream) <==> 0 <= k < |stream| && stream[k].isFile
  {
    if stream != [] {
      var front, last := stream[..|stream| - 1], stream[|stream| - 1];
      FilePositionsExact(front, k);
      assert FilePositions(stream) == FilePositions(front) + (if last.isFile then [|stream| - 1] else []);
      if 0 <= k < |front| {
        assert front[k] == stream[k];
      }
    }
  }

  /** `files` is the stream with some members dropped: its j-th member sits at position `pos[j]`, and positions increase. */
  ghost predicate FilesAt(stream: seq<Member>, files: seq<Member>, pos: seq<nat>) {
    && |pos| == |files|
    && (forall j :: 0 <= j < |pos| ==> pos[j] < |stream| && stream[pos[j]] == files[j])
    && (forall j :: 0 < j < |pos| ==> pos[j - 1] < pos[j])
  }

  /**
   * `Files` keeps the stream's members in stream order, at the positions `FilePositions`
   * lists, which by `FilePositionsExact` are all the file members and only those.
   */
  lemma {:induction false} FilesInOrder(stream: seq<Member>)
    ensures FilesAt(stream, Files(stream), FilePositions(stream))
  {
    if stream != [] {
      var front, last := stream[..|stream| - 1], stream[|stream| - 1];
      FilesInOrder(front);
      var pos, f := FilePositions(front), Files(front);
      assert forall j :: 0 <= j < |pos| ==> stream[pos[j]] == front[pos[j]];
      if last.isFile {
        assert FilePositions(stream) == pos + [|stream| - 1];
        assert Files(stream) == f + [last];
      } else {
        assert FilePositions(stream) == pos + [];
        assert Files(stream) == f + [];
      }
    }
  }

  /** The size at which a batch is yielded: `len(batch) >= batch_size` holds from one member on when `batch_size <= 1`. */
  function Capacity(batchSize: int): (c: nat)
    ensures c >= 1 && c >= batchSize
    ensures batchSize >= 1 ==> c == batchSize
    ensures batchSize <= 1 ==> c == 1
  {
    if batchSize <= 1 then 1 else batchSize
  }

  /**
   * `batches` is what `batched_members(stream, batch_size)` yields: the file members in order,
   * cut into non-empty batches of exactly `Capacity(batchSize)` members except the last, which
   * may be shorter.
   */
  predicate IsBatching(stream: seq<Member>, batchSize: int, batches: seq<seq<Member>>) {
    && Flatten(batches) == Files(stream)
    && (forall k :: 0 <= k < |batches| ==> 1 <= |batches[k]| <= Capacity(batchSize))
    && (forall k :: 0 <= k < |batches| - 1 ==> |batches[k]| == Capacity(batchSize))
  }

  /** `batched_members`: the generator, run to the end. */
  method BatchedMembers(stream: seq<Member>, batchSize: int) returns (batches: seq<seq<Member>>)
    ensures IsBatching(stream, batchSize, batches)
    ensures batchSize <= 0 ==> forall k :: 0 <= k < |batches| ==> |batches[k]| == 1
  {
    var batch: seq<Member> := [];
    batches := [];
    for i := 0 to |stream|
      invariant Flatten(batches) + batch == Files(stream[..i])
      invariant forall k :: 0 <= k < |batches| ==> |batches[k]| == Capacity(batchSize)
      invariant |batch| < Capacity(batchSize)
    {
      FilesStep(stream, i);
      if stream[i].isFile {
        batch := batch + [stream[i]];
        if |batch| >= batchSize {
          assert |batch| == Capacity(batchSize);
          FlattenAppend(batches, batch);
          batches := batches + [batch];
          batch := [];
        }
      }
    }
    assert stream[..|stream|] == stream;
    if batch != [] {
      FlattenAppend(batches, batch);
      batches := batches + [batch];
    }
    assert forall k :: 0 <= k < |batches| ==> 1 <= |batches[k]| <= Capacity(batchSize);
  }

  /** Whether some member of the batch cannot be extracted. */
  predicate AnyUnextractable(batch: seq<Member>) {
    exists i :: 0 <= i < |batch| && batch[i].outcome.Unextractable?
  }

  /** The non-empty tables of the batch, in order: what `results` collects. */
  function Collected(batch: seq<Member>): (tables: seq<seq<Option<string>>>)
    ensures forall k :: 0 <= k < |tables| ==> tables[k] != []
  {
    if batch == [] then []
    else
      var last := batch[|batch| - 1];
      Collected(batch[..|batch| - 1])
        + (if last.outcome.Table? && last.outcome.cells != [] then [last.outcome.cells] else [])
  }

  /** Every row read from the batch's members, empty tables and failed reads included as nothing. */
  function AllCells(batch: seq<Member>): seq<Option<string>> {
    if batch == [] then []
    else
      var last := batch[|batch| - 1];
      AllCells(batch[..|batch| - 1]) + (if last.outcome.Table? then last.outcome.cells else [])
  }

  /** The value `process_batch` returns. */
  function BatchResult(batch: seq<Member>): (r: Option<seq<Option<string>>>)
    ensures AnyUnextractable(batch) ==> r.None?
    ensures r.Some? ==> r.value != [] && r.value == AllCells(batch)
    ensures !AnyUnextractable(batch) && AllCells(batch) != [] ==> r.Some?
  {
    CollectedIsAllCells(batch);
    if AnyUnextractable(batch) then None
    else if Collected(batch) == [] then None
    else Some(Flatten(Collected(batch)))
  }

  /** `process_batch`: read each member in turn, giving up on the whole batch at an unextractable one. */
  method ProcessBatch(batch: seq<Member>) returns (r: Option<seq<Option<string>>>)
    ensures r == BatchResult(batch)
    ensures AnyUnextractable(batch) ==> r.None?
    ensures !AnyUnextractable(batch) && r.Some? ==> r.value == AllCells(batch) && r.value != []
    ensures !AnyUnextractable(batch) && r.None? ==> AllCells(batch) == []
  {
    var results: seq<seq<Option<string>>> := [];
    for i := 0 to |batch|
      invariant !AnyUnextractable(batch[..i])
      invariant results == Collected(batch[..i])
    {
      assert batch[..i + 1][..i] == batch[..i];
      match batch[i].outcome
      case Unextractable =>
        assert batch[i] == batch[..i + 1][i];
        UnextractableAnywhere(batch[..i + 1], batch[i + 1..]);
        assert batch == batch[..i + 1] + batch[i + 1..];
        CollectedIsAllCells(batch);
        return None;
      case ReadFails =>
      case Table(cells) =>
        if cells != [] {
          results := results + [cells];
        }
    }
    assert batch[..|batch|] == batch;
    CollectedIsAllCells(batch);
    if results != [] {
      r := Some(Flatten(results));
    } else {
      r := None;
    }
  }

  /** An unextractable member spoils the batch wherever it stands. */
  lemma UnextractableAnywhere(front: seq<Member>, back: seq<Member>)
    requires AnyUnextractable(front)
    ensures AnyUnextractable(front + back)
  {
    var i :| 0 <= i < |front| && front[i].outcome.Unextractable?;
    assert (front + back)[i] == front[i];
  }

  /** Skipping empty tables loses no row: the collected tables hold every row that was read. */
  lemma {:induction false} CollectedIsAllCells(batch: seq<Member>)
    ensures Flatten(Collected(batch)) == AllCells(batch)
    ensures Collected(batch) == [] <==> AllCells(batch) == []
  {
    if batch != [] {
      var front, last := batch[..|batch| - 1], batch[|batch| - 1];
      CollectedIsAllCells(front);
      if last.outcome.Table? && last.outcome.cells != [] {
        FlattenAppend(Collected(front), last.outcome.cells);
      } else {
        assert Collected(batch) == Collected(front) + [] == Collected(front);
        assert AllCells(batch) == AllCells(front) + [] == AllCells(front);
      }
    }
  }

  /** A member that is neither unextractable nor has rows adds no table. */
  lemma {:induction false} SkippedMemberCollected(front: seq<Member>, m: Member, back: seq<Member>)
    requires m.outcome.ReadFails? || m.outcome == Table([])
    ensures Collected(front + [m] + back) == Collected(front + back)
    decreases |back|
  {
    var with, without := front + [m] + back, front + back;
    if back == [] {
      assert with[..|with| - 1] == front && without == front;
      assert Collected(with) == Collected(front) + [];
    } else {
      var b := back[..|back| - 1];
      SkippedMemberCollected(front, m, b);
      assert with[..|with| - 1] == front + [m] + b;
      assert without[..|without| - 1] == front + b;
      assert with[|with| - 1] == without[|without| - 1];
    }
  }

  /** Such a member does not make the batch unextractable either. */
  lemma SkippedMemberExtractable(front: seq<Member>, m: Member, back: seq<Member>)
    requires m.outcome.ReadFails? || m.outcome == Table([])
    ensures AnyUnextractable(front + [m] + back) <==> AnyUnextractable(front + back)
  {
    var with, without := front + [m] + back, front + back;
    if AnyUnextractable(with) {
      var i :| 0 <= i < |with| && with[i].outcome.Unextractable?;
      if i < |front| {
        assert without[i] == with[i];
      } else {
        assert without[i - 1] == with[i];
      }
    }
    if AnyUnextractable(without) {
      var i :| 0 <= i < |without| && without[i].outcome.Unextractable?;
      if i < |front| {
        assert with[i] == without[i];
      } else {
        assert with[i + 1] == without[i];
      }
    }
  }

  /**
   * A member whose read raises, or whose table is empty, is skipped: the result is that of the
   * batch without it.
   */
  lemma SkippedMember(front: seq<Member>, m: Member, back: seq<Member>)
    requires m.outcome.ReadFails? || m.outcome == Table([])
    ensures BatchResult(front + [m] + back) == BatchResult(front + back)
  {
    SkippedMemberCollected(front, m, back);
    SkippedMemberExtractable(front, m, back);
  }

  /** `f"{batch_id}.parquet"` */
  function PartitionName(batchId: nat): string {
    NatToString(batchId) + ".parquet"
  }

  /** Different batch positions give different file names. */
  lemma PartitionNamesDistinct(i: nat, j: nat)
    requires i != j
    ensures PartitionName(i) != PartitionName(j)
  {
    var a, b := NatToString(i), NatToString(j);
    if PartitionName(i) == PartitionName(j) {
      assert |a| == |b|;
      assert a == PartitionName(i)[..|a|] && b == PartitionName(j)[..|b|];
      NatToStringInjective(i, j);
    }
  }

  /** The partitions `dump_to_parquet` writes for `batches`, in order. */
  function Partitions(batches: seq<seq<Member>>): (parts: seq<Partition>)
    ensures |parts| <= |batches|
    ensures forall k :: 0 <= k < |parts| ==> parts[k].cells != []
  {
    if batches == [] then []
    else
      var n := |batches| - 1;
      Partitions(batches[..n])
        + match BatchResult(batches[n])
          case None => []
          case Some(cells) => [Partition(PartitionName(n), cells)]
  }

  /** `dump_to_parquet`, up to the merge: batch the stream and write one partition per batch with data. */
  method DumpToParquet(stream: seq<Member>, batchSize: int) returns (batches: seq<seq<Member>>, parts: seq<Partition>)
    ensures IsBatching(stream, batchSize, batches)
    ensures parts == Partitions(batches)
  {
    batches := BatchedMembers(stream, batchSize);
    parts := [];
    for batchId := 0 to |batches|
      invariant parts == Partitions(batches[..batchId])
    {
      assert batches[..batchId + 1][..batchId] == batches[..batchId];
      var df := ProcessBatch(batches[batchId]);
      if df.None? {
        continue;
      }
      parts := parts + [Partition(PartitionName(batchId), df.value)];
    }
    assert batches[..|batches|] == batches;
  }

  /**
   * A partition named after batch `i` is written exactly when that batch produced data, and it
   * holds that data; a skipped batch leaves a gap in the numbering.
   */
  lemma {:induction false} PartitionOfBatch(batches: seq<seq<Member>>, i: nat)
    requires i < |batches|
    ensures (exists p :: p in Partitions(batches) && p.name == PartitionName(i)) <==> BatchResult(batches[i]).Some?
    ensures forall p :: p in Partitions(batches) && p.name == PartitionName(i) ==> Some(p.cells) == BatchResult(batches[i])
  {
    var n := |batches| - 1;
    var front := batches[..n];
    var tail := match BatchResult(batches[n])
      case None => []
      case Some(cells) => [Partition(PartitionName(n), cells)];
    assert Partitions(batches) == Partitions(front) + tail;
    if i < n {
      PartitionOfBatch(front, i);
      PartitionNamesDistinct(i, n);
      assert front[i] == batches[i];
    } else {
      PartitionNamesBelow(front);
      forall p | p in Partitions(front) ensures p.name != PartitionName(n) {
        var k :| 0 <= k < n && p.name == PartitionName(k);
        PartitionNamesDistinct(k, n);
      }
    }
  }

  /** No two partitions share a file name, so each is written once. */
  lemma {:induction false} PartitionNamesUnique(batches: seq<seq<Member>>)
    ensures forall i, j :: 0 <= i < j < |Partitions(batches)| ==> Partitions(batches)[i].name != Partitions(batches)[j].name
  {
    if batches != [] {
      var n := |batches| - 1;
      var front := batches[..n];
      var tail := match BatchResult(batches[n])
        case None => []
        case Some(cells) => [Partition(PartitionName(n), cells)];
      assert Partitions(batches) == Partitions(front) + tail;
      PartitionNamesUnique(front);
      PartitionNamesBelow(front);
      forall p | p in Partitions(front) ensures p.name != PartitionName(n) {
        var k :| 0 <= k < n && p.name == PartitionName(k);
        PartitionNamesDistinct(k, n);
      }
    }
  }

  /** Every partition is named after a batch position below `|batches|`. */
  lemma {:induction false} PartitionNamesBelow(batches: seq<seq<Member>>)
    ensures forall p :: p in Partitions(batches) ==> exists k :: 0 <= k < |batches| && p.name == PartitionName(k)
  {
    if batches != [] {
      PartitionNamesBelow(batches[..|batches| - 1]);
    }
  }

  /** The rows of a list of partitions, in order: what the merged dataset holds. */
  function PartitionCells(parts: seq<Partition>): seq<Option<string>> {
    if parts == [] then [] else PartitionCells(parts[..|parts| - 1]) + parts[|parts| - 1].cells
  }

  /** The rows read from the batches that have no unextractable member, in batch order. */
  function KeptCells(batches: seq<seq<Member>>): seq<Option<string>> {
    if batches == [] then []
    else
      var last := batches[|batches| - 1];
      KeptCells(batches[..|batches| - 1]) + (if AnyUnextractable(last) then [] else AllCells(last))
  }

  /** The partitions hold every row read from every batch without an unextractable member, in order. */
  lemma {:induction false} PartitionsHoldRows(batches: seq<seq<Member>>)
    ensures PartitionCells(Partitions(batches)) == KeptCells(batches)
  {
    if batches != [] {
      var n := |batches| - 1;
      var front := batches[..n];
      PartitionsHoldRows(front);
      match BatchResult(batches[n])
      case None =>
        assert Partitions(batches) == Partitions(front);
        assert AnyUnextractable(batches[n]) || AllCells(batches[n]) == [];
      case Some(cells) =>
        var ps := Partitions(front) + [Partition(PartitionName(n), cells)];
        assert Partitions(batches) == ps;
        assert ps[..|ps| - 1] == Partitions(front);
    }
  }

  /** The rows of two runs of members are those of the first followed by those of the second. */
  lemma {:induction false} AllCellsAppend(a: seq<Member>, b: seq<Member>)
    ensures AllCells(a + b) == AllCells(a) + AllCells(b)
    decreases |b|
  {
    if b == [] {
      assert a + b == a;
    } else {
      var front := b[..|b| - 1];
      AllCellsAppend(a, front);
      assert (a + b)[..|a + b| - 1] == a + front;
      assert (a + b)[|a + b| - 1] == b[|b| - 1];
    }
  }

  /** Without unextractable members, every batch keeps its rows. */
  lemma {:induction false} KeptCellsAll(batches: seq<seq<Member>>)
    requires forall k, i :: 0 <= k < |batches| && 0 <= i < |batches[k]| ==> !batches[k][i].outcome.Unextractable?
    ensures KeptCells(batches) == AllCells(Flatten(batches))
  {
    if batches != [] {
      var n := |batches| - 1;
      var front := batches[..n];
      KeptCellsAll(front);
      assert batches == front + [batches[n]];
      FlattenAppend(front, batches[n]);
      AllCellsAppend(Flatten(front), batches[n]);
    }
  }

  /**
   * No row is lost between the archive and the partitions: when no file member is unextractable,
   * the partitions together hold exactly the rows of every file member's table, in stream order.
   */
  lemma NoRowLost(stream: seq<Member>, batchSize: int, batches: seq<seq<Member>>)
    requires IsBatching(stream, batchSize, batches)
    requires forall m :: m in stream && m.isFile ==> !m.outcome.Unextractable?
    ensures PartitionCells(Partitions(batches)) == AllCells(Files(stream))
  {
    forall k, i | 0 <= k < |batches| && 0 <= i < |batches[k]|
      ensures !batches[k][i].outcome.Unextractable?
    {
      FlattenHolds(batches, k, i);
      FilesMembership(stream, batches[k][i]);
    }
    PartitionsHoldRows(batches);
    KeptCellsAll(batches);
  }

  /** A member of one batch is a member of the concatenation. */
  lemma {:induction false} FlattenHolds<T>(xs: seq<seq<T>>, k: nat, i: nat)
    requires k < |xs| && i < |xs[k]|
    ensures xs[k][i] in Flatten(xs)
  {
    var n := |xs| - 1;
    if k < n {
      FlattenHolds(xs[..n], k, i);
    }
  }
}
