# Publisher pipeline model

This project models the deterministic core of a small publisher-data pipeline written in Python
and proves properties of that model in Dafny. The pipeline has three stages.

- **Loading** (`dataloader.py`). The member files of a tar archive are cut into batches. The
  `publisher` column of each batch's CSV files is concatenated. Every batch that yields data
  becomes one numbered partition.
- **Preprocessing** (`preprocessing.py`).
  - Each row is numbered by its position, then duplicate publisher cells are dropped, so the
    ids that survive can have gaps.
  - Each cell is decoded by `process_row` into `(row id, literal, omid, cr)`: a literal name
    plus two identifiers read from a bracketed `[key:value ...]` group. The decimal row id
    fills both identifiers when there is no group, and `cr` for a one-token group; a group
    with nothing after its space leaves `cr` empty.
  - The decoded frame goes through three `unique` passes, keyed on `pub_cr`, then `pub_omid`,
    then `publisher`.
  - The surviving literals are written, sorted, to `publishers.txt`.
- **Clustering** (`clustering.py`). Two code-point classifiers, `is_cjk` and `is_not_latin`, and
  the filter that keeps the non-empty, non-CJK publishers for embedding.

Modules, one file each:

- `Wrappers`: `Option`.
- `Decimal`: `str` of a natural number.
- `Strings`: `strip`, `split` and `join`.
- `Unicode`: the Unicode tables, abstract.
- `IdPattern`: the regular expression of `process_row`.
- `Preprocessing`: `normalize` and `process_row`.
- `Unique`: Polars `unique`.
- `ProcessData`: the pre-pass, the cascade and the literal list.
- `StringOrder`: Python's `sorted` on `str`.
- `DataLoader`: the loader.
- `Clustering`: the classifiers and the filter.

Modelling choices:

- **Unicode tables.** `\w`, `str.isspace`, `str.lower`, NFKD decomposition and
  `unicodedata.combining` come from Unicode data the model does not contain. They are the fields
  of a `Tables` value. A lemma that needs facts about them requires `WordClassWf` or
  `Tables.Wf()`, which state only what holds of Python's real tables. Examples:
  - ASCII letters, digits and `_` are word characters;
  - `' '`, `':'`, `'['` and `']'` are not;
  - ASCII text lower-cases the ASCII way and is its own NFKD form.
- **The regular expression** `\[(?:\w+:[^\]]+)(?:\s+\w+:[^\]]+)*\]` is modelled as the language
  it accepts: `[`, a run of word characters, `:`, one or more characters other than `]`, then
  `]`. The greedy `[^\]]+` already covers the optional repeated part.
  - `search` is the leftmost match.
  - `re.sub` removes every non-overlapping match from left to right.
- **Polars `unique(subset=...)`** may keep any row of each key and return rows in any order. It
  is therefore a relation, `Unique.UniqueBy`: a sub-multiset of the input, distinct on the key,
  with every input key kept. Only facts true of every admissible outcome are proved.
  `Unique.KeepFirst` shows that an outcome exists.
- **Archive members** are values. Each carries its name, whether `isfile()` holds, and the
  outcome reading it would have:
  - not extractable;
  - reading raised;
  - the rows of its `publisher` column.

Behaviour of the code that its own comments and messages do not suggest, which the model
follows:

- Identifier key prefixes are kept. The comment at `preprocessing.py:48` writes the group as
  `[omid:ID crossref:ID2]`, but lines 79 and 82 keep the key, so `[omid:0123]` gives the omid
  `omid:0123`.
- The docstring at `preprocessing.py:29` says the index replaces "one of the IDs". The no-group
  branch (`preprocessing.py:56-62`) fills both with the index, and it returns the data field
  without `normalize`.
- `cr` may be the empty string, as for `[omid:x ]`. All such rows then share the `pub_cr` key
  `""`, so the first pass of the cascade keeps only one of them, even when their omids differ
  (`ProcessData.EmptyCrKeepsOne`).
- The message at `dataloader.py:40` says the member is skipped, but line 41 returns `None`, so one
  unextractable member makes `process_batch` give up on the whole batch. Members whose read
  raises are skipped.
- Members are filtered only by `isfile()` (`dataloader.py:17`).

## Model

| member | source | states |
|---|---|---|
| Decimal.NatToString | preprocessing.py:40 | `str(row_id)` is a non-empty run of ASCII digits |
| Decimal.DigitsValueOfNatToString | preprocessing.py:40 | reading the decimal text of `n` back gives `n` |
| Decimal.NatToStringInjective | preprocessing.py:40 | different row ids have different decimal texts |
| Strings.TrimStart | preprocessing.py:41 | `lstrip`: the result is a suffix, everything dropped is strippable, and the first kept character is not |
| Strings.TrimEnd | preprocessing.py:41 | `rstrip`: the result is a prefix, everything dropped is strippable, and the last kept character is not |
| Strings.Strip | preprocessing.py:41 | `strip`: no longer than the input, neither end strippable, and a string with clean ends is unchanged |
| Strings.StripKeeps | preprocessing.py:79-82 | a character that is not stripped survives `strip` |
| Strings.StripDropsLast | preprocessing.py:80 | stripping a trailing strippable character from a clean string gives that string |
| Strings.StripDropsFirst | preprocessing.py:79 | stripping a leading strippable character from a clean string gives that string |
| Strings.NotInStrip | preprocessing.py:79-82 | `strip` adds no character |
| Strings.StripBrackets | preprocessing.py:82 | `.strip("[").strip("]")` of a bracketed string whose inside has no bracket at its ends gives the inside |
| Strings.ContainsSeparator | preprocessing.py:44 | the definition of the test `"; " in data_field` |
| Strings.BeforeSeparator | preprocessing.py:44-45 | `split("; ", maxsplit=1)[0]` is a prefix without `"; "`, and either the whole text or followed by `"; "` |
| Strings.BeforeSeparatorIgnoresTail | preprocessing.py:44-45 | whatever follows the first `"; "` does not change the first segment |
| Strings.BeforeSeparatorWhole | preprocessing.py:44-45 | text without `"; "` is kept whole |
| Strings.SplitOn | preprocessing.py:73-75 | `split(" ")` gives at least one piece and no piece contains the separator |
| Strings.NotInSplitOn | preprocessing.py:73-75 | a character absent from the text is absent from every piece |
| Strings.JoinSplitOn | preprocessing.py:73-80 | joining the pieces of `split(c)` with `c` gives back the text |
| Strings.Join | preprocessing.py:80 | the definition of `sep.join(parts)`; `JoinSplitOn` and `NotInJoin` state its properties |
| Strings.NotInJoin | preprocessing.py:80 | `"; ".join` of pieces without a character, using a joiner without it, has none of it |
| Strings.SplitOnAbsent | preprocessing.py:73-75 | a text without the separator splits into itself alone |
| Strings.SplitOnFirst | preprocessing.py:73-79 | the first piece is the text before the first separator, and the rest splits the remainder |
| Unicode.AsciiLower | preprocessing.py:41 | the reference `Tables.Wf` pins `lower` to on ASCII text: the result keeps the length, has no capital A-Z left, and changes no other character |
| IdPattern.MatchAt | preprocessing.py:50 | a match attempt at `i` ends strictly after `i`, within the text |
| IdPattern.MatchAtIff | preprocessing.py:50 | the match attempt at `i` ends at `e` exactly when `s[i..e]` is in the pattern's language |
| IdPattern.SearchFrom | preprocessing.py:52 | the scan returns the first position at or after `from` where a match starts, or none if there is none |
| IdPattern.Search | preprocessing.py:52 | a found span is a match starting where the scan found it |
| IdPattern.SearchNoneIff | preprocessing.py:52-56 | `search` finds nothing exactly when no substring is in the language |
| IdPattern.SearchIsLeftmost | preprocessing.py:52-53 | `search` returns `(b, e)` exactly when `s[b..e]` is a match and no match starts before `b` |
| IdPattern.RemoveMatches | preprocessing.py:65-66 | `re.sub(pattern, "", s)` never grows the text, and leaves it unchanged exactly when there is no match |
| IdPattern.RemoveOnlyGroup | preprocessing.py:65-66 | removing the only group from `prefix + group + suffix` leaves `prefix + suffix` |
| IdPattern.NoBracketNoGroup | preprocessing.py:50 | a text without `[` has no match |
| Preprocessing.Kept | preprocessing.py:16 | the definition of the comprehension's test: not combining, or ASCII punctuation |
| Preprocessing.DropMarks | preprocessing.py:15-17 | the comprehension keeps exactly the characters that are non-combining or ASCII punctuation |
| Preprocessing.DropMarksConcat | preprocessing.py:15-17 | the filter distributes over concatenation, so it keeps order |
| Preprocessing.DropMarksIdempotent | preprocessing.py:13-17 | filtering twice is filtering once |
| Preprocessing.DropMarksAllKept | preprocessing.py:15-17 | a text whose characters all pass the filter is unchanged |
| Preprocessing.Normalize | preprocessing.py:13-17 | every character of `normalize(s)` is non-combining or ASCII punctuation |
| Preprocessing.NormalizeAscii | preprocessing.py:13-17 | `normalize` leaves ASCII text unchanged |
| Preprocessing.DataField | preprocessing.py:41-45 | the decoded field is a prefix of the stripped, lower-cased cell and holds no `"; "` |
| Preprocessing.IdFields | preprocessing.py:71-83 | the omid read from a group is a single token: it holds no space |
| Preprocessing.Trimmed | preprocessing.py:66 | `.strip().strip("[").strip("]")` never grows the text and leaves no `]` at either end |
| Preprocessing.Literal | preprocessing.py:65-67 | the literal is no longer than the data field |
| Preprocessing.ParseField | preprocessing.py:40-86 | the first component is always the row id text |
| Preprocessing.ParseRow | preprocessing.py:34-40 | `None` exactly for a null or empty publisher; otherwise the first component is `str(row_id)` |
| Preprocessing.OnlyFirstSegmentDecoded | preprocessing.py:41-45 | only the text before the first `"; "` of the stripped, lower-cased cell is decoded |
| Preprocessing.NoGroupKeepsRow | preprocessing.py:40-62 | with no match the result is `(idx, data_field, idx, idx)`, the data field not normalised |
| Preprocessing.OneTokenGroupFields | preprocessing.py:81-83 | a group without a space gives its inside as omid, key prefix kept, and `idx` as cr |
| Preprocessing.SpacedGroupFields | preprocessing.py:71-80 | a spaced group gives the first token as omid and the other tokens joined by `"; "` as cr |
| Preprocessing.TrailingSpaceEmptyCr | preprocessing.py:71-80 | a group whose only space comes just before `]` gives an empty cr |
| Preprocessing.GroupOmidHasColon | preprocessing.py:50-82 | the omid read from any group contains `:` |
| Preprocessing.FoundOmidIsNotRowId | preprocessing.py:40-82 | when a group is found, the omid contains `:` and so equals no row id's decimal text |
| Preprocessing.RowOmidIsRowIdOrKeyed | preprocessing.py:56-86 | every decoded omid is either the row's own id text or no row id's text at all |
| Preprocessing.LeftmostGroupDecoded | preprocessing.py:50-86 | the ids come from the leftmost group of the data field, and the literal is the field with every match removed, trimmed and normalised |
| Preprocessing.OnlyGroupRow | preprocessing.py:50-86 | a field `prefix + g + suffix` whose prefix has no `[`, whose `g` is a group and whose suffix has no group gives the trimmed, normalised `prefix + suffix` as literal and the ids read from `g` |
| Preprocessing.AsciiDataField | preprocessing.py:41-45 | an ASCII cell without `;` and with printable ends decodes its whole lower-cased text |
| Unique.UniqueBy | preprocessing.py:105-107 | the definition of an admissible `unique(subset=key)` result: some input rows, one per distinct key, every input key present |
| Unique.KeepFirst | preprocessing.py:105-107 | keeping the first row of each key keeps some of the input rows and invents none |
| Unique.KeepFirstDistinct | preprocessing.py:105-107 | it keeps at most one row per key |
| Unique.KeepFirstCovers | preprocessing.py:105-107 | it keeps every key of its input |
| Unique.KeepFirstIsUnique | preprocessing.py:105-107 | so it is an admissible outcome of `unique` |
| Unique.SubMultisetDistinct | preprocessing.py:125-129 | dropping rows keeps a distinct key distinct |
| Unique.DistinctCountsOne | preprocessing.py:125-129 | a row whose key is distinct occurs once |
| Unique.UniqueByOfDistinct | preprocessing.py:125-129 | `unique` on an already distinct key keeps every row |
| ProcessData.WithRowIndex | preprocessing.py:102-104 | the definition of `with_row_index`: row i carries index i and cell i |
| ProcessData.DecodeFrame | preprocessing.py:116 | the definition of `map_rows(process_row)`: one decoded row per raw row, in order |
| ProcessData.DecodeRow | preprocessing.py:116 | a row gets a null `row_id` exactly when its cell is null or empty, and is then the all-null row; otherwise its `row_id` is its index in decimal |
| ProcessData.DecodedRowIds | preprocessing.py:102-116 | decoded rows of raw rows with different indices share a `row_id` only when both are the all-null row |
| ProcessData.CascadeRowIdsDistinct | preprocessing.py:102-129 | after the cascade the `row_id` column has no repeats |
| ProcessData.Cascade | preprocessing.py:125-129 | the definition of an admissible `deduped_df`: `unique` on `pub_cr`, then on `pub_omid`, then on `publisher` |
| ProcessData.CascadeFirst | preprocessing.py:125-129 | the cascade has an outcome for every frame |
| ProcessData.CascadeSubMultiset | preprocessing.py:125-129 | the deduplicated frame is a sub-multiset of the decoded frame |
| ProcessData.CascadeDistinct | preprocessing.py:125-129 | `pub_cr`, `pub_omid` and `publisher` are each pairwise distinct in the result |
| ProcessData.EmptyCrKeepsOne | preprocessing.py:125-127 | two different rows with an empty `pub_cr` never both survive the cascade |
| ProcessData.CascadeIdempotent | preprocessing.py:125-129 | running the cascade again on its result keeps every row |
| ProcessData.PrePassDistinct | preprocessing.py:102-107 | after the pre-pass, row ids and publisher cells are pairwise distinct |
| ProcessData.SentinelOmidUnique | preprocessing.py:56-62 | a row whose omid is its own id text shares that omid with no other row |
| ProcessData.Lines | preprocessing.py:136-140 | at most one line per row, each ending in `"\n"` |
| ProcessData.LinesMembership | preprocessing.py:136-140 | `p + "\n"` is a line exactly when some row has the literal `p` |
| ProcessData.PublishersFile | preprocessing.py:136-141 | `publishers.txt` is sorted and a permutation of those lines |
| ProcessData.PublishersFileMembership | preprocessing.py:136-141 | `publishers.txt` lists `p + "\n"` exactly when some output row has the literal `p` |
| ProcessData.PublishersFileIgnoresOrder | preprocessing.py:136-141 | the file does not depend on the order `unique` returns rows in |
| ProcessData.LinesPermutation | preprocessing.py:136-140 | permuting the rows permutes the lines |
| ProcessData.LinesDistinct | preprocessing.py:136-140 | with distinct publishers, no line repeats |
| ProcessData.ProcessDataOutcome | preprocessing.py:99-141 | for every admissible run, raw row ids are distinct, the output is a sub-multiset, the three keys and `row_id` are distinct, and `publishers.txt` is sorted without repeats |
| StringOrder.LexLe | preprocessing.py:136 | a prefix sorts no later than the string it begins |
| StringOrder.LexLeTotal | preprocessing.py:136 | any two strings are ordered one way or the other |
| StringOrder.LexLeAntisymmetric | preprocessing.py:136 | strings ordered both ways are equal |
| StringOrder.LexLeTransitive | preprocessing.py:136 | the string order is transitive |
| StringOrder.Insert | preprocessing.py:136 | insertion into a sorted list keeps it sorted and adds exactly that element |
| StringOrder.Sort | preprocessing.py:136-140 | `sorted` gives a sorted permutation of its input |
| StringOrder.SortedFirstIsLeast | preprocessing.py:136 | the first element of a sorted list is at most every element |
| StringOrder.SortedSameHead | preprocessing.py:136-140 | two sorted permutations of the same strings start with the same string |
| StringOrder.SortedUnique | preprocessing.py:136-140 | two sorted permutations of the same strings are equal |
| DataLoader.Files | dataloader.py:16-18 | no more members are kept than the stream has, and every kept member is a file member; that exactly the file members are kept, in order, is `FilesMembership` and `FilesInOrder` |
| DataLoader.FilesMembership | dataloader.py:16-18 | a member is kept exactly when it is in the stream and `isfile()` holds |
| DataLoader.FilePositionsExact | dataloader.py:16-17 | the kept positions are exactly those where `isfile()` holds |
| DataLoader.FilesInOrder | dataloader.py:16-18 | the kept members are the members at those positions, in stream order |
| DataLoader.Capacity | dataloader.py:19 | a batch is yielded at `batch_size` members when `batch_size >= 1`, and at one member when `batch_size <= 1` |
| DataLoader.BatchedMembers | dataloader.py:12-24 | the batches concatenate to the file members in order; each is non-empty; all but the last are full; with `batch_size <= 0` each has one member |
| DataLoader.Collected | dataloader.py:46-47 | only non-empty tables are collected |
| DataLoader.BatchResult | dataloader.py:27-53 | `None` whenever a member is unextractable; a result is the non-empty in-order rows of all members read; with no unextractable member and some row read, there is a result |
| DataLoader.ProcessBatch | dataloader.py:27-53 | `None` when a member is unextractable; otherwise the in-order rows of all members read, or `None` when there are none |
| DataLoader.UnextractableAnywhere | dataloader.py:38-41 | an unextractable member spoils the batch whatever follows it |
| DataLoader.CollectedIsAllCells | dataloader.py:46-53 | skipping empty tables loses no row |
| DataLoader.SkippedMemberCollected | dataloader.py:46-50 | a failed or empty member adds no table |
| DataLoader.SkippedMemberExtractable | dataloader.py:38-50 | a failed or empty member does not make the batch unextractable |
| DataLoader.SkippedMember | dataloader.py:37-50 | a member whose read raises, or whose table is empty, is skipped: the result is that of the batch without it |
| DataLoader.Partitions | dataloader.py:92-98 | no more partitions than batches, and no partition holds an empty table |
| DataLoader.PartitionNamesUnique | dataloader.py:92-98 | no two partitions share a file name, so each batch with data is written once |
| DataLoader.PartitionName | dataloader.py:98 | the definition of the file name `f"{batch_id}.parquet"` |
| DataLoader.PartitionNamesDistinct | dataloader.py:98 | different batch positions give different partition names |
| DataLoader.DumpToParquet | dataloader.py:88-98 | the stream is batched as above, and the partitions are those of the batches |
| DataLoader.PartitionOfBatch | dataloader.py:92-98 | a partition named after batch `i` exists exactly when that batch yields data, and holds that data |
| DataLoader.PartitionNamesBelow | dataloader.py:92-98 | every partition is named after a batch position |
| DataLoader.PartitionsHoldRows | dataloader.py:92-98 | the partitions together hold, in order, every row read from every batch that has no unextractable member |
| DataLoader.AllCellsAppend | dataloader.py:36-47 | the rows read from two runs of members are those of the first followed by those of the second |
| DataLoader.KeptCellsAll | dataloader.py:38-53 | with no unextractable member, every batch keeps all its rows |
| DataLoader.NoRowLost | dataloader.py:12-98 | when no file member is unextractable, the partitions together hold exactly the rows of every file member's table, in stream order: no row is lost between archive and partitions |
| DataLoader.FlattenHolds | dataloader.py:16-24 | a member of a yielded batch is among the members the batches concatenate to |
| Clustering.AnyRange | clustering.py:79 | `any(...)` holds exactly when the code point lies in some inclusive range |
| Clustering.HasCharIn | clustering.py:77-81 | the search loop answers true exactly when some character lies in a range |
| Clustering.IsCjk | clustering.py:54-81 | `is_cjk` holds exactly when some character lies in one of the 14 CJK blocks, bounds included; false on `""` |
| Clustering.HasCyrillic | clustering.py:91-104 | some character lies in one of the 5 Cyrillic blocks |
| Clustering.IsNotLatin | clustering.py:83-104 | `is_not_latin` holds exactly when some character is CJK or Cyrillic, and whenever `is_cjk` holds |
| Clustering.IsCjkConcat | clustering.py:77-81 | `is_cjk(s + t)` is `is_cjk(s) or is_cjk(t)` |
| Clustering.RangesStartAtCyrillic | clustering.py:56-97 | no block either classifier checks contains a code point below U+0400 |
| Clustering.BelowCyrillicIsLatin | clustering.py:54-104 | text below U+0400, ASCII included, is neither CJK nor non-Latin |
| Clustering.Keep | clustering.py:130 | the definition of the comprehension's test `p and not is_cjk(p)` |
| Clustering.FilterPublishers | clustering.py:130 | the filter keeps only non-empty, non-CJK strings |
| Clustering.FilterConcat | clustering.py:130 | the filter distributes over concatenation |
| Clustering.FilterMembership | clustering.py:130 | a string survives exactly when it occurs in the input and is non-empty and not CJK |
| Clustering.FilterIsSubsequence | clustering.py:130 | the result is an order-preserving subsequence of the input |
| Clustering.CyrillicKept | clustering.py:130 | a non-empty Cyrillic publisher without CJK characters is kept |

## Left out

- The Unicode tables (`\w`, `str.isspace`, `str.lower`, NFKD, `unicodedata.combining`) are abstract functions. Only their ASCII behaviour, the word-class facts the regular expression needs, and that no character below U+0300 is a combining mark are assumed.
- `\s` in the regular expression is not modelled separately: the greedy `[^\]]+` already accepts everything the optional repeated part would, so the language does not depend on it.
- The `except` clause of `process_row`, with its `print` and `time.sleep(5)` (preprocessing.py:88-90), is left out: over string inputs the modelled body cannot raise.
- `map_rows` receiving `None` from `process_row` is modelled as a row of four nulls (`ProcessData.DecodeRow`).
- Which row Polars `unique` keeps, and the order of its output, are left open: only facts true of every admissible outcome are proved.
- ProcessData.SentinelOmidUnique: only omids equal to the row's own id text are proved unique. A spaced group's cr can equal another row's fill-in cr (e.g. `12`), so the same statement does not hold for cr.
- Reading parquet and CSV files, `with_columns` of the two empty placeholder columns, and the writing of `publishers.txt`, `processed_data.parquet` and `processed_data.csv` (preprocessing.py:99-101, 132-146) are file I/O. The model keeps their content (the cascade's output and the sorted lines) but not the files.
- Tar reading, `extractfile`, `pl.scan_csv`, `fetch` and `sink_parquet` are I/O: each member carries the outcome these would have. Laziness is not modelled: a table counts as empty exactly when it has no row, and a member's read either fails as a whole or yields all its rows. In the code, `fetch(1)` reads only the first row inside the `try`, so a bad later row would only surface at `sink_parquet`, outside the `try`, and abort the whole run; `ReadFails` cannot express that.
- `combine_parquets` (dataloader.py:56-74) and the merge it performs are file-system operations and are not part of this model.
- Printing and timestamps in all three files are left out.
- The embedding, UMAP, HDBSCAN and CUDA code of `clustering.py` (lines 11-51, 131-147) and the input-type dispatch of `cluster_data` (lines 118-127) are numeric or third-party code and not part of this model.
- `dedupe.py` (fuzzy matching with a floating-point threshold) and `exploration.py` (a superseded scratch copy of `process_row`) are not part of this model.
- Code points are Dafny `char` values, which are Unicode scalar values. Python strings can also hold lone surrogates, which this model cannot represent.
