# Hedy: the table layer and its helpers, in Dafny

This project models the parts of the Hedy programming-education platform that make
precise promises about their data. Every file is a module, and the modules follow the
repository's files:

- **website/dynamo.py**, the key-value table layer the website stores its records in:
  - `DynamoValues`: stored values and the ordering used to sort records;
  - `DynamoConditions`: `Between` and the splitting of a query into equalities and conditions;
  - `DynamoHelpers`: `ExponentialBackoff`, `make_table_name`, `notnone` and `merge_dicts`;
  - `DynamoUpdates`: the update operators (increment, set add and remove, list append);
  - `DynamoQuery`: the in-memory query pipeline (select, order, drop past the cursor, truncate, filter) and `query_index` projection;
  - `DynamoMemory`: the `MemoryStorage` class, a table name to record list store whose methods change it in place;
  - `DynamoTable`: the `Table` class, with key resolution (`_determine_lookup`), key extraction and validation, `batch_get`, `get_many`, `create`, `update`, `delete` and `del_many`;
  - `DynamoPaging`: the `QueryIterator` cursor state machine with its `backend@offset` token, and the `get_many` and scan iterators.
- **website/quiz.py** (`Quiz`): the `QuizProgress` state machine, the answer-letter conversions, `Question.from_yaml` and `get_choice`, and the two-attempt rule of `submit_answer`.
- **website/statistics.py** (`Statistics`): the `#`-joined aggregation key and its split, the run counters, the quiz bucketing per level, the graph window, URL arguments and the common-error id allocator `new_id_calc`.
- **website/for_teachers.py** (`ForTeachers`): purging customizations in place, computing unused adventures per level, the teacher-ownership test, and the threshold and opening-date checks of `update_customizations`.
- **hedy_sourcemap.py** (`HedySourcemap`): source ranges, source-code equality and hash, and the `SourceMap` class. `set_python_output` places each Python snippet at its k-th occurrence and turns offsets into lines and columns.
- **tests/Highlighter.py** (`Highlighter`): the `{code|colour}` markup reader `convert`, `genInterTest` and the argument pairing of the multi-line asserts.
- **utils.py** (`Utils`): `slash_join`.
- **exceptions.py** (`Exceptions`): `HedyException` and the location it reports.

Shared modules:
- `Wrappers` holds Option and Result.
- `Builtins` holds the Python error kinds and Python's index and slice rules.
- `Text` holds string order, split and join, find and count, and integer parsing and printing.

Where Python raises, the model returns a `Failure` naming the exception.

Code that changes state is modelled as classes and loops:
- `MemoryStorage`, `Table`, `QueryIterator`, `QuizProgress`, `SourceMap` and the customizations record are classes with `modifies` clauses.
- The source's loops are methods with invariants.
- Each such method is proved equal to a specification function.
- Lemmas state the promised properties of those functions.

## Model

| member | source | states |
|---|---|---|
| DynamoValues.Get | website/dynamo.py:889-890 | `record.get(k)` is present exactly when the field is, and is then the field's value |
| DynamoValues.LessEq | website/dynamo.py:78-79 | Python `<=`: integer order on numbers, string order on strings, inclusion on sets and list order on lists; any pair of different kinds raises TypeError |
| DynamoValues.ListLessEq | website/dynamo.py:78-79 | comparing lists can only raise TypeError |
| DynamoValues.LessEqReflexive | website/dynamo.py:78-79 | `a <= a` holds for every value, lists and sets included |
| DynamoValues.ListSameFrom | website/dynamo.py:78-79 | a list compared with itself from any position on is `<=` |
| DynamoValues.ListAgreeUpTo | website/dynamo.py:78-79 | the list comparison passes over a stretch on which both lists agree |
| DynamoValues.ListFirstDifference | website/dynamo.py:78-79 | two lists compare as their elements at the first position where they differ |
| DynamoValues.ListPrefix | website/dynamo.py:78-79 | a list is `<=` every list it is a prefix of |
| DynamoValues.SortLeAgreesWithLessEq | website/dynamo.py:734-735 | the total order used for sorting agrees with Python's `<=` wherever that is defined |
| DynamoValues.SortLeTotal | website/dynamo.py:734-735 | any two sort values are comparable |
| DynamoValues.SortLeTransitive | website/dynamo.py:734-735 | the sort order is transitive |
| DynamoValues.Insert | website/dynamo.py:734-735 | inserting a record adds exactly that record to the multiset |
| DynamoValues.SortByField | website/dynamo.py:734-735 | sorting by a field is a permutation of its input |
| DynamoValues.InsertAscending | website/dynamo.py:734-735 | insertion into an ascending list keeps it ascending |
| DynamoValues.SortAscending | website/dynamo.py:734-735 | `filtered.sort(key=lambda x: x[sort_key])` yields a list ascending in the sort key |
| DynamoValues.Reverse | website/dynamo.py:737-738 | `reverse()` puts element `i` at position `n-1-i` |
| DynamoValues.ReverseMultiset | website/dynamo.py:737-738 | reversing is a permutation |
| DynamoValues.ReverseDescending | website/dynamo.py:734-738 | an ascending list reversed is descending |
| DynamoConditions.Between.Matches | website/dynamo.py:78-79 | the chained `minval <= value <= maxval`: true exactly when both comparisons hold; false when the lower one fails; TypeError exactly for a missing field, an incomparable lower bound, or an incomparable upper bound once the lower one holds |
| DynamoConditions.BetweenNumbers | website/dynamo.py:78-79 | on numbers, `Between(lo, hi).matches(v)` holds exactly when `lo <= v <= hi`, inclusive at both ends |
| DynamoConditions.BetweenStrings | website/dynamo.py:78-79 | on strings, `Between(lo, hi)` is the closed interval in lexicographic order |
| DynamoConditions.BetweenMixedKinds | website/dynamo.py:78-79 | a number with a string upper bound raises TypeError when the lower bound holds, and is false otherwise |
| DynamoConditions.BetweenMissingField | website/dynamo.py:892-895 | a missing field (`record.get(k)` is None) makes the comparison raise TypeError |
| DynamoConditions.Names | website/dynamo.py:741 | the names of an ordered dict, in order |
| DynamoConditions.NamesCons | website/dynamo.py:741 | names of a dict with one entry in front |
| DynamoConditions.Partition | website/dynamo.py:49-59 | every entry lands in exactly one of the two halves |
| DynamoConditions.PartitionEq | website/dynamo.py:56 | the first half holds exactly the entries whose value is not a condition |
| DynamoConditions.PartitionCond | website/dynamo.py:57 | the second half holds exactly the entries whose value is a condition |
| DynamoConditions.ValidateOnlySortKey | website/dynamo.py:1038-1041 | raises RuntimeError exactly when a sort key is given and some condition is on another field |
| DynamoConditions.CondsMatch | website/dynamo.py:892-895 | all conditions match exactly when each one's `matches` returns true on the record's field |
| DynamoConditions.QueryMatches | website/dynamo.py:892-895 | a record matches exactly when every equality holds and every condition matches; a failed equality short-circuits to false before any condition is evaluated |
| DynamoHelpers.Delay | website/dynamo.py:1066-1073 | the backoff time after `n` sleeps is at least the initial 0.05 |
| DynamoHelpers.DelayGrows | website/dynamo.py:1071-1073 | the backoff time never shrinks |
| DynamoHelpers.DelayIsPower | website/dynamo.py:1066-1073 | after `n` sleeps the time is `0.05 * 2^n` |
| DynamoHelpers.Pow2 | website/dynamo.py:1073 | powers of two are positive |
| DynamoHelpers.ExponentialBackoff.constructor | website/dynamo.py:1067-1068 | the time starts at 0.05 |
| DynamoHelpers.ExponentialBackoff.Sleep | website/dynamo.py:1071-1073 | each sleep doubles the time |
| DynamoHelpers.ExponentialBackoff.SleepWhen | website/dynamo.py:1075-1077 | doubles the time exactly when the condition holds, and otherwise changes nothing |
| DynamoHelpers.MakeTableName | website/dynamo.py:1062-1063 | with an empty prefix the name is unchanged; otherwise it is `prefix-name` |
| DynamoHelpers.MakeTableNameInjective | website/dynamo.py:1062-1063 | with a fixed prefix, distinct names give distinct table names |
| DynamoHelpers.NotNone | website/dynamo.py:1058-1059 | keeps exactly the arguments whose value is not None |
| DynamoHelpers.NotNoneAllGiven | website/dynamo.py:1058-1059 | with no None value every argument is kept, in order |
| DynamoHelpers.MergeDicts | website/dynamo.py:1224-1229 | an empty first dict gives the second, an empty second gives the first, two non-empty dicts give their union, or TypeError when they share a key |
| DynamoHelpers.MergeDictsSymmetric | website/dynamo.py:1224-1229 | when two non-empty dicts merge, the order of the arguments does not matter |
| DynamoUpdates.DefaultIncrement | website/dynamo.py:930-932 | `DynamoIncrement()` adds 1 |
| DynamoUpdates.NewAddToNumberSet | website/dynamo.py:954-961 | the constructor raises ValueError exactly when some element is not a number |
| DynamoUpdates.ElementSet | website/dynamo.py:824 | `set(update.elements)` holds exactly the elements, and raises TypeError exactly when one of them is a list or a set |
| DynamoUpdates.GetOr | website/dynamo.py:819-821 | `record.get(name, default)` |
| DynamoUpdates.ApplyOne | website/dynamo.py:820-848 | one update changes only its own field and fails, with TypeError, exactly when that field exists with the wrong kind or a set update holds a list or set element that `set(...)` cannot hash; an increment writes the old number (0 when absent) plus the delta, a set add the union, a set remove the difference, a list add the concatenation, a remove drops the field and a plain value is stored as given |
| DynamoUpdates.ApplyAllFrame | website/dynamo.py:820-848 | fields that no update names keep their values |
| DynamoUpdates.ApplyAllSnoc | website/dynamo.py:820 | the updates are applied one after another in dict order |
| DynamoUpdates.ApplyAllStops | website/dynamo.py:826-827 | once an update raises, the later ones are not applied |
| DynamoUpdates.ApplyAll | website/dynamo.py:820-848 | applying the updates raises only TypeError, and every field the result has that the record lacked is named by some update |
| DynamoUpdates.IncrementMissing | website/dynamo.py:822 | incrementing a missing field sets it to `0 + delta` |
| DynamoUpdates.IncrementTwice | website/dynamo.py:822 | two increments of a number field add both deltas |
| DynamoUpdates.AddToNonSet | website/dynamo.py:824-826 | adding to a field that is not a set raises TypeError |
| DynamoUpdates.AddThenRemove | website/dynamo.py:823-832 | adding then removing the same hashable elements removes them from the original set |
| DynamoUpdates.AddThenRemoveRestoresDisjoint | website/dynamo.py:823-832 | adding then removing elements that were not in the set gives back the original record |
| DynamoUpdates.AddThenRemoveLosesShared | website/dynamo.py:823-832 | an element that was already present is lost by add-then-remove |
| DynamoUpdates.AddUnhashableFails | website/dynamo.py:824-829 | a set add or remove with a list or set element raises TypeError, even on a missing field |
| DynamoUpdates.AddHashableToMissing | website/dynamo.py:821-829 | on a missing field with hashable elements, a set add succeeds and a set remove stores the empty set |
| DynamoUpdates.RemoveDeletes | website/dynamo.py:843-845 | a None update never fails and leaves the field absent |
| DynamoMemory.KeyMatchesItself | website/dynamo.py:889-890 | every key matches a record equal to it |
| DynamoMemory.FirstMatch | website/dynamo.py:883-887 | `_find_index` gives the first index whose record matches the key, or None when none does |
| DynamoMemory.FirstMatchAt | website/dynamo.py:883-887 | the first match is the one with no match before it |
| DynamoMemory.PutRecords | website/dynamo.py:798-805 | `put` stores the data, overwrites only the first matching record or appends, so the count grows by at most 1 and only when there was no match |
| DynamoMemory.PutThenFind | website/dynamo.py:798-805 | after `put`, looking up the key finds the data |
| DynamoMemory.PutIdempotent | website/dynamo.py:798-805 | putting the same record twice is the same as putting it once |
| DynamoMemory.UpdateTarget | website/dynamo.py:810-814 | a missing record is first created from the key and appended; the target is the key's first match |
| DynamoMemory.UpdateShape | website/dynamo.py:808-850 | update writes the updated record at its target index, leaves the others, and returns a copy of the new record |
| DynamoMemory.UpdateKeepsKey | website/dynamo.py:808-850 | updates that do not touch the key fields keep the record findable at the same place |
| DynamoMemory.UpdateMissingIncrement | website/dynamo.py:810-822 | incrementing a field of a missing record appends the key with that field set to the delta |
| DynamoMemory.DeleteRecords | website/dynamo.py:853-860 | `delete` returns None and changes nothing when no record matches; otherwise it removes one matching record and returns it |
| DynamoMemory.DeleteFirst | website/dynamo.py:853-860 | the record removed is the first that matches |
| DynamoMemory.DeleteMultiset | website/dynamo.py:853-860 | the remaining records plus the removed one are the original records |
| DynamoMemory.Collect | website/dynamo.py:717-719 | evaluating a dict of lookups: all answers in order, or the first error raised |
| DynamoMemory.CollectStops | website/dynamo.py:717-719 | an error in a prefix is the error of the whole |
| DynamoMemory.Lookups | website/dynamo.py:719 | each identifier is answered by `get_item` on its key |
| DynamoMemory.ScanPage | website/dynamo.py:867-881 | `scan` skips to the offset, keeps at most `limit` records, and returns `offset + limit` as the next offset only when it truncated |
| DynamoMemory.ScanFromAll | website/dynamo.py:867-881 | scanning page by page from an offset yields every record from there on |
| DynamoMemory.ScanFromChunks | website/dynamo.py:867-881 | following the returned offsets reads the records in consecutive pieces of `limit` records, the last one possibly shorter |
| DynamoMemory.ScanFrom | website/dynamo.py:867-881 | reading page by page from offset `o` yields exactly as many records as remain from `o` on |
| DynamoMemory.ChunksAll | website/dynamo.py:867-881 | those pieces, put back together, are exactly the records from the offset on |
| DynamoMemory.MemoryStorage.constructor | website/dynamo.py:691-699 | a new backend has no tables |
| DynamoMemory.MemoryStorage.FindIndex | website/dynamo.py:883-887 | the loop returns the first matching index |
| DynamoMemory.MemoryStorage.Query | website/dynamo.py:722-772 | the stored records queried as `DynamoQuery.Query` says; `QueryPaging` shows that following the tokens reads the whole result when no two records share a page key |
| DynamoMemory.MemoryStorage.GetItem | website/dynamo.py:713-714 | `get_item` is the first record of an unlimited query |
| DynamoMemory.MemoryStorage.BatchGetItem | website/dynamo.py:717-719 | `batch_get_item` answers every identifier with `get_item` |
| DynamoMemory.MemoryStorage.QueryIndex | website/dynamo.py:775-795 | `query_index` is the index query specification on the stored records |
| DynamoMemory.MemoryStorage.Put | website/dynamo.py:798-805 | only the named table changes, as `PutRecords` says |
| DynamoMemory.MemoryStorage.Update | website/dynamo.py:808-850 | only the named table changes, as `UpdateRecords` says, and the method returns its result |
| DynamoMemory.UpdateRecords | website/dynamo.py:808-850 | the only error an update raises is TypeError, and a successful update returns a record that is stored |
| DynamoMemory.MemoryStorage.Delete | website/dynamo.py:853-860 | a missing table stays missing; otherwise only that table changes, as `DeleteRecords` says |
| DynamoMemory.MemoryStorage.ItemCount | website/dynamo.py:863-865 | the number of stored records, 0 for a missing table |
| DynamoMemory.MemoryStorage.Scan | website/dynamo.py:867-881 | `scan` on the stored records |
| DynamoQuery.Lookup | website/dynamo.py:744-748 | reading a field out of a page key |
| DynamoQuery.Upsert | website/dynamo.py:744-748 | setting a field of a page key changes only that field |
| DynamoQuery.Select | website/dynamo.py:731 | the filtered records are exactly the stored ones that match, or the error a comparison raised |
| DynamoQuery.SelectCons | website/dynamo.py:731 | filtering a list with one record in front |
| DynamoQuery.SelectAll | website/dynamo.py:731 | with no conditions nothing is dropped |
| DynamoQuery.SelectAscending | website/dynamo.py:731 | filtering keeps an ascending list ascending |
| DynamoQuery.SelectDescending | website/dynamo.py:731 | filtering keeps a descending list descending |
| DynamoQuery.SelectAppend | website/dynamo.py:731 | filtering two stretches of records is filtering each and concatenating, so the stored order is kept |
| DynamoQuery.SelectCount | website/dynamo.py:731 | a record that matches occurs in the result exactly as often as it is stored, and one that does not match never |
| DynamoQuery.SelectFirst | website/dynamo.py:731 | the first filtered record is the first stored record that matches |
| DynamoQuery.SortChecked | website/dynamo.py:733-735 | sorting succeeds exactly when every record has the sort key and the values are all numbers or all strings; it is then a permutation in ascending order; otherwise KeyError or TypeError |
| DynamoQuery.Order | website/dynamo.py:733-738 | the ordered records are a permutation of the filtered ones, ascending by the sort key, or descending when `reverse` is set; without a sort key they are only reversed on request |
| DynamoQuery.ReverseFacts | website/dynamo.py:737-738 | reversal is a permutation and turns ascending into descending |
| DynamoQuery.HasFieldFromMultiset | website/dynamo.py:733-738 | a field present in every record stays present after sorting or reversing |
| DynamoQuery.Project | website/dynamo.py:741-742 | `{k: record[k] for k in key.keys()}`: the fields in order, or KeyError when one is missing |
| DynamoQuery.LookupProject | website/dynamo.py:741-742 | each projected field reads back the record's value |
| DynamoQuery.ExtractPageKey | website/dynamo.py:740-746 | the page key holds the query's key fields and then `offset` (its index) without a sort key, or the sort key's value with one |
| DynamoQuery.Keyed | website/dynamo.py:755 | `enumerate` pairs each record with its own page key, in order |
| DynamoQuery.Records | website/dynamo.py:768-771 | the records of the keyed list, in order |
| DynamoQuery.FirstOther | website/dynamo.py:749-750 | the first name that differs from the excluded one |
| DynamoQuery.Orderable | website/dynamo.py:748-751 | `orderable` raises IndexError exactly when there is no partition field or no second field |
| DynamoQuery.PairLe | website/dynamo.py:753-754 | tuple comparison: equal pairs are ordered; otherwise the first components decide when they differ |
| DynamoQuery.PairLeNumbers | website/dynamo.py:753-754 | on numbers, tuple `<=` is lexicographic order |
| DynamoQuery.BeforeOrEqual | website/dynamo.py:753-756 | compares the two keys' orderable pairs, swapped when `reverse` is set and there is a sort key |
| DynamoQuery.DropThrough | website/dynamo.py:758-759 | the `pop(0)` loop leaves a suffix, and with no token it is unchanged |
| DynamoQuery.DropThroughPrefix | website/dynamo.py:758-759 | every popped entry is at or before the token, and the first entry left (if any) is not |
| DynamoQuery.SuffixOrder | website/dynamo.py:758-759 | what the `pop(0)` loop leaves holds only records of the input, in their order |
| DynamoQuery.Truncate | website/dynamo.py:761-764 | keeps at most `limit` entries, and returns the last kept key as the next token exactly when it truncated |
| DynamoQuery.FinishIntro | website/dynamo.py:761-772 | the page is the truncated records, filtered afterwards, with the truncation's token |
| DynamoQuery.QueryIntro | website/dynamo.py:722-772 | the query is filtering and ordering, then dropping through the token, then truncating and filtering |
| DynamoQuery.QueryStages | website/dynamo.py:722-772 | a successful query went through every stage successfully |
| DynamoQuery.PrepareIntro | website/dynamo.py:723-755 | the key is validated, the records filtered, ordered and paired with page keys |
| DynamoQuery.PrepareUnfold | website/dynamo.py:723-755 | the prepared records are the ordered, filtered ones |
| DynamoQuery.PrepareFacts | website/dynamo.py:723-755 | every prepared record is stored and matches the key |
| DynamoQuery.FinishFacts | website/dynamo.py:761-772 | a page has at most `limit` records, and a token exactly when it truncated |
| DynamoQuery.FinishMember | website/dynamo.py:768-771 | every record on a page was a candidate and passes the filter |
| DynamoQuery.FinishOrder | website/dynamo.py:761-772 | truncating and filtering keep the order |
| DynamoQuery.DropSuffix | website/dynamo.py:758-759 | the records left after the token are among the candidates, in the same order |
| DynamoQuery.QueryRecordsMatch | website/dynamo.py:722-772 | every record a query returns is stored, matches every equality and every condition of the key, and passes the filter |
| DynamoQuery.QuerySorted | website/dynamo.py:733-738 | with a sort key the page is ascending, or descending when `reverse` is set |
| DynamoQuery.QueryLimit | website/dynamo.py:761-764 | a page has at most `limit` records, and a token only when the result was truncated |
| DynamoQuery.SelectedHasKeyFields | website/dynamo.py:889-890 | a record that matches the key has all the key's fields |
| DynamoQuery.KeyedSucceeds | website/dynamo.py:740-746 | with all key fields present, every page key can be built |
| DynamoQuery.QueryUnpaged | website/dynamo.py:722-772 | with no sort key, limit, token or filter, a query returns all matching records, in stored order or reversed, and no token |
| DynamoQuery.QueryUnlimitedComplete | website/dynamo.py:722-772 | without limit, token or filter, every stored record that satisfies the key is on the page |
| DynamoQuery.SelectNone | website/dynamo.py:731 | when nothing matches, the filtered list is empty |
| DynamoQuery.FinishFiltersAll | website/dynamo.py:761-772 | when a truncated page holds only records the filter rejects, the page comes back empty with the token of the last record kept |
| DynamoQuery.FilterAfterLimit | website/dynamo.py:761-772 | the filter runs after truncation: a truncated page in which no record passes the filter is empty yet still carries a token |
| DynamoQuery.Query | website/dynamo.py:722-772 | a page carries a token only when a non-zero limit was given, and the token is never empty |
| DynamoQuery.QueryIndex | website/dynamo.py:775-795 | an index query succeeds only when the table query does, returns the same token and as many records |
| DynamoQuery.GetItem | website/dynamo.py:713-714 | `get_item` returns a stored record that matches every equality and condition of the key, or None |
| DynamoQuery.DropThroughStep | website/dynamo.py:758-759 | one round of the `pop(0)` loop drops the first entry when it is at or before the token and otherwise stops |
| DynamoQuery.DropThroughAt | website/dynamo.py:758-759 | when no two page keys compare equal, dropping through the key of entry m leaves exactly the entries after m |
| DynamoQuery.PreparedKeysNonEmpty | website/dynamo.py:740-746 | every page key holds at least one field, so each token is truthy |
| DynamoQuery.NextKeyNonEmpty | website/dynamo.py:761-764 | the token of a truncated page is a non-empty key and appears only with a non-zero limit |
| DynamoQuery.DroppedKeysNonEmpty | website/dynamo.py:758-759 | the entries left by the `pop(0)` loop keep non-empty page keys |
| DynamoQuery.TruncateNextNonEmpty | website/dynamo.py:761-764 | a truncation token is the key of a kept entry and appears only with a non-zero limit |
| DynamoQuery.FinishNext | website/dynamo.py:761-772 | the page token is the truncation's token |
| DynamoQuery.DropPaging | website/dynamo.py:758-764 | with distinct page keys, dropping through the token of a truncated page leaves what followed the page |
| DynamoQuery.FinishSplit | website/dynamo.py:761-772 | the unlimited page of the dropped entries is the limited page followed by the unlimited page of the rest |
| DynamoQuery.QueryPaging | website/dynamo.py:722-772 | when no two prepared records share a page key, a page followed by the unlimited query from its token is the unlimited query from the same token, both failing or succeeding together |
| DynamoQuery.QueryLastPage | website/dynamo.py:761-772 | a page without a token is the whole rest of the result |
| DynamoQuery.OffsetKeysOrdered | website/dynamo.py:740-746 | without a sort key the `offset` page keys never tie, so paging a one-field partition key reads every record |
| DynamoQuery.SortKeysOrdered | website/dynamo.py:733-746 | with a sort key whose values are all numbers or all strings and pairwise different, the page keys never tie |
| DynamoQuery.SingleKeys | website/dynamo.py:740-746 | for a one-field partition key every page key is that field and then the offset or the sort value |
| DynamoQuery.SingleKeyShape | website/dynamo.py:740-746 | the page key of a record for a one-field key |
| DynamoQuery.SingleKeyOrderable | website/dynamo.py:748-751 | `orderable` of such a key is the pair of its two values |
| DynamoQuery.SortKeysCompare | website/dynamo.py:753-756 | two such keys compare as their second values do |
| DynamoQuery.SortLeStrict | website/dynamo.py:753-756 | two different numbers, or two different strings, are ordered one way only |
| DynamoQuery.PartitionSingle | website/dynamo.py:723 | a key with one equality partitions into that equality alone |
| DynamoQuery.PreparedKey | website/dynamo.py:755 | each prepared entry carries the page key of its record |
| DynamoQuery.KeyedCons | website/dynamo.py:755 | pairing records with page keys, one record in front |
| DynamoQuery.TieSelected | website/dynamo.py:731 | the three tied records all satisfy the key |
| DynamoQuery.TieSorted | website/dynamo.py:733-734 | sorting the tied records by `ts` keeps them in place |
| DynamoQuery.TieKeyed | website/dynamo.py:755 | the two records with `ts` 1 get the same page key |
| DynamoQuery.TiePrepared | website/dynamo.py:723-755 | the prepared entries of the three records, the first two with equal keys |
| DynamoQuery.TieCompare | website/dynamo.py:753-756 | the tied key is at or before itself and the third key is after it |
| DynamoQuery.DropTie | website/dynamo.py:758-759 | dropping through the tied key pops both tied records |
| DynamoQuery.TieFirstPage | website/dynamo.py:722-772 | the first page with limit 1 is the first record and the tied key |
| DynamoQuery.TieSecondPage | website/dynamo.py:722-772 | the query from that token returns only the third record |
| DynamoQuery.TieAll | website/dynamo.py:722-772 | the unlimited query returns all three records |
| DynamoQuery.QueryPagingTie | website/dynamo.py:758-759 | as written: with two records tied on the sort key, following the token of a one-record page skips the second tied record |
| DynamoQuery.ProjectAll | website/dynamo.py:795 | every record is projected onto exactly the retained fields, with their values; a missing field raises |
| DynamoQuery.NameSet | website/dynamo.py:794 | the set of a list of names |
| DynamoQuery.RetainedFields | website/dynamo.py:794 | the retained fields are the query's key fields, the index sort key and the table key names |
| DynamoQuery.QueryIndexAllAttributes | website/dynamo.py:789-790 | an index that is not keys-only returns the query unchanged |
| DynamoQuery.QueryIndexKeysOnly | website/dynamo.py:792-795 | a keys-only index projects every record of the query onto exactly the retained key fields, and keeps the token |
| DynamoQuery.FirstOrNone | website/dynamo.py:906-907 | the first element, or None for an empty list |
| DynamoQuery.GetItemFirstMatch | website/dynamo.py:713-714 | `get_item` is None exactly when no stored record matches the key, and otherwise the first stored record that does |
| DynamoTable.NewIndex | website/dynamo.py:131-138 | an index keeps its fields; without a name it is named `partition[-sort]-index` |
| DynamoTable.DefaultNameShape | website/dynamo.py:137-138 | the default name starts with the partition key and ends with `-index` |
| DynamoTable.DefaultIndexName | website/dynamo.py:137-138 | with a sort key the default name is `partition-sort-index` |
| DynamoTable.IndexKeyNames | website/dynamo.py:426 | an index's key names are its partition key and, if declared, its sort key |
| DynamoTable.KeyNames | website/dynamo.py:227 | `key_names` is the partition key, followed by the sort key when there is one |
| DynamoTable.KeyNameSet | website/dynamo.py:449-450 | `_key_names` is the set of the partition key and the declared sort key |
| DynamoTable.KeySet | website/dynamo.py:412 | the set of the key's field names |
| DynamoTable.FirstTrue | website/dynamo.py:425-429 | the first index for which the test holds |
| DynamoTable.FirstServing | website/dynamo.py:425-429 | the first declared index whose key set equals the key set, or whose partition key is the single field of a one-field key |
| DynamoTable.ServingFlags | website/dynamo.py:425-429 | whether each index serves the key |
| DynamoTable.DetermineLookup | website/dynamo.py:407-436 | an empty value raises ValueError; an empty key raises IndexError; a key set equal to the table's key set gives a TableLookup; otherwise the first serving index gives an IndexLookup; other keys raise RuntimeError |
| DynamoTable.OneFieldSet | website/dynamo.py:414 | the single field of a one-field key is its first name |
| DynamoTable.PartitionKeyOnly | website/dynamo.py:431-436 | a lone table partition key that no index serves is a TableLookup when `many` is set and a RuntimeError when it is not |
| DynamoTable.UnservedKey | website/dynamo.py:431-436 | any other key that no index serves raises RuntimeError |
| DynamoTable.ExtractKey | website/dynamo.py:438-447 | succeeds exactly when every table key field is present, and the key then holds exactly those fields with the record's values; a missing partition key, or a missing declared (non-empty) sort key, raises RuntimeError; a missing empty-named sort key raises KeyError at the read |
| DynamoTable.ExtractKeyMatches | website/dynamo.py:438-447 | a record matches the key extracted from it |
| DynamoTable.ValidateKey | website/dynamo.py:452-456 | succeeds exactly when the key's fields are the table key names and every value is non-empty; otherwise RuntimeError |
| DynamoTable.DictGet | website/dynamo.py:277-280 | `resp_dict.get(k)` |
| DynamoTable.DictGetDistinct | website/dynamo.py:277-280 | with distinct identifiers, each identifier reads back its own answer |
| DynamoTable.ListKeyNamesDistinct | website/dynamo.py:264 | the identifiers `k0`, `k1`, … are pairwise distinct |
| DynamoTable.NameKeys | website/dynamo.py:264 | a list of keys gets the identifiers `k{i}` in order |
| DynamoTable.BatchAnswers | website/dynamo.py:274-280 | each identifier gets the answer to its own key |
| DynamoTable.Resolve | website/dynamo.py:266 | every key is resolved with `many=False`; the first error raised is the result |
| DynamoTable.ManyPageUnlimited | website/dynamo.py:282-324 | `get_many` without limit or token returns no next token |
| DynamoTable.KeyConditions | website/dynamo.py:363-372 | a key record as equality conditions on exactly its fields |
| DynamoTable.PageRepresented | website/dynamo.py:374-392 | the first record of a non-empty page returned by `get_many` is a stored record that carries the table key |
| DynamoTable.DeleteShrinks | website/dynamo.py:853-860 | deletion never adds records |
| DynamoTable.DeleteFindsPresent | website/dynamo.py:853-860 | deleting a key that matches a stored record removes exactly one record |
| DynamoTable.Table.constructor | website/dynamo.py:220-227 | the table keeps its storage, name, keys and indexes |
| DynamoTable.Table.Get | website/dynamo.py:229-245 | `get` raises what key resolution raises; a table lookup is `get_item`; an index lookup is the first record of the index query with limit 1 |
| DynamoTable.Table.BatchGetDict | website/dynamo.py:249-278 | the method computes `BatchGetDictOf` of the resolved keys and the stored records |
| DynamoTable.BatchGetDictFacts | website/dynamo.py:249-278 | a resolution error is raised first, then RuntimeError for any index lookup, then the storage error; otherwise each identifier maps to `get_item` of its key |
| DynamoTable.Table.BatchGetList | website/dynamo.py:249-280 | a list of keys gets a list of the same length, in the same order, each the answer to its key |
| DynamoTable.Table.GetMany | website/dynamo.py:282-324 | `get_many` raises what key resolution raises; a table lookup is the storage query on the table sort key; an index lookup is the index query, so the pages it returns chain as `DynamoQuery.QueryPaging` says |
| DynamoTable.Table.Create | website/dynamo.py:334-343 | `create` raises ValueError without the partition key (or a declared sort key) and changes nothing; otherwise it puts the record under its extracted key and returns it |
| DynamoTable.Table.Update | website/dynamo.py:350-361 | `update` raises RuntimeError for an invalid key and changes nothing; otherwise it is the storage update |
| DynamoTable.Table.Delete | website/dynamo.py:363-372 | `delete` raises RuntimeError for an invalid key and changes nothing; otherwise it is the storage delete |
| DynamoTable.Table.DelMany | website/dynamo.py:374-392 | `del_many` changes no other table and only removes records; an undeterminable lookup fails; when no two stored records share a key, a completed `del_many` leaves no record that satisfies the key |
| DynamoTable.Table.DeletePage | website/dynamo.py:385-388 | the records left are those that deleting by each page record's key in turn leaves; a completed round removes at least one record when the first page record is stored |
| DynamoTable.DeletedKeysShrinks | website/dynamo.py:385-388 | deleting by keys never adds a record, and removes one when the first key is carried by a stored record |
| DynamoTable.DeletedKeysStep | website/dynamo.py:385-388 | one more record of the page deletes by its extracted key, or fails with the extraction error |
| DynamoTable.DeletedKeysGone | website/dynamo.py:385-388 | with unique keys, after the round no record carries the key of any page record, and the keys stay unique |
| DynamoTable.DeleteUnique | website/dynamo.py:853-860 | with unique keys, deleting by a full key leaves no record with that key and keeps the keys unique |
| DynamoTable.KeyOfMatch | website/dynamo.py:438-447 | a record that carries a full key has that key as its extracted key |
| DynamoTable.SameKey | website/dynamo.py:438-447 | a record carries its own extracted key, and one that carries another's key has the same extracted key |
| DynamoTable.ProjectionKey | website/dynamo.py:438-447 | a record and one that extends it have the same extracted key |
| DynamoTable.PutKeepsUniqueKeys | website/dynamo.py:334-343 | `create` stores a record under its own key and so keeps the stored keys unique |
| DynamoTable.UnlimitedPageCovers | website/dynamo.py:282-324 | for every stored record that satisfies the key, the unlimited `get_many` page holds a record with the same extracted key |
| DynamoTable.KeysOnlyCovers | website/dynamo.py:789-795 | on a keys-only index the page holds a record with the same extracted key as each matching stored record |
| DynamoTable.FirstRoundClears | website/dynamo.py:383-388 | once every record of the first, unlimited page has had its key deleted, no record satisfying the key remains |
| DynamoTable.GoneStays | website/dynamo.py:383-392 | a deleted key stays gone while records are only removed |
| DynamoTable.NoneSelectedStays | website/dynamo.py:383-392 | when no record satisfies the key, none does after more records are removed |
| DynamoTable.Table.DeleteItem | website/dynamo.py:386-388 | deleting a stored record by its extracted key removes it; a record without its key raises what `_extract_key` raises |
| DynamoTable.Table.Scan | website/dynamo.py:394-401 | `scan` is the storage scan |
| DynamoTable.Table.ItemCount | website/dynamo.py:403-405 | `item_count` is the number of stored records |
| DynamoPaging.AnalyzeToken | website/dynamo.py:1153-1165 | no token gives the first page and offset 0; a token without `@` raises IndexError; the backend part is None when empty and never holds `@` |
| DynamoPaging.SplitFacts | website/dynamo.py:1163 | no part of a split holds the separator, and a text without it splits into itself |
| DynamoPaging.SplitPartsFree | website/dynamo.py:1163 | no part of a split holds the separator |
| DynamoPaging.FetchPageValid | website/dynamo.py:1099-1105 | `_fetch_next_page` succeeds exactly when the fetch does, and leaves the iterator consistent: index never negative, and past the page only when there is no next page or the page was empty |
| DynamoPaging.AtEndValid | website/dynamo.py:1111-1120 | `eof` keeps the iterator consistent |
| DynamoPaging.StepValid | website/dynamo.py:1122-1136 | `advance` keeps the iterator consistent |
| DynamoPaging.PeekInPage | website/dynamo.py:1138-1143 | `current` keeps the iterator consistent, and fails only with RuntimeError at the end or with a fetch error |
| DynamoPaging.DropValid | website/dynamo.py:1094-1097 | skipping the initial records keeps the iterator consistent |
| DynamoPaging.InitValid | website/dynamo.py:1088-1097 | a new iterator is consistent |
| DynamoPaging.EmptyPageEnds | website/dynamo.py:1105-1114 | an empty fetched page ends the iteration even when it carries a token |
| DynamoPaging.NextRecordYields | website/dynamo.py:1181-1186 | inside a page, `next` yields the current record and moves to the next index |
| DynamoPaging.AnalyzeNextToken | website/dynamo.py:1153-1170 | the token `"{backend or ''}@{i}"` parses back to the backend token and `i` |
| DynamoPaging.DropWithinPage | website/dynamo.py:1094-1097 | skipping within the first page moves the index by the number skipped |
| DynamoPaging.ResumeAtSamePlace | website/dynamo.py:1088-1097 | an iterator started from `next_page_token` is at the same position as the one that produced it |
| DynamoPaging.NextNRest | website/dynamo.py:1181-1186 | on a last page, repeated `next` yields the remaining records and then stops |
| DynamoPaging.SinglePageIteration | website/dynamo.py:1088-1186 | iterating a single page yields exactly its records |
| DynamoPaging.ScanFetchAt | website/dynamo.py:1220-1221 | a scan iterator's fetch is the table scan at the decoded offset |
| DynamoPaging.ScanIteratesAll | website/dynamo.py:1209-1221 | an unlimited scan iterator yields every stored record, in order |
| DynamoPaging.GetAllIteratesPage | website/dynamo.py:326-331 | `get_all` without a batch size yields exactly the records `get_many` returns |
| DynamoPaging.GetManyIterator | website/dynamo.py:1189-1206 | a get-many iterator is the iterator over `get_many` pages, or the error its start raises |
| DynamoPaging.GetAll | website/dynamo.py:326-331 | `get_all` is a get-many iterator from the first page |
| DynamoPaging.ScanIterator | website/dynamo.py:1209-1221 | a scan iterator is the iterator over scan pages, or the error its start raises |
| DynamoPaging.QueryIterator.Start | website/dynamo.py:1088-1091 | before skipping there is no page and the end is not known |
| DynamoPaging.QueryIterator.New | website/dynamo.py:1088-1097 | the constructor analyses the token and skips that many records while not at the end, as the cursor specification says |
| DynamoPaging.QueryIterator.FetchNextPage | website/dynamo.py:1099-1105 | the new fields are the cursor specification's |
| DynamoPaging.QueryIterator.Eof | website/dynamo.py:1111-1120 | `eof` fetches a page when none is loaded and answers whether the index is past the last page |
| DynamoPaging.QueryIterator.Advance | website/dynamo.py:1122-1136 | `advance` loads the first page or moves the index, and drops the page at its end when there is a next token |
| DynamoPaging.QueryIterator.Current | website/dynamo.py:1138-1143 | `current` is the record at the index, or RuntimeError at the end |
| DynamoPaging.QueryIterator.NextPageToken | website/dynamo.py:1167-1170 | `next_page_token` is None at the end and `"{backend or ''}@{i}"` otherwise |
| DynamoPaging.QueryIterator.Next | website/dynamo.py:1181-1186 | `__next__` returns the current record and advances, or stops at the end |
| DynamoPaging.FetchPage | website/dynamo.py:1099-1105 | `_fetch_next_page` succeeds exactly when the fetch does, with its error otherwise; it loads the fetched page at index 0, keeps the token, and knows the end exactly when the page is empty |
| DynamoPaging.AtEnd | website/dynamo.py:1111-1120 | a known end answers true without fetching; a loaded page is not refetched; otherwise the answer is whether the index is past the page and there is no next page token |
| DynamoPaging.Step | website/dynamo.py:1122-1136 | without a page `advance` is a fetch; with one it cannot fail, moves the index by one, and drops the page for its next token only at the end of a page that has one |
| DynamoPaging.Peek | website/dynamo.py:1138-1143 | `current` returns a record of the loaded page, and the iterator is then not at the end |
| DynamoPaging.NextRecord | website/dynamo.py:1181-1186 | `__next__` stops exactly at the end; otherwise it returns the record `current` gives |
| DynamoPaging.ResumeToken | website/dynamo.py:1167-1170 | `next_page_token` fails exactly when `eof` does, is None exactly at the end, and otherwise holds `@` |
| DynamoPaging.Init | website/dynamo.py:1088-1097 | the constructor raises what token analysis raises, or what the first fetch raises |
| Quiz.NumberFromLetter | website/quiz.py:390-392 | a one-character letter `A`–`Z` or `a`–`z` gives its position in the alphabet from 1, ignoring case; anything but one character raises TypeError (`ord`) |
| Quiz.LetterFromNumber | website/quiz.py:395-397 | succeeds exactly when `ord('A') + num - 1` is in `chr`'s range 0..0x10FFFF (surrogates included), giving that code point; otherwise ValueError |
| Quiz.LetterOfNumberOfLetter | website/quiz.py:390-397 | for a letter `c`, `letter_from_number(number_from_letter(c))` is the code point of `c.upper()` |
| Quiz.NumberIgnoresCase | website/quiz.py:390-392 | `number_from_letter` gives the same number for a letter in either case |
| Quiz.NumberOfLetterOfNumber | website/quiz.py:390-397 | for 1..26, `number_from_letter(letter_from_number(n)) == n` |
| Quiz.GetChoice | website/quiz.py:321-323 | `get_choice(n)` is `choices[n-1]` for base-1 `n`; Python's negative indexing is kept, and an index out of range raises IndexError |
| Quiz.Choices | website/quiz.py:330-331 | choices are numbered 1..k in file order, with `option` and `feedback` defaulting to empty text |
| Quiz.ToInt | website/quiz.py:335 | `int(x)`: a number is itself; a text succeeds exactly when it parses as an integer, and otherwise raises ValueError |
| Quiz.FromYaml | website/quiz.py:325-337 | succeeds exactly when the correct-answer letter (default `A`) and `int(question_score)` (default 10) convert, the letter's error coming first; keeps the number and the text, numbers the choices, and with neither key present gives answer 1 and score 10 |
| Quiz.ScoreFromText | website/quiz.py:335 | a score written as the text `"5"` loads as 5, and `"five"` makes loading raise ValueError |
| Quiz.GetChoiceFromYaml | website/quiz.py:321-337 | `get_choice(n)` on a loaded question is the n-th option of the file, numbered n |
| Quiz.IncorrectAndCorrect | website/quiz.py:381-387 | `incorrect_answers_so_far` is `{1..question}` minus the correctly answered numbers, so it is disjoint from `correct_answers_so_far` |
| Quiz.QuizProgress.constructor | website/quiz.py:340-355 | a new progress record has the given level, question, attempt id, attempt count and score, no answers yet and the default counters |
| Quiz.QuizProgress.CorrectlyAnswered | website/quiz.py:357-363 | adds the score and records the number only the first time that number is answered correctly, clears both wrong-answer fields, and changes nothing else |
| Quiz.QuizProgress.IncorrectlyAnswered | website/quiz.py:365-369 | increases `question_attempt` by exactly 1, records the choice's number and feedback, and changes nothing else |
| Quiz.QuizProgress.NextQuestion | website/quiz.py:371-376 | increases `question` by 1, resets `question_attempt` to 0, clears both wrong-answer fields, and changes nothing else |
| Quiz.QuizProgress.AdvanceCypressPageCounter | website/quiz.py:378-379 | increases the page counter by 1 and changes nothing else |
| Quiz.QuizProgress.SubmitAnswer | website/quiz.py:84-124 | no answer, or an answer at `MAX_ATTEMPTS` (2) attempts or more, records nothing; a correct answer adds the score only when the question was not answered correctly before, records its number once and clears the wrong answer and its feedback; a wrong one counts an attempt, records the choice number and its feedback and keeps the score, and raises IndexError (changing nothing) for a choice that does not exist; the question is finished when the answer is correct or the attempts reach 2; the level, question, attempt id and preview flag never change |
| Quiz.TwoWrongAnswersFinish | website/quiz.py:95-119 | from a fresh question, the second wrong answer is reported wrong and finished with `MAX_ATTEMPTS` reached, and a third answer is refused as already finished |
| Quiz.QuizProgress.CorrectSoFar | website/quiz.py:381-383 | `correct_answers_so_far` has no more elements than numbers recorded, and exactly as many when no number is recorded twice |
| Quiz.QuizProgress.IncorrectAnswersSoFar | website/quiz.py:385-387 | `incorrect_answers_so_far` lies within 1..question, is disjoint from the correct answers, and together with them covers 1..question |
| Quiz.ElementsCount | website/quiz.py:381-383 | a list has at most as many distinct elements as entries, exactly as many when none repeats |
| Statistics.Get | website/statistics.py:1012 | `rec.get(name)` is present exactly when the record has that field, and is then its value |
| Statistics.KeyTexts | website/statistics.py:991-992 | `record[key.name]` raises KeyError for a missing field |
| Statistics.KeyTextsFields | website/statistics.py:991-992 | the key texts are the `str` of each key field, in key order, and exist exactly when every key field is present |
| Statistics.AggregateKey | website/statistics.py:991-992 | `_aggregate_key` succeeds exactly when every key field is present, and otherwise raises KeyError |
| Statistics.Convert | website/statistics.py:1054 | `key.class_(text)`: `str` keeps the text, `int` parses it or raises ValueError |
| Statistics.ConvertShow | website/statistics.py:1054 | a value whose class round-trips through `str` is given back by `class_(str(v))` |
| Statistics.KeyMap | website/statistics.py:1053-1054 | every key name is mapped; too few values raise IndexError, and a value that does not convert raises ValueError |
| Statistics.KeyMapKeys | website/statistics.py:1053-1054 | the split values are mapped to exactly the key names |
| Statistics.SplitKeysData | website/statistics.py:1052-1056 | the result holds the aggregated data under `data`, or IndexError or ValueError |
| Statistics.KeyMapOfTexts | website/statistics.py:1053-1054 | when each split text converts back to a record's field, the map gives back every key field's value |
| Statistics.SplitAggregateKey | website/statistics.py:1052-1056 | `_split_keys_data(_aggregate_key(r, keys), v, keys)` gives back each key field's value and the data, when no value's text holds `#` and each class round-trips through `str` |
| Statistics.SplitJoined | website/statistics.py:1053 | splitting `#`-joined parts free of `#` gives the parts back |
| Statistics.NumberOr0 | website/statistics.py:1012 | `rec.get(name) or 0`: a missing or falsy value counts as 0, a number as itself; adding anything else raises TypeError |
| Statistics.NumbersOrEmpty | website/statistics.py:1026 | `rec.get("scores") or []`: a missing value is the empty list, a list is itself; anything else raises TypeError |
| Statistics.AddUserTypeRuns | website/statistics.py:1042-1049 | the run count of the matching user type grows by the value (`@all-students` goes to the student runs) and nothing else changes |
| Statistics.AddException | website/statistics.py:1032-1039 | adding one exception count succeeds exactly when its value is a number, and otherwise raises TypeError |
| Statistics.AddExceptionData | website/statistics.py:1030-1039 | fails only with TypeError; on success `failed_runs` grows by the record's exception runs when asked, and so do the user type runs when the id is a user type, and the successful runs, attempts and scores stay unchanged |
| Statistics.AddExceptionDataLoop | website/statistics.py:1030-1039 | the loop computes `AddExceptionData` |
| Statistics.AddExceptionDataStep | website/statistics.py:1030-1036 | one more field of the record is one more step of the loop |
| Statistics.AddExceptionDataKeys | website/statistics.py:1029-1033 | after a successful pass a name has an exception counter exactly when it had one before or it is the name of an exception field of the record |
| Statistics.AddExceptionDataFails | website/statistics.py:1032-1039 | an error in a prefix of the record is the error of the whole |
| Statistics.AddProgramRunDataAsWritten | website/statistics.py:1009-1019 | as written: the successful and the failed runs are added, but the user-type counters grow by the successful runs alone, because the user type of the failed runs is looked up on the aggregate entry, which has no id |
| Statistics.FailedRunsNotAttributed | website/statistics.py:1038 | for a record of a known user type with exception runs, as written the user type runs miss exactly those runs that the corrected version counts |
| Statistics.AddExceptionDataSameOutcome | website/statistics.py:1030-1039 | the id passed on changes neither the outcome nor the successful runs |
| Statistics.AddProgramRunData | website/statistics.py:1009-1019 | starting from a fresh entry when there is none, `successful_runs` grows by the record's value (missing counts as 0), `failed_runs` by its exception runs, the record's user type by both, and the quiz fields stay unchanged |
| Statistics.RunData | website/statistics.py:1009-1019 | `successful_runs` grows by the record's value (missing counts as 0), `failed_runs` by its exception runs, the user type named by the failed-runs id by both, and the quiz fields stay unchanged; a non-number is TypeError |
| Statistics.RunDataUnfold | website/statistics.py:1009-1019 | the runs are counted first, then the exception runs added |
| Statistics.RunDataSameOutcome | website/statistics.py:1009-1019 | which entry the failed runs are attributed to does not decide whether the update succeeds |
| Statistics.AddQuizData | website/statistics.py:1022-1027 | starting from a fresh entry when there is none, `total_attempts` grows by `started`, `completed_attempts` by `finished`, `scores` is extended by the record's scores, and the run fields stay unchanged |
| Statistics.Find | website/statistics.py:985 | `result.get(key)` over the groups |
| Statistics.Store | website/statistics.py:985-986 | `result[key] = …` sets that key, adds no other key and leaves the other groups unchanged |
| Statistics.StoreKeys | website/statistics.py:985-986 | `result[key] = …` keeps an existing key in its place and appends a new key at the end, as a Python dict does |
| Statistics.AddRecord | website/statistics.py:984-986 | as written: one record changes only its own group, whose successful runs grow by the record's and whose failed runs by its exception runs |
| Statistics.AddRecordCorrected | website/statistics.py:984-986 | corrected: one record changes only its own group; its successful runs grow by the record's, its failed runs by the exception runs, and for a user type the user-type counters by both; KeyError for a missing key, otherwise TypeError |
| Statistics.Initialize | website/statistics.py:995-1006 | every counter starts at 0, with no scores and no exceptions |
| Statistics.CorrectedRecordCounts | website/statistics.py:984-986 | the as-written and the corrected round succeed together and agree on the successful and failed runs of the record's group; the corrected round adds the record's exception runs to its user type, which the as-written round misses |
| Statistics.QuizSameOutcome | website/statistics.py:1022-1027 | whether `_add_quiz_data` succeeds does not depend on the entry it starts from |
| Statistics.Accumulate | website/statistics.py:983-986 | the groups have distinct keys |
| Statistics.AccumulateGroups | website/statistics.py:977-988 | there is one group per distinct aggregate key of the data, and its successful runs are the sum of its records', missing counted as 0 |
| Statistics.AccumulateGroup | website/statistics.py:977-988 | the same, for one key |
| Statistics.OtherKeyStep | website/statistics.py:984-986 | a record with another key leaves a group as it was |
| Statistics.SameKeyStep | website/statistics.py:984-986 | a record with a group's key adds its runs to that group |
| Statistics.AccumulateLast | website/statistics.py:983-986 | the groups of the data are those of all records but the last, with the last one added |
| Statistics.SuccessfulRunsSnoc | website/statistics.py:983-986 | the successful runs of a key over the data grow by the last record's, when it has that key |
| Statistics.LastKeyFound | website/statistics.py:983-986 | after the last record is added, its key has a group |
| Statistics.NoRunsUnderAbsentKey | website/statistics.py:977-988 | a key no record has collects no runs |
| Statistics.SplitAll | website/statistics.py:988 | one result per group, each holding that group's data |
| Statistics.SplitAllFails | website/statistics.py:988 | an error in a prefix of the groups is the error of the whole |
| Statistics.AggregateForKeys | website/statistics.py:977-988 | one result per entry of the accumulated dict, in the dict's order, each holding that group's data |
| Statistics.AggregateForKeysOrder | website/statistics.py:983-988 | the results follow the distinct aggregate keys in the order they first appear among the records, each holding that key's group |
| Statistics.AccumulateOrder | website/statistics.py:983-986 | the dict built by the loop holds the distinct aggregate keys in first-appearance order |
| Statistics.FirstAppearanceOrder | website/statistics.py:983-986 | the first-appearance list holds each record's key exactly once, and one key precedes another exactly when its first record comes earlier |
| Statistics.AddRecordKeys | website/statistics.py:984-986 | one round appends the record's key to the dict when it is new and otherwise leaves the key order as it was |
| Statistics.AggregateForKeysLoop | website/statistics.py:977-988 | the two loops compute `AggregateForKeys` |
| Statistics.AccumulateLoop | website/statistics.py:983-986 | the loop over the records computes `Accumulate` |
| Statistics.SplitAllLoop | website/statistics.py:988 | the loop over the groups computes `SplitAll` |
| Statistics.AccumulateFails | website/statistics.py:983-986 | an error in a prefix of the data is the error of the whole |
| Statistics.AddValueToResult | website/statistics.py:947-952 | None is ignored, and so are non-positive values when `is_counter` is set; otherwise a missing or falsy entry is set to the value, and an existing one grows by it |
| Statistics.AddValuesCommute | website/statistics.py:947-952 | two additions give the same result in either order |
| Statistics.AddDictToResult | website/statistics.py:955-959 | None (and a non-positive counter) is ignored; otherwise the series is set to the value under the key, a missing or empty entry is first made a fresh dict, and other keys and series are unchanged |
| Statistics.ScoreMetrics | website/statistics.py:962-974 | no scores give None; otherwise the minimum and the maximum are scores, and every score lies between them |
| Statistics.Labels | website/statistics.py:1225 | the labels number the history points 1..n |
| Statistics.CollectGraphData | website/statistics.py:1217-1231 | the chart histories concatenated with labels 1..n, cut to the last `window_size` pairs |
| Statistics.GraphWindow | website/statistics.py:1229-1231 | when n > window only the last `window` pairs are kept, otherwise all of them; data and labels keep the same length |
| Statistics.Assignments | website/statistics.py:1207-1213 | each argument becomes `key=value`, in argument order |
| Statistics.BuildUrlArgs | website/statistics.py:1200-1214 | `_build_url_args` is the `key=value` texts joined by `&`, with no leading `&` |
| Statistics.JoinSnoc | website/statistics.py:1209-1213 | appending one more argument adds `&key=value`, or just `key=value` for the first |
| Statistics.UrlArgsSplit | website/statistics.py:1200-1214 | splitting the result on `&` gives back the assignments when no key or value holds `&` |
| Statistics.InProgressAt | website/statistics.py:1143-1145 | the students in progress at a level are exactly those that list it under `in_progress` |
| Statistics.FinishedAt | website/statistics.py:1146-1147 | the finished students at a level are exactly those that list it under `finished` but not under `in_progress` |
| Statistics.QuizInfoDisjoint | website/statistics.py:1133-1151 | at a level no student is both in progress and finished |
| Statistics.GetQuizInfo | website/statistics.py:1133-1151 | there is an entry for every level 1..HEDY_MAX_LEVEL and no other, holding the students in progress and the finished ones |
| Statistics.NextId | website/statistics.py:756-757 | `max(ids) + 1`, or 0 without errors: above every id, and one more than some id |
| Statistics.FirstInactive | website/statistics.py:762-765 | the first error whose `active` is 0, or none |
| Statistics.AfterNewId | website/statistics.py:767-773 | the errors keep their number |
| Statistics.NewIdBelowLimit | website/statistics.py:748-775 | with ids below `MAX_COMMON_ERRORS` (10), the new id stays below it too |
| Statistics.NewIdFresh | website/statistics.py:748-775 | below a positive multiple of 10 the new id is max + 1 and unused; at one it is the first inactive id, or 0 after the first 5 entries were deactivated |
| Statistics.NewId | website/statistics.py:748-775 | the id fails, with IndexError, exactly when the ids are full, no error is inactive and fewer than 5 errors exist; below a full count it exceeds every id; at one it reuses an inactive error's id |
| Statistics.NewIdCalc | website/statistics.py:748-775 | `new_id_calc` returns the new id and flips the `active` flags in the list as `AfterNewId` says; with fewer than 5 entries to deactivate it raises IndexError after deactivating all of them |
| Statistics.MaxIdPlusOne | website/statistics.py:756-757 | the loop computes max id + 1, or 0 |
| Statistics.FirstDisabled | website/statistics.py:762-765 | the loop finds the first inactive error |
| Statistics.DeactivateOldest | website/statistics.py:770-773 | when every error is active, the result is the id `new_id_calc` returns (0, or IndexError with fewer than 5 errors) and the errors are left as it leaves them: the first 5 deactivated, the rest untouched |
| Statistics.NoneInactive | website/statistics.py:759-773 | with the store full and no inactive error, the new id is 0 (IndexError with fewer than 5 errors) and exactly the first 5 errors are deactivated |
| Statistics.FirstInactiveIs | website/statistics.py:762-765 | the first inactive error is the one with no inactive error before it |
| Statistics.FirstInactiveNone | website/statistics.py:762-765 | with all errors active there is no inactive one |
| ForTeachers.TeacherIds | website/for_teachers.py:421 | the set of the teacher adventures' ids |
| ForTeachers.Purged | website/for_teachers.py:423-425 | purging never makes a list longer |
| ForTeachers.PurgedKeeps | website/for_teachers.py:420-425 | an entry survives exactly when it was in the list and its name is a default adventure or a teacher adventure id |
| ForTeachers.PurgedIsSubsequence | website/for_teachers.py:423-425 | purging works entry by entry, so the survivors keep their order |
| ForTeachers.PurgedSnoc | website/for_teachers.py:423-425 | one more entry survives the purge exactly when it is kept |
| ForTeachers.PurgedIdempotent | website/for_teachers.py:420-425 | purging twice is purging once |
| ForTeachers.Remove | website/for_teachers.py:425 | `list.remove` drops one occurrence when there is one and leaves the list otherwise |
| ForTeachers.RemoveAfterPrefix | website/for_teachers.py:425 | `remove` drops the first occurrence |
| ForTeachers.Customizations.constructor | website/for_teachers.py:420 | the customizations hold the given adventure lists |
| ForTeachers.Customizations.Purge | website/for_teachers.py:420-425 | `purge_customizations` keeps the levels and purges every level's list in place |
| ForTeachers.PurgeList | website/for_teachers.py:423-425 | removing the rejected entries one by one from a copy's order gives the purged list |
| ForTeachers.PurgeStep | website/for_teachers.py:423-425 | one step of the loop removes the current entry exactly when it is rejected |
| ForTeachers.IsAdventureFromTeacher | website/for_teachers.py:456-461 | true exactly when some teacher adventure has that id |
| ForTeachers.EmptyLevels | website/for_teachers.py:428-430 | one empty set for every level 1..HEDY_MAX_LEVEL |
| ForTeachers.EmptyUpTo | website/for_teachers.py:428-430 | one empty set for every level 1..n |
| ForTeachers.AddAt | website/for_teachers.py:438-445 | adding to a level that does not exist raises KeyError; otherwise only that level's set grows by the adventure |
| ForTeachers.AddLevelDefaults | website/for_teachers.py:433-438 | adding one level's defaults keeps the levels, and raises KeyError for a missing name or level |
| ForTeachers.DefaultSets | website/for_teachers.py:428-438 | the default sets have every level 1..HEDY_MAX_LEVEL, or KeyError |
| ForTeachers.TeacherSets | website/for_teachers.py:428-445 | the teacher sets have every level 1..HEDY_MAX_LEVEL; a level that is no integer raises ValueError and one out of range KeyError |
| ForTeachers.TeacherSetsHold | website/for_teachers.py:440-445 | every teacher adventure of the database is in the set of its level |
| ForTeachers.Unused | website/for_teachers.py:447-451 | (teacher ∪ default adventures) minus those placed at the level |
| ForTeachers.Insert | website/for_teachers.py:452 | insertion into a list sorted by upper-cased long name keeps it sorted and adds exactly that element |
| ForTeachers.InsertFront | website/for_teachers.py:452 | an element no greater than the head goes in front |
| ForTeachers.InsertBehind | website/for_teachers.py:452 | an element no less than the head goes behind it |
| ForTeachers.InsertAfterHead | website/for_teachers.py:452 | an element greater than the head goes in behind it, keeping the list sorted and adding exactly that element |
| ForTeachers.SortedList | website/for_teachers.py:451-452 | `list(set)` sorted by upper-cased long name holds each element once |
| ForTeachers.GetUnusedAdventures | website/for_teachers.py:427-454 | succeeds exactly when every default name is known, every teacher level parses to a known level and every level is indexed; errors are KeyError or ValueError; each level 1..HEDY_MAX_LEVEL gets (teacher ∪ default) minus placed, each once, sorted by upper-cased long name |
| ForTeachers.UnusedList | website/for_teachers.py:448-452 | one level's list holds each unused adventure of that level once, sorted by upper-cased long name |
| ForTeachers.UnusedLevels | website/for_teachers.py:447-454 | succeeds exactly when every level 1..HEDY_MAX_LEVEL is indexed in the placed adventures, and raises KeyError otherwise; on success it has exactly those levels, each with its unused list |
| ForTeachers.DefaultSetsLoop | website/for_teachers.py:432-438 | the nested loops compute `DefaultSets` |
| ForTeachers.LevelDefaultsLoop | website/for_teachers.py:435-438 | the inner loop over one level's short names computes `AddLevelDefaults` |
| ForTeachers.DefaultsFail | website/for_teachers.py:433-438 | a name that fails fails the whole level |
| ForTeachers.DefaultSetsFail | website/for_teachers.py:432-438 | a level that fails fails the whole computation with KeyError |
| ForTeachers.DefaultSetsPrefixFail | website/for_teachers.py:432-438 | an error in a prefix of the order is the error of the whole |
| ForTeachers.CheckThreshold | website/for_teachers.py:606-613 | a `quiz` threshold is accepted exactly when it parses as an integer in 0..100, and is then stored as that number; any other threshold is stored as sent |
| ForTeachers.CheckThresholds | website/for_teachers.py:603-613 | all thresholds are accepted exactly when each is, keyed by exactly the names sent, with any quiz threshold a number in 0..100; otherwise the quiz threshold message |
| ForTeachers.CheckThresholdsValues | website/for_teachers.py:603-613 | each name holds the checked value of its last entry, as `level_thresholds[name] = value` leaves it |
| ForTeachers.CheckOpeningDates | website/for_teachers.py:593-601 | every level kept has a non-empty timestamp; every level with a convertible non-empty timestamp is kept with its converted date; the check fails, with the opening-date message, exactly when some non-empty timestamp does not convert |
| ForTeachers.DateStepChecked | website/for_teachers.py:594-601 | one more opening date keeps those three facts: only non-empty dates kept, each convertible one stored as its converted date, failure exactly for an unconvertible one |
| ForTeachers.DateStep | website/for_teachers.py:594-601 | once the check failed it stays failed; an empty timestamp removes its level; another fails with the opening-date message exactly when it does not convert and is otherwise stored converted; other levels are untouched |
| ForTeachers.ValidateCustomizations | website/for_teachers.py:593-613 | the opening dates are checked before the thresholds, and the first failure is the answer |
| HedySourcemap.RangeEq | hedy_sourcemap.py:39-46 | two ranges are equal exactly when their four fields are equal component-wise |
| HedySourcemap.ShowField | hedy_sourcemap.py:33-34 | a non-negative field prints without `-` or `/` |
| HedySourcemap.ParseShowField | hedy_sourcemap.py:33-34 | a printed field (a number or `None`) reads back as itself |
| HedySourcemap.JoinTwo | hedy_sourcemap.py:33-34 | joining two parts with a one-character separator puts it between them |
| HedySourcemap.SplitTwo | hedy_sourcemap.py:33-34 | two parts free of the separator split back apart |
| HedySourcemap.ParseShowRange | hedy_sourcemap.py:33-34 | `str` renders `fl/fc-tl/tc`, which reads back as the range when no field is negative |
| HedySourcemap.SplitFour | hedy_sourcemap.py:33-34 | splitting the printed range at `-` and then at `/` gives back its four fields |
| HedySourcemap.ParseFour | hedy_sourcemap.py:33-34 | four fields that read back as a range's fields, printed with the separators, read back as that range |
| HedySourcemap.ShowRangeInjective | hedy_sourcemap.py:33-34 | ranges without negative fields print differently when they differ |
| HedySourcemap.ShowRange | hedy_sourcemap.py:33-34 | a range without negative fields prints as two halves around one `-`, each two fields around one `/` |
| HedySourcemap.ParseRange | hedy_sourcemap.py:33-34 | only a text holding the `-` that `__str__` puts between the two ends reads back as a range |
| HedySourcemap.CodeEq | hedy_sourcemap.py:68-75 | two source codes are equal exactly when their ranges are |
| HedySourcemap.CodeEqIgnoresContent | hedy_sourcemap.py:62-75 | equality and hash ignore `code` and `error` |
| HedySourcemap.HashAgreesWithEq | hedy_sourcemap.py:62-75 | equal source codes have equal hashes |
| HedySourcemap.HashKey | hedy_sourcemap.py:62-66 | the hashed tuple is the source range, field by field, and nothing else |
| HedySourcemap.LineCol | hedy_sourcemap.py:136-137 | for a non-negative offset, line and column both start at 1 |
| HedySourcemap.LineColPosition | hedy_sourcemap.py:136-137 | `line_col(s, idx)` is (1 + newlines before idx, idx − position of the last newline before idx): the column counts from the start of the line, which follows a newline or is the start of the text |
| HedySourcemap.StartAfterFound | hedy_sourcemap.py:146-148 | when every copy is there, the k-th search finds an occurrence at least k snippet lengths further on |
| HedySourcemap.StartAsWritten | hedy_sourcemap.py:143-148 | as written: with no earlier copies the start is the first `find`, which is −1 for a missing snippet |
| HedySourcemap.FirstStart | hedy_sourcemap.py:143-148 | the first search clamped at 0, as the comment at line 148 intends |
| HedySourcemap.Start | hedy_sourcemap.py:143-148 | corrected: the start offset is always inside the text |
| HedySourcemap.StartInText | hedy_sourcemap.py:146-148 | the repeated searches stay inside the text |
| HedySourcemap.StartAgrees | hedy_sourcemap.py:143-148 | for a snippet that occurs, the corrected start is the one as written |
| HedySourcemap.MissingSnippetAsWritten | hedy_sourcemap.py:143-158 | as written, a snippet missing from `"a\nb"` gets the range `2/-2-1/2`: a negative column and a start after the end |
| HedySourcemap.RangeAtPositive | hedy_sourcemap.py:150-158 | with the corrected start every placed range has lines and columns from 1 |
| HedySourcemap.Mapped | hedy_sourcemap.py:161 | `python_code_mapped` never has more codes than the map has entries |
| HedySourcemap.CountOf | hedy_sourcemap.py:146 | a count is at most the list's length |
| HedySourcemap.Place | hedy_sourcemap.py:140-161 | as written: an entry with an error or empty Python code is left alone; any other gets the range from its start to start + len(code), the start being the k-th occurrence found by the unclamped first search, with k the number of copies already mapped; nothing else changes |
| HedySourcemap.Placed | hedy_sourcemap.py:140-161 | the loop keeps the number of entries |
| HedySourcemap.PlacedEntry | hedy_sourcemap.py:140-161 | each entry is placed with the copies mapped before it |
| HedySourcemap.PlacedPositive | hedy_sourcemap.py:140-161 | as written, every placed entry whose snippet occurs in the Python code gets lines and columns from 1 |
| HedySourcemap.PlaceClamped | hedy_sourcemap.py:143-158 | corrected: with the first search clamped at 0, an entry that is not skipped always gets a range with lines and columns from 1; nothing but its Python range changes |
| HedySourcemap.PlacedClamped | hedy_sourcemap.py:140-161 | the corrected loop keeps the number of entries |
| HedySourcemap.PlacedClampedEntry | hedy_sourcemap.py:140-161 | in the corrected loop each entry is placed with the copies mapped before it |
| HedySourcemap.PlacedClampedPositive | hedy_sourcemap.py:140-161 | corrected: every entry that is not skipped gets lines and columns from 1, whether its snippet occurs or not |
| HedySourcemap.PlacedAgree | hedy_sourcemap.py:140-161 | the as-written and the corrected placement give the same entry whenever it is skipped or its snippet occurs in the Python code |
| HedySourcemap.Added | hedy_sourcemap.py:177-178 | `map[hedy] = python` either keeps the number of entries (replacing the one with that range) or adds the pair at the end; every entry has the new range or was there before |
| HedySourcemap.AddedLookup | hedy_sourcemap.py:177-178 | after adding, the hedy range maps to the new Python code and every other range is unchanged |
| HedySourcemap.AddedDistinct | hedy_sourcemap.py:177-178 | adding keeps the ranges distinct |
| HedySourcemap.CompressedKeys | hedy_sourcemap.py:212-218 | the compressed mapping has a key for exactly the printed hedy ranges |
| HedySourcemap.CompressedLookup | hedy_sourcemap.py:212-218 | each printed hedy range maps to its printed Python range |
| HedySourcemap.SourceMap.constructor | hedy_sourcemap.py:102-113 | a new map is empty, at level 0, in `en`, not skipping, with empty code |
| HedySourcemap.SourceMap.AddSource | hedy_sourcemap.py:177-178 | the entries are `Added`, and nothing else changes |
| HedySourcemap.SourceMap.Clear | hedy_sourcemap.py:180-185 | empties the map and resets the level to 0, the language to `en` and both code texts to empty; `skip_faulty` is kept |
| HedySourcemap.SourceMap.SetPythonOutput | hedy_sourcemap.py:132-161 | stores the Python code and places every entry, and nothing else changes |
| HedySourcemap.SourceMap.GetResult | hedy_sourcemap.py:187-210 | entries are numbered 0..n−1 in insertion order, each with its two ranges and its error |
| HedySourcemap.SourceMap.GetCompressedMapping | hedy_sourcemap.py:212-218 | the compressed mapping of the entries |
| HedySourcemap.MapOfKeys | hedy_sourcemap.py:212-218 | a dict filled pair by pair has exactly the pairs' keys |
| HedySourcemap.MapOfLookup | hedy_sourcemap.py:212-218 | with distinct keys, each pair's key leads to its value |
| HedySourcemap.SourceMap.GetErrorFromHedySourceRange | hedy_sourcemap.py:220-223 | None when no entry has that range, otherwise the error of the first entry that does |
| HedySourcemap.FirstMatch | hedy_sourcemap.py:220-223 | the first entry with a range is the only first one, and with distinct ranges the only one |
| HedySourcemap.PlaceAll | hedy_sourcemap.py:140-161 | the loop over the entries computes `Placed` |
| HedySourcemap.PlacePython | hedy_sourcemap.py:143-158 | the search loop, started from the unclamped first `find`, gives the as-written placed range |
| HedySourcemap.PlaceAt | hedy_sourcemap.py:140-161 | one step of the loop places entry i and records its code when it is mapped |
| HedySourcemap.PlacedDistinct | hedy_sourcemap.py:140-161 | placing changes no hedy range, so they stay distinct |
| Highlighter.Repeat | tests/Highlighter.py:329 | `letter * n` is n copies of the letter |
| Highlighter.Blank | tests/Highlighter.py:341-347 | text outside braces is coloured blank, one character for one, keeping newlines |
| Highlighter.Step | tests/Highlighter.py:318-347 | only a `}` can fail: with no `{` before it (the unbound `tmp_code`) or with a colour name missing from `ABBREVIATION` |
| Highlighter.RunAppend | tests/Highlighter.py:318 | reading `a + b` is reading `a`, then `b` from the state `a` ended in, and an error in `a` stops the loop |
| Highlighter.RunBalanced | tests/Highlighter.py:318-347 | every character added to the code adds one to the colouring |
| Highlighter.Run | tests/Highlighter.py:318-347 | the loop fails only on markup holding a `}`, with UnboundLocalError or KeyError |
| Highlighter.ConvertSpec | tests/Highlighter.py:302-349 | `convert` fails only at a `}`, with UnboundLocalError or KeyError, so it succeeds on markup without one; the code and the colouring it returns have the same length |
| Highlighter.TextSegment | tests/Highlighter.py:341-347 | text without braces is copied to the code with a blank colouring |
| Highlighter.CodeSegment | tests/Highlighter.py:334-336 | inside `{…` characters other than braces and `|` are collected as code |
| Highlighter.KeywordSegment | tests/Highlighter.py:337-338 | after `|` characters other than braces are collected as the colour name |
| Highlighter.BraceSegment | tests/Highlighter.py:319-332 | `{x|name}` adds x to the code and `ABBREVIATION[name]` repeated len(x) times to the colouring, ending in the text state |
| Highlighter.BraceOpen | tests/Highlighter.py:319-332 | `{x|name` holds back `x` and `name` and adds nothing to code or colouring yet |
| Highlighter.CloseBeforeOpen | tests/Highlighter.py:318-329 | a `}` before any `{` fails with UnboundLocalError |
| Highlighter.Convert | tests/Highlighter.py:302-349 | the loop computes `ConvertSpec`, error included |
| Highlighter.RunFails | tests/Highlighter.py:318-349 | an error in a prefix of the markup is the error of the whole conversion |
| Highlighter.JoinWords | tests/Highlighter.py:368 | each line of words is joined with single spaces |
| Highlighter.Words | tests/Highlighter.py:357 | the code split into lines, each split into words at single spaces |
| Highlighter.JoinPrefix | tests/Highlighter.py:368 | joining the first k parts and a start of part k gives a start of the whole join |
| Highlighter.CurrentIsPrefix | tests/Highlighter.py:357-368 | each generated case is a start of the code |
| Highlighter.CurrentEnds | tests/Highlighter.py:363-368 | the case for word m of line l ends with the first m+1 words of line l; on the first line it is just those words, on a later one it starts with the first line and a newline |
| Highlighter.LineCases | tests/Highlighter.py:362-368 | the inner loop adds one case per word of the line |
| Highlighter.LineCasesAt | tests/Highlighter.py:362-368 | the k-th case of line l is the code lines before l joined with the first k+1 words of line l |
| Highlighter.ExpectedCases | tests/Highlighter.py:369 | one expected colouring per case |
| Highlighter.ExpectedCasesAt | tests/Highlighter.py:369 | the n-th expected colouring is `expected[:len(C[n])]` |
| Highlighter.CasesUpToCount | tests/Highlighter.py:359-371 | after the first l lines there is one case per word of those lines |
| Highlighter.CasesUpToInOrder | tests/Highlighter.py:359-371 | the case for word m of line l sits at index (words of the lines before l) + m and is the code up to and including that word |
| Highlighter.CasesUpToPrefixes | tests/Highlighter.py:355-371 | each case is a start of the code |
| Highlighter.LastCaseIsCode | tests/Highlighter.py:355-368 | the code has at least one line with at least one word, and the case for the last word of the last line is the whole code |
| Highlighter.LastCase | tests/Highlighter.py:350-374 | `genInterTest` gives at least one case, and its last case is the whole code |
| Highlighter.NextCase | tests/Highlighter.py:363-367 | one step of the inner loop appends the case for the next word |
| Highlighter.ExpectedNext | tests/Highlighter.py:367-368 | one step appends the colouring of the new case's length |
| Highlighter.GenCases | tests/Highlighter.py:357-374 | the two loops give the cases in order of lines and words, and the expected colouring of each |
| Highlighter.GenInterTest | tests/Highlighter.py:350-374 | the cases are the code up to each word, in order, with `expected` cut to the length of each case |
| Highlighter.Evens | tests/Highlighter.py:122 | the arguments at even positions, in order |
| Highlighter.Odds | tests/Highlighter.py:123 | the arguments at odd positions, in order |
| Highlighter.MultiLine | tests/Highlighter.py:117-123 | an odd number of arguments raises RuntimeError, and only then |
| Highlighter.MultiLinePairs | tests/Highlighter.py:117-123 | with lines free of newlines, the code splits back into the even arguments and the colouring into the odd ones |
| Highlighter.JoinSameLength | tests/Highlighter.py:122-123 | joining two lists of lines with equal lengths gives texts of equal length |
| Highlighter.MultiLineSameLength | tests/Highlighter.py:117-123 | when each code line is as long as its colouring, the joined code and colouring are too |
| Utils.Pieces | utils.py:114-123 | as written, the pieces list is empty exactly when every argument is `None` or empty |
| Utils.SlashJoin | utils.py:114-123 | the loop builds `Pieces` and joins it |
| Utils.PiecesSnoc | utils.py:117-123 | one more argument is skipped, starts the list, or adds a slash and itself with its leading slashes stripped |
| Utils.SlashJoinNothing | utils.py:117-118 | only skipped arguments give the empty text |
| Utils.SlashJoinOne | utils.py:117-123 | a single part among skipped arguments comes back unchanged |
| Utils.SlashJoinSingle | utils.py:114-123 | `slash_join(x) == x` |
| Utils.SlashJoinStartsWithFirst | utils.py:117-123 | the first piece is the first part not skipped, leading slashes kept |
| Utils.DoubleSlashAsWritten | utils.py:120-122 | `slash_join("a/", "/", "b") == "a//b"` although no part holds `//` |
| Utils.SlashJoined | utils.py:114-123 | corrected: empty exactly when every argument is skipped |
| Utils.SlashJoinedNoDoubleSlash | utils.py:114-123 | corrected: parts without `//` join into a text without `//` |
| Exceptions.NewHedyException | exceptions.py:23-26 | keeps the error code and the arguments, with no extra fields |
| Exceptions.ErrorLocation | exceptions.py:39-43 | `None` exactly when neither `location` nor `line_number` is given; `location` when it is given; otherwise `[line_number]` |
| Exceptions.LineNumberIsList | exceptions.py:41-42 | a location from `line_number` is a one-element list |
| Exceptions.LocationWins | exceptions.py:39-42 | adding a `line_number` does not change the location of an error that has `location` |
| Exceptions.NewWarningException | exceptions.py:56-59 | keeps the code and arguments and records the fixed code and result |
| Exceptions.NewInvalidSpaceException | exceptions.py:62-68 | code `Invalid Space`, arguments exactly `level` and `line_number` holding the values given, and the fixed code and result |
| Exceptions.InvalidSpaceLocation | exceptions.py:62-68 | an invalid space is located at `[line_number]` |
| Exceptions.NewParseException | exceptions.py:71-82 | code `Parse`, arguments exactly `level`, `location`, `found` and `character_found` with `character_found == found`, and the fixed code |
| Exceptions.ParseLocation | exceptions.py:71-82 | a parse error is located at its `location` |
| Text.ParseIntAccepts | website/for_teachers.py:608 | `int(s)` succeeds exactly when, without surrounding whitespace and a sign, the text is digits grouped by single underscores; a leading minus gives a non-positive number and no minus a non-negative one |
| Text.ParseIntSpaces | website/for_teachers.py:608 | `int(" 42\n") == 42`: surrounding whitespace is ignored |
| Text.ParseIntUnderscores | website/for_teachers.py:608 | `int("-1_0") == -10`: single underscores between digits are ignored |
| Text.ParseIntRejects | website/for_teachers.py:608 | `int("1__0")`, `int("- 1")` and `int("")` raise ValueError |
| Text.ParseIntOfString | website/dynamo.py:1165 | `int(str(i)) == i` for every integer |
| Text.Find | hedy_sourcemap.py:143 | `str.find(sub, start)` is -1 or a position from `start` on where `sub` occurs, and, for a start inside the text, -1 only when `sub` occurs nowhere from `start` on |
| Text.FindFrom | hedy_sourcemap.py:147 | the search from a position gives the first occurrence from there, or -1 when there is none |
| Text.RFind | hedy_sourcemap.py:137 | `rfind` gives the last position holding the character, or -1 |
| Text.SplitJoin | website/statistics.py:1053 | splitting parts joined by a separator they do not hold gives the parts back |
| Text.JoinSplit | website/statistics.py:1053 | joining the pieces of a split with the separator gives the text back |
| Text.ParseInt | website/for_teachers.py:608 | blank text raises ValueError; a negative result comes only from a leading minus, and a leading minus gives no positive result |
| Text.Split | website/statistics.py:1053 | `split` gives at least one part, and no part holds the separator |
| Text.Join | website/statistics.py:992 | joining no parts gives the empty text |
| Text.JoinEnds | tests/Highlighter.py:368 | the joined text starts with the first part, followed by the separator when there are more, and ends with the last part |
| Text.LeTotal | website/dynamo.py:78-79 | any two strings are ordered one way or the other |
| Text.LeAntisymmetric | website/dynamo.py:78-79 | two strings each `<=` the other are equal |
| Text.LeTransitive | website/dynamo.py:78-79 | string `<=` is transitive |

## Left out

- `AwsDynamoStorage` (website/dynamo.py:463-671) is left out: every method is a call into the AWS client library. The in-memory backend is the storage the model's `Table` uses.
- `encode_page_token` and `decode_page_token` use base64 over JSON. Page tokens are an opaque codec parameter, so the model depends on an encoder and a decoder that are inverse.
- `MemoryStorage` loading from and flushing to a file, and `CustomEncoder`, are file I/O and JSON and are not modelled.
- The lock decorator and threading are not modelled; the model is sequential.
- `ExponentialBackoff.sleep`: only the delay doubling is modelled. The random jitter and `time.sleep` are clock and randomness, and so is `TimeoutCancellation`.
- `querylog` timers and counters are logging side effects and are left out.
- Floating point is not modelled: `replace_decimals`, `_calc_error_rate`, the average of `_score_metrics` and `score_percent`.
- Only text, number, set and list values are stored. Python booleans, `None` values inside records and nested dicts are not modelled.
- DynamoQuery.SortChecked: sorting by a field whose values are lists or sets raises TypeError in the model; Python would sort them with `<` on lists and on sets. Values of two different kinds raise TypeError in both.
- DynamoQuery.QueryPaging: the chaining of pages is proved only when no two prepared records share a page key. `OffsetKeysOrdered` and `SortKeysOrdered` establish this for a one-field partition key; a partition key of several fields is not covered. With ties the model keeps the behaviour as written (see Findings).
- DynamoQuery.Query: its own contract states only the token facts; what a page holds is stated by `QueryRecordsMatch`, `QueryLimit`, `QuerySorted`, `QueryUnpaged`, `QueryUnlimitedComplete` and `QueryPaging`.
- Text.Join: its own contract states only the empty case; `JoinEnds`, `SplitJoin` and `JoinSplit` state the rest, kept apart so that other proofs about joined text stay cheap.
- HedySourcemap.ParseRange: its own contract states only that a `-` is present; `ParseShowRange` states the round trip.
- DynamoTable.DetermineLookup: the index partition-key rule (`one_key == index.partition_key`) is applied only to single-field keys. For keys with several fields the source's choice of `one_key` depends on Python's set iteration order.
- DynamoMemory.MemoryStorage.Update writes the updated record back to the table once, after the last update that succeeds, where the source changes the stored dict as each update runs. Nothing reads the table in between, so the resulting state is the same.
- DynamoTable.Table.DelMany re-queries with the last extracted key, as the source's shadowed variable does. With the in-memory backend this cannot be observed, and the model leaves it at that.
- DynamoTable.Table.DelMany: that no record satisfying the key is left is proved only when no two stored records share a table key. `create` keeps the keys unique (DynamoTable.PutKeepsUniqueKeys); this is not proved for `update`.
- The Flask route handlers in statistics, for_teachers and quiz are left out: request, session, database, templating and redirects. This includes the `submit_answer` database record, its redirects and `on_quiz_finished`; only its attempt rule is modelled.
- `hedy.HEDY_MAX_LEVEL` is the constant 18 (module `Hedy`), because hedy.py is not part of this model.
- The order of default adventures per level, the keyword adventures and `utils.datetotimeordate` are parameters.
- website/server_types.py (`SortedAdventure`) is not part of this model. Adventures are records with the fields the code reads.
- ForTeachers.CheckOpeningDates requires the opening-date names to be distinct, as the keys of the dict they come from are.
- HedySourcemap.SourceMap: `map` is a class attribute, so it is shared by every `SourceMap` in the source. The model gives each instance its own entries.
- The `SourceMap` setters (`set_level`, `set_language`, `set_skip_faulty`, `set_hedy_input`) are not modelled. Nor are `get_grammar_rules`, `source_map_rule`, the transformer, `print_source_map` and `SourceCode.__str__`, which read grammar files and Lark trees.
- `SimulatorAce` and the other tests of tests/Highlighter.py run regular expressions and are not modelled.
- Of the exception classes in exceptions.py only `HedyException`, `WarningException`, `InvalidSpaceException` and `ParseException` are modelled; the other classes are not. Some of them set attributes of their own: `UnquotedEqualityCheckException` (exceptions.py:84-88), `InvalidCommandException` (exceptions.py:160-177) and `IncompleteCommandException` (exceptions.py:218-227) set `location` to `[line_number]`, and `NoIndentationException` and `IndentationException` (exceptions.py:253-268) set `fixed_code`.
- Exception objects carried inside source-map entries are modelled by their text (`Option<string>`).
- Text is `seq<char>`, with ASCII-only case mapping and no surrogate pairs.
- Statistics: the dictionaries the helpers update in place are modelled as values returned from functions and loops.
- Statistics.NewIdCalc: the database write `self.db.update_class_errors(common_errors)` (website/statistics.py:774), made after the oldest errors are deactivated, is not modelled. It is a call into the database layer; the model returns the changed list, and writing it back is the caller's job.
- Statistics.NumbersOrEmpty: `data["scores"] += rec.get("scores") or []` (website/statistics.py:1026) extends the scores list with the characters of a non-empty text in Python; the model raises TypeError for any value that is not a list.
- Text.ParseInt: Python's `int()` also accepts decimal digits from other scripts (Arabic-Indic, full-width and others); the model accepts the ASCII digits only. It does strip the Unicode whitespace that `str.isspace()` accepts. This carries over to Statistics.Convert, ForTeachers.CheckThreshold, ForTeachers.TeacherSets, Quiz.ToInt and DynamoPaging.AnalyzeToken, which use it.
- Other files of the repository are not modelled: `extract_bcrypt_rounds` and `valid_email` in utils.py, hedy_content.py, website/yaml_file.py, hedyweb.py, website/querylog.py, website/aws_helpers.py, website/s3_logger.py, website/flask_helpers.py, website/website_module.py, website/parsons.py and the test fixtures. They are I/O, framework glue and thin wrappers over libraries.

## Findings

| source | as written | input that shows it | evidently intended | confidence | as-written member | corrected member |
|---|---|---|---|---|---|---|
| website/statistics.py:1038 | `_add_exception_data` looks up `entry.get("id")` on the aggregate entry, which never has an id, so failed runs are never counted for a user type | a record with id `@all-students` and one exception: the failed run is counted but not under `@all-students` | look up the id of the record being added | not executed; high | Statistics.AddProgramRunDataAsWritten, Statistics.AddRecord, Statistics.FailedRunsNotAttributed | Statistics.AddProgramRunData, Statistics.AddRecordCorrected, Statistics.CorrectedRecordCounts |
| hedy_sourcemap.py:143 | the first `find` is not clamped, so a snippet missing from the Python code starts at −1 | Python code `"a\nb"`, snippet `"zz"`: range `2/-2-1/2` | a failed search starts at 0, as line 148 does inside the loop | not executed; medium | HedySourcemap.StartAsWritten, HedySourcemap.Place, HedySourcemap.MissingSnippetAsWritten | HedySourcemap.Start, HedySourcemap.PlacedClamped, HedySourcemap.PlacedClampedPositive |
| utils.py:120-122 | the slash test looks at the last piece, which is empty after a part made only of slashes | `slash_join("a/", "/", "b") == "a//b"` | test whether the text joined so far ends in `/` | not executed; low | Utils.Pieces, Utils.DoubleSlashAsWritten | Utils.SlashJoined, Utils.SlashJoinedNoDoubleSlash |
| website/dynamo.py:758-759 | the `pop(0)` loop drops every record whose page key is at or before the token, so a record whose sort value ties with the last record of the previous page is dropped too | records of user `u` with `ts` 1, 1 and 2, sort key `ts`, limit 1: the first page is the first record with token `{user: u, ts: 1}`, the next query from that token returns only the third record | following the tokens reads every record once, as DynamoDB does for a table, whose keys are unique; the corrected-member cell names the intended property, proved for unique page keys, and no corrected cursor is defined | not executed; medium | DynamoQuery.QueryPagingTie, DynamoQuery.TieFirstPage, DynamoQuery.TieSecondPage | DynamoQuery.QueryPaging, DynamoQuery.OffsetKeysOrdered, DynamoQuery.SortKeysOrdered |
