# Verified model of the workflow-verifier analysis core

This project models the parts of the workflow verifier on which every verdict rests, together with
the smaller algorithms that guard its release process and its network edge, and proves what they
promise. Each file models one component; the modules share only orders, sequences, byte strings,
decimals and result types.

* `Condition.dfy`: path conditions as reduced ordered binary decision diagrams. Diagrams are
  canonical, so structural equality decides equivalence; satisfiability, implication, three-valued
  evaluation and the list of atoms are exact; the Boolean laws hold as equalities of diagrams.
* `AbstractValue.dfy`, `JoinSound.dfy`, `JoinStable.dfy`, `JoinOrder.dfy`, `JoinMeaning.dfy`, `RunOrder.dfy`,
  `JoinAssign.dfy`, `Text.dfy`, `Utf8Order.dfy`: the join of abstract values. It is sound against concrete values, its
  in-place form computes the same value and a flag that is exact for all inputs, and it is known when it is a least
  upper bound, when one pass is enough and when order matters.
* `ShardPartition.dfy`, `ShardMeaning.dfy`, `ShardErrors.dfy`: the prefix-trie check of mutation shards, which error it
  reports, and the split of the catalog.
* `CivilDate.dfy`, `CivilText.dfy`: day counts to Gregorian dates, and their use in the expiry check of suppressions.
* `WordRename.dfy`, `WordTable.dfy`: whole-word search, rename and its inverse on UTF-8 bytes.
* `Cancellation.dfy`, `CancellationHistory.dfy`: request cancellation between the reader and the server thread, and
  the bounded history of finished requests.
* `Newc.dfy`, `NewcLayout.dfy`, `NewcReading.dfy`: the newc archive writer and reader, the layout of the bytes, and
  what the reader answers on any bytes.
* `GraphErrors.dfy`: unknown dependencies and cycles of the library graph, and which cycle is reported first.
* `Bytes.dfy`, `Chunked.dfy`: the decoder of chunked HTTP bodies against a grammar of bytes.
* `Redirect.dfy`, `RedirectRuns.dfy`: redirect runs with their trust, credential and header policy, and exactly when a
  run succeeds or fails, and how.
* `SemanticDiff.dfy`: JSON tree differences as JSON pointers.

Code that returns new values is a function; code that works in place is a method or a class whose
contract is equality with such a function, and the promises are lemmas about the function.

Where the code does not keep what its text or its tests suggest, with the exact condition under which it does:

* `common_prefix` compares UTF-8 bytes and cuts at a character boundary. When two texts start with
  different letters that share their first byte, the result is a present but empty prefix. A join then
  leaves the normal form, and joining the same value again still changes it (`JoinStable.ClashExample`).
  For every run over a set of normal values one pass is enough exactly when no two of these values clash
  in this way (`JoinStable.OnePassInputs`). Nothing in `src/` builds an affix except from another affix,
  so a clash needs a caller of the public `join` that supplies one, as `tests/domain_contract.rs` does.
* `word_spans` jumps past rejected matches. For a given search word it finds all whole-word occurrences in
  every text exactly when the word never overlaps itself behind a byte that is not a word byte
  (`WordRename.ScanCompleteExactly`). Identifiers never do, so renames miss nothing; the search for
  references also takes words with `.`, `/` and `@` (`word_at`, src/application/lsp.rs:1338-1355), of
  which `a.b` is always found and `a.a` is not (`WordRename.DottedWords`).
* `valid_date` reads each number with `parse::<u32>`, which takes a leading plus sign, so it accepts
  `2030-+1-15` (`CivilDate.PlusAccepted`). The textual expiry check decides by date on every day exactly
  for texts without such a sign (`CivilDate.ExpiryExact`).

Places where the code keeps what it promises, but the answer is not the obvious one:

* A cycle report prints the closed walk and then its first name once more; the printed names are themselves
  a closed walk exactly when the node depends on itself (`GraphErrors.PrintedIsClosedExactly`).
* The source promises no associativity of the join. On normal values without such clashes it associates
  exactly unless, somewhere inside, two different single constants are joined beside an affix and all three
  share their first letter (with a prefix) or their last letter (with a suffix)
  (`JoinOrder.JoinAssociatesExactly`). The value of a run over a set of such values depends only on the set of
  joined values exactly when no three values of the set meet like that (`RunOrder.OrderFreeExactly`).
* A difference at a root that is not a container would be written as `/`, the pointer to the member with
  the empty key. `compare_documents` only passes objects, so this arm is dead at the root;
  `SemanticDiff.PointersDecodeExactly` says for all roots when every emitted pointer decodes to a difference.

## Model

| member | source | states |
|---|---|---|
| `Conditions.Distinguish` | src/domain/condition.rs:12-45 | two different ordered and reduced diagrams are told apart by some assignment |
| `Conditions.Canonicity` | src/domain/condition.rs:12-45 | for canonical diagrams structural equality holds exactly when the values agree under every assignment |
| `Conditions.NotCorrect` | src/domain/condition.rs:52-62 | negation is pointwise and keeps diagrams ordered, reduced and below the same variables |
| `Conditions.ApplyPointwise` | src/domain/condition.rs:64-105 | `apply` computes the pointwise conjunction or disjunction of any two diagrams, its equality shortcut included |
| `Conditions.ApplyCanonical` | src/domain/condition.rs:64-115 | `and` and `or` of canonical diagrams are canonical and pointwise |
| `Conditions.OneDiagramPerMeaning` | src/domain/condition.rs:12-14 | formulas built by the public operations in any order have equal diagrams exactly when they are equivalent |
| `Conditions.SatisfiableExact` | src/domain/condition.rs:117-120 | `satisfiable` holds exactly when some assignment satisfies the condition |
| `Conditions.ImpliesExact` | src/domain/condition.rs:122-125 | `implies` holds exactly when every assignment that satisfies the premise satisfies the conclusion |
| `Conditions.ApplyCommutes` | src/domain/condition.rs:107-115 | `and` and `or` commute as equalities of diagrams |
| `Conditions.ApplyAssociates` | src/domain/condition.rs:107-115 | `and` and `or` associate as equalities of diagrams |
| `Conditions.ApplyDistributes` | src/domain/condition.rs:107-115 | each operation distributes over the other as an equality of diagrams |
| `Conditions.DeMorgan` | src/domain/condition.rs:51-115 | negation exchanges the two operations |
| `Conditions.DoubleNegation` | src/domain/condition.rs:51-62 | negating twice gives back the same diagram |
| `Conditions.Complement` | src/domain/condition.rs:212-220 | a condition and its negation give the constant diagrams |
| `Conditions.EvaluateExact` | src/domain/condition.rs:127-145 | on ordered diagrams the answer is True (False) exactly when all completions of the lookup are true (false), Unknown exactly when two disagree |
| `Conditions.EvaluateMonotone` | src/domain/condition.rs:127-145 | defining more names never changes a known answer |
| `Conditions.EssentialExact` | src/domain/condition.rs:147-164 | flipping a variable matters under some assignment exactly when the canonical diagram mentions it |
| `Conditions.AtomsExact` | src/domain/condition.rs:147-164 | `atoms` is strictly sorted and lists exactly the variables on which the condition depends |
| `Text.CommonPrefixExact` | src/domain/abstract_value.rs:325-339 | the byte-level prefix is the common run of scalars, and the empty text exactly when different first scalars share their first byte |
| `Text.CommonSuffixExact` | src/domain/abstract_value.rs:341-357 | the suffix is the longest nonempty text that ends both, and absent exactly when there is none |
| `Text.FindCommonSuffix` | src/domain/abstract_value.rs:341-357 | the loop over both reversed texts finds that suffix |
| `Utf8Order.StringLessExactly` | src/domain/abstract_value.rs:359-372 | texts are ordered by their UTF-8 bytes, which is the order of their scalars |
| `Utf8Order.SameFirstByte` | src/domain/abstract_value.rs:325-339 | two scalars share their first byte exactly when they are equal or lie in one block of 64, 4096 or 262144 scalars of the same encoded length |
| `JoinSound.Sound` | src/domain/abstract_value.rs:160-199 | for all operands every concrete value of either one is a concrete value of the join |
| `JoinSound.AssignedSound` | src/domain/abstract_value.rs:466-560 | the value join keeps intervals, truths, strings, lists and objects of both sides, where a missing key means bottom |
| `JoinSound.StringsSound` | src/domain/abstract_value.rs:359-422 | the string join keeps the texts of constants, affixes, patterns and top |
| `JoinSound.LabelsAreLeastUpperBounds` | src/domain/abstract_value.rs:562-602 | trust and secrecy of a join are the least upper bounds of the labels of operands that are not bottom |
| `JoinStable.JoinShape` | src/domain/abstract_value.rs:166-199 | join keeps default bottoms, sorted reasons and provenance, and sorted constants of at most eight, everywhere inside the value |
| `JoinStable.NormalExactly` | src/domain/abstract_value.rs:325-422 | the join of normal values is normal exactly when no prefix join clashes on a first byte |
| `JoinStable.AbsorbsRight` | src/domain/abstract_value.rs:166-199 | after a join the accumulator accounts for the joined value |
| `JoinStable.AbsorbsLater` | src/domain/abstract_value.rs:166-199 | what the accumulator accounts for stays accounted for after any later join |
| `JoinStable.UnchangedExactly` | src/domain/abstract_value.rs:166-199 | on normal values a join changes nothing exactly when the right value is already absorbed |
| `JoinStable.OnePassInputs` | src/domain/abstract_value.rs:166-199 | for a set of normal values, after joining any finite sequence of them a second pass changes nothing, exactly when no two of them clash on a first byte |
| `JoinStable.SecondPass` | src/domain/abstract_value.rs:166-199 | a settled accumulator survives joining any selection of the values in any order |
| `JoinStable.OnePassExactly` | src/domain/abstract_value.rs:166-199 | a single run is settled exactly when its accumulated value is normal |
| `JoinStable.ClashJoin` | src/domain/abstract_value.rs:325-422 | the join of two values clashes with a third only if one of them does or they clash with each other |
| `JoinStable.RepeatExactly` | src/domain/abstract_value.rs:325-422 | repeating one join of normal values changes nothing exactly when it has no first-byte clash |
| `JoinStable.ClashExample` | src/domain/abstract_value.rs:325-339 | a concrete join that leaves the normal form and is changed by its repetition |
| `JoinOrder.JoinAssociatesExactly` | src/domain/abstract_value.rs:160-199 | without first-byte clashes, joining three normal values associates exactly when nowhere inside two different constants meet beside an affix with which both share an end |
| `JoinOrder.StringAssociatesExactly` | src/domain/abstract_value.rs:359-422 | the same for string values, the limit of eight constants included |
| `JoinOrder.JoinCommutes` | src/domain/abstract_value.rs:160-199 | the join commutes on values whose bottoms are the default value |
| `JoinMeaning.LeastExactly` | src/domain/abstract_value.rs:160-199 | without a first-byte clash the join accounts for both operands, and any normal value that does so accounts for the join, exactly unless it has an affix above two different constants |
| `JoinMeaning.ConstantsExactly` | src/domain/abstract_value.rs:359-377 | two lists of constants join to their sorted union if it has at most eight elements, and to any string otherwise |
| `JoinMeaning.ReasonsExactly` | src/domain/abstract_value.rs:522-560 | a join is unknown exactly for an unknown operand or different kinds, with the reasons of both operands and one more unless both are unknown |
| `JoinMeaning.ReasonsOrdered` | src/domain/unknown.rs:5-15 | reasons are ordered by their kind, in the order of the declaration, then by their text |
| `JoinMeaning.ProvenanceOrdered` | src/domain/abstract_value.rs:82-87 | provenance is ordered by origin, then by the numbers of the span from left to right, then by operation |
| `RunOrder.OrderFreeExactly` | src/domain/abstract_value.rs:160-199 | without first-byte clashes, the value of every run over a set depends only on the set of joined values, exactly when no three values of the set fail to associate |
| `RunOrder.ConflictJoin` | src/domain/abstract_value.rs:359-422 | the join of two values fails to associate with two others in some order only if one of the two already does |
| `JoinStable.JoinedProvenance` | src/domain/abstract_value.rs:321-323 | joined provenance is strictly sorted and has exactly the entries of both sides |
| `JoinAssign.MergeIsUnion` | src/domain/abstract_value.rs:283-319 | merging the two sorted forms gives the sorted set union |
| `JoinAssign.MergeSorted` | src/domain/abstract_value.rs:294-315 | the two-index loop computes the merge |
| `JoinAssign.JoinSortedUniqueAssign` | src/domain/abstract_value.rs:283-319 | for all inputs, sorted or not, the result is the sorted union and the flag tells whether the left vector differs from its entry state |
| `JoinAssign.JoinStringsAssign` | src/domain/abstract_value.rs:424-464 | the in-place string join equals the pure one and its flag is exact |
| `JoinAssign.JoinTrustAssign` | src/domain/abstract_value.rs:562-581 | the in-place trust join computes the joined label and its flag is exact |
| `JoinAssign.JoinSecrecyAssign` | src/domain/abstract_value.rs:583-602 | the in-place secrecy join computes the joined label and its flag is exact |
| `JoinAssign.JoinItemsAssign` | src/domain/abstract_value.rs:525-530 | the fold over two lists joins them element by element and its flag is exact |
| `JoinAssign.JoinFieldsAssign` | src/domain/abstract_value.rs:531-542 | the loop over the right object joins common keys, copies new ones, and its flag is exact |
| `JoinAssign.JoinValueAssign` | src/domain/abstract_value.rs:522-560 | the in-place value join computes the joined value and its flag is exact |
| `JoinAssign.AbstractCell.JoinAssign` | src/domain/abstract_value.rs:166-199 | the new state is the join of the old state and the argument, and the result is true exactly when the state changed |
| `JoinAssign.AssignedIsJoinValueExactly` | src/domain/abstract_value.rs:466-560 | the in-place and the pure value join agree exactly when every bottom field that only the left object has is the default value |
| `ShardPartition.ValidateShardPartition` | scripts/verify_mutation_campaign.py:137-181 | the loop over the sorted entries and the gap search give the verdict of the check, with its error |
| `ShardPartition.InsertPathMeaning` | scripts/verify_mutation_campaign.py:141-165 | an insertion succeeds exactly when no owner lies on the way, and then adds exactly one owned path |
| `ShardPartition.SortedOverlap` | scripts/verify_mutation_campaign.py:140 | in sorted order an overlap always shows as a later entry that extends an earlier one |
| `ShardPartition.NoGapCovers` | scripts/verify_mutation_campaign.py:167-177 | without a reported gap every long enough id passes an owned node |
| `ShardPartition.GapUncovered` | scripts/verify_mutation_campaign.py:167-177 | a reported gap is a hexadecimal path of at most 64 digits that no listed prefix covers |
| `ShardPartition.CheckExact` | scripts/verify_mutation_campaign.py:137-181 | the partition is accepted exactly when every 64-digit id extends exactly one listed prefix |
| `ShardPartition.ErrorExplained` | scripts/verify_mutation_campaign.py:137-181 | an overlap names the first entry in sorted order that extends an earlier one, and that one; a gap is the prefix of no covered id, and every id that sorts before it is covered exactly once |
| `ShardErrors.ErrorExactly` | scripts/verify_mutation_campaign.py:137-181 | for shards as the loader admits them, the reported error is exactly: the smallest listing, by prefix and then name, that extends a smaller one, with the shard of that one; or, without any overlap, the free path at which the first uncovered id leaves the listed prefixes |
| `ShardMeaning.CheckOnShards` | scripts/verify_mutation_campaign.py:137-181 | a partition is accepted exactly when every full id extends one listed prefix at one place of one shard and no other |
| `ShardMeaning.ErrorOnShards` | scripts/verify_mutation_campaign.py:137-181 | an overlap names a shard that lists the prefix, and before it a shard that lists a prefix of it; no shard selects an id that starts with a gap |
| `ShardMeaning.AssignmentExactly` | scripts/verify_mutation_campaign.py:118-122 | for any shards, an id is assigned to the only shard that lists a prefix of it, and otherwise the error counts these shards |
| `ShardMeaning.FullIdExactly` | scripts/verify_mutation_campaign.py:444-448 | a full id is sixty-four lowercase hexadecimal digits |
| `ShardPartition.AssignmentTotal` | scripts/verify_mutation_campaign.py:118-122 | for an accepted partition the assignment of an id never fails and no other shard selects it |
| `ShardPartition.AdmitRow` | scripts/verify_mutation_campaign.py:444-459 | a row is admitted exactly when its id is valid, new, configured and assigned, and both dictionaries then grow consistently; otherwise the error is that of the first failing check |
| `ShardPartition.LoadCatalog` | scripts/verify_mutation_campaign.py:439-466 | the catalog loads exactly when its rows are acceptable, distinct and within the shard limit, and it is split as the shards say; otherwise the error is that of the first failing row, or else of the first part, by name, that is too large |
| `ShardPartition.CatalogSplit` | scripts/verify_mutation_campaign.py:442-459 | every loaded id lies in exactly one part, that of the shard that selects it |
| `CivilDate.DateFromDays` | src/application/mod.rs:1288-1305 | the truncating arithmetic computes the date of the floored conversion, for negative days too |
| `CivilDate.YearOfEraExact` | src/application/mod.rs:1293-1297 | the year of an era is the one whose first and last day enclose the day |
| `CivilDate.Gregorian` | src/application/mod.rs:1288-1305 | day 0 is 1970-01-01 and for every integer the next day is the calendar successor under the 4/100/400 rule |
| `CivilDate.ToDaysInverse` | src/application/mod.rs:1288-1305 | every valid date of the calendar is the date of some day |
| `CivilDate.FromDaysInverse` | src/application/mod.rs:1288-1305 | different days have different dates, and the day can be recovered |
| `CivilDate.DateOrder` | src/application/mod.rs:1288-1305 | dates are ordered as their days |
| `CivilDate.NoOverflow` | src/application/mod.rs:1291-1303 | only the first addition can leave the 64-bit range: the era and its first day, the year and its number, the month and the day all fit |
| `CivilText.PaddedExactly` | src/application/mod.rs:1304 | a number of a date is written as the decimal digits of its absolute value behind the minus sign of a negative one, filled with zeros up to the width and without others |
| `CivilText.RenderedExamples` | src/application/mod.rs:1288-1305 | day 0 is written `1970-01-01`, and 15 March of the year -44 is `-044-03-15` |
| `CivilDate.ReadRendered` | src/product/config.rs:1006-1029 | the rendered text of any valid date, in any year, is read back as that date from 1970 to 9999 and is no date otherwise |
| `CivilDate.ExpiryExact` | src/product/config.rs:939-947 | on every integer day the text comparison reports expiry exactly on the days after the date up to the year 9999, if and only if the expiry text has no plus sign |
| `CivilDate.PlusAccepted` | src/product/config.rs:1013-1015 | an accepted expiry text with a plus sign, which already counts as expired on its own date |
| `WordRename.WordSpans` | src/application/lsp.rs:1477-1502 | the loop returns the spans of the jumping scan, and none for the empty word |
| `WordRename.ScanCompleteExactly` | src/application/lsp.rs:1477-1502 | for every search word, the jumping scan finds all whole-word occurrences in every text exactly when the word never overlaps itself behind a byte that is not a word byte |
| `WordRename.ScanExact` | src/application/lsp.rs:1366-1372 | for an identifier the scan finds exactly all whole-word occurrences |
| `WordRename.DottedWords` | src/application/lsp.rs:1338-1355 | of the search words with a dot, `a.b` is always found completely and `a.a` is not |
| `WordRename.OccurrencesMeaning` | src/application/lsp.rs:1486-1498 | the occurrences are listed in ascending order and completely |
| `WordRename.OccurrencesDisjoint` | src/application/lsp.rs:1486-1500 | two occurrences of a word neither overlap nor touch |
| `WordRename.Rename` | src/application/lsp.rs:775-778 | replacing the spans from the last to the first replaces every whole-word occurrence |
| `WordRename.RenameBack` | src/application/lsp.rs:1437-1445 | renaming back after a rename acts as renaming the new name in the original text |
| `WordRename.RoundTripExactly` | src/application/lsp.rs:1437-1445 | renaming there and back restores the text exactly when the names are equal or the new one was not a whole word of it |
| `WordTable.WordByteExactly` | src/application/lsp.rs:1486-1490 | the bytes of words are those of a table of sixty-four characters |
| `WordTable.RenameInsideWord` | src/application/lsp.rs:1477-1502 | a text of such characters is left alone unless it is the renamed word itself |
| `WordTable.RenameAroundSeparator` | src/application/lsp.rs:1477-1502 | every other byte separates words: both neighbours are renamed |
| `WordTable.IdentifierExactly` | src/application/lsp.rs:1366-1372 | an identifier has one to 128 such characters |
| `Cancellation.RequestCancellations.StartRequest` | src/application/lsp.rs:45-60 | the new state of `start`, and a fresh token that only this request has |
| `Cancellation.RequestCancellations.CancelRequest` | src/application/lsp.rs:62-73 | the new state of `cancel`: the running token, or the pending set unless the id is in the history |
| `Cancellation.RequestCancellations.FinishRequest` | src/application/lsp.rs:75-91 | the new state of `finish` with the expiry of the oldest ids |
| `CancellationHistory.FinishHistory` | src/application/lsp.rs:75-91 | a finished id that is not in the history goes to its end, and the oldest id leaves when there were 4096 |
| `CancellationHistory.RetainedExactly` | src/application/lsp.rs:45-91 | an id is in the history exactly when it entered it, was not started since, and at no time since then there were 4096 ids that had entered later and not been started again |
| `Cancellation.InvariantAlways` | src/application/lsp.rs:33-92 | in every interleaving the history is duplicate-free, lists exactly the completed ids, holds at most 4096, and is disjoint from running and pending requests |
| `Cancellation.ActiveExactly` | src/application/lsp.rs:45-91 | an id is running exactly when it was started and not finished since |
| `Cancellation.PendingExactly` | src/application/lsp.rs:62-82 | an id is pending exactly when a cancellation since its last finish found it neither running nor in the history |
| `Cancellation.StartCancelledExactly` | src/application/lsp.rs:45-60 | `start` returns a cancelled token exactly in that case |
| `Cancellation.TokenCancelledExactly` | src/application/lsp.rs:62-73 | a running token is cancelled exactly by such a cancellation or by one that came while it was running |
| `Cancellation.RequestCancelledExactly` | src/application/lsp.rs:319-343 | a request answers cancelled exactly when it was pending at its start or cancelled before the last look, and its finish forgets both |
| `Newc.WriteNewc` | scripts/build_vm_bundle.py:111-136 | the writer's output is the archive of the entries and the trailer |
| `Newc.ReadNewc` | scripts/build_vm_bundle.py:139-160 | the reader's loop computes the reading function, errors included |
| `Newc.HexFieldRoundTrip` | scripts/build_vm_bundle.py:130 | a value below 2^32 has eight digits, which read back as the value |
| `Newc.ReadRecord` | scripts/build_vm_bundle.py:143-159 | at an aligned offset the reader takes exactly one written record with its name and contents |
| `Newc.ReadWritten` | scripts/build_vm_bundle.py:139-160 | reading any archive whose fields fit gives the entries before a trailer name, later ones replacing earlier ones |
| `Newc.RoundTrip` | scripts/build_vm_bundle.py:111-160 | for distinct names other than the trailer's, every name and its contents come back and nothing else |
| `NewcLayout.ArchiveLayout` | scripts/build_vm_bundle.py:111-136 | every byte of a written archive: records start at multiples of four with `070701`, then thirteen fields of eight lowercase hexadecimal digits with inode, mode, links by file type, size and name size, zero elsewhere, then name, zero byte, contents and zero padding |
| `NewcReading.ReadExactly` | scripts/build_vm_bundle.py:139-160 | on any bytes the reader's answer, contents or error, is the one that a chain of records from the start explains |
| `GraphErrors.Search.Visit` | scripts/verify_architecture.py:190-202 | a visit keeps the search valid, restores the visiting set, and finishes its node or reports the edge by which it was reached |
| `GraphErrors.SliceIsClosed` | scripts/verify_architecture.py:191-194 | the slice of the trail at a repeated name is a closed walk of real edges that meets no other node twice, printed with its first name once more |
| `GraphErrors.PrintedIsClosedExactly` | scripts/verify_architecture.py:193 | the printed names are themselves a closed walk exactly when the first node depends on itself |
| `GraphErrors.ClosedWalkTakes` | scripts/verify_architecture.py:190-202 | if every node comes after its dependencies but for some excused edges, every closed walk takes one of these |
| `GraphErrors.TopologicalIsAcyclic` | scripts/verify_architecture.py:198-202 | a graph with a topological order of its nodes has no cycle |
| `GraphErrors.UnknownDependencies` | scripts/verify_architecture.py:182-185 | the loops list the reports of the nodes in order, one for each unresolved entry of their dependencies |
| `GraphErrors.UnknownReportsExact` | scripts/verify_architecture.py:182-185 | exactly the dependencies that are neither nodes nor external are reported as unknown |
| `GraphErrors.GraphErrorsOf` | scripts/verify_architecture.py:180-206 | unknown dependencies are reported first, by ascending node; a cycle is reported exactly when there is one, every report is a closed walk, and every closed walk of the graph takes the closing edge of a report, so that without these edges the finishing order is topological; there is exactly one report for each listed dependency that does not finish before the node that lists it; the first cycle is the one met from the smallest node that reaches a cycle, by taking at each node the first dependency that reaches one |
| `Chunked.DecodeChunked` | src/application/network.rs:196-236 | the loop computes the decoding function, with its errors and their order |
| `Chunked.DecodeComplete` | src/application/network.rs:196-236 | every body of the byte grammar decodes to its data, or exceeds the limit |
| `Chunked.AcceptsExactly` | src/application/network.rs:196-236 | an output is returned exactly when it fits the limit and is the joined data of nonzero frames of the byte grammar, ended by a zero chunk and nothing else |
| `Chunked.UniqueParse` | src/application/network.rs:196-236 | a body has only one division into frames |
| `Chunked.SizeLineExactly` | src/application/network.rs:204-212 | a size line is at most sixteen bytes: an optional plus sign and hexadecimal digits of either case, which are read as their positional value |
| `Chunked.RefusesExactly` | src/application/network.rs:196-236 | an error is returned exactly when, after whole frames whose data fit, that check is the first to fail |
| `Redirect.GetWithHeaders` | src/application/network.rs:806-861 | the loop computes the run, its result and its transport calls, and the run is safe |
| `Redirect.Follow` | src/application/network.rs:953-975 | an accepted redirect keeps the calls trusted and different and drops credential and headers at a change of origin |
| `Redirect.RunSafe` | src/application/network.rs:806-861 | every run makes at most eleven calls, all trusted and pairwise different, and sends credential and headers exactly while all origins equal the first; once dropped they never return |
| `RedirectRuns.RunExactly` | src/application/network.rs:806-861 | result and calls of a run are exactly those that a chain of URLs explains: each URL follows from the reply before it and is new and trusted, and the chain ends at its first failing check or at a final reply |
| `RedirectRuns.SucceedsExactly` | src/application/network.rs:928-985 | a run returns a response exactly when the headers are valid and such a chain of at most eleven URLs ends in that response with a status from 200 to 299 |
| `SemanticDiff.CollectDifferences` | src/conformance/semantic.rs:148-176 | appends the pointers to exactly the reported places, by ascending keys and indices |
| `SemanticDiff.CollectFields` | src/conformance/semantic.rs:150-159 | the loop over the keys of both objects appends exactly the reports of the two objects, in order |
| `SemanticDiff.CollectItems` | src/conformance/semantic.rs:160-168 | the loop over the indices of both arrays, which are written unescaped, appends exactly the reports of the two arrays, in order |
| `SemanticDiff.DecimalSegment` | src/conformance/semantic.rs:161-162 | a plain index is its own escaped segment, so keys and indices are read back alike |
| `SemanticDiff.OrderedDistinct` | src/conformance/semantic.rs:148-176 | pointers listed in the order of their places are pairwise different |
| `SemanticDiff.UnescapeSegment` | src/conformance/semantic.rs:178-180 | unescaping by section 4 of RFC 6901 gives back the key |
| `SemanticDiff.ParseRender` | src/conformance/semantic.rs:153-162 | an emitted pointer is read back as its reference tokens |
| `SemanticDiff.NothingReportedExactly` | src/conformance/semantic.rs:148-176 | nothing is reported exactly when the trees are equal |
| `SemanticDiff.ReportedDiffers` | src/conformance/semantic.rs:148-176 | at every reported place the trees differ |
| `SemanticDiff.DifferenceCovered` | src/conformance/semantic.rs:148-176 | every difference lies at or below a reported place |
| `SemanticDiff.ReportedExactly` | src/conformance/semantic.rs:148-176 | the reported places are exactly the topmost ones at which the trees differ by themselves: one tree lacks the place, or the values differ and are not two containers of one kind |
| `SemanticDiff.ReportedAntichain` | src/conformance/semantic.rs:148-176 | no reported place lies below another |
| `SemanticDiff.EmittedPointerDecodes` | src/conformance/semantic.rs:148-180 | for two containers of one kind an emitted pointer decodes to its reported place, where the trees differ |
| `SemanticDiff.PointersDecodeExactly` | src/conformance/semantic.rs:169-173 | for any two roots, every emitted pointer decodes to a difference exactly when they are containers of one kind, equal, or different at the empty key |
| `SemanticDiff.Compare` | src/conformance/semantic.rs:83-93 | the list of differences is empty exactly when the trees are equal; it names the reported places once each and in order, and for objects each entry decodes to a difference |

## Left out

- AbstractCell: children of a value are joined through a fresh cell and written back, since Rust's owned trees have no sharing.
- ShardPartition: the nested dictionaries of the trie are values that are rebuilt along the path, so no node is shared or updated in place.
- DateFromDays: works on unbounded integers; `CivilDate.NoOverflow` says for which 64-bit inputs the code computes the same.
- ReadNewc: fields that Python's `int` accepts with a sign, spaces, underscores or a `0x` prefix are errors here; UTF-8 decoding of names is a parameter.
- DecodeChunked: the two messages for a size line that is not text and for one that is malformed are one error.
- GraphErrorsOf: of the cycle reports after the first one, the last edges are stated exactly, not which walk to them is printed.
- LoadCatalog: the checks of the document header, and those field checks of a row that AdmitRow leaves out, are not part of this model.
- AdmitRow: of the row validation only the 64-digit id is modelled, since its other field checks are independent of the partition.
- GetWithHeaders: URL parsing, joining, canonical forms, origins and the trusted-host profile are parameters; resolution and transport answer arbitrarily.
- RequestCancellations: the mutex makes each operation atomic, so an interleaving is a sequence of operations; the JSON text of an id is the id.
- Patterns of string values are opaque to the join; matching a pattern is a parameter of the concrete meaning.
- The rename walk over JSON values applies the text rename to every string; only the text rename is modelled, as are neither the YAML check of the result nor the choice of documents.
- JSON rendering, display forms, source remapping and the digests of compared documents have no property beyond their definition.
- Files, processes, sockets, TLS, DNS, git, credential stores, JSON and TOML parsing, and report schemas are not part of this model.
