# DaVinci Resolve storage audit — a verified model

`resolve_space_audit.py` scans a media drive and files every file it finds
under one of five Resolve cache categories (proxy, optimized media, render
cache, stills, backups) or under "other". It totals bytes per category and
per extension and keeps a list of the largest files. On request, and only
after the operator answers `y`/`yes`, it deletes the files of a category or
of an extension, optionally only those older than a number of days.

This project models the core of that script in Dafny and proves what it
promises:

- `Text`: ASCII lower-casing, `str.strip` (with Python's `isspace` set of
  characters) and Python's lexicographic string order.
- `Paths`: a path as its segments; `PurePath.suffix` and the lower-cased
  extension key; the normalisation `delete_by_ext` applies to its argument.
- `Classifier`: the ordered pattern table and `classify_category`, with a
  first-match specification in both directions.
- `Ranking`: the `(size, path)` rows of the largest-files list, their
  descending sort, and the top-N cut. The amortised
  "append, sort and cut once past `3 * top_n`" strategy is proved to give the
  same list as one final sort and cut.
- `Entries`: a scanned file as `(path, size, mtime)`; total size.
- `Aggregator`: the single pass of `collect_stats`, an imperative loop over
  the scan that updates the accumulators. It is proved equal to a reference
  snapshot defined on the whole scan. The snapshot's invariants are proved:
  - the totals agree;
  - every file is in exactly one category bucket;
  - the extension table is ordered by bytes;
  - the largest-files list is the true top N.
- `Deletion`: the answer test of `confirm`, `delete_category` and
  `delete_by_ext`. Both run as methods over a `FileSystem` object that stands
  for `os.remove`: a removal fails for a path that is missing or in the
  object's `locked` set. Each is proved equal to a reference function. Lemmas
  about those functions cover:
  - a refusal is harmless;
  - when each flow prompts;
  - age safety;
  - the counts and bytes reported;
  - no file outside the candidate list is removed.

The clock, the operator's answer and the directory walk are inputs:
- `now` is an integer timestamp;
- the answer is the line as typed;
- the scan is the sequence of entries the walk yields.

Behaviour of the code that a reader might not expect, modelled as written:
- `delete_category` asks for confirmation even when its age filter leaves
  nothing to delete. It has no emptiness test of its own; only `main` skips
  a category whose bucket is empty.
- `delete_by_ext` checks for an empty candidate list before the age filter.
  It applies the filter only inside the removal loop, after the answer. It
  can therefore prompt when every candidate is too recent.
- `delete_category` treats `min_age_days == 0` as a real filter (`is not
  None`). `delete_by_ext` tests truthiness, so 0 days means no filter.
- `delete_by_ext` also tests the truthiness of the cutoff itself. When
  `now - days * 86400` is exactly 0, no file is skipped, whatever its age
  (`ExtZeroCutoffRemovesAnyAge`).
- The answer is stripped of surrounding whitespace before the `y`/`yes` test.

## Model

| member | source | states |
|---|---|---|
| Text.Lower | resolve_space_audit.py:82 | lower-casing keeps the length and maps each character to its lower-case form |
| Text.LowerIsLower | resolve_space_audit.py:82 | a lower-cased string has no upper-case letter, and lower-casing it again changes nothing |
| Text.StripSpec | resolve_space_audit.py:153 | `strip()` keeps one contiguous piece of the answer; everything cut before and after it is whitespace; the piece has no whitespace at either end |
| Text.StripOfPadded | resolve_space_audit.py:153 | when a piece with non-whitespace ends has only whitespace around it, `strip()` returns exactly that piece |
| Text.StrLeqTotal | resolve_space_audit.py:113 | Python's string order compares any two strings |
| Text.StrLeqAntisymmetric | resolve_space_audit.py:113 | two strings each at most the other are equal |
| Text.StrLeqTransitive | resolve_space_audit.py:113 | Python's string order is transitive |
| Paths.LastDot | resolve_space_audit.py:100 | the index of the last `.` of the name, or -1; no dot follows it |
| Paths.NameSuffixSpec | resolve_space_audit.py:100 | `suffix` is empty, or a tail of the name of at least two characters starting with its only dot; it is non-empty exactly when the name has a dot, neither first nor last, with no dot after it |
| Paths.DotfileHasNoSuffix | resolve_space_audit.py:100 | a name like `.bashrc`, whose only dot is its first character, has no suffix |
| Paths.TrailingDotHasNoSuffix | resolve_space_audit.py:100 | a name ending in a dot has no suffix |
| Paths.ExtOfShape | resolve_space_audit.py:100 | an extension key is `""`, or a lower-case `.` followed by at least one character and no further dot |
| Paths.NormaliseExt | resolve_space_audit.py:183-185 | the argument is lower-cased and given a leading `.` when it has none; the result always starts with `.` and is lower-case |
| Paths.NormaliseExtIdempotent | resolve_space_audit.py:183-185 | normalising an already normalised extension changes nothing |
| Paths.UnmatchableExt | resolve_space_audit.py:183-189 | an argument that normalises to `.` alone, or to something with a second dot, matches no file |
| Ranking.GeqTotal | resolve_space_audit.py:113 | the reverse tuple order compares any two `(size, path)` rows |
| Ranking.GeqAntisymmetric | resolve_space_audit.py:113 | two rows each at least the other are the same row |
| Ranking.GeqTransitive | resolve_space_audit.py:113 | the row order is transitive |
| Ranking.Merge | resolve_space_audit.py:113 | merging two lists keeps exactly their rows |
| Ranking.MergeSorted | resolve_space_audit.py:113 | merging two descending lists gives a descending list |
| Ranking.SortDesc | resolve_space_audit.py:113 | `sort(reverse=True)` returns a permutation of the list in descending order |
| Ranking.SortedUnique | resolve_space_audit.py:113 | two descending permutations of the same rows are equal, so the sorted list does not depend on how it was sorted |
| Ranking.SortOfSorted | resolve_space_audit.py:113 | sorting a list that is already descending changes nothing |
| Ranking.SortAppend | resolve_space_audit.py:111-113 | sorting a list with rows appended is merging the two sorted parts |
| Ranking.SliceTo | resolve_space_audit.py:114 | `largest[:n]` is a prefix of the list, of `min(n, count)` rows for `n >= 0` and of `max(0, count + n)` rows for a negative `n` |
| Ranking.TakeMerge | resolve_space_audit.py:112-114 | the first `n` rows of a merge depend only on the first `m >= n` rows of its first list |
| Ranking.TopAppend | resolve_space_audit.py:110-114 | appending the same rows to two lists with the same top `n` keeps their top `n` equal |
| Ranking.TrimKeepsTop | resolve_space_audit.py:112-114 | cutting a list to its top `n` rows does not change its top `n` |
| Ranking.TopNSpec | resolve_space_audit.py:116-118 | the top `n` has `min(n, count)` rows, is empty for `n = 0`, is descending and is drawn from the list |
| Ranking.TopNDominates | resolve_space_audit.py:116-118 | every row the top `n` leaves out is at most every row it keeps |
| Classifier.AnyNeedleSpec | resolve_space_audit.py:84-86 | the inner loop fires exactly when some needle, lower-cased, equals a segment |
| Classifier.FirstMatchSpec | resolve_space_audit.py:83-87 | the outer loop returns the category of the first rule that fires, and `None` exactly when none fires |
| Classifier.ClassifySpec | resolve_space_audit.py:81-87 | `classify_category` returns `c` exactly when the rule for `c` fires and no earlier rule in the table does |
| Classifier.OtherSpec | resolve_space_audit.py:103-105 | a file is filed as `other` exactly when no needle of any category equals one of its lower-cased segments |
| Classifier.NoRuleForOther | resolve_space_audit.py:45-51 | `other` is not a row of the pattern table |
| Classifier.WholeSegmentWitness | resolve_space_audit.py:82-86 | a file filed under a real category has a whole segment equal, ignoring case, to one of that category's needles |
| Classifier.CategoryBySegmentSet | resolve_space_audit.py:82-86 | the category depends only on which lower-cased segments occur, not on their order or repetition |
| Classifier.EightCharSegmentsFireNoRule | resolve_space_audit.py:45-51 | no needle of the table has eight characters, so eight-character segments fire no rule |
| Classifier.SubstringDoesNotMatch | resolve_space_audit.py:85 | a needle that is only part of a segment does not match: `OldProxy/clip.mov` is `other` |
| Classifier.TableOrderDecides | resolve_space_audit.py:83-86 | when two categories match, table order decides and case is ignored: `RENDER CACHE/proxy/b.dvcc` is a proxy file |
| Entries.TotalSizeConcat | resolve_space_audit.py:99 | the total size of two scans together is the sum of their totals |
| Aggregator.BumpKeys | resolve_space_audit.py:101 | updating `by_ext[k]` keeps the keys and their insertion order, appending `k` when it is new |
| Aggregator.BumpSpec | resolve_space_audit.py:101 | after `by_ext[k] = by_ext.get(k, 0) + v`, keys stay distinct, `k` has grown by `v`, every other key is unchanged, and the values' sum has grown by `v` |
| Aggregator.ExtTableLookup | resolve_space_audit.py:99-101 | after the pass, `by_ext.get(k, 0)` is the bytes of the files whose extension key is `k`, and the keys are distinct |
| Aggregator.ExtTableKeys | resolve_space_audit.py:100-101 | the keys of `by_ext` are exactly the extension keys of the scanned files, `""` included |
| Aggregator.ExtTableSum | resolve_space_audit.py:99-101 | the values of `by_ext` sum to `total_bytes` |
| Aggregator.InsertByBytes | resolve_space_audit.py:121 | inserting an item keeps every item and adds its bytes to the sum |
| Aggregator.InsertByBytesSorted | resolve_space_audit.py:121 | inserting into a list ordered by bytes, largest first, keeps it ordered |
| Aggregator.SortByBytes | resolve_space_audit.py:121 | `by_ext_sorted` is a permutation of the items, ordered by bytes, largest first, with the same sum |
| Aggregator.BucketAppend | resolve_space_audit.py:108 | the next entry is appended to the end of its own category's list and to no other, so scan order is kept |
| Aggregator.BucketSpec | resolve_space_audit.py:103-108 | an entry is in the list of category `c` exactly when it was scanned and is classified as `c` |
| Aggregator.CategorySpec | resolve_space_audit.py:107-108 | after the pass, each category's list is the scan filtered to that category, and its byte count is that list's total size |
| Aggregator.BucketBytesSum | resolve_space_audit.py:107 | the six category lists' sizes add up to the scan's total size |
| Aggregator.CategoryBytesSum | resolve_space_audit.py:107 | the six `by_category_bytes` values add up to `total_bytes` |
| Aggregator.BucketCounts | resolve_space_audit.py:108 | the six category lists together hold as many entries as the scan, so each entry lands in exactly one |
| Aggregator.AuditSpec | resolve_space_audit.py:89-121 | the snapshot's invariants: category totals, extension totals and `total_bytes` agree; each category total is its list's size; `by_ext_sorted` is ordered; the largest-files list has `min(top_n, count)` rows, is descending, and no file it leaves out is larger than one it keeps |
| Aggregator.AddToExt | resolve_space_audit.py:100-101 | one step of the extension update turns the table for the entries so far into the table for them plus the next |
| Aggregator.AddToCategory | resolve_space_audit.py:103-108 | one step of the category update turns both category dictionaries for the entries so far into those for them plus the next |
| Aggregator.PushLargest | resolve_space_audit.py:110-114 | the append-then-trim step keeps the list's top `top_n` equal to the top `top_n` of every row seen, and the list within `3 * top_n` rows |
| Aggregator.AddEntry | resolve_space_audit.py:98-114 | one iteration of the loop keeps every accumulator equal to its reference value over the entries seen |
| Aggregator.AccumulatedAudit | resolve_space_audit.py:116-121 | after the last entry, the final sort and cut and the extension sort turn the accumulators into the reference snapshot |
| Aggregator.CollectStats | resolve_space_audit.py:89-121 | the pass returns exactly the reference snapshot of the scan |
| Deletion.AffirmativeSpec | resolve_space_audit.py:152-154 | an answer confirms exactly when it is `y` or `yes` in any case, with only whitespace around it |
| Deletion.AffirmativeUnpadded | resolve_space_audit.py:153-154 | an answer with no whitespace at its ends confirms exactly when it lower-cases to `y` or `yes` |
| Deletion.AnyCaseYesConfirms | resolve_space_audit.py:153-154 | `y`/`yes` with each letter in either case confirms |
| Deletion.WrongLengthDeclines | resolve_space_audit.py:153-154 | an unpadded answer whose length is neither 1 nor 3 declines: an empty line, `ye`, `y es` |
| Deletion.OtherInitialDeclines | resolve_space_audit.py:153-154 | an unpadded answer not starting with `y` or `Y` declines: `n`, `no` |
| Deletion.OlderSpec | resolve_space_audit.py:159 | the age filter keeps exactly the entries with `mtime < cutoff` |
| Deletion.OlderAppend | resolve_space_audit.py:159 | the age filter keeps list order |
| Deletion.OlderBytes | resolve_space_audit.py:159 | the age filter's result weighs at most its input |
| Deletion.CategoryPlanBounds | resolve_space_audit.py:157-161 | the list `delete_category` works through has at most as many files and bytes as its bucket |
| Deletion.CategoryNoLimit | resolve_space_audit.py:160-161 | with no age limit, `delete_category` plans its whole list |
| Deletion.ExtCandidatesSpec | resolve_space_audit.py:187-190 | the candidates are exactly the scanned entries whose extension key equals the normalised argument |
| Deletion.ExtPlanSpec | resolve_space_audit.py:207-211 | the loop's skip test is the strict age filter when the cutoff is truthy, and no filter otherwise |
| Deletion.ExtPlanAppend | resolve_space_audit.py:209-211 | the loop visits candidates in order and skips one exactly when the cutoff is truthy and the file is not older than it |
| Deletion.RemoveAllAppend | resolve_space_audit.py:171-177 | one removal attempt: success counts the file and its bytes and removes it, failure records it and goes on |
| Deletion.RemoveAllAccounts | resolve_space_audit.py:169-177 | removed plus failed files make up the plan, in count and in bytes |
| Deletion.RemoveAllFiles | resolve_space_audit.py:171-177 | the files left are the files before minus the planned paths that are not locked |
| Deletion.RemovedWasPlanned | resolve_space_audit.py:171-177 | a file that disappears was in the plan and was not locked |
| Deletion.RemoveAllSucceeds | resolve_space_audit.py:171-175 | when every planned path exists, is distinct and is not locked, everything is deleted and freed, with no failures |
| Deletion.FileSystem.Remove | resolve_space_audit.py:173 | `os.remove` succeeds exactly for an existing, unlocked path, and then only that path is gone |
| Deletion.TryRemove | resolve_space_audit.py:172-177 | one `try`/`except` step updates the counts, the failures and the files as one removal attempt does |
| Deletion.DeleteCategory | resolve_space_audit.py:156-180 | the method's counts, failures and remaining files are those of the reference `delete_category` for the answer given |
| Deletion.ExtPlanNext | resolve_space_audit.py:209-211 | the files the loop acts on after one more candidate are those before it plus that candidate, unless the skip test drops it |
| Deletion.VisitCandidate | resolve_space_audit.py:209-217 | one iteration: a skipped file changes nothing; any other file gets one removal attempt, which extends the reference removal by that file |
| Deletion.RemoveOlder | resolve_space_audit.py:204-218 | the removal loop of `delete_by_ext`, with its skip test, does what the reference removal does on the planned candidates |
| Deletion.DeleteByExt | resolve_space_audit.py:182-220 | the method's prompt, counts, failures and remaining files are those of the reference `delete_by_ext` for the answer given |
| Deletion.RefusalIsHarmless | resolve_space_audit.py:165-167 | after a refusal both flows remove nothing and return `(0, 0)` |
| Deletion.CategoryAlwaysAsks | resolve_space_audit.py:163-167 | `delete_category` always prompts, even when its age filter leaves nothing |
| Deletion.ExtAsksIffCandidates | resolve_space_audit.py:187-200 | `delete_by_ext` prompts exactly when some scanned file has the normalised extension |
| Deletion.ExtNoCandidates | resolve_space_audit.py:197-198 | with no candidates, `delete_by_ext` returns `(0, 0)` without prompting or removing anything |
| Deletion.CategoryAgeSafety | resolve_space_audit.py:157-159 | with an age limit of `d` days, `delete_category` removes only listed files modified before `now - d * 86400` |
| Deletion.ExtAgeSafety | resolve_space_audit.py:207-211 | with a truthy limit and a non-zero cutoff, `delete_by_ext` removes only matching files modified before the cutoff |
| Deletion.ExtZeroDaysIsNoLimit | resolve_space_audit.py:207 | a limit of 0 days, or none, means `delete_by_ext` plans every candidate |
| Deletion.ExtZeroCutoffRemovesAnyAge | resolve_space_audit.py:207-210 | when `now - d * 86400` is exactly 0, a matching file is removed whatever its modification time |
| Deletion.CategoryAccounts | resolve_space_audit.py:169-180 | `deleted` and `freed` are at most the plan's count and bytes, and so at most the bucket's; once confirmed, removed plus failed make up the plan exactly |
| Deletion.ExtAccounts | resolve_space_audit.py:204-220 | `deleted` and `freed` are at most the plan's count and bytes, and at most the candidates' count and total size |
| Deletion.CategoryRemovesOnlyListed | resolve_space_audit.py:171-173 | `delete_category` removes only files its list names |
| Deletion.ExtRemovesOnlyCandidates | resolve_space_audit.py:187-213 | whatever the age limit, `delete_by_ext` removes only scanned files with the normalised extension |
| Deletion.CategoryDeletionStaysInCategory | resolve_space_audit.py:156-180 | deleting the list the pass kept for category `c` removes only scanned files the classifier files under `c` |

## Left out

- `walk_files` (resolve_space_audit.py:68-79): the directory walk, `stat`,
  and the skipping of files that cannot be read are file-system I/O. The scan
  is an input sequence of entries in walk order. For `delete_by_ext`, which
  walks the tree again, it is the same kind of input.
- `human` (resolve_space_audit.py:59-66): floating-point formatting for
  display. The snapshot leaves out the `*_human` fields, `root` and
  `generated_at`.
- `write_report` (resolve_space_audit.py:134-150) and `main`
  (resolve_space_audit.py:222-278): argument parsing, report files, printing
  and exit codes. `main` skips `delete_category` for an empty bucket
  (resolve_space_audit.py:266-268); that guard is outside this model.
- Deletion.Affirmative: the answer is always a line of text. When standard
  input is closed, `input()` (resolve_space_audit.py:153) raises `EOFError`,
  which nothing catches, so the script stops there and the later steps of
  `main` do not run. The model has no such outcome: a run with no answer is
  not modelled, and an empty line declines with `(0, 0)`.
- `datetime.now()`, `input()` and `os.remove` are parameters: `now`, the
  answer line, and the `FileSystem` object. Every failure of `os.remove` is
  modelled as a path missing from, or locked in, that object. The messages
  the flows print are left out.
- Text.Lower: lower-cases ASCII letters only, not the full Unicode mapping
  of `str.lower`.
- Sizes and times are whole numbers: the float `st_mtime` becomes an integer number of seconds, so the strict
  `mtime < cutoff` comparisons are on integers.
- `str(p)` is the segments joined by `/`. It serves only as
  the tie-breaking key of the largest-files order and as the stored path. An
  absolute path whose first segment is `/` gets a doubled slash, which
  changes no comparison between paths of the same scan. On Windows `str(p)`
  joins segments with `\` (0x5C), which sorts above digits and upper-case
  letters, where `/` (0x2F) sorts below them; two files of equal size can
  therefore come out of the largest-files order in a different order there.
  Files are removed by segment path, not by string.
- Aggregator.SortByBytes: the contract states a permutation ordered by
  bytes, not the stability of Python's `sorted`. The definition does keep
  equal totals in dictionary order.
