# Skip list benchmark: a Dafny model

This project models the two halves of a small C++ skip-list repository.

**The skip list.** This is the sequential behaviour of `SkipList` (`include/skiplist.hpp`) and of
`SkipListAtomicSingleWriter` (`include/skiplist_atomic_sw.hpp`). Both run the same algorithm:
`findInLevel`, the recursive `upsertRec` with its coin-flip promotion, `chainNode`, the
constructor, `upsert` and `find`.

- A list is a sequence of sorted levels. `levels[0]` is the level of `heads[0]`, the top one.
- A level's sentinel head is position -1.
- A `down` pointer is the node with the same key one level below, which is the only node
  `upsertRec` ever links a node to.
- The `rand() & 1` of each promotion is read from a coin oracle.

`upsertRec` is proved equal to a declarative upsert. An existing key takes the new value on every
level. A new key is inserted, in sorted position, on the bottom `1 + leading heads` levels. From
that, the model proves:

- an upsert keeps every level sorted and every tower contiguous down to the bottom;
- an upsert keeps every node's value equal to its key's value on the bottom level;
- an upsert maps the key to the new value and leaves every other key alone;
- `find` answers the bottom level's map;
- after any run of upserts, `find` returns the value of the last upsert of that key.

The atomic single-writer list differs only in how it stores its pointers and values, so one model
covers both. Line for line, in `include/skiplist_atomic_sw.hpp`:

- `findInLevel` is at 29-38;
- `upsertRec` is at 40-75;
- `chainNode` is at 77-82;
- the constructor is at 85-98;
- `upsert` is at 123-126;
- `find` is at 128-142.

The table below cites the lines of `include/skiplist.hpp`.

**The benchmark driver.** This is `scripts/benchmark.py`:

- `parse_output`, with its three regular expressions and the section slices;
- `find_load_test_executable`;
- `run_benchmark`, with the command line it builds;
- the sweep in `main` over the reader counts and the two variants;
- the rows, the hard-coded header, and how `csv.DictWriter` lays a row out under that header.

The regular expressions are modelled twice. A match relation lists every way a pattern can match.
Python's backtracking order picks one of them: the leftmost start, then the longest choice for each
greedy repetition in turn. Hand-written scanners are proved to return exactly the match `re.search`
reports, or nothing when the relation is empty. Searching the slice `s[k:]` is proved to agree with
searching `s` from `k` on.

Running a process, checking whether a file exists and the repository root are parameters of the
model. A run is a function from the argument vector to an exit code and standard output.

## Model

| member | source | states |
|---|---|---|
| Text.Find | scripts/benchmark.py:28 | `str.find`: the lowest index where the needle occurs, or -1 when it occurs nowhere |
| Text.SliceFrom | scripts/benchmark.py:28 | Python's `s[k:]`: the suffix from `k`; past the end it is empty; a negative `k` keeps the last `-k` characters, clamped to the whole text |
| Text.NatToString | scripts/benchmark.py:74-79 | `str(n)` is a non-empty digit string, with a leading zero only for 0, whose decimal value is `n` |
| Text.NatToStringInjective | scripts/benchmark.py:74-79 | two numbers print the same only if they are equal |
| Text.DigitsValue | scripts/benchmark.py:74-79 | the decimal value of a digit string, the inverse of `str(n)` (NatToString); it is 0 exactly when every digit is `0` |
| Pattern.DecimalAt | scripts/benchmark.py:20 | the greedy reading of `\d+\.\d+` at a position is a lexeme: digits, one dot, digits |
| Pattern.DecimalAtIsGreedy | scripts/benchmark.py:20 | every lexeme at a position is found, and none is longer than the one returned |
| Pattern.IntegerNeverMatches | scripts/benchmark.py:20 | a digit run without a following dot never matches `\d+\.\d+` |
| Pattern.DecimalGroup | scripts/benchmark.py:19-21 | the text of the group, taken out of the line, is a whole lexeme, so `float()` accepts it |
| Pattern.LabelledAt | scripts/benchmark.py:20 | `marker\s+(\d+\.\d+)` tried at one start returns a match starting there |
| Pattern.LabelledAtIsFirst | scripts/benchmark.py:20 | at one start, the longest `\s+` and then the longest number are chosen, and any match there is found |
| Pattern.SearchLabelled | scripts/benchmark.py:19-24 | `re.search` of `marker\s+(\d+\.\d+)`: the first match in backtracking order, or none exactly when no match exists |
| Pattern.SearchLabelledOnSuffix | scripts/benchmark.py:28-34 | searching the slice `s[off:]` finds, shifted by `off`, the first match of `s` from `off` on, and fails only when there is none |
| Pattern.SearchLabelledSuffixAgrees | scripts/benchmark.py:28-34 | searching the slice and searching the whole text from `off` return the same match |
| Pattern.LabelledShift | scripts/benchmark.py:28-34 | the labelled pattern matches in `s[off:]` exactly where it matches in `s`, shifted by `off` |
| Pattern.LastP99 | scripts/benchmark.py:38-40 | the second `.*` tried longest-first: a `p99:` figure between the bounds, and no later label or longer number exists |
| Pattern.LastP50 | scripts/benchmark.py:38-40 | the first `.*` tried longest-first returns a p50 figure that still has a p99 figure after it on the line |
| Pattern.P99AfterGreedyNumber | scripts/benchmark.py:38-40 | a `p99: ` label cannot start inside the greedily read p50 number |
| Pattern.LastP50IsFirst | scripts/benchmark.py:38-40 | the line scan returns the first of the line's matches in backtracking order |
| Pattern.WriterAt | scripts/benchmark.py:38-40 | the writer pattern tried at one start returns only a match that starts there; WriterAtIsFirst proves it is the preferred one |
| Pattern.WriterMatchOnLine | scripts/benchmark.py:38-40 | since `.` never matches a line feed, a writer match lies on the line that starts with `Writer 0:` |
| Pattern.WriterAtIsFirst | scripts/benchmark.py:38-40 | the writer pattern tried at one start returns a match, and it is the preferred match at that start whenever one exists |
| Pattern.SearchWriter | scripts/benchmark.py:38-40 | the scan behind `re.search` returns a match starting at or after `from`; SearchWriterIsFirst proves it is the first match, or none when there is none |
| Pattern.SearchWriterSound | scripts/benchmark.py:38-40 | what the writer search returns is a match of `Writer 0:.*p50: (\d+\.\d+).*p99: (\d+\.\d+)` |
| Pattern.SearchWriterComplete | scripts/benchmark.py:38-40 | every match from `from` on is found, and none comes before the one returned |
| Pattern.SearchWriterFinds | scripts/benchmark.py:38-40 | the search reaches any given match unless it stops earlier at one that comes first |
| Pattern.SearchWriterIsFirst | scripts/benchmark.py:38-40 | the writer search returns `re.search`'s first match, and fails exactly when there is no match |
| Pattern.WriterShift | scripts/benchmark.py:37-40 | the writer pattern matches in `s[off:]` exactly where it matches in `s`, shifted by `off` |
| Pattern.FoundInSuffix | scripts/benchmark.py:37-40 | the match found in the slice is, shifted, the first match of `s` from `off` on |
| Pattern.SearchWriterOnSuffixFails | scripts/benchmark.py:37-40 | the search of the slice fails only when `s` has no match from `off` on |
| Pattern.SearchWriterSuffixAgrees | scripts/benchmark.py:37-40 | searching the slice and searching the whole text from `off` return the same match |
| Pattern.FirstWriterOnLine | scripts/benchmark.py:38-40 | `re.search`'s writer match lies on one line: the p50 figure comes before the p99 figure, the p99 label is the last on the line after the p50 figure, and the p50 label is the last one with a p99 figure after it |
| Pattern.FirstLabelledUnique | scripts/benchmark.py:19-24 | the first labelled match is unique |
| Pattern.FirstWriterUnique | scripts/benchmark.py:38-40 | the first writer match is unique |
| Report.SectionStart | scripts/benchmark.py:28 | `s[s.find(header):]` starts at the header, or at the last character when the header is missing |
| Report.SearchFigure | scripts/benchmark.py:19-21 | the figure search succeeds exactly when the pattern matches, and then returns the group of the first match; otherwise it fails naming the field |
| Report.SearchWriterFigures | scripts/benchmark.py:38-42 | the writer search succeeds exactly when the pattern matches, and then returns both groups of the first match |
| Report.ParseOutput | scripts/benchmark.py:17-51 | the parser succeeds exactly when all five searches match, with each figure the group of the first match in its part of the text; otherwise it names the first search that finds nothing |
| Report.Expected | scripts/benchmark.py:17-51 | every text has a report, defined by what it must be |
| Report.ReportsExist | scripts/benchmark.py:17-51 | for every output text some result satisfies the parser's specification |
| Report.ReportsUnique | scripts/benchmark.py:17-51 | the parser's result is determined by its input |
| Report.ReportsSuccess | scripts/benchmark.py:17-51 | a report is a success exactly when every search matches |
| Report.PicksUnique | scripts/benchmark.py:19-34 | a labelled search picks one figure |
| Report.WriterPicksUnique | scripts/benchmark.py:38-42 | the writer search picks one pair of figures |
| Report.PicksDecimal | scripts/benchmark.py:19-34 | every figure picked by a labelled search is a whole `\d+\.\d+` lexeme, so `float()` accepts it |
| Report.WriterPicksDecimal | scripts/benchmark.py:41-42 | both writer figures are whole lexemes, so `float()` accepts them |
| Report.MissingReadHeader | scripts/benchmark.py:28-34 | without the read-latency header `find` gives -1, the section is at most the last character, and both read percentiles are missing |
| Report.MissingWriterHeader | scripts/benchmark.py:37-40 | without the per-writer header the section is at most the last character, and the writer figures are missing |
| Sweep.LoadTestVariant | tests/load_tests/concurrent_load_test.cpp:301-326 | the load test runs the atomic list for type 1 and the mutex list for type 2, and stops for every other code |
| Sweep.Stoi | tests/load_tests/concurrent_load_test.cpp:301-303 | `std::stoi` of a digit string succeeds exactly when the string is non-empty and its value is at most 2147483647, and then returns that value |
| Sweep.StoiOfString | tests/load_tests/concurrent_load_test.cpp:301-303 | `std::stoi` reads back what `str(n)` prints exactly when `n` is at most 2147483647, and fails otherwise |
| Sweep.Argv | scripts/benchmark.py:74-79 | the command line has four entries: the executable, then three digit strings |
| Sweep.ArgvRoundTrip | tests/load_tests/concurrent_load_test.cpp:301-303 | reading the arguments back with `std::stoi` yields the requested variant and one writer, and the reader count exactly when it fits an `int`; a larger count makes `stoi` throw |
| Sweep.ArgvInjective | scripts/benchmark.py:74-79 | different runs have different command lines |
| Sweep.RunBenchmark | scripts/benchmark.py:71-86 | a non-zero exit fails with the command, the code and the output; otherwise the parser's report of the output is returned, a missing figure as an error |
| Sweep.ExpectedRunMeaning | scripts/benchmark.py:80-86 | a non-zero exit carries the command, the code and the output; an exit of 0 yields the parser's report, a missing figure becoming `Malformed` |
| Sweep.CsvRecord | scripts/benchmark.py:144-147 | `DictWriter` writes a record exactly when every key of the row is in the header, one cell per header field |
| Sweep.Cells | scripts/benchmark.py:113-122 | the cells one variant adds to its row are all figures; CellsColumns states their keys and contents |
| Sweep.RowOf | scripts/benchmark.py:107-122 | a row maps `num_readers` to the reader count and every other key to a figure; RowKeySet and RowAt state its columns |
| Sweep.CellsColumns | scripts/benchmark.py:113-122 | a variant's cells are keyed by its name plus each column suffix and hold its six figures in order, with no other keys |
| Sweep.HeaderColumns | scripts/benchmark.py:127-141 | the hard-coded header is `num_readers`, then the six mutex columns, then the six atomic columns |
| Sweep.KeysApart | scripts/benchmark.py:113-122 | the keys of one variant's cells start with the variant's first letter |
| Sweep.RowAt | scripts/benchmark.py:107-122 | each header column is a key of every row and holds the matching entry of the row's line |
| Sweep.RowKeys | scripts/benchmark.py:107-141 | every key of a row is a header column |
| Sweep.RowKeySet | scripts/benchmark.py:107-141 | the keys of every row are exactly the 13 header columns |
| Sweep.FieldNamesDistinct | scripts/benchmark.py:127-141 | the header names every column once |
| Sweep.RowFitsHeader | scripts/benchmark.py:106-147 | every row fits the header, and its record is the reader count, the mutex figures, then the atomic figures |
| Sweep.Rows | scripts/benchmark.py:106-124 | a completed sweep has one row per reader count; RowsContent and RowsFailure state what the rows hold and which error stops it |
| Sweep.RunSweep | scripts/benchmark.py:103-124 | the sweep loop yields the rows of the declarative sweep, or the first run's error |
| Sweep.RowsContent | scripts/benchmark.py:106-124 | in a completed sweep every run succeeded, and row `j` holds count `j` and the figures of its two runs |
| Sweep.RowsFailure | scripts/benchmark.py:106-124 | a sweep fails exactly when one of its runs fails, and then with the error of the first failing run in sweep order |
| Sweep.FirstExisting | scripts/benchmark.py:57-62 | the first candidate in build-directory order that exists is returned, and none exists when nothing is returned |
| Sweep.FindLoadTestExecutable | scripts/benchmark.py:54-68 | the executable under `build/`, else under `build-release/`; `FileNotFoundError` with the build hint exactly when neither exists |
| Sweep.RunDriver | scripts/benchmark.py:89-147 | without an executable the driver reports it and stops; otherwise it writes the fixed header and the sweep's rows, or stops at the first failed run |
| Level.FindInLevel | include/skiplist.hpp:22-31 | the walk stops at a node whose successor is missing or has a larger key, passing only keys at most `k` |
| Level.FindInLevelIsLastAtMost | include/skiplist.hpp:22-31 | on a sorted level, from the sentinel or a node at most `k`, the walk ends at the last position with key at most `k` |
| Level.LastAtMostUnique | include/skiplist.hpp:22-31 | the last position whose key is at most `k` is unique |
| Level.LastAtMostFinds | include/skiplist.hpp:42 | on a sorted level, `k` is present exactly when the last node at most `k` holds it |
| Level.ChainNode | include/skiplist.hpp:71-77 | the new node takes over the predecessor's `next` and follows it, and nothing else moves |
| Level.InsertSorted | include/skiplist.hpp:49-54 | reference insertion: adds exactly the new key and keeps a sorted level sorted |
| Level.ChainNodeIsInsertSorted | include/skiplist.hpp:71-77 | splicing a new key after the last node at most that key is sorted insertion |
| Level.UpdateVal | include/skiplist.hpp:44 | every node with key `k` gets value `v`, keys are unchanged, and nodes with other keys are untouched |
| Level.UpdateAtIsUpdateVal | include/skiplist.hpp:42-44 | on a sorted level, storing into the node found for `k` updates every node with key `k` |
| Level.ToMapAt | include/skiplist.hpp:127-131 | on a sorted level the map holds each node's value under its key |
| Level.ToMapInsert | include/skiplist.hpp:49-54 | inserting a new key adds exactly that key and its value to the level's map |
| Level.ToMapUpdate | include/skiplist.hpp:41-47 | updating a present key changes its value in the map and nothing else |
| SkipList.Create | include/skiplist.hpp:80-93 | the constructor gives `height` empty levels: valid and denoting the empty map |
| SkipList.KeyReachesDown | include/skiplist.hpp:56-68 | a key of some level is on every level below it |
| SkipList.Below | include/skiplist.hpp:45 | the `down` pointer of a node leads to the node with the same key one level below |
| SkipList.UpsertRec | include/skiplist.hpp:33-69 | `upsertRec` at level `i` leaves the levels above `i` untouched |
| SkipList.UpsertRecIsSpec | include/skiplist.hpp:33-69 | from any level, entered at a node at most `k`, `upsertRec` does the declarative upsert of the levels from there down, and reports an insertion exactly when the key was new and every promotion coin so far came up heads |
| SkipList.UpsertRecUpdateStep | include/skiplist.hpp:41-47 | the update case: the value is stored here and on every level below, and no insertion is reported |
| SkipList.UpsertRecLeafStep | include/skiplist.hpp:49-54 | the leaf case: the new node is spliced into the bottom level and an insertion is reported |
| SkipList.UpsertRecDescendStep | include/skiplist.hpp:56-68 | the descending case: recurse through the down pointer and promote on heads |
| SkipList.DescendToUpdate | include/skiplist.hpp:56-60 | descending towards a key present further down changes nothing on this level and reports no insertion |
| SkipList.DescendToInsert | include/skiplist.hpp:56-68 | a node inserted one level down is promoted here exactly when this level's coin comes up heads |
| SkipList.UpsertSpecValid | include/skiplist.hpp:33-69 | the declarative upsert keeps the list valid and maps `k` to `v` on the bottom level |
| SkipList.Upsert | include/skiplist.hpp:113-116 | `upsert` keeps the number of levels the constructor made; UpsertValid states what it does to the map |
| SkipList.UpdateRow | include/skiplist.hpp:41-47 | updating a present key keeps each level's keys and sorting, and changes only `k`'s value |
| SkipList.InsertRow | include/skiplist.hpp:49-68 | inserting an absent key keeps each level sorted, and adds `k` with `v` exactly on the promoted levels |
| SkipList.AbsentEverywhere | include/skiplist.hpp:56-68 | a key absent from the bottom level is on no level |
| SkipList.UpsertValid | include/skiplist.hpp:113-116 | on a valid list an upsert keeps the list valid, maps `k` to `v` and leaves every other key alone |
| SkipList.UpsertExisting | include/skiplist.hpp:41-47 | upserting a present key adds no node: every level keeps its keys and only `k`'s value changes |
| SkipList.PromotedLeading | include/skiplist.hpp:62-67 | the first `m` promotions succeed exactly when at least `m` heads lead the coin sequence |
| SkipList.UpsertNew | include/skiplist.hpp:49-68 | a new key is inserted on exactly the bottom `min(1 + leading heads, height)` levels, and no other node is added |
| SkipList.NewRow | include/skiplist.hpp:49-68 | inserting an absent key changes exactly the promoted levels |
| SkipList.Find | include/skiplist.hpp:118-132 | on a valid list `find` returns the bottom level's value for `k`, or nothing when `k` is absent |
| SkipList.FindAtTop | include/skiplist.hpp:120 | the walk on the top level ends at the last node at most `k` |
| SkipList.FindBelow | include/skiplist.hpp:121-126 | going down from the last node at most `k` and walking on ends at the last node at most `k` one level below |
| SkipList.FoundAbove | include/skiplist.hpp:123-124 | a node met on the way down holds its key's value in the list's map |
| SkipList.FindAtBottom | include/skiplist.hpp:127-131 | on the bottom level, the node reached holds `k` exactly when the list maps `k`, and then holds its value |
| SkipList.UpsertAllSnoc | include/skiplist.hpp:113-116 | one more upsert applies after the ones before it |
| SkipList.UpsertAllContents | tests/unit_tests/skiplist_test.cpp:29-56 | after a run of upserts on a valid list, the list is valid and a lookup answers the last value upserted for the key, or the original value when it was never upserted |
| SkipList.FindAfterUpserts | tests/unit_tests/skiplist_test.cpp:29-56 | a new list, a run of upserts, then `find(k)` returns the value of the last upsert of `k`, or nothing |

## Left out

- Process execution, `print`, creating the results directory and the file system are left out. They become parameters: a run function, a `pathExists` predicate (true of directories too, as `Path.exists()` is) and the root path.
- Sweep.RunBenchmark: `run` is total, so the model has no case for `subprocess.run` raising `OSError` or `PermissionError`. That happens when the candidate found exists but cannot be executed, for instance a directory named `concurrent_load_test`.
- SkipList.Upsert / SkipList.Find: height 0 is excluded; the C++ indexes an empty `heads` there (`include/skiplist.hpp` lines 115 and 120).
- Formatting the CSV text is left out: quoting, line endings, and the `repr` of floats `csv` writes.
- Report.ParseOutput: figures are kept as the matched decimal text. `float()` conversion and floating point are not modelled; PicksDecimal and WriterPicksDecimal prove that `float()` accepts every figure.
- Report.ParseOutput: a failed search returns the field it was looking for. Python instead raises `AttributeError` when it asks `None` for a group.
- Sweep.RunBenchmark: the two messages printed before the exception is re-raised are not modelled.
- Sweep.RunDriver: an error from a run is returned as `Aborted`. Python lets the exception escape `main`, so no CSV is written; the model agrees on that.
- Sweep.Stoi: only digit strings are modelled, the only arguments the driver passes. `std::stoi`'s leading whitespace, sign and trailing characters are not modelled. `int` is taken to be 32 bits.
- `\s` and `\d` are the ASCII classes. Python's Unicode whitespace and digit classes are not modelled.
- `scripts/plot.py` is not part of this model.
- The load test's measurements are not part of this model. Only its argument handling is modelled.
- Concurrency and the C++ memory orders of the atomic list are not modelled. Only its sequential behaviour is, and it runs the same algorithm as `SkipList`.
- `skiplist_mutex.hpp` is not part of this model.
- `clear`, the destructors, `getNodeSize` and memory ownership are left out. They do not change what the list maps.
- `rand()` is a coin oracle. The j-th call during one upsert reads `coins[j]`, and a call past the end of the oracle reads as tails.
- Keys are `int` and values are any type. The C++ templates only need `>` and `==` on keys.
- SkipList.Find: its answer is stated for valid lists, the shape the constructor and `upsert` maintain. On other pointer structures the C++ behaviour is not modelled.
- Pointers are not stored. A `down` pointer is the node with the same key one level below, which is the only node `upsertRec` ever links to.
