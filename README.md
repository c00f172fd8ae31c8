# Synthetic row generator and GenWrites cursor

This project models the workload generator of the Database-Tuning experiments.
Three Python 2 scripts build rows from a column specification file:

- `Assignment1/ValueOfSerializability/gentable.py` writes a table file;
- `LogIO/writes.py` feeds insert and update transactions;
- `Indexing/reads.py` binds query parameters.

Every script reads the specification lines the same way. Each kept line becomes one
column, described by a kind or prefix, a cardinality directive and a base value.

For each column the generator draws a list of integers:

- a directive of 1 draws a permutation of `range(numrows)`;
- a directive below 1 draws with replacement from `range(round(numrows * draw))`;
- a directive above 1 draws without replacement from `range(round(draw))` when that
  range is large enough, and with replacement otherwise.

The integers are shifted by the base value and rendered by column kind. A schema tag is
recorded for each column. The columns are zipped into rows, and rows whose first
`numkeys` values repeat are removed, the later row winning. With `numkeys == 0` and
some columns, the keys are `zip()` of no columns, which is empty, so every row is
removed.

- `gentable.py` puts the schema row on top and writes every row as a `|`-delimited line.
- `writes.py` and `reads.py` keep the rows in a `GenWrites` object. Its `getWrite` is
  bounds-checked indexing. Its `getWrites` hands out consecutive batches from a counter.
- `writes.py` splits a batch into chunks of `NBWRITES / NBTHREADS` rows, which the
  pool maps over its workers; there can be more chunks than workers. In `updateN` mode it projects
  each row onto the positions given with `-a`.
- `reads.py` checks that the number of `?` markers in the query equals the number of
  positions. It then binds query `i` to the projection of row `i`.

The `GenWrites` class of `Indexing/reads.py` (lines 80-174) is line for line the class
of `LogIO/writes.py` (lines 109-203). One module, `Workload`, models both copies. Its
rows cite `LogIO/writes.py`, except where a property is stated on the `reads.py` copy.

Randomness is an input. `random.sample(range(m), k)` is the first `k` entries of a
supplied permutation of `range(m)`. Each `random.random()` is a supplied fraction
`num/den` with `num < den`, and `int(r * n)` is `num * n / den` rounded down. The float
directive is an input too: the case it falls in and its rounded `numvalues`. Dates are
the ordinal `today + num`, passed to a supplied `isoDate` function.

Modules:

- `Common`: errors, `Result`, `Option`, distinctness, intervals.
- `Text`: `str()` of an integer, `split`/`join`, `re.findall` of one character.
- `SpecFile`: the specification-line filter.
- `Sampling`: random draws as inputs, directives.
- `Dedup`: zip and key-prefix deduplication.
- `GenTable`: `gentable.py`.
- `Workload`: the `GenWrites` class.
- `LogIOWrites`: chunks, `updateN` parameters, the experiment batch.
- `IndexingReads`: query parameters.

## Model

| member | source | states |
|---|---|---|
| Text.IntRoundTrip | LogIO/writes.py:184 | reading back `str(num)` gives `num`, so the rendering loses nothing |
| Text.PrefixedInjective | LogIO/writes.py:184 | two prefixed renderings with the same prefix are equal only for equal numbers |
| Text.JoinSplit | LogIO/writes.py:120 | joining the pieces of `split(' ')` with single spaces gives back the line |
| Text.SplitJoin | Assignment1/ValueOfSerializability/gentable.py:182 | splitting a join gives back the pieces when none holds the separator |
| Text.JoinSeparatorCount | Assignment1/ValueOfSerializability/gentable.py:69-71 | a join of k pieces free of the separator holds it exactly k - 1 times |
| Text.FindAllCount | Indexing/reads.py:48-49 | `re.findall` of one character yields one match per occurrence |
| SpecFile.CleanedEnds | Indexing/reads.py:89 | a stripped, newline-free line is empty exactly when the line is blank, and otherwise starts and ends with non-blank characters |
| SpecFile.DropComments | Indexing/reads.py:90 | the `l[0] != '/'` filter fails exactly when an empty line reaches it; the lines it keeps are non-empty and not comments |
| SpecFile.AsWrittenFailsOnBlank | Assignment1/ValueOfSerializability/gentable.py:180-181 | the filter as written fails exactly when some line longer than one character, newlines not counted, is all whitespace |
| SpecFile.BlankLineRaises | Assignment1/ValueOfSerializability/gentable.py:180-181 | the filter as written fails on a file holding one line of three spaces |
| SpecFile.KeptLinesAsWritten | LogIO/writes.py:118-119 | the filter as written keeps at most one line per file line, and its only failure is the IndexError of `l[0]` on a line that is empty once cleaned |
| SpecFile.KeptLines | LogIO/writes.py:118-119 | the corrected filter keeps at most one line per file line |
| SpecFile.KeptLinesAgree | LogIO/writes.py:118-119 | wherever the filter as written succeeds, the corrected filter keeps the same lines |
| SpecFile.KeptLinesShape | LogIO/writes.py:118-119 | every kept line is non-empty, has no newline, is no `/` comment, and has no leading or trailing whitespace |
| SpecFile.AllLines | LogIO/writes.py:118 | the length filter and cleaning keep at most one line per file line |
| SpecFile.DropIndented | LogIO/writes.py:119 | the `ll[0] != ' '` filter keeps at most as many lines as it is given |
| SpecFile.KeptLinesAppend | LogIO/writes.py:118-119 | the corrected filter keeps lines in file order: filtering two parts of a file and concatenating gives the filtered file |
| SpecFile.KeptLinesMembers | Indexing/reads.py:89-90 | a line is kept exactly when it is longer than one character without newlines and its cleaned form is non-empty and starts with neither `/` nor a space |
| SpecFile.ColumnSpecs | LogIO/writes.py:120 | there is one column specification per line kept by the corrected filter |
| SpecFile.ColumnSpecsShape | LogIO/writes.py:120-121 | there is one column specification per line kept by the corrected filter; its first field is non-empty, no field holds a space, and its fields joined by single spaces give back the line |
| Sampling.ScaledBelow | LogIO/writes.py:144 | `int(r * n)` of `r` in [0, 1) and `n > 0` is a valid index below `n` |
| Sampling.ScaledExactly | LogIO/writes.py:144 | index `j` is drawn exactly when `r` lies in [j/n, (j+1)/n) |
| Sampling.ScaledReaches | LogIO/writes.py:144 | every index below `n` is drawn for some `r` in [0, 1) |
| Sampling.Sample | Assignment1/ValueOfSerializability/gentable.py:101 | `random.sample(range(m), k)` fails exactly when `k > m`; otherwise it gives `k` distinct numbers of the range |
| Sampling.SampleAllCovers | Assignment1/ValueOfSerializability/gentable.py:101 | a sample of all of `range(m)` holds every number of the range |
| Sampling.Shift | Assignment1/ValueOfSerializability/gentable.py:113 | adding the base value keeps one number per number |
| Sampling.ShiftFacts | Assignment1/ValueOfSerializability/gentable.py:113 | adding the base value keeps distinct numbers distinct and moves a range to start at the base |
| Sampling.Max | Assignment1/ValueOfSerializability/gentable.py:126 | `max()` of a non-empty list is a member of it and no element exceeds it |
| Dedup.Zip | Assignment1/ValueOfSerializability/gentable.py:133 | row i of `zip(*cols)` holds entry i of every column; zip of no columns is empty |
| Dedup.KeyIndex | Assignment1/ValueOfSerializability/gentable.py:137-139 | every key of `dict(zip(keys, rest))` is a key prefix of numkeys values |
| Dedup.Deduplicated | Assignment1/ValueOfSerializability/gentable.py:131-143 | deduplication, which rebuilds the rows as key + rest with `Dedup.Reassemble` (line 140), fails only with the `numkeys > numcols` error; with every column a key it gives the set of the rows |
| Dedup.KeyIndexKeys | Assignment1/ValueOfSerializability/gentable.py:137-139 | the dict's keys are exactly the rows' key prefixes, each mapped to the rest of a row with that prefix |
| Dedup.KeyIndexLastWins | Assignment1/ValueOfSerializability/gentable.py:139 | the last row with a key prefix supplies that key's rest |
| Dedup.DeduplicatedUnique | Assignment1/ValueOfSerializability/gentable.py:131-143 | deduplication fails exactly when `numkeys > numcols`; otherwise it keeps only input rows, at most as many as there were, with no key prefix twice |
| Dedup.DeduplicatedLastWins | Assignment1/ValueOfSerializability/gentable.py:135-140 | with some key columns, the last row with each key prefix survives whole |
| Dedup.NoKeysNoRows | Assignment1/ValueOfSerializability/gentable.py:137-140 | with no key columns but some data columns the table is empty, because zip of no columns is empty |
| Dedup.ListOf | Assignment1/ValueOfSerializability/gentable.py:145 | `list(set)` holds every element of the set once |
| GenTable.SpitVert | Assignment1/ValueOfSerializability/gentable.py:63-71 | every line ends with a newline and starts with the first field of the row |
| GenTable.SpitVertIsJoin | Assignment1/ValueOfSerializability/gentable.py:63-71 | `spitvert` of the empty row is exactly a newline, of one field that field and a newline, and in general the `|`-join of the fields and one newline |
| GenTable.SpitVertCounts | Assignment1/ValueOfSerializability/gentable.py:69-71 | for fields without `|` or newline, a row of k >= 1 fields has exactly k - 1 bars and one newline, at the end |
| GenTable.SpitVertRoundTrip | Assignment1/ValueOfSerializability/gentable.py:63-71 | splitting a line, newline removed, at `|` gives back the fields |
| GenTable.DrawnAsWritten | Assignment1/ValueOfSerializability/gentable.py:74-83 | `sample_wr` as written gives k draws, each a member of the population, or 0 when the population is empty (the `[0]` fallback); this holds for one element too |
| GenTable.SampleWrAsWritten | Assignment1/ValueOfSerializability/gentable.py:74-83 | the loop as written fills k draws with index `int(r * (n - 1))` into the population, or into `[0]` when it is empty |
| GenTable.AsWrittenSkipsLast | Assignment1/ValueOfSerializability/gentable.py:81 | as written, a population of two or more elements never yields its last element |
| GenTable.AsWrittenCounterexample | Assignment1/ValueOfSerializability/gentable.py:81 | as written, from [0, 1] with `random()` = 1/2 the draw is 0, where `int(r * n)` draws 1 |
| GenTable.AsWrittenNeverDrawsTop | Assignment1/ValueOfSerializability/gentable.py:105 | as written, a draw from `range(v)`, v >= 2, is always below `v - 1` |
| GenTable.Drawn | Assignment1/ValueOfSerializability/gentable.py:74-83 | the corrected `sample_wr`, drawing `int(r * n)`, gives k draws, each a member of the population, or 0 when it is empty |
| GenTable.SampleWr | Assignment1/ValueOfSerializability/gentable.py:74-83 | the corrected loop fills k draws with index `int(r * n)`, keeping the `[0]` fallback |
| GenTable.DrawnReachesEvery | Assignment1/ValueOfSerializability/gentable.py:81 | the corrected sampler can yield any element, the last included |
| GenTable.NumList | Assignment1/ValueOfSerializability/gentable.py:100-113 | numlist holds one number per row for every directive; the draw < 1 and with-replacement draw > 1 branches use the corrected sampler |
| GenTable.FullIsPermutation | Assignment1/ValueOfSerializability/gentable.py:100-113 | with draw == 1 the numbers are distinct, lie in [base, base + numrows) and cover that interval |
| GenTable.BelowInDomain | Assignment1/ValueOfSerializability/gentable.py:103-113 | with draw < 1, drawing through the corrected sampler, every number lies in [base, base + numvalues), or is base when numvalues <= 0 |
| GenTable.BelowFewValues | Assignment1/ValueOfSerializability/gentable.py:103-105 | with draw < 1 a column holds at most numvalues different numbers (one when numvalues <= 0) |
| GenTable.AboveInDomain | Assignment1/ValueOfSerializability/gentable.py:106-113 | with draw > 1 the numbers lie in [base, base + numvalues), and are distinct when numvalues >= numrows; below numrows they are drawn through the corrected sampler |
| GenTable.Render | Assignment1/ValueOfSerializability/gentable.py:116-126 | a column has one value per number |
| GenTable.RenderKeepsDistinct | Assignment1/ValueOfSerializability/gentable.py:116-125 | distinct numbers give distinct numeric and prefixed values |
| GenTable.Tag | Assignment1/ValueOfSerializability/gentable.py:116-126 | the tag is `numeric` for `n` and `date` for `d`; a prefixed column's tag fails, with the `max([])` error, exactly when it has no numbers |
| GenTable.TagRecordsMax | Assignment1/ValueOfSerializability/gentable.py:124-126 | a prefixed column's tag fails exactly on an empty list, and otherwise is `varchar(` + the largest number + `)` |
| GenTable.MakeColumn | Assignment1/ValueOfSerializability/gentable.py:92-126 | a loop turn that succeeds gives numrows values |
| GenTable.Columns | Assignment1/ValueOfSerializability/gentable.py:88-128 | a column loop that succeeds gives one column per specification, each of numrows values |
| GenTable.ColumnsUpTo | Assignment1/ValueOfSerializability/gentable.py:88-128 | after i successful turns of the column loop there are i columns, each of numrows values |
| GenTable.ColumnsNext | Assignment1/ValueOfSerializability/gentable.py:89-128 | one more loop turn appends the new column, or stops with its error |
| GenTable.ColumnsFailFirst | Assignment1/ValueOfSerializability/gentable.py:89-128 | once a column fails, the whole loop fails with that error |
| GenTable.ColumnsFailIff | Assignment1/ValueOfSerializability/gentable.py:124-126 | the column loop fails exactly when numrows == 0 and some column is prefixed, so `max([])` raises |
| GenTable.GeneratedShape | Assignment1/ValueOfSerializability/gentable.py:130-146 | `GenTable.Generated`, the table gentable builds, fails exactly on `max([])` or `numkeys > numcols`; otherwise the schema has one tag per column, every row one value per column, there are at most numrows rows, and no key prefix repeats |
| GenTable.GeneratedLastWins | Assignment1/ValueOfSerializability/gentable.py:135-140 | a row that is the last with its key prefix among the zipped rows is in the table |
| GenTable.SynthColumn | Assignment1/ValueOfSerializability/gentable.py:92-126 | one loop turn gives the column's values and tag, or the `max([])` error, drawing with the corrected sampler |
| GenTable.WriteColumns | Assignment1/ValueOfSerializability/gentable.py:130-151 | once the columns are built, the result fails exactly when generation fails (`numkeys > numcols`), with the same error; otherwise it is a rendering of the generated table |
| GenTable.Lines | Assignment1/ValueOfSerializability/gentable.py:149 | there is one `spitvert` line per table row |
| GenTable.WriteTable | Assignment1/ValueOfSerializability/gentable.py:145-151 | the lines are the schema line followed by one line per row of the set, each row once |
| GenTable.Gentable | Assignment1/ValueOfSerializability/gentable.py:85-151 | the result fails exactly when generation fails, with the same error; otherwise line 0 is the schema line, followed by one line per deduplicated row, each once, drawing with the corrected sampler |
| Workload.DrawnWr | LogIO/writes.py:138-146 | `sample_wr` fails exactly when it must draw from an empty population; otherwise it gives k values |
| Workload.SampleWr | LogIO/writes.py:138-146 | the loop fills k draws with index `int(r * n)`, failing on the first draw from an empty population |
| Workload.DrawnWrMembers | LogIO/writes.py:144-145 | every value drawn is a member of the population |
| Workload.NumList | LogIO/writes.py:161-175 | a numlist that does not fail holds numwrites numbers |
| Workload.FullDistinct | LogIO/writes.py:162-175 | with draw == 1 the numwrites values fail exactly when numwrites > numrows; otherwise they are distinct and in [base, base + numrows) |
| Workload.AboveDistinct | LogIO/writes.py:168-175 | with draw > 1 and round(draw) >= numwrites the values are distinct and lie in [base, base + round(draw)) |
| Workload.AboveWithReplacement | LogIO/writes.py:170-175 | with draw > 1 and round(draw) < numwrites the values lie in [base, base + round(draw)), and drawing fails exactly when round(draw) <= 0 and a value is needed |
| Workload.BelowInDomain | Indexing/reads.py:136-146 | with draw < 1 the values lie in [base, base + numvalues), and drawing fails exactly when numvalues <= 0 and a value is needed |
| Workload.Render | LogIO/writes.py:177-184 | a column has one cell per number |
| Workload.RenderFacts | LogIO/writes.py:177-184 | numeric cells are the integers themselves; categorical cells start with the attribute prefix, followed by a decimal that reads back as the number; distinct numbers give distinct cells |
| Workload.Tag | LogIO/writes.py:177-186 | the tag is `numeric` for `n`; otherwise it is `varchar(` + a maximal member + `)`, failing with the `max([])` error exactly on an empty list |
| Workload.MakeColumn | LogIO/writes.py:155-187 | a loop turn that succeeds gives numwrites cells |
| Workload.Columns | LogIO/writes.py:151-187 | a column loop that succeeds gives one column per specification, each of numwrites cells |
| Workload.ColumnsUpTo | LogIO/writes.py:151-187 | after i successful turns of the column loop there are i columns, each of numwrites cells |
| Workload.ColumnsNext | LogIO/writes.py:152-187 | one more loop turn appends the new column, or stops with its error |
| Workload.ColumnsFailFirst | LogIO/writes.py:152-187 | once a column fails, the whole loop fails with that error |
| Workload.MakeColumnFailIff | LogIO/writes.py:155-187 | one loop turn fails exactly when `random.sample` is asked for numwrites > numrows values, `sample_wr` must draw from an empty range, or a prefixed column has no numbers |
| Workload.ColumnsFailIff | LogIO/writes.py:152-187 | the column loop of `GenWrites.gentable` fails exactly when some column's turn fails |
| Workload.GeneratedShape | LogIO/writes.py:188-203 | with the columns built, `Workload.Generated` succeeds exactly when numkeys <= numcols; every row is a zipped data row, not the schema, and has one cell per column; there are at most numwrites rows, with unique key prefixes |
| Workload.AllKeysKeepsEveryRow | Indexing/reads.py:160-163 | with every column a key, the rows are exactly the zipped rows, duplicates removed |
| Workload.GeneratedLastWins | LogIO/writes.py:193-198 | with some key columns, the last zipped row with each key prefix is generated |
| Workload.SynthColumn | LogIO/writes.py:155-187 | one loop turn gives the column's cells and tag, or the sampling or `max([])` error |
| Workload.Gentable | LogIO/writes.py:148-203 | the result fails exactly when generation fails, with the same error; otherwise it lists every generated row once |
| Workload.GenWrites.constructor | LogIO/writes.py:110-125 | the object holds its configuration and distinct rows, with the counter at 0 |
| Workload.NewGenWrites | LogIO/writes.py:110-125 | construction fails exactly when generation fails; otherwise the new object's rows are the generated set, each once, with the counter at 0 |
| Workload.GenWrites.GetWrite | LogIO/writes.py:127-131 | `getWrite(c)` is None exactly when `c < 0` or `c >= len(writes)`, and `writes[c]` otherwise |
| Workload.GenWrites.Window | Indexing/reads.py:107 | the batch at `s` of `count` holds max(count, 0) entries, entry i being `getWrite(s + i)` |
| Workload.GenWrites.GetWrites | LogIO/writes.py:133-136 | `getWrites(count)` returns the batch at the old counter and advances the counter by exactly `count` |
| Workload.GenWrites.WindowsAdjoin | LogIO/writes.py:133-136 | two successive batches of sizes a and b are the one batch of size a + b |
| Workload.GenWrites.WindowHolds | Indexing/reads.py:104-107 | a batch holds a row exactly when the row's position is in the batch's range |
| Workload.GenWrites.DisjointWindows | LogIO/writes.py:133-136 | batches over non-overlapping ranges, such as successive `getWrites` calls, never hand out the same row |
| Workload.Positions | LogIO/writes.py:73 | the positions kept are the in-range positions listed, ascending, each once |
| Workload.Project | LogIO/writes.py:72-73 | the projection keeps at most as many fields as the row has, each a field of the row |
| Workload.ProjectPositions | LogIO/writes.py:72-73 | the projection holds `t[j]` for exactly those positions, in that order |
| Workload.ProjectSetOnly | Indexing/reads.py:65 | the order of the list, repeated positions and out-of-range positions do not change the projection |
| Workload.ProjectExtremes | LogIO/writes.py:73 | listing every position keeps the row; listing none keeps nothing |
| LogIOWrites.Chunks | LogIO/writes.py:207-208 | `chunks` fails exactly on a zero step, with the `range()` error, and gives no chunk for a negative step |
| LogIOWrites.ChunkBounds | LogIO/writes.py:208 | every chunk starts inside the list |
| LogIOWrites.ChunksStep | LogIO/writes.py:207-208 | the chunks of a longer list are its first n elements followed by the chunks of the rest |
| LogIOWrites.ChunkOfTail | LogIO/writes.py:207-208 | chunk k of a list is chunk k - 1 of the list without its first n elements |
| LogIOWrites.ChunksFlatten | LogIO/writes.py:207-208 | concatenating `chunks(l, n)` gives back `l` |
| LogIOWrites.ChunkSizes | LogIO/writes.py:207-208 | there are ceil(len(l) / n) chunks; every chunk but the last holds n elements, and the last holds 1 to n |
| LogIOWrites.UpdateParams | LogIO/writes.py:72-73 | the parameters of a missing row are the TypeError of `list(None)`; those of a row keep some of its fields, no more than it has |
| LogIOWrites.WriteParams | LogIO/writes.py:66-75 | the `updateN` loop binds the projection of every row, and fails when a batch entry is None |
| LogIOWrites.Batches | LogIO/writes.py:223 | the experiment takes `NBWRITES` rows from the cursor, then fails on zero threads or splits them into chunks of `NBWRITES / NBTHREADS` |
| LogIOWrites.FewWritesFail | LogIO/writes.py:223 | fewer writes than threads gives chunk size 0, which `range()` refuses |
| LogIOWrites.MoreChunksThanThreads | LogIO/writes.py:223-225 | ten writes over four threads give five chunks for a pool of four |
| LogIOWrites.BatchesCover | LogIO/writes.py:223 | with at least one write per thread, the chunks together are exactly the batch |
| IndexingReads.ParamCount | Indexing/reads.py:48-49 | the parameter count is the number of `?` characters of the query |
| IndexingReads.QueryParams | Indexing/reads.py:46-67 | a count mismatch with `len(ATTLIST)` is an error; otherwise query i binds nothing, or the projection of row i, and fails once i passes the last row |
| IndexingReads.BoundParamsFit | Indexing/reads.py:50-65 | with as many distinct in-range positions as markers, every bound tuple has one value per marker |

## Left out

- `ibm_db` connections, statements, commits and fetches are left out, because they belong to the database: `write`, `update1` and the query loop of `experiment`. The model keeps only the parameter tuples they would bind.
- The `update1` write mode and `TRANS_MODE` commits are left out, because they only issue statements.
- `multiprocessing.Pool` and `Manager` fan-out, `timeit` timing and the repeated runs are left out. The model computes the chunks one run hands to the pool, and says nothing about a cursor shared between processes.
- Option parsing, usage text, SQL and specification file reading, and writing the table file are left out, as I/O. The bounds checks on option values are left out too. One of them, `writes.py:314`, checks `n` instead of the option value.
- Float directives are left out: `float(spec[1])`, `int(spec[2])`, `round(...)`, and NaN, which falls into no branch. The directive case, the rounded `numvalues` and the base value are inputs. The model therefore does not turn a split specification line into a column specification.
- Calendar conversion of dates is left out. A date is `isoDate(today + num)` for a supplied function, so `fromordinal` errors on out-of-range ordinals are left out too.
- Real randomness is left out. The model takes a supplied permutation and supplied fractions, and does not capture their distribution.
- Negative `numrows`, `numwrites` or `numkeys` are left out: counts are natural numbers. A negative `numkeys` would select columns by slicing from the end.
- `GenTable.NumList` models the intended sampler of the Findings, `int(random() * n)`, in the draw < 1 branch and the with-replacement draw > 1 branch. The code as written draws `int(random() * (n - 1))` (gentable.py:81). As written, such a column never takes the value base + numvalues - 1: that is `GenTable.AsWrittenNeverDrawsTop`.
- `GenTable.SynthColumn` computes its numbers with the corrected `GenTable.SampleWr`, for the same reason.
- `GenTable.Gentable` builds its table from the corrected sampler too. Its table is therefore the one the fixed script would write, not the one gentable.py as written writes.
- `GenTable.BelowInDomain` is stated of the corrected sampler. The range it states holds for the draws as written as well, since each is a member of the population (`GenTable.DrawnAsWritten`). It does not say that, as written, the top value is missing.
- `GenTable.AboveInDomain` is stated of the corrected sampler in its with-replacement case, for the same reason.
- `GenTable.Gentable` does not fix the order of the data lines, because `list(set)` order is unspecified in Python. Its contract names the set of rows and says each appears once.
- `Workload.Gentable` does not fix the order of the rows either, for the same reason.
- The projection ignores the order of the `-a` options, although the help text says they are "considered in order". The model follows the code: ascending position order.
- The `numkeys > numcols` branch calls an undefined `system.exit`. It is modelled as the error `TooManyKeys`.
- Assignment1/ValueOfSerializability/experiment.py is not part of this model: its transactions run against the database.

## Findings

| source | as written | input that shows it | evidently intended | confidence | as-written member | corrected member |
|---|---|---|---|---|---|---|
| Assignment1/ValueOfSerializability/gentable.py:81 | `sample_wr` draws index `int(random() * (n - 1))`, which is at most `n - 2` when `n >= 2`, so the last element is never drawn: a column with draw < 1 uses only `numvalues - 1` values | population `[0, 1]`, `random()` = 0.5: the draw is 0 on every call, and 1 is unreachable | index `int(random() * n)`, as in the copies at LogIO/writes.py:144 and Indexing/reads.py:115 | not executed; high | GenTable.AsWrittenCounterexample | GenTable.DrawnReachesEvery |
| Assignment1/ValueOfSerializability/gentable.py:180-181 | a line of at least two whitespace characters, newlines not counted, passes the length test; `strip()` leaves it empty, and `l[0]` raises IndexError. The same filter is at LogIO/writes.py:118-119 and Indexing/reads.py:89-90 | a specification file holding the line `"   \n"` | blank lines are skipped like empty ones (the comment says "remove empty lines") | not executed; high | SpecFile.BlankLineRaises | SpecFile.KeptLinesAgree |
