# RapMapCSA seeding and extension, modelled in Dafny

This project models the core of a small exact-match read mapper that works over a
compressed suffix array (CSA) of a reference text. It covers these steps:

- **2-bit k-mer keys** (`Encoding`, `encoding.dfy`):
  - `getHashKey` is a method whose accumulator loop is proved to compute `KeyOf`.
  - The rolling 16-bit key inside `populateHashMap` is `RollKey`/`RollingKey`.
  - Lemmas prove that the key is a bijection on upper-case ACGT strings of a given length, that it is case-insensitive, and that the rolling key, once K = 8 symbols have been read, is the key of the last K of them, and before that the key of all of them.
- **The suffix index** (`SuffixIndex`, `suffix_index.dfy`). The index is built once and never changed, so it is a value `Csa(text, sa, psi, C, comp2char)`:
  - The ghost predicate `Valid` states what the CSA guarantees. Ranks are sorted by suffix, rank 0 is the sentinel, `psi` steps one text position forward, and `C` splits the ranks into symbol classes.
  - `backward_search` is the function `BackwardSearch`, which returns the first and last matching rank. Lemmas prove that on a valid index it returns exactly the ranks whose suffix starts with the pattern.
  - `getPositionAt` is `PositionAt`.
- **The seed table** (`SeedTable`, `seed_table.dfy`):
  - `populateHashMap` is a method over a map. It is proved equal to the specification function `Table`, in which each window's key is inserted only when it is absent.
  - Lemmas prove that entries are never overwritten, that the first window with a key wins, and that over an ACGT text a seed's key is in the table exactly when the seed occurs in the text.
- **MMP extension** (`Mmp`, `mmp.dfy`):
  - Covers `getCharsNaive`, `getCharsPSI` (a class search over `C`), `getMMPIntervalNaive` and `getMMPIntervalPSI`.
  - Their inner extension loops, binary searches and the loop that copies the prefix are methods with loop invariants.
  - The specification is `Run`, the length of the read's agreement with the suffix at a rank, and `MaxRun`, the longest run over a range of ranks.
  - Both variants return `BackwardSearch` of the read's prefix of length `maxMMP`, and that interval holds every rank of the seed interval whose run is `maxMMP`.
  - When the read's symbols sort above EOL, which every normalised read's do, `maxMMP` is `MaxRun` over the whole seed interval. For the PSI variant this holds for any seed interval. For the naive variant it holds when every rank of the seed interval agrees with the read's first K symbols.
  - The binary searches are correct because of suffix order. `StopBelow` and `StopAbove` prove that a probe whose suffix stops below (above) the read rules out every rank before (after) it, so no discarded rank runs further than the best probe.
  - The naive variant starts each probe at `min(LP, RP)`. `RunBetween` justifies this: suffix order makes every rank between two ranks that agree for m symbols agree for m symbols as well.
- **The per-read flow of `main`** (`Driver`, `driver.dfy`): read normalisation, seed choice, seed lookup, the call to `getMMPIntervalNaive`, and the NIP (next informative position) scan.

Fixed-width arithmetic is written out wherever it matters:
- The signed 32-bit accumulator of `getHashKey`.
- The 16-bit rolling key, where `(num << 2) & ~(0xFFFF << 16)` keeps every bit of a `uint16_t`, so the step is `(num * 4) % 65536 + code`.
- The `uint32_t` sum `left_ + right_`.
- `middle - 1` when `middle` is 0.

Two defects of the source are modelled twice, once as written and once corrected:
- The NIP scan bounds its offset by the text length only, so it reads past the end of the text at the two positions. `Driver.NipAsWritten` models the loop as written, and `Driver.NipScan` is the corrected loop that stops at the end of the text.
- A read shorter than K is seeded on its whole length. `Driver.SeedOf` and `Driver.ShortSeedCollides` model that as written, and `Driver.ProcessRead` reports such a read as `TooShort` (see Findings).

## Model

| member | source | states |
|---|---|---|
| Encoding.KeyOf | src/RapMapCSA.cpp:260-286 | the key of an n-symbol string lies in [0, 4^n) |
| Encoding.GetHashKey | src/RapMapCSA.cpp:260-286 | the accumulator loop returns the 2-bit key of the string (A/a 0, C/c 1, G/g 2, T/t 3, anything else 0); for at most 15 symbols it never overflows the signed int and lies in [0, 4^n) |
| Encoding.KeyOfDecodeKey | src/RapMapCSA.cpp:260-286 | decoding a key of n symbols and encoding the result gives the key back |
| Encoding.DecodeKeyOf | src/RapMapCSA.cpp:260-286 | encoding an upper-case ACGT string and decoding the key gives the string back |
| Encoding.KeyInjective | src/RapMapCSA.cpp:260-286 | two upper-case ACGT strings of one length with the same key are equal |
| Encoding.KeyOfUpperAll | src/RapMapCSA.cpp:267-282 | upper-casing a string does not change its key (matching is case-insensitive) |
| Encoding.KeyOfFirst | src/RapMapCSA.cpp:260-286 | the first symbol carries the highest two bits of the key |
| Encoding.Code | src/RapMapCSA.cpp:56-71 | the switch gives every symbol a code in [0, 4); the same switch is repeated in `getHashKey` at lines 267-282 |
| Encoding.CodeNamesBase | src/RapMapCSA.cpp:56-71 | a base of either case gets its own position in "ACGT", and every other symbol gets A's code 0 |
| Encoding.RollKey | src/RapMapCSA.cpp:54-71 | one step of the rolling key stays within 16 bits |
| Encoding.RollKeyWindow | src/RapMapCSA.cpp:53-72 | rolling the key of the last K symbols over one more symbol gives the key of the new last K symbols |
| Encoding.RollingKey | src/RapMapCSA.cpp:53-72 | the rolling `num` after any number of symbols fits in 16 bits |
| Encoding.RollingKeyIsWindowKey | src/RapMapCSA.cpp:53-72 | after n symbols the rolling `num` is the key of the last K of them (of all of them while fewer than K) |
| SuffixIndex.BackwardSearch | src/RapMapCSA.cpp:79 | the interval's bounds are ranks whose suffixes start with the pattern, or the interval is empty |
| SuffixIndex.BackwardSearchExact | src/RapMapCSA.cpp:79 | on a valid index the interval holds exactly the ranks whose suffixes start with the pattern |
| SuffixIndex.MatchesBetween | src/RapMapCSA.cpp:79 | the ranks whose suffixes start with a pattern are contiguous |
| SuffixIndex.BackwardSearchAvoidsSentinel | src/RapMapCSA.cpp:79 | the interval of a non-empty pattern starts at rank 1 or later, so it never holds the sentinel's rank 0 |
| SuffixIndex.BackwardSearchFindsOccurrence | src/RapMapCSA.cpp:79 | every occurrence of the pattern in the text has its rank inside the interval |
| SuffixIndex.RankZeroIsSentinel | src/RapMapCSA.cpp:97 | rank 0, and only rank 0, holds the sentinel position |
| SuffixIndex.PositionAt | src/RapMapCSA.cpp:88-91 | `getPositionAt` gives a text position; it is the sentinel's only for rank 0, and a pattern matches at the rank exactly when the text at that position starts with it |
| SuffixIndex.RankOfPos | src/RapMapCSA.cpp:88-91 | every text position, the sentinel's included, is what `getPositionAt` returns for some rank |
| SeedTable.Table | src/RapMapCSA.cpp:73-81 | the table after any number of windows keeps every key of the map it started from |
| SeedTable.PopulateHashMap | src/RapMapCSA.cpp:47-86 | the loop's map is the specification table over all full windows; a text shorter than K leaves the map unchanged |
| SeedTable.InsertWindow | src/RapMapCSA.cpp:73-81 | a window's key is inserted with the window's `backward_search` interval only when the map does not already hold it; the map is then the table after one more window |
| SeedTable.RollingKeyAtWindow | src/RapMapCSA.cpp:53-83 | once `cur >= K`, the rolling key is the key of the window starting at `it == cur - K` |
| SeedTable.TableKeys | src/RapMapCSA.cpp:73-81 | the table's keys are the old keys plus the key of every window visited |
| SeedTable.TableGrows | src/RapMapCSA.cpp:73-81 | an entry, once present (including every entry of the map passed in), is never overwritten |
| SeedTable.TableKeepsEntry | src/RapMapCSA.cpp:75-81 | visiting one more window keeps every entry already present, with its interval |
| SeedTable.TableFirstWins | src/RapMapCSA.cpp:73-81 | a new key maps to `backward_search` of the first window with that key |
| SeedTable.TableSound | src/RapMapCSA.cpp:47-86 | over an ACGT text, every window's key maps to that window's own non-empty interval, which avoids rank 0 |
| SeedTable.TableEntries | src/RapMapCSA.cpp:75-80 | every stored interval is non-empty, inside the index and avoids rank 0 |
| SeedTable.TableHasSeed | src/RapMapCSA.cpp:47-86 | over an ACGT text, a K-mer's key is in the table exactly when the K-mer occurs in the text, and then it maps to the K-mer's interval |
| Mmp.EolSortsFirst | src/RapMapCSA.cpp:32 | EOL (`'A' - 1`) sorts below every base |
| Mmp.GetCharsNaive | src/RapMapCSA.cpp:160-172 | out-of-bounds indices give EOL; the pair agrees on a non-EOL symbol exactly when both indices are in bounds and the text and read symbols are equal |
| Mmp.ClassSearch | src/RapMapCSA.cpp:98-105 | the loop over `C` from class `i` yields EOL or the symbol of one of the classes from `i` on |
| Mmp.ClassSearchFinds | src/RapMapCSA.cpp:98-105 | on a valid index the class search over `C` finds, for every rank other than 0, the first symbol of that rank's suffix |
| Mmp.GetCharsPsi | src/RapMapCSA.cpp:93-112 | rank 0 gives EOL and any other rank gives its suffix's first symbol; the read side gives EOL at the end of the read and the read's symbol before it |
| Mmp.Run | src/RapMapCSA.cpp:183-186 | the read's run from `startAt` against a rank never passes the end of the read |
| Mmp.CommonRun | src/RapMapCSA.cpp:183-186 | the run agrees symbol by symbol with no EOL, and it is maximal: it stops at a mismatch, an EOL, or the end of either string |
| Mmp.RunBetween | src/RapMapCSA.cpp:208-218 | a rank between two ranks whose runs reach m has a run that reaches m too, so starting the middle probe at `min(LP, RP)` skips nothing |
| Mmp.ExtendNaive | src/RapMapCSA.cpp:182-186 | extending from depth `from` at text position `pos` reaches the full common run, and stays within the read |
| Mmp.WalkPsi | src/RapMapCSA.cpp:123-132 | following `psi` from rank `middle` matches exactly the run of the read against that rank's suffix; the stopping pair is the first symbols past the run |
| Mmp.ExtractPrefix | src/RapMapCSA.cpp:150-154 | the copy loop yields `read[startAt .. startAt + maxMMP)` |
| Mmp.MaxRun | src/RapMapCSA.cpp:116-146 | no rank of `[lo, hi]` runs further than the longest run (`Mmp.MaxRunReached`: some rank reaches it) |
| Mmp.MaxRunReached | src/RapMapCSA.cpp:116-146 | some rank of `[lo, hi]` has a run equal to the longest run |
| Mmp.MaxRunIs | src/RapMapCSA.cpp:116-146 | a bound on every run of `[lo, hi]` that some rank of it reaches is the longest run |
| Mmp.NaiveStopPair | src/RapMapCSA.cpp:160-172 | the pair `getCharsNaive` returns after a full run is the pair of symbols where the run stops |
| Mmp.StopBelow | src/RapMapCSA.cpp:140-141 | when the suffix at rank `j` stops on a smaller symbol than the read's, no rank before `j` runs further than `j` |
| Mmp.StopAbove | src/RapMapCSA.cpp:143-144 | when the read's symbols sort above EOL and the suffix at rank `j` stops on a symbol not smaller than the read's, no rank after `j` runs further than `j` |
| Mmp.EliminateBelow | src/RapMapCSA.cpp:140-141 | moving `left_` past a probe that stops below the read discards no rank that runs further than the best run |
| Mmp.EliminateAbove | src/RapMapCSA.cpp:143-144 | moving `right_` below a probe that stops above the read discards no rank that runs further than the best run |
| Mmp.ReadExhausted | src/RapMapCSA.cpp:137-138 | a probe whose run reaches the end of the read bounds every rank's run, so stopping there loses nothing |
| Mmp.SearchStep | src/RapMapCSA.cpp:122-145 | one probe keeps the search invariant: stopping at the read's end finishes the search, and otherwise the live range moves to the read's side with no better rank left behind |
| Mmp.SearchDone | src/RapMapCSA.cpp:120 | a search whose live range is empty has seen the longest run of the whole interval |
| Mmp.SearchResultIsMax | src/RapMapCSA.cpp:116-146 | a finished search's bound is the run of a rank of the interval and, when the read sorts above EOL, its longest run |
| Mmp.ProbePsi | src/RapMapCSA.cpp:116-146 | `maxMMP` is the run of some rank of a non-empty interval and, when the read's symbols sort above EOL, the longest run over the whole interval; an empty interval leaves it 0 |
| Mmp.MmpIntervalPsi | src/RapMapCSA.cpp:114-158 | the result is `backward_search` of the read's prefix of length `maxMMP`, and holds every rank of the seed interval whose run is `maxMMP`; above EOL `maxMMP` is the longest run over the seed interval; for an empty seed interval `maxMMP` is 0 and the result is the whole index `(0, |sa| - 1)` |
| Mmp.IntervalHoldsBest | src/RapMapCSA.cpp:148-157 | `backward_search` of a prefix that some rank runs over is non-empty and holds every rank whose run is that prefix's length |
| Mmp.ProbeRank | src/RapMapCSA.cpp:210-218 | a probe extends from `from` and, when the rank agrees up to `from`, returns the rank's full run and the pair where it stops |
| Mmp.BisectNaive | src/RapMapCSA.cpp:207-237 | the binary search never lowers `maxMMP` or lets it pass the read's end; when both ends' runs are exactly `LP` and `RP`, `maxMMP` is the run of a rank of the interval and, above EOL, the longest run over it |
| Mmp.ProbeNaive | src/RapMapCSA.cpp:176-238 | `K <= maxMMP <= readSize - startAt`; when the seed interval agrees with the read's first K symbols, `maxMMP` is some rank's run and, above EOL, the longest run over the seed interval |
| Mmp.MmpIntervalNaive | src/RapMapCSA.cpp:174-250 | the result is `backward_search` of the read's prefix of length `maxMMP >= K`; when the seed agrees, it holds every rank whose run is `maxMMP`, and above EOL `maxMMP` is the longest run over the seed interval |
| Driver.KeepBase | src/RapMapCSA.cpp:317-334 | a base of either case is kept, upper-cased; every other symbol is dropped |
| Driver.Normalized | src/RapMapCSA.cpp:316-335 | a normalised read holds only A, C, G and T and is no longer than the input |
| Driver.NormalizeRead | src/RapMapCSA.cpp:316-335 | the appending loop computes the normalised read |
| Driver.NormalizedAppend | src/RapMapCSA.cpp:316-335 | normalisation works symbol by symbol, in order: it distributes over concatenation |
| Driver.NormalizedAcgt | src/RapMapCSA.cpp:316-335 | an upper-case ACGT read is left unchanged |
| Driver.NormalizedIdempotent | src/RapMapCSA.cpp:316-335 | normalising twice is normalising once |
| Driver.NormalizedDropsOthers | src/RapMapCSA.cpp:316-335 | a line without bases normalises to the empty read |
| Driver.SeedOf | src/RapMapCSA.cpp:338-341 | the seed is a prefix of the read, of length 8, or the whole read when it is shorter |
| Driver.SeedKeyFits | src/RapMapCSA.cpp:343-348 | the seed's key fits in 16 bits, so looking it up in the `uint16_t`-keyed table does not truncate it |
| Driver.ShortSeedCollides | src/RapMapCSA.cpp:338-348 | the read "c" normalises to "C", is shorter than K, and has the key of the full window "AAAAAAAC"; extending it from depth K (line 181) stops at once at K, beyond the read's length 1, so the copy at lines 243-245 reads past the read |
| Driver.Diverge | src/RapMapCSA.cpp:360-367 | the text agrees at `pos1 + x` and `pos2 + x` for every offset before the divergence, and disagrees or runs out at it; the divergence is at most the text length |
| Driver.CharAt | src/RapMapCSA.cpp:362-363 | indexing `line` gives its symbol inside the string, the terminating NUL at `line.size()`, and nothing defined beyond |
| Driver.NipAsWritten | src/RapMapCSA.cpp:360-367 | the loop as written either stops at an offset between its starting offset and the text length, or reads a position past the text's terminating NUL |
| Driver.NipAsWrittenInside | src/RapMapCSA.cpp:360-367 | where the divergence lies inside the text at both positions, the loop as written stops at the same offset |
| Driver.NipReadsPastEnd | src/RapMapCSA.cpp:361-363 | on the text "ACGTACGTTT", with both ends at position 2, the loop as written reads `line[11]` |
| Driver.NipScan | src/RapMapCSA.cpp:360-367 | the guarded NIP loop stops at the divergence offset |
| Driver.SeedIntervalAgrees | src/RapMapCSA.cpp:348-354 | over an ACGT text, every rank of the seed interval found for a read agrees with the read's first K symbols |
| Driver.ExtendSeed | src/RapMapCSA.cpp:351-367 | the MMP is at least K long and occurs at both reported positions; its interval is `backward_search` of it; NIP is the divergence of the two positions from depth K; an agreeing seed always yields an interval, and for an ACGT read the MMP length is the longest run over the seed interval |
| Driver.OccurrenceInSeedInterval | src/RapMapCSA.cpp:351-354 | an occurrence in the text of a read prefix at least K long lies at a rank of the seed's interval whose run covers that prefix |
| Driver.NoLongerPrefixOccurs | src/RapMapCSA.cpp:351-354 | over an ACGT read's seed interval, no prefix of the read longer than the longest run occurs anywhere in the text |
| Driver.ProcessRead | src/RapMapCSA.cpp:315-367 | a read is too short exactly when its normalised length is below K, and unmapped exactly when its seed's key is absent (over an ACGT text: exactly when the seed does not occur); a mapped read's MMP occurs at both positions, and over an ACGT text the MMP interval is never empty and no longer prefix of the read occurs in the text |

## Left out

- Building the CSA (SDSL's `csa_wt`, SE_SAIS, and the temporary file written for `construct`, lines 35-45) is not modelled. The index is given as a value, and `SuffixIndex.Valid` states the properties the mapper relies on.
- `backward_search` is modelled by the interval it returns. For an empty result SDSL leaves `l > r` with library-chosen values; the model uses `(|sa|, |sa| - 1)`.
- Reading the reference and the FASTQ file, including the every-fourth-line framing (lines 290-314, 373-380), is I/O and is not modelled. `Driver.ProcessRead` takes one sequence line.
- The `cout` diagnostics are output only and are not modelled. This includes the context windows taken with `substr` (lines 368-371).
- `time_ms` is a wall-clock call and is not modelled.
- No lemma states on its own that the PSI and naive variants return the same interval. Each is proved to reach `Mmp.MaxRun` under its own conditions, so the two agree wherever both sets of conditions hold. Only the naive variant is called from `main`.
- `main` upper-cases the reference line before building the index (line 296). The model takes the index's `text` as that upper-cased line, and `Driver.ProcessRead` scans for the NIP on it.
- Mmp.MmpIntervalPsi: requires `left >= 1`, so that `middle - 1` cannot wrap. It also requires at most 2^31 ranks, so that `left_ + right_` cannot wrap. Seed-table intervals always meet the first (`SeedTable.TableEntries`). The second is an assumption that the reference text is shorter than 2^31 symbols.
- Mmp.MmpIntervalNaive: requires `left >= 1` and at most 2^31 ranks for the same reasons. It also requires `startAt + K <= readSize`, because otherwise the prefix copy reads past the read (see Findings).
- Mmp.MmpIntervalNaive: the longest-run statement holds only when every rank of the seed interval agrees with the read's first K symbols. That always holds over an ACGT text (`Driver.SeedIntervalAgrees`). Otherwise the search starts from runs it has not checked, and only `maxMMP >= K` and the returned interval are stated.
- Mmp.ProbePsi: the longest-run statement needs every symbol of the read from `startAt` on to sort above EOL (`'A' - 1`). A read holding a smaller symbol can send the search to the wrong side. Normalised reads hold only A, C, G and T (`Mmp.AcgtAboveEol`).
- Mmp.ExtendNaive: the `uint32_t` sums `leftPos + LP` and `startAt + LP` are unbounded integers in the model. They cannot wrap for texts and reads shorter than 2^31.
- Mmp.GetCharsPsi: in the source, a rank that falls in no class makes the search over `C` read `C[C.size()]`. The model's class search stops at the last class and returns EOL. On a valid index this branch is unreachable (`Mmp.ClassSearchFinds`).
- Encoding.GetHashKey: requires at most 15 symbols, since longer strings overflow the signed `int`. `main` only passes seeds of at most 8 symbols.
- Driver.ProcessRead: a read shorter than K is reported as `TooShort`; as written it is seeded on its whole length (see Findings). An empty MMP interval is reported as `NoInterval`, where the source would call `getPositionAt` on the unchecked bounds of an empty interval, whose positions bear no relation to the MMP. This cannot happen over an ACGT text.
- Texts and reads are compared as Dafny characters, ordered by code point. The source compares `char` values (lines 140 and 228), which are signed on the usual ABIs, while the index orders bytes unsigned. A reference byte of 0x80 or above would therefore send the source's binary searches the other way from the model's. The model covers ASCII texts only.
- Driver.NipScan: the corrected loop stops when either position reaches the end of the text. The source comment asks for a bound on the read length instead; the model does not add that bound.

## Findings

| source | as written | input that shows it | evidently intended | confidence | as-written member | corrected member |
|---|---|---|---|---|---|---|
| src/RapMapCSA.cpp:361-363 | the NIP loop is bounded by `NIP < line.size()` only and reads `line[pos1+NIP]` and `line[pos2+NIP]` past the end of the text | text "ACGTACGTTT", read "GTACGTTT": the read occurs only at position 2, so `pos1 = pos2 = 2`; at NIP 8 the loop reads the NUL at `line[10]`, and at NIP 9 it reads `line[11]` | stop when either position reaches the end of the text | high; not executed | Driver.NipReadsPastEnd | Driver.NipScan |
| src/RapMapCSA.cpp:338-341 | a read shorter than 8 is seeded on its whole length. Its key can equal a full window's key. `getMMPIntervalNaive` then starts at depth K, past the read, and the copy loop (lines 243-245) reads `read[i]` beyond `readSize` | the read "c" on a text containing "AAAAAAAC": the seed "C" has key 1, the key of "AAAAAAAC", so the lookup succeeds | report the read as unmapped instead of seeding it | high; not executed | Driver.ShortSeedCollides | Driver.ProcessRead |
