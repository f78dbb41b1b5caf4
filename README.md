# routetales analysis cores in Dafny

This project models two analysis cores of the routetales repository.

**Burn-rate calculator** (`src/pfxburnrate/pfxburnrate.py`)
- `BurnRateCalculator` keeps a ring buffer of the last `k` prefix snapshots and a counter of how often each prefix occurs in them. The counter is updated incrementally.
- Once `k` snapshots have been seen, every `advance` reports:
  - the smallest snapshot size;
  - the mean snapshot size, rounded;
  - the largest snapshot size;
  - the number of distinct prefixes in the window.
- `date_iter` lists the days of an inclusive range.

**Prefix-trie classification helpers** (`src/ptriediff/ptriediff.py`)
- A prefix is compared across two routing-table snapshots. A characteristic that holds only in the older snapshot is a loss, one that holds only in the newer snapshot is a gain, and anything else is maintained.
- The characteristic so compared is how many direct more-specific prefixes (MSPs, the two one-bit-longer halves) a prefix has.
- Separately, the module counts how many addresses a prefix's nearest more-specifics cover within one trie. No comparison uses this count: the address-coverage classifier is a stub.
- Snapshots are loaded from parsed records, resolving two records for the same prefix by peer visibility. They can then be pruned of prefixes with low visibility.

Files:
- `wrappers.dfy` (module `Wrappers`): `Option`, `Result` with a `ValueError` case, and `Max`/`Min`. It also holds `FloorDiv`, the whole-number quotient used for Python's `int()` of a non-negative product.
- `burnrate.dfy` (module `BurnRate`): the calculator as a class and the functions that specify what it reports.
  - Fields: the buffer (`snapshots`), the ring index (`idx`), the counter (`counter`, a `map`) and a ghost `history` of all inputs.
  - Its invariant `Valid()` has two parts:
    - the buffer read from `idx` is exactly the last `min(n, k)` inputs;
    - the counter is `CounterOf(Tally(snapshots))`: every key of the window mapped to its number of occurrences, which is at least 1.
- `prefix_trie.dfy` (module `PrefixTrie`): an abstract PyTricia trie.
  - A prefix is its network bits (`seq<bool>`), and a trie is its key set.
  - `Children(p)` are the keys that p strictly covers. `Parent(c)` is the longest key that strictly covers c.
  - `AddressSum` adds address counts over a set of prefixes, and `AntichainBound` bounds it.
- `ptriediff.dfy` (module `PTrieDiff`): diff types, `ClassDiff`, the direct-MSP counters and classifiers, the covered-address count, the `Snapshot` class with its visibility filter, and the insertion fold of `load_pfx_tries`.

All source paths below are relative to the repository root.

## Model

| member | source | states |
|---|---|---|
| BurnRate.NewCalculator | src/pfxburnrate/pfxburnrate.py:29-34 | `ValueError` exactly when k == 0; otherwise a fresh, valid calculator with window k and no history |
| BurnRate.BurnRateCalculator.constructor | src/pfxburnrate/pfxburnrate.py:29-34 | a valid calculator with window k, an empty buffer and an empty counter |
| BurnRate.BurnRateCalculator.Advance | src/pfxburnrate/pfxburnrate.py:36-64 | the input joins the history and the invariant is kept; the snapshot is appended or overwrites the oldest slot as in `Push`; the result is None exactly while fewer than k snapshots have been seen, and otherwise the `Summary` of the last k inputs; the counter represents the keys of the window |
| BurnRate.BurnRateCalculator.Push | src/pfxburnrate/pfxburnrate.py:37-48 | one more input in the history; a buffer that is not full gets the snapshot appended with the index unchanged, a full one gets the oldest slot replaced and the index moved on; the invariant is kept |
| BurnRate.BurnRateCalculator.Append | src/pfxburnrate/pfxburnrate.py:38-41 | a buffer that is not full becomes the old buffer followed by the snapshot, the index stays, and the invariant is kept |
| BurnRate.BurnRateCalculator.Overwrite | src/pfxburnrate/pfxburnrate.py:43-48 | on a full buffer the slot at the old index, the oldest, now holds the snapshot and no other slot changes; the index becomes (idx + 1) mod k; the counter and the buffer read from the new index still represent the last k inputs |
| BurnRate.BurnRateCalculator.CountSnapshot | src/pfxburnrate/pfxburnrate.py:67-69 | a counter representing m comes to represent m plus the keys of data |
| BurnRate.BurnRateCalculator.DecountSnapshot | src/pfxburnrate/pfxburnrate.py:72-80 | a counter representing m comes to represent m minus the keys of data; no zero count remains |
| BurnRate.DecountStep | src/pfxburnrate/pfxburnrate.py:74-77 | taking one occurrence off keeps every count equal to the remaining occurrences and lists exactly the keys that reached zero |
| BurnRate.DeleteKeys | src/pfxburnrate/pfxburnrate.py:79-80 | the result holds exactly the keys of c that are not listed, with unchanged counts |
| BurnRate.ZeroesDeleted | src/pfxburnrate/pfxburnrate.py:79-80 | once the zero counts are deleted, the counter is exactly the occurrence map of m - d |
| BurnRate.CounterOf | src/pfxburnrate/pfxburnrate.py:20-21 | exactly the keys of the multiset, each mapped to its number of occurrences, which is at least 1 |
| BurnRate.CounterOfAdd | src/pfxburnrate/pfxburnrate.py:69 | one more occurrence of x adds one to its count, or adds x with count 1 |
| BurnRate.NextSlot | src/pfxburnrate/pfxburnrate.py:48 | the next slot is (i + 1) mod k and stays below k |
| BurnRate.Recent | src/pfxburnrate/pfxburnrate.py:38-48 | the last min(length of h, k) inputs, as a suffix of h |
| BurnRate.WindowTally | src/pfxburnrate/pfxburnrate.py:45-48 | reading the ring from any slot sees the same keys, and as many snapshots |
| BurnRate.OverwriteWindow | src/pfxburnrate/pfxburnrate.py:45-48 | if the buffer read from slot i is the last k inputs, then after overwriting slot i with d and moving on, it is the last k inputs including d |
| BurnRate.TallyUpdate | src/pfxburnrate/pfxburnrate.py:45-47 | overwriting a slot takes that snapshot's keys out of the tally and puts the new keys in |
| BurnRate.TallyHas | src/pfxburnrate/pfxburnrate.py:45 | a buffered snapshot's keys are part of the tally, so counting them out never goes below zero |
| BurnRate.SnapshotSizes | src/pfxburnrate/pfxburnrate.py:55-60 | the loop yields the minimum, the maximum and the total snapshot size of the window |
| BurnRate.MaxSize | src/pfxburnrate/pfxburnrate.py:55-58 | an upper bound on every snapshot size that some snapshot attains |
| BurnRate.MinSize | src/pfxburnrate/pfxburnrate.py:55-59 | a lower bound on every snapshot size that some snapshot attains |
| BurnRate.RoundHalfEven | src/pfxburnrate/pfxburnrate.py:61 | within one half of n / d, with an exact tie going to the even neighbour |
| BurnRate.FullBufferSummary | src/pfxburnrate/pfxburnrate.py:54-64 | the figures of the full buffer, with the counter's size as the distinct-key count, equal the `Summary` of the last k inputs |
| BurnRate.CounterKeys | src/pfxburnrate/pfxburnrate.py:62 | the counter has as many entries as the window has distinct keys |
| BurnRate.SummaryRotate | src/pfxburnrate/pfxburnrate.py:54-62 | the reported figures do not depend on which slot the ring starts at |
| BurnRate.SizeBounds | src/pfxburnrate/pfxburnrate.py:55-60 | the total size lies between k times the minimum and k times the maximum |
| BurnRate.MeanWithinBounds | src/pfxburnrate/pfxburnrate.py:55-61 | the reported minimum is at most the rounded mean, and the rounded mean at most the maximum |
| BurnRate.RoundedWithin | src/pfxburnrate/pfxburnrate.py:61 | rounding n / d stays between integer bounds of n / d |
| BurnRate.DistinctKeysAreWindowKeys | src/pfxburnrate/pfxburnrate.py:62 | a key is counted as distinct exactly when some buffered snapshot holds it, so evicted keys no longer count |
| BurnRate.UniqAtLeastMax | src/pfxburnrate/pfxburnrate.py:58-62 | when no snapshot repeats a key, the distinct-key count is at least the largest snapshot size |
| BurnRate.RepeatedKeyBelowMax | src/pfxburnrate/pfxburnrate.py:58-62 | a snapshot that repeats a key has more entries than distinct keys |
| BurnRate.BarelyFilledVector | src/pfxburnrate/pfxburnrate_test.py:22-28 | the window of four test snapshots sums up to (4, 2, 3, 3, 7) |
| BurnRate.FirstRolloverVector | src/pfxburnrate/pfxburnrate_test.py:30-36 | the first three test snapshots sum up to (3, 3, 3, 3, 7) |
| BurnRate.SecondRolloverVector | src/pfxburnrate/pfxburnrate_test.py:30-37 | the last three test snapshots sum up to (3, 2, 3, 3, 5) |
| BurnRate.AllTestKeys | src/pfxburnrate/pfxburnrate_test.py:7-11 | the four test snapshots hold 7 distinct keys |
| BurnRate.FeedAll | src/pfxburnrate/pfxburnrate.py:36-64 | feeding snapshots one by one to a fresh calculator yields `Run`: None until k have been seen, and then the summary of the last k |
| BurnRate.RunSnoc | src/pfxburnrate/pfxburnrate.py:36-64 | one more input appends exactly one result to the run |
| BurnRate.NotFullExample | src/pfxburnrate/pfxburnrate_test.py:17-20 | a window of five over the four test snapshots yields None four times |
| BurnRate.BarelyFilledExample | src/pfxburnrate/pfxburnrate_test.py:22-28 | a window of four yields None three times, then (4, 2, 3, 3, 7) |
| BurnRate.RolloverRun | src/pfxburnrate/pfxburnrate_test.py:30-37 | a window of three yields None twice, then (3, 3, 3, 3, 7), then (3, 2, 3, 3, 5) |
| BurnRate.RolloverExample | src/pfxburnrate/pfxburnrate_test.py:30-37 | the rollover test run through the calculator gives those four results |
| BurnRate.DateIter | src/pfxburnrate/pfxburnrate.py:83-85 | end - start + 1 consecutive day numbers from start, or none when end precedes start |
| BurnRate.DateIterEndpoints | src/pfxburnrate/pfxburnrate.py:83-85 | a non-empty range starts at start and ends at end |
| BurnRate.DateIterVectors | src/pfxburnrate/pfxburnrate_test.py:40-54 | a single day yields one day, three days yield three, and a 34-day span (1 January to 3 February) yields 34 |
| PrefixTrie.CoversIsSeqPrefix | src/ptriediff/ptriediff.py:111-113 | covering is the sequence-prefix order on the bits, strict for strict covering |
| PrefixTrie.Subnets | src/ptriediff/ptriediff.py:99 | both one-bit-longer halves, or the prefix itself at full length |
| PrefixTrie.Children | src/ptriediff/ptriediff.py:111 | exactly the keys that p strictly covers |
| PrefixTrie.LongestCoverBelow | src/ptriediff/ptriediff.py:113 | the longest key among the first n truncations of c, and None when none of them is a key |
| PrefixTrie.ParentIsNearestCover | src/ptriediff/ptriediff.py:113 | the parent strictly covers c and no key strictly covering c is longer; None exactly when no key strictly covers c |
| PrefixTrie.DirectChildren | src/ptriediff/ptriediff.py:111-114 | the children of p whose parent is p, a subset of the children |
| PrefixTrie.DirectChildrenAntichain | src/ptriediff/ptriediff.py:112 | no direct child covers another, so none is counted twice |
| PrefixTrie.AntichainBound | src/ptriediff/ptriediff.py:112-116 | prefixes under p, none of which covers another, hold at most the addresses of p |
| PrefixTrie.DirectChildrenBound | src/ptriediff/ptriediff.py:112-116 | the direct children of p hold at most the addresses of p |
| PrefixTrie.AddressSumUnion | src/ptriediff/ptriediff.py:116 | the address sum over two disjoint sets is the sum of their sums |
| PTrieDiff.MatchesToDiffType | src/ptriediff/ptriediff.py:81-95 | Main iff both flags agree, Loss iff only the old flag holds, Gain iff only the new flag holds |
| PTrieDiff.ClassDiff.constructor | src/ptriediff/ptriediff.py:23-30 | the three tallies take the given values |
| PTrieDiff.ClassDiff.CountChange | src/ptriediff/ptriediff.py:32-40 | exactly the tally named by t goes up by one, the others stay, and the total grows by one |
| PTrieDiff.CountDirectMsps | src/ptriediff/ptriediff.py:97-103 | the loop counts how many of `Subnets(p)` are keys, as the code does |
| PTrieDiff.CountPresent | src/ptriediff/ptriediff.py:100-102 | at most as many as there are candidates |
| PTrieDiff.DirectMsps | src/ptriediff/ptriediff.py:99 | the two one-bit-longer halves below full length, none at full length |
| PTrieDiff.DirectMspCount | src/ptriediff/ptriediff.py:97-103 | the number of direct MSPs of p that are keys, in {0, 1, 2} |
| PTrieDiff.CountDirectMspsBelowFullLength | src/ptriediff/ptriediff.py:97-103 | below full length the code's count is the number of direct MSPs present |
| PTrieDiff.HostPrefixCountsItself | src/ptriediff/ptriediff.py:97-103 | a full-length prefix that is a key is counted once by the code, but has no direct MSP |
| PTrieDiff.HasNoDirectMspCoverage | src/ptriediff/ptriediff.py:121-125 | Gain exactly when p had some direct MSP before and has none after, Loss exactly the other way round, and Main otherwise; counted with the corrected `DirectMspCount` |
| PTrieDiff.HasPartialDirectMspCoverage | src/ptriediff/ptriediff.py:128-132 | Gain exactly when p has one direct MSP after but not before, Loss exactly when it had one before but not after; corrected count |
| PTrieDiff.HasFullDirectMspCoverage | src/ptriediff/ptriediff.py:134-138 | Gain exactly when p has both direct MSPs after but not before, Loss exactly when it had both before but not after; corrected count |
| PTrieDiff.SubnetCount | src/ptriediff/ptriediff.py:97-103 | the count the code's classifiers compare, that of `CountDirectMsps`; at most 2 |
| PTrieDiff.HasNoDirectMspCoverageAsWritten | src/ptriediff/ptriediff.py:121-125 | the no-coverage classifier as written: Gain and Loss as above, over the code's count of `Subnets(p)` present |
| PTrieDiff.HasPartialDirectMspCoverageAsWritten | src/ptriediff/ptriediff.py:128-132 | the partial-coverage classifier as written, over the code's count |
| PTrieDiff.HasFullDirectMspCoverageAsWritten | src/ptriediff/ptriediff.py:134-138 | the full-coverage classifier as written, over the code's count |
| PTrieDiff.AsWrittenClassifiersAgree | src/ptriediff/ptriediff.py:97-138 | below full length each classifier as written gives the same verdict as the corrected one |
| PTrieDiff.HostKeyClassifiedAsWritten | src/ptriediff/ptriediff.py:97-138 | a /32 key in the older trie only: as written, no coverage is gained and partial coverage lost; corrected, all three report Main |
| PTrieDiff.AsWrittenDiffsPartition | src/ptriediff/ptriediff.py:121-138 | the classifiers as written also say Main three times iff their counts agree, and Gain, Loss and Main once each otherwise |
| PTrieDiff.CountDiffsPartition | src/ptriediff/ptriediff.py:121-138 | for counts o and n in {0, 1, 2}, the three verdicts are all Main iff o == n, and Gain, Loss and Main once each otherwise |
| PTrieDiff.CoverageDiffsPartition | src/ptriediff/ptriediff.py:121-138 | all three classifiers say Main iff the direct-MSP count is the same in both snapshots; otherwise they say Gain, Loss and Main once each |
| PTrieDiff.CoverageVectors | src/ptriediff/ptriediff_test.py:54-151 | all twelve classifier tests (gain, loss, main with neither and main with both, for each of the three classifiers) on a /24 with its /25 halves |
| PTrieDiff.CountMspCoveredAddresses | src/ptriediff/ptriediff.py:105-117 | the addresses of the children whose parent is p, added up; never more than the addresses of p |
| PTrieDiff.CoveredStep | src/ptriediff/ptriediff.py:111-116 | visiting one child counts it exactly when its parent is p, keeping the running sum equal to the sum over the direct children visited |
| PTrieDiff.AddressSumAdd | src/ptriediff/ptriediff.py:116 | adding a new prefix adds its address count to the sum |
| PTrieDiff.FullCoverVector | src/ptriediff/ptriediff_test.py:154-158 | both /25 halves of a /24 cover 256 addresses |
| PTrieDiff.HalfCoverVector | src/ptriediff/ptriediff_test.py:160-164 | one /25 half covers 128 addresses |
| PTrieDiff.ThreeQuarterCoverVector | src/ptriediff/ptriediff_test.py:166-170 | a /25 and a /26 in the other half cover 192 addresses |
| PTrieDiff.NoCoverVector | src/ptriediff/ptriediff_test.py:172-176 | a key outside the /24 covers none of its addresses |
| PTrieDiff.Threshold | src/ptriediff/ptriediff.py:195-196 | the whole part of max × num / den |
| PTrieDiff.ThresholdAtMostMax | src/ptriediff/ptriediff.py:191-196 | with a fraction below one the threshold never exceeds the maximum |
| PTrieDiff.LowVisibility | src/ptriediff/ptriediff.py:198-204 | the entries of the trie that fall short of either threshold |
| PTrieDiff.KeepVisible | src/ptriediff/ptriediff.py:198-208 | exactly the entries meeting both thresholds, with their metadata unchanged |
| PTrieDiff.RemovalCount | src/ptriediff/ptriediff.py:206-211 | filtering removes exactly the low-visibility entries, and the size drops by their number |
| PTrieDiff.KeepVisibleIdempotent | src/ptriediff/ptriediff.py:198-208 | filtering twice with the same thresholds removes nothing more |
| PTrieDiff.MostVisibleSurvives | src/ptriediff/ptriediff.py:194-204 | an entry matching both visibility maxima survives any fraction below one |
| PTrieDiff.ZeroFractionKeepsAll | src/ptriediff/ptriediff.py:194-204 | a fraction of zero keeps every entry with non-negative counts |
| PTrieDiff.CollectLowVisibility | src/ptriediff/ptriediff.py:198-204 | the list holds exactly the low-visibility entries, each once |
| PTrieDiff.DeletePrefixes | src/ptriediff/ptriediff.py:206-208 | exactly the listed entries are gone, and the others keep their metadata |
| PTrieDiff.Snapshot.constructor | src/ptriediff/ptriediff.py:165-174 | trie, version and maxima take the given values |
| PTrieDiff.Snapshot.RemoveLowVisPfxs | src/ptriediff/ptriediff.py:176-211 | `ValueError`, with the trie unchanged, exactly when the fraction is outside [0, 1); otherwise the trie becomes `KeepVisible` with the whole-part thresholds, and the result is the number of entries removed |
| PTrieDiff.LoadPfxTries | src/ptriediff/ptriediff.py:259-279 | the IPv4 and IPv6 snapshots are the insertion folds of the records of each version, with their running maxima |
| PTrieDiff.LoadedKeys | src/ptriediff/ptriediff.py:259-266 | a prefix is in the trie exactly when a record of that version carries it |
| PTrieDiff.LoadedEntry | src/ptriediff/ptriediff.py:263-266 | the stored entry has the most peer ASNs among the records of its prefix and comes from the last such record: every later record has fewer |
| PTrieDiff.LoadedMaxima | src/ptriediff/ptriediff.py:268-274 | no entry exceeds either maximum, and the ASN maximum is 0 or attained by an entry |
| PTrieDiff.MaximaFromInserted | src/ptriediff/ptriediff.py:263-274 | each maximum is at least the value of every record that was inserted, and is 0 or the value of some inserted record: skipped records never move it |
| PTrieDiff.SkippedRecordVector | src/ptriediff/ptriediff.py:263-274 | a skipped record changes neither the trie nor the maxima |
| PTrieDiff.TieGoesToLaterVector | src/ptriediff/ptriediff.py:263-266 | between two records with as many peer ASNs the later one wins |
| PTrieDiff.NhopMaximumOutlivesEntry | src/ptriediff/ptriediff.py:264-274 | the next-hop maximum can outlive the entry that set it, when a record with more peer ASNs but fewer next hops replaces that entry |

## Left out

- File input and parsing in `load_pfx_tries` (src/ptriediff/ptriediff.py:214-257) are I/O. This covers bz2 decompression, comment and column handling, integer and `ipaddress` parsing, and logging. `LoadPfxTries` takes already-parsed records.
- `has_address_msp_coverage` and `forward_diff_pyts` (src/ptriediff/ptriediff.py:140-141, 152-153) are stubs without bodies.
- `ClassTracker`, `PfxFowardDiff` and `AsLevelFowardDiff` are records of `ClassDiff` fields with no behaviour. The dataclass quirks are not modelled: `InitVar` fields, shared mutable defaults, and the duplicated field.
- The command-line scripts `src/ptriediff/pfx_fwd_diff_runner.py` and `src/pfxburnrate/executor.py` are plumbing around the cores. They are not part of this model.
- The module-level demo at src/ptriediff/ptriediff.py:282-290 reads a file and prints, so it is not modelled.
- PyTricia's internal trie structure is not modelled. A trie is its set of keys (or a `map` from keys to metadata), so only the results of `children`, `parent`, `has_key`, `insert` and deletion are represented.
- Iteration order over the trie and over its children is not modelled. Both loops are order-independent (a sum and a filter), and the model visits elements in an arbitrary order.
- BurnRate.NewCalculator: negative `k` is not representable, because `k` is a `nat`. The code does not reject a negative `k`; such a calculator would fail on its first `advance`.
- BurnRate.RoundHalfEven: the mean is the exact round-half-to-even of sum / k, not Python's rounding of the float quotient. The two coincide whenever the quotient is exactly representable.
- The calculator stores snapshots as immutable sequences. A caller that mutates a list after passing it to `advance` would change the Python buffer, and that aliasing is not modelled.
- PTrieDiff.Snapshot.RemoveLowVisPfxs: `vis_frac` is the exact fraction visNum / visDen rather than a float, so floating-point rounding of `max_vis * vis_frac` is not modelled.
- PTrieDiff.CountMspCoveredAddresses: when p is not a key, PyTricia's `children` raises `KeyError`. In the model no key then has p as its parent, so the count is 0.
- PTrieDiff.ClassDiff.CountChange: an unknown `DiffType` cannot be built in Dafny, so the `ValueError` branch (src/ptriediff/ptriediff.py:39-40) has no counterpart.
- The prefix version is a `Version` datatype (V4 or V6) rather than the integers 4 and 6.
- `BurnRateResult.label` is always the empty string. It is kept as the last field `labelText`.

## Findings

| source | as written | input that shows it | evidently intended | confidence | as-written member | corrected member |
|---|---|---|---|---|---|---|
| src/ptriediff/ptriediff.py:97-103 | `count_direct_msps` counts the keys among `pfx.subnets(prefixlen_diff=1)`, and for a full-length prefix `ipaddress` yields the prefix itself | a trie holding the host prefix 192.0.2.1/32, asked about 192.0.2.1/32: the count is 1, so `has_partial_direct_msp_coverage` reports one direct MSP; with the key in the older trie only, it reports LOSS and `has_no_direct_msp_coverage` reports GAIN | a host prefix has no direct more-specific, so the count is 0 and all three classifiers report MAIN for it | not executed; follows from `ipaddress`'s documented `subnets` behaviour | PTrieDiff.CountDirectMsps, PTrieDiff.HostPrefixCountsItself, PTrieDiff.HasNoDirectMspCoverageAsWritten, PTrieDiff.HasPartialDirectMspCoverageAsWritten, PTrieDiff.HostKeyClassifiedAsWritten | PTrieDiff.DirectMspCount, PTrieDiff.HasNoDirectMspCoverage, PTrieDiff.HasPartialDirectMspCoverage, PTrieDiff.HasFullDirectMspCoverage |
