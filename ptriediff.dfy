/**
 * Prefix-trie classification helpers (src/ptriediff/ptriediff.py).
 *
 * Two snapshots of a routing table are compared prefix by prefix: a
 * characteristic that holds in the older snapshot only is a loss, in the
 * newer one only a gain, and otherwise it is maintained. The
 * characteristic so compared is how many of the two direct more-specific
 * prefixes (MSPs) a prefix has. The module also counts the addresses that a
 * prefix's nearest more-specifics cover within one trie. Snapshots are
 * loaded from already-parsed records and pruned of low-visibility prefixes.
 */
module PTrieDiff {
  import opened Wrappers
  import opened PrefixTrie

  // ---------------------------------------------------------------------
  // Diff types and their tally
  // ---------------------------------------------------------------------

  datatype DiffType = Gain | Loss | Main

  /** The diff type of a characteristic that matched oldMatch before and newMatch after. */
  function MatchesToDiffType(oldMatch: bool, newMatch: bool): (t: DiffType)
    ensures t == Main <==> oldMatch == newMatch
    ensures t == Loss <==> oldMatch && !newMatch
    ensures t == Gain <==> !oldMatch && newMatch
  {
    if oldMatch == newMatch then Main
    else if oldMatch then Loss
    else Gain
  }

  /** The prefixes gained, lost and maintained in one class. */
  class ClassDiff {
    var gain: nat
    var loss: nat
    var main: nat

    constructor(gain: nat, loss: nat, main: nat)
      ensures this.gain == gain && this.loss == loss && this.main == main
    {
      this.gain := gain;
      this.loss := loss;
      this.main := main;
    }

    function Total(): (n: nat)
      reads this
    {
      gain + loss + main
    }

    /** Counts one prefix of diff type t. */
    method CountChange(t: DiffType)
      modifies this
      ensures gain == old(gain) + (if t == Gain then 1 else 0)
      ensures loss == old(loss) + (if t == Loss then 1 else 0)
      ensures main == old(main) + (if t == Main then 1 else 0)
      ensures Total() == old(Total()) + 1
    {
      match t
      case Gain => gain := gain + 1;
      case Loss => loss := loss + 1;
      case Main => main := main + 1;
    }
  }

  // ---------------------------------------------------------------------
  // Direct more-specifics
  // ---------------------------------------------------------------------

  /** How many prefixes of s are keys. */
  function CountPresent(s: seq<Prefix>, keys: set<Prefix>): (n: nat)
    ensures n <= |s|
  {
    if s == [] then 0
    else CountPresent(s[..|s| - 1], keys) + (if s[|s| - 1] in keys then 1 else 0)
  }

  /**
   * Counts the subnets one bit longer than p that are keys of the trie, the
   * way the repository does it: over ipaddress's subnets of p.
   */
  method CountDirectMsps(keys: set<Prefix>, p: Prefix, maxBits: nat) returns (cnt: nat)
    requires |p| <= maxBits
    ensures cnt == CountPresent(Subnets(p, maxBits), keys)
  {
    cnt := 0;
    var directMsps := Subnets(p, maxBits);
    for i := 0 to |directMsps|
      invariant cnt == CountPresent(directMsps[..i], keys)
    {
      assert directMsps[..i + 1][..i] == directMsps[..i];
      if directMsps[i] in keys {
        cnt := cnt + 1;
      }
    }
    assert directMsps[..|directMsps|] == directMsps;
  }

  /** The two prefixes one bit longer than p; none for a full-length prefix. */
  function DirectMsps(p: Prefix, maxBits: nat): (ds: set<Prefix>)
    requires |p| <= maxBits
    ensures |p| < maxBits ==> ds == {p + [false], p + [true]}
    ensures |p| == maxBits ==> ds == {}
  {
    if |p| < maxBits then {p + [false], p + [true]} else {}
  }

  /** The number of direct MSPs of p that are keys of the trie. */
  function DirectMspCount(keys: set<Prefix>, p: Prefix, maxBits: nat): (n: nat)
    requires |p| <= maxBits
    ensures n == |DirectMsps(p, maxBits) * keys|
    ensures n <= 2
  {
    if |p| == maxBits then 0
    else
      var lo, hi := p + [false], p + [true];
      assert lo != hi by { assert lo[|p|] != hi[|p|]; }
      var present := DirectMsps(p, maxBits) * keys;
      assert present == (if lo in keys then {lo} else {}) + (if hi in keys then {hi} else {});
      (if lo in keys then 1 else 0) + (if hi in keys then 1 else 0)
  }

  /** Below full length the repository's count is the number of direct MSPs present. */
  lemma CountDirectMspsBelowFullLength(keys: set<Prefix>, p: Prefix, maxBits: nat)
    requires |p| < maxBits
    ensures CountPresent(Subnets(p, maxBits), keys) == DirectMspCount(keys, p, maxBits)
  {
    var s := Subnets(p, maxBits);
    assert s[..1][..0] == [] && s[..1] == [p + [false]];
  }

  /** A present full-length prefix is counted as its own direct MSP. */
  lemma HostPrefixCountsItself(keys: set<Prefix>, p: Prefix, maxBits: nat)
    requires |p| == maxBits && p in keys
    ensures CountPresent(Subnets(p, maxBits), keys) == 1
    ensures DirectMspCount(keys, p, maxBits) == 0
  {
    assert Subnets(p, maxBits)[..0] == [];
  }

  /**
   * The classifier of "p has no direct MSP": a gain when p had some in the
   * older snapshot and has none in the newer one, a loss the other way round.
   */
  function HasNoDirectMspCoverage(oldKeys: set<Prefix>, newKeys: set<Prefix>, p: Prefix, maxBits: nat): (t: DiffType)
    requires |p| <= maxBits
    ensures t == Gain <==> DirectMspCount(oldKeys, p, maxBits) != 0 && DirectMspCount(newKeys, p, maxBits) == 0
    ensures t == Loss <==> DirectMspCount(oldKeys, p, maxBits) == 0 && DirectMspCount(newKeys, p, maxBits) != 0
  {
    MatchesToDiffType(DirectMspCount(oldKeys, p, maxBits) == 0, DirectMspCount(newKeys, p, maxBits) == 0)
  }

  /** The classifier of "p has exactly one of its two direct MSPs". */
  function HasPartialDirectMspCoverage(oldKeys: set<Prefix>, newKeys: set<Prefix>, p: Prefix, maxBits: nat): (t: DiffType)
    requires |p| <= maxBits
    ensures t == Gain <==> DirectMspCount(oldKeys, p, maxBits) != 1 && DirectMspCount(newKeys, p, maxBits) == 1
    ensures t == Loss <==> DirectMspCount(oldKeys, p, maxBits) == 1 && DirectMspCount(newKeys, p, maxBits) != 1
  {
    MatchesToDiffType(DirectMspCount(oldKeys, p, maxBits) == 1, DirectMspCount(newKeys, p, maxBits) == 1)
  }

  /** The classifier of "p has both of its direct MSPs". */
  function HasFullDirectMspCoverage(oldKeys: set<Prefix>, newKeys: set<Prefix>, p: Prefix, maxBits: nat): (t: DiffType)
    requires |p| <= maxBits
    ensures t == Gain <==> DirectMspCount(oldKeys, p, maxBits) != 2 && DirectMspCount(newKeys, p, maxBits) == 2
    ensures t == Loss <==> DirectMspCount(oldKeys, p, maxBits) == 2 && DirectMspCount(newKeys, p, maxBits) != 2
  {
    MatchesToDiffType(DirectMspCount(oldKeys, p, maxBits) == 2, DirectMspCount(newKeys, p, maxBits) == 2)
  }

  /** The count the repository's classifiers compare: CountDirectMsps's result. */
  function SubnetCount(keys: set<Prefix>, p: Prefix, maxBits: nat): (n: nat)
    requires |p| <= maxBits
    ensures n <= 2
  {
    CountPresent(Subnets(p, maxBits), keys)
  }

  /** The three classifiers as written, over the count of Subnets(p) present. */
  function HasNoDirectMspCoverageAsWritten(oldKeys: set<Prefix>, newKeys: set<Prefix>, p: Prefix, maxBits: nat): (t: DiffType)
    requires |p| <= maxBits
    ensures t == Gain <==> SubnetCount(oldKeys, p, maxBits) != 0 && SubnetCount(newKeys, p, maxBits) == 0
    ensures t == Loss <==> SubnetCount(oldKeys, p, maxBits) == 0 && SubnetCount(newKeys, p, maxBits) != 0
  {
    MatchesToDiffType(SubnetCount(oldKeys, p, maxBits) == 0, SubnetCount(newKeys, p, maxBits) == 0)
  }

  function HasPartialDirectMspCoverageAsWritten(oldKeys: set<Prefix>, newKeys: set<Prefix>, p: Prefix, maxBits: nat): (t: DiffType)
    requires |p| <= maxBits
    ensures t == Gain <==> SubnetCount(oldKeys, p, maxBits) != 1 && SubnetCount(newKeys, p, maxBits) == 1
    ensures t == Loss <==> SubnetCount(oldKeys, p, maxBits) == 1 && SubnetCount(newKeys, p, maxBits) != 1
  {
    MatchesToDiffType(SubnetCount(oldKeys, p, maxBits) == 1, SubnetCount(newKeys, p, maxBits) == 1)
  }

  function HasFullDirectMspCoverageAsWritten(oldKeys: set<Prefix>, newKeys: set<Prefix>, p: Prefix, maxBits: nat): (t: DiffType)
    requires |p| <= maxBits
    ensures t == Gain <==> SubnetCount(oldKeys, p, maxBits) != 2 && SubnetCount(newKeys, p, maxBits) == 2
    ensures t == Loss <==> SubnetCount(oldKeys, p, maxBits) == 2 && SubnetCount(newKeys, p, maxBits) != 2
  {
    MatchesToDiffType(SubnetCount(oldKeys, p, maxBits) == 2, SubnetCount(newKeys, p, maxBits) == 2)
  }

  /** Below full length the classifiers as written and as intended agree. */
  lemma AsWrittenClassifiersAgree(oldKeys: set<Prefix>, newKeys: set<Prefix>, p: Prefix, maxBits: nat)
    requires |p| < maxBits
    ensures HasNoDirectMspCoverageAsWritten(oldKeys, newKeys, p, maxBits) == HasNoDirectMspCoverage(oldKeys, newKeys, p, maxBits)
    ensures HasPartialDirectMspCoverageAsWritten(oldKeys, newKeys, p, maxBits) == HasPartialDirectMspCoverage(oldKeys, newKeys, p, maxBits)
    ensures HasFullDirectMspCoverageAsWritten(oldKeys, newKeys, p, maxBits) == HasFullDirectMspCoverage(oldKeys, newKeys, p, maxBits)
  {
    CountDirectMspsBelowFullLength(oldKeys, p, maxBits);
    CountDirectMspsBelowFullLength(newKeys, p, maxBits);
  }

  /**
   * A host prefix present in the older snapshot only: as written, it loses
   * partial coverage and gains no coverage; as intended, it has no direct
   * MSP in either snapshot, so every classifier reports Main.
   */
  lemma HostKeyClassifiedAsWritten(p: Prefix)
    requires |p| == 32
    ensures HasNoDirectMspCoverageAsWritten({p}, {}, p, 32) == Gain
    ensures HasPartialDirectMspCoverageAsWritten({p}, {}, p, 32) == Loss
    ensures HasFullDirectMspCoverageAsWritten({p}, {}, p, 32) == Main
    ensures HasNoDirectMspCoverage({p}, {}, p, 32) == Main
    ensures HasPartialDirectMspCoverage({p}, {}, p, 32) == Main
    ensures HasFullDirectMspCoverage({p}, {}, p, 32) == Main
  {
    HostPrefixCountsItself({p}, p, 32);
    assert Subnets(p, 32)[..0] == [];
  }

  /** The three classifiers' verdicts on p. */
  function CoverageDiffs(oldKeys: set<Prefix>, newKeys: set<Prefix>, p: Prefix, maxBits: nat): (ds: multiset<DiffType>)
    requires |p| <= maxBits
  {
    multiset{HasNoDirectMspCoverage(oldKeys, newKeys, p, maxBits),
             HasPartialDirectMspCoverage(oldKeys, newKeys, p, maxBits),
             HasFullDirectMspCoverage(oldKeys, newKeys, p, maxBits)}
  }

  /**
   * All three classifiers report Main exactly when the number of direct MSPs
   * is the same in both snapshots; otherwise one reports Gain, one Loss and
   * one Main: the class of the new count gains p and that of the old count
   * loses it.
   */
  lemma CoverageDiffsPartition(oldKeys: set<Prefix>, newKeys: set<Prefix>, p: Prefix, maxBits: nat)
    requires |p| <= maxBits
    ensures var o, n := DirectMspCount(oldKeys, p, maxBits), DirectMspCount(newKeys, p, maxBits);
      && (o == n <==> CoverageDiffs(oldKeys, newKeys, p, maxBits) == multiset{Main, Main, Main})
      && (o != n <==> CoverageDiffs(oldKeys, newKeys, p, maxBits) == multiset{Gain, Loss, Main})
  {
    var o, n := DirectMspCount(oldKeys, p, maxBits), DirectMspCount(newKeys, p, maxBits);
    assert CoverageDiffs(oldKeys, newKeys, p, maxBits) == CountDiffs(o, n);
    CountDiffsPartition(o, n);
  }

  /** The classifiers as written partition their verdicts in the same way over their own count. */
  lemma AsWrittenDiffsPartition(oldKeys: set<Prefix>, newKeys: set<Prefix>, p: Prefix, maxBits: nat)
    requires |p| <= maxBits
    ensures var o, n := SubnetCount(oldKeys, p, maxBits), SubnetCount(newKeys, p, maxBits);
      var d := multiset{HasNoDirectMspCoverageAsWritten(oldKeys, newKeys, p, maxBits),
                        HasPartialDirectMspCoverageAsWritten(oldKeys, newKeys, p, maxBits),
                        HasFullDirectMspCoverageAsWritten(oldKeys, newKeys, p, maxBits)};
      && (o == n <==> d == multiset{Main, Main, Main})
      && (o != n <==> d == multiset{Gain, Loss, Main})
  {
    var o, n := SubnetCount(oldKeys, p, maxBits), SubnetCount(newKeys, p, maxBits);
    assert multiset{HasNoDirectMspCoverageAsWritten(oldKeys, newKeys, p, maxBits),
                    HasPartialDirectMspCoverageAsWritten(oldKeys, newKeys, p, maxBits),
                    HasFullDirectMspCoverageAsWritten(oldKeys, newKeys, p, maxBits)} == CountDiffs(o, n);
    CountDiffsPartition(o, n);
  }

  /** The verdicts of the three classifiers on counts o and n. */
  function CountDiffs(o: nat, n: nat): (ds: multiset<DiffType>)
    ensures |ds| == 3
  {
    multiset{MatchesToDiffType(o == 0, n == 0), MatchesToDiffType(o == 1, n == 1), MatchesToDiffType(o == 2, n == 2)}
  }

  lemma CountDiffsPartition(o: nat, n: nat)
    requires o <= 2 && n <= 2
    ensures o == n <==> CountDiffs(o, n) == multiset{Main, Main, Main}
    ensures o != n <==> CountDiffs(o, n) == multiset{Gain, Loss, Main}
  {
    var d := CountDiffs(o, n);
    if o == n {
      assert d == multiset{Main, Main, Main};
    } else {
      assert d == multiset{Gain, Loss, Main};
      assert d[Main] == 1;
    }
  }

  /** The repository's twelve classifier tests on a /24 and its /25 halves. */
  lemma CoverageVectors(p: Prefix)
    requires |p| == 24
    ensures HasNoDirectMspCoverage({p, p + [false]}, {p}, p, 32) == Gain
    ensures HasNoDirectMspCoverage({p}, {p, p + [false]}, p, 32) == Loss
    ensures HasNoDirectMspCoverage({p, p + [false]}, {p, p + [false]}, p, 32) == Main
    ensures HasNoDirectMspCoverage({p}, {p}, p, 32) == Main
    ensures HasPartialDirectMspCoverage({p}, {p, p + [false]}, p, 32) == Gain
    ensures HasPartialDirectMspCoverage({p, p + [false]}, {p}, p, 32) == Loss
    ensures HasPartialDirectMspCoverage({p}, {p}, p, 32) == Main
    ensures HasPartialDirectMspCoverage({p, p + [false]}, {p, p + [false]}, p, 32) == Main
    ensures HasFullDirectMspCoverage({p, p + [true]}, {p, p + [false], p + [true]}, p, 32) == Gain
    ensures HasFullDirectMspCoverage({p, p + [false], p + [true]}, {p, p + [true]}, p, 32) == Loss
    ensures HasFullDirectMspCoverage({p, p + [true]}, {p, p + [true]}, p, 32) == Main
    ensures HasFullDirectMspCoverage({p, p + [false], p + [true]}, {p, p + [false], p + [true]}, p, 32) == Main
  {
    var lo, hi := p + [false], p + [true];
    assert p != lo && p != hi && lo != hi by { assert lo[24] != hi[24]; }
  }

  // ---------------------------------------------------------------------
  // Addresses covered by the nearest more-specifics
  // ---------------------------------------------------------------------

  datatype Version = V4 | V6

  /** The address width of an IP version. */
  function MaxBits(v: Version): (n: nat)
  {
    if v == V4 then 32 else 128
  }

  /**
   * Adds up the addresses of the children of p whose parent is p itself;
   * p and the more-specifics of its more-specifics are skipped.
   */
  method CountMspCoveredAddresses(keys: set<Prefix>, p: Prefix, v: Version) returns (cnt: nat)
    requires Bounded(keys, MaxBits(v)) && |p| <= MaxBits(v)
    ensures cnt == AddressSum(DirectChildren(keys, p), MaxBits(v))
    ensures cnt <= AddressCount(p, MaxBits(v))
  {
    var maxcidr := MaxBits(v);
    cnt := 0;
    var rest := Children(keys, p);
    ghost var counted: set<Prefix> := {};
    assert Visiting(keys, p, rest, counted, cnt, maxcidr);
    while rest != {}
      invariant Visiting(keys, p, rest, counted, cnt, maxcidr)
      decreases |rest|
    {
      var msp :| msp in rest;
      CoveredStep(keys, p, rest, counted, cnt, msp, maxcidr);
      rest := rest - {msp};
      if Parent(keys, msp) != Some(p) {
        continue;
      }
      counted := counted + {msp};
      cnt := cnt + Pow2(maxcidr - |msp|);
    }
    assert counted == DirectChildren(keys, p);
    DirectChildrenBound(keys, p, maxcidr);
  }

  /**
   * Midway through the children of p: rest is still to visit, counted holds
   * the direct children already visited, and cnt is their address sum.
   */
  ghost predicate Visiting(keys: set<Prefix>, p: Prefix, rest: set<Prefix>, counted: set<Prefix>, cnt: nat, maxBits: nat)
  {
    && rest <= Children(keys, p)
    && counted == DirectChildren(keys, p) - rest
    && Bounded(counted, maxBits)
    && cnt == AddressSum(counted, maxBits)
  }

  /** Visiting one child msp: it is counted exactly when its parent is p. */
  lemma CoveredStep(keys: set<Prefix>, p: Prefix, rest: set<Prefix>, counted: set<Prefix>, cnt: nat, msp: Prefix, maxBits: nat)
    requires Bounded(keys, maxBits)
    requires Visiting(keys, p, rest, counted, cnt, maxBits) && msp in rest
    ensures |msp| <= maxBits
    ensures Parent(keys, msp) == Some(p) ==>
      Visiting(keys, p, rest - {msp}, counted + {msp}, cnt + Pow2(maxBits - |msp|), maxBits)
    ensures Parent(keys, msp) != Some(p) ==> Visiting(keys, p, rest - {msp}, counted, cnt, maxBits)
  {
    assert msp !in counted;
    if Parent(keys, msp) == Some(p) {
      assert counted + {msp} == DirectChildren(keys, p) - (rest - {msp});
      AddressSumAdd(counted, maxBits, msp);
    } else {
      assert counted == DirectChildren(keys, p) - (rest - {msp});
    }
  }

  lemma AddressSumAdd(s: set<Prefix>, maxBits: nat, c: Prefix)
    requires Bounded(s, maxBits) && |c| <= maxBits && c !in s
    ensures Bounded(s + {c}, maxBits)
    ensures AddressSum(s + {c}, maxBits) == AddressSum(s, maxBits) + AddressCount(c, maxBits)
  {
    AddressSumRemove(s + {c}, maxBits, c);
    assert s + {c} - {c} == s;
  }

  lemma Pow2Values()
    ensures Pow2(6) == 64 && Pow2(7) == 128 && Pow2(8) == 256
  {
  }

  lemma AddressSumPair(a: Prefix, b: Prefix, maxBits: nat)
    requires a != b && |a| <= maxBits && |b| <= maxBits
    ensures AddressSum({a, b}, maxBits) == AddressCount(a, maxBits) + AddressCount(b, maxBits)
  {
    AddressSumRemove({a, b}, maxBits, a);
    assert {a, b} - {a} == {b};
    AddressSumSingleton(b, maxBits);
  }

  /** Both /25 halves of a /24 cover all of its 256 addresses. */
  lemma FullCoverVector(p: Prefix)
    requires |p| == 24
    ensures AddressSum(DirectChildren({p, p + [false], p + [true]}, p), 32) == 256
  {
    var lo, hi := p + [false], p + [true];
    var keys := {p, lo, hi};
    assert lo != hi by { assert lo[24] != hi[24]; }
    assert lo[..24] == p && hi[..24] == p;
    assert Parent(keys, lo) == Some(p) && Parent(keys, hi) == Some(p);
    assert DirectChildren(keys, p) == {lo, hi};
    AddressSumPair(lo, hi, 32);
    Pow2Values();
  }

  /** One /25 half covers 128 addresses of its /24. */
  lemma HalfCoverVector(p: Prefix)
    requires |p| == 24
    ensures AddressSum(DirectChildren({p, p + [false]}, p), 32) == 128
  {
    var lo := p + [false];
    var keys := {p, lo};
    assert lo[..24] == p;
    assert Parent(keys, lo) == Some(p);
    assert DirectChildren(keys, p) == {lo};
    AddressSumSingleton(lo, 32);
    Pow2Values();
  }

  /** A /25 and a /26 in the other half: 128 + 64 addresses. */
  lemma ThreeQuarterCoverVector(p: Prefix)
    requires |p| == 24
    ensures AddressSum(DirectChildren({p, p + [false], p + [true, false]}, p), 32) == 192
  {
    var lo, q := p + [false], p + [true, false];
    var keys := {p, lo, q};
    assert lo != q by { assert lo[24] != q[24]; }
    assert lo[..24] == p && q[..24] == p;
    assert q[..25] != lo by { assert q[..25][24] != lo[24]; }
    assert q[..25] !in keys;
    assert Parent(keys, lo) == Some(p) && Parent(keys, q) == Some(p);
    assert DirectChildren(keys, p) == {lo, q};
    AddressSumPair(lo, q, 32);
    Pow2Values();
  }

  /** A prefix outside the /24 covers none of its addresses. */
  lemma NoCoverVector(p: Prefix, q: Prefix)
    requires |p| == 24 && |q| == 25 && !Covers(p, q)
    ensures AddressSum(DirectChildren({p, q}, p), 32) == 0
  {
    assert DirectChildren({p, q}, p) == {};
  }

  // ---------------------------------------------------------------------
  // Snapshots and the low-visibility filter
  // ---------------------------------------------------------------------

  /** What the trie stores for a prefix. */
  datatype PytMeta = PytMeta(originAsn: int, visAsn: int, visNhop: int)

  /** The largest whole number not above maxVis * num / den. */
  function Threshold(maxVis: nat, num: nat, den: nat): (t: nat)
    requires den > 0
    ensures t * den <= maxVis * num < t * den + den
  {
    FloorDiv(maxVis * num, den)
  }

  /** A threshold taken with a fraction below one never exceeds the maximum. */
  lemma ThresholdAtMostMax(maxVis: nat, num: nat, den: nat)
    requires num < den
    ensures Threshold(maxVis, num, den) <= maxVis
  {
    var t := Threshold(maxVis, num, den);
    MulMonotone(num, den, maxVis);
    assert maxVis * num == num * maxVis && maxVis * den == den * maxVis;
    assert (maxVis + 1) * den == maxVis * den + den;
    if t > maxVis {
      MulMonotone(maxVis + 1, t, den);
      assert false;
    }
  }

  predicate Visible(m: PytMeta, threshAsn: int, threshNhop: int)
  {
    m.visAsn >= threshAsn && m.visNhop >= threshNhop
  }

  /** The entries of pyt that fall short of either threshold. */
  function LowVisibility(pyt: map<Prefix, PytMeta>, threshAsn: int, threshNhop: int): (low: set<Prefix>)
    ensures low <= pyt.Keys
  {
    set q | q in pyt && !Visible(pyt[q], threshAsn, threshNhop)
  }

  /** The trie without its low-visibility entries. */
  function KeepVisible(pyt: map<Prefix, PytMeta>, threshAsn: int, threshNhop: int): (r: map<Prefix, PytMeta>)
    ensures forall q :: q in r <==> q in pyt && Visible(pyt[q], threshAsn, threshNhop)
    ensures forall q :: q in r ==> r[q] == pyt[q]
  {
    map q | q in pyt && Visible(pyt[q], threshAsn, threshNhop) :: pyt[q]
  }

  /** Filtering removes exactly the low-visibility entries. */
  lemma RemovalCount(pyt: map<Prefix, PytMeta>, threshAsn: int, threshNhop: int)
    ensures KeepVisible(pyt, threshAsn, threshNhop).Keys == pyt.Keys - LowVisibility(pyt, threshAsn, threshNhop)
    ensures |pyt| - |KeepVisible(pyt, threshAsn, threshNhop)| == |LowVisibility(pyt, threshAsn, threshNhop)|
  {
    var kept := KeepVisible(pyt, threshAsn, threshNhop).Keys;
    var low := LowVisibility(pyt, threshAsn, threshNhop);
    assert kept == pyt.Keys - low;
    assert pyt.Keys == kept + low;
    assert |pyt.Keys| == |kept| + |low|;
  }

  /** Filtering twice with the same thresholds removes nothing more. */
  lemma KeepVisibleIdempotent(pyt: map<Prefix, PytMeta>, threshAsn: int, threshNhop: int)
    ensures KeepVisible(KeepVisible(pyt, threshAsn, threshNhop), threshAsn, threshNhop)
         == KeepVisible(pyt, threshAsn, threshNhop)
  {
  }

  /**
   * An entry seen by as many peers and next hops as the snapshot's maxima
   * survives any fraction below one.
   */
  lemma MostVisibleSurvives(pyt: map<Prefix, PytMeta>, q: Prefix, maxVisAsn: nat, maxVisNhop: nat, num: nat, den: nat)
    requires num < den && q in pyt
    requires pyt[q].visAsn >= maxVisAsn && pyt[q].visNhop >= maxVisNhop
    ensures q in KeepVisible(pyt, Threshold(maxVisAsn, num, den), Threshold(maxVisNhop, num, den))
  {
    ThresholdAtMostMax(maxVisAsn, num, den);
    ThresholdAtMostMax(maxVisNhop, num, den);
  }

  /** With a fraction of zero every entry with non-negative counts stays. */
  lemma ZeroFractionKeepsAll(pyt: map<Prefix, PytMeta>, maxVisAsn: nat, maxVisNhop: nat, den: nat)
    requires den > 0
    requires forall q :: q in pyt ==> pyt[q].visAsn >= 0 && pyt[q].visNhop >= 0
    ensures KeepVisible(pyt, Threshold(maxVisAsn, 0, den), Threshold(maxVisNhop, 0, den)) == pyt
  {
    assert Threshold(maxVisAsn, 0, den) == 0 && Threshold(maxVisNhop, 0, den) == 0;
  }

  /** Lists, once each, the entries of pyt that fall short of either threshold. */
  method CollectLowVisibility(pyt: map<Prefix, PytMeta>, threshAsn: int, threshNhop: int)
    returns (toRemove: seq<Prefix>)
    ensures forall q :: q in toRemove <==> q in LowVisibility(pyt, threshAsn, threshNhop)
    ensures |toRemove| == |LowVisibility(pyt, threshAsn, threshNhop)|
  {
    toRemove := [];
    var rest := pyt.Keys;
    ghost var listed: set<Prefix> := {};
    while rest != {}
      invariant rest <= pyt.Keys
      invariant listed == LowVisibility(pyt, threshAsn, threshNhop) - rest
      invariant forall q :: q in toRemove <==> q in listed
      invariant |toRemove| == |listed|
      decreases |rest|
    {
      var pfx :| pfx in rest;
      rest := rest - {pfx};
      var meta := pyt[pfx];
      if meta.visAsn >= threshAsn && meta.visNhop >= threshNhop {
        continue;
      }
      toRemove := toRemove + [pfx];
      listed := listed + {pfx};
    }
  }

  /** Deletes every listed prefix from pyt. */
  method DeletePrefixes(pyt: map<Prefix, PytMeta>, toRemove: seq<Prefix>) returns (r: map<Prefix, PytMeta>)
    ensures forall q :: q in r <==> q in pyt && q !in toRemove
    ensures forall q :: q in r ==> r[q] == pyt[q]
  {
    r := pyt;
    for j := 0 to |toRemove|
      invariant forall q :: q in r <==> q in pyt && q !in toRemove[..j]
      invariant forall q :: q in r ==> r[q] == pyt[q]
    {
      assert toRemove[..j + 1] == toRemove[..j] + [toRemove[j]];
      r := r - {toRemove[j]};
    }
    assert toRemove[..|toRemove|] == toRemove;
  }

  /** A loaded trie of one IP version with its visibility maxima. */
  class Snapshot {
    var pyt: map<Prefix, PytMeta>
    const version: Version
    const maxVisAsn: nat
    const maxVisNhop: nat

    constructor(pyt: map<Prefix, PytMeta>, version: Version, maxVisAsn: nat, maxVisNhop: nat)
      ensures this.pyt == pyt && this.version == version
      ensures this.maxVisAsn == maxVisAsn && this.maxVisNhop == maxVisNhop
    {
      this.pyt := pyt;
      this.version := version;
      this.maxVisAsn := maxVisAsn;
      this.maxVisNhop := maxVisNhop;
    }

    /**
     * Removes the prefixes seen by fewer than the fraction visNum / visDen of
     * the snapshot's maximum peer ASNs or next hops, and returns how many
     * were removed; the fraction must lie in [0, 1).
     */
    method RemoveLowVisPfxs(visNum: int, visDen: nat) returns (r: Result<nat>)
      requires visDen > 0
      modifies this
      ensures r.ValueError? <==> !(0 <= visNum < visDen)
      ensures r.ValueError? ==> pyt == old(pyt)
      ensures r.Ok? ==> pyt == KeepVisible(old(pyt),
        Threshold(maxVisAsn, visNum, visDen), Threshold(maxVisNhop, visNum, visDen))
      ensures r.Ok? ==> r.value == |old(pyt)| - |pyt|
    {
      if !(0 <= visNum < visDen) {
        return ValueError("vis_frac must be in interval [0|1)");
      }
      var threshAsn := Threshold(maxVisAsn, visNum, visDen);
      var threshNhop := Threshold(maxVisNhop, visNum, visDen);
      var toRemove := CollectLowVisibility(pyt, threshAsn, threshNhop);
      var kept := DeletePrefixes(pyt, toRemove);
      RemovalCount(pyt, threshAsn, threshNhop);
      assert kept == KeepVisible(pyt, threshAsn, threshNhop);
      pyt := kept;
      r := Ok(|toRemove|);
    }
  }

  // ---------------------------------------------------------------------
  // Loading tries from parsed records
  // ---------------------------------------------------------------------

  /** One parsed line of a prefix-to-origin file. */
  datatype Record = Record(pfx: Prefix, version: Version, meta: PytMeta)

  /** A trie being loaded and the running maxima of the records inserted into it. */
  datatype Table = Table(pyt: map<Prefix, PytMeta>, maxVisAsn: nat, maxVisNhop: nat)

  /** The prefix of r is already present with more peer ASNs. */
  predicate Skips(t: Table, r: Record)
  {
    r.pfx in t.pyt && t.pyt[r.pfx].visAsn > r.meta.visAsn
  }

  /**
   * One insertion step: a record is skipped when its prefix is already
   * present with more peer ASNs; otherwise it overwrites the entry and
   * raises the maxima.
   */
  function Insert(t: Table, r: Record): (t': Table)
  {
    if Skips(t, r) then t
    else Table(t.pyt[r.pfx := r.meta], Max(t.maxVisAsn, r.meta.visAsn), Max(t.maxVisNhop, r.meta.visNhop))
  }

  /** The table of version v after inserting records in order. */
  function LoadTable(records: seq<Record>, v: Version): (tbl: Table)
  {
    if records == [] then Table(map[], 0, 0)
    else
      var t := LoadTable(records[..|records| - 1], v);
      var r := records[|records| - 1];
      if r.version == v then Insert(t, r) else t
  }

  /** Builds the IPv4 and IPv6 snapshots from the parsed records. */
  method LoadPfxTries(records: seq<Record>) returns (snap4: Snapshot, snap6: Snapshot)
    ensures fresh(snap4) && fresh(snap6)
    ensures snap4.version == V4 && snap4.pyt == LoadTable(records, V4).pyt
    ensures snap4.maxVisAsn == LoadTable(records, V4).maxVisAsn
    ensures snap4.maxVisNhop == LoadTable(records, V4).maxVisNhop
    ensures snap6.version == V6 && snap6.pyt == LoadTable(records, V6).pyt
    ensures snap6.maxVisAsn == LoadTable(records, V6).maxVisAsn
    ensures snap6.maxVisNhop == LoadTable(records, V6).maxVisNhop
  {
    var pyt4: map<Prefix, PytMeta>, pyt6: map<Prefix, PytMeta> := map[], map[];
    var maxVisAsnV4: nat, maxVisAsnV6: nat, maxVisNhopV4: nat, maxVisNhopV6: nat := 0, 0, 0, 0;
    for i := 0 to |records|
      invariant Table(pyt4, maxVisAsnV4, maxVisNhopV4) == LoadTable(records[..i], V4)
      invariant Table(pyt6, maxVisAsnV6, maxVisNhopV6) == LoadTable(records[..i], V6)
    {
      assert records[..i + 1][..i] == records[..i];
      var r := records[i];
      if r.version == V4 {
        if r.pfx in pyt4 && pyt4[r.pfx].visAsn > r.meta.visAsn {
          continue;
        }
        pyt4 := pyt4[r.pfx := r.meta];
        maxVisAsnV4 := Max(maxVisAsnV4, r.meta.visAsn);
        maxVisNhopV4 := Max(maxVisNhopV4, r.meta.visNhop);
      } else {
        if r.pfx in pyt6 && pyt6[r.pfx].visAsn > r.meta.visAsn {
          continue;
        }
        pyt6 := pyt6[r.pfx := r.meta];
        maxVisAsnV6 := Max(maxVisAsnV6, r.meta.visAsn);
        maxVisNhopV6 := Max(maxVisNhopV6, r.meta.visNhop);
      }
    }
    assert records[..|records|] == records;
    snap4 := new Snapshot(pyt4, V4, maxVisAsnV4, maxVisNhopV4);
    snap6 := new Snapshot(pyt6, V6, maxVisAsnV6, maxVisNhopV6);
  }

  predicate Matches(r: Record, v: Version, p: Prefix)
  {
    r.version == v && r.pfx == p
  }

  /** A prefix is in the table exactly when some record of that version carries it. */
  lemma {:induction false} LoadedKeys(records: seq<Record>, v: Version, p: Prefix)
    ensures p in LoadTable(records, v).pyt <==> exists i :: 0 <= i < |records| && Matches(records[i], v, p)
  {
    if records != [] {
      var init := records[..|records| - 1];
      LoadedKeys(init, v, p);
      if exists i :: 0 <= i < |init| && Matches(init[i], v, p) {
        var i :| 0 <= i < |init| && Matches(init[i], v, p);
        assert Matches(records[i], v, p);
      }
      if exists i :: 0 <= i < |records| && Matches(records[i], v, p) {
        var i :| 0 <= i < |records| && Matches(records[i], v, p);
        if i < |init| {
          assert Matches(init[i], v, p);
        }
      }
    }
  }

  /**
   * Each entry comes from a record of its prefix with the most peer ASNs,
   * and from the last of those: every later record of the prefix has fewer.
   */
  lemma {:induction false} LoadedEntry(records: seq<Record>, v: Version, p: Prefix)
    requires p in LoadTable(records, v).pyt
    ensures forall j :: 0 <= j < |records| && Matches(records[j], v, p) ==>
      records[j].meta.visAsn <= LoadTable(records, v).pyt[p].visAsn
    ensures exists i :: (0 <= i < |records| && Matches(records[i], v, p)
      && records[i].meta == LoadTable(records, v).pyt[p]
      && forall j :: i < j < |records| && Matches(records[j], v, p) ==>
           records[j].meta.visAsn < LoadTable(records, v).pyt[p].visAsn)
  {
    var n := |records| - 1;
    var init, r := records[..n], records[n];
    var t, e := LoadTable(init, v), LoadTable(records, v).pyt[p];
    assert forall j :: 0 <= j < n ==> records[j] == init[j];
    if Matches(r, v, p) && !(p in t.pyt && t.pyt[p].visAsn > r.meta.visAsn) {
      // r is inserted and becomes the entry.
      assert e == r.meta;
      if p in t.pyt {
        LoadedEntry(init, v, p);
      } else {
        LoadedKeys(init, v, p);
      }
      assert records[n].meta == e;
    } else {
      // The entry of p is the one loaded from init.
      assert p in t.pyt && e == t.pyt[p];
      LoadedEntry(init, v, p);
      var i :| 0 <= i < n && Matches(init[i], v, p) && init[i].meta == e
        && forall j :: i < j < n && Matches(init[j], v, p) ==> init[j].meta.visAsn < e.visAsn;
      assert records[i] == init[i];
    }
  }

  /**
   * The ASN maximum is that of the entries themselves: no entry exceeds it,
   * and it is attained by one unless it is still 0; no entry exceeds the
   * next-hop maximum either.
   */
  lemma {:induction false} LoadedMaxima(records: seq<Record>, v: Version)
    ensures forall q :: q in LoadTable(records, v).pyt ==>
      LoadTable(records, v).pyt[q].visAsn <= LoadTable(records, v).maxVisAsn
      && LoadTable(records, v).pyt[q].visNhop <= LoadTable(records, v).maxVisNhop
    ensures LoadTable(records, v).maxVisAsn == 0
      || exists q :: q in LoadTable(records, v).pyt && LoadTable(records, v).pyt[q].visAsn == LoadTable(records, v).maxVisAsn
  {
    if records != [] {
      var init, r := records[..|records| - 1], records[|records| - 1];
      LoadedMaxima(init, v);
      var t := LoadTable(init, v);
      if r.version == v && !(r.pfx in t.pyt && t.pyt[r.pfx].visAsn > r.meta.visAsn) {
        var t' := Insert(t, r);
        if t'.maxVisAsn == r.meta.visAsn {
          assert r.pfx in t'.pyt && t'.pyt[r.pfx].visAsn == t'.maxVisAsn;
        } else if t'.maxVisAsn != 0 {
          var q :| q in t.pyt && t.pyt[q].visAsn == t.maxVisAsn;
          assert q != r.pfx;
          assert q in t'.pyt && t'.pyt[q].visAsn == t'.maxVisAsn;
        }
      }
    }
  }

  /** Record i is of version v and is not skipped when it comes to be inserted. */
  predicate Inserted(records: seq<Record>, v: Version, i: nat)
    requires i < |records|
  {
    records[i].version == v && !Skips(LoadTable(records[..i], v), records[i])
  }

  /** Whether a record is inserted depends only on it and the records before it. */
  lemma InsertedInPrefix(records: seq<Record>, v: Version, i: nat)
    requires i < |records| - 1
    ensures Inserted(records, v, i) == Inserted(records[..|records| - 1], v, i)
  {
    assert records[..|records| - 1][..i] == records[..i];
  }

  /**
   * Both maxima are moved by inserted records only: each is at least the
   * value of every record inserted, and it is 0 or the value of one of them.
   */
  lemma {:induction false} MaximaFromInserted(records: seq<Record>, v: Version)
    ensures forall i :: 0 <= i < |records| && Inserted(records, v, i) ==>
      records[i].meta.visAsn <= LoadTable(records, v).maxVisAsn
      && records[i].meta.visNhop <= LoadTable(records, v).maxVisNhop
    ensures LoadTable(records, v).maxVisAsn == 0
      || exists i :: 0 <= i < |records| && Inserted(records, v, i) && records[i].meta.visAsn == LoadTable(records, v).maxVisAsn
    ensures LoadTable(records, v).maxVisNhop == 0
      || exists i :: 0 <= i < |records| && Inserted(records, v, i) && records[i].meta.visNhop == LoadTable(records, v).maxVisNhop
  {
    if records != [] {
      var n := |records| - 1;
      var init, r := records[..n], records[n];
      MaximaFromInserted(init, v);
      var t, t' := LoadTable(init, v), LoadTable(records, v);
      assert init == records[..n];
      forall i | 0 <= i < n
        ensures Inserted(records, v, i) == Inserted(init, v, i) && records[i] == init[i]
      {
        InsertedInPrefix(records, v, i);
      }
      if Inserted(records, v, n) {
        assert t' == Insert(t, r);
        if t'.maxVisAsn != r.meta.visAsn && t'.maxVisAsn != 0 {
          var i :| 0 <= i < n && Inserted(init, v, i) && init[i].meta.visAsn == t.maxVisAsn;
          assert Inserted(records, v, i);
        }
        if t'.maxVisNhop != r.meta.visNhop && t'.maxVisNhop != 0 {
          var i :| 0 <= i < n && Inserted(init, v, i) && init[i].meta.visNhop == t.maxVisNhop;
          assert Inserted(records, v, i);
        }
      } else {
        assert t' == t;
        if t.maxVisAsn != 0 {
          var i :| 0 <= i < n && Inserted(init, v, i) && init[i].meta.visAsn == t.maxVisAsn;
          assert Inserted(records, v, i);
        }
        if t.maxVisNhop != 0 {
          var i :| 0 <= i < n && Inserted(init, v, i) && init[i].meta.visNhop == t.maxVisNhop;
          assert Inserted(records, v, i);
        }
      }
    }
  }

  /**
   * A skipped record leaves no trace, not even in the maxima: after a record
   * with 5 peer ASNs and 1 next hop, one for the same prefix with 3 peer ASNs
   * and 100 next hops changes nothing.
   */
  lemma SkippedRecordVector(p: Prefix)
    ensures LoadTable([Record(p, V4, PytMeta(1, 5, 1)), Record(p, V4, PytMeta(2, 3, 100))], V4)
         == Table(map[p := PytMeta(1, 5, 1)], 5, 1)
  {
    var rs := [Record(p, V4, PytMeta(1, 5, 1)), Record(p, V4, PytMeta(2, 3, 100))];
    assert rs[..1] == [rs[0]] && rs[..1][..0] == [];
    assert LoadTable(rs[..1], V4) == Table(map[p := PytMeta(1, 5, 1)], 5, 1);
  }

  /** Between records with as many peer ASNs the later one wins. */
  lemma TieGoesToLaterVector(p: Prefix)
    ensures LoadTable([Record(p, V4, PytMeta(1, 5, 1)), Record(p, V4, PytMeta(2, 5, 7))], V4)
         == Table(map[p := PytMeta(2, 5, 7)], 5, 7)
  {
    var rs := [Record(p, V4, PytMeta(1, 5, 1)), Record(p, V4, PytMeta(2, 5, 7))];
    assert rs[..1] == [rs[0]] && rs[..1][..0] == [];
    assert LoadTable(rs[..1], V4) == Table(map[p := PytMeta(1, 5, 1)], 5, 1);
    assert map[p := PytMeta(1, 5, 1)][p := PytMeta(2, 5, 7)] == map[p := PytMeta(2, 5, 7)];
  }

  /**
   * The next-hop maximum can outlive the entry that set it: a record with
   * more peer ASNs but fewer next hops replaces it.
   */
  lemma NhopMaximumOutlivesEntry(p: Prefix)
    ensures LoadTable([Record(p, V4, PytMeta(1, 3, 100)), Record(p, V4, PytMeta(2, 5, 1))], V4)
         == Table(map[p := PytMeta(2, 5, 1)], 5, 100)
  {
    var rs := [Record(p, V4, PytMeta(1, 3, 100)), Record(p, V4, PytMeta(2, 5, 1))];
    assert rs[..1] == [rs[0]] && rs[..1][..0] == [];
    assert LoadTable(rs[..1], V4) == Table(map[p := PytMeta(1, 3, 100)], 3, 100);
    assert map[p := PytMeta(1, 3, 100)][p := PytMeta(2, 5, 1)] == map[p := PytMeta(2, 5, 1)];
  }
}
