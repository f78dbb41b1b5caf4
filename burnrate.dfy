/**
 * Sliding-window burn-rate calculator (src/pfxburnrate/pfxburnrate.py).
 *
 * A calculator keeps a ring buffer of the last k key collections (prefix
 * lists) and, beside it, an occurrence counter that is updated incrementally:
 * every key of an arriving collection is counted in, every key of the evicted
 * collection is counted out, and a key whose count drops to zero is deleted.
 * Once the buffer is full each call reports the minimum, rounded mean and
 * maximum collection size and the number of distinct keys in the window.
 */
module BurnRate {
  import opened Wrappers

  /** A tracked key, e.g. a prefix in its textual form. */
  type Key = string

  datatype BurnRateResult = BurnRateResult(
    k: nat,
    pfxCntMin: nat,
    pfxCntMean: nat,
    pfxCntMax: nat,
    pfxCntUniq: nat,
    labelText: string)

  // ---------------------------------------------------------------------
  // Specification of the figures reported for a window of snapshots
  // ---------------------------------------------------------------------

  /** Total number of keys over all snapshots of the window (duplicates count). */
  function SumSizes(w: seq<seq<Key>>): (n: nat)
  {
    if w == [] then 0 else SumSizes(w[..|w| - 1]) + |w[|w| - 1]|
  }

  /** Largest snapshot size; 0 for an empty window. */
  function MaxSize(w: seq<seq<Key>>): (m: nat)
    ensures forall i :: 0 <= i < |w| ==> |w[i]| <= m
    ensures w != [] ==> exists i :: 0 <= i < |w| && |w[i]| == m
    ensures w == [] ==> m == 0
  {
    if w == [] then 0
    else
      var init := w[..|w| - 1];
      assert forall i :: 0 <= i < |init| ==> init[i] == w[i];
      Max(MaxSize(init), |w[|w| - 1]|)
  }

  /** Smallest snapshot size of a non-empty window. */
  function MinSize(w: seq<seq<Key>>): (m: nat)
    requires w != []
    ensures forall i :: 0 <= i < |w| ==> m <= |w[i]|
    ensures exists i :: 0 <= i < |w| && |w[i]| == m
  {
    if |w| == 1 then |w[0]|
    else
      var init := w[..|w| - 1];
      assert forall i :: 0 <= i < |init| ==> init[i] == w[i];
      Min(MinSize(init), |w[|w| - 1]|)
  }

  /** All keys of the window with their number of occurrences. */
  function Tally(w: seq<seq<Key>>): (m: multiset<Key>)
  {
    if w == [] then multiset{} else Tally(w[..|w| - 1]) + multiset(w[|w| - 1])
  }

  /** The distinct keys currently in the window. */
  function DistinctKeys(w: seq<seq<Key>>): (ks: set<Key>)
  {
    set x | x in Tally(w)
  }

  /**
   * Round-half-to-even of n / d, the rounding of Python's round() on an
   * exactly representable quotient: the result is within one half of n / d,
   * and an exact tie goes to the even neighbour.
   */
  function RoundHalfEven(n: nat, d: nat): (r: nat)
    requires d > 0
    ensures (2 * r - 1) * d <= 2 * n <= (2 * r + 1) * d
    ensures 2 * n == (2 * r - 1) * d || 2 * n == (2 * r + 1) * d ==> r % 2 == 0
  {
    var q := FloorDiv(n, d);
    var rem := n - q * d;
    assert 2 * n == 2 * (q * d) + 2 * rem;
    assert (2 * q + 1) * d == 2 * (q * d) + d;
    assert (2 * q - 1) * d == 2 * (q * d) - d;
    assert (2 * q + 3) * d == 2 * (q * d) + 3 * d;
    if 2 * rem < d then q
    else if 2 * rem > d then q + 1
    else if q % 2 == 0 then q
    else q + 1
  }

  /** What the calculator reports for a full window w of k snapshots. */
  function Summary(k: nat, w: seq<seq<Key>>): (res: BurnRateResult)
    requires k > 0 && |w| == k
  {
    BurnRateResult(k, MinSize(w), RoundHalfEven(SumSizes(w), k), MaxSize(w), |DistinctKeys(w)|, "")
  }

  /** The last min(|h|, k) elements of h, oldest first. */
  function Recent(h: seq<seq<Key>>, k: nat): (r: seq<seq<Key>>)
    ensures |r| == if |h| <= k then |h| else k
    ensures r == h[|h| - |r|..]
  {
    if |h| <= k then h else h[|h| - k..]
  }

  // ---------------------------------------------------------------------
  // The occurrence counter as a function of the buffered keys
  // ---------------------------------------------------------------------

  /**
   * The counter that represents the multiset m: exactly the keys of m,
   * each mapped to its (positive) number of occurrences.
   */
  function CounterOf(m: multiset<Key>): (c: map<Key, nat>)
    ensures forall x :: x in c <==> x in m
    ensures forall x :: x in c ==> c[x] == m[x] && c[x] >= 1
  {
    map x | x in m :: m[x]
  }

  lemma CounterOfAdd(m: multiset<Key>, x: Key)
    ensures CounterOf(m + multiset{x}) == CounterOf(m)[x := m[x] + 1]
  {
    var a, b := CounterOf(m + multiset{x}), CounterOf(m)[x := m[x] + 1];
    assert forall y :: y in a <==> y in b;
    assert forall y :: y in a ==> a[y] == b[y];
  }

  // ---------------------------------------------------------------------
  // The calculator
  // ---------------------------------------------------------------------

  class BurnRateCalculator {
    /** Number of snapshots in the window. */
    const k: nat
    /** Ring buffer of the current snapshots. */
    var snapshots: seq<seq<Key>>
    /** Slot of the oldest snapshot once the buffer is full. */
    var idx: nat
    /** Occurrences of each key across the buffered snapshots. */
    var counter: map<Key, nat>
    /** Every collection ever passed to Advance, oldest first. */
    ghost var history: seq<seq<Key>>

    /** The buffered snapshots, oldest first. */
    ghost function Window(): (w: seq<seq<Key>>)
      reads this
      requires idx <= |snapshots|
    {
      snapshots[idx..] + snapshots[..idx]
    }

    ghost predicate Valid()
      reads this
    {
      && k > 0
      && |snapshots| <= k
      && idx < k
      && (|snapshots| < k ==> idx == 0)
      && Window() == Recent(history, k)
      && counter == CounterOf(Tally(snapshots))
    }

    constructor(k: nat)
      requires k > 0
      ensures Valid()
      ensures this.k == k && history == [] && snapshots == [] && counter == map[]
    {
      this.k := k;
      snapshots := [];
      idx := 0;
      counter := map[];
      history := [];
      assert CounterOf(Tally([])) == map[];
    }

    /**
     * Pushes one snapshot into the window. Returns None while fewer than k
     * snapshots have been seen, and from the k-th call on the figures of the
     * last k snapshots.
     */
    method Advance(data: seq<Key>) returns (r: Option<BurnRateResult>)
      requires Valid()
      modifies this
      ensures Valid()
      ensures history == old(history) + [data]
      ensures counter == CounterOf(Tally(Window()))
      ensures old(|snapshots|) < k ==> snapshots == old(snapshots) + [data] && idx == old(idx)
      ensures old(|snapshots|) == k ==>
        snapshots == old(snapshots)[old(idx) := data] && idx == NextSlot(old(idx), k)
      ensures r.None? <==> |history| < k
      ensures r.Some? ==> r.value == Summary(k, Recent(history, k))
    {
      Push(data);
      WindowTally(snapshots, idx);

      // Not full yet, return None.
      if |snapshots| != k {
        return None;
      }

      var cntMin, cntMax, cntCs := SnapshotSizes(snapshots);
      var cntMean := RoundHalfEven(cntCs, k);
      var cntUniq := |counter|;
      FullBufferSummary(snapshots, idx, counter, history, k);
      r := Some(BurnRateResult(k, cntMin, cntMean, cntMax, cntUniq, ""));
    }

    /** Stores data in the ring buffer and keeps the key counter in step. */
    method Push(data: seq<Key>)
      requires Valid()
      modifies this
      ensures Valid()
      ensures history == old(history) + [data]
      ensures old(|snapshots|) < k ==> snapshots == old(snapshots) + [data] && idx == old(idx)
      ensures old(|snapshots|) == k ==>
        snapshots == old(snapshots)[old(idx) := data] && idx == NextSlot(old(idx), k)
    {
      if |snapshots| < k {
        Append(data);
      } else {
        Overwrite(data);
      }
    }

    /** Not full yet: the snapshot goes after the others. */
    method Append(data: seq<Key>)
      requires Valid() && |snapshots| < k
      modifies this
      ensures Valid()
      ensures history == old(history) + [data]
      ensures snapshots == old(snapshots) + [data] && idx == old(idx)
    {
      ghost var w0 := snapshots;
      assert w0 == Window() by { assert w0[0..] + w0[..0] == w0; }
      CountSnapshot(data, Tally(w0));
      snapshots := snapshots + [data];
      assert snapshots[..|snapshots| - 1] == w0;
      history := history + [data];
      assert snapshots[0..] + snapshots[..0] == snapshots;
    }

    /** Full: count out the oldest snapshot, count in the new one, replace it. */
    method Overwrite(data: seq<Key>)
      requires Valid() && |snapshots| == k
      modifies this
      ensures Valid()
      ensures history == old(history) + [data]
      ensures snapshots == old(snapshots)[old(idx) := data] && idx == NextSlot(old(idx), k)
    {
      TallyHas(snapshots, idx);
      DecountSnapshot(snapshots[idx], Tally(snapshots));
      CountSnapshot(data, Tally(snapshots) - multiset(snapshots[idx]));
      TallyUpdate(snapshots, idx, data);
      OverwriteWindow(snapshots, idx, data, history, k);
      snapshots := snapshots[idx := data];
      idx := NextSlot(idx, k);
      history := history + [data];
    }

    /** Counts every key of data in: one more occurrence each. */
    method CountSnapshot(data: seq<Key>, ghost m: multiset<Key>)
      requires counter == CounterOf(m)
      modifies this`counter
      ensures counter == CounterOf(m + multiset(data))
    {
      var c := counter;
      for i := 0 to |data|
        invariant c == CounterOf(m + multiset(data[..i]))
      {
        var pfx := data[i];
        ghost var mi := m + multiset(data[..i]);
        assert (if pfx in c then c[pfx] else 0) == mi[pfx];
        CounterOfAdd(mi, pfx);
        c := c[pfx := (if pfx in c then c[pfx] else 0) + 1];
        assert data[..i + 1] == data[..i] + [pfx];
        assert m + multiset(data[..i + 1]) == mi + multiset{pfx};
      }
      assert data[..|data|] == data;
      counter := c;
    }

    /**
     * Counts every key of data out, then deletes the keys whose count
     * reached zero; data must be one of the buffered snapshots.
     */
    method DecountSnapshot(data: seq<Key>, ghost m: multiset<Key>)
      requires counter == CounterOf(m)
      requires multiset(data) <= m
      modifies this`counter
      ensures counter == CounterOf(m - multiset(data))
    {
      var c := counter;
      var pfxToDelete: seq<Key> := [];
      for i := 0 to |data|
        invariant multiset(data[..i]) <= m
        invariant Decounting(c, m, multiset(data[..i]), pfxToDelete)
      {
        var pfx := data[i];
        PrefixMultiset(data, i, m);
        DecountStep(c, m, multiset(data[..i]), pfxToDelete, pfx);
        c := c[pfx := c[pfx] - 1];
        if c[pfx] == 0 {
          pfxToDelete := pfxToDelete + [pfx];
        }
      }
      assert data[..|data|] == data;
      ghost var mid := c;
      c := DeleteKeys(c, pfxToDelete);
      ZeroesDeleted(mid, c, multiset(data), m);
      counter := c;
    }
  }

  /** The slot after i in a ring of k slots. */
  function NextSlot(i: nat, k: nat): (j: nat)
    requires i < k
    ensures j < k
    ensures j == (i + 1) % k
  {
    if i + 1 < k then i + 1 else 0
  }

  /** Reading the ring buffer from any slot sees the same keys. */
  lemma WindowTally(s: seq<seq<Key>>, i: nat)
    requires i <= |s|
    ensures |s[i..] + s[..i]| == |s|
    ensures Tally(s[i..] + s[..i]) == Tally(s)
  {
    TallyConcat(s[..i], s[i..]);
    TallyConcat(s[i..], s[..i]);
    assert s[..i] + s[i..] == s;
  }

  /** A full buffer read from slot i summarises the last k snapshots. */
  lemma FullBufferSummary(s: seq<seq<Key>>, i: nat, c: map<Key, nat>, h: seq<seq<Key>>, k: nat)
    requires k > 0 && |s| == k && i <= k
    requires s[i..] + s[..i] == Recent(h, k)
    requires c == CounterOf(Tally(s))
    ensures Summary(k, Recent(h, k))
         == BurnRateResult(k, MinSize(s), RoundHalfEven(SumSizes(s), k), MaxSize(s), |c|, "")
  {
    CounterKeys(Tally(s));
    SummaryRotate(s[..i], s[i..]);
    assert s[..i] + s[i..] == s;
  }

  /** The keys of the counter are the distinct keys counted. */
  lemma CounterKeys(m: multiset<Key>)
    ensures |CounterOf(m)| == |set x | x in m|
  {
    assert CounterOf(m).Keys == set x | x in m;
  }

  /** How the figures of the first i + 1 snapshots follow from those of the first i. */
  lemma SizesStep(w: seq<seq<Key>>, i: nat)
    requires i < |w|
    ensures SumSizes(w[..i + 1]) == SumSizes(w[..i]) + |w[i]|
    ensures MaxSize(w[..i + 1]) == Max(MaxSize(w[..i]), |w[i]|)
    ensures i > 0 ==> MinSize(w[..i + 1]) == Min(MinSize(w[..i]), |w[i]|)
    ensures i == 0 ==> MinSize(w[..i + 1]) == |w[0]|
  {
    assert w[..i + 1][..i] == w[..i];
  }

  /** The smallest, largest and total number of keys per snapshot of w. */
  method SnapshotSizes(w: seq<seq<Key>>) returns (cntMin: nat, cntMax: nat, cntCs: nat)
    requires w != []
    ensures cntMin == MinSize(w) && cntMax == MaxSize(w) && cntCs == SumSizes(w)
  {
    cntMin, cntMax, cntCs := |w[0]|, 0, 0;
    for i := 0 to |w|
      invariant cntMin == if i == 0 then |w[0]| else MinSize(w[..i])
      invariant cntMax == MaxSize(w[..i])
      invariant cntCs == SumSizes(w[..i])
    {
      var n := |w[i]|;
      SizesStep(w, i);
      cntMax := Max(cntMax, n);
      cntMin := Min(cntMin, n);
      cntCs := cntCs + n;
    }
    assert w[..|w|] == w;
  }

  /** Deletes every key listed in keys from the counter c. */
  method DeleteKeys(c: map<Key, nat>, keys: seq<Key>) returns (r: map<Key, nat>)
    ensures forall x :: x in r <==> x in c && x !in keys
    ensures forall x :: x in r ==> r[x] == c[x]
  {
    r := c;
    for j := 0 to |keys|
      invariant forall x :: x in r <==> x in c && x !in keys[..j]
      invariant forall x :: x in r ==> r[x] == c[x]
    {
      assert keys[..j + 1] == keys[..j] + [keys[j]];
      r := r - {keys[j]};
    }
    assert keys[..|keys|] == keys;
  }

  /**
   * Midway through decounting: c holds m's keys with the counts of done taken
   * off, and zeros lists exactly the keys whose count has reached zero.
   */
  ghost predicate Decounting(c: map<Key, nat>, m: multiset<Key>, done: multiset<Key>, zeros: seq<Key>)
  {
    && (forall x :: x in c <==> x in m)
    && (forall x :: x in c ==> c[x] + done[x] == m[x])
    && (forall x :: x in zeros <==> x in c && c[x] == 0)
  }

  /** Decounting one more occurrence of x keeps the bookkeeping right. */
  lemma DecountStep(c: map<Key, nat>, m: multiset<Key>, done: multiset<Key>, zeros: seq<Key>, x: Key)
    requires Decounting(c, m, done, zeros) && done + multiset{x} <= m
    ensures x in c && c[x] >= 1
    ensures Decounting(c[x := c[x] - 1], m, done + multiset{x},
                       if c[x] == 1 then zeros + [x] else zeros)
  {
    assert x in m;
  }

  /** Once the zero counts are deleted, the counter represents m - d. */
  lemma ZeroesDeleted(mid: map<Key, nat>, c: map<Key, nat>, d: multiset<Key>, m: multiset<Key>)
    requires forall x :: x in mid <==> x in m
    requires forall x :: x in mid ==> mid[x] + d[x] == m[x]
    requires forall x :: x in c <==> x in mid && mid[x] != 0
    requires forall x :: x in c ==> c[x] == mid[x]
    ensures c == CounterOf(m - d)
  {
    var want := CounterOf(m - d);
    assert forall x :: x in c <==> x in want;
    assert forall x :: x in c ==> c[x] == want[x];
  }

  lemma PrefixMultiset(data: seq<Key>, i: nat, m: multiset<Key>)
    requires i < |data| && multiset(data) <= m
    ensures multiset(data[..i + 1]) == multiset(data[..i]) + multiset{data[i]}
    ensures multiset(data[..i + 1]) <= m
  {
    assert data[..i + 1] == data[..i] + [data[i]];
    assert data == data[..i + 1] + data[i + 1..];
  }

  /** Creates a calculator; a window of size 0 raises ValueError. */
  method NewCalculator(k: nat) returns (r: Result<BurnRateCalculator>)
    ensures r.ValueError? <==> k == 0
    ensures r.Ok? ==> fresh(r.value) && r.value.Valid() && r.value.k == k && r.value.history == []
  {
    if k == 0 {
      return ValueError("The number of snapshots, k, must be larger than 0.");
    }
    var c := new BurnRateCalculator(k);
    return Ok(c);
  }

  // ---------------------------------------------------------------------
  // Lemmas about the window figures
  // ---------------------------------------------------------------------

  lemma {:induction false} TallyConcat(a: seq<seq<Key>>, b: seq<seq<Key>>)
    ensures Tally(a + b) == Tally(a) + Tally(b)
    decreases |b|
  {
    if b == [] {
      assert a + b == a;
    } else {
      var b' := b[..|b| - 1];
      assert (a + b)[..|a + b| - 1] == a + b';
      TallyConcat(a, b');
    }
  }

  /** A buffered snapshot's keys are part of the window's tally. */
  lemma TallyHas(w: seq<seq<Key>>, i: nat)
    requires i < |w|
    ensures multiset(w[i]) <= Tally(w)
  {
    assert w == w[..i] + [w[i]] + w[i + 1..];
    TallyConcat(w[..i] + [w[i]], w[i + 1..]);
    TallyConcat(w[..i], [w[i]]);
    assert [w[i]][..0] == [];
  }

  /** Overwriting one slot replaces that snapshot's keys in the tally. */
  lemma TallyUpdate(w: seq<seq<Key>>, i: nat, d: seq<Key>)
    requires i < |w|
    ensures Tally(w[i := d]) == Tally(w) - multiset(w[i]) + multiset(d)
  {
    assert w == w[..i] + [w[i]] + w[i + 1..];
    assert w[i := d] == w[..i] + [d] + w[i + 1..];
    TallyConcat(w[..i] + [w[i]], w[i + 1..]);
    TallyConcat(w[..i], [w[i]]);
    TallyConcat(w[..i] + [d], w[i + 1..]);
    TallyConcat(w[..i], [d]);
    assert [w[i]][..0] == [] && [d][..0] == [];
  }

  lemma {:induction false} SumSizesConcat(a: seq<seq<Key>>, b: seq<seq<Key>>)
    ensures SumSizes(a + b) == SumSizes(a) + SumSizes(b)
    decreases |b|
  {
    if b == [] {
      assert a + b == a;
    } else {
      var b' := b[..|b| - 1];
      assert (a + b)[..|a + b| - 1] == a + b';
      SumSizesConcat(a, b');
    }
  }

  lemma {:induction false} MaxSizeConcat(a: seq<seq<Key>>, b: seq<seq<Key>>)
    ensures MaxSize(a + b) == Max(MaxSize(a), MaxSize(b))
    decreases |b|
  {
    if b == [] {
      assert a + b == a;
    } else {
      var b' := b[..|b| - 1];
      assert (a + b)[..|a + b| - 1] == a + b';
      MaxSizeConcat(a, b');
    }
  }

  lemma {:induction false} MinSizeConcat(a: seq<seq<Key>>, b: seq<seq<Key>>)
    requires a != [] && b != []
    ensures MinSize(a + b) == Min(MinSize(a), MinSize(b))
    decreases |b|
  {
    var b' := b[..|b| - 1];
    assert (a + b)[..|a + b| - 1] == a + b';
    if |b| > 1 {
      MinSizeConcat(a, b');
    }
  }

  /**
   * The figures of a window do not depend on where the ring buffer starts:
   * rotating the snapshots leaves min, mean, max and the distinct keys alone.
   */
  lemma SummaryRotate(a: seq<seq<Key>>, b: seq<seq<Key>>)
    requires |a + b| > 0
    ensures Summary(|a + b|, a + b) == Summary(|b + a|, b + a)
  {
    if a == [] || b == [] {
      assert a + b == b + a;
    } else {
      SizesRotate(a, b);
      KeysRotate(a, b);
    }
  }

  lemma KeysRotate(a: seq<seq<Key>>, b: seq<seq<Key>>)
    ensures DistinctKeys(a + b) == DistinctKeys(b + a)
  {
    TallyConcat(a, b);
    TallyConcat(b, a);
    assert Tally(a + b) == Tally(b + a);
  }

  lemma SizesRotate(a: seq<seq<Key>>, b: seq<seq<Key>>)
    requires a != [] && b != []
    ensures SumSizes(a + b) == SumSizes(b + a)
    ensures MinSize(a + b) == MinSize(b + a)
    ensures MaxSize(a + b) == MaxSize(b + a)
  {
    SumSizesConcat(a, b);
    SumSizesConcat(b, a);
    MaxSizeConcat(a, b);
    MaxSizeConcat(b, a);
    MinSizeConcat(a, b);
    MinSizeConcat(b, a);
  }

  lemma MulStep(a: int, n: nat)
    ensures a * (n + 1) == a * n + a
  {
  }

  /** k * min <= sum <= k * max over a non-empty window. */
  lemma {:induction false} SizeBounds(w: seq<seq<Key>>)
    requires w != []
    ensures MinSize(w) * |w| <= SumSizes(w) <= MaxSize(w) * |w|
    decreases |w|
  {
    if |w| > 1 {
      var init := w[..|w| - 1];
      SizeBounds(init);
      var lo, lo', hi, hi', n, x := MinSize(w), MinSize(init), MaxSize(w), MaxSize(init), |init|, |w[|w| - 1]|;
      assert SumSizes(w) == SumSizes(init) + x;
      assert lo <= lo' && hi' <= hi;
      assert lo <= x <= hi;
      MulMonotone(lo, lo', n);
      MulMonotone(hi', hi, n);
      MulStep(lo, n);
      MulStep(hi, n);
    }
  }

  /** The reported mean lies between the reported minimum and maximum. */
  lemma MeanWithinBounds(k: nat, w: seq<seq<Key>>)
    requires k > 0 && |w| == k
    ensures Summary(k, w).pfxCntMin <= Summary(k, w).pfxCntMean <= Summary(k, w).pfxCntMax
  {
    SizeBounds(w);
    RoundedWithin(SumSizes(w), k, MinSize(w), MaxSize(w));
  }

  /** Rounding n / d stays within integer bounds lo and hi of n / d. */
  lemma RoundedWithin(n: nat, d: nat, lo: nat, hi: nat)
    requires d > 0 && lo * d <= n <= hi * d
    ensures lo <= RoundHalfEven(n, d) <= hi
  {
    NearestWithin(n, d, lo, hi, RoundHalfEven(n, d));
  }

  lemma NearestWithin(n: int, d: nat, lo: int, hi: int, r: int)
    requires d > 0 && lo * d <= n <= hi * d
    requires (2 * r - 1) * d <= 2 * n <= (2 * r + 1) * d
    ensures lo <= r <= hi
  {
    assert (2 * lo - 1) * d == 2 * (lo * d) - d;
    assert (2 * hi + 1) * d == 2 * (hi * d) + d;
    if r < lo {
      MulMonotone(2 * r + 1, 2 * lo - 1, d);
      assert false;
    }
    if r > hi {
      MulMonotone(2 * hi + 1, 2 * r - 1, d);
      assert false;
    }
  }

  /** A key counts as distinct in the window exactly when some buffered snapshot holds it. */
  lemma {:induction false} DistinctKeysAreWindowKeys(w: seq<seq<Key>>, x: Key)
    ensures x in DistinctKeys(w) <==> exists i :: 0 <= i < |w| && x in w[i]
    decreases |w|
  {
    if w != [] {
      var init := w[..|w| - 1];
      DistinctKeysAreWindowKeys(init, x);
      assert forall i :: 0 <= i < |init| ==> init[i] == w[i];
      if x in w[|w| - 1] {
        assert x in multiset(w[|w| - 1]);
      }
    }
  }

  /** A sequence without repeated keys has as many distinct keys as elements. */
  lemma {:induction false} DistinctCard(s: seq<Key>)
    requires forall i, j :: 0 <= i < j < |s| ==> s[i] != s[j]
    ensures |set x | x in s| == |s|
    decreases |s|
  {
    if s != [] {
      var init := s[..|s| - 1];
      DistinctCard(init);
      assert (set x | x in s) == (set x | x in init) + {s[|s| - 1]};
      assert s[|s| - 1] !in init;
    }
  }

  /**
   * When no snapshot repeats a key, the number of distinct keys in the window
   * is at least the largest snapshot size.
   */
  lemma UniqAtLeastMax(w: seq<seq<Key>>)
    requires forall n, i, j :: 0 <= n < |w| && 0 <= i < j < |w[n]| ==> w[n][i] != w[n][j]
    ensures MaxSize(w) <= |DistinctKeys(w)|
  {
    if w != [] {
      var n :| 0 <= n < |w| && |w[n]| == MaxSize(w);
      DistinctCard(w[n]);
      forall x | x in w[n] ensures x in DistinctKeys(w) {
        DistinctKeysAreWindowKeys(w, x);
      }
      var keys := set x | x in w[n];
      assert keys <= DistinctKeys(w);
      SubsetCard(keys, DistinctKeys(w));
    }
  }

  lemma {:induction false} SubsetCard(a: set<Key>, b: set<Key>)
    requires a <= b
    ensures |a| <= |b|
    decreases |a|
  {
    if a != {} {
      var x :| x in a;
      SubsetCard(a - {x}, b - {x});
    }
  }

  /** With a repeated key the number of distinct keys can fall below the largest size. */
  lemma RepeatedKeyBelowMax()
    ensures MaxSize([["a", "a"]]) == 2 && |DistinctKeys([["a", "a"]])| == 1
  {
    var w := [["a", "a"]];
    assert w[..0] == [];
    assert Tally(w) == multiset{"a", "a"};
    assert DistinctKeys(w) == {"a"};
  }

  lemma RecentSnoc(h: seq<seq<Key>>, d: seq<Key>, k: nat)
    requires k > 0 && |h| >= k
    ensures Recent(h + [d], k) == Recent(h, k)[1..] + [d]
  {
  }

  /** Overwriting the oldest slot of a full buffer moves the window one step on. */
  lemma OverwriteWindow(s: seq<seq<Key>>, i: nat, d: seq<Key>, h: seq<seq<Key>>, k: nat)
    requires k > 0 && |s| == k && i < k
    requires s[i..] + s[..i] == Recent(h, k)
    ensures s[i := d][NextSlot(i, k)..] + s[i := d][..NextSlot(i, k)] == Recent(h + [d], k)
  {
    assert |h| >= k;
    RotateAfterOverwrite(s, i, d);
    RecentSnoc(h, d, k);
    if i + 1 == k {
      assert s[i := d][0..] + s[i := d][..0] == s[i := d];
    }
  }

  /** Overwriting the oldest slot i with d drops the oldest snapshot and appends d. */
  lemma RotateAfterOverwrite(s: seq<seq<Key>>, i: nat, d: seq<Key>)
    requires i < |s|
    ensures i + 1 < |s| ==> s[i := d][i + 1..] + s[i := d][..i + 1] == (s[i..] + s[..i])[1..] + [d]
    ensures i + 1 == |s| ==> s[i := d] == (s[i..] + s[..i])[1..] + [d]
  {
    var s' := s[i := d];
    if i + 1 < |s| {
      assert s'[i + 1..] == s[i + 1..];
      assert s'[..i + 1] == s[..i] + [d];
      assert (s[i..] + s[..i])[1..] == s[i + 1..] + s[..i];
    } else {
      assert s' == s[..i] + [d];
      assert (s[i..] + s[..i])[1..] == s[..i];
    }
  }

  // ---------------------------------------------------------------------
  // Test vectors of the repository
  // ---------------------------------------------------------------------

  /** The four snapshots used throughout the repository's tests. */
  function TestSnapshots(): (w: seq<seq<Key>>)
  {
    [["a", "b", "c"], ["b", "d", "f"], ["b", "e", "h"], ["b", "f"]]
  }

  /** The per-snapshot figures of a window of three snapshots, spelled out. */
  lemma FiguresOfThree(a: seq<Key>, b: seq<Key>, c: seq<Key>)
    ensures Tally([a, b, c]) == multiset(a) + multiset(b) + multiset(c)
    ensures SumSizes([a, b, c]) == |a| + |b| + |c|
    ensures MinSize([a, b, c]) == Min(Min(|a|, |b|), |c|)
    ensures MaxSize([a, b, c]) == Max(Max(|a|, |b|), |c|)
  {
    assert [a, b, c][..2] == [a, b];
    assert [a, b][..1] == [a];
    assert [a][..0] == [];
    assert Tally([a]) == multiset(a) && SumSizes([a]) == |a|;
    assert Tally([a, b]) == Tally([a]) + multiset(b) && SumSizes([a, b]) == SumSizes([a]) + |b|;
  }

  lemma SummaryOfThree(a: seq<Key>, b: seq<Key>, c: seq<Key>)
    ensures Summary(3, [a, b, c]) == BurnRateResult(3,
      Min(Min(|a|, |b|), |c|),
      RoundHalfEven(|a| + |b| + |c|, 3),
      Max(Max(|a|, |b|), |c|),
      |set x | x in multiset(a) + multiset(b) + multiset(c)|,
      "")
  {
    FiguresOfThree(a, b, c);
  }

  lemma SummaryOfFour(a: seq<Key>, b: seq<Key>, c: seq<Key>, d: seq<Key>)
    ensures Summary(4, [a, b, c, d]) == BurnRateResult(4,
      Min(Min(Min(|a|, |b|), |c|), |d|),
      RoundHalfEven(|a| + |b| + |c| + |d|, 4),
      Max(Max(Max(|a|, |b|), |c|), |d|),
      |set x | x in multiset(a) + multiset(b) + multiset(c) + multiset(d)|,
      "")
  {
    var w := [a, b, c, d];
    assert w[..3] == [a, b, c];
    FiguresOfThree(a, b, c);
  }

  /** The keys of a sum of snapshot multisets are the keys of the snapshots joined. */
  lemma KeysOfThree(a: seq<Key>, b: seq<Key>, c: seq<Key>)
    ensures (set x | x in multiset(a) + multiset(b) + multiset(c)) == set x | x in a + b + c
  {
  }

  lemma KeysOfFour(a: seq<Key>, b: seq<Key>, c: seq<Key>, d: seq<Key>)
    ensures (set x | x in multiset(a) + multiset(b) + multiset(c) + multiset(d)) == set x | x in a + b + c + d
  {
  }

  /** The distinct single-letter keys of the test snapshots. */
  lemma SevenKeys()
    ensures |{"a", "b", "c", "d", "e", "f", "h"}| == 7
  {
  }

  lemma FiveKeys()
    ensures |{"b", "d", "e", "f", "h"}| == 5
  {
  }

  lemma FirstWindowJoined()
    ensures (set x | x in ["a", "b", "c"] + ["b", "d", "f"] + ["b", "e", "h"])
         == {"a", "b", "c", "d", "e", "f", "h"}
  {
  }

  lemma SecondWindowJoined()
    ensures (set x | x in ["b", "d", "f"] + ["b", "e", "h"] + ["b", "f"]) == {"b", "d", "e", "f", "h"}
  {
  }

  lemma AllJoined()
    ensures (set x | x in ["a", "b", "c"] + ["b", "d", "f"] + ["b", "e", "h"] + ["b", "f"])
         == {"a", "b", "c", "d", "e", "f", "h"}
  {
    FirstWindowJoined();
    assert ["a", "b", "c"] + ["b", "d", "f"] + ["b", "e", "h"] + ["b", "f"]
        == (["a", "b", "c"] + ["b", "d", "f"] + ["b", "e", "h"]) + ["b", "f"];
  }

  /** The distinct keys of all four test snapshots: a, b, c, d, e, f, h. */
  lemma AllTestKeys()
    ensures |set x | x in multiset(["a", "b", "c"]) + multiset(["b", "d", "f"])
                        + multiset(["b", "e", "h"]) + multiset(["b", "f"])| == 7
  {
    KeysOfFour(["a", "b", "c"], ["b", "d", "f"], ["b", "e", "h"], ["b", "f"]);
    AllJoined();
    SevenKeys();
  }

  /** The distinct keys of the first three test snapshots. */
  lemma FirstWindowKeys()
    ensures |set x | x in multiset(["a", "b", "c"]) + multiset(["b", "d", "f"]) + multiset(["b", "e", "h"])| == 7
  {
    KeysOfThree(["a", "b", "c"], ["b", "d", "f"], ["b", "e", "h"]);
    FirstWindowJoined();
    SevenKeys();
  }

  /** The distinct keys of the last three test snapshots. */
  lemma SecondWindowKeys()
    ensures |set x | x in multiset(["b", "d", "f"]) + multiset(["b", "e", "h"]) + multiset(["b", "f"])| == 5
  {
    KeysOfThree(["b", "d", "f"], ["b", "e", "h"], ["b", "f"]);
    SecondWindowJoined();
    FiveKeys();
  }

  /** A window of four that has just filled up: min 2, mean 3, max 3, 7 distinct keys. */
  lemma BarelyFilledVector()
    ensures Summary(4, TestSnapshots()) == BurnRateResult(4, 2, 3, 3, 7, "")
  {
    SummaryOfFour(["a", "b", "c"], ["b", "d", "f"], ["b", "e", "h"], ["b", "f"]);
    AllTestKeys();
  }

  /** The first full window of three: the first three test snapshots. */
  lemma FirstRolloverVector()
    ensures Summary(3, TestSnapshots()[..3]) == BurnRateResult(3, 3, 3, 3, 7, "")
  {
    var a, b, c := ["a", "b", "c"], ["b", "d", "f"], ["b", "e", "h"];
    assert TestSnapshots()[..3] == [a, b, c];
    SummaryOfThree(a, b, c);
    FirstWindowKeys();
  }

  /** After the fourth snapshot the oldest one has rolled out. */
  lemma SecondRolloverVector()
    ensures Summary(3, TestSnapshots()[1..]) == BurnRateResult(3, 2, 3, 3, 5, "")
  {
    var a, b, c := ["b", "d", "f"], ["b", "e", "h"], ["b", "f"];
    assert TestSnapshots()[1..] == [a, b, c];
    SummaryOfThree(a, b, c);
    SecondWindowKeys();
  }

  /**
   * What advance returns once the snapshots of h have been fed to a
   * calculator of window k: None until k snapshots have been seen, and from
   * then on the summary of the last k of them.
   */
  ghost function Expected(k: nat, h: seq<seq<Key>>): (r: Option<BurnRateResult>)
    requires k > 0
  {
    if |h| < k then None else Some(Summary(k, Recent(h, k)))
  }

  /** The results of feeding the snapshots of w one by one, in order. */
  ghost function Run(k: nat, w: seq<seq<Key>>): (rs: seq<Option<BurnRateResult>>)
    requires k > 0
    ensures |rs| == |w|
  {
    if w == [] then [] else Run(k, w[..|w| - 1]) + [Expected(k, w)]
  }

  /** Advance returns what Expected says of the history it has seen. */
  lemma AdvanceIsExpected(k: nat, h: seq<seq<Key>>, r: Option<BurnRateResult>)
    requires k > 0
    requires r.None? <==> |h| < k
    requires r.Some? ==> r.value == Summary(k, Recent(h, k))
    ensures r == Expected(k, h)
  {
  }

  lemma RunSnoc(k: nat, w: seq<seq<Key>>, i: nat)
    requires k > 0 && i < |w|
    ensures w[..i + 1] == w[..i] + [w[i]]
    ensures Run(k, w[..i + 1]) == Run(k, w[..i]) + [Expected(k, w[..i + 1])]
  {
    assert w[..i + 1] == w[..i] + [w[i]];
    assert w[..i + 1][..i] == w[..i];
  }

  /** One call of advance, its result stated through Expected. */
  method Step(c: BurnRateCalculator, data: seq<Key>) returns (r: Option<BurnRateResult>)
    requires c.Valid()
    modifies c
    ensures c.Valid() && c.history == old(c.history) + [data]
    ensures r == Expected(c.k, c.history)
  {
    r := c.Advance(data);
    AdvanceIsExpected(c.k, c.history, r);
  }

  /** Feeds the snapshots of w one by one to a fresh calculator of window k. */
  method FeedAll(k: nat, w: seq<seq<Key>>) returns (rs: seq<Option<BurnRateResult>>)
    requires k > 0
    ensures rs == Run(k, w)
  {
    var c := new BurnRateCalculator(k);
    rs := [];
    for i := 0 to |w|
      invariant c.Valid() && c.k == k && c.history == w[..i]
      invariant rs == Run(k, w[..i])
    {
      var r := Step(c, w[i]);
      RunSnoc(k, w, i);
      rs := rs + [r];
    }
    assert w[..|w|] == w;
  }

  /** The results of feeding four snapshots, one history at a time. */
  lemma RunOfFour(k: nat, a: seq<Key>, b: seq<Key>, c: seq<Key>, d: seq<Key>)
    requires k > 0
    ensures Run(k, [a, b, c, d]) == [Expected(k, [a]), Expected(k, [a, b]), Expected(k, [a, b, c]), Expected(k, [a, b, c, d])]
  {
    assert [a][..0] == [];
    assert Run(k, [a]) == [Expected(k, [a])];
    assert [a, b][..1] == [a];
    assert Run(k, [a, b]) == Run(k, [a]) + [Expected(k, [a, b])];
    assert [a, b, c][..2] == [a, b];
    assert Run(k, [a, b, c]) == Run(k, [a, b]) + [Expected(k, [a, b, c])];
    assert [a, b, c, d][..3] == [a, b, c];
    assert Run(k, [a, b, c, d]) == Run(k, [a, b, c]) + [Expected(k, [a, b, c, d])];
  }

  /** Fewer than k snapshots: nothing to report. */
  lemma ExpectedShort(k: nat, h: seq<seq<Key>>)
    requires 0 < k && |h| < k
    ensures Expected(k, h) == None
  {
  }

  /** Exactly k snapshots: the summary of all of them. */
  lemma ExpectedFull(k: nat, h: seq<seq<Key>>)
    requires 0 < k && |h| == k
    ensures Expected(k, h) == Some(Summary(k, h))
  {
  }

  /** One snapshot more than k: the oldest one has rolled out. */
  lemma ExpectedRolled(k: nat, h: seq<seq<Key>>)
    requires 0 < k && |h| == k + 1
    ensures Expected(k, h) == Some(Summary(k, h[1..]))
  {
  }

  /** A window of five never fills over the four test snapshots. */
  method NotFullExample() returns (rs: seq<Option<BurnRateResult>>)
    ensures rs == [None, None, None, None]
  {
    var w := TestSnapshots();
    var a, b, c, d := w[0], w[1], w[2], w[3];
    assert w == [a, b, c, d];
    rs := FeedAll(5, w);
    RunOfFour(5, a, b, c, d);
    ExpectedShort(5, [a]);
    ExpectedShort(5, [a, b]);
    ExpectedShort(5, [a, b, c]);
    ExpectedShort(5, [a, b, c, d]);
  }

  /** A window of four fills with the fourth test snapshot. */
  method BarelyFilledExample() returns (rs: seq<Option<BurnRateResult>>)
    ensures rs == [None, None, None, Some(BurnRateResult(4, 2, 3, 3, 7, ""))]
  {
    var w := TestSnapshots();
    var a, b, c, d := w[0], w[1], w[2], w[3];
    assert w == [a, b, c, d];
    rs := FeedAll(4, w);
    RunOfFour(4, a, b, c, d);
    ExpectedShort(4, [a]);
    ExpectedShort(4, [a, b]);
    ExpectedShort(4, [a, b, c]);
    ExpectedFull(4, [a, b, c, d]);
    BarelyFilledVector();
  }

  /** The results of a window of three over the four test snapshots. */
  lemma RolloverRun(w: seq<seq<Key>>)
    requires w == TestSnapshots()
    ensures Run(3, w)
         == [None, None, Some(BurnRateResult(3, 3, 3, 3, 7, "")), Some(BurnRateResult(3, 2, 3, 3, 5, ""))]
  {
    var a, b, c, d := w[0], w[1], w[2], w[3];
    assert w == [a, b, c, d];
    RunOfFour(3, a, b, c, d);
    ExpectedShort(3, [a]);
    ExpectedShort(3, [a, b]);
    assert Expected(3, [a, b, c]) == Some(BurnRateResult(3, 3, 3, 3, 7, "")) by {
      ExpectedFull(3, [a, b, c]);
      assert w[..3] == [a, b, c];
      FirstRolloverVector();
    }
    assert Expected(3, [a, b, c, d]) == Some(BurnRateResult(3, 2, 3, 3, 5, "")) by {
      ExpectedRolled(3, [a, b, c, d]);
      assert w[1..] == [a, b, c, d][1..];
      SecondRolloverVector();
    }
  }

  /** A window of three fills with the third test snapshot and then rolls over. */
  method RolloverExample() returns (rs: seq<Option<BurnRateResult>>)
    ensures rs == [None, None, Some(BurnRateResult(3, 3, 3, 3, 7, "")), Some(BurnRateResult(3, 2, 3, 3, 5, ""))]
  {
    var w := TestSnapshots();
    rs := FeedAll(3, w);
    RolloverRun(w);
  }

  // ---------------------------------------------------------------------
  // date_iter on day numbers
  // ---------------------------------------------------------------------

  /**
   * The consecutive day numbers from start to end inclusive; empty when
   * end precedes start.
   */
  function DateIter(start: int, end: int): (days: seq<int>)
    ensures |days| == if end < start then 0 else end - start + 1
    ensures forall n :: 0 <= n < |days| ==> days[n] == start + n
    decreases end - start + 1
  {
    if end < start then [] else [start] + DateIter(start + 1, end)
  }

  lemma DateIterEndpoints(start: int, end: int)
    requires start <= end
    ensures DateIter(start, end)[0] == start
    ensures DateIter(start, end)[|DateIter(start, end)| - 1] == end
  {
  }

  /** One day, three days, and 1 January to 3 February (34 days). */
  lemma DateIterVectors(d: int)
    ensures DateIter(d, d) == [d]
    ensures DateIter(d, d + 2) == [d, d + 1, d + 2]
    ensures |DateIter(d, d + 33)| == 34
  {
  }
}
