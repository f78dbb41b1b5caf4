/**
 * An abstract prefix trie (the PyTricia tries used by src/ptriediff/ptriediff.py).
 *
 * A CIDR prefix is its sequence of network bits, most significant first; a
 * prefix p covers q when q starts with the bits of p, and strictly covers it
 * when q is moreover longer. A trie is modelled by its set of keys: the children
 * of p are the keys p strictly covers, and the parent of a prefix is the
 * longest key that strictly covers it.
 */
module PrefixTrie {
  import opened Wrappers

  type Prefix = seq<bool>

  /** p covers q: q starts with the bits of p. */
  predicate Covers(p: Prefix, q: Prefix)
  {
    |p| <= |q| && q[..|p|] == p
  }

  /** p covers q and is shorter. */
  predicate StrictlyCovers(p: Prefix, q: Prefix)
  {
    |p| < |q| && q[..|p|] == p
  }

  /** Covering is the sequence-prefix order on bit strings. */
  lemma CoversIsSeqPrefix(p: Prefix, q: Prefix)
    ensures Covers(p, q) <==> p <= q
    ensures StrictlyCovers(p, q) <==> p < q
  {
  }

  function Pow2(n: nat): (r: nat)
    ensures r >= 1
  {
    if n == 0 then 1 else 2 * Pow2(n - 1)
  }

  /** Every key fits an address of maxBits bits. */
  predicate Bounded(keys: set<Prefix>, maxBits: nat)
  {
    forall c :: c in keys ==> |c| <= maxBits
  }

  /** The number of addresses in p: 2 to the number of host bits. */
  function AddressCount(p: Prefix, maxBits: nat): (n: nat)
    requires |p| <= maxBits
  {
    Pow2(maxBits - |p|)
  }

  // ---------------------------------------------------------------------
  // Subnets, children and parent
  // ---------------------------------------------------------------------

  /**
   * The subnets one bit longer than p, as ipaddress's
   * subnets(prefixlen_diff=1) yields them: both halves, except for a
   * full-length prefix, which is yielded itself.
   */
  function Subnets(p: Prefix, maxBits: nat): (s: seq<Prefix>)
    requires |p| <= maxBits
    ensures |p| < maxBits ==> s == [p + [false], p + [true]]
    ensures |p| == maxBits ==> s == [p]
  {
    if |p| == maxBits then [p] else [p + [false], p + [true]]
  }

  /** The keys strictly covered by p (PyTricia's children). */
  function Children(keys: set<Prefix>, p: Prefix): (cs: set<Prefix>)
    ensures forall c :: c in cs <==> c in keys && StrictlyCovers(p, c)
  {
    set c | c in keys && StrictlyCovers(p, c)
  }

  /** The longest key among c[..j] for j < n. */
  function LongestCoverBelow(keys: set<Prefix>, c: Prefix, n: nat): (r: Option<Prefix>)
    requires n <= |c|
    ensures r.Some? ==> r.value in keys && |r.value| < n && r.value == c[..|r.value|]
    ensures r.Some? ==> forall j :: |r.value| < j < n ==> c[..j] !in keys
    ensures r.None? ==> forall j :: 0 <= j < n ==> c[..j] !in keys
  {
    if n == 0 then None
    else if c[..n - 1] in keys then Some(c[..n - 1])
    else LongestCoverBelow(keys, c, n - 1)
  }

  /** The longest key that strictly covers c (PyTricia's parent), if any. */
  function Parent(keys: set<Prefix>, c: Prefix): (r: Option<Prefix>)
  {
    LongestCoverBelow(keys, c, |c|)
  }

  /**
   * Parent is the nearest strict cover: it is a key strictly covering c, and
   * no key strictly covering c is longer; None exactly when no key strictly
   * covers c.
   */
  lemma ParentIsNearestCover(keys: set<Prefix>, c: Prefix)
    ensures Parent(keys, c).Some? ==> Parent(keys, c).value in keys && StrictlyCovers(Parent(keys, c).value, c)
    ensures Parent(keys, c).Some? ==>
      forall q :: q in keys && StrictlyCovers(q, c) ==> |q| <= |Parent(keys, c).value|
    ensures Parent(keys, c).None? <==> forall q :: q in keys ==> !StrictlyCovers(q, c)
  {
    var r := Parent(keys, c);
    forall q | q in keys && StrictlyCovers(q, c)
      ensures r.Some? && |q| <= |r.value|
    {
      assert q == c[..|q|];
    }
    if r.Some? {
      assert StrictlyCovers(r.value, c) by { assert r.value == c[..|r.value|]; }
    }
  }

  /** The keys whose parent is p: the children of p that no other child covers. */
  function DirectChildren(keys: set<Prefix>, p: Prefix): (ds: set<Prefix>)
    ensures ds <= Children(keys, p)
  {
    set c | c in keys && StrictlyCovers(p, c) && Parent(keys, c) == Some(p)
  }

  /** No direct child of p strictly covers another one. */
  lemma DirectChildrenAntichain(keys: set<Prefix>, p: Prefix, a: Prefix, b: Prefix)
    requires a in DirectChildren(keys, p) && b in DirectChildren(keys, p)
    ensures !StrictlyCovers(a, b)
  {
    ParentIsNearestCover(keys, b);
  }

  // ---------------------------------------------------------------------
  // Address sums
  // ---------------------------------------------------------------------

  /** The total number of addresses of the prefixes in s, overlaps counted twice. */
  ghost function AddressSum(s: set<Prefix>, maxBits: nat): (n: nat)
    requires Bounded(s, maxBits)
  {
    if s == {} then 0
    else
      var c :| c in s;
      AddressCount(c, maxBits) + AddressSum(s - {c}, maxBits)
  }

  /** The sum may be taken apart at any of its elements. */
  lemma {:induction false} AddressSumRemove(s: set<Prefix>, maxBits: nat, x: Prefix)
    requires Bounded(s, maxBits) && x in s
    ensures AddressSum(s, maxBits) == AddressCount(x, maxBits) + AddressSum(s - {x}, maxBits)
    decreases |s|
  {
    var c :| c in s && AddressSum(s, maxBits) == AddressCount(c, maxBits) + AddressSum(s - {c}, maxBits);
    if c != x {
      AddressSumRemove(s - {c}, maxBits, x);
      AddressSumRemove(s - {x}, maxBits, c);
      assert s - {c} - {x} == s - {x} - {c};
    }
  }

  /** The sum over two disjoint sets adds up. */
  lemma {:induction false} AddressSumUnion(a: set<Prefix>, b: set<Prefix>, maxBits: nat)
    requires Bounded(a, maxBits) && Bounded(b, maxBits) && a !! b
    ensures AddressSum(a + b, maxBits) == AddressSum(a, maxBits) + AddressSum(b, maxBits)
    decreases |a|
  {
    if a == {} {
      assert a + b == b;
    } else {
      var x :| x in a;
      AddressSumRemove(a + b, maxBits, x);
      AddressSumRemove(a, maxBits, x);
      assert (a + b) - {x} == (a - {x}) + b;
      AddressSumUnion(a - {x}, b, maxBits);
    }
  }

  lemma AddressSumSingleton(c: Prefix, maxBits: nat)
    requires |c| <= maxBits
    ensures AddressSum({c}, maxBits) == AddressCount(c, maxBits)
  {
    AddressSumRemove({c}, maxBits, c);
    assert {c} - {c} == {};
  }

  /** The prefixes of s that q covers. */
  function Extending(s: set<Prefix>, q: Prefix): (r: set<Prefix>)
    ensures r <= s
    ensures forall c :: c in r ==> Covers(q, c)
  {
    set c | c in s && Covers(q, c)
  }

  /** Prefixes strictly under p go on with either a 0 bit or a 1 bit after it. */
  lemma SplitAtNextBit(s: set<Prefix>, p: Prefix)
    requires forall c :: c in s ==> StrictlyCovers(p, c)
    ensures s == Extending(s, p + [false]) + Extending(s, p + [true])
    ensures Extending(s, p + [false]) !! Extending(s, p + [true])
  {
    forall c | c in s
      ensures c in Extending(s, p + [false]) || c in Extending(s, p + [true])
    {
      assert c[..|p| + 1] == p + [c[|p|]];
      if c[|p|] {
        assert Covers(p + [true], c);
      } else {
        assert Covers(p + [false], c);
      }
    }
    forall c | c in Extending(s, p + [false]) ensures c !in Extending(s, p + [true]) {
      assert c[|p|] == (p + [false])[|p|];
    }
  }

  /** No prefix of s strictly covers another one. */
  predicate Antichain(s: set<Prefix>)
  {
    forall a, b :: a in s && b in s ==> !StrictlyCovers(a, b)
  }

  /**
   * Prefixes under p none of which covers another one share out the
   * addresses of p: their address counts add up to at most those of p.
   */
  lemma {:induction false} AntichainBound(s: set<Prefix>, p: Prefix, maxBits: nat)
    requires |p| <= maxBits && Bounded(s, maxBits) && Antichain(s)
    requires forall c :: c in s ==> Covers(p, c)
    ensures AddressSum(s, maxBits) <= AddressCount(p, maxBits)
    decreases maxBits - |p|, 1
  {
    if s == {} {
    } else if p in s {
      forall c | c in s ensures c == p {
        assert !StrictlyCovers(p, c) && c[..|c|] == c;
      }
      assert s == {p};
      AddressSumSingleton(p, maxBits);
    } else {
      forall c | c in s ensures StrictlyCovers(p, c) {
        assert c != p && c[..|c|] == c;
      }
      var c :| c in s;
      assert StrictlyCovers(p, c);
      SplitAtNextBit(s, p);
      HalfBound(s, p, false, maxBits);
      HalfBound(s, p, true, maxBits);
      AddressSumUnion(Extending(s, p + [false]), Extending(s, p + [true]), maxBits);
    }
  }

  /** The half of s under p + [bit] holds at most half the addresses of p. */
  lemma {:induction false} HalfBound(s: set<Prefix>, p: Prefix, bit: bool, maxBits: nat)
    requires |p| < maxBits && Bounded(s, maxBits) && Antichain(s)
    ensures Bounded(Extending(s, p + [bit]), maxBits)
    ensures 2 * AddressSum(Extending(s, p + [bit]), maxBits) <= AddressCount(p, maxBits)
    decreases maxBits - |p|, 0
  {
    var h := Extending(s, p + [bit]);
    assert Antichain(h);
    AntichainBound(h, p + [bit], maxBits);
    assert AddressCount(p, maxBits) == 2 * AddressCount(p + [bit], maxBits);
  }

  /** The direct children of p together hold no more addresses than p. */
  lemma DirectChildrenBound(keys: set<Prefix>, p: Prefix, maxBits: nat)
    requires Bounded(keys, maxBits) && |p| <= maxBits
    ensures AddressSum(DirectChildren(keys, p), maxBits) <= AddressCount(p, maxBits)
  {
    var ds := DirectChildren(keys, p);
    forall a, b | a in ds && b in ds ensures !StrictlyCovers(a, b) {
      DirectChildrenAntichain(keys, p, a, b);
    }
    assert Antichain(ds);
    AntichainBound(ds, p, maxBits);
  }
}
