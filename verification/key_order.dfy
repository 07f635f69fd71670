/**
 * The iteration order of the policy map. The source keeps the policy in a
 * `BTreeMap` keyed by the tuple `(lower, upper)`, so its entries are listed
 * in the lexicographic order `Sizes.Less`.
 */
module KeyOrder {
  import opened Sizes

  /** Each key strictly below every later one; in particular no key repeats. */
  predicate StrictlyIncreasing(s: seq<SizeRange>) {
    forall i, j :: 0 <= i < j < |s| ==> Less(s[i], s[j])
  }

  /** The least range of a non-empty set. */
  method Least(ranges: set<SizeRange>) returns (m: SizeRange)
    requires ranges != {}
    ensures m in ranges
    ensures forall r :: r in ranges && r != m ==> Less(m, r)
  {
    m :| m in ranges;
    var rest := ranges - {m};
    while rest != {}
      invariant m in ranges && rest <= ranges
      invariant forall r :: r in ranges && r !in rest && r != m ==> Less(m, r)
      decreases rest
    {
      var r :| r in rest;
      if Less(r, m) {
        m := r;
      }
      rest := rest - {r};
    }
  }

  /** The keys of a policy in the order a `BTreeMap` iterates them. */
  method OrderedKeys<V>(m: map<SizeRange, V>) returns (ks: seq<SizeRange>)
    ensures StrictlyIncreasing(ks)
    ensures forall k :: k in ks <==> k in m
    ensures |ks| == |m|
  {
    ks := [];
    var rest := m.Keys;
    while rest != {}
      invariant rest <= m.Keys
      invariant forall k :: k in m <==> k in ks || k in rest
      invariant forall i :: 0 <= i < |ks| ==> ks[i] !in rest
      invariant StrictlyIncreasing(ks)
      invariant forall i, k :: 0 <= i < |ks| && k in rest ==> Less(ks[i], k)
      invariant |ks| + |rest| == |m.Keys|
      decreases rest
    {
      var least := Least(rest);
      ks := ks + [least];
      rest := rest - {least};
    }
  }

  /**
   * Two strictly increasing key lists with the same keys are identical: the
   * order in which the policy is listed is determined by its keys alone.
   */
  lemma {:induction false} OrderIsUnique(s: seq<SizeRange>, t: seq<SizeRange>)
    requires StrictlyIncreasing(s) && StrictlyIncreasing(t)
    requires forall k :: k in s <==> k in t
    ensures s == t
    decreases |s|
  {
    if s == [] {
      assert forall i :: 0 <= i < |t| ==> t[i] in s;
    } else {
      assert s[0] in t;
      assert t[0] in s;
      assert s[0] == t[0];
      forall k
        ensures k in s[1..] <==> k in t[1..]
      {
        if k in s[1..] {
          var i :| 0 <= i < |s[1..]| && s[1..][i] == k;
          assert Less(s[0], k);
          assert k in t;
        }
        if k in t[1..] {
          var j :| 0 <= j < |t[1..]| && t[1..][j] == k;
          assert Less(t[0], k);
          assert k in s;
        }
      }
      OrderIsUnique(s[1..], t[1..]);
      assert s == [s[0]] + s[1..] && t == [t[0]] + t[1..];
    }
  }
}
