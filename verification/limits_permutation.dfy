/**
 * Reordering the `limits` entries never changes whether the build succeeds,
 * and when it succeeds it never changes the map that is built.
 */
module LimitsPermutation {
  import opened Results
  import opened Limits

  /** Two equal entries at distinct positions make that entry occur at least twice. */
  lemma TwiceCounted<T>(s: seq<T>, i: nat, j: nat)
    requires i < j < |s| && s[i] == s[j]
    ensures multiset(s)[s[i]] >= 2
  {
    assert s == s[..j] + [s[j]] + s[j + 1..];
    assert s[i] in s[..j];
    assert multiset(s) == multiset(s[..j]) + multiset{s[j]} + multiset(s[j + 1..]);
  }

  /** An element occurring at least twice sits at two distinct positions. */
  lemma TwoPositions<T>(s: seq<T>, x: T) returns (i: nat, j: nat)
    requires multiset(s)[x] >= 2
    ensures i < j < |s| && s[i] == x && s[j] == x
  {
    assert x in multiset(s);
    var p :| 0 <= p < |s| && s[p] == x;
    assert s == s[..p] + [s[p]] + s[p + 1..];
    assert multiset(s) == multiset(s[..p]) + multiset{x} + multiset(s[p + 1..]);
    if x in s[..p] {
      var q :| 0 <= q < p && s[..p][q] == x;
      i, j := q, p;
    } else {
      assert x in multiset(s[p + 1..]);
      var q :| 0 <= q < |s[p + 1..]| && s[p + 1..][q] == x;
      i, j := p, p + 1 + q;
    }
  }

  /** Distinct keys survive a reordering of the entries. */
  lemma DistinctKeysPermuted(a: seq<RawEntry>, b: seq<RawEntry>)
    requires multiset(a) == multiset(b) && DistinctKeys(a)
    ensures DistinctKeys(b)
  {
    forall i, j | 0 <= i < j < |b|
      ensures KeyOf(b[i]) != KeyOf(b[j])
    {
      if b[i] == b[j] {
        TwiceCounted(b, i, j);
        var p, q := TwoPositions(a, b[i]);
        assert false;
      } else {
        assert b[i] in multiset(a) && b[j] in multiset(a);
        var p :| 0 <= p < |a| && a[p] == b[i];
        var q :| 0 <= q < |a| && a[q] == b[j];
        assert p != q;
        if p < q {
          assert KeyOf(a[p]) != KeyOf(a[q]);
        } else {
          assert KeyOf(a[q]) != KeyOf(a[p]);
        }
      }
    }
  }

  /** Acceptability depends only on the multiset of entries. */
  lemma AcceptsPermuted(a: seq<RawEntry>, b: seq<RawEntry>, parse: DurationParser)
    requires multiset(a) == multiset(b) && Accepts(a, parse)
    ensures Accepts(b, parse)
  {
    DistinctKeysPermuted(a, b);
    forall j | 0 <= j < |b|
      ensures EntryOk(b[j], parse)
    {
      assert b[j] in multiset(a);
      var i :| 0 <= i < |a| && a[i] == b[j];
    }
  }

  /**
   * Permuting the input leaves success or failure unchanged, and two
   * successful builds of permuted inputs produce the same map.
   */
  lemma PermutationInvariant(a: seq<RawEntry>, b: seq<RawEntry>, parse: DurationParser)
    requires multiset(a) == multiset(b)
    ensures Build(a, parse).Ok? <==> Build(b, parse).Ok?
    ensures Build(a, parse).Ok? ==> Build(a, parse).value == Build(b, parse).value
  {
    BuildSucceedsIff(a, parse);
    BuildSucceedsIff(b, parse);
    if Accepts(a, parse) {
      AcceptsPermuted(a, b, parse);
    }
    if Accepts(b, parse) {
      AcceptsPermuted(b, a, parse);
    }
    if Build(a, parse).Ok? {
      BuildContents(a, parse);
      BuildContents(b, parse);
      var ma, mb := Build(a, parse).value, Build(b, parse).value;
      assert KeySet(a) == KeySet(b) by {
        forall e
          ensures e in a <==> e in b
        {
          assert e in a <==> e in multiset(a);
          assert e in b <==> e in multiset(b);
        }
      }
      forall k | k in ma
        ensures ma[k] == mb[k]
      {
        var e :| e in a && KeyOf(e) == k;
        var i :| 0 <= i < |a| && a[i] == e;
        assert e in multiset(b);
        var j :| 0 <= j < |b| && b[j] == e;
        assert parse(a[i].duration) == Some(ma[k]);
        assert parse(b[j].duration) == Some(mb[k]);
      }
    }
  }
}
