/** Generic sequence helpers: the `Array.prototype.filter` the handlers lean on,
    and the facts about it that the rest of the model needs. */
module Seqs {

  /** Keeps, in order, the elements of `s` that satisfy `p`. */
  function Filter<T>(s: seq<T>, p: T -> bool): (r: seq<T>)
    ensures |r| <= |s|
    ensures forall i :: 0 <= i < |r| ==> p(r[i])
  {
    if s == [] then []
    else if p(s[0]) then [s[0]] + Filter(s[1..], p)
    else Filter(s[1..], p)
  }

  /** A filter takes nothing that was not there, and leaves out nothing that
      passes. */
  lemma {:induction false} FilterMultiset<T>(s: seq<T>, p: T -> bool)
    ensures multiset(Filter(s, p)) <= multiset(s)
    ensures forall x :: x in multiset(s) && p(x) ==> x in multiset(Filter(s, p))
  {
    if s != [] {
      FilterMultiset(s[1..], p);
      assert s == [s[0]] + s[1..];
    }
  }

  /** One step of the filter. */
  lemma FilterCons<T>(s: seq<T>, p: T -> bool)
    requires s != []
    ensures Filter(s, p) == if p(s[0]) then [s[0]] + Filter(s[1..], p) else Filter(s[1..], p)
  {
  }

  /** Filtering distributes over concatenation, which is what "in their
      original order" means for a filter. */
  lemma {:induction false} FilterConcat<T>(a: seq<T>, b: seq<T>, p: T -> bool)
    ensures Filter(a + b, p) == Filter(a, p) + Filter(b, p)
  {
    if a == [] {
      assert a + b == b;
    } else {
      assert (a + b)[1..] == a[1..] + b;
      FilterConcat(a[1..], b, p);
    }
  }

  /** A filter keeps everything exactly when every element passes. */
  lemma {:induction false} FilterAll<T>(s: seq<T>, p: T -> bool)
    requires forall i :: 0 <= i < |s| ==> p(s[i])
    ensures Filter(s, p) == s
  {
    if s != [] {
      FilterAll(s[1..], p);
    }
  }

  /** A filter keeps nothing exactly when no element passes. */
  lemma {:induction false} FilterNone<T>(s: seq<T>, p: T -> bool)
    requires forall i :: 0 <= i < |s| ==> !p(s[i])
    ensures Filter(s, p) == []
  {
    if s != [] {
      FilterNone(s[1..], p);
    }
  }

  /** Splitting by `p` and by its negation partitions the elements. */
  lemma {:induction false} FilterPartition<T>(s: seq<T>, p: T -> bool, q: T -> bool)
    requires forall x {:trigger q(x)} :: q(x) == !p(x)
    ensures multiset(Filter(s, p)) + multiset(Filter(s, q)) == multiset(s)
  {
    if s != [] {
      var x, rest := s[0], s[1..];
      FilterPartition(rest, p, q);
      var fp, fq := Filter(rest, p), Filter(rest, q);
      assert multiset(s) == multiset{x} + multiset(rest) by {
        assert s == [x] + rest;
      }
      if p(x) {
        assert multiset(Filter(s, p)) == multiset{x} + multiset(fp) by {
          FilterCons(s, p);
          assert multiset([x] + fp) == multiset{x} + multiset(fp);
        }
        assert Filter(s, q) == fq by {
          FilterCons(s, q);
          assert !q(x);
        }
      } else {
        assert Filter(s, p) == fp by {
          FilterCons(s, p);
        }
        assert multiset(Filter(s, q)) == multiset{x} + multiset(fq) by {
          FilterCons(s, q);
          assert q(x);
          assert multiset([x] + fq) == multiset{x} + multiset(fq);
        }
      }
    }
  }

  /** A filter of a sequence whose keys strictly increase, all above `b`,
      still has strictly increasing keys above `b`. */
  lemma {:induction false} FilterKeepsIncreasing<T>(s: seq<T>, p: T -> bool, key: T -> int, b: int)
    requires forall i :: 0 <= i < |s| ==> b < key(s[i])
    requires forall i, j :: 0 <= i < j < |s| ==> key(s[i]) < key(s[j])
    ensures var r := Filter(s, p);
            && (forall i :: 0 <= i < |r| ==> b < key(r[i]))
            && (forall i, j :: 0 <= i < j < |r| ==> key(r[i]) < key(r[j]))
  {
    if s != [] {
      FilterKeepsIncreasing(s[1..], p, key, key(s[0]));
      FilterMultiset(s[1..], p);
      var rest := Filter(s[1..], p);
      assert forall i :: 0 <= i < |rest| ==> b < key(rest[i]) by { assert b < key(s[0]); }
      FilterCons(s, p);
    }
  }

  /** No two positions of `s` carry the same key. */
  predicate DistinctBy<T>(s: seq<T>, key: T -> nat)
  {
    forall i, j :: 0 <= i < j < |s| ==> key(s[i]) != key(s[j])
  }

  /** Every key of `s` is below `bound`. */
  predicate AllBelow<T>(s: seq<T>, key: T -> nat, bound: nat)
  {
    forall i :: 0 <= i < |s| ==> key(s[i]) < bound
  }

  /** Filtering never introduces a repeated key. */
  lemma {:induction false} FilterKeepsDistinct<T>(s: seq<T>, p: T -> bool, key: T -> nat)
    requires DistinctBy(s, key)
    ensures DistinctBy(Filter(s, p), key)
  {
    if s != [] {
      FilterKeepsDistinct(s[1..], p, key);
      FilterMultiset(s[1..], p);
      var rest := Filter(s[1..], p);
      if p(s[0]) {
        forall j | 0 <= j < |rest|
          ensures key(s[0]) != key(rest[j])
        {
          assert rest[j] in s[1..];
          var k :| 0 <= k < |s[1..]| && s[1..][k] == rest[j];
          assert s[k + 1] == rest[j];
        }
      }
    }
  }

  /** Filtering never introduces a key at or above the bound. */
  lemma FilterKeepsBelow<T>(s: seq<T>, p: T -> bool, key: T -> nat, bound: nat)
    requires AllBelow(s, key, bound)
    ensures AllBelow(Filter(s, p), key, bound)
  {
    var r := Filter(s, p);
    FilterMultiset(s, p);
    forall i | 0 <= i < |r| ensures key(r[i]) < bound {
      assert r[i] in multiset(s);
      var j :| 0 <= j < |s| && s[j] == r[i];
    }
  }

  /** Concatenating two key-disjoint distinct sequences keeps keys distinct. */
  lemma ConcatDistinct<T>(a: seq<T>, b: seq<T>, key: T -> nat, bound: nat)
    requires DistinctBy(a, key) && DistinctBy(b, key)
    requires AllBelow(a, key, bound)
    requires forall i :: 0 <= i < |b| ==> key(b[i]) >= bound
    ensures DistinctBy(a + b, key)
  {
    var ab := a + b;
    forall i, j | 0 <= i < j < |ab|
      ensures key(ab[i]) != key(ab[j])
    {
      if j < |a| {
        assert ab[i] == a[i] && ab[j] == a[j];
      } else if i >= |a| {
        assert ab[i] == b[i - |a|] && ab[j] == b[j - |a|];
      } else {
        assert ab[i] == a[i] && ab[j] == b[j - |a|];
      }
    }
  }
}
