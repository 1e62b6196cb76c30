/** The three array idioms every handler is built from: `find` (first
    match), `filter` and a `map` that rewrites the records matching a test. */
module Collection {
  import opened Types

  /** `s.find(hit)`: the first element satisfying `hit`, if any. */
  function Find<T>(s: seq<T>, hit: T -> bool): (r: Option<T>)
    ensures r.None? <==> forall i :: 0 <= i < |s| ==> !hit(s[i])
    ensures r.Some? ==> exists k :: 0 <= k < |s| && s[k] == r.value && hit(s[k]) &&
                          forall j :: 0 <= j < k ==> !hit(s[j])
  {
    if |s| == 0 then None
    else if hit(s[0]) then Some(s[0])
    else
      var r := Find(s[1..], hit);
      if r.Some? then
        ghost var k :| 0 <= k < |s[1..]| && s[1..][k] == r.value && hit(s[1..][k]) &&
                       forall j :: 0 <= j < k ==> !hit(s[1..][j]);
        assert s[k + 1] == r.value && forall j :: 0 <= j < k + 1 ==> !hit(s[j]);
        r
      else r
  }

  /** The last element satisfying `hit`, if any. */
  function FindLast<T>(s: seq<T>, hit: T -> bool): (r: Option<T>)
    ensures r.None? <==> forall i :: 0 <= i < |s| ==> !hit(s[i])
    ensures r.Some? ==> exists k :: 0 <= k < |s| && s[k] == r.value && hit(s[k]) &&
                          forall j :: k < j < |s| ==> !hit(s[j])
  {
    if |s| == 0 then None
    else if hit(s[|s| - 1]) then Some(s[|s| - 1])
    else FindLast(s[..|s| - 1], hit)
  }

  /** `s.filter(keep)`. */
  function Filter<T>(s: seq<T>, keep: T -> bool): (r: seq<T>)
    ensures |r| <= |s|
    ensures forall i :: 0 <= i < |r| ==> r[i] in s && keep(r[i])
    ensures forall i :: 0 <= i < |s| && keep(s[i]) ==> s[i] in r
    ensures (forall i :: 0 <= i < |s| ==> keep(s[i])) ==> r == s
  {
    if |s| == 0 then []
    else if keep(s[0]) then [s[0]] + Filter(s[1..], keep)
    else Filter(s[1..], keep)
  }

  /** `s.map(x => hit(x) ? f(x) : x)`: same length, the hits rewritten in
      place, the rest kept, and no hit means no change. */
  function UpdateWhere<T>(s: seq<T>, hit: T -> bool, f: T -> T): (r: seq<T>)
    ensures |r| == |s|
    ensures forall i :: 0 <= i < |s| && hit(s[i]) ==> r[i] == f(s[i])
    ensures forall i :: 0 <= i < |s| && !hit(s[i]) ==> r[i] == s[i]
    ensures (forall i :: 0 <= i < |s| ==> !hit(s[i])) ==> r == s
  {
    seq(|s|, i requires 0 <= i < |s| => if hit(s[i]) then f(s[i]) else s[i])
  }

  /** How many elements satisfy `p`. */
  function Count<T>(s: seq<T>, p: T -> bool): nat
  {
    if |s| == 0 then 0 else (if p(s[0]) then 1 else 0) + Count(s[1..], p)
  }

  /** A filter keeps exactly as many elements as its test accepts. */
  lemma {:induction false} FilterCount<T>(s: seq<T>, keep: T -> bool)
    ensures |Filter(s, keep)| == Count(s, keep)
  {
    if |s| > 0 {
      FilterCount(s[1..], keep);
    }
  }

  /** Filtering out the one element at index `k` that fails `keep`
      removes exactly that index and keeps the rest in order. */
  lemma {:induction false} FilterRemovesOne<T>(s: seq<T>, keep: T -> bool, k: nat)
    requires k < |s|
    requires !keep(s[k])
    requires forall i :: 0 <= i < |s| && i != k ==> keep(s[i])
    ensures Filter(s, keep) == s[..k] + s[k + 1..]
  {
    var t := s[1..];
    if k == 0 {
      FilterDropsHead(s, keep);
      assert s[..0] + s[1..] == t;
    } else {
      assert forall i :: 0 <= i < |t| && i != k - 1 ==> keep(t[i]) by {
        forall i | 0 <= i < |t| && i != k - 1 ensures keep(t[i]) { assert t[i] == s[i + 1]; }
      }
      FilterRemovesOne(t, keep, k - 1);
      FilterConsHead(s, keep, t[..k - 1] + t[k..]);
      ConsSplice(s, k);
    }
  }

  /** Filtering a concatenation filters each part and keeps them in
      order, so the survivors keep their relative order. */
  lemma {:induction false} FilterAppend<T>(a: seq<T>, b: seq<T>, keep: T -> bool)
    ensures Filter(a + b, keep) == Filter(a, keep) + Filter(b, keep)
  {
    if |a| == 0 {
      assert a + b == b;
    } else {
      assert (a + b)[0] == a[0] && (a + b)[1..] == a[1..] + b;
      FilterAppend(a[1..], b, keep);
    }
  }

  /** Putting the head back in front of the tail with one index removed. */
  lemma ConsSplice<T>(s: seq<T>, k: nat)
    requires 0 < k < |s|
    ensures [s[0]] + (s[1..][..k - 1] + s[1..][k..]) == s[..k] + s[k + 1..]
  {
    assert s[1..][..k - 1] == s[1..k] && s[1..][k..] == s[k + 1..];
    assert [s[0]] + s[1..k] == s[..k];
  }

  /** A first element that fails `keep`, followed by ones that all pass,
      leaves the tail. */
  lemma FilterDropsHead<T>(s: seq<T>, keep: T -> bool)
    requires |s| > 0 && !keep(s[0])
    requires forall i :: 1 <= i < |s| ==> keep(s[i])
    ensures Filter(s, keep) == s[1..]
  {
    var t := s[1..];
    forall i | 0 <= i < |t| ensures keep(t[i]) { assert t[i] == s[i + 1]; }
  }

  /** A kept first element stays in front of the filtered tail. */
  lemma FilterConsHead<T>(s: seq<T>, keep: T -> bool, rest: seq<T>)
    requires |s| > 0 && keep(s[0]) && Filter(s[1..], keep) == rest
    ensures Filter(s, keep) == [s[0]] + rest
  {
  }

  /** The first element `Filter` keeps is the first element of `s` that
      satisfies `keep`. */
  lemma {:induction false} FilterHead<T>(s: seq<T>, keep: T -> bool, k: nat)
    requires k < |s| && keep(s[k])
    requires forall j :: 0 <= j < k ==> !keep(s[j])
    ensures |Filter(s, keep)| > 0 && Filter(s, keep)[0] == s[k]
  {
    if k > 0 {
      FilterHead(s[1..], keep, k - 1);
    }
  }

  /** Index `k` holds the first element whose key is `x` (what `find` on
      that key returns). */
  predicate FirstKeyAt<T, K(==)>(s: seq<T>, key: T -> K, x: K, k: int)
  {
    0 <= k < |s| && key(s[k]) == x && forall j :: 0 <= j < k ==> key(s[j]) != x
  }

  /** No two positions of `s` carry the same key. */
  predicate DistinctBy<T, K(==)>(s: seq<T>, key: T -> K)
  {
    forall i, j :: 0 <= i < |s| && 0 <= j < |s| && key(s[i]) == key(s[j]) ==> i == j
  }

  /** Filtering never makes two keys collide. */
  lemma {:induction false} FilterKeepsDistinct<T, K>(s: seq<T>, keep: T -> bool, key: T -> K)
    requires DistinctBy(s, key)
    ensures DistinctBy(Filter(s, keep), key)
  {
    if |s| > 0 {
      assert DistinctBy(s[1..], key) by {
        forall i, j | 0 <= i < |s[1..]| && 0 <= j < |s[1..]| && key(s[1..][i]) == key(s[1..][j])
          ensures i == j
        {
          assert s[1..][i] == s[i + 1] && s[1..][j] == s[j + 1];
        }
      }
      FilterKeepsDistinct(s[1..], keep, key);
      if keep(s[0]) {
        var t := Filter(s[1..], keep);
        forall i | 0 <= i < |t| ensures key(t[i]) != key(s[0])
        {
          var m :| 0 <= m < |s[1..]| && s[1..][m] == t[i];
          assert s[m + 1] == t[i];
        }
        assert Filter(s, keep) == [s[0]] + t;
      }
    }
  }

  /** A rewrite that keeps keys keeps them distinct. */
  lemma UpdateWhereKeepsDistinct<T, K>(s: seq<T>, hit: T -> bool, f: T -> T, key: T -> K)
    requires DistinctBy(s, key)
    requires forall i :: 0 <= i < |s| ==> key(f(s[i])) == key(s[i])
    ensures DistinctBy(UpdateWhere(s, hit, f), key)
  {
  }

  /** Two complementary tests count every element exactly once. */
  lemma {:induction false} CountComplement<T>(s: seq<T>, p: T -> bool, q: T -> bool)
    requires forall i :: 0 <= i < |s| ==> p(s[i]) != q(s[i])
    ensures Count(s, p) + Count(s, q) == |s|
  {
    if |s| > 0 {
      CountComplement(s[1..], p, q);
    }
  }
}
