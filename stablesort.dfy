/** Python's `list.sort(key=..., reverse=True)` as used by the seating
    program: a stable sort, so items with equal keys keep their original
    order, and with `reverse=True` the keys descend.  The sort is stated on
    positions: `SortDesc(keys)` lists the positions 0..|keys|-1 in the
    order the sorted list holds them. */
module StableSort {

  /** Position `x` comes before position `y`: a larger key, or an equal key
      and an earlier position. */
  predicate Before(x: int, y: int, keys: seq<int>)
    requires 0 <= x < |keys| && 0 <= y < |keys|
  {
    keys[x] > keys[y] || (keys[x] == keys[y] && x < y)
  }

  /** `xs` lists positions by descending key; positions with equal keys
      ascend. */
  predicate Ordered(xs: seq<int>, keys: seq<int>)
    requires InRange(xs, |keys|)
  {
    forall a, b :: 0 <= a < b < |xs| ==> Before(xs[a], xs[b], keys)
  }

  predicate InRange(xs: seq<int>, n: int) {
    forall k :: 0 <= k < |xs| ==> 0 <= xs[k] < n
  }

  /** Insertion of position `i`, later than every position in `xs`, in
      front of the first position with a smaller key. */
  function Insert(i: int, xs: seq<int>, keys: seq<int>): (r: seq<int>)
    requires 0 <= i < |keys| && InRange(xs, |keys|)
    ensures |r| == |xs| + 1 && InRange(r, |keys|)
    ensures multiset(r) == multiset(xs) + multiset{i}
  {
    if xs == [] then [i]
    else if keys[xs[0]] < keys[i] then [i] + xs
    else
      assert xs == [xs[0]] + xs[1..];
      [xs[0]] + Insert(i, xs[1..], keys)
  }

  /** A position before `i` and before all of `xs` is before all of the
      insertion. */
  lemma {:induction false} InsertAfter(p: int, i: int, xs: seq<int>, keys: seq<int>)
    requires 0 <= i < |keys| && 0 <= p < |keys| && InRange(xs, |keys|)
    requires Before(p, i, keys) && forall k :: 0 <= k < |xs| ==> Before(p, xs[k], keys)
    ensures forall k :: 0 <= k < |Insert(i, xs, keys)| ==> Before(p, Insert(i, xs, keys)[k], keys)
  {
    if xs != [] && keys[xs[0]] >= keys[i] {
      InsertAfter(p, i, xs[1..], keys);
    }
  }

  lemma {:induction false} InsertOrdered(i: int, xs: seq<int>, keys: seq<int>)
    requires 0 <= i < |keys| && InRange(xs, |keys|)
    requires Ordered(xs, keys) && forall k :: 0 <= k < |xs| ==> xs[k] < i
    ensures Ordered(Insert(i, xs, keys), keys)
  {
    if xs != [] && keys[xs[0]] >= keys[i] {
      var t := Insert(i, xs[1..], keys);
      InsertOrdered(i, xs[1..], keys);
      assert forall k :: 0 <= k < |xs[1..]| ==> Before(xs[0], xs[1..][k], keys);
      InsertAfter(xs[0], i, xs[1..], keys);
      var r := [xs[0]] + t;
      forall a, b | 0 <= a < b < |r| ensures Before(r[a], r[b], keys) {
        if a > 0 {
          assert r[a] == t[a - 1] && r[b] == t[b - 1];
        } else {
          assert r[b] == t[b - 1];
        }
      }
    }
  }

  /** The positions 0..n-1 of `keys`, stably sorted by descending key. */
  function SortDesc(keys: seq<int>, n: int): (r: seq<int>)
    requires 0 <= n <= |keys|
    ensures |r| == n && InRange(r, |keys|)
    ensures forall k :: 0 <= k < |r| ==> r[k] < n
  {
    if n == 0 then []
    else
      var r := Insert(n - 1, SortDesc(keys, n - 1), keys);
      assert forall k :: 0 <= k < |r| ==> r[k] in multiset(r);
      r
  }

  /** The sort is ordered and lists every position exactly once. */
  lemma SortDescCorrect(keys: seq<int>, n: int)
    requires 0 <= n <= |keys|
    ensures Ordered(SortDesc(keys, n), keys)
    ensures multiset(SortDesc(keys, n)) == multiset(Upto(n))
    ensures forall x :: 0 <= x < n ==> x in SortDesc(keys, n)
  {
    SortDescOrdered(keys, n);
    SortDescPerm(keys, n);
    forall x | 0 <= x < n ensures x in SortDesc(keys, n) {
      assert x in multiset(Upto(n)) by { assert Upto(n)[x] == x; }
    }
  }

  lemma {:induction false} SortDescOrdered(keys: seq<int>, n: int)
    requires 0 <= n <= |keys|
    ensures Ordered(SortDesc(keys, n), keys)
  {
    if n > 0 {
      SortDescOrdered(keys, n - 1);
      InsertOrdered(n - 1, SortDesc(keys, n - 1), keys);
    }
  }

  lemma {:induction false} SortDescPerm(keys: seq<int>, n: int)
    requires 0 <= n <= |keys|
    ensures multiset(SortDesc(keys, n)) == multiset(Upto(n))
  {
    if n > 0 {
      SortDescPerm(keys, n - 1);
      assert SortDesc(keys, n) == Insert(n - 1, SortDesc(keys, n - 1), keys);
      assert Upto(n) == Upto(n - 1) + [n - 1];
    }
  }

  /** A position that the sort does not list before index `i` comes after
      the position at `i`. */
  lemma LaterBefore(keys: seq<int>, n: int, i: int, q: int)
    requires 0 <= n <= |keys| && 0 <= i < n && 0 <= q < n
    requires q != SortDesc(keys, n)[i] && forall j :: 0 <= j < i ==> SortDesc(keys, n)[j] != q
    ensures Before(SortDesc(keys, n)[i], q, keys)
  {
    var r := SortDesc(keys, n);
    SortDescCorrect(keys, n);
    assert q in r;
    var j :| 0 <= j < |r| && r[j] == q;
    assert i < j;
  }

  function Upto(n: int): (r: seq<int>)
    requires n >= 0
    ensures |r| == n && forall k :: 0 <= k < n ==> r[k] == k
  {
    if n == 0 then [] else Upto(n - 1) + [n - 1]
  }

  /** An ordered listing holds no position twice. */
  lemma OrderedDistinct(xs: seq<int>, keys: seq<int>)
    requires InRange(xs, |keys|) && Ordered(xs, keys)
    ensures forall a, b :: 0 <= a < b < |xs| ==> xs[a] != xs[b]
  {
  }
}
