/** Sorting the subjects by roll count only reorders them, so the records
    allocate makes hold every roll of every subject exactly as often as
    the subjects list it, in whatever order the sort put the subjects. */
module SeatRolls {
  import StableSort
  import opened SeatAlloc

  /** The rolls of the subjects at positions `xs`, in that order. */
  function RollsAt(subs: seq<Subject>, xs: seq<int>): seq<string>
    requires StableSort.InRange(xs, |subs|)
  {
    if xs == [] then [] else RollsAt(subs, xs[..|xs| - 1]) + subs[xs[|xs| - 1]].rolls
  }

  lemma {:induction false} RollsAtConcat(subs: seq<Subject>, u: seq<int>, v: seq<int>)
    requires StableSort.InRange(u, |subs|) && StableSort.InRange(v, |subs|)
    ensures StableSort.InRange(u + v, |subs|)
    ensures RollsAt(subs, u + v) == RollsAt(subs, u) + RollsAt(subs, v)
  {
    assert StableSort.InRange(u + v, |subs|) by {
      forall k | 0 <= k < |u + v| ensures 0 <= (u + v)[k] < |subs| {
        if k >= |u| { assert (u + v)[k] == v[k - |u|]; }
      }
    }
    if v == [] {
      assert u + v == u;
    } else {
      var v' := v[..|v| - 1];
      RollsAtConcat(subs, u, v');
      assert (u + v)[..|u + v| - 1] == u + v';
      assert (u + v)[|u + v| - 1] == v[|v| - 1];
    }
  }

  /** Positions listing the same subjects as often give the same rolls as
      often. */
  lemma {:induction false} RollsAtPerm(subs: seq<Subject>, xs: seq<int>, ys: seq<int>)
    requires StableSort.InRange(xs, |subs|) && StableSort.InRange(ys, |subs|)
    requires multiset(xs) == multiset(ys)
    ensures multiset(RollsAt(subs, xs)) == multiset(RollsAt(subs, ys))
    decreases |xs|
  {
    if xs == [] {
      assert |ys| == |multiset(ys)| == 0;
    } else {
      var x := xs[|xs| - 1];
      var xs' := xs[..|xs| - 1];
      assert xs == xs' + [x];
      var a, b := Pick(ys, x, |subs|);
      Cancel(multiset(xs'), multiset(a + b), x);
      RollsAtSplit(subs, a, x, b);
      RollsAtPerm(subs, xs', a + b);
      Regroup(RollsAt(subs, xs'), RollsAt(subs, a), RollsAt(subs, b), subs[x].rolls);
    }
  }

  /** An occurrence of `x` cuts `ys` in two. */
  lemma Pick(ys: seq<int>, x: int, n: int) returns (a: seq<int>, b: seq<int>)
    requires StableSort.InRange(ys, n) && x in multiset(ys)
    ensures ys == a + [x] + b && multiset(ys) == multiset(a + b) + multiset{x}
    ensures StableSort.InRange(a, n) && StableSort.InRange(b, n)
  {
    var j :| 0 <= j < |ys| && ys[j] == x;
    a, b := ys[..j], ys[j + 1..];
    assert ys == a + [x] + b;
    forall k | 0 <= k < |a| ensures 0 <= a[k] < n { assert a[k] == ys[k]; }
    forall k | 0 <= k < |b| ensures 0 <= b[k] < n { assert b[k] == ys[j + 1 + k]; }
  }

  lemma RollsAtSplit(subs: seq<Subject>, a: seq<int>, x: int, b: seq<int>)
    requires StableSort.InRange(a, |subs|) && StableSort.InRange(b, |subs|) && 0 <= x < |subs|
    ensures StableSort.InRange(a + [x] + b, |subs|) && StableSort.InRange(a + b, |subs|)
    ensures RollsAt(subs, a + [x] + b) == RollsAt(subs, a) + subs[x].rolls + RollsAt(subs, b)
    ensures RollsAt(subs, a + b) == RollsAt(subs, a) + RollsAt(subs, b)
  {
    RollsAtConcat(subs, a, b);
    RollsAtConcat(subs, a, [x]);
    RollsAtConcat(subs, a + [x], b);
    assert RollsAt(subs, [x]) == subs[x].rolls by { assert [x][..0] == []; }
  }

  lemma Regroup(l: seq<string>, ra: seq<string>, rb: seq<string>, rx: seq<string>)
    requires multiset(l) == multiset(ra + rb)
    ensures multiset(l + rx) == multiset(ra + rx + rb)
  {
  }

  lemma Cancel(p: multiset<int>, q: multiset<int>, x: int)
    requires p + multiset{x} == q + multiset{x}
    ensures p == q
  {
    forall y ensures p[y] == q[y] {
      assert (p + multiset{x})[y] == (q + multiset{x})[y];
    }
  }

  /** The first `n` positions in order give the rolls of the first `n`
      subjects. */
  lemma {:induction false} RollsAtUpto(subs: seq<Subject>, n: int)
    requires 0 <= n <= |subs|
    ensures StableSort.InRange(StableSort.Upto(n), |subs|)
    ensures RollsAt(subs, StableSort.Upto(n)) == RollsOf(subs[..n])
  {
    if n > 0 {
      RollsAtUpto(subs, n - 1);
      assert StableSort.Upto(n)[..n - 1] == StableSort.Upto(n - 1);
      assert subs[..n][..n - 1] == subs[..n - 1];
    }
  }

  /** A list picked by positions has the rolls of those positions. */
  lemma {:induction false} RollsOfPicked(subs: seq<Subject>, xs: seq<int>, r: seq<Subject>)
    requires StableSort.InRange(xs, |subs|) && |r| == |xs|
    requires forall k :: 0 <= k < |xs| ==> r[k] == subs[xs[k]]
    ensures RollsOf(r) == RollsAt(subs, xs)
  {
    if xs != [] {
      RollsOfPicked(subs, xs[..|xs| - 1], r[..|r| - 1]);
    }
  }

  /** The sorted subjects hold the same rolls, as often. */
  lemma SortedRolls(subs: seq<Subject>)
    ensures multiset(RollsOf(Sorted(subs))) == multiset(RollsOf(subs))
  {
    var order := StableSort.SortDesc(Lengths(subs), |subs|);
    var up := StableSort.Upto(|subs|);
    assert RollsOf(Sorted(subs)) == RollsAt(subs, order) by {
      RollsOfPicked(subs, order, Sorted(subs));
    }
    assert RollsAt(subs, up) == RollsOf(subs) by {
      RollsAtUpto(subs, |subs|);
      assert subs[..|subs|] == subs;
    }
    assert multiset(RollsAt(subs, order)) == multiset(RollsAt(subs, up)) by {
      StableSort.SortDescCorrect(Lengths(subs), |subs|);
      RollsAtPerm(subs, order, up);
    }
  }

  /** Every roll of every subject lands in exactly one record, seated or
      UNALLOCATED, as often as the subjects list it. */
  lemma AllocateRolls(blocks: seq<Block>, mode: Mode, skipEmpty: bool, subs: seq<Subject>)
    ensures multiset(AllRolls(Allocate(blocks, mode, skipEmpty, subs).recs)) == multiset(RollsOf(subs))
    ensures Counted(Allocate(blocks, mode, skipEmpty, subs).recs)
  {
    AllocAllRolls(blocks, mode, skipEmpty, Sorted(subs));
    SortedRolls(subs);
  }
}
