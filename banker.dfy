/** The Banker's algorithm of the resource-allocation lab: P processes,
    R resource types, the vector `available` and the matrices `max`,
    `allocation` and `need`.  The safety check and the admission of one
    request (grant, check, roll back) are the bodies of the locked
    sections, modelled as sequential methods. */
module Banker {

  const P: int := 5
  const R: int := 3

  type Mat = seq<seq<int>>

  predicate Shaped(m: Mat) {
    |m| == P && forall i :: 0 <= i < |m| ==> |m[i]| == R
  }

  predicate NonNeg(m: Mat)
    requires Shaped(m)
  {
    forall i, j :: 0 <= i < P && 0 <= j < R ==> m[i][j] >= 0
  }

  /** Every entry names a process. */
  predicate Procs(order: seq<int>) {
    forall k :: 0 <= k < |order| ==> 0 <= order[k] < P
  }

  predicate Distinct(order: seq<int>) {
    forall a, b :: 0 <= a < b < |order| ==> order[a] != order[b]
  }

  /** Column `j` of the allocations of the processes in `order`. */
  function SeqSum(alloc: Mat, order: seq<int>, j: int): int
    requires Shaped(alloc) && 0 <= j < R && Procs(order)
  {
    if order == [] then 0
    else SeqSum(alloc, order[..|order| - 1], j) + alloc[order[|order| - 1]][j]
  }

  /** `order` lets every process finish: each one's need is covered by
      the available resources plus what the processes before it give
      back when they finish. */
  ghost predicate SafeOrder(avail: seq<int>, alloc: Mat, need: Mat, order: seq<int>)
    requires |avail| == R && Shaped(alloc) && Shaped(need)
  {
    && Procs(order) && Distinct(order)
    && (forall q :: 0 <= q < P ==> q in order)
    && (forall k, j :: 0 <= k < |order| && 0 <= j < R ==>
          need[order[k]][j] <= avail[j] + SeqSum(alloc, order[..k], j))
  }

  /** A state is safe when some order lets every process finish. */
  ghost predicate Safe(avail: seq<int>, alloc: Mat, need: Mat)
    requires |avail| == R && Shaped(alloc) && Shaped(need)
  {
    exists order :: SafeOrder(avail, alloc, need, order)
  }

  // ---- sums over the finished processes ----

  /** Column `j` of the allocations of the processes among the first `n`
      whose flag is set. */
  function ColSum(alloc: Mat, mask: seq<bool>, j: int, n: int): int
    requires Shaped(alloc) && |mask| == P && 0 <= j < R && 0 <= n <= P
  {
    if n == 0 then 0
    else ColSum(alloc, mask, j, n - 1) + (if mask[n - 1] then alloc[n - 1][j] else 0)
  }

  function CountTrue(mask: seq<bool>, n: int): (c: int)
    requires 0 <= n <= |mask|
    ensures 0 <= c <= n
  {
    if n == 0 then 0 else CountTrue(mask, n - 1) + (if mask[n - 1] then 1 else 0)
  }

  function Mask(order: seq<int>): (m: seq<bool>)
    ensures |m| == P && forall q :: 0 <= q < P ==> (m[q] <==> q in order)
  {
    seq(P, q => q in order)
  }

  lemma {:induction false} ColSumFlip(alloc: Mat, mask: seq<bool>, x: int, j: int, n: int)
    requires Shaped(alloc) && |mask| == P && 0 <= j < R && 0 <= n <= P && 0 <= x < P && !mask[x]
    ensures ColSum(alloc, mask[x := true], j, n) == ColSum(alloc, mask, j, n) + (if x < n then alloc[x][j] else 0)
  {
    if n > 0 { ColSumFlip(alloc, mask, x, j, n - 1); }
  }

  lemma {:induction false} CountFlip(mask: seq<bool>, x: int, n: int)
    requires 0 <= n <= |mask| && 0 <= x < |mask| && !mask[x]
    ensures CountTrue(mask[x := true], n) == CountTrue(mask, n) + (if x < n then 1 else 0)
  {
    if n > 0 { CountFlip(mask, x, n - 1); }
  }

  /** Exactly `n` of the first `n` flags are set iff all of them are. */
  lemma {:induction false} CountAll(mask: seq<bool>, n: int)
    requires 0 <= n <= |mask|
    ensures CountTrue(mask, n) == n <==> forall q :: 0 <= q < n ==> mask[q]
  {
    if n > 0 { CountAll(mask, n - 1); }
  }

  /** Summing over a list of distinct processes is summing over its mask. */
  lemma {:induction false} SeqMask(alloc: Mat, order: seq<int>, j: int)
    requires Shaped(alloc) && 0 <= j < R && Procs(order) && Distinct(order)
    ensures SeqSum(alloc, order, j) == ColSum(alloc, Mask(order), j, P)
  {
    if order != [] {
      var a, x := order[..|order| - 1], order[|order| - 1];
      assert order == a + [x];
      assert Procs(a) && Distinct(a);
      SeqMask(alloc, a, j);
      assert SeqSum(alloc, order, j) == SeqSum(alloc, a, j) + alloc[x][j];
      assert x !in a;
      assert Mask(order) == Mask(a)[x := true];
      ColSumFlip(alloc, Mask(a), x, j, P);
    } else {
      ColSumNone(alloc, Mask(order), j, P);
    }
  }

  lemma {:induction false} ColSumNone(alloc: Mat, mask: seq<bool>, j: int, n: int)
    requires Shaped(alloc) && |mask| == P && 0 <= j < R && 0 <= n <= P
    requires forall q :: 0 <= q < P ==> !mask[q]
    ensures ColSum(alloc, mask, j, n) == 0
  {
    if n > 0 { ColSumNone(alloc, mask, j, n - 1); }
  }

  /** With non-negative allocations, more finished processes give back more. */
  lemma {:induction false} ColSumMono(alloc: Mat, m1: seq<bool>, m2: seq<bool>, j: int, n: int)
    requires Shaped(alloc) && NonNeg(alloc) && |m1| == P && |m2| == P && 0 <= j < R && 0 <= n <= P
    requires forall q :: 0 <= q < P && m1[q] ==> m2[q]
    ensures ColSum(alloc, m1, j, n) <= ColSum(alloc, m2, j, n)
  {
    if n > 0 { ColSumMono(alloc, m1, m2, j, n - 1); }
  }

  // ---- the greedy search of is_safe ----

  /** What the greedy search knows after finishing the processes of
      `order`, flagged in `finish`, with `work` in hand. */
  ghost predicate Progress(avail: seq<int>, alloc: Mat, need: Mat, order: seq<int>,
                           work: seq<int>, finish: seq<bool>, count: int)
    requires |avail| == R && Shaped(alloc) && Shaped(need)
  {
    && Procs(order) && Distinct(order)
    && |work| == R && |finish| == P
    && (forall q :: 0 <= q < P ==> (finish[q] <==> q in order))
    && count == |order| && count == CountTrue(finish, P)
    && (forall j :: 0 <= j < R ==> work[j] == avail[j] + SeqSum(alloc, order, j))
    && (forall k, j :: 0 <= k < |order| && 0 <= j < R ==>
          need[order[k]][j] <= avail[j] + SeqSum(alloc, order[..k], j))
  }

  /** Finishing process `p`, whose need the work covers, keeps Progress. */
  lemma FinishOne(avail: seq<int>, alloc: Mat, need: Mat, order: seq<int>,
                  work: seq<int>, finish: seq<bool>, count: int, p: int)
    requires |avail| == R && Shaped(alloc) && Shaped(need)
    requires Progress(avail, alloc, need, order, work, finish, count)
    requires 0 <= p < P && !finish[p]
    requires forall j :: 0 <= j < R ==> need[p][j] <= work[j]
    ensures Progress(avail, alloc, need, order + [p],
                     seq(R, j requires 0 <= j < R => work[j] + alloc[p][j]), finish[p := true], count + 1)
  {
    var o := order + [p];
    assert o[..|o| - 1] == order;
    forall k, j | 0 <= k < |o| && 0 <= j < R
      ensures need[o[k]][j] <= avail[j] + SeqSum(alloc, o[..k], j)
    {
      if k < |order| { assert o[..k] == order[..k]; }
    }
    CountFlip(finish, p, P);
    forall q | 0 <= q < P ensures (finish[p := true][q] <==> q in o) {}
  }

  /** When no unfinished process can go on, no order lets them all
      finish: the first unfinished process of any order would have had
      its need covered by what the finished ones give back. */
  lemma Stuck(avail: seq<int>, alloc: Mat, need: Mat, order: seq<int>,
              work: seq<int>, finish: seq<bool>, count: int)
    requires |avail| == R && Shaped(alloc) && Shaped(need) && NonNeg(alloc)
    requires Progress(avail, alloc, need, order, work, finish, count) && count < P
    requires forall q :: 0 <= q < P && !finish[q] ==> exists j :: 0 <= j < R && need[q][j] > work[j]
    ensures !Safe(avail, alloc, need)
  {
    CountAll(finish, P);
    forall o | SafeOrder(avail, alloc, need, o) ensures false {
      var q :| 0 <= q < P && !finish[q];
      assert q in o;
      var k := FirstOut(o, finish);
      var pre := o[..k];
      assert Distinct(pre) && Procs(pre);
      var x := o[k];
      var j :| 0 <= j < R && need[x][j] > work[j];
      SeqMask(alloc, pre, j);
      SeqMask(alloc, order, j);
      forall y | 0 <= y < P && Mask(pre)[y] ensures Mask(order)[y] {
        var i :| 0 <= i < |pre| && pre[i] == y;
        assert finish[o[i]];
      }
      ColSumMono(alloc, Mask(pre), Mask(order), j, P);
    }
  }

  /** The first position of `o` whose process is unfinished. */
  function FirstOut(o: seq<int>, finish: seq<bool>): (k: int)
    requires Procs(o) && |finish| == P && exists i :: 0 <= i < |o| && !finish[o[i]]
    ensures 0 <= k < |o| && !finish[o[k]] && forall i :: 0 <= i < k ==> finish[o[i]]
  {
    if !finish[o[0]] then 0
    else
      assert exists i :: 0 <= i < |o[1..]| && !finish[o[1..][i]] by {
        var i :| 0 <= i < |o| && !finish[o[i]];
        assert o[1..][i - 1] == o[i];
      }
      1 + FirstOut(o[1..], finish)
  }

  // ---- the state of the bank ----

  datatype State = State(avail: seq<int>, alloc: Mat, need: Mat, max: Mat)

  /** Nothing negative, and each process's allocation and need add up to
      its maximum claim. */
  predicate Valid(s: State) {
    && |s.avail| == R && Shaped(s.alloc) && Shaped(s.need) && Shaped(s.max)
    && (forall j :: 0 <= j < R ==> s.avail[j] >= 0)
    && NonNeg(s.alloc) && NonNeg(s.need)
    && (forall i, j :: 0 <= i < P && 0 <= j < R ==> s.alloc[i][j] + s.need[i][j] == s.max[i][j])
  }

  /** The request passes the limit check of process_code. */
  predicate Fits(s: State, p: int, req: seq<int>)
    requires |s.avail| == R && Shaped(s.need) && 0 <= p < P && |req| == R
  {
    forall i :: 0 <= i < R ==> req[i] <= s.need[p][i] && req[i] <= s.avail[i]
  }

  /** The tentative grant. */
  function Grant(s: State, p: int, req: seq<int>): (t: State)
    requires |s.avail| == R && Shaped(s.alloc) && Shaped(s.need) && 0 <= p < P && |req| == R
    ensures |t.avail| == R && Shaped(t.alloc) && Shaped(t.need)
  {
    State(seq(R, i requires 0 <= i < R => s.avail[i] - req[i]),
          s.alloc[p := seq(R, i requires 0 <= i < R => s.alloc[p][i] + req[i])],
          s.need[p := seq(R, i requires 0 <= i < R => s.need[p][i] - req[i])],
          s.max)
  }

  /** The outcome of one request of process `p`: refused over its limits,
      granted when the grant leaves the state safe, and otherwise rolled
      back. */
  ghost function Request(s: State, p: int, req: seq<int>): (State, bool)
    requires |s.avail| == R && Shaped(s.alloc) && Shaped(s.need) && 0 <= p < P && |req| == R
  {
    if !Fits(s, p, req) then (s, false)
    else
      var t := Grant(s, p, req);
      if Safe(t.avail, t.alloc, t.need) then (t, true) else (s, false)
  }

  /** A grant moves resources from `available` to the process's
      allocation and out of its need, keeping both sums. */
  lemma GrantKeeps(s: State, p: int, req: seq<int>)
    requires Valid(s) && 0 <= p < P && |req| == R && (forall i :: 0 <= i < R ==> req[i] >= 0)
    requires Fits(s, p, req)
    ensures var t := Grant(s, p, req);
      && Valid(t)
      && (forall i :: 0 <= i < R ==> t.avail[i] + t.alloc[p][i] == s.avail[i] + s.alloc[p][i])
      && (forall i :: 0 <= i < R ==> t.alloc[p][i] + t.need[p][i] == s.alloc[p][i] + s.need[p][i])
      && (forall q :: 0 <= q < P && q != p ==> t.alloc[q] == s.alloc[q] && t.need[q] == s.need[q])
  {
    var t := Grant(s, p, req);
    assert forall i, j :: 0 <= i < P && 0 <= j < R && i != p ==> t.alloc[i][j] == s.alloc[i][j];
  }

  /** After any request the state is unchanged, or it is the grant and it
      is safe; the request is granted exactly when it fits and the grant
      is safe. */
  lemma RequestKeeps(s: State, p: int, req: seq<int>)
    requires Valid(s) && 0 <= p < P && |req| == R && (forall i :: 0 <= i < R ==> req[i] >= 0)
    ensures var (t, ok) := Request(s, p, req);
      && Valid(t)
      && (ok <==> Fits(s, p, req) && Safe(Grant(s, p, req).avail, Grant(s, p, req).alloc, Grant(s, p, req).need))
      && (!ok ==> t == s)
      && (ok ==> t == Grant(s, p, req) && Safe(t.avail, t.alloc, t.need))
  {
    if Fits(s, p, req) { GrantKeeps(s, p, req); }
  }

  // ---- the initial state of the lab ----

  const AVAIL0: seq<int> := [3, 3, 2]
  const MAX0: Mat := [[7, 5, 3], [3, 2, 2], [9, 0, 2], [2, 2, 2], [4, 3, 3]]
  const ALLOC0: Mat := [[0, 1, 0], [2, 0, 0], [3, 0, 2], [2, 1, 1], [0, 0, 2]]

  /** The needs main computes before starting the processes. */
  const NEED0: Mat := [[7, 4, 3], [1, 2, 2], [6, 0, 0], [0, 1, 1], [4, 3, 1]]

  /** The initial state is valid and safe: P1, P3, P4, P0, P2 can finish
      in turn. */
  lemma InitialSafe()
    ensures Valid(State(AVAIL0, ALLOC0, NEED0, MAX0))
    ensures Safe(AVAIL0, ALLOC0, NEED0)
  {
    InitialValid();
    var o := [1, 3, 4, 0, 2];
    forall k, j | 0 <= k < |o| && 0 <= j < R
      ensures NEED0[o[k]][j] <= AVAIL0[j] + SeqSum(ALLOC0, o[..k], j)
    {
      InitialCovers(k, j);
    }
    assert Distinct(o) && Procs(o);
    assert forall q :: 0 <= q < P ==> q in o by {
      forall q | 0 <= q < P ensures q in o {
        assert o[[3, 0, 4, 1, 2][q]] == q;
      }
    }
    assert SafeOrder(AVAIL0, ALLOC0, NEED0, o);
  }

  lemma InitialValid()
    ensures Valid(State(AVAIL0, ALLOC0, NEED0, MAX0))
  {
    forall i, j | 0 <= i < P && 0 <= j < R
      ensures ALLOC0[i][j] >= 0 && NEED0[i][j] >= 0 && ALLOC0[i][j] + NEED0[i][j] == MAX0[i][j]
    {
      assert 0 <= i < 5 && 0 <= j < 3;
    }
  }

  lemma InitialCovers(k: int, j: int)
    requires 0 <= k < 5 && 0 <= j < R
    ensures var o := [1, 3, 4, 0, 2]; NEED0[o[k]][j] <= AVAIL0[j] + SeqSum(ALLOC0, o[..k], j)
  {
    var o := [1, 3, 4, 0, 2];
    InitialSums(j);
    if k == 0 { assert o[..k] == []; }
    else if k == 1 { assert o[..k] == [1]; }
    else if k == 2 { assert o[..k] == [1, 3]; }
    else if k == 3 { assert o[..k] == [1, 3, 4]; }
    else { assert o[..k] == [1, 3, 4, 0]; }
  }

  /** What the processes finished before each point of that order give back. */
  lemma InitialSums(j: int)
    requires 0 <= j < R
    ensures SeqSum(ALLOC0, [], j) == 0
    ensures SeqSum(ALLOC0, [1], j) == [2, 0, 0][j]
    ensures SeqSum(ALLOC0, [1, 3], j) == [4, 1, 1][j]
    ensures SeqSum(ALLOC0, [1, 3, 4], j) == [4, 1, 3][j]
    ensures SeqSum(ALLOC0, [1, 3, 4, 0], j) == [4, 2, 3][j]
  {
    assert [1, 3, 4, 0][..3] == [1, 3, 4];
    assert [1, 3, 4][..2] == [1, 3];
    assert [1, 3][..1] == [1];
    assert [1][..0] == [];
  }

  lemma SeqSumSnoc(alloc: Mat, a: seq<int>, x: int, j: int)
    requires Shaped(alloc) && 0 <= j < R && Procs(a) && 0 <= x < P
    ensures SeqSum(alloc, a + [x], j) == SeqSum(alloc, a, j) + alloc[x][j]
  {
    assert (a + [x])[..|a|] == a;
  }

  // ---- the arrays of the program ----

  class Bank {
    const available: array<int>
    const max: array2<int>
    const allocation: array2<int>
    const need: array2<int>

    function Row(a: array2<int>, i: int): seq<int>
      reads a
      requires a.Length1 == R && 0 <= i < a.Length0
    {
      seq(R, j reads a requires 0 <= j < R => a[i, j])
    }

    function Matrix(a: array2<int>): (m: Mat)
      reads a
      requires a.Length0 == P && a.Length1 == R
      ensures Shaped(m) && forall i, j :: 0 <= i < P && 0 <= j < R ==> m[i][j] == a[i, j]
    {
      seq(P, i reads a requires 0 <= i < P => Row(a, i))
    }

    lemma MatrixIs(a: array2<int>, m: Mat)
      requires a.Length0 == P && a.Length1 == R && Shaped(m)
      requires forall i, j :: 0 <= i < P && 0 <= j < R ==> a[i, j] == m[i][j]
      ensures Matrix(a) == m
    {
      forall i | 0 <= i < P ensures Matrix(a)[i] == m[i] {}
    }

    ghost predicate Shapes()
      reads this
    {
      && available.Length == R
      && max.Length0 == P && max.Length1 == R
      && allocation.Length0 == P && allocation.Length1 == R
      && need.Length0 == P && need.Length1 == R
      && allocation != need && allocation != max && need != max
    }

    function Current(): State
      reads this, available, max, allocation, need
      requires Shapes()
    {
      State(available[..], Matrix(allocation), Matrix(need), Matrix(max))
    }

    /** The globals as the program declares them; `need` starts zeroed. */
    constructor ()
      ensures Shapes() && fresh(available) && fresh(max) && fresh(allocation) && fresh(need)
      ensures Current().avail == AVAIL0 && Current().alloc == ALLOC0 && Current().max == MAX0
      ensures forall i, j :: 0 <= i < P && 0 <= j < R ==> need[i, j] == 0
    {
      var av := new int[R];
      av[0], av[1], av[2] := 3, 3, 2;
      available := av;
      max := new int[P, R]((i, j) requires 0 <= i < P && 0 <= j < R => MAX0[i][j]);
      allocation := new int[P, R]((i, j) requires 0 <= i < P && 0 <= j < R => ALLOC0[i][j]);
      need := new int[P, R]((i, j) => 0);
      new;
      assert available[..] == AVAIL0;
      MatrixIs(max, MAX0);
      MatrixIs(allocation, ALLOC0);
    }

    /** The initialisation loop of main: need = max - allocation. */
    method InitNeed()
      requires Shapes()
      modifies need
      ensures forall i, j :: 0 <= i < P && 0 <= j < R ==> need[i, j] == max[i, j] - allocation[i, j]
    {
      var i := 0;
      while i < P
        invariant 0 <= i <= P
        invariant forall a, b :: 0 <= a < i && 0 <= b < R ==> need[a, b] == max[a, b] - allocation[a, b]
      {
        var j := 0;
        while j < R
          invariant 0 <= j <= R
          invariant forall a, b :: 0 <= a < i && 0 <= b < R ==> need[a, b] == max[a, b] - allocation[a, b]
          invariant forall b :: 0 <= b < j ==> need[i, b] == max[i, b] - allocation[i, b]
        {
          need[i, j] := max[i, j] - allocation[i, j];
          j := j + 1;
        }
        i := i + 1;
      }
    }

    /** is_safe: the greedy search on local copies `work` and `finish`.
        It answers true only with an order that lets every process finish,
        and, allocations being non-negative, false only when no such order
        exists. */
    method IsSafe() returns (safe: bool)
      requires Shapes()
      ensures safe ==> Safe(Current().avail, Current().alloc, Current().need)
      ensures NonNeg(Current().alloc) && Safe(Current().avail, Current().alloc, Current().need) ==> safe
    {
      ghost var s := Current();
      var work := CopyAvailable();
      var finish := new bool[P](_ => false);
      assert forall q :: 0 <= q < P ==> !finish[q];
      CountAll(finish[..], P);
      assert CountTrue(finish[..], P) == 0 by { ZeroCount(finish[..], P); }
      ghost var order: seq<int> := [];
      var count := 0;
      while count < P
        invariant Progress(s.avail, s.alloc, s.need, order, work[..], finish[..], count)
        decreases P - count
      {
        var found;
        found, count, order := Pass(s, work, finish, count, order);
        if !found {
          if NonNeg(s.alloc) {
            BlockedAll(s.need, work, finish);
            Stuck(s.avail, s.alloc, s.need, order, work[..], finish[..], count);
          }
          return false;
        }
      }
      CountAll(finish[..], P);
      assert SafeOrder(s.avail, s.alloc, s.need, order);
      return true;
    }

    /** The copy loop of is_safe: `work` starts as `available`. */
    method CopyAvailable() returns (work: array<int>)
      requires Shapes()
      ensures fresh(work) && work[..] == available[..]
    {
      work := new int[R];
      var i := 0;
      while i < R
        invariant 0 <= i <= R
        invariant forall k :: 0 <= k < i ==> work[k] == available[k]
      {
        work[i] := available[i];
        i := i + 1;
      }
    }

    /** One pass of is_safe's `for p` loop over the processes. */
    method Pass(ghost s: State, work: array<int>, finish: array<bool>, count: int, ghost order: seq<int>)
        returns (found: bool, count': int, ghost order': seq<int>)
      requires Shapes() && work.Length == R && finish.Length == P
      requires |s.avail| == R && s.alloc == Matrix(allocation) && s.need == Matrix(need)
      requires Progress(s.avail, s.alloc, s.need, order, work[..], finish[..], count)
      modifies work, finish
      ensures Progress(s.avail, s.alloc, s.need, order', work[..], finish[..], count')
      ensures found ==> count' > count
      ensures !found ==> count' == count && Blocked(work, finish, P)
    {
      found, count', order' := false, count, order;
      var p := 0;
      while p < P
        invariant 0 <= p <= P
        invariant Progress(s.avail, s.alloc, s.need, order', work[..], finish[..], count')
        invariant found ==> count' > count
        invariant !found ==> count' == count && Blocked(work, finish, p)
      {
        var done;
        done, order' := Visit(s, p, work, finish, count', order');
        if done {
          found := true;
          count' := count' + 1;
        }
        p := p + 1;
      }
    }

    /** Blocked over all processes, stated on the values of the arrays. */
    lemma BlockedAll(m: Mat, work: array<int>, finish: array<bool>)
      requires Shapes() && work.Length == R && finish.Length == P && m == Matrix(need)
      requires Blocked(work, finish, P)
      ensures forall q :: 0 <= q < P && !finish[..][q] ==> exists j :: 0 <= j < R && m[q][j] > work[..][j]
    {
      forall q | 0 <= q < P && !finish[..][q] ensures exists j :: 0 <= j < R && m[q][j] > work[..][j] {
        var j :| 0 <= j < R && need[q, j] > work[j];
        assert m[q][j] > work[..][j];
      }
    }

    /** No unfinished process among the first `n` has its need covered. */
    ghost predicate Blocked(work: array<int>, finish: array<bool>, n: int)
      reads this, need, work, finish
      requires need.Length0 == P && need.Length1 == R && work.Length == R && finish.Length == P && 0 <= n <= P
    {
      forall q :: 0 <= q < n && !finish[q] ==> exists j :: 0 <= j < R && need[q, j] > work[j]
    }

    /** The pass's step for process `p`: an unfinished process whose need
        the work covers finishes; otherwise nothing changes. */
    method Visit(ghost s: State, p: int, work: array<int>, finish: array<bool>, count: int, ghost order: seq<int>)
        returns (done: bool, ghost order': seq<int>)
      requires Shapes() && work.Length == R && finish.Length == P && 0 <= p < P
      requires |s.avail| == R && s.alloc == Matrix(allocation) && s.need == Matrix(need)
      requires Progress(s.avail, s.alloc, s.need, order, work[..], finish[..], count)
      modifies work, finish
      ensures Progress(s.avail, s.alloc, s.need, order', work[..], finish[..], if done then count + 1 else count)
      ensures !done ==> unchanged(work, finish)
      ensures !done && !finish[p] ==> exists j :: 0 <= j < R && need[p, j] > work[j]
      ensures !done && old(Blocked(work, finish, p)) ==> Blocked(work, finish, p + 1)
    {
      done, order' := false, order;
      if !finish[p] {
        var ok := Covered(p, work);
        if ok {
          order' := Finish(s, p, work, finish, count, order);
          done := true;
        }
      }
    }

    /** The body of the pass for a process whose need is covered: it
        gives back its allocation and is marked finished. */
    method Finish(ghost s: State, p: int, work: array<int>, finish: array<bool>, count: int, ghost order: seq<int>)
        returns (ghost order': seq<int>)
      requires Shapes() && work.Length == R && finish.Length == P && 0 <= p < P && !finish[p]
      requires |s.avail| == R && s.alloc == Matrix(allocation) && s.need == Matrix(need)
      requires Progress(s.avail, s.alloc, s.need, order, work[..], finish[..], count)
      requires forall j :: 0 <= j < R ==> need[p, j] <= work[j]
      modifies work, finish
      ensures Progress(s.avail, s.alloc, s.need, order', work[..], finish[..], count + 1)
      ensures forall q :: 0 <= q < P && q != p ==> finish[q] == old(finish[q])
      ensures finish[p]
    {
      ghost var w := work[..];
      FinishOne(s.avail, s.alloc, s.need, order, w, finish[..], count, p);
      AddAllocation(p, work);
      assert work[..] == seq(R, j requires 0 <= j < R => w[j] + s.alloc[p][j]);
      finish[p] := true;
      order' := order + [p];
    }

    /** The `for j` loop: does `work` cover the need of process `p`? */
    method Covered(p: int, work: array<int>) returns (ok: bool)
      requires Shapes() && work.Length == R && 0 <= p < P
      ensures ok <==> forall j :: 0 <= j < R ==> need[p, j] <= work[j]
      ensures !ok ==> exists j :: 0 <= j < R && need[p, j] > work[j]
    {
      var j := 0;
      while j < R
        invariant 0 <= j <= R
        invariant forall b :: 0 <= b < j ==> need[p, b] <= work[b]
      {
        if need[p, j] > work[j] {
          break;
        }
        j := j + 1;
      }
      ok := j == R;
    }

    /** The `for k` loop: process `p` gives back its allocation. */
    method AddAllocation(p: int, work: array<int>)
      requires Shapes() && work.Length == R && 0 <= p < P
      modifies work
      ensures forall k :: 0 <= k < R ==> work[k] == old(work[k]) + allocation[p, k]
    {
      var k := 0;
      while k < R
        invariant 0 <= k <= R
        invariant forall b :: 0 <= b < k ==> work[b] == old(work[b]) + allocation[p, b]
        invariant forall b :: k <= b < R ==> work[b] == old(work[b])
      {
        work[k] := work[k] + allocation[p, k];
        k := k + 1;
      }
    }

    /** process_code's locked section for a request `req` of process `p`. */
    method RequestResources(p: int, req: seq<int>) returns (granted: bool)
      requires Shapes() && Valid(Current()) && 0 <= p < P && |req| == R
      requires forall i :: 0 <= i < R ==> req[i] >= 0
      modifies available, allocation, need
      ensures (Current(), granted) == Request(old(Current()), p, req)
    {
      ghost var s := Current();
      var canAllocate := CanAllocate(p, req);
      if !canAllocate {
        return false;
      }
      Apply(p, req);
      GrantKeeps(s, p, req);
      granted := IsSafe();
      if !granted {
        Rollback(s, p, req);
      }
    }

    /** The grant loop: the request moves from `available` to the
        process's allocation and out of its need. */
    method Apply(p: int, req: seq<int>)
      requires Shapes() && 0 <= p < P && |req| == R
      modifies available, allocation, need
      ensures Current() == Grant(old(Current()), p, req)
    {
      ghost var t := Grant(Current(), p, req);
      Move(p, req, 1);
      assert available[..] == t.avail;
      MatrixIs(allocation, t.alloc);
      MatrixIs(need, t.need);
    }

    /** The rollback loop restores the state before the grant. */
    method Rollback(ghost s: State, p: int, req: seq<int>)
      requires Shapes() && 0 <= p < P && |req| == R
      requires |s.avail| == R && Shaped(s.alloc) && Shaped(s.need)
      requires Current() == Grant(s, p, req)
      modifies available, allocation, need
      ensures Current() == s
    {
      Move(p, req, -1);
      assert available[..] == s.avail;
      MatrixIs(allocation, s.alloc);
      MatrixIs(need, s.need);
    }

    /** The limit check of process_code. */
    method CanAllocate(p: int, req: seq<int>) returns (ok: bool)
      requires Shapes() && 0 <= p < P && |req| == R
      ensures ok <==> Fits(Current(), p, req)
    {
      ok := true;
      var i := 0;
      while i < R
        invariant 0 <= i <= R
        invariant forall k :: 0 <= k < i ==> req[k] <= need[p, k] && req[k] <= available[k]
      {
        if req[i] > need[p, i] || req[i] > available[i] {
          ok := false;
          break;
        }
        i := i + 1;
      }
    }

    /** The grant loop (sign 1) and the rollback loop (sign -1). */
    method Move(p: int, req: seq<int>, sign: int)
      requires Shapes() && 0 <= p < P && |req| == R
      modifies available, allocation, need
      ensures forall i :: 0 <= i < R ==> available[i] == old(available[i]) - sign * req[i]
      ensures forall i, j :: 0 <= i < P && 0 <= j < R ==>
        allocation[i, j] == old(allocation[i, j]) + (if i == p then sign * req[j] else 0)
      ensures forall i, j :: 0 <= i < P && 0 <= j < R ==>
        need[i, j] == old(need[i, j]) - (if i == p then sign * req[j] else 0)
    {
      var i := 0;
      while i < R
        invariant 0 <= i <= R
        invariant forall k :: 0 <= k < R ==> available[k] == old(available[k]) - (if k < i then sign * req[k] else 0)
        invariant forall a, k :: 0 <= a < P && 0 <= k < R ==>
          allocation[a, k] == old(allocation[a, k]) + (if a == p && k < i then sign * req[k] else 0)
        invariant forall a, k :: 0 <= a < P && 0 <= k < R ==>
          need[a, k] == old(need[a, k]) - (if a == p && k < i then sign * req[k] else 0)
      {
        available[i] := available[i] - sign * req[i];
        allocation[p, i] := allocation[p, i] + sign * req[i];
        need[p, i] := need[p, i] - sign * req[i];
        i := i + 1;
      }
    }
  }

  lemma {:induction false} ZeroCount(mask: seq<bool>, n: int)
    requires 0 <= n <= |mask| && forall q :: 0 <= q < n ==> !mask[q]
    ensures CountTrue(mask, n) == 0
  {
    if n > 0 { ZeroCount(mask, n - 1); }
  }
}
