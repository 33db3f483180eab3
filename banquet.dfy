/** Royal banquet: an arbiter hands out forks two at a time to philosophers,
    mixing FIFO order with an aging rule.  The locked sections of the
    program are modelled as sequential methods on one state object; the
    clock is an integer logical clock passed in as `now`. */
module Banquet {
  import opened RingMath

  /** Ids are pairwise distinct. */
  ghost predicate Distinct(s: seq<int>) {
    forall i, j :: 0 <= i < j < |s| ==> s[i] != s[j]
  }

  /** The FIFO ring of philosopher ids: `Q[idx % qcap]` holds position
      `idx - qh` of the queue, and the size is `qt - qh`. */
  class IdQueue {
    const buf: array<int>
    const cap: nat
    var qh: nat
    var qt: nat
    ghost var Contents: seq<int>

    ghost predicate Valid()
      reads this, buf
    {
      && buf.Length == cap
      && qh <= qt
      && qt - qh <= cap
      && |Contents| == qt - qh
      && cap > 0
      && forall k :: 0 <= k < |Contents| ==> Contents[k] == At(k)
    }

    /** q_init: an empty queue over a fresh buffer of `capacity` slots. */
    constructor (capacity: nat)
      requires capacity > 0
      ensures Valid() && fresh(buf)
      ensures cap == capacity && Contents == [] && qh == 0 && qt == 0
    {
      buf := new int[capacity];
      cap := capacity;
      qh, qt := 0, 0;
      Contents := [];
    }

    /** q_size */
    method Size() returns (sz: nat)
      requires Valid()
      ensures sz == |Contents|
    {
      sz := qt - qh;
    }

    /** q_empty */
    method IsEmpty() returns (e: bool)
      requires Valid()
      ensures e <==> Contents == []
    {
      e := qh == qt;
    }

    /** q_peek: the element at position `idx` from the head. */
    method Peek(idx: nat) returns (v: int)
      requires Valid() && idx < |Contents|
      ensures v == Contents[idx]
    {
      WrapMod(qh + idx, cap);
      v := buf[(qh + idx) % cap];
    }

    /** q_push stores at `qt % qcap`.  The source does not check for room;
        a push into a full ring would overwrite the head, so callers must
        keep the size below the capacity. */
    method Push(v: int)
      requires Valid() && |Contents| < cap
      modifies this, buf
      ensures Valid()
      ensures Contents == old(Contents) + [v]
      ensures qh == old(qh) && qt == old(qt) + 1
    {
      WrapMod(qt, cap);
      buf[qt % cap] := v;
      qt := qt + 1;
      Contents := Contents + [v];
      forall k | 0 <= k < |Contents|
        ensures Contents[k] == At(k)
      {
        if k < |Contents| - 1 { WrapApart(qh, k, |Contents| - 1, cap); }
      }
    }

    /** q_pop: removes and returns the head. */
    method Pop() returns (v: int)
      requires Valid() && Contents != []
      modifies this
      ensures Valid()
      ensures v == old(Contents)[0] && Contents == old(Contents)[1..]
    {
      WrapMod(qh, cap);
      v := buf[qh % cap];
      assert v == Contents[0];
      qh := qh + 1;
      Contents := Contents[1..];
      forall k | 0 <= k < |Contents|
        ensures Contents[k] == At(k)
      {
        assert Contents[k] == old(Contents)[k + 1];
        assert qh + k == old(qh) + (k + 1);
      }
    }

    /** q_erase_idx: shifts every later element one slot towards the head
        and drops the tail slot. */
    method EraseIdx(idx: nat)
      requires Valid() && idx < |Contents|
      modifies this, buf
      ensures Valid()
      ensures Contents == old(Contents)[..idx] + old(Contents)[idx + 1..]
      ensures qh == old(qh) && qt == old(qt) - 1
    {
      ghost var c := Contents;
      var sz := qt - qh;
      var k := idx;
      while k < sz - 1
        invariant idx <= k <= sz - 1
        invariant qh == old(qh) && qt == old(qt) && Contents == c
        invariant Shifted(c, idx, k)
      {
        ShiftSlot(k, sz);
        k := k + 1;
      }
      ghost var r := c[..idx] + c[idx + 1..];
      ShiftedDone(c, idx, r);
      qt := qt - 1;
      Contents := r;
    }

    /** Positions before `idx` and from `k` on hold what `c` holds there;
        positions `idx` to `k - 1` hold their successor in `c`. */
    ghost predicate Shifted(c: seq<int>, idx: nat, k: nat)
      reads this, buf
      requires buf.Length == cap > 0
    {
      && idx <= k < |c|
      && (forall m :: 0 <= m < idx ==> At(m) == c[m])
      && (forall m :: idx <= m < k ==> At(m) == c[m + 1])
      && (forall m :: k <= m < |c| ==> At(m) == c[m])
    }

    lemma ShiftedDone(c: seq<int>, idx: nat, r: seq<int>)
      requires buf.Length == cap > 0 && |c| > 0 && Shifted(c, idx, |c| - 1)
      requires r == c[..idx] + c[idx + 1..]
      ensures |r| == |c| - 1 && forall m :: 0 <= m < |r| ==> r[m] == At(m)
    {
      forall m | 0 <= m < |r|
        ensures r[m] == At(m)
      {
        if m < idx { assert r[m] == c[m]; } else { assert r[m] == c[m + 1]; }
      }
    }

    /** Copies position `k + 1` into position `k`; no other position of
        the first `sz` changes. */
    method ShiftSlot(k: nat, sz: nat)
      requires buf.Length == cap > 0 && k + 1 < sz <= cap
      modifies buf
      ensures At(k) == old(At(k + 1))
      ensures forall m :: 0 <= m < sz && m != k ==> At(m) == old(At(m))
    {
      WrapMod(qh + k, cap);
      WrapMod(qh + (k + 1), cap);
      buf[(qh + k) % cap] := buf[(qh + (k + 1)) % cap];
      forall m | 0 <= m < sz && m != k
        ensures At(m) == old(At(m))
      {
        WrapApart(qh, m, k, cap);
      }
    }

    /** The slot holding position `m` from the head. */
    ghost function At(m: nat): int
      reads this, buf
      requires buf.Length == cap > 0
    {
      buf[Wrap(qh + m, cap)]
    }
  }

  /** Configuration clamping of `main`: at least two philosophers, and
      at least two forks but fewer forks than philosophers. */
  function ClampConfig(n: int, f: int): (r: (int, int))
    ensures r.0 >= 2 && 1 <= r.1 < r.0
    ensures r.1 >= 2 || (r.0 == 2 && r.1 == 1)
    ensures n >= 2 ==> r.0 == n
    ensures n < 2 ==> r.0 == 2
    ensures f < 2 && r.0 > 2 ==> r.1 == 2
    ensures 2 <= f < r.0 ==> r.1 == f
    ensures f >= r.0 ==> r.1 == r.0 - 1
  {
    var n1 := if n < 2 then 2 else n;
    var f1 := if f < 2 then 2 else f;
    var f2 := if f1 >= n1 then n1 - 1 else f1;
    (n1, f2)
  }

  /** Wait recording at the end of `request_to_eat`: a negative wait is
      clamped to 0, then the maximum and the sum are updated. */
  function RecordWait(w: int, waitMax: int, waitSum: int): (r: (int, int))
    requires waitMax >= 0
    ensures r.0 >= waitMax && r.0 >= w && r.0 >= 0
    ensures r.0 == waitMax || r.0 == w
    ensures r.1 == waitSum + (if w < 0 then 0 else w)
    ensures r.1 >= waitSum
  {
    var w1 := if w < 0 then 0 else w;
    var m := if w1 > waitMax then w1 else waitMax;
    (m, waitSum + w1)
  }

  /** Whether philosopher `x` is active; ids outside the table never are. */
  predicate IsActive(active: seq<bool>, x: int) {
    0 <= x < |active| && active[x]
  }

  /** The queue with the entries of inactive philosophers dropped. */
  function Purge(q: seq<int>, active: seq<bool>): (r: seq<int>)
    ensures |r| <= |q|
    ensures forall k :: 0 <= k < |r| ==> IsActive(active, r[k])
  {
    if q == [] then []
    else if IsActive(active, q[|q| - 1]) then Purge(q[..|q| - 1], active) + [q[|q| - 1]]
    else Purge(q[..|q| - 1], active)
  }

  /** The purged queue holds exactly the active members of the queue. */
  lemma {:induction false} PurgeMembers(q: seq<int>, active: seq<bool>)
    ensures forall x :: x in Purge(q, active) <==> x in q && IsActive(active, x)
  {
    if q != [] {
      var init := q[..|q| - 1];
      PurgeMembers(init, active);
      assert q == init + [q[|q| - 1]];
    }
  }

  lemma {:induction false} PurgeDistinct(q: seq<int>, active: seq<bool>)
    requires Distinct(q)
    ensures Distinct(Purge(q, active))
  {
    if q != [] {
      var init := q[..|q| - 1];
      assert Distinct(init);
      PurgeDistinct(init, active);
      PurgeMembers(init, active);
      var p := Purge(init, active);
      if IsActive(active, q[|q| - 1]) {
        assert q[|q| - 1] !in init;
        assert q[|q| - 1] !in p;
      }
    }
  }

  /** Purging one more entry of `q`. */
  lemma PurgeNext(q: seq<int>, j: nat, active: seq<bool>)
    requires j < |q|
    ensures Purge(q[..j + 1], active)
         == Purge(q[..j], active) + (if IsActive(active, q[j]) then [q[j]] else [])
  {
    assert q[..j + 1][..j] == q[..j];
  }

  /** The queue as the purged prefix followed by the unvisited rest. */
  lemma SplitAt(p: seq<int>, q: seq<int>, j: nat)
    requires j < |q|
    ensures (p + q[j..])[|p|] == q[j]
    ensures (p + q[j..])[..|p|] + (p + q[j..])[|p| + 1..] == p + q[j + 1..]
    ensures p + q[j..] == (p + [q[j]]) + q[j + 1..]
  {
    assert q[j..] == [q[j]] + q[j + 1..];
    assert (p + q[j..])[..|p|] == p;
    assert (p + q[j..])[|p| + 1..] == q[j + 1..];
  }

  /** The queue with the entry at index `k` removed. */
  function RemoveAt(q: seq<int>, k: nat): (r: seq<int>)
    requires k < |q|
    ensures |r| == |q| - 1
    ensures forall i :: 0 <= i < k ==> r[i] == q[i]
    ensures forall i :: k <= i < |r| ==> r[i] == q[i + 1]
  {
    q[..k] + q[k + 1..]
  }

  /** Philosopher `x` has waited at least `t` at time `now`. */
  predicate Aged(x: int, now: int, rt: seq<int>, t: int) {
    0 <= x < |rt| && now - rt[x] >= t
  }

  /** How long philosopher `x` has waited at time `now`. */
  function Wait(x: int, now: int, rt: seq<int>): int {
    if 0 <= x < |rt| then now - rt[x] else 0
  }

  /** Entry `k` of `p` is the candidate the aging rule picks: it has
      waited at least `t`, no aged entry has waited longer, and every
      aged entry before it has waited strictly less (earlier position
      wins on equal waits). */
  ghost predicate AgedPick(p: seq<int>, k: nat, now: int, rt: seq<int>, t: int) {
    && k < |p|
    && Aged(p[k], now, rt, t)
    && (forall i :: 0 <= i < |p| && Aged(p[i], now, rt, t) ==> Wait(p[i], now, rt) <= Wait(p[k], now, rt))
    && (forall i :: 0 <= i < k && Aged(p[i], now, rt, t) ==> Wait(p[i], now, rt) < Wait(p[k], now, rt))
  }

  ghost predicate AnyAged(p: seq<int>, now: int, rt: seq<int>, t: int) {
    exists i :: 0 <= i < |p| && Aged(p[i], now, rt, t)
  }

  /** At most one index satisfies the aging rule. */
  lemma AgedPickUnique(p: seq<int>, k1: nat, k2: nat, now: int, rt: seq<int>, t: int)
    requires AgedPick(p, k1, now, rt, t) && AgedPick(p, k2, now, rt, t)
    ensures k1 == k2
  {
  }

  /** Whoever is aged, some index satisfies the aging rule. */
  lemma {:induction false} AgedPickExists(p: seq<int>, now: int, rt: seq<int>, t: int)
    requires AnyAged(p, now, rt, t)
    ensures exists k :: AgedPick(p, k, now, rt, t)
  {
    var init := p[..|p| - 1];
    var last := |p| - 1;
    if AnyAged(init, now, rt, t) {
      AgedPickExists(init, now, rt, t);
      var k: nat :| AgedPick(init, k, now, rt, t);
      if Aged(p[last], now, rt, t) && Wait(p[last], now, rt) > Wait(p[k], now, rt) {
        assert AgedPick(p, last, now, rt, t);
      } else {
        assert AgedPick(p, k, now, rt, t);
      }
    } else {
      var i0 :| 0 <= i0 < |p| && Aged(p[i0], now, rt, t);
      assert i0 == last;
      assert AgedPick(p, last, now, rt, t);
    }
  }

  /** A set of distinct ids below `n` has at most `n` members; so the id
      queue never holds more than N entries, far below its 4N+8 slots. */
  lemma {:induction false} DistinctBounded(s: seq<int>, n: nat)
    requires Distinct(s)
    requires forall k :: 0 <= k < |s| ==> 0 <= s[k] < n
    ensures |s| <= n
    decreases n
  {
    if s != [] {
      assert 0 <= s[0] < n;
      var m := n - 1;
      // Move the largest id `m` (if present) out and rename nothing else.
      var t := seq(|s|, i requires 0 <= i < |s| => if s[i] == m then s[|s| - 1] else s[i]);
      var u := t[..|s| - 1];
      if m in s {
        var j :| 0 <= j < |s| && s[j] == m;
        forall a, b | 0 <= a < b < |u| ensures u[a] != u[b] {
          assert s[a] != s[b];
          if s[a] == m { assert s[b] != s[|s| - 1]; }
          if s[b] == m { assert s[a] != s[|s| - 1]; }
        }
        forall a | 0 <= a < |u| ensures 0 <= u[a] < m {
          if s[a] == m {
            assert s[|s| - 1] != m;
          } else {
            assert s[a] != m;
          }
        }
        DistinctBounded(u, m);
      } else {
        assert forall a :: 0 <= a < |s| ==> 0 <= s[a] < m;
        assert Distinct(s[..|s| - 1]);
        DistinctBounded(s[..|s| - 1], m);
      }
    }
  }

  /** Shared state of the banquet: the fork pool, the per-philosopher
      flags and statistics, and the id queue.  `Outstanding` is the number
      of fork pairs handed out and not yet released. */
  class Table {
    const n: nat
    const f: int
    var forks: int
    const waiting: array<bool>
    const granted: array<bool>
    const active: array<bool>
    const reqTime: array<int>
    const eats: array<int>
    const waitSum: array<int>
    const waitMax: array<int>
    const q: IdQueue
    ghost var Outstanding: nat

    ghost predicate Valid()
      reads this, q, q.buf, waiting, granted, active, reqTime, eats, waitSum, waitMax
    {
      && q.Valid()
      && waiting.Length == n && granted.Length == n && active.Length == n
      && reqTime.Length == n && eats.Length == n && waitSum.Length == n && waitMax.Length == n
      && waiting != granted && waiting != active && granted != active
      && reqTime != eats && reqTime != waitSum && reqTime != waitMax
      && eats != waitSum && eats != waitMax && waitSum != waitMax
      && q.buf != reqTime && q.buf != eats && q.buf != waitSum && q.buf != waitMax
      && q.cap == 4 * n + 8
      && (forall k :: 0 <= k < |q.Contents| ==> 0 <= q.Contents[k] < n && waiting[q.Contents[k]])
      && Distinct(q.Contents)
      && forks >= 0
      && forks + 2 * Outstanding == f
      && (forall i :: 0 <= i < n ==> waitMax[i] >= 0)
    }

    /** The set-up of `main`: `forks_available = F`, zeroed arrays and a
        queue of 4N+8 slots. */
    constructor (nPhil: nat, nForks: nat)
      ensures Valid() && n == nPhil && f == nForks && forks == nForks
      ensures q.Contents == [] && Outstanding == 0
      ensures forall i :: 0 <= i < n ==> !waiting[i] && !granted[i] && !active[i]
      ensures forall i :: 0 <= i < n ==> reqTime[i] == 0 && eats[i] == 0
      ensures forall i :: 0 <= i < n ==> waitSum[i] == 0 && waitMax[i] == 0
    {
      n, f, forks := nPhil, nForks, nForks;
      q := new IdQueue(4 * nPhil + 8);
      waiting := new bool[nPhil](_ => false);
      granted := new bool[nPhil](_ => false);
      active := new bool[nPhil](_ => false);
      reqTime := new int[nPhil](_ => 0);
      eats := new int[nPhil](_ => 0);
      waitSum := new int[nPhil](_ => 0);
      waitMax := new int[nPhil](_ => 0);
      Outstanding := 0;
    }

    /** The queue never grows past N entries. */
    lemma QueueBounded()
      requires Valid()
      ensures |q.Contents| <= n < q.cap
    {
      DistinctBounded(q.Contents, n);
    }

    /** The enqueue guard of `request_to_eat`: a philosopher is queued only
        if not already waiting, and then its request time is recorded. */
    method Request(id: nat, now: int)
      requires Valid() && id < n
      modifies waiting, reqTime, q, q.buf
      ensures Valid()
      ensures old(waiting[id]) ==> q.Contents == old(q.Contents) && reqTime[..] == old(reqTime[..])
      ensures !old(waiting[id]) ==> q.Contents == old(q.Contents) + [id] && reqTime[..] == old(reqTime[..])[id := now]
      ensures waiting[..] == old(waiting[..])[id := true]
      ensures forks == old(forks) && Outstanding == old(Outstanding)
    {
      if !waiting[id] {
        assert id !in q.Contents;
        QueueBounded();
        waiting[id] := true;
        reqTime[id] := now;
        q.Push(id);
        assert Distinct(q.Contents) by {
          assert q.Contents == old(q.Contents) + [id];
        }
      }
    }

    /** The end of `request_to_eat`, after the wait loop has ended: the
        grant is consumed and the clamped wait is recorded.  Like the
        source, this records a wait even if the philosopher stopped
        waiting without a grant (deactivated, or the run stopped). */
    method ConsumeGrant(id: nat, now: int, running: bool)
      requires Valid() && id < n
      requires granted[id] || !active[id] || !running
      modifies granted, waitMax, waitSum
      ensures Valid()
      ensures granted[..] == old(granted[..])[id := false]
      ensures (waitMax[id], waitSum[id]) == RecordWait(now - reqTime[id], old(waitMax[id]), old(waitSum[id]))
      ensures forall i :: 0 <= i < n && i != id ==> waitMax[i] == old(waitMax[i]) && waitSum[i] == old(waitSum[i])
      ensures forks == old(forks) && Outstanding == old(Outstanding)
    {
      var w := now - reqTime[id];
      granted[id] := false;
      var r := RecordWait(w, waitMax[id], waitSum[id]);
      waitMax[id] := r.0;
      waitSum[id] := r.1;
    }

    /** The meal count, bumped just before the forks are returned. */
    method Ate(id: nat)
      requires Valid() && id < n
      modifies eats
      ensures Valid()
      ensures eats[..] == old(eats[..])[id := old(eats[id]) + 1]
    {
      eats[id] := eats[id] + 1;
    }

    /** release_forks: returns one granted pair to the pool. */
    method ReleaseForks()
      requires Valid() && Outstanding > 0
      modifies this
      ensures Valid()
      ensures forks == old(forks) + 2 && Outstanding == old(Outstanding) - 1
    {
      forks := forks + 2;
      Outstanding := Outstanding - 1;
    }

    /** A late philosopher joins. */
    method Join(id: nat)
      requires Valid() && id < n
      modifies active
      ensures Valid() && active[..] == old(active[..])[id := true]
    {
      active[id] := true;
    }

    /** A philosopher leaves early; its queued entry stays until the next
        selection pass purges it. */
    method Leave(id: nat)
      requires Valid() && id < n
      modifies active
      ensures Valid() && active[..] == old(active[..])[id := false]
    {
      active[id] := false;
    }

    /** Removes the first queue entry equal to `id` (the grant-time scan). */
    method EraseId(id: int) returns (ghost k: nat)
      requires Valid() && id in q.Contents
      modifies q, q.buf
      ensures q.Valid()
      ensures k < |old(q.Contents)| && old(q.Contents)[k] == id
      ensures q.Contents == RemoveAt(old(q.Contents), k)
    {
      ghost var j :| 0 <= j < |q.Contents| && q.Contents[j] == id;
      var i := 0;
      var v := q.Peek(0);
      while v != id
        invariant 0 <= i <= j && q.Valid()
        invariant q.Contents == old(q.Contents) && v == q.Contents[i]
        invariant id !in q.Contents[..i]
        decreases j - i
      {
        assert q.Contents[..i + 1] == q.Contents[..i] + [v];
        i := i + 1;
        v := q.Peek(i);
      }
      q.EraseIdx(i);
      k := i;
    }

    /** The scan of one `waiter_thread` pass: entries of inactive
        philosophers are erased without a grant, and, when at least two
        forks are free, the aged entry with the longest wait (the earliest
        on equal waits) is remembered.  `chosen` is -1 if there is none. */
    method PurgeAndPick(now: int, t: int) returns (chosen: int, ck: nat)
      requires Valid()
      requires forall k :: 0 <= k < |q.Contents| ==> reqTime[q.Contents[k]] <= now
      modifies q, q.buf
      ensures Valid()
      ensures q.Contents == Purge(old(q.Contents), active[..])
      ensures ScanInv(q.Contents, forks, now, reqTime[..], t, chosen, ck)
    {
      ghost var oq := q.Contents;
      chosen, ck := Scan(now, t);
      PurgeDistinct(oq, active[..]);
      PurgeMembers(oq, active[..]);
      forall x | 0 <= x < |q.Contents| ensures 0 <= q.Contents[x] < n && waiting[q.Contents[x]] {
        assert q.Contents[x] in oq;
      }
    }

    /** The loop of PurgeAndPick, over the queue alone. */
    method Scan(now: int, t: int) returns (chosen: int, ck: nat)
      requires q.Valid() && active.Length == n && reqTime.Length == n && q.buf != reqTime
      requires forall k :: 0 <= k < |q.Contents| ==> 0 <= q.Contents[k] < n && reqTime[q.Contents[k]] <= now
      modifies q, q.buf
      ensures q.Valid()
      ensures q.Contents == Purge(old(q.Contents), active[..])
      ensures ScanInv(q.Contents, forks, now, reqTime[..], t, chosen, ck)
    {
      ghost var oq := q.Contents;
      ghost var act := active[..];
      ghost var rt := reqTime[..];
      chosen := -1;
      var chosenWait := -1;
      ck := 0;
      var sz := q.Size();
      var i := 0;
      ghost var j := 0;
      ghost var pre: seq<int> := [];
      assert oq[..0] == [];
      while i < sz
        invariant act == active[..] && rt == reqTime[..]
        invariant ScanState(oq, act, rt, now, t, j, pre, i, sz, chosen, chosenWait, ck)
        decreases sz - i
      {
        i, sz, j, pre, chosen, chosenWait, ck :=
          ScanOne(now, t, oq, act, rt, i, sz, j, pre, chosen, chosenWait, ck);
      }
      assert j == |oq| by {
        assert |q.Contents| == |pre| + |oq| - j;
      }
      assert oq[..j] == oq;
    }

    /** What the loop of Scan keeps: the visited prefix `oq[..j]` of the
        original queue has been purged into `pre`, which is followed in the
        queue by the unvisited rest, and the pick so far obeys ScanInv. */
    ghost predicate ScanState(oq: seq<int>, act: seq<bool>, rt: seq<int>, now: int, t: int,
                              j: int, pre: seq<int>, i: int, sz: int,
                              chosen: int, chosenWait: int, ck: nat)
      reads this, q, q.buf
    {
      && 0 <= j <= |oq| && q.Valid()
      && |act| == n && |rt| == n
      && (forall k :: 0 <= k < |oq| ==> 0 <= oq[k] < n && rt[oq[k]] <= now)
      && pre == Purge(oq[..j], act)
      && sz == |q.Contents| && i == |pre|
      && q.Contents == pre + oq[j..]
      && ScanInv(pre, forks, now, rt, t, chosen, ck)
      && (chosen != -1 ==> chosenWait == Wait(chosen, now, rt))
      && (chosen == -1 ==> chosenWait == -1)
    }

    /** One iteration of the scan: the entry at index `i` is erased if its
        philosopher is inactive, and otherwise considered for the aging
        pick. */
    method ScanOne(now: int, t: int, ghost oq: seq<int>, ghost act: seq<bool>, ghost rt: seq<int>,
                   i: nat, sz: nat, ghost j: nat, ghost pre: seq<int>,
                   chosen: int, chosenWait: int, ck: nat)
      returns (i': nat, sz': nat, ghost j': nat, ghost pre': seq<int>,
               chosen': int, chosenWait': int, ck': nat)
      requires act == active[..] && rt == reqTime[..] && q.buf != reqTime
      requires ScanState(oq, act, rt, now, t, j, pre, i, sz, chosen, chosenWait, ck) && i < sz
      modifies q, q.buf
      ensures ScanState(oq, act, rt, now, t, j', pre', i', sz', chosen', chosenWait', ck')
      ensures sz' - i' == sz - i - 1
    {
      PurgeNext(oq, j, act);
      SplitAt(pre, oq, j);
      j' := j + 1;
      var pid := q.Peek(i);
      if !active[pid] {
        q.EraseIdx(i);
        i', sz', pre' := i, sz - 1, pre;
        chosen', chosenWait', ck' := chosen, chosenWait, ck;
      } else {
        var w := now - reqTime[pid];
        ScanStep(pre, pid, forks, now, rt, t, chosen, chosenWait, ck);
        if w >= t && forks >= 2 && w > chosenWait {
          chosen', chosenWait', ck' := pid, w, i;
        } else {
          chosen', chosenWait', ck' := chosen, chosenWait, ck;
        }
        i', sz', pre' := i + 1, sz, pre + [pid];
      }
    }

    /** Grants two forks to the queued philosopher at position `k`. */
    method Grant(k: nat)
      requires Valid() && k < |q.Contents| && forks >= 2
      modifies this, q, q.buf, waiting, granted
      ensures Valid()
      ensures var c := old(q.Contents)[k];
        && q.Contents == RemoveAt(old(q.Contents), k)
        && forks == old(forks) - 2 && Outstanding == old(Outstanding) + 1
        && waiting[..] == old(waiting[..])[c := false]
        && granted[..] == old(granted[..])[c := true]
    {
      ghost var p := q.Contents;
      var c := q.Peek(k);
      forks := forks - 2;
      Outstanding := Outstanding + 1;
      ghost var k2 := EraseId(c);
      assert k2 == k;
      waiting[c] := false;
      granted[c] := true;
      assert Distinct(q.Contents) by {
        forall a, b | 0 <= a < b < |q.Contents| ensures q.Contents[a] != q.Contents[b] {
          var a', b' := if a < k then a else a + 1, if b < k then b else b + 1;
          assert q.Contents[a] == p[a'] && q.Contents[b] == p[b'];
        }
      }
      forall x | 0 <= x < |q.Contents| ensures 0 <= q.Contents[x] < n && waiting[q.Contents[x]] {
        var x' := if x < k then x else x + 1;
        assert q.Contents[x] == p[x'] && x' != k;
      }
    }

    /** One pass of `waiter_thread` while it holds the lock: the purge and
        scan, then the FIFO fallback to the queue head, then the grant of
        two forks to the chosen philosopher, who leaves the queue and is
        marked granted.  `chosen` is -1 when nothing is granted; then the
        state after the purge is left as it is. */
    method WaiterPass(now: int, t: int) returns (chosen: int)
      requires Valid()
      requires forall k :: 0 <= k < |q.Contents| ==> reqTime[q.Contents[k]] <= now
      modifies this, q, q.buf, waiting, granted
      ensures Valid()
      ensures chosen == -1 <==> (old(forks) < 2 || Purge(old(q.Contents), active[..]) == [])
      ensures chosen == -1 ==>
        q.Contents == Purge(old(q.Contents), active[..])
        && forks == old(forks) && Outstanding == old(Outstanding)
        && waiting[..] == old(waiting[..]) && granted[..] == old(granted[..])
      ensures chosen != -1 ==>
        var p := Purge(old(q.Contents), active[..]);
        exists k :: 0 <= k < |p| && p[k] == chosen
          && (if AnyAged(p, now, reqTime[..], t) then AgedPick(p, k, now, reqTime[..], t) else k == 0)
          && q.Contents == RemoveAt(p, k)
      ensures chosen != -1 ==>
        0 <= chosen < n && active[chosen]
        && forks == old(forks) - 2 && Outstanding == old(Outstanding) + 1
        && waiting[..] == old(waiting[..])[chosen := false]
        && granted[..] == old(granted[..])[chosen := true]
    {
      var ck: nat;
      chosen, ck := Choose(now, t);
      if chosen != -1 && active[chosen] && forks >= 2 {
        Grant(ck);
      } else {
        chosen := -1;
      }
    }

    /** The choice of one pass: the aging pick of the purged queue, else
        its head, provided two forks are free. */
    method Choose(now: int, t: int) returns (chosen: int, ck: nat)
      requires Valid()
      requires forall k :: 0 <= k < |q.Contents| ==> reqTime[q.Contents[k]] <= now
      modifies q, q.buf
      ensures Valid()
      ensures q.Contents == Purge(old(q.Contents), active[..])
      ensures chosen == -1 <==> (forks < 2 || q.Contents == [])
      ensures chosen != -1 ==>
        && ck < |q.Contents| && q.Contents[ck] == chosen && 0 <= chosen < n && active[chosen]
        && (if AnyAged(q.Contents, now, reqTime[..], t) then AgedPick(q.Contents, ck, now, reqTime[..], t) else ck == 0)
    {
      chosen, ck := PurgeAndPick(now, t);
      var sz := q.Size();
      if chosen == -1 && sz > 0 && forks >= 2 {
        chosen := q.Peek(0);
        ck := 0;
      }
    }
  }

  /** What the scan knows after looking at the purged prefix `p`: when
      forks are free and some entry is aged, `ck` is the aging pick;
      otherwise nothing is chosen. */
  ghost predicate ScanInv(p: seq<int>, forks: int, now: int, rt: seq<int>, t: int, chosen: int, ck: nat) {
    if forks >= 2 && AnyAged(p, now, rt, t)
    then ck < |p| && chosen == p[ck] && AgedPick(p, ck, now, rt, t)
    else chosen == -1
  }

  /** One step of the scan keeps ScanInv: a new entry replaces the pick
      only if it is aged and has waited strictly longer. */
  lemma ScanStep(p0: seq<int>, pid: int, forks: int, now: int, rt: seq<int>, t: int,
                 chosen: int, chosenWait: int, ck: nat)
    requires 0 <= pid < |rt| && rt[pid] <= now
    requires ScanInv(p0, forks, now, rt, t, chosen, ck)
    requires chosen != -1 ==> chosenWait == Wait(chosen, now, rt)
    requires chosen == -1 ==> chosenWait == -1
    ensures var w := now - rt[pid];
      var upd := w >= t && forks >= 2 && w > chosenWait;
      ScanInv(p0 + [pid], forks, now, rt, t, if upd then pid else chosen, if upd then |p0| else ck)
  {
    var p1 := p0 + [pid];
    assert p1[..|p0|] == p0;
    var w := now - rt[pid];
    if forks >= 2 && AnyAged(p0, now, rt, t) {
      if w >= t && w > chosenWait {
        assert AgedPick(p1, |p0|, now, rt, t);
      } else {
        assert AgedPick(p1, ck, now, rt, t);
      }
    } else if w >= t && forks >= 2 {
      assert AgedPick(p1, |p0|, now, rt, t);
    } else {
      assert !AnyAged(p1, now, rt, t) || forks < 2;
    }
  }
}
