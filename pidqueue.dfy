/** The circular PID queue of the round-robin signal scheduler: a fixed
    array of QMAX slots with head `h`, tail `t` and size `n`.  A push into
    a full queue is dropped; a pop from an empty one yields -1. */
module PidQueue {
  import RingMath

  const QMAX: nat := 32

  class Q {
    const a: array<int>
    var h: nat
    var t: nat
    var n: nat
    /** The queued PIDs, oldest first. */
    ghost var Contents: seq<int>

    ghost predicate Valid()
      reads this, a
    {
      && a.Length == QMAX
      && h < QMAX && n <= QMAX
      && t == (h + n) % QMAX
      && |Contents| == n
      && forall k :: 0 <= k < n ==> Contents[k] == Slot(k)
    }

    ghost function Slot(k: nat): int
      reads this, a
      requires a.Length == QMAX
    {
      a[(h + k) % QMAX]
    }

    /** q_init, together with the storage of the struct. */
    constructor ()
      ensures Valid() && h == 0 && t == 0 && n == 0 && Contents == []
    {
      a := new int[QMAX];
      h, t, n := 0, 0, 0;
      Contents := [];
    }

    /** q_empty */
    method IsEmpty() returns (e: bool)
      requires Valid()
      ensures e <==> Contents == []
    {
      e := n == 0;
    }

    /** q_push: appends `x` if there is room, and otherwise drops it. */
    method Push(x: int)
      requires Valid()
      modifies this, a
      ensures Valid()
      ensures old(n) < QMAX ==> Contents == old(Contents) + [x] && n == old(n) + 1
      ensures old(n) == QMAX ==> Contents == old(Contents) && unchanged(this, a)
    {
      if n < QMAX {
        a[t] := x;
        RingMath.ModSucc(h + n, 1, QMAX);
        t := (t + 1) % QMAX;
        n := n + 1;
        Contents := Contents + [x];
        forall k | 0 <= k < n ensures Contents[k] == Slot(k) {
          if k < n - 1 { RingMath.ModApart(h, k, n - 1, QMAX); }
        }
      }
    }

    /** q_pop: -1 on an empty queue, which stays as it is; otherwise the
        oldest PID, which leaves the queue. */
    method Pop() returns (x: int)
      requires Valid()
      modifies this
      ensures Valid()
      ensures old(n) == 0 ==> x == -1 && unchanged(this)
      ensures old(n) > 0 ==> x == old(Contents)[0] && Contents == old(Contents)[1..] && n == old(n) - 1
    {
      if n == 0 {
        return -1;
      }
      x := a[h];
      assert x == Slot(0) by { RingMath.ModOf(h, 0, h, QMAX); }
      Advance(a[..], Contents, h, n);
      h := (h + 1) % QMAX;
      n := n - 1;
      Contents := Contents[1..];
    }
  }

  /** Dropping the head of a ring of `n` positions starting at `h`
      leaves a ring of `n - 1` positions starting at the next slot. */
  lemma Advance(s: seq<int>, c: seq<int>, h: nat, n: nat)
    requires |s| == QMAX && h < QMAX && 0 < n <= QMAX && |c| == n
    requires forall k :: 0 <= k < n ==> c[k] == s[(h + k) % QMAX]
    ensures forall k :: 0 <= k < n - 1 ==> c[1..][k] == s[((h + 1) % QMAX + k) % QMAX]
    ensures ((h + 1) % QMAX + (n - 1)) % QMAX == (h + n) % QMAX
  {
    RingMath.ModSucc(h + 1, n - 1, QMAX);
    forall k | 0 <= k < n - 1 ensures c[1..][k] == s[((h + 1) % QMAX + k) % QMAX] {
      RingMath.ModSucc(h + 1, k, QMAX);
      assert h + 1 + k == h + (k + 1);
    }
  }
}
