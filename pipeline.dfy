/** The three-stage pipeline: producers put values into a first bounded
    buffer, processors square them into a second one, and a consumer drains
    it.  Each bounded buffer is a ring over a fixed array; the condition
    waits of `bb_put` and `bb_get` become preconditions, and the mutexes
    disappear because each method is one locked section. */
module Pipeline {
  import opened RingMath
  import opened Wrappers

  /** Number of values the producers generate together. */
  const N: nat := 50

  /** The value that tells a processor to stop. */
  const Sentinel: int := -1

  /** Number of processors, hence of sentinels injected by `main`. */
  const NumProcessors: nat := 2

  class BoundedBuffer {
    const data: array<int>
    const cap: nat
    var head: nat
    var tail: nat
    var count: nat
    /** The buffered values, oldest first. */
    ghost var Contents: seq<int>

    ghost predicate Valid()
      reads this, data
    {
      && data.Length == cap > 0
      && head < cap && count <= cap
      && tail == Wrap(head + count, cap)
      && |Contents| == count
      && forall k :: 0 <= k < count ==> Contents[k] == At(k)
    }

    /** The slot holding the `k`-th oldest buffered value. */
    ghost function At(k: nat): int
      reads this, data
      requires data.Length == cap > 0
    {
      data[Wrap(head + k, cap)]
    }

    /** bb_init: an empty buffer of `capacity` slots. */
    constructor (capacity: nat)
      requires capacity > 0
      ensures Valid() && fresh(data)
      ensures cap == capacity && head == 0 && tail == 0 && count == 0 && Contents == []
    {
      data := new int[capacity];
      cap := capacity;
      head, tail, count := 0, 0, 0;
      Contents := [];
    }

    /** bb_put, once `count < cap` holds: stores at `tail` and advances it
        cyclically. */
    method Put(x: int)
      requires Valid() && count < cap
      modifies this, data
      ensures Valid()
      ensures Contents == old(Contents) + [x]
      ensures data[old(tail)] == x
      ensures tail == (old(tail) + 1) % cap && head == old(head) && count == old(count) + 1
    {
      data[tail] := x;
      WrapNext(head + count, cap);
      tail := (tail + 1) % cap;
      count := count + 1;
      Contents := Contents + [x];
      forall k | 0 <= k < count ensures Contents[k] == At(k) {
        if k < count - 1 { WrapApart(head, k, count - 1, cap); }
      }
    }

    /** bb_get, once `count > 0` holds: returns the value at `head` and
        advances it cyclically. */
    method Get() returns (x: int)
      requires Valid() && count > 0
      modifies this
      ensures Valid()
      ensures x == old(Contents)[0] && Contents == old(Contents)[1..]
      ensures x == data[old(head)]
      ensures head == (old(head) + 1) % cap && tail == old(tail) && count == old(count) - 1
    {
      assert Wrap(head, cap) == head;
      x := data[head];
      WrapNext(head, cap);
      head := (head + 1) % cap;
      count := count - 1;
      Contents := Contents[1..];
      forall k | 0 <= k < count ensures Contents[k] == At(k) {
        assert Contents[k] == old(Contents)[k + 1];
        assert old(head) + (k + 1) == old(head) + 1 + k;
        WrapShift(old(head), k, cap);
      }
    }
  }

  /** Shifting the base by one slot is shifting the position by one. */
  lemma WrapShift(h: nat, k: nat, cap: nat)
    requires cap > 0 && h < cap
    ensures Wrap(Wrap(h + 1, cap) + k, cap) == Wrap(h + (k + 1), cap)
  {
    WrapMod(h + 1, cap);
    WrapMod(Wrap(h + 1, cap) + k, cap);
    WrapMod(h + (k + 1), cap);
    ModSucc(h + 1, k, cap);
  }

  /** The shared counter `next_to_produce`: the producers' claims. */
  class ProductionCounter {
    var next: nat
    /** The indices handed out so far, in order. */
    ghost var Claimed: seq<nat>

    ghost predicate Valid()
      reads this
    {
      && next <= N
      && |Claimed| == next
      && forall i :: 0 <= i < |Claimed| ==> Claimed[i] == i
    }

    constructor ()
      ensures Valid() && next == 0 && Claimed == []
    {
      next := 0;
      Claimed := [];
    }

    /** The locked claim of `producer`: fails once N indices are taken,
        otherwise hands out the next index. */
    method Claim() returns (ok: bool, index: nat)
      requires Valid()
      modifies this
      ensures Valid()
      ensures ok <==> old(next) < N
      ensures ok ==> index == old(next) && next == old(next) + 1 && Claimed == old(Claimed) + [index]
      ensures !ok ==> next == old(next) && Claimed == old(Claimed)
    {
      if next >= N {
        return false, 0;
      }
      index := next;
      next := next + 1;
      Claimed := Claimed + [index];
      ok := true;
    }

    /** Claimed indices are distinct, below N, and form 0..next-1. */
    lemma ClaimsDistinct()
      requires Valid()
      ensures forall i, j :: 0 <= i < j < |Claimed| ==> Claimed[i] != Claimed[j]
      ensures forall i :: 0 <= i < |Claimed| ==> Claimed[i] < N
    {
    }
  }

  /** What one processor iteration does with the value `x` it took from
      the first buffer: nothing for the sentinel, its square otherwise. */
  function ProcessValue(x: int): (r: Option<int>)
    ensures r.None? <==> x == Sentinel
    ensures r.Some? ==> r.value >= 0 && r.value != Sentinel
    ensures r.Some? ==> r.value == x * x
  {
    if x == Sentinel then None else Some(x * x)
  }

  /** The stream a processor forwards when it receives `xs`, in order:
      the squares of the values before the first sentinel. */
  function ProcessStream(xs: seq<int>): (r: seq<int>)
    ensures |r| <= |xs|
    ensures Sentinel !in xs ==> |r| == |xs| && forall i :: 0 <= i < |xs| ==> r[i] == xs[i] * xs[i]
    ensures forall i :: 0 <= i < |r| ==> r[i] >= 0
  {
    if xs == [] || xs[0] == Sentinel then [] else [xs[0] * xs[0]] + ProcessStream(xs[1..])
  }

  /** Whatever follows the first sentinel is never forwarded. */
  lemma {:induction false} StopsAtSentinel(xs: seq<int>, rest: seq<int>)
    requires Sentinel !in xs
    ensures ProcessStream(xs + [Sentinel] + rest) == ProcessStream(xs)
  {
    if xs != [] {
      assert (xs + [Sentinel] + rest)[1..] == xs[1..] + [Sentinel] + rest;
      StopsAtSentinel(xs[1..], rest);
    } else {
      assert (xs + [Sentinel] + rest)[0] == Sentinel;
    }
  }

  /** One iteration of `processor`, once a value is available in `inb`
      and there is room in `outb`: the value is taken; a sentinel stops
      the processor and its square is forwarded otherwise. */
  method ProcessOne(inb: BoundedBuffer, outb: BoundedBuffer) returns (stop: bool)
    requires inb.Valid() && outb.Valid() && inb != outb && inb.data != outb.data
    requires inb.count > 0 && outb.count < outb.cap
    modifies inb, outb, outb.data
    ensures inb.Valid() && outb.Valid()
    ensures inb.Contents == old(inb.Contents)[1..]
    ensures stop <==> old(inb.Contents)[0] == Sentinel
    ensures stop ==> outb.Contents == old(outb.Contents)
    ensures !stop ==> outb.Contents == old(outb.Contents) + [old(inb.Contents)[0] * old(inb.Contents)[0]]
  {
    var x := inb.Get();
    var r := ProcessValue(x);
    if r.None? {
      return true;
    }
    outb.Put(r.value);
    stop := false;
  }
}
