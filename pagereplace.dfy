/** FIFO and LRU page replacement over a reference string, counting page
    faults for a given number of frames.  A frame holding no page holds
    -1.  The reference string is the global `rand_ref`, passed here as a
    parameter; its pages lie in [0, PAGE_RANGE). */
module PageReplace {

  const PAGE_RANGE: int := 10
  const REF_LEN: int := 30

  predicate ValidRefs(refs: seq<int>) {
    forall i :: 0 <= i < |refs| ==> 0 <= refs[i] < PAGE_RANGE
  }

  /** The distinct pages of a reference string. */
  function Pages(refs: seq<int>): set<int> {
    set i | 0 <= i < |refs| :: refs[i]
  }

  lemma PagesSnoc(q: seq<int>, p: int)
    ensures Pages(q + [p]) == Pages(q) + {p}
  {
    var l := q + [p];
    forall x | x in Pages(l) ensures x in Pages(q) + {p} {
      var i :| 0 <= i < |l| && l[i] == x;
      if i < |q| { assert q[i] == x; }
    }
    forall x | x in Pages(q) + {p} ensures x in Pages(l) {
      if x == p { assert l[|q|] == x; }
      else { var i :| 0 <= i < |q| && q[i] == x; assert l[i] == x; }
    }
  }

  /** Every frame holds -1 or a page of the range, and no page is held twice. */
  predicate Frames(frame: seq<int>) {
    && (forall k :: 0 <= k < |frame| ==> frame[k] == -1 || 0 <= frame[k] < PAGE_RANGE)
    && (forall k, m :: 0 <= k < m < |frame| && frame[k] != -1 ==> frame[k] != frame[m])
  }

  /** The frames hold only pages that occur in `refs`. */
  predicate FromRefs(frame: seq<int>, refs: seq<int>) {
    forall k :: 0 <= k < |frame| && frame[k] != -1 ==> frame[k] in Pages(refs)
  }

  // ---- FIFO ----

  datatype Fifo = Fifo(frame: seq<int>, inFrame: seq<bool>, next: nat, faults: nat)

  /** `inFrame[p]` is set exactly for the pages held in some frame, and
      `next` names a frame. */
  predicate FifoInv(st: Fifo) {
    && |st.frame| > 0 && |st.inFrame| == PAGE_RANGE && st.next < |st.frame|
    && Frames(st.frame)
    && (forall x :: 0 <= x < PAGE_RANGE ==> (st.inFrame[x] <==> x in st.frame))
  }

  function FifoInit(frames: nat): (r: Fifo)
    requires frames > 0
    ensures FifoInv(r) && |r.frame| == frames && r.faults == 0
    ensures forall k :: 0 <= k < frames ==> r.frame[k] == -1
  {
    Fifo(seq(frames, _ => -1), seq(PAGE_RANGE, _ => false), 0, 0)
  }

  /** One reference: a hit changes nothing; a miss counts a fault, evicts
      the page in frame `next`, loads `p` there and advances `next`
      cyclically. */
  function FifoStep(st: Fifo, p: int): Fifo
    requires FifoInv(st) && 0 <= p < PAGE_RANGE
  {
    if st.inFrame[p] then st
    else
      var victim := st.frame[st.next];
      var inF := if victim != -1 then st.inFrame[victim := false] else st.inFrame;
      Fifo(st.frame[st.next := p], inF[p := true], (st.next + 1) % |st.frame|, st.faults + 1)
  }

  lemma FifoStepKeeps(st: Fifo, p: int)
    requires FifoInv(st) && 0 <= p < PAGE_RANGE
    ensures var r := FifoStep(st, p);
      && FifoInv(r) && |r.frame| == |st.frame| && p in r.frame
      && (p in st.frame ==> r == st)
      && (p !in st.frame ==>
            (r.faults == st.faults + 1
             && r.frame == st.frame[st.next := p]
             && r.next == (st.next + 1) % |st.frame|))
      && (forall k :: 0 <= k < |r.frame| && r.frame[k] != -1 ==> r.frame[k] == p || r.frame[k] in st.frame)
  {
    if !st.inFrame[p] {
      var r := FifoStep(st, p);
      var victim := st.frame[st.next];
      assert r.frame[st.next] == p;
      forall x | 0 <= x < PAGE_RANGE ensures r.inFrame[x] <==> x in r.frame {
        if x != p && x in st.frame {
          var k :| 0 <= k < |st.frame| && st.frame[k] == x;
          if k != st.next { assert r.frame[k] == x; }
        }
        if x != p && x in r.frame {
          var k :| 0 <= k < |r.frame| && r.frame[k] == x;
          assert k != st.next && st.frame[k] == x;
          if x == victim {
            if k < st.next { assert false; } else { assert false; }
          }
        }
      }
    }
  }

  /** The state after the references of `refs`, one after another. */
  function FifoRun(st: Fifo, refs: seq<int>): (r: Fifo)
    requires FifoInv(st) && ValidRefs(refs)
    ensures FifoInv(r) && |r.frame| == |st.frame|
  {
    if refs == [] then st
    else
      var q := FifoRun(st, refs[..|refs| - 1]);
      FifoStepKeeps(q, refs[|refs| - 1]);
      FifoStep(q, refs[|refs| - 1])
  }

  lemma FifoRunSnoc(frames: nat, refs: seq<int>, i: nat)
    requires ValidRefs(refs) && frames > 0 && i < |refs|
    ensures FifoInv(FifoRun(FifoInit(frames), refs[..i]))
    ensures FifoRun(FifoInit(frames), refs[..i + 1]) == FifoStep(FifoRun(FifoInit(frames), refs[..i]), refs[i])
  {
    assert refs[..i + 1][..i] == refs[..i];
  }

  /** simulate_fifo's result. */
  function FifoFaults(refs: seq<int>, frames: nat): nat
    requires ValidRefs(refs) && frames > 0
  {
    FifoRun(FifoInit(frames), refs).faults
  }

  /** Every distinct page referenced faults at least once (its first
      reference), and no reference faults twice. */
  lemma {:induction false} FifoBounds(refs: seq<int>, frames: nat)
    requires ValidRefs(refs) && frames > 0
    ensures |Pages(refs)| <= FifoFaults(refs, frames) <= |refs|
    ensures FromRefs(FifoRun(FifoInit(frames), refs).frame, refs)
  {
    if refs != [] {
      var q, p := refs[..|refs| - 1], refs[|refs| - 1];
      assert refs == q + [p];
      FifoBounds(q, frames);
      PagesSnoc(q, p);
      var st := FifoRun(FifoInit(frames), q);
      FifoStepKeeps(st, p);
      if p !in Pages(q) {
        assert p !in st.frame;
      }
    }
  }

  /** simulate_fifo, on the arrays `frame` and `in_frame`. */
  method SimulateFifo(refs: seq<int>, frames: int) returns (faults: int)
    requires |refs| == REF_LEN && ValidRefs(refs) && frames > 0
    ensures faults == FifoFaults(refs, frames)
  {
    var next: nat := 0;
    faults := 0;
    var frame := new int[frames];
    var inFrame := new bool[PAGE_RANGE];
    var i := 0;
    while i < PAGE_RANGE
      invariant 0 <= i <= PAGE_RANGE
      invariant forall k :: 0 <= k < i ==> !inFrame[k]
    {
      inFrame[i] := false;
      i := i + 1;
    }
    assert inFrame[..] == seq(PAGE_RANGE, _ => false);
    i := 0;
    while i < frames
      invariant 0 <= i <= frames
      invariant forall k :: 0 <= k < i ==> frame[k] == -1
      invariant inFrame[..] == seq(PAGE_RANGE, _ => false)
    {
      frame[i] := -1;
      i := i + 1;
    }
    assert frame[..] == seq(frames, _ => -1);
    i := 0;
    while i < |refs|
      invariant 0 <= i <= |refs| && faults >= 0
      invariant Fifo(frame[..], inFrame[..], next, faults) == FifoRun(FifoInit(frames), refs[..i])
    {
      var f;
      FifoRunSnoc(frames, refs, i);
      next, f := FifoTick(frame, inFrame, refs[i], next, faults);
      faults := f;
      i := i + 1;
    }
    assert refs[..i] == refs;
  }

  /** One iteration of simulate_fifo's loop over the references. */
  method FifoTick(frame: array<int>, inFrame: array<bool>, p: int, next: nat, faults: nat)
      returns (next': nat, faults': nat)
    requires 0 <= p < PAGE_RANGE
    requires FifoInv(Fifo(frame[..], inFrame[..], next, faults))
    modifies frame, inFrame
    ensures Fifo(frame[..], inFrame[..], next', faults') == FifoStep(old(Fifo(frame[..], inFrame[..], next, faults)), p)
  {
    next', faults' := next, faults;
    if !inFrame[p] {
      faults' := faults' + 1;
      if frame[next'] != -1 {
        inFrame[frame[next']] := false;
      }
      frame[next'] := p;
      inFrame[p] := true;
      next' := (next' + 1) % frame.Length;
    }
  }

  // ---- LRU ----

  /** The first frame holding `x`, or -1 when none does. */
  function Find(s: seq<int>, x: int): (r: int)
    ensures -1 <= r < |s|
    ensures r == -1 <==> x !in s
    ensures r >= 0 ==> s[r] == x && forall k :: 0 <= k < r ==> s[k] != x
  {
    if s == [] then -1
    else if s[0] == x then 0
    else
      var r := Find(s[1..], x);
      if r == -1 then -1 else r + 1
  }

  /** The frame among the first `n` whose time stamp is smallest, the
      lowest such index on ties. */
  function Oldest(stamp: seq<int>, n: nat): (r: nat)
    requires 0 < n <= |stamp|
    ensures r < n
    ensures forall j :: 0 <= j < n ==> stamp[r] <= stamp[j]
    ensures forall j :: 0 <= j < r ==> stamp[r] < stamp[j]
  {
    if n == 1 then 0
    else
      var m := Oldest(stamp, n - 1);
      if stamp[n - 1] < stamp[m] then n - 1 else m
  }

  datatype Lru = Lru(frame: seq<int>, stamp: seq<int>, timec: nat, faults: nat)

  predicate LruInv(st: Lru) {
    |st.frame| > 0 && |st.stamp| == |st.frame| && Frames(st.frame)
  }

  function LruInit(frames: nat): (r: Lru)
    requires frames > 0
    ensures LruInv(r) && |r.frame| == frames && r.faults == 0 && r.timec == 0
    ensures forall k :: 0 <= k < frames ==> r.frame[k] == -1
  {
    Lru(seq(frames, _ => -1), seq(frames, _ => 0), 0, 0)
  }

  /** The frame a miss loads into: the lowest empty one, and otherwise the
      least recently stamped. */
  function Victim(st: Lru): (v: nat)
    requires LruInv(st)
    ensures v < |st.frame|
  {
    var e := Find(st.frame, -1);
    if e != -1 then e else Oldest(st.stamp, |st.stamp|)
  }

  /** One reference, at tick `timec + 1`: a hit restamps its frame; a miss
      counts a fault and loads `p` into the victim frame. */
  function LruStep(st: Lru, p: int): Lru
    requires LruInv(st) && 0 <= p < PAGE_RANGE
  {
    var t := st.timec + 1;
    var found := Find(st.frame, p);
    if found != -1 then st.(stamp := st.stamp[found := t], timec := t)
    else
      var v := Victim(st);
      Lru(st.frame[v := p], st.stamp[v := t], t, st.faults + 1)
  }

  lemma LruStepKeeps(st: Lru, p: int)
    requires LruInv(st) && 0 <= p < PAGE_RANGE
    ensures var r := LruStep(st, p);
      && LruInv(r) && |r.frame| == |st.frame| && p in r.frame && r.timec == st.timec + 1
      && (p in st.frame ==>
            (r.frame == st.frame && r.faults == st.faults
             && r.stamp == st.stamp[Find(st.frame, p) := r.timec]))
      && (p !in st.frame ==>
            (r.faults == st.faults + 1
             && r.frame == st.frame[Victim(st) := p]
             && r.stamp == st.stamp[Victim(st) := r.timec]))
      && (forall k :: 0 <= k < |r.frame| && r.frame[k] != -1 ==> r.frame[k] == p || r.frame[k] in st.frame)
  {
    var r := LruStep(st, p);
    if p !in st.frame {
      var v := Victim(st);
      assert r.frame[v] == p;
      forall k, m | 0 <= k < m < |r.frame| && r.frame[k] != -1 ensures r.frame[k] != r.frame[m] {
        if k != v && m != v { assert r.frame[k] == st.frame[k] && r.frame[m] == st.frame[m]; }
        else if k == v { assert st.frame[m] == r.frame[m]; }
        else { assert st.frame[k] == r.frame[k]; }
      }
    }
  }

  function LruRun(st: Lru, refs: seq<int>): (r: Lru)
    requires LruInv(st) && ValidRefs(refs)
    ensures LruInv(r) && |r.frame| == |st.frame| && r.timec == st.timec + |refs|
  {
    if refs == [] then st
    else
      var q := LruRun(st, refs[..|refs| - 1]);
      LruStepKeeps(q, refs[|refs| - 1]);
      LruStep(q, refs[|refs| - 1])
  }

  lemma LruRunSnoc(frames: nat, refs: seq<int>, i: nat)
    requires ValidRefs(refs) && frames > 0 && i < |refs|
    ensures LruInv(LruRun(LruInit(frames), refs[..i]))
    ensures LruRun(LruInit(frames), refs[..i + 1]) == LruStep(LruRun(LruInit(frames), refs[..i]), refs[i])
  {
    assert refs[..i + 1][..i] == refs[..i];
  }

  /** simulate_lru's result. */
  function LruFaults(refs: seq<int>, frames: nat): nat
    requires ValidRefs(refs) && frames > 0
  {
    LruRun(LruInit(frames), refs).faults
  }

  lemma {:induction false} LruBounds(refs: seq<int>, frames: nat)
    requires ValidRefs(refs) && frames > 0
    ensures |Pages(refs)| <= LruFaults(refs, frames) <= |refs|
    ensures FromRefs(LruRun(LruInit(frames), refs).frame, refs)
  {
    if refs != [] {
      var q, p := refs[..|refs| - 1], refs[|refs| - 1];
      assert refs == q + [p];
      LruBounds(q, frames);
      PagesSnoc(q, p);
      var st := LruRun(LruInit(frames), q);
      var r := LruRun(LruInit(frames), refs);
      assert r == LruStep(st, p) by { assert refs[..|refs| - 1] == q; }
      LruStepKeeps(st, p);
      if p !in Pages(q) {
        assert p !in st.frame;
        assert |Pages(refs)| == |Pages(q)| + 1;
      } else {
        assert Pages(refs) == Pages(q);
      }
      FromRefsStep(st.frame, r.frame, q, p);
    }
  }

  /** A step that puts only `p` or pages already held in the frames keeps
      them drawn from the references, `p` now among them. */
  lemma FromRefsStep(before: seq<int>, after: seq<int>, q: seq<int>, p: int)
    requires FromRefs(before, q)
    requires forall k :: 0 <= k < |after| && after[k] != -1 ==> after[k] == p || after[k] in before
    ensures FromRefs(after, q + [p])
  {
    PagesSnoc(q, p);
    forall k | 0 <= k < |after| && after[k] != -1 ensures after[k] in Pages(q + [p]) {
      if after[k] != p {
        var m :| 0 <= m < |before| && before[m] == after[k];
      }
    }
  }

  /** The tick (1-based position) of the last reference to `x`, 0 if none. */
  function LastUse(refs: seq<int>, x: int): (r: nat)
    ensures r <= |refs|
    ensures r > 0 ==> refs[r - 1] == x
    ensures forall j :: r <= j < |refs| ==> refs[j] != x
  {
    if refs == [] then 0
    else if refs[|refs| - 1] == x then |refs|
    else LastUse(refs[..|refs| - 1], x)
  }

  /** The time stamp of every occupied frame is the tick of the last
      reference to the page it holds. */
  lemma {:induction false} LruStamps(refs: seq<int>, frames: nat)
    requires ValidRefs(refs) && frames > 0
    ensures Stamped(LruRun(LruInit(frames), refs), refs)
  {
    if refs != [] {
      var q, p := refs[..|refs| - 1], refs[|refs| - 1];
      assert refs == q + [p];
      LruStamps(q, frames);
      StampStep(LruRun(LruInit(frames), q), q, p);
    }
  }

  /** Time stamps record the tick of the last reference to each held page. */
  predicate Stamped(st: Lru, refs: seq<int>)
    requires LruInv(st)
  {
    forall k :: 0 <= k < |st.frame| && st.frame[k] != -1 ==> st.stamp[k] == LastUse(refs, st.frame[k])
  }

  lemma StampStep(st: Lru, q: seq<int>, p: int)
    requires LruInv(st) && 0 <= p < PAGE_RANGE && st.timec == |q| && Stamped(st, q)
    ensures Stamped(LruStep(st, p), q + [p])
  {
    LruStepKeeps(st, p);
    var r, refs := LruStep(st, p), q + [p];
    assert refs[..|refs| - 1] == q;
    forall k | 0 <= k < |r.frame| && r.frame[k] != -1 ensures r.stamp[k] == LastUse(refs, r.frame[k]) {
      if r.frame[k] != p {
        assert st.frame[k] == r.frame[k] && st.stamp[k] == r.stamp[k];
      } else if p in st.frame {
        var f := Find(st.frame, p);
        assert r.frame[f] == p;
        assert k == f;
      } else {
        assert k == Victim(st);
      }
    }
  }

  /** When every frame is occupied, a miss evicts the page whose last
      reference is the earliest: the least recently used one. */
  lemma LruEvictsLeastRecent(refs: seq<int>, frames: nat)
    requires ValidRefs(refs) && frames > 0
    requires -1 !in LruRun(LruInit(frames), refs).frame
    ensures var r := LruRun(LruInit(frames), refs);
      forall k :: 0 <= k < frames ==>
        LastUse(refs, r.frame[Victim(r)]) <= LastUse(refs, r.frame[k])
  {
    LruStamps(refs, frames);
  }

  /** The search loops of simulate_lru. */
  method FindFrame(frame: array<int>, x: int) returns (found: int)
    ensures found == Find(frame[..], x)
  {
    found := -1;
    var j := 0;
    while j < frame.Length
      invariant 0 <= j <= frame.Length
      invariant forall k :: 0 <= k < j ==> frame[k] != x
    {
      if frame[j] == x {
        found := j;
        break;
      }
      j := j + 1;
    }
    ghost var f := Find(frame[..], x);
    if found == -1 {
      assert x !in frame[..];
    }
  }

  method OldestFrame(stamp: array<int>) returns (lru: int)
    requires stamp.Length > 0
    ensures lru == Oldest(stamp[..], stamp.Length)
  {
    lru := 0;
    var j := 1;
    while j < stamp.Length
      invariant 1 <= j <= stamp.Length
      invariant lru == Oldest(stamp[..], j)
    {
      if stamp[j] < stamp[lru] {
        lru := j;
      }
      j := j + 1;
    }
  }

  /** One iteration of simulate_lru's loop over the references. */
  method LruTick(frame: array<int>, stamp: array<int>, p: int, timec: nat, faults: nat)
      returns (timec': nat, faults': nat)
    requires frame != stamp && 0 <= p < PAGE_RANGE
    requires LruInv(Lru(frame[..], stamp[..], timec, faults))
    modifies frame, stamp
    ensures Lru(frame[..], stamp[..], timec', faults') == LruStep(old(Lru(frame[..], stamp[..], timec, faults)), p)
  {
    ghost var st := Lru(frame[..], stamp[..], timec, faults);
    timec' := timec + 1;
    faults' := faults;
    var found := FindFrame(frame, p);
    if found != -1 {
      stamp[found] := timec';
    } else {
      faults' := faults' + 1;
      var empty := FindFrame(frame, -1);
      var v;
      if empty != -1 {
        v := empty;
      } else {
        v := OldestFrame(stamp);
      }
      assert v == Victim(st);
      frame[v] := p;
      stamp[v] := timec';
    }
  }

  /** simulate_lru, on the arrays `frame` and `time_stamp`. */
  method SimulateLru(refs: seq<int>, frames: int) returns (faults: int)
    requires |refs| == REF_LEN && ValidRefs(refs) && frames > 0
    ensures faults == LruFaults(refs, frames)
  {
    faults := 0;
    var timec: nat := 0;
    var frame, stamp := LruSetup(frames);
    var i := 0;
    while i < |refs|
      invariant 0 <= i <= |refs| && faults >= 0
      invariant Lru(frame[..], stamp[..], timec, faults) == LruRun(LruInit(frames), refs[..i])
    {
      var f;
      LruRunSnoc(frames, refs, i);
      timec, f := LruTick(frame, stamp, refs[i], timec, faults);
      faults := f;
      i := i + 1;
    }
    assert refs[..i] == refs;
  }

  /** The initialisation loop of simulate_lru: every frame empty, every
      time stamp 0. */
  method LruSetup(frames: nat) returns (frame: array<int>, stamp: array<int>)
    requires frames > 0
    ensures fresh(frame) && fresh(stamp) && frame != stamp
    ensures Lru(frame[..], stamp[..], 0, 0) == LruInit(frames)
  {
    frame := new int[frames];
    stamp := new int[frames];
    var i := 0;
    while i < frames
      invariant 0 <= i <= frames
      invariant forall k :: 0 <= k < i ==> frame[k] == -1 && stamp[k] == 0
    {
      frame[i] := -1;
      stamp[i] := 0;
      i := i + 1;
    }
    assert frame[..] == seq(frames, _ => -1) && stamp[..] == seq(frames, _ => 0);
  }
}
