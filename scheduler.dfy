/** The non-preemptive FIFO scheduler simulation: a running process, a
    READY queue served in FIFO order and a BLOCKED list kept most recently
    blocked first, driven by new, cpu, block, unblock and done events.
    Each process record is linked from exactly one of the three places, so
    the records are modelled as values and the linked lists as sequences. */
module Scheduler {
  import opened Wrappers

  /** A process control block; `event` is -1 unless the process is blocked. */
  datatype Proc = Proc(pid: int, cpu: int, event: int)

  datatype Sched = Sched(running: Option<Proc>, ready: seq<Proc>, blocked: seq<Proc>, nextPid: int)

  function Init(): Sched {
    Sched(None, [], [], 1)
  }

  // ---- the queues ----

  /** dequeue_ready: the head and the rest of the queue, or nothing. */
  function Dequeue(q: seq<Proc>): (r: (Option<Proc>, seq<Proc>))
    ensures r.0 == None <==> q == []
    ensures r.0 == None ==> r.1 == q
    ensures r.0 != None ==> q == [r.0.value] + r.1
  {
    if q == [] then (None, q) else (Some(q[0]), q[1..])
  }

  /** The READY queue is FIFO: dequeuing after an enqueue yields the old
      head, or the new process when the queue was empty. */
  lemma EnqueueDequeue(q: seq<Proc>, p: Proc)
    ensures Dequeue(q + [p]).0 == Some(if q == [] then p else q[0])
    ensures Dequeue(q + [p]).1 == if q == [] then [] else Dequeue(q).1 + [p]
  {
    if q != [] { assert (q + [p])[1..] == q[1..] + [p]; }
  }

  /** The position of the first process in `bl` blocked on event `e`,
      or -1 when none is. */
  function FirstEvent(bl: seq<Proc>, e: int): (k: int)
    ensures -1 <= k < |bl|
    ensures k >= 0 ==> bl[k].event == e && forall i :: 0 <= i < k ==> bl[i].event != e
    ensures k == -1 ==> forall i :: 0 <= i < |bl| ==> bl[i].event != e
  {
    if bl == [] then -1
    else if bl[0].event == e then 0
    else
      var k := FirstEvent(bl[1..], e);
      if k == -1 then -1 else k + 1
  }

  /** remove_blocked_by_event: the first match and the list without it. */
  function TakeEvent(bl: seq<Proc>, e: int): (r: (Option<Proc>, seq<Proc>))
    ensures r.0 == None <==> forall i :: 0 <= i < |bl| ==> bl[i].event != e
    ensures r.0 == None ==> r.1 == bl
    ensures r.0 != None ==> r.0.value.event == e && multiset(r.1) + multiset{r.0.value} == multiset(bl)
    ensures r.0 != None ==> exists k :: (0 <= k < |bl| && bl[k] == r.0.value && r.1 == bl[..k] + bl[k + 1..]
                                          && forall i :: 0 <= i < k ==> bl[i].event != e)
  {
    var k := FirstEvent(bl, e);
    if k == -1 then (None, bl)
    else
      assert bl == bl[..k] + [bl[k]] + bl[k + 1..];
      (Some(bl[k]), bl[..k] + bl[k + 1..])
  }

  // ---- the events ----

  /** newProcess: a fresh pid, no cpu time, not blocked, at the READY tail. */
  function NewStep(s: Sched): Sched {
    s.(ready := s.ready + [Proc(s.nextPid, 0, -1)], nextPid := s.nextPid + 1)
  }

  /** cpuEvent: an idle cpu dispatches the READY head; then the running
      process runs one cycle.  Idle with nothing ready is a no-op. */
  function CpuStep(s: Sched): Sched {
    if s.running == None then
      if s.ready == [] then s
      else s.(running := Some(s.ready[0].(cpu := s.ready[0].cpu + 1)), ready := s.ready[1..])
    else s.(running := Some(s.running.value.(cpu := s.running.value.cpu + 1)))
  }

  /** blockEvent: the running process goes to the front of BLOCKED. */
  function BlockStep(s: Sched, e: int): Sched {
    if s.running == None then s
    else s.(running := None, blocked := [s.running.value.(event := e)] + s.blocked)
  }

  /** unblockEvent: the first process blocked on `e` goes to the READY tail. */
  function UnblockStep(s: Sched, e: int): Sched {
    var (found, rest) := TakeEvent(s.blocked, e);
    if found == None then s
    else s.(ready := s.ready + [found.value.(event := -1)], blocked := rest)
  }

  /** doneEvent: the running process leaves the system. */
  function DoneStep(s: Sched): Sched {
    if s.running == None then s else s.(running := None)
  }

  datatype Event = New | Cpu | Block(e: int) | Unblock(e: int) | Done

  function Apply(s: Sched, ev: Event): Sched {
    match ev
    case New => NewStep(s)
    case Cpu => CpuStep(s)
    case Block(e) => BlockStep(s, e)
    case Unblock(e) => UnblockStep(s, e)
    case Done => DoneStep(s)
  }

  function Run(s: Sched, evs: seq<Event>): Sched
    decreases |evs|
  {
    if evs == [] then s else Run(Apply(s, evs[0]), evs[1..])
  }

  // ---- the invariant ----

  function Held(r: Option<Proc>): seq<Proc> {
    if r == None then [] else [r.value]
  }

  /** Every live process, each held in exactly one place. */
  function Live(s: Sched): seq<Proc> {
    Held(s.running) + s.ready + s.blocked
  }

  function PidsOf(l: seq<Proc>): set<int> {
    set i | 0 <= i < |l| :: l[i].pid
  }

  predicate DistinctPids(l: seq<Proc>) {
    forall i, j :: 0 <= i < j < |l| ==> l[i].pid != l[j].pid
  }

  /** Total cpu cycles of the processes in `l`. */
  function Cycles(l: seq<Proc>): int {
    if l == [] then 0 else Cycles(l[..|l| - 1]) + l[|l| - 1].cpu
  }

  /** No pid occurs twice among the live processes, and every pid was
      handed out already. */
  predicate Valid(s: Sched) {
    && s.nextPid >= 1
    && DistinctPids(Live(s))
    && (forall x :: x in PidsOf(Live(s)) ==> 1 <= x < s.nextPid)
  }

  /** Only blocked processes carry an event. */
  predicate EventsOk(s: Sched) {
    && (s.running != None ==> s.running.value.event == -1)
    && (forall i :: 0 <= i < |s.ready| ==> s.ready[i].event == -1)
    && (forall i :: 0 <= i < |s.blocked| ==> s.blocked[i].event != -1)
  }

  // ---- sequences of processes ----

  lemma {:induction false} CyclesConcat(a: seq<Proc>, b: seq<Proc>)
    ensures Cycles(a + b) == Cycles(a) + Cycles(b)
    decreases |b|
  {
    if b != [] {
      assert (a + b)[..|a + b| - 1] == a + b[..|b| - 1];
      CyclesConcat(a, b[..|b| - 1]);
    } else {
      assert a + b == a;
    }
  }

  lemma CyclesOne(p: Proc)
    ensures Cycles([p]) == p.cpu
  {
    assert [p][..0] == [];
  }

  /** Where the process at position `i` of `x + y + [q] + z` stood in
      `x + [p] + y + z`. */
  function Origin(nx: int, ny: int, i: int): int {
    if i < nx then i else if i < nx + ny then i + 1 else if i == nx + ny then nx else i
  }

  /** Where the process at position `k` of `x + [p] + y + z` stands in
      `x + y + [q] + z`. */
  function Target(nx: int, ny: int, k: int): int {
    if k < nx then k else if k == nx then nx + ny else if k <= nx + ny then k - 1 else k
  }

  /** Moving process `p` of `x + [p] + y + z` behind `y`, as `q` with the
      same pid, keeps the set of pids and their distinctness, and changes
      the cycle total only by the difference between `q` and `p`. */
  lemma Shift(x: seq<Proc>, p: Proc, q: Proc, y: seq<Proc>, z: seq<Proc>)
    requires p.pid == q.pid
    ensures var l1, l2 := x + [p] + y + z, x + y + [q] + z;
      && PidsOf(l2) == PidsOf(l1)
      && (DistinctPids(l1) <==> DistinctPids(l2))
      && Cycles(l2) == Cycles(l1) - p.cpu + q.cpu
  {
    var l1, l2 := x + [p] + y + z, x + y + [q] + z;
    var nx, ny := |x|, |y|;
    assert forall i :: 0 <= i < |l2| ==> 0 <= Origin(nx, ny, i) < |l1| && l2[i].pid == l1[Origin(nx, ny, i)].pid;
    assert forall i, j :: 0 <= i < j < |l2| ==> Origin(nx, ny, i) != Origin(nx, ny, j);
    assert forall k :: 0 <= k < |l1| ==> 0 <= Target(nx, ny, k) < |l2| && Origin(nx, ny, Target(nx, ny, k)) == k;
    assert PidsOf(l2) == PidsOf(l1) by {
      forall v | v in PidsOf(l1) ensures v in PidsOf(l2) {
        var k :| 0 <= k < |l1| && l1[k].pid == v;
        assert l2[Target(nx, ny, k)].pid == v;
      }
    }
    assert DistinctPids(l1) ==> DistinctPids(l2) by {
      if DistinctPids(l1) {
        forall i, j | 0 <= i < j < |l2| ensures l2[i].pid != l2[j].pid {
          var a, b := Origin(nx, ny, i), Origin(nx, ny, j);
          if a < b {} else {}
        }
      }
    }
    assert DistinctPids(l2) ==> DistinctPids(l1) by {
      if DistinctPids(l2) {
        forall a, b | 0 <= a < b < |l1| ensures l1[a].pid != l1[b].pid {
          var i, j := Target(nx, ny, a), Target(nx, ny, b);
          if i < j {} else {}
        }
      }
    }
    assert Cycles(l2) == Cycles(l1) - p.cpu + q.cpu by {
      CyclesConcat(x + [p] + y, z);
      CyclesConcat(x + [p], y);
      CyclesConcat(x, [p]);
      CyclesConcat(x + y + [q], z);
      CyclesConcat(x + y, [q]);
      CyclesConcat(x, y);
      CyclesOne(p);
      CyclesOne(q);
    }
  }

  lemma PidsSnoc(l: seq<Proc>, p: Proc)
    ensures PidsOf(l + [p]) == PidsOf(l) + {p.pid}
  {
    var m := l + [p];
    assert m[|l|] == p;
    forall x | x in PidsOf(l) ensures x in PidsOf(m) {
      var i :| 0 <= i < |l| && l[i].pid == x;
      assert m[i] == l[i];
    }
  }

  /** Appending a process with a fresh pid. */
  lemma Append(l: seq<Proc>, p: Proc)
    ensures PidsOf(l + [p]) == PidsOf(l) + {p.pid}
    ensures DistinctPids(l) && p.pid !in PidsOf(l) ==> DistinctPids(l + [p])
    ensures Cycles(l + [p]) == Cycles(l) + p.cpu
  {
    PidsSnoc(l, p);
    CyclesConcat(l, [p]);
    CyclesOne(p);
    if DistinctPids(l) && p.pid !in PidsOf(l) {
      var m := l + [p];
      forall i, j | 0 <= i < j < |m| ensures m[i].pid != m[j].pid {
        if j == |l| { assert m[i] == l[i]; }
      }
    }
  }

  lemma PidsTail(l: seq<Proc>)
    requires l != [] && DistinctPids(l)
    ensures PidsOf(l[1..]) == PidsOf(l) - {l[0].pid}
  {
    forall x | x in PidsOf(l) - {l[0].pid} ensures x in PidsOf(l[1..]) {
      var i :| 0 <= i < |l| && l[i].pid == x;
      assert l[1..][i - 1] == l[i];
    }
  }

  // ---- what the events keep ----

  /** A new process gets a pid no live process has. */
  lemma NewKeeps(s: Sched)
    requires Valid(s)
    ensures var r := NewStep(s);
      && Valid(r)
      && s.nextPid !in PidsOf(Live(s))
      && PidsOf(Live(r)) == PidsOf(Live(s)) + {s.nextPid}
      && Cycles(Live(r)) == Cycles(Live(s))
      && (EventsOk(s) ==> EventsOk(r))
  {
    var r := NewStep(s);
    var p := Proc(s.nextPid, 0, -1);
    var x := Held(s.running) + s.ready;
    assert Live(s) == x + s.blocked;
    var l := x + [p] + s.blocked + [];
    assert Live(r) == l;
    assert PidsOf(l) == PidsOf(Live(s)) + {s.nextPid} && (DistinctPids(l) <==> DistinctPids(Live(s) + [p]))
        && Cycles(l) == Cycles(Live(s)) by {
      Shift(x, p, p, s.blocked, []);
      assert x + s.blocked + [p] + [] == Live(s) + [p];
      Append(Live(s), p);
    }
    assert DistinctPids(l) by { Append(Live(s), p); }
  }

  /** A cpu event with anything to run adds exactly one cycle and leaves
      a process running; otherwise it changes nothing. */
  lemma CpuKeeps(s: Sched)
    requires Valid(s)
    ensures var r := CpuStep(s);
      && Valid(r)
      && PidsOf(Live(r)) == PidsOf(Live(s))
      && (s.running == None && s.ready == [] ==> r == s)
      && (s.running != None || s.ready != [] ==>
            r.running != None && Cycles(Live(r)) == Cycles(Live(s)) + 1)
      && (EventsOk(s) ==> EventsOk(r))
  {
    var r := CpuStep(s);
    if s.running == None && s.ready != [] {
      var p := s.ready[0];
      var rest := s.ready[1..] + s.blocked;
      assert Live(s) == [] + [p] + [] + rest;
      assert Live(r) == [] + [] + [r.running.value] + rest;
      Shift([], p, r.running.value, [], rest);
    } else if s.running != None {
      var p := s.running.value;
      var rest := s.ready + s.blocked;
      assert Live(s) == [] + [p] + [] + rest;
      assert Live(r) == [] + [] + [r.running.value] + rest;
      Shift([], p, r.running.value, [], rest);
    }
  }

  /** Blocking moves the running process, tagged with the event, to the
      front of BLOCKED; a block with nothing running changes nothing. */
  lemma BlockKeeps(s: Sched, e: int)
    requires Valid(s)
    ensures var r := BlockStep(s, e);
      && Valid(r)
      && PidsOf(Live(r)) == PidsOf(Live(s))
      && Cycles(Live(r)) == Cycles(Live(s))
      && (s.running == None ==> r == s)
      && (s.running != None ==>
            r.running == None && r.ready == s.ready && r.blocked == [s.running.value.(event := e)] + s.blocked)
      && (EventsOk(s) && e != -1 ==> EventsOk(r))
  {
    var r := BlockStep(s, e);
    if s.running != None {
      var p := s.running.value;
      assert Live(s) == [] + [p] + s.ready + s.blocked;
      assert Live(r) == [] + s.ready + [p.(event := e)] + s.blocked;
      Shift([], p, p.(event := e), s.ready, s.blocked);
    }
  }

  /** Unblocking moves the most recently blocked process waiting for `e`
      to the READY tail with its event cleared; without one nothing
      changes. */
  lemma UnblockKeeps(s: Sched, e: int)
    requires Valid(s)
    ensures var r := UnblockStep(s, e);
      && Valid(r)
      && PidsOf(Live(r)) == PidsOf(Live(s))
      && Cycles(Live(r)) == Cycles(Live(s))
      && ((forall i :: 0 <= i < |s.blocked| ==> s.blocked[i].event != e) ==> r == s)
      && (EventsOk(s) ==> EventsOk(r))
  {
    var k := FirstEvent(s.blocked, e);
    if k != -1 {
      assert UnblockStep(s, e) == s.(ready := s.ready + [s.blocked[k].(event := -1)], blocked := s.blocked[..k] + s.blocked[k + 1..]);
      UnblockAt(s, k);
    }
  }

  /** Moving blocked process `k` to the READY tail with its event cleared. */
  lemma UnblockAt(s: Sched, k: int)
    requires Valid(s) && 0 <= k < |s.blocked|
    ensures var r := s.(ready := s.ready + [s.blocked[k].(event := -1)], blocked := s.blocked[..k] + s.blocked[k + 1..]);
      && Valid(r)
      && PidsOf(Live(r)) == PidsOf(Live(s))
      && Cycles(Live(r)) == Cycles(Live(s))
      && (EventsOk(s) ==> EventsOk(r))
  {
    var bl := s.blocked;
    var p := bl[k];
    var q := p.(event := -1);
    var r := s.(ready := s.ready + [q], blocked := bl[..k] + bl[k + 1..]);
    var h := Held(s.running) + s.ready;
    var l1, l2 := h + bl[..k] + [p] + bl[k + 1..], h + [q] + bl[..k] + bl[k + 1..];
    assert Live(s) == l1 by {
      assert bl == bl[..k] + [p] + bl[k + 1..];
    }
    assert Live(r) == l2;
    assert PidsOf(l2) == PidsOf(l1) && (DistinctPids(l1) <==> DistinctPids(l2)) && Cycles(l2) == Cycles(l1) by {
      ShiftBack(h, p, q, bl[..k], bl[k + 1..]);
    }
    assert EventsOk(s) ==> EventsOk(r) by {
      if EventsOk(s) {
        assert forall i :: 0 <= i < |r.blocked| ==> r.blocked[i] in bl;
      }
    }
  }

  /** Shift in the other direction. */
  lemma ShiftBack(x: seq<Proc>, p: Proc, q: Proc, y: seq<Proc>, z: seq<Proc>)
    requires p.pid == q.pid
    ensures var l1, l2 := x + y + [p] + z, x + [q] + y + z;
      && PidsOf(l2) == PidsOf(l1)
      && (DistinctPids(l1) <==> DistinctPids(l2))
      && Cycles(l2) == Cycles(l1) - p.cpu + q.cpu
  {
    Shift(x, q, p, y, z);
  }

  /** The finished process leaves; every other one stays. */
  lemma DoneKeeps(s: Sched)
    requires Valid(s)
    ensures var r := DoneStep(s);
      && Valid(r)
      && (s.running == None ==> r == s)
      && (s.running != None ==>
            r.running == None && PidsOf(Live(r)) == PidsOf(Live(s)) - {s.running.value.pid})
      && (EventsOk(s) ==> EventsOk(r))
  {
    var r := DoneStep(s);
    if s.running != None {
      assert Live(r) == Live(s)[1..];
      PidsTail(Live(s));
    }
  }

  /** The invariants hold along any run of events; the event invariant
      needs every block to use a real event id, since -1 marks "not
      blocked". */
  lemma StepKeeps(s: Sched, ev: Event)
    requires Valid(s)
    ensures Valid(Apply(s, ev))
    ensures EventsOk(s) && ev != Block(-1) ==> EventsOk(Apply(s, ev))
  {
    match ev {
      case New => NewKeeps(s);
      case Cpu => CpuKeeps(s);
      case Block(e) => BlockKeeps(s, e);
      case Unblock(e) => UnblockKeeps(s, e);
      case Done => DoneKeeps(s);
    }
  }

  /** The invariants hold along any run of events; the event invariant
      needs every block to use a real event id, since -1 marks "not
      blocked". */
  lemma {:induction false} RunKeeps(s: Sched, evs: seq<Event>)
    requires Valid(s)
    ensures Valid(Run(s, evs))
    ensures EventsOk(s) && (forall i :: 0 <= i < |evs| ==> evs[i] != Block(-1)) ==> EventsOk(Run(s, evs))
    decreases |evs|
  {
    if evs != [] {
      StepKeeps(s, evs[0]);
      RunKeeps(Apply(s, evs[0]), evs[1..]);
      assert forall i :: 0 <= i < |evs[1..]| ==> evs[1..][i] == evs[i + 1];
    }
  }

  // ---- the globals of the program ----

  class Scheduler {
    var running: Option<Proc>
    var ready: seq<Proc>
    var blocked: seq<Proc>
    var nextPid: int

    function Current(): Sched
      reads this
    {
      Sched(running, ready, blocked, nextPid)
    }

    constructor ()
      ensures Current() == Init()
    {
      running, ready, blocked, nextPid := None, [], [], 1;
    }

    /** enqueue_ready */
    method EnqueueReady(p: Proc)
      modifies this
      ensures Current() == old(Current()).(ready := old(ready) + [p])
    {
      ready := ready + [p];
    }

    /** dequeue_ready */
    method DequeueReady() returns (p: Option<Proc>)
      modifies this
      ensures (p, ready) == Dequeue(old(ready))
      ensures running == old(running) && blocked == old(blocked) && nextPid == old(nextPid)
    {
      if ready == [] {
        return None;
      }
      p := Some(ready[0]);
      ready := ready[1..];
    }

    /** add_blocked */
    method AddBlocked(p: Proc)
      modifies this
      ensures Current() == old(Current()).(blocked := [p] + old(blocked))
    {
      blocked := [p] + blocked;
    }

    /** remove_blocked_by_event: walks BLOCKED from its front. */
    method RemoveBlockedByEvent(e: int) returns (found: Option<Proc>)
      modifies this
      ensures (found, blocked) == TakeEvent(old(blocked), e)
      ensures running == old(running) && ready == old(ready) && nextPid == old(nextPid)
    {
      var i := 0;
      while i < |blocked|
        invariant 0 <= i <= |blocked|
        invariant forall k :: 0 <= k < i ==> blocked[k].event != e
      {
        if blocked[i].event == e {
          found := Some(blocked[i]);
          assert FirstEvent(blocked, e) == i;
          blocked := blocked[..i] + blocked[i + 1..];
          return;
        }
        i := i + 1;
      }
      found := None;
    }

    /** newProcess */
    method NewProcess()
      modifies this
      ensures Current() == NewStep(old(Current()))
    {
      var p := Proc(nextPid, 0, -1);
      nextPid := nextPid + 1;
      EnqueueReady(p);
    }

    /** cpuEvent */
    method CpuEvent()
      modifies this
      ensures Current() == CpuStep(old(Current()))
    {
      if running == None {
        running := DequeueReady();
        if running == None {
          return;
        }
      }
      running := Some(running.value.(cpu := running.value.cpu + 1));
    }

    /** blockEvent */
    method BlockEvent(e: int)
      modifies this
      ensures Current() == BlockStep(old(Current()), e)
    {
      if running == None {
        return;
      }
      AddBlocked(running.value.(event := e));
      running := None;
    }

    /** unblockEvent */
    method UnblockEvent(e: int)
      modifies this
      ensures Current() == UnblockStep(old(Current()), e)
    {
      var p := RemoveBlockedByEvent(e);
      if p == None {
        return;
      }
      EnqueueReady(p.value.(event := -1));
    }

    /** doneEvent; freeing the record is dropping it. */
    method DoneEvent()
      modifies this
      ensures Current() == DoneStep(old(Current()))
    {
      if running == None {
        return;
      }
      running := None;
    }

    /** The event sequence of main, on fresh globals: it ends with
        nothing running, ready or blocked, and P1, blocked on event 101
        after two cycles, runs its third cycle just before the last done
        event. */
    static method RunMain() returns (s: Scheduler, ghost beforeLast: Sched)
      ensures fresh(s) && s.Current() == Sched(None, [], [], 4)
      ensures beforeLast == Sched(Some(Proc(1, 3, -1)), [], [], 4) && s.Current() == DoneStep(beforeLast)
    {
      s := new Scheduler();
      s.MainOpening();
      s.MainMiddle();
      beforeLast := s.MainClosing();
    }

    /** P1 arrives, runs two cycles and blocks on 101; P2 arrives. */
    method MainOpening()
      requires Current() == Init()
      modifies this
      ensures Current() == Sched(None, [Proc(2, 0, -1)], [Proc(1, 2, 101)], 3)
    {
      NewProcess();
      assert Current() == Sched(None, [Proc(1, 0, -1)], [], 2);
      CpuEvent();
      assert Current() == Sched(Some(Proc(1, 1, -1)), [], [], 2);
      CpuEvent();
      assert Current() == Sched(Some(Proc(1, 2, -1)), [], [], 2);
      BlockEvent(101);
      assert [Proc(1, 2, 101)] + [] == [Proc(1, 2, 101)];
      assert Current() == Sched(None, [], [Proc(1, 2, 101)], 2);
      NewProcess();
      assert [] + [Proc(2, 0, -1)] == [Proc(2, 0, -1)];
    }

    /** P2 runs one cycle and is done; P3 arrives and runs one cycle. */
    method MainMiddle()
      requires Current() == Sched(None, [Proc(2, 0, -1)], [Proc(1, 2, 101)], 3)
      modifies this
      ensures Current() == Sched(Some(Proc(3, 1, -1)), [], [Proc(1, 2, 101)], 4)
    {
      CpuEvent();
      assert [Proc(2, 0, -1)][1..] == [];
      assert Current() == Sched(Some(Proc(2, 1, -1)), [], [Proc(1, 2, 101)], 3);
      DoneEvent();
      assert Current() == Sched(None, [], [Proc(1, 2, 101)], 3);
      NewProcess();
      assert [] + [Proc(3, 0, -1)] == [Proc(3, 0, -1)];
      assert Current() == Sched(None, [Proc(3, 0, -1)], [Proc(1, 2, 101)], 4);
      CpuEvent();
    }

    /** Event 101 wakes P1; P3 runs its second cycle and is done; P1 runs
        its third cycle and is done. */
    method MainClosing() returns (ghost beforeLast: Sched)
      requires Current() == Sched(Some(Proc(3, 1, -1)), [], [Proc(1, 2, 101)], 4)
      modifies this
      ensures Current() == Sched(None, [], [], 4)
      ensures beforeLast == Sched(Some(Proc(1, 3, -1)), [], [], 4) && Current() == DoneStep(beforeLast)
    {
      UnblockEvent(101);
      assert [Proc(1, 2, 101)][..0] + [Proc(1, 2, 101)][1..] == [] && [] + [Proc(1, 2, -1)] == [Proc(1, 2, -1)];
      assert Current() == Sched(Some(Proc(3, 1, -1)), [Proc(1, 2, -1)], [], 4);
      CpuEvent();
      assert Current() == Sched(Some(Proc(3, 2, -1)), [Proc(1, 2, -1)], [], 4);
      DoneEvent();
      assert Current() == Sched(None, [Proc(1, 2, -1)], [], 4);
      CpuEvent();
      assert Current() == Sched(Some(Proc(1, 3, -1)), [], [], 4);
      beforeLast := Current();
      DoneEvent();
    }
  }
}
