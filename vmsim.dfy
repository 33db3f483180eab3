/** The bookkeeping of the MMU thread of the virtual-memory simulator: a
    page table per process, the owner of every frame, the LRU list of
    (time stamp, frame) pairs and the list of free frames.  The wall
    clock is replaced by a logical clock that advances on every reading,
    so time stamps are distinct and increasing. */
module VmSim {

  const NUM_PROCESSES: int := 3
  const NUM_FRAMES: int := 4

  datatype Owner = Owner(proc: int, page: int)
  datatype Stamp = Stamp(time: nat, frame: int)

  /** A message on the request queue. */
  datatype Item = Request(proc: int, page: int) | Done(pid: int)

  datatype Mmu = Mmu(tables: seq<map<int, int>>, owner: map<int, Owner>, lru: seq<Stamp>,
                     free: seq<int>, faults: nat, clock: nat)

  /** The frames named in the LRU list. */
  function FramesOf(lru: seq<Stamp>): set<int> {
    set i | 0 <= i < |lru| :: lru[i].frame
  }

  /** The free frames are in increasing order and lie in the frame range. */
  predicate FreeOk(free: seq<int>) {
    && (forall i :: 0 <= i < |free| ==> 0 <= free[i] < NUM_FRAMES)
    && (forall i, j :: 0 <= i < j < |free| ==> free[i] < free[j])
  }

  /** Every frame is either free or owned, never both. */
  predicate Partition(free: seq<int>, owner: map<int, Owner>) {
    && (forall f :: f in owner ==> 0 <= f < NUM_FRAMES && f !in free)
    && (forall f :: 0 <= f < NUM_FRAMES && f !in free ==> f in owner)
  }

  /** `owner` and the page tables are mutually inverse. */
  predicate Inverse(tables: seq<map<int, int>>, owner: map<int, Owner>)
    requires |tables| == NUM_PROCESSES
  {
    && (forall f :: f in owner ==>
          && 0 <= owner[f].proc < NUM_PROCESSES
          && owner[f].page in tables[owner[f].proc]
          && tables[owner[f].proc][owner[f].page] == f)
    && (forall p, pg :: 0 <= p < NUM_PROCESSES && pg in tables[p] ==>
          tables[p][pg] in owner && owner[tables[p][pg]] == Owner(p, pg))
  }

  /** The LRU list names each owned frame exactly once, with time stamps
      strictly increasing along the list and below the clock. */
  predicate LruOk(lru: seq<Stamp>, owner: map<int, Owner>, clock: nat) {
    && FramesOf(lru) == owner.Keys
    && (forall i, j :: 0 <= i < j < |lru| ==> lru[i].time < lru[j].time && lru[i].frame != lru[j].frame)
    && (forall i :: 0 <= i < |lru| ==> lru[i].time < clock)
  }

  predicate Valid(s: Mmu) {
    && |s.tables| == NUM_PROCESSES
    && FreeOk(s.free) && Partition(s.free, s.owner)
    && Inverse(s.tables, s.owner)
    && LruOk(s.lru, s.owner, s.clock)
  }

  /** The state before the first request: empty page tables, no owners and
      every frame free. */
  function Init(): (r: Mmu)
    ensures Valid(r)
  {
    var r := Mmu(seq(NUM_PROCESSES, _ => map[]), map[], [], [0, 1, 2, 3], 0, 0);
    assert FramesOf(r.lru) == {};
    r
  }

  /** The first position of `f` in the LRU list, or its length. */
  function FindStamp(lru: seq<Stamp>, f: int): (i: nat)
    ensures i <= |lru|
    ensures i < |lru| ==> lru[i].frame == f
    ensures forall k :: 0 <= k < i ==> lru[k].frame != f
  {
    if lru == [] then 0
    else if lru[0].frame == f then 0
    else 1 + FindStamp(lru[1..], f)
  }

  /** A hit: the frame's LRU entry moves to the end with a fresh time stamp. */
  function Hit(s: Mmu, proc: int, page: int): Mmu
    requires |s.tables| == NUM_PROCESSES && 0 <= proc < NUM_PROCESSES && page in s.tables[proc]
  {
    var f := s.tables[proc][page];
    s.(lru := Refreshed(s.lru, f, s.clock), clock := s.clock + 1)
  }

  /** The LRU list once frame `f` is used at time `now`: its entry, when
      there is one, leaves its place and a fresh one goes at the end. */
  function Refreshed(lru: seq<Stamp>, f: int, now: nat): seq<Stamp> {
    var i := FindStamp(lru, f);
    (if i < |lru| then lru[..i] + lru[i + 1..] else lru) + [Stamp(now, f)]
  }

  /** load_page: count a fault, take the first free frame or else evict
      the frame at the head of the LRU list, whose time stamp is the
      oldest, unmapping its previous owner; then map the page to it. */
  function Load(s: Mmu, proc: int, page: int): Mmu
    requires Valid(s) && 0 <= proc < NUM_PROCESSES
  {
    if s.free != [] then
      Install(s.(free := s.free[1..], faults := s.faults + 1), s.free[0], proc, page)
    else
      assert 0 in s.owner && 0 in FramesOf(s.lru);
      var victim := s.lru[0].frame;
      var o := s.owner[victim];
      var t := s.tables[o.proc];
      var tables := s.tables[o.proc := if o.page in t then t - {o.page} else t];
      Install(s.(tables := tables, owner := s.owner - {victim}, lru := s.lru[1..], faults := s.faults + 1),
              victim, proc, page)
  }

  /** The end of load_page: map `page` of `proc` to frame `f`. */
  function Install(s: Mmu, f: int, proc: int, page: int): Mmu
    requires |s.tables| == NUM_PROCESSES && 0 <= proc < NUM_PROCESSES
  {
    s.(tables := s.tables[proc := s.tables[proc][page := f]],
       owner := s.owner[f := Owner(proc, page)],
       lru := s.lru + [Stamp(s.clock, f)],
       clock := s.clock + 1)
  }

  /** One message handled by the MMU loop. */
  function Handle(s: Mmu, item: Item): (r: Mmu)
    requires Valid(s) && (item.Request? ==> 0 <= item.proc < NUM_PROCESSES)
    ensures item.Done? ==> r == s
  {
    match item
    case Done(_) => s
    case Request(proc, page) =>
      if page in s.tables[proc] then Hit(s, proc, page) else Load(s, proc, page)
  }

  // ---- properties ----

  /** A hit leaves the mappings, the free frames and the fault count
      alone; the frame's entry leaves its place in the LRU list and comes
      back at the end with the newest time stamp. */
  lemma HitKeeps(s: Mmu, proc: int, page: int)
    requires Valid(s) && 0 <= proc < NUM_PROCESSES && page in s.tables[proc]
    ensures var r := Hit(s, proc, page); var f := s.tables[proc][page];
      && Valid(r)
      && r.tables == s.tables && r.owner == s.owner && r.free == s.free && r.faults == s.faults
      && r.lru[|r.lru| - 1] == Stamp(s.clock, f)
      && (forall k :: 0 <= k < |r.lru| - 1 ==> r.lru[k].frame != f && r.lru[k] in s.lru)
      && |r.lru| == |s.lru|
  {
    var f := s.tables[proc][page];
    HitLru(s.lru, s.owner, s.clock, f);
  }

  /** The LRU list after a hit on owned frame `f`. */
  lemma HitLru(lru: seq<Stamp>, owner: map<int, Owner>, clock: nat, f: int)
    requires LruOk(lru, owner, clock) && f in owner
    ensures FindStamp(lru, f) < |lru|
    ensures LruOk(Refreshed(lru, f, clock), owner, clock + 1)
    ensures var r := Refreshed(lru, f, clock);
      && |r| == |lru| && r[|r| - 1] == Stamp(clock, f)
      && (forall k :: 0 <= k < |r| - 1 ==> r[k].frame != f && r[k] in lru)
  {
    var i := FindStamp(lru, f);
    assert f in FramesOf(lru);
    var j :| 0 <= j < |lru| && lru[j].frame == f;
    assert i <= j;
    var l := lru[..i] + lru[i + 1..];
    var r := l + [Stamp(clock, f)];
    assert r == Refreshed(lru, f, clock);
    RemoveStamp(lru, i, owner, clock);
    assert LruOk(r, owner, clock + 1) by {
      AppendStamp(l, owner, f, clock);
    }
    forall k | 0 <= k < |l| ensures l[k].frame != f {
      assert l[k].frame in FramesOf(l);
    }
  }

  /** Dropping entry `i` of a well-formed LRU list drops exactly its frame. */
  lemma RemoveStamp(lru: seq<Stamp>, i: nat, owner: map<int, Owner>, clock: nat)
    requires LruOk(lru, owner, clock) && i < |lru|
    ensures var l := lru[..i] + lru[i + 1..];
      && FramesOf(l) == owner.Keys - {lru[i].frame}
      && (forall a, b :: 0 <= a < b < |l| ==> l[a].time < l[b].time && l[a].frame != l[b].frame)
      && (forall a :: 0 <= a < |l| ==> l[a].time < clock && l[a] in lru)
      && |l| == |lru| - 1
  {
    var l := lru[..i] + lru[i + 1..];
    forall a | 0 <= a < |l| ensures l[a] == lru[if a < i then a else a + 1] {}
    forall x | x in FramesOf(l) ensures x in owner.Keys - {lru[i].frame} {
      var a :| 0 <= a < |l| && l[a].frame == x;
      assert lru[if a < i then a else a + 1].frame == x;
    }
    forall x | x in owner.Keys - {lru[i].frame} ensures x in FramesOf(l) {
      var a :| 0 <= a < |lru| && lru[a].frame == x;
      assert a != i;
      if a < i { assert l[a].frame == x; } else { assert l[a - 1].frame == x; }
    }
  }

  /** Appending a fresh time stamp for a frame not yet listed. */
  lemma AppendStamp(l: seq<Stamp>, owner: map<int, Owner>, f: int, clock: nat)
    requires FramesOf(l) == owner.Keys - {f}
    requires forall a, b :: 0 <= a < b < |l| ==> l[a].time < l[b].time && l[a].frame != l[b].frame
    requires forall a :: 0 <= a < |l| ==> l[a].time < clock
    requires f in owner
    ensures LruOk(l + [Stamp(clock, f)], owner, clock + 1)
  {
    var n := l + [Stamp(clock, f)];
    forall a | 0 <= a < |l| ensures l[a].frame != f {
      assert l[a].frame in FramesOf(l);
    }
    assert FramesOf(n) == FramesOf(l) + {f} by {
      forall x | x in FramesOf(n) ensures x in FramesOf(l) + {f} {
        var a :| 0 <= a < |n| && n[a].frame == x;
        if a < |l| { assert l[a].frame == x; }
      }
      forall x | x in FramesOf(l) + {f} ensures x in FramesOf(n) {
        if x == f { assert n[|l|].frame == x; }
        else { var a :| 0 <= a < |l| && l[a].frame == x; assert n[a].frame == x; }
      }
    }
  }

  /** A miss with a free frame counts one fault and maps the page to the
      lowest free frame, which it takes off the free list; nothing else
      changes but the LRU list, which gains the frame with the newest
      time stamp. */
  lemma LoadFree(s: Mmu, proc: int, page: int)
    requires Valid(s) && 0 <= proc < NUM_PROCESSES && page !in s.tables[proc] && s.free != []
    ensures var r := Load(s, proc, page); var f := s.free[0];
      && Valid(r)
      && r.faults == s.faults + 1
      && (forall k :: 0 < k < |s.free| ==> f < s.free[k])
      && r.tables == s.tables[proc := s.tables[proc][page := f]]
      && r.owner == s.owner[f := Owner(proc, page)]
      && r.free == s.free[1..]
      && r.lru == s.lru + [Stamp(s.clock, f)]
  {
    var f := s.free[0];
    assert Partition(s.free[1..], s.owner[f := Owner(proc, page)]) by {
      FreePartition(s.free, s.owner, proc, page);
    }
    assert f !in s.owner;
    InstallInverse(s.tables, s.owner, f, proc, page);
    AppendStamp(s.lru, s.owner[f := Owner(proc, page)], f, s.clock);
  }

  lemma FreePartition(free: seq<int>, owner: map<int, Owner>, proc: int, page: int)
    requires FreeOk(free) && Partition(free, owner) && free != []
    ensures Partition(free[1..], owner[free[0] := Owner(proc, page)])
  {
    var f, rest := free[0], free[1..];
    forall x | 0 <= x < NUM_FRAMES && x !in rest ensures x in owner[f := Owner(proc, page)] {
      if x != f { assert x !in free; }
    }
    forall k | 0 <= k < |rest| ensures rest[k] != f { assert free[k + 1] == rest[k]; }
  }

  /** A miss with no free frame counts one fault and evicts the frame at
      the head of the LRU list, whose time stamp is the oldest: its
      previous page is unmapped, and the frame now holds the requested
      page.  The free list stays empty. */
  lemma LoadEvict(s: Mmu, proc: int, page: int)
    requires Valid(s) && 0 <= proc < NUM_PROCESSES && page !in s.tables[proc] && s.free == []
    ensures s.lru != [] && s.lru[0].frame in s.owner
    ensures var r := Load(s, proc, page); var f := s.lru[0].frame; var o := s.owner[f];
      var unmapped := s.tables[o.proc := s.tables[o.proc] - {o.page}];
      && Valid(r)
      && r.faults == s.faults + 1
      && (forall k :: 0 < k < |s.lru| ==> s.lru[0].time < s.lru[k].time)
      && r.free == []
      && o != Owner(proc, page)
      && r.tables == unmapped[proc := unmapped[proc][page := f]]
      && r.owner == s.owner[f := Owner(proc, page)]
      && r.lru == s.lru[1..] + [Stamp(s.clock, f)]
  {
    EvictKeeps(s.tables, s.owner, s.lru, s.clock, proc, page);
    var f := s.lru[0].frame;
    assert (s.owner - {f})[f := Owner(proc, page)] == s.owner[f := Owner(proc, page)];
  }

  /** The same on the parts of the state. */
  lemma EvictKeeps(tables: seq<map<int, int>>, owner: map<int, Owner>, lru: seq<Stamp>, clock: nat,
                   proc: int, page: int)
    requires |tables| == NUM_PROCESSES && Partition([], owner) && Inverse(tables, owner)
    requires LruOk(lru, owner, clock) && 0 <= proc < NUM_PROCESSES && page !in tables[proc]
    ensures lru != [] && lru[0].frame in owner
    ensures var f := lru[0].frame; var o := owner[f];
      var u := tables[o.proc := tables[o.proc] - {o.page}];
      var t := u[proc := u[proc][page := f]];
      var w := owner[f := Owner(proc, page)];
      && o != Owner(proc, page) && o.page in tables[o.proc]
      && Partition([], w) && Inverse(t, w) && LruOk(lru[1..] + [Stamp(clock, f)], w, clock + 1)
  {
    assert 0 in owner && 0 in FramesOf(lru);
    var f := lru[0].frame;
    assert f in FramesOf(lru);
    EvictInverse(tables, owner, f, proc, page);
    EvictLru(lru, owner, clock, proc, page);
    var w := owner[f := Owner(proc, page)];
    assert w.Keys == owner.Keys;
  }

  lemma EvictInverse(tables: seq<map<int, int>>, owner: map<int, Owner>, f: int, proc: int, page: int)
    requires |tables| == NUM_PROCESSES && Inverse(tables, owner) && f in owner
    requires 0 <= proc < NUM_PROCESSES && page !in tables[proc]
    ensures var o := owner[f];
      var u := tables[o.proc := tables[o.proc] - {o.page}];
      && o != Owner(proc, page) && o.page in tables[o.proc]
      && Inverse(u[proc := u[proc][page := f]], owner[f := Owner(proc, page)])
  {
    var o := owner[f];
    var tables' := tables[o.proc := tables[o.proc] - {o.page}];
    var owner' := owner - {f};
    assert owner'[f := Owner(proc, page)] == owner[f := Owner(proc, page)];
    UnmapInverse(tables, owner, f);
    InstallInverse(tables', owner', f, proc, page);
  }

  lemma EvictLru(lru: seq<Stamp>, owner: map<int, Owner>, clock: nat, proc: int, page: int)
    requires LruOk(lru, owner, clock) && lru != []
    ensures LruOk(lru[1..] + [Stamp(clock, lru[0].frame)], owner[lru[0].frame := Owner(proc, page)], clock + 1)
  {
    var f := lru[0].frame;
    var w := owner[f := Owner(proc, page)];
    assert f in FramesOf(lru);
    assert w.Keys == owner.Keys;
    var l := lru[..0] + lru[1..];
    RemoveStamp(lru, 0, owner, clock);
    AppendStamp(l, w, f, clock);
    assert l == lru[1..];
  }

  /** Unmapping an owned frame and its page keeps the maps inverse. */
  lemma UnmapInverse(tables: seq<map<int, int>>, owner: map<int, Owner>, f: int)
    requires |tables| == NUM_PROCESSES && Inverse(tables, owner) && f in owner
    ensures var o := owner[f];
      Inverse(tables[o.proc := tables[o.proc] - {o.page}], owner - {f})
  {
  }

  /** Mapping an unmapped page to an unowned frame keeps the maps inverse. */
  lemma InstallInverse(tables: seq<map<int, int>>, owner: map<int, Owner>, f: int, proc: int, page: int)
    requires |tables| == NUM_PROCESSES && Inverse(tables, owner) && f !in owner
    requires 0 <= proc < NUM_PROCESSES && page !in tables[proc]
    ensures Inverse(tables[proc := tables[proc][page := f]], owner[f := Owner(proc, page)])
  {
    var t := tables[proc := tables[proc][page := f]];
    var w := owner[f := Owner(proc, page)];
    forall p, pg | 0 <= p < NUM_PROCESSES && pg in t[p] ensures t[p][pg] in w && w[t[p][pg]] == Owner(p, pg) {
      if p != proc || pg != page {
        assert pg in tables[p] && t[p][pg] == tables[p][pg];
      }
    }
  }

  /** Every message keeps the state consistent. */
  lemma HandleKeeps(s: Mmu, item: Item)
    requires Valid(s) && (item.Request? ==> 0 <= item.proc < NUM_PROCESSES)
    ensures Valid(Handle(s, item))
  {
    if item.Request? {
      if item.page in s.tables[item.proc] {
        HitKeeps(s, item.proc, item.page);
      } else if s.free != [] {
        LoadFree(s, item.proc, item.page);
      } else {
        LoadEvict(s, item.proc, item.page);
      }
    }
  }

  // ---- the MMU thread's state, updated in place ----

  class MmuThread {
    var pageTables: seq<map<int, int>>
    var frameToOwner: map<int, Owner>
    var lruList: seq<Stamp>
    var freeFrames: seq<int>
    var pageFaults: nat
    var clock: nat

    function Current(): Mmu
      reads this
    {
      Mmu(pageTables, frameToOwner, lruList, freeFrames, pageFaults, clock)
    }

    constructor ()
      ensures Current() == Init()
    {
      pageTables := seq(NUM_PROCESSES, _ => map[]);
      frameToOwner := map[];
      lruList := [];
      freeFrames := [0, 1, 2, 3];
      pageFaults := 0;
      clock := 0;
    }

    /** A reading of the logical clock. */
    method Now() returns (t: nat)
      modifies this
      ensures t == old(clock) && clock == old(clock) + 1
      ensures pageTables == old(pageTables) && frameToOwner == old(frameToOwner)
      ensures lruList == old(lruList) && freeFrames == old(freeFrames) && pageFaults == old(pageFaults)
    {
      t := clock;
      clock := clock + 1;
    }

    method LoadPage(proc: int, page: int)
      requires Valid(Current()) && 0 <= proc < NUM_PROCESSES
      modifies this
      ensures Current() == Load(old(Current()), proc, page)
    {
      pageFaults := pageFaults + 1;
      var f;
      if freeFrames != [] {
        f := freeFrames[0];
        freeFrames := freeFrames[1..];
      } else {
        assert 0 in frameToOwner && 0 in FramesOf(lruList);
        // lru_list is already in time-stamp order (LruOk), so sorting it
        // by time stamp leaves it as it is.
        var victim := lruList[0].frame;
        lruList := lruList[1..];
        var o := frameToOwner[victim];
        frameToOwner := frameToOwner - {victim};
        if o.page in pageTables[o.proc] {
          pageTables := pageTables[o.proc := pageTables[o.proc] - {o.page}];
        }
        f := victim;
      }
      pageTables := pageTables[proc := pageTables[proc][page := f]];
      frameToOwner := frameToOwner[f := Owner(proc, page)];
      var now := Now();
      lruList := lruList + [Stamp(now, f)];
    }

    /** One iteration of mmu_thread's loop. */
    method HandleItem(item: Item)
      requires Valid(Current()) && (item.Request? ==> 0 <= item.proc < NUM_PROCESSES)
      modifies this
      ensures Current() == Handle(old(Current()), item)
      ensures Valid(Current())
    {
      HandleKeeps(Current(), item);
      if item.Done? {
        return;
      }
      if item.page in pageTables[item.proc] {
        Touch(item.proc, item.page);
      } else {
        LoadPage(item.proc, item.page);
      }
    }

    /** The page-hit branch: the frame's entry leaves the LRU list and
        comes back at its end with the current time. */
    method Touch(proc: int, page: int)
      requires |pageTables| == NUM_PROCESSES && 0 <= proc < NUM_PROCESSES && page in pageTables[proc]
      modifies this
      ensures Current() == Hit(old(Current()), proc, page)
    {
      var frame := pageTables[proc][page];
      var now := Now();
      var i := 0;
      while i < |lruList|
        invariant 0 <= i <= |lruList|
        invariant forall k :: 0 <= k < i ==> lruList[k].frame != frame
        invariant lruList == old(lruList) && clock == old(clock) + 1
      {
        if lruList[i].frame == frame {
          lruList := lruList[..i] + lruList[i + 1..];
          break;
        }
        i := i + 1;
      }
      assert i == FindStamp(old(lruList), frame) by { FindStampIs(old(lruList), frame, i); }
      lruList := lruList + [Stamp(now, frame)];
    }
  }

  /** A position satisfying FindStamp's contract is FindStamp's result. */
  lemma FindStampIs(lru: seq<Stamp>, f: int, i: nat)
    requires i <= |lru| && (i < |lru| ==> lru[i].frame == f)
    requires forall k :: 0 <= k < i ==> lru[k].frame != f
    ensures i == FindStamp(lru, f)
  {
  }
}
