/** The single-page allocator: one 4096-byte page, a free list sorted by
    offset with contiguous blocks merged, and a list of allocation
    records with the newest first.  A pointer is modelled by its distance
    from the start of the page; the page's own address, mmap and munmap
    become flags and parameters. */
module Alloc {
  import opened Wrappers
  import opened FreeList

  /** NULL, or the address `page_base + offset`. */
  datatype Ptr = Null | Addr(offset: int)

  /** The record find_alloc_node finds: the first one, newest first,
      whose pointer is `page_base + off`. */
  function FindRecord(allocs: seq<Block>, off: int): (r: Option<nat>)
    ensures r.Some? ==> r.value < |allocs| && allocs[r.value].offset == off
                        && forall k :: 0 <= k < r.value ==> allocs[k].offset != off
    ensures r.None? <==> forall k :: 0 <= k < |allocs| ==> allocs[k].offset != off
  {
    if allocs == [] then None
    else if allocs[0].offset == off then Some(0)
    else match FindRecord(allocs[1..], off)
      case None => None
      case Some(j) => Some(j + 1)
  }

  /** The loop of find_alloc_node. */
  method FindAllocNode(allocs: seq<Block>, off: int) returns (r: Option<nat>)
    ensures r == FindRecord(allocs, off)
  {
    var j := 0;
    while j < |allocs|
      invariant j <= |allocs| && forall k :: 0 <= k < j ==> allocs[k].offset != off
    {
      if allocs[j].offset == off {
        FindRecordIs(allocs, off, j);
        return Some(j);
      }
      j := j + 1;
    }
    return None;
  }

  lemma {:induction false} FindRecordIs(allocs: seq<Block>, off: int, j: nat)
    requires j < |allocs| && allocs[j].offset == off
    requires forall k :: 0 <= k < j ==> allocs[k].offset != off
    ensures FindRecord(allocs, off) == Some(j)
  {
    if j > 0 {
      FindRecordIs(allocs[1..], off, j - 1);
    }
  }

  /** The allocator's globals as a value: whether `page_base` is set,
      the free list and the allocation records. */
  datatype State = State(mapped: bool, free: seq<Block>, allocs: seq<Block>)

  const Unmapped := State(false, [], [])

  /** Before init_alloc and after cleanup_alloc both lists are empty;
      while the page is mapped, free and allocated ranges tile it. */
  predicate Tiled(s: State) {
    && (s.mapped ==> PageInvariant(s.free, s.allocs))
    && (!s.mapped ==> s.free == [] && s.allocs == [])
  }

  /** init_alloc: a second call changes nothing and succeeds; a failing
      mmap (`mmapOk` false) leaves the allocator unmapped and gives -1;
      otherwise the whole page is one free block and nothing is
      allocated. */
  function InitSpec(s: State, mmapOk: bool): (r: (State, int))
    ensures r.1 == 0 <==> s.mapped || mmapOk
    ensures r.1 != 0 ==> r == (s, -1)
    ensures s.mapped ==> r.0 == s
    ensures !s.mapped && mmapOk ==> r.0 == State(true, [Block(0, PAGE_SIZE)], [])
  {
    if s.mapped then (s, 0)
    else if !mmapOk then (s, -1)
    else (State(true, [Block(0, PAGE_SIZE)], []), 0)
  }

  /** cleanup_alloc: drops both lists and the page; the result is 0 when
      nothing was mapped, and otherwise reports whether munmap
      (`munmapOk`) succeeded. */
  function CleanupSpec(s: State, munmapOk: bool): (r: (State, int))
    ensures r.0 == Unmapped && Tiled(r.0)
    ensures r.1 == (if s.mapped && !munmapOk then -1 else 0)
  {
    (Unmapped, if s.mapped && !munmapOk then -1 else 0)
  }

  /** alloc_mem: NULL when the page is not mapped, when `size` is not
      positive or not a multiple of 8, and when no free block is large
      enough, and then nothing changes; otherwise the first fitting block
      gives up its first `size` bytes, which become the newest record. */
  function AllocSpec(s: State, size: int): (r: (State, Ptr))
    ensures r.1 == Null <==>
      !s.mapped || size <= 0 || size % 8 != 0 || FitIndex(s.free, size).None?
    ensures r.1 == Null ==> r.0 == s
    ensures r.1 != Null ==>
      var i := FitIndex(s.free, size).value;
      && r.1 == Addr(s.free[i].offset)
      && r.0.mapped
      && r.0.allocs == [Block(r.1.offset, size)] + s.allocs
      && Sum(r.0.free) + size == Sum(s.free)
  {
    if !s.mapped || size <= 0 || size % 8 != 0 then (s, Null)
    else match FitIndex(s.free, size)
      case None => (s, Null)
      case Some(i) =>
        (State(true, Carve(s.free, i, size), [Block(s.free[i].offset, size)] + s.allocs),
         Addr(s.free[i].offset))
  }

  /** dealloc_mem: NULL, a pointer outside the page and a pointer that
      starts no allocation change nothing; otherwise the record goes and
      its range returns to the free list, merged with its neighbours. */
  function DeallocSpec(s: State, p: Ptr): (r: State)
    ensures (!s.mapped || p == Null || p.offset < 0 || p.offset >= PAGE_SIZE) ==> r == s
    ensures s.mapped && p.Addr? && 0 <= p.offset < PAGE_SIZE ==>
      match FindRecord(s.allocs, p.offset)
      case None => r == s
      case Some(j) =>
        && r.mapped
        && r.allocs == RemoveAt(s.allocs, j)
        && Sum(r.free) == Sum(s.free) + s.allocs[j].size
  {
    if !s.mapped || p == Null || p.offset < 0 || p.offset >= PAGE_SIZE then s
    else match FindRecord(s.allocs, p.offset)
      case None => s
      case Some(j) =>
        InsertSum(s.free, s.allocs[j]);
        CoalesceSum(Insert(s.free, s.allocs[j]));
        State(true, CoalesceF(Insert(s.free, s.allocs[j])), RemoveAt(s.allocs, j))
  }

  /** Every operation keeps the page tiled by free and allocated
      ranges. */
  lemma InitKeepsTiled(s: State, mmapOk: bool)
    requires Tiled(s)
    ensures Tiled(InitSpec(s, mmapOk).0)
  {
    FreshPage();
  }

  lemma AllocKeepsTiled(s: State, size: int)
    requires Tiled(s)
    ensures Tiled(AllocSpec(s, size).0)
  {
    if s.mapped && size > 0 && size % 8 == 0 && FitIndex(s.free, size).Some? {
      CarveKeeps(s.free, s.allocs, FitIndex(s.free, size).value, size);
    }
  }

  lemma DeallocKeepsTiled(s: State, p: Ptr)
    requires Tiled(s)
    ensures Tiled(DeallocSpec(s, p))
  {
    if s.mapped && p.Addr? && 0 <= p.offset < PAGE_SIZE && FindRecord(s.allocs, p.offset).Some? {
      ReturnKeeps(s.free, s.allocs, FindRecord(s.allocs, p.offset).value);
    }
  }

  /** The allocator object; its fields are the globals of the source. */
  class Allocator {
    var mapped: bool
    var free: seq<Block>
    var allocs: seq<Block>

    function Current(): State
      reads this
    {
      State(mapped, free, allocs)
    }

    ghost predicate Valid()
      reads this
    {
      Tiled(Current())
    }

    constructor ()
      ensures Valid() && Current() == Unmapped
    {
      mapped, free, allocs := false, [], [];
    }

    method Init(mmapOk: bool) returns (r: int)
      requires Valid()
      modifies this
      ensures Valid()
      ensures (Current(), r) == InitSpec(old(Current()), mmapOk)
    {
      if mapped {
        return 0;
      }
      if !mmapOk {
        return -1;
      }
      mapped := true;
      free := [Block(0, PAGE_SIZE)];
      allocs := [];
      FreshPage();
      return 0;
    }

    method Cleanup(munmapOk: bool) returns (r: int)
      requires Valid()
      modifies this
      ensures Valid()
      ensures (Current(), r) == CleanupSpec(old(Current()), munmapOk)
    {
      if !mapped {
        return 0;
      }
      free, allocs := [], [];
      mapped := false;
      r := if munmapOk then 0 else -1;
    }

    method AllocMem(size: int) returns (p: Ptr)
      requires Valid()
      modifies this
      ensures Valid()
      ensures (Current(), p) == AllocSpec(old(Current()), size)
    {
      if !mapped || size <= 0 || size % 8 != 0 {
        assert AllocSpec(Current(), size) == (Current(), Null);
        return Null;
      }
      var found, i := FirstFit(free, size);
      if !found {
        assert AllocSpec(Current(), size) == (Current(), Null);
        return Null;
      }
      ghost var s := Current();
      AllocKeepsTiled(s, size);
      var off := free[i].offset;
      ghost var s' := State(true, Carve(free, i, size), [Block(off, size)] + allocs);
      assert AllocSpec(s, size) == (s', Addr(off));
      free := Carve(free, i, size);
      allocs := [Block(off, size)] + allocs;
      p := Addr(off);
      assert Current() == s';
    }

    method DeallocMem(p: Ptr)
      requires Valid()
      modifies this
      ensures Valid()
      ensures Current() == DeallocSpec(old(Current()), p)
    {
      if !mapped || p == Null {
        return;
      }
      if p.offset < 0 || p.offset >= PAGE_SIZE {
        return;
      }
      var found := FindAllocNode(allocs, p.offset);
      if found == None {
        assert DeallocSpec(Current(), p) == Current();
        return;
      }
      var j := found.value;
      DeallocKeepsTiled(Current(), p);
      ghost var s' := State(true, CoalesceF(Insert(free, allocs[j])), RemoveAt(allocs, j));
      assert DeallocSpec(Current(), p) == s';
      var nf := AddFree(free, allocs[j]);
      free, allocs := nf, RemoveAt(allocs, j);
      assert Current() == s';
    }
  }

  /** The states the test driver passes through. */
  const S1 := State(true, [Block(0, PAGE_SIZE)], [])
  const S2 := State(true, [Block(64, 4032)], [Block(0, 64)])
  const S3 := State(true, [Block(192, 3904)], [Block(64, 128), Block(0, 64)])
  const S4 := State(true, [Block(448, 3648)], [Block(192, 256), Block(64, 128), Block(0, 64)])
  const S5 := State(true, [Block(64, 128), Block(448, 3648)], [Block(192, 256), Block(0, 64)])
  const S6 := State(true, [Block(128, 64), Block(448, 3648)], [Block(64, 64), Block(192, 256), Block(0, 64)])
  const S7 := State(true, [Block(0, 64), Block(128, 64), Block(448, 3648)], [Block(64, 64), Block(192, 256)])
  const S8 := State(true, [Block(0, 64), Block(128, 3968)], [Block(64, 64)])

  /** The test driver: after allocating 64, 128 and 256 bytes and freeing
      the 128-byte chunk, a request for 64 bytes gets the freed chunk's
      address; freeing all four chunks leaves the whole page free. */
  lemma TestAllocScenario()
    ensures InitSpec(Unmapped, true) == (S1, 0)
    ensures AllocSpec(S1, 64) == (S2, Addr(0))
    ensures AllocSpec(S2, 128) == (S3, Addr(64))
    ensures AllocSpec(S3, 256) == (S4, Addr(192))
    ensures DeallocSpec(S4, Addr(64)) == S5
    ensures AllocSpec(S5, 64) == (S6, Addr(64))
    ensures DeallocSpec(DeallocSpec(DeallocSpec(S6, Addr(0)), Addr(192)), Addr(64)) == S1
  {
    AllocA();
    AllocB();
    AllocC();
    FreeB();
    AllocD();
    FreeA();
    FreeC();
    FreeD();
  }

  lemma AllocA() ensures AllocSpec(S1, 64) == (S2, Addr(0)) {
    AllocFront(S1, 64, S2);
  }

  lemma AllocB() ensures AllocSpec(S2, 128) == (S3, Addr(64)) {
    AllocFront(S2, 128, S3);
  }

  lemma AllocC() ensures AllocSpec(S3, 256) == (S4, Addr(192)) {
    AllocFront(S3, 256, S4);
  }

  lemma AllocD() ensures AllocSpec(S5, 64) == (S6, Addr(64)) {
    AllocFront(S5, 64, S6);
  }

  /** An allocation that the first free block can hold comes from its
      front. */
  lemma AllocFront(s: State, size: int, s': State)
    requires s.mapped && s.free != [] && size > 0 && size % 8 == 0 && s.free[0].size > size
    requires s' == State(true, [Block(s.free[0].offset + size, s.free[0].size - size)] + s.free[1..],
                         [Block(s.free[0].offset, size)] + s.allocs)
    ensures AllocSpec(s, size) == (s', Addr(s.free[0].offset))
  {
    assert FitIndex(s.free, size) == Some(0);
    assert s.free[0 := Block(s.free[0].offset + size, s.free[0].size - size)]
        == [Block(s.free[0].offset + size, s.free[0].size - size)] + s.free[1..];
  }

  lemma FreeB()
    ensures DeallocSpec(S4, Addr(64)) == S5
  {
    assert FindRecord(S4.allocs, 64) == Some(1);
    InsertStep(S4.free, Block(64, 128), 0);
    assert Insert(S4.free, Block(64, 128)) == [Block(64, 128), Block(448, 3648)];
    CoalesceHead(Block(64, 128), Block(448, 3648), []);
    assert RemoveAt(S4.allocs, 1) == S5.allocs;
  }

  lemma FreeA()
    ensures DeallocSpec(S6, Addr(0)) == S7
  {
    assert FindRecord(S6.allocs, 0) == Some(2);
    InsertStep(S6.free, Block(0, 64), 0);
    assert Insert(S6.free, Block(0, 64)) == S7.free;
    NoMerge();
    assert RemoveAt(S6.allocs, 2) == S7.allocs;
  }

  lemma NoMerge()
    ensures CoalesceF(S7.free) == S7.free
  {
    CoalesceHead(Block(0, 64), Block(128, 64), [Block(448, 3648)]);
    CoalesceHead(Block(128, 64), Block(448, 3648), []);
    assert S7.free == [Block(0, 64), Block(128, 64)] + [Block(448, 3648)];
    assert [Block(128, 64), Block(448, 3648)] == [Block(128, 64), Block(448, 3648)] + [];
  }

  /** Freeing the 256-byte chunk joins it with its neighbours on both
      sides. */
  lemma FreeC()
    ensures DeallocSpec(S7, Addr(192)) == S8
  {
    assert FindRecord(S7.allocs, 192) == Some(1);
    var l := S7.free;
    InsertStep(l, Block(192, 256), 2);
    var l4 := [Block(0, 64), Block(128, 64), Block(192, 256), Block(448, 3648)];
    assert Insert(l, Block(192, 256)) == l4;
    MergeBothSides();
    assert RemoveAt(S7.allocs, 1) == S8.allocs;
  }

  lemma MergeBothSides()
    ensures CoalesceF([Block(0, 64), Block(128, 64), Block(192, 256), Block(448, 3648)]) == S8.free
  {
    var l4 := [Block(0, 64), Block(128, 64), Block(192, 256), Block(448, 3648)];
    CoalesceHead(Block(0, 64), Block(128, 64), [Block(192, 256), Block(448, 3648)]);
    assert l4 == [Block(0, 64), Block(128, 64)] + [Block(192, 256), Block(448, 3648)];
    assert CoalesceF(l4) == [Block(0, 64)] + CoalesceF([Block(128, 64), Block(192, 256), Block(448, 3648)]);
    CoalesceHead(Block(128, 64), Block(192, 256), [Block(448, 3648)]);
    assert [Block(128, 64), Block(192, 256), Block(448, 3648)]
        == [Block(128, 64), Block(192, 256)] + [Block(448, 3648)];
    CoalesceHead(Block(128, 320), Block(448, 3648), []);
    assert [Block(128, 320), Block(448, 3648)] == [Block(128, 320), Block(448, 3648)] + [];
    assert CoalesceF([Block(128, 3968)] + []) == [Block(128, 3968)];
  }

  /** Freeing the last chunk leaves one block, the whole page. */
  lemma FreeD()
    ensures DeallocSpec(S8, Addr(64)) == S1
  {
    assert FindRecord(S8.allocs, 64) == Some(0);
    var l := S8.free;
    InsertStep(l, Block(64, 64), 1);
    assert l[..1] + [Block(64, 64)] + l[1..] == [Block(0, 64), Block(64, 64), Block(128, 3968)];
    CoalesceHead(Block(0, 64), Block(64, 64), [Block(128, 3968)]);
    CoalesceHead(Block(0, 128), Block(128, 3968), []);
    assert RemoveAt(S8.allocs, 0) == [];
  }

  /** Inserting `b` where `i` blocks with smaller offsets precede it. */
  lemma InsertStep(l: seq<Block>, b: Block, i: nat)
    requires i <= |l| && forall k :: 0 <= k < i ==> l[k].offset < b.offset
    requires i < |l| ==> l[i].offset >= b.offset
    ensures Insert(l, b) == l[..i] + [b] + l[i..]
  {
    InsertPosIs(l, b.offset, i);
  }
}
