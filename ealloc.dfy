/** The multi-page ("elastic") allocator: a list of 4096-byte pages, the
    newest first, each with its own sorted, coalescing free list, and one
    list of allocation records, the newest first, each naming its page.
    A page's address is modelled by a number that mmap hands out afresh
    for every mapping (pages are never unmapped here), and a pointer by
    the pair of a page address and an offset. */
module Ealloc {
  import opened Wrappers
  import opened FreeList

  const MAX_PAGES: nat := 16

  /** NULL, or the address `base + offset`. */
  datatype Ptr = Null | Addr(base: nat, offset: int)

  /** A page descriptor: the page's address and its free list. */
  datatype Page = Page(base: nat, free: seq<Block>)

  /** An allocation record: the page it lies in and its range there. */
  datatype Rec = Rec(base: nat, blk: Block)

  function PtrOf(r: Rec): Ptr {
    Addr(r.base, r.blk.offset)
  }

  /** The allocator's globals as a value; `nextBase` is the address the
      next mmap returns. */
  datatype State = State(pages: seq<Page>, allocs: seq<Rec>, numPages: int, nextBase: nat)

  /** The ranges allocated in the page at `base`, newest first. */
  function PageAllocs(allocs: seq<Rec>, base: nat): (r: seq<Block>)
    ensures |r| <= |allocs|
  {
    if allocs == [] then []
    else if allocs[0].base == base then [allocs[0].blk] + PageAllocs(allocs[1..], base)
    else PageAllocs(allocs[1..], base)
  }

  /** The position of the page at `base` in the page list. */
  function PageIndex(pages: seq<Page>, base: nat): (r: Option<nat>)
    ensures r.Some? ==> r.value < |pages| && pages[r.value].base == base
    ensures r.None? ==> forall k :: 0 <= k < |pages| ==> pages[k].base != base
  {
    if pages == [] then None
    else if pages[0].base == base then Some(0)
    else match PageIndex(pages[1..], base)
      case None => None
      case Some(k) => Some(k + 1)
  }

  /** The bookkeeping is consistent: `num_pages` counts the pages, of
      which there are at most MAX_PAGES; page addresses are distinct and
      all below `nextBase`; every record names a listed page; and every
      page is tiled by its free list and the records that name it. */
  predicate Consistent(s: State) {
    && s.numPages == |s.pages| <= MAX_PAGES
    && (forall i, j :: 0 <= i < j < |s.pages| ==> s.pages[i].base != s.pages[j].base)
    && (forall i :: 0 <= i < |s.pages| ==> s.pages[i].base < s.nextBase)
    && (forall j :: 0 <= j < |s.allocs| ==> PageIndex(s.pages, s.allocs[j].base).Some?)
    && (forall i :: 0 <= i < |s.pages| ==> PageInvariant(s.pages[i].free, PageAllocs(s.allocs, s.pages[i].base)))
  }

  /** The page search of ealloc_mem: the first page, in list order, with
      a free block that fits, and the first such block in it. */
  function PageFit(pages: seq<Page>, size: nat): (r: Option<(nat, nat)>)
    ensures r.Some? ==>
      && r.value.0 < |pages|
      && FitIndex(pages[r.value.0].free, size) == Some(r.value.1)
      && forall k :: 0 <= k < r.value.0 ==> FitIndex(pages[k].free, size).None?
    ensures r.None? <==> forall k :: 0 <= k < |pages| ==> FitIndex(pages[k].free, size).None?
  {
    if pages == [] then None
    else
      assert forall k :: 0 < k < |pages| ==> pages[1..][k - 1] == pages[k];
      match FitIndex(pages[0].free, size)
      case Some(i) => Some((0, i))
      case None =>
        match PageFit(pages[1..], size)
        case None => None
        case Some(pi) => Some((pi.0 + 1, pi.1))
  }

  /** The first record, newest first, whose pointer is `p`. */
  function FindRec(allocs: seq<Rec>, p: Ptr): (r: Option<nat>)
    ensures r.Some? ==> r.value < |allocs| && PtrOf(allocs[r.value]) == p
                        && forall k :: 0 <= k < r.value ==> PtrOf(allocs[k]) != p
    ensures r.None? <==> forall k :: 0 <= k < |allocs| ==> PtrOf(allocs[k]) != p
  {
    if allocs == [] then None
    else if PtrOf(allocs[0]) == p then Some(0)
    else match FindRec(allocs[1..], p)
      case None => None
      case Some(j) => Some(j + 1)
  }

  /** einit_alloc and ecleanup_alloc: forget every page and record (the
      pages stay mapped) and set `num_pages` to 0. */
  function ResetSpec(s: State): (r: (State, int))
    ensures r.0.pages == [] && r.0.allocs == [] && r.0.numPages == 0 && r.1 == 0
    ensures r.0.nextBase == s.nextBase
  {
    (State([], [], 0, s.nextBase), 0)
  }

  /** The size checks of ealloc_mem: positive, a multiple of 256, and at
      most one page. */
  predicate SizeOk(size: int) {
    0 < size && size % 256 == 0 && size <= PAGE_SIZE
  }

  /** A fitting block `i` of page `pi` gives its first `size` bytes to a
      new record, which is prepended to the records. */
  function Carved(s: State, pi: nat, i: nat, size: nat): (r: State)
    requires pi < |s.pages| && i < |s.pages[pi].free| && 0 < size <= s.pages[pi].free[i].size
    ensures |r.pages| == |s.pages| && r.numPages == s.numPages && r.nextBase == s.nextBase
    ensures forall k :: 0 <= k < |s.pages| ==> r.pages[k].base == s.pages[k].base
    ensures forall k :: 0 <= k < |s.pages| && k != pi ==> r.pages[k] == s.pages[k]
    ensures r.allocs == [Rec(s.pages[pi].base, Block(s.pages[pi].free[i].offset, size))] + s.allocs
    ensures Sum(r.pages[pi].free) + size == Sum(s.pages[pi].free)
  {
    var pg := s.pages[pi];
    State(s.pages[pi := Page(pg.base, Carve(pg.free, i, size))],
          [Rec(pg.base, Block(pg.free[i].offset, size))] + s.allocs, s.numPages, s.nextBase)
  }

  /** create_new_page after a successful mmap: a page whose free list is
      the whole page goes to the front, and `num_pages` grows by one. */
  function WithNewPage(s: State): (r: State)
    ensures |r.pages| == |s.pages| + 1 && r.pages[1..] == s.pages && r.pages[0].base == s.nextBase
    ensures r.pages[0].free == [Block(0, PAGE_SIZE)] && r.allocs == s.allocs
    ensures r.numPages == s.numPages + 1 && r.nextBase == s.nextBase + 1
  {
    State([Page(s.nextBase, [Block(0, PAGE_SIZE)])] + s.pages, s.allocs, s.numPages + 1, s.nextBase + 1)
  }

  /** ealloc_mem.  `mmapOk` is whether create_new_page's mmap succeeds. */
  function EallocSpec(s: State, size: int, mmapOk: bool): (r: (State, Ptr))
    ensures r.1 == Null <==>
      !SizeOk(size) || (PageFit(s.pages, size).None? && (s.numPages >= MAX_PAGES || !mmapOk))
    ensures r.1 == Null ==> r.0 == s
    ensures SizeOk(size) && PageFit(s.pages, size).Some? ==>
      var (pi, i) := PageFit(s.pages, size).value;
      && r.1 == Addr(s.pages[pi].base, s.pages[pi].free[i].offset)
      && r.0 == Carved(s, pi, i, size)
    ensures SizeOk(size) && PageFit(s.pages, size).None? && r.1 != Null ==>
      && r.1 == Addr(s.nextBase, 0)
      && r.0 == Carved(WithNewPage(s), 0, 0, size)
  {
    if !SizeOk(size) then (s, Null)
    else match PageFit(s.pages, size)
      case Some((pi, i)) =>
        (Carved(s, pi, i, size), Addr(s.pages[pi].base, s.pages[pi].free[i].offset))
      case None =>
        if s.numPages >= MAX_PAGES || !mmapOk then (s, Null)
        else (Carved(WithNewPage(s), 0, 0, size), Addr(s.nextBase, 0))
  }

  /** Record `j` goes, and its range returns to page `pi`, whose free list
      is merged again. */
  function Returned(s: State, j: nat, pi: nat): (r: State)
    requires j < |s.allocs| && pi < |s.pages|
    ensures |r.pages| == |s.pages| && r.numPages == s.numPages && r.nextBase == s.nextBase
    ensures forall k :: 0 <= k < |s.pages| ==> r.pages[k].base == s.pages[k].base
    ensures forall k :: 0 <= k < |s.pages| && k != pi ==> r.pages[k] == s.pages[k]
    ensures r.allocs == RemoveAt(s.allocs, j)
  {
    var pg := s.pages[pi];
    State(s.pages[pi := Page(pg.base, CoalesceF(Insert(pg.free, s.allocs[j].blk)))],
          RemoveAt(s.allocs, j), s.numPages, s.nextBase)
  }

  /** edealloc_mem: NULL and unknown pointers change nothing; otherwise
      the record goes and its range returns to its own page. */
  function EdeallocSpec(s: State, p: Ptr): (r: State)
    ensures p == Null || FindRec(s.allocs, p).None? ==> r == s
    ensures p != Null && FindRec(s.allocs, p).Some? && Consistent(s) ==>
      var j := FindRec(s.allocs, p).value;
      r == Returned(s, j, PageIndex(s.pages, s.allocs[j].base).value)
  {
    if p == Null then s
    else match FindRec(s.allocs, p)
      case None => s
      case Some(j) =>
        match PageIndex(s.pages, s.allocs[j].base)
        case None => s
        case Some(pi) => Returned(s, j, pi)
  }

  // ---- Records per page ----

  lemma PageAllocsCons(r: Rec, allocs: seq<Rec>, base: nat)
    ensures PageAllocs([r] + allocs, base)
            == (if r.base == base then [r.blk] else []) + PageAllocs(allocs, base)
  {
    assert ([r] + allocs)[1..] == allocs;
  }

  /** No record names a page address that no page has. */
  lemma {:induction false} PageAllocsNone(allocs: seq<Rec>, base: nat)
    requires forall j :: 0 <= j < |allocs| ==> allocs[j].base != base
    ensures PageAllocs(allocs, base) == []
  {
    if allocs != [] {
      PageAllocsNone(allocs[1..], base);
    }
  }

  lemma {:induction false} PageAllocsConcat(a: seq<Rec>, b: seq<Rec>, base: nat)
    ensures PageAllocs(a + b, base) == PageAllocs(a, base) + PageAllocs(b, base)
  {
    if a == [] {
      assert a + b == b;
    } else {
      var t := a[1..];
      var h := if a[0].base == base then [a[0].blk] else [];
      assert PageAllocs(a + b, base) == h + PageAllocs(t + b, base) by {
        assert a + b == [a[0]] + (t + b);
        PageAllocsCons(a[0], t + b, base);
      }
      assert PageAllocs(a, base) == h + PageAllocs(t, base) by {
        assert a == [a[0]] + t;
        PageAllocsCons(a[0], t, base);
      }
      PageAllocsConcat(t, b, base);
      assert h + (PageAllocs(t, base) + PageAllocs(b, base)) == (h + PageAllocs(t, base)) + PageAllocs(b, base);
    }
  }

  /** Where record `j` sits among the records of its page. */
  function FilterPos(allocs: seq<Rec>, j: nat, base: nat): nat
    requires j <= |allocs|
  {
    |PageAllocs(allocs[..j], base)|
  }

  /** Dropping record `j` drops exactly its range from its own page's
      records. */
  lemma PageAllocsRemove(allocs: seq<Rec>, j: nat)
    requires j < |allocs|
    ensures var base := allocs[j].base;
      var q := FilterPos(allocs, j, base);
      && q < |PageAllocs(allocs, base)|
      && PageAllocs(allocs, base)[q] == allocs[j].blk
      && PageAllocs(RemoveAt(allocs, j), base) == RemoveAt(PageAllocs(allocs, base), q)
  {
    var base := allocs[j].base;
    PageAllocsSplit(allocs, j, base);
    var x, y := PageAllocs(allocs[..j], base), PageAllocs(allocs[j + 1..], base);
    var m := x + [allocs[j].blk] + y;
    assert m[..|x|] == x && m[|x| + 1..] == y;
    assert FilterPos(allocs, j, base) == |x|;
  }

  /** Dropping record `j` leaves the records of every other page alone. */
  lemma PageAllocsRemoveOther(allocs: seq<Rec>, j: nat, base: nat)
    requires j < |allocs| && allocs[j].base != base
    ensures PageAllocs(RemoveAt(allocs, j), base) == PageAllocs(allocs, base)
  {
    PageAllocsSplit(allocs, j, base);
  }

  /** The records of a page, split around record `j`. */
  lemma PageAllocsSplit(allocs: seq<Rec>, j: nat, base: nat)
    requires j < |allocs|
    ensures var x, y := PageAllocs(allocs[..j], base), PageAllocs(allocs[j + 1..], base);
      && PageAllocs(allocs, base) == x + (if allocs[j].base == base then [allocs[j].blk] else []) + y
      && PageAllocs(RemoveAt(allocs, j), base) == x + y
  {
    var pre, post := allocs[..j], allocs[j + 1..];
    assert allocs == pre + [allocs[j]] + post;
    PageAllocsConcat(pre + [allocs[j]], post, base);
    PageAllocsConcat(pre, [allocs[j]], base);
    PageAllocsConcat(pre, post, base);
    assert [allocs[j]][1..] == [];
    if allocs[j].base != base {
      assert PageAllocs(pre, base) + [] == PageAllocs(pre, base);
    }
  }

  // ---- Invariant preservation ----

  lemma ResetKeeps(s: State)
    ensures Consistent(ResetSpec(s).0)
  {
  }

  /** Carving keeps every page tiled: the carved page gains the new
      record's range, and the others are untouched. */
  lemma CarvedKeeps(s: State, pi: nat, i: nat, size: nat)
    requires Consistent(s)
    requires pi < |s.pages| && i < |s.pages[pi].free| && 0 < size <= s.pages[pi].free[i].size
    ensures Consistent(Carved(s, pi, i, size))
  {
    var s' := Carved(s, pi, i, size);
    forall k | 0 <= k < |s'.pages|
      ensures PageInvariant(s'.pages[k].free, PageAllocs(s'.allocs, s'.pages[k].base))
    {
      if k != pi {
        assert s.pages[k].base != s.pages[pi].base by {
          if k < pi { } else { }
        }
      }
      CarvedPage(s, pi, i, size, k);
    }
    CarvedOwned(s.pages, s'.pages, s.allocs, pi, s'.allocs[0]);
  }

  /** A new record of page `pi` names a page, as do the older ones. */
  lemma CarvedOwned(pages: seq<Page>, pages': seq<Page>, allocs: seq<Rec>, pi: nat, rec: Rec)
    requires SameBases(pages', pages) && pi < |pages| && rec.base == pages[pi].base
    requires forall j :: 0 <= j < |allocs| ==> PageIndex(pages, allocs[j].base).Some?
    ensures var all := [rec] + allocs;
      forall j :: 0 <= j < |all| ==> PageIndex(pages', all[j].base).Some?
  {
    var all := [rec] + allocs;
    forall j | 0 <= j < |all| ensures PageIndex(pages', all[j].base).Some? {
      PageIndexBases(pages', pages, all[j].base);
      if j > 0 {
        assert all[j] == allocs[j - 1];
      }
    }
  }

  lemma CarvedPage(s: State, pi: nat, i: nat, size: nat, k: nat)
    requires pi < |s.pages| && i < |s.pages[pi].free| && 0 < size <= s.pages[pi].free[i].size
    requires k < |s.pages| && (k != pi ==> s.pages[k].base != s.pages[pi].base)
    requires PageInvariant(s.pages[k].free, PageAllocs(s.allocs, s.pages[k].base))
    ensures var s' := Carved(s, pi, i, size);
      PageInvariant(s'.pages[k].free, PageAllocs(s'.allocs, s'.pages[k].base))
  {
    var pg := s.pages[pi];
    var rec := Rec(pg.base, Block(pg.free[i].offset, size));
    var s' := Carved(s, pi, i, size);
    PageAllocsCons(rec, s.allocs, s.pages[k].base);
    if k == pi {
      CarveKeeps(pg.free, PageAllocs(s.allocs, pg.base), i, size);
    } else {
      assert [] + PageAllocs(s.allocs, s.pages[k].base) == PageAllocs(s.allocs, s.pages[k].base);
      assert s'.pages[k] == s.pages[k];
    }
  }

  /** A fresh page has no records yet, so it is tiled by its free list. */
  lemma NewPageKeeps(s: State)
    requires Consistent(s) && s.numPages < MAX_PAGES
    ensures Consistent(WithNewPage(s))
  {
    var s' := WithNewPage(s);
    NewPageTiled(s);
    NewPageOwned(s);
    assert forall i :: 0 <= i < |s'.pages| ==> s'.pages[i].base < s'.nextBase by {
      forall i | 0 <= i < |s'.pages| ensures s'.pages[i].base < s'.nextBase {
        if i > 0 { assert s'.pages[i] == s.pages[i - 1]; }
      }
    }
    assert forall i, j :: 0 <= i < j < |s'.pages| ==> s'.pages[i].base != s'.pages[j].base by {
      forall i, j | 0 <= i < j < |s'.pages| ensures s'.pages[i].base != s'.pages[j].base {
        assert s'.pages[j] == s.pages[j - 1];
        if i > 0 { assert s'.pages[i] == s.pages[i - 1]; }
      }
    }
  }

  /** The fresh page and the old pages are all tiled. */
  lemma NewPageTiled(s: State)
    requires Consistent(s)
    ensures var s' := WithNewPage(s);
      forall k :: 0 <= k < |s'.pages| ==> PageInvariant(s'.pages[k].free, PageAllocs(s'.allocs, s'.pages[k].base))
  {
    var s' := WithNewPage(s);
    forall j | 0 <= j < |s.allocs| ensures s.allocs[j].base != s.nextBase {
      var k := PageIndex(s.pages, s.allocs[j].base).value;
    }
    PageAllocsNone(s.allocs, s.nextBase);
    FreshPage();
    forall k | 0 <= k < |s'.pages|
      ensures PageInvariant(s'.pages[k].free, PageAllocs(s'.allocs, s'.pages[k].base))
    {
      if k > 0 {
        assert s'.pages[k] == s.pages[k - 1];
      }
    }
  }

  /** Every record still names a page once the fresh page is in front. */
  lemma NewPageOwned(s: State)
    requires forall j :: 0 <= j < |s.allocs| ==> PageIndex(s.pages, s.allocs[j].base).Some?
    ensures var s' := WithNewPage(s);
      forall j :: 0 <= j < |s'.allocs| ==> PageIndex(s'.pages, s'.allocs[j].base).Some?
  {
    var s' := WithNewPage(s);
    forall j | 0 <= j < |s'.allocs| ensures PageIndex(s'.pages, s'.allocs[j].base).Some? {
      var k := PageIndex(s.pages, s.allocs[j].base).value;
      assert s'.pages[k + 1].base == s.allocs[j].base;
    }
  }

  /** Returning a record's range to its own page keeps every page tiled. */
  lemma ReturnedKeeps(s: State, j: nat)
    requires Consistent(s) && j < |s.allocs|
    ensures Consistent(Returned(s, j, PageIndex(s.pages, s.allocs[j].base).value))
  {
    var pi := PageIndex(s.pages, s.allocs[j].base).value;
    var s' := Returned(s, j, pi);
    ReturnedTiled(s, j, pi);
    ReturnedOwned(s.pages, s'.pages, s.allocs, j);
    SameBasesDistinct(s'.pages, s.pages, s.nextBase);
  }

  /** Every page is still tiled once record `j` returns to page `pi`. */
  lemma ReturnedTiled(s: State, j: nat, pi: nat)
    requires Consistent(s) && j < |s.allocs| && pi < |s.pages| && s.pages[pi].base == s.allocs[j].base
    ensures var s' := Returned(s, j, pi);
      forall k :: 0 <= k < |s'.pages| ==> PageInvariant(s'.pages[k].free, PageAllocs(s'.allocs, s'.pages[k].base))
  {
    var s' := Returned(s, j, pi);
    forall k | 0 <= k < |s'.pages|
      ensures PageInvariant(s'.pages[k].free, PageAllocs(s'.allocs, s'.pages[k].base))
    {
      if k != pi {
        assert s.pages[k].base != s.pages[pi].base by {
          if k < pi { } else { }
        }
      }
      ReturnedPage(s, j, pi, k);
    }
  }

  /** Page lists with the same addresses have distinct addresses below
      the same bound together. */
  lemma SameBasesDistinct(p1: seq<Page>, p2: seq<Page>, bound: nat)
    requires SameBases(p1, p2)
    requires forall i, j :: 0 <= i < j < |p2| ==> p2[i].base != p2[j].base
    requires forall i :: 0 <= i < |p2| ==> p2[i].base < bound
    ensures forall i, j :: 0 <= i < j < |p1| ==> p1[i].base != p1[j].base
    ensures forall i :: 0 <= i < |p1| ==> p1[i].base < bound
  {
  }

  /** After a record goes, every remaining record still names a page of
      a page list with the same addresses. */
  lemma ReturnedOwned(pages: seq<Page>, pages': seq<Page>, allocs: seq<Rec>, j: nat)
    requires j < |allocs| && SameBases(pages', pages)
    requires forall j :: 0 <= j < |allocs| ==> PageIndex(pages, allocs[j].base).Some?
    ensures var rest := RemoveAt(allocs, j);
      forall j2 :: 0 <= j2 < |rest| ==> PageIndex(pages', rest[j2].base).Some?
  {
    var rest := RemoveAt(allocs, j);
    forall j2 | 0 <= j2 < |rest| ensures PageIndex(pages', rest[j2].base).Some? {
      var j2' := if j2 < j then j2 else j2 + 1;
      assert rest[j2] == allocs[j2'];
      PageIndexBases(pages', pages, allocs[j2'].base);
    }
  }

  /** Page lists with the same addresses in the same order. */
  predicate SameBases(p1: seq<Page>, p2: seq<Page>) {
    |p1| == |p2| && forall k :: 0 <= k < |p1| ==> p1[k].base == p2[k].base
  }

  /** Looking up a page depends on the page addresses only. */
  lemma {:induction false} PageIndexBases(p1: seq<Page>, p2: seq<Page>, base: nat)
    requires SameBases(p1, p2)
    ensures PageIndex(p1, base) == PageIndex(p2, base)
  {
    if p1 != [] {
      PageIndexBases(p1[1..], p2[1..], base);
    }
  }

  lemma ReturnedPage(s: State, j: nat, pi: nat, k: nat)
    requires j < |s.allocs| && pi < |s.pages| && s.pages[pi].base == s.allocs[j].base
    requires k < |s.pages| && (k != pi ==> s.pages[k].base != s.pages[pi].base)
    requires PageInvariant(s.pages[k].free, PageAllocs(s.allocs, s.pages[k].base))
    ensures var s' := Returned(s, j, pi);
      PageInvariant(s'.pages[k].free, PageAllocs(s'.allocs, s'.pages[k].base))
  {
    var base := s.pages[k].base;
    if k == pi {
      PageAllocsRemove(s.allocs, j);
      ReturnKeeps(s.pages[pi].free, PageAllocs(s.allocs, base), FilterPos(s.allocs, j, base));
    } else {
      PageAllocsRemoveOther(s.allocs, j, base);
    }
  }

  lemma EallocKeeps(s: State, size: int, mmapOk: bool)
    requires Consistent(s)
    ensures Consistent(EallocSpec(s, size, mmapOk).0)
  {
    if SizeOk(size) {
      match PageFit(s.pages, size)
      case Some((pi, i)) =>
        CarvedKeeps(s, pi, i, size);
      case None =>
        if s.numPages < MAX_PAGES && mmapOk {
          NewPageKeeps(s);
          CarvedKeeps(WithNewPage(s), 0, 0, size);
        }
    }
  }

  lemma EdeallocKeeps(s: State, p: Ptr)
    requires Consistent(s)
    ensures Consistent(EdeallocSpec(s, p))
  {
    if p != Null && FindRec(s.allocs, p).Some? {
      ReturnedKeeps(s, FindRec(s.allocs, p).value);
    }
  }

  /** When no page fits, a successful ealloc_mem maps a fresh page,
      returns its offset 0, and leaves the rest of that page free. */
  lemma NewPageFront(s: State, size: int)
    requires SizeOk(size) && size < PAGE_SIZE && PageFit(s.pages, size).None? && s.numPages < MAX_PAGES
    ensures EallocSpec(s, size, true) ==
      (State([Page(s.nextBase, [Block(size, PAGE_SIZE - size)])] + s.pages,
             [Rec(s.nextBase, Block(0, size))] + s.allocs, s.numPages + 1, s.nextBase + 1),
       Addr(s.nextBase, 0))
  {
    var w := WithNewPage(s);
    assert Carve(w.pages[0].free, 0, size) == [Block(size, PAGE_SIZE - size)];
    assert w.pages[0 := Page(s.nextBase, [Block(size, PAGE_SIZE - size)])]
        == [Page(s.nextBase, [Block(size, PAGE_SIZE - size)])] + s.pages;
  }

  /** The allocator object; its fields are the globals of the source,
      plus `nextBase`, which stands for the addresses mmap hands out. */
  class Heap {
    var pages: seq<Page>
    var allocs: seq<Rec>
    var numPages: int
    var nextBase: nat

    function Current(): State
      reads this
    {
      State(pages, allocs, numPages, nextBase)
    }

    ghost predicate Valid()
      reads this
    {
      Consistent(Current())
    }

    constructor ()
      ensures Valid() && Current() == State([], [], 0, 0)
    {
      pages, allocs, numPages, nextBase := [], [], 0, 0;
    }

    /** einit_alloc. */
    method Einit() returns (r: int)
      requires Valid()
      modifies this
      ensures Valid()
      ensures (Current(), r) == ResetSpec(old(Current()))
    {
      pages, allocs, numPages := [], [], 0;
      return 0;
    }

    /** ecleanup_alloc. */
    method Ecleanup() returns (r: int)
      requires Valid()
      modifies this
      ensures Valid()
      ensures (Current(), r) == ResetSpec(old(Current()))
    {
      allocs := [];
      pages := [];
      numPages := 0;
      return 0;
    }

    /** The loop over `pages` in ealloc_mem, with the inner loop over one
        page's free list. */
    method SearchPages(size: nat) returns (found: bool, pi: nat, i: nat)
      ensures found <==> PageFit(pages, size).Some?
      ensures found ==> PageFit(pages, size) == Some((pi, i))
    {
      pi := 0;
      while pi < |pages|
        invariant pi <= |pages|
        invariant forall k :: 0 <= k < pi ==> FitIndex(pages[k].free, size).None?
      {
        var ok;
        ok, i := FirstFit(pages[pi].free, size);
        if ok {
          PageFitIs(pages, size, pi);
          return true, pi, i;
        }
        pi := pi + 1;
      }
      return false, 0, 0;
    }

    /** create_new_page: refuses once MAX_PAGES pages exist or when mmap
        fails; otherwise prepends a page whose free list is the whole
        page. */
    method CreateNewPage(mmapOk: bool) returns (ok: bool)
      modifies this
      ensures ok <==> old(numPages) < MAX_PAGES && mmapOk
      ensures !ok ==> Current() == old(Current())
      ensures ok ==> Current() == WithNewPage(old(Current()))
    {
      if numPages >= MAX_PAGES || !mmapOk {
        return false;
      }
      var base := nextBase;
      nextBase := nextBase + 1;
      var free := AddFree([], Block(0, PAGE_SIZE));
      assert Insert([], Block(0, PAGE_SIZE)) == [Block(0, PAGE_SIZE)];
      pages := [Page(base, free)] + pages;
      numPages := numPages + 1;
      return true;
    }

    /** ealloc_mem. */
    method EallocMem(size: int, mmapOk: bool) returns (p: Ptr)
      requires Valid()
      modifies this
      ensures Valid()
      ensures (Current(), p) == EallocSpec(old(Current()), size, mmapOk)
    {
      ghost var s := Current();
      EallocKeeps(s, size, mmapOk);
      if size <= 0 || size % 256 != 0 || size > PAGE_SIZE {
        return Null;
      }
      var found, pi, i := SearchPages(size);
      if found {
        p := TakeFront(pi, i, size);
        return;
      }
      var ok := CreateNewPage(mmapOk);
      if !ok {
        return Null;
      }
      p := TakeFront(0, 0, size);
    }

    /** The first `size` bytes of block `i` of page `pi` become a new
        record, the newest. */
    method TakeFront(pi: nat, i: nat, size: nat) returns (p: Ptr)
      requires pi < |pages| && i < |pages[pi].free| && 0 < size <= pages[pi].free[i].size
      modifies this
      ensures Current() == Carved(old(Current()), pi, i, size)
      ensures p == Addr(old(pages[pi].base), old(pages[pi].free[i].offset))
    {
      var pg := pages[pi];
      var off := pg.free[i].offset;
      pages := pages[pi := Page(pg.base, Carve(pg.free, i, size))];
      allocs := [Rec(pg.base, Block(off, size))] + allocs;
      return Addr(pg.base, off);
    }

    /** The loop of find_allocrec. */
    method FindAllocRec(p: Ptr) returns (r: Option<nat>)
      ensures r == FindRec(allocs, p)
    {
      var j := 0;
      while j < |allocs|
        invariant j <= |allocs| && forall k :: 0 <= k < j ==> PtrOf(allocs[k]) != p
      {
        if PtrOf(allocs[j]) == p {
          FindRecIs(allocs, p, j);
          return Some(j);
        }
        j := j + 1;
      }
      return None;
    }

    /** edealloc_mem. */
    method EdeallocMem(p: Ptr)
      requires Valid()
      modifies this
      ensures Valid()
      ensures Current() == EdeallocSpec(old(Current()), p)
    {
      ghost var s := Current();
      EdeallocKeeps(s, p);
      if p == Null {
        return;
      }
      var found := FindAllocRec(p);
      if found == None {
        return;
      }
      var j := found.value;
      var pi := PageIndex(pages, allocs[j].base).value;
      GiveBack(j, pi);
    }

    /** Record `j` goes, and its range returns to page `pi`. */
    method GiveBack(j: nat, pi: nat)
      requires j < |allocs| && pi < |pages|
      modifies this
      ensures Current() == Returned(old(Current()), j, pi)
    {
      var rec := allocs[j];
      var pg := pages[pi];
      allocs := RemoveAt(allocs, j);
      var nf := AddFree(pg.free, rec.blk);
      pages := pages[pi := Page(pg.base, nf)];
    }
  }

  lemma {:induction false} PageFitIs(pages: seq<Page>, size: nat, pi: nat)
    requires pi < |pages| && FitIndex(pages[pi].free, size).Some?
    requires forall k :: 0 <= k < pi ==> FitIndex(pages[k].free, size).None?
    ensures PageFit(pages, size) == Some((pi, FitIndex(pages[pi].free, size).value))
  {
    if pi > 0 {
      PageFitIs(pages[1..], size, pi - 1);
    }
  }

  lemma {:induction false} FindRecIs(allocs: seq<Rec>, p: Ptr, j: nat)
    requires j < |allocs| && PtrOf(allocs[j]) == p
    requires forall k :: 0 <= k < j ==> PtrOf(allocs[k]) != p
    ensures FindRec(allocs, p) == Some(j)
  {
    if j > 0 {
      FindRecIs(allocs[1..], p, j - 1);
    }
  }
}

/** The run of test_ealloc, from einit_alloc (with the first mmap at
    address 0) to the allocation that reuses the freed block. */
module EallocScenario {
  import opened Wrappers
  import opened FreeList
  import opened Ealloc

  const E0 := State([], [], 0, 0)
  const E1 := State([Page(0, [Block(256, 3840)])], [Rec(0, Block(0, 256))], 1, 1)
  const E2 := State([Page(0, [Block(768, 3328)])],
                    [Rec(0, Block(256, 512)), Rec(0, Block(0, 256))], 1, 1)
  const E3 := State([Page(0, [Block(1792, 2304)])],
                    [Rec(0, Block(768, 1024)), Rec(0, Block(256, 512)), Rec(0, Block(0, 256))], 1, 1)
  const E4 := State([Page(0, [Block(256, 512), Block(1792, 2304)])],
                    [Rec(0, Block(768, 1024)), Rec(0, Block(0, 256))], 1, 1)
  const E5 := State([Page(0, [Block(512, 256), Block(1792, 2304)])],
                    [Rec(0, Block(256, 256)), Rec(0, Block(768, 1024)), Rec(0, Block(0, 256))], 1, 1)
  const E6 := State([Page(0, [Block(0, 256), Block(512, 256), Block(1792, 2304)])],
                    [Rec(0, Block(256, 256)), Rec(0, Block(768, 1024))], 1, 1)
  const E7 := State([Page(0, [Block(0, 256), Block(512, 3584)])], [Rec(0, Block(256, 256))], 1, 1)
  const E8 := State([Page(0, [Block(0, 4096)])], [], 1, 1)

  /** a, b and c come from one page in turn; after b is freed, d takes
      the front of b's old block, so d == b.  Freeing a, c and d then
      leaves the page wholly free, and ecleanup_alloc forgets it while
      keeping the next address. */
  lemma TestEallocScenario()
    ensures ResetSpec(E0) == (E0, 0)
    ensures EallocSpec(E0, 256, true) == (E1, Addr(0, 0))
    ensures EallocSpec(E1, 512, true) == (E2, Addr(0, 256))
    ensures EallocSpec(E2, 1024, true) == (E3, Addr(0, 768))
    ensures EdeallocSpec(E3, Addr(0, 256)) == E4
    ensures EallocSpec(E4, 256, true) == (E5, Addr(0, 256))
    ensures EdeallocSpec(E5, Addr(0, 0)) == E6
    ensures EdeallocSpec(E6, Addr(0, 768)) == E7
    ensures EdeallocSpec(E7, Addr(0, 256)) == E8
    ensures ResetSpec(E8) == (State([], [], 0, 1), 0)
  {
    FirstPage();
    AllocB();
    AllocC();
    FreeSecond();
    AllocD();
    FreeA();
    FreeC();
    FreeD();
  }

  /** Freeing a: its block goes in front and touches no neighbour. */
  lemma FreeA()
    ensures EdeallocSpec(E5, Addr(0, 0)) == E6
  {
    assert FindRec(E5.allocs, Addr(0, 0)) == Some(2);
    assert PageIndex(E5.pages, 0) == Some(0);
    var l := E5.pages[0].free;
    InsertPosIs(l, 0, 0);
    assert Insert(l, Block(0, 256)) == [Block(0, 256), Block(512, 256)] + [Block(1792, 2304)];
    CoalesceHead(Block(0, 256), Block(512, 256), [Block(1792, 2304)]);
    CoalesceHead(Block(512, 256), Block(1792, 2304), []);
    assert [Block(512, 256), Block(1792, 2304)] == [Block(512, 256), Block(1792, 2304)] + [];
    assert CoalesceF([Block(1792, 2304)] + []) == [Block(1792, 2304)];
    assert CoalesceF(Insert(l, E5.allocs[2].blk)) == E6.pages[0].free;
    assert RemoveAt(E5.allocs, 2) == E6.allocs;
    assert Returned(E5, 2, 0) == E6;
  }

  /** Freeing c joins it with d's remainder before it and the page's tail
      after it. */
  lemma FreeC()
    ensures EdeallocSpec(E6, Addr(0, 768)) == E7
  {
    assert FindRec(E6.allocs, Addr(0, 768)) == Some(1);
    assert PageIndex(E6.pages, 0) == Some(0);
    var l := E6.pages[0].free;
    InsertPosIs(l, 768, 2);
    assert Insert(l, E6.allocs[1].blk)
        == [Block(0, 256), Block(512, 256), Block(768, 1024), Block(1792, 2304)];
    MergeAroundC();
    assert RemoveAt(E6.allocs, 1) == E7.allocs;
    assert Returned(E6, 1, 0) == E7;
  }

  lemma MergeAroundC()
    ensures CoalesceF([Block(0, 256), Block(512, 256), Block(768, 1024), Block(1792, 2304)])
         == [Block(0, 256), Block(512, 3584)]
  {
    var l4 := [Block(0, 256), Block(512, 256), Block(768, 1024), Block(1792, 2304)];
    assert l4 == [Block(0, 256), Block(512, 256)] + [Block(768, 1024), Block(1792, 2304)];
    CoalesceHead(Block(0, 256), Block(512, 256), [Block(768, 1024), Block(1792, 2304)]);
    assert [Block(512, 256), Block(768, 1024), Block(1792, 2304)]
        == [Block(512, 256), Block(768, 1024)] + [Block(1792, 2304)];
    CoalesceHead(Block(512, 256), Block(768, 1024), [Block(1792, 2304)]);
    assert [Block(512, 1280), Block(1792, 2304)] == [Block(512, 1280), Block(1792, 2304)] + [];
    CoalesceHead(Block(512, 1280), Block(1792, 2304), []);
    assert CoalesceF([Block(512, 3584)] + []) == [Block(512, 3584)];
  }

  /** Freeing d closes the last gap: the page is one free block again. */
  lemma FreeD()
    ensures EdeallocSpec(E7, Addr(0, 256)) == E8
  {
    assert FindRec(E7.allocs, Addr(0, 256)) == Some(0);
    assert PageIndex(E7.pages, 0) == Some(0);
    var l := E7.pages[0].free;
    InsertPosIs(l, 256, 1);
    assert Insert(l, E7.allocs[0].blk) == [Block(0, 256), Block(256, 256), Block(512, 3584)];
    MergeWhole();
    assert RemoveAt(E7.allocs, 0) == [];
    assert Returned(E7, 0, 0) == E8;
  }

  lemma MergeWhole()
    ensures CoalesceF([Block(0, 256), Block(256, 256), Block(512, 3584)]) == [Block(0, 4096)]
  {
    assert [Block(0, 256), Block(256, 256), Block(512, 3584)]
        == [Block(0, 256), Block(256, 256)] + [Block(512, 3584)];
    CoalesceHead(Block(0, 256), Block(256, 256), [Block(512, 3584)]);
    assert [Block(0, 512), Block(512, 3584)] == [Block(0, 512), Block(512, 3584)] + [];
    CoalesceHead(Block(0, 512), Block(512, 3584), []);
    assert CoalesceF([Block(0, 4096)] + []) == [Block(0, 4096)];
  }

  lemma AllocB()
    ensures EallocSpec(E1, 512, true) == (E2, Addr(0, 256))
  {
    assert E1.pages[0].free[0 := Block(768, 3328)] == E2.pages[0].free;
    assert [Rec(0, Block(256, 512))] + E1.allocs == E2.allocs;
    FrontOfPage(E1, 512, E2);
  }

  lemma AllocC()
    ensures EallocSpec(E2, 1024, true) == (E3, Addr(0, 768))
  {
    assert E2.pages[0].free[0 := Block(1792, 2304)] == E3.pages[0].free;
    assert [Rec(0, Block(768, 1024))] + E2.allocs == E3.allocs;
    FrontOfPage(E2, 1024, E3);
  }

  lemma AllocD()
    ensures EallocSpec(E4, 256, true) == (E5, Addr(0, 256))
  {
    assert E4.pages[0].free[0 := Block(512, 256)] == E5.pages[0].free;
    assert [Rec(0, Block(256, 256))] + E4.allocs == E5.allocs;
    FrontOfPage(E4, 256, E5);
  }

  lemma FirstPage()
    ensures EallocSpec(E0, 256, true) == (E1, Addr(0, 0))
  {
    NewPageFront(E0, 256);
    assert [Page(0, [Block(256, 3840)])] + [] == E1.pages;
    assert [Rec(0, Block(0, 256))] + [] == E1.allocs;
  }

  /** An allocation that the first block of the only page holds with room
      to spare comes from that block's front. */
  lemma FrontOfPage(s: State, size: int, s': State)
    requires |s.pages| == 1 && s.pages[0].free != [] && SizeOk(size) && s.pages[0].free[0].size > size
    requires var pg := s.pages[0];
      s' == State([Page(pg.base, pg.free[0 := Block(pg.free[0].offset + size, pg.free[0].size - size)])],
                  [Rec(pg.base, Block(pg.free[0].offset, size))] + s.allocs, s.numPages, s.nextBase)
    ensures EallocSpec(s, size, true) == (s', Addr(s.pages[0].base, s.pages[0].free[0].offset))
  {
    var pg := s.pages[0];
    assert FitIndex(pg.free, size) == Some(0);
    assert PageFit(s.pages, size) == Some((0, 0));
    assert s.pages[0 := Page(pg.base, Carve(pg.free, 0, size))] == s'.pages;
    assert Carved(s, 0, 0, size) == s';
  }

  lemma FreeSecond()
    ensures EdeallocSpec(E3, Addr(0, 256)) == E4
  {
    assert FindRec(E3.allocs, Addr(0, 256)) == Some(1);
    assert PageIndex(E3.pages, 0) == Some(0);
    var l := E3.pages[0].free;
    var b := Block(256, 512);
    assert InsertPos(l, 256) == 0;
    assert Insert(l, b) == [b] + l;
    assert [b] + l == [b, Block(1792, 2304)] + [];
    CoalesceHead(b, Block(1792, 2304), []);
    assert CoalesceF([Block(1792, 2304)] + []) == [Block(1792, 2304)];
    assert CoalesceF([b] + l) == E4.pages[0].free;
    assert RemoveAt(E3.allocs, 1) == E4.allocs;
    assert Returned(E3, 1, 0) == E4;
  }
}
