/** The free list shared by the single-page and the multi-page allocators:
    blocks of one 4096-byte page, sorted by offset, with contiguous
    neighbours merged.  The linked list is modelled as a sequence; its
    splicing loops become methods that build the new sequence. */
module FreeList {
  import opened Wrappers

  const PAGE_SIZE: nat := 4096

  /** A range `[offset, offset + size)` of the page. */
  datatype Block = Block(offset: nat, size: nat)

  function End(b: Block): nat {
    b.offset + b.size
  }

  /** The two ranges share no byte. */
  predicate Disjoint(a: Block, b: Block) {
    End(a) <= b.offset || End(b) <= a.offset
  }

  predicate DisjointFromAll(b: Block, l: seq<Block>) {
    forall k :: 0 <= k < |l| ==> Disjoint(b, l[k])
  }

  predicate InPage(l: seq<Block>) {
    forall k :: 0 <= k < |l| ==> l[k].size > 0 && End(l[k]) <= PAGE_SIZE
  }

  /** Non-empty blocks in ascending order that do not overlap: every
      block ends at or before the start of every later block. */
  predicate Ordered(l: seq<Block>) {
    && (forall k :: 0 <= k < |l| ==> l[k].size > 0)
    && (forall i, j :: 0 <= i < j < |l| ==> End(l[i]) <= l[j].offset)
  }

  /** Ordered, with a gap between each block and every later one. */
  predicate Coalesced(l: seq<Block>) {
    Ordered(l) && forall i, j :: 0 <= i < j < |l| ==> End(l[i]) < l[j].offset
  }

  /** Total number of bytes in the blocks. */
  function Sum(l: seq<Block>): nat {
    if l == [] then 0 else l[0].size + Sum(l[1..])
  }

  lemma {:induction false} SumConcat(a: seq<Block>, b: seq<Block>)
    ensures Sum(a + b) == Sum(a) + Sum(b)
  {
    if a != [] {
      assert (a + b)[1..] == a[1..] + b;
      SumConcat(a[1..], b);
    } else {
      assert a + b == b;
    }
  }

  /** A list is coalesced exactly when it is ordered and no block ends
      where its successor starts: the free list never holds two
      contiguous neighbours. */
  lemma CoalescedNeighbours(l: seq<Block>)
    ensures Coalesced(l) <==>
      Ordered(l) && forall k :: 0 <= k < |l| - 1 ==> End(l[k]) != l[k + 1].offset
  {
    if Ordered(l) && forall k :: 0 <= k < |l| - 1 ==> End(l[k]) != l[k + 1].offset {
      forall i, j | 0 <= i < j < |l| ensures End(l[i]) < l[j].offset {
        assert End(l[i]) <= l[i + 1].offset && End(l[i]) != l[i + 1].offset;
        if i + 1 < j {
          assert End(l[i + 1]) <= l[j].offset;
        }
      }
    }
  }

  /** In an ordered list all blocks are pairwise disjoint. */
  lemma OrderedDisjoint(l: seq<Block>)
    requires Ordered(l)
    ensures forall i, j :: 0 <= i < |l| && 0 <= j < |l| && i != j ==> Disjoint(l[i], l[j])
  {
    forall i, j | 0 <= i < |l| && 0 <= j < |l| && i != j ensures Disjoint(l[i], l[j]) {
      if i < j { assert End(l[i]) <= l[j].offset; } else { assert End(l[j]) <= l[i].offset; }
    }
  }

  /** Where a block starting at `off` goes: after every block with a
      smaller offset. */
  function InsertPos(l: seq<Block>, off: nat): (i: nat)
    ensures i <= |l|
    ensures forall k :: 0 <= k < i ==> l[k].offset < off
    ensures i < |l| ==> l[i].offset >= off
  {
    if l == [] || l[0].offset >= off then 0 else 1 + InsertPos(l[1..], off)
  }

  /** The list with `b` inserted at its position by offset. */
  function Insert(l: seq<Block>, b: Block): (r: seq<Block>)
    ensures |r| == |l| + 1
    ensures forall k :: 0 <= k < |r| ==>
      r[k] == (if k < InsertPos(l, b.offset) then l[k]
               else if k == InsertPos(l, b.offset) then b else l[k - 1])
  {
    var i := InsertPos(l, b.offset);
    l[..i] + [b] + l[i..]
  }

  /** The insertion adds `b` and keeps every other block. */
  lemma InsertMembers(l: seq<Block>, b: Block)
    ensures multiset(Insert(l, b)) == multiset(l) + multiset{b}
  {
    var i := InsertPos(l, b.offset);
    assert Insert(l, b) == l[..i] + [b] + l[i..];
    assert l == l[..i] + l[i..];
  }

  /** The insertion keeps the list ordered when the new block is
      disjoint from all others. */
  lemma InsertOrdered(l: seq<Block>, b: Block)
    requires Ordered(l) && b.size > 0 && DisjointFromAll(b, l)
    ensures Ordered(Insert(l, b))
  {
    var r := Insert(l, b);
    forall k1, k2 | 0 <= k1 < k2 < |r| ensures End(r[k1]) <= r[k2].offset {
      InsertPair(l, b, k1, k2);
    }
  }

  /** One pair of positions of InsertOrdered. */
  lemma InsertPair(l: seq<Block>, b: Block, k1: nat, k2: nat)
    requires Ordered(l) && b.size > 0 && DisjointFromAll(b, l)
    requires k1 < k2 < |l| + 1
    ensures End(Insert(l, b)[k1]) <= Insert(l, b)[k2].offset
  {
    var i := InsertPos(l, b.offset);
    var r := Insert(l, b);
    if k2 < i {
      assert r[k1] == l[k1] && r[k2] == l[k2];
    } else if k2 == i {
      assert r[k1] == l[k1] && r[k2] == b && Disjoint(b, l[k1]);
    } else if k1 == i {
      assert r[k1] == b && r[k2] == l[k2 - 1] && Disjoint(b, l[k2 - 1]);
      assert l[k2 - 1].offset >= b.offset by {
        if k2 - 1 > i { assert End(l[i]) <= l[k2 - 1].offset; }
      }
    } else if k1 < i {
      assert r[k1] == l[k1] && r[k2] == l[k2 - 1];
    } else {
      assert r[k1] == l[k1 - 1] && r[k2] == l[k2 - 1];
    }
  }

  /** The insertion adds exactly the bytes of the new block. */
  lemma InsertSum(l: seq<Block>, b: Block)
    ensures Sum(Insert(l, b)) == Sum(l) + b.size
  {
    var i := InsertPos(l, b.offset);
    SumConcat(l[..i] + [b], l[i..]);
    SumConcat(l[..i], [b]);
    SumConcat(l[..i], l[i..]);
    assert l[..i] + l[i..] == l;
    assert Sum([b]) == b.size by { assert [b][1..] == []; }
  }

  /** Inserting a block of the page keeps every block in the page. */
  lemma InsertInPage(l: seq<Block>, b: Block)
    requires InPage(l) && b.size > 0 && End(b) <= PAGE_SIZE
    ensures InPage(Insert(l, b))
  {
    var r := Insert(l, b);
    var i := InsertPos(l, b.offset);
    forall k | 0 <= k < |r| ensures r[k].size > 0 && End(r[k]) <= PAGE_SIZE {
      if k < i { assert r[k] == l[k]; } else if k > i { assert r[k] == l[k - 1]; }
    }
  }

  /** A block disjoint from the list and from the inserted block is
      disjoint from the list after insertion. */
  lemma InsertDisjoint(l: seq<Block>, b: Block, c: Block)
    requires DisjointFromAll(c, l) && Disjoint(c, b)
    ensures DisjointFromAll(c, Insert(l, b))
  {
    var r := Insert(l, b);
    var i := InsertPos(l, b.offset);
    forall k | 0 <= k < |r| ensures Disjoint(c, r[k]) {
      if k < i { assert r[k] == l[k]; } else if k > i { assert r[k] == l[k - 1]; }
    }
  }

  /** The coalescing pass of `add_free_block`, as a function: whenever a
      block ends where the next one starts, the two become one block;
      the merged block is compared with its new successor again. */
  function CoalesceF(l: seq<Block>): (r: seq<Block>)
    ensures |r| <= |l| && (r == [] <==> l == [])
    ensures l != [] ==> r[0].offset == l[0].offset
    decreases |l|
  {
    if |l| < 2 then l
    else if End(l[0]) == l[1].offset then
      CoalesceF([Block(l[0].offset, l[0].size + l[1].size)] + l[2..])
    else
      [l[0]] + CoalesceF(l[1..])
  }

  /** Coalescing neither loses nor gains a byte. */
  lemma {:induction false} CoalesceSum(l: seq<Block>)
    ensures Sum(CoalesceF(l)) == Sum(l)
    decreases |l|
  {
    if |l| >= 2 {
      if End(l[0]) == l[1].offset {
        var m := Block(l[0].offset, l[0].size + l[1].size);
        assert ([m] + l[2..])[1..] == l[2..];
        assert l[1..][1..] == l[2..];
        CoalesceSum([m] + l[2..]);
      } else {
        assert ([l[0]] + CoalesceF(l[1..]))[1..] == CoalesceF(l[1..]);
        CoalesceSum(l[1..]);
      }
    }
  }

  lemma OrderedTail(l: seq<Block>)
    requires Ordered(l) && l != []
    ensures Ordered(l[1..])
  {
    var t := l[1..];
    assert forall k :: 0 <= k < |t| ==> t[k] == l[k + 1];
    forall i, j | 0 <= i < j < |t| ensures End(t[i]) <= t[j].offset {
      assert End(l[i + 1]) <= l[j + 1].offset;
    }
  }

  lemma OrderedMerge(l: seq<Block>)
    requires Ordered(l) && |l| >= 2 && End(l[0]) == l[1].offset
    ensures Ordered([Block(l[0].offset, l[0].size + l[1].size)] + l[2..])
  {
    var l2 := [Block(l[0].offset, l[0].size + l[1].size)] + l[2..];
    assert forall k :: 1 <= k < |l2| ==> l2[k] == l[k + 1];
    forall i, j | 0 <= i < j < |l2| ensures End(l2[i]) <= l2[j].offset {
      if i == 0 { assert End(l[1]) <= l[j + 1].offset; }
      else { assert End(l[i + 1]) <= l[j + 1].offset; }
    }
  }

  /** One step of the coalescing pass on a list that starts `a, b`. */
  lemma CoalesceHead(a: Block, b: Block, rest: seq<Block>)
    ensures End(a) == b.offset ==>
      CoalesceF([a, b] + rest) == CoalesceF([Block(a.offset, a.size + b.size)] + rest)
    ensures End(a) != b.offset ==> CoalesceF([a, b] + rest) == [a] + CoalesceF([b] + rest)
  {
    var l := [a, b] + rest;
    assert l[0] == a && l[1] == b && l[2..] == rest && l[1..] == [b] + rest;
  }

  /** Coalescing an ordered list yields a coalesced one, whose blocks
      start no earlier than the first block did. */
  lemma {:induction false} CoalesceCoalesced(l: seq<Block>)
    requires Ordered(l)
    ensures Coalesced(CoalesceF(l))
    ensures forall k :: 0 <= k < |CoalesceF(l)| ==> CoalesceF(l)[k].offset >= l[0].offset
    decreases |l|
  {
    if |l| >= 2 {
      if End(l[0]) == l[1].offset {
        var m := Block(l[0].offset, l[0].size + l[1].size);
        OrderedMerge(l);
        CoalesceCoalesced([m] + l[2..]);
      } else {
        var t := l[1..];
        OrderedTail(l);
        CoalesceCoalesced(t);
        assert End(l[0]) < l[1].offset by { assert End(l[0]) <= l[1].offset; }
        ConsCoalesced(l[0], CoalesceF(t), l[1].offset);
      }
    }
  }

  /** A block that ends before every block of a coalesced list starts
      can be put in front of it. */
  lemma ConsCoalesced(a: Block, ct: seq<Block>, lo: nat)
    requires Coalesced(ct) && a.size > 0 && End(a) < lo
    requires forall k :: 0 <= k < |ct| ==> ct[k].offset >= lo
    ensures Coalesced([a] + ct)
    ensures forall k :: 0 <= k < |[a] + ct| ==> ([a] + ct)[k].offset >= a.offset
  {
    var r := [a] + ct;
    assert forall k :: 0 < k < |r| ==> r[k] == ct[k - 1];
    forall i, j | 0 <= i < j < |r| ensures End(r[i]) < r[j].offset {
      if i > 0 { assert End(ct[i - 1]) < ct[j - 1].offset; }
      else { assert ct[j - 1].offset >= lo; }
    }
  }

  /** Coalescing leaves a coalesced list as it is. */
  lemma {:induction false} CoalesceIdle(l: seq<Block>)
    requires Coalesced(l)
    ensures CoalesceF(l) == l
    decreases |l|
  {
    if |l| >= 2 {
      assert Coalesced(l[1..]) by {
        var t := l[1..];
        assert forall k :: 0 <= k < |t| ==> t[k] == l[k + 1];
        forall i, j | 0 <= i < j < |t| ensures End(t[i]) < t[j].offset {
          assert End(l[i + 1]) < l[j + 1].offset;
        }
      }
      assert End(l[0]) < l[1].offset;
      CoalesceIdle(l[1..]);
      assert l == [l[0]] + l[1..];
    }
  }

  /** Merging blocks keeps them in the page and keeps them disjoint from
      any non-empty block that was disjoint from all of them. */
  lemma {:induction false} CoalesceKeeps(l: seq<Block>, c: Block)
    requires Ordered(l) && InPage(l) && c.size > 0 && DisjointFromAll(c, l)
    ensures InPage(CoalesceF(l)) && DisjointFromAll(c, CoalesceF(l))
    decreases |l|
  {
    if |l| >= 2 {
      if End(l[0]) == l[1].offset {
        var m := Block(l[0].offset, l[0].size + l[1].size);
        var l2 := [m] + l[2..];
        assert Disjoint(c, l[0]) && Disjoint(c, l[1]);
        assert forall k :: 1 <= k < |l2| ==> l2[k] == l[k + 1];
        OrderedMerge(l);
        CoalesceKeeps(l2, c);
      } else {
        OrderedTail(l);
        CoalesceKeeps(l[1..], c);
        var r := [l[0]] + CoalesceF(l[1..]);
        forall k | 0 <= k < |r| ensures r[k].size > 0 && End(r[k]) <= PAGE_SIZE && Disjoint(c, r[k]) {
          if k > 0 { assert r[k] == CoalesceF(l[1..])[k - 1]; }
        }
      }
    }
  }

  /** The insertion loop of `add_free_block`: walks past every block with
      a smaller offset and links the new block in before the rest. */
  method InsertBlock(l: seq<Block>, b: Block) returns (r: seq<Block>)
    ensures r == Insert(l, b)
  {
    var i := 0;
    while i < |l| && l[i].offset < b.offset
      invariant i <= |l| && forall k :: 0 <= k < i ==> l[k].offset < b.offset
    {
      i := i + 1;
    }
    InsertPosIs(l, b.offset, i);
    r := l[..i] + [b] + l[i..];
  }

  lemma {:induction false} InsertPosIs(l: seq<Block>, off: nat, i: nat)
    requires i <= |l| && forall k :: 0 <= k < i ==> l[k].offset < off
    requires i < |l| ==> l[i].offset >= off
    ensures InsertPos(l, off) == i
  {
    if i > 0 {
      InsertPosIs(l[1..], off, i - 1);
    }
  }

  /** The coalescing loop of `add_free_block`: `cur` stays on a block
      after merging its successor into it, and moves on otherwise. */
  method Coalesce(l: seq<Block>) returns (r: seq<Block>)
    ensures r == CoalesceF(l)
  {
    r := l;
    var cur: nat := 0;
    while cur + 1 < |r|
      invariant cur <= |r|
      invariant CoalesceF(l) == r[..cur] + CoalesceF(r[cur..])
      decreases |r| - cur
    {
      r, cur := CoalesceOne(l, r, cur);
    }
    assert r[..cur] + r[cur..] == r;
  }

  /** One iteration of the coalescing loop. */
  method CoalesceOne(ghost l: seq<Block>, r: seq<Block>, cur: nat) returns (r': seq<Block>, cur': nat)
    requires cur + 1 < |r| && CoalesceF(l) == r[..cur] + CoalesceF(r[cur..])
    ensures cur' <= |r'| && CoalesceF(l) == r'[..cur'] + CoalesceF(r'[cur'..])
    ensures |r'| - cur' < |r| - cur
  {
    if End(r[cur]) == r[cur + 1].offset {
      MergeStep(l, r, cur);
      r', cur' := MergeAt(r, cur), cur;
    } else {
      SkipStep(l, r, cur);
      r', cur' := r, cur + 1;
    }
  }

  /** Block `cur` absorbs its successor. */
  function MergeAt(r: seq<Block>, cur: nat): (r2: seq<Block>)
    requires cur + 1 < |r|
    ensures |r2| == |r| - 1
  {
    r[..cur] + [Block(r[cur].offset, r[cur].size + r[cur + 1].size)] + r[cur + 2..]
  }

  lemma MergeStep(l: seq<Block>, r: seq<Block>, cur: nat)
    requires cur + 1 < |r| && End(r[cur]) == r[cur + 1].offset
    requires CoalesceF(l) == r[..cur] + CoalesceF(r[cur..])
    ensures var r2 := MergeAt(r, cur);
      CoalesceF(l) == r2[..cur] + CoalesceF(r2[cur..])
  {
    var m := Block(r[cur].offset, r[cur].size + r[cur + 1].size);
    var r2 := MergeAt(r, cur);
    assert r2 == r[..cur] + [m] + r[cur + 2..];
    var s := r[cur..];
    assert s[0] == r[cur] && s[1] == r[cur + 1];
    assert s[2..] == r[cur + 2..];
    assert r2[..cur] == r[..cur];
    assert r2[cur..] == [m] + r[cur + 2..];
  }

  lemma SkipStep(l: seq<Block>, r: seq<Block>, cur: nat)
    requires cur + 1 < |r| && End(r[cur]) != r[cur + 1].offset
    requires CoalesceF(l) == r[..cur] + CoalesceF(r[cur..])
    ensures CoalesceF(l) == r[..cur + 1] + CoalesceF(r[cur + 1..])
  {
    var s, t := r[cur..], r[cur + 1..];
    assert CoalesceF(s) == [r[cur]] + CoalesceF(t) by {
      assert |s| >= 2 && s[0] == r[cur] && s[1] == r[cur + 1];
      assert s[1..] == t;
    }
    calc {
      CoalesceF(l);
      r[..cur] + ([r[cur]] + CoalesceF(t));
      (r[..cur] + [r[cur]]) + CoalesceF(t);
      { assert r[..cur + 1] == r[..cur] + [r[cur]]; }
      r[..cur + 1] + CoalesceF(t);
    }
  }

  /** add_free_block / add_free_in_page, leaving out the failure of the
      node allocation. */
  method AddFree(l: seq<Block>, b: Block) returns (r: seq<Block>)
    ensures r == CoalesceF(Insert(l, b))
  {
    r := InsertBlock(l, b);
    r := Coalesce(r);
  }

  /** Returning a block that is disjoint from a coalesced free list keeps
      it coalesced and in the page, adds exactly its bytes, and keeps
      every block that was disjoint from both apart from the result. */
  lemma AddFreeProps(l: seq<Block>, b: Block, others: seq<Block>)
    requires Coalesced(l) && InPage(l) && b.size > 0 && End(b) <= PAGE_SIZE && DisjointFromAll(b, l)
    requires forall j :: 0 <= j < |others| ==>
               others[j].size > 0 && DisjointFromAll(others[j], l) && Disjoint(others[j], b)
    ensures var r := CoalesceF(Insert(l, b));
      && Coalesced(r) && InPage(r) && Sum(r) == Sum(l) + b.size
      && forall j :: 0 <= j < |others| ==> DisjointFromAll(others[j], r)
  {
    var li := Insert(l, b);
    InsertOrdered(l, b);
    InsertSum(l, b);
    CoalesceSum(li);
    CoalesceCoalesced(li);
    InsertInPage(l, b);
    forall j | 0 <= j < |others| ensures DisjointFromAll(others[j], CoalesceF(li)) {
      InsertDisjoint(l, b, others[j]);
      CoalesceKeeps(li, others[j]);
    }
    InsertDisjoint(l, b, Block(PAGE_SIZE, 1));
    CoalesceKeeps(li, Block(PAGE_SIZE, 1));
  }

  /** First fit: the index of the first block, in list order, that can
      hold `size` bytes. */
  function FitIndex(l: seq<Block>, size: nat): (r: Option<nat>)
    ensures r.Some? ==> r.value < |l| && l[r.value].size >= size
                        && forall k :: 0 <= k < r.value ==> l[k].size < size
    ensures r.None? <==> forall k :: 0 <= k < |l| ==> l[k].size < size
  {
    if l == [] then None
    else if l[0].size >= size then Some(0)
    else match FitIndex(l[1..], size)
      case None => None
      case Some(i) => Some(i + 1)
  }

  /** The search loop of alloc_mem / ealloc_mem over one free list. */
  method FirstFit(l: seq<Block>, size: nat) returns (found: bool, i: nat)
    ensures found <==> FitIndex(l, size).Some?
    ensures found ==> i == FitIndex(l, size).value
  {
    i := 0;
    while i < |l|
      invariant i <= |l| && forall k :: 0 <= k < i ==> l[k].size < size
    {
      if l[i].size >= size {
        FitIndexIs(l, size, i);
        return true, i;
      }
      i := i + 1;
    }
    return false, 0;
  }

  lemma {:induction false} FitIndexIs(l: seq<Block>, size: nat, i: nat)
    requires i < |l| && l[i].size >= size && forall k :: 0 <= k < i ==> l[k].size < size
    ensures FitIndex(l, size) == Some(i)
  {
    if i > 0 {
      FitIndexIs(l[1..], size, i - 1);
    }
  }

  /** The sequence without its element `j`, as the list unlinking of
      remove_free_node and dealloc_mem leaves it. */
  function RemoveAt<T>(l: seq<T>, j: nat): (r: seq<T>)
    requires j < |l|
    ensures |r| == |l| - 1
    ensures forall k :: 0 <= k < |r| ==> r[k] == (if k < j then l[k] else l[k + 1])
  {
    l[..j] + l[j + 1..]
  }

  lemma {:induction false} SumRemoveAt(l: seq<Block>, j: nat)
    requires j < |l|
    ensures Sum(RemoveAt(l, j)) + l[j].size == Sum(l)
  {
    if j > 0 {
      assert RemoveAt(l, j)[1..] == RemoveAt(l[1..], j - 1);
      SumRemoveAt(l[1..], j - 1);
    } else {
      assert RemoveAt(l, 0) == l[1..];
    }
  }

  /** Taking `size` bytes from the front of block `i`: an exact fit
      removes the block, any other fit shrinks it from the front. */
  function Carve(l: seq<Block>, i: nat, size: nat): (r: seq<Block>)
    requires i < |l| && 0 < size <= l[i].size
    ensures Sum(r) + size == Sum(l)
    ensures l[i].size == size ==> r == RemoveAt(l, i)
    ensures l[i].size > size ==> r == l[i := Block(l[i].offset + size, l[i].size - size)]
  {
    if l[i].size == size then
      SumRemoveAt(l, i);
      RemoveAt(l, i)
    else
      SumUpdate(l, i, Block(l[i].offset + size, l[i].size - size));
      l[i := Block(l[i].offset + size, l[i].size - size)]
  }

  lemma {:induction false} SumUpdate(l: seq<Block>, i: nat, x: Block)
    requires i < |l|
    ensures Sum(l[i := x]) + l[i].size == Sum(l) + x.size
  {
    if i > 0 {
      assert l[i := x][1..] == l[1..][i - 1 := x];
      SumUpdate(l[1..], i - 1, x);
    }
  }

  /** Carving keeps the list coalesced and in the page. */
  lemma CarveCoalesced(l: seq<Block>, i: nat, size: nat)
    requires i < |l| && 0 < size <= l[i].size
    requires Coalesced(l) && InPage(l)
    ensures Coalesced(Carve(l, i, size)) && InPage(Carve(l, i, size))
  {
    if l[i].size == size {
      RemoveCoalesced(l, i);
    } else {
      var r := l[i := Block(l[i].offset + size, l[i].size - size)];
      forall k1, k2 | 0 <= k1 < k2 < |r| ensures End(r[k1]) < r[k2].offset {
        assert End(l[k1]) < l[k2].offset;
      }
    }
  }

  lemma RemoveCoalesced(l: seq<Block>, i: nat)
    requires i < |l| && Coalesced(l) && InPage(l)
    ensures Coalesced(RemoveAt(l, i)) && InPage(RemoveAt(l, i))
  {
    var r := RemoveAt(l, i);
    forall k1, k2 | 0 <= k1 < k2 < |r| ensures End(r[k1]) < r[k2].offset {
      var j1 := if k1 < i then k1 else k1 + 1;
      var j2 := if k2 < i then k2 else k2 + 1;
      assert r[k1] == l[j1] && r[k2] == l[j2] && End(l[j1]) < l[j2].offset;
    }
  }

  /** The carved piece is disjoint from what is left of the list. */
  lemma CarvePiece(l: seq<Block>, i: nat, size: nat)
    requires i < |l| && 0 < size <= l[i].size && Ordered(l)
    ensures DisjointFromAll(Block(l[i].offset, size), Carve(l, i, size))
  {
    var r := Carve(l, i, size);
    OrderedDisjoint(l);
    forall k | 0 <= k < |r| ensures Disjoint(Block(l[i].offset, size), r[k]) {
      if l[i].size == size {
        var k' := if k < i then k else k + 1;
        assert r[k] == l[k'] && Disjoint(l[i], l[k']);
      } else if k != i {
        assert r[k] == l[k] && Disjoint(l[i], l[k]);
      }
    }
  }

  /** A block disjoint from every block of the list before carving is
      disjoint from every block after it, and from the carved piece. */
  lemma CarveOthers(l: seq<Block>, i: nat, size: nat, c: Block)
    requires i < |l| && 0 < size <= l[i].size && DisjointFromAll(c, l)
    ensures DisjointFromAll(c, Carve(l, i, size)) && Disjoint(c, Block(l[i].offset, size))
  {
    var r := Carve(l, i, size);
    assert Disjoint(c, l[i]);
    forall k | 0 <= k < |r| ensures Disjoint(c, r[k]) {
      if l[i].size == size {
        var k' := if k < i then k else k + 1;
        assert r[k] == l[k'];
      } else if k != i {
        assert r[k] == l[k];
      }
    }
  }

  /** The picture of one page: the free list is sorted and coalesced,
      every free and every allocated range lies in the page, no two of
      them overlap, and together they hold the page's 4096 bytes. */
  predicate PageInvariant(free: seq<Block>, allocs: seq<Block>) {
    && Coalesced(free) && InPage(free) && InPage(allocs)
    && (forall i, j :: 0 <= i < j < |allocs| ==> Disjoint(allocs[i], allocs[j]))
    && (forall j :: 0 <= j < |allocs| ==> DisjointFromAll(allocs[j], free))
    && Sum(free) + Sum(allocs) == PAGE_SIZE
  }

  /** A fresh page: one free block `[0, 4096)` and no allocation. */
  lemma FreshPage()
    ensures PageInvariant([Block(0, PAGE_SIZE)], [])
  {
    assert Sum([Block(0, PAGE_SIZE)]) == PAGE_SIZE by {
      assert [Block(0, PAGE_SIZE)][1..] == [];
    }
  }

  /** Allocating from free block `i` keeps the page invariant: the piece
      taken from the front of the block becomes an allocated range. */
  lemma CarveKeeps(free: seq<Block>, allocs: seq<Block>, i: nat, size: nat)
    requires PageInvariant(free, allocs) && i < |free| && 0 < size <= free[i].size
    ensures PageInvariant(Carve(free, i, size), [Block(free[i].offset, size)] + allocs)
  {
    var r := Carve(free, i, size);
    var piece := Block(free[i].offset, size);
    var a2 := [piece] + allocs;
    CarveCoalesced(free, i, size);
    CarvePiece(free, i, size);
    forall j | 0 <= j < |allocs| ensures DisjointFromAll(allocs[j], r) && Disjoint(allocs[j], piece) {
      CarveOthers(free, i, size, allocs[j]);
    }
    assert forall j :: 0 < j < |a2| ==> a2[j] == allocs[j - 1];
    forall i1, j1 | 0 <= i1 < j1 < |a2| ensures Disjoint(a2[i1], a2[j1]) {
      if i1 > 0 { assert Disjoint(allocs[i1 - 1], allocs[j1 - 1]); }
      else { assert Disjoint(allocs[j1 - 1], piece); }
    }
    assert InPage(a2) by {
      assert End(free[i]) <= PAGE_SIZE;
    }
    assert a2[1..] == allocs;
  }

  /** Freeing allocated range `j` keeps the page invariant: the record
      goes and its bytes return to the free list. */
  lemma ReturnKeeps(free: seq<Block>, allocs: seq<Block>, j: nat)
    requires PageInvariant(free, allocs) && j < |allocs|
    ensures PageInvariant(CoalesceF(Insert(free, allocs[j])), RemoveAt(allocs, j))
  {
    var others := RemoveAt(allocs, j);
    ReturnedApart(free, allocs, j);
    AddFreeProps(free, allocs[j], others);
    SumRemoveAt(allocs, j);
    RemoveKeepsApart(allocs, j);
  }

  /** The remaining ranges of a page stay clear of the free list and of
      the range being returned. */
  lemma ReturnedApart(free: seq<Block>, allocs: seq<Block>, j: nat)
    requires PageInvariant(free, allocs) && j < |allocs|
    ensures var others := RemoveAt(allocs, j);
      forall k :: 0 <= k < |others| ==>
        others[k].size > 0 && DisjointFromAll(others[k], free) && Disjoint(others[k], allocs[j])
  {
    var others := RemoveAt(allocs, j);
    forall k | 0 <= k < |others|
      ensures others[k].size > 0 && DisjointFromAll(others[k], free) && Disjoint(others[k], allocs[j])
    {
      var k' := if k < j then k else k + 1;
      assert others[k] == allocs[k'];
      if k' < j { assert Disjoint(allocs[k'], allocs[j]); }
      else { assert Disjoint(allocs[j], allocs[k']); }
    }
  }

  /** Dropping one range keeps the others pairwise disjoint. */
  lemma RemoveKeepsApart(allocs: seq<Block>, j: nat)
    requires j < |allocs|
    requires forall i1, j1 :: 0 <= i1 < j1 < |allocs| ==> Disjoint(allocs[i1], allocs[j1])
    ensures var others := RemoveAt(allocs, j);
      forall i1, j1 :: 0 <= i1 < j1 < |others| ==> Disjoint(others[i1], others[j1])
  {
    var others := RemoveAt(allocs, j);
    forall i1, j1 | 0 <= i1 < j1 < |others| ensures Disjoint(others[i1], others[j1]) {
      var i' := if i1 < j then i1 else i1 + 1;
      var j' := if j1 < j then j1 else j1 + 1;
      assert others[i1] == allocs[i'] && others[j1] == allocs[j'] && i' < j';
    }
  }
}
