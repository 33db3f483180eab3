/** The block-list memory simulator: memory is a list of blocks lying
    back to back, each free or allocated to an id.  First fit splits a
    free block into an allocated prefix and a free remainder, freeing an
    id flips its block back, and adjacent free blocks are then merged.
    The linked list is modelled as a sequence of blocks. */
module Fragmentation {
  import opened Wrappers

  /** A block as make_block builds it; `used` is its allocated flag. */
  datatype Blk = Blk(start: int, size: int, used: bool, id: int)

  /** The blocks lie back to back, the first starting at `from` and the
      last ending at `to`. */
  predicate Tiles(l: seq<Blk>, from: int, to: int)
    decreases |l|
  {
    if l == [] then from == to
    else l[0].start == from && Tiles(l[1..], from + l[0].size, to)
  }

  /** The sum of all block sizes. */
  function Size(l: seq<Blk>): int {
    if l == [] then 0 else l[0].size + Size(l[1..])
  }

  /** No block has a negative size. */
  predicate NonNeg(l: seq<Blk>) {
    forall k :: 0 <= k < |l| ==> l[k].size >= 0
  }

  /** The free bytes, as total_free adds them up. */
  function FreeBytes(l: seq<Blk>): int {
    if l == [] then 0
    else (if l[0].used then 0 else l[0].size) + FreeBytes(l[1..])
  }

  /** The largest free block, as largest_free finds it: 0 when no block
      is free or none has a positive size. */
  function MaxFree(l: seq<Blk>): (r: int)
    ensures r >= 0
    ensures forall k :: 0 <= k < |l| && !l[k].used ==> l[k].size <= r
    ensures r == 0 || exists k :: 0 <= k < |l| && !l[k].used && l[k].size == r
  {
    if l == [] then 0
    else
      var m := MaxFree(l[1..]);
      assert forall k :: 1 <= k < |l| ==> l[1..][k - 1] == l[k];
      if !l[0].used && l[0].size > m then l[0].size else m
  }

  /** The allocated blocks, in list order. */
  function Allocated(l: seq<Blk>): (r: seq<Blk>)
    ensures |r| <= |l|
  {
    if l == [] then []
    else if l[0].used then [l[0]] + Allocated(l[1..])
    else Allocated(l[1..])
  }

  /** No two neighbouring blocks are both free. */
  predicate NoTwoFree(l: seq<Blk>)
    decreases |l|
  {
    |l| < 2 || ((l[0].used || l[1].used) && NoTwoFree(l[1..]))
  }

  /** External fragmentation: the free bytes outside the largest free
      block. */
  function ExternalFrag(l: seq<Blk>): (r: int)
    ensures NonNeg(l) ==> 0 <= r <= FreeBytes(l)
  {
    if NonNeg(l) then LargestAtMostTotal(l); FreeBytes(l) - MaxFree(l)
    else FreeBytes(l) - MaxFree(l)
  }

  // ---- Sums ----

  lemma {:induction false} TilesSize(l: seq<Blk>, from: int, to: int)
    requires Tiles(l, from, to)
    ensures Size(l) == to - from
  {
    if l != [] {
      TilesSize(l[1..], from + l[0].size, to);
    }
  }

  /** The largest free block holds no more than all free blocks together. */
  lemma {:induction false} LargestAtMostTotal(l: seq<Blk>)
    requires NonNeg(l)
    ensures MaxFree(l) <= FreeBytes(l)
  {
    if l != [] {
      var t := l[1..];
      assert forall k :: 0 <= k < |t| ==> t[k] == l[k + 1];
      LargestAtMostTotal(t);
      FreeAtLeastZero(t);
    }
  }

  lemma {:induction false} FreeAtLeastZero(l: seq<Blk>)
    requires NonNeg(l)
    ensures FreeBytes(l) >= 0
  {
    if l != [] {
      var t := l[1..];
      assert forall k :: 0 <= k < |t| ==> t[k] == l[k + 1];
      FreeAtLeastZero(t);
    }
  }

  lemma {:induction false} FreeBytesConcat(a: seq<Blk>, b: seq<Blk>)
    ensures FreeBytes(a + b) == FreeBytes(a) + FreeBytes(b)
  {
    if a == [] {
      assert a + b == b;
    } else {
      FreeBytesConcat(a[1..], b);
      assert (a + b)[1..] == a[1..] + b;
    }
  }

  /** One more block at the end, as the loop of total_free takes it. */
  lemma FreeBytesSnoc(l: seq<Blk>, b: Blk)
    ensures FreeBytes(l + [b]) == FreeBytes(l) + (if b.used then 0 else b.size)
  {
    FreeBytesConcat(l, [b]);
    assert [b][1..] == [];
  }

  /** One more block at the end, as the loop of largest_free takes it. */
  lemma MaxFreeSnoc(l: seq<Blk>, b: Blk)
    ensures MaxFree(l + [b]) == (if !b.used && b.size > MaxFree(l) then b.size else MaxFree(l))
  {
    var l' := l + [b];
    assert forall k :: 0 <= k < |l| ==> l'[k] == l[k];
    assert l'[|l|] == b;
    var r, m := MaxFree(l'), MaxFree(l);
    if r != 0 {
      var k :| 0 <= k < |l'| && !l'[k].used && l'[k].size == r;
    }
    if m != 0 {
      var k :| 0 <= k < |l| && !l[k].used && l[k].size == m;
      assert l'[k] == l[k];
    }
  }

  lemma {:induction false} AllocatedConcat(a: seq<Blk>, b: seq<Blk>)
    ensures Allocated(a + b) == Allocated(a) + Allocated(b)
  {
    if a == [] {
      assert a + b == b;
    } else {
      var t := a[1..];
      var h := if a[0].used then [a[0]] else [];
      assert Allocated(a + b) == h + Allocated(t + b) by {
        assert (a + b)[0] == a[0] && (a + b)[1..] == t + b;
      }
      assert Allocated(a) == h + Allocated(t);
      AllocatedConcat(t, b);
      assert h + (Allocated(t) + Allocated(b)) == (h + Allocated(t)) + Allocated(b);
    }
  }

  // ---- merge_free ----

  /** merge_free: a free block absorbs every free block right after it. */
  function MergeF(l: seq<Blk>): (r: seq<Blk>)
    ensures |r| <= |l| && (r == [] <==> l == [])
    ensures l != [] ==> r[0].start == l[0].start && r[0].used == l[0].used
    ensures l != [] && l[0].used ==> r[0] == l[0]
    decreases |l|
  {
    if |l| < 2 then l
    else if !l[0].used && !l[1].used then
      MergeF([l[0].(size := l[0].size + l[1].size)] + l[2..])
    else [l[0]] + MergeF(l[1..])
  }

  /** Unfolding MergeF on a list of at least two blocks. */
  lemma MergeHead(a: Blk, b: Blk, rest: seq<Blk>)
    ensures !a.used && !b.used ==>
      MergeF([a, b] + rest) == MergeF([a.(size := a.size + b.size)] + rest)
    ensures a.used || b.used ==> MergeF([a, b] + rest) == [a] + MergeF([b] + rest)
  {
    var l := [a, b] + rest;
    assert l[0] == a && l[1] == b && l[2..] == rest && l[1..] == [b] + rest;
  }

  /** Afterwards no two neighbouring blocks are both free. */
  lemma {:induction false} MergeNoTwoFree(l: seq<Blk>)
    ensures NoTwoFree(MergeF(l))
    decreases |l|
  {
    if |l| >= 2 {
      if !l[0].used && !l[1].used {
        MergeNoTwoFree([l[0].(size := l[0].size + l[1].size)] + l[2..]);
      } else {
        MergeNoTwoFree(l[1..]);
        var r := [l[0]] + MergeF(l[1..]);
        assert r[1..] == MergeF(l[1..]);
      }
    }
  }

  /** A list without two free neighbours is left as it is. */
  lemma {:induction false} MergeIdle(l: seq<Blk>)
    requires NoTwoFree(l)
    ensures MergeF(l) == l
    decreases |l|
  {
    if |l| >= 2 {
      MergeIdle(l[1..]);
      assert [l[0]] + l[1..] == l;
    }
  }

  /** Merging keeps the blocks back to back over the same range. */
  lemma {:induction false} MergeTiles(l: seq<Blk>, from: int, to: int)
    requires Tiles(l, from, to)
    ensures Tiles(MergeF(l), from, to)
    decreases |l|
  {
    if |l| >= 2 {
      if !l[0].used && !l[1].used {
        var m := [l[0].(size := l[0].size + l[1].size)] + l[2..];
        assert l[1..][1..] == l[2..] && m[1..] == l[2..];
        MergeTiles(m, from, to);
      } else {
        MergeTiles(l[1..], from + l[0].size, to);
        var r := [l[0]] + MergeF(l[1..]);
        assert r[1..] == MergeF(l[1..]);
      }
    }
  }

  /** Merging touches no allocated block, and no free byte is lost. */
  lemma {:induction false} MergeKeeps(l: seq<Blk>)
    ensures Allocated(MergeF(l)) == Allocated(l)
    ensures FreeBytes(MergeF(l)) == FreeBytes(l)
    decreases |l|
  {
    if |l| >= 2 {
      var a, b, rest := l[0], l[1], l[2..];
      assert l[1..][1..] == rest;
      if !a.used && !b.used {
        var m := [a.(size := a.size + b.size)] + rest;
        MergeKeeps(m);
        assert m[1..] == rest;
      } else {
        MergeKeeps(l[1..]);
        var r := [a] + MergeF(l[1..]);
        assert r[1..] == MergeF(l[1..]);
      }
    }
  }

  /** Merging keeps every size non-negative. */
  lemma {:induction false} MergeNonNeg(l: seq<Blk>)
    requires NonNeg(l)
    ensures NonNeg(MergeF(l))
    decreases |l|
  {
    if |l| >= 2 {
      if !l[0].used && !l[1].used {
        var m := [l[0].(size := l[0].size + l[1].size)] + l[2..];
        assert forall k :: 1 <= k < |m| ==> m[k] == l[k + 1];
        MergeNonNeg(m);
      } else {
        MergeNonNeg(l[1..]);
        var r := [l[0]] + MergeF(l[1..]);
        assert forall k :: 1 <= k < |r| ==> r[k] == MergeF(l[1..])[k - 1];
      }
    }
  }

  /** Block `cur` absorbs its successor. */
  function MergeAt(r: seq<Blk>, cur: nat): (r2: seq<Blk>)
    requires cur + 1 < |r|
    ensures |r2| == |r| - 1
  {
    r[..cur] + [r[cur].(size := r[cur].size + r[cur + 1].size)] + r[cur + 2..]
  }

  lemma MergeStep(l: seq<Blk>, r: seq<Blk>, cur: nat)
    requires cur + 1 < |r| && !r[cur].used && !r[cur + 1].used
    requires MergeF(l) == r[..cur] + MergeF(r[cur..])
    ensures var r2 := MergeAt(r, cur);
      MergeF(l) == r2[..cur] + MergeF(r2[cur..])
  {
    var m := r[cur].(size := r[cur].size + r[cur + 1].size);
    var r2 := MergeAt(r, cur);
    assert r2 == r[..cur] + [m] + r[cur + 2..];
    var s := r[cur..];
    assert s[0] == r[cur] && s[1] == r[cur + 1];
    assert s[2..] == r[cur + 2..];
    assert r2[..cur] == r[..cur];
    assert r2[cur..] == [m] + r[cur + 2..];
  }

  lemma SkipStep(l: seq<Blk>, r: seq<Blk>, cur: nat)
    requires cur + 1 < |r| && (r[cur].used || r[cur + 1].used)
    requires MergeF(l) == r[..cur] + MergeF(r[cur..])
    ensures MergeF(l) == r[..cur + 1] + MergeF(r[cur + 1..])
  {
    var s, t := r[cur..], r[cur + 1..];
    assert MergeF(s) == [r[cur]] + MergeF(t) by {
      assert |s| >= 2 && s[0] == r[cur] && s[1] == r[cur + 1];
      assert s[1..] == t;
    }
    calc {
      MergeF(l);
      r[..cur] + ([r[cur]] + MergeF(t));
      (r[..cur] + [r[cur]]) + MergeF(t);
      { assert r[..cur + 1] == r[..cur] + [r[cur]]; }
      r[..cur + 1] + MergeF(t);
    }
  }

  // ---- allocate_first_fit ----

  /** The first free block with at least `size` bytes. */
  function FitFree(l: seq<Blk>, size: int): (r: Option<nat>)
    ensures r.Some? ==> r.value < |l| && !l[r.value].used && l[r.value].size >= size
    ensures r.Some? ==> forall k :: 0 <= k < r.value ==> l[k].used || l[k].size < size
    ensures r.None? <==> forall k :: 0 <= k < |l| ==> l[k].used || l[k].size < size
  {
    if l == [] then None
    else if !l[0].used && l[0].size >= size then Some(0)
    else match FitFree(l[1..], size)
      case None => None
      case Some(i) => Some(i + 1)
  }

  lemma {:induction false} FitFreeIs(l: seq<Blk>, size: int, i: nat)
    requires i < |l| && !l[i].used && l[i].size >= size
    requires forall k :: 0 <= k < i ==> l[k].used || l[k].size < size
    ensures FitFree(l, size) == Some(i)
  {
    if i > 0 {
      FitFreeIs(l[1..], size, i - 1);
    }
  }

  /** Free block `b` given to `id`: whole on an exact fit, and otherwise
      split into an allocated prefix of `size` bytes and a free
      remainder. */
  function Piece(b: Blk, size: int, id: int): seq<Blk> {
    if b.size == size then [b.(used := true, id := id)]
    else [Blk(b.start, size, true, id), Blk(b.start + size, b.size - size, false, -1)]
  }

  /** Block `i` of the list given to `id`. */
  function Split(l: seq<Blk>, i: nat, size: int, id: int): (r: seq<Blk>)
    requires i < |l|
  {
    l[..i] + Piece(l[i], size, id) + l[i + 1..]
  }

  /** allocate_first_fit: the new list and the 1 or 0 it returns. */
  function AllocF(l: seq<Blk>, size: int, id: int): (r: (seq<Blk>, int))
    ensures r.1 == 1 <==> FitFree(l, size).Some?
    ensures r.1 == 0 <==> FitFree(l, size).None?
    ensures r.1 == 0 ==> r.0 == l
  {
    match FitFree(l, size)
    case None => (l, 0)
    case Some(i) => (Split(l, i, size, id), 1)
  }

  /** The piece is one allocated block of `size` bytes at the start of
      `b`, followed by the rest of `b` when that is not empty, and it
      covers exactly the bytes of `b`. */
  lemma PieceCounts(b: Blk, size: int, id: int)
    requires !b.used
    ensures Allocated(Piece(b, size, id)) == [Blk(b.start, size, true, id)]
    ensures FreeBytes(Piece(b, size, id)) == b.size - size
    ensures Size(Piece(b, size, id)) == b.size
    ensures Tiles(Piece(b, size, id), b.start, b.start + b.size)
  {
    var p := Piece(b, size, id);
    if b.size == size {
      assert p[1..] == [];
      Single(p[0]);
    } else {
      assert p[1..] == [p[1]];
      assert Size([p[1]]) == p[1].size by { assert [p[1]][1..] == []; }
      Pair(p[0], p[1]);
    }
  }

  lemma {:induction false} TilesConcat(a: seq<Blk>, b: seq<Blk>, from: int, to: int)
    ensures Tiles(a + b, from, to) <==> Tiles(a, from, from + Size(a)) && Tiles(b, from + Size(a), to)
  {
    if a == [] {
      assert a + b == b;
    } else {
      TilesConcat(a[1..], b, from + a[0].size, to);
      assert (a + b)[1..] == a[1..] + b;
    }
  }

  lemma Tiles1(b: Blk, from: int, to: int)
    ensures Tiles([b], from, to) <==> b.start == from && to == from + b.size
  {
    assert [b][1..] == [];
  }

  lemma Tiles2(b: Blk, c: Blk, from: int, to: int)
    ensures Tiles([b, c], from, to) <==> b.start == from && c.start == from + b.size && to == c.start + c.size
  {
    assert [b, c][1..] == [c];
    Tiles1(c, from + b.size, to);
  }

  /** The allocation keeps the blocks back to back over the same range. */
  lemma AllocTiles(l: seq<Blk>, size: int, id: int, from: int, to: int)
    requires Tiles(l, from, to)
    ensures Tiles(AllocF(l, size, id).0, from, to)
  {
    if FitFree(l, size).Some? {
      var i := FitFree(l, size).value;
      var b := l[i];
      var pre, mid, post := l[..i], Piece(b, size, id), l[i + 1..];
      Splice(l, i);
      PieceCounts(b, size, id);
      var at := from + Size(pre);
      TilesConcat(pre + [b], post, from, to);
      TilesConcat(pre, [b], from, from + Size(pre + [b]));
      TilesConcat(pre + mid, post, from, to);
      TilesConcat(pre, mid, from, from + Size(pre + mid));
      Tiles1(b, at, at + b.size);
      assert Size([b]) == b.size by { assert [b][1..] == []; }
      SizeConcat(pre, [b]);
      SizeConcat(pre, mid);
    }
  }

  lemma {:induction false} SizeConcat(a: seq<Blk>, b: seq<Blk>)
    ensures Size(a + b) == Size(a) + Size(b)
  {
    if a == [] {
      assert a + b == b;
    } else {
      SizeConcat(a[1..], b);
      assert (a + b)[1..] == a[1..] + b;
    }
  }

  /** A successful allocation makes exactly one new allocated block, of
      `size` bytes at the start of the chosen free block and owned by
      `id`, and takes `size` bytes from the free ones. */
  lemma AllocKeeps(l: seq<Blk>, size: int, id: int)
    requires FitFree(l, size).Some?
    ensures var i := FitFree(l, size).value;
      var r := AllocF(l, size, id).0;
      && Allocated(r) == Allocated(l[..i]) + [Blk(l[i].start, size, true, id)] + Allocated(l[i + 1..])
      && Allocated(l) == Allocated(l[..i]) + Allocated(l[i + 1..])
      && FreeBytes(r) == FreeBytes(l) - size
  {
    SplitKeeps(l, FitFree(l, size).value, size, id);
  }

  /** Splitting free block `i` as the allocation does. */
  lemma SplitKeeps(l: seq<Blk>, i: nat, size: int, id: int)
    requires i < |l| && !l[i].used
    ensures Allocated(Split(l, i, size, id)) == Allocated(l[..i]) + [Blk(l[i].start, size, true, id)] + Allocated(l[i + 1..])
    ensures Allocated(l) == Allocated(l[..i]) + Allocated(l[i + 1..])
    ensures FreeBytes(Split(l, i, size, id)) == FreeBytes(l) - size
  {
    Splice(l, i);
    PieceKeeps(l[..i], l[i], l[i + 1..], size, id);
  }

  /** The same on the three parts of the list. */
  lemma PieceKeeps(pre: seq<Blk>, b: Blk, post: seq<Blk>, size: int, id: int)
    requires !b.used
    ensures Allocated(pre + Piece(b, size, id) + post) == Allocated(pre) + [Blk(b.start, size, true, id)] + Allocated(post)
    ensures Allocated(pre + [b] + post) == Allocated(pre) + Allocated(post)
    ensures FreeBytes(pre + Piece(b, size, id) + post) == FreeBytes(pre + [b] + post) - size
  {
    var p := Piece(b, size, id);
    assert Allocated(pre + p + post) == Allocated(pre) + [Blk(b.start, size, true, id)] + Allocated(post) by {
      PieceCounts(b, size, id);
      MiddleAllocated(pre, p, post, [Blk(b.start, size, true, id)]);
    }
    assert Allocated(pre + [b] + post) == Allocated(pre) + Allocated(post) by {
      Single(b);
      MiddleAllocated(pre, [b], post, []);
      assert Allocated(pre) + [] + Allocated(post) == Allocated(pre) + Allocated(post);
    }
    assert FreeBytes(pre + p + post) == FreeBytes(pre + [b] + post) - size by {
      PieceCounts(b, size, id);
      Single(b);
      MiddleFree(pre, p, post);
      MiddleFree(pre, [b], post);
    }
  }

  lemma MiddleAllocated(pre: seq<Blk>, mid: seq<Blk>, post: seq<Blk>, m: seq<Blk>)
    requires Allocated(mid) == m
    ensures Allocated(pre + mid + post) == Allocated(pre) + m + Allocated(post)
  {
    Middle(pre, mid, post);
  }

  lemma MiddleFree(pre: seq<Blk>, mid: seq<Blk>, post: seq<Blk>)
    ensures FreeBytes(pre + mid + post) == FreeBytes(pre) + FreeBytes(mid) + FreeBytes(post)
  {
    Middle(pre, mid, post);
  }

  /** Counting over a list in three parts. */
  lemma Middle(pre: seq<Blk>, mid: seq<Blk>, post: seq<Blk>)
    ensures Allocated(pre + mid + post) == Allocated(pre) + Allocated(mid) + Allocated(post)
    ensures FreeBytes(pre + mid + post) == FreeBytes(pre) + FreeBytes(mid) + FreeBytes(post)
  {
    AllocatedConcat(pre + mid, post);
    AllocatedConcat(pre, mid);
    FreeBytesConcat(pre + mid, post);
    FreeBytesConcat(pre, mid);
  }

  lemma Single(b: Blk)
    ensures Allocated([b]) == (if b.used then [b] else [])
    ensures FreeBytes([b]) == (if b.used then 0 else b.size)
  {
    assert [b][1..] == [];
  }

  lemma Pair(b: Blk, c: Blk)
    ensures Allocated([b, c]) == (if b.used then [b] else []) + (if c.used then [c] else [])
    ensures FreeBytes([b, c]) == (if b.used then 0 else b.size) + (if c.used then 0 else c.size)
  {
    assert [b, c][1..] == [c];
    Single(c);
  }

  /** The allocation keeps every size non-negative when the request is. */
  lemma AllocNonNeg(l: seq<Blk>, size: int, id: int)
    requires NonNeg(l) && size >= 0
    ensures NonNeg(AllocF(l, size, id).0)
  {
    if FitFree(l, size).Some? {
      var i := FitFree(l, size).value;
      var p := Piece(l[i], size, id);
      var r := AllocF(l, size, id).0;
      assert r == l[..i] + p + l[i + 1..];
      forall k | 0 <= k < |r| ensures r[k].size >= 0 {
        if k >= i + |p| {
          assert r[k] == l[k - |p| + 1];
        } else if k >= i {
          assert r[k] == p[k - i];
        }
      }
    }
  }

  // ---- deallocate ----

  /** The first allocated block owned by `id`. */
  function FindAlloc(l: seq<Blk>, id: int): (r: Option<nat>)
    ensures r.Some? ==> r.value < |l| && l[r.value].used && l[r.value].id == id
    ensures r.Some? ==> forall k :: 0 <= k < r.value ==> !(l[k].used && l[k].id == id)
    ensures r.None? <==> forall k :: 0 <= k < |l| ==> !(l[k].used && l[k].id == id)
  {
    if l == [] then None
    else if l[0].used && l[0].id == id then Some(0)
    else match FindAlloc(l[1..], id)
      case None => None
      case Some(j) => Some(j + 1)
  }

  lemma {:induction false} FindAllocIs(l: seq<Blk>, id: int, j: nat)
    requires j < |l| && l[j].used && l[j].id == id
    requires forall k :: 0 <= k < j ==> !(l[k].used && l[k].id == id)
    ensures FindAlloc(l, id) == Some(j)
  {
    if j > 0 {
      FindAllocIs(l[1..], id, j - 1);
    }
  }

  /** The search loop of deallocate: the owner's block becomes free with
      id -1; an unknown id changes nothing. */
  function FreeF(l: seq<Blk>, id: int): (r: seq<Blk>)
    ensures |r| == |l|
    ensures FindAlloc(l, id).None? ==> r == l
  {
    match FindAlloc(l, id)
    case None => l
    case Some(j) => l[j := l[j].(used := false, id := -1)]
  }

  /** deallocate: free the owner's block, then merge_free. */
  function DeallocF(l: seq<Blk>, id: int): (r: seq<Blk>)
    ensures NoTwoFree(r)
  {
    MergeNoTwoFree(FreeF(l, id));
    MergeF(FreeF(l, id))
  }

  /** Freeing keeps the blocks back to back over the same range. */
  lemma {:induction false} FreeTiles(l: seq<Blk>, id: int, from: int, to: int)
    requires Tiles(l, from, to)
    ensures Tiles(FreeF(l, id), from, to)
    decreases |l|
  {
    if l != [] && !(l[0].used && l[0].id == id) && FindAlloc(l, id).Some? {
      FreeTiles(l[1..], id, from + l[0].size, to);
      var j := FindAlloc(l, id).value;
      assert FindAlloc(l[1..], id) == Some(j - 1);
      assert FreeF(l, id)[1..] == FreeF(l[1..], id);
    }
  }

  lemma DeallocTiles(l: seq<Blk>, id: int, from: int, to: int)
    requires Tiles(l, from, to)
    ensures Tiles(DeallocF(l, id), from, to)
  {
    FreeTiles(l, id, from, to);
    MergeTiles(FreeF(l, id), from, to);
  }

  /** An unknown id changes no allocated block. */
  lemma DeallocUnknown(l: seq<Blk>, id: int)
    requires FindAlloc(l, id).None?
    ensures Allocated(DeallocF(l, id)) == Allocated(l)
    ensures FreeBytes(DeallocF(l, id)) == FreeBytes(l)
  {
    MergeKeeps(l);
  }

  /** A known id loses exactly its first block... */
  lemma DeallocKnown(l: seq<Blk>, id: int)
    requires FindAlloc(l, id).Some?
    ensures var j := FindAlloc(l, id).value;
      Allocated(DeallocF(l, id)) == Allocated(l[..j]) + Allocated(l[j + 1..])
    ensures var j := FindAlloc(l, id).value;
      Allocated(l) == Allocated(l[..j]) + [l[j]] + Allocated(l[j + 1..])
  {
    var j := FindAlloc(l, id).value;
    MergeKeeps(FreeF(l, id));
    Unused(l, j);
    Around(l, j);
    Single(l[j]);
  }

  /** Freeing block `j` takes it, and only it, out of the allocated ones. */
  lemma Unused(l: seq<Blk>, j: nat)
    requires j < |l|
    ensures var fl := l[j := l[j].(used := false, id := -1)];
      Allocated(fl) == Allocated(l[..j]) + Allocated(l[j + 1..])
    ensures l[j].used ==>
      FreeBytes(l[j := l[j].(used := false, id := -1)]) == FreeBytes(l) + l[j].size
  {
    var f := l[j].(used := false, id := -1);
    var fl := l[j := f];
    assert fl[..j] == l[..j] && fl[j + 1..] == l[j + 1..] && fl[j] == f;
    Around(fl, j);
    Around(l, j);
    Single(f);
    Single(l[j]);
    var a, b := Allocated(l[..j]), Allocated(l[j + 1..]);
    assert a + [] + b == a + b;
  }

  /** Counting over a list split around block `j`. */
  lemma Around(l: seq<Blk>, j: nat)
    requires j < |l|
    ensures Allocated(l) == Allocated(l[..j]) + Allocated([l[j]]) + Allocated(l[j + 1..])
    ensures FreeBytes(l) == FreeBytes(l[..j]) + FreeBytes([l[j]]) + FreeBytes(l[j + 1..])
  {
    var pre, mid, post := l[..j], [l[j]], l[j + 1..];
    Splice(l, j);
    AllocatedConcat(pre + mid, post);
    AllocatedConcat(pre, mid);
    FreeBytesConcat(pre + mid, post);
    FreeBytesConcat(pre, mid);
  }

  lemma Splice<T>(l: seq<T>, j: nat)
    requires j < |l|
    ensures l[..j] + [l[j]] + l[j + 1..] == l
  {
  }

  /** ... and its bytes become free. */
  lemma DeallocFrees(l: seq<Blk>, id: int)
    requires FindAlloc(l, id).Some?
    ensures FreeBytes(DeallocF(l, id)) == FreeBytes(l) + l[FindAlloc(l, id).value].size
  {
    var j := FindAlloc(l, id).value;
    MergeKeeps(FreeF(l, id));
    Unused(l, j);
  }

  /** Freeing and merging keep every size non-negative. */
  lemma DeallocNonNeg(l: seq<Blk>, id: int)
    requires NonNeg(l)
    ensures NonNeg(DeallocF(l, id))
  {
    MergeNonNeg(FreeF(l, id));
  }

  /** The simulated memory; `blocks` is the list from `head` on, and
      `totalMem` the size it was made with. */
  class Memory {
    const totalMem: int
    var blocks: seq<Blk>

    ghost predicate Valid()
      reads this
    {
      Tiles(blocks, 0, totalMem)
    }

    /** make_block(0, total_mem, 0, -1) as the whole of memory. */
    constructor (total: int)
      ensures Valid() && totalMem == total && blocks == [Blk(0, total, false, -1)]
    {
      totalMem := total;
      blocks := [Blk(0, total, false, -1)];
      new;
      assert blocks[1..] == [];
    }

    /** merge_free. */
    method MergeFree()
      requires Valid()
      modifies this
      ensures Valid() && blocks == MergeF(old(blocks))
    {
      MergeTiles(blocks, 0, totalMem);
      ghost var l := blocks;
      var r := blocks;
      var cur: nat := 0;
      while cur + 1 < |r|
        invariant cur <= |r|
        invariant MergeF(l) == r[..cur] + MergeF(r[cur..])
        decreases |r| - cur
      {
        r, cur := MergeOne(l, r, cur);
      }
      assert r[..cur] + r[cur..] == r;
      blocks := r;
    }

    /** allocate_first_fit. */
    method AllocateFirstFit(size: int, id: int) returns (ok: int)
      requires Valid()
      modifies this
      ensures Valid() && (blocks, ok) == AllocF(old(blocks), size, id)
    {
      AllocTiles(blocks, size, id, 0, totalMem);
      var i := 0;
      while i < |blocks|
        invariant i <= |blocks|
        invariant forall k :: 0 <= k < i ==> blocks[k].used || blocks[k].size < size
      {
        if !blocks[i].used && blocks[i].size >= size {
          FitFreeIs(blocks, size, i);
          blocks := Split(blocks, i, size, id);
          return 1;
        }
        i := i + 1;
      }
      return 0;
    }

    /** deallocate. */
    method Deallocate(id: int)
      requires Valid()
      modifies this
      ensures Valid() && blocks == DeallocF(old(blocks), id)
    {
      FreeTiles(blocks, id, 0, totalMem);
      var j := 0;
      while j < |blocks|
        invariant j <= |blocks|
        invariant forall k :: 0 <= k < j ==> !(blocks[k].used && blocks[k].id == id)
      {
        if blocks[j].used && blocks[j].id == id {
          FindAllocIs(blocks, id, j);
          blocks := blocks[j := blocks[j].(used := false, id := -1)];
          break;
        }
        j := j + 1;
      }
      MergeFree();
    }

    /** total_free. */
    method TotalFree() returns (sum: int)
      ensures sum == FreeBytes(blocks)
    {
      sum := 0;
      var i := 0;
      while i < |blocks|
        invariant i <= |blocks| && sum == FreeBytes(blocks[..i])
      {
        assert blocks[..i + 1] == blocks[..i] + [blocks[i]];
        FreeBytesSnoc(blocks[..i], blocks[i]);
        if !blocks[i].used {
          sum := sum + blocks[i].size;
        }
        i := i + 1;
      }
      assert blocks[..i] == blocks;
    }

    /** largest_free. */
    method LargestFree() returns (mx: int)
      ensures mx == MaxFree(blocks)
    {
      mx := 0;
      var i := 0;
      while i < |blocks|
        invariant i <= |blocks| && mx == MaxFree(blocks[..i])
      {
        assert blocks[..i + 1] == blocks[..i] + [blocks[i]];
        MaxFreeSnoc(blocks[..i], blocks[i]);
        if !blocks[i].used && blocks[i].size > mx {
          mx := blocks[i].size;
        }
        i := i + 1;
      }
      assert blocks[..i] == blocks;
    }
  }

  /** One iteration of the merge loop. */
  method MergeOne(ghost l: seq<Blk>, r: seq<Blk>, cur: nat) returns (r': seq<Blk>, cur': nat)
    requires cur + 1 < |r| && MergeF(l) == r[..cur] + MergeF(r[cur..])
    ensures cur' <= |r'| && MergeF(l) == r'[..cur'] + MergeF(r'[cur'..])
    ensures |r'| - cur' < |r| - cur
  {
    if !r[cur].used && !r[cur + 1].used {
      MergeStep(l, r, cur);
      r', cur' := MergeAt(r, cur), cur;
    } else {
      SkipStep(l, r, cur);
      r', cur' := r, cur + 1;
    }
  }
}
