/** allocate as the seating program runs it: the rooms of one exam slot
    are a dict of lists of room records that the passes update in place,
    and the rolls of a subject are a queue its rooms pop from.  Each
    method is proved to leave the rooms, and to return the records, that
    the value-level definitions of SeatAlloc describe. */
module SeatHall {
  import opened Wrappers
  import StableSort
  import opened SeatAlloc

  /** `(a ++ [x] ++ b)` is `a ++ b` with the head of `b` replaced. */
  lemma Splice<T>(a: seq<T>, b: seq<T>, x: T)
    requires |b| > 0
    ensures (a + b)[|a| := x] == a + [x] + b[1..]
  {
    assert forall j :: 0 <= j < |a| + |b| ==> (a + b)[|a| := x][j] == (a + [x] + b[1..])[j];
  }

  /** One more room's turn extends a pass. */
  lemma FillStep(rooms: seq<Room>, mode: Mode, subj: string, tag: Option<string>, rolls: seq<string>, i: int)
    requires 0 <= i < |rooms|
    ensures var p := Fill(rooms[..i], mode, subj, tag, rolls);
      var s := Seat(rooms[i], mode, subj, tag, p.rest);
      Fill(rooms[..i + 1], mode, subj, tag, rolls) == Pass(p.rooms + [s.room], p.recs + s.recs, s.rest)
  {
    assert rooms[..i + 1][..i] == rooms[..i];
  }

  /** One more block's pass extends the all-rooms pass. */
  lemma FillAllStep(blocks: seq<Block>, mode: Mode, subj: string, rolls: seq<string>, k: int)
    requires 0 <= k < |blocks|
    ensures var p := FillAll(blocks[..k], mode, subj, rolls);
      var q := Fill(blocks[k].rooms, mode, subj, None, p.rest);
      FillAll(blocks[..k + 1], mode, subj, rolls) == Spread(p.blocks + [Block(blocks[k].name, q.rooms)], p.recs + q.recs, q.rest)
  {
    assert blocks[..k + 1][..k] == blocks[..k];
  }

  /** One more subject extends the run. */
  lemma AllocAllStep(blocks: seq<Block>, mode: Mode, skipEmpty: bool, subs: seq<Subject>, i: int)
    requires 0 <= i < |subs|
    ensures var o := AllocAll(blocks, mode, skipEmpty, subs[..i]);
      var p := AllocOne(o.blocks, mode, skipEmpty, subs[i]);
      AllocAll(blocks, mode, skipEmpty, subs[..i + 1]) == Outcome(p.blocks, o.recs + p.recs)
  {
    assert subs[..i + 1][..i] == subs[..i];
  }

  /** The blocks while block `k` is being filled: its first `i` rooms have
      taken their turns. */
  ghost function Partial(b0: seq<Block>, k: int, mode: Mode, subj: string, tag: Option<string>, rolls: seq<string>, i: int): seq<Block>
    requires 0 <= k < |b0| && 0 <= i <= |b0[k].rooms|
  {
    var r0 := b0[k].rooms;
    b0[k := Block(b0[k].name, Fill(r0[..i], mode, subj, tag, rolls).rooms + r0[i..])]
  }

  lemma PartialStart(b0: seq<Block>, k: int, mode: Mode, subj: string, tag: Option<string>, rolls: seq<string>)
    requires 0 <= k < |b0|
    ensures Partial(b0, k, mode, subj, tag, rolls, 0) == b0
    ensures Fill(b0[k].rooms[..0], mode, subj, tag, rolls) == Pass([], [], rolls)
  {
    var r0 := b0[k].rooms;
    assert r0[..0] == [];
    assert [] + r0[0..] == r0;
  }

  /** Room `i`'s turn takes the blocks from `i` rooms filled to `i + 1`. */
  lemma PartialStep(b0: seq<Block>, k: int, mode: Mode, subj: string, tag: Option<string>, rolls: seq<string>, i: int)
    requires 0 <= k < |b0| && 0 <= i < |b0[k].rooms|
    ensures var b := Partial(b0, k, mode, subj, tag, rolls, i);
      var p := Fill(b0[k].rooms[..i], mode, subj, tag, rolls);
      var s := Seat(b[k].rooms[i], mode, subj, tag, p.rest);
      |b| == |b0| && |b[k].rooms| == |b0[k].rooms|
      && b[k := b[k].(rooms := b[k].rooms[i := s.room])] == Partial(b0, k, mode, subj, tag, rolls, i + 1)
      && Fill(b0[k].rooms[..i + 1], mode, subj, tag, rolls) == Pass(p.rooms + [s.room], p.recs + s.recs, s.rest)
    ensures Fill(b0[k].rooms[..i], mode, subj, tag, rolls).rest == [] ==>
      Partial(b0, k, mode, subj, tag, rolls, i + 1) == Partial(b0, k, mode, subj, tag, rolls, i)
      && Fill(b0[k].rooms[..i + 1], mode, subj, tag, rolls).recs == Fill(b0[k].rooms[..i], mode, subj, tag, rolls).recs
      && Fill(b0[k].rooms[..i + 1], mode, subj, tag, rolls).rest == []
  {
    var r0 := b0[k].rooms;
    var p := Fill(r0[..i], mode, subj, tag, rolls);
    var b := Partial(b0, k, mode, subj, tag, rolls, i);
    assert b[k].rooms == p.rooms + r0[i..];
    assert b[k].rooms[i] == r0[i];
    var s := Seat(r0[i], mode, subj, tag, p.rest);
    FillStep(r0, mode, subj, tag, rolls, i);
    Splice(p.rooms, r0[i..], s.room);
    assert r0[i..][1..] == r0[i + 1..];
    if p.rest == [] {
      assert s.room == r0[i] && p.recs + [] == p.recs;
      assert b[k].rooms[i := r0[i]] == b[k].rooms;
      assert b[k := b[k].(rooms := b[k].rooms)] == b;
    }
  }

  lemma PartialEnd(b0: seq<Block>, k: int, mode: Mode, subj: string, tag: Option<string>, rolls: seq<string>)
    requires 0 <= k < |b0|
    ensures var q := Fill(b0[k].rooms, mode, subj, tag, rolls);
      Partial(b0, k, mode, subj, tag, rolls, |b0[k].rooms|) == b0[k := Block(b0[k].name, q.rooms)]
      && Fill(b0[k].rooms[..|b0[k].rooms|], mode, subj, tag, rolls) == q
  {
    var r0 := b0[k].rooms;
    assert r0[..|r0|] == r0;
    assert r0[|r0|..] == [];
    assert Fill(r0, mode, subj, tag, rolls).rooms + [] == Fill(r0, mode, subj, tag, rolls).rooms;
  }

  /** The blocks while the all-rooms pass runs: the first `k` blocks have
      taken their turns. */
  ghost function Spreading(b0: seq<Block>, mode: Mode, subj: string, rolls: seq<string>, k: int): seq<Block>
    requires 0 <= k <= |b0|
  {
    FillAll(b0[..k], mode, subj, rolls).blocks + b0[k..]
  }

  lemma SpreadingStart(b0: seq<Block>, mode: Mode, subj: string, rolls: seq<string>)
    ensures Spreading(b0, mode, subj, rolls, 0) == b0
    ensures FillAll(b0[..0], mode, subj, rolls) == Spread([], [], rolls)
  {
    assert b0[..0] == [];
    assert [] + b0[0..] == b0;
  }

  /** Block `k`'s turn takes the blocks from `k` blocks done to `k + 1`;
      with the queue empty it changes nothing. */
  lemma SpreadingStep(b0: seq<Block>, mode: Mode, subj: string, rolls: seq<string>, k: int)
    requires 0 <= k < |b0|
    ensures var b := Spreading(b0, mode, subj, rolls, k);
      var p := FillAll(b0[..k], mode, subj, rolls);
      var q := Fill(b[k].rooms, mode, subj, None, p.rest);
      |b| == |b0|
      && b[k := Block(b[k].name, q.rooms)] == Spreading(b0, mode, subj, rolls, k + 1)
      && FillAll(b0[..k + 1], mode, subj, rolls) == Spread(p.blocks + [Block(b[k].name, q.rooms)], p.recs + q.recs, q.rest)
    ensures FillAll(b0[..k], mode, subj, rolls).rest == [] ==>
      Spreading(b0, mode, subj, rolls, k) == Spreading(b0, mode, subj, rolls, k + 1)
      && FillAll(b0[..k + 1], mode, subj, rolls).recs == FillAll(b0[..k], mode, subj, rolls).recs
      && FillAll(b0[..k + 1], mode, subj, rolls).rest == []
  {
    var p := FillAll(b0[..k], mode, subj, rolls);
    var b := Spreading(b0, mode, subj, rolls, k);
    assert b[k] == b0[k];
    var q := Fill(b0[k].rooms, mode, subj, None, p.rest);
    FillAllStep(b0, mode, subj, rolls, k);
    Splice(p.blocks, b0[k..], Block(b0[k].name, q.rooms));
    assert b0[k..][1..] == b0[k + 1..];
    if p.rest == [] {
      FillNothing(b0[k].rooms, mode, subj, None);
      assert Block(b0[k].name, q.rooms) == b0[k];
      assert b[k := b0[k]] == b;
      assert p.recs + [] == p.recs;
    }
  }

  lemma SpreadingEnd(b0: seq<Block>, mode: Mode, subj: string, rolls: seq<string>)
    ensures Spreading(b0, mode, subj, rolls, |b0|) == FillAll(b0, mode, subj, rolls).blocks
    ensures FillAll(b0[..|b0|], mode, subj, rolls) == FillAll(b0, mode, subj, rolls)
  {
    assert b0[..|b0|] == b0;
    assert b0[|b0|..] == [];
  }

  /** The rooms of one exam slot, block by block. */
  class Hall {
    var blocks: seq<Block>

    /** `{b: [copy.deepcopy(r) for r in template[b]] ...}`: a private copy
        of the template. */
    constructor (template: seq<Block>)
      ensures blocks == template
    {
      blocks := template;
    }

    /** One room's turn: `can = min(limit, remaining, needed)`; when it is
        positive the room pops that many rolls, loses that many remaining
        seats and lists the subject, and a record is made. */
    method SeatRoom(k: int, i: int, mode: Mode, subj: string, tag: Option<string>, rolls: seq<string>)
      returns (recs: seq<Record>, rest: seq<string>)
      requires 0 <= k < |blocks| && 0 <= i < |blocks[k].rooms|
      modifies this
      ensures var s := Seat(old(blocks)[k].rooms[i], mode, subj, tag, rolls);
        blocks == old(blocks)[k := old(blocks)[k].(rooms := old(blocks)[k].rooms[i := s.room])]
        && recs == s.recs && rest == s.rest
    {
      var r := blocks[k].rooms[i];
      var can := Min(Min(Limit(mode, r.eff), r.rem), |rolls|);
      if can <= 0 {
        assert blocks[k].rooms[i := r] == blocks[k].rooms;
        assert blocks[k].(rooms := blocks[k].rooms) == blocks[k];
        assert blocks[k := blocks[k]] == blocks;
        recs, rest := [], rolls;
      } else {
        var taken := rolls[..can];
        assert |taken| == can;
        var b := if tag == None then r.block else tag.value;
        var r' := r.(rem := r.rem - |taken|, placed := r.placed + [Placed(subj, taken)]);
        blocks := blocks[k := blocks[k].(rooms := blocks[k].rooms[i := r'])];
        recs := [Record(subj, b, r.name, taken, |taken|)];
        rest := rolls[can..];
      }
    }

    /** The rooms of block `k` take their turns; once the queue is empty
        the rooms that are left are passed over. */
    method FillBlock(k: int, mode: Mode, subj: string, tag: Option<string>, rolls: seq<string>)
      returns (recs: seq<Record>, rest: seq<string>)
      requires 0 <= k < |blocks|
      modifies this
      ensures var q := Fill(old(blocks)[k].rooms, mode, subj, tag, rolls);
        blocks == old(blocks)[k := Block(old(blocks)[k].name, q.rooms)] && recs == q.recs && rest == q.rest
    {
      ghost var b0 := blocks;
      recs, rest := [], rolls;
      var i, n := 0, |blocks[k].rooms|;
      PartialStart(b0, k, mode, subj, tag, rolls);
      while i < n
        invariant n == |b0[k].rooms| && 0 <= i <= n
        invariant blocks == Partial(b0, k, mode, subj, tag, rolls, i)
        invariant recs == Fill(b0[k].rooms[..i], mode, subj, tag, rolls).recs
        invariant rest == Fill(b0[k].rooms[..i], mode, subj, tag, rolls).rest
        decreases |b0[k].rooms| - i
      {
        PartialStep(b0, k, mode, subj, tag, rolls, i);
        if |rest| > 0 {
          var rs, rest' := SeatRoom(k, i, mode, subj, tag, rest);
          recs, rest := recs + rs, rest';
        }
        i := i + 1;
      }
      PartialEnd(b0, k, mode, subj, tag, rolls);
      ghost var q := Fill(b0[k].rooms, mode, subj, tag, rolls);
      assert recs == q.recs && rest == q.rest;
    }

    /** The all-rooms pass: every room of every block in turn, each record
        labelled with the room's own block; once the queue is empty the
        blocks that are left are passed over. */
    method FillEvery(mode: Mode, subj: string, rolls: seq<string>) returns (recs: seq<Record>, rest: seq<string>)
      modifies this
      ensures var p := FillAll(old(blocks), mode, subj, rolls);
        blocks == p.blocks && recs == p.recs && rest == p.rest
    {
      ghost var b0 := blocks;
      recs, rest := [], rolls;
      var k := 0;
      SpreadingStart(b0, mode, subj, rolls);
      while k < |blocks|
        invariant 0 <= k <= |b0|
        invariant blocks == Spreading(b0, mode, subj, rolls, k)
        invariant recs == FillAll(b0[..k], mode, subj, rolls).recs
        invariant rest == FillAll(b0[..k], mode, subj, rolls).rest
      {
        SpreadingStep(b0, mode, subj, rolls, k);
        if |rest| > 0 {
          var rs, rest' := FillBlock(k, mode, subj, None, rest);
          recs, rest := recs + rs, rest';
        }
        k := k + 1;
      }
      SpreadingEnd(b0, mode, subj, rolls);
    }

    /** The single-block attempt's search: the blocks by descending
        remaining seats, the first whose free seats cover the need (and,
        when `skipEmpty`, that has remaining seats). */
    method FindBlock(mode: Mode, need: int, skipEmpty: bool) returns (pick: Option<int>)
      ensures pick == Choose(blocks, mode, need, skipEmpty)
    {
      var order := Order(blocks);
      var i := 0;
      pick := None;
      while i < |order| && pick == None
        invariant 0 <= i <= |order|
        invariant pick == None ==> FirstFit(blocks, order, 0, mode, need, skipEmpty) == FirstFit(blocks, order, i, mode, need, skipEmpty)
        invariant pick.Some? ==> 0 < i && FirstFit(blocks, order, 0, mode, need, skipEmpty) == Some(i - 1) && pick == Some(order[i - 1])
      {
        var b := order[i];
        assert FirstFit(blocks, order, i, mode, need, skipEmpty)
          == if Fits(blocks[b], mode, need, skipEmpty) then Some(i)
             else FirstFit(blocks, order, i + 1, mode, need, skipEmpty);
        var cap := RemSum(blocks[b].rooms);
        if !skipEmpty || cap > 0 {
          var free := FreeSum(blocks[b].rooms, mode);
          if free >= need {
            pick := Some(b);
          }
        }
        i := i + 1;
      }
      assert pick == None ==> FirstFit(blocks, order, i, mode, need, skipEmpty) == None;
    }

    /** allocate's body for one subject: the single-block attempt, the
        all-rooms pass for what is left, and an UNALLOCATED record for
        what is still left. */
    method AllocateSubject(mode: Mode, skipEmpty: bool, s: Subject) returns (recs: seq<Record>)
      modifies this
      ensures blocks == AllocOne(old(blocks), mode, skipEmpty, s).blocks
      ensures recs == AllocOne(old(blocks), mode, skipEmpty, s).recs
    {
      ghost var b0 := blocks;
      var rest := s.rolls;
      recs := [];
      var pick := FindBlock(mode, |rest|, skipEmpty);
      if pick.Some? {
        var k := pick.value;
        recs, rest := FillBlock(k, mode, s.name, Some(blocks[k].name), rest);
      }
      ghost var a := Single(b0, mode, skipEmpty, s);
      assert blocks == a.blocks && recs == a.recs && rest == a.rest;
      if |rest| > 0 {
        var more;
        more, rest := FillEvery(mode, s.name, rest);
        recs := recs + more;
      } else {
        assert recs + [] == recs;
      }
      if |rest| > 0 {
        recs := recs + [Record(s.name, UNALLOCATED, "", rest, |rest|)];
      } else {
        assert recs + [] == recs;
      }
    }

    /** allocate: the subjects by descending roll count, each against the
        rooms the previous ones left. */
    method AllocateSubjects(mode: Mode, skipEmpty: bool, subs: seq<Subject>) returns (recs: seq<Record>)
      modifies this
      ensures Outcome(blocks, recs) == Allocate(old(blocks), mode, skipEmpty, subs)
    {
      ghost var b0 := blocks;
      var order := Sorted(subs);
      recs := [];
      var i := 0;
      assert order[..0] == [];
      while i < |order|
        invariant 0 <= i <= |order|
        invariant blocks == AllocAll(b0, mode, skipEmpty, order[..i]).blocks
        invariant recs == AllocAll(b0, mode, skipEmpty, order[..i]).recs
      {
        AllocAllStep(b0, mode, skipEmpty, order, i);
        ghost var p := AllocOne(blocks, mode, skipEmpty, order[i]);
        var rs := AllocateSubject(mode, skipEmpty, order[i]);
        assert blocks == p.blocks && rs == p.recs;
        recs := recs + rs;
        i := i + 1;
      }
      assert order[..|order|] == order;
    }
  }
}
