/** The allocation rule of the exam seating program, on values.  A room
    offers at most its per-room limit (its effective capacity in dense
    mode, half of it in sparse mode) and at most its remaining seats; the
    rolls of one subject are handed out front to back.  A subject first
    tries a single block (blocks by descending remaining seats, the first
    whose free seats cover the whole subject), then spreads what is left
    over every room, and whatever still remains becomes one UNALLOCATED
    record. */
module SeatAlloc {
  import opened Wrappers
  import StableSort

  datatype Mode = Dense | Sparse

  /** One subject's share of a room, kept in the room's list. */
  datatype Placed = Placed(subject: string, rolls: seq<string>)

  datatype Room = Room(block: string, name: string, capacity: int, eff: int, rem: int,
                       placed: seq<Placed>)

  /** A block and its rooms; the blocks of a layout are kept in the order
      they were first seen. */
  datatype Block = Block(name: string, rooms: seq<Room>)

  /** One output row: the rolls one room takes from one subject. */
  datatype Record = Record(subject: string, block: string, room: string, rolls: seq<string>,
                           seats: int)

  datatype Subject = Subject(name: string, rolls: seq<string>)

  /** The result of one room's turn. */
  datatype Seated = Seated(room: Room, recs: seq<Record>, rest: seq<string>)

  /** The result of a pass over rooms, over blocks, or of a whole subject:
      the new rooms or blocks, the records made and the rolls left over. */
  datatype Pass = Pass(rooms: seq<Room>, recs: seq<Record>, rest: seq<string>)
  datatype Spread = Spread(blocks: seq<Block>, recs: seq<Record>, rest: seq<string>)

  /** The blocks and records after a list of subjects. */
  datatype Outcome = Outcome(blocks: seq<Block>, recs: seq<Record>)

  const UNALLOCATED := "UNALLOCATED"

  function Min(a: int, b: int): int { if a <= b then a else b }

  /** The per-room limit; `eff // 2` is Python's floor division, which for
      a divisor of 2 agrees with Dafny's. */
  function Limit(mode: Mode, eff: int): int { if mode == Dense then eff else eff / 2 }

  /** What a room can offer: its limit, and no more than its remaining seats. */
  function Offer(r: Room, mode: Mode): int { Min(Limit(mode, r.eff), r.rem) }

  /** A room's remaining seats lie between 0 and its effective capacity. */
  predicate RoomOk(r: Room) { 0 <= r.rem <= r.eff }

  predicate RoomsOk(rooms: seq<Room>) { forall k :: 0 <= k < |rooms| ==> RoomOk(rooms[k]) }

  predicate BlocksOk(blocks: seq<Block>) {
    forall k :: 0 <= k < |blocks| ==> RoomsOk(blocks[k].rooms)
  }

  // ---------------------------------------------------------------------
  // One room, one pass

  /** One room's turn: it takes `min(limit, remaining, needed)` rolls from
      the front of the queue, or nothing when that is not positive.  The
      record is labelled with `tag`, or else with the room's own block. */
  function Seat(r: Room, mode: Mode, subj: string, tag: Option<string>, rolls: seq<string>): (s: Seated)
    ensures |s.rest| <= |rolls|
  {
    var can := Min(Offer(r, mode), |rolls|);
    if can <= 0 then Seated(r, [], rolls)
    else
      var b := if tag == None then r.block else tag.value;
      Seated(r.(rem := r.rem - can, placed := r.placed + [Placed(subj, rolls[..can])]),
             [Record(subj, b, r.name, rolls[..can], can)], rolls[can..])
  }

  /** The rooms of one list take their turns in order. */
  function Fill(rooms: seq<Room>, mode: Mode, subj: string, tag: Option<string>, rolls: seq<string>): (p: Pass)
    ensures |p.rooms| == |rooms| && |p.rest| <= |rolls|
  {
    if rooms == [] then Pass([], [], rolls)
    else
      var p := Fill(rooms[..|rooms| - 1], mode, subj, tag, rolls);
      var s := Seat(rooms[|rooms| - 1], mode, subj, tag, p.rest);
      Pass(p.rooms + [s.room], p.recs + s.recs, s.rest)
  }

  /** Every room of every block takes its turn, each record labelled with
      its room's block. */
  function FillAll(blocks: seq<Block>, mode: Mode, subj: string, rolls: seq<string>): (p: Spread)
    ensures |p.blocks| == |blocks| && |p.rest| <= |rolls|
  {
    if blocks == [] then Spread([], [], rolls)
    else
      var p := FillAll(blocks[..|blocks| - 1], mode, subj, rolls);
      var b := blocks[|blocks| - 1];
      var q := Fill(b.rooms, mode, subj, None, p.rest);
      Spread(p.blocks + [Block(b.name, q.rooms)], p.recs + q.recs, q.rest)
  }

  // ---------------------------------------------------------------------
  // Sums

  function RemSum(rooms: seq<Room>): int {
    if rooms == [] then 0 else RemSum(rooms[..|rooms| - 1]) + rooms[|rooms| - 1].rem
  }

  function FreeSum(rooms: seq<Room>, mode: Mode): int {
    if rooms == [] then 0 else FreeSum(rooms[..|rooms| - 1], mode) + Offer(rooms[|rooms| - 1], mode)
  }

  function TotalRem(blocks: seq<Block>): int {
    if blocks == [] then 0 else TotalRem(blocks[..|blocks| - 1]) + RemSum(blocks[|blocks| - 1].rooms)
  }

  function TotalFree(blocks: seq<Block>, mode: Mode): int {
    if blocks == [] then 0
    else TotalFree(blocks[..|blocks| - 1], mode) + FreeSum(blocks[|blocks| - 1].rooms, mode)
  }

  /** The rolls of the records, in order. */
  function AllRolls(recs: seq<Record>): seq<string> {
    if recs == [] then [] else AllRolls(recs[..|recs| - 1]) + recs[|recs| - 1].rolls
  }

  /** Every record is non-empty and its seat count is its number of rolls. */
  predicate Counted(recs: seq<Record>) {
    forall k :: 0 <= k < |recs| ==> recs[k].rolls != [] && recs[k].seats == |recs[k].rolls|
  }

  predicate FromSubject(recs: seq<Record>, subj: string) {
    forall k :: 0 <= k < |recs| ==> recs[k].subject == subj
  }

  predicate InBlock(recs: seq<Record>, b: string) {
    forall k :: 0 <= k < |recs| ==> recs[k].block == b
  }

  /** Room `b` is room `a` after at most one turn for `subj`: nothing
      changed, or it took a positive number of seats within its offer and
      recorded exactly those rolls. */
  predicate Took(a: Room, b: Room, mode: Mode, subj: string) {
    && a.block == b.block && a.name == b.name && a.capacity == b.capacity && a.eff == b.eff
    && (|| b == a
        || (&& 0 < a.rem - b.rem <= Offer(a, mode)
            && |b.placed| == |a.placed| + 1 && b.placed[..|a.placed|] == a.placed
            && b.placed[|a.placed|].subject == subj
            && |b.placed[|a.placed|].rolls| == a.rem - b.rem))
  }

  predicate RoomsTook(a: seq<Room>, b: seq<Room>, mode: Mode, subj: string) {
    |a| == |b| && forall k :: 0 <= k < |a| ==> Took(a[k], b[k], mode, subj)
  }

  predicate BlocksTook(a: seq<Block>, b: seq<Block>, mode: Mode, subj: string) {
    |a| == |b| && forall k :: 0 <= k < |a| ==> a[k].name == b[k].name && RoomsTook(a[k].rooms, b[k].rooms, mode, subj)
  }

  /** Room `b` is room `a` after any number of turns. */
  predicate Kept(a: Room, b: Room) {
    && a.block == b.block && a.name == b.name && a.capacity == b.capacity && a.eff == b.eff
    && b.rem <= a.rem && a.placed <= b.placed
  }

  predicate BlocksKept(a: seq<Block>, b: seq<Block>) {
    |a| == |b| &&
    forall k :: 0 <= k < |a| ==>
      (a[k].name == b[k].name && |a[k].rooms| == |b[k].rooms| &&
       forall j :: 0 <= j < |a[k].rooms| ==> Kept(a[k].rooms[j], b[k].rooms[j]))
  }

  lemma {:induction false} AllRollsConcat(a: seq<Record>, b: seq<Record>)
    ensures AllRolls(a + b) == AllRolls(a) + AllRolls(b)
  {
    if b != [] {
      assert (a + b)[..|a + b| - 1] == a + b[..|b| - 1];
      assert (a + b)[|a + b| - 1] == b[|b| - 1];
      AllRollsConcat(a, b[..|b| - 1]);
      assert AllRolls(a + b) == AllRolls(a) + AllRolls(b[..|b| - 1]) + b[|b| - 1].rolls;
    } else {
      assert a + b == a;
    }
  }

  // ---------------------------------------------------------------------
  // Facts about a pass

  /** A room's turn hands out the front of the queue, and what it takes is
      within its offer and comes off its remaining seats. */
  lemma SeatFacts(r: Room, mode: Mode, subj: string, tag: Option<string>, rolls: seq<string>)
    ensures var s := Seat(r, mode, subj, tag, rolls);
      && AllRolls(s.recs) + s.rest == rolls && Counted(s.recs) && FromSubject(s.recs, subj)
      && (tag.Some? ==> InBlock(s.recs, tag.value))
      && (tag == None ==> InBlock(s.recs, r.block))
      && Took(r, s.room, mode, subj)
      && r.rem - s.room.rem == |rolls| - |s.rest|
      && (RoomOk(r) ==> RoomOk(s.room) && |rolls| - |s.rest| == Min(Offer(r, mode), |rolls|))
  {
    var s := Seat(r, mode, subj, tag, rolls);
    if s.recs != [] {
      assert s.recs[..0] == [];
      assert AllRolls(s.recs) == s.recs[0].rolls;
    }
  }

  /** The records of a pass cut the queue into consecutive pieces, and the
      rolls left over are what follows them. */
  lemma {:induction false} FillPartition(rooms: seq<Room>, mode: Mode, subj: string, tag: Option<string>, rolls: seq<string>)
    ensures AllRolls(Fill(rooms, mode, subj, tag, rolls).recs) + Fill(rooms, mode, subj, tag, rolls).rest == rolls
  {
    if rooms != [] {
      var p := Fill(rooms[..|rooms| - 1], mode, subj, tag, rolls);
      var s := Seat(rooms[|rooms| - 1], mode, subj, tag, p.rest);
      FillPartition(rooms[..|rooms| - 1], mode, subj, tag, rolls);
      assert AllRolls(s.recs) + s.rest == p.rest by {
        SeatFacts(rooms[|rooms| - 1], mode, subj, tag, p.rest);
      }
      AllRollsConcat(p.recs, s.recs);
    }
  }

  /** Every record of a pass is non-empty, counts its rolls, belongs to the
      subject and, when a block was named, to that block. */
  lemma {:induction false} FillRecords(rooms: seq<Room>, mode: Mode, subj: string, tag: Option<string>, rolls: seq<string>)
    ensures var p := Fill(rooms, mode, subj, tag, rolls);
      Counted(p.recs) && FromSubject(p.recs, subj) && (tag.Some? ==> InBlock(p.recs, tag.value))
  {
    if rooms != [] {
      var p := Fill(rooms[..|rooms| - 1], mode, subj, tag, rolls);
      var s := Seat(rooms[|rooms| - 1], mode, subj, tag, p.rest);
      FillRecords(rooms[..|rooms| - 1], mode, subj, tag, rolls);
      SeatFacts(rooms[|rooms| - 1], mode, subj, tag, p.rest);
      RecsConcat(p.recs, s.recs, subj, tag);
    }
  }

  lemma RecsConcat(a: seq<Record>, b: seq<Record>, subj: string, tag: Option<string>)
    requires Counted(a) && FromSubject(a, subj) && (tag.Some? ==> InBlock(a, tag.value))
    requires Counted(b) && FromSubject(b, subj) && (tag.Some? ==> InBlock(b, tag.value))
    ensures Counted(a + b) && FromSubject(a + b, subj) && (tag.Some? ==> InBlock(a + b, tag.value))
  {
    assert forall k :: 0 <= k < |a + b| ==> (a + b)[k] == (if k < |a| then a[k] else b[k - |a|]);
  }

  /** Every room takes at most one turn, within its offer. */
  lemma {:induction false} FillTook(rooms: seq<Room>, mode: Mode, subj: string, tag: Option<string>, rolls: seq<string>)
    ensures RoomsTook(rooms, Fill(rooms, mode, subj, tag, rolls).rooms, mode, subj)
  {
    if rooms != [] {
      var p := Fill(rooms[..|rooms| - 1], mode, subj, tag, rolls);
      var s := Seat(rooms[|rooms| - 1], mode, subj, tag, p.rest);
      FillTook(rooms[..|rooms| - 1], mode, subj, tag, rolls);
      assert Took(rooms[|rooms| - 1], s.room, mode, subj) by {
        SeatFacts(rooms[|rooms| - 1], mode, subj, tag, p.rest);
      }
      var q := Fill(rooms, mode, subj, tag, rolls).rooms;
      assert q == p.rooms + [s.room];
      forall k | 0 <= k < |rooms| ensures Took(rooms[k], q[k], mode, subj) {
        if k < |rooms| - 1 {
          assert rooms[k] == rooms[..|rooms| - 1][k] && q[k] == p.rooms[k];
        }
      }
    }
  }

  /** Sound rooms stay sound. */
  lemma {:induction false} FillOk(rooms: seq<Room>, mode: Mode, subj: string, tag: Option<string>, rolls: seq<string>)
    requires RoomsOk(rooms)
    ensures RoomsOk(Fill(rooms, mode, subj, tag, rolls).rooms)
  {
    if rooms != [] {
      var p := Fill(rooms[..|rooms| - 1], mode, subj, tag, rolls);
      var s := Seat(rooms[|rooms| - 1], mode, subj, tag, p.rest);
      assert RoomsOk(rooms[..|rooms| - 1]);
      FillOk(rooms[..|rooms| - 1], mode, subj, tag, rolls);
      assert RoomOk(s.room) by {
        SeatFacts(rooms[|rooms| - 1], mode, subj, tag, p.rest);
      }
      assert Fill(rooms, mode, subj, tag, rolls).rooms == p.rooms + [s.room];
    }
  }

  /** The seats taken from the rooms are the rolls handed out. */
  lemma {:induction false} FillRem(rooms: seq<Room>, mode: Mode, subj: string, tag: Option<string>, rolls: seq<string>)
    ensures RemSum(rooms) - RemSum(Fill(rooms, mode, subj, tag, rolls).rooms)
            == |rolls| - |Fill(rooms, mode, subj, tag, rolls).rest|
  {
    if rooms != [] {
      var p := Fill(rooms[..|rooms| - 1], mode, subj, tag, rolls);
      var s := Seat(rooms[|rooms| - 1], mode, subj, tag, p.rest);
      FillRem(rooms[..|rooms| - 1], mode, subj, tag, rolls);
      assert rooms[|rooms| - 1].rem - s.room.rem == |p.rest| - |s.rest| by {
        SeatFacts(rooms[|rooms| - 1], mode, subj, tag, p.rest);
      }
      var q := Fill(rooms, mode, subj, tag, rolls).rooms;
      assert q == p.rooms + [s.room];
      assert q[..|q| - 1] == p.rooms;
    }
  }

  lemma {:induction false} FreeSumNonNeg(rooms: seq<Room>, mode: Mode)
    requires RoomsOk(rooms)
    ensures 0 <= FreeSum(rooms, mode) <= RemSum(rooms)
  {
    if rooms != [] {
      FreeSumNonNeg(rooms[..|rooms| - 1], mode);
    }
  }

  /** On sound rooms a pass places exactly `min(free seats, rolls)`. */
  lemma {:induction false} FillCount(rooms: seq<Room>, mode: Mode, subj: string, tag: Option<string>, rolls: seq<string>)
    requires RoomsOk(rooms)
    ensures var p := Fill(rooms, mode, subj, tag, rolls);
      |rolls| - |p.rest| == Min(FreeSum(rooms, mode), |rolls|)
  {
    if rooms != [] {
      var init := rooms[..|rooms| - 1];
      var p := Fill(init, mode, subj, tag, rolls);
      FillCount(init, mode, subj, tag, rolls);
      FreeSumNonNeg(init, mode);
      SeatFacts(rooms[|rooms| - 1], mode, subj, tag, p.rest);
    }
  }

  /** A pass with nothing to place changes nothing. */
  lemma {:induction false} FillNothing(rooms: seq<Room>, mode: Mode, subj: string, tag: Option<string>)
    ensures Fill(rooms, mode, subj, tag, []) == Pass(rooms, [], [])
  {
    if rooms != [] {
      var init, last := rooms[..|rooms| - 1], rooms[|rooms| - 1];
      FillNothing(init, mode, subj, tag);
      assert Seat(last, mode, subj, tag, []) == Seated(last, [], []);
      assert init + [last] == rooms;
    }
  }

  /** The all-rooms pass cuts the queue into consecutive records. */
  lemma {:induction false} FillAllPartition(blocks: seq<Block>, mode: Mode, subj: string, rolls: seq<string>)
    ensures AllRolls(FillAll(blocks, mode, subj, rolls).recs) + FillAll(blocks, mode, subj, rolls).rest == rolls
  {
    if blocks != [] {
      var b := blocks[|blocks| - 1];
      var p := FillAll(blocks[..|blocks| - 1], mode, subj, rolls);
      var q := Fill(b.rooms, mode, subj, None, p.rest);
      FillAllPartition(blocks[..|blocks| - 1], mode, subj, rolls);
      FillPartition(b.rooms, mode, subj, None, p.rest);
      AllRollsConcat(p.recs, q.recs);
    }
  }

  lemma {:induction false} FillAllRecords(blocks: seq<Block>, mode: Mode, subj: string, rolls: seq<string>)
    ensures Counted(FillAll(blocks, mode, subj, rolls).recs) && FromSubject(FillAll(blocks, mode, subj, rolls).recs, subj)
  {
    if blocks != [] {
      var b := blocks[|blocks| - 1];
      var p := FillAll(blocks[..|blocks| - 1], mode, subj, rolls);
      var q := Fill(b.rooms, mode, subj, None, p.rest);
      FillAllRecords(blocks[..|blocks| - 1], mode, subj, rolls);
      FillRecords(b.rooms, mode, subj, None, p.rest);
      RecsConcat(p.recs, q.recs, subj, None);
    }
  }

  /** In the all-rooms pass every room takes at most one turn. */
  lemma {:induction false} FillAllTook(blocks: seq<Block>, mode: Mode, subj: string, rolls: seq<string>)
    ensures BlocksTook(blocks, FillAll(blocks, mode, subj, rolls).blocks, mode, subj)
  {
    if blocks != [] {
      var b := blocks[|blocks| - 1];
      var p := FillAll(blocks[..|blocks| - 1], mode, subj, rolls);
      var q := Fill(b.rooms, mode, subj, None, p.rest);
      FillAllTook(blocks[..|blocks| - 1], mode, subj, rolls);
      FillTook(b.rooms, mode, subj, None, p.rest);
      var r := FillAll(blocks, mode, subj, rolls).blocks;
      assert r == p.blocks + [Block(b.name, q.rooms)];
      forall k | 0 <= k < |blocks|
        ensures blocks[k].name == r[k].name && RoomsTook(blocks[k].rooms, r[k].rooms, mode, subj)
      {
        if k < |blocks| - 1 {
          assert blocks[k] == blocks[..|blocks| - 1][k] && r[k] == p.blocks[k];
        }
      }
    }
  }

  lemma {:induction false} FillAllOk(blocks: seq<Block>, mode: Mode, subj: string, rolls: seq<string>)
    requires BlocksOk(blocks)
    ensures BlocksOk(FillAll(blocks, mode, subj, rolls).blocks)
  {
    if blocks != [] {
      var b := blocks[|blocks| - 1];
      var p := FillAll(blocks[..|blocks| - 1], mode, subj, rolls);
      var q := Fill(b.rooms, mode, subj, None, p.rest);
      assert BlocksOk(blocks[..|blocks| - 1]);
      FillAllOk(blocks[..|blocks| - 1], mode, subj, rolls);
      assert RoomsOk(b.rooms);
      FillOk(b.rooms, mode, subj, None, p.rest);
      assert FillAll(blocks, mode, subj, rolls).blocks == p.blocks + [Block(b.name, q.rooms)];
    }
  }

  lemma {:induction false} FillAllRem(blocks: seq<Block>, mode: Mode, subj: string, rolls: seq<string>)
    ensures TotalRem(blocks) - TotalRem(FillAll(blocks, mode, subj, rolls).blocks)
            == |rolls| - |FillAll(blocks, mode, subj, rolls).rest|
  {
    if blocks != [] {
      var b := blocks[|blocks| - 1];
      var p := FillAll(blocks[..|blocks| - 1], mode, subj, rolls);
      var q := Fill(b.rooms, mode, subj, None, p.rest);
      FillAllRem(blocks[..|blocks| - 1], mode, subj, rolls);
      FillRem(b.rooms, mode, subj, None, p.rest);
      var r := FillAll(blocks, mode, subj, rolls).blocks;
      assert r == p.blocks + [Block(b.name, q.rooms)];
      assert r[..|r| - 1] == p.blocks;
    }
  }

  /** On sound blocks the all-rooms pass places exactly
      `min(total free seats, rolls)`. */
  lemma {:induction false} FillAllCount(blocks: seq<Block>, mode: Mode, subj: string, rolls: seq<string>)
    requires BlocksOk(blocks)
    ensures |rolls| - |FillAll(blocks, mode, subj, rolls).rest| == Min(TotalFree(blocks, mode), |rolls|)
  {
    if blocks != [] {
      var b := blocks[|blocks| - 1];
      var p := FillAll(blocks[..|blocks| - 1], mode, subj, rolls);
      assert BlocksOk(blocks[..|blocks| - 1]);
      FillAllCount(blocks[..|blocks| - 1], mode, subj, rolls);
      assert RoomsOk(b.rooms);
      FillCount(b.rooms, mode, subj, None, p.rest);
      TotalFreeNonNeg(blocks[..|blocks| - 1], mode);
      FreeSumNonNeg(b.rooms, mode);
    }
  }

  lemma {:induction false} TotalFreeNonNeg(blocks: seq<Block>, mode: Mode)
    requires BlocksOk(blocks)
    ensures TotalFree(blocks, mode) >= 0
  {
    if blocks != [] {
      TotalFreeNonNeg(blocks[..|blocks| - 1], mode);
      FreeSumNonNeg(blocks[|blocks| - 1].rooms, mode);
    }
  }

  // ---------------------------------------------------------------------
  // Choosing the block

  /** The remaining seats of each block. */
  function Remaining(blocks: seq<Block>): seq<int> {
    seq(|blocks|, k requires 0 <= k < |blocks| => RemSum(blocks[k].rooms))
  }

  /** The blocks by descending remaining seats, stably. */
  function Order(blocks: seq<Block>): seq<int> {
    StableSort.SortDesc(Remaining(blocks), |blocks|)
  }

  /** A block can take a whole subject: its free seats cover the need and,
      when empty blocks are skipped, it has remaining seats. */
  predicate Fits(b: Block, mode: Mode, need: int, skipEmpty: bool) {
    (!skipEmpty || RemSum(b.rooms) > 0) && FreeSum(b.rooms, mode) >= need
  }

  /** The first position from `i` on in `order` whose block fits. */
  function FirstFit(blocks: seq<Block>, order: seq<int>, i: nat, mode: Mode, need: int, skipEmpty: bool): (c: Option<nat>)
    requires StableSort.InRange(order, |blocks|)
    ensures c.Some? ==> i <= c.value < |order| && Fits(blocks[order[c.value]], mode, need, skipEmpty)
    ensures c.Some? ==> forall j :: i <= j < c.value ==> !Fits(blocks[order[j]], mode, need, skipEmpty)
    ensures c == None ==> forall j :: i <= j < |order| ==> !Fits(blocks[order[j]], mode, need, skipEmpty)
    decreases |order| - i
  {
    if i >= |order| then None
    else if Fits(blocks[order[i]], mode, need, skipEmpty) then Some(i)
    else FirstFit(blocks, order, i + 1, mode, need, skipEmpty)
  }

  /** The block a subject of `need` rolls goes to whole, if any. */
  function Choose(blocks: seq<Block>, mode: Mode, need: int, skipEmpty: bool): (c: Option<int>)
    ensures c.Some? ==> 0 <= c.value < |blocks|
  {
    var order := Order(blocks);
    match FirstFit(blocks, order, 0, mode, need, skipEmpty)
    case None => None
    case Some(j) => Some(order[j])
  }

  /** There is no choice only when no block fits. */
  lemma ChooseNone(blocks: seq<Block>, mode: Mode, need: int, skipEmpty: bool)
    ensures Choose(blocks, mode, need, skipEmpty) == None <==>
      forall q :: 0 <= q < |blocks| ==> !Fits(blocks[q], mode, need, skipEmpty)
  {
    var order := Order(blocks);
    StableSort.SortDescCorrect(Remaining(blocks), |blocks|);
    if Choose(blocks, mode, need, skipEmpty) == None {
      forall q | 0 <= q < |blocks| ensures !Fits(blocks[q], mode, need, skipEmpty) {
        assert q in order;
      }
    }
  }

  /** The chosen block fits and has the most remaining seats of all blocks
      that fit, the earliest one on a tie. */
  lemma ChooseBest(blocks: seq<Block>, mode: Mode, need: int, skipEmpty: bool, k: int)
    requires Choose(blocks, mode, need, skipEmpty) == Some(k)
    ensures 0 <= k < |blocks| && Fits(blocks[k], mode, need, skipEmpty)
    ensures forall q :: 0 <= q < |blocks| && q != k && Fits(blocks[q], mode, need, skipEmpty) ==>
      RemSum(blocks[k].rooms) > RemSum(blocks[q].rooms)
      || (RemSum(blocks[k].rooms) == RemSum(blocks[q].rooms) && k < q)
  {
    var order := Order(blocks);
    var keys := Remaining(blocks);
    var i := FirstFit(blocks, order, 0, mode, need, skipEmpty).value;
    assert k == order[i];
    assert order == StableSort.SortDesc(keys, |blocks|);
    forall q | 0 <= q < |blocks| && q != k && Fits(blocks[q], mode, need, skipEmpty)
      ensures StableSort.Before(k, q, keys)
    {
      forall j | 0 <= j < i ensures order[j] != q {
        assert !Fits(blocks[order[j]], mode, need, skipEmpty);
      }
      StableSort.LaterBefore(keys, |blocks|, i, q);
    }
    assert forall q :: 0 <= q < |blocks| ==> keys[q] == RemSum(blocks[q].rooms);
  }

  /** When the two fit tests agree on every block, so do the choices. */
  lemma {:induction false} FirstFitSame(blocks: seq<Block>, order: seq<int>, i: nat, mode: Mode, need: int)
    requires StableSort.InRange(order, |blocks|)
    requires forall q :: 0 <= q < |blocks| ==> Fits(blocks[q], mode, need, true) == Fits(blocks[q], mode, need, false)
    ensures FirstFit(blocks, order, i, mode, need, true) == FirstFit(blocks, order, i, mode, need, false)
    decreases |order| - i
  {
    if i < |order| {
      FirstFitSame(blocks, order, i + 1, mode, need);
    }
  }

  // ---------------------------------------------------------------------
  // One subject

  /** The single-block attempt. */
  function Single(blocks: seq<Block>, mode: Mode, skipEmpty: bool, s: Subject): (p: Spread)
    ensures |p.blocks| == |blocks|
  {
    match Choose(blocks, mode, |s.rolls|, skipEmpty)
    case None => Spread(blocks, [], s.rolls)
    case Some(k) =>
      var q := Fill(blocks[k].rooms, mode, s.name, Some(blocks[k].name), s.rolls);
      Spread(blocks[k := Block(blocks[k].name, q.rooms)], q.recs, q.rest)
  }

  /** allocate's body for one subject: the single-block attempt, the
      all-rooms pass when rolls remain, and an UNALLOCATED record for what
      is still left; `rest` is that leftover. */
  function AllocOne(blocks: seq<Block>, mode: Mode, skipEmpty: bool, s: Subject): (p: Spread) {
    var a := Single(blocks, mode, skipEmpty, s);
    var b := if |a.rest| > 0 then FillAll(a.blocks, mode, s.name, a.rest) else Spread(a.blocks, [], a.rest);
    var u := if |b.rest| > 0 then [Record(s.name, UNALLOCATED, "", b.rest, |b.rest|)] else [];
    Spread(b.blocks, a.recs + b.recs + u, b.rest)
  }

  /** The single-block attempt cuts the queue into records of the subject. */
  lemma SingleRecords(blocks: seq<Block>, mode: Mode, skipEmpty: bool, s: Subject)
    ensures var a := Single(blocks, mode, skipEmpty, s);
      AllRolls(a.recs) + a.rest == s.rolls && Counted(a.recs) && FromSubject(a.recs, s.name)
  {
    match Choose(blocks, mode, |s.rolls|, skipEmpty)
    case None =>
    case Some(k) =>
      FillPartition(blocks[k].rooms, mode, s.name, Some(blocks[k].name), s.rolls);
      FillRecords(blocks[k].rooms, mode, s.name, Some(blocks[k].name), s.rolls);
  }

  /** In the single-block attempt every room takes at most one turn. */
  lemma SingleTook(blocks: seq<Block>, mode: Mode, skipEmpty: bool, s: Subject)
    ensures BlocksTook(blocks, Single(blocks, mode, skipEmpty, s).blocks, mode, s.name)
  {
    match Choose(blocks, mode, |s.rolls|, skipEmpty)
    case None =>
      assert forall k :: 0 <= k < |blocks| ==> RoomsTook(blocks[k].rooms, blocks[k].rooms, mode, s.name);
    case Some(k) =>
      var q := Fill(blocks[k].rooms, mode, s.name, Some(blocks[k].name), s.rolls);
      var nb := blocks[k := Block(blocks[k].name, q.rooms)];
      assert RoomsTook(blocks[k].rooms, q.rooms, mode, s.name) by {
        FillTook(blocks[k].rooms, mode, s.name, Some(blocks[k].name), s.rolls);
      }
      assert forall j :: 0 <= j < |blocks| && j != k ==> RoomsTook(blocks[j].rooms, nb[j].rooms, mode, s.name);
  }

  /** The single-block attempt keeps sound blocks sound, and the seats it
      takes are the rolls it places. */
  lemma SingleRem(blocks: seq<Block>, mode: Mode, skipEmpty: bool, s: Subject)
    ensures BlocksOk(blocks) ==> BlocksOk(Single(blocks, mode, skipEmpty, s).blocks)
    ensures TotalRem(blocks) - TotalRem(Single(blocks, mode, skipEmpty, s).blocks)
            == |s.rolls| - |Single(blocks, mode, skipEmpty, s).rest|
  {
    match Choose(blocks, mode, |s.rolls|, skipEmpty)
    case None =>
    case Some(k) =>
      var q := Fill(blocks[k].rooms, mode, s.name, Some(blocks[k].name), s.rolls);
      if BlocksOk(blocks) {
        assert RoomsOk(blocks[k].rooms);
        FillOk(blocks[k].rooms, mode, s.name, Some(blocks[k].name), s.rolls);
      }
      FillRem(blocks[k].rooms, mode, s.name, Some(blocks[k].name), s.rolls);
      TotalRemUpdate(blocks, k, Block(blocks[k].name, q.rooms));
  }

  /** Replacing one block changes the total by the change in that block. */
  lemma {:induction false} TotalRemUpdate(blocks: seq<Block>, k: int, b: Block)
    requires 0 <= k < |blocks|
    ensures TotalRem(blocks[k := b]) == TotalRem(blocks) - RemSum(blocks[k].rooms) + RemSum(b.rooms)
  {
    var n := |blocks|;
    if k < n - 1 {
      assert blocks[k := b][..n - 1] == blocks[..n - 1][k := b];
      TotalRemUpdate(blocks[..n - 1], k, b);
    } else {
      assert blocks[k := b][..n - 1] == blocks[..n - 1];
    }
  }

  /** On sound blocks, a chosen block takes the whole subject, so nothing
      is left for the all-rooms pass; with no block chosen the single-block
      attempt does nothing. */
  lemma SingleWhole(blocks: seq<Block>, mode: Mode, skipEmpty: bool, s: Subject)
    requires BlocksOk(blocks)
    ensures Choose(blocks, mode, |s.rolls|, skipEmpty).Some? ==> Single(blocks, mode, skipEmpty, s).rest == []
    ensures Choose(blocks, mode, |s.rolls|, skipEmpty) == None ==> Single(blocks, mode, skipEmpty, s) == Spread(blocks, [], s.rolls)
  {
    match Choose(blocks, mode, |s.rolls|, skipEmpty)
    case None =>
    case Some(k) =>
      ChooseBest(blocks, mode, |s.rolls|, skipEmpty, k);
      assert RoomsOk(blocks[k].rooms);
      FillCount(blocks[k].rooms, mode, s.name, Some(blocks[k].name), s.rolls);
  }

  /** The subject's records partition its rolls in order. */
  lemma AllocPartition(blocks: seq<Block>, mode: Mode, skipEmpty: bool, s: Subject)
    ensures AllRolls(AllocOne(blocks, mode, skipEmpty, s).recs) == s.rolls
  {
    var a := Single(blocks, mode, skipEmpty, s);
    SingleRecords(blocks, mode, skipEmpty, s);
    var b := if |a.rest| > 0 then FillAll(a.blocks, mode, s.name, a.rest) else Spread(a.blocks, [], a.rest);
    assert AllRolls(b.recs) + b.rest == a.rest by {
      if |a.rest| > 0 {
        FillAllPartition(a.blocks, mode, s.name, a.rest);
      }
    }
    var u := if |b.rest| > 0 then [Record(s.name, UNALLOCATED, "", b.rest, |b.rest|)] else [];
    assert AllRolls(u) == b.rest by {
      if u != [] { assert u[..0] == []; }
    }
    AllRollsConcat(a.recs, b.recs);
    AllRollsConcat(a.recs + b.recs, u);
    Chain(AllRolls(a.recs), a.rest, AllRolls(b.recs), b.rest, s.rolls);
    assert AllocOne(blocks, mode, skipEmpty, s).recs == a.recs + b.recs + u;
  }

  lemma Chain(x: seq<string>, xr: seq<string>, y: seq<string>, yr: seq<string>, all: seq<string>)
    requires x + xr == all && y + yr == xr
    ensures x + y + yr == all
  {
    assert x + y + yr == x + (y + yr);
  }

  /** Every record of the subject counts its rolls, and the leftover, if
      any, is one UNALLOCATED record at the end. */
  lemma AllocRecords(blocks: seq<Block>, mode: Mode, skipEmpty: bool, s: Subject)
    ensures var p := AllocOne(blocks, mode, skipEmpty, s);
      && Counted(p.recs) && FromSubject(p.recs, s.name)
      && (p.rest != [] ==> p.recs[|p.recs| - 1] == Record(s.name, UNALLOCATED, "", p.rest, |p.rest|))
  {
    var a := Single(blocks, mode, skipEmpty, s);
    SingleRecords(blocks, mode, skipEmpty, s);
    var b := if |a.rest| > 0 then FillAll(a.blocks, mode, s.name, a.rest) else Spread(a.blocks, [], a.rest);
    if |a.rest| > 0 {
      FillAllRecords(a.blocks, mode, s.name, a.rest);
    }
    var u := if |b.rest| > 0 then [Record(s.name, UNALLOCATED, "", b.rest, |b.rest|)] else [];
    RecsConcat(a.recs, b.recs, s.name, None);
    RecsConcat(a.recs + b.recs, u, s.name, None);
  }

  /** On sound blocks every room takes at most one turn for the subject,
      the blocks stay sound, and the seats taken are the rolls placed. */
  lemma AllocRooms(blocks: seq<Block>, mode: Mode, skipEmpty: bool, s: Subject)
    requires BlocksOk(blocks)
    ensures var p := AllocOne(blocks, mode, skipEmpty, s);
      && BlocksTook(blocks, p.blocks, mode, s.name) && BlocksOk(p.blocks)
      && TotalRem(blocks) - TotalRem(p.blocks) == |s.rolls| - |p.rest|
  {
    var a := Single(blocks, mode, skipEmpty, s);
    if |a.rest| > 0 {
      assert a == Spread(blocks, [], s.rolls) by { SingleWhole(blocks, mode, skipEmpty, s); }
      FillAllTook(blocks, mode, s.name, s.rolls);
      FillAllOk(blocks, mode, s.name, s.rolls);
      FillAllRem(blocks, mode, s.name, s.rolls);
    } else {
      SingleTook(blocks, mode, skipEmpty, s);
      SingleRem(blocks, mode, skipEmpty, s);
    }
  }

  /** When a block is chosen, all records are in that block and no other
      block changes; when none is, the all-rooms pass places
      `min(total free seats, rolls)`. */
  lemma AllocSingle(blocks: seq<Block>, mode: Mode, skipEmpty: bool, s: Subject)
    requires BlocksOk(blocks)
    ensures forall k :: Choose(blocks, mode, |s.rolls|, skipEmpty) == Some(k) ==>
      && AllocOne(blocks, mode, skipEmpty, s).rest == []
      && InBlock(AllocOne(blocks, mode, skipEmpty, s).recs, blocks[k].name)
      && forall q :: 0 <= q < |blocks| && q != k ==> AllocOne(blocks, mode, skipEmpty, s).blocks[q] == blocks[q]
    ensures Choose(blocks, mode, |s.rolls|, skipEmpty) == None ==>
      |s.rolls| - |AllocOne(blocks, mode, skipEmpty, s).rest| == Min(TotalFree(blocks, mode), |s.rolls|)
  {
    SingleWhole(blocks, mode, skipEmpty, s);
    match Choose(blocks, mode, |s.rolls|, skipEmpty)
    case None =>
      if |s.rolls| > 0 {
        FillAllCount(blocks, mode, s.name, s.rolls);
      } else {
        TotalFreeNonNeg(blocks, mode);
      }
    case Some(k) =>
      FillRecords(blocks[k].rooms, mode, s.name, Some(blocks[k].name), s.rolls);
      var a := Single(blocks, mode, skipEmpty, s);
      assert AllocOne(blocks, mode, skipEmpty, s) == Spread(a.blocks, a.recs, []);
  }

  /** Skipping blocks with no remaining seats makes no difference on sound
      blocks, so the two versions of allocate agree. */
  lemma AllocSkipSame(blocks: seq<Block>, mode: Mode, s: Subject)
    requires BlocksOk(blocks)
    ensures AllocOne(blocks, mode, true, s) == AllocOne(blocks, mode, false, s)
  {
    var need := |s.rolls|;
    if need > 0 {
      forall q | 0 <= q < |blocks|
        ensures Fits(blocks[q], mode, need, true) == Fits(blocks[q], mode, need, false)
      {
        assert RoomsOk(blocks[q].rooms);
        FreeSumNonNeg(blocks[q].rooms, mode);
      }
      FirstFitSame(blocks, Order(blocks), 0, mode, need);
    } else {
      SingleNothing(blocks, mode, true, s);
      SingleNothing(blocks, mode, false, s);
    }
  }

  /** A subject with no rolls changes nothing in the single-block attempt. */
  lemma SingleNothing(blocks: seq<Block>, mode: Mode, skipEmpty: bool, s: Subject)
    requires s.rolls == []
    ensures Single(blocks, mode, skipEmpty, s) == Spread(blocks, [], [])
  {
    match Choose(blocks, mode, |s.rolls|, skipEmpty)
    case None =>
    case Some(k) =>
      FillNothing(blocks[k].rooms, mode, s.name, Some(blocks[k].name));
      assert blocks[k := Block(blocks[k].name, blocks[k].rooms)] == blocks;
  }

  // ---------------------------------------------------------------------
  // All subjects

  /** The subjects in the given order, each against what the previous ones
      left. */
  function AllocAll(blocks: seq<Block>, mode: Mode, skipEmpty: bool, subs: seq<Subject>): (o: Outcome) {
    if subs == [] then Outcome(blocks, [])
    else
      var o := AllocAll(blocks, mode, skipEmpty, subs[..|subs| - 1]);
      var p := AllocOne(o.blocks, mode, skipEmpty, subs[|subs| - 1]);
      Outcome(p.blocks, o.recs + p.recs)
  }

  /** The roll counts of the subjects. */
  function Lengths(subs: seq<Subject>): seq<int> {
    seq(|subs|, k requires 0 <= k < |subs| => |subs[k].rolls|)
  }

  /** The subjects by descending roll count, stably. */
  function Sorted(subs: seq<Subject>): (r: seq<Subject>) {
    var order := StableSort.SortDesc(Lengths(subs), |subs|);
    seq(|subs|, k requires 0 <= k < |subs| => subs[order[k]])
  }

  /** allocate: every subject in descending roll count. */
  function Allocate(blocks: seq<Block>, mode: Mode, skipEmpty: bool, subs: seq<Subject>): Outcome {
    AllocAll(blocks, mode, skipEmpty, Sorted(subs))
  }

  /** The rolls of the subjects, in order. */
  function RollsOf(subs: seq<Subject>): seq<string> {
    if subs == [] then [] else RollsOf(subs[..|subs| - 1]) + subs[|subs| - 1].rolls
  }

  /** The subjects are taken by descending roll count, equal counts in
      their original order, and each exactly once. */
  lemma SortedSubjects(subs: seq<Subject>)
    ensures |Sorted(subs)| == |subs|
    ensures forall a, b :: 0 <= a < b < |subs| ==> |Sorted(subs)[a].rolls| >= |Sorted(subs)[b].rolls|
    ensures forall q :: 0 <= q < |subs| ==> subs[q] in Sorted(subs)
  {
    var keys := Lengths(subs);
    var order := StableSort.SortDesc(keys, |subs|);
    StableSort.SortDescCorrect(keys, |subs|);
    var r := Sorted(subs);
    forall a, b | 0 <= a < b < |subs| ensures |r[a].rolls| >= |r[b].rolls| {
      assert StableSort.Before(order[a], order[b], keys);
      assert r[a] == subs[order[a]] && r[b] == subs[order[b]];
    }
    forall q | 0 <= q < |subs| ensures subs[q] in r {
      assert q in order;
      var j :| 0 <= j < |order| && order[j] == q;
      assert r[j] == subs[q];
    }
  }

  /** Equal roll counts keep their original order, and every subject is
      taken exactly once. */
  lemma SortedStable(subs: seq<Subject>)
    ensures StableSort.Ordered(StableSort.SortDesc(Lengths(subs), |subs|), Lengths(subs))
    ensures multiset(StableSort.SortDesc(Lengths(subs), |subs|)) == multiset(StableSort.Upto(|subs|))
    ensures forall k :: 0 <= k < |subs| ==> Sorted(subs)[k] == subs[StableSort.SortDesc(Lengths(subs), |subs|)[k]]
  {
    StableSort.SortDescCorrect(Lengths(subs), |subs|);
  }

  /** The records of all subjects partition their rolls in processing
      order, with seat counts matching. */
  lemma {:induction false} AllocAllRolls(blocks: seq<Block>, mode: Mode, skipEmpty: bool, subs: seq<Subject>)
    ensures var o := AllocAll(blocks, mode, skipEmpty, subs);
      AllRolls(o.recs) == RollsOf(subs) && Counted(o.recs)
  {
    if subs != [] {
      var o := AllocAll(blocks, mode, skipEmpty, subs[..|subs| - 1]);
      AllocAllRolls(blocks, mode, skipEmpty, subs[..|subs| - 1]);
      AllocPartition(o.blocks, mode, skipEmpty, subs[|subs| - 1]);
      AllocRecords(o.blocks, mode, skipEmpty, subs[|subs| - 1]);
      AllRollsConcat(o.recs, AllocOne(o.blocks, mode, skipEmpty, subs[|subs| - 1]).recs);
    }
  }

  lemma TookKept(a: seq<Block>, b: seq<Block>, mode: Mode, subj: string)
    requires BlocksTook(a, b, mode, subj)
    ensures BlocksKept(a, b)
  {
    forall k, j | 0 <= k < |a| && 0 <= j < |a[k].rooms| ensures Kept(a[k].rooms[j], b[k].rooms[j]) {
      assert Took(a[k].rooms[j], b[k].rooms[j], mode, subj);
    }
  }

  lemma KeptTrans(a: seq<Block>, b: seq<Block>, c: seq<Block>)
    requires BlocksKept(a, b) && BlocksKept(b, c)
    ensures BlocksKept(a, c)
  {
    forall k, j | 0 <= k < |a| && 0 <= j < |a[k].rooms| ensures Kept(a[k].rooms[j], c[k].rooms[j]) {
      assert Kept(a[k].rooms[j], b[k].rooms[j]) && Kept(b[k].rooms[j], c[k].rooms[j]);
    }
  }

  /** On sound blocks, any run of subjects keeps the blocks sound, keeps
      their rooms (names, capacities, earlier assignments) and only lowers
      remaining seats. */
  lemma {:induction false} AllocAllRooms(blocks: seq<Block>, mode: Mode, skipEmpty: bool, subs: seq<Subject>)
    requires BlocksOk(blocks)
    ensures var o := AllocAll(blocks, mode, skipEmpty, subs);
      BlocksOk(o.blocks) && BlocksKept(blocks, o.blocks)
  {
    if subs == [] {
      assert BlocksKept(blocks, blocks);
    } else {
      var o := AllocAll(blocks, mode, skipEmpty, subs[..|subs| - 1]);
      AllocAllRooms(blocks, mode, skipEmpty, subs[..|subs| - 1]);
      var s := subs[|subs| - 1];
      AllocRooms(o.blocks, mode, skipEmpty, s);
      TookKept(o.blocks, AllocOne(o.blocks, mode, skipEmpty, s).blocks, mode, s.name);
      KeptTrans(blocks, o.blocks, AllocOne(o.blocks, mode, skipEmpty, s).blocks);
    }
  }

  /** The two versions of allocate agree on sound blocks. */
  lemma {:induction false} AllocAllSkipSame(blocks: seq<Block>, mode: Mode, subs: seq<Subject>)
    requires BlocksOk(blocks)
    ensures AllocAll(blocks, mode, true, subs) == AllocAll(blocks, mode, false, subs)
  {
    if subs != [] {
      AllocAllSkipSame(blocks, mode, subs[..|subs| - 1]);
      AllocAllRooms(blocks, mode, true, subs[..|subs| - 1]);
      AllocSkipSame(AllocAll(blocks, mode, true, subs[..|subs| - 1]).blocks, mode, subs[|subs| - 1]);
    }
  }
}
