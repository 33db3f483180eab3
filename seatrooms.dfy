/** build_rooms_generic and build_rooms: the room layout from the rows of
    the room sheet.  A row whose capacity does not convert to an integer
    is skipped; otherwise its room gets an effective capacity of
    `max(0, capacity - buffer)`, all of it remaining, and is appended to
    its block.  Afterwards each block's rooms are sorted by the number
    formed from the digits of the room name. */
module SeatRooms {
  import opened Wrappers
  import Cells
  import Grouping
  import StableSort
  import opened SeatAlloc

  /** One row of the room sheet: the room and block cells as text, and the
      capacity when it converts to an integer. */
  datatype RoomRow = RoomRow(room: string, capacity: Option<int>, block: string)

  predicate IsDigit(c: char) { '0' <= c <= '9' }

  /** The digits of a text, in order. */
  function Digits(s: string): (r: string)
    ensures forall k :: 0 <= k < |r| ==> IsDigit(r[k])
  {
    if s == [] then []
    else if IsDigit(s[|s| - 1]) then Digits(s[..|s| - 1]) + [s[|s| - 1]]
    else Digits(s[..|s| - 1])
  }

  /** `int(t or "0")` for a text of digits. */
  function Number(t: string): nat {
    if t == [] then 0 else 10 * Number(t[..|t| - 1]) + ((t[|t| - 1] as int - '0' as int) % 10)
  }

  /** The sort key of a room: the number its name's digits spell, 0 when
      there are none. */
  function SortKey(name: string): nat { Number(Digits(name)) }

  /** A name without digits sorts as 0, and a character that is not a
      digit does not change the key. */
  lemma {:induction false} SortKeyNoDigits(name: string)
    requires forall k :: 0 <= k < |name| ==> !IsDigit(name[k])
    ensures SortKey(name) == 0
  {
    if name != [] {
      SortKeyNoDigits(name[..|name| - 1]);
    }
  }

  lemma SortKeyIgnores(name: string, c: char)
    requires !IsDigit(c)
    ensures SortKey(name + [c]) == SortKey(name)
  {
    assert (name + [c])[..|name|] == name;
  }

  /** Appending a digit shifts the key one decimal place. */
  lemma SortKeyDigit(name: string, c: char)
    requires IsDigit(c)
    ensures SortKey(name + [c]) == 10 * SortKey(name) + (c as int - '0' as int)
  {
    assert (name + [c])[..|name|] == name;
    assert Digits(name + [c]) == Digits(name) + [c];
  }

  function Max(a: int, b: int): int { if a >= b then a else b }

  /** The room a usable row describes. */
  function MakeRoom(row: RoomRow, buffer: int): (r: Room)
    requires row.capacity.Some?
  {
    var eff := Max(0, row.capacity.value - buffer);
    Room(Cells.Strip(row.block), Cells.Strip(row.room), row.capacity.value, eff, eff, [])
  }

  /** The (block, room) append a row makes: none for an unusable row. */
  function RowItem(row: RoomRow, buffer: int): seq<(string, Room)> {
    if row.capacity == None then [] else var r := MakeRoom(row, buffer); [(r.block, r)]
  }

  /** The effective capacity a row adds to the total. */
  function RowEff(row: RoomRow, buffer: int): int {
    if row.capacity == None then 0 else Max(0, row.capacity.value - buffer)
  }

  /** The (block, room) appends the rows make, in order. */
  function Items(rows: seq<RoomRow>, buffer: int): seq<(string, Room)> {
    if rows == [] then [] else Items(rows[..|rows| - 1], buffer) + RowItem(rows[|rows| - 1], buffer)
  }

  /** The total capacity: the effective capacities of the usable rows. */
  function TotalEff(rows: seq<RoomRow>, buffer: int): int {
    if rows == [] then 0 else TotalEff(rows[..|rows| - 1], buffer) + RowEff(rows[|rows| - 1], buffer)
  }

  function RoomKeys(rooms: seq<Room>): seq<int> {
    seq(|rooms|, k requires 0 <= k < |rooms| => 0 - SortKey(rooms[k].name) as int)
  }

  /** `rooms.sort(key=...)`: stable, ascending by key (a descending sort
      on the negated keys). */
  function SortRooms(rooms: seq<Room>): seq<Room> {
    var order := StableSort.SortDesc(RoomKeys(rooms), |rooms|);
    seq(|rooms|, k requires 0 <= k < |rooms| => rooms[order[k]])
  }

  function ToBlocks(d: seq<Grouping.Entry<string, Room>>): seq<Block> {
    seq(|d|, k requires 0 <= k < |d| => Block(d[k].key, d[k].items))
  }

  /** The layout: the rows grouped by block, each block's rooms sorted. */
  function Layout(rows: seq<RoomRow>, buffer: int): seq<Block> {
    var d := Grouping.GroupBy(Items(rows, buffer));
    seq(|d|, k requires 0 <= k < |d| => Block(d[k].key, SortRooms(d[k].items)))
  }

  /** The sorted rooms ascend by key, equal keys in their original order,
      and are the original rooms rearranged. */
  lemma SortRoomsFacts(rooms: seq<Room>)
    ensures |SortRooms(rooms)| == |rooms|
    ensures forall a, b :: 0 <= a < b < |rooms| ==>
      SortKey(SortRooms(rooms)[a].name) <= SortKey(SortRooms(rooms)[b].name)
    ensures forall q :: 0 <= q < |rooms| ==> rooms[q] in SortRooms(rooms)
    ensures forall x :: x in SortRooms(rooms) ==> x in rooms
  {
    var keys := RoomKeys(rooms);
    var order := StableSort.SortDesc(keys, |rooms|);
    StableSort.SortDescCorrect(keys, |rooms|);
    var r := SortRooms(rooms);
    forall a, b | 0 <= a < b < |rooms| ensures SortKey(r[a].name) <= SortKey(r[b].name) {
      assert StableSort.Before(order[a], order[b], keys);
      assert r[a] == rooms[order[a]] && r[b] == rooms[order[b]];
    }
    forall q | 0 <= q < |rooms| ensures rooms[q] in r {
      assert q in order;
      var j :| 0 <= j < |order| && order[j] == q;
      assert r[j] == rooms[q];
    }
  }

  lemma SortRoomsStable(rooms: seq<Room>)
    ensures StableSort.Ordered(StableSort.SortDesc(RoomKeys(rooms), |rooms|), RoomKeys(rooms))
    ensures multiset(StableSort.SortDesc(RoomKeys(rooms), |rooms|)) == multiset(StableSort.Upto(|rooms|))
  {
    StableSort.SortDescCorrect(RoomKeys(rooms), |rooms|);
  }

  /** Every room of a layout is fresh: effective capacity
      `max(0, capacity - buffer)`, all of it remaining, nothing placed, and
      it belongs to the block that holds it. */
  lemma LayoutFresh(rows: seq<RoomRow>, buffer: int)
    ensures forall k, j :: 0 <= k < |Layout(rows, buffer)| && 0 <= j < |Layout(rows, buffer)[k].rooms| ==>
      FreshItem((Layout(rows, buffer)[k].name, Layout(rows, buffer)[k].rooms[j]), buffer)
  {
    var items := Items(rows, buffer);
    ItemsFresh(rows, buffer);
    var d := Grouping.GroupBy(items);
    Grouping.GroupByItems(items);
    var l := Layout(rows, buffer);
    forall k, j | 0 <= k < |l| && 0 <= j < |l[k].rooms| ensures FreshItem((l[k].name, l[k].rooms[j]), buffer) {
      SortRoomsFacts(d[k].items);
      var r := l[k].rooms[j];
      assert r in d[k].items;
      FilterFresh(items, d[k].key, buffer, r);
    }
  }

  /** A fresh layout is sound. */
  lemma LayoutOk(rows: seq<RoomRow>, buffer: int)
    ensures BlocksOk(Layout(rows, buffer))
  {
    LayoutFresh(rows, buffer);
    var l := Layout(rows, buffer);
    forall k | 0 <= k < |l| ensures RoomsOk(l[k].rooms) {
      forall j | 0 <= j < |l[k].rooms| ensures RoomOk(l[k].rooms[j]) {
        assert FreshItem((l[k].name, l[k].rooms[j]), buffer);
      }
    }
  }

  /** A (block, room) append whose room is fresh and belongs to that block. */
  predicate FreshItem(kv: (string, Room), buffer: int) {
    kv.1.eff == Max(0, kv.1.capacity - buffer) && kv.1.rem == kv.1.eff && kv.1.placed == []
    && kv.1.block == kv.0
  }

  lemma {:induction false} ItemsFresh(rows: seq<RoomRow>, buffer: int)
    ensures forall i :: 0 <= i < |Items(rows, buffer)| ==> FreshItem(Items(rows, buffer)[i], buffer)
  {
    if rows != [] {
      var init, last := rows[..|rows| - 1], rows[|rows| - 1];
      ItemsFresh(init, buffer);
      var a, b := Items(init, buffer), RowItem(last, buffer);
      assert forall i :: 0 <= i < |b| ==> FreshItem(b[i], buffer) by {
        if last.capacity.Some? {
          EntryFresh(last, buffer);
          assert b == [(Cells.Strip(last.block), MakeRoom(last, buffer))];
        }
      }
      FreshConcat(a, b, buffer);
      assert Items(rows, buffer) == a + b by { assert rows != []; }
    }
  }

  lemma EntryFresh(row: RoomRow, buffer: int)
    requires row.capacity.Some?
    ensures FreshItem((Cells.Strip(row.block), MakeRoom(row, buffer)), buffer)
  {
    var r := MakeRoom(row, buffer);
    assert r.block == Cells.Strip(row.block);
  }

  lemma FreshConcat(a: seq<(string, Room)>, b: seq<(string, Room)>, buffer: int)
    requires forall i :: 0 <= i < |a| ==> FreshItem(a[i], buffer)
    requires forall i :: 0 <= i < |b| ==> FreshItem(b[i], buffer)
    ensures forall i :: 0 <= i < |a + b| ==> FreshItem((a + b)[i], buffer)
  {
    forall i | 0 <= i < |a + b| ensures FreshItem((a + b)[i], buffer) {
      if i < |a| { assert (a + b)[i] == a[i]; } else { assert (a + b)[i] == b[i - |a|]; }
    }
  }

  lemma {:induction false} FilterFresh(items: seq<(string, Room)>, b: string, buffer: int, r: Room)
    requires forall i :: 0 <= i < |items| ==> FreshItem(items[i], buffer)
    requires r in Grouping.Filter(items, b)
    ensures FreshItem((b, r), buffer)
  {
    var n := |items|;
    var f := Grouping.Filter(items[..n - 1], b);
    if items[n - 1].0 == b && r == items[n - 1].1 {
    } else {
      assert r in f by {
        if items[n - 1].0 == b { assert Grouping.Filter(items, b) == f + [items[n - 1].1]; }
      }
      FilterFresh(items[..n - 1], b, buffer, r);
    }
  }

  /** The blocks are distinct, appear in the order of their first usable
      row, every usable row's block is listed, and each block holds
      exactly the rooms of its rows, sorted. */
  lemma LayoutBlocks(rows: seq<RoomRow>, buffer: int)
    ensures forall i, j :: 0 <= i < j < |Layout(rows, buffer)| ==> Layout(rows, buffer)[i].name != Layout(rows, buffer)[j].name
    ensures forall k :: 0 <= k < |Layout(rows, buffer)| ==>
      Layout(rows, buffer)[k].rooms == SortRooms(Grouping.Filter(Items(rows, buffer), Layout(rows, buffer)[k].name))
    ensures forall i :: 0 <= i < |rows| && rows[i].capacity.Some? ==>
      exists k :: 0 <= k < |Layout(rows, buffer)| && Layout(rows, buffer)[k].name == Cells.Strip(rows[i].block)
  {
    var items := Items(rows, buffer);
    var d := Grouping.GroupBy(items);
    Grouping.GroupByDistinct(items);
    Grouping.GroupByItems(items);
    Grouping.GroupByKeys(items);
    forall i | 0 <= i < |rows| && rows[i].capacity.Some?
      ensures exists k :: 0 <= k < |Layout(rows, buffer)| && Layout(rows, buffer)[k].name == Cells.Strip(rows[i].block)
    {
      var j := ItemOf(rows, buffer, i);
      var k := Grouping.Find(d, items[j].0).value;
      assert Layout(rows, buffer)[k].name == d[k].key;
    }
  }

  /** A usable row makes an item. */
  lemma {:induction false} ItemOf(rows: seq<RoomRow>, buffer: int, i: int) returns (j: int)
    requires 0 <= i < |rows| && rows[i].capacity.Some?
    ensures 0 <= j < |Items(rows, buffer)| && Items(rows, buffer)[j] == (MakeRoom(rows[i], buffer).block, MakeRoom(rows[i], buffer))
  {
    var n := |rows|;
    var init := rows[..n - 1];
    if i < n - 1 {
      assert init[i] == rows[i];
      j := ItemOf(init, buffer, i);
      ItemsKeep(rows, buffer, j);
    } else {
      j := |Items(init, buffer)|;
      ItemsLast(rows, buffer);
    }
  }

  /** The items of all rows but the last come first. */
  lemma ItemsKeep(rows: seq<RoomRow>, buffer: int, j: int)
    requires rows != [] && 0 <= j < |Items(rows[..|rows| - 1], buffer)|
    ensures j < |Items(rows, buffer)| && Items(rows, buffer)[j] == Items(rows[..|rows| - 1], buffer)[j]
  {
  }

  /** A usable last row makes the last item. */
  lemma ItemsLast(rows: seq<RoomRow>, buffer: int)
    requires rows != [] && rows[|rows| - 1].capacity.Some?
    ensures var j, r := |Items(rows[..|rows| - 1], buffer)|, MakeRoom(rows[|rows| - 1], buffer);
      j < |Items(rows, buffer)| && Items(rows, buffer)[j] == (r.block, r)
  {
  }

  // ---------------------------------------------------------------------
  // The imperative builder

  /** build_rooms_generic / build_rooms: the dict of lists filled row by
      row with the running total, then each list sorted in place. */
  method BuildRooms(rows: seq<RoomRow>, buffer: int) returns (blocks: seq<Block>, total: int)
    ensures blocks == Layout(rows, buffer) && total == TotalEff(rows, buffer)
  {
    var d;
    d, total := CollectRows(rows, buffer);
    d := SortEach(d);
    blocks := ToBlocks(d);
    assert forall k :: 0 <= k < |blocks| ==> blocks[k] == Layout(rows, buffer)[k];
  }

  /** The row loop: skip a row whose capacity does not convert, otherwise
      append its room to its block and add its effective capacity. */
  method CollectRows(rows: seq<RoomRow>, buffer: int) returns (d: seq<Grouping.Entry<string, Room>>, total: int)
    ensures d == Grouping.GroupBy(Items(rows, buffer)) && total == TotalEff(rows, buffer)
  {
    d := [];
    total := 0;
    var i := 0;
    while i < |rows|
      invariant 0 <= i <= |rows|
      invariant d == Grouping.GroupBy(Items(rows[..i], buffer))
      invariant total == TotalEff(rows[..i], buffer)
    {
      RowStep(rows, buffer, i);
      d, total := AddRow(d, total, rows[i], buffer);
      i := i + 1;
    }
    assert rows[..i] == rows;
  }

  /** One pass of the row loop: an unusable row changes nothing, a usable
      one appends its room to its block and adds its effective capacity. */
  method AddRow(d0: seq<Grouping.Entry<string, Room>>, total0: int, row: RoomRow, buffer: int)
    returns (d: seq<Grouping.Entry<string, Room>>, total: int)
    ensures row.capacity == None ==> d == d0 && total == total0
    ensures row.capacity.Some? ==>
      d == Grouping.Add(d0, Cells.Strip(row.block), MakeRoom(row, buffer))
      && total == total0 + Max(0, row.capacity.value - buffer)
  {
    d, total := d0, total0;
    if row.capacity.Some? {
      var room := MakeRoom(row, buffer);
      d := Grouping.Add(d, room.block, room);
      total := total + room.eff;
    }
  }

  /** `for b in rooms_by_block: rooms_by_block[b].sort(key=...)`. */
  method SortEach(d0: seq<Grouping.Entry<string, Room>>) returns (d: seq<Grouping.Entry<string, Room>>)
    ensures |d| == |d0|
    ensures forall k :: 0 <= k < |d| ==> d[k] == Grouping.Entry(d0[k].key, SortRooms(d0[k].items))
  {
    d := d0;
    var b := 0;
    while b < |d|
      invariant 0 <= b <= |d| == |d0|
      invariant forall k :: 0 <= k < b ==> d[k] == Grouping.Entry(d0[k].key, SortRooms(d0[k].items))
      invariant forall k :: b <= k < |d| ==> d[k] == d0[k]
    {
      d := d[b := Grouping.Entry(d[b].key, SortRooms(d[b].items))];
      b := b + 1;
    }
  }

  /** One more row either leaves the dict and the total alone or appends
      its room to its block and adds its effective capacity. */
  lemma RowStep(rows: seq<RoomRow>, buffer: int, i: int)
    requires 0 <= i < |rows|
    ensures rows[i].capacity == None ==>
      Grouping.GroupBy(Items(rows[..i + 1], buffer)) == Grouping.GroupBy(Items(rows[..i], buffer))
      && TotalEff(rows[..i + 1], buffer) == TotalEff(rows[..i], buffer)
    ensures rows[i].capacity.Some? ==>
      Grouping.GroupBy(Items(rows[..i + 1], buffer))
        == Grouping.Add(Grouping.GroupBy(Items(rows[..i], buffer)), Cells.Strip(rows[i].block), MakeRoom(rows[i], buffer))
      && TotalEff(rows[..i + 1], buffer) == TotalEff(rows[..i], buffer) + Max(0, rows[i].capacity.value - buffer)
  {
    ItemsStep(rows, buffer, i);
    if rows[i].capacity == None {
      assert Items(rows[..i], buffer) + [] == Items(rows[..i], buffer);
    } else {
      Grouping.GroupBySnoc(Items(rows[..i], buffer), (Cells.Strip(rows[i].block), MakeRoom(rows[i], buffer)));
    }
  }

  lemma ItemsStep(rows: seq<RoomRow>, buffer: int, i: int)
    requires 0 <= i < |rows|
    ensures Items(rows[..i + 1], buffer) == Items(rows[..i], buffer) + RowItem(rows[i], buffer)
    ensures TotalEff(rows[..i + 1], buffer) == TotalEff(rows[..i], buffer) + RowEff(rows[i], buffer)
  {
    assert rows[..i + 1][..i] == rows[..i];
  }
}
