/** The per-slot driver of the seating program: the schedule rows are
    grouped by (date, slot) in the order the slots first occur, and each
    slot's subjects are allocated against a private copy of the room
    template, so no slot uses seats another slot took. */
module SeatGroups {
  import Grouping
  import opened SeatAlloc
  import SeatHall

  /** One schedule row: a subject with its rolls, sitting on a date in a
      slot. */
  datatype SlotRow = SlotRow(date: string, slot: string, subject: Subject)

  /** The schedule rows as `((date, slot), subject)` pairs. */
  function Keyed(rows: seq<SlotRow>): seq<((string, string), Subject)> {
    seq(|rows|, k requires 0 <= k < |rows| => ((rows[k].date, rows[k].slot), rows[k].subject))
  }

  /** `grouped[(date, slot)].append(subject)` over all rows. */
  function Slots(rows: seq<SlotRow>): seq<Grouping.Entry<(string, string), Subject>> {
    Grouping.GroupBy(Keyed(rows))
  }

  /** The subjects sitting on `date` in `slot`, in schedule order. */
  function SubjectsAt(rows: seq<SlotRow>, date: string, slot: string): seq<Subject> {
    if rows == [] then []
    else if rows[|rows| - 1].date == date && rows[|rows| - 1].slot == slot then
      SubjectsAt(rows[..|rows| - 1], date, slot) + [rows[|rows| - 1].subject]
    else SubjectsAt(rows[..|rows| - 1], date, slot)
  }

  lemma {:induction false} KeyedFilter(rows: seq<SlotRow>, date: string, slot: string)
    ensures Grouping.Filter(Keyed(rows), (date, slot)) == SubjectsAt(rows, date, slot)
  {
    if rows != [] {
      var init := rows[..|rows| - 1];
      KeyedFilter(init, date, slot);
      assert Keyed(rows)[..|rows| - 1] == Keyed(init);
    }
  }

  /** Every slot is listed once; each holds exactly the subjects of that
      date and slot, in schedule order, and at least one; and every row's
      slot is listed. */
  lemma SlotsExact(rows: seq<SlotRow>)
    ensures forall i, j :: 0 <= i < j < |Slots(rows)| ==> Slots(rows)[i].key != Slots(rows)[j].key
    ensures forall i :: 0 <= i < |Slots(rows)| ==>
      Slots(rows)[i].items == SubjectsAt(rows, Slots(rows)[i].key.0, Slots(rows)[i].key.1)
      && Slots(rows)[i].items != []
    ensures forall k :: 0 <= k < |rows| ==> Grouping.Find(Slots(rows), (rows[k].date, rows[k].slot)).Some?
  {
    var kv := Keyed(rows);
    Grouping.GroupByDistinct(kv);
    Grouping.GroupByItems(kv);
    Grouping.GroupByKeys(kv);
    var d := Slots(rows);
    forall i | 0 <= i < |d| ensures d[i].items == SubjectsAt(rows, d[i].key.0, d[i].key.1) {
      KeyedFilter(rows, d[i].key.0, d[i].key.1);
    }
    forall k | 0 <= k < |rows| ensures Grouping.Find(d, (rows[k].date, rows[k].slot)).Some? {
      assert kv[k].0 == (rows[k].date, rows[k].slot);
    }
  }

  /** The grouping loop. */
  method GroupRows(rows: seq<SlotRow>) returns (d: seq<Grouping.Entry<(string, string), Subject>>)
    ensures d == Slots(rows)
  {
    d := [];
    var i := 0;
    assert Keyed(rows)[..0] == [];
    while i < |rows|
      invariant 0 <= i <= |rows|
      invariant d == Grouping.GroupBy(Keyed(rows)[..i])
    {
      var s := rows[i];
      assert Keyed(rows)[..i + 1] == Keyed(rows)[..i] + [((s.date, s.slot), s.subject)];
      Grouping.GroupBySnoc(Keyed(rows)[..i], ((s.date, s.slot), s.subject));
      d := Grouping.Add(d, (s.date, s.slot), s.subject);
      i := i + 1;
    }
    assert Keyed(rows)[..i] == Keyed(rows);
  }

  /** The records one slot produced. */
  datatype SlotRun = SlotRun(date: string, slot: string, recs: seq<Record>)

  /** main's loop: each slot, in the order slots first occur, allocated
      against a fresh copy of the template. */
  method RunSlots(template: seq<Block>, rows: seq<SlotRow>, mode: Mode, skipEmpty: bool) returns (out: seq<SlotRun>)
    ensures |out| == |Slots(rows)|
    ensures forall i :: 0 <= i < |out| ==> out[i] == SlotResult(template, mode, skipEmpty, Slots(rows)[i])
  {
    var groups := GroupRows(rows);
    out := [];
    var i := 0;
    while i < |groups|
      invariant 0 <= i <= |groups| && |out| == i
      invariant forall j :: 0 <= j < i ==> out[j] == SlotResult(template, mode, skipEmpty, groups[j])
    {
      var run := RunSlot(template, mode, skipEmpty, groups[i]);
      out := out + [run];
      i := i + 1;
    }
  }

  /** The outcome of one slot: its date, its slot and the records of
      allocating its subjects against the template. */
  function SlotResult(template: seq<Block>, mode: Mode, skipEmpty: bool,
                      g: Grouping.Entry<(string, string), Subject>): SlotRun
  {
    SlotRun(g.key.0, g.key.1, Allocate(template, mode, skipEmpty, g.items).recs)
  }

  /** One slot: a fresh hall from the template allocates the slot's
      subjects. */
  method RunSlot(template: seq<Block>, mode: Mode, skipEmpty: bool,
                 g: Grouping.Entry<(string, string), Subject>) returns (run: SlotRun)
    ensures run == SlotResult(template, mode, skipEmpty, g)
  {
    var hall := new SeatHall.Hall(template);
    var recs := hall.AllocateSubjects(mode, skipEmpty, g.items);
    run := SlotRun(g.key.0, g.key.1, recs);
  }

  /** Within every slot, on a sound template, each subject's rolls are
      cut into records in order with matching seat counts, and no room
      ends with more remaining seats than the template gave it. */
  lemma SlotOutcome(template: seq<Block>, rows: seq<SlotRow>, mode: Mode, skipEmpty: bool, i: int)
    requires BlocksOk(template) && 0 <= i < |Slots(rows)|
    ensures var o := Allocate(template, mode, skipEmpty, Slots(rows)[i].items);
      AllRolls(o.recs) == RollsOf(Sorted(Slots(rows)[i].items)) && Counted(o.recs)
      && BlocksOk(o.blocks) && BlocksKept(template, o.blocks)
  {
    var subs := Sorted(Slots(rows)[i].items);
    AllocAllRolls(template, mode, skipEmpty, subs);
    AllocAllRooms(template, mode, skipEmpty, subs);
  }
}
