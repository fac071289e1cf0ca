/**
 * "My Reservations": the member's upcoming reservations grouped under their
 * dates, each showing its courts, its time range, a type badge and, when
 * the member may manage it, a Cancel button.
 */
module Reservations {
  import opened Seqs
  import opened Text
  import opened Types

  /** The en dash that separates the two ends of a slot's time range. */
  const Dash: string := " – "

  /** Slot `i` (1-9) runs from `SlotStart[i - 1]` to `SlotEnd[i - 1]`. */
  const SlotStart: seq<string> := ["8:30", "10:00", "11:30", "1:00", "2:30", "4:00", "5:30", "7:00", "8:30"]
  const SlotEnd: seq<string> := ["10:00 am", "11:30 am", "1:00 pm", "2:30 pm", "4:00 pm",
                                 "5:30 pm", "7:00 pm", "8:30 pm", "10:00 pm"]

  /** `TIME_SLOTS`: index 0 is blank so that slot numbers index it directly. */
  const TimeSlots: seq<string> := [
    "",
    "8:30 – 10:00 am",
    "10:00 – 11:30 am",
    "11:30 – 1:00 pm",
    "1:00 – 2:30 pm",
    "2:30 – 4:00 pm",
    "4:00 – 5:30 pm",
    "5:30 – 7:00 pm",
    "7:00 – 8:30 pm",
    "8:30 – 10:00 pm"]

  /** `s` does not contain the character `c`. */
  predicate Lacks(s: string, c: char) {
    forall k :: 0 <= k < |s| ==> s[k] != c
  }

  /** Every label is its start, the dash and its end, and neither end holds the en dash itself. */
  lemma TimeSlotParts(i: int)
    requires 1 <= i <= 9
    ensures TimeSlots[i] == SlotStart[i - 1] + Dash + SlotEnd[i - 1]
    ensures Lacks(SlotStart[i - 1], Dash[1]) && Lacks(SlotEnd[i - 1], Dash[1])
  {
    if i <= 3 {
      MorningLabels(i);
    } else if i <= 6 {
      AfternoonLabels(i);
    } else {
      EveningLabels(i);
    }
  }

  /** Slots 1 to 3: each label is its start, the dash and its end. */
  lemma MorningLabels(i: int)
    requires 1 <= i <= 3
    ensures TimeSlots[i] == SlotStart[i - 1] + Dash + SlotEnd[i - 1]
  {
    if i == 1 {
      assert TimeSlots[1] == SlotStart[0] + Dash + SlotEnd[0];
    } else if i == 2 {
      assert TimeSlots[2] == SlotStart[1] + Dash + SlotEnd[1];
    } else {
      assert TimeSlots[3] == SlotStart[2] + Dash + SlotEnd[2];
    }
  }

  /** Slots 4 to 6: each label is its start, the dash and its end. */
  lemma AfternoonLabels(i: int)
    requires 4 <= i <= 6
    ensures TimeSlots[i] == SlotStart[i - 1] + Dash + SlotEnd[i - 1]
  {
    if i == 4 {
      assert TimeSlots[4] == SlotStart[3] + Dash + SlotEnd[3];
    } else if i == 5 {
      assert TimeSlots[5] == SlotStart[4] + Dash + SlotEnd[4];
    } else {
      assert TimeSlots[6] == SlotStart[5] + Dash + SlotEnd[5];
    }
  }

  /** Slots 7 to 9: each label is its start, the dash and its end. */
  lemma EveningLabels(i: int)
    requires 7 <= i <= 9
    ensures TimeSlots[i] == SlotStart[i - 1] + Dash + SlotEnd[i - 1]
  {
    if i == 7 {
      assert TimeSlots[7] == SlotStart[6] + Dash + SlotEnd[6];
    } else if i == 8 {
      assert TimeSlots[8] == SlotStart[7] + Dash + SlotEnd[7];
    } else {
      assert TimeSlots[9] == SlotStart[8] + Dash + SlotEnd[8];
    }
  }

  /** `item.slots?.length ? item.slots : [item.slot]`. */
  function SlotsOf(item: Reservation): (slots: seq<int>)
    ensures |slots| > 0
    ensures item.slots.Some? && |item.slots.value| > 0 ==> slots == item.slots.value
    ensures item.slots.None? || |item.slots.value| == 0 ==> slots == [item.slot]
  {
    if item.slots.Some? && |item.slots.value| > 0 then item.slots.value else [item.slot]
  }

  /** `item.courts?.length ? item.courts : [item.court]`. */
  function CourtsOf(item: Reservation): (courts: seq<int>)
    ensures |courts| > 0
    ensures item.courts.Some? && |item.courts.value| > 0 ==> courts == item.courts.value
    ensures item.courts.None? || |item.courts.value| == 0 ==> courts == [item.court]
  {
    if item.courts.Some? && |item.courts.value| > 0 then item.courts.value else [item.court]
  }

  /** The reservation's slot numbers all name one of the nine slots. */
  predicate SlotsInRange(item: Reservation) {
    forall k :: 0 <= k < |SlotsOf(item)| ==> 1 <= SlotsOf(item)[k] <= 9
  }

  /** The start of label `lo`'s split at the dash, the dash, then the end of label `hi`'s split. */
  function RangeLabel(lo: int, hi: int): string
    requires 0 <= lo < |TimeSlots| && 0 <= hi < |TimeSlots|
  {
    var start := Split(TimeSlots[lo], Dash)[0];
    var endParts := Split(TimeSlots[hi], Dash);
    if |endParts| > 1 then start + Dash + endParts[1] else start + Dash + "undefined"
  }

  /**
   * `getSlotsDisplay`: one slot shows its label; several show the start of
   * the earliest slot's label and the end of the latest slot's label.
   */
  function SlotsDisplay(item: Reservation): string
    requires SlotsInRange(item)
  {
    var slots := SlotsOf(item);
    if |slots| == 1 then TimeSlots[slots[0]]
    else RangeLabel(SeqMin(slots), SeqMax(slots))
  }

  lemma SplitLabel(i: int)
    requires 1 <= i <= 9
    ensures Split(TimeSlots[i], Dash) == [SlotStart[i - 1], SlotEnd[i - 1]]
  {
    TimeSlotParts(i);
    var parts := [SlotStart[i - 1], SlotEnd[i - 1]];
    assert Join(parts, Dash) == TimeSlots[i] by {
      assert Join(parts[1..], Dash) == SlotEnd[i - 1];
    }
    SepCharSplitsCleanly(SlotStart[i - 1], Dash, 1);
    SepCharSplitsCleanly(SlotEnd[i - 1], Dash, 1);
    SplitJoin(parts, Dash);
  }

  /** Between two real slots the range label runs from the first's start to the second's end. */
  lemma RangeLabelValue(lo: int, hi: int)
    requires 1 <= lo <= 9 && 1 <= hi <= 9
    ensures RangeLabel(lo, hi) == SlotStart[lo - 1] + Dash + SlotEnd[hi - 1]
  {
    SplitLabel(lo);
    SplitLabel(hi);
  }

  /**
   * A reservation over several slots reads from the start of its earliest
   * slot to the end of its latest, whatever order the slots come in; a
   * single slot reads as that slot's own label.
   */
  lemma SlotsDisplayRange(item: Reservation)
    requires SlotsInRange(item)
    ensures |SlotsOf(item)| == 1 ==> SlotsDisplay(item) == TimeSlots[SlotsOf(item)[0]]
    ensures |SlotsOf(item)| > 1 ==>
              SlotsDisplay(item) == SlotStart[SeqMin(SlotsOf(item)) - 1] + Dash + SlotEnd[SeqMax(SlotsOf(item)) - 1]
  {
    var slots := SlotsOf(item);
    if |slots| > 1 {
      var lo := SeqMin(slots);
      var hi := SeqMax(slots);
      assert 1 <= lo <= 9 && 1 <= hi <= 9;
      RangeLabelValue(lo, hi);
    }
  }

  /** `courts.join(", ")` on numbers. */
  function CourtList(courts: seq<int>): (parts: seq<string>)
    ensures |parts| == |courts|
    ensures forall k :: 0 <= k < |courts| ==> parts[k] == IntToString(courts[k])
  {
    seq(|courts|, k requires 0 <= k < |courts| => IntToString(courts[k]))
  }

  /** `getCourtsDisplay`: "Court n" for one court, otherwise "Courts " and the list. */
  function CourtsDisplay(item: Reservation): string {
    var courts := CourtsOf(item);
    if |courts| == 1 then "Court " + IntToString(courts[0])
    else "Courts " + Join(CourtList(courts), ", ")
  }

  /**
   * One court reads "Court n"; several read "Courts " followed by a list
   * that splits back on ", " into the courts' numbers, in the given order.
   */
  lemma CourtsDisplayReadsBack(item: Reservation)
    requires forall k :: 0 <= k < |CourtsOf(item)| ==> CourtsOf(item)[k] >= 0
    ensures |CourtsOf(item)| == 1 ==> CourtsDisplay(item) == "Court " + IntToString(CourtsOf(item)[0])
    ensures |CourtsOf(item)| > 1 ==>
              CourtsDisplay(item)[..7] == "Courts " &&
              Split(CourtsDisplay(item)[7..], ", ") == CourtList(CourtsOf(item))
  {
    var courts := CourtsOf(item);
    if |courts| > 1 {
      var parts := CourtList(courts);
      forall k | 0 <= k < |parts|
        ensures SplitsCleanly(parts[k], ", ")
      {
        NoSepCharSplitsCleanly(parts[k], ", ");
      }
      SplitJoin(parts, ", ");
      assert ("Courts " + Join(parts, ", "))[7..] == Join(parts, ", ");
    }
  }

  /** One date heading and the reservations listed under it. */
  datatype Group = Group(date: string, items: seq<Reservation>)

  function DatesOf(groups: seq<Group>): (dates: seq<string>)
    ensures |dates| == |groups|
    ensures forall g :: 0 <= g < |groups| ==> dates[g] == groups[g].date
  {
    seq(|groups|, g requires 0 <= g < |groups| => groups[g].date)
  }

  function ItemsOf(groups: seq<Group>): (rows: seq<seq<Reservation>>)
    ensures |rows| == |groups|
    ensures forall g :: 0 <= g < |groups| ==> rows[g] == groups[g].items
  {
    seq(|groups|, g requires 0 <= g < |groups| => groups[g].items)
  }

  /**
   * One step of the grouping loop: a date not seen before opens a new group;
   * the reservation always joins the last group.
   */
  function Place(groups: seq<Group>, r: Reservation): (result: seq<Group>)
    ensures |result| > 0
  {
    if r.date !in DatesOf(groups) || |groups| == 0 then groups + [Group(r.date, [r])]
    else
      var last := groups[|groups| - 1];
      groups[..|groups| - 1] + [Group(last.date, last.items + [r])]
  }

  /** The groups the loop has built after the reservations of `list`. */
  function Grouping(list: seq<Reservation>): seq<Group> {
    if |list| == 0 then [] else Place(Grouping(list[..|list| - 1]), list[|list| - 1])
  }

  /** The `byDate` loop, keeping the dates seen so far in a `Set`. */
  method GroupByDate(list: seq<Reservation>) returns (byDate: seq<Group>)
    ensures byDate == Grouping(list)
  {
    byDate := [];
    var seen: seq<string> := [];
    var n := 0;
    while n < |list|
      invariant 0 <= n <= |list|
      invariant byDate == Grouping(list[..n])
      invariant seen == DatesOf(byDate)
    {
      var r := list[n];
      assert list[..n + 1][..n] == list[..n];
      assert Grouping(list[..n + 1]) == Place(byDate, r);
      var before := byDate;
      if r.date !in seen {
        seen := seen + [r.date];
        byDate := byDate + [Group(r.date, [])];
        assert byDate[..|byDate| - 1] == before;
      }
      var last := byDate[|byDate| - 1];
      byDate := byDate[..|byDate| - 1] + [Group(last.date, last.items + [r])];
      if r.date !in DatesOf(before) {
        assert last.items + [r] == [r];
        assert byDate == before + [Group(r.date, [r])];
      } else {
        assert |before| > 0;
      }
      assert DatesOf(byDate) == seen;
      n := n + 1;
    }
    assert list[..n] == list;
  }

  lemma ItemsOfPlace(groups: seq<Group>, r: Reservation)
    ensures Flatten(ItemsOf(Place(groups, r))) == Flatten(ItemsOf(groups)) + [r]
  {
    var result := Place(groups, r);
    if r.date !in DatesOf(groups) || |groups| == 0 {
      assert ItemsOf(result) == ItemsOf(groups) + [[r]];
      FlattenAppend(ItemsOf(groups), [r]);
    } else {
      var n := |groups| - 1;
      var init := groups[..n];
      var last := groups[n];
      assert ItemsOf(groups) == ItemsOf(init) + [last.items];
      assert ItemsOf(result) == ItemsOf(init) + [last.items + [r]];
      FlattenAppend(ItemsOf(init), last.items);
      FlattenAppend(ItemsOf(init), last.items + [r]);
    }
  }

  /** Grouping loses no reservation and keeps their order. */
  lemma {:induction false} GroupingKeepsItems(list: seq<Reservation>)
    ensures Flatten(ItemsOf(Grouping(list))) == list
  {
    if |list| > 0 {
      var init := list[..|list| - 1];
      GroupingKeepsItems(init);
      ItemsOfPlace(Grouping(init), list[|list| - 1]);
      assert init + [list[|list| - 1]] == list;
    }
  }

  /**
   * Each date opens exactly one group: the group dates are distinct and are
   * exactly the dates of the list.
   */
  /** The first group opens with the list's first reservation, under its date. */
  lemma {:induction false} GroupingFirst(list: seq<Reservation>)
    requires |list| > 0
    ensures |Grouping(list)| > 0 && |Grouping(list)[0].items| > 0
    ensures Grouping(list)[0].items[0] == list[0]
    ensures Grouping(list)[0].date == list[0].date
  {
    var init := list[..|list| - 1];
    if |init| > 0 {
      GroupingFirst(init);
      assert init[0] == list[0];
    }
  }

  lemma {:induction false} GroupingDates(list: seq<Reservation>)
    ensures NoDuplicates(DatesOf(Grouping(list)))
    ensures forall d :: d in DatesOf(Grouping(list)) <==> exists i :: 0 <= i < |list| && list[i].date == d
  {
    if |list| > 0 {
      var n := |list| - 1;
      var init := list[..n];
      var r := list[n];
      GroupingDates(init);
      var groups := Grouping(init);
      if r.date !in DatesOf(groups) || |groups| == 0 {
        assert DatesOf(Grouping(list)) == DatesOf(groups) + [r.date];
      } else {
        assert DatesOf(Grouping(list)) == DatesOf(groups);
      }
      forall d
        ensures d in DatesOf(Grouping(list)) <==> exists i :: 0 <= i < |list| && list[i].date == d
      {
        if exists i :: 0 <= i < |list| && list[i].date == d {
          var i :| 0 <= i < |list| && list[i].date == d;
          if i < n {
            assert init[i].date == d;
          }
        }
        if exists i :: 0 <= i < n && init[i].date == d {
          var i :| 0 <= i < n && init[i].date == d;
          assert list[i].date == d;
        }
      }
    }
  }

  /** Reservations with equal dates come together in the list. */
  ghost predicate Adjacent(list: seq<Reservation>) {
    forall i, j, k :: 0 <= i < j < k < |list| && list[i].date == list[k].date ==> list[j].date == list[i].date
  }

  /** Every reservation of every group carries that group's date. */
  ghost predicate WellGrouped(groups: seq<Group>) {
    forall g, k :: 0 <= g < |groups| && 0 <= k < |groups[g].items| ==> groups[g].items[k].date == groups[g].date
  }

  /** Placing a reservation whose date is the last group's date, or a new date, keeps groups pure. */
  lemma PlaceWellGrouped(groups: seq<Group>, r: Reservation)
    requires WellGrouped(groups)
    requires r.date in DatesOf(groups) && |groups| > 0 ==> groups[|groups| - 1].date == r.date
    ensures WellGrouped(Place(groups, r))
    ensures Place(groups, r)[|Place(groups, r)| - 1].date == r.date
  {
  }

  /** In an adjacent list, a date seen before the last item is the date of the item just before it. */
  lemma AdjacentLast(list: seq<Reservation>, i: int)
    requires Adjacent(list) && 0 <= i < |list| - 1
    requires list[i].date == list[|list| - 1].date
    ensures list[|list| - 2].date == list[|list| - 1].date
  {
    if i < |list| - 2 {
      assert list[|list| - 2].date == list[i].date;
    }
  }

  /**
   * When equal dates are adjacent every reservation lands under its own
   * date, and the last group holds the last reservation's date.
   */
  lemma {:induction false} GroupingAdjacent(list: seq<Reservation>)
    requires Adjacent(list)
    ensures WellGrouped(Grouping(list))
    ensures |list| > 0 ==> (|Grouping(list)| > 0 &&
              Grouping(list)[|Grouping(list)| - 1].date == list[|list| - 1].date)
  {
    if |list| > 0 {
      var n := |list| - 1;
      var init := list[..n];
      var r := list[n];
      assert Adjacent(init) by {
        forall i, j, k | 0 <= i < j < k < |init| && init[i].date == init[k].date
          ensures init[j].date == init[i].date
        {
          assert list[i] == init[i] && list[j] == init[j] && list[k] == init[k];
        }
      }
      GroupingAdjacent(init);
      var groups := Grouping(init);
      if r.date in DatesOf(groups) && |groups| > 0 {
        GroupingDates(init);
        var i :| 0 <= i < n && init[i].date == r.date;
        AdjacentLast(list, i);
        assert init[n - 1] == list[n - 1];
      }
      PlaceWellGrouped(groups, r);
    }
  }

  /**
   * Grouping trusts the order: with dates d1, d2, d1 the third reservation
   * is appended to the d2 group, since a seen date never reopens its group.
   */
  lemma GroupingSplitRun(a: Reservation, b: Reservation, c: Reservation)
    requires a.date == c.date && a.date != b.date
    ensures Grouping([a, b, c]) == [Group(a.date, [a]), Group(b.date, [b, c])]
    ensures !WellGrouped(Grouping([a, b, c]))
  {
    assert [a, b, c][..2] == [a, b];
    assert [a, b][..1] == [a];
    assert [a][..0] == [];
    assert Grouping([a]) == [Group(a.date, [a])];
    assert Grouping([a, b]) == [Group(a.date, [a]), Group(b.date, [b])];
    var ab := Grouping([a, b]);
    assert DatesOf(ab) == [a.date, b.date];
    assert Grouping([a, b, c]) == Place(ab, c);
    assert ab[..1] == [Group(a.date, [a])];
    assert [b] + [c] == [b, c];
    var groups := Grouping([a, b, c]);
    assert groups[1].items[1].date != groups[1].date;
  }

  /** `TYPE_BADGE[item.type ?? "REGULAR"]`: a label and style, or none for an unknown type. */
  function Badge(kind: Option<string>): (badge: Option<(string, string)>)
    ensures kind.None? ==> badge == Some(("Play on your own", "bg-blue-100 text-blue-700"))
    ensures badge.Some? <==> kind.None? || kind.value in ["REGULAR", "LEAGUE", "CLUB"]
  {
    var key := if kind.Some? then kind.value else "REGULAR";
    if key == "REGULAR" then Some(("Play on your own", "bg-blue-100 text-blue-700"))
    else if key == "LEAGUE" then Some(("League", "bg-green-100 text-green-700"))
    else if key == "CLUB" then Some(("Club", "bg-purple-100 text-purple-700"))
    else None
  }

  /** Cancel is offered only where the server says the member may manage the reservation. */
  predicate CancelShown(item: Reservation) {
    item.can_manage == Some(true)
  }

  /** The empty state ("No upcoming reservations") shows exactly when there are no groups. */
  lemma EmptyIffNoReservations(list: seq<Reservation>)
    ensures |Grouping(list)| == 0 <==> |list| == 0
  {
    GroupingKeepsItems(list);
  }
}
