/**
 * The booked cells of a day: every `"<slot>-<court>"` key for which the
 * day's slot list holds a reservation. The booking form disables these
 * cells in the grid and drops the matching courts from the court menu.
 */
module BookedCells {
  import opened Seqs
  import opened Types
  import opened SlotGrid

  /** The key of every court a slot holds a reservation for, in enumeration order. */
  function SlotKeys(slot: Slot): (r: seq<string>)
    ensures |r| == |slot.reservationsByCourt|
    ensures forall e :: 0 <= e < |r| ==> r[e] == CellKey(slot.slotIndex, slot.reservationsByCourt[e].0)
  {
    seq(|slot.reservationsByCourt|, e requires 0 <= e < |slot.reservationsByCourt| =>
      CellKey(slot.slotIndex, slot.reservationsByCourt[e].0))
  }

  /** The keys of every slot, slot by slot. */
  function KeyLists(slots: seq<Slot>): (r: seq<seq<string>>)
    ensures |r| == |slots| && forall j :: 0 <= j < |slots| ==> r[j] == SlotKeys(slots[j])
  {
    seq(|slots|, j requires 0 <= j < |slots| => SlotKeys(slots[j]))
  }

  /** The keys of the cells with a reservation in slots `slots[..n]`. */
  function BookedUpTo(slots: seq<Slot>, n: int): set<string>
    requires 0 <= n <= |slots|
  {
    UnionUpTo(KeyLists(slots), n)
  }

  /** One more slot adds its own keys. */
  lemma BookedStep(slots: seq<Slot>, n: int)
    requires 0 <= n < |slots|
    ensures BookedUpTo(slots, n + 1) == BookedUpTo(slots, n) + Elements(SlotKeys(slots[n]))
  {
    assert KeyLists(slots)[n] == SlotKeys(slots[n]);
  }

  /** `bookedCells`: every `slotIndex-court` key of the day's reservations. */
  method ComputeBookedCells(slots: Option<seq<Slot>>) returns (cells: set<string>)
    ensures slots.None? ==> cells == {}
    ensures slots.Some? ==> cells == BookedUpTo(slots.value, |slots.value|)
  {
    cells := {};
    if slots.None? {
      return;
    }
    var ss := slots.value;
    var i := 0;
    while i < |ss|
      invariant 0 <= i <= |ss|
      invariant cells == BookedUpTo(ss, i)
    {
      cells := AddSlotKeys(cells, ss[i]);
      BookedStep(ss, i);
      i := i + 1;
    }
  }

  /** The inner `forEach`: the key of every court the slot holds a reservation for. */
  method AddSlotKeys(cells0: set<string>, slot: Slot) returns (cells: set<string>)
    ensures cells == cells0 + Elements(SlotKeys(slot))
  {
    cells := cells0;
    var entries := slot.reservationsByCourt;
    ghost var keys := SlotKeys(slot);
    var k := 0;
    while k < |entries|
      invariant 0 <= k <= |entries|
      invariant cells == cells0 + Elements(keys[..k])
    {
      var key := CellKey(slot.slotIndex, entries[k].0);
      assert key == keys[k];
      ElementsSnoc(keys, k);
      cells := cells + {key};
      k := k + 1;
    }
    assert keys[..|entries|] == keys;
  }

  lemma BookedMembers(slots: seq<Slot>, n: int, key: string)
    requires 0 <= n <= |slots|
    ensures key in BookedUpTo(slots, n) <==> exists j :: 0 <= j < n && key in SlotKeys(slots[j])
  {
    var lists := KeyLists(slots);
    UnionUpToMembers(lists, n, key);
    if key in BookedUpTo(slots, n) {
      var j :| 0 <= j < n && key in lists[j];
      assert key in SlotKeys(slots[j]);
    }
    if exists j :: 0 <= j < n && key in SlotKeys(slots[j]) {
      var j :| 0 <= j < n && key in SlotKeys(slots[j]);
      assert key in lists[j];
    }
  }

  /** Every booked key names a slot of the day and a court reserved in it, and conversely. */
  lemma BookedCellsDecode(slots: seq<Slot>, s: nat, c: nat)
    requires forall j :: 0 <= j < |slots| ==> slots[j].slotIndex >= 0
    requires forall j, e :: 0 <= j < |slots| && 0 <= e < |slots[j].reservationsByCourt| ==>
               slots[j].reservationsByCourt[e].0 >= 0
    ensures CellKey(s, c) in BookedUpTo(slots, |slots|) <==>
            exists j :: 0 <= j < |slots| && slots[j].slotIndex == s && HasCourt(slots[j], c)
  {
    BookedMembers(slots, |slots|, CellKey(s, c));
    if CellKey(s, c) in BookedUpTo(slots, |slots|) {
      var j :| 0 <= j < |slots| && CellKey(s, c) in SlotKeys(slots[j]);
      SlotKeyDecode(slots[j], s, c);
    }
    if exists j :: 0 <= j < |slots| && slots[j].slotIndex == s && HasCourt(slots[j], c) {
      var j :| 0 <= j < |slots| && slots[j].slotIndex == s && HasCourt(slots[j], c);
      SlotKeyDecode(slots[j], s, c);
    }
  }

  /** Within one slot: its keys are exactly its own index paired with its reserved courts. */
  lemma SlotKeyDecode(slot: Slot, s: nat, c: nat)
    requires slot.slotIndex >= 0
    requires forall e :: 0 <= e < |slot.reservationsByCourt| ==> slot.reservationsByCourt[e].0 >= 0
    ensures CellKey(s, c) in SlotKeys(slot) <==> slot.slotIndex == s && HasCourt(slot, c)
  {
    var keys := SlotKeys(slot);
    if CellKey(s, c) in keys {
      var e :| 0 <= e < |keys| && keys[e] == CellKey(s, c);
      CellKeyInjective(slot.slotIndex, slot.reservationsByCourt[e].0, s, c);
    }
    if slot.slotIndex == s && HasCourt(slot, c) {
      var e :| 0 <= e < |slot.reservationsByCourt| && slot.reservationsByCourt[e].0 == c;
      assert keys[e] == CellKey(s, c);
    }
  }
}
