/**
 * The league/club booking grid: nine time slots by four courts. Each cell is
 * identified by the key `"<slot>-<court>"`; the booking form decodes the
 * keys again by splitting on `-`.
 */
module SlotGrid {
  import opened Seqs
  import opened Text

  const SlotLabels: seq<string> := [
    "8:30 - 10:00 am", "10:00 - 11:30 am", "11:30 - 1:00 pm",
    "1:00 - 2:30 pm", "2:30 - 4:00 pm", "4:00 - 5:30 pm",
    "5:30 - 7:00 pm", "7:00 - 8:30 pm", "8:30 - 10:00 pm"]

  const Courts: seq<int> := [1, 2, 3, 4]

  /** `` `${slot}-${court}` `` */
  function CellKey(slot: int, court: int): string {
    IntToString(slot) + "-" + IntToString(court)
  }

  /** `Number(key.split("-")[0])` and `Number(key.split("-")[1])`; `None` is NaN. */
  function DecodeKey(key: string): (Option<nat>, Option<nat>) {
    var parts := Split(key, "-");
    (JsNumber(parts[0]), if |parts| > 1 then JsNumber(parts[1]) else None)
  }

  lemma NatSplitsCleanly(n: nat)
    ensures SplitsCleanly(NatToString(n), "-")
  {
    NoSepCharSplitsCleanly(NatToString(n), "-");
  }

  /** Decoding a key gives back the slot and court it was built from. */
  lemma DecodeCellKey(slot: nat, court: nat)
    ensures DecodeKey(CellKey(slot, court)) == (Some(slot), Some(court))
  {
    var parts := [NatToString(slot), NatToString(court)];
    assert Join(parts, "-") == CellKey(slot, court) by {
      assert Join(parts[1..], "-") == NatToString(court);
    }
    NatSplitsCleanly(slot);
    NatSplitsCleanly(court);
    SplitJoin(parts, "-");
    JsNumberOfNat(slot);
    JsNumberOfNat(court);
  }

  /** Distinct cells have distinct keys. */
  lemma CellKeyInjective(s1: nat, c1: nat, s2: nat, c2: nat)
    ensures CellKey(s1, c1) == CellKey(s2, c2) <==> s1 == s2 && c1 == c2
  {
    DecodeCellKey(s1, c1);
    DecodeCellKey(s2, c2);
  }

  /** What one button of the grid shows and does. */
  datatype Cell = Cell(slot: int, court: int, key: string, disabled: bool, mark: string)

  /** Booked beats selected beats empty. */
  function Mark(isBooked: bool, isSelected: bool): string {
    if isBooked then "—" else if isSelected then "✓" else ""
  }

  function MakeCell(slot: int, court: int, selected: seq<string>, booked: set<string>): Cell {
    var key := CellKey(slot, court);
    Cell(slot, court, key, key in booked, Mark(key in booked, key in selected))
  }

  /** The rendered grid: row `i` is slot `i + 1`, column `j` is court `j + 1`. */
  function Grid(selected: seq<string>, booked: set<string>): (rows: seq<seq<Cell>>)
    ensures |rows| == |SlotLabels| == 9
    ensures forall i :: 0 <= i < |rows| ==> |rows[i]| == |Courts| == 4
    ensures forall i, j :: 0 <= i < |rows| && 0 <= j < |rows[i]| ==>
              rows[i][j].slot == i + 1 && rows[i][j].court == Courts[j] &&
              rows[i][j].key == CellKey(i + 1, j + 1) &&
              (rows[i][j].disabled <==> CellKey(i + 1, j + 1) in booked)
    ensures forall i, j :: 0 <= i < |rows| && 0 <= j < |rows[i]| ==>
              rows[i][j].mark == (if rows[i][j].disabled then "—"
                                  else if rows[i][j].key in selected then "✓" else "")
  {
    seq(|SlotLabels|, i requires 0 <= i < |SlotLabels| =>
      seq(|Courts|, j requires 0 <= j < |Courts| => MakeCell(i + 1, Courts[j], selected, booked)))
  }

  /** Clicking a cell: a disabled (booked) button ignores the click, any other toggles its key. */
  function Click(cell: Cell, selected: seq<string>): (r: seq<string>)
    requires NoDuplicates(selected)
    ensures NoDuplicates(r)
    ensures cell.disabled ==> r == selected
    ensures !cell.disabled ==> (cell.key in r <==> cell.key !in selected)
    ensures forall k :: k != cell.key ==> (k in r <==> k in selected)
  {
    SetToggleFlips(selected, cell.key);
    if cell.disabled then selected else SetToggle(selected, cell.key)
  }

  /** A booked cell can never enter the selection by clicking. */
  lemma BookedCellStaysOut(rows: seq<seq<Cell>>, selected: seq<string>, booked: set<string>, i: int, j: int)
    requires rows == Grid(selected, booked) && NoDuplicates(selected)
    requires 0 <= i < 9 && 0 <= j < 4
    requires CellKey(i + 1, j + 1) in booked
    ensures Click(rows[i][j], selected) == selected
    ensures rows[i][j].mark == "—"
  {
  }
}
