/**
 * The member home page: a greeting chosen by the hour of the day and a
 * preview of the next few upcoming reservations, labelled with the same
 * slot-range and court rules as the reservations page.
 */
module Home {
  import opened Seqs
  import opened Types
  import opened Reservations

  /** `getGreeting`; the clock's hour is passed in. */
  function Greeting(hour: int): (g: string)
    ensures g == "Good morning" <==> hour < 11
    ensures g == "Good afternoon" <==> 11 <= hour < 17
    ensures g == "Good evening" <==> hour >= 17
  {
    if hour < 11 then "Good morning"
    else if hour < 17 then "Good afternoon"
    else "Good evening"
  }

  /** How many upcoming reservations the home page previews. */
  const PreviewSize: nat := 3

  /** `(data?.data ?? []).slice(0, 3)`. */
  function Preview(data: Option<seq<Reservation>>): (upcoming: seq<Reservation>)
    ensures data.None? ==> upcoming == []
    ensures data.Some? ==> |upcoming| == Min(PreviewSize, |data.value|)
    ensures data.Some? ==> upcoming == data.value[..|upcoming|]
  {
    if data.Some? then Take(data.value, PreviewSize) else []
  }

  /**
   * The preview is the start of what the reservations page shows: the first
   * reservations of its groups, taken in order, and it opens with the first
   * reservation of the first date group.
   */
  lemma PreviewLeadsReservations(list: seq<Reservation>)
    ensures Preview(Some(list)) == Take(Flatten(ItemsOf(Grouping(list))), PreviewSize)
    ensures |list| > 0 ==>
              |Grouping(list)| > 0 && |Grouping(list)[0].items| > 0 &&
              Preview(Some(list))[0] == Grouping(list)[0].items[0]
  {
    GroupingKeepsItems(list);
    if |list| > 0 {
      GroupingFirst(list);
    }
  }
}
