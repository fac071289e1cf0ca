/**
 * The member lists: the `select` step shared by the member hook, the
 * accounts page, the member list page and the player picker. Each keeps
 * the fetched members that match the filter and orders them by first name;
 * the picker puts the already chosen players first. With an empty filter
 * the fetched array itself is sorted in place.
 */
module MemberLists {
  import opened Seqs
  import opened Text
  import opened Types
  import opened Utils

  /** Which filter a page applies. */
  datatype Matcher = SharedMatcher | ListPageMatcher

  /**
   * The member list page's own test: the trimmed, lower-cased filter
   * against the lower-cased first name, or the raw filter against the
   * lower-cased last name.
   */
  predicate ListPageMatches(m: Member, filter: string) {
    Contains(Lower(m.first_name), Lower(Trim(filter))) || Contains(Lower(m.last_name), filter)
  }

  predicate Keeps(rule: Matcher, m: Member, filter: string) {
    match rule
    case SharedMatcher => MemberMatchesFilter(m, filter)
    case ListPageMatcher => ListPageMatches(m, filter)
  }

  /** `data.filter(...)`: the matching members in their original order. */
  function FilterMembers(xs: seq<Member>, rule: Matcher, filter: string): (r: seq<Member>)
    ensures |r| <= |xs|
    ensures forall i :: 0 <= i < |r| ==> Keeps(rule, r[i], filter)
  {
    if |xs| == 0 then []
    else
      var rest := FilterMembers(xs[..|xs| - 1], rule, filter);
      if Keeps(rule, xs[|xs| - 1], filter) then rest + [xs[|xs| - 1]] else rest
  }

  /** The filter keeps every matching member as often as it occurs, and nothing else. */
  lemma {:induction false} FilterCounts(xs: seq<Member>, rule: Matcher, filter: string, m: Member)
    ensures multiset(FilterMembers(xs, rule, filter))[m] ==
            if Keeps(rule, m, filter) then multiset(xs)[m] else 0
  {
    if |xs| > 0 {
      var init := xs[..|xs| - 1];
      var x := xs[|xs| - 1];
      var rest := FilterMembers(init, rule, filter);
      assert xs == init + [x];
      assert multiset(xs) == multiset(init) + multiset{x};
      FilterCounts(init, rule, filter, m);
      if Keeps(rule, x, filter) {
        assert FilterMembers(xs, rule, filter) == rest + [x];
        assert multiset(rest + [x]) == multiset(rest) + multiset{x};
      } else {
        assert FilterMembers(xs, rule, filter) == rest;
      }
    }
  }

  /** The kept members stay in the fetched order. */
  lemma {:induction false} FilterMembersInOrder(xs: seq<Member>, rule: Matcher, filter: string)
    ensures IsSubsequence(FilterMembers(xs, rule, filter), xs)
  {
    if |xs| > 0 {
      var init := xs[..|xs| - 1];
      var x := xs[|xs| - 1];
      var rest := FilterMembers(init, rule, filter);
      assert init + [x] == xs;
      FilterMembersInOrder(init, rule, filter);
      SubsequenceSnoc(rest, init, x);
      if Keeps(rule, x, filter) {
        assert FilterMembers(xs, rule, filter) == rest + [x];
      } else {
        assert FilterMembers(xs, rule, filter) == rest;
      }
    }
  }

  /** Every member of `xs` passes the filter. */
  predicate AllKept(xs: seq<Member>, rule: Matcher, filter: string) {
    forall i :: 0 <= i < |xs| ==> Keeps(rule, xs[i], filter)
  }

  /** A filter that keeps everyone returns the list unchanged. */
  lemma {:induction false} FilterKeepsAll(xs: seq<Member>, rule: Matcher, filter: string)
    requires AllKept(xs, rule, filter)
    ensures FilterMembers(xs, rule, filter) == xs
  {
    if |xs| > 0 {
      var init := xs[..|xs| - 1];
      var x := xs[|xs| - 1];
      KeptPrefix(xs, rule, filter);
      FilterKeepsAll(init, rule, filter);
      assert init + [x] == xs;
    }
  }

  lemma KeptPrefix(xs: seq<Member>, rule: Matcher, filter: string)
    requires |xs| > 0 && AllKept(xs, rule, filter)
    ensures AllKept(xs[..|xs| - 1], rule, filter)
    ensures Keeps(rule, xs[|xs| - 1], filter)
  {
  }

  /** 0 for a chosen player, 1 for anyone else (so 1 for everyone when nobody is chosen). */
  function Rank(m: Member, selected: seq<string>): int {
    if m.id in selected then 0 else 1
  }

  /** The comparator's strict order: chosen first, then by first name. */
  predicate Before(a: Member, b: Member, selected: seq<string>) {
    Rank(a, selected) < Rank(b, selected) ||
    (Rank(a, selected) == Rank(b, selected) && LexLess(a.first_name, b.first_name))
  }

  predicate Sorted(s: seq<Member>, selected: seq<string>) {
    forall i, j :: 0 <= i < j < |s| ==> !Before(s[j], s[i], selected)
  }

  lemma BeforeAsym(a: Member, b: Member, selected: seq<string>)
    ensures !(Before(a, b, selected) && Before(b, a, selected))
    ensures !Before(a, b, selected) && !Before(b, a, selected) ==>
            Rank(a, selected) == Rank(b, selected) && a.first_name == b.first_name
  {
    LexTotal(a.first_name, b.first_name);
  }

  lemma BeforeTrans(a: Member, b: Member, c: Member, selected: seq<string>)
    requires Before(a, b, selected) && Before(b, c, selected)
    ensures Before(a, c, selected)
  {
    if Rank(a, selected) == Rank(b, selected) == Rank(c, selected) {
      LexTransitive(a.first_name, b.first_name, c.first_name);
    }
  }

  /** Not after `b`, and `b` not after `c`, means not after `c`. */
  lemma NotBeforeTrans(a: Member, b: Member, c: Member, selected: seq<string>)
    requires !Before(b, a, selected) && !Before(c, b, selected)
    ensures !Before(c, a, selected)
  {
    LexTotal(a.first_name, b.first_name);
    LexTotal(b.first_name, c.first_name);
    LexTotal(a.first_name, c.first_name);
    if Rank(a, selected) == Rank(b, selected) == Rank(c, selected) && LexLess(c.first_name, a.first_name) {
      if LexLess(c.first_name, b.first_name) {
      } else if c.first_name == b.first_name {
      } else {
        LexTransitive(b.first_name, c.first_name, a.first_name);
      }
    }
  }

  /** Places `x` before the first element it strictly precedes, after any equal ones. */
  function Insert(x: Member, s: seq<Member>, selected: seq<string>): (r: seq<Member>)
    ensures |r| == |s| + 1
    ensures multiset(r) == multiset(s) + multiset{x}
  {
    if |s| == 0 then [x]
    else if Before(x, s[0], selected) then [x] + s
    else
      var r := [s[0]] + Insert(x, s[1..], selected);
      assert s == [s[0]] + s[1..];
      r
  }

  lemma {:induction false} InsertSorted(x: Member, s: seq<Member>, selected: seq<string>)
    requires Sorted(s, selected)
    ensures Sorted(Insert(x, s, selected), selected)
  {
    if |s| > 0 && !Before(x, s[0], selected) {
      assert Sorted(s[1..], selected);
      InsertSorted(x, s[1..], selected);
      var r := Insert(x, s, selected);
      var tail := Insert(x, s[1..], selected);
      assert r == [s[0]] + tail;
      forall j | 0 < j < |r|
        ensures !Before(r[j], s[0], selected)
      {
        assert r[j] in multiset(tail);
        assert r[j] in multiset(s[1..]) + multiset{x};
        if r[j] in multiset(s[1..]) {
          var k :| 0 <= k < |s[1..]| && s[1..][k] == r[j];
          assert s[k + 1] == r[j];
        }
      }
    } else if |s| > 0 {
      var r := Insert(x, s, selected);
      assert r == [x] + s;
      forall j | 0 < j < |r|
        ensures !Before(r[j], x, selected)
      {
        BeforeAsym(x, s[0], selected);
        if j > 1 {
          assert !Before(s[j - 1], s[0], selected);
          if Before(r[j], x, selected) {
            BeforeTrans(s[j - 1], x, s[0], selected);
          }
        }
      }
    }
  }

  /** The stable sort by `Before` (insertion sort, one member at a time). */
  function SortMembers(xs: seq<Member>, selected: seq<string>): (r: seq<Member>)
    ensures |r| == |xs|
    ensures multiset(r) == multiset(xs)
  {
    if |xs| == 0 then []
    else
      var init := xs[..|xs| - 1];
      assert xs == init + [xs[|xs| - 1]];
      Insert(xs[|xs| - 1], SortMembers(init, selected), selected)
  }

  lemma {:induction false} SortMembersSorted(xs: seq<Member>, selected: seq<string>)
    ensures Sorted(SortMembers(xs, selected), selected)
  {
    if |xs| > 0 {
      SortMembersSorted(xs[..|xs| - 1], selected);
      InsertSorted(xs[|xs| - 1], SortMembers(xs[..|xs| - 1], selected), selected);
    }
  }

  /** What a list shows: all members sorted for an empty filter, else the matching ones. */
  function Shown(xs: seq<Member>, rule: Matcher, filter: string, selected: seq<string>): seq<Member> {
    if filter == "" then SortMembers(xs, selected)
    else SortMembers(FilterMembers(xs, rule, filter), selected)
  }

  /**
   * The shown list is ordered (chosen players first, then by first name)
   * and holds exactly the matching members, each as often as fetched.
   */
  lemma ShownSortedFiltered(xs: seq<Member>, rule: Matcher, filter: string, selected: seq<string>, m: Member)
    ensures Sorted(Shown(xs, rule, filter, selected), selected)
    ensures multiset(Shown(xs, rule, filter, selected))[m] ==
            if filter == "" || Keeps(rule, m, filter) then multiset(xs)[m] else 0
  {
    if filter == "" {
      SortMembersSorted(xs, selected);
    } else {
      SortMembersSorted(FilterMembers(xs, rule, filter), selected);
      FilterCounts(xs, rule, filter, m);
    }
  }

  /** In the picker, every chosen player comes before every other member. */
  lemma ChosenFirst(s: seq<Member>, selected: seq<string>, i: int, j: int)
    requires Sorted(s, selected) && 0 <= i < |s| && 0 <= j < |s|
    requires s[i].id !in selected && s[j].id in selected
    ensures j < i
  {
    assert Before(s[j], s[i], selected);
  }

  /** Among chosen players, and among the others, first names never decrease. */
  lemma GroupsByFirstName(s: seq<Member>, selected: seq<string>, i: int, j: int)
    requires Sorted(s, selected) && 0 <= i < j < |s|
    requires (s[i].id in selected) == (s[j].id in selected)
    ensures !LexLess(s[j].first_name, s[i].first_name)
  {
    assert !Before(s[j], s[i], selected);
  }

  /**
   * With the shared filter, a blank (whitespace-only) filter shows the same
   * members in the same order as the empty filter.
   */
  lemma BlankFilterShowsAll(xs: seq<Member>, filter: string, selected: seq<string>)
    requires AllSpace(filter)
    ensures Shown(xs, SharedMatcher, filter, selected) == Shown(xs, SharedMatcher, "", selected)
  {
    forall i | 0 <= i < |xs|
      ensures Keeps(SharedMatcher, xs[i], filter)
    {
      BlankFilterMatchesAll(xs[i], filter);
    }
    FilterKeepsAll(xs, SharedMatcher, filter);
  }

  /**
   * On the member list page, a filter holding an upper-case letter never
   * matches a last name, since the last name is lower-cased but the filter
   * is not.
   */
  lemma ListPageLastNameCaseSensitive(m: Member, filter: string, k: int)
    requires 0 <= k < |filter| && 'A' <= filter[k] <= 'Z'
    ensures ListPageMatches(m, filter) <==> Contains(Lower(m.first_name), Lower(Trim(filter)))
  {
    LowerLacksUpper(m.last_name, filter, k);
  }

  /** A lower-cased text never contains a pattern holding an upper-case letter. */
  lemma LowerLacksUpper(s: string, t: string, k: int)
    requires 0 <= k < |t| && 'A' <= t[k] <= 'Z'
    ensures !Contains(Lower(s), t)
  {
    var low := Lower(s);
    forall i | 0 <= i <= |low|
      ensures !OccursAt(low, t, i)
    {
      if i + |t| <= |low| {
        assert low[i..i + |t|][k] == low[i + k] == LowerChar(s[i + k]);
      }
    }
  }

  /** The first-name test on the list page ignores the case of the filter and the space around it. */
  lemma ListPageFirstNameIgnoresCase(m: Member, filter: string)
    ensures Contains(Lower(m.first_name), Lower(Trim(Upper(filter)))) <==>
            Contains(Lower(m.first_name), Lower(Trim(filter)))
  {
    TrimUpper(filter);
    LowerUpper(Trim(filter));
  }

  /** `Array.sort` on the fetched array: it ends up holding the sorted members. */
  method SortInPlace(a: array<Member>, selected: seq<string>)
    modifies a
    ensures a[..] == SortMembers(old(a[..]), selected)
  {
    var sorted := SortMembers(a[..], selected);
    var i := 0;
    while i < a.Length
      invariant 0 <= i <= a.Length
      invariant forall k :: 0 <= k < i ==> a[k] == sorted[k]
      invariant forall k :: i <= k < a.Length ==> a[k] == old(a[k])
    {
      a[i] := sorted[i];
      i := i + 1;
    }
    assert a[..] == sorted;
  }

  /**
   * The `select` step: with an empty filter the fetched array is sorted in
   * place and shown; otherwise a filtered copy is sorted and the fetched
   * array is left as it was.
   */
  method Select(data: array<Member>, rule: Matcher, filter: string, selected: seq<string>)
    returns (shown: seq<Member>)
    modifies data
    ensures shown == Shown(old(data[..]), rule, filter, selected)
    ensures filter == "" ==> data[..] == shown
    ensures filter != "" ==> data[..] == old(data[..])
  {
    if filter == "" {
      SortInPlace(data, selected);
      shown := data[..];
    } else {
      var kept := FilterMembers(data[..], rule, filter);
      shown := SortMembers(kept, selected);
    }
  }

  /** The picker's click: a chosen player is removed, anyone else added. */
  function ClickPlayer(players: seq<string>, id: string): (r: seq<string>)
    requires NoDuplicates(players)
    ensures NoDuplicates(r)
    ensures id in r <==> id !in players
    ensures forall k :: k != id ==> (k in r <==> k in players)
  {
    SetToggleFlips(players, id);
    SetToggle(players, id)
  }

  /**
   * The click as the Reserve page wires the picker: it passes only
   * `onSave`, so `addPlayer` and `removePlayer` are undefined, the handler
   * throws on either call, and the chosen players stay as they were.
   */
  function ClickPlayerAsWritten(players: seq<string>, id: string): (r: seq<string>)
    ensures r == players
  {
    players
  }

  /** As wired, a click never changes the chosen players, while the toggle always does. */
  lemma PickerClickLost(players: seq<string>, id: string)
    requires NoDuplicates(players)
    ensures ClickPlayerAsWritten(players, id) == players
    ensures ClickPlayer(players, id) != players
    ensures id !in players ==> id !in ClickPlayerAsWritten(players, id) && id in ClickPlayer(players, id)
  {
    assert id in ClickPlayer(players, id) <==> id !in players;
  }

  /** The picker's button label. */
  function PickerLabel(players: seq<string>): (caption: string)
    ensures |players| > 0 ==> caption == IntToString(|players|) + " selected"
    ensures |players| == 0 ==> caption == "Select players"
  {
    if |players| > 0 then IntToString(|players|) + " selected" else "Select players"
  }
}
