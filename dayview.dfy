/**
 * The calendar's day view: one row per slot of the day, one column per
 * court. A reserved cell shows the reservation's name and its players two
 * to a line; a free cell links to the booking form with the date, slot and
 * court filled in.
 */
module DayView {
  import opened Seqs
  import opened Text
  import opened Dates
  import opened Types
  import opened Reserve

  /** A decimal digit, or with `hex` also a letter `a`-`f` in either case. */
  predicate IsRadixDigit(c: char, hex: bool) {
    IsDigit(c) || (hex && ('a' <= c <= 'f' || 'A' <= c <= 'F'))
  }

  /** The value of a digit of the radix; other characters are never read, so 0 stands in. */
  function RadixDigit(c: char, hex: bool): (v: nat)
    ensures IsRadixDigit(c, hex) ==> v < if hex then 16 else 10
  {
    if IsDigit(c) then c as int - '0' as int
    else if hex && 'a' <= c <= 'f' then c as int - 'a' as int + 10
    else if hex && 'A' <= c <= 'F' then c as int - 'A' as int + 10
    else 0
  }

  /** The longest prefix of `s` made of digits of the radix (16 with `hex`, else 10). */
  function DigitPrefix(s: string, hex: bool): (p: string)
    ensures |p| <= |s| && p == s[..|p|]
    ensures forall i :: 0 <= i < |p| ==> IsRadixDigit(p[i], hex)
    ensures |p| < |s| ==> !IsRadixDigit(s[|p|], hex)
  {
    if |s| == 0 || !IsRadixDigit(s[0], hex) then "" else [s[0]] + DigitPrefix(s[1..], hex)
  }

  /** The value of a run of digits in the radix, most significant first. */
  function RadixValue(s: string, hex: bool): nat {
    if |s| == 0 then 0
    else (if hex then 16 else 10) * RadixValue(s[..|s| - 1], hex) + RadixDigit(s[|s| - 1], hex)
  }

  /** Without a radix argument, a leading `0x` or `0X` selects base 16. */
  predicate HexPrefixed(u: string) {
    |u| >= 2 && u[0] == '0' && (u[1] == 'x' || u[1] == 'X')
  }

  /** The text after the sign, less the `0x` prefix when there is one. */
  function Unprefixed(u: string): string {
    if HexPrefixed(u) then u[2..] else u
  }

  /** The text after the sign: the `0x` prefix if any, then the run of digits; `None` is NaN. */
  function ParseUnsigned(u: string): Option<nat> {
    var hex := HexPrefixed(u);
    var digits := DigitPrefix(Unprefixed(u), hex);
    if |digits| == 0 then None else Some(RadixValue(digits, hex))
  }

  /**
   * `parseInt(s)` without a radix: leading white space is skipped, a sign is
   * allowed, a `0x` or `0X` prefix switches to base 16, and the longest run
   * of digits of that base is read; `None` is NaN.
   */
  function ParseInt(s: string): Option<int> {
    ParseSigned(TrimStart(s))
  }

  /** `parseInt` once the white space is skipped: the sign, then the unsigned reading. */
  function ParseSigned(t: string): Option<int> {
    var n := ParseUnsigned(SignFree(t));
    if n.None? then None
    else if |t| > 0 && t[0] == '-' then Some(-(n.value as int))
    else Some(n.value)
  }

  /**
   * NaN exactly when no digit of the base follows the white space, the sign
   * and the `0x` prefix; otherwise the value read, negated after a `-`.
   */
  lemma ParseIntNaN(s: string)
    ensures var u := SignFree(TrimStart(s));
            ParseInt(s).None? <==> |DigitPrefix(Unprefixed(u), HexPrefixed(u))| == 0
    ensures var t := TrimStart(s);
            ParseInt(s).Some? && |t| > 0 && t[0] == '-' ==> ParseInt(s).value <= 0
    ensures var t := TrimStart(s);
            ParseInt(s).Some? && !(|t| > 0 && t[0] == '-') ==> ParseInt(s).value >= 0
  {
    SignedNaN(TrimStart(s));
  }

  lemma SignedNaN(t: string)
    ensures var u := SignFree(t);
            ParseSigned(t).None? <==> |DigitPrefix(Unprefixed(u), HexPrefixed(u))| == 0
    ensures ParseSigned(t).Some? && |t| > 0 && t[0] == '-' ==> ParseSigned(t).value <= 0
    ensures ParseSigned(t).Some? && !(|t| > 0 && t[0] == '-') ==> ParseSigned(t).value >= 0
  {
  }

  /** Text that starts with neither space nor sign is read unsigned. */
  lemma ParseIntUnsigned(s: string)
    requires |s| > 0 && !IsSpace(s[0]) && s[0] != '-' && s[0] != '+'
    ensures ParseInt(s) == ParseSigned(s)
    ensures ParseUnsigned(s).None? ==> ParseSigned(s) == None
    ensures ParseUnsigned(s).Some? ==> ParseSigned(s) == Some(ParseUnsigned(s).value)
  {
    assert TrimStart(s) == s;
    assert SignFree(s) == s;
  }

  function SignFree(t: string): string {
    if |t| > 0 && (t[0] == '-' || t[0] == '+') then t[1..] else t
  }

  /** A run of digits is read whole. */
  lemma {:induction false} DigitPrefixOfDigits(s: string, hex: bool)
    requires forall i :: 0 <= i < |s| ==> IsRadixDigit(s[i], hex)
    ensures DigitPrefix(s, hex) == s
    decreases |s|
  {
    if |s| > 0 {
      DigitPrefixOfDigits(s[1..], hex);
      assert [s[0]] + s[1..] == s;
    }
  }

  /** In base 10 the value is the decimal value. */
  lemma {:induction false} RadixValueDecimal(s: string)
    requires forall i :: 0 <= i < |s| ==> IsDigit(s[i])
    ensures RadixValue(s, false) == DigitsValue(s)
    decreases |s|
  {
    if |s| > 0 {
      RadixValueDecimal(s[..|s| - 1]);
    }
  }

  lemma ParseIntOfDigits(s: string)
    requires |s| > 0 && forall i :: 0 <= i < |s| ==> IsDigit(s[i])
    ensures ParseInt(s) == Some(DigitsValue(s))
  {
    assert IsDigit(s[0]);
    DecimalUnsigned(s);
    ParseIntUnsigned(s);
  }

  lemma DecimalUnsigned(s: string)
    requires |s| > 0 && forall i :: 0 <= i < |s| ==> IsDigit(s[i])
    ensures ParseUnsigned(s) == Some(DigitsValue(s))
  {
    assert !HexPrefixed(s) by {
      if |s| >= 2 {
        assert IsDigit(s[1]);
      }
    }
    DigitPrefixOfDigits(s, false);
    RadixValueDecimal(s);
  }

  /**
   * The `0x` prefix: after it the text is read in base 16, up to the first
   * character that is not a hexadecimal digit, and a prefix with no such
   * digit after it is NaN, even though it starts with "0".
   */
  lemma ParseIntHex(s: string, rest: string)
    requires |s| > 0 && forall i :: 0 <= i < |s| ==> IsRadixDigit(s[i], true)
    requires |rest| == 0 || !IsRadixDigit(rest[0], true)
    ensures ParseInt(['0', 'x'] + (s + rest)) == Some(RadixValue(s, true))
    ensures ParseInt(['0', 'X'] + (s + rest)) == Some(RadixValue(s, true))
    ensures ParseInt(['0', 'x'] + rest) == None
  {
    HexDigitsRead('x', s, rest);
    HexDigitsRead('X', s, rest);
    HexNothingRead('x', rest);
  }

  lemma HexDigitsRead(x: char, s: string, rest: string)
    requires x == 'x' || x == 'X'
    requires |s| > 0 && forall i :: 0 <= i < |s| ==> IsRadixDigit(s[i], true)
    requires |rest| == 0 || !IsRadixDigit(rest[0], true)
    ensures ParseInt(['0', x] + (s + rest)) == Some(RadixValue(s, true))
  {
    var a := ['0', x] + (s + rest);
    HexUnsignedRun(x, s, rest);
    ZeroLed(a, x, s + rest);
    ParseIntUnsigned(a);
  }

  /** Text led by "0" starts with neither space nor sign. */
  lemma ZeroLed(a: string, x: char, u: string)
    requires a == ['0', x] + u
    ensures |a| > 0 && !IsSpace(a[0]) && a[0] != '-' && a[0] != '+'
  {
  }

  lemma HexUnsignedRun(x: char, s: string, rest: string)
    requires x == 'x' || x == 'X'
    requires |s| > 0 && forall i :: 0 <= i < |s| ==> IsRadixDigit(s[i], true)
    requires |rest| == 0 || !IsRadixDigit(rest[0], true)
    ensures ParseUnsigned(['0', x] + (s + rest)) == Some(RadixValue(s, true))
  {
    HexRunStops(s, rest);
    HexUnsigned(x, s + rest);
  }

  lemma HexNothingRead(x: char, rest: string)
    requires x == 'x' || x == 'X'
    requires |rest| == 0 || !IsRadixDigit(rest[0], true)
    ensures ParseInt(['0', x] + rest) == None
  {
    var a := ['0', x] + rest;
    assert DigitPrefix(rest, true) == [];
    HexUnsigned(x, rest);
    ZeroLed(a, x, rest);
    ParseIntUnsigned(a);
  }

  lemma HexUnsigned(x: char, u: string)
    requires x == 'x' || x == 'X'
    ensures ParseUnsigned(['0', x] + u) ==
            var p := DigitPrefix(u, true); if |p| == 0 then None else Some(RadixValue(p, true))
  {
    var a := ['0', x] + u;
    assert HexPrefixed(a);
    assert a[2..] == u;
  }

  /** A run of digits followed by a non-digit is read up to that character. */
  lemma {:induction false} HexRunStops(s: string, rest: string)
    requires forall i :: 0 <= i < |s| ==> IsRadixDigit(s[i], true)
    requires |rest| == 0 || !IsRadixDigit(rest[0], true)
    ensures DigitPrefix(s + rest, true) == s
    decreases |s|
  {
    if |s| == 0 {
      assert s + rest == rest;
    } else {
      HexRunStops(s[1..], rest);
      assert (s + rest)[1..] == s[1..] + rest;
      assert [s[0]] + s[1..] == s;
    }
  }

  /** `parseInt("0x1f")` is 31. */
  lemma ParseIntHexExample()
    ensures ParseInt("0x1f") == Some(31)
    ensures ParseInt("0x") == None
  {
    HexDigitsRead('x', "1f", "");
    HexNothingRead('x', "");
    HexLiterals();
  }

  lemma HexLiterals()
    ensures ['0', 'x'] + ("1f" + "") == "0x1f"
    ensures ['0', 'x'] + "" == "0x"
    ensures RadixValue("1f", true) == 31
  {
    assert "1f"[..1] == "1";
  }

  /** JavaScript's `%`, whose remainder takes the sign of the dividend. */
  function JsRem(a: int, n: int): (r: int)
    requires n > 0
    ensures -n < r < n
    ensures a >= 0 ==> r == a % n
  {
    if a >= 0 then a % n else -((-a) % n)
  }

  /**
   * `formatTime`: the text before the first `:` is the hour and the text
   * after it the minutes (`undefined` when there is none); the hour is shown
   * on a 12-hour clock, and an hour that is not a number shows as 12 AM.
   */
  function FormatTime(timeStr: string): string {
    var parts := Split(timeStr, ":");
    FormatParts(ParseInt(parts[0]), if |parts| > 1 then parts[1] else "undefined")
  }

  /** `` `${hours % 12 || 12}:${m} ${period}` ``; NaN counts as falsy and as not at least 12. */
  function FormatParts(hours: Option<int>, minutes: string): string {
    var period := if hours.Some? && hours.value >= 12 then "PM" else "AM";
    var shown := if hours.Some? && JsRem(hours.value, 12) != 0 then JsRem(hours.value, 12) else 12;
    IntToString(shown) + ":" + minutes + " " + period
  }

  /** The 12-hour reading of a 24-hour clock hour, written case by case. */
  function ClockHour(h: int): int {
    if h == 0 then 12 else if h <= 12 then h else h - 12
  }

  /**
   * For a server time `HH:MM:SS`: hour 0 is 12 AM, 1-11 are AM, 12 is 12 PM,
   * 13-23 are the hour less 12, PM; the minutes are copied unchanged.
   */
  lemma FormatTimeOfClock(h: nat, mm: string, ss: string)
    requires h < 24
    requires forall i :: 0 <= i < |mm| ==> mm[i] != ':'
    requires forall i :: 0 <= i < |ss| ==> ss[i] != ':'
    ensures FormatTime(Pad2(h) + ":" + mm + ":" + ss) ==
            IntToString(ClockHour(h)) + ":" + mm + " " + (if h < 12 then "AM" else "PM")
  {
    var t := Pad2(h) + ":" + mm + ":" + ss;
    SplitClock(Pad2(h), mm, ss);
    ParseIntOfDigits(Pad2(h));
    Pad2Digits(h);
    assert FormatTime(t) == FormatParts(Some(h), mm);
    ClockParts(h, mm);
  }

  lemma ClockParts(h: nat, mm: string)
    requires h < 24
    ensures FormatParts(Some(h), mm) ==
            IntToString(ClockHour(h)) + ":" + mm + " " + (if h < 12 then "AM" else "PM")
  {
    var shown := if JsRem(h, 12) != 0 then JsRem(h, 12) else 12;
    assert shown == ClockHour(h);
  }

  lemma SplitClock(hh: string, mm: string, ss: string)
    requires forall i :: 0 <= i < |hh| ==> hh[i] != ':'
    requires forall i :: 0 <= i < |mm| ==> mm[i] != ':'
    requires forall i :: 0 <= i < |ss| ==> ss[i] != ':'
    ensures Split(hh + ":" + mm + ":" + ss, ":") == [hh, mm, ss]
  {
    var parts := [hh, mm, ss];
    assert Join(parts, ":") == hh + ":" + mm + ":" + ss by {
      assert Join(parts[1..], ":") == mm + ":" + ss;
    }
    NoSepCharSplitsCleanly(hh, ":");
    NoSepCharSplitsCleanly(mm, ":");
    NoSepCharSplitsCleanly(ss, ":");
    SplitJoin(parts, ":");
  }

  /** `Array.from({length: ceil(n / 2)}, (_, i) => players.slice(2 * i, 2 * i + 2))`. */
  function PlayerRows(players: seq<string>): (rows: seq<seq<string>>)
    ensures |rows| == (|players| + 1) / 2
  {
    seq((|players| + 1) / 2, i requires 0 <= i < (|players| + 1) / 2 =>
      players[2 * i..Min(2 * i + 2, |players|)])
  }

  lemma {:induction false} PlayerRowsAreChunks(players: seq<string>)
    ensures PlayerRows(players) == Chunks(players, 2)
    decreases |players|
  {
    var n := |players|;
    var rows := PlayerRows(players);
    if n == 0 {
    } else if n <= 2 {
      assert players[0..n] == players;
      assert rows == [players];
    } else {
      var rest := players[2..];
      PlayerRowsAreChunks(rest);
      forall i | 0 <= i < |rows| - 1
        ensures rows[i + 1] == PlayerRows(rest)[i]
      {
        assert players[2 * (i + 1)..Min(2 * (i + 1) + 2, n)] == rest[2 * i..Min(2 * i + 2, n - 2)];
      }
      assert rows == [players[..2]] + PlayerRows(rest);
    }
  }

  /**
   * Players come two to a line: `ceil(n / 2)` lines of one or two names,
   * all full but perhaps the last, which read in order give the list back.
   */
  lemma PlayerRowsShape(players: seq<string>)
    ensures |PlayerRows(players)| == (|players| + 1) / 2
    ensures Flatten(PlayerRows(players)) == players
    ensures forall i :: 0 <= i < |PlayerRows(players)| ==> 0 < |PlayerRows(players)[i]| <= 2
    ensures forall i :: 0 <= i < |PlayerRows(players)| - 1 ==> |PlayerRows(players)[i]| == 2
  {
    PlayerRowsAreChunks(players);
    ChunksShape(players, 2);
  }

  /** `` `/member/reserve?date=${date}&slot=${slot.slotIndex}&court=${court}` ``. */
  function PrefillLink(date: string, slotIndex: int, court: int): string {
    "/member/reserve?date=" + date + "&slot=" + IntToString(slotIndex) + "&court=" + IntToString(court)
  }

  /** What one cell of the day grid shows. */
  datatype DayCell = Reserved(name: string, rows: seq<seq<string>>) | Free(link: string)

  /** A cell shows a reservation exactly when the slot has one for that court. */
  function CellAt(slot: Slot, court: int, date: string): (cell: DayCell)
    ensures cell.Reserved? <==> HasCourt(slot, court)
    ensures cell.Reserved? ==>
              (exists e :: 0 <= e < |slot.reservationsByCourt| &&
                 slot.reservationsByCourt[e].0 == court &&
                 cell.name == slot.reservationsByCourt[e].1.name &&
                 cell.rows == PlayerRows(slot.reservationsByCourt[e].1.players))
    ensures cell.Free? ==> cell.link == PrefillLink(date, slot.slotIndex, court)
  {
    match ReservationAt(slot, court)
    case Some(r) => Reserved(r.name, PlayerRows(r.players))
    case None => Free(PrefillLink(date, slot.slotIndex, court))
  }

  /** The query part of a URL: what follows the first `?`. */
  function QueryOf(url: string): string {
    match IndexOf(url, "?")
    case None => ""
    case Some(i) => url[i + 1..]
  }

  /** The name of a `name=value` pair: up to the first `=`, or all of it. */
  function PairName(pair: string): string {
    match IndexOf(pair, "=")
    case None => pair
    case Some(i) => pair[..i]
  }

  function PairValue(pair: string): string {
    match IndexOf(pair, "=")
    case None => ""
    case Some(i) => pair[i + 1..]
  }

  /** The value of the first pair with that name. */
  function FirstValue(pairs: seq<string>, name: string): (r: Option<string>)
    ensures r.Some? ==> exists i :: 0 <= i < |pairs| && PairName(pairs[i]) == name && r.value == PairValue(pairs[i])
    ensures r.None? ==> forall i :: 0 <= i < |pairs| ==> PairName(pairs[i]) != name
  {
    if |pairs| == 0 then None
    else if PairName(pairs[0]) == name then Some(PairValue(pairs[0]))
    else
      var r := FirstValue(pairs[1..], name);
      assert forall i :: 1 <= i < |pairs| ==> pairs[i] == pairs[1..][i - 1];
      r
  }

  /**
   * `searchParams.get(name)` on the booking page: the query is cut at `&`
   * and each pair at its first `=` (percent-decoding is not modelled).
   */
  function QueryGet(query: string, name: string): Option<string> {
    FirstValue(Split(query, "&"), name)
  }

  predicate PlainValue(s: string) {
    forall i :: 0 <= i < |s| ==> s[i] != '&' && s[i] != '='
  }

  lemma PairOf(name: string, value: string)
    requires forall i :: 0 <= i < |name| ==> name[i] != '='
    ensures PairName(name + "=" + value) == name
    ensures PairValue(name + "=" + value) == value
  {
    NoSepCharSplitsCleanly(name, "=");
    CleanFirstOccurrence(name, "=", value);
    assert (name + "=" + value)[..|name|] == name;
    assert (name + "=" + value)[|name| + 1..] == value;
  }

  /** The link's query cuts into its three pairs. */
  lemma QueryPairs(date: string, slot: string, court: string)
    requires PlainValue(date) && PlainValue(slot) && PlainValue(court)
    ensures Split("date=" + date + "&slot=" + slot + "&court=" + court, "&") ==
            ["date=" + date, "slot=" + slot, "court=" + court]
  {
    var p0, p1, p2 := "date=" + date, "slot=" + slot, "court=" + court;
    var pairs := [p0, p1, p2];
    JoinThree(p0, p1, p2, "&");
    QueryText(date, slot, court);
    PlainPair("date=", date);
    PlainPair("slot=", slot);
    PlainPair("court=", court);
    SplitJoin(pairs, "&");
  }

  lemma JoinThree(a: string, b: string, c: string, sep: string)
    ensures Join([a, b, c], sep) == a + sep + b + sep + c
  {
    assert [b, c][1..] == [c];
    assert Join([b, c], sep) == b + sep + c;
    assert [a, b, c][1..] == [b, c];
    assert a + sep + (b + sep + c) == a + sep + b + sep + c;
  }

  /** The link's query is its three pairs joined by `&`. */
  lemma QueryText(date: string, slot: string, court: string)
    ensures "date=" + date + "&slot=" + slot + "&court=" + court ==
            ("date=" + date) + "&" + ("slot=" + slot) + "&" + ("court=" + court)
  {
    assert "&slot=" == "&" + "slot=";
    assert "&court=" == "&" + "court=";
  }

  lemma PlainPair(prefix: string, value: string)
    requires PlainValue(value)
    requires forall i :: 0 <= i < |prefix| ==> prefix[i] != '&'
    ensures SplitsCleanly(prefix + value, "&")
  {
    var p := prefix + value;
    assert forall i :: |prefix| <= i < |p| ==> p[i] == value[i - |prefix|];
    NoSepCharSplitsCleanly(p, "&");
  }

  /** The three pairs of the link read back as written. */
  lemma QueryRoundTrip(date: string, slot: string, court: string)
    requires PlainValue(date) && PlainValue(slot) && PlainValue(court)
    ensures QueryGet("date=" + date + "&slot=" + slot + "&court=" + court, "date") == Some(date)
    ensures QueryGet("date=" + date + "&slot=" + slot + "&court=" + court, "slot") == Some(slot)
    ensures QueryGet("date=" + date + "&slot=" + slot + "&court=" + court, "court") == Some(court)
  {
    var pairs := ["date=" + date, "slot=" + slot, "court=" + court];
    QueryPairs(date, slot, court);
    PairOf("date", date);
    PairOf("slot", slot);
    PairOf("court", court);
    assert "date" + "=" == "date=" && "slot" + "=" == "slot=" && "court" + "=" == "court=";
    FirstOfThree(pairs, "date", "slot", "court", date, slot, court);
  }

  /** Three pairs with different names each give back their own value. */
  lemma FirstOfThree(pairs: seq<string>, n0: string, n1: string, n2: string, v0: string, v1: string, v2: string)
    requires |pairs| == 3 && n0 != n1 && n0 != n2 && n1 != n2
    requires PairName(pairs[0]) == n0 && PairName(pairs[1]) == n1 && PairName(pairs[2]) == n2
    requires PairValue(pairs[0]) == v0 && PairValue(pairs[1]) == v1 && PairValue(pairs[2]) == v2
    ensures FirstValue(pairs, n0) == Some(v0)
    ensures FirstValue(pairs, n1) == Some(v1)
    ensures FirstValue(pairs, n2) == Some(v2)
  {
    assert pairs[1..][0] == pairs[1] && pairs[1..][1..] == [pairs[2]];
    assert FirstValue(pairs[1..][1..], n2) == Some(v2);
    assert FirstValue(pairs[1..], n1) == Some(v1);
    assert FirstValue(pairs[1..], n2) == Some(v2);
  }

  lemma DigitsArePlain(n: nat)
    ensures PlainValue(NatToString(n))
  {
  }

  /**
   * Following a free cell's link opens the booking form on that date, slot
   * and court: the form reads the date back verbatim and the slot and court
   * through `Number(...) || 0`.
   */
  lemma PrefillRoundTrip(date: string, slotIndex: nat, court: nat)
    requires PlainValue(date)
    ensures QueryGet(QueryOf(PrefillLink(date, slotIndex, court)), "date") == Some(date)
    ensures ParamNumber(QueryGet(QueryOf(PrefillLink(date, slotIndex, court)), "slot")) == slotIndex
    ensures ParamNumber(QueryGet(QueryOf(PrefillLink(date, slotIndex, court)), "court")) == court
  {
    var s, c := NatToString(slotIndex), NatToString(court);
    var query := "date=" + date + "&slot=" + s + "&court=" + c;
    var path := "/member/reserve";
    assert PrefillLink(date, slotIndex, court) == path + "?" + query;
    NoSepCharSplitsCleanly(path, "?");
    CleanFirstOccurrence(path, "?", query);
    assert (path + "?" + query)[|path| + 1..] == query;
    DigitsArePlain(slotIndex);
    DigitsArePlain(court);
    QueryRoundTrip(date, s, c);
    JsNumberOfNat(slotIndex);
    JsNumberOfNat(court);
  }

  /** An ISO date is a plain query value. */
  lemma IsoIsPlain(d: Date)
    requires Valid(d) && IsoYear(d)
    ensures PlainValue(Iso(d))
  {
  }
}
