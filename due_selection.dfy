/** Which card `get_next_card` draws from a deck, and the status line it shows.

    The due predicate is `COALESCE(next_due, today) <= today`. In scheduling
    mode the draw is a due card with the earliest due day, ties broken by
    `RANDOM()`; in random mode it is any card of the deck. `RANDOM()` is the
    caller's `pick`, an index into the candidates: every candidate is reachable
    by some pick, and nothing else is. */
module DueSelection {
  import opened Common
  import opened Store

  /** `deck_id = %s`; a session without a deck (NULL) matches no row. */
  predicate InDeck(c: CardRow, deckId: Option<int>) {
    deckId == Some(c.deckId)
  }

  /** `COALESCE(next_due, CURRENT_DATE)`. */
  function DueDay(c: CardRow, today: int): int {
    c.nextDue.GetOr(today)
  }

  predicate IsDue(c: CardRow, today: int) {
    DueDay(c, today) <= today
  }

  /** The deck's rows, in table order. */
  function DeckCards(cards: seq<CardRow>, deckId: Option<int>): (r: seq<CardRow>)
    ensures forall c :: c in r <==> c in cards && InDeck(c, deckId)
    ensures |r| <= |cards|
  {
    if cards == [] then []
    else (if InDeck(cards[0], deckId) then [cards[0]] else []) + DeckCards(cards[1..], deckId)
  }

  /** The deck's due rows, in table order. */
  function DueCards(cards: seq<CardRow>, deckId: Option<int>, today: int): (r: seq<CardRow>)
    ensures forall c :: c in r <==> c in cards && InDeck(c, deckId) && IsDue(c, today)
  {
    if cards == [] then []
    else
      (if InDeck(cards[0], deckId) && IsDue(cards[0], today) then [cards[0]] else [])
      + DueCards(cards[1..], deckId, today)
  }

  /** `COUNT(*)` of the due rows never exceeds the count of the deck's rows. */
  lemma {:induction false} DueCardsWithinDeck(cards: seq<CardRow>, deckId: Option<int>, today: int)
    ensures |DueCards(cards, deckId, today)| <= |DeckCards(cards, deckId)|
  {
    if cards != [] {
      DueCardsWithinDeck(cards[1..], deckId, today);
    }
  }

  /** The deck's rows keep table order and multiplicity: the selection works row by row. */
  lemma {:induction false} DeckCardsAppend(a: seq<CardRow>, b: seq<CardRow>, deckId: Option<int>)
    ensures DeckCards(a + b, deckId) == DeckCards(a, deckId) + DeckCards(b, deckId)
    decreases |a|
  {
    if a == [] {
      assert a + b == b;
    } else {
      assert (a + b)[0] == a[0];
      assert (a + b)[1..] == a[1..] + b;
      DeckCardsAppend(a[1..], b, deckId);
    }
  }

  /** The due rows, counted by `COUNT(*)`, keep table order and multiplicity too. */
  lemma {:induction false} DueCardsAppend(a: seq<CardRow>, b: seq<CardRow>, deckId: Option<int>, today: int)
    ensures DueCards(a + b, deckId, today) == DueCards(a, deckId, today) + DueCards(b, deckId, today)
    decreases |a|
  {
    if a == [] {
      assert a + b == b;
    } else {
      var ab := a + b;
      var head := if InDeck(a[0], deckId) && IsDue(a[0], today) then [a[0]] else [];
      var x, y := DueCards(a[1..], deckId, today), DueCards(b, deckId, today);
      assert DueCards(ab, deckId, today) == head + DueCards(a[1..] + b, deckId, today) by {
        assert ab[0] == a[0] && ab[1..] == a[1..] + b;
        DueCardsCons(ab, deckId, today);
      }
      assert DueCards(a, deckId, today) == head + x by {
        DueCardsCons(a, deckId, today);
      }
      assert DueCards(a[1..] + b, deckId, today) == x + y by {
        DueCardsAppend(a[1..], b, deckId, today);
      }
      AppendChain(DueCards(ab, deckId, today), DueCards(a, deckId, today), head, DueCards(a[1..] + b, deckId, today), x, y);
    }
  }

  lemma AppendChain<T>(whole: seq<T>, front: seq<T>, head: seq<T>, rest: seq<T>, x: seq<T>, y: seq<T>)
    requires whole == head + rest && front == head + x && rest == x + y
    ensures whole == front + y
  {
  }

  lemma DueCardsCons(cards: seq<CardRow>, deckId: Option<int>, today: int)
    requires cards != []
    ensures DueCards(cards, deckId, today)
            == (if InDeck(cards[0], deckId) && IsDue(cards[0], today) then [cards[0]] else [])
               + DueCards(cards[1..], deckId, today)
  {
  }

  /** One row is counted exactly when it is in the deck and due. */
  lemma DueCardsSingle(c: CardRow, deckId: Option<int>, today: int)
    ensures DueCards([c], deckId, today) == if InDeck(c, deckId) && IsDue(c, today) then [c] else []
  {
    assert [c][1..] == [];
  }

  /** The smallest due day among some rows. */
  function EarliestDueDay(rows: seq<CardRow>, today: int): (m: int)
    requires rows != []
    ensures exists c :: c in rows && DueDay(c, today) == m
    ensures forall c :: c in rows ==> m <= DueDay(c, today)
  {
    if |rows| == 1 then DueDay(rows[0], today)
    else
      var rest := EarliestDueDay(rows[1..], today);
      assert forall c :: c in rows[1..] ==> c in rows;
      if DueDay(rows[0], today) <= rest then DueDay(rows[0], today) else rest
  }

  /** The rows whose due day is `day`. */
  function WithDueDay(rows: seq<CardRow>, day: int, today: int): (r: seq<CardRow>)
    ensures forall c :: c in r <==> c in rows && DueDay(c, today) == day
  {
    if rows == [] then []
    else (if DueDay(rows[0], today) == day then [rows[0]] else []) + WithDueDay(rows[1..], day, today)
  }

  /** The cards `ORDER BY COALESCE(next_due, today) ASC` puts first among the due ones. */
  function Candidates(cards: seq<CardRow>, deckId: Option<int>, today: int): seq<CardRow> {
    var due := DueCards(cards, deckId, today);
    if due == [] then [] else WithDueDay(due, EarliestDueDay(due, today), today)
  }

  /** A due card of the deck that no due card of the deck precedes. */
  predicate IsEarliestDue(c: CardRow, cards: seq<CardRow>, deckId: Option<int>, today: int) {
    c in cards && InDeck(c, deckId) && IsDue(c, today)
    && forall c' :: c' in cards && InDeck(c', deckId) && IsDue(c', today) ==> DueDay(c, today) <= DueDay(c', today)
  }

  lemma CandidatesAreEarliestDue(cards: seq<CardRow>, deckId: Option<int>, today: int, c: CardRow)
    ensures c in Candidates(cards, deckId, today) <==> IsEarliestDue(c, cards, deckId, today)
  {
    var due := DueCards(cards, deckId, today);
    if due != [] {
      var m := EarliestDueDay(due, today);
      if IsEarliestDue(c, cards, deckId, today) {
        var w :| w in due && DueDay(w, today) == m;
        assert DueDay(c, today) <= m;
      }
    }
  }

  lemma CandidatesNonEmpty(cards: seq<CardRow>, deckId: Option<int>, today: int)
    requires DueCards(cards, deckId, today) != []
    ensures Candidates(cards, deckId, today) != []
  {
    var due := DueCards(cards, deckId, today);
    var w :| w in due && DueDay(w, today) == EarliestDueDay(due, today);
    assert w in Candidates(cards, deckId, today);
  }

  /** The scheduling-mode query: the pick-th earliest due card, or none. */
  function SelectScheduled(cards: seq<CardRow>, deckId: Option<int>, today: int, pick: nat): (r: Option<CardRow>)
    ensures r.None? <==> (forall c :: c in cards && InDeck(c, deckId) ==> !IsDue(c, today))
    ensures r.Some? ==> IsEarliestDue(r.value, cards, deckId, today)
  {
    var due := DueCards(cards, deckId, today);
    if due == [] then None
    else
      CandidatesNonEmpty(cards, deckId, today);
      var cands := Candidates(cards, deckId, today);
      CandidatesAreEarliestDue(cards, deckId, today, cands[pick % |cands|]);
      Some(cands[pick % |cands|])
  }

  /** Every earliest due card is the answer for some tie-break. */
  lemma SelectScheduledReachesEveryEarliest(cards: seq<CardRow>, deckId: Option<int>, today: int, c: CardRow)
    requires IsEarliestDue(c, cards, deckId, today)
    ensures exists pick: nat :: SelectScheduled(cards, deckId, today, pick) == Some(c)
  {
    CandidatesAreEarliestDue(cards, deckId, today, c);
    var cands := Candidates(cards, deckId, today);
    var k :| 0 <= k < |cands| && cands[k] == c;
    assert c in DueCards(cards, deckId, today);
    ModOfSmaller(k, |cands|);
    assert SelectScheduled(cards, deckId, today, k) == Some(cands[k]);
  }

  /** The random-mode query: the pick-th card of the deck, due or not. */
  function SelectRandom(cards: seq<CardRow>, deckId: Option<int>, pick: nat): (r: Option<CardRow>)
    ensures r.None? <==> (forall c :: c in cards ==> !InDeck(c, deckId))
    ensures r.Some? ==> r.value in cards && InDeck(r.value, deckId)
  {
    var deck := DeckCards(cards, deckId);
    if deck == [] then None
    else
      assert deck[0] in cards;
      Some(deck[pick % |deck|])
  }

  /** Every card of the deck, due or not, is the answer for some pick. */
  lemma SelectRandomReachesEveryCard(cards: seq<CardRow>, deckId: Option<int>, c: CardRow)
    requires c in cards && InDeck(c, deckId)
    ensures exists pick: nat :: SelectRandom(cards, deckId, pick) == Some(c)
  {
    var deck := DeckCards(cards, deckId);
    var k :| 0 <= k < |deck| && deck[k] == c;
    ModOfSmaller(k, |deck|);
    assert SelectRandom(cards, deckId, k) == Some(c);
  }

  /** `get_next_card`'s query, chosen by whether the user may schedule reviews. */
  function NextRow(cards: seq<CardRow>, deckId: Option<int>, today: int, canSchedule: bool, pick: nat): (r: Option<CardRow>)
    ensures r.Some? ==> r.value in cards && InDeck(r.value, deckId)
    ensures r.None? <==> (forall c :: c in cards && InDeck(c, deckId) ==> canSchedule && !IsDue(c, today))
  {
    if canSchedule then SelectScheduled(cards, deckId, today, pick) else SelectRandom(cards, deckId, pick)
  }

  /** `SELECT MIN(next_due)`: the smallest non-NULL due day among the rows. */
  function MinNextDue(rows: seq<CardRow>): (m: Option<int>)
    ensures m.None? <==> forall c :: c in rows ==> c.nextDue.None?
    ensures m.Some? ==> exists c :: c in rows && c.nextDue == m
    ensures m.Some? ==> forall c :: c in rows && c.nextDue.Some? ==> m.value <= c.nextDue.value
  {
    if rows == [] then None
    else
      var rest := MinNextDue(rows[1..]);
      assert forall c :: c in rows <==> c == rows[0] || c in rows[1..];
      if rows[0].nextDue.None? then rest
      else if rest.None? || rows[0].nextDue.value <= rest.value then rows[0].nextDue
      else rest
  }

  /** The status line's content. */
  datatype Status = NoCardsInDeck | AllCaughtUp(nextDue: Option<int>) | DueToday(count: nat) | RandomMode

  function StatusOf(cards: seq<CardRow>, deckId: Option<int>, today: int, canSchedule: bool): (s: Status)
    ensures !canSchedule ==> s == RandomMode
    ensures canSchedule ==> (s == NoCardsInDeck <==> DeckCards(cards, deckId) == [])
    ensures canSchedule && s.DueToday? ==> s.count == |DueCards(cards, deckId, today)| > 0
    ensures canSchedule && s.AllCaughtUp? ==>
              DeckCards(cards, deckId) != [] && DueCards(cards, deckId, today) == []
              && s.nextDue == MinNextDue(DeckCards(cards, deckId))
    ensures canSchedule && DueCards(cards, deckId, today) != [] ==> s == DueToday(|DueCards(cards, deckId, today)|)
    ensures canSchedule && DeckCards(cards, deckId) != [] && DueCards(cards, deckId, today) == [] ==>
              s == AllCaughtUp(MinNextDue(DeckCards(cards, deckId)))
  {
    DueCardsWithinDeck(cards, deckId, today);
    if !canSchedule then RandomMode
    else
      var total := |DeckCards(cards, deckId)|;
      var due := |DueCards(cards, deckId, today)|;
      if total == 0 then NoCardsInDeck
      else if due == 0 then AllCaughtUp(MinNextDue(DeckCards(cards, deckId)))
      else DueToday(due)
  }

  /** The due count and the draw use one predicate: the status says cards are
      due exactly when the scheduling query finds one. */
  lemma StatusAgreesWithSelection(cards: seq<CardRow>, deckId: Option<int>, today: int, pick: nat)
    ensures StatusOf(cards, deckId, today, true).DueToday? <==> SelectScheduled(cards, deckId, today, pick).Some?
  {
    var due := DueCards(cards, deckId, today);
    if due != [] {
      assert due[0] in due;
    }
    if SelectScheduled(cards, deckId, today, pick).Some? {
      assert SelectScheduled(cards, deckId, today, pick).value in due;
    }
  }

  /** When nothing is due, every card of the deck has a due day after today,
      so "All caught up." never appears without a date. */
  lemma {:induction false} CaughtUpAlwaysHasNextDate(cards: seq<CardRow>, deckId: Option<int>, today: int)
    requires StatusOf(cards, deckId, today, true).AllCaughtUp?
    ensures StatusOf(cards, deckId, today, true).nextDue.Some?
    ensures StatusOf(cards, deckId, today, true).nextDue.value > today
  {
    var deck := DeckCards(cards, deckId);
    assert deck[0] in deck;
    assert !IsDue(deck[0], today);
    var m := MinNextDue(deck);
    assert m.Some?;
    var c :| c in deck && c.nextDue == m;
    assert !IsDue(c, today);
  }

  /** The civil date of a day number (0 is 1970-01-01), proleptic Gregorian. */
  function CivilFromDays(day: int): (int, int, int) {
    var z := day + 719468;
    var era := z / 146097;
    var doe := z - era * 146097;
    var yoe := (doe - doe / 1460 + doe / 36524 - doe / 146096) / 365;
    var doy := doe - (365 * yoe + yoe / 4 - yoe / 100);
    var mp := (5 * doy + 2) / 153;
    var d := doy - (153 * mp + 2) / 5 + 1;
    var m := if mp < 10 then mp + 3 else mp - 9;
    (if m <= 2 then yoe + era * 400 + 1 else yoe + era * 400, m, d)
  }

  /** `n` in decimal, left-padded with zeros to `width` digits. */
  function Padded(n: nat, width: nat): string {
    var s := NatToString(n);
    if |s| >= width then s else seq(width - |s|, _ => '0') + s
  }

  /** `str(date)`: YYYY-MM-DD. */
  function DateText(day: int): string {
    var (y, m, d) := CivilFromDays(day);
    (if y < 0 then "-" + Padded(-y, 4) else Padded(y, 4)) + "-"
    + (if m < 0 then "-" + Padded(-m, 2) else Padded(m, 2)) + "-"
    + (if d < 0 then "-" + Padded(-d, 2) else Padded(d, 2))
  }

  function StatusText(s: Status): string {
    match s
    case NoCardsInDeck => "No cards in this deck."
    case AllCaughtUp(next) => if next.Some? then "All caught up. Next due: " + DateText(next.value) else "All caught up."
    case DueToday(n) => "Due today: " + NatToString(n)
    case RandomMode => "Random mode (shared deck)"
  }

  /** The status line tells the four states apart, and the count shown for
      cards due today reads back as the number of due rows. */
  lemma StatusTextTellsApart(s: Status)
    ensures var t := StatusText(s);
            (t == "No cards in this deck." <==> s == NoCardsInDeck)
            && (t == "Random mode (shared deck)" <==> s == RandomMode)
            && (s.AllCaughtUp? <==> |t| >= 14 && t[..14] == "All caught up.")
            && (s.DueToday? <==> |t| > 11 && t[..11] == "Due today: ")
            && (s.DueToday? ==> (forall i :: 11 <= i < |t| ==> IsDigit(t[i])) && DigitsValue(t[11..]) == s.count)
  {
    var t := StatusText(s);
    match s
    case NoCardsInDeck =>
      assert t[..11][0] == t[..14][0] == t[0] == 'N';
    case RandomMode =>
      assert t[..11][0] == t[..14][0] == t[0] == 'R';
    case AllCaughtUp(next) =>
      assert t[..14] == "All caught up.";
      assert t[..11][0] == t[0] == 'A';
    case DueToday(n) =>
      assert t[..11] == "Due today: ";
      assert |t| >= 14 ==> t[..14][0] == t[0] == 'D';
      assert t[11..] == NatToString(n);
      DigitsValueOfNatToString(n);
  }

  /** Every day number has a month in 1..12 and a day of the month in 1..31. */
  lemma CivilRanges(day: int)
    ensures 1 <= CivilFromDays(day).1 <= 12 && 1 <= CivilFromDays(day).2 <= 31
  {
    var z := day + 719468;
    var era := z / 146097;
    var doe := z - era * 146097;
    var yoe := (doe - doe / 1460 + doe / 36524 - doe / 146096) / 365;
    DayOfYearRange(doe, doe / 1460, doe / 36524, doe / 146096, yoe, yoe / 4, yoe / 100);
    var doy := doe - (365 * yoe + yoe / 4 - yoe / 100);
    var mp := (5 * doy + 2) / 153;
    assert 0 <= mp <= 11;
    assert 153 * mp <= 5 * doy + 2 < 153 * mp + 153;
  }

  /** Leap years of the Gregorian calendar. */
  predicate IsLeapYear(y: int) {
    y % 4 == 0 && (y % 100 != 0 || y % 400 == 0)
  }

  /** The number of days from 1 January of year 1 to 1 January of year `y`,
      counting one leap day for every leap year in between. */
  function DaysBeforeYear(y: int): int {
    365 * (y - 1) + (y - 1) / 4 - (y - 1) / 100 + (y - 1) / 400
  }

  /** The number of days of year `y` before the first of month `m`. */
  function DaysBeforeMonth(y: int, m: int): int
    requires 1 <= m <= 12
  {
    [0, 31, 59, 90, 120, 151, 181, 212, 243, 273, 304, 334][m - 1] + (if m > 2 && IsLeapYear(y) then 1 else 0)
  }

  /** The day number of a civil date, counted by whole years and months. */
  function DaysFromCivil(y: int, m: int, d: int): int
    requires 1 <= m <= 12
  {
    DaysBeforeYear(y) + DaysBeforeMonth(y, m) + d - 1 - DaysBeforeYear(1970)
  }

  /** Each year adds 365 days, and 366 for a leap year. */
  lemma YearLength(y: int)
    ensures DaysBeforeYear(y + 1) == DaysBeforeYear(y) + (if IsLeapYear(y) then 366 else 365)
  {
    QuotientStep4(y);
    QuotientStep100(y);
    QuotientStep400(y);
  }

  /** Going from `y - 1` to `y`, a quotient grows by one exactly at a multiple. */
  lemma QuotientStep4(y: int)
    ensures y / 4 - (y - 1) / 4 == (if y % 4 == 0 then 1 else 0)
  {
  }

  lemma QuotientStep100(y: int)
    ensures y / 100 - (y - 1) / 100 == (if y % 100 == 0 then 1 else 0)
  {
  }

  lemma QuotientStep400(y: int)
    ensures y / 400 - (y - 1) / 400 == (if y % 400 == 0 then 1 else 0)
  {
  }

  /** `CivilFromDays` gives a real date: counting the days up to it gives the
      day number back, so no two day numbers get the same date. */
  lemma CivilFromDaysRoundTrip(day: int)
    ensures var (y, m, d) := CivilFromDays(day);
            1 <= m <= 12 && DaysFromCivil(y, m, d) == day
  {
    var era, doe, yoe, doy, mp, d, m := CivilParts(day);
    CivilOfParts(day, era, doe, yoe, doy, mp, d, m);
    DaysFromCivilOfParts(day, era, doe, yoe, doy, mp, d, m);
  }

  /** The quantities `CivilFromDays` computes, named, with their ranges. */
  lemma CivilParts(day: int) returns (era: int, doe: int, yoe: int, doy: int, mp: int, d: int, m: int)
    ensures era == (day + 719468) / 146097 && doe == day + 719468 - era * 146097
    ensures yoe == (doe - doe / 1460 + doe / 36524 - doe / 146096) / 365 && 0 <= yoe < 400
    ensures doy == doe - (365 * yoe + yoe / 4 - yoe / 100)
    ensures mp == (5 * doy + 2) / 153 && 0 <= mp <= 11
    ensures d == doy - (153 * mp + 2) / 5 + 1
    ensures m == if mp < 10 then mp + 3 else mp - 9
  {
    era := (day + 719468) / 146097;
    doe := day + 719468 - era * 146097;
    yoe := (doe - doe / 1460 + doe / 36524 - doe / 146096) / 365;
    YearOfEraRange(doe, doe / 1460, doe / 36524, doe / 146096, yoe);
    DayOfYearRange(doe, doe / 1460, doe / 36524, doe / 146096, yoe, yoe / 4, yoe / 100);
    doy := doe - (365 * yoe + yoe / 4 - yoe / 100);
    mp := (5 * doy + 2) / 153;
    assert 153 * mp <= 5 * doy + 2 < 153 * mp + 153;
    d := doy - (153 * mp + 2) / 5 + 1;
    m := if mp < 10 then mp + 3 else mp - 9;
  }

  /** `CivilFromDays` is the date assembled from those quantities. */
  lemma CivilOfParts(day: int, era: int, doe: int, yoe: int, doy: int, mp: int, d: int, m: int)
    requires era == (day + 719468) / 146097 && doe == day + 719468 - era * 146097
    requires yoe == (doe - doe / 1460 + doe / 36524 - doe / 146096) / 365
    requires doy == doe - (365 * yoe + yoe / 4 - yoe / 100)
    requires mp == (5 * doy + 2) / 153
    requires d == doy - (153 * mp + 2) / 5 + 1
    requires m == if mp < 10 then mp + 3 else mp - 9
    ensures CivilFromDays(day) == (if m <= 2 then yoe + era * 400 + 1 else yoe + era * 400, m, d)
  {
    CivilYearOfParts(day, era, doe, yoe);
    CivilMonthOfParts(day, era, doe, yoe, doy, mp);
    CivilDayOfParts(day, era, doe, yoe, doy, mp, d);
  }

  lemma CivilYearOfParts(day: int, era: int, doe: int, yoe: int)
    requires era == (day + 719468) / 146097 && doe == day + 719468 - era * 146097
    requires yoe == (doe - doe / 1460 + doe / 36524 - doe / 146096) / 365
    ensures CivilFromDays(day).0 == (if CivilFromDays(day).1 <= 2 then yoe + era * 400 + 1 else yoe + era * 400)
  {
  }

  lemma CivilMonthOfParts(day: int, era: int, doe: int, yoe: int, doy: int, mp: int)
    requires era == (day + 719468) / 146097 && doe == day + 719468 - era * 146097
    requires yoe == (doe - doe / 1460 + doe / 36524 - doe / 146096) / 365
    requires doy == doe - (365 * yoe + yoe / 4 - yoe / 100)
    requires mp == (5 * doy + 2) / 153
    ensures CivilFromDays(day).1 == if mp < 10 then mp + 3 else mp - 9
  {
  }

  lemma CivilDayOfParts(day: int, era: int, doe: int, yoe: int, doy: int, mp: int, d: int)
    requires era == (day + 719468) / 146097 && doe == day + 719468 - era * 146097
    requires yoe == (doe - doe / 1460 + doe / 36524 - doe / 146096) / 365
    requires doy == doe - (365 * yoe + yoe / 4 - yoe / 100)
    requires mp == (5 * doy + 2) / 153
    requires d == doy - (153 * mp + 2) / 5 + 1
    ensures CivilFromDays(day).2 == d
  {
  }

  /** The round trip once the quantities of `CivilFromDays` are named. */
  lemma DaysFromCivilOfParts(day: int, era: int, doe: int, yoe: int, doy: int, mp: int, d: int, m: int)
    requires day + 719468 == era * 146097 + doe
    requires 0 <= yoe < 400
    requires doy == doe - (365 * yoe + yoe / 4 - yoe / 100)
    requires 0 <= mp <= 11
    requires d == doy - (153 * mp + 2) / 5 + 1
    requires m == if mp < 10 then mp + 3 else mp - 9
    ensures DaysFromCivil(if m <= 2 then yoe + era * 400 + 1 else yoe + era * 400, m, d) == day
  {
    var marchYear := yoe + era * 400;
    MarchYearStart(era, yoe);
    assert DaysBeforeYear(1970) == 719162;
    MonthStartFromMarch(mp);
    if m > 2 {
      YearLength(marchYear);
    }
  }

  /** Days before the year after the march-based year `400 * era + yoe`. */
  lemma MarchYearStart(era: int, yoe: int)
    requires 0 <= yoe < 400
    ensures DaysBeforeYear(yoe + era * 400 + 1) == 146097 * era + 365 * yoe + yoe / 4 - yoe / 100
  {
    var y := yoe + era * 400;
    assert y / 4 == 100 * era + yoe / 4;
    assert y / 100 == 4 * era + yoe / 100;
    assert y / 400 == era;
  }

  /** The days before a month counted from 1 March, against those counted
      from 1 January of the same calendar year (before any leap day). */
  lemma MonthStartFromMarch(mp: int)
    requires 0 <= mp <= 11
    ensures mp < 10 ==> (153 * mp + 2) / 5 + 59 == [0, 31, 59, 90, 120, 151, 181, 212, 243, 273, 304, 334][mp + 2]
    ensures mp >= 10 ==> (153 * mp + 2) / 5 == [0, 31, 59, 90, 120, 151, 181, 212, 243, 273, 304, 334][mp - 10] + 306
  {
  }

  /** The year of the era lies in 0..399. */
  lemma YearOfEraRange(doe: int, a: int, b: int, c: int, yoe: int)
    requires 0 <= doe < 146097
    requires 1460 * a <= doe < 1460 * a + 1460
    requires 36524 * b <= doe < 36524 * b + 36524
    requires 146096 * c <= doe < 146096 * c + 146096
    requires 365 * yoe <= doe - a + b - c < 365 * yoe + 365
    ensures 0 <= yoe < 400
  {
    if c == 1 {
    } else if b <= 3 {
    }
  }

  /** The day of the year (counted from 1 March) lies in 0..365, with the
      quotients of the conversion named. */
  lemma DayOfYearRange(doe: int, a: int, b: int, c: int, yoe: int, q4: int, q100: int)
    requires 0 <= doe < 146097
    requires 1460 * a <= doe < 1460 * a + 1460
    requires 36524 * b <= doe < 36524 * b + 36524
    requires 146096 * c <= doe < 146096 * c + 146096
    requires 365 * yoe <= doe - a + b - c < 365 * yoe + 365
    requires 4 * q4 <= yoe < 4 * q4 + 4
    requires 100 * q100 <= yoe < 100 * q100 + 100
    ensures 0 <= doe - (365 * yoe + q4 - q100) <= 365
  {
    DayOfYearAtLeast(doe, a, b, c, yoe, q4, q100);
    DayOfYearAtMost(doe, a, b, c, yoe, q4, q100);
  }

  lemma DayOfYearAtLeast(doe: int, a: int, b: int, c: int, yoe: int, q4: int, q100: int)
    requires 0 <= doe < 146097
    requires 1460 * a <= doe < 1460 * a + 1460
    requires 36524 * b <= doe < 36524 * b + 36524
    requires 146096 * c <= doe < 146096 * c + 146096
    requires 365 * yoe <= doe - a + b - c < 365 * yoe + 365
    requires 4 * q4 <= yoe < 4 * q4 + 4
    requires 100 * q100 <= yoe < 100 * q100 + 100
    ensures 0 <= doe - (365 * yoe + q4 - q100)
  {
    // The leap days counted so far never outnumber the whole four-year cycles.
    FourYearCyclesBound(doe, a, b, c, yoe, q4);
    CenturiesBound(doe, a, b, c, yoe, q100);
  }

  /** Whole four-year cycles of the year count never exceed those of the day count. */
  lemma FourYearCyclesBound(doe: int, a: int, b: int, c: int, yoe: int, q4: int)
    requires 0 <= doe < 146097
    requires 1460 * a <= doe < 1460 * a + 1460
    requires 36524 * b <= doe < 36524 * b + 36524
    requires 0 <= c
    requires 365 * yoe <= doe - a + b - c
    requires 4 * q4 <= yoe
    ensures q4 <= a
  {
    assert b <= a;
    assert 1460 * q4 < 1460 * (a + 1);
  }

  /** Each whole century of days gives at least a century of years, less the
      final day of the era. */
  lemma CenturiesBound(doe: int, a: int, b: int, c: int, yoe: int, q100: int)
    requires 0 <= doe < 146097
    requires 1460 * a <= doe < 1460 * a + 1460
    requires 36524 * b <= doe < 36524 * b + 36524
    requires 146096 * c <= doe < 146096 * c + 146096
    requires doe - a + b - c < 365 * yoe + 365
    requires yoe < 100 * q100 + 100
    ensures b - c <= q100
  {
    if c == 1 {
    } else if b == 0 {
    } else if b == 1 {
    } else if b == 2 {
    } else {
    }
  }


  lemma DayOfYearAtMost(doe: int, a: int, b: int, c: int, yoe: int, q4: int, q100: int)
    requires 0 <= doe < 146097
    requires 1460 * a <= doe < 1460 * a + 1460
    requires 36524 * b <= doe < 36524 * b + 36524
    requires 146096 * c <= doe < 146096 * c + 146096
    requires 365 * yoe <= doe - a + b - c < 365 * yoe + 365
    requires 4 * q4 <= yoe < 4 * q4 + 4
    requires 100 * q100 <= yoe < 100 * q100 + 100
    ensures doe - (365 * yoe + q4 - q100) <= 365
  {
    // One case per century count of the era, so that each case is linear.
    if c == 1 {
    } else if b == 0 {
    } else if b == 1 {
    } else if b == 2 {
    } else {
    }
  }

  function Pow10(k: nat): nat {
    if k == 0 then 1 else 10 * Pow10(k - 1)
  }

  /** A number below 10^w has at most w digits. */
  lemma {:induction false} NatToStringFits(n: nat, w: nat)
    requires 1 <= w && n < Pow10(w)
    ensures |NatToString(n)| <= w
    decreases n
  {
    if n >= 10 {
      assert Pow10(1) == 10;
      NatToStringFits(n / 10, w - 1);
    }
  }

  /** Leading zeros do not change a digit string's value. */
  lemma {:induction false} LeadingZeros(k: nat, s: string)
    requires forall i :: 0 <= i < |s| ==> IsDigit(s[i])
    ensures var t := seq(k, _ => '0') + s;
            (forall i :: 0 <= i < |t| ==> IsDigit(t[i])) && DigitsValue(t) == DigitsValue(s)
    decreases |s| + k
  {
    var z := seq(k, _ => '0');
    var t := z + s;
    if s == [] {
      assert t == z;
      if k > 0 {
        assert t[..|t| - 1] == seq(k - 1, _ => '0') + [];
        LeadingZeros(k - 1, []);
      }
    } else {
      var s' := s[..|s| - 1];
      assert t[..|t| - 1] == z + s' && t[|t| - 1] == s[|s| - 1];
      LeadingZeros(k, s');
    }
  }

  /** A padded number that fits has exactly `width` digits, and they read back as the number. */
  lemma PaddedReadsBack(n: nat, width: nat)
    requires 1 <= width && n < Pow10(width)
    ensures var p := Padded(n, width);
            |p| == width && (forall i :: 0 <= i < |p| ==> IsDigit(p[i])) && DigitsValue(p) == n
  {
    var s := NatToString(n);
    NatToStringFits(n, width);
    DigitsValueOfNatToString(n);
    if |s| < width {
      LeadingZeros(width - |s|, s);
    }
  }

  /** For a date in Python's range (years 1 to 9999), `str(date)` is
      YYYY-MM-DD: ten characters, dashes at positions 4 and 7, and digit
      fields that read back as the year, the month and the day. */
  lemma DateTextReadsBack(day: int)
    requires 1 <= CivilFromDays(day).0 <= 9999
    ensures var (y, m, d) := CivilFromDays(day);
            var t := DateText(day);
            |t| == 10 && t[4] == '-' && t[7] == '-'
            && (forall i :: 0 <= i < 10 && i != 4 && i != 7 ==> IsDigit(t[i]))
            && DigitsValue(t[..4]) == y && DigitsValue(t[5..7]) == m && DigitsValue(t[8..]) == d
  {
    var (y, m, d) := CivilFromDays(day);
    CivilRanges(day);
    assert Pow10(2) == 100 && Pow10(4) == 10000;
    PaddedReadsBack(y, 4);
    PaddedReadsBack(m, 2);
    PaddedReadsBack(d, 2);
    var t := DateText(day);
    assert t == Padded(y, 4) + "-" + Padded(m, 2) + "-" + Padded(d, 2);
    assert t[..4] == Padded(y, 4) && t[5..7] == Padded(m, 2) && t[8..] == Padded(d, 2);
  }

  /** 2024-01-01 is day 19723, worked through the conversion step by step. */
  lemma CivilOfNewYear2024()
    ensures CivilFromDays(19723) == (2024, 1, 1)
  {
    var z := 19723 + 719468;
    var era := z / 146097;
    assert era == 5;
    var doe := z - era * 146097;
    assert doe == 8706;
    var yoe := (doe - doe / 1460 + doe / 36524 - doe / 146096) / 365;
    assert yoe == 23;
    var doy := doe - (365 * yoe + yoe / 4 - yoe / 100);
    assert doy == 306;
    var mp := (5 * doy + 2) / 153;
    assert mp == 10;
  }

  /** Day 0 is 1970-01-01, worked through the conversion step by step. */
  lemma CivilOfEpoch()
    ensures CivilFromDays(0) == (1970, 1, 1)
  {
    var z := 0 + 719468;
    var era := z / 146097;
    assert era == 4;
    var doe := z - era * 146097;
    assert doe == 135080;
    var yoe := (doe - doe / 1460 + doe / 36524 - doe / 146096) / 365;
    assert yoe == 369;
    var doy := doe - (365 * yoe + yoe / 4 - yoe / 100);
    assert doy == 306;
    var mp := (5 * doy + 2) / 153;
    assert mp == 10;
  }

  lemma PaddedExamples()
    ensures Padded(1970, 4) == "1970" && Padded(2024, 4) == "2024" && Padded(1, 2) == "01"
  {
    assert NatToString(1) == "1";
    assert NatToString(19) == "19";
    assert NatToString(197) == "197";
    assert NatToString(1970) == "1970";
    assert NatToString(2) == "2";
    assert NatToString(20) == "20";
    assert NatToString(202) == "202";
    assert NatToString(2024) == "2024";
  }

  /** Day 0 prints as the epoch date. */
  lemma DateTextOfEpoch()
    ensures DateText(0) == "1970-01-01"
  {
    CivilOfEpoch();
    PaddedExamples();
  }

  /** A due date in 2024 prints as Python's `str(date)` does. */
  lemma DateTextOfNewYear2024()
    ensures DateText(19723) == "2024-01-01"
  {
    CivilOfNewYear2024();
    PaddedExamples();
  }
}
