/** The application's session: the logged-in user, the deck being practised,
    the drawn card and which side of it is shown, over the database the
    session reads and writes. Its methods are the handlers that change that
    state: logging in and out, starting practice, drawing the next card,
    flipping it, rating it, adding a card and importing a shared deck.

    Every write to `cards` passes the card-owner trigger, here in its
    corrected form (an unknown admin flag counts as not admin). */
module Practice {
  import opened Common
  import opened Store
  import opened Scheduling
  import opened Permissions
  import opened CardOwnerTrigger
  import opened DueSelection
  import opened CsvImport

  /** The drawn card as the session keeps it, schedule defaults applied. */
  datatype Card = Card(
    id: int,
    front: string,
    back: string,
    intervalDays: int,
    easeHundredths: int,
    repetitions: int,
    nextDue: Option<int>)

  /** Python's `x or default` on a nullable integer column. */
  function OrDefault(v: Option<int>, default: int): int {
    if v.None? || v.value == 0 then default else v.value
  }

  /** The card made from the drawn row: a NULL or zero interval reads as one
      day, a NULL or zero ease as 2.5, a NULL repetition count as 0. */
  function DrawnCard(row: CardRow): (c: Card)
    ensures c.id == row.id && c.front == row.front && c.back == row.back && c.nextDue == row.nextDue
    ensures row.intervalDays.None? || row.intervalDays == Some(0) ==> c.intervalDays == 1
    ensures row.intervalDays.Some? && row.intervalDays != Some(0) ==> c.intervalDays == row.intervalDays.value
    ensures row.easeHundredths.None? || row.easeHundredths == Some(0) ==> c.easeHundredths == 250
    ensures row.easeHundredths.Some? && row.easeHundredths != Some(0) ==> c.easeHundredths == row.easeHundredths.value
    ensures c.repetitions == row.repetitions.GetOr(0)
  {
    Card(row.id, row.front, row.back, OrDefault(row.intervalDays, 1), OrDefault(row.easeHundredths, 250),
         OrDefault(row.repetitions, 0), row.nextDue)
  }

  /** What rating `card` with `grade` on day `today` writes. */
  function ScheduleFor(card: Card, grade: string, today: int): Schedule {
    CalculateSchedule(card.intervalDays, card.easeHundredths, card.repetitions, grade, None, today)
  }

  /** A row after the UPDATE of its four schedule columns. */
  function Rescheduled(row: CardRow, s: Schedule): CardRow {
    row.(intervalDays := Some(s.intervalDays), easeHundredths := Some(s.easeHundredths),
         repetitions := Some(s.repetitions), nextDue := Some(s.nextDue))
  }

  /** `UPDATE cards SET ... WHERE id = cardId` on the rows. */
  function SetSchedule(rows: seq<CardRow>, cardId: int, s: Schedule): seq<CardRow> {
    seq(|rows|, k requires 0 <= k < |rows| => if rows[k].id == cardId then Rescheduled(rows[k], s) else rows[k])
  }

  /** The UPDATE touches only the rows with that id and only their schedule. */
  lemma SetScheduleEffect(rows: seq<CardRow>, cardId: int, s: Schedule)
    ensures var r := SetSchedule(rows, cardId, s);
            |r| == |rows|
            && (forall k :: 0 <= k < |rows| && rows[k].id != cardId ==> r[k] == rows[k])
            && (forall k :: 0 <= k < |rows| && rows[k].id == cardId ==>
                  r[k].id == cardId && r[k].deckId == rows[k].deckId
                  && r[k].front == rows[k].front && r[k].back == rows[k].back
                  && r[k].intervalDays == Some(s.intervalDays) && r[k].easeHundredths == Some(s.easeHundredths)
                  && r[k].repetitions == Some(s.repetitions) && r[k].nextDue == Some(s.nextDue))
  {
  }

  /** The message of the first matched row the trigger refuses, if any. */
  function FirstDenial(db: Database, rows: seq<CardRow>, cardId: int): (m: Option<string>)
    ensures m.None? <==>
              forall k :: 0 <= k < |rows| && rows[k].id == cardId ==> CheckCardOwnerStrict(db, rows[k].deckId) == Allow
    ensures m.Some? ==> m.value == SharedDeckDenied || m.value == NotOwnerDenied
    decreases |rows|
  {
    if rows == [] then None
    else if rows[0].id == cardId && CheckCardOwnerStrict(db, rows[0].deckId).Deny? then
      Some(CheckCardOwnerStrict(db, rows[0].deckId).message)
    else
      var rest := FirstDenial(db, rows[1..], cardId);
      assert forall k :: 1 <= k < |rows| ==> rows[k] == rows[1..][k - 1];
      rest
  }

  /** The UPDATE statement as the database runs it: the trigger checks every
      matched row, and one refusal aborts the whole statement. */
  function UpdateCardSchedule(db: Database, cardId: int, s: Schedule): (r: Result<Database>)
    ensures r.Ok? <==>
              forall k :: 0 <= k < |db.cards| && db.cards[k].id == cardId ==> CheckCardOwnerStrict(db, db.cards[k].deckId) == Allow
    ensures r.Ok? ==> r.value == db.(cards := SetSchedule(db.cards, cardId, s))
    ensures r.Err? ==> r.message == SharedDeckDenied || r.message == NotOwnerDenied
  {
    var denial := FirstDenial(db, db.cards, cardId);
    if denial.Some? then Err(denial.value) else Ok(db.(cards := SetSchedule(db.cards, cardId, s)))
  }

  /** `id SERIAL PRIMARY KEY`: no two rows share an id. */
  predicate UniqueIds(rows: seq<CardRow>) {
    forall i, j :: 0 <= i < |rows| && 0 <= j < |rows| && rows[i].id == rows[j].id ==> i == j
  }

  function CardIds(rows: seq<CardRow>): set<int> {
    set k | 0 <= k < |rows| :: rows[k].id
  }

  /** An id above every id in use, standing for the id sequence's next value. */
  function NextCardId(rows: seq<CardRow>): (r: int)
    ensures forall k :: 0 <= k < |rows| ==> rows[k].id < r
    decreases |rows|
  {
    if rows == [] then 1
    else
      var rest := NextCardId(rows[..|rows| - 1]);
      assert forall k :: 0 <= k < |rows| - 1 ==> rows[k] == rows[..|rows| - 1][k];
      Max(rest, rows[|rows| - 1].id + 1)
  }

  /** A row as `INSERT INTO cards (deck_id, front, back)` creates it: the
      schedule columns take their defaults (1 day, 2.5, 0, today). */
  function NewCardRow(id: int, deckId: int, front: string, back: string, today: int): CardRow {
    CardRow(id, deckId, front, back, Some(1), Some(250), Some(0), Some(today))
  }

  /** The rows an import inserts, with consecutive fresh ids from `firstId`. */
  function NewRows(deckId: int, firstId: int, pairs: seq<Pair>, today: int): (r: seq<CardRow>)
    ensures |r| == |pairs|
    ensures forall k :: 0 <= k < |r| ==> r[k] == NewCardRow(firstId + k, deckId, pairs[k].0, pairs[k].1, today)
  {
    seq(|pairs|, k requires 0 <= k < |pairs| => NewCardRow(firstId + k, deckId, pairs[k].0, pairs[k].1, today))
  }

  /** The (front, back) pairs a deck holds. */
  function DeckPairs(rows: seq<CardRow>, deckId: int): set<Pair> {
    set k | 0 <= k < |rows| && rows[k].deckId == deckId :: (rows[k].front, rows[k].back)
  }

  /** The session variable holds the logged-in user's id, and that user's
      row agrees on whether they are admin. */
  predicate SessionMatchesUser(db: Database, user: Option<User>) {
    user.Some? ==>
      InInt4(user.value.id) && db.setting == Some(IntToString(user.value.id))
      && user.value.id in db.users && (db.users[user.value.id] == Some(true) <==> user.value.isAdmin)
  }

  /** The deck owner the session remembers is the deck's owner. */
  predicate OwnerIsCurrent(db: Database, deckId: Option<int>, owner: Option<int>) {
    owner == (if deckId.Some? then DeckOwner(db, deckId.value) else None)
  }

  /** The drawn card is a row of the current deck. */
  predicate CardInDeck(db: Database, deckId: Option<int>, card: Option<Card>) {
    card.Some? ==>
      deckId.Some? && card.value.id in CardIds(db.cards)
      && forall k :: 0 <= k < |db.cards| && db.cards[k].id == card.value.id ==> db.cards[k].deckId == deckId.value
  }

  /** What the session keeps true of the database: unique card ids, the
      session variable naming the logged-in user, the remembered owner, and
      the drawn card in the current deck. */
  predicate Consistent(db: Database, user: Option<User>, deckId: Option<int>, owner: Option<int>, card: Option<Card>) {
    UniqueIds(db.cards) && SessionMatchesUser(db, user) && OwnerIsCurrent(db, deckId, owner) && CardInDeck(db, deckId, card)
  }

  /** Inserting rows with fresh ids keeps the session consistent. */
  lemma InsertKeepsConsistent(db: Database, user: Option<User>, deckId: Option<int>, owner: Option<int>,
                              card: Option<Card>, extra: seq<CardRow>)
    requires Consistent(db, user, deckId, owner, card)
    requires UniqueIds(extra) && forall j :: 0 <= j < |extra| ==> extra[j].id >= NextCardId(db.cards)
    ensures Consistent(db.(cards := db.cards + extra), user, deckId, owner, card)
  {
    var all := db.cards + extra;
    AppendFresh(db.cards, extra);
    if card.Some? {
      forall k | 0 <= k < |all| && all[k].id == card.value.id
        ensures all[k].deckId == deckId.value
      {
        if k < |db.cards| {
          assert all[k] == db.cards[k];
        }
      }
    }
  }

  /** Recording a deck as shared that was shared or missing keeps the session
      consistent: no deck's owner changes. */
  lemma SharedDeckKeepsConsistent(db: Database, user: Option<User>, deckId: Option<int>, owner: Option<int>,
                                  card: Option<Card>, shared: int)
    requires Consistent(db, user, deckId, owner, card)
    requires shared !in db.decks || db.decks[shared].None?
    ensures Consistent(db.(decks := db.decks[shared := None]), user, deckId, owner, card)
  {
    var db' := db.(decks := db.decks[shared := None]);
    forall d ensures DeckOwner(db', d) == DeckOwner(db, d) {
    }
  }

  /** Rescheduling rows keeps the session consistent: ids and decks stay. */
  lemma RescheduleKeepsConsistent(db: Database, user: Option<User>, deckId: Option<int>, owner: Option<int>,
                                  card: Option<Card>, cardId: int, s: Schedule)
    requires Consistent(db, user, deckId, owner, card)
    ensures Consistent(db.(cards := SetSchedule(db.cards, cardId, s)), user, deckId, owner, card)
  {
    SetScheduleEffect(db.cards, cardId, s);
    var cards' := SetSchedule(db.cards, cardId, s);
    assert CardIds(cards') == CardIds(db.cards) by {
      forall id ensures id in CardIds(cards') <==> id in CardIds(db.cards) {
        if id in CardIds(db.cards) {
          var k :| 0 <= k < |db.cards| && db.cards[k].id == id;
          assert cards'[k].id == id;
        }
        if id in CardIds(cards') {
          var k :| 0 <= k < |cards'| && cards'[k].id == id;
          assert db.cards[k].id == id;
        }
      }
    }
  }

  /** When the session is consistent and the application lets the user
      schedule reviews in the deck, the database accepts the rating. */
  lemma AllowedRatingIsSaved(db: Database, user: Option<User>, deckId: Option<int>, owner: Option<int>,
                             card: Card, s: Schedule)
    requires SessionMatchesUser(db, user) && OwnerIsCurrent(db, deckId, owner) && CardInDeck(db, deckId, Some(card))
    requires CanScheduleReviews(user, owner)
    ensures UpdateCardSchedule(db, card.id, s).Ok?
  {
    var u := user.value;
    StrictTriggerAgreesWithApp(db, deckId.value, u.id);
    assert User(u.id, AdminLookup(db, Some(u.id)) == Some(true)) == u;
  }

  /** Adding a card passes the trigger whenever the application's own checks
      let it through: those checks are stricter. */
  lemma AddedCardPassesTrigger(db: Database, user: Option<User>, front: Option<string>, back: Option<string>,
                               selected: Option<string>)
    requires SessionMatchesUser(db, user)
    requires AddCardCheck(user, front, back, selected, db.decks).InsertCard?
    ensures CheckCardOwnerStrict(db, AddCardCheck(user, front, back, selected, db.decks).deckId) == Allow
  {
    var u := user.value;
    StrictTriggerAgreesWithApp(db, AddCardCheck(user, front, back, selected, db.decks).deckId, u.id);
  }

  /** The card `get_next_card` keeps for the row its query returned. */
  function DrawnCardOf(row: Option<CardRow>): (card: Option<Card>)
    ensures card.Some? <==> row.Some?
  {
    if row.Some? then Some(DrawnCard(row.value)) else None
  }

  /** The card text after a draw: the front of the drawn card, or why there is none. */
  function DrawnText(cards: seq<CardRow>, deckId: Option<int>, row: Option<CardRow>): string {
    if row.Some? then row.value.front
    else if DeckCards(cards, deckId) == [] then "No cards in this deck."
    else "No cards due today."
  }

  /** When no card is drawn, the card text agrees with the status line:
      "No cards in this deck." exactly for an empty deck (the only way random
      mode draws nothing), and otherwise "No cards due today." while the
      status says all cards are caught up. */
  lemma EmptyDrawMatchesStatus(cards: seq<CardRow>, deckId: Option<int>, today: int, canSchedule: bool, pick: nat)
    requires NextRow(cards, deckId, today, canSchedule, pick).None?
    ensures var t := DrawnText(cards, deckId, None);
            var s := StatusOf(cards, deckId, today, canSchedule);
            (t == "No cards in this deck." <==> DeckCards(cards, deckId) == [])
            && (!canSchedule ==> t == "No cards in this deck.")
            && (canSchedule ==> (t == "No cards in this deck." <==> s == NoCardsInDeck)
                                && (t == "No cards due today." <==> s.AllCaughtUp?))
  {
    var deck := DeckCards(cards, deckId);
    var due := DueCards(cards, deckId, today);
    if deck != [] {
      assert deck[0] in cards && InDeck(deck[0], deckId);
    }
  }

  /** Drawing a row of the current deck keeps the session consistent. */
  lemma DrawKeepsConsistent(db: Database, user: Option<User>, deckId: Option<int>, owner: Option<int>,
                            card: Option<Card>, row: Option<CardRow>)
    requires Consistent(db, user, deckId, owner, card)
    requires row.Some? ==> row.value in db.cards && InDeck(row.value, deckId)
    ensures Consistent(db, user, deckId, owner, DrawnCardOf(row))
  {
    if row.Some? {
      SameIdSameRow(db.cards, row.value);
    }
  }

  lemma SameIdSameRow(rows: seq<CardRow>, row: CardRow)
    requires UniqueIds(rows) && row in rows
    ensures row.id in CardIds(rows)
    ensures forall k :: 0 <= k < |rows| && rows[k].id == row.id ==> rows[k] == row
  {
    var j :| 0 <= j < |rows| && rows[j] == row;
    assert rows[j].id in CardIds(rows);
  }

  /** Appending rows whose ids are distinct and above every id in use keeps
      ids unique and keeps the ids in use. */
  lemma AppendFresh(rows: seq<CardRow>, extra: seq<CardRow>)
    requires UniqueIds(rows) && UniqueIds(extra)
    requires forall j :: 0 <= j < |extra| ==> extra[j].id >= NextCardId(rows)
    ensures UniqueIds(rows + extra)
    ensures CardIds(rows) <= CardIds(rows + extra)
    ensures forall k :: |rows| <= k < |rows + extra| ==> (rows + extra)[k].id !in CardIds(rows)
  {
    var all := rows + extra;
    forall i, j | 0 <= i < |all| && 0 <= j < |all| && all[i].id == all[j].id
      ensures i == j
    {
      if i >= |rows| && j >= |rows| {
        assert all[i] == extra[i - |rows|] && all[j] == extra[j - |rows|];
      }
    }
    forall id | id in CardIds(rows)
      ensures id in CardIds(all)
    {
      var k :| 0 <= k < |rows| && rows[k].id == id;
      assert all[k] == rows[k];
    }
    forall k | |rows| <= k < |all|
      ensures all[k].id !in CardIds(rows)
    {
      assert all[k] == extra[k - |rows|];
    }
  }

  lemma NewRowsUnique(deckId: int, firstId: int, pairs: seq<Pair>, today: int)
    ensures UniqueIds(NewRows(deckId, firstId, pairs, today))
    ensures forall j :: 0 <= j < |pairs| ==> NewRows(deckId, firstId, pairs, today)[j].id >= firstId
  {
  }

  /** The import's inserts pass the trigger: the session acts for the
      logged-in admin, and the target deck is shared. */
  lemma ImportInsertsPassTrigger(db: Database, user: User, shared: int)
    requires SessionMatchesUser(db, Some(user)) && user.isAdmin
    ensures CheckCardOwnerStrict(db.(decks := db.decks[shared := None]), shared) == Allow
  {
    StrictTriggerAgreesWithApp(db.(decks := db.decks[shared := None]), shared, user.id);
  }

  /** `app.current_user_id` as `import_shared_deck_cards` leaves it as written:
      cleared, although the admin who imported stays logged in. */
  function SettingAfterImportAsWritten(): Option<string> {
    Some("")
  }

  /** With the setting cleared, every write to `cards` is refused, by the
      trigger as written and as corrected alike, even for a user the
      application lets schedule reviews: the next rating after an import
      fails with "Could not save rating." until the user logs in again. */
  lemma ClearedSettingRefusesAllowedWrites(db: Database, user: User, deckId: int)
    requires db.setting == SettingAfterImportAsWritten()
    requires CanScheduleReviews(Some(user), DeckOwner(db, deckId))
    ensures CheckCardOwner(db, deckId).Deny? && CheckCardOwnerStrict(db, deckId).Deny?
    ensures UpdateCardSchedule(db.(cards := [CardRow(0, deckId, "", "", None, None, None, None)]), 0,
                               Schedule(1, 250, 1, 1)).Err?
  {
    var db' := db.(cards := [CardRow(0, deckId, "", "", None, None, None, None)]);
    assert db'.cards[0].id == 0;
  }

  /** The setting the import leaves, corrected: the importing user's id, as
      login set it, so the session keeps acting for that user. */
  function SettingAfterImport(user: User): Option<string>
    requires InInt4(user.id)
  {
    Some(IntToString(user.id))
  }

  /** The trigger reads the corrected setting back as the importing user. */
  lemma SettingAfterImportNamesUser(user: User)
    requires InInt4(user.id)
    ensures SessionUserId(SettingAfterImport(user)) == Some(user.id)
  {
    SessionUserIdOfLogin(user.id);
  }

  /** The database after a successful import into the shared deck `shared`:
      the deck recorded as shared, the new pairs appended as rows with fresh
      ids, and the session variable left naming the importing admin. */
  function ImportedDatabase(db: Database, user: User, shared: int, added: seq<Pair>, today: int): Database
    requires InInt4(user.id)
  {
    db.(decks := db.decks[shared := None],
        cards := db.cards + NewRows(shared, NextCardId(db.cards), added, today),
        setting := SettingAfterImport(user))
  }

  /** An import by the logged-in admin keeps the session consistent. */
  lemma ImportKeepsConsistent(db: Database, user: Option<User>, deckId: Option<int>, owner: Option<int>,
                              card: Option<Card>, shared: int, added: seq<Pair>, today: int)
    requires Consistent(db, user, deckId, owner, card) && user.Some?
    requires shared !in db.decks || db.decks[shared].None?
    ensures InInt4(user.value.id)
    ensures Consistent(ImportedDatabase(db, user.value, shared, added, today), user, deckId, owner, card)
  {
    var rows := NewRows(shared, NextCardId(db.cards), added, today);
    NewRowsUnique(shared, NextCardId(db.cards), added, today);
    SharedDeckKeepsConsistent(db, user, deckId, owner, card, shared);
    var withDeck := db.(decks := db.decks[shared := None]);
    InsertKeepsConsistent(withDeck, user, deckId, owner, card, rows);
    assert ImportedDatabase(db, user.value, shared, added, today) == withDeck.(cards := withDeck.cards + rows);
  }

  class Session {
    var db: Database
    var currentUser: Option<User>
    var currentDeckId: Option<int>
    var currentDeckOwner: Option<int>
    var currentCard: Option<Card>
    var isShowingAnswer: bool
    /** The practice status line. */
    var status: string
    /** The text on the card. */
    var cardText: string
    /** The CSV import status line. */
    var csvStatus: string
    /** How many times the drawn card has been flipped. */
    ghost var flipsSinceDraw: nat

    ghost predicate Valid()
      reads this
    {
      Consistent(db, currentUser, currentDeckId, currentDeckOwner, currentCard)
      && (currentCard.None? ==> flipsSinceDraw == 0)
      && (isShowingAnswer <==> flipsSinceDraw % 2 == 1)
      && (currentCard.Some? ==>
            cardText == (if isShowingAnswer then currentCard.value.back else currentCard.value.front))
    }

    /** The state `get_next_card` leaves on day `today` with tie-break `pick`:
        the drawn card (or none) front side up, and the status line. */
    ghost predicate ShowsDraw(today: int, pick: nat)
      reads this
    {
      var canSchedule := CanScheduleReviews(currentUser, currentDeckOwner);
      var row := NextRow(db.cards, currentDeckId, today, canSchedule, pick);
      currentCard == DrawnCardOf(row) && cardText == DrawnText(db.cards, currentDeckId, row)
      && !isShowingAnswer && flipsSinceDraw == 0
      && status == StatusText(StatusOf(db.cards, currentDeckId, today, canSchedule))
    }

    constructor(db0: Database)
      requires UniqueIds(db0.cards)
      ensures Valid()
      ensures db == db0 && currentUser.None? && currentDeckId.None? && currentDeckOwner.None?
      ensures currentCard.None? && !isShowingAnswer
    {
      db := db0;
      currentUser := None;
      currentDeckId := None;
      currentDeckOwner := None;
      currentCard := None;
      isShowingAnswer := false;
      status := "";
      cardText := "";
      csvStatus := "";
      flipsSinceDraw := 0;
    }

    /** `login` once the password matched: `user` is the users row found. */
    method Login(user: User)
      modifies this
      requires Valid()
      requires InInt4(user.id) && user.id in db.users && (db.users[user.id] == Some(true) <==> user.isAdmin)
      ensures Valid()
      ensures currentUser == Some(user) && db == old(db).(setting := Some(IntToString(user.id)))
      ensures currentDeckId == old(currentDeckId) && currentDeckOwner == old(currentDeckOwner)
      ensures currentCard == old(currentCard) && isShowingAnswer == old(isShowingAnswer)
      ensures flipsSinceDraw == old(flipsSinceDraw) && cardText == old(cardText)
      ensures status == old(status) && csvStatus == old(csvStatus)
    {
      currentUser := Some(user);
      db := db.(setting := Some(IntToString(user.id)));
    }

    /** `logout`: forget the user and clear the session variable. */
    method Logout()
      modifies this
      requires Valid()
      ensures Valid()
      ensures currentUser.None? && db == old(db).(setting := Some(""))
      ensures currentDeckId == old(currentDeckId) && currentDeckOwner == old(currentDeckOwner)
      ensures currentCard == old(currentCard) && isShowingAnswer == old(isShowingAnswer)
      ensures flipsSinceDraw == old(flipsSinceDraw) && cardText == old(cardText)
      ensures status == old(status) && csvStatus == old(csvStatus)
    {
      currentUser := None;
      db := db.(setting := Some(""));
    }

    /** `get_next_card`. */
    method GetNextCard(today: int, pick: nat)
      modifies this
      requires Valid()
      ensures Valid()
      ensures ShowsDraw(today, pick)
      ensures db == old(db) && currentUser == old(currentUser)
      ensures currentDeckId == old(currentDeckId) && currentDeckOwner == old(currentDeckOwner)
      ensures csvStatus == old(csvStatus)
    {
      var canSchedule := CanScheduleReviews(currentUser, currentDeckOwner);
      var row := NextRow(db.cards, currentDeckId, today, canSchedule, pick);
      status := StatusText(StatusOf(db.cards, currentDeckId, today, canSchedule));
      DrawKeepsConsistent(db, currentUser, currentDeckId, currentDeckOwner, currentCard, row);
      currentCard := DrawnCardOf(row);
      isShowingAnswer := false;
      cardText := DrawnText(db.cards, currentDeckId, row);
      flipsSinceDraw := 0;
    }

    /** `start_practice`: remember the deck and its owner, then draw. */
    method StartPractice(deckId: int, today: int, pick: nat)
      modifies this
      requires Valid()
      ensures Valid()
      ensures currentDeckId == Some(deckId) && currentDeckOwner == DeckOwner(db, deckId)
      ensures ShowsDraw(today, pick)
      ensures db == old(db) && currentUser == old(currentUser) && csvStatus == old(csvStatus)
    {
      currentDeckId := Some(deckId);
      currentDeckOwner := DeckOwner(db, deckId);
      currentCard := None;
      isShowingAnswer := false;
      flipsSinceDraw := 0;
      GetNextCard(today, pick);
    }

    /** `flip_card`: turn the drawn card over; nothing without a card. */
    method FlipCard()
      modifies this
      requires Valid()
      ensures Valid()
      ensures old(currentCard).None? ==>
                isShowingAnswer == old(isShowingAnswer) && flipsSinceDraw == old(flipsSinceDraw) && cardText == old(cardText)
      ensures old(currentCard).Some? ==>
                isShowingAnswer == !old(isShowingAnswer) && flipsSinceDraw == old(flipsSinceDraw) + 1
                && cardText == (if isShowingAnswer then currentCard.value.back else currentCard.value.front)
      ensures db == old(db) && currentUser == old(currentUser) && currentCard == old(currentCard)
      ensures currentDeckId == old(currentDeckId) && currentDeckOwner == old(currentDeckOwner)
      ensures status == old(status) && csvStatus == old(csvStatus)
    {
      if currentCard.Some? {
        isShowingAnswer := !isShowingAnswer;
        flipsSinceDraw := flipsSinceDraw + 1;
        cardText := if isShowingAnswer then currentCard.value.back else currentCard.value.front;
      }
    }

    /** `update_schedule`: write the drawn card's next schedule, computed
        with today's date, and report the outcome. */
    method UpdateSchedule(grade: string, today: int) returns (ok: bool, msg: string)
      modifies this
      requires Valid()
      ensures Valid()
      ensures old(currentCard).None? ==> !ok && msg == "No card selected." && db == old(db)
      ensures old(currentCard).Some? ==>
                var write := UpdateCardSchedule(old(db), old(currentCard).value.id, ScheduleFor(old(currentCard).value, grade, today));
                (ok <==> write.Ok?)
                && (ok ==> db == write.value && msg == "Saved")
                && (!ok ==> db == old(db) && msg == "Could not update review: " + write.message)
      ensures currentUser == old(currentUser) && currentCard == old(currentCard) && isShowingAnswer == old(isShowingAnswer)
      ensures currentDeckId == old(currentDeckId) && currentDeckOwner == old(currentDeckOwner)
      ensures flipsSinceDraw == old(flipsSinceDraw) && cardText == old(cardText) && status == old(status)
      ensures csvStatus == old(csvStatus)
    {
      if currentCard.None? {
        return false, "No card selected.";
      }
      var card := currentCard.value;
      var write := UpdateCardSchedule(db, card.id, ScheduleFor(card, grade, today));
      if write.Err? {
        return false, "Could not update review: " + write.message;
      }
      RescheduleKeepsConsistent(db, currentUser, currentDeckId, currentDeckOwner, currentCard, card.id,
                                ScheduleFor(card, grade, today));
      db := write.value;
      return true, "Saved";
    }

    /** `rate_card`: the checks in order, then the write, then the next draw. */
    method RateCard(grade: string, today: int, pick: nat)
      modifies this
      requires Valid()
      ensures Valid()
      ensures var gate := RateGate(old(currentCard).Some?, old(isShowingAnswer), old(currentUser), old(currentDeckOwner));
              gate != RateAllowed ==>
                status == RateRefusalText(gate) && db == old(db) && currentCard == old(currentCard)
                && isShowingAnswer == old(isShowingAnswer) && cardText == old(cardText)
                && flipsSinceDraw == old(flipsSinceDraw)
      ensures var gate := RateGate(old(currentCard).Some?, old(isShowingAnswer), old(currentUser), old(currentDeckOwner));
              gate == RateAllowed ==> old(flipsSinceDraw) % 2 == 1
      ensures var gate := RateGate(old(currentCard).Some?, old(isShowingAnswer), old(currentUser), old(currentDeckOwner));
              gate == RateAllowed ==>
                var write := UpdateCardSchedule(old(db), old(currentCard).value.id,
                                                ScheduleFor(old(currentCard).value, grade, today));
                (write.Err? ==> status == "Could not save rating." && db == old(db) && currentCard == old(currentCard)
                                && isShowingAnswer == old(isShowingAnswer) && cardText == old(cardText)
                                && flipsSinceDraw == old(flipsSinceDraw))
                && (write.Ok? ==> db == write.value && ShowsDraw(today, pick))
      ensures currentUser == old(currentUser) && csvStatus == old(csvStatus)
      ensures currentDeckId == old(currentDeckId) && currentDeckOwner == old(currentDeckOwner)
    {
      var gate := RateGate(currentCard.Some?, isShowingAnswer, currentUser, currentDeckOwner);
      if gate != RateAllowed {
        status := RateRefusalText(gate);
        return;
      }
      var ok, msg := UpdateSchedule(grade, today);
      if !ok {
        status := "Could not save rating.";
        return;
      }
      GetNextCard(today, pick);
    }

    /** `add_card_to_deck`: the checks, then the INSERT. */
    method AddCard(front: Option<string>, back: Option<string>, selected: Option<string>, today: int)
        returns (outcome: AddCardOutcome)
      modifies this
      requires Valid()
      ensures Valid()
      ensures outcome == AddCardCheck(old(currentUser), front, back, selected, old(db.decks))
      ensures outcome.InsertCard? ==>
                db == old(db).(cards := old(db.cards)
                                        + [NewCardRow(NextCardId(old(db.cards)), outcome.deckId, front.value, back.value, today)])
      ensures !outcome.InsertCard? ==> db == old(db)
      ensures currentUser == old(currentUser) && currentCard == old(currentCard) && isShowingAnswer == old(isShowingAnswer)
      ensures currentDeckId == old(currentDeckId) && currentDeckOwner == old(currentDeckOwner)
      ensures flipsSinceDraw == old(flipsSinceDraw) && cardText == old(cardText)
      ensures status == old(status) && csvStatus == old(csvStatus)
    {
      outcome := AddCardCheck(currentUser, front, back, selected, db.decks);
      if outcome.InsertCard? {
        var row := NewCardRow(NextCardId(db.cards), outcome.deckId, front.value, back.value, today);
        InsertKeepsConsistent(db, currentUser, currentDeckId, currentDeckOwner, currentCard, [row]);
        db := db.(cards := db.cards + [row]);
      }
    }

    /** `import_shared_deck_cards`: the checks, then (acting as the admin)
        the shared deck `sharedDeckId` found or created under the name, the
        duplicate-skipping inserts, and the status line. */
    method ImportSharedDeck(nameField: Option<string>, cards: seq<Pair>, hasHeader: Option<bool>,
                            sharedDeckId: int, today: int)
        returns (outcome: ImportCheck)
      modifies this
      requires Valid()
      requires sharedDeckId !in db.decks || db.decks[sharedDeckId].None?
      ensures Valid()
      ensures outcome == CheckImport(old(currentUser), nameField, cards)
      ensures !outcome.ImportInto? ==> csvStatus == ImportRefusalText(outcome) && db == old(db)
      ensures outcome.ImportInto? ==>
                var added := NewPairs(DeckPairs(old(db.cards), sharedDeckId), cards);
                db == ImportedDatabase(old(db), old(currentUser).value, sharedDeckId, added, today)
                && csvStatus == ImportStatusText(|added|, |cards| - |added|, hasHeader)
      ensures currentUser == old(currentUser) && currentCard == old(currentCard) && isShowingAnswer == old(isShowingAnswer)
      ensures currentDeckId == old(currentDeckId) && currentDeckOwner == old(currentDeckOwner)
      ensures flipsSinceDraw == old(flipsSinceDraw) && cardText == old(cardText) && status == old(status)
    {
      outcome := CheckImport(currentUser, nameField, cards);
      if !outcome.ImportInto? {
        csvStatus := ImportRefusalText(outcome);
        return;
      }
      StoreImport(cards, hasHeader, sharedDeckId, today);
    }

    /** The part of `import_shared_deck_cards` after its checks: acting as
        the logged-in admin, record the deck as shared, insert the pairs it
        does not hold yet, and report the counts. */
    method StoreImport(cards: seq<Pair>, hasHeader: Option<bool>, sharedDeckId: int, today: int)
      modifies this
      requires Valid() && currentUser.Some? && currentUser.value.isAdmin
      requires sharedDeckId !in db.decks || db.decks[sharedDeckId].None?
      ensures Valid()
      ensures InInt4(old(currentUser).value.id)
      ensures db == ImportedDatabase(old(db), old(currentUser).value, sharedDeckId,
                                     NewPairs(DeckPairs(old(db.cards), sharedDeckId), cards), today)
      ensures var n := |NewPairs(DeckPairs(old(db.cards), sharedDeckId), cards)|;
              csvStatus == ImportStatusText(n, |cards| - n, hasHeader)
      ensures currentUser == old(currentUser) && currentCard == old(currentCard) && isShowingAnswer == old(isShowingAnswer)
      ensures currentDeckId == old(currentDeckId) && currentDeckOwner == old(currentDeckOwner)
      ensures flipsSinceDraw == old(flipsSinceDraw) && cardText == old(cardText) && status == old(status)
    {
      var inserted, skipped, added, present := DedupeInsert(DeckPairs(db.cards, sharedDeckId), cards);
      ImportKeepsConsistent(db, currentUser, currentDeckId, currentDeckOwner, currentCard, sharedDeckId, added, today);
      db := ImportedDatabase(db, currentUser.value, sharedDeckId, added, today);
      csvStatus := ImportStatusText(inserted, skipped, hasHeader);
    }
  }
}
