/** The database state the application reads and writes: the rows of `decks`,
    `users` and `cards`, and the connection's `app.current_user_id` setting. */
module Store {
  import opened Common

  /** A row of `cards`. Every schedule column may be NULL. */
  datatype CardRow = CardRow(
    id: int,
    deckId: int,
    front: string,
    back: string,
    intervalDays: Option<int>,
    easeHundredths: Option<int>,
    repetitions: Option<int>,
    nextDue: Option<int>)

  /** `decks` maps a deck id to its `owner_id` (NULL for a shared deck);
      `users` maps a user id to its `is_admin` column (which may be NULL);
      `setting` is `app.current_user_id`, absent until it is first set. */
  datatype Database = Database(
    decks: map<int, Option<int>>,
    users: map<int, Option<bool>>,
    cards: seq<CardRow>,
    setting: Option<string>)

  /** `SELECT owner_id FROM decks WHERE id = d`, where no row reads as NULL. */
  function DeckOwner(db: Database, deckId: int): (owner: Option<int>)
    ensures deckId !in db.decks ==> owner == None
    ensures deckId in db.decks ==> owner == db.decks[deckId]
  {
    if deckId in db.decks then db.decks[deckId] else None
  }
}
