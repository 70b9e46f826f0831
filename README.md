# German flashcards: scheduling, permissions and import, modelled in Dafny

This project models the core of a German–English flashcard application. The application is a desktop app backed by a PostgreSQL database. Its core, as modelled here:

- **The review scheduler** (`calculate_schedule`): a simplified SuperMemo-2 step that maps a card's interval, ease factor and repetition count, plus the grade, to the card's next schedule.
- **The practice session** (`main.py`): drawing the next card of a deck, the status line, flipping a card, rating it (which writes the new schedule), and adding a card.
- **The permission rules**: who may schedule reviews, and who may rename or delete a deck or delete a user, with the visibility of the matching buttons.
- **The CSV import**: header detection, column choice and row filtering, then the checks and the duplicate-skipping inserts of `import_shared_deck_cards`.
- **The `check_card_owner` trigger**: it guards every insert into and update of `cards`, and reads the connection setting `app.current_user_id` and the `users` table.
- **The database configuration** built from environment variables.

Modules, one per file:

| module | file | models |
|---|---|---|
| `Common` | common.dfy | `Option`/`Result`; Python's `str.strip`, ASCII `lower`, `str(int)`, `", ".join` |
| `Scheduling` | scheduling.dfy | `calculate_schedule`, with Python's half-to-even `round` |
| `Store` | store.dfy | the rows of `decks`, `users`, `cards` and the session setting |
| `Permissions` | permissions.dfy | `can_schedule_reviews`, the rating gate, deck rename/delete, `add_card_to_deck`'s checks, `int()` on the deck dropdown, user deletion |
| `CardOwnerTrigger` | card_owner_trigger.dfy | `check_card_owner` with SQL three-valued logic and the `::integer` cast |
| `DueSelection` | due_selection.dfy | the queries of `get_next_card` and its status line, including `str(date)` |
| `CsvImport` | csv_import.dfy | `read_cards_from_csv` after the file is read; the checks, dedupe loop and status of `import_shared_deck_cards` |
| `DbConfig` | db_config.dfy | `get_missing_db_env_vars`, `build_db_config` |
| `Practice` | practice.dfy | the session state (class `Session`) and its handlers over the database |

Units and representations:
- **Days** are integer day numbers, with day 0 = 1970-01-01.
- **The ease factor** is kept in exact hundredths: 250 stands for 2.5 and 130 for the floor 1.3.
- **A grade** is the raw token. A token outside again/hard/good/easy behaves like "good", as the `.get(grade, 0.0)` fallback does.
- **SQL NULL** is `None`.
- **`RANDOM()` ordering** is a caller-chosen index `pick` into the rows that tie.
- **`CURRENT_DATE` and `date.today()`** are the parameter `today`.

Every UPDATE of `cards` in the session goes through the trigger in its corrected form (see Findings), so a rating is saved exactly when the trigger accepts it. The session's INSERTs (adding a card, importing) append their rows directly; `Practice.AddedCardPassesTrigger` and `Practice.ImportInsertsPassTrigger` prove that the trigger accepts them. `Practice.Session.Valid()` is the session invariant:
- card ids are unique;
- the session setting names the logged-in user, and that user's row has a true admin flag exactly when the session treats the user as an admin;
- the remembered deck owner is the deck's owner;
- the drawn card is a row of the current deck;
- the answer side is shown exactly when the card was flipped an odd number of times.

## Model

| member | source | states |
|---|---|---|
| Scheduling.CalculateSchedule | scheduling.py:4-36 | "again" resets to 0 repetitions and a 1-day interval; any other token adds one repetition, with intervals 1, 6, then max(1, round-half-even(interval × old ease)); interval ≥ 1; ease ≥ 1.3; next due = reference day (or the clock's day when none is given) + interval |
| Scheduling.EaseAdjustments | scheduling.py:22-28 | the four ease changes −0.20, −0.15, 0, +0.15, each floored at 1.3 |
| Scheduling.UnknownGradeIsGood | scheduling.py:22-27 | an unrecognised grade token gives exactly the schedule of "good" |
| Scheduling.EaseMonotoneInGrade | scheduling.py:22-28 | a better grade never leaves a smaller ease |
| Scheduling.MatureIntervalNeverShrinks | scheduling.py:19-20 | from the third success on, with interval ≥ 1 and ease ≥ 1.3, the interval never shrinks |
| Scheduling.MatureTieRoundsToEven | scheduling.py:20 | `round` ties go to even: 1 day × 2.5 gives 2 days, 3 days × 2.5 gives 8 |
| Scheduling.WorkedTrace | scheduling.py:10-29 | a new card graded good, good, again: (1 day, 2.5, 1), (6 days, 2.5, 2), (1 day, 2.3, 0) |
| Scheduling.RoundHalfEven | scheduling.py:20 | the result is within half a step of the quotient and even on a tie |
| Scheduling.RoundHalfEvenUnique | scheduling.py:20 | exactly one integer meets those two conditions |
| Scheduling.RoundHalfEvenAtLeast | scheduling.py:20 | a quotient ≥ k never rounds below k |
| Store.DeckOwner | main.py:578-580 | the owner of a listed deck is its `owner_id`; an unknown deck id gives no owner |
| Permissions.CanScheduleReviews | main.py:594-599 | shared deck: only an admin; owned deck: a logged-in admin or the owner |
| Permissions.RateGate | main.py:761-799 | the checks of `rate_card` in order (no card, not flipped, shared deck, login, not own deck); it allows exactly when there is a card, it shows the answer, and the user may schedule reviews |
| Permissions.RateRefusalTextsDistinct | main.py:762-793 | each refusal of `rate_card` shows its own message, and only an allowed rating shows none |
| Permissions.ManageDeckClick | main.py:278-290 | the three refusal messages of the rename and delete click handlers, and no refusal otherwise |
| Permissions.ManageButtonVisibleIffAllowed | main.py:296-300 | the rename/delete button is visible exactly when the click handler would not refuse, i.e. when the user may manage the deck |
| Permissions.ManageButtonVisible | main.py:294-298 | hidden from a logged-out visitor; shown to an admin; a shared deck hides it from a non-admin; an owned deck shows it exactly to its owner or an admin |
| Permissions.ParsePythonInt | main.py:820 | `int()` rejects blank text |
| Permissions.ParseSignedOfDigits | main.py:820 | `int()` reads a digit string as its value |
| Permissions.ParseSignedOfNegatedDigits | main.py:820 | `int()` reads a digit string after a minus sign as the negation of its value |
| Permissions.ParsePythonIntOfIntToString | main.py:820 | a deck id written with `str()` reads back as itself |
| Permissions.AddCardCheck | main.py:811-845 | the guards in source order: a logged-out user gets the login message; then a missing front, back or deck does nothing; then an unparseable deck is "Invalid deck selected", an unknown one "not found", the shared deck and another user's deck are refused; an insert happens exactly when every guard passes, into the user's own deck |
| Permissions.AddCardOnlyToOwnDeck | main.py:824-845 | for a listed deck: the shared deck is refused, another user's deck is refused, and one's own deck is inserted into |
| Permissions.DeleteUserCheck | main.py:986-997 | the guards in source order: a non-admin is always refused; an admin target is blocked; then one's own account is blocked; the confirmation opens exactly for an admin deleting a non-admin other than themself |
| Permissions.DeleteUserButtonMatchesGuard | main.py:1053-1054 | for an admin, the delete-user button shows exactly when the confirmation would open |
| Permissions.DeleteUserButtonVisible | main.py:1053-1054 | hidden on an admin's row and on the viewer's own row, shown on every other row |
| CardOwnerTrigger.ParseInt4 | migration_add_trigger.py:30-34 | the `::integer` cast yields only 32-bit values and fails on blank text |
| CardOwnerTrigger.SessionUserId | migration_add_trigger.py:30-34 | an unset or empty setting gives no user id |
| CardOwnerTrigger.SessionUserIdOfLogin | migration_add_trigger.py:30-34 | the setting login writes (`str(id)`) reads back as the id |
| CardOwnerTrigger.AdminLookup | migration_add_trigger.py:36-42 | no id: false; an unknown id: NULL (SELECT INTO finds no row); otherwise the row's `is_admin` |
| CardOwnerTrigger.CheckCardOwner | migration_add_trigger.py:22-58 | shared deck: allowed unless the admin flag is definitely false; owned deck: denied without an id, else allowed iff the id is the owner or the flag is not definitely false; the two messages |
| CardOwnerTrigger.TriggerAgreesWithApp | migration_add_trigger.py:44-56 | for a known user whose setting and admin flag match the session, the trigger allows exactly what `can_schedule_reviews` allows |
| CardOwnerTrigger.UnknownUserPassesTrigger | migration_add_trigger.py:36-56 | as written, a setting naming an unknown user, or a user whose `is_admin` is NULL, may write to any deck |
| CardOwnerTrigger.CheckCardOwnerStrict | migration_add_trigger.py:22-58 | corrected trigger: allows iff there is an id and (owned deck and id = owner, or the user's flag is true) |
| CardOwnerTrigger.StrictTriggerAgreesWithApp | migration_add_trigger.py:44-56 | the corrected trigger allows exactly what `can_schedule_reviews` allows for the user the setting names |
| CardOwnerTrigger.StrictDiffersOnlyOnUnknownAdmin | migration_add_trigger.py:36-56 | the corrected trigger never allows more, and decides the same whenever the admin flag is known |
| DueSelection.DueCards | main.py:607 | the due rows are the deck's rows whose `COALESCE(next_due, today)` is at most today |
| DueSelection.DeckCardsAppend | main.py:626-627 | the deck's rows are picked row by row: table order and multiplicity are kept |
| DueSelection.DueCardsAppend | main.py:628-632 | the due rows that `COUNT(*)` counts are picked row by row, with order and multiplicity kept |
| DueSelection.DueCardsSingle | main.py:628-632 | a single row is counted exactly when it is in the deck and due |
| DueSelection.DueCardsWithinDeck | main.py:626-632 | the due count never exceeds the deck's card count |
| DueSelection.SelectScheduled | main.py:603-612 | none iff no deck row is due; otherwise an earliest-due row of the deck |
| DueSelection.CandidatesAreEarliestDue | main.py:607-608 | the rows the ordering ties on are exactly the due rows with the earliest due day |
| DueSelection.SelectScheduledReachesEveryEarliest | main.py:608 | every earliest-due row is drawn for some `RANDOM()` outcome |
| DueSelection.SelectRandom | main.py:614-623 | none iff the deck has no rows; otherwise a row of the deck |
| DueSelection.SelectRandomReachesEveryCard | main.py:619 | every row of the deck is drawn for some `RANDOM()` outcome |
| DueSelection.NextRow | main.py:601-624 | the drawn row is in the current deck; none exactly when the deck is empty or, in scheduled mode, nothing is due |
| DueSelection.MinNextDue | main.py:637-641 | `MIN(next_due)`: NULL iff every due date is NULL, else the least non-NULL date |
| DueSelection.StatusOf | main.py:626-651 | random mode when reviews cannot be scheduled; otherwise "no cards" iff the deck is empty, "due today" with the positive due count, or "caught up" with the deck's earliest due date |
| DueSelection.StatusTextTellsApart | main.py:635-650 | the four status lines are told apart by their text, and the number after "Due today: " reads back as the due count |
| DueSelection.StatusAgreesWithSelection | main.py:626-647 | the status says "Due today" exactly when the scheduled query draws a card |
| DueSelection.CaughtUpAlwaysHasNextDate | main.py:636-645 | when caught up, a next due date exists and lies after today |
| DueSelection.DateTextOfEpoch | main.py:643 | `str(date)` prints day 0 as 1970-01-01 |
| DueSelection.DateTextOfNewYear2024 | main.py:643 | `str(date)` prints day 19723 as 2024-01-01 |
| DueSelection.CivilRanges | main.py:643 | every day number falls in a month 1..12 and on a day 1..31 |
| DueSelection.PaddedReadsBack | main.py:643 | a number below 10^width is written as exactly width digits that read back as the number |
| DueSelection.DateTextReadsBack | main.py:643 | for years 1..9999, `str(date)` is YYYY-MM-DD: ten characters, dashes at 4 and 7, digits elsewhere, and the three fields read back as year, month and day |
| DueSelection.YearLength | main.py:643 | the day count used as the reference for `str(date)` gives 366 days to exactly the Gregorian leap years (divisible by 4, not by 100 unless by 400) and 365 to the others |
| DueSelection.CivilFromDaysRoundTrip | main.py:643 | for every day number, counting whole Gregorian years and months up to the date printed, plus its day of the month, gives the day number back: the month is valid, and no two days print the same date |
| CsvImport.NonEmptyRows | main.py:869 | exactly the non-empty reader rows are kept, never more rows than were read |
| CsvImport.NonEmptyRowsAppend | main.py:869 | rows are filtered one by one: the kept rows stay in reader order, duplicates included, so `rows[0]` is the first non-empty reader row |
| CsvImport.NonEmptyRowsSingle | main.py:869 | one row is kept exactly when it is not empty |
| CsvImport.NormalizedHeader | main.py:874 | each header cell is stripped and lower-cased |
| CsvImport.FirstIndex | main.py:880-881 | the first header index naming the column, or the default 0/1 |
| CsvImport.RowPairSpec | main.py:888-894 | a row gives a pair iff both columns exist and neither stripped cell is empty; the pair is the stripped cells |
| CsvImport.ReadCardsFromCsv | main.py:871-896 | the loop returns the pairs and header flag of `CsvCards` |
| CsvImport.CollectPairs | main.py:887-894 | the loop collects the pairs of the data rows in order |
| CsvImport.CsvCardsOfNothing | main.py:871-872 | no non-empty rows gives no pairs and a `None` header flag, and only then is the flag `None` |
| CsvImport.CsvCardsHeader | main.py:874-886 | a header is recognised iff some cell names the German column and some the English one; it is then skipped, otherwise the first row is data read from columns 0 and 1 |
| CsvImport.PairsOfAppend | main.py:887-894 | row order is kept: the pairs of concatenated rows are the concatenated pairs |
| CsvImport.PairsOfClean | main.py:888-894 | every pair comes from a data row, and both sides are non-empty and already stripped |
| CsvImport.CsvCardsClean | main.py:871-896 | every card read from the rows has both sides stripped and non-empty, and comes with a header verdict |
| CsvImport.CheckImport | main.py:899-916 | the import proceeds iff an admin is logged in, the stripped deck name is non-empty and there are rows; otherwise the first failing check, in source order |
| CsvImport.ImportRefusalTextsDistinct | main.py:899-914 | each refusal of the import shows its own message, and an import that proceeds shows none |
| CsvImport.NewPairs | main.py:932-947 | the pairs inserted, in order, are never more than the pairs read |
| CsvImport.NewPairsSpec | main.py:932-947 | every inserted pair is new to the deck and inserted once, and afterwards the deck holds every pair of the file |
| CsvImport.ReimportInsertsNothing | main.py:932-947 | importing the same file again inserts nothing |
| CsvImport.NothingNewFromKnown | main.py:932-947 | pairs the deck already holds are all skipped |
| CsvImport.DedupeInsert | main.py:930-947 | the loop inserts exactly `NewPairs`; inserted + skipped = rows read; the set of pairs present grows by the file's pairs |
| CsvImport.ImportStatusTextReadsBack | main.py:958-960 | the number after "Imported " reads back as the inserted count, and the line ends in "No header detected." exactly when no header was recognised |
| DbConfig.MissingAmong | db_config.py:7-8 | a name is reported iff it is listed and unset or empty |
| DbConfig.MissingVars | db_config.py:4-8 | nothing is reported exactly when all five required variables are set, and never more than five names |
| DbConfig.MissingVarsIff | db_config.py:4-8 | a variable is reported iff it is one of the five required ones and unset or empty |
| DbConfig.MissingAmongAppend | db_config.py:7-8 | names are reported in the order of the required list |
| DbConfig.EmptyEnvironmentMissesAll | db_config.py:4-8 | an empty environment reports all five, in order |
| DbConfig.NoneSetAllMissing | db_config.py:7-8 | when no listed name is set, all are reported in order |
| DbConfig.BuildDbConfig | db_config.py:11-24 | an error iff something is missing, with the message naming the missing variables; otherwise the five values, `sslmode` "require" and a 10-second timeout |
| DbConfig.ErrorNamesEveryMissing | db_config.py:13-14 | the error message names every missing variable |
| DbConfig.ConfigFieldsNonEmpty | db_config.py:16-24 | a built configuration has no empty connection field |
| Practice.DrawnCard | main.py:653-662 | the drawn card keeps id, sides and due date; a NULL or zero interval becomes 1, ease 2.5 and repetitions 0 |
| Practice.EmptyDrawMatchesStatus | main.py:664-681 | with no card drawn, the card text says "No cards in this deck." exactly for an empty deck (always so in random mode), and "No cards due today." exactly when the status says all cards are caught up |
| Practice.SetScheduleEffect | main.py:744-753 | `SetSchedule`, the UPDATE by card id: it keeps the number and order of rows, changes only the rows with that id, and only their four schedule columns |
| Practice.FirstDenial | main.py:744-753 | the trigger refuses none of the matched rows iff no denial is found; a denial carries one of the trigger's two messages |
| Practice.UpdateCardSchedule | main.py:744-753 | the UPDATE succeeds iff the trigger allows every matched row, and then sets the new schedule; otherwise it fails with the trigger's message |
| Practice.NextCardId | main.py:76 | a fresh id lies above every id in use |
| Practice.NewRows | main.py:934-944 | the inserted rows: one per pair, consecutive fresh ids, the column defaults |
| Practice.InsertKeepsConsistent | main.py:848-849 | inserting rows with fresh ids keeps the session invariant |
| Practice.SharedDeckKeepsConsistent | main.py:923-931 | recording a shared deck changes no deck's owner and keeps the session invariant |
| Practice.RescheduleKeepsConsistent | main.py:744-753 | an UPDATE of a schedule keeps ids and decks, and so the session invariant |
| Practice.AllowedRatingIsSaved | main.py:776-802 | when the app lets the user rate, the (corrected) trigger accepts the write |
| Practice.AddedCardPassesTrigger | main.py:824-845 | an insert the app's checks let through passes the trigger |
| Practice.DrawKeepsConsistent | main.py:653-674 | drawing a row of the current deck keeps the session invariant |
| Practice.AppendFresh | main.py:848-849 | appending rows with fresh distinct ids keeps ids unique and keeps the ids in use |
| Practice.ImportInsertsPassTrigger | main.py:922-947 | the import's inserts into the shared deck pass the trigger for the logged-in admin |
| Practice.ImportKeepsConsistent | main.py:922-952 | a successful import keeps the session invariant |
| Practice.ClearedSettingRefusesAllowedWrites | main.py:951-952 | with the setting cleared as the import leaves it, both triggers refuse every card write, even for a user the app lets rate |
| Practice.SettingAfterImportNamesUser | main.py:922 | the corrected setting after an import reads back as the importing admin |
| Practice.Session.constructor | main.py:157-162 | a new session: nobody logged in, no deck, no card |
| Practice.Session.Login | main.py:497-512 | the user becomes current and the setting holds their id; the rest is unchanged |
| Practice.Session.Logout | main.py:554-568 | no current user and an empty setting; the rest is unchanged |
| Practice.Session.GetNextCard | main.py:591-688 | the card is the query's row with defaults, front side up, or none with the empty-deck or nothing-due text; the status is `StatusOf`'s text; the database is unchanged |
| Practice.Session.StartPractice | main.py:571-584 | the deck and its owner are remembered, then a card is drawn |
| Practice.Session.FlipCard | main.py:690-711 | with a card: the shown side toggles and the text follows it; without one: nothing changes |
| Practice.Session.UpdateSchedule | main.py:713-758 | no card: "No card selected."; else the UPDATE with today's schedule: "Saved" on success, or "Could not update review: " and the trigger's message, leaving the database as it was |
| Practice.Session.RateCard | main.py:760-809 | a refused gate shows its message and changes nothing; a failed write shows "Could not save rating."; a saved one stores the schedule and draws the next card |
| Practice.Session.AddCard | main.py:811-858 | the outcome is `AddCardCheck`; only an insert appends one row with the defaults, otherwise the database is unchanged |
| Practice.Session.ImportSharedDeck | main.py:898-960 | a refused check shows its message and changes nothing; otherwise the deck is recorded as shared, the new pairs are appended, the setting still names the admin, and the status gives the counts and the header note |
| Practice.Session.StoreImport | main.py:920-960 | the part after the checks: the inserts, the setting and the status line |

## Left out

- The user interface is left out: Flet widgets, colours, snack bars, dialogs, page updates and the admin panel's layout. Where a handler shows a message, the model returns or stores the message text.
- The database connection, the DDL and the migration scripts' own connection and error handling are left out. The database is a value: the rows of `decks`, `users` and `cards`, and the `app.current_user_id` setting.
- Login's bcrypt password check is left out. `Practice.Session.Login` is the state change after a successful match, given the user row that was found.
- The file read and the CSV dialect sniffing (`csv.Sniffer`, the `utf-8-sig` decoding) are left out. `CsvImport.ReadCardsFromCsv` starts from the rows the reader produced.
- There are no concrete CSV examples; the CSV properties are stated for all inputs.
- Scheduling.CalculateSchedule: day numbers are unbounded. Python's `date` ends at 9999-12-31, so `today + timedelta(days=interval)` raises OverflowError once the interval passes that date (scheduling.py:29, and main.py:741, which sits before the `try` and so lets the error escape `rate_card`). The model computes a later day instead.
- Scheduling.CalculateSchedule: the ease is exact hundredths, not a float or a REAL column. Binary floating point can land just below or above a rounding tie, or drift after repeated ±0.15 steps; the model does not capture those effects.
- `RANDOM()` is a chosen index. Its distribution is not modelled; the `Reaches…` lemmas show that every tied row can be drawn.
- The clock is the `today` parameter, for both `CURRENT_DATE` and `date.today()`. The model assumes they agree.
- `strip` covers Python's whitespace characters; `lower` covers ASCII letters only. Python's `int()` also accepts non-ASCII digits, which the model rejects.
- CardOwnerTrigger.ParseInt4 accepts decimal digits with an optional sign and surrounding blanks. PostgreSQL's other integer syntaxes are not modelled. The error text does not include PostgreSQL's CONTEXT lines.
- Practice.Session.ImportSharedDeck: the lookup or creation of the shared deck by name is the parameter `sharedDeckId`. The caller supplies an id that is shared or unused; deck names are not modelled.
- SERIAL ids are `NextCardId`, an id above every id in use. The actual sequence values are not modelled.
- Practice.Session.ImportSharedDeck: the "Import failed" branch is not modelled. In this model no statement of the import can fail: its inserts pass the trigger (`Practice.ImportInsertsPassTrigger`), and connection errors are out of scope.
- Practice.Session.UpdateSchedule: database errors other than the trigger's refusal are not modelled.
- Practice.Session.UpdateSchedule: the session invariant requires a user's admin flag to be true exactly when the session treats them as admin, so a non-admin whose `is_admin` is NULL may be current. For such a user the corrected trigger refuses an UPDATE of another user's deck that the as-written trigger would allow (the first finding). `RateCard` refuses that case before writing.
- The start-up backfill (main.py:121-132) is not modelled: it sets the setting to the admin's id for one UPDATE of NULL schedule columns and then clears it to '' in its `finally`. A session starts with the database it is given, setting included.
- The `do_delete` action of `show_delete_user_confirm` (the DELETE, the alert and the panel refresh) is left out. `Permissions.DeleteUserCheck` models the guards before it.
- `update_schedule` repeats the scheduler's arithmetic inline. The model calls `Scheduling.CalculateSchedule` with no reference day, which computes the same thing.
- Deck creation, renaming and deletion, registration, the admin-data listing and the debug panel are outside the modelled core. Only the permission checks and button visibility of rename and delete are modelled.
- Transactions, undo and any review ledger are not modelled; the code has none.

## Findings

| source | as written | input that shows it | evidently intended | confidence | as-written member | corrected member |
|---|---|---|---|---|---|---|
| migration_add_trigger.py:36-56 | `SELECT is_admin INTO` finds no row for an unknown id and leaves the flag NULL; `IF NOT NULL` and `id <> owner AND NOT NULL` do not raise, so the write is allowed | setting "8", user 8 not in `users`, deck 1 owned by user 7 (or a shared deck), or user 8 with `is_admin` NULL: an insert into deck 1 is allowed | an unknown user or an unknown admin flag counts as not admin, so only the owner or a known admin may write | not executed | CardOwnerTrigger.UnknownUserPassesTrigger | CardOwnerTrigger.CheckCardOwnerStrict |
| main.py:951-952 | after a successful import, `set_config('app.current_user_id', '', false)` clears the setting while the admin stays logged in | an admin imports, then rates a card of a deck they may rate: the UPDATE is refused by the trigger and the status reads "Could not save rating."; adding a card runs an INSERT that the trigger refuses, and since main.py:848 is outside any `try`, the exception escapes the click handler with no message; both last until the next login | the setting keeps naming the logged-in admin, as login left it | not executed | Practice.ClearedSettingRefusesAllowedWrites | Practice.SettingAfterImportNamesUser |

In the model, `Practice.Session.ImportSharedDeck` leaves the setting as `Practice.SettingAfterImport` gives it: the admin's id. The session writes through `CardOwnerTrigger.CheckCardOwnerStrict`. `Practice.SettingAfterImportAsWritten` is the cleared setting, as written.
