/** The application's permission rules: who may schedule reviews in a deck,
    who may rename or delete a deck, who may add a card to a deck and who may
    delete a user. Each is a decision on the logged-in user (absent when
    logged out) and the deck's owner (absent for a shared deck). */
module Permissions {
  import opened Common

  /** The logged-in user as the session keeps it. A NULL `is_admin` column is
      falsy in every check, so it is kept as `false`. */
  datatype User = User(id: int, isAdmin: bool)

  /** The rule behind `can_schedule_reviews` in `get_next_card`. */
  function CanScheduleReviews(user: Option<User>, owner: Option<int>): (b: bool)
    // a shared deck: only a logged-in admin
    ensures owner.None? ==> (b <==> user.Some? && user.value.isAdmin)
    // an owned deck: never when logged out; otherwise an admin or the owner
    ensures owner.Some? && user.None? ==> !b
    ensures owner.Some? && user.Some? ==> (b <==> user.value.isAdmin || user.value.id == owner.value)
  {
    if owner.None? then user.Some? && user.value.isAdmin
    else if user.None? then false
    else user.value.isAdmin || user.value.id == owner.value
  }

  /** The outcome of the checks at the top of `rate_card`, in their order. */
  datatype RateCheck = NoCard | NotFlipped | SharedDeckDisabled | LoginRequired | NotOwnDeck | RateAllowed

  function RateGate(hasCard: bool, showingAnswer: bool, user: Option<User>, owner: Option<int>): (r: RateCheck)
    ensures !hasCard ==> r == NoCard
    ensures hasCard && !showingAnswer ==> r == NotFlipped
    ensures r == RateAllowed <==> hasCard && showingAnswer && CanScheduleReviews(user, owner)
    ensures hasCard && showingAnswer && owner.None? && !CanScheduleReviews(user, owner) ==> r == SharedDeckDisabled
    ensures hasCard && showingAnswer && owner.Some? && user.None? ==> r == LoginRequired
    ensures hasCard && showingAnswer && owner.Some? && user.Some? && !CanScheduleReviews(user, owner) ==> r == NotOwnDeck
  {
    if !hasCard then NoCard
    else if !showingAnswer then NotFlipped
    else if owner.None? then
      if !(user.Some? && user.value.isAdmin) then SharedDeckDisabled else RateAllowed
    else if user.None? then LoginRequired
    else if !(user.value.isAdmin || user.value.id == owner.value) then NotOwnDeck
    else RateAllowed
  }

  /** The status line `rate_card` shows for a refusal. */
  function RateRefusalText(r: RateCheck): string {
    match r
    case NoCard => "No card to rate."
    case NotFlipped => "Flip the card to rate."
    case SharedDeckDisabled => "Rating disabled for shared decks."
    case LoginRequired => "Login required to rate cards."
    case NotOwnDeck => "You can only rate your own decks."
    case RateAllowed => ""
  }

  /** The refusal messages tell the refusals apart, and only an allowed
      rating has no message. */
  lemma RateRefusalTextsDistinct(a: RateCheck, b: RateCheck)
    ensures RateRefusalText(a) == "" <==> a == RateAllowed
    ensures RateRefusalText(a) == RateRefusalText(b) <==> a == b
  {
  }

  /** The two deck-management buttons. */
  datatype DeckAction = Rename | Delete

  function ActionVerb(action: DeckAction): string {
    match action
    case Rename => "rename"
    case Delete => "delete"
  }

  /** The click handler of the rename or delete button: `None` when it goes on
      to the dialog, otherwise the alert it shows instead. */
  function ManageDeckClick(action: DeckAction, user: Option<User>, owner: Option<int>): (refusal: Option<string>)
    ensures user.None? ==> refusal == Some("Please login to " + ActionVerb(action) + " decks.")
    ensures user.Some? && owner.None? && !user.value.isAdmin ==>
              refusal == Some("Only admins can " + ActionVerb(action) + " shared decks.")
    ensures user.Some? && owner.Some? && owner.value != user.value.id && !user.value.isAdmin ==>
              refusal == Some("You don't have permission to " + ActionVerb(action) + " this deck.")
  {
    if user.None? then Some("Please login to " + ActionVerb(action) + " decks.")
    else if owner.None? && !user.value.isAdmin then
      Some("Only admins can " + ActionVerb(action) + " shared decks.")
    else if owner.Some? && owner.value != user.value.id && !user.value.isAdmin then
      Some("You don't have permission to " + ActionVerb(action) + " this deck.")
    else None
  }

  /** The `visible` flag computed for both buttons when the deck list is drawn. */
  function ManageButtonVisible(user: Option<User>, owner: Option<int>): (b: bool)
    ensures b ==> user.Some?
    ensures user.Some? && user.value.isAdmin ==> b
    ensures owner.None? && user.Some? && !user.value.isAdmin ==> !b
    ensures owner.Some? && user.Some? ==> (b <==> owner.value == user.value.id || user.value.isAdmin)
  {
    if owner.None? then user.Some? && user.value.isAdmin
    else user.Some? && (owner.value == user.value.id || user.value.isAdmin)
  }

  /** A button is shown exactly when clicking it would proceed, and that is
      exactly the rule for scheduling reviews in the deck. */
  lemma ManageButtonVisibleIffAllowed(action: DeckAction, user: Option<User>, owner: Option<int>)
    ensures ManageButtonVisible(user, owner) <==> ManageDeckClick(action, user, owner).None?
    ensures ManageButtonVisible(user, owner) <==> CanScheduleReviews(user, owner)
  {
  }

  /** The outcome of `add_card_to_deck`. */
  datatype AddCardOutcome =
    | AddLoginRequired
    | NothingToAdd
    | InvalidDeck
    | DeckNotFound
    | SharedDeckRefused
    | NotOwnDeckRefused
    | InsertCard(deckId: int)

  /** A text field value is truthy when it is set and not empty. */
  predicate Truthy(v: Option<string>) {
    v.Some? && v.value != []
  }

  /** A run of ASCII digits where single underscores may separate digits. */
  predicate IsDigitRun(s: string) {
    s != [] && IsDigit(s[0]) && IsDigit(s[|s| - 1])
    && (forall i :: 0 <= i < |s| ==> IsDigit(s[i]) || s[i] == '_')
    && (forall i :: 0 <= i < |s| - 1 ==> !(s[i] == '_' && s[i + 1] == '_'))
  }

  function DropUnderscores(s: string): (r: string)
    requires forall i :: 0 <= i < |s| ==> IsDigit(s[i]) || s[i] == '_'
    ensures forall i :: 0 <= i < |r| ==> IsDigit(r[i])
    ensures (forall i :: 0 <= i < |s| ==> IsDigit(s[i])) ==> r == s
  {
    if s == [] then []
    else if s[0] == '_' then DropUnderscores(s[1..])
    else [s[0]] + DropUnderscores(s[1..])
  }

  /** A digit run read as a number; `None` for anything else. */
  function ParseUnsigned(body: string): Option<nat> {
    if IsDigitRun(body) then Some(DigitsValue(DropUnderscores(body))) else None
  }

  /** An optional sign and a digit run, as `int()` reads it once the
      surrounding whitespace is gone. */
  function ParseSignedDigits(t: string): Option<int> {
    if t == [] then None
    else if t[0] == '-' then
      var v := ParseUnsigned(t[1..]);
      if v.Some? then Some(0 - v.value) else None
    else if t[0] == '+' then
      var v := ParseUnsigned(t[1..]);
      if v.Some? then Some(v.value as int) else None
    else
      var v := ParseUnsigned(t);
      if v.Some? then Some(v.value as int) else None
  }

  /** Python's `int(s)` on a decimal string: surrounding whitespace, an optional
      sign, and digits with single underscores between them; `None` where
      Python raises. */
  function ParsePythonInt(s: string): (r: Option<int>)
    ensures Strip(s) == [] ==> r == None
  {
    ParseSignedDigits(Strip(s))
  }

  /** A plain digit string reads as its value. */
  lemma ParseUnsignedOfDigits(body: string)
    requires body != [] && forall i :: 0 <= i < |body| ==> IsDigit(body[i])
    ensures ParseUnsigned(body) == Some(DigitsValue(body))
  {
    assert IsDigit(body[0]) && IsDigit(body[|body| - 1]);
    assert IsDigitRun(body);
  }

  /** A plain digit string reads as its value. */
  lemma ParseSignedOfDigits(body: string)
    requires body != [] && forall i :: 0 <= i < |body| ==> IsDigit(body[i])
    ensures ParseSignedDigits(body) == Some(DigitsValue(body))
  {
    ParseUnsignedOfDigits(body);
    assert IsDigit(body[0]);
  }

  /** A digit string after a minus sign reads as the negation of its value. */
  lemma ParseSignedOfNegatedDigits(body: string)
    requires body != [] && forall i :: 0 <= i < |body| ==> IsDigit(body[i])
    ensures ParseSignedDigits("-" + body) == Some(0 - DigitsValue(body))
  {
    var t := "-" + body;
    assert t[0] == '-' && t[1..] == body;
    ParseUnsignedOfDigits(body);
    assert ParseUnsigned(t[1..]) == Some(DigitsValue(body));
    ParseMinus(t);
  }

  /** After a minus sign, `int()` negates what the rest reads as. */
  lemma ParseMinus(t: string)
    requires t != [] && t[0] == '-'
    ensures ParseSignedDigits(t) == if ParseUnsigned(t[1..]).Some? then Some(0 - ParseUnsigned(t[1..]).value) else None
  {
  }

  /** A deck id written with `str()` into the dropdown is read back by `int()`. */
  lemma {:induction false} ParsePythonIntOfIntToString(n: int)
    ensures ParsePythonInt(IntToString(n)) == Some(n)
  {
    var s := IntToString(n);
    var m: nat := if n < 0 then -n else n;
    var digits := NatToString(m);
    DigitsValueOfNatToString(m);
    assert IsDigit(digits[0]) && IsDigit(digits[|digits| - 1]);
    if n < 0 {
      assert s == "-" + digits && s[|s| - 1] == digits[|digits| - 1];
      StripUnchanged(s);
      ParseSignedOfNegatedDigits(digits);
    } else {
      StripUnchanged(s);
      ParseSignedOfDigits(digits);
    }
  }

  /** The guards of `add_card_to_deck`, in their order. `selected` is the
      dropdown value and `decks` maps deck ids to owners. */
  function AddCardCheck(user: Option<User>, front: Option<string>, back: Option<string>,
                        selected: Option<string>, decks: map<int, Option<int>>): (r: AddCardOutcome)
    ensures r.InsertCard? <==>
              user.Some? && Truthy(front) && Truthy(back) && Truthy(selected)
              && ParsePythonInt(selected.value).Some?
              && ParsePythonInt(selected.value).value in decks
              && decks[ParsePythonInt(selected.value).value] == Some(user.value.id)
    ensures r.InsertCard? ==> r.deckId in decks && decks[r.deckId] == Some(user.value.id)
    ensures user.None? ==> r == AddLoginRequired
    ensures user.Some? && !(Truthy(front) && Truthy(back) && Truthy(selected)) ==> r == NothingToAdd
    ensures user.Some? && Truthy(front) && Truthy(back) && Truthy(selected) ==>
              var parsed := ParsePythonInt(selected.value);
              (parsed.None? ==> r == InvalidDeck)
              && (parsed.Some? && parsed.value !in decks ==> r == DeckNotFound)
              && (parsed.Some? && parsed.value in decks && decks[parsed.value].None? ==> r == SharedDeckRefused)
              && (parsed.Some? && parsed.value in decks && decks[parsed.value].Some? && decks[parsed.value].value != user.value.id
                  ==> r == NotOwnDeckRefused)
  {
    if user.None? then AddLoginRequired
    else if !(Truthy(front) && Truthy(back) && Truthy(selected)) then NothingToAdd
    else
      var parsed := ParsePythonInt(selected.value);
      if parsed.None? then InvalidDeck
      else if parsed.value !in decks then DeckNotFound
      else if decks[parsed.value].None? then SharedDeckRefused
      else if decks[parsed.value].value != user.value.id then NotOwnDeckRefused
      else InsertCard(parsed.value)
  }

  /** Adding cards is stricter than scheduling: being admin does not help, and
      shared decks are refused to everyone. */
  lemma AddCardOnlyToOwnDeck(user: User, front: string, back: string, deckId: int, decks: map<int, Option<int>>)
    requires front != [] && back != [] && deckId in decks
    ensures AddCardCheck(Some(user), Some(front), Some(back), Some(IntToString(deckId)), decks)
            == (if decks[deckId].None? then SharedDeckRefused
                else if decks[deckId].value != user.id then NotOwnDeckRefused
                else InsertCard(deckId))
  {
    ParsePythonIntOfIntToString(deckId);
  }

  /** The outcome of `show_delete_user_confirm`. */
  datatype DeleteUserOutcome = AccessDenied | AdminBlocked | SelfBlocked | ConfirmDelete

  function DeleteUserCheck(user: Option<User>, targetId: int, targetIsAdmin: bool): (r: DeleteUserOutcome)
    ensures r == ConfirmDelete <==>
              user.Some? && user.value.isAdmin && !targetIsAdmin && targetId != user.value.id
    ensures !(user.Some? && user.value.isAdmin) ==> r == AccessDenied
    ensures user.Some? && user.value.isAdmin && targetIsAdmin ==> r == AdminBlocked
    ensures user.Some? && user.value.isAdmin && !targetIsAdmin && targetId == user.value.id ==> r == SelfBlocked
  {
    if !(user.Some? && user.value.isAdmin) then AccessDenied
    else if targetIsAdmin then AdminBlocked
    else if user.value.id == targetId then SelfBlocked
    else ConfirmDelete
  }

  /** Whether the admin panel shows a delete button on a user's row. */
  function DeleteUserButtonVisible(user: Option<User>, targetId: int, targetIsAdmin: bool): (b: bool)
    ensures targetIsAdmin ==> !b
    ensures user.Some? && user.value.id == targetId ==> !b
    ensures !targetIsAdmin && (user.None? || user.value.id != targetId) ==> b
  {
    !(targetIsAdmin || (user.Some? && user.value.id == targetId))
  }

  /** For the admin viewing the panel, the button is shown exactly when the
      confirmation would open. */
  lemma DeleteUserButtonMatchesGuard(admin: User, targetId: int, targetIsAdmin: bool)
    requires admin.isAdmin
    ensures DeleteUserButtonVisible(Some(admin), targetId, targetIsAdmin)
            <==> DeleteUserCheck(Some(admin), targetId, targetIsAdmin) == ConfirmDelete
  {
  }
}
