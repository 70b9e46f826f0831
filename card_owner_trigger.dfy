/** The `check_card_owner` trigger that runs before every INSERT or UPDATE of a
    row of `cards`: it reads the deck's owner and the connection's
    `app.current_user_id`, and either lets the row through or raises.

    PL/pgSQL conditions are three-valued; `None` is SQL NULL, and an `IF`
    raises only when its condition is TRUE. */
module CardOwnerTrigger {
  import opened Common
  import opened Store
  import opened Permissions

  type SqlBool = Option<bool>

  function Not3(a: SqlBool): SqlBool {
    if a.None? then None else Some(!a.value)
  }

  function And3(a: SqlBool, b: SqlBool): SqlBool {
    if a == Some(false) || b == Some(false) then Some(false)
    else if a.None? || b.None? then None
    else Some(true)
  }

  function Or3(a: SqlBool, b: SqlBool): SqlBool {
    if a == Some(true) || b == Some(true) then Some(true)
    else if a.None? || b.None? then None
    else Some(false)
  }

  /** The trigger's verdict on one row. */
  datatype Decision = Allow | Deny(message: string)

  const SharedDeckDenied := "Permission denied: cannot modify shared deck."
  const NotOwnerDenied := "Permission denied: not deck owner."

  const Int4Min: int := -0x8000_0000
  const Int4Max: int := 0x7FFF_FFFF

  predicate InInt4(n: int) {
    Int4Min <= n <= Int4Max
  }

  /** The blanks the server's integer input skips around a number. */
  predicate IsCSpace(c: char) {
    c == ' ' || ('\t' <= c <= '\r')
  }

  function TrimLeftC(s: string): (r: string)
    ensures |r| <= |s| && r == s[|s| - |r|..]
  {
    if s != [] && IsCSpace(s[0]) then TrimLeftC(s[1..]) else s
  }

  function TrimRightC(s: string): (r: string)
    ensures |r| <= |s| && r == s[..|r|]
  {
    if s != [] && IsCSpace(s[|s| - 1]) then TrimRightC(s[..|s| - 1]) else s
  }

  predicate AllDigits(s: string) {
    forall i :: 0 <= i < |s| ==> IsDigit(s[i])
  }

  /** The number once the blanks are gone: an optional sign and decimal digits. */
  function ParseSignedInt4(t: string): (r: Option<int>)
    ensures r.Some? ==> InInt4(r.value)
  {
    if t == [] then None
    else
      var body := if t[0] == '-' || t[0] == '+' then t[1..] else t;
      if body == [] || !AllDigits(body) then None
      else
        var v: int := if t[0] == '-' then 0 - DigitsValue(body) else DigitsValue(body);
        if InInt4(v) then Some(v) else None
  }

  /** The cast `text::integer`: blanks around an optionally signed run of
      decimal digits whose value fits in 32 bits; `None` where the cast raises. */
  function ParseInt4(s: string): (r: Option<int>)
    ensures r.Some? ==> InInt4(r.value)
    ensures (forall i :: 0 <= i < |s| ==> IsCSpace(s[i])) ==> r.None?
  {
    ParseSignedInt4(TrimRightC(TrimLeftC(s)))
  }

  lemma TrimUnchanged(s: string)
    requires s != [] && !IsCSpace(s[0]) && !IsCSpace(s[|s| - 1])
    ensures TrimRightC(TrimLeftC(s)) == s
  {
  }

  lemma ParseSignedInt4OfDigits(body: string)
    requires body != [] && AllDigits(body) && DigitsValue(body) <= Int4Max
    ensures ParseSignedInt4(body) == Some(DigitsValue(body))
  {
  }

  lemma ParseSignedInt4OfNegatedDigits(body: string)
    requires body != [] && AllDigits(body) && DigitsValue(body) <= -Int4Min
    ensures ParseSignedInt4("-" + body) == Some(0 - DigitsValue(body))
  {
    var t := "-" + body;
    assert t[0] == '-' && t[1..] == body;
  }

  /** The local `current_user_id`: NULL when the setting was never set (reading
      it raises) or does not cast. */
  function SessionUserId(setting: Option<string>): (uid: Option<int>)
    ensures setting.None? ==> uid.None?
    ensures setting == Some("") ==> uid.None?
    ensures uid.Some? ==> InInt4(uid.value)
  {
    if setting.None? then None else ParseInt4(setting.value)
  }

  /** What the application writes at login is read back as the same id. */
  lemma {:induction false} SessionUserIdOfLogin(id: int)
    requires InInt4(id)
    ensures SessionUserId(Some(IntToString(id))) == Some(id)
  {
    var m: nat := if id < 0 then -id else id;
    var digits := NatToString(m);
    DigitsValueOfNatToString(m);
    var s := IntToString(id);
    assert IsDigit(digits[|digits| - 1]) && IsDigit(digits[0]);
    if id < 0 {
      assert s == "-" + digits && s[0] == '-' && s[|s| - 1] == digits[|digits| - 1];
      TrimUnchanged(s);
      ParseSignedInt4OfNegatedDigits(digits);
    } else {
      TrimUnchanged(s);
      ParseSignedInt4OfDigits(digits);
    }
  }

  /** The local `current_is_admin`: FALSE without a user id, otherwise what
      `SELECT is_admin INTO ...` leaves, which is NULL when no row matches. */
  function AdminLookup(db: Database, uid: Option<int>): (a: SqlBool)
    ensures uid.None? ==> a == Some(false)
    ensures uid.Some? && uid.value !in db.users ==> a.None?
    ensures uid.Some? && uid.value in db.users ==> a == db.users[uid.value]
  {
    if uid.None? then Some(false)
    else if uid.value in db.users then db.users[uid.value]
    else None
  }

  /** `check_card_owner` as written, on a row whose `deck_id` is `deckId`. */
  function CheckCardOwner(db: Database, deckId: int): (d: Decision)
    // a shared deck, or a deck id with no row: denied only to a session user known not to be admin
    ensures DeckOwner(db, deckId).None? ==>
              (d == Allow <==> AdminLookup(db, SessionUserId(db.setting)) != Some(false))
    // an owned deck: never without a session user; else the owner, or anyone not known to be non-admin
    ensures DeckOwner(db, deckId).Some? && SessionUserId(db.setting).None? ==> d.Deny?
    ensures DeckOwner(db, deckId).Some? && SessionUserId(db.setting).Some? ==>
              (d == Allow <==> SessionUserId(db.setting) == DeckOwner(db, deckId)
                               || AdminLookup(db, SessionUserId(db.setting)) != Some(false))
    ensures d.Deny? ==> d.message == (if DeckOwner(db, deckId).None? then SharedDeckDenied else NotOwnerDenied)
  {
    var owner := DeckOwner(db, deckId);
    var uid := SessionUserId(db.setting);
    var isAdmin := AdminLookup(db, uid);
    if owner.None? then
      if Not3(isAdmin) == Some(true) then Deny(SharedDeckDenied) else Allow
    else
      var differs: SqlBool := if uid.None? then None else Some(uid.value != owner.value);
      if Or3(Some(uid.None?), And3(differs, Not3(isAdmin))) == Some(true) then Deny(NotOwnerDenied)
      else Allow
  }

  /** When the session holds the logged-in user's id (or is cleared after a
      logout) and that user's row says whether they are admin, the trigger
      decides exactly as the application's scheduling rule. */
  lemma TriggerAgreesWithApp(db: Database, deckId: int, user: Option<User>)
    requires user.Some? ==> InInt4(user.value.id) && db.setting == Some(IntToString(user.value.id))
                            && user.value.id in db.users && db.users[user.value.id] == Some(user.value.isAdmin)
    requires user.None? ==> db.setting == None || db.setting == Some("")
    ensures CheckCardOwner(db, deckId) == Allow <==> CanScheduleReviews(user, DeckOwner(db, deckId))
  {
    if user.Some? {
      SessionUserIdOfLogin(user.value.id);
    }
  }

  /** A session user id with no `users` row gets NULL from the admin lookup,
      and neither IF raises: the write goes through, to a foreign deck too. */
  lemma UnknownUserPassesTrigger()
    ensures CheckCardOwner(Database(map[1 := Some(7)], map[], [], Some("8")), 1) == Allow
    ensures CheckCardOwner(Database(map[1 := None], map[], [], Some("8")), 1) == Allow
    ensures CheckCardOwner(Database(map[1 := Some(7)], map[8 := None], [], Some("8")), 1) == Allow
  {
    SessionUserIdOfLogin(8);
    assert IntToString(8) == "8";
  }

  /** The check as its comments describe it: an unknown admin flag counts as
      not admin (`COALESCE(is_admin, FALSE)`). */
  function CheckCardOwnerStrict(db: Database, deckId: int): (d: Decision)
    ensures d == Allow <==>
              SessionUserId(db.setting).Some?
              && (DeckOwner(db, deckId).None? ==> AdminLookup(db, SessionUserId(db.setting)) == Some(true))
              && (DeckOwner(db, deckId).Some? ==>
                    SessionUserId(db.setting) == DeckOwner(db, deckId)
                    || AdminLookup(db, SessionUserId(db.setting)) == Some(true))
    ensures d.Deny? ==> d.message == (if DeckOwner(db, deckId).None? then SharedDeckDenied else NotOwnerDenied)
  {
    var owner := DeckOwner(db, deckId);
    var uid := SessionUserId(db.setting);
    var isAdmin := AdminLookup(db, uid) == Some(true);
    if owner.None? then
      if !isAdmin then Deny(SharedDeckDenied) else Allow
    else if uid.None? || (uid.value != owner.value && !isAdmin) then Deny(NotOwnerDenied)
    else Allow
  }

  /** The corrected check is the application's rule for every session user,
      with a missing or NULL admin flag read as not admin. */
  lemma StrictTriggerAgreesWithApp(db: Database, deckId: int, id: int)
    requires InInt4(id) && db.setting == Some(IntToString(id))
    ensures CheckCardOwnerStrict(db, deckId) == Allow
            <==> CanScheduleReviews(Some(User(id, AdminLookup(db, Some(id)) == Some(true))), DeckOwner(db, deckId))
  {
    SessionUserIdOfLogin(id);
  }

  /** The two checks differ only where the admin lookup is NULL. */
  lemma StrictDiffersOnlyOnUnknownAdmin(db: Database, deckId: int)
    ensures CheckCardOwnerStrict(db, deckId) == Allow ==> CheckCardOwner(db, deckId) == Allow
    ensures AdminLookup(db, SessionUserId(db.setting)).Some? ==>
              CheckCardOwnerStrict(db, deckId) == CheckCardOwner(db, deckId)
  {
  }
}
