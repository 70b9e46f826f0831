/** Importing a shared deck from a CSV file: turning the rows the CSV reader
    produced into (German, English) pairs, the checks made before importing,
    and the duplicate-skipping insert loop with its counters.

    A pair is (front, back). Text is compared exactly, as the database does. */
module CsvImport {
  import opened Common
  import opened Permissions

  type Row = seq<string>
  type Pair = (string, string)

  /** First-row cells that name the German column. */
  const GermanKeys: set<string> := {"german", "deutsch", "front", "question", "term"}
  /** First-row cells that name the English column. */
  const EnglishKeys: set<string> := {"english", "englisch", "back", "answer", "definition"}

  /** The reader's rows without the empty ones. */
  function NonEmptyRows(rows: seq<Row>): (r: seq<Row>)
    ensures forall x :: x in r <==> x in rows && x != []
    ensures |r| <= |rows|
  {
    if rows == [] then []
    else if rows[0] == [] then NonEmptyRows(rows[1..])
    else [rows[0]] + NonEmptyRows(rows[1..])
  }

  /** Dropping empty rows keeps the order of the rest: it works row by row. */
  lemma {:induction false} NonEmptyRowsAppend(a: seq<Row>, b: seq<Row>)
    ensures NonEmptyRows(a + b) == NonEmptyRows(a) + NonEmptyRows(b)
    decreases |a|
  {
    if a == [] {
      assert a + b == b;
    } else {
      assert (a + b)[0] == a[0];
      assert (a + b)[1..] == a[1..] + b;
      NonEmptyRowsAppend(a[1..], b);
    }
  }

  /** One row is kept exactly when it is not empty. */
  lemma NonEmptyRowsSingle(x: Row)
    ensures NonEmptyRows([x]) == if x == [] then [] else [x]
  {
    assert [x][1..] == [];
  }

  /** The first row, each cell stripped and lower-cased. */
  function NormalizedHeader(row: Row): (h: seq<string>)
    ensures |h| == |row|
    ensures forall i :: 0 <= i < |row| ==> h[i] == Lower(Strip(row[i]))
  {
    seq(|row|, i requires 0 <= i < |row| => Lower(Strip(row[i])))
  }

  predicate HasKey(h: seq<string>, keys: set<string>) {
    exists i :: 0 <= i < |h| && h[i] in keys
  }

  /** `next((i for i, h in enumerate(header) if h in keys), default)`, looking from `from` on. */
  function FirstIndexFrom(h: seq<string>, keys: set<string>, from: nat, default: nat): (i: nat)
    requires from <= |h|
    ensures (exists k :: from <= k < |h| && h[k] in keys) ==>
              from <= i < |h| && h[i] in keys && forall k :: from <= k < i ==> h[k] !in keys
    ensures (forall k :: from <= k < |h| ==> h[k] !in keys) ==> i == default
    decreases |h| - from
  {
    if from == |h| then default
    else if h[from] in keys then from
    else FirstIndexFrom(h, keys, from + 1, default)
  }

  function FirstIndex(h: seq<string>, keys: set<string>, default: nat): (i: nat)
    ensures HasKey(h, keys) ==> i < |h| && h[i] in keys && forall k :: 0 <= k < i ==> h[k] !in keys
    ensures !HasKey(h, keys) ==> i == default
  {
    FirstIndexFrom(h, keys, 0, default)
  }

  /** The pair one data row contributes: nothing when the row is too short for
      the chosen columns or when either stripped side is empty. */
  function RowPair(row: Row, g: nat, e: nat): seq<Pair> {
    if |row| <= g || |row| <= e then []
    else
      var front := Strip(row[g]);
      var back := Strip(row[e]);
      if front != [] && back != [] then [(front, back)] else []
  }

  /** A row gives its stripped cells exactly when both columns exist and
      neither cell is blank. */
  lemma RowPairSpec(row: Row, g: nat, e: nat)
    ensures var r := RowPair(row, g, e);
            |r| <= 1
            && (r != [] <==> g < |row| && e < |row| && Strip(row[g]) != [] && Strip(row[e]) != [])
            && (r != [] ==> r[0] == (Strip(row[g]), Strip(row[e])) && r[0].0 != [] && r[0].1 != [])
  {
  }

  /** The pairs of the data rows, in row order. */
  function PairsOf(rows: seq<Row>, g: nat, e: nat): seq<Pair>
    decreases |rows|
  {
    if rows == [] then [] else PairsOf(rows[..|rows| - 1], g, e) + RowPair(rows[|rows| - 1], g, e)
  }

  /** What `read_cards_from_csv` returns for the rows the reader produced: the
      pairs, and whether a header row was recognised (`None` for no rows). */
  function CsvCards(readerRows: seq<Row>): (seq<Pair>, Option<bool>) {
    var rows := NonEmptyRows(readerRows);
    if rows == [] then ([], None)
    else
      var header := NormalizedHeader(rows[0]);
      var detected := HasKey(header, GermanKeys) && HasKey(header, EnglishKeys);
      if detected then
        (PairsOf(rows[1..], FirstIndex(header, GermanKeys, 0), FirstIndex(header, EnglishKeys, 1)), Some(true))
      else (PairsOf(rows, 0, 1), Some(false))
  }

  /** `read_cards_from_csv` once the file has been read: header detection and
      column choice, then the loop over the data rows. */
  method ReadCardsFromCsv(readerRows: seq<Row>) returns (cards: seq<Pair>, hasHeader: Option<bool>)
    ensures (cards, hasHeader) == CsvCards(readerRows)
  {
    var rows := NonEmptyRows(readerRows);
    if rows == [] {
      return [], None;
    }
    var header := NormalizedHeader(rows[0]);
    var detected := HasKey(header, GermanKeys) && HasKey(header, EnglishKeys);
    if detected {
      cards := CollectPairs(rows[1..], FirstIndex(header, GermanKeys, 0), FirstIndex(header, EnglishKeys, 1));
    } else {
      cards := CollectPairs(rows, 0, 1);
    }
    hasHeader := Some(detected);
  }

  /** The loop that appends the pair of each usable data row. */
  method CollectPairs(data: seq<Row>, g: nat, e: nat) returns (cards: seq<Pair>)
    ensures cards == PairsOf(data, g, e)
  {
    cards := [];
    var i := 0;
    while i < |data|
      invariant 0 <= i <= |data|
      invariant cards == PairsOf(data[..i], g, e)
    {
      var row := data[i];
      assert data[..i + 1][..i] == data[..i];
      if |row| > g && |row| > e {
        var front := Strip(row[g]);
        var back := Strip(row[e]);
        if front != [] && back != [] {
          cards := cards + [(front, back)];
        }
      }
      i := i + 1;
    }
    assert data[..|data|] == data;
  }

  /** Row order is kept: the pairs of two runs of rows are the pairs of the
      first followed by those of the second. */
  lemma {:induction false} PairsOfAppend(a: seq<Row>, b: seq<Row>, g: nat, e: nat)
    ensures PairsOf(a + b, g, e) == PairsOf(a, g, e) + PairsOf(b, g, e)
    decreases |b|
  {
    if b == [] {
      assert a + b == a;
    } else {
      var b' := b[..|b| - 1];
      DropLastOfAppend(a, b);
      PairsOfAppend(a, b', g, e);
    }
  }

  lemma DropLastOfAppend<T>(a: seq<T>, b: seq<T>)
    requires b != []
    ensures (a + b)[..|a + b| - 1] == a + b[..|b| - 1]
    ensures (a + b)[|a + b| - 1] == b[|b| - 1]
  {
  }

  /** Every pair comes from some data row, both sides stripped and non-empty. */
  lemma {:induction false} PairsOfClean(rows: seq<Row>, g: nat, e: nat, p: Pair)
    requires p in PairsOf(rows, g, e)
    ensures p.0 != [] && p.1 != [] && Strip(p.0) == p.0 && Strip(p.1) == p.1
    ensures exists row :: row in rows && g < |row| && e < |row| && p == (Strip(row[g]), Strip(row[e]))
    decreases |rows|
  {
    var init := rows[..|rows| - 1];
    var last := rows[|rows| - 1];
    var tail := RowPair(last, g, e);
    assert rows == init + [last];
    assert PairsOf(rows, g, e) == PairsOf(init, g, e) + tail;
    if p in tail {
      RowPairClean(last, g, e, p);
      assert last in rows && g < |last| && e < |last| && p == (Strip(last[g]), Strip(last[e]));
    } else {
      assert p in PairsOf(init, g, e);
      PairsOfClean(init, g, e, p);
      var row :| row in init && g < |row| && e < |row| && p == (Strip(row[g]), Strip(row[e]));
      assert row in rows;
    }
  }

  /** The pair of one row has both sides non-empty and already stripped. */
  lemma RowPairClean(row: Row, g: nat, e: nat, p: Pair)
    requires p in RowPair(row, g, e)
    ensures g < |row| && e < |row| && p == (Strip(row[g]), Strip(row[e]))
    ensures p.0 != [] && p.1 != [] && Strip(p.0) == p.0 && Strip(p.1) == p.1
  {
    assert g < |row| && e < |row|;
    var front, back := Strip(row[g]), Strip(row[e]);
    assert RowPair(row, g, e) == [(front, back)];
    StripUnchanged(front);
    StripUnchanged(back);
  }

  /** No rows at all (after dropping empty ones) gives no pairs and no header verdict. */
  lemma CsvCardsOfNothing(readerRows: seq<Row>)
    ensures CsvCards(readerRows).1.None? <==> forall r :: r in readerRows ==> r == []
    ensures CsvCards(readerRows).1.None? ==> CsvCards(readerRows).0 == []
  {
    var rows := NonEmptyRows(readerRows);
    if rows != [] {
      assert rows[0] in rows;
    }
  }

  /** A header is recognised exactly when some normalised first-row cell names
      the German column and some names the English one; the header row is then
      dropped, and otherwise the first row is data read from columns 0 and 1. */
  lemma CsvCardsHeader(readerRows: seq<Row>)
    requires NonEmptyRows(readerRows) != []
    ensures var rows := NonEmptyRows(readerRows);
            var h := NormalizedHeader(rows[0]);
            var detected := HasKey(h, GermanKeys) && HasKey(h, EnglishKeys);
            CsvCards(readerRows).1 == Some(detected)
            && (detected ==> CsvCards(readerRows).0
                               == PairsOf(rows[1..], FirstIndex(h, GermanKeys, 0), FirstIndex(h, EnglishKeys, 1)))
            && (!detected ==> CsvCards(readerRows).0 == RowPair(rows[0], 0, 1) + PairsOf(rows[1..], 0, 1))
  {
    var rows := NonEmptyRows(readerRows);
    var h := NormalizedHeader(rows[0]);
    if !(HasKey(h, GermanKeys) && HasKey(h, EnglishKeys)) {
      PairsOfCons(rows, 0, 1);
    }
  }

  /** Every card read from a file has both sides stripped and non-empty, and
      cards are only read from a file with at least one non-empty row. */
  lemma CsvCardsClean(readerRows: seq<Row>, p: Pair)
    requires p in CsvCards(readerRows).0
    ensures p.0 != [] && p.1 != [] && Strip(p.0) == p.0 && Strip(p.1) == p.1
    ensures CsvCards(readerRows).1.Some?
  {
    var rows := NonEmptyRows(readerRows);
    var h := NormalizedHeader(rows[0]);
    if HasKey(h, GermanKeys) && HasKey(h, EnglishKeys) {
      PairsOfClean(rows[1..], FirstIndex(h, GermanKeys, 0), FirstIndex(h, EnglishKeys, 1), p);
    } else {
      PairsOfClean(rows, 0, 1, p);
    }
  }

  lemma PairsOfSingle(x: Row, g: nat, e: nat)
    ensures PairsOf([x], g, e) == RowPair(x, g, e)
  {
    var one := [x];
    assert one[..0] == [];
    assert one[0] == x;
    assert PairsOf(one, g, e) == PairsOf(one[..0], g, e) + RowPair(one[0], g, e);
  }

  lemma PairsOfCons(rows: seq<Row>, g: nat, e: nat)
    requires rows != []
    ensures PairsOf(rows, g, e) == RowPair(rows[0], g, e) + PairsOf(rows[1..], g, e)
  {
    var one := [rows[0]];
    assert rows == one + rows[1..];
    PairsOfAppend(one, rows[1..], g, e);
    PairsOfSingle(rows[0], g, e);
  }

  /** The outcome of the checks at the top of `import_shared_deck_cards`. */
  datatype ImportCheck = AdminRequired | DeckNameRequired | NoValidRows | ImportInto(deckName: string)

  /** `nameField` is the shared-deck name text field. */
  function CheckImport(user: Option<User>, nameField: Option<string>, cards: seq<Pair>): (r: ImportCheck)
    ensures r.ImportInto? <==>
              user.Some? && user.value.isAdmin && nameField.Some? && Strip(nameField.value) != [] && cards != []
    ensures r.ImportInto? ==> r.deckName == Strip(nameField.value) && r.deckName != []
    ensures !(user.Some? && user.value.isAdmin) ==> r == AdminRequired
    ensures user.Some? && user.value.isAdmin && (nameField.None? || Strip(nameField.value) == []) ==> r == DeckNameRequired
    ensures user.Some? && user.value.isAdmin && nameField.Some? && Strip(nameField.value) != [] && cards == [] ==> r == NoValidRows
  {
    if !(user.Some? && user.value.isAdmin) then AdminRequired
    else
      var name := if nameField.Some? && nameField.value != [] then Strip(nameField.value) else "";
      if name == [] then DeckNameRequired
      else if cards == [] then NoValidRows
      else ImportInto(name)
  }

  function ImportRefusalText(r: ImportCheck): string {
    match r
    case AdminRequired => "Admin login required to import shared decks."
    case DeckNameRequired => "Please enter a shared deck name."
    case NoValidRows => "No valid rows found in CSV."
    case ImportInto(_) => ""
  }

  /** The refusal messages tell the refusals apart, and a check that lets the
      import proceed has none. */
  lemma ImportRefusalTextsDistinct(a: ImportCheck, b: ImportCheck)
    ensures ImportRefusalText(a) == "" <==> a.ImportInto?
    ensures ImportRefusalText(a) == ImportRefusalText(b) <==> a == b || (a.ImportInto? && b.ImportInto?)
  {
  }

  function PairSet(cards: seq<Pair>): (s: set<Pair>)
    ensures forall p :: p in s <==> p in cards
  {
    set i | 0 <= i < |cards| :: cards[i]
  }

  /** The pairs actually inserted, in order: `INSERT ... WHERE NOT EXISTS`
      inserts a pair only when the deck does not hold it yet, including pairs
      inserted earlier in the same import. */
  function NewPairs(existing: set<Pair>, cards: seq<Pair>): (r: seq<Pair>)
    ensures |r| <= |cards|
    decreases |cards|
  {
    if cards == [] then []
    else if cards[0] in existing then NewPairs(existing, cards[1..])
    else [cards[0]] + NewPairs(existing + {cards[0]}, cards[1..])
  }

  predicate NoDuplicates(s: seq<Pair>) {
    forall i, j :: 0 <= i < j < |s| ==> s[i] != s[j]
  }

  /** What is inserted is new, inserted once, and afterwards the deck holds
      every pair of the file. */
  lemma {:induction false} NewPairsSpec(existing: set<Pair>, cards: seq<Pair>)
    ensures forall p :: p in NewPairs(existing, cards) ==> p in cards && p !in existing
    ensures NoDuplicates(NewPairs(existing, cards))
    ensures existing + PairSet(NewPairs(existing, cards)) == existing + PairSet(cards)
    decreases |cards|
  {
    if cards != [] {
      var p := cards[0];
      if p in existing {
        NewPairsSpec(existing, cards[1..]);
      } else {
        NewPairsSpec(existing + {p}, cards[1..]);
        var rest := NewPairs(existing + {p}, cards[1..]);
        assert NewPairs(existing, cards) == [p] + rest;
      }
      assert forall q :: q in cards <==> q == p || q in cards[1..];
    }
  }

  /** Importing a file a second time inserts nothing. */
  lemma ReimportInsertsNothing(existing: set<Pair>, cards: seq<Pair>)
    ensures NewPairs(existing + PairSet(NewPairs(existing, cards)), cards) == []
  {
    NewPairsSpec(existing, cards);
    NothingNewFromKnown(existing + PairSet(cards), cards);
  }

  lemma {:induction false} NothingNewFromKnown(existing: set<Pair>, cards: seq<Pair>)
    requires forall p :: p in cards ==> p in existing
    ensures NewPairs(existing, cards) == []
    decreases |cards|
  {
    if cards != [] {
      assert cards[0] in cards;
      NothingNewFromKnown(existing, cards[1..]);
    }
  }

  /** The insert loop of `import_shared_deck_cards` over the pairs of the
      target deck: `inserted` counts the rows the conditional INSERT wrote and
      `skipped` the pairs already present. */
  method DedupeInsert(existing: set<Pair>, cards: seq<Pair>)
      returns (inserted: nat, skipped: nat, added: seq<Pair>, present: set<Pair>)
    ensures added == NewPairs(existing, cards)
    ensures inserted == |added| && inserted + skipped == |cards|
    ensures present == existing + PairSet(cards)
  {
    inserted, skipped, added, present := 0, 0, [], existing;
    var i := 0;
    while i < |cards|
      invariant 0 <= i <= |cards|
      invariant added + NewPairs(present, cards[i..]) == NewPairs(existing, cards)
      invariant present == existing + PairSet(cards[..i])
      invariant inserted == |added| && inserted + skipped == i
    {
      var p := cards[i];
      DedupeStep(added, present, cards, i);
      PairSetExtend(cards, i);
      if p !in present {
        added := added + [p];
        present := present + {p};
        inserted := inserted + 1;
      } else {
        skipped := skipped + 1;
      }
      i := i + 1;
    }
    assert cards[..|cards|] == cards;
  }

  /** One turn of the insert loop keeps the pairs inserted so far followed by
      those still to come. */
  lemma DedupeStep(added: seq<Pair>, present: set<Pair>, cards: seq<Pair>, i: nat)
    requires i < |cards|
    ensures var p := cards[i];
            (if p in present then added + NewPairs(present, cards[i + 1..])
             else (added + [p]) + NewPairs(present + {p}, cards[i + 1..]))
            == added + NewPairs(present, cards[i..])
  {
    var rest := cards[i..];
    assert rest[0] == cards[i] && rest[1..] == cards[i + 1..];
  }

  lemma PairSetExtend(cards: seq<Pair>, i: nat)
    requires i < |cards|
    ensures PairSet(cards[..i + 1]) == PairSet(cards[..i]) + {cards[i]}
  {
    assert cards[..i + 1] == cards[..i] + [cards[i]];
  }

  /** `Imported N, skipped M. Header detected.` (or `No header detected.`). */
  function ImportStatusText(inserted: nat, skipped: nat, hasHeader: Option<bool>): string {
    "Imported " + NatToString(inserted) + ", skipped " + NatToString(skipped) + ". "
    + (if hasHeader == Some(true) then "Header detected" else "No header detected") + "."
  }

  /** The status line reads back: the number after "Imported " is the count of
      inserted rows, and the line ends in "No header detected." exactly when
      no header row was recognised. */
  lemma ImportStatusTextReadsBack(inserted: nat, skipped: nat, hasHeader: Option<bool>)
    ensures var t := ImportStatusText(inserted, skipped, hasHeader);
            var n := |NatToString(inserted)|;
            |t| > 9 + n && t[..9] == "Imported " && t[9 + n] == ','
            && (forall i :: 9 <= i < 9 + n ==> IsDigit(t[i]))
            && DigitsValue(t[9..9 + n]) == inserted
            && (hasHeader != Some(true) <==> |t| >= 19 && t[|t| - 19..] == "No header detected.")
  {
    var t := ImportStatusText(inserted, skipped, hasHeader);
    var digits := NatToString(inserted);
    var n := |digits|;
    var rest := ", skipped " + NatToString(skipped) + ". ";
    var note := (if hasHeader == Some(true) then "Header detected" else "No header detected") + ".";
    assert t == "Imported " + digits + rest + note;
    assert t[9..9 + n] == digits;
    DigitsValueOfNatToString(inserted);
    assert t[|t| - |note|..] == note;
    if hasHeader == Some(true) {
      assert |note| == 16;
      assert t[|t| - 16] == 'H';
      if |t| >= 19 {
        assert t[|t| - 19..][3] == t[|t| - 16];
      }
    }
  }
}
