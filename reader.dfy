/** The CSV reader: per-row normalisation and classification of a Dashlane
    export row, and the batch loop that sorts rows into accepted and
    ambiguous entries.

    Rows arrive already split into fields (the CSV tokeniser is not part of
    this model). The site check is the external `isValidSite` validator; it
    is passed in as a function so that every property below holds whatever
    that validator decides. */
module Reader {
  import opened Text

  /** One password entry, as built from a row (a `PWEntry` in the source). */
  datatype PWEntry = PWEntry(
    title: string,
    url: string,
    username: string,
    secondary: string,
    email: string,
    password: string,
    note: string)

  /** Fewest fields a row must have to be read at all. */
  const MinColumns: nat := 7

  /** Why a row produced no entry. */
  datatype DropReason = TooShort | InvalidSite

  /** What becomes of one row: it lands in exactly one of these. */
  datatype Outcome =
    | Ambiguous(entry: PWEntry)
    | Accepted(entry: PWEntry)
    | Dropped(reason: DropReason)

  /** The three identity fields after the username fallback. */
  datatype Identity = Identity(username: string, email: string, secondary: string)

  /** Username fallback: an empty username takes the email, or failing that
      the secondary login, and the field that was used is cleared. */
  function ResolveIdentity(user: string, email: string, secondary: string): (r: Identity)
    // precedence: username, then email, then secondary
    ensures user != "" ==> r == Identity(user, email, secondary)
    ensures user == "" && email != "" ==> r == Identity(email, "", secondary)
    ensures user == "" && email == "" ==> r == Identity(secondary, "", "")
    // at most one field moves, and nothing is lost or invented
    ensures r.email == email || r.secondary == secondary
    ensures multiset{r.username, r.email, r.secondary} == multiset{user, email, secondary}
    ensures r.username != "" <==> (user != "" || email != "" || secondary != "")
  {
    if user == "" then
      if email != "" then Identity(email, "", secondary)
      else if secondary != "" then Identity(secondary, "", "")
      else Identity(user, email, secondary)
    else Identity(user, email, secondary)
  }

  /** The quote test of the source, on the fields after fallback and note
      stripping, including its clause on the note, which is consulted only
      for rows with more than seven fields. */
  function AmbiguityTest(row: seq<string>, id: Identity, password: string, note: string): (ambiguous: bool)
    ensures ambiguous ==> HasDoubleQuotes(id.email) || HasDoubleQuotes(password) || HasDoubleQuotes(note)
    ensures HasDoubleQuotes(id.email) || HasDoubleQuotes(password) ==> ambiguous
    ensures |row| <= MinColumns || !HasDoubleQuotes(note) ==>
      (ambiguous <==> HasDoubleQuotes(id.email) || HasDoubleQuotes(password))
  {
    HasDoubleQuotes(id.email) || HasDoubleQuotes(password)
      || (|row| > MinColumns && HasDoubleQuotes(note))
  }

  /** Normalises one row and decides its fate. The row's fields are, in
      order: title, site, username, email, secondary login, password, note;
      fields beyond the seventh are ignored. */
  function ClassifyRow(row: seq<string>, isValidSite: string -> bool): (r: Outcome)
    // short rows are skipped silently
    ensures |row| < MinColumns <==> r == Dropped(TooShort)
    // the quote test looks at the email left after fallback and the password;
    // the stripped note never makes a row ambiguous
    ensures |row| >= MinColumns ==>
      (r.Ambiguous? <==> HasDoubleQuotes(row[5]) || (row[2] != "" && HasDoubleQuotes(row[3])))
    ensures r.Accepted? <==>
      |row| >= MinColumns && !r.Ambiguous? && !HasDoubleQuotes(row[5])
      && !(row[2] != "" && HasDoubleQuotes(row[3])) && isValidSite(row[1])
    ensures r == Dropped(InvalidSite) <==>
      |row| >= MinColumns && !HasDoubleQuotes(row[5])
      && !(row[2] != "" && HasDoubleQuotes(row[3])) && !isValidSite(row[1])
    // every entry built: fields copied, fallback applied, note without quotes
    ensures !r.Dropped? ==>
      && r.entry.title == row[0] && r.entry.url == row[1] && r.entry.password == row[5]
      && Identity(r.entry.username, r.entry.email, r.entry.secondary) == ResolveIdentity(row[2], row[3], row[4])
      && r.entry.note == StripQuotes(row[6])
      && !HasDoubleQuotes(r.entry.note)
    // an accepted entry has no quote in its email or password; an ambiguous one has
    ensures r.Accepted? ==> !HasDoubleQuotes(r.entry.email) && !HasDoubleQuotes(r.entry.password)
    ensures r.Ambiguous? ==> HasDoubleQuotes(r.entry.email) || HasDoubleQuotes(r.entry.password)
  {
    if |row| < MinColumns then Dropped(TooShort)
    else
      var id := ResolveIdentity(row[2], row[3], row[4]);
      var note := if HasDoubleQuotes(row[6]) then StripQuotes(row[6]) else row[6];
      StripQuotesIdentityOnQuoteFree(row[6]);
      var entry := PWEntry(row[0], row[1], id.username, id.secondary, id.email, row[5], note);
      if AmbiguityTest(row, id, row[5], note) then Ambiguous(entry)
      else if isValidSite(row[1]) then Accepted(entry)
      else Dropped(InvalidSite)
  }

  /** The conditional replace of the source is the plain replace. */
  lemma StripQuotesIdentityOnQuoteFree(s: string)
    ensures (if HasDoubleQuotes(s) then StripQuotes(s) else s) == StripQuotes(s)
  {
    if !HasDoubleQuotes(s) { StripQuotesIdentity(s); }
  }

  /** The note clause of the quote test can never fire: the note it looks at
      has already lost its quotes. */
  lemma NoteClauseIsDead(row: seq<string>, isValidSite: string -> bool)
    requires |row| >= MinColumns
    ensures var id := ResolveIdentity(row[2], row[3], row[4]);
      var quoted := HasDoubleQuotes(id.email) || HasDoubleQuotes(row[5]);
      AmbiguityTest(row, id, row[5], StripQuotes(row[6])) == quoted
  {
  }

  /** Whether a row is ambiguous, accepted or dropped does not depend on its
      note, whatever quotes the note holds. */
  lemma {:induction false} NoteDoesNotDecide(row: seq<string>, note: string, isValidSite: string -> bool)
    requires |row| >= MinColumns
    ensures ClassifyRow(row[6 := note], isValidSite).Ambiguous? == ClassifyRow(row, isValidSite).Ambiguous?
    ensures ClassifyRow(row[6 := note], isValidSite).Accepted? == ClassifyRow(row, isValidSite).Accepted?
  {
    var row' := row[6 := note];
    assert row'[2] == row[2] && row'[3] == row[3] && row'[5] == row[5] && row'[1] == row[1];
  }

  /** An email holding a quote escapes the quote test when it is moved into an
      empty username: the row below is accepted with that username. */
  lemma MovedQuotedEmailIsNotChecked(isValidSite: string -> bool)
    requires isValidSite("example.com")
    ensures ClassifyRow(["Example", "example.com", "", "a\"b@example.com", "", "pw", ""], isValidSite)
         == Accepted(PWEntry("Example", "example.com", "a\"b@example.com", "", "", "pw", ""))
  {
    var row := ["Example", "example.com", "", "a\"b@example.com", "", "pw", ""];
    assert row[2] == "" && row[4] == "";
    assert ResolveIdentity(row[2], row[3], row[4]) == Identity(row[3], "", "");
    assert !HasDoubleQuotes(row[5]) by { assert row[5] == "pw"; }
    assert StripQuotes("") == "";
  }

  /** The same email is caught when the username is present. */
  lemma QuotedEmailWithUsernameIsAmbiguous(isValidSite: string -> bool)
    ensures ClassifyRow(["Example", "example.com", "alice", "a\"b@example.com", "", "pw", ""], isValidSite).Ambiguous?
  {
    var row := ["Example", "example.com", "alice", "a\"b@example.com", "", "pw", ""];
    assert row[3][1] == '"';
  }

  // -------------------------------------------------------------------------
  // The batch: a fold of ClassifyRow over the rows

  /** The outcome of every row, in row order. */
  function Outcomes(rows: seq<seq<string>>, isValidSite: string -> bool): (r: seq<Outcome>)
    ensures |r| == |rows|
    ensures forall i :: 0 <= i < |rows| ==> r[i] == ClassifyRow(rows[i], isValidSite)
  {
    if rows == [] then []
    else Outcomes(rows[..|rows| - 1], isValidSite) + [ClassifyRow(rows[|rows| - 1], isValidSite)]
  }

  /** The entries of the accepted outcomes, in order. */
  function AcceptedOf(outcomes: seq<Outcome>): (r: seq<PWEntry>)
    ensures |r| <= |outcomes|
  {
    if outcomes == [] then []
    else
      var last := outcomes[|outcomes| - 1];
      AcceptedOf(outcomes[..|outcomes| - 1]) + (if last.Accepted? then [last.entry] else [])
  }

  /** The entries of the ambiguous outcomes, in order. */
  function AmbiguousOf(outcomes: seq<Outcome>): (r: seq<PWEntry>)
    ensures |r| <= |outcomes|
  {
    if outcomes == [] then []
    else
      var last := outcomes[|outcomes| - 1];
      AmbiguousOf(outcomes[..|outcomes| - 1]) + (if last.Ambiguous? then [last.entry] else [])
  }

  /** Reads a batch of split rows into the accepted list, the ambiguous list
      and the count of accepted rows. */
  method ReadRows(rows: seq<seq<string>>, isValidSite: string -> bool)
    returns (entries: seq<PWEntry>, ambiguousEntries: seq<PWEntry>, processed: nat)
    ensures entries == AcceptedOf(Outcomes(rows, isValidSite))
    ensures ambiguousEntries == AmbiguousOf(Outcomes(rows, isValidSite))
    ensures processed == |entries|
  {
    entries, ambiguousEntries, processed := [], [], 0;
    for i := 0 to |rows|
      invariant entries == AcceptedOf(Outcomes(rows[..i], isValidSite))
      invariant ambiguousEntries == AmbiguousOf(Outcomes(rows[..i], isValidSite))
      invariant processed == |entries|
    {
      assert rows[..i + 1][..i] == rows[..i];
      var prev, c := Outcomes(rows[..i], isValidSite), ClassifyRow(rows[i], isValidSite);
      assert Outcomes(rows[..i + 1], isValidSite) == prev + [c];
      assert (prev + [c])[..|prev + [c]| - 1] == prev;
      match c
      case Ambiguous(entry) =>
        ambiguousEntries := ambiguousEntries + [entry];
      case Accepted(entry) =>
        processed := processed + 1;
        entries := entries + [entry];
      case Dropped(_) =>
    }
    assert rows[..|rows|] == rows;
  }

  /** Each row lands in at most one of the two lists. */
  lemma {:induction false} AtMostOneListPerRow(outcomes: seq<Outcome>)
    ensures |AcceptedOf(outcomes)| + |AmbiguousOf(outcomes)| <= |outcomes|
  {
    if outcomes != [] {
      AtMostOneListPerRow(outcomes[..|outcomes| - 1]);
    }
  }

  /** Reading two batches one after the other gives the concatenated
      outcomes: each row is handled on its own, in input order. */
  lemma {:induction false} OutcomesAppend(a: seq<seq<string>>, b: seq<seq<string>>, isValidSite: string -> bool)
    ensures Outcomes(a + b, isValidSite) == Outcomes(a, isValidSite) + Outcomes(b, isValidSite)
  {
    var o := Outcomes(a + b, isValidSite);
    forall i | 0 <= i < |a + b|
      ensures o[i] == (Outcomes(a, isValidSite) + Outcomes(b, isValidSite))[i]
    {
      if i < |a| { assert (a + b)[i] == a[i]; } else { assert (a + b)[i] == b[i - |a|]; }
    }
  }

  /** Both lists keep input order: splitting the outcomes splits the lists. */
  lemma {:induction false} ListsAppend(a: seq<Outcome>, b: seq<Outcome>)
    ensures AcceptedOf(a + b) == AcceptedOf(a) + AcceptedOf(b)
    ensures AmbiguousOf(a + b) == AmbiguousOf(a) + AmbiguousOf(b)
    decreases |b|
  {
    if b == [] {
      assert a + b == a;
    } else {
      var b' := b[..|b| - 1];
      assert (a + b)[..|a + b| - 1] == a + b';
      assert (a + b)[|a + b| - 1] == b[|b| - 1];
      ListsAppend(a, b');
    }
  }

  /** A short row adds nothing to either list (and so nothing to `processed`). */
  lemma ShortRowAddsNothing(rows: seq<seq<string>>, row: seq<string>, isValidSite: string -> bool)
    requires |row| < MinColumns
    ensures AcceptedOf(Outcomes(rows + [row], isValidSite)) == AcceptedOf(Outcomes(rows, isValidSite))
    ensures AmbiguousOf(Outcomes(rows + [row], isValidSite)) == AmbiguousOf(Outcomes(rows, isValidSite))
  {
    OutcomesAppend(rows, [row], isValidSite);
    ListsAppend(Outcomes(rows, isValidSite), Outcomes([row], isValidSite));
  }

  /** An entry is in the accepted list exactly when an accepted outcome carries it. */
  lemma {:induction false} AcceptedMembership(outcomes: seq<Outcome>, e: PWEntry)
    ensures e in AcceptedOf(outcomes) <==> Accepted(e) in outcomes
  {
    if outcomes != [] {
      var init := outcomes[..|outcomes| - 1];
      AcceptedMembership(init, e);
      assert outcomes == init + [outcomes[|outcomes| - 1]];
    }
  }

  /** An entry is in the ambiguous list exactly when an ambiguous outcome carries it. */
  lemma {:induction false} AmbiguousMembership(outcomes: seq<Outcome>, e: PWEntry)
    ensures e in AmbiguousOf(outcomes) <==> Ambiguous(e) in outcomes
  {
    if outcomes != [] {
      var init := outcomes[..|outcomes| - 1];
      AmbiguousMembership(init, e);
      assert outcomes == init + [outcomes[|outcomes| - 1]];
    }
  }

  /** Every accepted entry has a site the validator accepts and no double
      quote in its email, password or note. */
  lemma AcceptedEntriesAreClean(rows: seq<seq<string>>, isValidSite: string -> bool)
    ensures forall e :: e in AcceptedOf(Outcomes(rows, isValidSite)) ==>
      isValidSite(e.url) && !HasDoubleQuotes(e.email) && !HasDoubleQuotes(e.password) && !HasDoubleQuotes(e.note)
  {
    var o := Outcomes(rows, isValidSite);
    forall e | e in AcceptedOf(o)
      ensures isValidSite(e.url) && !HasDoubleQuotes(e.email) && !HasDoubleQuotes(e.password) && !HasDoubleQuotes(e.note)
    {
      AcceptedMembership(o, e);
      var i :| 0 <= i < |o| && o[i] == Accepted(e);
      assert ClassifyRow(rows[i], isValidSite) == Accepted(e);
    }
  }

  /** Every ambiguous entry has a note without double quotes too. */
  lemma AmbiguousNotesHaveNoQuotes(rows: seq<seq<string>>, isValidSite: string -> bool)
    ensures forall e :: e in AmbiguousOf(Outcomes(rows, isValidSite)) ==> !HasDoubleQuotes(e.note)
  {
    var o := Outcomes(rows, isValidSite);
    forall e | e in AmbiguousOf(o) ensures !HasDoubleQuotes(e.note) {
      AmbiguousMembership(o, e);
      var i :| 0 <= i < |o| && o[i] == Ambiguous(e);
      assert ClassifyRow(rows[i], isValidSite) == Ambiguous(e);
    }
  }

  /** A row whose password holds a double quote goes to the ambiguous list. */
  lemma QuotedPasswordIsAmbiguous(rows: seq<seq<string>>, i: nat, isValidSite: string -> bool)
    requires i < |rows| && |rows[i]| >= MinColumns && HasDoubleQuotes(rows[i][5])
    ensures ClassifyRow(rows[i], isValidSite).Ambiguous?
    ensures ClassifyRow(rows[i], isValidSite).entry in AmbiguousOf(Outcomes(rows, isValidSite))
  {
    var o := Outcomes(rows, isValidSite);
    AmbiguousMembership(o, ClassifyRow(rows[i], isValidSite).entry);
    assert o[i] in o;
  }

  /** Every ambiguous entry still holds a double quote in its email or
      password, which is what sent it to the ambiguous list. */
  lemma AmbiguousEntriesAreQuoted(rows: seq<seq<string>>, isValidSite: string -> bool)
    ensures forall e :: e in AmbiguousOf(Outcomes(rows, isValidSite)) ==>
      HasDoubleQuotes(e.email) || HasDoubleQuotes(e.password)
  {
    var o := Outcomes(rows, isValidSite);
    forall e | e in AmbiguousOf(o) ensures HasDoubleQuotes(e.email) || HasDoubleQuotes(e.password) {
      AmbiguousMembership(o, e);
      var i :| 0 <= i < |o| && o[i] == Ambiguous(e);
      assert ClassifyRow(rows[i], isValidSite) == Ambiguous(e);
    }
  }

  /** No entry is in both lists: an ambiguous entry keeps a double quote in
      its email or password, and an accepted one has none there. */
  lemma NoEntryInBothLists(rows: seq<seq<string>>, isValidSite: string -> bool)
    ensures forall e :: !(e in AcceptedOf(Outcomes(rows, isValidSite)) && e in AmbiguousOf(Outcomes(rows, isValidSite)))
  {
    AcceptedEntriesAreClean(rows, isValidSite);
    AmbiguousEntriesAreQuoted(rows, isValidSite);
  }
}
