# dashlane-to-keepass, modelled in Dafny

The converter reads a Dashlane CSV export and writes a KeePass 1.x XML file.
This project models the decision-making part of that conversion:

- **Reader** (`reader.dfy`) covers the per-row body of `readCsv`. A row that
  is already split into fields has its username fallback applied and the
  double quotes stripped from its note. It then lands in exactly one of
  three outcomes: *ambiguous* (a double quote in the email left after the
  fallback, or in the password), *accepted* (not ambiguous, and the site
  passes `isValidSite`) or *dropped* (too short, or an invalid site).
  `ReadRows` is the batch loop. It appends to `entries` and
  `ambiguousEntries` and counts `processed`, and it is proved equal to a
  fold of `ClassifyRow` over the rows.
- **Writer** (`writer.dfy`) covers the entry loop of `writeEntries`. It
  builds one `pwentry` element per entry, with the children `group`,
  `title`, `username`, `url`, `password` and an optional `notes`. The notes
  text is composed from the email, the secondary login and the note. XML
  elements are a tree datatype rather than ElementTree objects.
- **Text** (`text.dfy`) holds `hasDoubleQuotes`, the quote stripping of
  `note.replace('"', '')`, and `html_escape`, which replaces `'` by `&apos;`.

The site validator `isValidSite` wraps an external URL, domain and IP
validation package. It is a parameter `isValidSite: string -> bool` of
every member that needs it, so each property holds whatever that validator
decides.

Behaviours of the code that the model pins down:

- Columns are read as title, site, username, **email**, **secondary**,
  password, note (`row[3]` is the email, `row[4]` the secondary login).
  This code has no column-shifting heuristic between email and password.
- The email is moved into an empty username and then cleared. So in a row
  with no username, the email appears neither in the quote test nor in the
  notes. A quoted email in such a row escapes the quote test: the row is
  ambiguous only if its password holds `"` (`ClassifyRow`), and
  `MovedQuotedEmailIsNotChecked` shows one such row accepted.
  `EmailFallbackExample` shows a row with an email and no secondary login
  whose output has no `notes` element at all.
- The note clause of the quote test (`len(row) > 7 and hasDoubleQuotes(note)`)
  looks at a note that has already lost its quotes, so it never fires
  (`NoteClauseIsDead`, `NoteDoesNotDecide`).
- The composed note starts with `"\n"` when there is no email but there is
  a secondary login (`ComposeNoteIsJoinedParts`, `ComposeNoteStart`).
- `html_escape` does not escape `&`. So `&apos;` and `'` escape to the same
  text (`HtmlEscapeNotInjective`). The escape is undone on every text in
  which the entity `&apos;` does not occur (`UnescapeHtmlEscape`), while a
  literal `&apos;` cannot be told apart from `'` after escaping
  (`HtmlEscapeNotInjective`). Leaf
  text serialised by ElementTree has that form, because ElementTree writes
  every `&` as `&amp;`, so a literal `&apos;` reaches `html_escape` as
  `&amp;apos;`.

## Model

| member | source | states |
|---|---|---|
| `Text.HasDoubleQuotes` | script.py:25-26 | the test holds exactly when the text contains at least one `"` |
| `Text.StripQuotes` | script.py:57-58 | the stripped note holds no `"`, and its length is the original length minus the number of quotes |
| `Text.StripQuotesKeepsOthers` | script.py:57-58 | every character other than `"` occurs in the stripped note as often as in the original |
| `Text.StripQuotesAppend` | script.py:57-58 | stripping works piecewise, so the kept characters stay in their original order |
| `Text.StripQuotesIdentity` | script.py:57-58 | a note without quotes is left unchanged |
| `Text.StripQuotesIdempotent` | script.py:57-58 | stripping twice is the same as stripping once |
| `Text.HtmlEscape` | script.py:128-132 | the output holds no `'`; its length is the input length plus 5 for each `'` |
| `Text.HtmlEscapeAppend` | script.py:128-132 | the escape is character-wise: escaping a concatenation concatenates the escapes, so every other character is kept in order |
| `Text.HtmlEscapeIdentity` | script.py:128-132 | text without `'` is unchanged |
| `Text.HtmlEscapeIdempotent` | script.py:128-132 | escaping twice is the same as escaping once |
| `Text.UnescapeHtmlEscape` | script.py:128-132 | on text in which `&apos;` does not occur, turning each `&apos;` of the escaped text back into `'` gives back the input exactly |
| `Text.HtmlEscapeNotInjective` | script.py:128-132 | a literal `&apos;` and a lone `'` escape to the same text |
| `Reader.ResolveIdentity` | script.py:49-55 | a non-empty username keeps all three fields; otherwise a non-empty email becomes the username and is cleared; otherwise the secondary login becomes the username and is cleared; at most one field moves; the three values are only permuted; the username is empty only when all three were empty |
| `Reader.StripQuotesIdentityOnQuoteFree` | script.py:57-58 | the conditional replace equals the unconditional one |
| `Reader.AmbiguityTest` | script.py:62 | a row is ambiguous only when the email, the password or the note holds `"`; a quoted email or password always makes it ambiguous; the note matters only for a row of more than 7 fields whose note holds `"` |
| `Reader.ClassifyRow` | script.py:40-72 | a row is dropped as too short exactly when it has fewer than 7 fields. A long-enough row is ambiguous exactly when the password holds `"`, or the username is present and the email holds `"`. It is accepted exactly when it is not ambiguous and the site is valid, and dropped for an invalid site otherwise. Every entry built copies title, site and password, applies the fallback, and holds the stripped, quote-free note. An accepted entry has no `"` in its email or password; an ambiguous one has a `"` in one of them |
| `Reader.NoteClauseIsDead` | script.py:57-62 | the quote test on the stripped note equals the test on email and password alone |
| `Reader.NoteDoesNotDecide` | script.py:57-66 | replacing the note of a row does not change whether it is ambiguous or accepted |
| `Reader.MovedQuotedEmailIsNotChecked` | script.py:49-70 | the example row `["Example","example.com","","a\"b@example.com","","pw",""]`, whose username is empty and whose email holds `"`, is accepted when the validator accepts `example.com`, with that email as the username |
| `Reader.QuotedEmailWithUsernameIsAmbiguous` | script.py:62-66 | the same quoted email next to a present username makes the row ambiguous |
| `Reader.Outcomes` | script.py:38-72 | the outcome list has one element per row, and element `i` is the classification of row `i` |
| `Reader.ReadRows` | script.py:34-76 | `entries` and `ambiguousEntries` are the accepted and ambiguous entries of the rows' outcomes in row order, and `processed` equals the number of accepted entries |
| `Reader.AtMostOneListPerRow` | script.py:62-72 | the two lists together are no longer than the row list: each row lands in at most one of them |
| `Reader.OutcomesAppend` | script.py:38-75 | the outcomes of two batches read one after the other are the outcomes of each batch, concatenated: every row is handled on its own |
| `Reader.ListsAppend` | script.py:62-72 | both lists split where the outcomes split, so both keep input order |
| `Reader.ShortRowAddsNothing` | script.py:40 | appending a row of fewer than 7 fields changes neither list, and so not `processed` |
| `Reader.AcceptedMembership` | script.py:68-70 | an entry is in `entries` exactly when an accepted outcome carries it |
| `Reader.AmbiguousMembership` | script.py:62-66 | an entry is in `ambiguousEntries` exactly when an ambiguous outcome carries it |
| `Reader.AcceptedEntriesAreClean` | script.py:57-70 | every accepted entry has a site the validator accepts and no `"` in its email, password or note |
| `Reader.AmbiguousNotesHaveNoQuotes` | script.py:57-65 | every ambiguous entry's note holds no `"` |
| `Reader.AmbiguousEntriesAreQuoted` | script.py:57-66 | every entry in `ambiguousEntries` has a `"` in its email or its password |
| `Reader.NoEntryInBothLists` | script.py:62-72 | no entry is in both `entries` and `ambiguousEntries` |
| `Reader.QuotedPasswordIsAmbiguous` | script.py:62-66 | a row of 7 or more fields whose password holds `"` is ambiguous, and its entry is in `ambiguousEntries` |
| `Writer.ComposeNote` | script.py:92-104 | the composed note is empty exactly when the email, the secondary login and the note are all empty |
| `Writer.ComposeNoteIsJoinedParts` | script.py:92-104 | the composed note is the present parts (`email: …`, `secondary: …`, the raw note), in that order, joined by newlines, preceded by one extra newline exactly when there is a secondary login but no email |
| `Writer.ComposeNoteStart` | script.py:92-104 | with an email the note starts with `email: `; with only a secondary login before the note it starts with `\nsecondary: `; with neither it is the raw note |
| `Writer.EntryElement` | script.py:84-107 | the `pwentry` element has no text, and it has five children, or six exactly when the composed note is not empty |
| `Writer.EntryElementShape` | script.py:84-107 | the children are leaves tagged `group`, `title`, `username`, `url`, `password`, in that order, followed by `notes` exactly when the composed note is not empty |
| `Writer.EntryElementFields` | script.py:86-90 | looking up each tag in a `pwentry` finds the group label, the title, the username, the site and the password |
| `Writer.EntryElementNotes` | script.py:92-107 | looking up `notes` finds the composed note when it is not empty and nothing otherwise; no `email` or `secondary` element is ever emitted |
| `Writer.WriteEntries` | script.py:79-107 | `pwlist` has exactly one child per entry, in order, each child being that entry's `pwentry` under the same group; the count reported as converted equals the number of entries (so zero entries give an empty `pwlist` and a count of 0) |
| `Writer.AcceptedRowInOutput` | script.py:41-90 | an accepted row reaches its `pwentry` with title, site and password unchanged and the username chosen by the fallback |
| `Writer.EmailFallbackExample` | script.py:49-106 | the example row `["Example","example.com","","bob@example.com","","p@ss1",""]` is accepted when the validator accepts `example.com`, with the email as username and an empty email, and its `pwentry` (group `General`) has no `notes` element |

## Left out

- CSV tokenising (`csv.reader` with `doublequote=False`) and opening and decoding the input file: the model starts from rows already split into fields.
- The internals of `isValidSite`: it calls an external validation package, so it is a parameter of the model.
- The bare `except` that prints a traceback and carries on: with the validator as a total function, no row can raise in the model.
- The `verbose` diagnostics (`Skipped: …`, `Skipped[0]: …`, `Processing …`) and the final `print` of the count: they are output only. The count itself is returned by `WriteEntries`.
- `escape_quotes` and `escape_tag`: they apply `html_escape` through a regular expression over ElementTree's serialised text. Only `html_escape` itself is modelled.
- `indent` and `ET.tostring`: whitespace pretty-printing and serialisation by the XML library.
- Writing the output file, `outputAmbiguousEntries`, and `main` (argument parsing and the input-existence check): I/O and command-line glue.
- `WriteEntries`: the source appends children to mutable ElementTree objects. The model builds the same tree as an immutable value, so aliasing of elements is not captured.
