/** The KeePass 1.x XML writer: one `pwentry` element per accepted entry,
    with a fixed child order and a notes text composed from the entry's
    email, secondary login and free-text note.

    The ElementTree objects of the source are modelled as a tree value;
    serialisation, indentation and the regex-driven escaping pass over the
    serialised text are not part of this model. */
module Writer {
  import opened Text
  import opened Reader

  datatype Option<T> = None | Some(value: T)

  /** An XML element: tag, optional text, children in document order. */
  datatype Element = Element(tag: string, text: Option<string>, children: seq<Element>)

  /** A childless element holding `text`. */
  function Leaf(tag: string, text: string): (r: Element)
  {
    Element(tag, Some(text), [])
  }

  /** The tags of `children`, in order. */
  function Tags(children: seq<Element>): (r: seq<string>)
    ensures |r| == |children|
    ensures forall k :: 0 <= k < |children| ==> r[k] == children[k].tag
  {
    if children == [] then [] else [children[0].tag] + Tags(children[1..])
  }

  /** The text of the first child tagged `tag`, or None when there is none. */
  function ChildText(children: seq<Element>, tag: string): (r: Option<string>)
  {
    if children == [] then None
    else if children[0].tag == tag then children[0].text
    else ChildText(children[1..], tag)
  }

  /** The lookup finds the first child carrying the tag. */
  lemma {:induction false} ChildTextFirst(children: seq<Element>, k: nat, tag: string)
    requires k < |children| && children[k].tag == tag
    requires forall j :: 0 <= j < k ==> children[j].tag != tag
    ensures ChildText(children, tag) == children[k].text
  {
    if k > 0 {
      ChildTextFirst(children[1..], k - 1, tag);
    }
  }

  /** A tag no child carries is not found. */
  lemma {:induction false} ChildTextAbsent(children: seq<Element>, tag: string)
    requires forall j :: 0 <= j < |children| ==> children[j].tag != tag
    ensures ChildText(children, tag) == None
  {
    if children != [] {
      ChildTextAbsent(children[1..], tag);
    }
  }

  // -------------------------------------------------------------------------
  // The composed notes text

  /** The notes text of an entry, built as the source builds it: the email
      line, then a newline and the secondary line, then the raw note after a
      newline if anything came before it. */
  function ComposeNote(email: string, secondary: string, note: string): (r: string)
    ensures r == "" <==> email == "" && secondary == "" && note == ""
  {
    var withEmail := if email != "" then "email: " + email else "";
    var withSecondary := if secondary != "" then withEmail + "\nsecondary: " + secondary else withEmail;
    if note != "" then (if withSecondary != "" then withSecondary + "\n" else withSecondary) + note
    else withSecondary
  }

  /** The parts of the notes text that are present, in their fixed order. */
  function NoteParts(email: string, secondary: string, note: string): (r: seq<string>)
    ensures |r| <= 3
    ensures r == [] <==> email == "" && secondary == "" && note == ""
  {
    (if email != "" then ["email: " + email] else [])
      + (if secondary != "" then ["secondary: " + secondary] else [])
      + (if note != "" then [note] else [])
  }

  /** `lines` joined with newlines. */
  function JoinLines(lines: seq<string>): (r: string)
    ensures lines == [] ==> r == ""
    ensures |lines| == 1 ==> r == lines[0]
  {
    if lines == [] then ""
    else if |lines| == 1 then lines[0]
    else lines[0] + "\n" + JoinLines(lines[1..])
  }

  /** The composed note is the present parts joined by newlines, except that a
      secondary line with no email line before it keeps its leading newline. */
  lemma ComposeNoteIsJoinedParts(email: string, secondary: string, note: string)
    ensures ComposeNote(email, secondary, note)
         == (if email == "" && secondary != "" then "\n" else "") + JoinLines(NoteParts(email, secondary, note))
  {
    if email != "" {
      JoinedWithEmail(email, secondary, note);
    } else if secondary != "" {
      JoinedWithSecondaryOnly(secondary, note);
    } else {
      assert NoteParts(email, secondary, note) == if note != "" then [note] else [];
    }
  }

  /** The case of ComposeNoteIsJoinedParts with an email line first. */
  lemma JoinedWithEmail(email: string, secondary: string, note: string)
    requires email != ""
    ensures ComposeNote(email, secondary, note) == JoinLines(NoteParts(email, secondary, note))
  {
    var e, s := "email: " + email, "secondary: " + secondary;
    var parts := NoteParts(email, secondary, note);
    if secondary != "" {
      var head := e + "\nsecondary: " + secondary;
      assert head == e + "\n" + s;
      if note != "" {
        assert parts == [e, s, note];
        assert JoinLines(parts) == e + "\n" + JoinLines([s, note]);
        assert JoinLines([s, note]) == s + "\n" + JoinLines([note]);
        assert ComposeNote(email, secondary, note) == head + "\n" + note;
      } else {
        assert parts == [e, s];
        assert JoinLines(parts) == e + "\n" + JoinLines([s]);
      }
    } else if note != "" {
      assert parts == [e, note];
      assert JoinLines(parts) == e + "\n" + JoinLines([note]);
    } else {
      assert parts == [e];
    }
  }

  /** The case of ComposeNoteIsJoinedParts with a secondary line and no email. */
  lemma JoinedWithSecondaryOnly(secondary: string, note: string)
    requires secondary != ""
    ensures ComposeNote("", secondary, note) == "\n" + JoinLines(NoteParts("", secondary, note))
  {
  }

  /** How the composed note begins: with the email line when there is an
      email, with a newline when only a secondary login precedes the note,
      and otherwise it is the raw note itself. */
  lemma ComposeNoteStart(email: string, secondary: string, note: string)
    ensures email != "" ==> ComposeNote(email, secondary, note)[..7] == "email: "
    ensures email == "" && secondary != "" ==> ComposeNote(email, secondary, note)[..12] == "\nsecondary: "
    ensures email == "" && secondary == "" ==> ComposeNote(email, secondary, note) == note
  {
  }

  // -------------------------------------------------------------------------
  // The pwentry element

  const EntryTags: seq<string> := ["group", "title", "username", "url", "password"]

  /** The leaves every `pwentry` carries, before the optional notes. */
  function EntryFields(entry: PWEntry, groupName: string): (r: seq<Element>)
    ensures |r| == |EntryTags|
  {
    [ Leaf("group", groupName),
      Leaf("title", entry.title),
      Leaf("username", entry.username),
      Leaf("url", entry.url),
      Leaf("password", entry.password) ]
  }

  /** The `pwentry` element written for `entry` under group `groupName`. */
  function EntryElement(entry: PWEntry, groupName: string): (r: Element)
    ensures r.tag == "pwentry" && r.text == None
    ensures |r.children| == |EntryTags| + (if ComposeNote(entry.email, entry.secondary, entry.note) != "" then 1 else 0)
  {
    var note := ComposeNote(entry.email, entry.secondary, entry.note);
    var fields := EntryFields(entry, groupName);
    Element("pwentry", None, if note != "" then fields + [Leaf("notes", note)] else fields)
  }

  /** The children of a `pwentry` are leaves in the fixed tag order, with
      `notes` last and only when the composed note is not empty. */
  lemma EntryElementShape(entry: PWEntry, groupName: string)
    ensures var note := ComposeNote(entry.email, entry.secondary, entry.note);
      Tags(EntryElement(entry, groupName).children) == EntryTags + (if note != "" then ["notes"] else [])
    ensures forall c :: c in EntryElement(entry, groupName).children ==> c.children == [] && c.text.Some?
  {
  }

  /** What a reader of the `pwentry` element finds under each tag: the group
      label and the entry's fields. */
  lemma EntryElementFields(entry: PWEntry, groupName: string)
    ensures var kids := EntryElement(entry, groupName).children;
      && ChildText(kids, "group") == Some(groupName)
      && ChildText(kids, "title") == Some(entry.title)
      && ChildText(kids, "username") == Some(entry.username)
      && ChildText(kids, "url") == Some(entry.url)
      && ChildText(kids, "password") == Some(entry.password)
  {
    var kids := EntryElement(entry, groupName).children;
    assert kids[0] == Leaf("group", groupName);
    assert kids[1] == Leaf("title", entry.title);
    assert kids[2] == Leaf("username", entry.username);
    assert kids[3] == Leaf("url", entry.url);
    assert kids[4] == Leaf("password", entry.password);
    ChildTextFirst(kids, 0, "group");
    ChildTextFirst(kids, 1, "title");
    ChildTextFirst(kids, 2, "username");
    ChildTextFirst(kids, 3, "url");
    ChildTextFirst(kids, 4, "password");
  }

  /** The composed note is found under `notes` when it is not empty, and no
      separate email or secondary element is ever emitted. */
  lemma EntryElementNotes(entry: PWEntry, groupName: string)
    ensures var kids := EntryElement(entry, groupName).children;
      && ChildText(kids, "email") == None
      && ChildText(kids, "secondary") == None
    ensures var note := ComposeNote(entry.email, entry.secondary, entry.note);
      ChildText(EntryElement(entry, groupName).children, "notes") == if note == "" then None else Some(note)
  {
    var note := ComposeNote(entry.email, entry.secondary, entry.note);
    var kids := EntryElement(entry, groupName).children;
    assert kids[..5] == EntryFields(entry, groupName);
    assert forall j :: 0 <= j < 5 ==> kids[j].tag == EntryTags[j];
    if note != "" {
      assert kids[5] == Leaf("notes", note);
      ChildTextFirst(kids, 5, "notes");
    } else {
      ChildTextAbsent(kids, "notes");
    }
    ChildTextAbsent(kids, "email");
    ChildTextAbsent(kids, "secondary");
  }

  // -------------------------------------------------------------------------
  // writeEntries

  /** Builds the `pwlist` tree for `entries`; `processed` is the count the
      source reports as converted. */
  method WriteEntries(entries: seq<PWEntry>, groupName: string) returns (pwlist: Element, processed: nat)
    ensures pwlist.tag == "pwlist" && pwlist.text == None
    ensures |pwlist.children| == |entries| == processed
    ensures forall k :: 0 <= k < |entries| ==> pwlist.children[k] == EntryElement(entries[k], groupName)
  {
    processed := 0;
    var children: seq<Element> := [];
    for i := 0 to |entries|
      invariant processed == |children| == i
      invariant forall k :: 0 <= k < i ==> children[k] == EntryElement(entries[k], groupName)
    {
      var entry := entries[i];
      processed := processed + 1;
      var fields := EntryFields(entry, groupName);
      var note := "";
      if entry.email != "" {
        note := note + "email: " + entry.email;
      }
      assert note == if entry.email != "" then "email: " + entry.email else "";
      if entry.secondary != "" {
        note := note + "\nsecondary: " + entry.secondary;
      }
      if entry.note != "" {
        if note != "" {
          note := note + "\n";
        }
        note := note + entry.note;
      }
      assert note == ComposeNote(entry.email, entry.secondary, entry.note);
      if note != "" {
        fields := fields + [Leaf("notes", note)];
      }
      var pwentry := Element("pwentry", None, fields);
      assert pwentry == EntryElement(entry, groupName);
      children := children + [pwentry];
    }
    pwlist := Element("pwlist", None, children);
  }

  /** An accepted row reaches the XML with its title, site and password
      unchanged and the username chosen by the fallback. */
  lemma AcceptedRowInOutput(row: seq<string>, isValidSite: string -> bool, groupName: string)
    requires ClassifyRow(row, isValidSite).Accepted?
    ensures var kids := EntryElement(ClassifyRow(row, isValidSite).entry, groupName).children;
      && ChildText(kids, "title") == Some(row[0])
      && ChildText(kids, "url") == Some(row[1])
      && ChildText(kids, "password") == Some(row[5])
      && ChildText(kids, "username") == Some(ResolveIdentity(row[2], row[3], row[4]).username)
  {
    EntryElementFields(ClassifyRow(row, isValidSite).entry, groupName);
  }

  /** A row with an empty username and an email: the email becomes the
      username and is cleared, so it does not appear in the notes either. */
  lemma EmailFallbackExample(isValidSite: string -> bool)
    requires isValidSite("example.com")
    ensures var row := ["Example", "example.com", "", "bob@example.com", "", "p@ss1", ""];
      var o := ClassifyRow(row, isValidSite);
      && o == Accepted(PWEntry("Example", "example.com", "bob@example.com", "", "", "p@ss1", ""))
      && ChildText(EntryElement(o.entry, "General").children, "notes") == None
  {
    var row := ["Example", "example.com", "", "bob@example.com", "", "p@ss1", ""];
    var entry := PWEntry("Example", "example.com", "bob@example.com", "", "", "p@ss1", "");
    assert ClassifyRow(row, isValidSite) == Accepted(entry) by {
      assert !HasDoubleQuotes(row[5]) by { assert row[5] == "p@ss1"; }
      assert StripQuotes("") == "";
    }
    assert ComposeNote(entry.email, entry.secondary, entry.note) == "";
    EntryElementNotes(entry, "General");
  }
}
