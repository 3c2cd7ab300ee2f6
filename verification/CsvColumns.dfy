/**
 * What an exported CSV file still says about an item: the cell under every heading, the tags, and the fields that
 * have been folded into the notes as "Label: value" lines (web/export.js).
 */
module CsvColumns {
  import opened Strings
  import opened Wrappers
  import opened VaultItem
  import opened Csv

  // ---- Taking joined text apart ----

  /** s.split(c). */
  function Split(s: string, c: char): (parts: seq<string>)
    ensures |parts| > 0
  {
    if s == "" then [""]
    else
      var more := Split(s[1..], c);
      if s[0] == c then [""] + more else [[s[0]] + more[0]] + more[1..]
  }

  function Count(s: string, c: char): nat {
    if s == "" then 0 else (if s[0] == c then 1 else 0) + Count(s[1..], c)
  }

  lemma {:induction false} CountOfSum(s: string, t: string, c: char)
    ensures Count(s + t, c) == Count(s, c) + Count(t, c)
  {
    if s == "" {
      assert s + t == t;
    } else {
      CountOfSum(s[1..], t, c);
      assert (s + t)[1..] == s[1..] + t;
    }
  }

  lemma {:induction false} CountZero(s: string, c: char)
    ensures Count(s, c) == 0 <==> c !in s
  {
    if s != "" {
      CountZero(s[1..], c);
      assert s == [s[0]] + s[1..];
    }
  }

  /** There is one part more than there are separators. */
  lemma {:induction false} PartsCounted(s: string, c: char)
    ensures |Split(s, c)| == Count(s, c) + 1
  {
    if s != "" {
      PartsCounted(s[1..], c);
    }
  }

  /** A part without the separator is split off. */
  lemma {:induction false} SplitFirst(part: string, more: string, c: char)
    requires c !in part
    ensures Split(part, c) == [part]
    ensures Split(part + [c] + more, c) == [part] + Split(more, c)
  {
    var s := part + [c] + more;
    if part == "" {
      assert s[0] == c && s[1..] == more;
    } else {
      SplitFirst(part[1..], more, c);
      assert s[1..] == part[1..] + [c] + more;
      assert part == [part[0]] + part[1..];
    }
  }

  lemma {:induction false} SplitJoined(parts: seq<string>, c: char)
    requires parts != [] && forall k :: 0 <= k < |parts| ==> c !in parts[k]
    ensures Split(Join(parts, [c]), c) == parts
  {
    hide Split;
    SplitFirst(parts[0], Join(parts[1..], [c]), c);
    if |parts| > 1 {
      SplitJoined(parts[1..], c);
    }
  }

  function CountAll(parts: seq<string>, c: char): nat {
    if parts == [] then 0 else Count(parts[0], c) + CountAll(parts[1..], c)
  }

  lemma {:induction false} CountAllZero(parts: seq<string>, c: char)
    requires CountAll(parts, c) == 0
    ensures forall k :: 0 <= k < |parts| ==> c !in parts[k]
  {
    hide Count;
    if parts != [] {
      CountZero(parts[0], c);
      CountAllZero(parts[1..], c);
      assert forall k :: 0 < k < |parts| ==> parts[k] == parts[1..][k - 1];
    }
  }

  lemma {:induction false} JoinedCount(parts: seq<string>, c: char)
    requires parts != []
    ensures Count(Join(parts, [c]), c) == CountAll(parts, c) + |parts| - 1
  {
    if |parts| > 1 {
      JoinedCount(parts[1..], c);
      CountOfSum(parts[0] + [c], Join(parts[1..], [c]), c);
      CountOfSum(parts[0], [c], c);
    } else {
      assert CountAll(parts[1..], c) == 0;
    }
  }

  /** Splitting gives as many parts back as were joined if and only if none contains the separator. */
  lemma {:induction false} SplitJoinIff(parts: seq<string>, c: char)
    ensures |Split(Join(parts, [c]), c)| == |parts| <==> parts != [] && forall k :: 0 <= k < |parts| ==> c !in parts[k]
    ensures |Split(Join(parts, [c]), c)| == |parts| ==> Split(Join(parts, [c]), c) == parts
  {
    hide Split, Join, Count, CountAll;
    if parts != [] {
      PartsCounted(Join(parts, [c]), c);
      JoinedCount(parts, c);
      if CountAll(parts, c) == 0 {
        CountAllZero(parts, c);
      }
      if forall k :: 0 <= k < |parts| ==> c !in parts[k] {
        SplitJoined(parts, c);
      }
    }
  }

  // ---- Lines of label and value ----

  datatype Pair = Pair(name: string, value: string)

  /** A line taken apart at its first colon with a blank behind it. */
  function Reading(line: string): Option<Pair> {
    if |line| < 2 then None
    else if line[0] == ':' && line[1] == ' ' then Some(Pair("", line[2..]))
    else
      match Reading(line[1..])
      case None => None
      case Some(p) => Some(Pair([line[0]] + p.name, p.value))
  }

  function Readings(lines: seq<string>): (r: seq<Option<Pair>>)
    ensures |r| == |lines| && forall k :: 0 <= k < |r| ==> r[k] == Reading(lines[k])
  {
    seq(|lines|, k requires 0 <= k < |lines| => Reading(lines[k]))
  }

  function Line(p: Pair): string {
    p.name + ": " + p.value
  }

  function LinesOf(pairs: seq<Pair>): (r: seq<string>)
    ensures |r| == |pairs| && forall k :: 0 <= k < |r| ==> r[k] == Line(pairs[k])
  {
    seq(|pairs|, k requires 0 <= k < |pairs| => Line(pairs[k]))
  }

  function Somes(pairs: seq<Pair>): (r: seq<Option<Pair>>)
    ensures |r| == |pairs| && forall k :: 0 <= k < |r| ==> r[k] == Some(pairs[k])
  {
    seq(|pairs|, k requires 0 <= k < |pairs| => Some(pairs[k]))
  }

  /** Contains a colon with a blank behind it. */
  predicate HasColon(s: string) {
    |s| >= 2 && ((s[0] == ':' && s[1] == ' ') || HasColon(s[1..]))
  }

  /** A line is read as its pair if and only if the label has no separator in it. */
  lemma {:induction false} ReadingIff(p: Pair)
    ensures Reading(Line(p)).Some?
    ensures Reading(Line(p)) == Some(p) <==> !HasColon(p.name)
    decreases |p.name|
  {
    var line := Line(p);
    if p.name == "" {
      assert line[2..] == p.value;
    } else {
      var q := Pair(p.name[1..], p.value);
      ReadingIff(q);
      assert line[0] == p.name[0] && line[1..] == Line(q);
      assert p.name == [p.name[0]] + q.name;
      if line[0] == ':' && line[1] == ' ' {
        assert |p.name| >= 2;
      }
    }
  }

  predicate Readable(p: Pair) {
    '\n' !in p.name && '\n' !in p.value && !HasColon(p.name)
  }

  lemma LineBreaks(p: Pair)
    ensures '\n' in Line(p) <==> '\n' in p.name || '\n' in p.value
  {
    var line := Line(p);
    if '\n' in p.name {
      var k :| 0 <= k < |p.name| && p.name[k] == '\n';
      assert line[k] == '\n';
    }
    if '\n' in p.value {
      var k :| 0 <= k < |p.value| && p.value[k] == '\n';
      assert line[|p.name| + 2 + k] == '\n';
    }
  }

  /** Lines of pairs are read as the pairs if and only if every pair is readable. */
  lemma {:induction false} LinesReadIff(pairs: seq<Pair>)
    requires pairs != []
    ensures Readings(Split(Join(LinesOf(pairs), "\n"), '\n')) == Somes(pairs) <==> forall k :: 0 <= k < |pairs| ==> Readable(pairs[k])
  {
    hide Join, Split, Line, Reading, HasColon;
    var lines := LinesOf(pairs);
    SplitJoinIff(lines, '\n');
    forall k | 0 <= k < |pairs|
      ensures Reading(lines[k]) == Some(pairs[k]) <==> !HasColon(pairs[k].name)
      ensures '\n' in lines[k] <==> '\n' in pairs[k].name || '\n' in pairs[k].value
    {
      ReadingIff(pairs[k]);
      LineBreaks(pairs[k]);
    }
    var split := Split(Join(lines, "\n"), '\n');
    if |split| == |lines| {
      assert split == lines;
      assert forall k :: 0 <= k < |pairs| ==> Readings(lines)[k] == Reading(lines[k]) && Somes(pairs)[k] == Some(pairs[k]);
    }
  }

  // ---- What an item has to fold ----

  /** Fields by type that have a value. */
  function FilledFields(fields: seq<Field>): seq<Pair> {
    if fields == [] then []
    else if fields[0].value == "" then FilledFields(fields[1..])
    else [Pair(fields[0].key, fields[0].value)] + FilledFields(fields[1..])
  }

  /** Custom fields that are not blank, with a label of their own or the standard one. */
  function FilledCustom(custom: seq<CustomField>): seq<Pair> {
    if custom == [] then []
    else if custom[0].name == "" && custom[0].value == "" then FilledCustom(custom[1..])
    else [Pair(if custom[0].name == "" then "Field" else custom[0].name, custom[0].value)] + FilledCustom(custom[1..])
  }

  function Folded(d: Item): seq<Pair> {
    FilledFields(ExtraFields(d)) + FilledCustom(d.custom)
  }

  lemma {:induction false} FieldLines(fields: seq<Field>)
    ensures ExtraLines(fields) == LinesOf(FilledFields(fields))
  {
    if fields != [] {
      FieldLines(fields[1..]);
      if fields[0].value == "" {
        assert ExtraLines(fields) == [] + ExtraLines(fields[1..]);
      }
    }
  }

  lemma {:induction false} CustomFieldLines(custom: seq<CustomField>)
    ensures CustomLines(custom) == LinesOf(FilledCustom(custom))
  {
    if custom != [] {
      CustomFieldLines(custom[1..]);
      if custom[0].name == "" && custom[0].value == "" {
        assert CustomLines(custom) == [] + CustomLines(custom[1..]);
      }
    }
  }

  /** What a notes cell says behind the item's own notes. */
  function ReadFolded(cell: string, notes: string): seq<Option<Pair>> {
    if cell == notes then []
    else if notes == "" then Readings(Split(cell, '\n'))
    else if |cell| > |notes| && cell[..|notes|] == notes && cell[|notes|] == '\n' then Readings(Split(cell[|notes| + 1..], '\n'))
    else [None]
  }

  /** The folded fields can be read back from the notes if and only if each of them is readable. */
  lemma NotesReadIff(d: Item)
    ensures ReadFolded(NotesOf(d), d.notes) == Somes(Folded(d)) <==> forall k :: 0 <= k < |Folded(d)| ==> Readable(Folded(d)[k])
  {
    hide ExtraLines, CustomLines, FilledFields, FilledCustom, ExtraFields, Split, Readable, Line, Reading;
    FieldLines(ExtraFields(d));
    CustomFieldLines(d.custom);
    var pairs := Folded(d);
    var lines := ExtraLines(ExtraFields(d)) + CustomLines(d.custom);
    assert lines == LinesOf(pairs);
    if pairs == [] {
      assert Somes(pairs) == [];
    } else {
      LinesReadIff(pairs);
      JoinNotEmpty(lines);
      var cell, text := NotesOf(d), Join(lines, "\n");
      if d.notes != "" {
        assert cell == d.notes + "\n" + text;
        assert cell[|d.notes| + 1..] == text;
      }
    }
  }

  lemma JoinNotEmpty(lines: seq<string>)
    requires lines != [] && exists p :: lines[0] == Line(p)
    ensures Join(lines, "\n") != ""
  {
  }

  // ---- The file ----

  /** What a file of items has under a heading in the row of item k. */
  function CellUnder(items: seq<Item>, k: nat, heading: string): Option<string> {
    var rows := Rows(BOM + RowsText([HEADER] + ItemRows(items)));
    if |rows| <= k + 1 then None
    else
      var column := IndexOf(rows[0], heading);
      if 0 <= column < |rows[k + 1]| then Some(rows[k + 1][column]) else None
  }

  lemma {:induction false} FirstAt(parts: seq<string>, x: string, i: nat)
    requires i < |parts| && parts[i] == x && forall j :: 0 <= j < i ==> parts[j] != x
    ensures IndexOf(parts, x) == i
  {
    if i > 0 {
      FirstAt(parts[1..], x, i - 1);
    }
  }

  lemma Heading(x: string, i: nat)
    requires 0 < i < |HEADER| && HEADER[i] == x && (forall j :: 0 <= j < i ==> HEADER[j] != x)
    requires x != "" && x[0] != BOM[0]
    ensures IndexOf(HEADER[0 := BOM + "type"], x) == i
  {
    var marked := HEADER[0 := BOM + "type"];
    assert marked[0][0] == BOM[0];
    FirstAt(marked, x, i);
  }

  lemma Headings()
    ensures var marked := HEADER[0 := BOM + "type"];
            && IndexOf(marked, "title") == 1 && IndexOf(marked, "username") == 2 && IndexOf(marked, "password") == 3
            && IndexOf(marked, "url") == 4 && IndexOf(marked, "notes") == 5 && IndexOf(marked, "totp") == 6 && IndexOf(marked, "tags") == 7
  {
    hide IndexOf;
    Heading("title", 1);
    Heading("username", 2);
    Heading("password", 3);
    Heading("url", 4);
    Heading("notes", 5);
    Heading("totp", 6);
    Heading("tags", 7);
  }

  /** Under its heading every login property stands as it is, and the type is in front. */
  lemma ColumnsKept(items: seq<Item>, k: nat)
    requires k < |items|
    ensures var d := items[k];
            && CellUnder(items, k, "title") == Some(d.title) && CellUnder(items, k, "username") == Some(d.username)
            && CellUnder(items, k, "password") == Some(d.password) && CellUnder(items, k, "url") == Some(d.url)
            && CellUnder(items, k, "totp") == Some(d.totp)
            && CellUnder(items, k, BOM + "type") == Some(if d.kind == "" then "login" else d.kind)
  {
    hide Rows, RowsText, IndexOf, NotesOf, Join;
    ExportParses(items);
    Headings();
    FirstHeading();
    assert ([HEADER[0 := BOM + "type"]] + ItemRows(items))[k + 1] == ItemRow(items[k]);
  }

  lemma FirstHeading()
    ensures IndexOf(HEADER[0 := BOM + "type"], BOM + "type") == 0
  {
  }

  /** The tags can be split off again if and only if there are any and none has a semicolon in it. */
  lemma TagsReadIff(items: seq<Item>, k: nat)
    requires k < |items|
    ensures CellUnder(items, k, "tags").Some?
    ensures Split(CellUnder(items, k, "tags").value, ';') == items[k].tags
      <==> items[k].tags != [] && forall t :: 0 <= t < |items[k].tags| ==> ';' !in items[k].tags[t]
  {
    hide Rows, RowsText, IndexOf, NotesOf, Join, Split;
    ExportParses(items);
    Headings();
    SplitJoinIff(items[k].tags, ';');
    assert ([HEADER[0 := BOM + "type"]] + ItemRows(items))[k + 1] == ItemRow(items[k]);
  }

  /**
   * Behind an item's own notes the file has its fields by type that have a value and then its custom fields that are
   * not blank, each as a line that is read back as label and value; all of them are, if and only if none has a line
   * break in it or a separator in its label.
   */
  lemma FoldedReadIff(items: seq<Item>, k: nat)
    requires k < |items|
    ensures CellUnder(items, k, "notes").Some?
    ensures ReadFolded(CellUnder(items, k, "notes").value, items[k].notes) == Somes(Folded(items[k]))
      <==> forall j :: 0 <= j < |Folded(items[k])| ==> Readable(Folded(items[k])[j])
  {
    hide Rows, RowsText, IndexOf, NotesOf, Join, Split, ReadFolded, Readable, Folded, Somes;
    ExportParses(items);
    Headings();
    NotesReadIff(items[k]);
    assert ([HEADER[0 := BOM + "type"]] + ItemRows(items))[k + 1] == ItemRow(items[k]);
  }

  lemma {:induction false} FieldsReadable(fields: seq<Field>)
    requires forall j :: 0 <= j < |fields| ==> '\n' !in fields[j].key && '\n' !in fields[j].value && !HasColon(fields[j].key)
    ensures forall j :: 0 <= j < |FilledFields(fields)| ==> Readable(FilledFields(fields)[j])
  {
    hide HasColon;
    if fields != [] {
      FieldsReadable(fields[1..]);
    }
  }

  lemma {:induction false} CustomReadable(custom: seq<CustomField>)
    requires forall j :: 0 <= j < |custom| ==> '\n' !in custom[j].name && '\n' !in custom[j].value && !HasColon(custom[j].name)
    ensures forall j :: 0 <= j < |FilledCustom(custom)| ==> Readable(FilledCustom(custom)[j])
  {
    if custom != [] {
      CustomReadable(custom[1..]);
      assert !HasColon("Field") by {
        assert "Field"[1..] == "ield" && "ield"[1..] == "eld" && "eld"[1..] == "ld" && "ld"[1..] == "d";
      }
    }
  }

  /** So nothing of a card or an identity is lost whose values are single lines. */
  lemma FieldsKept(items: seq<Item>, k: nat)
    requires k < |items| && forall j :: 0 <= j < |ExtraFields(items[k])| ==> '\n' !in ExtraFields(items[k])[j].value
    requires forall j :: 0 <= j < |items[k].custom| ==>
               '\n' !in items[k].custom[j].name && '\n' !in items[k].custom[j].value && !HasColon(items[k].custom[j].name)
    ensures CellUnder(items, k, "notes").Some?
    ensures ReadFolded(CellUnder(items, k, "notes").value, items[k].notes)
         == Somes(FilledFields(ExtraFields(items[k])) + FilledCustom(items[k].custom))
  {
    hide CellUnder, ReadFolded, Readable, HasColon, FilledFields, FilledCustom, ExtraFields;
    var d := items[k];
    LabelsReadable(d);
    FieldsReadable(ExtraFields(d));
    CustomReadable(d.custom);
    FoldedReadIff(items, k);
  }

  lemma LabelsReadable(d: Item)
    ensures forall j :: 0 <= j < |ExtraFields(d)| ==> '\n' !in ExtraFields(d)[j].key && !HasColon(ExtraFields(d)[j].key)
  {
    hide HasColon;
    forall j | 0 <= j < |ExtraFields(d)| ensures '\n' !in ExtraFields(d)[j].key && !HasColon(ExtraFields(d)[j].key) {
      Letters(d, j);
      NoColon(ExtraFields(d)[j].key);
    }
  }

  predicate Word(s: string) {
    forall c :: c in s ==> 'A' <= c <= 'Z' || 'a' <= c <= 'z' || c == ' '
  }

  /** The labels of the fields by type are words. */
  lemma Letters(d: Item, j: nat)
    requires j < |ExtraFields(d)|
    ensures Word(ExtraFields(d)[j].key)
  {
    hide Word;
    CardWords();
    IdentityWords();
  }

  lemma CardWords()
    ensures Word("Card Holder") && Word("Card Number") && Word("Card Brand") && Word("Card Expiry") && Word("Card CVV") && Word("Card PIN")
  {
  }

  lemma IdentityWords()
    ensures Word("Full Name") && Word("Email") && Word("Phone") && Word("Address") && Word("Company")
  {
  }

  lemma {:induction false} NoColon(s: string)
    requires ':' !in s
    ensures !HasColon(s)
  {
    if |s| >= 2 {
      NoColon(s[1..]);
    }
  }
}
