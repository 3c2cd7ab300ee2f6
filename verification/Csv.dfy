/**
 * The CSV writer of web/export.js and the cursor parser of web/import.js (RFC 4180, section 2).
 */
module Csv {
  import opened Sequences
  import opened Strings
  import opened VaultItem

  // ---- The writer ----

  predicate NeedsQuotes(s: string) {
    '"' in s || ',' in s || '\n' in s || '\r' in s
  }

  function Doubled(s: string): string {
    if s == "" then "" else (if s[0] == '"' then "\"\"" else [s[0]]) + Doubled(s[1..])
  }

  function Cell(s: string): string {
    if NeedsQuotes(s) then "\"" + Doubled(s) + "\"" else s
  }

  function Cells(row: seq<string>): seq<string> {
    seq(|row|, k requires 0 <= k < |row| => Cell(row[k]))
  }

  function RowText(row: seq<string>): string {
    Join(Cells(row), ",")
  }

  /** Every row, ended by CRLF. */
  function RowsText(rows: seq<seq<string>>): string {
    if rows == [] then "" else RowText(rows[0]) + "\r\n" + RowsText(rows[1..])
  }

  // ---- What the parser reads from a remaining text ----

  /** What was read, and the text after it. */
  datatype Read<T> = Read(value: T, rest: string)

  /** The text up to the closing quote, or to the end when there is none, and what follows. */
  function Quoted(t: string): (r: Read<string>)
    ensures |r.rest| <= |t|
  {
    if t == "" then Read("", "")
    else if t[0] != '"' then
      var r := Quoted(t[1..]);
      Read([t[0]] + r.value, r.rest)
    else if |t| > 1 && t[1] == '"' then
      var r := Quoted(t[2..]);
      Read(['"'] + r.value, r.rest)
    else Read("", t[1..])
  }

  predicate EndsField(c: char) {
    c == ',' || c == '\n' || c == '\r'
  }

  function Plain(t: string): (r: Read<string>)
    ensures |r.rest| <= |t|
  {
    if t == "" || EndsField(t[0]) then Read("", t)
    else
      var r := Plain(t[1..]);
      Read([t[0]] + r.value, r.rest)
  }

  function FieldOf(t: string): (r: Read<string>)
    ensures |r.rest| <= |t|
  {
    if t != "" && t[0] == '"' then Quoted(t[1..]) else Plain(t)
  }

  function RowOf(t: string): (r: Read<seq<string>>)
    ensures |r.rest| <= |t|
    decreases |t|
  {
    var f := FieldOf(t);
    if f.rest != "" && f.rest[0] == ',' then
      var r := RowOf(f.rest[1..]);
      Read([f.value] + r.value, r.rest)
    else Read([f.value], f.rest)
  }

  function SkipOne(t: string, c: char): (r: string)
    ensures |r| <= |t|
  {
    if t != "" && t[0] == c then t[1..] else t
  }

  function SkipEnd(t: string): (r: string)
    ensures |r| <= |t|
  {
    SkipOne(SkipOne(t, '\r'), '\n')
  }

  /** A row and its line end take at least one character of a text that has one. */
  lemma {:induction false} RowAdvances(t: string)
    requires t != ""
    ensures |SkipEnd(RowOf(t).rest)| < |t|
  {
    if t[0] == '\n' || t[0] == '\r' {
      assert FieldOf(t) == Read("", t);
    } else if t[0] != '"' && t[0] != ',' {
      assert FieldOf(t).rest == Plain(t[1..]).rest;
    }
  }

  /** All rows; as every row takes something, the parser ends on every text. */
  function Rows(t: string): seq<seq<string>>
    decreases |t|
  {
    if t == "" then []
    else
      RowAdvances(t);
      [RowOf(t).value] + Rows(SkipEnd(RowOf(t).rest))
  }

  // ---- Round trip ----

  lemma {:induction false} QuotedBack(s: string, rest: string)
    requires rest == "" || rest[0] != '"'
    ensures Quoted(Doubled(s) + "\"" + rest) == Read(s, rest)
  {
    var t := Doubled(s) + "\"" + rest;
    if s == "" {
      assert t == "\"" + rest;
    } else {
      QuotedBack(s[1..], rest);
      var tail := Doubled(s[1..]) + "\"" + rest;
      if s[0] == '"' {
        assert t == "\"\"" + tail && t[2..] == tail;
      } else {
        assert t == [s[0]] + tail && t[1..] == tail;
      }
      assert s == [s[0]] + s[1..];
    }
  }

  lemma {:induction false} PlainBack(s: string, rest: string)
    requires forall c :: c in s ==> !EndsField(c)
    requires rest == "" || EndsField(rest[0])
    ensures Plain(s + rest) == Read(s, rest)
  {
    if s == "" {
      assert s + rest == rest;
    } else {
      PlainBack(s[1..], rest);
      assert (s + rest)[1..] == s[1..] + rest;
      assert s == [s[0]] + s[1..];
    }
  }

  /** A written cell followed by a separator or the end of the text reads as the string it was written from. */
  lemma CellBack(s: string, rest: string)
    requires rest == "" || EndsField(rest[0])
    ensures FieldOf(Cell(s) + rest) == Read(s, rest)
  {
    hide Quoted, Plain, Doubled, EndsField;
    SeparatorIsNoQuote(rest);
    if NeedsQuotes(s) {
      QuotedBack(s, rest);
      var t := Doubled(s) + "\"" + rest;
      assert Cell(s) + rest == ['"'] + t;
      assert (['"'] + t)[1..] == t;
    } else {
      NotQuoted(s);
      PlainBack(s, rest);
      if s == "" {
        assert s + rest == rest;
      }
    }
  }

  lemma NotQuoted(s: string)
    requires !NeedsQuotes(s)
    ensures forall c :: c in s ==> !EndsField(c)
    ensures s != "" ==> s[0] != '"'
  {
    assert s != "" ==> s[0] in s;
  }

  lemma SeparatorIsNoQuote(rest: string)
    requires rest == "" || EndsField(rest[0])
    ensures rest != "" ==> rest[0] != '"'
  {
  }

  lemma {:induction false} RowBack(row: seq<string>, rest: string)
    requires row != [] && (rest == "" || rest[0] == '\r' || rest[0] == '\n')
    ensures RowOf(RowText(row) + rest) == Read(row, rest)
    decreases |row|
  {
    hide Cell, FieldOf;
    if |row| == 1 {
      CellBack(row[0], rest);
      assert row == [row[0]];
    } else {
      var tail := RowText(row[1..]);
      assert Cells(row)[1..] == Cells(row[1..]);
      assert RowText(row) + rest == Cell(row[0]) + ("," + (tail + rest));
      CellBack(row[0], "," + (tail + rest));
      RowBack(row[1..], rest);
      assert ("," + (tail + rest))[1..] == tail + rest;
      assert row == [row[0]] + row[1..];
    }
  }

  /** Parsing what was written gives the same rows, for every list of rows with at least one cell each. */
  lemma {:induction false} RowsBack(rows: seq<seq<string>>)
    requires forall k :: 0 <= k < |rows| ==> rows[k] != []
    ensures Rows(RowsText(rows)) == rows
  {
    if rows != [] {
      hide RowOf, RowText, SkipEnd;
      var more := RowsText(rows[1..]);
      var t := RowText(rows[0]) + ("\r\n" + more);
      assert RowsText(rows) == t;
      RowBack(rows[0], "\r\n" + more);
      EndSkipped(more);
      RowsBack(rows[1..]);
    }
  }

  lemma EndSkipped(more: string)
    ensures SkipEnd("\r\n" + more) == more
  {
    assert SkipOne("\r\n" + more, '\r') == "\n" + more;
  }

  lemma {:induction false} NoEmptyRows(t: string)
    ensures forall k :: 0 <= k < |Rows(t)| ==> Rows(t)[k] != []
    decreases |t|
  {
    hide SkipEnd;
    if t != "" {
      RowAdvances(t);
      NoEmptyRows(SkipEnd(RowOf(t).rest));
    }
  }

  /** Exactly the lists without an empty row come back: an empty row is an empty line, and reads as one empty cell. */
  lemma {:induction false} RoundTripIff(rows: seq<seq<string>>)
    ensures Rows(RowsText(rows)) == rows <==> forall k :: 0 <= k < |rows| ==> rows[k] != []
  {
    hide Rows, RowsText;
    NoEmptyRows(RowsText(rows));
    if forall k :: 0 <= k < |rows| ==> rows[k] != [] {
      RowsBack(rows);
    }
  }

  // ---- The parser, with its cursor ----

  class Parser {
    const text: string
    var i: nat

    constructor (text: string)
      ensures this.text == text && i == 0
    {
      this.text, i := text, 0;
    }

    ghost predicate Valid()
      reads this
    {
      i <= |text|
    }

    method ParseField() returns (field: string)
      requires Valid()
      modifies this
      ensures Valid() && i >= old(i)
      ensures FieldOf(text[old(i)..]).value == field && FieldOf(text[old(i)..]).rest == text[i..]
    {
      if i >= |text| || text[i] == '\n' || text[i] == '\r' {
        return "";
      }
      if text[i] == '"' {
        i := i + 1;
        assert text[old(i)..][1..] == text[i..];
        field := ParseQuoted();
      } else {
        field := ParsePlain();
      }
    }

    method ParseQuoted() returns (field: string)
      requires Valid()
      modifies this
      ensures Valid() && i >= old(i)
      ensures Quoted(text[old(i)..]).value == field && Quoted(text[old(i)..]).rest == text[i..]
    {
      hide Quoted;
      field := "";
      QuotedNext("");
      while i < |text|
        invariant old(i) <= i <= |text|
        invariant Quoted(text[old(i)..]).value == field + Quoted(text[i..]).value
        invariant Quoted(text[old(i)..]).rest == Quoted(text[i..]).rest
      {
        ghost var now := i;
        DropOfDrop(text, i, 1);
        QuotedNext(text[i..]);
        if text[i] == '"' {
          if i + 1 < |text| && text[i + 1] == '"' {
            DropOfDrop(text, i, 2);
            field := field + ['"'];
            i := i + 2;
          } else {
            i := i + 1;
            assert Quoted(text[now..]) == Read("", text[i..]);
            break;
          }
        } else {
          field := field + [text[i]];
          i := i + 1;
        }
      }
    }

    method ParsePlain() returns (field: string)
      requires Valid()
      modifies this
      ensures Valid() && i >= old(i)
      ensures Plain(text[old(i)..]).value == field && Plain(text[old(i)..]).rest == text[i..]
    {
      hide Plain;
      field := "";
      while i < |text| && text[i] != ',' && text[i] != '\n' && text[i] != '\r'
        invariant old(i) <= i <= |text|
        invariant Plain(text[old(i)..]).value == field + Plain(text[i..]).value
        invariant Plain(text[old(i)..]).rest == Plain(text[i..]).rest
      {
        DropOfDrop(text, i, 1);
        PlainNext(text[i..]);
        field := field + [text[i]];
        i := i + 1;
      }
      PlainNext(text[i..]);
    }

    method ParseRow() returns (row: seq<string>)
      requires Valid()
      modifies this
      ensures Valid() && i >= old(i)
      ensures RowOf(text[old(i)..]).value == row && RowOf(text[old(i)..]).rest == text[i..]
    {
      hide FieldOf, RowOf;
      row := [];
      while true
        invariant old(i) <= i <= |text|
        invariant RowOf(text[old(i)..]).value == row + RowOf(text[i..]).value
        invariant RowOf(text[old(i)..]).rest == RowOf(text[i..]).rest
        decreases |text| - i
      {
        ghost var start := i;
        RowNext(text[start..]);
        var field := ParseField();
        row := row + [field];
        if i < |text| && text[i] == ',' {
          assert text[i..][1..] == text[i + 1..];
          i := i + 1;
        } else {
          assert RowOf(text[start..]) == Read([field], text[i..]);
          break;
        }
      }
    }

    method SkipLineEnd()
      requires Valid()
      modifies this
      ensures Valid() && i >= old(i)
      ensures text[i..] == SkipEnd(text[old(i)..])
    {
      if i < |text| && text[i] == '\r' {
        assert text[i..][1..] == text[i + 1..];
        i := i + 1;
      }
      if i < |text| && text[i] == '\n' {
        assert text[i..][1..] == text[i + 1..];
        i := i + 1;
      }
    }

    /** The whole text; each turn of the loop moves the cursor on. */
    method ParseAll() returns (rows: seq<seq<string>>)
      requires i == 0
      modifies this
      ensures rows == Rows(text)
    {
      hide RowOf, SkipEnd;
      rows := [];
      assert text[0..] == text;
      while i < |text|
        invariant i <= |text|
        invariant Rows(text) == rows + Rows(text[i..])
        decreases |text| - i
      {
        RowAdvances(text[i..]);
        var row := ParseRow();
        SkipLineEnd();
        rows := rows + [row];
      }
    }
  }

  /** One step of reading a row. */
  lemma RowNext(t: string)
    ensures var f := FieldOf(t);
            if f.rest != "" && f.rest[0] == ',' then
              RowOf(t).value == [f.value] + RowOf(f.rest[1..]).value && RowOf(t).rest == RowOf(f.rest[1..]).rest
            else RowOf(t) == Read([f.value], f.rest)
  {
    hide FieldOf;
  }

  /** One step of reading a quoted field. */
  lemma {:induction false} PlainNext(t: string)
    ensures t == "" || EndsField(t[0]) ==> Plain(t) == Read("", t)
    ensures t != "" && !EndsField(t[0]) ==> Plain(t).value == [t[0]] + Plain(t[1..]).value && Plain(t).rest == Plain(t[1..]).rest
  {
  }

  lemma {:induction false} QuotedNext(t: string)
    ensures t == "" ==> Quoted(t) == Read("", "")
    ensures t != "" && t[0] != '"' ==> Quoted(t).value == [t[0]] + Quoted(t[1..]).value && Quoted(t).rest == Quoted(t[1..]).rest
    ensures |t| > 1 && t[0] == '"' && t[1] == '"' ==> Quoted(t).value == ['"'] + Quoted(t[2..]).value && Quoted(t).rest == Quoted(t[2..]).rest
    ensures t != "" && t[0] == '"' && !(|t| > 1 && t[1] == '"') ==> Quoted(t) == Read("", t[1..])
  {
  }

  method ParseCsv(text: string) returns (rows: seq<seq<string>>)
    ensures rows == Rows(text)
  {
    var parser := new Parser(text);
    rows := parser.ParseAll();
  }

  // ---- Items as rows, and back ----

  const HEADER := ["type", "title", "username", "password", "url", "notes", "totp", "tags"]

  function FirstText(s: string, other: string): string {
    if s == "" then other else s
  }

  /** Extra and custom fields with something in them, as lines of the notes. */
  function ExtraLines(fields: seq<Field>): seq<string> {
    if fields == [] then []
    else (if fields[0].value != "" then [fields[0].key + ": " + fields[0].value] else []) + ExtraLines(fields[1..])
  }

  function CustomLines(fields: seq<CustomField>): seq<string> {
    if fields == [] then []
    else
      var f := fields[0];
      (if f.name != "" || f.value != "" then [FirstText(f.name, "Field") + ": " + f.value] else []) + CustomLines(fields[1..])
  }

  function NotesOf(d: Item): string {
    var extras := ExtraLines(ExtraFields(d)) + CustomLines(d.custom);
    if extras == [] then d.notes
    else if d.notes == "" then Join(extras, "\n")
    else d.notes + "\n" + Join(extras, "\n")
  }

  function ItemRow(d: Item): (row: seq<string>)
    ensures |row| == 8
  {
    [FirstText(d.kind, "login"), d.title, d.username, d.password, d.url, NotesOf(d), d.totp, Join(d.tags, ";")]
  }

  function ItemRows(items: seq<Item>): (rows: seq<seq<string>>)
    ensures |rows| == |items| && forall k :: 0 <= k < |rows| ==> rows[k] == ItemRow(items[k])
  {
    seq(|items|, k requires 0 <= k < |items| => ItemRow(items[k]))
  }

  const BOM := "\U{FEFF}"

  /** Builds the file: a byte order mark, the header and one row for every item, joined and ended by CRLF. */
  method BuildCsv(items: seq<Item>) returns (text: string)
    ensures text == BOM + RowsText([HEADER] + ItemRows(items))
  {
    hide RowText, ItemRow, RowsText, Join;
    ghost var all := [HEADER] + ItemRows(items);
    var rows := [Join(HEADER, ",")];
    HeaderText();
    for k := 0 to |items|
      invariant |rows| == k + 1 && forall j :: 0 <= j <= k ==> rows[j] == RowText(all[j])
    {
      assert all[k + 1] == ItemRow(items[k]);
      rows := rows + [RowText(ItemRow(items[k]))];
    }
    Joined(all, rows);
    text := BOM + Join(rows, "\r\n") + "\r\n";
  }

  lemma {:induction false} PlainHeader(row: seq<string>)
    requires forall k :: 0 <= k < |row| ==> !NeedsQuotes(row[k])
    ensures Cells(row) == row
  {
  }

  lemma {:induction false} Joined(rows: seq<seq<string>>, texts: seq<string>)
    requires |texts| == |rows| > 0 && forall k :: 0 <= k < |rows| ==> texts[k] == RowText(rows[k])
    ensures Join(texts, "\r\n") + "\r\n" == RowsText(rows)
  {
    hide RowText;
    if |rows| > 1 {
      Joined(rows[1..], texts[1..]);
    } else {
      assert RowsText(rows[1..]) == "";
    }
  }

  /** The mark becomes part of the first cell of the header; the rows of the items come back as written. */
  lemma ExportParses(items: seq<Item>)
    ensures Rows(BOM + RowsText([HEADER] + ItemRows(items))) == [HEADER[0 := BOM + "type"]] + ItemRows(items)
  {
    hide Rows, ItemRow, RowText;
    var marked := [HEADER[0 := BOM + "type"]] + ItemRows(items);
    MarkedHeader();
    assert marked[1..] == ([HEADER] + ItemRows(items))[1..];
    assert BOM + RowsText([HEADER] + ItemRows(items)) == RowsText(marked);
    RowsBack(marked);
  }

  lemma NoSpecials(s: string)
    requires forall k :: 0 <= k < |s| ==> s[k] != '"' && s[k] != ',' && s[k] != '\n' && s[k] != '\r'
    ensures !NeedsQuotes(s)
  {
  }

  lemma HeaderIsPlain()
    ensures forall k :: 0 <= k < |HEADER| ==> !NeedsQuotes(HEADER[k])
    ensures !NeedsQuotes(BOM + "type")
  {
    hide NeedsQuotes;
    NoSpecials("type");
    NoSpecials("title");
    NoSpecials("username");
    NoSpecials("password");
    NoSpecials("url");
    NoSpecials("notes");
    NoSpecials("totp");
    NoSpecials("tags");
    NoSpecials(BOM + "type");
  }

  lemma HeaderText()
    ensures RowText(HEADER) == Join(HEADER, ",")
  {
    hide NeedsQuotes, Join, Cells;
    HeaderIsPlain();
    PlainHeader(HEADER);
  }

  lemma MarkedHeader()
    ensures RowText(HEADER[0 := BOM + "type"]) == BOM + RowText(HEADER)
  {
    hide NeedsQuotes, Cells, Join;
    HeaderIsPlain();
    HeaderText();
    var marked := HEADER[0 := BOM + "type"];
    PlainHeader(marked);
    assert marked == [BOM + "type"] + HEADER[1..] && HEADER == ["type"] + HEADER[1..];
    JoinMarked(BOM, "type", HEADER[1..]);
  }

  lemma JoinMarked(mark: string, first: string, rest: seq<string>)
    ensures Join([mark + first] + rest, ",") == mark + Join([first] + rest, ",")
  {
    if rest == [] {
      assert [mark + first] + rest == [mark + first] && [first] + rest == [first];
    } else {
      assert ([mark + first] + rest)[1..] == rest && ([first] + rest)[1..] == rest;
      assert mark + first + "," + Join(rest, ",") == mark + (first + "," + Join(rest, ","));
    }
  }
}
