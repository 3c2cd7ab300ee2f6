/**
 * The mapping of CSV rows to items (web/import.js), and what an exported file imports as.
 */
module CsvImport {
  import opened Strings
  import opened Wrappers
  import opened VaultItem
  import opened Csv

  /** An imported item; an empty string stands for a missing property. */
  datatype Imported = Imported(title: string, username: string, password: string, url: string, notes: string, totp: string)

  datatype Mapped = Items(items: seq<Imported>) | MissingTitle

  /** toLowerCase, and the secret of an otpauth link (empty for none): not part of this model. */
  datatype Library = Library(lower: string -> string, otpSecret: string -> string)

  /** Words that are lower case already stay as they are. */
  ghost predicate Lawful(lib: Library) {
    && (forall h :: h in HEADER ==> lib.lower(h) == h)
    && lib.lower("document") == "document"
  }

  const KNOWN_HEADERS := ["title", "username", "password", "url", "website", "notes", "otpauth", "type"]

  /** Column numbers, -1 for a column that is not there. */
  datatype Columns = Columns(title: int, username: int, password: int, url: int, notes: int, otp: int, kind: int)

  const ONE_PASSWORD := Columns(3, 6, 2, 5, 1, 0, 4)

  function Lowered(lib: Library, row: seq<string>): (r: seq<string>)
    ensures |r| == |row| && forall k :: 0 <= k < |r| ==> r[k] == lib.lower(Trim(row[k]))
  {
    seq(|row|, k requires 0 <= k < |row| => lib.lower(Trim(row[k])))
  }

  function KnownCount(headers: seq<string>): nat {
    if headers == [] then 0 else (if headers[0] in KNOWN_HEADERS then 1 else 0) + KnownCount(headers[1..])
  }

  predicate HasHeaders(lib: Library, first: seq<string>) {
    KnownCount(Lowered(lib, first)) >= 2
  }

  function Max(a: int, b: int): int {
    if a >= b then a else b
  }

  function ColumnsOf(headers: seq<string>): Columns {
    Columns(IndexOf(headers, "title"), Max(IndexOf(headers, "username"), IndexOf(headers, "email")),
      IndexOf(headers, "password"), Max(IndexOf(headers, "website"), IndexOf(headers, "url")),
      IndexOf(headers, "notes"), IndexOf(headers, "otpauth"), IndexOf(headers, "type"))
  }

  function At(row: seq<string>, column: int): string {
    if 0 <= column < |row| then row[column] else ""
  }

  /** One row: nothing for a document or a row without a title. */
  function RowItem(lib: Library, c: Columns, row: seq<string>): Option<Imported> {
    if c.kind >= 0 && lib.lower(Trim(At(row, c.kind))) == "document" then None
    else if Trim(At(row, c.title)) == "" then None
    else
      Some(Imported(Trim(At(row, c.title)), Trim(At(row, c.username)), Trim(At(row, c.password)), Trim(At(row, c.url)),
        Trim(At(row, c.notes)), if At(row, c.otp) == "" then "" else lib.otpSecret(Trim(At(row, c.otp)))))
  }

  function RowItems(lib: Library, c: Columns, rows: seq<seq<string>>): seq<Imported> {
    if rows == [] then []
    else
      var rest := RowItems(lib, c, rows[..|rows| - 1]);
      match RowItem(lib, c, rows[|rows| - 1])
      case None => rest
      case Some(item) => rest + [item]
  }

  function Imports(lib: Library, rows: seq<seq<string>>): Mapped {
    if rows == [] then Items([])
    else if !HasHeaders(lib, rows[0]) then Items(RowItems(lib, ONE_PASSWORD, rows))
    else if |rows| < 2 then Items([])
    else
      var c := ColumnsOf(Lowered(lib, rows[0]));
      if c.title == -1 then MissingTitle else Items(RowItems(lib, c, rows[1..]))
  }

  /** The loop over the rows, with its continue statements. */
  method MapRows(lib: Library, c: Columns, rows: seq<seq<string>>) returns (items: seq<Imported>)
    ensures items == RowItems(lib, c, rows)
  {
    items := [];
    for r := 0 to |rows|
      invariant items == RowItems(lib, c, rows[..r])
    {
      assert rows[..r + 1][..r] == rows[..r];
      var row := rows[r];
      if c.kind >= 0 && lib.lower(Trim(At(row, c.kind))) == "document" {
        continue;
      }
      var title := Trim(At(row, c.title));
      if title == "" {
        continue;
      }
      var item := Imported(title, "", "", "", "", "");
      if c.username >= 0 && At(row, c.username) != "" {
        item := item.(username := Trim(At(row, c.username)));
      }
      if c.password >= 0 && At(row, c.password) != "" {
        item := item.(password := Trim(At(row, c.password)));
      }
      if c.url >= 0 && At(row, c.url) != "" {
        item := item.(url := Trim(At(row, c.url)));
      }
      if c.notes >= 0 && At(row, c.notes) != "" {
        item := item.(notes := Trim(At(row, c.notes)));
      }
      if c.otp >= 0 && At(row, c.otp) != "" {
        item := item.(totp := lib.otpSecret(Trim(At(row, c.otp))));
      }
      items := items + [item];
    }
    assert rows[..|rows|] == rows;
  }

  method MapCsvToItems(lib: Library, rows: seq<seq<string>>) returns (r: Mapped)
    ensures r == Imports(lib, rows)
  {
    hide RowItems, ColumnsOf, HasHeaders;
    if |rows| == 0 {
      return Items([]);
    }
    if HasHeaders(lib, rows[0]) {
      if |rows| < 2 {
        return Items([]);
      }
      var c := ColumnsOf(Lowered(lib, rows[0]));
      if c.title == -1 {
        return MissingTitle;
      }
      var items := MapRows(lib, c, rows[1..]);
      return Items(items);
    }
    var items := MapRows(lib, ONE_PASSWORD, rows);
    r := Items(items);
  }

  // ---- Files without a header ----

  /** A login as 1Password exports it: seven cells in the alphabetical order of their names. */
  datatype Login = Login(otpauth: string, notes: string, password: string, title: string, kind: string, url: string, username: string)

  function Sevens(logins: seq<Login>): seq<seq<string>> {
    if logins == [] then []
    else
      var l := logins[|logins| - 1];
      Sevens(logins[..|logins| - 1]) + [[l.otpauth, l.notes, l.password, l.title, l.kind, l.url, l.username]]
  }

  predicate IsLogin(lib: Library, l: Login) {
    Trim(l.title) != "" && lib.lower(Trim(l.kind)) != "document"
  }

  /** The titled logins among them, trimmed, with the secret of the one-time password link. */
  function Logins(lib: Library, logins: seq<Login>): seq<Imported> {
    if logins == [] then []
    else
      var l := logins[|logins| - 1];
      Logins(lib, logins[..|logins| - 1]) +
      if !IsLogin(lib, l) then []
      else
        [Imported(Trim(l.title), Trim(l.username), Trim(l.password), Trim(l.url), Trim(l.notes),
           if l.otpauth == "" then "" else lib.otpSecret(Trim(l.otpauth)))]
  }

  lemma {:induction false} SevensMapped(lib: Library, logins: seq<Login>)
    ensures RowItems(lib, ONE_PASSWORD, Sevens(logins)) == Logins(lib, logins)
  {
    hide Trim;
    if logins != [] {
      var n := |logins| - 1;
      var rows := Sevens(logins);
      assert rows[..|rows| - 1] == Sevens(logins[..n]);
      SevensMapped(lib, logins[..n]);
    }
  }

  /** Rows of seven cells of which the first is not a header import as the logins they were written from. */
  lemma HeaderlessImport(lib: Library, logins: seq<Login>)
    requires logins != [] && !HasHeaders(lib, Sevens(logins)[0])
    ensures Imports(lib, Sevens(logins)) == Items(Logins(lib, logins))
  {
    hide RowItems, HasHeaders, ColumnsOf;
    SevensMapped(lib, logins);
  }

  // ---- Importing an export ----

  /** What is left of an item: text without white space around it, no one-time password, no type and no tags. */
  function Reimported(lib: Library, d: Item): Option<Imported> {
    if lib.lower(Trim(FirstText(d.kind, "login"))) == "document" || Trim(d.title) == "" then None
    else Some(Imported(Trim(d.title), Trim(d.username), Trim(d.password), Trim(d.url), Trim(NotesOf(d)), ""))
  }

  function AllReimported(lib: Library, items: seq<Item>): seq<Imported> {
    if items == [] then []
    else
      var rest := AllReimported(lib, items[..|items| - 1]);
      match Reimported(lib, items[|items| - 1])
      case None => rest
      case Some(item) => rest + [item]
  }

  /** The header of an export is recognized in spite of the byte order mark, and names every column but otpauth. */
  lemma ExportHeader(lib: Library)
    requires Lawful(lib)
    ensures Lowered(lib, HEADER[0 := BOM + "type"]) == HEADER
    ensures HasHeaders(lib, HEADER[0 := BOM + "type"])
    ensures ColumnsOf(HEADER) == Columns(1, 2, 3, 4, 5, -1, 0)
  {
    TrimmedHeader();
    assert Lowered(lib, HEADER[0 := BOM + "type"]) == HEADER;
    KnownHeader();
    FoundColumns();
  }

  lemma TrimmedHeader()
    ensures Trim(BOM + "type") == "type"
    ensures forall k :: 0 <= k < |HEADER| ==> Trim(HEADER[k]) == HEADER[k]
  {
    assert (BOM + "type")[1..] == "type";
    assert IsSpace(BOM[0]);
    TrimmedStays("type");
    forall k | 0 <= k < |HEADER| ensures Trim(HEADER[k]) == HEADER[k] {
      TrimmedStays(HEADER[k]);
    }
  }

  lemma KnownHeader()
    ensures KnownCount(HEADER) >= 2
  {
    assert HEADER[0] == "type" && HEADER[1..][0] == "title";
    assert "type" == KNOWN_HEADERS[7] && "title" == KNOWN_HEADERS[0];
  }

  lemma {:induction false} Found(x: string, i: nat)
    requires i < |HEADER| && HEADER[i] == x && x !in HEADER[..i]
    ensures IndexOf(HEADER, x) == i
  {
    var j := IndexOf(HEADER, x);
    assert forall k :: 0 <= k < i ==> HEADER[k] == HEADER[..i][k];
    assert j >= 0 ==> forall k :: 0 <= k < j ==> HEADER[k] == HEADER[..j][k];
  }

  lemma FoundColumns()
    ensures ColumnsOf(HEADER) == Columns(1, 2, 3, 4, 5, -1, 0)
  {
    hide IndexOf;
    Found("type", 0);
    Found("title", 1);
    Found("username", 2);
    Found("password", 3);
    Found("url", 4);
    Found("notes", 5);
    assert "email" !in HEADER && "website" !in HEADER && "otpauth" !in HEADER;
  }

  lemma {:induction false} RowsReimported(lib: Library, items: seq<Item>)
    ensures RowItems(lib, Columns(1, 2, 3, 4, 5, -1, 0), ItemRows(items)) == AllReimported(lib, items)
  {
    hide NotesOf, ItemRow, RowItem, Reimported;
    if items != [] {
      var n := |items| - 1;
      assert ItemRows(items)[..n] == ItemRows(items[..n]);
      RowsReimported(lib, items[..n]);
      assert ItemRows(items)[n] == ItemRow(items[n]);
      RowReimported(lib, items[n]);
    }
  }

  lemma RowReimported(lib: Library, d: Item)
    ensures RowItem(lib, Columns(1, 2, 3, 4, 5, -1, 0), ItemRow(d)) == Reimported(lib, d)
  {
    hide NotesOf, Trim, Join;
  }

  /** Importing an exported file gives, for every titled item, its login fields and its folded notes, trimmed. */
  lemma {:induction false} ImportOfExport(lib: Library, items: seq<Item>)
    requires Lawful(lib)
    ensures Imports(lib, Rows(BOM + RowsText([HEADER] + ItemRows(items)))) == Items(AllReimported(lib, items))
  {
    hide Rows, RowItems, RowsText, HasHeaders, ColumnsOf, ItemRow;
    ExportParses(items);
    ExportHeader(lib);
    RowsReimported(lib, items);
    var rows := [HEADER[0 := BOM + "type"]] + ItemRows(items);
    assert rows[1..] == ItemRows(items);
    if items == [] {
      assert AllReimported(lib, items) == [];
    }
  }

  // ---- Which items an import gives back ----

  /** The properties of an item that an imported one can have. */
  function LoginPart(d: Item): Imported {
    Imported(d.title, d.username, d.password, d.url, d.notes, d.totp)
  }

  function LoginParts(items: seq<Item>): (r: seq<Imported>)
    ensures |r| == |items| && forall k :: 0 <= k < |r| ==> r[k] == LoginPart(items[k])
  {
    seq(|items|, k requires 0 <= k < |items| => LoginPart(items[k]))
  }

  /** All but the last condition below: a titled item that is no document, without outer white space and without lines to fold into the notes. */
  predicate PortableText(lib: Library, d: Item) {
    && lib.lower(Trim(FirstText(d.kind, "login"))) != "document"
    && d.title != "" && Trimmed(d.title) && Trimmed(d.username) && Trimmed(d.password) && Trimmed(d.url) && Trimmed(d.notes)
    && ExtraLines(ExtraFields(d)) == [] && CustomLines(d.custom) == []
  }

  /** An item that survives export and import. */
  predicate Portable(lib: Library, d: Item) {
    PortableText(lib, d) && d.totp == ""
  }

  function Colons(s: string): nat {
    multiset(s)[':']
  }

  lemma ColonsOfSum(s: string, t: string)
    ensures Colons(s + t) == Colons(s) + Colons(t)
  {
  }

  lemma ColonsInside(s: string)
    requires ':' in s
    ensures Colons(s) > 0
  {
  }

  lemma {:induction false} ColonsOfTrimStart(s: string)
    ensures Colons(TrimStart(s)) == Colons(s)
  {
    if s != "" && IsSpace(s[0]) {
      ColonsOfTrimStart(s[1..]);
      assert s == [s[0]] + s[1..];
      ColonsOfSum([s[0]], s[1..]);
    }
  }

  lemma {:induction false} ColonsOfTrimEnd(s: string)
    ensures Colons(TrimEnd(s)) == Colons(s)
  {
    if s != "" && IsSpace(s[|s| - 1]) {
      var n := |s| - 1;
      ColonsOfTrimEnd(s[..n]);
      assert s == s[..n] + [s[n]];
      ColonsOfSum(s[..n], [s[n]]);
    }
  }

  lemma {:induction false} ExtraHasColon(fields: seq<Field>)
    requires ExtraLines(fields) != []
    ensures ':' in ExtraLines(fields)[0]
  {
    if fields[0].value != "" {
      var key, value := fields[0].key, fields[0].value;
      assert (key + ": " + value)[|key|] == ':';
    } else {
      ExtraHasColon(fields[1..]);
    }
  }

  lemma {:induction false} CustomHasColon(fields: seq<CustomField>)
    requires CustomLines(fields) != []
    ensures ':' in CustomLines(fields)[0]
  {
    if fields[0].name != "" || fields[0].value != "" {
      var key, value := FirstText(fields[0].name, "Field"), fields[0].value;
      assert (key + ": " + value)[|key|] == ':';
    } else {
      CustomHasColon(fields[1..]);
    }
  }

  lemma {:induction false} FoldedHasColon(extras: seq<string>)
    requires extras != [] && ':' in extras[0]
    ensures Colons(Join(extras, "\n")) > 0
  {
    var s := Join(extras, "\n");
    assert extras[0] <= s;
    assert ':' in s by {
      var k :| 0 <= k < |extras[0]| && extras[0][k] == ':';
      assert s[k] == ':';
    }
    ColonsInside(s);
  }

  /** A folded line shows: it brings a colon that the notes did not have, and that is never trimmed away. */
  lemma {:induction false} NotesExact(d: Item)
    ensures Trim(NotesOf(d)) == d.notes <==>
              Trimmed(d.notes) && ExtraLines(ExtraFields(d)) == [] && CustomLines(d.custom) == []
  {
    hide ExtraLines, CustomLines, ExtraFields, IsSpace, Colons, Trimmed;
    var a, b := ExtraLines(ExtraFields(d)), CustomLines(d.custom);
    var folded := Join(a + b, "\n");
    if a + b == [] {
      assert a == [] && b == [];
      TrimExact(d.notes);
    } else {
      if a != [] {
        ExtraHasColon(ExtraFields(d));
        assert (a + b)[0] == a[0];
      } else {
        assert a + b == b;
        CustomHasColon(d.custom);
      }
      FoldedHasColon(a + b);
      hide Join;
      ColonsOfTrimStart(NotesOf(d));
      ColonsOfTrimEnd(TrimStart(NotesOf(d)));
      NotesSplit(d.notes, folded);
      assert Colons(Trim(NotesOf(d))) > Colons(d.notes);
    }
  }

  lemma NotesSplit(notes: string, folded: string)
    ensures Colons(notes + "\n" + folded) >= Colons(notes) + Colons(folded)
    ensures notes == "" ==> Colons(notes) == 0
  {
    hide Colons;
    ColonsOfSum(notes + "\n", folded);
    ColonsOfSum(notes, "\n");
    ColonsOfSum("", "");
    assert "" + "" == "";
  }

  /** Exactly which items come back with their login properties. */
  lemma ReimportedIff(lib: Library, d: Item)
    ensures Reimported(lib, d) == Some(LoginPart(d)) <==> Portable(lib, d)
  {
    hide Trim, Trimmed, NotesOf, ExtraLines, CustomLines, ExtraFields;
    TrimExact(d.title);
    TrimExact(d.username);
    TrimExact(d.password);
    TrimExact(d.url);
    NotesExact(d);
  }

  lemma {:induction false} AllReimportedShort(lib: Library, items: seq<Item>)
    ensures |AllReimported(lib, items)| <= |items|
  {
    if items != [] {
      AllReimportedShort(lib, items[..|items| - 1]);
    }
  }

  lemma {:induction false} AllReimportedIff(lib: Library, items: seq<Item>)
    ensures AllReimported(lib, items) == LoginParts(items) <==> forall k :: 0 <= k < |items| ==> Portable(lib, items[k])
  {
    hide Reimported, Portable;
    if items != [] {
      var n := |items| - 1;
      var init, d := items[..n], items[n];
      var rest := AllReimported(lib, init);
      AllReimportedIff(lib, init);
      AllReimportedShort(lib, init);
      ReimportedIff(lib, d);
      assert LoginParts(items) == LoginParts(init) + [LoginPart(d)];
      assert forall k :: 0 <= k < n ==> init[k] == items[k];
      if AllReimported(lib, items) == LoginParts(items) {
        assert Reimported(lib, d).Some?;
        assert rest == AllReimported(lib, items)[..n] == LoginParts(init);
        assert AllReimported(lib, items)[n] == LoginPart(d);
      }
    } else {
      assert LoginParts(items) == [];
    }
  }

  /** Importing an exported file gives back every item if and only if every item is portable. */
  lemma ImportOfExportIff(lib: Library, items: seq<Item>)
    requires Lawful(lib)
    ensures Imports(lib, Rows(BOM + RowsText([HEADER] + ItemRows(items)))) == Items(LoginParts(items))
       <==> forall k :: 0 <= k < |items| ==> Portable(lib, items[k])
  {
    hide Imports, Rows, RowsText, Portable, AllReimported;
    ImportOfExport(lib, items);
    AllReimportedIff(lib, items);
  }

  /** An item that has nothing else to lose loses its secret. */
  lemma SecretLost(lib: Library, d: Item)
    requires PortableText(lib, d)
    ensures Reimported(lib, d) == Some(LoginPart(d).(totp := ""))
  {
    hide Trim, Trimmed, NotesOf, ExtraLines, CustomLines, ExtraFields;
    TrimExact(d.title);
    TrimExact(d.username);
    TrimExact(d.password);
    TrimExact(d.url);
    NotesExact(d);
  }

  const WITH_SECRET := Item("login", "Mail", "me", "pw", "", "", "JBSWY3DP", [], [], Card("", "", "", "", "", ""), Identity("", "", "", "", ""))

  /** Such an item: the file made of it alone imports as the item without its secret. */
  lemma SecretLostInFile(lib: Library)
    requires Lawful(lib) && lib.lower("login") == "login"
    ensures PortableText(lib, WITH_SECRET) && WITH_SECRET.totp != ""
    ensures Imports(lib, Rows(BOM + RowsText([HEADER] + ItemRows([WITH_SECRET])))) == Items([LoginPart(WITH_SECRET).(totp := "")])
  {
    SecretIsPortable(lib);
    FileOfOne(lib, WITH_SECRET);
  }

  lemma SecretIsPortable(lib: Library)
    requires lib.lower("login") == "login"
    ensures PortableText(lib, WITH_SECRET) && WITH_SECRET.totp != ""
  {
    TrimmedStays("login");
    assert ExtraFields(WITH_SECRET) == [];
  }

  lemma FileOfOne(lib: Library, d: Item)
    requires Lawful(lib) && PortableText(lib, d)
    ensures Imports(lib, Rows(BOM + RowsText([HEADER] + ItemRows([d])))) == Items([LoginPart(d).(totp := "")])
  {
    hide Imports, Rows, RowsText, PortableText, Reimported, Lawful, ItemRows;
    SecretLost(lib, d);
    ImportOfExport(lib, [d]);
    OneReimported(lib, d);
  }

  lemma {:induction false} OneReimported(lib: Library, d: Item)
    requires Reimported(lib, d).Some?
    ensures AllReimported(lib, [d]) == [Reimported(lib, d).value]
  {
    hide Reimported;
    assert [d][..0] == [];
    assert AllReimported(lib, []) == [];
  }
}
