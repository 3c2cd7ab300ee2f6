/**
 * The XML of an exported database (entryXml and databaseXml of web/export.js), as the rendering of a tree.
 */
module KdbxWriter {
  import opened Bits
  import JsInt
  import opened Sequences
  import opened Strings
  import opened VaultItem
  import opened KeyStream
  import opened Xml
  import KC = KdbxContainer
  import Utf8

  /** An entry to write: times in milliseconds, 0 for none; uuid is random. */
  datatype Entry = Entry(fields: seq<Field>, tags: seq<string>, created: int, modified: int, uuid: seq<byte>)

  // ---- Times ----

  function FirstNonzero(a: int, b: int): int {
    if a == 0 then b else a
  }

  /** Seconds since the year 1, as an unsigned 64-bit number. */
  function Seconds(ms: int): nat {
    (ms / 1000 + KC.DOTNET_EPOCH_OFFSET) % JsInt.W64
  }

  function KdbxTime(p: KC.Platform, ms: int): string {
    p.btoa(KC.Le64Bytes(Seconds(ms)))
  }

  // ---- The tree ----

  function Leaf(tag: string, text: string): Doc {
    Elem(tag, false, text, [])
  }

  function Times(p: KC.Platform, created: int, modified: int): Doc {
    Elem("Times", false, "", [Leaf("CreationTime", KdbxTime(p, created)), Leaf("LastModificationTime", KdbxTime(p, modified)),
      Leaf("LastAccessTime", KdbxTime(p, modified)), Leaf("ExpiryTime", KdbxTime(p, modified)), Leaf("Expires", "False")])
  }

  /** How much of the stream a field uses. */
  function Cost(f: Field): nat {
    if f.value != "" && f.hidden then |Utf8.Encode(f.value)| else 0
  }

  function FieldDoc(s: Stream, from: nat, f: Field): Doc
    requires Usable(s)
  {
    Elem("String", false, "", [Leaf("Key", f.key),
      if f.hidden then Elem("Value", true, s.p.btoa(XorAt(s, from, Utf8.Encode(f.value))), []) else Leaf("Value", f.value)])
  }

  /** The fields that are not empty, in order, each hidden one under the next stretch of the stream. */
  function FieldDocs(s: Stream, from: nat, fields: seq<Field>): seq<Doc>
    requires Usable(s)
    decreases |fields|
  {
    if fields == [] then []
    else (if fields[0].value != "" then [FieldDoc(s, from, fields[0])] else []) + FieldDocs(s, from + Cost(fields[0]), fields[1..])
  }

  function CostOf(fields: seq<Field>): nat {
    if fields == [] then 0 else Cost(fields[0]) + CostOf(fields[1..])
  }

  function TagDocs(tags: seq<string>): seq<Doc> {
    if tags == [] then [] else [Leaf("Tags", Join(tags, ";"))]
  }

  function EntryDoc(s: Stream, from: nat, e: Entry, now: int): Doc
    requires Usable(s)
  {
    Elem("Entry", false, "", [Leaf("UUID", s.p.btoa(e.uuid))] + TagDocs(e.tags)
      + [Times(s.p, FirstNonzero(e.created, now), FirstNonzero(FirstNonzero(e.modified, e.created), now))] + FieldDocs(s, from, e.fields))
  }

  function EntryDocs(s: Stream, from: nat, entries: seq<Entry>, now: int): seq<Doc>
    requires Usable(s)
    decreases |entries|
  {
    if entries == [] then []
    else [EntryDoc(s, from, entries[0], now)] + EntryDocs(s, from + CostOf(entries[0].fields), entries[1..], now)
  }

  function MemoryProtection(): Doc {
    Elem("MemoryProtection", false, "", [Leaf("ProtectTitle", "False"), Leaf("ProtectUserName", "False"),
      Leaf("ProtectPassword", "True"), Leaf("ProtectURL", "False"), Leaf("ProtectNotes", "False")])
  }

  const GENERATOR := "S\U{00E9}samo"
  const DECLARATION := "xml version=\"1.0\"" + " encoding=\"utf-8\"" + " standalone=\"yes\"?"

  function Meta(p: KC.Platform, vaultName: string, now: int): Doc {
    Elem("Meta", false, "", [Leaf("Generator", GENERATOR), Leaf("DatabaseName", vaultName),
      Leaf("DatabaseNameChanged", KdbxTime(p, now)), MemoryProtection()])
  }

  function Group(s: Stream, vaultName: string, entries: seq<Entry>, now: int, uuid: seq<byte>): Doc
    requires Usable(s)
  {
    Elem("Group", false, "", [Leaf("UUID", s.p.btoa(uuid)), Leaf("Name", vaultName), Times(s.p, now, now)]
      + EntryDocs(s, 0, entries, now))
  }

  function Database(s: Stream, vaultName: string, entries: seq<Entry>, now: int, uuid: seq<byte>): Doc
    requires Usable(s)
  {
    Elem("KeePassFile", false, "", [Meta(s.p, vaultName, now), Elem("Root", false, "", [Group(s, vaultName, entries, now, uuid)])])
  }

  function DatabaseText(s: Stream, vaultName: string, entries: seq<Entry>, now: int, uuid: seq<byte>): string
    requires Usable(s)
  {
    "<?" + DECLARATION + ">" + Render(Database(s, vaultName, entries, now, uuid))
  }

  // ---- The text, piece by piece, as the source concatenates it ----

  /** Text that escaping leaves alone. */
  predicate Plain(s: string) {
    forall i :: 0 <= i < |s| ==> !Control(s[i]) && s[i] != '&' && s[i] != '<' && s[i] != '>' && s[i] != '"'
  }

  lemma {:induction false} PlainEscapes(s: string)
    requires Plain(s)
    ensures Escaped(s) == s && Clean(s) == s
  {
    if s != "" {
      PlainEscapes(s[1..]);
      assert s == [s[0]] + s[1..];
    }
  }

  lemma BtoaPlain(p: KC.Platform, b: seq<byte>)
    requires KC.Lawful(p)
    ensures Plain(p.btoa(b)) && Escaped(p.btoa(b)) == p.btoa(b)
  {
    forall i | 0 <= i < |p.btoa(b)| ensures !Control(p.btoa(b)[i]) && p.btoa(b)[i] != '&' {
      assert KC.Base64Char(p.btoa(b)[i]);
    }
    assert forall i :: 0 <= i < |p.btoa(b)| ==> KC.Base64Char(p.btoa(b)[i]);
    PlainEscapes(p.btoa(b));
  }

  /** A start tag, the text as it is, and the end tag. */
  function Tagged(tag: string, text: string): string {
    "<" + tag + ">" + text + "</" + tag + ">"
  }

  lemma {:induction false} RenderLeaf(tag: string, text: string)
    ensures Render(Leaf(tag, text)) == Tagged(tag, Escaped(text))
    ensures Plain(text) ==> Render(Leaf(tag, text)) == Tagged(tag, text)
  {
    if Plain(text) {
      PlainEscapes(text);
    }
    hide Escaped, Plain;
    RenderNone();
    assert Open(Leaf(tag, text)) == tag;
    assert "<" + tag + ">" + Escaped(text) + "" + "</" + tag + ">" == Tagged(tag, Escaped(text));
  }

  lemma RenderNone()
    ensures RenderAll([]) == ""
  {
  }

  lemma {:induction false} RenderInner(tag: string, ds: seq<Doc>)
    ensures Render(Elem(tag, false, "", ds)) == Tagged(tag, RenderAll(ds))
  {
    hide RenderAll;
    assert Escaped("") == "";
    assert "<" + (tag + "") + ">" + "" + RenderAll(ds) + "</" + tag + ">" == Tagged(tag, RenderAll(ds));
  }

  lemma {:induction false} RenderConcat(a: seq<Doc>, b: seq<Doc>)
    ensures RenderAll(a + b) == RenderAll(a) + RenderAll(b)
  {
    hide Render;
    if a == [] {
      assert a + b == b;
    } else {
      RenderConcat(a[1..], b);
      TailOfSum(a, b);
      Grouped(Render(a[0]), RenderAll(a[1..]), RenderAll(b));
    }
  }

  lemma {:induction false} RenderOne(d: Doc)
    ensures RenderAll([d]) == Render(d)
  {
    hide Render;
    assert [d][1..] == [];
  }

  /** The time elements, as both entries and the group have them. */
  function TimesText(created: string, modified: string): string {
    Tagged("Times", Tagged("CreationTime", created) + Tagged("LastModificationTime", modified) + Tagged("LastAccessTime", modified)
      + Tagged("ExpiryTime", modified) + Tagged("Expires", "False"))
  }

  lemma {:induction false} RenderFive(a: Doc, b: Doc, c: Doc, d: Doc, e: Doc)
    ensures RenderAll([a, b, c, d, e]) == Render(a) + Render(b) + Render(c) + Render(d) + Render(e)
  {
    hide Render;
    RenderFour(a, b, c, d);
    RenderConcat([a, b, c, d], [e]);
    RenderOne(e);
    assert [a, b, c, d, e] == [a, b, c, d] + [e];
  }

  lemma RenderTimes(p: KC.Platform, created: int, modified: int)
    requires KC.Lawful(p)
    ensures Render(Times(p, created, modified)) == TimesText(KdbxTime(p, created), KdbxTime(p, modified))
  {
    hide Render, RenderAll, Plain, Tagged, KC.Le64Bytes;
    var c, m := KdbxTime(p, created), KdbxTime(p, modified);
    BtoaPlain(p, KC.Le64Bytes(Seconds(created)));
    BtoaPlain(p, KC.Le64Bytes(Seconds(modified)));
    FalseIsPlain();
    RenderLeaf("CreationTime", c);
    RenderLeaf("LastModificationTime", m);
    RenderLeaf("LastAccessTime", m);
    RenderLeaf("ExpiryTime", m);
    RenderLeaf("Expires", "False");
    RenderFive(Leaf("CreationTime", c), Leaf("LastModificationTime", m), Leaf("LastAccessTime", m), Leaf("ExpiryTime", m),
      Leaf("Expires", "False"));
    RenderInner("Times", Times(p, created, modified).children);
  }

  lemma FalseIsPlain()
    ensures Plain("False") && Plain("True") && Plain(GENERATOR)
  {
  }

  // ---- The methods ----

  method FieldText(f: Field, stream: ChaChaStream) returns (text: string)
    requires stream.Valid() && KC.Lawful(stream.s.p) && f.value != ""
    modifies stream
    ensures stream.Valid() && stream.Used() == old(stream.Used()) + Cost(f)
    ensures text == Render(FieldDoc(stream.s, old(stream.Used()), f))
  {
    hide Utf8.Encode, Render, XorAt, RenderAll, Escaped, Clean, Tagged, KC.Lawful, Usable, Plain;
    ghost var from := stream.Used();
    ghost var key := Leaf("Key", f.key);
    RenderLeaf("Key", f.key);
    EscapeIsCharwise(f.key);
    if f.hidden {
      var bytes := stream.Xor(Utf8.Encode(f.value));
      var enc := stream.s.p.btoa(bytes);
      BtoaPlain(stream.s.p, bytes);
      RenderHidden(enc);
      RenderPair(key, Elem("Value", true, enc, []));
      text := "<String>" + Tagged("Key", Escape(f.key)) + ("<Value Protected=\"True\">" + enc + "</Value>") + "</String>";
      InString(Tagged("Key", Escape(f.key)) + ("<Value Protected=\"True\">" + enc + "</Value>"));
    } else {
      RenderLeaf("Value", f.value);
      EscapeIsCharwise(f.value);
      RenderPair(key, Leaf("Value", f.value));
      text := "<String>" + Tagged("Key", Escape(f.key)) + Tagged("Value", Escape(f.value)) + "</String>";
      InString(Tagged("Key", Escape(f.key)) + Tagged("Value", Escape(f.value)));
    }
  }

  lemma InString(s: string)
    ensures Tagged("String", s) == "<String>" + s + "</String>"
  {
  }

  lemma {:induction false} RenderHidden(enc: string)
    requires Escaped(enc) == enc
    ensures Render(Elem("Value", true, enc, [])) == "<Value Protected=\"True\">" + enc + "</Value>"
  {
    hide Escaped;
    assert RenderAll([]) == "";
    assert "<" + ("Value" + PROTECTED) + ">" == "<Value Protected=\"True\">";
  }

  lemma {:induction false} RenderPair(a: Doc, b: Doc)
    ensures Render(Elem("String", false, "", [a, b])) == Tagged("String", Render(a) + Render(b))
  {
    hide Render, RenderAll, Tagged;
    RenderConcat([a], [b]);
    RenderOne(a);
    RenderOne(b);
    assert [a, b] == [a] + [b];
    RenderInner("String", [a, b]);
  }

  /** The strings of an entry; the stream moves on as the fields are written. */
  method FieldsText(fields: seq<Field>, stream: ChaChaStream) returns (text: string)
    requires stream.Valid() && KC.Lawful(stream.s.p)
    modifies stream
    ensures stream.Valid() && stream.Used() == old(stream.Used()) + CostOf(fields)
    ensures text == RenderAll(FieldDocs(stream.s, old(stream.Used()), fields))
  {
    hide Render, FieldDoc, KC.Lawful, Usable, Cost;
    text := "";
    ghost var from := stream.Used();
    for k := 0 to |fields|
      invariant stream.Valid() && stream.Used() == from + CostOf(fields[..k])
      invariant text == RenderAll(FieldDocs(stream.s, from, fields[..k]))
    {
      FieldDocsNext(stream.s, from, fields[..k], fields[k]);
      assert fields[..k + 1] == fields[..k] + [fields[k]];
      if fields[k].value != "" {
        var one := FieldText(fields[k], stream);
        RenderOne(FieldDoc(stream.s, from + CostOf(fields[..k]), fields[k]));
        RenderConcat(FieldDocs(stream.s, from, fields[..k]), [FieldDoc(stream.s, from + CostOf(fields[..k]), fields[k])]);
        text := text + one;
      } else {
        assert FieldDocs(stream.s, from, fields[..k]) + [] == FieldDocs(stream.s, from, fields[..k]);
        NoCost(fields[k]);
      }
    }
    assert fields[..|fields|] == fields;
  }

  lemma NoCost(f: Field)
    requires f.value == ""
    ensures Cost(f) == 0
  {
  }

  lemma {:induction false} FieldDocsNext(s: Stream, from: nat, fields: seq<Field>, f: Field)
    requires Usable(s)
    ensures CostOf(fields + [f]) == CostOf(fields) + Cost(f)
    ensures FieldDocs(s, from, fields + [f])
         == FieldDocs(s, from, fields) + if f.value != "" then [FieldDoc(s, from + CostOf(fields), f)] else []
    decreases |fields|
  {
    hide FieldDoc, Cost, Usable;
    if fields == [] {
      assert [] + [f] == [f] && [f][1..] == [];
    } else {
      FieldDocsNext(s, from + Cost(fields[0]), fields[1..], f);
      assert (fields + [f])[1..] == fields[1..] + [f];
    }
  }

  /** The entry element: UUID, tags if there are any, times, then the strings. */
  method EntryText(e: Entry, stream: ChaChaStream, now: int) returns (text: string)
    requires stream.Valid() && KC.Lawful(stream.s.p)
    modifies stream
    ensures stream.Valid() && stream.Used() == old(stream.Used()) + CostOf(e.fields)
    ensures text == Render(EntryDoc(stream.s, old(stream.Used()), e, now))
  {
    hide Render, RenderAll, KC.Lawful, Usable, FieldDocs, Plain, Tagged, TimesText, Join, KdbxTime, Times;
    ghost var from := stream.Used();
    var p := stream.s.p;
    var strings := FieldsText(e.fields, stream);
    var tags := if e.tags != [] then Tagged("Tags", Escape(Join(e.tags, ";"))) else "";
    var created := KdbxTime(p, FirstNonzero(e.created, now));
    var modified := KdbxTime(p, FirstNonzero(FirstNonzero(e.modified, e.created), now));
    text := Tagged("Entry", Tagged("UUID", p.btoa(e.uuid)) + tags + TimesText(created, modified) + strings);
    BtoaPlain(p, e.uuid);
    RenderLeaf("UUID", p.btoa(e.uuid));
    RenderTags(e.tags);
    RenderTimes(p, FirstNonzero(e.created, now), FirstNonzero(FirstNonzero(e.modified, e.created), now));
    RenderEntry(Leaf("UUID", p.btoa(e.uuid)), TagDocs(e.tags), Times(p, FirstNonzero(e.created, now), FirstNonzero(FirstNonzero(e.modified, e.created), now)),
      FieldDocs(stream.s, from, e.fields));
  }

  lemma {:induction false} RenderTags(tags: seq<string>)
    ensures RenderAll(TagDocs(tags)) == if tags != [] then Tagged("Tags", Escape(Join(tags, ";"))) else ""
  {
    hide Render, Tagged, Join;
    if tags != [] {
      RenderLeaf("Tags", Join(tags, ";"));
      EscapeIsCharwise(Join(tags, ";"));
      RenderOne(Leaf("Tags", Join(tags, ";")));
    }
  }

  lemma {:induction false} RenderEntry(uuid: Doc, tags: seq<Doc>, times: Doc, strings: seq<Doc>)
    ensures Render(Elem("Entry", false, "", [uuid] + tags + [times] + strings))
         == Tagged("Entry", Render(uuid) + RenderAll(tags) + Render(times) + RenderAll(strings))
  {
    hide Render, RenderAll, Tagged;
    RenderConcat([uuid] + tags + [times], strings);
    RenderConcat([uuid] + tags, [times]);
    RenderConcat([uuid], tags);
    RenderOne(uuid);
    RenderOne(times);
    RenderInner("Entry", [uuid] + tags + [times] + strings);
  }

  method EntriesText(entries: seq<Entry>, stream: ChaChaStream, now: int) returns (text: string)
    requires stream.Valid() && KC.Lawful(stream.s.p)
    modifies stream
    ensures stream.Valid()
    ensures text == RenderAll(EntryDocs(stream.s, old(stream.Used()), entries, now))
  {
    hide Render, EntryDoc, KC.Lawful, Usable, CostOf;
    text := "";
    ghost var from := stream.Used();
    for k := 0 to |entries|
      invariant stream.Valid() && stream.Used() == from + CostOfAll(entries[..k])
      invariant text == RenderAll(EntryDocs(stream.s, from, entries[..k], now))
    {
      EntryDocsNext(stream.s, from, entries[..k], entries[k], now);
      assert entries[..k + 1] == entries[..k] + [entries[k]];
      var one := EntryText(entries[k], stream, now);
      RenderOne(EntryDoc(stream.s, from + CostOfAll(entries[..k]), entries[k], now));
      RenderConcat(EntryDocs(stream.s, from, entries[..k], now), [EntryDoc(stream.s, from + CostOfAll(entries[..k]), entries[k], now)]);
      text := text + one;
    }
    assert entries[..|entries|] == entries;
  }

  function CostOfAll(entries: seq<Entry>): nat {
    if entries == [] then 0 else CostOf(entries[0].fields) + CostOfAll(entries[1..])
  }

  lemma {:induction false} EntryDocsNext(s: Stream, from: nat, entries: seq<Entry>, e: Entry, now: int)
    requires Usable(s)
    ensures CostOfAll(entries + [e]) == CostOfAll(entries) + CostOf(e.fields)
    ensures EntryDocs(s, from, entries + [e], now) == EntryDocs(s, from, entries, now) + [EntryDoc(s, from + CostOfAll(entries), e, now)]
    decreases |entries|
  {
    hide EntryDoc, CostOf, Usable;
    if entries == [] {
      assert [] + [e] == [e] && [e][1..] == [];
    } else {
      EntryDocsNext(s, from + CostOf(entries[0].fields), entries[1..], e, now);
      assert (entries + [e])[1..] == entries[1..] + [e];
    }
  }

  function ProtectionText(): string {
    Tagged("MemoryProtection", Tagged("ProtectTitle", "False") + Tagged("ProtectUserName", "False") + Tagged("ProtectPassword", "True")
      + Tagged("ProtectURL", "False") + Tagged("ProtectNotes", "False"))
  }

  lemma RenderProtection()
    ensures Render(MemoryProtection()) == ProtectionText()
  {
    hide Render, RenderAll, Tagged, Plain;
    FalseIsPlain();
    RenderLeaf("ProtectTitle", "False");
    RenderLeaf("ProtectUserName", "False");
    RenderLeaf("ProtectPassword", "True");
    RenderLeaf("ProtectURL", "False");
    RenderLeaf("ProtectNotes", "False");
    RenderFive(Leaf("ProtectTitle", "False"), Leaf("ProtectUserName", "False"), Leaf("ProtectPassword", "True"),
      Leaf("ProtectURL", "False"), Leaf("ProtectNotes", "False"));
    RenderInner("MemoryProtection", MemoryProtection().children);
  }

  lemma RenderMeta(p: KC.Platform, vaultName: string, now: int)
    requires KC.Lawful(p)
    ensures Render(Meta(p, vaultName, now)) == Tagged("Meta", Tagged("Generator", GENERATOR) + Tagged("DatabaseName", Escape(vaultName))
      + Tagged("DatabaseNameChanged", KdbxTime(p, now)) + ProtectionText())
  {
    hide Render, RenderAll, Tagged, Plain, KC.Le64Bytes, MemoryProtection, ProtectionText, KC.Lawful;
    FalseIsPlain();
    BtoaPlain(p, KC.Le64Bytes(Seconds(now)));
    EscapeIsCharwise(vaultName);
    RenderLeaf("Generator", GENERATOR);
    RenderLeaf("DatabaseName", vaultName);
    RenderLeaf("DatabaseNameChanged", KdbxTime(p, now));
    RenderProtection();
    var a, b, c, d := Leaf("Generator", GENERATOR), Leaf("DatabaseName", vaultName), Leaf("DatabaseNameChanged", KdbxTime(p, now)), MemoryProtection();
    RenderFour(a, b, c, d);
    RenderInner("Meta", [a, b, c, d]);
  }

  lemma {:induction false} RenderFour(a: Doc, b: Doc, c: Doc, d: Doc)
    ensures RenderAll([a, b, c, d]) == Render(a) + Render(b) + Render(c) + Render(d)
  {
    hide Render;
    RenderTwo(a, b);
    RenderTwo(c, d);
    RenderConcat([a, b], [c, d]);
    assert [a, b, c, d] == [a, b] + [c, d];
    assert Render(a) + Render(b) + (Render(c) + Render(d)) == Render(a) + Render(b) + Render(c) + Render(d);
  }

  lemma {:induction false} RenderTwo(a: Doc, b: Doc)
    ensures RenderAll([a, b]) == Render(a) + Render(b)
  {
    hide Render;
    RenderConcat([a], [b]);
    RenderOne(a);
    RenderOne(b);
    assert [a, b] == [a] + [b];
  }

  lemma {:induction false} RenderGroup(uuid: Doc, name: Doc, times: Doc, entries: seq<Doc>)
    ensures Render(Elem("Group", false, "", [uuid, name, times] + entries))
         == Tagged("Group", Render(uuid) + Render(name) + Render(times) + RenderAll(entries))
  {
    hide Render, RenderAll, Tagged;
    RenderConcat([uuid, name, times], entries);
    RenderConcat([uuid], [name, times]);
    RenderConcat([name], [times]);
    RenderOne(uuid);
    RenderOne(name);
    RenderOne(times);
    assert [uuid, name, times] == [uuid] + ([name] + [times]) && [name, times] == [name] + [times];
    assert RenderAll([uuid, name, times]) == Render(uuid) + Render(name) + Render(times);
    RenderInner("Group", [uuid, name, times] + entries);
  }

  lemma {:induction false} RenderFile(meta: Doc, group: Doc)
    ensures Render(Elem("KeePassFile", false, "", [meta, Elem("Root", false, "", [group])]))
         == Tagged("KeePassFile", Render(meta) + Tagged("Root", Render(group)))
  {
    hide Render, RenderAll, Tagged;
    var root := Elem("Root", false, "", [group]);
    RenderOne(group);
    RenderInner("Root", [group]);
    RenderConcat([meta], [root]);
    RenderOne(meta);
    RenderOne(root);
    assert [meta, root] == [meta] + [root];
    RenderInner("KeePassFile", [meta, root]);
  }

  /** The whole document; a new stream is used from its start. */
  method DatabaseXml(s: Stream, vaultName: string, entries: seq<Entry>, now: int, uuid: seq<byte>) returns (text: string)
    requires Usable(s) && KC.Lawful(s.p)
    ensures text == DatabaseText(s, vaultName, entries, now, uuid)
  {
    hide Render, RenderAll, Tagged, Plain, KC.Lawful, Usable, EntryDocs, TimesText, ProtectionText, KdbxTime, Times;
    var stream := new ChaChaStream(s);
    var p := s.p;
    var time := KdbxTime(p, now);
    var entriesText := EntriesText(entries, stream, now);
    var meta := Tagged("Meta", Tagged("Generator", GENERATOR) + Tagged("DatabaseName", Escape(vaultName))
      + Tagged("DatabaseNameChanged", time) + ProtectionText());
    var group := Tagged("Group", Tagged("UUID", p.btoa(uuid)) + Tagged("Name", Escape(vaultName)) + TimesText(time, time) + entriesText);
    text := "<?" + DECLARATION + ">" + Tagged("KeePassFile", meta + Tagged("Root", group));
    RenderMeta(p, vaultName, now);
    BtoaPlain(p, uuid);
    EscapeIsCharwise(vaultName);
    RenderLeaf("UUID", p.btoa(uuid));
    RenderLeaf("Name", vaultName);
    RenderTimes(p, now, now);
    RenderGroup(Leaf("UUID", p.btoa(uuid)), Leaf("Name", vaultName), Times(p, now, now), EntryDocs(s, 0, entries, now));
    RenderFile(Meta(p, vaultName, now), Group(s, vaultName, entries, now, uuid));
  }
}
