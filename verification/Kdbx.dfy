/**
 * A database written by web/export.js and read by web/kdbx-read.js: every check passes, the stream is used in the
 * order in which it was produced, and the entries come back.
 */
module Kdbx {
  import opened Bits
  import opened Strings
  import opened Wrappers
  import opened VaultItem
  import opened KeyStream
  import opened Xml
  import opened KC = KdbxContainer
  import W = KdbxWriter
  import opened R = KdbxReader
  import Utf8

  // ---- What comes back ----

  function WithoutMark(v: string): string {
    if v != "" && v[0] == '\U{FEFF}' then v[1..] else v
  }

  /** A protected value comes back as it was, but for a byte order mark in front; a plain one without control characters. */
  function ValueBack(f: Field): string {
    if f.hidden then WithoutMark(f.value) else Clean(f.value)
  }

  function FieldBack(f: Field): Field {
    Field(Clean(f.key), ValueBack(f), f.hidden)
  }

  function FieldsBack(fields: seq<Field>): seq<Field> {
    if fields == [] then [] else (if fields[0].value != "" then [FieldBack(fields[0])] else []) + FieldsBack(fields[1..])
  }

  lemma FieldsBackFirst(fields: seq<Field>)
    requires fields != []
    ensures FieldsBack(fields) == (if fields[0].value != "" then [FieldBack(fields[0])] else []) + FieldsBack(fields[1..])
  {
  }

  function TagsBack(tags: seq<string>): seq<string> {
    if tags == [] then [] else TrimmedPieces(Split(Clean(Join(tags, ";"))))
  }

  function TimeBack(p: KC.Platform, ms: int): int {
    (p.toNumber(W.Seconds(ms)) - DOTNET_EPOCH_OFFSET) * 1000
  }

  function EntryBack(p: KC.Platform, e: W.Entry, now: int): ReadEntry {
    ReadEntry(FieldsBack(e.fields), TagsBack(e.tags), Some(TimeBack(p, W.FirstNonzero(e.created, now))),
      Some(TimeBack(p, W.FirstNonzero(W.FirstNonzero(e.modified, e.created), now))), [])
  }

  function EntriesBack(p: KC.Platform, entries: seq<W.Entry>, now: int): (r: seq<ReadEntry>)
    ensures |r| == |entries|
  {
    if entries == [] then [] else [EntryBack(p, entries[0], now)] + EntriesBack(p, entries[1..], now)
  }

  /** Times within the range of safe numbers come back to the second. */
  lemma TimeBackExact(p: KC.Platform, ms: int)
    requires Lawful(p) && 0 <= ms / 1000 + DOTNET_EPOCH_OFFSET < SAFE
    ensures TimeBack(p, ms) == ms / 1000 * 1000
  {
    var secs: nat := ms / 1000 + DOTNET_EPOCH_OFFSET;
    assert W.Seconds(ms) == secs;
    assert p.toNumber(secs) == secs;
  }

  predicate NoControl(s: string) {
    forall i :: 0 <= i < |s| ==> !Control(s[i])
  }

  lemma {:induction false} CleanExact(s: string)
    ensures |Clean(s)| <= |s|
    ensures Clean(s) == s <==> NoControl(s)
  {
    if s != "" {
      CleanExact(s[1..]);
      assert s == [s[0]] + s[1..];
      if !Control(s[0]) {
        assert Clean(s)[1..] == Clean(s[1..]);
        assert NoControl(s) <==> NoControl(s[1..]) by {
          assert forall i :: 0 < i < |s| ==> s[i] == s[1..][i - 1];
        }
      }
    }
  }

  /** Which fields come back exactly as they were. */
  lemma FieldExact(f: Field)
    ensures FieldBack(f) == f <==>
      NoControl(f.key) && if f.hidden then !(f.value != "" && f.value[0] == '\U{FEFF}') else NoControl(f.value)
  {
    hide Clean, NoControl;
    CleanExact(f.key);
    CleanExact(f.value);
    if f.hidden && f.value != "" && f.value[0] == '\U{FEFF}' {
      assert |WithoutMark(f.value)| < |f.value|;
    }
  }

  predicate NiceTag(t: string) {
    t != "" && Trimmed(t) && NoControl(t) && ';' !in t && ',' !in t
  }

  lemma {:induction false} SplitNothing(t: string)
    requires ';' !in t && ',' !in t
    ensures Split(t) == [t]
  {
    if t != "" {
      SplitNothing(t[1..]);
      assert t == [t[0]] + t[1..];
    }
  }

  lemma {:induction false} SplitFirst(t: string, rest: string)
    requires ';' !in t && ',' !in t
    ensures Split(t + ";" + rest) == [t] + Split(rest)
  {
    var s := t + ";" + rest;
    if t == "" {
      assert s == ";" + rest && s[1..] == rest;
    } else {
      SplitFirst(t[1..], rest);
      assert s[1..] == t[1..] + ";" + rest;
      assert t == [t[0]] + t[1..];
    }
  }

  /** Trimmed tags without separators and control characters come back. */
  lemma {:induction false} TagsExact(tags: seq<string>)
    requires forall k :: 0 <= k < |tags| ==> NiceTag(tags[k])
    ensures NoControl(Join(tags, ";")) && TagsBack(tags) == tags
  {
    hide Clean, Split;
    if tags != [] {
      TagsExact(tags[1..]);
      var rest := Join(tags[1..], ";");
      CleanExact(Join(tags, ";"));
      CleanExact(rest);
      TrimmedStays(tags[0]);
      if |tags| == 1 {
        SplitNothing(tags[0]);
        assert tags == [tags[0]] && tags[1..] == [];
        assert TrimmedPieces(tags[1..]) == [];
        assert Clean(Join(tags, ";")) == tags[0];
        assert TrimmedPieces(tags) == [tags[0]] + [];
      } else {
        SplitFirst(tags[0], rest);
        assert Split(Join(tags, ";"))[1..] == Split(rest);
        assert tags == [tags[0]] + tags[1..];
      }
    }
  }

  predicate Bare(piece: string) {
    ';' !in piece && ',' !in piece
  }

  lemma {:induction false} PiecesAreBare(s: string)
    requires NoControl(s)
    ensures forall k :: 0 <= k < |Split(s)| ==> Bare(Split(s)[k]) && NoControl(Split(s)[k])
  {
    if s != "" {
      PiecesAreBare(s[1..]);
      var r := Split(s[1..]);
      if s[0] != ';' && s[0] != ',' {
        assert Bare(r[0]) && NoControl(r[0]);
        assert Bare([s[0]] + r[0]) && NoControl([s[0]] + r[0]);
      }
    }
  }

  /** What is left after trimming is a piece of the string. */
  lemma {:induction false} TrimmedIsNice(piece: string)
    requires Bare(piece) && NoControl(piece) && Trim(piece) != ""
    ensures NiceTag(Trim(piece))
  {
    TrimIsPart(piece);
    assert forall i :: 0 <= i < |Trim(piece)| ==> Trim(piece)[i] in piece;
  }

  lemma {:induction false} TrimmedPiecesAreNice(pieces: seq<string>)
    requires forall k :: 0 <= k < |pieces| ==> Bare(pieces[k]) && NoControl(pieces[k])
    ensures forall k :: 0 <= k < |TrimmedPieces(pieces)| ==> NiceTag(TrimmedPieces(pieces)[k])
  {
    hide NiceTag, Bare, NoControl, Trim;
    if pieces != [] {
      TrimmedPiecesAreNice(pieces[1..]);
      if Trim(pieces[0]) != "" {
        TrimmedIsNice(pieces[0]);
      }
    }
  }

  lemma {:induction false} CleanHasNoControl(s: string)
    ensures NoControl(Clean(s))
  {
    if s != "" {
      CleanHasNoControl(s[1..]);
    }
  }

  /** Tags come back exactly if every one is trimmed, not empty, and without separators and control characters. */
  lemma TagsIff(tags: seq<string>)
    ensures TagsBack(tags) == tags <==> forall k :: 0 <= k < |tags| ==> NiceTag(tags[k])
  {
    hide NiceTag, Split, Clean, Join, NoControl, Bare, TrimmedPieces;
    if forall k :: 0 <= k < |tags| ==> NiceTag(tags[k]) {
      TagsExact(tags);
    }
    if TagsBack(tags) == tags && tags != [] {
      CleanHasNoControl(Join(tags, ";"));
      PiecesAreBare(Clean(Join(tags, ";")));
      TrimmedPiecesAreNice(Split(Clean(Join(tags, ";"))));
    }
  }

  // ---- Unprotecting ----

  predicate NoneHidden(d: Doc)
    decreases d
  {
    !d.hidden && forall k :: 0 <= k < |d.children| ==> NoneHidden(d.children[k])
  }

  /** Without protected values the stream is not touched, and nothing changes. */
  lemma {:induction false} Quiet(s: Stream, from: nat, d: Doc)
    requires Usable(s) && NoneHidden(d)
    ensures Unprotect(s, from, TreeOf(d)) == Ok((TreeOf(d), from))
    decreases d, 1
  {
    hide Usable, Clean;
    QuietAll(s, from, d.children);
    assert !Hidden(TreeOf(d));
  }

  lemma {:induction false} QuietAll(s: Stream, from: nat, ds: seq<Doc>)
    requires Usable(s) && forall k :: 0 <= k < |ds| ==> NoneHidden(ds[k])
    ensures UnprotectAll(s, from, TreesOf(ds)) == Ok((TreesOf(ds), from))
    decreases ds, 0
  {
    hide Usable, Unprotect, TreeOf;
    if ds != [] {
      Quiet(s, from, ds[0]);
      QuietAll(s, from, ds[1..]);
    }
  }

  /** Neighbours in document order use neighbouring stretches of the stream. */
  lemma {:induction false} UnprotectConcat(s: Stream, from: nat, a: seq<Node>, x: seq<Node>, mid: nat, b: seq<Node>, y: seq<Node>, end: nat)
    requires Usable(s) && UnprotectAll(s, from, a) == Ok((x, mid)) && UnprotectAll(s, mid, b) == Ok((y, end))
    ensures UnprotectAll(s, from, a + b) == Ok((x + y, end))
    decreases |a|
  {
    hide Usable, Unprotect;
    if a == [] {
      assert a + b == b && x + y == y;
    } else {
      var first := Unprotect(s, from, a[0]).value;
      assert x[1..] == UnprotectAll(s, first.1, a[1..]).value.0;
      UnprotectConcat(s, first.1, a[1..], x[1..], mid, b, y, end);
      assert (a + b)[1..] == a[1..] + b;
      assert [x[0]] + (x[1..] + y) == x + y;
    }
  }

  lemma {:induction false} UnprotectOne(s: Stream, from: nat, n: Node)
    requires Usable(s) && Unprotect(s, from, n).Ok?
    ensures UnprotectAll(s, from, [n]) == Ok(([Unprotect(s, from, n).value.0], Unprotect(s, from, n).value.1))
  {
    hide Usable, Unprotect;
    assert [n][1..] == [];
    var u := Unprotect(s, from, n).value.0;
    assert [u] + [] == [u];
  }

  function Attrs(hidden: bool): Attributes {
    if hidden then map["Protected" := "True"] else map[]
  }

  function FieldNode(f: Field): Node {
    Node("String", map[], [Node("Key", map[], [], Clean(f.key)), Node("Value", Attrs(f.hidden), [], ValueBack(f))], "")
  }

  function FieldNodes(fields: seq<Field>): seq<Node> {
    if fields == [] then [] else (if fields[0].value != "" then [FieldNode(fields[0])] else []) + FieldNodes(fields[1..])
  }

  lemma {:induction false} TrimKeeps(s: string)
    requires forall i :: 0 <= i < |s| ==> !IsSpace(s[i])
    ensures Trim(s) == s
  {
    TrimmedStays(s);
  }

  lemma {:induction false} EncodeNotEmpty(s: string)
    requires s != ""
    ensures Utf8.Encode(s) != []
  {
  }

  /** The value element of a hidden field gives back its value and takes exactly the bytes that were produced for it. */
  lemma {:induction false} HiddenValue(s: Stream, from: nat, value: string)
    requires Lawful(s.p) && Usable(s) && value != ""
    ensures var enc := s.p.btoa(XorAt(s, from, Utf8.Encode(value)));
            && Clean(enc) == enc
            && OwnText(s, from, Node("Value", map["Protected" := "True"], [], enc)) == Ok((WithoutMark(value), from + |Utf8.Encode(value)|))
  {
    hide Clean, TextDecode, Utf8.Encode, XorAt, Lawful, Usable, Trim;
    var b := XorAt(s, from, Utf8.Encode(value));
    var enc := s.p.btoa(b);
    EncodeNotEmpty(value);
    EncodedFacts(s.p, b);
    XorAtTwice(s, from, Utf8.Encode(value));
    TextDecodeBack(s.p, value);
    var n := Node("Value", map["Protected" := "True"], [], enc);
    assert n.attrs["Protected"] == "True";
  }

  lemma EncodedFacts(p: KC.Platform, b: seq<byte>)
    requires Lawful(p) && b != []
    ensures Clean(p.btoa(b)) == p.btoa(b) && Trim(p.btoa(b)) == p.btoa(b) && p.btoa(b) != "" && p.atob(p.btoa(b)) == Some(b)
  {
    hide Clean, Trim;
    var enc := p.btoa(b);
    W.BtoaPlain(p, b);
    W.PlainEscapes(enc);
    forall i | 0 <= i < |enc| ensures !IsSpace(enc[i]) {
      assert Base64Char(enc[i]);
    }
    TrimKeeps(enc);
  }

  lemma {:induction false} ValueElement(s: Stream, from: nat, f: Field)
    requires Lawful(s.p) && Usable(s) && f.value != ""
    ensures Unprotect(s, from, TreeOf(W.FieldDoc(s, from, f).children[1])) == Ok((FieldNode(f).children[1], from + W.Cost(f)))
  {
    hide Clean, TextDecode, Utf8.Encode, XorAt, Lawful, Usable, Trim, OwnText;
    if f.hidden {
      HiddenValue(s, from, f.value);
      assert UnprotectAll(s, from + W.Cost(f), []) == Ok(([], from + W.Cost(f)));
    } else {
      Quiet(s, from, W.Leaf("Value", f.value));
    }
  }

  lemma {:induction false} UnprotectField(s: Stream, from: nat, f: Field)
    requires Lawful(s.p) && Usable(s) && f.value != ""
    ensures Unprotect(s, from, TreeOf(W.FieldDoc(s, from, f))) == Ok((FieldNode(f), from + W.Cost(f)))
  {
    hide TextDecode, Utf8.Encode, XorAt, Lawful, Usable, Trim, W.Cost, ValueBack;
    var d := W.FieldDoc(s, from, f);
    var key, value := TreeOf(d.children[0]), TreeOf(d.children[1]);
    Quiet(s, from, d.children[0]);
    ValueElement(s, from, f);
    UnprotectOne(s, from, key);
    UnprotectOne(s, from, value);
    UnprotectConcat(s, from, [key], [FieldNode(f).children[0]], from, [value], [FieldNode(f).children[1]], from + W.Cost(f));
    assert d.children[1..] == [d.children[1]] && d.children[1..][1..] == [];
    assert TreesOf(d.children) == [key] + [value];
    assert Clean("") == "";
    assert TreeOf(d) == Node("String", map[], [key] + [value], "");
    assert FieldNode(f).children == [FieldNode(f).children[0]] + [FieldNode(f).children[1]];
    hide Unprotect, UnprotectAll;
    UnprotectNode(s, from, TreeOf(d));
  }

  /** An element that is not a value keeps its text. */
  lemma {:induction false} UnprotectNode(s: Stream, from: nat, n: Node)
    requires Usable(s) && n.tag != "Value" && UnprotectAll(s, from, n.children).Ok?
    ensures var kids := UnprotectAll(s, from, n.children).value;
            Unprotect(s, from, n) == Ok((Node(n.tag, n.attrs, kids.0, n.text), kids.1))
  {
    hide Usable;
  }

  lemma {:induction false} UnprotectFields(s: Stream, from: nat, fields: seq<Field>)
    requires Lawful(s.p) && Usable(s)
    ensures UnprotectAll(s, from, TreesOf(W.FieldDocs(s, from, fields))) == Ok((FieldNodes(fields), from + W.CostOf(fields)))
    decreases |fields|
  {
    hide Lawful, Usable, Unprotect, TreeOf, FieldNode, W.FieldDoc, UnprotectAll, TreesOf, FieldNodes, W.FieldDocs, W.CostOf, W.Cost;
    if fields == [] {
      NoFieldDocs(s, from);
    } else {
      var f, rest := fields[0], fields[1..];
      UnprotectFields(s, from + W.Cost(f), rest);
      FieldDocsFirst(s, from, fields);
      if f.value != "" {
        var more := W.FieldDocs(s, from + W.Cost(f), rest);
        UnprotectField(s, from, f);
        UnprotectFirst(s, from, W.FieldDoc(s, from, f), more);
      }
    }
  }

  lemma {:induction false} NoFieldDocs(s: Stream, from: nat)
    requires Usable(s)
    ensures UnprotectAll(s, from, TreesOf(W.FieldDocs(s, from, []))) == Ok((FieldNodes([]), from + W.CostOf([])))
  {
    hide Usable;
  }

  /** What the first field adds to the writer's document, to what is expected back, and to the use of the stream. */
  lemma {:induction false} FieldDocsFirst(s: Stream, from: nat, fields: seq<Field>)
    requires Usable(s) && fields != []
    ensures var f, rest := fields[0], fields[1..];
            && W.CostOf(fields) == W.Cost(f) + W.CostOf(rest)
            && if f.value != "" then
                 && W.FieldDocs(s, from, fields) == [W.FieldDoc(s, from, f)] + W.FieldDocs(s, from + W.Cost(f), rest)
                 && FieldNodes(fields) == [FieldNode(f)] + FieldNodes(rest)
               else
                 && W.Cost(f) == 0 && W.FieldDocs(s, from, fields) == W.FieldDocs(s, from, rest) && FieldNodes(fields) == FieldNodes(rest)
  {
    hide Usable, FieldNode, W.FieldDoc;
    FieldsUnfold(fields);
    if fields[0].value == "" {
      W.NoCost(fields[0]);
    }
  }

  lemma {:induction false} UnprotectFirst(s: Stream, from: nat, d: Doc, more: seq<Doc>)
    requires Usable(s) && Unprotect(s, from, TreeOf(d)).Ok?
    requires UnprotectAll(s, Unprotect(s, from, TreeOf(d)).value.1, TreesOf(more)).Ok?
    ensures var first := Unprotect(s, from, TreeOf(d)).value;
            var others := UnprotectAll(s, first.1, TreesOf(more)).value;
            UnprotectAll(s, from, TreesOf([d] + more)) == Ok(([first.0] + others.0, others.1))
  {
    hide Usable, Unprotect, TreeOf;
    assert ([d] + more)[1..] == more;
    assert TreesOf([d] + more)[1..] == TreesOf(more);
  }

  function EntryFront(p: KC.Platform, e: W.Entry, now: int): seq<Doc> {
    [W.Leaf("UUID", p.btoa(e.uuid))] + W.TagDocs(e.tags) + [W.Times(p, W.FirstNonzero(e.created, now), W.FirstNonzero(W.FirstNonzero(e.modified, e.created), now))]
  }

  function EntryNode(p: KC.Platform, e: W.Entry, now: int): Node {
    Node("Entry", map[], TreesOf(EntryFront(p, e, now)) + FieldNodes(e.fields), "")
  }

  function EntryNodes(p: KC.Platform, entries: seq<W.Entry>, now: int): seq<Node> {
    if entries == [] then [] else [EntryNode(p, entries[0], now)] + EntryNodes(p, entries[1..], now)
  }

  lemma {:induction false} TreesConcat(a: seq<Doc>, b: seq<Doc>)
    ensures TreesOf(a + b) == TreesOf(a) + TreesOf(b)
  {
    hide TreeOf;
    if a == [] {
      assert a + b == b;
    } else {
      TreesConcat(a[1..], b);
      assert (a + b)[1..] == a[1..] + b;
    }
  }

  lemma FrontQuiet(p: KC.Platform, e: W.Entry, now: int)
    ensures forall k :: 0 <= k < |EntryFront(p, e, now)| ==> NoneHidden(EntryFront(p, e, now)[k])
  {
    hide W.KdbxTime, Join;
  }

  lemma {:induction false} UnprotectEntry(s: Stream, from: nat, e: W.Entry, now: int)
    requires Lawful(s.p) && Usable(s)
    ensures Unprotect(s, from, TreeOf(W.EntryDoc(s, from, e, now))) == Ok((EntryNode(s.p, e, now), from + W.CostOf(e.fields)))
  {
    hide Lawful, Usable, Unprotect, UnprotectAll, EntryFront, FieldNodes, W.FieldDocs, TreesOf;
    var front, strings := EntryFront(s.p, e, now), W.FieldDocs(s, from, e.fields);
    FrontQuiet(s.p, e, now);
    QuietAll(s, from, front);
    UnprotectFields(s, from, e.fields);
    UnprotectConcat(s, from, TreesOf(front), TreesOf(front), from, TreesOf(strings), FieldNodes(e.fields), from + W.CostOf(e.fields));
    TreesConcat(front, strings);
    EntryDocParts(s, from, e, now);
    UnprotectNode(s, from, TreeOf(W.EntryDoc(s, from, e, now)));
  }

  lemma {:induction false} EntryDocParts(s: Stream, from: nat, e: W.Entry, now: int)
    requires Usable(s)
    ensures TreeOf(W.EntryDoc(s, from, e, now))
         == Node("Entry", map[], TreesOf(EntryFront(s.p, e, now) + W.FieldDocs(s, from, e.fields)), "")
  {
    hide Usable, W.FieldDocs, TreesOf, W.KdbxTime, W.Times, W.TagDocs;
    assert Clean("") == "";
  }

  lemma {:induction false} UnprotectEntries(s: Stream, from: nat, entries: seq<W.Entry>, now: int)
    requires Lawful(s.p) && Usable(s)
    ensures UnprotectAll(s, from, TreesOf(W.EntryDocs(s, from, entries, now)))
         == Ok((EntryNodes(s.p, entries, now), from + W.CostOfAll(entries)))
    decreases |entries|
  {
    hide Lawful, Usable, Unprotect, TreeOf, EntryNode, W.EntryDoc, W.CostOf;
    if entries != [] {
      UnprotectEntry(s, from, entries[0], now);
      UnprotectEntries(s, from + W.CostOf(entries[0].fields), entries[1..], now);
      assert W.EntryDocs(s, from, entries, now)[1..] == W.EntryDocs(s, from + W.CostOf(entries[0].fields), entries[1..], now);
    }
  }

  // ---- Extracting the entries ----

  lemma {:induction false} ChildAt(ns: seq<Node>, tag: string, k: nat)
    requires k < |ns| && ns[k].tag == tag && forall j :: 0 <= j < k ==> ns[j].tag != tag
    ensures ChildEl(ns, tag) == Some(ns[k])
  {
    if k > 0 {
      assert ns[0].tag != tag;
      ChildAt(ns[1..], tag, k - 1);
    }
  }

  lemma {:induction false} NoChild(ns: seq<Node>, tag: string)
    requires forall j :: 0 <= j < |ns| ==> ns[j].tag != tag
    ensures ChildEl(ns, tag) == None
  {
    if ns != [] {
      NoChild(ns[1..], tag);
    }
  }

  lemma {:induction false} TreesAt(ds: seq<Doc>)
    ensures |TreesOf(ds)| == |ds| && forall k :: 0 <= k < |ds| ==> TreesOf(ds)[k] == TreeOf(ds[k])
  {
    hide TreeOf;
    if ds != [] {
      TreesAt(ds[1..]);
    }
  }

  lemma {:induction false} FieldNodesBack(env: Env, base: seq<Node>, fields: seq<Field>, path: seq<string>)
    ensures EntryOf(env, base + FieldNodes(fields), path)
         == EntryOf(env, base, path).(fields := EntryOf(env, base, path).fields + FieldsBack(fields))
    decreases |fields|
  {
    hide FieldNode, FieldBack, EntryOf, FieldNodes, FieldsBack;
    var e := EntryOf(env, base, path);
    FieldsUnfold(fields);
    if fields == [] {
      assert base + [] == base && e.fields + [] == e.fields;
    } else {
      var more := FieldNodes(fields[1..]);
      if fields[0].value != "" {
        var n := FieldNode(fields[0]);
        FieldNodesBack(env, base + [n], fields[1..], path);
        assert base + FieldNodes(fields) == (base + [n]) + more;
        OneField(env, base, fields[0], path);
        assert (e.fields + [FieldBack(fields[0])]) + FieldsBack(fields[1..]) == e.fields + FieldsBack(fields);
      } else {
        FieldNodesBack(env, base, fields[1..], path);
        assert FieldNodes(fields) == more && FieldsBack(fields) == FieldsBack(fields[1..]);
      }
    }
  }

  lemma {:induction false} FieldsUnfold(fields: seq<Field>)
    ensures fields == [] ==> FieldNodes(fields) == [] && FieldsBack(fields) == []
    ensures fields != [] && fields[0].value != "" ==>
      && FieldNodes(fields) == [FieldNode(fields[0])] + FieldNodes(fields[1..])
      && FieldsBack(fields) == [FieldBack(fields[0])] + FieldsBack(fields[1..])
    ensures fields != [] && fields[0].value == "" ==>
      FieldNodes(fields) == FieldNodes(fields[1..]) && FieldsBack(fields) == FieldsBack(fields[1..])
  {
    hide FieldNode, FieldBack;
  }

  lemma {:induction false} OneField(env: Env, base: seq<Node>, f: Field, path: seq<string>)
    ensures var e := EntryOf(env, base, path);
            EntryOf(env, base + [FieldNode(f)], path) == e.(fields := e.fields + [FieldBack(f)])
  {
    hide FieldNode, FieldBack;
    FieldOfNode(f);
    assert (base + [FieldNode(f)])[..|base|] == base;
  }

  lemma FieldOfNode(f: Field)
    ensures FieldNode(f).tag == "String" && R.FieldOf(FieldNode(f)) == FieldBack(f)
  {
    hide ValueBack, Clean;
    var n := FieldNode(f);
    ChildAt(n.children, "Key", 0);
    ChildAt(n.children, "Value", 1);
    assert Hidden(n.children[1]) == f.hidden;
  }

  lemma TimeText(env: Env, ms: int)
    requires Lawful(env.p)
    ensures ParseTime(env, Clean(W.KdbxTime(env.p, ms))) == Some(TimeBack(env.p, ms))
  {
    hide Clean, Le64Bytes;
    var n := W.Seconds(ms);
    var b := Le64Bytes(n);
    EncodedFacts(env.p, b);
    var t := W.KdbxTime(env.p, ms);
    assert t == env.p.btoa(b);
    forall i | 0 <= i < |t| ensures t[i] != '-' && t[i] != ':' {
      assert Base64Char(env.p.btoa(b)[i]);
    }
    Le64Back(n);
    assert b[..8] == b;
  }

  /** The child elements of a Times element. */
  lemma TimesChildren(p: KC.Platform, created: int, modified: int)
    ensures var n := TreeOf(W.Times(p, created, modified));
            && n.tag == "Times" && ChildText(n.children, "CreationTime") == Clean(W.KdbxTime(p, created))
            && ChildText(n.children, "LastModificationTime") == Clean(W.KdbxTime(p, modified))
  {
    hide W.KdbxTime, Clean;
    var ds := W.Times(p, created, modified).children;
    TreesAt(ds);
    hide TreesOf, ChildEl;
    ChildAt(TreesOf(ds), "CreationTime", 0);
    ChildAt(TreesOf(ds), "LastModificationTime", 1);
  }

  lemma {:induction false} EntryFrontBack(env: Env, e: W.Entry, now: int)
    requires Lawful(env.p)
    ensures EntryOf(env, TreesOf(EntryFront(env.p, e, now)), [])
         == ReadEntry([], TagsBack(e.tags), Some(TimeBack(env.p, W.FirstNonzero(e.created, now))), Some(TimeBack(env.p, W.FirstNonzero(W.FirstNonzero(e.modified, e.created), now))), [])
  {
    hide W.KdbxTime, Clean, ParseTime, TimeBack, Lawful, W.Times, ChildText, Join, TrimmedPieces, Split;
    var created, modified := W.FirstNonzero(e.created, now), W.FirstNonzero(W.FirstNonzero(e.modified, e.created), now);
    var uuid, times := W.Leaf("UUID", env.p.btoa(e.uuid)), W.Times(env.p, created, modified);
    TimesChildren(env.p, created, modified);
    TimeText(env, created);
    TimeText(env, modified);
    var u, t := TreeOf(uuid), TreeOf(times);
    TreesConcat([uuid] + W.TagDocs(e.tags), [times]);
    TreesConcat([uuid], W.TagDocs(e.tags));
    TreesOne(uuid);
    TreesOne(times);
    assert u.tag == "UUID";
    var front := [u] + TreesOf(W.TagDocs(e.tags));
    LastNode(env, [], u);
    if e.tags != [] {
      TreesOne(W.Leaf("Tags", Join(e.tags, ";")));
      LastNode(env, [u], TreeOf(W.Leaf("Tags", Join(e.tags, ";"))));
    } else {
      assert front == [u];
    }
    assert [] + [u] == [u];
    LastNode(env, front, t);
  }

  lemma {:induction false} TreesOne(d: Doc)
    ensures TreesOf([d]) == [TreeOf(d)]
  {
    hide TreeOf;
    assert [d][1..] == [];
  }

  /** The step of EntryOf for the last child. */
  lemma {:induction false} LastNode(env: Env, ns: seq<Node>, c: Node)
    ensures var e := EntryOf(env, ns, []);
            EntryOf(env, ns + [c], []) ==
              if c.tag == "String" then e.(fields := e.fields + [R.FieldOf(c)])
              else if c.tag == "Times" then
                e.(created := ParseTime(env, ChildText(c.children, "CreationTime")), modified := ParseTime(env, ChildText(c.children, "LastModificationTime")))
              else if c.tag == "Tags" then e.(tags := TrimmedPieces(Split(c.text)))
              else e
  {
    hide ParseTime, ChildText, R.FieldOf;
    assert (ns + [c])[..|ns|] == ns;
  }

  lemma {:induction false} EntryNodeBack(env: Env, e: W.Entry, now: int)
    requires Lawful(env.p)
    ensures EntryOf(env, EntryNode(env.p, e, now).children, []) == EntryBack(env.p, e, now)
  {
    hide EntryFront, FieldNodes, TimeBack, TagsBack, EntryOf, Lawful;
    EntryFrontBack(env, e, now);
    FieldNodesBack(env, TreesOf(EntryFront(env.p, e, now)), e.fields, []);
    assert [] + FieldsBack(e.fields) == FieldsBack(e.fields);
  }

  lemma {:induction false} WalkEntries(env: Env, entries: seq<W.Entry>, now: int, recycle: string)
    requires Lawful(env.p)
    ensures Walk(env, EntryNodes(env.p, entries, now), [], recycle) == EntriesBack(env.p, entries, now)
  {
    hide EntryOf, EntryBack, Lawful;
    if entries != [] {
      WalkEntries(env, entries[1..], now, recycle);
      EntryNodeBack(env, entries[0], now);
      var ns := EntryNodes(env.p, entries, now);
      assert ns[1..] == EntryNodes(env.p, entries[1..], now);
      assert ns[0].tag == "Entry";
    }
  }

  // ---- The whole document ----

  function GroupFront(p: KC.Platform, vaultName: string, now: int, uuid: seq<byte>): seq<Doc> {
    [W.Leaf("UUID", p.btoa(uuid)), W.Leaf("Name", vaultName), W.Times(p, now, now)]
  }

  /** The document after unprotecting. */
  function DatabaseNode(p: KC.Platform, vaultName: string, entries: seq<W.Entry>, now: int, uuid: seq<byte>): Node {
    Node("KeePassFile", map[], [TreeOf(W.Meta(p, vaultName, now)), Node("Root", map[], [Node("Group", map[],
      TreesOf(GroupFront(p, vaultName, now, uuid)) + EntryNodes(p, entries, now), "")], "")], "")
  }

  lemma {:induction false} PlainTree(tag: string, ds: seq<Doc>)
    ensures TreeOf(Elem(tag, false, "", ds)) == Node(tag, map[], TreesOf(ds), "")
  {
    hide TreesOf;
    assert Clean("") == "";
  }

  lemma {:induction false} UnprotectDatabase(s: Stream, vaultName: string, entries: seq<W.Entry>, now: int, uuid: seq<byte>)
    requires Lawful(s.p) && Usable(s)
    ensures Unprotect(s, 0, TreeOf(W.Database(s, vaultName, entries, now, uuid)))
         == Ok((DatabaseNode(s.p, vaultName, entries, now, uuid), W.CostOfAll(entries)))
  {
    hide Lawful, Usable, Unprotect, UnprotectAll, EntryNodes, W.EntryDocs, TreesOf, TreeOf, W.Times, W.Meta, GroupFront, NoneHidden;
    var end := W.CostOfAll(entries);
    var front, es := GroupFront(s.p, vaultName, now, uuid), W.EntryDocs(s, 0, entries, now);
    var meta, group := W.Meta(s.p, vaultName, now), W.Group(s, vaultName, entries, now, uuid);
    var groupNode := Node("Group", map[], TreesOf(front) + EntryNodes(s.p, entries, now), "");
    var rootNode := Node("Root", map[], [groupNode], "");
    GroupFrontQuiet(s.p, vaultName, now, uuid);
    QuietAll(s, 0, front);
    UnprotectEntries(s, 0, entries, now);
    UnprotectConcat(s, 0, TreesOf(front), TreesOf(front), 0, TreesOf(es), EntryNodes(s.p, entries, now), end);
    TreesConcat(front, es);
    GroupIs(s, vaultName, entries, now, uuid);
    PlainTree("Group", front + es);
    UnprotectNode(s, 0, TreeOf(group));
    UnprotectOne(s, 0, TreeOf(group));
    TreesOne(group);
    PlainTree("Root", [group]);
    UnprotectNode(s, 0, TreeOf(Elem("Root", false, "", [group])));
    UnprotectOne(s, 0, TreeOf(Elem("Root", false, "", [group])));
    MetaQuiet(s.p, vaultName, now);
    Quiet(s, 0, meta);
    UnprotectOne(s, 0, TreeOf(meta));
    UnprotectConcat(s, 0, [TreeOf(meta)], [TreeOf(meta)], 0, [TreeOf(Elem("Root", false, "", [group]))], [rootNode], end);
    TreesConcat([meta], [Elem("Root", false, "", [group])]);
    TreesOne(meta);
    TreesOne(Elem("Root", false, "", [group]));
    assert [meta, Elem("Root", false, "", [group])] == [meta] + [Elem("Root", false, "", [group])];
    PlainTree("KeePassFile", [meta, Elem("Root", false, "", [group])]);
    UnprotectNode(s, 0, TreeOf(W.Database(s, vaultName, entries, now, uuid)));
    assert [TreeOf(meta)] + [rootNode] == [TreeOf(meta), rootNode];
  }

  lemma {:induction false} GroupIs(s: Stream, vaultName: string, entries: seq<W.Entry>, now: int, uuid: seq<byte>)
    requires Usable(s)
    ensures W.Group(s, vaultName, entries, now, uuid)
         == Elem("Group", false, "", GroupFront(s.p, vaultName, now, uuid) + W.EntryDocs(s, 0, entries, now))
  {
    hide Usable, W.EntryDocs, W.Times;
  }

  lemma GroupFrontQuiet(p: KC.Platform, vaultName: string, now: int, uuid: seq<byte>)
    ensures forall k :: 0 <= k < |GroupFront(p, vaultName, now, uuid)| ==> NoneHidden(GroupFront(p, vaultName, now, uuid)[k])
  {
    hide W.KdbxTime;
  }

  lemma MetaQuiet(p: KC.Platform, vaultName: string, now: int)
    ensures NoneHidden(W.Meta(p, vaultName, now))
  {
    hide W.KdbxTime;
  }

  lemma {:induction false} MetaBack(p: KC.Platform, vaultName: string, now: int)
    ensures var meta := TreeOf(W.Meta(p, vaultName, now));
            && meta.tag == "Meta" && ChildText(meta.children, "DatabaseName") == Clean(vaultName)
            && ChildText(meta.children, "RecycleBinUUID") == ""
  {
    hide W.KdbxTime, Clean, W.MemoryProtection;
    var ds := W.Meta(p, vaultName, now).children;
    ProtectionTag();
    TreesAt(ds);
    hide TreesOf, ChildEl;
    ChildAt(TreesOf(ds), "DatabaseName", 1);
    NoChild(TreesOf(ds), "RecycleBinUUID");
  }

  lemma ProtectionTag()
    ensures W.MemoryProtection().tag == "MemoryProtection"
  {
  }

  lemma {:induction false} WalkConcat(env: Env, a: seq<Node>, b: seq<Node>, path: seq<string>, recycle: string)
    ensures Walk(env, a + b, path, recycle) == Walk(env, a, path, recycle) + Walk(env, b, path, recycle)
  {
    hide WalkNode;
    if a == [] {
      assert a + b == b;
    } else {
      WalkConcat(env, a[1..], b, path, recycle);
      assert (a + b)[1..] == a[1..] + b;
    }
  }

  lemma {:induction false} GroupFrontNoEntries(env: Env, vaultName: string, now: int, uuid: seq<byte>)
    ensures Walk(env, TreesOf(GroupFront(env.p, vaultName, now, uuid)), [], "") == []
  {
    hide W.KdbxTime, Clean;
    var front := GroupFront(env.p, vaultName, now, uuid);
    TreesAt(front);
    hide TreesOf, Walk;
    WalkNothing(env, TreesOf(front), [], "");
  }

  lemma {:induction false} WalkNothing(env: Env, ns: seq<Node>, path: seq<string>, recycle: string)
    requires forall k :: 0 <= k < |ns| ==> ns[k].tag != "Group" && ns[k].tag != "Entry"
    ensures Walk(env, ns, path, recycle) == []
  {
    if ns != [] {
      WalkNothing(env, ns[1..], path, recycle);
    }
  }

  lemma {:induction false} DatabaseBack(env: Env, vaultName: string, entries: seq<W.Entry>, now: int, uuid: seq<byte>)
    requires Lawful(env.p)
    ensures ContentsOf(env, DatabaseNode(env.p, vaultName, entries, now, uuid))
         == Contents(Clean(vaultName), EntriesBack(env.p, entries, now))
  {
    hide Lawful, EntryNodes, EntriesBack, GroupFront, TreesOf, TreeOf, W.Meta, Walk, ChildText, Clean;
    var doc := DatabaseNode(env.p, vaultName, entries, now, uuid);
    var front := TreesOf(GroupFront(env.p, vaultName, now, uuid));
    MetaBack(env.p, vaultName, now);
    assert Trim("") == "";
    GroupFrontNoEntries(env, vaultName, now, uuid);
    WalkEntries(env, entries, now, "");
    WalkConcat(env, front, EntryNodes(env.p, entries, now), [], "");
    assert [] + EntriesBack(env.p, entries, now) == EntriesBack(env.p, entries, now);
    var root := doc.children[1];
    ChildAt(doc.children, "Meta", 0);
    ChildAt(doc.children, "Root", 1);
    assert root.children[1..] == [];
    assert TopGroups(env, [], "") == [];
    var es := EntriesBack(env.p, entries, now);
    assert es + [] == es;
    assert TopGroups(env, root.children, "") == es;
  }

  lemma LetterTag(tag: string)
    requires tag != "" && forall k :: 0 <= k < |tag| ==> Letter(tag[k])
    ensures forall hidden, text :: WellTagged(Elem(tag, hidden, text, []))
  {
  }

  lemma TimesTagged(p: KC.Platform, created: int, modified: int)
    ensures WellTagged(W.Times(p, created, modified))
  {
    hide W.KdbxTime, WellTagged;
    LetterTag("CreationTime");
    LetterTag("LastModificationTime");
    LetterTag("LastAccessTime");
    LetterTag("ExpiryTime");
    LetterTag("Expires");
    Nested("Times", W.Times(p, created, modified).children);
  }

  lemma MetaTagged(p: KC.Platform, vaultName: string, now: int)
    ensures WellTagged(W.Meta(p, vaultName, now))
  {
    hide W.KdbxTime, W.MemoryProtection, WellTagged;
    ProtectionTagged();
    LetterTag("Generator");
    LetterTag("DatabaseName");
    LetterTag("DatabaseNameChanged");
    Nested("Meta", W.Meta(p, vaultName, now).children);
  }

  lemma ProtectionTagged()
    ensures WellTagged(W.MemoryProtection())
  {
    hide WellTagged;
    LetterTag("ProtectTitle");
    LetterTag("ProtectUserName");
    LetterTag("ProtectPassword");
    LetterTag("ProtectURL");
    LetterTag("ProtectNotes");
    Nested("MemoryProtection", W.MemoryProtection().children);
  }

  lemma FieldTagged(s: Stream, from: nat, f: Field)
    requires Usable(s)
    ensures WellTagged(W.FieldDoc(s, from, f))
  {
    hide Usable, XorAt;
  }

  lemma {:induction false} FieldsTagged(s: Stream, from: nat, fields: seq<Field>)
    requires Usable(s)
    ensures forall k :: 0 <= k < |W.FieldDocs(s, from, fields)| ==> WellTagged(W.FieldDocs(s, from, fields)[k])
    decreases |fields|
  {
    hide Usable, WellTagged, W.FieldDoc, W.Cost;
    if fields != [] {
      FieldTagged(s, from, fields[0]);
      FieldsTagged(s, from + W.Cost(fields[0]), fields[1..]);
    }
  }

  lemma Nested(tag: string, ds: seq<Doc>)
    requires tag != "" && (forall k :: 0 <= k < |tag| ==> Letter(tag[k])) && forall k :: 0 <= k < |ds| ==> WellTagged(ds[k])
    ensures WellTagged(Elem(tag, false, "", ds))
  {
  }

  lemma EntryTagged(s: Stream, from: nat, e: W.Entry, now: int)
    requires Usable(s)
    ensures WellTagged(W.EntryDoc(s, from, e, now))
  {
    hide Usable, WellTagged, W.FieldDocs, W.Times, Join;
    FieldsTagged(s, from, e.fields);
    TimesTagged(s.p, W.FirstNonzero(e.created, now), W.FirstNonzero(W.FirstNonzero(e.modified, e.created), now));
    LetterTag("UUID");
    LetterTag("Tags");
    var ds := W.EntryDoc(s, from, e, now).children;
    forall k | 0 <= k < |ds| ensures WellTagged(ds[k]) {
    }
    Nested("Entry", ds);
  }

  lemma {:induction false} EntriesTagged(s: Stream, from: nat, entries: seq<W.Entry>, now: int)
    requires Usable(s)
    ensures forall k :: 0 <= k < |W.EntryDocs(s, from, entries, now)| ==> WellTagged(W.EntryDocs(s, from, entries, now)[k])
    decreases |entries|
  {
    hide Usable, WellTagged, W.EntryDoc, W.CostOf;
    if entries != [] {
      EntryTagged(s, from, entries[0], now);
      EntriesTagged(s, from + W.CostOf(entries[0].fields), entries[1..], now);
    }
  }

  lemma DatabaseTagged(s: Stream, vaultName: string, entries: seq<W.Entry>, now: int, uuid: seq<byte>)
    requires Usable(s)
    ensures WellTagged(W.Database(s, vaultName, entries, now, uuid))
  {
    hide Usable, W.KdbxTime, W.EntryDocs, W.Times, W.Meta, WellTagged;
    EntriesTagged(s, 0, entries, now);
    TimesTagged(s.p, now, now);
    MetaTagged(s.p, vaultName, now);
    LetterTag("UUID");
    LetterTag("Name");
    var group := W.Group(s, vaultName, entries, now, uuid);
    Nested("Group", group.children);
    Nested("Root", [group]);
    Nested("KeePassFile", [W.Meta(s.p, vaultName, now), Elem("Root", false, "", [group])]);
  }

  lemma DeclarationText()
    ensures '>' !in W.DECLARATION
  {
    assert '>' !in "xml version=\"1.0\"";
    assert '>' !in " encoding=\"utf-8\"";
    assert '>' !in " standalone=\"yes\"?";
  }

  // ---- The theorem ----

  /** buildKdbx: seals the XML of the entries with a stream keyed by the inner random key. */
  method BuildKdbx(p: KC.Platform, seeds: Seeds, rounds: nat, password: string, vaultName: string, entries: seq<W.Entry>, now: int, uuid: seq<byte>)
    returns (file: seq<byte>)
    requires Lawful(p) && ValidSeeds(seeds)
    ensures file == Built(p, seeds, rounds, password, vaultName, entries, now, uuid)
  {
    hide Sealed, W.DatabaseText;
    var h := p.sha512(seeds.inner);
    var xml := W.DatabaseXml(Stream(p, h[..32], h[32..44]), vaultName, entries, now, uuid);
    file := Seal(p, seeds, rounds, password, xml);
  }

  function Built(p: KC.Platform, seeds: Seeds, rounds: nat, password: string, vaultName: string, entries: seq<W.Entry>, now: int, uuid: seq<byte>): seq<byte>
    requires Lawful(p) && ValidSeeds(seeds)
  {
    var h := p.sha512(seeds.inner);
    Sealed(p, seeds, rounds, password, W.DatabaseText(Stream(p, h[..32], h[32..44]), vaultName, entries, now, uuid))
  }

  /**
   * Reading a written file with the same password gives the name and, for every entry, its non-empty fields in
   * order, its tags and its times: protected values exactly, but for a byte order mark in front, plain ones
   * without their control characters.
   */
  lemma {:induction false} RoundTrip(env: Env, seeds: Seeds, rounds: nat, password: string, vaultName: string, entries: seq<W.Entry>, now: int, uuid: seq<byte>)
    requires Lawful(env.p) && ValidSeeds(seeds) && rounds < SAFE
    ensures Reading(env, Built(env.p, seeds, rounds, password, vaultName, entries, now, uuid), password)
         == Ok(Contents(Clean(vaultName), EntriesBack(env.p, entries, now)))
  {
    hide Sealed, Opening, Parse, Unprotect, ContentsOf, W.Database, TreeOf, DatabaseNode, Render, EntriesBack, Clean;
    var h := env.p.sha512(seeds.inner);
    var s := Stream(env.p, h[..32], h[32..44]);
    assert Usable(s);
    var xml := W.DatabaseText(s, vaultName, entries, now, uuid);
    assert xml[0] == '<';
    OpenSealed(env.p, seeds, rounds, password, xml);
    var d := W.Database(s, vaultName, entries, now, uuid);
    DatabaseTagged(s, vaultName, entries, now, uuid);
    DeclarationText();
    ParseDocument(env.x, W.DECLARATION, d);
    DatabaseTag(s, vaultName, entries, now, uuid);
    UnprotectDatabase(s, vaultName, entries, now, uuid);
    DatabaseBack(env, vaultName, entries, now, uuid);
  }

  lemma DatabaseTag(s: Stream, vaultName: string, entries: seq<W.Entry>, now: int, uuid: seq<byte>)
    requires Usable(s)
    ensures TreeOf(W.Database(s, vaultName, entries, now, uuid)).tag == "KeePassFile"
  {
  }
}
