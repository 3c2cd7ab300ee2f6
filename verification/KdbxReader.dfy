/**
 * From the XML of a KDBX file to its entries (unprotectAll, entryFromXml and readKdbx of web/kdbx-read.js).
 */
module KdbxReader {
  import opened Bits
  import opened Bytes
  import opened Sequences
  import opened Strings
  import opened Wrappers
  import opened VaultItem
  import opened KeyStream
  import opened Xml
  import opened KC = KdbxContainer

  /** What the reader takes from outside: the platform, the look-up of odd entity names, and Date.parse. */
  datatype Env = Env(p: KC.Platform, x: Xml.Platform, dateParse: string -> Option<int>)

  // ---- Protected values ----

  predicate IsTrue(v: string) {
    && |v| == 4
    && (v[0] == 't' || v[0] == 'T') && (v[1] == 'r' || v[1] == 'R') && (v[2] == 'u' || v[2] == 'U') && (v[3] == 'e' || v[3] == 'E')
  }

  predicate Hidden(n: Node) {
    "Protected" in n.attrs && IsTrue(n.attrs["Protected"])
  }

  /** The text of one element and the position after it: a protected value takes its length from the stream. */
  function OwnText(s: Stream, from: nat, n: Node): Result<(string, nat)>
    requires Usable(s)
  {
    if n.tag != "Value" || !Hidden(n) then Ok((n.text, from))
    else if Trim(n.text) == "" then Ok(("", from))
    else
      match s.p.atob(Trim(n.text))
      case None => Err(Error.Crash)
      case Some(b) => Ok((TextDecode(s.p, XorAt(s, from, b)), from + |b|))
  }

  /** An element before its children, in document order. */
  function Unprotect(s: Stream, from: nat, n: Node): Result<(Node, nat)>
    requires Usable(s)
    decreases n
  {
    var own :- OwnText(s, from, n);
    var kids :- UnprotectAll(s, own.1, n.children);
    Ok((Node(n.tag, n.attrs, kids.0, own.0), kids.1))
  }

  function UnprotectAll(s: Stream, from: nat, ns: seq<Node>): Result<(seq<Node>, nat)>
    requires Usable(s)
    decreases ns
  {
    if ns == [] then Ok(([], from))
    else
      var first :- Unprotect(s, from, ns[0]);
      var more :- UnprotectAll(s, first.1, ns[1..]);
      Ok(([first.0] + more.0, more.1))
  }

  /** unprotectAll, with the stream itself. */
  method UnprotectTree(n: Node, stream: ChaChaStream) returns (r: Result<Node>)
    requires stream.Valid()
    modifies stream
    ensures stream.Valid()
    ensures match Unprotect(stream.s, old(stream.Used()), n)
            case Err(e) => r == Err(e)
            case Ok(u) => r == Ok(u.0) && stream.Used() == u.1
    decreases n, |n.children| + 1
  {
    hide Usable, Hidden, Trim, TextDecode, XorAt;
    var text := n.text;
    if n.tag == "Value" && Hidden(n) {
      var enc := Trim(n.text);
      text := "";
      if enc != "" {
        var bytes := stream.s.p.atob(enc);
        if bytes.None? {
          return Err(Error.Crash);
        }
        var plain := stream.Xor(bytes.value);
        text := TextDecode(stream.s.p, plain);
      }
    }
    var kids := UnprotectChildren(n.children, stream);
    if kids.Err? {
      return Err(kids.error);
    }
    r := Ok(Node(n.tag, n.attrs, kids.value, text));
  }

  method UnprotectChildren(ns: seq<Node>, stream: ChaChaStream) returns (r: Result<seq<Node>>)
    requires stream.Valid()
    modifies stream
    ensures stream.Valid()
    ensures match UnprotectAll(stream.s, old(stream.Used()), ns)
            case Err(e) => r == Err(e)
            case Ok(u) => r == Ok(u.0) && stream.Used() == u.1
    decreases ns
  {
    hide Usable;
    if ns == [] {
      return Ok([]);
    }
    var first := UnprotectTree(ns[0], stream);
    if first.Err? {
      return Err(first.error);
    }
    var more := UnprotectChildren(ns[1..], stream);
    if more.Err? {
      return Err(more.error);
    }
    r := Ok([first.value] + more.value);
  }

  // ---- Entries ----

  datatype ReadEntry = ReadEntry(fields: seq<Field>, tags: seq<string>, created: Option<int>, modified: Option<int>, group: seq<string>)

  function ChildEl(ns: seq<Node>, tag: string): Option<Node> {
    if ns == [] then None else if ns[0].tag == tag then Some(ns[0]) else ChildEl(ns[1..], tag)
  }

  function ChildText(ns: seq<Node>, tag: string): string {
    match ChildEl(ns, tag)
    case None => ""
    case Some(c) => c.text
  }

  /** Times are dates in older files, and numbers of seconds in base64 in those of version 4. */
  function ParseTime(env: Env, s: string): Option<int> {
    if s == "" then None
    else if '-' in s || ':' in s then env.dateParse(s)
    else
      match env.p.atob(s)
      case None => None
      case Some(b) => if |b| < 8 then None else Some((env.p.toNumber(LeNat(b[..8])) - DOTNET_EPOCH_OFFSET) * 1000)
  }

  /** s.split(/[;,]/) */
  function Split(s: string): (r: seq<string>)
    ensures r != []
  {
    if s == "" then [""]
    else
      var r := Split(s[1..]);
      if s[0] == ';' || s[0] == ',' then [""] + r else [[s[0]] + r[0]] + r[1..]
  }

  /** Every piece trimmed, the empty ones left out. */
  function TrimmedPieces(pieces: seq<string>): seq<string> {
    if pieces == [] then [] else (if Trim(pieces[0]) != "" then [Trim(pieces[0])] else []) + TrimmedPieces(pieces[1..])
  }

  function FieldOf(c: Node): Field {
    match ChildEl(c.children, "Value")
    case None => Field(ChildText(c.children, "Key"), "", false)
    case Some(v) => Field(ChildText(c.children, "Key"), v.text, Hidden(v))
  }

  /** entryFromXml: what the children in turn add to an entry. */
  function EntryOf(env: Env, ns: seq<Node>, path: seq<string>): ReadEntry {
    if ns == [] then ReadEntry([], [], None, None, path)
    else
      var e, c := EntryOf(env, ns[..|ns| - 1], path), ns[|ns| - 1];
      if c.tag == "String" then e.(fields := e.fields + [FieldOf(c)])
      else if c.tag == "Times" then
        e.(created := ParseTime(env, ChildText(c.children, "CreationTime")), modified := ParseTime(env, ChildText(c.children, "LastModificationTime")))
      else if c.tag == "Tags" then e.(tags := TrimmedPieces(Split(c.text)))
      else e
  }

  method EntryFromXml(env: Env, el: Node, path: seq<string>) returns (e: ReadEntry)
    ensures e == EntryOf(env, el.children, path)
  {
    hide FieldOf, ParseTime, TrimmedPieces, Split;
    var fields, tags, created, modified := [], [], None, None;
    for k := 0 to |el.children|
      invariant EntryOf(env, el.children[..k], path) == ReadEntry(fields, tags, created, modified, path)
    {
      assert el.children[..k + 1][..k] == el.children[..k];
      var c := el.children[k];
      if c.tag == "String" {
        fields := fields + [FieldOf(c)];
      } else if c.tag == "Times" {
        created := ParseTime(env, ChildText(c.children, "CreationTime"));
        modified := ParseTime(env, ChildText(c.children, "LastModificationTime"));
      } else if c.tag == "Tags" {
        tags := TrimmedPieces(Split(c.text));
      }
    }
    assert el.children[..|el.children|] == el.children;
    e := ReadEntry(fields, tags, created, modified, path);
  }

  /** walkGroup on one child of a group: entries, and those of a group inside that is not the recycle bin. */
  function WalkNode(env: Env, c: Node, path: seq<string>, recycle: string): seq<ReadEntry>
    decreases c
  {
    if c.tag == "Group" then
      if recycle != "" && Trim(ChildText(c.children, "UUID")) == recycle then []
      else Walk(env, c.children, path + [Trim(ChildText(c.children, "Name"))], recycle)
    else if c.tag == "Entry" then [EntryOf(env, c.children, path)]
    else []
  }

  function Walk(env: Env, ns: seq<Node>, path: seq<string>, recycle: string): seq<ReadEntry>
    decreases ns
  {
    if ns == [] then [] else WalkNode(env, ns[0], path, recycle) + Walk(env, ns[1..], path, recycle)
  }

  /** The top groups of the root; their own names are not part of any path. */
  function TopGroups(env: Env, ns: seq<Node>, recycle: string): seq<ReadEntry> {
    if ns == [] then []
    else (if ns[0].tag == "Group" then Walk(env, ns[0].children, [], recycle) else []) + TopGroups(env, ns[1..], recycle)
  }

  datatype Contents = Contents(name: string, entries: seq<ReadEntry>)

  function ContentsOf(env: Env, doc: Node): Contents {
    var meta := ChildEl(doc.children, "Meta");
    var recycle := if meta.Some? then Trim(ChildText(meta.value.children, "RecycleBinUUID")) else "";
    var entries := match ChildEl(doc.children, "Root")
      case None => []
      case Some(root) => TopGroups(env, root.children, recycle);
    Contents(if meta.Some? then ChildText(meta.value.children, "DatabaseName") else "", entries)
  }

  /** parseXml: the document element of the tree. */
  function DocumentOf(parsed: Parsed): Result<Node> {
    match parsed
    case Crash => Err(Error.Crash)
    case Corrupt => Err(Error.Corrupt)
    case Tree(root) =>
      match ChildEl(root.children, "KeePassFile")
      case None => Err(Error.Corrupt)
      case Some(doc) => Ok(doc)
  }

  /** readKdbx, for files of version 4. */
  function Reading(env: Env, bytes: seq<byte>, password: string): Result<Contents>
    requires Lawful(env.p)
  {
    var content :- Opening(env.p, bytes, password);
    var doc :- DocumentOf(Parse(env.x, [ROOT], content.xml));
    var unprotected :- Unprotect(Stream(env.p, content.key, content.nonce), 0, doc);
    Ok(ContentsOf(env, unprotected.0))
  }

  method ReadKdbx(env: Env, bytes: seq<byte>, password: string) returns (r: Result<Contents>)
    requires Lawful(env.p)
    ensures r == Reading(env, bytes, password)
  {
    hide Opening, Parse, DocumentOf, Unprotect, ContentsOf;
    var content := KC.Open(env.p, bytes, password);
    if content.Err? {
      return Err(content.error);
    }
    var parsed := ParseTree(env.x, content.value.xml);
    var doc := DocumentOf(parsed);
    if doc.Err? {
      return Err(doc.error);
    }
    var stream := new ChaChaStream(Stream(env.p, content.value.key, content.value.nonce));
    var unprotected := UnprotectTree(doc.value, stream);
    if unprotected.Err? {
      return Err(unprotected.error);
    }
    r := Ok(ContentsOf(env, unprotected.value));
  }

  // ---- Which entries there are ----

  /** The elements on the way to an element, which is given by its position among its siblings on every level. */
  function NodesOn(ns: seq<Node>, at: seq<nat>): seq<Node>
    decreases |at|
  {
    if at == [] || at[0] >= |ns| then [] else [ns[at[0]]] + NodesOn(ns[at[0]].children, at[1..])
  }

  /** An entry of which every element above is a group and none is the recycle bin. */
  predicate Visible(ns: seq<Node>, at: seq<nat>, recycle: string) {
    var way := NodesOn(ns, at);
    && |way| == |at| > 0 && way[|way| - 1].tag == "Entry"
    && forall k :: 0 <= k < |way| - 1 ==>
         way[k].tag == "Group" && !(recycle != "" && Trim(ChildText(way[k].children, "UUID")) == recycle)
  }

  /** The names of the groups on the way. */
  function NamesOn(way: seq<Node>): seq<string> {
    if |way| <= 1 then [] else [Trim(ChildText(way[0].children, "Name"))] + NamesOn(way[1..])
  }

  function EntryAt(env: Env, ns: seq<Node>, at: seq<nat>, path: seq<string>): ReadEntry {
    var way := NodesOn(ns, at);
    EntryOf(env, if way == [] then [] else way[|way| - 1].children, path + NamesOn(way))
  }

  function EntriesAt(env: Env, ns: seq<Node>, ats: seq<seq<nat>>, path: seq<string>): (r: seq<ReadEntry>)
    ensures |r| == |ats| && forall i :: 0 <= i < |r| ==> r[i] == EntryAt(env, ns, ats[i], path)
  {
    seq(|ats|, i requires 0 <= i < |ats| => EntryAt(env, ns, ats[i], path))
  }

  /** Document order. */
  predicate Before(a: seq<nat>, b: seq<nat>) {
    a != [] && b != [] && (a[0] < b[0] || (a[0] == b[0] && Before(a[1..], b[1..])))
  }

  ghost predicate InOrder(ats: seq<seq<nat>>) {
    forall i, j :: 0 <= i < j < |ats| ==> Before(ats[i], ats[j])
  }

  /** The positions of all visible entries, in document order. */
  ghost predicate Positions(ns: seq<Node>, recycle: string, ats: seq<seq<nat>>) {
    (forall i :: 0 <= i < |ats| ==> Visible(ns, ats[i], recycle)) && (forall at :: Visible(ns, at, recycle) ==> at in ats) && InOrder(ats)
  }

  function Under(ats: seq<seq<nat>>): (r: seq<seq<nat>>)
    ensures |r| == |ats| && forall i :: 0 <= i < |r| ==> r[i] == [0] + ats[i]
  {
    seq(|ats|, i requires 0 <= i < |ats| => [0] + ats[i])
  }

  function Later(ats: seq<seq<nat>>): (r: seq<seq<nat>>)
    requires forall i :: 0 <= i < |ats| ==> ats[i] != []
    ensures |r| == |ats| && forall i :: 0 <= i < |r| ==> r[i] == [ats[i][0] + 1] + ats[i][1..]
  {
    seq(|ats|, i requires 0 <= i < |ats| => [ats[i][0] + 1] + ats[i][1..])
  }

  /** A position among the later siblings. */
  lemma NodesLater(ns: seq<Node>, at: seq<nat>)
    requires ns != [] && at != [] && at[0] > 0
    ensures NodesOn(ns, at) == NodesOn(ns[1..], [at[0] - 1] + at[1..])
  {
    var less := [at[0] - 1] + at[1..];
    assert less[1..] == at[1..];
  }

  lemma VisibleLater(ns: seq<Node>, at: seq<nat>, recycle: string)
    requires ns != [] && at != [] && at[0] > 0
    ensures Visible(ns, at, recycle) == Visible(ns[1..], [at[0] - 1] + at[1..], recycle)
  {
    NodesLater(ns, at);
  }

  /** A position below the first element. */
  lemma VisibleFirst(ns: seq<Node>, at: seq<nat>, recycle: string)
    requires ns != [] && at != [] && at[0] == 0
    ensures var c := ns[0];
            Visible(ns, at, recycle) ==
            if |at| == 1 then c.tag == "Entry"
            else c.tag == "Group" && !(recycle != "" && Trim(ChildText(c.children, "UUID")) == recycle) && Visible(c.children, at[1..], recycle)
  {
    hide Trim, ChildText;
    var way, more := NodesOn(ns, at), NodesOn(ns[0].children, at[1..]);
    assert way == [ns[0]] + more;
    if |at| == 1 {
      assert more == [];
    } else if more != [] {
      var stops := (n: Node) => n.tag == "Group" && !(recycle != "" && Trim(ChildText(n.children, "UUID")) == recycle);
      FirstAndRest(ns[0], more, stops);
    }
  }

  lemma FirstAndRest(first: Node, more: seq<Node>, ok: Node -> bool)
    requires more != []
    ensures var way := [first] + more;
            && way[|way| - 1] == more[|more| - 1]
            && ((forall k :: 0 <= k < |way| - 1 ==> ok(way[k])) <==> ok(first) && forall k :: 0 <= k < |more| - 1 ==> ok(more[k]))
  {
    var way := [first] + more;
    assert way[0] == first && forall k :: 0 < k < |way| ==> way[k] == more[k - 1];
    if forall k :: 0 <= k < |way| - 1 ==> ok(way[k]) {
      forall k | 0 <= k < |more| - 1 ensures ok(more[k]) {
        assert ok(way[k + 1]);
      }
    }
  }

  /** The positions among the later siblings, seen from the whole list. */
  lemma LaterSound(ns: seq<Node>, later: seq<seq<nat>>, recycle: string, i: nat)
    requires ns != [] && (forall k :: 0 <= k < |later| ==> later[k] != []) && i < |later|
    ensures var at := Later(later)[i];
            at != [] && at[0] > 0 && NodesOn(ns, at) == NodesOn(ns[1..], later[i]) && Visible(ns, at, recycle) == Visible(ns[1..], later[i], recycle)
  {
    hide NodesOn, Visible;
    var at := Later(later)[i];
    assert [at[0] - 1] + at[1..] == later[i];
    VisibleLater(ns, at, recycle);
    NodesLater(ns, at);
  }

  lemma LaterComplete(ns: seq<Node>, later: seq<seq<nat>>, recycle: string, at: seq<nat>)
    requires ns != [] && (forall k :: 0 <= k < |later| ==> later[k] != []) && Positions(ns[1..], recycle, later)
    requires Visible(ns, at, recycle) && at != [] && at[0] > 0
    ensures at in Later(later)
  {
    hide NodesOn, Visible, InOrder;
    VisibleLater(ns, at, recycle);
    var less := [at[0] - 1] + at[1..];
    var i :| 0 <= i < |later| && later[i] == less;
    assert Later(later)[i] == at;
  }

  lemma LaterOrdered(later: seq<seq<nat>>)
    requires (forall k :: 0 <= k < |later| ==> later[k] != []) && InOrder(later)
    ensures InOrder(Later(later))
  {
    forall i, j | 0 <= i < j < |later| ensures Before(Later(later)[i], Later(later)[j]) {
      var a, b := Later(later)[i], Later(later)[j];
      assert a[1..] == later[i][1..] && b[1..] == later[j][1..];
      assert Before(later[i], later[j]);
    }
  }

  lemma UnderOrdered(ats: seq<seq<nat>>)
    requires InOrder(ats)
    ensures InOrder(Under(ats))
  {
    forall i, j | 0 <= i < j < |ats| ensures Before(Under(ats)[i], Under(ats)[j]) {
      assert ([0] + ats[i])[1..] == ats[i] && ([0] + ats[j])[1..] == ats[j];
    }
  }

  lemma Ascending(first: seq<seq<nat>>, later: seq<seq<nat>>)
    requires InOrder(first) && InOrder(later)
    requires forall i :: 0 <= i < |first| ==> first[i] != [] && first[i][0] == 0
    requires forall i :: 0 <= i < |later| ==> later[i] != [] && later[i][0] > 0
    ensures InOrder(first + later)
  {
  }

  lemma Somewhere(ns: seq<Node>, at: seq<nat>, recycle: string)
    ensures Visible(ns, at, recycle) ==> at != [] && NodesOn(ns, at) != [] && ns != []
  {
  }

  lemma SomewhereAll(ns: seq<Node>, ats: seq<seq<nat>>, recycle: string)
    requires Positions(ns, recycle, ats)
    ensures forall i :: 0 <= i < |ats| ==> ats[i] != []
  {
    hide Visible, InOrder;
    forall i | 0 <= i < |ats| ensures ats[i] != [] {
      Somewhere(ns, ats[i], recycle);
    }
  }

  /** The positions of the first element and below it. */
  function FirstPositions(c: Node, recycle: string, below: seq<seq<nat>>): seq<seq<nat>> {
    if c.tag == "Entry" then [[0]]
    else if c.tag == "Group" && !(recycle != "" && Trim(ChildText(c.children, "UUID")) == recycle) then Under(below)
    else []
  }

  lemma FirstSound(ns: seq<Node>, recycle: string, below: seq<seq<nat>>, i: nat)
    requires ns != [] && Positions(ns[0].children, recycle, below) && i < |FirstPositions(ns[0], recycle, below)|
    ensures var at := FirstPositions(ns[0], recycle, below)[i]; at != [] && at[0] == 0 && Visible(ns, at, recycle)
  {
    hide Visible, Trim, ChildText, InOrder;
    SomewhereAll(ns[0].children, below, recycle);
    var at := FirstPositions(ns[0], recycle, below)[i];
    VisibleFirst(ns, at, recycle);
    if |at| > 1 {
      assert at[1..] == below[i];
    }
  }

  lemma FirstComplete(ns: seq<Node>, recycle: string, below: seq<seq<nat>>, at: seq<nat>)
    requires ns != [] && Positions(ns[0].children, recycle, below) && Visible(ns, at, recycle) && at != [] && at[0] == 0
    ensures at in FirstPositions(ns[0], recycle, below)
  {
    hide Visible, Trim, ChildText, InOrder;
    VisibleFirst(ns, at, recycle);
    if |at| == 1 {
      assert at == [0] && FirstPositions(ns[0], recycle, below)[0] == at;
    } else {
      var i :| 0 <= i < |below| && below[i] == at[1..];
      assert Under(below)[i] == at;
    }
  }

  lemma FirstOrdered(c: Node, recycle: string, below: seq<seq<nat>>)
    requires InOrder(below)
    ensures InOrder(FirstPositions(c, recycle, below))
  {
    hide Trim, ChildText;
    UnderOrdered(below);
  }

  lemma PositionsComplete(ns: seq<Node>, recycle: string, below: seq<seq<nat>>, later: seq<seq<nat>>, at: seq<nat>)
    requires ns != [] && Positions(ns[0].children, recycle, below) && Positions(ns[1..], recycle, later)
    requires (forall i :: 0 <= i < |later| ==> later[i] != []) && Visible(ns, at, recycle)
    ensures at in FirstPositions(ns[0], recycle, below) + Later(later)
  {
    hide Visible, InOrder, FirstPositions, Positions;
    Somewhere(ns, at, recycle);
    if at[0] > 0 {
      LaterComplete(ns, later, recycle, at);
    } else {
      FirstComplete(ns, recycle, below, at);
    }
  }

  /** The positions below the first element and those among the later ones. */
  lemma PositionsJoined(ns: seq<Node>, recycle: string, below: seq<seq<nat>>, later: seq<seq<nat>>)
    requires ns != [] && Positions(ns[0].children, recycle, below) && Positions(ns[1..], recycle, later)
    ensures forall i :: 0 <= i < |later| ==> later[i] != []
    ensures Positions(ns, recycle, FirstPositions(ns[0], recycle, below) + Later(later))
  {
    hide Visible, InOrder, FirstPositions;
    SomewhereAll(ns[1..], later, recycle);
    var first, moved := FirstPositions(ns[0], recycle, below), Later(later);
    forall i | 0 <= i < |first| ensures first[i] != [] && first[i][0] == 0 && Visible(ns, first[i], recycle) {
      FirstSound(ns, recycle, below, i);
    }
    forall i | 0 <= i < |moved| ensures moved[i] != [] && moved[i][0] > 0 && Visible(ns, moved[i], recycle) {
      LaterSound(ns, later, recycle, i);
    }
    forall at | Visible(ns, at, recycle) ensures at in first + moved {
      PositionsComplete(ns, recycle, below, later, at);
    }
    FirstOrdered(ns[0], recycle, below);
    LaterOrdered(later);
    Ascending(first, moved);
  }

  lemma EntriesOfSum(env: Env, ns: seq<Node>, a: seq<seq<nat>>, b: seq<seq<nat>>, path: seq<string>)
    ensures EntriesAt(env, ns, a + b, path) == EntriesAt(env, ns, a, path) + EntriesAt(env, ns, b, path)
  {
    hide EntryAt;
  }

  lemma EntriesLater(env: Env, ns: seq<Node>, path: seq<string>, recycle: string, later: seq<seq<nat>>)
    requires ns != [] && forall i :: 0 <= i < |later| ==> later[i] != []
    ensures EntriesAt(env, ns, Later(later), path) == EntriesAt(env, ns[1..], later, path)
  {
    hide EntryOf, NodesOn, NamesOn, Visible;
    forall i | 0 <= i < |later| ensures EntryAt(env, ns, Later(later)[i], path) == EntryAt(env, ns[1..], later[i], path) {
      LaterSound(ns, later, recycle, i);
    }
  }

  lemma EntriesBelow(env: Env, ns: seq<Node>, path: seq<string>, recycle: string, below: seq<seq<nat>>)
    requires ns != [] && Positions(ns[0].children, recycle, below)
    ensures EntriesAt(env, ns, Under(below), path) == EntriesAt(env, ns[0].children, below, path + [Trim(ChildText(ns[0].children, "Name"))])
  {
    hide EntryAt, Visible, InOrder, Trim, ChildText;
    forall i | 0 <= i < |below|
      ensures EntryAt(env, ns, Under(below)[i], path) == EntryAt(env, ns[0].children, below[i], path + [Trim(ChildText(ns[0].children, "Name"))])
    {
      Somewhere(ns[0].children, below[i], recycle);
      DeeperEntry(env, ns, below[i], path);
    }
  }

  lemma DeeperEntry(env: Env, ns: seq<Node>, at: seq<nat>, path: seq<string>)
    requires ns != [] && NodesOn(ns[0].children, at) != []
    ensures EntryAt(env, ns, [0] + at, path) == EntryAt(env, ns[0].children, at, path + [Trim(ChildText(ns[0].children, "Name"))])
  {
    hide Trim, ChildText, EntryOf;
    var more, name := NodesOn(ns[0].children, at), Trim(ChildText(ns[0].children, "Name"));
    assert ([0] + at)[1..] == at;
    TailOfSum([ns[0]], more);
    assert [ns[0]][1..] + more == more;
    Grouped(path, [name], NamesOn(more));
  }

  lemma EntryItself(env: Env, ns: seq<Node>, path: seq<string>)
    requires ns != []
    ensures EntriesAt(env, ns, [[0]], path) == [EntryOf(env, ns[0].children, path)]
  {
    hide EntryOf;
    assert NodesOn(ns, [0]) == [ns[0]] && path + [] == path;
  }

  /**
   * The walk through the groups finds exactly the entries that have no recycled group above them, in document order,
   * each with the names of the groups on its way.
   */
  lemma {:induction false} WalkExact(env: Env, ns: seq<Node>, path: seq<string>, recycle: string) returns (ats: seq<seq<nat>>)
    ensures Positions(ns, recycle, ats) && Walk(env, ns, path, recycle) == EntriesAt(env, ns, ats, path)
    decreases ns
  {
    hide Visible, InOrder, EntryOf, Trim, ChildText, NodesOn;
    if ns == [] {
      ats := [];
      NothingThere(recycle);
    } else {
      var c := ns[0];
      var below := WalkExact(env, c.children, path + [Trim(ChildText(c.children, "Name"))], recycle);
      var later := WalkExact(env, ns[1..], path, recycle);
      PositionsJoined(ns, recycle, below, later);
      var first := FirstPositions(c, recycle, below);
      ats := first + Later(later);
      EntriesOfSum(env, ns, first, Later(later), path);
      EntriesLater(env, ns, path, recycle, later);
      EntriesBelow(env, ns, path, recycle, below);
      EntryItself(env, ns, path);
    }
  }

  lemma NothingThere(recycle: string)
    ensures Positions([], recycle, [])
  {
    hide Visible;
    forall at ensures !Visible([], at, recycle) {
      Somewhere([], at, recycle);
    }
  }
}
