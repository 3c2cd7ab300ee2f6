/**
 * XML as the exporter escapes it (web/export.js) and the reader parses it (web/kdbx-read.js).
 */
module Xml {
  import opened Sequences
  import opened Strings
  import opened Wrappers

  // ---- Escaping ----

  /** Characters that XML 1.0 does not allow and the writer drops. */
  predicate Control(c: char) {
    c <= '\U{0008}' || c == '\U{000B}' || c == '\U{000C}' || '\U{000E}' <= c <= '\U{001F}'
  }

  function Clean(s: string): string {
    if s == "" then "" else (if Control(s[0]) then "" else [s[0]]) + Clean(s[1..])
  }

  function ReplaceAll(s: string, c: char, to: string): string {
    if s == "" then "" else (if s[0] == c then to else [s[0]]) + ReplaceAll(s[1..], c, to)
  }

  /** xmlEsc: five replacements, one after the other. */
  function Escape(s: string): string {
    ReplaceAll(ReplaceAll(ReplaceAll(ReplaceAll(Clean(s), '&', "&amp;"), '<', "&lt;"), '>', "&gt;"), '"', "&quot;")
  }

  function EscapedChar(c: char): string {
    if Control(c) then ""
    else if c == '&' then "&amp;"
    else if c == '<' then "&lt;"
    else if c == '>' then "&gt;"
    else if c == '"' then "&quot;"
    else [c]
  }

  function Escaped(s: string): string {
    if s == "" then "" else EscapedChar(s[0]) + Escaped(s[1..])
  }

  lemma {:induction false} ReplaceConcat(s: string, t: string, c: char, to: string)
    ensures ReplaceAll(s + t, c, to) == ReplaceAll(s, c, to) + ReplaceAll(t, c, to)
  {
    if s == "" {
      assert s + t == t;
    } else {
      ReplaceConcat(s[1..], t, c, to);
      TailOfSum(s, t);
      Grouped(if s[0] == c then to else [s[0]], ReplaceAll(s[1..], c, to), ReplaceAll(t, c, to));
    }
  }

  lemma {:induction false} ReplaceNothing(s: string, c: char, to: string)
    requires c !in s
    ensures ReplaceAll(s, c, to) == s
  {
    if s != "" {
      ReplaceNothing(s[1..], c, to);
    }
  }

  lemma {:induction false} ReplaceOne(c: char, d: char, to: string)
    ensures ReplaceAll([c], d, to) == if c == d then to else [c]
  {
    assert [c][1..] == "";
  }

  /** No replacement touches what an earlier one wrote: the five together treat every character by itself. */
  lemma {:induction false} EscapeIsCharwise(s: string)
    ensures Escape(s) == Escaped(s)
  {
    if s != "" {
      EscapeIsCharwise(s[1..]);
      var head := if Control(s[0]) then "" else [s[0]];
      EscapeHead(s[0]);
      hide ReplaceAll, Escaped, EscapedChar;
      assert Clean(s) == head + Clean(s[1..]);
      var tail := Clean(s[1..]);
      var a, a' := ReplaceAll(head, '&', "&amp;"), ReplaceAll(tail, '&', "&amp;");
      var b, b' := ReplaceAll(a, '<', "&lt;"), ReplaceAll(a', '<', "&lt;");
      var c, c' := ReplaceAll(b, '>', "&gt;"), ReplaceAll(b', '>', "&gt;");
      ReplaceConcat(head, tail, '&', "&amp;");
      ReplaceConcat(a, a', '<', "&lt;");
      ReplaceConcat(b, b', '>', "&gt;");
      ReplaceConcat(c, c', '"', "&quot;");
      EscapedFirst(s);
    }
  }

  lemma {:induction false} EscapedFirst(s: string)
    requires s != ""
    ensures Escaped(s) == EscapedChar(s[0]) + Escaped(s[1..])
  {
  }

  lemma EscapeHead(c: char)
    ensures var head := if Control(c) then "" else [c];
            ReplaceAll(ReplaceAll(ReplaceAll(ReplaceAll(head, '&', "&amp;"), '<', "&lt;"), '>', "&gt;"), '"', "&quot;") == EscapedChar(c)
  {
    hide ReplaceAll;
    if Control(c) {
      ReplaceNothing("", '&', "&amp;");
      ReplaceNothing("", '<', "&lt;");
      ReplaceNothing("", '>', "&gt;");
      ReplaceNothing("", '"', "&quot;");
    } else {
      ReplaceOne(c, '&', "&amp;");
      ReplaceOne(c, '<', "&lt;");
      ReplaceOne(c, '>', "&gt;");
      ReplaceOne(c, '"', "&quot;");
      ReplaceNothing("&amp;", '<', "&lt;");
      ReplaceNothing("&amp;", '>', "&gt;");
      ReplaceNothing("&amp;", '"', "&quot;");
      ReplaceNothing("&lt;", '>', "&gt;");
      ReplaceNothing("&lt;", '"', "&quot;");
      ReplaceNothing("&gt;", '"', "&quot;");
    }
  }

  lemma {:induction false} EscapedIsPlain(s: string)
    ensures '<' !in Escaped(s) && '>' !in Escaped(s) && '"' !in Escaped(s)
  {
    if s != "" {
      EscapedIsPlain(s[1..]);
    }
  }

  // ---- Decoding ----

  predicate HexDigit(c: char) {
    '0' <= c <= '9' || 'a' <= c <= 'f' || 'A' <= c <= 'F'
  }

  predicate Letter(c: char) {
    'a' <= c <= 'z' || 'A' <= c <= 'Z'
  }

  /** The length of the longest run of such characters at the start. */
  function Run(s: string, f: char -> bool): (n: nat)
    ensures n <= |s| && (n < |s| ==> !f(s[n])) && forall k :: 0 <= k < n ==> f(s[k])
  {
    if s != "" && f(s[0]) then 1 + Run(s[1..], f) else 0
  }

  lemma {:induction false} RunIs(s: string, f: char -> bool, n: nat)
    requires n < |s| && !f(s[n]) && forall k :: 0 <= k < n ==> f(s[k])
    ensures Run(s, f) == n
  {
    var m := Run(s, f);
  }

  /** The length of an entity reference at the start of s, 0 if there is none. */
  function EntityLength(s: string): (n: nat)
    ensures n <= |s| && (n > 0 ==> n >= 3)
  {
    if |s| < 3 || s[0] != '&' then 0
    else if s[1] == '#' then
      var k := if s[2] == 'x' then 3 else 2;
      var r := Run(s[k..], HexDigit);
      if r > 0 && k + r < |s| && s[k + r] == ';' then k + r + 1 else 0
    else
      var r := Run(s[1..], Letter);
      if r > 0 && 1 + r < |s| && s[1 + r] == ';' then r + 2 else 0
  }

  function DigitValue(c: char): nat
    requires HexDigit(c)
  {
    if '0' <= c <= '9' then c as int - '0' as int
    else if 'a' <= c <= 'f' then c as int - 'a' as int + 10
    else c as int - 'A' as int + 10
  }

  /** parseInt: the digits in front, none for no digit. */
  function ParseInt(s: string, radix: nat, acc: nat): nat {
    if s != "" && HexDigit(s[0]) && DigitValue(s[0]) < radix then ParseInt(s[1..], radix, acc * radix + DigitValue(s[0])) else acc
  }

  datatype Platform = Platform(inherited: string -> Option<string>)

  /** The text an entity stands for; none for a number that is no character. inherited is what the lookup table has from elsewhere. */
  function EntityText(p: Platform, ent: string): Option<string>
    requires ent != ""
  {
    if ent[0] == '#' then
      var isHex := |ent| > 1 && ent[1] == 'x';
      var digits := if isHex then ent[2..] else ent[1..];
      if digits == "" || !HexDigit(digits[0]) || (!isHex && DigitValue(digits[0]) >= 10) then Some("&" + ent + ";")
      else
        var n := ParseInt(digits, if isHex then 16 else 10, 0);
        if n < 0xD800 || 0xE000 <= n < 0x11_0000 then Some([n as char]) else None
    else if ent == "amp" then Some("&")
    else if ent == "lt" then Some("<")
    else if ent == "gt" then Some(">")
    else if ent == "quot" then Some("\"")
    else if ent == "apos" then Some("'")
    else
      match p.inherited(ent)
      case None => Some("&" + ent + ";")
      case Some(t) => Some(t)
  }

  function ConcatText(a: Option<string>, b: Option<string>): Option<string> {
    if a.Some? && b.Some? then Some(a.value + b.value) else None
  }

  /** xmlDecode. */
  function Decode(p: Platform, s: string): Option<string>
    decreases |s|
  {
    if s == "" then Some("")
    else
      var n := EntityLength(s);
      if n > 0 then ConcatText(EntityText(p, s[1..n - 1]), Decode(p, s[n..]))
      else ConcatText(Some([s[0]]), Decode(p, s[1..]))
  }

  /** The short cut for a text without an ampersand. */
  lemma {:induction false} NothingToDecode(p: Platform, s: string)
    requires '&' !in s
    ensures Decode(p, s) == Some(s)
  {
    if s != "" {
      NothingToDecode(p, s[1..]);
      assert s == [s[0]] + s[1..];
    }
  }

  lemma {:induction false} NamedEntity(p: Platform, name: string, rest: string)
    requires name != "" && forall k :: 0 <= k < |name| ==> Letter(name[k])
    ensures Decode(p, "&" + name + ";" + rest) == ConcatText(EntityText(p, name), Decode(p, rest))
  {
    hide EntityText;
    var s := "&" + name + ";" + rest;
    assert s[1..] == name + (";" + rest);
    assert s[1] == name[0];
    RunIs(s[1..], Letter, |name|);
    assert EntityLength(s) == |name| + 2;
    assert s[1..|name| + 1] == name && s[|name| + 2..] == rest;
  }

  lemma {:induction false} PlainFirst(p: Platform, c: char, rest: string)
    requires c != '&'
    ensures Decode(p, [c] + rest) == ConcatText(Some([c]), Decode(p, rest))
  {
    assert ([c] + rest)[1..] == rest;
  }

  lemma {:induction false} EscapedCharBack(p: Platform, c: char, rest: string)
    ensures Decode(p, EscapedChar(c) + rest) == if Control(c) then Decode(p, rest) else ConcatText(Some([c]), Decode(p, rest))
  {
    hide Decode;
    if Control(c) {
      assert "" + rest == rest;
    } else if c == '&' {
      NamedEntity(p, "amp", rest);
      assert "&" + "amp" + ";" == "&amp;";
    } else if c == '<' {
      NamedEntity(p, "lt", rest);
      assert "&" + "lt" + ";" == "&lt;";
    } else if c == '>' {
      NamedEntity(p, "gt", rest);
      assert "&" + "gt" + ";" == "&gt;";
    } else if c == '"' {
      NamedEntity(p, "quot", rest);
      assert "&" + "quot" + ";" == "&quot;";
    } else {
      PlainFirst(p, c, rest);
    }
  }

  /** Decoding what was escaped gives back the text without its control characters. */
  lemma {:induction false} DecodeEscaped(p: Platform, s: string)
    ensures Decode(p, Escaped(s)) == Some(Clean(s))
  {
    hide EscapedChar;
    if s != "" {
      EscapedCharBack(p, s[0], Escaped(s[1..]));
      DecodeEscaped(p, s[1..]);
      hide Decode;
      assert "" + Clean(s[1..]) == Clean(s[1..]);
    }
  }

  // ---- Searching ----

  predicate StartsWith(s: string, pat: string) {
    |pat| <= |s| && s[..|pat|] == pat
  }

  /** s.indexOf(pat); none for -1. */
  function Find(s: string, pat: string): (r: Option<nat>)
    ensures r.Some? ==> r.value + |pat| <= |s| && s[r.value..r.value + |pat|] == pat
  {
    if StartsWith(s, pat) then Some(0)
    else if s == "" then None
    else
      match Find(s[1..], pat)
      case None => None
      case Some(k) => Some(k + 1)
  }

  /** s.indexOf(c) for one character. */
  function FindChar(s: string, c: char): (r: Option<nat>)
    ensures r.Some? ==> r.value < |s| && s[r.value] == c && c !in s[..r.value]
    ensures r.None? ==> c !in s
  {
    if s == "" then None
    else if s[0] == c then Some(0)
    else
      match FindChar(s[1..], c)
      case None => None
      case Some(k) => assert s[..k + 1] == [s[0]] + s[1..][..k]; Some(k + 1)
  }

  lemma {:induction false} FindCharAt(a: string, c: char, rest: string)
    requires c !in a
    ensures FindChar(a + [c] + rest, c) == Some(|a|)
  {
    var s := a + [c] + rest;
    var r := FindChar(s, c);
    assert s[|a|] == c;
  }

  // ---- Trees ----

  type Attributes = map<string, string>

  datatype Node = Node(tag: string, attrs: Attributes, children: seq<Node>, text: string)

  datatype Parsed = Tree(root: Node) | Corrupt | Crash

  // ---- Attributes ----

  predicate NameChar(c: char) {
    !IsSpace(c) && c != '='
  }

  function SkipSpaces(s: string): (r: string)
    ensures |r| <= |s|
  {
    if s != "" && IsSpace(s[0]) then SkipSpaces(s[1..]) else s
  }

  /** A name, an equals sign and a quoted value at the start of s: the name, the value and what follows. */
  function OneAttribute(s: string): (r: Option<(string, string, string)>)
    ensures r.Some? ==> |r.value.2| < |s|
  {
    var e := Run(s, NameChar);
    var a := SkipSpaces(s[e..]);
    if e == 0 || a == "" || a[0] != '=' then None
    else
      var b := SkipSpaces(a[1..]);
      if b == "" || (b[0] != '"' && b[0] != '\'') then None
      else
        match FindChar(b[1..], b[0])
        case None => None
        case Some(q) => Some((s[..e], b[1..][..q], b[1..][q + 1..]))
  }

  /** Every attribute of a tag, the last of each name; none where a value cannot be decoded. */
  function ReadAttributes(p: Platform, s: string): Option<Attributes>
    decreases |s|
  {
    if s == "" then Some(map[])
    else if !NameChar(s[0]) then ReadAttributes(p, s[1..])
    else
      match OneAttribute(s)
      case None => ReadAttributes(p, s[Run(s, NameChar)..])
      case Some(a) =>
        var value, more := Decode(p, a.1), ReadAttributes(p, a.2);
        if value.Some? && more.Some? then Some(map[a.0 := value.value] + more.value) else None
  }

  /** The element of a start tag's body. */
  function Element(p: Platform, body: string): Option<Node> {
    var k := Run(body, c => !IsSpace(c));
    if k == |body| then Some(Node(body, map[], [], ""))
    else
      match ReadAttributes(p, body[k..])
      case None => None
      case Some(attrs) => Some(Node(body[..k], attrs, [], ""))
  }

  // ---- The stack ----

  function AddText(stack: seq<Node>, s: string): (r: seq<Node>)
    requires stack != []
    ensures |r| == |stack|
  {
    var n := |stack| - 1;
    stack[n := stack[n].(text := stack[n].text + s)]
  }

  function AddChild(stack: seq<Node>, el: Node): (r: seq<Node>)
    requires stack != []
    ensures |r| == |stack|
  {
    var n := |stack| - 1;
    stack[n := stack[n].(children := stack[n].children + [el])]
  }

  /** Takes the top element off the stack; it is complete, and the last child of the one below. */
  function Pop(stack: seq<Node>): (r: seq<Node>)
    requires |stack| > 1
    ensures |r| == |stack| - 1
  {
    AddChild(stack[..|stack| - 1], stack[|stack| - 1])
  }

  /** The root, with every open element in its place. */
  function Collapse(stack: seq<Node>): Node
    requires stack != []
    decreases |stack|
  {
    if |stack| == 1 then stack[0] else Collapse(Pop(stack))
  }

  // ---- The parser, on the text that is left ----

  function Parse(p: Platform, stack: seq<Node>, t: string): Parsed
    requires stack != []
    decreases |t|
  {
    match FindChar(t, '<')
    case None => Tree(Collapse(stack))
    case Some(lt) =>
      match Decode(p, t[..lt])
      case None => Crash
      case Some(s) => Markup(p, AddText(stack, s), t[lt..])
  }

  /** From an opening angle bracket on. */
  function Markup(p: Platform, stack: seq<Node>, u: string): Parsed
    requires stack != [] && u != "" && u[0] == '<'
    decreases |u|, 0
  {
    if StartsWith(u, "<!--") then
      match Find(u, "-->")
      case None => Corrupt
      case Some(e) => Parse(p, stack, u[e + 3..])
    else if StartsWith(u, "<![CDATA[") then
      match Find(u, "]]>")
      case None => Corrupt
      case Some(e) => Parse(p, AddText(stack, if e >= 9 then u[9..e] else ""), u[e + 3..])
    else
      match FindChar(u, '>')
      case None => Corrupt
      case Some(gt) =>
        var body, rest := u[1..gt], u[gt + 1..];
        if |u| > 1 && (u[1] == '?' || u[1] == '!') then Parse(p, stack, rest)
        else if body != "" && body[0] == '/' then Parse(p, if |stack| > 1 then Pop(stack) else stack, rest)
        else
          var selfClose := body != "" && body[|body| - 1] == '/';
          match Element(p, if selfClose then body[..|body| - 1] else body)
          case None => Crash
          case Some(el) => Parse(p, if selfClose then AddChild(stack, el) else stack + [el], rest)
  }

  const ROOT := Node("", map[], [], "")

  /** parseXml up to the choice of the document element. */
  method ParseTree(p: Platform, text: string) returns (r: Parsed)
    ensures r == Parse(p, [ROOT], text)
  {
    hide Decode, Element, Pop, Find, FindChar, StartsWith, Collapse, Markup, Parse, AddText;
    var stack := [ROOT];
    var i := 0;
    assert text[0..] == text;
    while i < |text|
      invariant 0 <= i <= |text| && stack != []
      invariant Parse(p, [ROOT], text) == Parse(p, stack, text[i..])
      decreases |text| - i
    {
      ghost var t := text[i..];
      var found := FindChar(text[i..], '<');
      if found.None? {
        break;
      }
      var lt := i + found.value;
      assert t[..found.value] == text[i..lt] && t[found.value..] == text[lt..];
      var s := Decode(p, text[i..lt]);
      if s.None? {
        TextCrashes(p, stack, t);
        return Crash;
      }
      stack := AddText(stack, s.value);
      var u := text[lt..];
      TextThenMarkup(p, t, s.value);
      var failed, next, after := MarkupStep(p, stack, u);
      if failed.Some? {
        return failed.value;
      }
      stack := next;
      i := lt + after;
      assert text[i..] == u[after..];
    }
    EndOfText(p, stack, text[i..]);
    r := Tree(Collapse(stack));
  }

  /** One markup: the stack after it and its length, or a failure. */
  method MarkupStep(p: Platform, stack: seq<Node>, u: string) returns (failed: Option<Parsed>, next: seq<Node>, after: nat)
    requires stack != [] && u != "" && u[0] == '<'
    ensures failed.Some? ==> Markup(p, stack, u) == failed.value
    ensures failed.None? ==> next != [] && 0 < after <= |u| && Markup(p, stack, u) == Parse(p, next, u[after..])
  {
    hide Decode, Element, Pop, Find, FindChar, StartsWith, Collapse, Parse, AddText, AddChild;
    failed, next, after := None, stack, 0;
    if StartsWith(u, "<!--") {
      var end := Find(u, "-->");
      if end.None? {
        return Some(Corrupt), next, 0;
      }
      after := end.value + 3;
    } else if StartsWith(u, "<![CDATA[") {
      var end := Find(u, "]]>");
      if end.None? {
        return Some(Corrupt), next, 0;
      }
      next := AddText(stack, if end.value >= 9 then u[9..end.value] else "");
      after := end.value + 3;
    } else {
      var gt := FindChar(u, '>');
      if gt.None? {
        return Some(Corrupt), next, 0;
      }
      var body := u[1..gt.value];
      after := gt.value + 1;
      if |u| > 1 && (u[1] == '?' || u[1] == '!') {
      } else if body != "" && body[0] == '/' {
        if |stack| > 1 {
          next := Pop(stack);
        }
      } else {
        var selfClose := body != "" && body[|body| - 1] == '/';
        var el := Element(p, if selfClose then body[..|body| - 1] else body);
        if el.None? {
          return Some(Crash), next, 0;
        }
        next := if selfClose then AddChild(stack, el.value) else stack + [el.value];
      }
    }
  }

  lemma {:induction false} TextThenMarkup(p: Platform, t: string, s: string)
    requires FindChar(t, '<').Some? && Decode(p, t[..FindChar(t, '<').value]) == Some(s)
    ensures forall stack :: stack != [] ==> Parse(p, stack, t) == Markup(p, AddText(stack, s), t[FindChar(t, '<').value..])
  {
    hide Markup, Decode;
  }

  lemma {:induction false} TextCrashes(p: Platform, stack: seq<Node>, t: string)
    requires stack != [] && FindChar(t, '<').Some? && Decode(p, t[..FindChar(t, '<').value]).None?
    ensures Parse(p, stack, t) == Crash
  {
    hide Decode;
  }

  lemma {:induction false} EndOfText(p: Platform, stack: seq<Node>, t: string)
    requires stack != [] && FindChar(t, '<').None?
    ensures Parse(p, stack, t) == Tree(Collapse(stack))
  {
  }

  // ---- What the writer writes ----

  /** An element as the exporter builds it: some text, then children; protection is its only attribute. */
  datatype Doc = Elem(tag: string, hidden: bool, text: string, children: seq<Doc>)

  const PROTECTED := " Protected=\"True\""

  function Open(d: Doc): string {
    d.tag + (if d.hidden then PROTECTED else "")
  }

  function Render(d: Doc): string
    decreases d
  {
    "<" + Open(d) + ">" + Escaped(d.text) + RenderAll(d.children) + "</" + d.tag + ">"
  }

  function RenderAll(ds: seq<Doc>): string
    decreases ds
  {
    if ds == [] then "" else Render(ds[0]) + RenderAll(ds[1..])
  }

  /** The tree the reader is to find. */
  function TreeOf(d: Doc): Node
    decreases d
  {
    Node(d.tag, if d.hidden then map["Protected" := "True"] else map[], TreesOf(d.children), Clean(d.text))
  }

  function TreesOf(ds: seq<Doc>): (r: seq<Node>)
    ensures |r| == |ds|
    decreases ds
  {
    if ds == [] then [] else [TreeOf(ds[0])] + TreesOf(ds[1..])
  }

  /** Tags are made of letters. */
  predicate WellTagged(d: Doc)
    decreases d
  {
    && d.tag != "" && (forall k :: 0 <= k < |d.tag| ==> Letter(d.tag[k]))
    && forall k :: 0 <= k < |d.children| ==> WellTagged(d.children[k])
  }

  // ---- Parsing what was written ----

  lemma AddNothing(stack: seq<Node>)
    requires stack != []
    ensures AddText(stack, "") == stack
  {
    var n := |stack| - 1;
    assert stack[n].text + "" == stack[n].text;
  }

  /** At a bracket there is no text to add. */
  lemma {:induction false} AtBracket(p: Platform, stack: seq<Node>, u: string)
    requires stack != [] && u != "" && u[0] == '<'
    ensures Parse(p, stack, u) == Markup(p, stack, u)
  {
    hide Markup;
    assert FindChar(u, '<') == Some(0);
    assert u[..0] == "" && u[0..] == u;
    AddNothing(stack);
  }

  /** Escaped text in front of a bracket is added, decoded, to the element on top. */
  lemma {:induction false} TextStep(p: Platform, stack: seq<Node>, text: string, u: string)
    requires stack != [] && u != "" && u[0] == '<'
    ensures Parse(p, stack, Escaped(text) + u) == Parse(p, AddText(stack, Clean(text)), u)
  {
    hide Markup, Decode, AddText;
    var e := Escaped(text);
    EscapedIsPlain(text);
    DecodeEscaped(p, text);
    assert e + u == e + ['<'] + u[1..];
    FindCharAt(e, '<', u[1..]);
    assert (e + u)[..|e|] == e && (e + u)[|e|..] == u;
    AtBracket(p, AddText(stack, Clean(text)), u);
  }

  lemma Unlike(u: string, pat: string, k: nat)
    requires k < |u| && k < |pat| && u[k] != pat[k]
    ensures !StartsWith(u, pat)
  {
    assert |pat| <= |u| ==> u[..|pat|][k] == u[k];
  }

  /** An end tag completes the element on top. */
  lemma {:induction false} CloseStep(p: Platform, stack: seq<Node>, tag: string, rest: string)
    requires |stack| > 1 && '>' !in tag
    ensures Parse(p, stack, "</" + tag + ">" + rest) == Parse(p, Pop(stack), rest)
  {
    hide Parse, Pop, Find, Element, AddText;
    var u := "</" + tag + ">" + rest;
    AtBracket(p, stack, u);
    Unlike(u, "<!--", 1);
    Unlike(u, "<![CDATA[", 1);
    assert u == ("</" + tag) + ['>'] + rest;
    FindCharAt("</" + tag, '>', rest);
    assert u[1..|tag| + 2] == "/" + tag;
    assert u[|tag| + 3..] == rest;
  }

  lemma TagFacts(tag: string)
    requires tag != "" && forall k :: 0 <= k < |tag| ==> Letter(tag[k])
    ensures '>' !in tag && tag[0] != '!' && tag[0] != '?' && tag[0] != '/' && tag[|tag| - 1] != '/'
    ensures forall k :: 0 <= k < |tag| ==> !IsSpace(tag[k])
  {
  }

  /** A start tag puts its element on the stack. */
  lemma {:induction false} OpenStep(p: Platform, stack: seq<Node>, body: string, rest: string)
    requires stack != [] && body != "" && '>' !in body && Letter(body[0]) && body[|body| - 1] != '/'
    requires Element(p, body).Some?
    ensures Parse(p, stack, "<" + body + ">" + rest) == Parse(p, stack + [Element(p, body).value], rest)
  {
    hide Parse, Pop, Find, Element, AddText;
    var u := "<" + body + ">" + rest;
    AtBracket(p, stack, u);
    Unlike(u, "<!--", 1);
    Unlike(u, "<![CDATA[", 1);
    assert u == ("<" + body) + ['>'] + rest;
    FindCharAt("<" + body, '>', rest);
    assert u[1..|body| + 1] == body;
    assert u[|body| + 2..] == rest;
  }

  lemma {:induction false} ElementOf(p: Platform, d: Doc)
    requires WellTagged(d)
    ensures Element(p, Open(d)) == Some(Node(d.tag, if d.hidden then map["Protected" := "True"] else map[], [], ""))
  {
    hide ReadAttributes;
    TagFacts(d.tag);
    var body := Open(d);
    if d.hidden {
      RunIs(body, c => !IsSpace(c), |d.tag|);
      assert body[|d.tag|..] == PROTECTED && body[..|d.tag|] == d.tag;
      ProtectedAttribute(p);
    } else {
      assert body == d.tag;
    }
  }

  lemma {:induction false} NoSpaces(b: string)
    requires b != "" && !IsSpace(b[0])
    ensures SkipSpaces(b) == b
  {
  }

  /** name="value" and nothing more. */
  lemma OneAttributeIs(name: string, value: string, s: string)
    requires name != "" && (forall k :: 0 <= k < |name| ==> NameChar(name[k])) && '"' !in value
    requires s == name + (['='] + (['"'] + (value + ['"'])))
    ensures OneAttribute(s) == Some((name, value, ""))
  {
    hide FindChar;
    var b := ['"'] + (value + ['"']);
    var a := ['='] + b;
    RunIs(s, NameChar, |name|);
    assert s[..|name|] == name && s[|name|..] == a && a[1..] == b;
    NoSpaces(a);
    NoSpaces(b);
    assert b[1..] == value + ['"'] + "";
    FindCharAt(value, '"', "");
    assert b[1..][..|value|] == value && b[1..][|value| + 1..] == "";
  }

  lemma {:induction false} AttributesAre(p: Platform, name: string, value: string, s: string)
    requires name != "" && (forall k :: 0 <= k < |name| ==> NameChar(name[k])) && '"' !in value && '&' !in value
    requires s == name + (['='] + (['"'] + (value + ['"'])))
    ensures ReadAttributes(p, [' '] + s) == Some(map[name := value])
  {
    hide OneAttribute;
    OneAttributeIs(name, value, s);
    NothingToDecode(p, value);
    hide Decode;
    assert ([' '] + s)[1..] == s;
    assert s[0] == name[0];
    assert ReadAttributes(p, "") == Some(map[]);
    assert map[name := value] + map[] == map[name := value];
  }

  lemma {:induction false} ProtectedAttribute(p: Platform)
    ensures ReadAttributes(p, PROTECTED) == Some(map["Protected" := "True"])
  {
    hide ReadAttributes, NameChar;
    var name, value := "Protected", "True";
    ProtectedName();
    var s := name + (['='] + (['"'] + (value + ['"'])));
    assert PROTECTED == [' '] + s;
    AttributesAre(p, name, value, s);
  }

  lemma ProtectedName()
    ensures forall k :: 0 <= k < |"Protected"| ==> NameChar("Protected"[k])
  {
  }

  lemma {:induction false} OpenBody(d: Doc)
    requires WellTagged(d)
    ensures var body := Open(d);
            body != "" && '>' !in body && Letter(body[0]) && body[|body| - 1] != '/'
  {
    TagFacts(d.tag);
    var body := Open(d);
    assert body[0] == d.tag[0];
  }

  lemma {:induction false} RenderStarts(d: Doc)
    ensures Render(d) != "" && Render(d)[0] == '<'
  {
  }

  /** Parsing a rendered element adds its tree to the children of the element on top, and goes on after it. */
  lemma {:induction false} ParseElement(p: Platform, stack: seq<Node>, d: Doc, rest: string)
    requires stack != [] && WellTagged(d)
    ensures Parse(p, stack, Render(d) + rest) == Parse(p, AddChild(stack, TreeOf(d)), rest)
    decreases d, 1
  {
    hide Parse, Element, Clean, Escaped, TreeOf, AddChild, AddChildren, AddText, Pop, Open;
    var close := "</" + d.tag + ">" + rest;
    var inside := RenderAll(d.children) + close;
    StartTag(p, stack, d, Escaped(d.text) + inside);
    var el := Node(d.tag, if d.hidden then map["Protected" := "True"] else map[], [], "");
    RenderAllStarts(d.children, close);
    TextStep(p, stack + [el], d.text, inside);
    var texted := AddText(stack + [el], Clean(d.text));
    ParseChildren(p, texted, d.children, close);
    TagFacts(d.tag);
    CloseStep(p, AddChildren(texted, TreesOf(d.children)), d.tag, rest);
    Completed(stack, el, d);
    assert Render(d) + rest == "<" + Open(d) + ">" + (Escaped(d.text) + inside);
  }

  lemma {:induction false} StartTag(p: Platform, stack: seq<Node>, d: Doc, rest: string)
    requires stack != [] && WellTagged(d)
    ensures Parse(p, stack, "<" + Open(d) + ">" + rest)
         == Parse(p, stack + [Node(d.tag, if d.hidden then map["Protected" := "True"] else map[], [], "")], rest)
  {
    hide Parse, Element;
    ElementOf(p, d);
    OpenBody(d);
    OpenStep(p, stack, Open(d), rest);
  }

  lemma {:induction false} RenderAllStarts(ds: seq<Doc>, rest: string)
    requires rest != "" && rest[0] == '<'
    ensures RenderAll(ds) + rest != "" && (RenderAll(ds) + rest)[0] == '<'
  {
    if ds != [] {
      RenderStarts(ds[0]);
    }
  }

  function AddChildren(stack: seq<Node>, els: seq<Node>): (r: seq<Node>)
    requires stack != []
    ensures |r| == |stack|
  {
    var n := |stack| - 1;
    stack[n := stack[n].(children := stack[n].children + els)]
  }

  lemma AddChildrenStep(stack: seq<Node>, el: Node, els: seq<Node>)
    requires stack != []
    ensures AddChildren(AddChild(stack, el), els) == AddChildren(stack, [el] + els)
    ensures AddChildren(stack, []) == stack
  {
    var n := |stack| - 1;
    assert stack[n].children + [el] + els == stack[n].children + ([el] + els);
    assert stack[n].children + [] == stack[n].children;
  }

  lemma {:induction false} ParseChildren(p: Platform, stack: seq<Node>, ds: seq<Doc>, rest: string)
    requires stack != [] && forall k :: 0 <= k < |ds| ==> WellTagged(ds[k])
    ensures Parse(p, stack, RenderAll(ds) + rest) == Parse(p, AddChildren(stack, TreesOf(ds)), rest)
    decreases ds, 0
  {
    hide Parse, Render, TreeOf;
    if ds == [] {
      assert "" + rest == rest;
      AddChildrenStep(stack, ROOT, []);
    } else {
      var more := RenderAll(ds[1..]) + rest;
      assert RenderAll(ds) + rest == Render(ds[0]) + more;
      ParseElement(p, stack, ds[0], more);
      ParseChildren(p, AddChild(stack, TreeOf(ds[0])), ds[1..], rest);
      AddChildrenStep(stack, TreeOf(ds[0]), TreesOf(ds[1..]));
    }
  }

  /** The element on top, with its text and its children, is the tree. */
  lemma {:induction false} Completed(stack: seq<Node>, el: Node, d: Doc)
    requires stack != []
    requires el == Node(d.tag, if d.hidden then map["Protected" := "True"] else map[], [], "")
    ensures Pop(AddChildren(AddText(stack + [el], Clean(d.text)), TreesOf(d.children))) == AddChild(stack, TreeOf(d))
  {
    var top := stack + [el];
    var done := AddChildren(AddText(top, Clean(d.text)), TreesOf(d.children));
    assert "" + Clean(d.text) == Clean(d.text) && [] + TreesOf(d.children) == TreesOf(d.children);
    assert done[|stack|] == TreeOf(d);
    assert done[..|stack|] == stack;
  }

  /** A declaration is skipped. */
  lemma {:induction false} DeclarationStep(p: Platform, stack: seq<Node>, body: string, rest: string)
    requires stack != [] && '>' !in body
    ensures Parse(p, stack, "<?" + body + ">" + rest) == Parse(p, stack, rest)
  {
    hide Parse, Pop, Find, Element, AddText;
    var u := "<?" + body + ">" + rest;
    AtBracket(p, stack, u);
    Unlike(u, "<!--", 1);
    Unlike(u, "<![CDATA[", 1);
    assert u == ("<?" + body) + ['>'] + rest;
    FindCharAt("<?" + body, '>', rest);
    assert u[|body| + 3..] == rest;
  }

  lemma {:induction false} EmptyRest(p: Platform, stack: seq<Node>)
    requires stack != []
    ensures Parse(p, stack, "") == Tree(Collapse(stack))
  {
    EndOfText(p, stack, "");
  }

  /** The reader finds exactly the document the writer wrote behind a declaration, its texts without control characters. */
  lemma {:induction false} ParseDocument(p: Platform, declaration: string, d: Doc)
    requires WellTagged(d) && '>' !in declaration
    ensures Parse(p, [ROOT], "<?" + declaration + ">" + Render(d)) == Tree(ROOT.(children := [TreeOf(d)]))
  {
    hide Parse, Render, TreeOf;
    DeclarationStep(p, [ROOT], declaration, Render(d));
    assert Render(d) + "" == Render(d);
    ParseElement(p, [ROOT], d, "");
    EmptyRest(p, AddChild([ROOT], TreeOf(d)));
    assert [] + [TreeOf(d)] == [TreeOf(d)];
  }
}
