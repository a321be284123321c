/** The HTML parser of browser/html.h as functions on the input that is left. The
    input is a C string, so it has no NUL in it. */
module HtmlSpec {
  import opened Basics

  const MAX_ATTRS := 16
  const MAX_CHILDREN := 128
  const TAG_MAX := 32
  const ATTR_MAX := 64
  const TEXT_MAX := 4096
  const NUL := 0 as char

  datatype Attr = Attr(name: string, value: string)

  /** A document tree. The text of an element is that of a `style` element. */
  datatype Tree =
    | Element(tag: string, attrs: seq<Attr>, text: string, children: seq<Tree>)
    | Text(text: string)
    | Comment(text: string)
    | Doctype

  datatype Parsed = Parsed(node: Option<Tree>, rest: string)
  datatype Children = Children(nodes: seq<Tree>, rest: string)
  datatype Attrs = Attrs(attrs: seq<Attr>, rest: string)
  datatype Raw = Raw(text: string, rest: string)
  datatype Head = Head(tag: string, attrs: seq<Attr>, rest: string)

  predicate IsSpace(c: char) {
    c == ' ' || c == '\t' || c == '\n' || c == '\r' || c == 12 as char
  }

  function Lower(c: char): char {
    if 'A' <= c <= 'Z' then (c as int + 32) as char else c
  }

  function LowerAll(s: string): (l: string)
    ensures |l| == |s| && forall i :: 0 <= i < |l| ==> l[i] == Lower(s[i])
  {
    seq(|s|, i requires 0 <= i < |s| => Lower(s[i]))
  }

  function Clip(s: string, n: nat): (c: string)
    ensures c <= s && |c| == Min(|s|, n)
  {
    if |s| > n then s[..n] else s
  }

  function Peek(s: string): char {
    if s == [] then NUL else s[0]
  }

  /** What ends a run of characters. */
  datatype Stop = AtAttrName | AtTagName | AtUnquoted | AtNonSpace | At(c: char)

  predicate Stops(stop: Stop, c: char) {
    match stop
    case AtAttrName => c == '=' || c == '>' || c == '/' || IsSpace(c) || c == NUL
    case AtTagName => IsSpace(c) || c == '>' || c == '/'
    case AtUnquoted => IsSpace(c) || c == '>' || c == NUL
    case AtNonSpace => !IsSpace(c)
    case At(q) => c == q
  }

  /** The length of the run at the front. */
  function Run(s: string, stop: Stop): (n: nat)
    ensures n <= |s| && forall i :: 0 <= i < n ==> !Stops(stop, s[i])
    ensures n < |s| ==> Stops(stop, s[n])
  {
    if s == [] || Stops(stop, s[0]) then 0 else 1 + Run(s[1..], stop)
  }

  function Skip(s: string): (r: string)
    ensures |r| <= |s| && (r != [] ==> !IsSpace(r[0]))
  {
    s[Run(s, AtNonSpace)..]
  }

  /** Past the next `>`, or to the end. */
  function PastTag(s: string): (r: string)
    ensures |r| <= |s|
  {
    var n := Run(s, At('>'));
    if n < |s| then s[n + 1..] else []
  }

  function Min(a: nat, b: nat): nat {
    if a < b then a else b
  }

  /** A quoted value, at the character after the quote. */
  function Quoted(s: string, q: char): (v: Raw)
    requires q != NUL
    ensures |v.rest| <= |s|
  {
    var m := Min(Run(s, At(q)), ATTR_MAX - 1);
    Raw(s[..m], if Peek(s[m..]) == q then s[m..][1..] else s[m..])
  }

  /** The value of an attribute, at the character after `=`. */
  function AttrValue(s: string): (v: Raw)
    ensures |v.rest| <= |s|
  {
    var q := Peek(s);
    if q == '"' || q == '\'' then Quoted(s[1..], q)
    else
      var m := Run(s, AtUnquoted);
      Raw(Clip(s[..m], ATTR_MAX - 1), s[m..])
  }

  /** `hp_parse_attrs`: attributes are added to those there are, up to the limit. */
  function ParseAttrs(s: string, attrs: seq<Attr>): (r: Attrs)
    ensures |r.rest| <= |s|
    decreases |s|
  {
    var s1 := Skip(s);
    if s1 == [] || s1[0] == '>' || s1[0] == '/' then Attrs(attrs, s1)
    else if |attrs| >= MAX_ATTRS then Attrs(attrs, s1[Run(s1, At('>'))..])
    else
      var n := Run(s1, AtAttrName);
      var name := Clip(LowerAll(s1[..n]), ATTR_MAX - 1);
      if n == 0 then Attrs(attrs, s1)
      else
        var s2 := Skip(s1[n..]);
        if Peek(s2) != '=' then ParseAttrs(s2, attrs + [Attr(name, "")])
        else
          var v := AttrValue(Skip(s2[1..]));
          ParseAttrs(v.rest, attrs + [Attr(name, v.text)])
  }

  function TrimLeft(s: string): (t: string)
    ensures |t| <= |s|
  {
    if s != [] && IsSpace(s[0]) then TrimLeft(s[1..]) else s
  }

  function TrimRight(s: string): (t: string)
    ensures t <= s && (t != [] ==> !IsSpace(t[|t| - 1]))
  {
    if s != [] && IsSpace(s[|s| - 1]) then TrimRight(s[..|s| - 1]) else s
  }

  function Trim(s: string): string {
    TrimRight(TrimLeft(s))
  }

  /** `hp_parse_text`: up to the next tag or the size limit; blank text gives no node. */
  function ParseText(s: string): (p: Parsed)
    requires s != [] && s[0] != '<'
    ensures |p.rest| < |s|
  {
    var n := Min(Run(s, At('<')), TEXT_MAX - 1);
    var t := Trim(s[..n]);
    Parsed(if t == [] then Nothing else Some(Text(t)), s[n..])
  }

  predicate EndsComment(s: string) {
    |s| > 2 && s[0] == '-' && s[1] == '-' && s[2] == '>'
  }

  /** How far a comment goes: to `-->`, or until fewer than three characters are left. */
  function CommentRun(s: string): (n: nat)
    ensures n <= |s|
  {
    if |s| <= 2 || EndsComment(s) then 0 else 1 + CommentRun(s[1..])
  }

  function ParseComment(s: string): (p: Parsed)
    ensures |p.rest| <= |s|
  {
    var n := CommentRun(s);
    Parsed(Some(Comment(Clip(s[..n], TEXT_MAX - 1))), if |s| - n > 2 then s[n + 3..] else s[n..])
  }

  const VOIDS := [
    "area", "base", "br", "col", "embed", "hr", "img", "input",
    "link", "meta", "param", "source", "track", "wbr"]

  predicate IsVoid(tag: string) {
    tag in VOIDS
  }

  predicate IsRaw(tag: string) {
    tag == "script" || tag == "style"
  }

  /** The closing tag, or too little left for one. */
  predicate EndsRaw(s: string, close: string) {
    s == [] || |s| <= |close| || LowerAll(s[..|close|]) == close
  }

  /** How far the content of a script or style goes: to its closing tag, whatever its
      case, or until no more than `|close|` characters are left. */
  function RawRun(s: string, close: string): (n: nat)
    ensures n <= |s|
  {
    if EndsRaw(s, close) then 0 else 1 + RawRun(s[1..], close)
  }

  function ParseRaw(s: string, tag: string): (r: Raw)
    ensures |r.rest| <= |s|
  {
    var close := "</" + tag;
    var n := RawRun(s, close);
    Raw(if tag == "style" then Clip(s[..n], TEXT_MAX - 1) else "", if |s| - n > |close| then PastTag(s[n..])
      else s[n..])
  }

  predicate AtClosing(s: string) {
    |s| > 1 && s[0] == '<' && s[1] == '/'
  }

  /** Past a `/` and a `>`, each if it is there. */
  function EndTag(s: string): (r: string)
    ensures |r| <= |s|
  {
    var s1 := if Peek(s) == '/' then s[1..] else s;
    if Peek(s1) == '>' then s1[1..] else s1
  }

  /** `hp_parse_node`: every call consumes something. */
  function ParseNode(s: string): (p: Parsed)
    requires s != []
    ensures |p.rest| < |s|
    decreases |s|, 0
  {
    if s[0] != '<' then ParseText(s)
    else if Peek(s[1..]) == '/' then Parsed(Nothing, s[1..])
    else if Peek(s[1..]) == '!' then ParseMarkup(s[2..])
    else ParseElement(s[1..])
  }

  /** The opening tag of an element. */
  function ParseHead(s: string): (h: Head)
    ensures |h.rest| <= |s|
  {
    var n := Run(s, AtTagName);
    var a := ParseAttrs(s[n..], []);
    Head(Clip(LowerAll(s[..n]), TAG_MAX - 1), a.attrs, EndTag(Skip(a.rest)))
  }

  /** An element, from its name to its closing tag. */
  function ParseElement(s: string): (p: Parsed)
    ensures |p.rest| <= |s|
    decreases |s|, 2
  {
    var h := ParseHead(s);
    if IsVoid(h.tag) then Parsed(Some(Element(h.tag, h.attrs, "", [])), h.rest)
    else if IsRaw(h.tag) then
      var r := ParseRaw(h.rest, h.tag);
      Parsed(Some(Element(h.tag, h.attrs, r.text, [])), r.rest)
    else
      var c := ParseChildren(h.rest, []);
      Parsed(Some(Element(h.tag, h.attrs, "", c.nodes)), c.rest)
  }

  /** After `<!`: a document type, a comment, or something to skip. */
  function ParseMarkup(s: string): (p: Parsed)
    ensures |p.rest| <= |s|
  {
    if |s| > 6 && (s[0] == 'D' || s[0] == 'd') && (s[1] == 'O' || s[1] == 'o') then Parsed(Some(Doctype), PastTag(s))
    else if |s| > 1 && s[0] == '-' && s[1] == '-' then ParseComment(s[2..])
    else Parsed(Nothing, PastTag(s))
  }

  /** `hp_add_child`: children past the limit are dropped. */
  function AddChild(nodes: seq<Tree>, node: Tree): (r: seq<Tree>)
    ensures |nodes| <= MAX_CHILDREN ==> |r| <= MAX_CHILDREN
  {
    if |nodes| >= MAX_CHILDREN then nodes else nodes + [node]
  }

  /** The children of an element, up to a closing tag of any name. */
  function ParseChildren(s: string, nodes: seq<Tree>): (c: Children)
    ensures |c.rest| <= |s|
    decreases |s|, 1
  {
    if s == [] then Children(nodes, s)
    else if AtClosing(s) then Children(nodes, PastTag(s[2..]))
    else
      var p := ParseNode(s);
      if p.node.Some? then ParseChildren(p.rest, AddChild(nodes, p.node.value))
      else if AtClosing(p.rest) then Children(nodes, PastTag(p.rest[2..]))
      else if p.rest != [] && p.rest[0] != '<' then ParseChildren(p.rest[1..], nodes)
      else ParseChildren(p.rest, nodes)
  }

  /** `html_parse`: the children of the document. */
  function ParseDocument(s: string, nodes: seq<Tree>): seq<Tree>
    decreases |s|
  {
    if s == [] then nodes
    else
      var p := ParseNode(s);
      if p.node.Some? then ParseDocument(p.rest, AddChild(nodes, p.node.value))
      else if p.rest != [] && p.rest[0] != '<' then ParseDocument(p.rest[1..], nodes)
      else ParseDocument(p.rest, nodes)
  }
}
