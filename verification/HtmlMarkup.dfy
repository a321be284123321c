/** HTML as an author may write it: blanks, quotes and capitals of any choice, void
    elements, scripts and styles. What is written here says how it looks and which tree
    it means; nothing in this file parses, and no character test of the parser is used. */
module HtmlMarkup {
  import opened Basics
  import opened HtmlSpec

  // ---- Characters ----

  /** Tab, line feed, form feed, carriage return and space. */
  predicate Blank(c: char) {
    c as int == 9 || c as int == 10 || c as int == 12 || c as int == 13 || c as int == 32
  }

  /** The small letter of a capital; other characters stay. */
  function Small(c: char): char {
    if 65 <= c as int <= 90 then (97 + (c as int - 65)) as char else c
  }

  function SmallAll(s: string): (t: string)
    ensures |t| == |s| && forall i :: 0 <= i < |t| ==> t[i] == Small(s[i])
  {
    seq(|s|, i requires 0 <= i < |s| => Small(s[i]))
  }

  predicate AllBlank(s: string) {
    forall i :: 0 <= i < |s| ==> Blank(s[i])
  }

  predicate Lacks(s: string, c: char) {
    forall i :: 0 <= i < |s| ==> s[i] != c
  }

  predicate NameChar(c: char) {
    !Blank(c) && c != '=' && c != '>' && c != '/' && c as int != 0
  }

  predicate TagChar(c: char) {
    !Blank(c) && c != '>' && c != '/'
  }

  predicate BareChar(c: char) {
    !Blank(c) && c != '>' && c as int != 0
  }

  // ---- Attributes ----

  datatype Form = Double | Single | Bare | NoValue

  /** An attribute with the blanks before it and on both sides of its equals sign. */
  datatype MAttr = MAttr(gap: string, name: string, left: string, right: string, form: Form, value: string)

  predicate BareOk(v: string) {
    v != "" && v[0] != '"' && v[0] != '\'' && forall i :: 0 <= i < |v| ==> BareChar(v[i])
  }

  predicate AttrOk(a: MAttr) {
    && a.gap != "" && AllBlank(a.gap) && AllBlank(a.left) && AllBlank(a.right)
    && 0 < |a.name| <= 63 && |a.value| <= 63
    && (forall i :: 0 <= i < |a.name| ==> NameChar(a.name[i]))
    && match a.form
       case NoValue => a.value == ""
       case Double => Lacks(a.value, '"')
       case Single => Lacks(a.value, '\'')
       case Bare => BareOk(a.value)
  }

  function Meant(a: MAttr): Attr {
    Attr(SmallAll(a.name), a.value)
  }

  function MeantAll(attrs: seq<MAttr>): (r: seq<Attr>)
    ensures |r| == |attrs|
  {
    if attrs == [] then [] else [Meant(attrs[0])] + MeantAll(attrs[1..])
  }

  // Each printing function gives the printed form with `rest` behind it.

  function PrintQuoted(a: MAttr, rest: string): string {
    match a.form
    case Double => "\"" + (a.value + ("\"" + rest))
    case Single => "'" + (a.value + ("'" + rest))
    case _ => a.value + rest
  }

  function PrintValue(a: MAttr, rest: string): string {
    if a.form == NoValue then rest else a.left + ("=" + (a.right + PrintQuoted(a, rest)))
  }

  function PrintAttrs(attrs: seq<MAttr>, rest: string): string {
    if attrs == [] then rest
    else attrs[0].gap + (attrs[0].name + PrintValue(attrs[0], PrintAttrs(attrs[1..], rest)))
  }

  // ---- Documents ----

  /** The end of an opening tag. */
  datatype Close = Close(gap: string, slash: bool)

  function PrintClose(c: Close, rest: string): string {
    c.gap + if c.slash then "/" + (">" + rest) else ">" + rest
  }

  datatype Markup =
    | MBlank(blanks: string)
    | MText(before: string, text: string, after: string)
    | MComment(text: string)
    | MDoctype(text: string)
    | MVoid(name: string, attrs: seq<MAttr>, close: Close)
    | MRaw(name: string, attrs: seq<MAttr>, close: Close, content: string, end: string)
    | MElement(name: string, attrs: seq<MAttr>, close: Close, body: seq<Markup>, end: string)

  function PrintEnd(end: string, rest: string): string {
    "</" + (end + (">" + rest))
  }

  function Print(m: Markup, rest: string): string {
    match m
    case MBlank(blanks) => blanks + rest
    case MText(before, text, after) => before + (text + (after + rest))
    case MComment(text) => "<!--" + (text + ("-->" + rest))
    case MDoctype(text) => "<!" + (text + (">" + rest))
    case MVoid(name, attrs, close) => "<" + (name + PrintAttrs(attrs, PrintClose(close, rest)))
    case MRaw(name, attrs, close, content, end) =>
      "<" + (name + PrintAttrs(attrs, PrintClose(close, content + PrintEnd(end, rest))))
    case MElement(name, attrs, close, body, end) =>
      "<" + (name + PrintAttrs(attrs, PrintClose(close, PrintAll(body, PrintEnd(end, rest)))))
  }

  function PrintAll(ms: seq<Markup>, rest: string): string {
    if ms == [] then rest else Print(ms[0], PrintAll(ms[1..], rest))
  }

  predicate VoidName(tag: string) {
    || tag == "area" || tag == "base" || tag == "br" || tag == "col" || tag == "embed" || tag == "hr" || tag == "img"
    || tag == "input" || tag == "link" || tag == "meta" || tag == "param" || tag == "source" || tag == "track"
    || tag == "wbr"
  }

  predicate RawName(tag: string) {
    tag == "script" || tag == "style"
  }

  /** An opening tag within the limits; a slash may not touch an unquoted value, nor the
      bracket. */
  predicate HeadOk(name: string, attrs: seq<MAttr>, close: Close) {
    && |name| <= 31 && (forall i :: 0 <= i < |name| ==> TagChar(name[i])) && (name != "" ==> name[0] != '!')
    && (name == "" && attrs == [] && close.slash ==> close.gap != "")
    && |attrs| <= 16 && (forall i :: 0 <= i < |attrs| ==> AttrOk(attrs[i])) && AllBlank(close.gap)
    && (attrs != [] && attrs[|attrs| - 1].form == Bare && close.slash ==> close.gap != "")
  }

  /** The text has no end of a comment in it. */
  predicate CommentText(s: string) {
    forall i :: 0 <= i < |s| - 2 ==> !(s[i] == '-' && s[i + 1] == '-' && s[i + 2] == '>')
  }

  /** `s` begins with these letters, in capitals or not. */
  predicate Begins(s: string, letters: string) {
    |s| >= |letters| && SmallAll(s[..|letters|]) == letters
  }

  /** The content has no closing tag of this name in it. */
  predicate RawText(s: string, tag: string) {
    forall i :: 0 <= i <= |s| ==> !Begins(s[i..], "</" + tag)
  }

  predicate Textual(m: Markup) {
    m.MBlank? || m.MText?
  }

  predicate Ok(m: Markup) {
    match m
    case MBlank(blanks) => 0 < |blanks| <= 4095 && AllBlank(blanks)
    case MText(before, text, after) =>
      && AllBlank(before) && AllBlank(after) && text != "" && |before| + |text| + |after| <= 4095
      && Lacks(text, '<') && !Blank(text[0]) && !Blank(text[|text| - 1])
    case MComment(text) => |text| <= 4095 && CommentText(text)
    case MDoctype(text) =>
      && |text| >= 6 && Lacks(text, '>') && (text[0] == 'D' || text[0] == 'd') && (text[1] == 'O' || text[1] == 'o')
    case MVoid(name, attrs, close) => HeadOk(name, attrs, close) && VoidName(SmallAll(name))
    case MRaw(name, attrs, close, content, end) =>
      && HeadOk(name, attrs, close) && RawName(SmallAll(name)) && RawText(content, SmallAll(name))
      && (SmallAll(name) == "style" ==> |content| <= 4095)
      && Begins(end, SmallAll(name)) && Lacks(end, '>')
    case MElement(name, attrs, close, body, end) =>
      && HeadOk(name, attrs, close) && !VoidName(SmallAll(name)) && !RawName(SmallAll(name)) && Lacks(end, '>')
      && AllOk(body) && |MeaningAll(body)| <= 128
  }

  /** Markup in a row: no two texts or stretches of blanks side by side. */
  predicate AllOk(ms: seq<Markup>) {
    && (forall i :: 0 <= i < |ms| ==> Ok(ms[i]))
    && (forall i :: 0 <= i < |ms| - 1 ==> !(Textual(ms[i]) && Textual(ms[i + 1])))
  }

  /** The tree that markup stands for; blanks stand for none. */
  function Meaning(m: Markup): Option<Tree> {
    match m
    case MBlank(_) => Nothing
    case MText(_, text, _) => Some(Text(text))
    case MComment(text) => Some(Comment(text))
    case MDoctype(_) => Some(Doctype)
    case MVoid(name, attrs, _) => Some(Element(SmallAll(name), MeantAll(attrs), "", []))
    case MRaw(name, attrs, _, content, _) =>
      Some(Element(SmallAll(name), MeantAll(attrs), if SmallAll(name) == "style" then content else "", []))
    case MElement(name, attrs, _, body, _) => Some(Element(SmallAll(name), MeantAll(attrs), "", MeaningAll(body)))
  }

  function MeaningAll(ms: seq<Markup>): seq<Tree> {
    if ms == [] then []
    else (if Meaning(ms[0]).Some? then [Meaning(ms[0]).value] else []) + MeaningAll(ms[1..])
  }
}
