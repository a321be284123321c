/** What every tree of a parse looks like, whatever the input: names and texts within
    the sizes of the node's fields, in small letters, and trimmed. */
module HtmlLimits {
  import opened Basics
  import opened HtmlMarkup
  import opened HtmlSpec

  predicate SmallLetters(s: string) {
    forall i :: 0 <= i < |s| ==> !('A' <= s[i] <= 'Z')
  }

  predicate AttrFits(a: Attr) {
    |a.name| <= 63 && |a.value| <= 63 && a.name != "" && SmallLetters(a.name)
  }

  predicate AttrsFit(attrs: seq<Attr>) {
    |attrs| <= 16 && forall i :: 0 <= i < |attrs| ==> AttrFits(attrs[i])
  }

  predicate Fits(t: Tree) {
    match t
    case Element(tag, attrs, text, children) =>
      && |tag| <= 31 && SmallLetters(tag) && AttrsFit(attrs)
      && |text| <= 4095 && (text != "" ==> tag == "style") && (tag == "style" || tag == "script" ==> children == [])
      && |children| <= 128 && forall i :: 0 <= i < |children| ==> Fits(children[i])
    case Text(text) => 0 < |text| <= 4095 && !Blank(text[0]) && !Blank(text[|text| - 1])
    case Comment(text) => |text| <= 4095
    case Doctype => true
  }

  predicate AllFit(nodes: seq<Tree>) {
    |nodes| <= 128 && forall i :: 0 <= i < |nodes| ==> Fits(nodes[i])
  }

  lemma {:induction false} ClippedSmall(s: string, n: nat)
    ensures SmallLetters(Clip(LowerAll(s), n))
  {
  }

  lemma {:induction false} ParseAttrsFit(s: string, attrs: seq<Attr>)
    requires AttrsFit(attrs)
    ensures AttrsFit(ParseAttrs(s, attrs).attrs)
    decreases |s|
  {
    hide Run, LowerAll, AttrValue, Skip, Clip, SmallLetters, ParseAttrs;
    var s1 := Skip(s);
    if s1 == [] || s1[0] == '>' || s1[0] == '/' || |attrs| >= MAX_ATTRS || Run(s1, AtAttrName) == 0 {
      NoMoreAttrs(s, attrs);
    } else {
      NextAttr(s, attrs);
      var n := Run(s1, AtAttrName);
      var name := Clip(LowerAll(s1[..n]), ATTR_MAX - 1);
      ClippedSmall(s1[..n], ATTR_MAX - 1);
      var s2 := Skip(s1[n..]);
      if Peek(s2) != '=' {
        ParseAttrsFit(s2, attrs + [Attr(name, "")]);
      } else {
        var v := AttrValue(Skip(s2[1..]));
        ValueFits(Skip(s2[1..]));
        ParseAttrsFit(v.rest, attrs + [Attr(name, v.text)]);
      }
    }
  }

  lemma {:induction false} NoMoreAttrs(s: string, attrs: seq<Attr>)
    requires var s1 := Skip(s);
      s1 == [] || s1[0] == '>' || s1[0] == '/' || |attrs| >= MAX_ATTRS || Run(s1, AtAttrName) == 0
    ensures ParseAttrs(s, attrs).attrs == attrs
  {
    hide Run, Skip, LowerAll, AttrValue, Clip;
  }

  lemma {:induction false} NextAttr(s: string, attrs: seq<Attr>)
    requires var s1 := Skip(s);
      s1 != [] && s1[0] != '>' && s1[0] != '/' && |attrs| < MAX_ATTRS && Run(s1, AtAttrName) > 0
    ensures var s1 := Skip(s);
      var n := Run(s1, AtAttrName);
      var name, s2 := Clip(LowerAll(s1[..n]), ATTR_MAX - 1), Skip(s1[n..]);
      ParseAttrs(s, attrs) ==
      if Peek(s2) != '=' then ParseAttrs(s2, attrs + [Attr(name, "")])
      else ParseAttrs(AttrValue(Skip(s2[1..])).rest, attrs + [Attr(name, AttrValue(Skip(s2[1..])).text)])
  {
    hide Run, Skip, LowerAll, AttrValue, Clip;
  }

  lemma {:induction false} ValueFits(s: string)
    ensures |AttrValue(s).text| <= 63
  {
    hide Run;
  }

  lemma {:induction false} TrimLeftEdge(s: string)
    ensures TrimLeft(s) != [] ==> !Blank(TrimLeft(s)[0])
  {
    if s != [] && IsSpace(s[0]) { TrimLeftEdge(s[1..]); }
  }

  lemma {:induction false} ParseTextFits(s: string)
    requires s != [] && s[0] != '<'
    ensures var p := ParseText(s); p.node.Some? ==> Fits(p.node.value)
  {
    hide Run, TrimLeft, TrimRight;
    TrimLeftEdge(s[..Min(Run(s, At('<')), TEXT_MAX - 1)]);
  }

  lemma {:induction false} ParseMarkupFits(s: string)
    ensures var p := ParseMarkup(s); p.node.Some? ==> Fits(p.node.value)
  {
    hide Run, PastTag, CommentRun;
  }

  lemma {:induction false} ParseHeadFits(s: string)
    ensures |ParseHead(s).tag| <= 31 && SmallLetters(ParseHead(s).tag) && AttrsFit(ParseHead(s).attrs)
  {
    hide Run, ParseAttrs, LowerAll, SmallLetters;
    ClippedSmall(s[..Run(s, AtTagName)], TAG_MAX - 1);
    ParseAttrsFit(s[Run(s, AtTagName)..], []);
  }

  lemma {:induction false} ParseRawFits(s: string, tag: string)
    ensures |ParseRaw(s, tag).text| <= 4095 && (ParseRaw(s, tag).text != "" ==> tag == "style")
  {
    hide RawRun, PastTag;
  }

  /** Every node a parse makes fits. */
  lemma {:induction false} ParseNodeFits(s: string)
    requires s != []
    ensures var p := ParseNode(s); p.node.Some? ==> Fits(p.node.value)
    decreases |s|, 0
  {
    hide ParseText, ParseMarkup, ParseElement, Fits;
    if s[0] != '<' {
      ParseTextFits(s);
    } else if Peek(s[1..]) == '!' {
      ParseMarkupFits(s[2..]);
    } else if Peek(s[1..]) != '/' {
      ParseElementFits(s[1..]);
    }
  }

  lemma {:induction false} ParseElementFits(s: string)
    ensures var p := ParseElement(s); p.node.Some? && Fits(p.node.value)
    decreases |s|, 2
  {
    hide ParseHead, ParseRaw, ParseChildren, SmallLetters, AttrsFit;
    var h := ParseHead(s);
    ParseHeadFits(s);
    ParseRawFits(h.rest, h.tag);
    ParseChildrenFit(h.rest, []);
  }

  lemma {:induction false} ParseChildrenFit(s: string, nodes: seq<Tree>)
    requires AllFit(nodes)
    ensures AllFit(ParseChildren(s, nodes).nodes)
    decreases |s|, 1
  {
    hide Fits, ParseNode, PastTag;
    if s != [] && !AtClosing(s) {
      var p := ParseNode(s);
      ParseNodeFits(s);
      if p.node.Some? {
        ParseChildrenFit(p.rest, AddChild(nodes, p.node.value));
      } else if p.rest != [] && p.rest[0] != '<' {
        ParseChildrenFit(p.rest[1..], nodes);
      } else if !AtClosing(p.rest) {
        ParseChildrenFit(p.rest, nodes);
      }
    }
  }

  /** And so does every document. */
  lemma {:induction false} DocumentFits(s: string, nodes: seq<Tree>)
    requires AllFit(nodes)
    ensures AllFit(ParseDocument(s, nodes))
    decreases |s|
  {
    hide Fits, ParseNode;
    if s != [] {
      var p := ParseNode(s);
      ParseNodeFits(s);
      if p.node.Some? {
        DocumentFits(p.rest, AddChild(nodes, p.node.value));
      } else if p.rest != [] && p.rest[0] != '<' {
        DocumentFits(p.rest[1..], nodes);
      } else {
        DocumentFits(p.rest, nodes);
      }
    }
  }
}
