/** The parser of browser/html.h: a cursor that moves over the source, and a tree of
    nodes that are filled in place and linked to their parents. */
module Html {
  import opened Basics
  import opened HtmlSpec
  import opened HtmlMarkup
  import opened HtmlRoundTrip

  datatype Kind = ElementNode | TextNode | CommentNode | DoctypeNode

  class DomNode {
    var kind: Kind
    var tag: string
    var text: string
    var attrs: seq<Attr>
    var children: seq<DomNode>
    var parent: DomNode?
    /** The nodes of the subtree. */
    ghost var repr: set<DomNode>

    /** `dom_alloc`. */
    constructor (k: Kind)
      ensures kind == k && tag == "" && text == "" && attrs == [] && children == [] && parent == null
      ensures repr == {this}
    {
      kind, tag, text, attrs, children, parent := k, "", "", [], [], null;
      repr := {this};
    }
  }

  /** A child lies within its parent's subtree, points back to it, and stands for `t`. */
  ghost predicate IsChild(n: DomNode, c: DomNode, t: Tree)
    reads n, n.repr
    decreases t, 2
  {
    c in n.repr && c.repr <= n.repr && n !in c.repr && c.parent == n && Shows(c, t)
  }

  /** The children stand for these trees, and their subtrees have no node in common. */
  ghost predicate Family(n: DomNode, ts: seq<Tree>)
    reads n, n.repr
    decreases ts, 0
  {
    && n in n.repr && |n.children| == |ts|
    && (forall i :: 0 <= i < |ts| ==> IsChild(n, n.children[i], ts[i]))
    && (forall i, j :: 0 <= i < j < |ts| ==>
      n.children[i] in n.repr && n.children[j] in n.repr && n.children[i].repr !! n.children[j].repr)
  }

  /** A node and what is below it stand for this tree. */
  ghost predicate Shows(n: DomNode, t: Tree)
    reads n, n.repr
    decreases t, 1
  {
    n in n.repr &&
    match t
    case Text(text) => n.kind == TextNode && n.text == text && n.children == []
    case Comment(text) => n.kind == CommentNode && n.text == text && n.children == []
    case Doctype => n.kind == DoctypeNode && n.tag == "!doctype" && n.children == []
    case Element(tag, attrs, text, children) =>
      n.kind == ElementNode && n.tag == tag && n.attrs == attrs && n.text == text && Family(n, children)
  }

  /** Linking a node to a parent changes nothing below it. */
  method SetParent(n: DomNode, to: DomNode, ghost t: Tree)
    requires Shows(n, t)
    modifies n`parent
    ensures Shows(n, t) && n.parent == to
  {
    n.parent := to;
    if t.Element? {
      forall i | 0 <= i < |t.children| ensures IsChild(n, n.children[i], t.children[i]) {
        assert old(IsChild(n, n.children[i], t.children[i]));
      }
    }
  }

  /** The family with one more. */
  lemma {:induction false} FamilyNext(n: DomNode, c: DomNode, ts: seq<Tree>, t: Tree)
    requires n in n.repr && |n.children| == |ts| + 1 && n.children[|ts|] == c
    requires IsChild(n, c, t) && forall i :: 0 <= i < |ts| ==>
      IsChild(n, n.children[i], ts[i]) && n.children[i].repr !! c.repr
    requires forall i, j :: 0 <= i < j < |ts| ==> n.children[i].repr !! n.children[j].repr
    ensures Family(n, ts + [t])
  {
  }

  /** `hp_add_child`: a child past the limit is dropped. */
  method AddChildNode(parent: DomNode, child: DomNode, ghost ts: seq<Tree>, ghost t: Tree)
    requires Family(parent, ts) && Shows(child, t) && parent.repr !! child.repr
    modifies parent`children, parent`repr, child`parent
    ensures Family(parent, AddChild(ts, t))
    ensures parent.repr <= old(parent.repr) + old(child.repr)
  {
    if |parent.children| >= MAX_CHILDREN {
      return;
    }
    SetParent(child, parent, t);
    parent.children := parent.children + [child];
    parent.repr := parent.repr + child.repr;
    forall i | 0 <= i < |ts| ensures IsChild(parent, parent.children[i], ts[i]) &&
      parent.children[i].repr == old(parent.children[i].repr) {
      assert old(IsChild(parent, parent.children[i], ts[i]));
    }
    FamilyNext(parent, child, ts, t);
  }

  lemma {:induction false} Slide(s: string, i: nat, k: nat)
    requires i + k <= |s|
    ensures s[i..][k..] == s[i + k..] && s[i..][..k] == s[i..i + k]
  {
  }

  predicate IsCString(s: string) {
    forall i :: 0 <= i < |s| ==> s[i] != NUL
  }

  lemma {:induction false} RunNext(s: string, i: nat, stop: Stop)
    requires i <= |s|
    ensures Run(s[i..], stop) == if i == |s| || Stops(stop, s[i]) then 0 else 1 + Run(s[i + 1..], stop)
  {
    if i < |s| { assert s[i..][1..] == s[i + 1..]; }
  }

  class HtmlParser {
    const src: string
    var pos: nat

    predicate Valid()
      reads this
    {
      pos <= |src| && IsCString(src)
    }

    /** The input that is left. */
    function Rest(): (r: string)
      reads this
      requires Valid()
      ensures |r| == |src| - pos
    {
      src[pos..]
    }

    constructor (source: string)
      requires IsCString(source)
      ensures Valid() && Rest() == source
    {
      src, pos := source, 0;
    }

    /** `hp_peek`. */
    function Ahead(): (c: char)
      requires Valid()
      reads this
      ensures c == Peek(Rest())
    {
      if pos < |src| then src[pos] else NUL
    }

    /** `while (...) p->pos++`, keeping what was passed; no more than `max` characters. */
    method ReadAtMost(stop: Stop, max: nat) returns (word: string)
      requires Valid()
      modifies this
      ensures Valid() && pos >= old(pos)
      ensures var n := Min(Run(old(Rest()), stop), max);
              word == old(Rest())[..n] && Rest() == old(Rest())[n..]
    {
      hide Run, Stops, IsCString;
      word := "";
      ghost var start, run := pos, Run(src[pos..], stop);
      while pos < |src| && !Stops(stop, src[pos]) && |word| < max
        invariant Valid() && pos == start + |word| && |word| <= max && word == src[start..pos]
        invariant run == |word| + Run(src[pos..], stop)
      {
        RunNext(src, pos, stop);
        assert src[start..pos + 1] == word + [src[pos]];
        word := word + [src[pos]];
        pos := pos + 1;
      }
      RunNext(src, pos, stop);
      Slide(src, start, |word|);
      assert |word| == Min(run, max);
    }

    method ReadRun(stop: Stop) returns (word: string)
      requires Valid()
      modifies this
      ensures Valid() && pos >= old(pos)
      ensures word == old(Rest())[..Run(old(Rest()), stop)] && Rest() == old(Rest())[Run(old(Rest()), stop)..]
    {
      word := ReadAtMost(stop, |src|);
    }

    /** `hp_skip_spaces`. */
    method SkipSpaces()
      requires Valid()
      modifies this
      ensures Valid() && pos >= old(pos) && Rest() == Skip(old(Rest()))
    {
      var _ := ReadRun(AtNonSpace);
    }

    /** Past the next `>`. */
    method SkipTag()
      requires Valid()
      modifies this
      ensures Valid() && pos >= old(pos) && Rest() == PastTag(old(Rest()))
    {
      var word := ReadRun(At('>'));
      Slide(src, old(pos), |word|);
      if pos < |src| {
        Slide(src, old(pos), |word| + 1);
        pos := pos + 1;
      }
    }

    /** One character further. */
    method Step()
      requires Valid() && pos < |src|
      modifies this
      ensures Valid() && pos == old(pos) + 1 && Rest() == old(Rest())[1..]
    {
      Slide(src, pos, 1);
      pos := pos + 1;
    }

    method ReadQuoted(quote: char) returns (value: string)
      requires Valid() && quote != NUL
      modifies this
      ensures Valid() && pos >= old(pos) && Raw(value, Rest()) == Quoted(old(Rest()), quote)
    {
      hide IsCString, Run;
      value := ReadAtMost(At(quote), ATTR_MAX - 1);
      if Ahead() == quote {
        Step();
      }
    }

    /** The value of an attribute. */
    method ReadValue() returns (value: string)
      requires Valid()
      modifies this
      ensures Valid() && pos >= old(pos) && Raw(value, Rest()) == AttrValue(old(Rest()))
    {
      hide IsCString, Run, Quoted, Clip;
      var quote := Ahead();
      if quote == '"' || quote == '\'' {
        Step();
        value := ReadQuoted(quote);
      } else {
        value := ReadRun(AtUnquoted);
        value := Clip(value, ATTR_MAX - 1);
      }
    }

    /** `hp_parse_attrs`. */
    method ReadAttrs(node: DomNode)
      requires Valid() && node.attrs == []
      modifies this, node`attrs
      ensures Valid() && pos >= old(pos) && Attrs(node.attrs, Rest()) == ParseAttrs(old(Rest()), [])
    {
      hide Run, Skip, AttrValue, LowerAll, Clip;
      while pos < |src|
        invariant Valid() && pos >= old(pos)
        invariant ParseAttrs(old(Rest()), []) == ParseAttrs(Rest(), node.attrs)
        decreases |src| - pos
      {
        ghost var start := pos;
        SkipSpaces();
        var c := Ahead();
        if c == '>' || c == '/' || c == NUL {
          return;
        }
        if |node.attrs| >= MAX_ATTRS {
          var _ := ReadRun(At('>'));
          return;
        }
        var word := ReadRun(AtAttrName);
        var name := Clip(LowerAll(word), ATTR_MAX - 1);
        if name == "" {
          return;
        }
        SkipSpaces();
        if Ahead() != '=' {
          node.attrs := node.attrs + [Attr(name, "")];
          continue;
        }
        Step();
        SkipSpaces();
        var value := ReadValue();
        node.attrs := node.attrs + [Attr(name, value)];
      }
    }

    /** `hp_parse_text`. */
    method ReadText() returns (node: DomNode?)
      requires Valid() && pos < |src| && src[pos] != '<'
      modifies this
      ensures Valid() && pos > old(pos) && Rest() == ParseText(old(Rest())).rest
      ensures Stands(node, ParseText(old(Rest())).node)
      ensures node != null ==> fresh(node) && fresh(node.repr)
    {
      hide Run, IsCString, Trim;
      var buf := ReadAtMost(At('<'), TEXT_MAX - 1);
      var text := TrimText(buf);
      if text == "" {
        return null;
      }
      node := new DomNode(TextNode);
      node.text := text;
    }

    /** The text of a comment. */
    method SkimComment() returns (text: string)
      requires Valid()
      modifies this
      ensures Valid() && pos >= old(pos)
      ensures text == Clip(old(Rest())[..CommentRun(old(Rest()))], TEXT_MAX - 1)
      ensures Rest() == old(Rest())[CommentRun(old(Rest()))..]
    {
      hide CommentRun, EndsComment, IsCString, Clip;
      ghost var start, run := pos, CommentRun(src[pos..]);
      text := "";
      while pos + 2 < |src| && !EndsComment(src[pos..])
        invariant Valid() && start <= pos
        invariant run == pos - start + CommentRun(src[pos..])
        invariant text == Clip(src[start..pos], TEXT_MAX - 1)
      {
        CommentNext(src, pos);
        ClipNext(src, start, pos, TEXT_MAX - 1);
        if |text| < TEXT_MAX - 1 {
          text := text + [src[pos]];
        }
        pos := pos + 1;
      }
      CommentNext(src, pos);
      Slide(src, start, pos - start);
    }

    /** `hp_parse_comment`. */
    method ReadComment() returns (node: DomNode)
      requires Valid()
      modifies this
      ensures Valid() && pos >= old(pos) && Rest() == ParseComment(old(Rest())).rest
      ensures Stands(node, ParseComment(old(Rest())).node) && fresh(node) && fresh(node.repr)
    {
      hide CommentRun, IsCString, Clip, Shows;
      var text := SkimComment();
      if pos + 2 < |src| {
        Slide(src, old(pos), pos - old(pos) + 3);
        pos := pos + 3;
      }
      node := NewComment(text);
    }

    /** The content of a script or style. */
    method SkimRaw(close: string, keep: bool) returns (text: string)
      requires Valid()
      modifies this
      ensures Valid() && pos >= old(pos)
      ensures var n := RawRun(old(Rest()), close);
              text == (if keep then Clip(old(Rest())[..n], TEXT_MAX - 1) else "") && Rest() == old(Rest())[n..]
    {
      hide RawRun, IsCString, Clip, EndsRaw;
      ghost var start, run := pos, RawRun(src[pos..], close);
      text := "";
      while !EndsRaw(src[pos..], close)
        invariant Valid() && start <= pos
        invariant run == pos - start + RawRun(src[pos..], close)
        invariant text == if keep then Clip(src[start..pos], TEXT_MAX - 1) else ""
        decreases |src| - pos
      {
        RawNext(src, pos, close);
        assert pos < |src|;
        ClipNext(src, start, pos, TEXT_MAX - 1);
        if keep && |text| < TEXT_MAX - 1 {
          text := text + [src[pos]];
        }
        pos := pos + 1;
      }
      RawNext(src, pos, close);
      Slide(src, start, pos - start);
    }

    /** And its closing tag. */
    method ReadRaw(tag: string) returns (text: string)
      requires Valid()
      modifies this
      ensures Valid() && pos >= old(pos) && Raw(text, Rest()) == ParseRaw(old(Rest()), tag)
    {
      hide RawRun, IsCString, Clip, PastTag;
      var close := "</" + tag;
      text := SkimRaw(close, tag == "style");
      if pos + |close| < |src| {
        SkipTag();
      }
    }

    /** The end of an opening tag. */
    method ReadEnd()
      requires Valid()
      modifies this
      ensures Valid() && pos >= old(pos) && Rest() == EndTag(old(Rest()))
    {
      hide IsCString;
      if Ahead() == '/' {
        Step();
      }
      if Ahead() == '>' {
        Step();
      }
    }

    /** What comes after `<!`. */
    method ReadMarkup() returns (node: DomNode?)
      requires Valid()
      modifies this
      ensures Valid() && pos >= old(pos) && Rest() == ParseMarkup(old(Rest())).rest
      ensures Stands(node, ParseMarkup(old(Rest())).node)
      ensures node != null ==> fresh(node) && fresh(node.repr)
    {
      hide IsCString, PastTag, CommentRun, Clip;
      if pos + 6 < |src| && (src[pos] == 'D' || src[pos] == 'd') && (src[pos + 1] == 'O' || src[pos + 1] == 'o') {
        SkipTag();
        node := new DomNode(DoctypeNode);
        node.tag := "!doctype";
      } else if pos + 1 < |src| && src[pos] == '-' && src[pos + 1] == '-' {
        Slide(src, pos, 2);
        pos := pos + 2;
        node := ReadComment();
      } else {
        SkipTag();
        node := null;
      }
    }

    /** `hp_parse_node`: the node of the tree that the specification gives, if any, in
        nodes of its own; and the cursor has moved. */
    method ReadNode() returns (node: DomNode?)
      requires Valid() && pos < |src|
      modifies this
      ensures Valid() && pos > old(pos) && Rest() == ParseNode(old(Rest())).rest
      ensures Stands(node, ParseNode(old(Rest())).node)
      ensures node != null ==> fresh(node) && fresh(node.repr)
      decreases |src| - pos, 0
    {
      hide IsCString, ParseMarkup, ParseText, ParseElement, Shows;
      if src[pos] != '<' {
        node := ReadText();
        return;
      }
      Slide(src, pos, 1);
      Slide(src, pos, if pos + 2 <= |src| then 2 else 1);
      pos := pos + 1;
      var c := Ahead();
      if c == '/' {
        return null;
      }
      if c == '!' {
        pos := pos + 1;
        node := ReadMarkup();
        return;
      }
      node := ReadElement();
    }

    /** An opening tag: the name and the attributes of the node. */
    method ReadHead(node: DomNode)
      requires Valid() && node.attrs == []
      modifies this, node`tag, node`attrs
      ensures Valid() && pos >= old(pos)
      ensures Head(node.tag, node.attrs, Rest()) == ParseHead(old(Rest()))
    {
      hide IsCString, Run, LowerAll, Clip, Skip, EndTag, ParseAttrs;
      var word := ReadRun(AtTagName);
      node.tag := Clip(LowerAll(word), TAG_MAX - 1);
      ReadAttrs(node);
      SkipSpaces();
      ReadEnd();
    }

    /** An opening tag and what belongs to it. */
    method ReadElement() returns (node: DomNode)
      requires Valid()
      modifies this
      ensures Valid() && pos >= old(pos) && Rest() == ParseElement(old(Rest())).rest
      ensures Stands(node, ParseElement(old(Rest())).node) && fresh(node) && fresh(node.repr)
      decreases |src| - pos, 2
    {
      hide IsCString, ParseHead, ParseRaw, ParseChildren, IsVoid, IsRaw, Family;
      node := new DomNode(ElementNode);
      ReadHead(node);
      FamilyNone(node);
      if IsVoid(node.tag) {
        return;
      }
      if IsRaw(node.tag) {
        var text := ReadRaw(node.tag);
        node.text := text;
        FamilyNone(node);
        return;
      }
      ReadChildren(node);
    }

    /** The rest of a closing tag. */
    method ReadClosing()
      requires Valid() && pos + 2 <= |src|
      modifies this
      ensures Valid() && pos > old(pos) && Rest() == PastTag(old(Rest())[2..])
    {
      hide IsCString, PastTag;
      Slide(src, pos, 2);
      pos := pos + 2;
      SkipTag();
    }

    /** Whether a closing tag is next. */
    function Closing(): (c: bool)
      requires Valid()
      reads this
      ensures c == AtClosing(Rest())
    {
      Ahead() == '<' && pos + 1 < |src| && src[pos + 1] == '/'
    }

    /** The children of an element, up to a closing tag. */
    method ReadChildren(node: DomNode)
      requires Valid() && node.children == [] && node.repr == {node}
      modifies this, node`children, node`repr
      ensures Valid() && pos >= old(pos) && Rest() == ParseChildren(old(Rest()), []).rest
      ensures Family(node, ParseChildren(old(Rest()), []).nodes) && node in node.repr && fresh(node.repr - {node})
      decreases |src| - pos, 1
    {
      hide IsCString, ParseNode, AtClosing, PastTag, AddChild, Shows, Family;
      ghost var start, ts: seq<Tree> := Rest(), [];
      FamilyNone(node);
      while pos < |src|
        invariant Valid() && pos >= old(pos) && Family(node, ts) && fresh(node.repr - {node}) && node in node.repr
        invariant ParseChildren(start, []) == ParseChildren(Rest(), ts)
        decreases |src| - pos
      {
        if Closing() {
          ReadClosing();
          return;
        }
        ghost var here := Rest();
        var child := ReadNode();
        if child != null {
          ghost var t := ParseNode(here).node.value;
          AddChildNode(node, child, ts, t);
          ts := AddChild(ts, t);
        } else if Closing() {
          ReadClosing();
          return;
        } else if pos < |src| && Ahead() != '<' {
          Step();
        }
      }
    }
  }

  /** `html_parse`: the document node over the trees of the specification. */
  method ParseHtml(source: string) returns (root: DomNode)
    requires IsCString(source)
    ensures fresh(root) && Shows(root, Element("#document", [], "", ParseDocument(source, [])))
  {
    hide IsCString, ParseNode, AddChild, Shows, Family;
    var p := new HtmlParser(source);
    root := new DomNode(ElementNode);
    root.tag := "#document";
    ghost var ts: seq<Tree> := [];
    FamilyNone(root);
    while p.pos < |p.src|
      invariant p.Valid() && fresh(p) && fresh(root.repr) && root in root.repr && Family(root, ts)
      invariant root.kind == ElementNode && root.tag == "#document" && root.attrs == [] && root.text == ""
      invariant ParseDocument(source, []) == ParseDocument(p.Rest(), ts)
      decreases |p.src| - p.pos
    {
      ghost var here := p.Rest();
      var child := p.ReadNode();
      if child != null {
        ghost var t := ParseNode(here).node.value;
        AddChildNode(root, child, ts, t);
        ts := AddChild(ts, t);
      } else if p.pos < |p.src| && p.Ahead() != '<' {
        p.Step();
      }
    }
    DocumentShows(root, ts);
  }

  /** Parsing a document, however it is written, builds the trees it means, node by node. */
  method ParsePrinted(ms: seq<Markup>) returns (root: DomNode)
    requires AllOk(ms) && |MeaningAll(ms)| <= 128 && IsCString(PrintAll(ms, ""))
    ensures fresh(root) && Shows(root, Element("#document", [], "", MeaningAll(ms)))
  {
    hide IsCString, Shows, Print, Ok;
    DocumentBack(ms, []);
    assert [] + MeaningAll(ms) == MeaningAll(ms);
    root := ParseHtml(PrintAll(ms, ""));
  }

  /** Parsing the plain form of any document within the limits rebuilds it. */
  method ParsePlain(ts: seq<Tree>) returns (root: DomNode)
    requires ChildrenOk(ts) && IsCString(PrintAll(PlainAll(ts), ""))
    ensures fresh(root) && Shows(root, Element("#document", [], "", ts))
  {
    hide IsCString, Shows, Print, TreeOk;
    PlainAllOk(ts);
    root := ParsePrinted(PlainAll(ts));
  }

  lemma {:induction false} DocumentShows(root: DomNode, ts: seq<Tree>)
    requires root in root.repr && Family(root, ts)
    requires root.kind == ElementNode && root.tag == "#document" && root.attrs == [] && root.text == ""
    ensures Shows(root, Element("#document", [], "", ts))
  {
  }

  lemma {:induction false} FamilyNone(n: DomNode)
    requires n in n.repr && n.children == []
    ensures Family(n, [])
  {
  }

  /** A node, or none, for a tree, or none. */
  ghost predicate Stands(node: DomNode?, t: Option<Tree>)
    reads node, if node == null then {} else node.repr
  {
    match t
    case Nothing => node == null
    case Some(tree) => node != null && Shows(node, tree)
  }

  method NewComment(text: string) returns (node: DomNode)
    ensures fresh(node) && fresh(node.repr) && Shows(node, Comment(text))
  {
    node := new DomNode(CommentNode);
    node.text := text;
  }

  /** The two loops that trim a text. */
  method TrimText(buf: string) returns (text: string)
    ensures text == Trim(buf)
  {
    hide IsSpace, TrimLeft, TrimRight;
    var s := 0;
    while s < |buf| && IsSpace(buf[s])
      invariant s <= |buf| && TrimLeft(buf) == TrimLeft(buf[s..])
    {
      LeftNext(buf, s);
      s := s + 1;
    }
    LeftNext(buf, s);
    var e := |buf|;
    assert buf[s..e] == buf[s..];
    while e > s && IsSpace(buf[e - 1])
      invariant s <= e <= |buf| && Trim(buf) == TrimRight(buf[s..e])
    {
      RightNext(buf, s, e);
      e := e - 1;
    }
    RightNext(buf, s, e);
    text := buf[s..e];
  }

  lemma {:induction false} LeftNext(s: string, i: nat)
    requires i <= |s|
    ensures TrimLeft(s[i..]) == if i < |s| && IsSpace(s[i]) then TrimLeft(s[i + 1..]) else s[i..]
  {
    hide IsSpace;
    if i < |s| { assert s[i..][0] == s[i] && s[i..][1..] == s[i + 1..]; }
  }

  lemma {:induction false} RightNext(s: string, i: nat, j: nat)
    requires i <= j <= |s|
    ensures TrimRight(s[i..j]) == if i < j && IsSpace(s[j - 1]) then TrimRight(s[i..j - 1]) else s[i..j]
  {
    hide IsSpace;
    if i < j { assert s[i..j][j - i - 1] == s[j - 1] && s[i..j][..j - i - 1] == s[i..j - 1]; }
  }

  lemma {:induction false} CommentNext(s: string, i: nat)
    requires i <= |s|
    ensures CommentRun(s[i..]) ==
            if |s| - i <= 2 || EndsComment(s[i..]) then 0 else 1 + CommentRun(s[i + 1..])
  {
    if i < |s| { assert s[i..][1..] == s[i + 1..]; }
  }

  lemma {:induction false} ClipNext(s: string, i: nat, j: nat, n: nat)
    requires i <= j < |s|
    ensures Clip(s[i..j + 1], n) == if j - i < n then Clip(s[i..j], n) + [s[j]] else Clip(s[i..j], n)
    ensures |Clip(s[i..j], n)| == if j - i < n then j - i else n
  {
    if j - i >= n { assert s[i..j + 1][..n] == s[i..j][..n]; }
  }

  lemma {:induction false} RawNext(s: string, i: nat, close: string)
    requires i <= |s|
    ensures RawRun(s[i..], close) == if EndsRaw(s[i..], close) then 0 else 1 + RawRun(s[i + 1..], close)
    ensures |s| - i <= |close| ==> EndsRaw(s[i..], close)
  {
    if i < |s| { assert s[i..][1..] == s[i + 1..]; }
  }
}
