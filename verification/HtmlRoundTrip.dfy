/** Markup, however it is written, parses to the tree it means. */
module HtmlRoundTrip {
  import opened Basics
  import opened HtmlSpec
  import opened HtmlMarkup

  predicate NoStop(s: string, stop: Stop) {
    forall i :: 0 <= i < |s| ==> !Stops(stop, s[i])
  }

  // ---- Characters ----

  lemma {:induction false} BlankIs(c: char)
    ensures IsSpace(c) <==> Blank(c)
    ensures Lower(c) == Small(c)
  {
  }

  lemma {:induction false} SmallIs(s: string)
    ensures LowerAll(s) == SmallAll(s)
  {
    hide Lower, Small;
    forall i | 0 <= i < |s| ensures LowerAll(s)[i] == SmallAll(s)[i] {
      BlankIs(s[i]);
    }
  }

  lemma {:induction false} Front(a: string, b: string)
    ensures (a + b)[..|a|] == a && (a + b)[|a|..] == b
  {
  }

  lemma {:induction false} RunExact(a: string, b: string, stop: Stop)
    requires NoStop(a, stop) && (b == [] || Stops(stop, b[0]))
    ensures Run(a + b, stop) == |a| && (a + b)[..|a|] == a && (a + b)[|a|..] == b
  {
    if a != [] {
      assert (a + b)[1..] == a[1..] + b;
      RunExact(a[1..], b, stop);
    }
  }

  /** Blanks are skipped, up to what is none. */
  lemma {:induction false} SkipBlanks(g: string, s: string)
    requires AllBlank(g) && (s == [] || !Blank(s[0]))
    ensures Skip(g + s) == s
  {
    assert NoStop(g, AtNonSpace) by {
      forall i | 0 <= i < |g| ensures !Stops(AtNonSpace, g[i]) {
        BlankIs(g[i]);
      }
    }
    if s != [] { BlankIs(s[0]); }
    RunExact(g, s, AtNonSpace);
  }

  lemma {:induction false} SkipNone(s: string)
    requires s == [] || !Blank(s[0])
    ensures Skip(s) == s
  {
    SkipBlanks("", s);
    assert "" + s == s;
  }

  lemma {:induction false} SkipTwice(s: string)
    ensures Skip(Skip(s)) == Skip(s)
  {
    if Skip(s) != [] { BlankIs(Skip(s)[0]); }
    SkipNone(Skip(s));
  }

  lemma {:induction false} ParseSkipped(s: string, attrs: seq<Attr>)
    ensures ParseAttrs(Skip(s), attrs) == ParseAttrs(s, attrs)
  {
    SkipTwice(s);
    hide Skip, Run;
  }

  // ---- Values ----

  lemma {:induction false} LackStop(s: string, c: char)
    requires Lacks(s, c)
    ensures NoStop(s, At(c))
  {
  }

  lemma {:induction false} QuotedBack(value: string, q: char, rest: string)
    requires |value| <= 63 && Lacks(value, q) && (q == '"' || q == '\'')
    ensures AttrValue([q] + (value + ([q] + rest))) == Raw(value, rest)
  {
    LackStop(value, q);
    Front([q], value + ([q] + rest));
    RunExact(value, [q] + rest, At(q));
    Front([q], rest);
  }

  /** An unquoted value ends at a blank, at the end of the tag or at the end. */
  lemma {:induction false} BareBack(v: string, rest: string)
    requires |v| <= 63 && (v != "" ==> v[0] != '"' && v[0] != '\'')
    requires forall i :: 0 <= i < |v| ==> BareChar(v[i])
    requires rest == "" || Blank(rest[0]) || rest[0] == '>'
    ensures AttrValue(v + rest) == Raw(v, rest)
  {
    assert NoStop(v, AtUnquoted) by {
      forall i | 0 <= i < |v| ensures !Stops(AtUnquoted, v[i]) {
        BlankIs(v[i]);
      }
    }
    if rest != "" { BlankIs(rest[0]); }
    RunExact(v, rest, AtUnquoted);
    assert v == "" ==> v + rest == rest;
  }

  // ---- Attributes ----

  /** What may stand behind an attribute. */
  predicate Follows(rest: string, form: Form) {
    && rest != "" && (Blank(rest[0]) || rest[0] == '>' || (rest[0] == '/' && form != Bare))
    && Peek(Skip(rest)) != '='
  }

  /** The name at the front of an attribute. */
  lemma {:induction false} NameBack(gap: string, name: string, tail: string)
    requires AllBlank(gap) && 0 < |name| <= 63 && forall i :: 0 <= i < |name| ==> NameChar(name[i])
    requires tail != [] && (tail[0] == '=' || Blank(tail[0]) || tail[0] == '>' || tail[0] == '/')
    ensures var s := Skip(gap + (name + tail));
            && s != [] && s[0] != '>' && s[0] != '/' && Run(s, AtAttrName) == |name|
            && Clip(LowerAll(s[..|name|]), ATTR_MAX - 1) == SmallAll(name) && s[|name|..] == tail
  {
    assert NameChar(name[0]);
    SkipBlanks(gap, name + tail);
    assert NoStop(name, AtAttrName) by {
      forall i | 0 <= i < |name| ensures !Stops(AtAttrName, name[i]) {
        BlankIs(name[i]);
      }
    }
    BlankIs(tail[0]);
    RunExact(name, tail, AtAttrName);
    SmallIs(name);
  }

  /** What `ParseAttrs` does at an attribute. */
  lemma {:induction false} AttrStep(s: string, name: string, after: string, attrs: seq<Attr>)
    requires Skip(s) != [] && Skip(s)[0] != '>' && Skip(s)[0] != '/' && |attrs| < MAX_ATTRS
    requires 0 < Run(Skip(s), AtAttrName)
    requires name == Clip(LowerAll(Skip(s)[..Run(Skip(s), AtAttrName)]), ATTR_MAX - 1)
    requires after == Skip(Skip(s)[Run(Skip(s), AtAttrName)..])
    ensures Peek(after) != '=' ==> ParseAttrs(s, attrs) == ParseAttrs(after, attrs + [Attr(name, "")])
    ensures Peek(after) == '=' ==> after != []
    ensures Peek(after) == '=' ==> var v := AttrValue(Skip(after[1..]));
            ParseAttrs(s, attrs) == ParseAttrs(v.rest, attrs + [Attr(name, v.text)])
  {
    hide Skip, Run, AttrValue, Clip, LowerAll;
  }

  /** What stands behind the name: the equals sign and the value, with blanks around. */
  lemma {:induction false} ValueBack(a: MAttr, rest: string)
    requires AttrOk(a) && Follows(rest, a.form)
    ensures var tail := PrintValue(a, rest);
            tail != [] && (tail[0] == '=' || Blank(tail[0]) || tail[0] == '>' || tail[0] == '/')
    ensures a.form == NoValue ==> PrintValue(a, rest) == rest && a.value == ""
    ensures a.form != NoValue ==> var after := Skip(PrintValue(a, rest));
            Peek(after) == '=' && after != [] && AttrValue(Skip(after[1..])) == Raw(a.value, rest)
  {
    if a.form != NoValue {
      FormBack(a, rest);
      hide AttrValue, PrintQuoted, Skip;
      SkipBlanks(a.left, "=" + (a.right + PrintQuoted(a, rest)));
      Front("=", a.right + PrintQuoted(a, rest));
      SkipBlanks(a.right, PrintQuoted(a, rest));
    }
  }

  lemma {:induction false} FormBack(a: MAttr, rest: string)
    requires AttrOk(a) && Follows(rest, a.form) && a.form != NoValue
    ensures PrintQuoted(a, rest) != [] && !Blank(PrintQuoted(a, rest)[0])
    ensures AttrValue(PrintQuoted(a, rest)) == Raw(a.value, rest)
  {
    hide AttrValue;
    match a.form
    case Double => QuotedBack(a.value, '"', rest);
    case Single => QuotedBack(a.value, '\'', rest);
    case Bare =>
      assert BareChar(a.value[0]);
      BareBack(a.value, rest);
  }

  lemma {:induction false} AttrBack(a: MAttr, attrs: seq<Attr>, rest: string)
    requires AttrOk(a) && Follows(rest, a.form) && |attrs| < MAX_ATTRS
    ensures ParseAttrs(a.gap + (a.name + PrintValue(a, rest)), attrs) == ParseAttrs(rest, attrs + [Meant(a)])
  {
    var tail := PrintValue(a, rest);
    var s := a.gap + (a.name + tail);
    ValueBack(a, rest);
    NameBack(a.gap, a.name, tail);
    hide ParseAttrs, Skip, Run, AttrValue, LowerAll, PrintValue, Clip;
    AttrStep(s, SmallAll(a.name), Skip(tail), attrs);
    if a.form == NoValue { ParseSkipped(rest, attrs + [Meant(a)]); }
  }

  /** The end of an opening tag, behind an attribute of this form or behind the name. */
  predicate Ends(tail: string, form: Form) {
    && tail != "" && (Blank(tail[0]) || tail[0] == '>' || (tail[0] == '/' && form != Bare))
    && Skip(tail) != "" && (Skip(tail)[0] == '>' || Skip(tail)[0] == '/')
  }

  function LastForm(attrs: seq<MAttr>): Form {
    if attrs == [] then NoValue else attrs[|attrs| - 1].form
  }

  /** Attributes begin with a blank; without any, what follows them comes first. */
  lemma {:induction false} AttrsFront(todo: seq<MAttr>, tail: string)
    requires (forall i :: 0 <= i < |todo| ==> AttrOk(todo[i])) && Ends(tail, LastForm(todo))
    ensures Follows(PrintAttrs(todo, tail), if todo == [] then LastForm(todo) else Bare)
    ensures todo == [] ==> PrintAttrs(todo, tail) == tail
  {
    hide Skip, AttrOk, PrintValue;
    if todo != [] {
      AttrsFront(todo[1..], tail);
      AttrsStart(todo[0], PrintAttrs(todo[1..], tail));
    }
  }

  lemma {:induction false} AttrsBack(todo: seq<MAttr>, attrs: seq<Attr>, tail: string)
    requires |attrs| + |todo| <= 16 && (forall i :: 0 <= i < |todo| ==> AttrOk(todo[i])) && Ends(tail, LastForm(todo))
    ensures ParseAttrs(PrintAttrs(todo, tail), attrs) == Attrs(attrs + MeantAll(todo), Skip(tail))
  {
    hide ParseAttrs, Skip, PrintValue, AttrOk, Meant, Ends, Follows, LastForm;
    if todo == [] {
      assert attrs + MeantAll(todo) == attrs;
      EndsSkip(tail, LastForm(todo));
      AttrsEnd(attrs, tail);
    } else {
      AttrsNext(todo, tail);
      AttrBack(todo[0], attrs, PrintAttrs(todo[1..], tail));
      AttrsBack(todo[1..], attrs + [Meant(todo[0])], tail);
      assert attrs + [Meant(todo[0])] + MeantAll(todo[1..]) == attrs + MeantAll(todo);
    }
  }

  lemma {:induction false} EndsSkip(tail: string, form: Form)
    requires Ends(tail, form)
    ensures Skip(tail) != "" && (Skip(tail)[0] == '>' || Skip(tail)[0] == '/')
  {
  }

  lemma {:induction false} AttrsNext(todo: seq<MAttr>, tail: string)
    requires todo != [] && (forall i :: 0 <= i < |todo| ==> AttrOk(todo[i])) && Ends(tail, LastForm(todo))
    ensures Ends(tail, LastForm(todo[1..])) && Follows(PrintAttrs(todo[1..], tail), todo[0].form)
  {
    hide Skip, AttrOk, PrintValue;
    AttrsFront(todo[1..], tail);
  }

  lemma {:induction false} AttrsEnd(attrs: seq<Attr>, tail: string)
    requires Skip(tail) != "" && (Skip(tail)[0] == '>' || Skip(tail)[0] == '/')
    ensures ParseAttrs(tail, attrs) == Attrs(attrs, Skip(tail))
  {
    hide Skip, Run;
  }

  lemma {:induction false} AttrsStart(a: MAttr, rest: string)
    requires AttrOk(a) && Follows(rest, a.form)
    ensures var s := a.gap + (a.name + PrintValue(a, rest)); s != "" && Blank(s[0]) && Peek(Skip(s)) != '='
  {
    ValueBack(a, rest);
    assert NameChar(a.name[0]);
    SkipBlanks(a.gap, a.name + PrintValue(a, rest));
  }

  // ---- Opening and closing tags ----

  lemma {:induction false} CloseBack(c: Close, after: string, form: Form)
    requires AllBlank(c.gap) && (form == Bare && c.slash ==> c.gap != "")
    ensures Ends(PrintClose(c, after), form) && EndTag(Skip(Skip(PrintClose(c, after)))) == after
  {
    var s := if c.slash then "/" + (">" + after) else ">" + after;
    SkipBlanks(c.gap, s);
    SkipNone(s);
    Front("/", ">" + after);
    Front(">", after);
  }

  /** What a tag name is, and where it ends. */
  lemma {:induction false} TagBack(name: string, tail: string)
    requires |name| <= 31 && (forall i :: 0 <= i < |name| ==> TagChar(name[i])) && (name != "" ==> name[0] != '!')
    requires tail != [] && (Blank(tail[0]) || tail[0] == '>' || (tail[0] == '/' && name != ""))
    ensures Peek(name + tail) != '/' && Peek(name + tail) != '!' && !AtClosing("<" + (name + tail))
    ensures Run(name + tail, AtTagName) == |name| && (name + tail)[|name|..] == tail
    ensures Clip(LowerAll((name + tail)[..|name|]), TAG_MAX - 1) == SmallAll(name)
  {
    assert name != "" ==> TagChar(name[0]);
    assert name == "" ==> name + tail == tail;
    assert NoStop(name, AtTagName) by {
      forall i | 0 <= i < |name| ensures !Stops(AtTagName, name[i]) {
        BlankIs(name[i]);
      }
    }
    BlankIs(tail[0]);
    RunExact(name, tail, AtTagName);
    SmallIs(name);
  }

  lemma {:induction false} HeadBack(name: string, attrs: seq<MAttr>, close: Close, after: string)
    requires HeadOk(name, attrs, close)
    ensures var s := name + PrintAttrs(attrs, PrintClose(close, after));
            && Peek(s) != '/' && Peek(s) != '!' && !AtClosing("<" + s)
            && ParseHead(s) == Head(SmallAll(name), MeantAll(attrs), after)
  {
    hide PrintAttrs, PrintClose, ParseAttrs, Skip, Run, LowerAll, EndTag, Clip, AttrOk, AtClosing;
    var tail := PrintClose(close, after);
    CloseBack(close, after, LastForm(attrs));
    if name == "" && attrs == [] { CloseFront(close, after); }
    AttrsFront(attrs, tail);
    AttrsBack(attrs, [], tail);
    TagBack(name, PrintAttrs(attrs, tail));
    assert [] + MeantAll(attrs) == MeantAll(attrs);
  }

  lemma {:induction false} CloseFront(c: Close, after: string)
    requires AllBlank(c.gap) && (c.slash ==> c.gap != "")
    ensures PrintClose(c, after) != "" && PrintClose(c, after)[0] != '/'
  {
  }

  lemma {:induction false} EndBack(end: string, rest: string)
    requires Lacks(end, '>')
    ensures AtClosing(PrintEnd(end, rest)) && PrintEnd(end, rest)[0] == '<'
    ensures PastTag(PrintEnd(end, rest)[2..]) == rest && PastTag(PrintEnd(end, rest)) == rest
  {
    Front("</", end + (">" + rest));
    LackStop(end, '>');
    RunExact(end, ">" + rest, At('>'));
    Front(">", rest);
    assert (end + (">" + rest))[|end| + 1..] == (">" + rest)[1..];
    assert PrintEnd(end, rest) == ("</" + end) + (">" + rest);
    LackStop("</" + end, '>');
    RunExact("</" + end, ">" + rest, At('>'));
    assert (("</" + end) + (">" + rest))[|end| + 3..] == (">" + rest)[1..];
  }

  // ---- Texts, comments, document types ----

  lemma {:induction false} TrimLeftBlanks(g: string, s: string)
    requires AllBlank(g) && (s == "" || !Blank(s[0]))
    ensures TrimLeft(g + s) == s
  {
    if g == "" {
      assert g + s == s;
      if s != "" { BlankIs(s[0]); }
    } else {
      BlankIs(g[0]);
      assert (g + s)[1..] == g[1..] + s;
      TrimLeftBlanks(g[1..], s);
    }
  }

  lemma {:induction false} TrimRightBlanks(s: string, g: string)
    requires AllBlank(g) && s != "" && !Blank(s[|s| - 1])
    ensures TrimRight(s + g) == s
  {
    if g == "" {
      assert s + g == s;
      BlankIs(s[|s| - 1]);
    } else {
      var t := s + g;
      BlankIs(t[|t| - 1]);
      assert t[..|t| - 1] == s + g[..|g| - 1];
      TrimRightBlanks(s, g[..|g| - 1]);
    }
  }

  lemma {:induction false} TextRun(s: string, rest: string)
    requires s != "" && Lacks(s, '<') && |s| <= 4095 && (rest == "" || rest[0] == '<')
    ensures (s + rest)[0] != '<'
    ensures ParseText(s + rest) == Parsed(if Trim(s) == [] then Nothing else Some(Text(Trim(s))), rest)
  {
    hide Trim;
    LackStop(s, '<');
    RunExact(s, rest, At('<'));
  }

  lemma {:induction false} BlankLacks(s: string)
    requires AllBlank(s)
    ensures Lacks(s, '<')
  {
  }

  lemma {:induction false} TextBack(before: string, text: string, after: string, rest: string)
    requires Ok(MText(before, text, after)) && (rest == "" || rest[0] == '<')
    ensures ParseNode(before + (text + (after + rest))) == Parsed(Some(Text(text)), rest)
  {
    var s := before + (text + after);
    assert before + (text + (after + rest)) == s + rest;
    TrimLeftBlanks(before, text + after);
    TrimRightBlanks(text, after);
    BlankLacks(before);
    BlankLacks(after);
    TextRun(s, rest);
    hide ParseText;
  }

  lemma {:induction false} BlankBack(blanks: string, rest: string)
    requires Ok(MBlank(blanks)) && (rest == "" || rest[0] == '<')
    ensures ParseNode(blanks + rest) == Parsed(Nothing, rest)
  {
    TrimLeftBlanks(blanks, "");
    assert blanks + "" == blanks;
    BlankLacks(blanks);
    TextRun(blanks, rest);
    hide ParseText;
  }

  lemma {:induction false} CommentRunExact(text: string, rest: string)
    requires CommentText(text)
    ensures CommentRun(text + ("-->" + rest)) == |text|
  {
    var s := text + ("-->" + rest);
    if text != [] {
      assert !EndsComment(s) by {
        assert |text| > 2 ==> s[0] == text[0] && s[1] == text[1] && s[2] == text[2];
      }
      assert s[1..] == text[1..] + ("-->" + rest);
      CommentRunExact(text[1..], rest);
    }
  }

  lemma {:induction false} MarkupIs(s: string, body: string)
    requires s != [] && s[0] == '<' && Peek(s[1..]) == '!' && body == s[2..]
    ensures ParseNode(s) == ParseMarkup(body)
  {
    hide ParseMarkup;
  }

  lemma {:induction false} CommentBack(text: string, rest: string)
    requires |text| <= 4095 && CommentText(text)
    ensures ParseNode("<!--" + (text + ("-->" + rest))) == Parsed(Some(Comment(text)), rest)
  {
    var body := text + ("-->" + rest);
    var s := "<!--" + body;
    assert s[0] == '<' && s[1..][0] == '!' && s[2..] == "--" + body;
    Front("--", body);
    CommentRunExact(text, rest);
    Front(text, "-->" + rest);
    assert body[|text| + 3..] == rest;
    hide CommentRun, ParseNode;
    assert ParseComment(body) == Parsed(Some(Comment(text)), rest);
    MarkupIs(s, "--" + body);
  }

  lemma {:induction false} DoctypeBack(text: string, rest: string)
    requires Ok(MDoctype(text))
    ensures ParseNode("<!" + (text + (">" + rest))) == Parsed(Some(Doctype), rest)
  {
    var body := text + (">" + rest);
    var s := "<!" + body;
    assert s[0] == '<' && s[1..][0] == '!';
    Front("<!", body);
    LackStop(text, '>');
    RunExact(text, ">" + rest, At('>'));
    Front(">", rest);
    assert body[|text| + 1..] == (">" + rest)[1..];
    hide Run, ParseNode;
    MarkupIs(s, body);
  }

  // ---- Scripts and styles ----

  lemma {:induction false} RawStep(content: string, t: string, close: string)
    requires content != "" && !Begins(content, close) && |t| > |close| && t[0] == '<'
    requires forall i :: 1 <= i < |close| ==> close[i] != '<'
    ensures !EndsRaw(content + t, close)
  {
    var s := content + t;
    SmallIs(s[..|close|]);
    if |content| >= |close| {
      assert s[..|close|] == content[..|close|];
    } else {
      assert SmallAll(s[..|close|])[|content|] == '<';
    }
  }

  lemma {:induction false} RawRunExact(content: string, t: string, close: string)
    requires forall i :: 0 <= i <= |content| ==> !Begins(content[i..], close)
    requires |t| > |close| && t[0] == '<' && SmallAll(t[..|close|]) == close
    requires forall i :: 1 <= i < |close| ==> close[i] != '<'
    ensures RawRun(content + t, close) == |content|
  {
    if content == "" {
      assert content + t == t;
      SmallIs(t[..|close|]);
    } else {
      assert content[0..] == content;
      RawStep(content, t, close);
      hide EndsRaw, Begins;
      assert (content + t)[1..] == content[1..] + t;
      forall i | 0 <= i <= |content[1..]| ensures !Begins(content[1..][i..], close) {
        assert content[1..][i..] == content[i + 1..];
      }
      RawRunExact(content[1..], t, close);
    }
  }

  lemma {:induction false} EndBegins(end: string, tag: string, rest: string)
    requires Begins(end, tag)
    ensures var t := PrintEnd(end, rest); |t| > |tag| + 2 && t[0] == '<' && SmallAll(t[..|tag| + 2]) == "</" + tag
  {
    var t := PrintEnd(end, rest);
    assert t[..|tag| + 2] == "</" + end[..|tag|];
    forall i | 0 <= i < |tag| + 2 ensures SmallAll(t[..|tag| + 2])[i] == ("</" + tag)[i] {
      if i >= 2 { assert SmallAll(end[..|tag|])[i - 2] == tag[i - 2]; }
    }
  }

  lemma {:induction false} RawBack(content: string, end: string, tag: string, rest: string)
    requires RawName(tag) && RawText(content, tag) && Begins(end, tag) && Lacks(end, '>')
    requires tag == "style" ==> |content| <= 4095
    ensures ParseRaw(content + PrintEnd(end, rest), tag) == Raw(if tag == "style" then content else "", rest)
  {
    var t := PrintEnd(end, rest);
    EndBegins(end, tag, rest);
    RawRunExact(content, t, "</" + tag);
    EndBack(end, rest);
    Front(content, t);
    hide RawRun, PastTag, PrintEnd, RawText, Begins;
  }

  // ---- Documents ----

  lemma {:induction false} NamesAre(tag: string)
    ensures IsVoid(tag) <==> VoidName(tag)
    ensures IsRaw(tag) <==> RawName(tag)
  {
  }

  /** What `ParseNode` does at an element. */
  lemma {:induction false} ElementStep(s: string, h: Head)
    requires Peek(s) != '/' && Peek(s) != '!' && h == ParseHead(s)
    ensures ParseNode("<" + s) ==
      if IsVoid(h.tag) then Parsed(Some(Element(h.tag, h.attrs, "", [])), h.rest)
      else if IsRaw(h.tag) then
        Parsed(Some(Element(h.tag, h.attrs, ParseRaw(h.rest, h.tag).text, [])), ParseRaw(h.rest, h.tag).rest)
      else
        Parsed(Some(Element(h.tag, h.attrs, "", ParseChildren(h.rest, []).nodes)), ParseChildren(h.rest, []).rest)
  {
    hide ParseHead, IsVoid, IsRaw, ParseChildren, ParseRaw;
    Front("<", s);
  }

  /** No markup looks like a closing tag, and only texts begin with something else than a tag. */
  lemma {:induction false} NotClosing(m: Markup, rest: string)
    requires Ok(m)
    ensures Print(m, rest) != [] && !AtClosing(Print(m, rest)) && (Textual(m) <==> Print(m, rest)[0] != '<')
  {
    hide PrintAttrs, PrintClose, PrintAll, PrintEnd, HeadOk;
    match m
    case MBlank(blanks) =>
    case MText(before, text, after) =>
    case MComment(text) =>
    case MDoctype(text) =>
    case MVoid(name, attrs, close) => HeadBack(name, attrs, close, rest);
    case MRaw(name, attrs, close, content, end) => HeadBack(name, attrs, close, content + PrintEnd(end, rest));
    case MElement(name, attrs, close, body, end) =>
      HeadBack(name, attrs, close, PrintAll(body, PrintEnd(end, rest)));
  }

  /** Markup, whatever stands behind it, parses to the tree it means. */
  lemma {:induction false} NodeBack(m: Markup, rest: string)
    requires Ok(m) && (Textual(m) ==> rest == [] || rest[0] == '<')
    ensures Print(m, rest) != [] && ParseNode(Print(m, rest)) == Parsed(Meaning(m), rest)
    decreases m, 0
  {
    hide ParseNode, PrintAttrs, PrintClose, PrintAll, ParseChildren, PrintEnd, HeadOk, ParseRaw, ParseHead, IsVoid,
      IsRaw, VoidName, RawName, AllOk, RawText, CommentText;
    NotClosing(m, rest);
    match m
    case MBlank(blanks) => BlankBack(blanks, rest);
    case MText(before, text, after) => TextBack(before, text, after, rest);
    case MComment(text) => CommentBack(text, rest);
    case MDoctype(text) => DoctypeBack(text, rest);
    case MVoid(name, attrs, close) =>
      NamesAre(SmallAll(name));
      HeadBack(name, attrs, close, rest);
      ElementStep(name + PrintAttrs(attrs, PrintClose(close, rest)), Head(SmallAll(name), MeantAll(attrs), rest));
    case MRaw(name, attrs, close, content, end) =>
      var after := content + PrintEnd(end, rest);
      NamesAre(SmallAll(name));
      RawNotVoid(SmallAll(name));
      HeadBack(name, attrs, close, after);
      ElementStep(name + PrintAttrs(attrs, PrintClose(close, after)), Head(SmallAll(name), MeantAll(attrs), after));
      RawBack(content, end, SmallAll(name), rest);
    case MElement(name, attrs, close, body, end) =>
      var after := PrintAll(body, PrintEnd(end, rest));
      NamesAre(SmallAll(name));
      HeadBack(name, attrs, close, after);
      ElementStep(name + PrintAttrs(attrs, PrintClose(close, after)), Head(SmallAll(name), MeantAll(attrs), after));
      ChildrenBack(body, [], end, rest);
      assert [] + MeaningAll(body) == MeaningAll(body);
  }

  lemma {:induction false} RawNotVoid(tag: string)
    requires RawName(tag)
    ensures !VoidName(tag)
  {
  }

  /** What stands behind a text is a tag, or nothing. */
  lemma {:induction false} NextTag(ms: seq<Markup>, rest: string)
    requires (forall i :: 0 <= i < |ms| ==> Ok(ms[i])) && (ms == [] || !Textual(ms[0]))
    requires rest == "" || rest[0] == '<'
    ensures PrintAll(ms, rest) == "" || PrintAll(ms, rest)[0] == '<'
    ensures ms != [] ==> PrintAll(ms, rest) != "" && !AtClosing(PrintAll(ms, rest))
  {
    if ms != [] { NotClosing(ms[0], PrintAll(ms[1..], rest)); }
  }

  lemma {:induction false} ChildrenBack(ms: seq<Markup>, nodes: seq<Tree>, end: string, rest: string)
    requires AllOk(ms) && Lacks(end, '>') && |nodes| + |MeaningAll(ms)| <= 128
    ensures ParseChildren(PrintAll(ms, PrintEnd(end, rest)), nodes) == Children(nodes + MeaningAll(ms), rest)
    decreases ms, 1
  {
    hide Ok, Print, PrintEnd, ParseNode, AtClosing, Meaning, PastTag;
    EndBack(end, rest);
    if ms == [] {
      assert nodes + MeaningAll(ms) == nodes;
    } else {
      var last := PrintEnd(end, rest);
      var tail := PrintAll(ms[1..], last);
      NotClosing(ms[0], tail);
      if Textual(ms[0]) { NextTag(ms[1..], last); }
      NodeBack(ms[0], tail);
      if Meaning(ms[0]).Some? {
        var t := Meaning(ms[0]).value;
        ChildrenBack(ms[1..], nodes + [t], end, rest);
        assert nodes + [t] + MeaningAll(ms[1..]) == nodes + MeaningAll(ms);
      } else {
        BlankOnly(ms[0]);
        ChildrenBack(ms[1..], nodes, end, rest);
        assert MeaningAll(ms) == MeaningAll(ms[1..]);
      }
    }
  }

  lemma {:induction false} BlankOnly(m: Markup)
    requires Meaning(m).Nothing?
    ensures m.MBlank?
  {
  }

  /** A document written in any of these ways parses to what it means. */
  lemma {:induction false} DocumentBack(ms: seq<Markup>, nodes: seq<Tree>)
    requires AllOk(ms) && |nodes| + |MeaningAll(ms)| <= 128
    ensures ParseDocument(PrintAll(ms, ""), nodes) == nodes + MeaningAll(ms)
  {
    hide Ok, Print, ParseNode, Meaning;
    if ms == [] {
      assert nodes + MeaningAll(ms) == nodes;
    } else {
      var tail := PrintAll(ms[1..], "");
      if Textual(ms[0]) { NextTag(ms[1..], ""); }
      NodeBack(ms[0], tail);
      if Meaning(ms[0]).Some? {
        var t := Meaning(ms[0]).value;
        DocumentBack(ms[1..], nodes + [t]);
        assert nodes + [t] + MeaningAll(ms[1..]) == nodes + MeaningAll(ms);
      } else {
        BlankOnly(ms[0]);
        DocumentBack(ms[1..], nodes);
        assert MeaningAll(ms) == MeaningAll(ms[1..]);
      }
    }
  }

  // ---- The plain form of a tree ----

  function PlainAttrs(attrs: seq<Attr>): (r: seq<MAttr>)
    ensures |r| == |attrs|
    ensures forall i :: 0 <= i < |r| ==> r[i] == MAttr(" ", attrs[i].name, "", "", Double, attrs[i].value)
  {
    if attrs == [] then []
    else [MAttr(" ", attrs[0].name, "", "", Double, attrs[0].value)] + PlainAttrs(attrs[1..])
  }

  /** A tree written with one blank before each attribute, double quotes and no capitals. */
  function Plain(t: Tree): Markup {
    match t
    case Text(text) => MText("", text, "")
    case Comment(text) => MComment(text)
    case Doctype => MDoctype("DOCTYPE")
    case Element(tag, attrs, text, children) =>
      if VoidName(tag) then MVoid(tag, PlainAttrs(attrs), Close("", false))
      else if RawName(tag) then MRaw(tag, PlainAttrs(attrs), Close("", false), text, tag)
      else MElement(tag, PlainAttrs(attrs), Close("", false), PlainAll(children), tag)
  }

  function PlainAll(ts: seq<Tree>): (ms: seq<Markup>)
    ensures |ms| == |ts|
  {
    if ts == [] then [] else [Plain(ts[0])] + PlainAll(ts[1..])
  }

  predicate NoCapital(s: string) {
    forall i :: 0 <= i < |s| ==> !('A' <= s[i] <= 'Z')
  }

  /** The trees that have a plain form: within the limits of the parser, and no two texts
      side by side. */
  predicate TreeOk(t: Tree) {
    match t
    case Text(text) => Ok(MText("", text, ""))
    case Comment(text) => Ok(MComment(text))
    case Doctype => true
    case Element(tag, attrs, text, children) =>
      && HeadOk(tag, PlainAttrs(attrs), Close("", false)) && NoCapital(tag)
      && (forall i :: 0 <= i < |attrs| ==> NoCapital(attrs[i].name))
      && ChildrenOk(children) && (VoidName(tag) || RawName(tag) ==> children == [])
      && (if tag == "style" then |text| <= 4095 && RawText(text, tag) else text == "")
  }

  predicate ChildrenOk(ts: seq<Tree>) {
    && |ts| <= 128
    && (forall i :: 0 <= i < |ts| ==> TreeOk(ts[i]))
    && (forall i :: 0 <= i < |ts| - 1 ==> !(ts[i].Text? && ts[i + 1].Text?))
  }

  lemma {:induction false} SmallSame(s: string)
    requires NoCapital(s)
    ensures SmallAll(s) == s
  {
    assert forall i :: 0 <= i < |s| ==> Small(s[i]) == s[i];
  }

  lemma {:induction false} PlainMeant(attrs: seq<Attr>)
    requires forall i :: 0 <= i < |attrs| ==> NoCapital(attrs[i].name)
    ensures MeantAll(PlainAttrs(attrs)) == attrs
  {
    if attrs != [] {
      SmallSame(attrs[0].name);
      PlainMeant(attrs[1..]);
      assert PlainAttrs(attrs)[1..] == PlainAttrs(attrs[1..]);
    }
  }

  lemma {:induction false} PlainBegins(tag: string)
    requires NoCapital(tag) && |tag| <= 31 && forall i :: 0 <= i < |tag| ==> TagChar(tag[i])
    ensures Begins(tag, tag) && Lacks(tag, '>')
  {
    SmallSame(tag);
    assert tag[..|tag|] == tag;
  }

  /** An empty content has no closing tag in it. */
  lemma {:induction false} RawNone(tag: string)
    ensures RawText("", tag)
  {
  }

  lemma {:induction false} PlainOk(t: Tree)
    requires TreeOk(t)
    ensures Ok(Plain(t)) && Meaning(Plain(t)) == Some(t) && (Textual(Plain(t)) <==> t.Text?)
    decreases t, 0
  {
    hide HeadOk, AllOk, RawText, VoidName, MeaningAll, TreeOk, Ok, RawName;
    if t.Element? {
      TreeParts(t);
      SmallSame(t.tag);
      PlainMeant(t.attrs);
      HeadName(t.tag, PlainAttrs(t.attrs), Close("", false));
      PlainBegins(t.tag);
      if VoidName(t.tag) {
        VoidOk(t.tag, PlainAttrs(t.attrs));
      } else if RawName(t.tag) {
        RawOk(t.tag, PlainAttrs(t.attrs), t.text);
      } else {
        PlainAllOk(t.children);
        BodyOk(t.tag, PlainAttrs(t.attrs), PlainAll(t.children));
      }
    } else {
      LeafOk(t);
    }
  }

  lemma {:induction false} TreeParts(t: Tree)
    requires TreeOk(t) && t.Element?
    ensures HeadOk(t.tag, PlainAttrs(t.attrs), Close("", false)) && NoCapital(t.tag)
    ensures forall i :: 0 <= i < |t.attrs| ==> NoCapital(t.attrs[i].name)
    ensures |t.children| <= 128 && (forall i :: 0 <= i < |t.children| ==> TreeOk(t.children[i]))
    ensures forall i :: 0 <= i < |t.children| - 1 ==> !(t.children[i].Text? && t.children[i + 1].Text?)
    ensures VoidName(t.tag) || RawName(t.tag) ==> t.children == []
    ensures t.tag != "style" ==> t.text == ""
    ensures RawName(t.tag) ==> |t.text| <= 4095 && RawText(t.text, t.tag)
    ensures VoidName(t.tag) ==> t.tag != "style"
    ensures !RawName(t.tag) ==> t.tag != "style"
  {
    RawNone(t.tag);
    hide HeadOk, NoCapital, RawText, PlainAttrs;
  }

  lemma {:induction false} LeafOk(t: Tree)
    requires TreeOk(t) && !t.Element?
    ensures Ok(Plain(t)) && Textual(Plain(t)) == t.Text?
  {
  }

  lemma {:induction false} VoidOk(tag: string, attrs: seq<MAttr>)
    requires HeadOk(tag, attrs, Close("", false)) && SmallAll(tag) == tag && VoidName(tag)
    ensures Ok(MVoid(tag, attrs, Close("", false)))
  {
  }

  lemma {:induction false} RawOk(tag: string, attrs: seq<MAttr>, text: string)
    requires HeadOk(tag, attrs, Close("", false)) && SmallAll(tag) == tag && RawName(tag)
    requires |text| <= 4095 && RawText(text, tag) && Begins(tag, tag) && Lacks(tag, '>')
    ensures Ok(MRaw(tag, attrs, Close("", false), text, tag))
    ensures tag != "style" ==> tag == "script"
  {
    hide HeadOk, RawText, Begins, Lacks;
  }

  lemma {:induction false} BodyOk(tag: string, attrs: seq<MAttr>, body: seq<Markup>)
    requires HeadOk(tag, attrs, Close("", false)) && SmallAll(tag) == tag && !RawName(tag) && !VoidName(tag)
    requires AllOk(body) && |MeaningAll(body)| <= 128 && Lacks(tag, '>')
    ensures Ok(MElement(tag, attrs, Close("", false), body, tag))
  {
  }

  lemma {:induction false} HeadName(name: string, attrs: seq<MAttr>, close: Close)
    requires HeadOk(name, attrs, close)
    ensures |name| <= 31 && forall i :: 0 <= i < |name| ==> TagChar(name[i])
  {
  }

  lemma {:induction false} PlainAllOk(ts: seq<Tree>)
    requires forall i :: 0 <= i < |ts| ==> TreeOk(ts[i])
    requires forall i :: 0 <= i < |ts| - 1 ==> !(ts[i].Text? && ts[i + 1].Text?)
    ensures AllOk(PlainAll(ts)) && MeaningAll(PlainAll(ts)) == ts
    ensures ts != [] ==> Textual(PlainAll(ts)[0]) == ts[0].Text?
    decreases ts, 1
  {
    if ts != [] {
      PlainOk(ts[0]);
      PlainAllOk(ts[1..]);
      hide Ok, TreeOk, Meaning, Plain, Textual;
      assert PlainAll(ts)[1..] == PlainAll(ts[1..]);
      AllOkNext(Plain(ts[0]), PlainAll(ts[1..]));
    }
  }

  lemma {:induction false} AllOkNext(m: Markup, ms: seq<Markup>)
    requires Ok(m) && AllOk(ms) && (ms != [] ==> !(Textual(m) && Textual(ms[0])))
    ensures AllOk([m] + ms)
  {
    hide Ok, Textual;
    var all := [m] + ms;
    forall i | 0 <= i < |all| ensures Ok(all[i]) {
      if i > 0 { assert all[i] == ms[i - 1]; }
    }
    forall i | 0 <= i < |all| - 1 ensures !(Textual(all[i]) && Textual(all[i + 1])) {
      if i > 0 { assert all[i] == ms[i - 1] && all[i + 1] == ms[i]; }
    }
  }

  /** A tree within the limits, in its plain form, parses to itself. */
  lemma {:induction false} TreeBack(t: Tree, rest: string)
    requires TreeOk(t) && (t.Text? ==> rest == [] || rest[0] == '<')
    ensures ParseNode(Print(Plain(t), rest)) == Parsed(Some(t), rest)
  {
    PlainOk(t);
    NodeBack(Plain(t), rest);
  }
}
