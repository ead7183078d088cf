/** Only what is faithful comes back: wherever a printed tree is read back as it was, none of its strings was changed
    or cut on the way. The argument goes through the tree in the order in which it is read. */
module XmlUnfaithful {
  import opened Wrappers
  import opened XmlUtil
  import opened StrPairs
  import opened GetStr
  import opened XmlTree
  import opened XmlPrinter
  import opened XmlParser
  import opened XmlText
  import opened XmlRoundTrip

  // ---- Finding a tag that comes too early ----------------------------------------------------------------

  lemma {:induction false} NeverFound(t: string, c: char)
    requires c != NUL && c !in t
    ensures FindTag(t, [c]).None?
  {
    if t != [] {
      assert t[0] in t && forall d | d in t[1..] :: d in t;
      NeverFound(t[1..], c);
    }
  }

  /** A character inside the text is found before its end. */
  lemma {:induction false} FoundInside(text: string, c: char, rest: string)
    requires c != NUL && NUL !in text && c in text
    ensures FindTag(text + rest, [c]).Some? && FindTag(text + rest, [c]).value < |text|
    ensures (text + rest)[..FindTag(text + rest, [c]).value] == text[..FindTag(text + rest, [c]).value]
  {
    var t := text + rest;
    assert t[0] == text[0] && text[0] in text;
    if text[0] != c {
      assert !([c] <= t);
      assert t[1..] == text[1..] + rest && forall d | d in text[1..] :: d in text;
      FoundInside(text[1..], c, rest);
    }
    var n := FindTag(t, [c]).value;
    assert t[..n] == text[..n];
  }

  /** What is read back is never longer than what was there. */
  lemma ValueIsShort(raw: string, f: Flags)
    ensures |Value(raw, f)| <= |raw|
  {
    hide Decode, CString, Collapse;
    var d := if f == Flags(false, false, false) then raw else Decode(raw, f);
    CStringIsPrefix(d);
  }

  // ---- Attributes ----------------------------------------------------------------------------------------

  predicate FaithfulValue(v: string, o: Options) {
    CR !in v && Closes(v, false, o.processEntities)
  }

  /** A printed attribute is read with its own value only if that is faithful. */
  lemma AttrOnly(a: Attr, rest: string, line: nat, o: Options)
    requires ValidName(a.name) && NUL !in a.value
    ensures var r := ParseAttr(PrintAttr(a, o.processEntities)[1..] + rest, line, o);
            r.SomeAttr? && r.attr == a ==> FaithfulValue(a.value, o)
  {
    hide TakeName, DropName, FindTag, Quoted, Value, LineEnds, ParseAttr;
    if Closes(a.value, false, o.processEntities) {
      LineEndsExactly(a.value);
      var line' := AttrRoundTrip(a, rest, line, o);
    } else {
      CutAttr(a, rest, line, o);
    }
  }

  /** An attribute whose raw value holds its quote is cut there. */
  lemma CutAttr(a: Attr, rest: string, line: nat, o: Options)
    requires ValidName(a.name) && NUL !in a.value && !Closes(a.value, false, o.processEntities)
    ensures var r := ParseAttr(PrintAttr(a, o.processEntities)[1..] + rest, line, o);
            r.SomeAttr? ==> r.attr != a
  {
    hide TakeName, DropName, FindTag, Value;
    var t := PrintAttr(a, o.processEntities)[1..] + rest;
    var body := a.value + ("\"" + rest);
    AttrPrinted(a, rest, o);
    assert a.value + "\"" + rest == body;
    NameRoundTrip(a.name, "=\"" + body);
    FoundInside(a.value, '\"', "\"" + rest);
    var n := FindTag(body, "\"").value;
    ValueIsShort(body[..n], AttrFlags(o));
  }

  lemma {:induction false} AttrsStay(t: string, line: nat, elementLine: nat, done: seq<Attr>, o: Options)
    ensures var r := ParseAttributes(t, line, elementLine, done, o);
            r.Attrs? ==> done <= r.attrs
    decreases |t|
  {
    hide TrimLeft, ParseAttr, Lines, HasAttr;
    var u := TrimLeft(t);
    var a := ParseAttr(u, line + Lines(t, u), o);
    if a.SomeAttr? { AttrsStay(a.rest, a.line, elementLine, done + [a.attr], o); }
  }

  /** Where the attributes begin with one more printed one, it is read or there is an error. */
  lemma AttrTurn(a: Attr, more: string, line: nat, elementLine: nat, done: seq<Attr>, o: Options)
    requires ValidName(a.name) && NUL !in a.value
    ensures var r := ParseAttributes(PrintAttr(a, o.processEntities) + more, line, elementLine, done, o);
            r.Attrs? && |done| < |r.attrs| && r.attrs[|done|] == a ==> FaithfulValue(a.value, o)
  {
    hide ParseAttr, Quoted, FaithfulValue, Lines, HasAttr;
    var t := PrintAttr(a, o.processEntities) + more;
    var u := PrintAttr(a, o.processEntities)[1..] + more;
    assert t == " " + u && u[0] == a.name[0];
    NameStartIsNoSpace(a.name[0]);
    assert t[1..] == u && TrimLeft(u) == u && TrimLeft(t) == u;
    var l := line + Lines(t, u);
    AttrOnly(a, more, l, o);
    var p := ParseAttr(u, l, o);
    if p.SomeAttr? { AttrsStay(p.rest, p.line, elementLine, done + [p.attr], o); }
  }

  lemma {:induction false} AttrsOnly(attrs: seq<Attr>, rest: string, line: nat, elementLine: nat, done: seq<Attr>, o: Options)
    requires ReadableAttrs(attrs) && AreNew(attrs, done)
    requires var r := ParseAttributes(PrintAttrs(attrs, o.processEntities) + rest, line, elementLine, done, o);
             r.Attrs? && done + attrs <= r.attrs
    ensures forall i | 0 <= i < |attrs| :: FaithfulValue(attrs[i].value, o)
    decreases |attrs|
  {
    hide ParseAttributes, PrintAttr, HasAttr, FaithfulValue;
    if attrs != [] {
      var a, more := attrs[0], PrintAttrs(attrs[1..], o.processEntities) + rest;
      assert PrintAttrs(attrs, o.processEntities) + rest == PrintAttr(a, o.processEntities) + more;
      assert (done + attrs)[|done|] == a;
      AttrTurn(a, more, line, elementLine, done, o);
      FaithfulMeans(a.value, o);
      var line' := FirstAttr(a, more, line, elementLine, done, o);
      StillNew(attrs, done, a);
      assert done + attrs == done + [a] + attrs[1..] && a == Attr(a.name, a.value);
      AttrsOnly(attrs[1..], rest, line', elementLine, done + [a], o);
      assert forall i | 1 <= i < |attrs| :: attrs[i] == attrs[1..][i - 1];
    }
  }

  lemma FaithfulMeans(v: string, o: Options)
    requires FaithfulValue(v, o)
    ensures Closes(v, false, o.processEntities) && LineEnds(v) == v
  {
    LineEndsExactly(v);
  }

  // ---- Texts ---------------------------------------------------------------------------------------------

  predicate FaithfulText(text: string, o: Options) {
    && CR !in text && !IsBlank(text) && (o.collapse ==> Collapse(text) == text)
    && Closes(text, true, o.processEntities)
  }

  /** What is inserted first, when a node other than text begins `t`, is no plain text. */
  lemma NoTextFirst(t: string, line: nat, depth: nat, isDocument: bool, done: seq<Node>, o: Options)
    requires Identify(t, line).Found? ==> Identify(t, line).kind != TextKind
    ensures var r := ParseNodes(t, line, depth, isDocument, done, o);
            !r.Stopped? && |done| < |r.nodes| ==> !IsPlainText(r.nodes[|done|])
  {
    hide Identify, ParseNode;
    var f := Identify(t, line);
    if !AtEnd(t) && f.Found? {
      KindGiven(f.kind, f.rest, f.line, f.nodeLine, depth, o);
      match ParseNode(f.kind, f.rest, f.line, f.nodeLine, depth, o)
      case Leaf(node, rest, l) => DoneStays(rest, l, depth, isDocument, done + [node], o);
      case Elem(name, attrs, closing, children, endTag, rest, l) =>
        DoneStays(rest, l, depth, isDocument, done + [Element(name, attrs, children)], o);
      case _ =>
    }
  }

  lemma KindGiven(kind: Kind, t: string, line: nat, nodeLine: nat, depth: nat, o: Options)
    ensures var r := ParseNode(kind, t, line, nodeLine, depth, o);
            kind != TextKind && r.Leaf? ==> !IsPlainText(r.node)
  {
    hide FindTag, Value;
  }

  /** Where printed text comes next, a text inserted for it is no longer than it, and as it was only if it is faithful
      and something follows it. */
  lemma TextTurn(text: string, more: string, line: nat, depth: nat, isDocument: bool, done: seq<Node>, o: Options)
    requires NUL !in text && Follows(more)
    ensures var r := ParseNodes(Quoted(text, true, o.processEntities) + more, line, depth, isDocument, done, o);
            !r.Stopped? && |done| < |r.nodes| && IsPlainText(r.nodes[|done|]) ==>
              && |r.nodes[|done|].text| <= |text|
              && (r.nodes[|done|].text == text ==> FaithfulText(text, o) && StartsTag(more))
  {
    hide Quoted, Identify, ParseNodes, FaithfulText, IsBlank, ParseNode;
    var t := Quoted(text, true, o.processEntities) + more;
    TextKinds(text, more, line, o);
    if Identify(t, line).Found? && Identify(t, line).kind == TextKind {
      TextInserted(text, more, line, depth, isDocument, done, o);
    } else {
      NoTextFirst(t, line, depth, isDocument, done, o);
    }
  }

  /** Blank text before a tag is not found. */
  lemma TextKinds(text: string, more: string, line: nat, o: Options)
    requires NUL !in text && Follows(more)
    ensures var f := Identify(Quoted(text, true, o.processEntities) + more, line);
            f.Found? && f.kind == TextKind ==> !IsBlank(text) && f.rest == Quoted(text, true, o.processEntities) + more
  {
    hide Quoted, TrimLeft, IsBlank, Lines;
    if IsBlank(text) {
      TrimBlank(text, more, o);
      if StartsTag(more) { HeaderIsTag(more); }
    }
  }

  /** The text that is read from printed text, if any. */
  lemma TextRead(text: string, more: string, line: nat, nodeLine: nat, o: Options)
    requires NUL !in text && !IsBlank(text) && Follows(more)
    ensures var r := XmlParser.ParseText(Quoted(text, true, o.processEntities) + more, line, nodeLine, o);
            r.Leaf? ==>
              && IsPlainText(r.node) && |r.node.text| <= |text|
              && (r.node.text == text ==> FaithfulText(text, o) && StartsTag(more))
  {
    hide Quoted, FindTag, Value, Respaced, IsBlank, Newlines, Collapse;
    var q, e := Quoted(text, true, o.processEntities), o.processEntities;
    if Closes(text, true, e) {
      QuotedFree(text, true, e);
      RespacedExactly(text, o.collapse);
      if more == "" {
        assert q + "" == q;
        NeverFound(q, '<');
      } else {
        assert q + more == q + "<" + more[1..];
        TextRoundTrip(text, more[1..], e, o.collapse);
        assert (q + more)[..|q|] == q;
      }
    } else {
      RawText(text);
      FoundInside(text, '<', more);
      ValueIsShort(text[..FindTag(text + more, "<").value], TextFlags(o));
    }
  }

  lemma RawText(text: string)
    ensures Quoted(text, true, false) == text
  {
  }

  lemma TextInserted(text: string, more: string, line: nat, depth: nat, isDocument: bool, done: seq<Node>, o: Options)
    requires NUL !in text && Follows(more) && !IsBlank(text)
    requires var t := Quoted(text, true, o.processEntities) + more;
             Identify(t, line).Found? && Identify(t, line).kind == TextKind && Identify(t, line).rest == t
    ensures var r := ParseNodes(Quoted(text, true, o.processEntities) + more, line, depth, isDocument, done, o);
            !r.Stopped? && |done| < |r.nodes| && IsPlainText(r.nodes[|done|]) ==>
              && |r.nodes[|done|].text| <= |text|
              && (r.nodes[|done|].text == text ==> FaithfulText(text, o) && StartsTag(more))
  {
    hide Quoted, Identify, XmlParser.ParseText, FaithfulText, IsBlank;
    var t := Quoted(text, true, o.processEntities) + more;
    var f := Identify(t, line);
    TextRead(text, more, f.line, f.nodeLine, o);
    var p := XmlParser.ParseText(t, f.line, f.nodeLine, o);
    if p.Leaf? { DoneStays(p.rest, p.line, depth, isDocument, done + [p.node], o); }
  }

  // ---- Trees ---------------------------------------------------------------------------------------------

  /** A printed element that is inserted as it was is faithful and delimited. */
  lemma {:induction false} ElementOnly(n: Node, rest: string, line: nat, depth: nat, isDocument: bool, done: seq<Node>,
                                       o: Options)
    requires n.Element? && Readable(n, depth)
    requires var r := ParseNodes(Print(n, o.processEntities) + rest, line, depth, isDocument, done, o);
             !r.Stopped? && done + [n] <= r.nodes
    ensures Faithful(n, o) && Delimited(n, o)
    decreases n, 1
  {
    hide Print, ParseElement, Identify, Readable;
    NodeStart(n, rest, depth, o);
    ElementPrinted(n, rest, o);
    var t := Print(n, o.processEntities)[1..] + rest;
    NameAhead(n, rest, depth, o);
    IdentifyElement(t, line);
    ElementKindParses(t, line, depth, o);
    assert (done + [n])[|done|] == n;
    match ParseElement(t, line, line, depth, o) {
      case Elem(name, attrs, closing, children, endTag, rest', l) =>
        if closing != IsClosing && !Mismatch(name, closing, endTag) {
          DoneStays(rest', l, depth, isDocument, done + [Element(name, attrs, children)], o);
        }
      case _ =>
    }
    ElementItself(n, rest, line, depth, o);
  }

  lemma NameAhead(n: Node, rest: string, depth: nat, o: Options)
    requires n.Element? && Readable(n, depth)
    ensures var t := Print(n, o.processEntities)[1..] + rest;
            t != [] && IsNameStartChar(t[0]) && Print(n, o.processEntities) + rest == "<" + t
  {
    hide Print, PrintNodes, PrintAttrs;
    ElementPrinted(n, rest, o);
  }

  lemma {:induction false} ElementItself(n: Node, rest: string, line: nat, depth: nat, o: Options)
    requires n.Element? && Readable(n, depth)
    requires var r := ParseElement(Print(n, o.processEntities)[1..] + rest, line, line, depth, o);
             r.Elem? && r.attrs == n.attrs && r.children == n.children
    ensures Faithful(n, o) && Delimited(n, o)
    decreases n, 0
  {
    hide Print, PrintNodes, ParseNodes, ReadTag, ReadableNodes, FaithfulNodes, DelimitedNodes, FaithfulValue, ReadableAttrs;
    TagOnly(n, rest, line, o);
    ClosedValues(n.attrs, o);
    var l := TagRead(n, rest, line, o);
    AttrsExactly(n.attrs);
    if n.children != [] {
      var end := "</" + n.name + ">" + rest;
      assert [] + n.children == n.children;
      ChildrenNotAtEnd(n.children, end, depth + 1, false, [], o);
      EmptyReread(o);
      OnlyFaithful(n.children, end, l, depth + 1, false, [], o);
    } else {
      NoChildren(o);
    }
  }

  lemma NoChildren(o: Options)
    ensures FaithfulNodes([], o) && DelimitedNodes([], o)
  {
  }

  lemma ClosedValues(attrs: seq<Attr>, o: Options)
    requires forall i | 0 <= i < |attrs| :: FaithfulValue(attrs[i].value, o)
    ensures ClosedAttrs(attrs, o) && forall i | 0 <= i < |attrs| :: CR !in attrs[i].value
  {
  }

  /** The tag of an element is read with its own attributes only if their values are faithful. */
  lemma TagOnly(n: Node, rest: string, line: nat, o: Options)
    requires n.Element? && ValidName(n.name) && ReadableAttrs(n.attrs)
    requires var r := ReadTag(Print(n, o.processEntities)[1..] + rest, line, line, o); r.Tag? && r.attrs == n.attrs
    ensures forall i | 0 <= i < |n.attrs| :: FaithfulValue(n.attrs[i].value, o)
  {
    hide Print, PrintNodes, PrintAttrs, ParseAttributes, TakeName, DropName, FaithfulValue;
    var close := if n.children == [] then "/>" else ">";
    var after := AfterTag(n, rest, o);
    var t := n.name + PrintAttrs(n.attrs, o.processEntities) + close + after;
    ElementPrinted(n, rest, o);
    NameStartIsNoSpace(n.name[0]);
    assert TrimLeft(t) == t;
    var v := PrintAttrs(n.attrs, o.processEntities) + (close + after);
    assert t == n.name + v;
    AttrsStart(n.attrs, close + after, o);
    NameRoundTrip(n.name, v);
    assert AreNew(n.attrs, []) && [] + n.attrs == n.attrs;
    AttrsOnly(n.attrs, close + after, line + Lines(t, t), line, [], o);
  }

  /** Nodes that are all read back as they were are all faithful and delimited, and no text ends them. */
  lemma {:induction false} OnlyFaithful(nodes: seq<Node>, rest: string, line: nat, depth: nat, isDocument: bool,
                                        done: seq<Node>, o: Options)
    requires ReadableNodes(nodes, depth, isDocument, done) && Follows(rest) && Reread(done, o) == done
    requires var r := ParseNodes(PrintNodes(nodes, o.processEntities) + rest, line, depth, isDocument, done, o);
             !r.Stopped? && done + nodes <= r.nodes
    ensures FaithfulNodes(nodes, o) && DelimitedNodes(nodes, o) && (EndsInText(nodes) ==> StartsTag(rest))
    decreases nodes, 2
  {
    hide Print, Readable, Faithful, Delimited, ParseNodes, Reread, RereadNode;
    if nodes != [] {
      var n, more := nodes[0], PrintNodes(nodes[1..], o.processEntities) + rest;
      assert PrintNodes(nodes, o.processEntities) + rest == Print(n, o.processEntities) + more;
      assert done + nodes == done + [n] + nodes[1..];
      NodeOnly(n, nodes[1..], rest, line, depth, isDocument, done, o);
      NodeExactly(n, o);
      RereadMore(done, n, o);
      var line' := NodeRead(n, more, line, depth, isDocument, done, o);
      OnlyFaithful(nodes[1..], rest, line', depth, isDocument, done + [n], o);
    }
  }

  /** The same of the first of them. */
  lemma {:induction false} NodeOnly(n: Node, nodes: seq<Node>, rest: string, line: nat, depth: nat, isDocument: bool,
                                    done: seq<Node>, o: Options)
    requires Readable(n, depth) && ReadableNodes(nodes, depth, isDocument, done + [n]) && Follows(rest)
    requires var r := ParseNodes(Print(n, o.processEntities) + (PrintNodes(nodes, o.processEntities) + rest), line, depth,
                                 isDocument, done, o);
             !r.Stopped? && done + [n] <= r.nodes
    ensures Faithful(n, o) && Delimited(n, o)
    ensures IsPlainText(n) ==> StartsTag(PrintNodes(nodes, o.processEntities) + rest)
    decreases n, 2
  {
    hide Print, Readable, ParseNodes, FaithfulNodes, DelimitedNodes;
    var more := PrintNodes(nodes, o.processEntities) + rest;
    assert (done + [n])[|done|] == n;
    if IsPlainText(n) {
      if nodes == [] {
        assert more == rest;
      } else {
        NextIsTag(nodes, rest, depth, isDocument, done + [n], o);
      }
      PlainPrinted(n, depth, o);
      TextTurn(n.text, more, line, depth, isDocument, done, o);
    } else if n.Element? {
      ElementOnly(n, more, line, depth, isDocument, done, o);
    }
  }
}
