/** End tags: every element of a parsed document is ended by one with its own name, or sealed. */
module XmlEndTags {
  import opened Wrappers
  import opened XmlUtil
  import opened StrPairs
  import opened XmlTree
  import opened XmlPrinter
  import opened XmlParser
  import opened XmlText
  import opened XmlMarks
  import opened XmlRoundTrip
  import XmlLines

  // ---- Every successful parse ----------------------------------------------------------------------------

  /** The element at the mark is an end tag, or has the end tag that its own tag asks for: one with its name when it is
      open, and none when it is sealed. */
  ghost predicate Ended(m: Mark, o: Options) {
    "<" <= m.left && exists depth :: EndedAt(m, depth, o)
  }

  predicate EndedAt(m: Mark, depth: nat, o: Options)
    requires m.left != []
  {
    var r := ParseElement(m.left[1..], m.line, m.line, depth, o);
    r.Elem? && (r.closing == IsClosing || r.endTag == if r.closing == Open then Some(r.name) else None)
  }

  ghost predicate AllEnded(ms: seq<Mark>, o: Options) {
    forall i | 0 <= i < |ms| && XmlLines.IsKind(ms[i], ElementKind) :: Ended(ms[i], o)
  }

  lemma AllEndedConcat(a: seq<Mark>, b: seq<Mark>, o: Options)
    requires AllEnded(a, o) && AllEnded(b, o)
    ensures AllEnded(a + b, o)
  {
    hide Ended, XmlLines.IsKind;
  }

  lemma {:induction false} NodesEnded(t: string, line: nat, depth: nat, isDocument: bool, done: seq<Node>, o: Options)
    requires !ParseNodes(t, line, depth, isDocument, done, o).Stopped?
    ensures AllEnded(NodesMarks(t, line, depth, isDocument, done, o), o)
    decreases |t|, 2
  {
    hide Identify, ParseNode, NodeMarks, ParseNodes, NodesMarks, TrimLeft, NodesTurn, AllEnded;
    if AtEnd(t) {
      NodesEnd(t, line, depth, isDocument, done, o);
      NoneEnded(o);
      return;
    }
    NodesStep(t, line, depth, isDocument, done, o);
    var f := Identify(t, line);
    if f.NoNode? {
      NoneEnded(o);
      return;
    }
    TurnEnded(t, line, depth, isDocument, done, o);
    var turn := NodesTurn(ParseNode(f.kind, f.rest, f.line, f.nodeLine, depth, o), f.nodeLine, isDocument, done);
    if turn.Further? {
      NodesEnded(turn.rest, turn.line, depth, isDocument, turn.done, o);
      AllEndedConcat([Mark(TrimLeft(t), f.nodeLine)] + NodeMarks(f.kind, f.rest, f.line, f.nodeLine, depth, o),
                     NodesMarks(turn.rest, turn.line, depth, isDocument, turn.done, o), o);
    }
  }

  lemma NoneEnded(o: Options)
    ensures AllEnded([], o)
  {
  }

  /** A turn of the loop that does not stop it with an error. */
  lemma {:induction false} TurnEnded(t: string, line: nat, depth: nat, isDocument: bool, done: seq<Node>, o: Options)
    requires Identify(t, line).Found?
    requires var f := Identify(t, line);
             var turn := NodesTurn(ParseNode(f.kind, f.rest, f.line, f.nodeLine, depth, o), f.nodeLine, isDocument, done);
             turn.Over? ==> !turn.result.Stopped?
    ensures var f := Identify(t, line);
            AllEnded([Mark(TrimLeft(t), f.nodeLine)] + NodeMarks(f.kind, f.rest, f.line, f.nodeLine, depth, o), o)
    decreases |t|, 1
  {
    hide Identify, ParseNode, ElementMarks, TrimLeft, ParseElement, AllEnded;
    var f, m := Identify(t, line), Mark(TrimLeft(t), Identify(t, line).nodeLine);
    if f.kind != ElementKind {
      NotElement(t, line, o);
      NoneEnded(o);
      AllEndedConcat([m], [], o);
    } else {
      XmlLines.ElementFound(t, line);
      XmlLines.ElementParses(f.rest, m.line, depth, o);
      TurnMatches(ParseElement(f.rest, m.line, m.line, depth, o), m.line, isDocument, done);
      OneEnded(m, depth, o);
      ElementEnded(f.rest, m.line, m.line, depth, o);
      AllEndedConcat([m], ElementMarks(f.rest, m.line, m.line, depth, o), o);
    }
  }

  lemma NotElement(t: string, line: nat, o: Options)
    requires Identify(t, line).Found? && Identify(t, line).kind != ElementKind
    ensures AllEnded([Mark(TrimLeft(t), Identify(t, line).nodeLine)], o)
  {
    hide TrimLeft, Lines, Header, Ended;
  }

  lemma OneEnded(m: Mark, depth: nat, o: Options)
    requires "<" <= m.left && EndedAt(m, depth, o)
    ensures AllEnded([m], o)
  {
    hide EndedAt;
  }

  /** Once an element has been read, the loop stops at it, unless it is an end tag or is ended as its tag asks for. */
  lemma TurnMatches(node: NodeResult, nodeLine: nat, isDocument: bool, done: seq<Node>)
    ensures var turn := NodesTurn(node, nodeLine, isDocument, done);
            && (node.Elem? && node.closing != IsClosing ==>
                  turn == if node.endTag == (if node.closing == Open then Some(node.name) else None)
                          then Further(node.rest, node.line, done + [Element(node.name, node.attrs, node.children)])
                          else Over(Stopped(Error(MismatchedElement, nodeLine))))
            && (node.Null? || node.Failed? ==> turn.Over? && turn.result.Stopped?)
  {
  }

  lemma {:induction false} ElementEnded(t: string, line: nat, nodeLine: nat, depth: nat, o: Options)
    requires ParseElement(t, line, nodeLine, depth, o).Elem?
    ensures AllEnded(ElementMarks(t, line, nodeLine, depth, o), o)
    decreases |t|, 0
  {
    hide ReadTag, ParseNodes, NodesMarks, AllEnded;
    var tag := ReadTag(t, line, nodeLine, o);
    NoneEnded(o);
    if tag.Tag? && !AtEnd(tag.rest) && tag.closing == Open && depth + 1 != MAX_ELEMENT_DEPTH {
      NodesEnded(tag.rest, tag.line, depth + 1, false, [], o);
    }
  }

  /** In a successful parse, every element that was made, at any depth, is an end tag or has the end tag that its own
      tag asks for. */
  lemma EndTagsMatch(s: string, o: Options, i: nat)
    requires Parse(s, o).Parsed? && i < |Marks(s, o)| && XmlLines.IsKind(Marks(s, o)[i], ElementKind)
    ensures var m := Marks(s, o)[i];
            "<" <= m.left
            && exists depth ::
                 var r := ParseElement(m.left[1..], m.line, m.line, depth, o);
                 r.Elem? && (r.closing == IsClosing || r.endTag == if r.closing == Open then Some(r.name) else None)
  {
    hide NodesMarks, ParseNodes, TrimLeft, Lines, SkipBOM, XmlLines.IsKind, ParseElement;
    var u := TrimLeft(s);
    NodesEnded(SkipBOM(u), 1 + Lines(s, u), 1, true, [], o);
    var m := Marks(s, o)[i];
    var depth :| EndedAt(m, depth, o);
    assert ParseElement(m.left[1..], m.line, m.line, depth, o).Elem?;
  }

  // ---- One element and an end tag ------------------------------------------------------------------------

  /** An element, printed but for the name in its end tag. */
  function WithEndTag(a: string, attrs: seq<Attr>, children: seq<Node>, b: string, entities: bool): string {
    "<" + a + PrintAttrs(attrs, entities) + ">" + PrintNodes(children, entities) + "</" + b + ">"
  }

  predicate Enclosable(a: string, attrs: seq<Attr>, children: seq<Node>, b: string, depth: nat, o: Options) {
    && ValidName(a) && ValidName(b) && ReadableAttrs(attrs) && ClosedAttrs(attrs, o)
    && ReadableNodes(children, depth + 1, false, []) && DelimitedNodes(children, o)
  }

  /** The tag that opens it. */
  lemma OpenTag(a: string, attrs: seq<Attr>, after: string, line: nat, o: Options) returns (line': nat)
    requires ValidName(a) && ReadableAttrs(attrs) && ClosedAttrs(attrs, o)
    ensures var t := a + PrintAttrs(attrs, o.processEntities) + ">" + after;
            && t[0] == a[0] && ReadTag(t, line, line, o) == Tag(a, RereadAttrs(attrs), Open, after, line')
  {
    hide PrintAttrs, ParseAttributes, TakeName, DropName, RereadAttrs, ClosedAttrs, ReadableAttrs;
    var t := a + PrintAttrs(attrs, o.processEntities) + ">" + after;
    NameStartIsNoSpace(a[0]);
    line' := OpenTagRead(Element(a, attrs, [Comment("")]), after, line + Lines(t, t), line, o);
    assert TrimLeft(t) == t;
  }

  /** Its children and its end tag. */
  lemma BodyRead(a: string, attrs: seq<Attr>, children: seq<Node>, b: string, rest: string, line: nat, depth: nat, o: Options)
    returns (line': nat)
    requires Enclosable(a, attrs, children, b, depth, o)
    ensures var after := PrintNodes(children, o.processEntities) + ("</" + b + ">" + rest);
            && !AtEnd(after)
            && ParseNodes(after, line, depth + 1, false, [], o) == ClosedBy(Reread(children, o), b, rest, line')
  {
    hide PrintNodes, ParseNodes, Reread, ReadableNodes, DelimitedNodes, ReadableAttrs, ClosedAttrs, Reread;
    var end := "</" + b + ">" + rest;
    assert end[0] == '<' && end[1] == '/';
    EmptyReread(o);
    var l := NodesRoundTrip(children, end, line, depth + 1, false, [], o);
    line' := EndTagRead(b, rest, l, depth + 1, false, Reread(children, o), o);
    assert [] + children == children;
    ChildrenNotAtEnd(children, end, depth + 1, false, [], o);
  }

  lemma Grouped(a: string, attrs: seq<Attr>, children: seq<Node>, b: string, rest: string, entities: bool)
    ensures var after := PrintNodes(children, entities) + ("</" + b + ">" + rest);
            WithEndTag(a, attrs, children, b, entities) + rest == "<" + (a + PrintAttrs(attrs, entities) + ">" + after)
  {
    hide PrintAttrs, PrintNodes;
    var p, q := PrintAttrs(attrs, entities), PrintNodes(children, entities);
    assert q + ("</" + b + ">" + rest) == q + "</" + b + ">" + rest;
  }

  /** The loop over the nodes goes on after it when the names are the same, and stops at it otherwise. */
  lemma EndTagDecides(a: string, attrs: seq<Attr>, children: seq<Node>, b: string, rest: string, line: nat, depth: nat,
                      isDocument: bool, done: seq<Node>, o: Options)
    returns (line': nat)
    requires depth + 1 < MAX_ELEMENT_DEPTH && Enclosable(a, attrs, children, b, depth, o)
    ensures ParseNodes(WithEndTag(a, attrs, children, b, o.processEntities) + rest, line, depth, isDocument, done, o)
            == if a == b then ParseNodes(rest, line', depth, isDocument,
                                         done + [Element(a, RereadAttrs(attrs), Reread(children, o))], o)
               else Stopped(Error(MismatchedElement, line))
  {
    hide PrintNodes, ParseNodes, Reread, ReadTag, Identify, ParseNode, PrintAttrs, Enclosable, WithEndTag, RereadAttrs,
      ParseElement;
    var t := WithEndTag(a, attrs, children, b, o.processEntities) + rest;
    var r: NodeResult;
    line', r := ElementWithEndTag(a, attrs, children, b, rest, line, depth, o);
    NodesStep(t, line, depth, isDocument, done, o);
    TurnMatches(r, line, isDocument, done);
  }

  lemma ElementWithEndTag(a: string, attrs: seq<Attr>, children: seq<Node>, b: string, rest: string, line: nat, depth: nat,
                          o: Options)
    returns (line': nat, r: NodeResult)
    requires depth + 1 < MAX_ELEMENT_DEPTH && Enclosable(a, attrs, children, b, depth, o)
    ensures r == Elem(a, RereadAttrs(attrs), Open, Reread(children, o), Some(b), rest, line')
    ensures var t := WithEndTag(a, attrs, children, b, o.processEntities) + rest;
            !AtEnd(t) && Identify(t, line).Found?
            && var f := Identify(t, line); f.nodeLine == line && ParseNode(f.kind, f.rest, f.line, f.nodeLine, depth, o) == r
  {
    hide PrintNodes, ParseNodes, Reread, ReadTag, Identify, ParseNode, PrintAttrs, ReadableNodes, ReadableAttrs,
      ClosedAttrs, DelimitedNodes, WithEndTag, RereadAttrs, Reread;
    var after := PrintNodes(children, o.processEntities) + ("</" + b + ">" + rest);
    var u := a + PrintAttrs(attrs, o.processEntities) + ">" + after;
    Grouped(a, attrs, children, b, rest, o.processEntities);
    line' := OpenTag(a, attrs, after, line, o);
    line' := BodyRead(a, attrs, children, b, rest, line', depth, o);
    IdentifyElement(u, line);
    ElementKindParses(u, line, depth, o);
    r := ParseElement(u, line, line, depth, o);
  }

  /** A document of one element whose children are printed, and an end tag: it is parsed exactly when the end tag has the
      name of the element, and is an error otherwise. */
  lemma EndTagMustMatch(a: string, attrs: seq<Attr>, children: seq<Node>, b: string, o: Options)
    requires ValidName(a) && ValidName(b) && ReadableAttrs(attrs) && ClosedAttrs(attrs, o)
    requires ReadableNodes(children, 2, false, []) && DelimitedNodes(children, o)
    ensures Parse("<" + a + PrintAttrs(attrs, o.processEntities) + ">" + PrintNodes(children, o.processEntities)
                  + "</" + b + ">", o)
            == if a == b then Parsed([Element(a, RereadAttrs(attrs), Reread(children, o))], false)
               else NotParsed(Error(MismatchedElement, 1))
  {
    hide PrintNodes, ParseNodes, Reread, PrintAttrs, ReadableNodes, ReadableAttrs, ClosedAttrs, DelimitedNodes, RereadAttrs;
    var s := WithEndTag(a, attrs, children, b, o.processEntities);
    Grouped(a, attrs, children, b, "", o.processEntities);
    assert s + "" == s && s[0] == '<' && s[1] == a[0];
    NameStartIsNoSpace(a[0]);
    TagStart(s);
    TrimTag(s, 1);
    var e := Element(a, RereadAttrs(attrs), Reread(children, o));
    var line := EndTagDecides(a, attrs, children, b, "", 1, 1, true, [], o);
    NothingLeft(line, [e], o);
    assert [] + [e] == [e];
  }

  /** So with children that are read back as they are. */
  lemma SameNameExactly(a: string, b: string, children: seq<Node>, o: Options)
    requires ValidName(a) && ValidName(b)
    requires ReadableNodes(children, 2, false, []) && FaithfulNodes(children, o) && DelimitedNodes(children, o)
    ensures var r := Parse("<" + a + ">" + PrintNodes(children, o.processEntities) + "</" + b + ">", o);
            && (r == Parsed([Element(a, [], children)], false) <==> a == b)
            && (r == NotParsed(Error(MismatchedElement, 1)) <==> a != b)
  {
    hide Parse, PrintNodes, Reread, ReadableNodes, FaithfulNodes, DelimitedNodes;
    EndTagMustMatch(a, [], children, b, o);
    NodesExactly(children, o);
    assert "<" + a + PrintAttrs([], o.processEntities) + ">" == "<" + a + ">";
  }
}
