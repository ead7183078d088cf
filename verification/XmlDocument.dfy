/** XMLDocument::Parse as the source runs it: a position that moves through the character buffer,
    counters and an error that are fields of the document, loops over attributes and children. Each
    method is tied to the function of XmlParser that it computes. */
module XmlDocument {
  import opened Wrappers
  import opened XmlUtil
  import opened StrPairs
  import opened GetStr
  import opened XmlTree
  import opened XmlPrinter
  import opened XmlParser
  import opened XmlMarks

  /** The result of a ParseDeep: a position where the source returns a pointer, NullPtr where it
      returns 0. */
  datatype NodePtr =
    | LeafAt(node: Node, p: nat)
    | ElemAt(name: string, attrs: seq<Attr>, closing: Closing, children: seq<Node>, endTag: Option<string>, p: nat)
    | NullPtr

  datatype NodesPtr = ClosedAt(nodes: seq<Node>, tag: string, p: nat) | NullNodes(nodes: seq<Node>)

  lemma EmptyTagEnd(u: string)
    ensures "/>" <= u <==> At(u, 0) == '/' && At(u, 1) == '>'
  {
  }

  class XMLDocument {
    const options: Options
    var charBuffer: string
    var children: seq<Node>
    var error: Option<Error>
    var parseCurLineNum: nat
    var parsingDepth: nat
    var unlinked: set<nat>
    var created: nat
    var writeBOM: bool
    ghost var found: seq<Mark>

    constructor (options: Options)
      ensures this.options == options && Cleared() && !writeBOM
    {
      this.options := options;
      charBuffer, children, error, parseCurLineNum, parsingDepth := "", [], None, 0, 0;
      unlinked, created, found, writeBOM := {}, 0, [], false;
    }

    ghost predicate Cleared()
      reads this
    {
      children == [] && error.None? && parsingDepth == 0 && unlinked == {} && found == []
    }

    /** The numbers of the nodes in the table of unlinked nodes have been given out. */
    ghost predicate TableOk()
      reads this`unlinked, this`created
    {
      forall id | id in unlinked :: id < created
    }

    /** The text that is still to be read at `p`. */
    ghost function Rest(p: nat): string
      requires p <= |charBuffer|
      reads this`charBuffer
    {
      charBuffer[p..]
    }

    ghost predicate InBuffer(x: NodePtr)
      reads this`charBuffer
    {
      x.NullPtr? || x.p <= |charBuffer|
    }

    /** A result of the methods, as a result of the functions. */
    ghost function View(x: NodePtr): NodeResult
      requires InBuffer(x)
      reads this`charBuffer, this`parseCurLineNum, this`error
    {
      match x
      case LeafAt(node, p) => Leaf(node, Rest(p), parseCurLineNum)
      case ElemAt(name, attrs, closing, children, endTag, p) =>
        Elem(name, attrs, closing, children, endTag, Rest(p), parseCurLineNum)
      case NullPtr => if error.Some? then Failed(error.value) else Null
    }

    ghost predicate NodesInBuffer(x: NodesPtr)
      reads this`charBuffer
    {
      x.ClosedAt? ==> x.p <= |charBuffer|
    }

    ghost function ViewNodes(x: NodesPtr): NodesResult
      requires NodesInBuffer(x)
      reads this`charBuffer, this`parseCurLineNum, this`error
    {
      match x
      case ClosedAt(nodes, tag, p) => ClosedBy(nodes, tag, Rest(p), parseCurLineNum)
      case NullNodes(nodes) => if error.Some? then Stopped(error.value) else Ended(nodes)
    }

    method PushDepth()
      modifies this`parsingDepth, this`error
      ensures parsingDepth == old(parsingDepth) + 1
      ensures error == if parsingDepth == MAX_ELEMENT_DEPTH then Some(Error(ElementDepthExceeded, parseCurLineNum))
                       else old(error)
    {
      parsingDepth := parsingDepth + 1;
      if parsingDepth == MAX_ELEMENT_DEPTH {
        error := Some(Error(ElementDepthExceeded, parseCurLineNum));
      }
    }

    method SkipSpace(p: nat) returns (q: nat)
      requires p <= |charBuffer|
      modifies this`parseCurLineNum
      ensures p <= q <= |charBuffer| && Rest(q) == TrimLeft(Rest(p))
      ensures parseCurLineNum == old(parseCurLineNum) + Lines(Rest(p), Rest(q))
    {
      q, parseCurLineNum := SkipWhiteSpace(charBuffer, p, parseCurLineNum);
      assert charBuffer[p..][..q - p] == charBuffer[p..q];
    }

    /** StrPair::ParseText up to `tag`, with the line count; `text` is the raw slice. */
    method ScanText(p: nat, tag: string) returns (found: bool, text: string, next: nat)
      requires p <= |charBuffer| && IsTag(tag)
      modifies this`parseCurLineNum
      ensures match FindTag(Rest(p), tag)
              case None => !found
              case Some(n) =>
                && found && text == Rest(p)[..n] && next == p + n + |tag| <= |charBuffer|
                && Rest(next) == Rest(p)[n + |tag|..]
                && parseCurLineNum == old(parseCurLineNum) + Newlines(text)
    {
      var end, line;
      found, end, next, line := XmlUtil.ParseText(charBuffer, p, tag, parseCurLineNum);
      text := "";
      if found {
        text := charBuffer[p..end];
        parseCurLineNum := line;
        assert charBuffer[p..][..end - p] == text;
        assert charBuffer[p..][next - p..] == charBuffer[next..];
      }
    }

    /** The part of XMLAttribute::ParseDeep between the name and the value. */
    method SkipEquals(p: nat) returns (v: Option<nat>)
      requires p <= |charBuffer|
      modifies this`parseCurLineNum
      ensures v.Some? <==> !AtEnd(Rest(p)) && At(TrimLeft(Rest(p)), 0) == '='
      ensures v.Some? ==> var u := TrimLeft(Rest(p));
                          && p < v.value <= |charBuffer| && Rest(v.value) == TrimLeft(u[1..])
                          && parseCurLineNum == old(parseCurLineNum) + Lines(Rest(p), u) + Lines(u[1..], TrimLeft(u[1..]))
    {
      hide TrimLeft, Lines;
      if At(charBuffer, p) == NUL {
        return None;
      }
      var q := SkipSpace(p);
      if At(charBuffer, q) != '=' {
        return None;
      }
      assert Rest(q)[1..] == Rest(q + 1);
      var start := SkipSpace(q + 1);
      return Some(start);
    }

    /** XMLAttribute::ParseDeep. */
    method ParseAttr(p: nat) returns (r: Option<(Attr, nat)>)
      requires p <= |charBuffer|
      modifies this`parseCurLineNum
      ensures match XmlParser.ParseAttr(Rest(p), old(parseCurLineNum), options)
              case NoAttr => r.None?
              case SomeAttr(attr, rest, line) =>
                && r.Some? && r.value.0 == attr && p < r.value.1 <= |charBuffer|
                && Rest(r.value.1) == rest && parseCurLineNum == line
    {
      hide FindTag, Value, TakeName, DropName, TrimLeft, Lines, Newlines;
      var end := ParseName(charBuffer, p);
      if end.None? {
        return None;
      }
      var v := SkipEquals(end.value);
      if v.None? || (At(charBuffer, v.value) != '\"' && At(charBuffer, v.value) != '\'') {
        return None;
      }
      var found, text, next := ScanQuoted(v.value);
      if !found {
        return None;
      }
      return Some((Attr(charBuffer[p..end.value], Value(text, AttrFlags(options))), next));
    }

    /** The text between the quote at `p` and the next one. */
    method ScanQuoted(p: nat) returns (found: bool, text: string, next: nat)
      requires p < |charBuffer| && (charBuffer[p] == '\"' || charBuffer[p] == '\'')
      modifies this`parseCurLineNum
      ensures match FindTag(Rest(p)[1..], [Rest(p)[0]])
              case None => !found
              case Some(n) =>
                && found && text == Rest(p)[1..][..n] && p < next <= |charBuffer|
                && Rest(next) == Rest(p)[1..][n + 1..]
                && parseCurLineNum == old(parseCurLineNum) + Newlines(text)
    {
      hide FindTag, Newlines;
      assert Rest(p)[1..] == Rest(p + 1) && Rest(p)[0] == charBuffer[p];
      found, text, next := ScanText(p + 1, [charBuffer[p]]);
    }

    /** XMLElement::FindAttribute. */
    method FindAttribute(attrs: seq<Attr>, name: string) returns (found: bool)
      ensures found <==> HasAttr(attrs, name)
    {
      for i := 0 to |attrs|
        invariant forall j | 0 <= j < i :: attrs[j].name != name
      {
        if attrs[i].name == name {
          return true;
        }
      }
      return false;
    }

    /** XMLElement::ParseAttributes: the loop that appends attributes until the tag ends. */
    method ParseAttributes(p0: nat, elementLine: nat)
      returns (r: Option<(seq<Attr>, bool, nat)>)
      requires p0 <= |charBuffer| && error.None?
      modifies this`parseCurLineNum, this`error
      ensures match XmlParser.ParseAttributes(Rest(p0), old(parseCurLineNum), elementLine, [], options)
              case AttrsFailed(e) => r.None? && error == Some(e)
              case Attrs(attrs, closed, rest, line) =>
                && error.None? && r.Some? && r.value.0 == attrs && r.value.1 == closed
                && p0 <= r.value.2 <= |charBuffer| && Rest(r.value.2) == rest && parseCurLineNum == line
    {
      hide XmlParser.ParseAttr, HasAttr, TrimLeft, Lines;
      var p, attrs: seq<Attr> := p0, [];
      while true
        invariant p0 <= p <= |charBuffer| && error.None?
        invariant XmlParser.ParseAttributes(Rest(p), parseCurLineNum, elementLine, attrs, options)
                  == XmlParser.ParseAttributes(Rest(p0), old(parseCurLineNum), elementLine, [], options)
        decreases |charBuffer| - p
      {
        var q := SkipSpace(p);
        if At(charBuffer, q) == NUL {
          error := Some(Error(ParsingElement, elementLine));
          return None;
        }
        EmptyTagEnd(Rest(q));
        assert At(Rest(q), 0) == At(charBuffer, q) && At(Rest(q), 1) == At(charBuffer, q + 1);
        if IsNameStartChar(charBuffer[q]) {
          var attrLine := parseCurLineNum;
          var attr := ParseAttr(q);
          if attr.None? {
            error := Some(Error(ParsingAttribute, attrLine));
            return None;
          }
          var duplicate := FindAttribute(attrs, attr.value.0.name);
          if duplicate {
            error := Some(Error(ParsingAttribute, attrLine));
            return None;
          }
          attrs, p := attrs + [attr.value.0], attr.value.1;
        } else if charBuffer[q] == '>' {
          assert Rest(q)[1..] == Rest(q + 1);
          return Some((attrs, false, q + 1));
        } else if charBuffer[q] == '/' && At(charBuffer, q + 1) == '>' {
          assert Rest(q)[2..] == Rest(q + 2);
          return Some((attrs, true, q + 2));
        } else {
          error := Some(Error(ParsingElement, elementLine));
          return None;
        }
      }
    }

    /** XMLDocument::Identify. The node that it makes is number `id`, and is in the table of unlinked nodes. */
    method Identify(p: nat) returns (kind: Option<Kind>, q: nat, nodeLine: nat, id: nat)
      requires p <= |charBuffer| && TableOk()
      modifies this`parseCurLineNum, this`unlinked, this`created, this`found
      ensures TableOk() && id !in old(unlinked)
      ensures unlinked == old(unlinked) + if kind.Some? then {id} else {}
      ensures found == old(found) + if kind.Some? then [Mark(TrimLeft(Rest(p)), nodeLine)] else []
      ensures match XmlParser.Identify(Rest(p), old(parseCurLineNum))
              case NoNode => kind.None?
              case Found(k, rest, line, l) =>
                kind == Some(k) && q <= |charBuffer| && Rest(q) == rest && parseCurLineNum == line && nodeLine == l
    {
      hide TrimLeft, Lines, Header;
      var startLine := parseCurLineNum;
      q := SkipSpace(p);
      nodeLine := parseCurLineNum;
      id := created;
      if At(charBuffer, q) == NUL {
        return None, q, nodeLine, id;
      }
      var k, length := MatchHeader(charBuffer[q..]);
      kind := Some(k);
      CreateUnlinkedNode();
      found := found + [Mark(Rest(q), nodeLine)];
      if k == TextKind {
        parseCurLineNum := startLine;
        return kind, p, nodeLine, id;
      }
      assert Rest(q)[length..] == Rest(q + length);
      q := q + length;
    }

    method CreateUnlinkedNode()
      requires TableOk()
      modifies this`unlinked, this`created
      ensures TableOk() && unlinked == old(unlinked) + {old(created)}
    {
      unlinked := unlinked + {created};
      created := created + 1;
    }

    /** XMLDocument::MarkInUse. */
    method MarkInUse(id: nat)
      requires TableOk()
      modifies this`unlinked
      ensures TableOk() && unlinked == old(unlinked) - {id}
    {
      unlinked := unlinked - {id};
    }

    /** The static XMLNode::DeleteNode of a node that has no parent. */
    method DeleteNode(id: nat)
      requires TableOk()
      modifies this`unlinked
      ensures TableOk() && unlinked == old(unlinked) - {id}
    {
      MarkInUse(id);
    }

    /** XMLNode::InsertEndChild of a node that has no parent, after the children `done`. */
    method InsertEndChild(id: nat, node: Node, done: seq<Node>) returns (done': seq<Node>)
      requires TableOk()
      modifies this`unlinked
      ensures TableOk() && unlinked == old(unlinked) - {id} && done' == done + [node]
    {
      MarkInUse(id);
      done' := done + [node];
    }

    /** The chain of header comparisons of XMLDocument::Identify. */
    method MatchHeader(t: string) returns (kind: Kind, length: nat)
      ensures (kind, length) == Header(t)
    {
      if "<?" <= t {
        return DeclarationKind, 2;
      } else if "<!--" <= t {
        return CommentKind, 4;
      } else if "<![CDATA[" <= t {
        return CDataKind, 9;
      } else if "<!" <= t {
        return UnknownKind, 2;
      } else if "<" <= t {
        return ElementKind, 1;
      }
      return TextKind, 0;
    }

    /** The ParseDeep of XMLComment, XMLDeclaration, XMLUnknown, and of XMLText holding CDATA. */
    method ParseLeaf(p: nat, kind: Kind, tag: string, id: ErrorId, nodeLine: nat) returns (x: NodePtr)
      requires p <= |charBuffer| && IsTag(tag) && error.None?
      modifies this`parseCurLineNum, this`error
      ensures InBuffer(x) && (x != NullPtr ==> error.None?)
      ensures View(x) == XmlParser.ParseLeaf(Rest(p), old(parseCurLineNum), tag, kind, Error(id, nodeLine))
    {
      hide FindTag, Value;
      var found, text, next := ScanText(p, tag);
      if !found {
        error := Some(Error(id, nodeLine));
        return NullPtr;
      }
      return LeafAt(MakeLeaf(kind, Value(text, VERBATIM)), next);
    }

    /** XMLText::ParseDeep for plain text. */
    method ParseText(p: nat, nodeLine: nat) returns (x: NodePtr)
      requires p <= |charBuffer| && error.None?
      modifies this`parseCurLineNum, this`error
      ensures InBuffer(x) && (x != NullPtr ==> error.None?)
      ensures View(x) == XmlParser.ParseText(Rest(p), old(parseCurLineNum), nodeLine, options)
    {
      hide FindTag, Value;
      var found, text, next := ScanText(p, "<");
      if !found {
        error := Some(Error(ParsingText, nodeLine));
        return NullPtr;
      }
      assert At(Rest(p), |text| + 1) == At(charBuffer, next);
      if At(charBuffer, next) == NUL {
        return NullPtr;
      }
      assert Rest(p)[|text|..] == Rest(next - 1);
      return LeafAt(Text(Value(text, TextFlags(options)), false), next - 1);
    }

    /** The ParseDeep of the node that Identify has made. */
    method ParseNode(kind: Kind, p: nat, nodeLine: nat) returns (x: NodePtr)
      requires p <= |charBuffer| && error.None? && parsingDepth < MAX_ELEMENT_DEPTH && TableOk()
      modifies this`parseCurLineNum, this`error, this`parsingDepth, this`unlinked, this`created, this`found
      ensures InBuffer(x) && (x != NullPtr ==> error.None?) && parsingDepth == old(parsingDepth)
      ensures View(x) == XmlParser.ParseNode(kind, Rest(p), old(parseCurLineNum), nodeLine, old(parsingDepth), options)
      ensures TableOk() && unlinked == old(unlinked)
      ensures found == old(found) + NodeMarks(kind, Rest(p), old(parseCurLineNum), nodeLine, old(parsingDepth), options)
      decreases |charBuffer| - p, 1
    {
      hide XmlParser.ParseLeaf, XmlParser.ParseText, XmlParser.ParseElement;
      match kind
      case DeclarationKind => x := ParseLeaf(p, kind, "?>", ParsingDeclaration, nodeLine);
      case CommentKind => x := ParseLeaf(p, kind, "-->", ParsingComment, nodeLine);
      case CDataKind => x := ParseLeaf(p, kind, "]]>", ParsingCData, nodeLine);
      case UnknownKind => x := ParseLeaf(p, kind, ">", ParsingUnknown, nodeLine);
      case TextKind => x := ParseText(p, nodeLine);
      case ElementKind => x := ParseElement(p, nodeLine);
    }

    /** The tag of an element: its name, attributes and closing form. */
    method ReadTag(p: nat, nodeLine: nat) returns (r: Option<(string, seq<Attr>, Closing, nat)>)
      requires p <= |charBuffer| && error.None?
      modifies this`parseCurLineNum, this`error
      ensures match XmlParser.ReadTag(Rest(p), old(parseCurLineNum), nodeLine, options)
              case NoTag => r.None? && error.None?
              case TagFailed(e) => r.None? && error == Some(e)
              case Tag(name, attrs, closing, rest, line) =>
                && error.None? && r.Some? && r.value.0 == name && r.value.1 == attrs && r.value.2 == closing
                && p < r.value.3 <= |charBuffer| && Rest(r.value.3) == rest && parseCurLineNum == line
    {
      hide XmlParser.ParseAttributes, TakeName, DropName, TrimLeft, Lines;
      var q := SkipSpace(p);
      var closing := Open;
      if At(charBuffer, q) == '/' {
        closing := IsClosing;
        assert Rest(q)[1..] == Rest(q + 1);
        q := q + 1;
      }
      var end := ParseName(charBuffer, q);
      if end.None? {
        return None;
      }
      var name := charBuffer[q..end.value];
      var attributes := ParseAttributes(end.value, nodeLine);
      if attributes.None? {
        return None;
      }
      var (attrs, closed, rest) := attributes.value;
      if closed {
        closing := Closed;
      }
      return Some((name, attrs, closing, rest));
    }

    /** XMLElement::ParseDeep. */
    method ParseElement(p: nat, nodeLine: nat) returns (x: NodePtr)
      requires p <= |charBuffer| && error.None? && parsingDepth < MAX_ELEMENT_DEPTH && TableOk()
      modifies this`parseCurLineNum, this`error, this`parsingDepth, this`unlinked, this`created, this`found
      ensures InBuffer(x) && (x != NullPtr ==> error.None?) && parsingDepth == old(parsingDepth)
      ensures View(x) == XmlParser.ParseElement(Rest(p), old(parseCurLineNum), nodeLine, old(parsingDepth), options)
      ensures TableOk() && unlinked == old(unlinked)
      ensures found == old(found) + ElementMarks(Rest(p), old(parseCurLineNum), nodeLine, old(parsingDepth), options)
      decreases |charBuffer| - p, 0
    {
      hide XmlParser.ReadTag, ParseNodes, NodesMarks;
      var tag := ReadTag(p, nodeLine);
      if tag.None? {
        return NullPtr;
      }
      var (name, attrs, closing, rest) := tag.value;
      if At(charBuffer, rest) == NUL || closing != Open {
        return ElemAt(name, attrs, closing, [], None, rest);
      }
      var nodes := ParseDeep(rest, false);
      match nodes
      case ClosedAt(children, tag, p') => return ElemAt(name, attrs, Open, children, Some(tag), p');
      case NullNodes(_) => return NullPtr;
    }

    /** XMLNode::ParseDeep, with its DepthTracker: it is never entered at depth 100. */
    method ParseDeep(p0: nat, isDocument: bool) returns (x: NodesPtr)
      requires p0 <= |charBuffer| && error.None? && parsingDepth < MAX_ELEMENT_DEPTH && TableOk()
      modifies this`parseCurLineNum, this`error, this`parsingDepth, this`unlinked, this`created, this`found
      ensures NodesInBuffer(x) && (x.ClosedAt? ==> error.None?) && parsingDepth == old(parsingDepth)
      ensures ViewNodes(x) == Deep(Rest(p0), old(parseCurLineNum), old(parsingDepth), isDocument, options)
      ensures TableOk() && unlinked == old(unlinked)
      ensures found == old(found) + DeepMarks(Rest(p0), old(parseCurLineNum), old(parsingDepth), isDocument, options)
      decreases |charBuffer| - p0, 3
    {
      hide ParseNodes;
      PushDepth();
      if error.Some? {
        x := NullNodes([]);
      } else {
        x := ParseChildren(p0, isDocument);
      }
      parsingDepth := parsingDepth - 1;
    }

    /** The loop of XMLNode::ParseDeep. `done` are the children inserted so far. */
    method ParseChildren(p0: nat, isDocument: bool) returns (x: NodesPtr)
      requires p0 <= |charBuffer| && error.None? && parsingDepth < MAX_ELEMENT_DEPTH && TableOk()
      modifies this`parseCurLineNum, this`error, this`parsingDepth, this`unlinked, this`created, this`found
      ensures NodesInBuffer(x) && (x.ClosedAt? ==> error.None?) && parsingDepth == old(parsingDepth)
      ensures ViewNodes(x) == ParseNodes(Rest(p0), old(parseCurLineNum), old(parsingDepth), isDocument, [], options)
      ensures TableOk() && unlinked == old(unlinked)
      ensures found == old(found) + NodesMarks(Rest(p0), old(parseCurLineNum), old(parsingDepth), isDocument, [], options)
      decreases |charBuffer| - p0, 2
    {
      hide XmlParser.Identify, XmlParser.ParseNode, NodeMarks, ParseNodes, NodesMarks, View, NodesTurn, TrimLeft;
      var p, done: seq<Node> := p0, [];
      while At(charBuffer, p) != NUL
        invariant p0 <= p <= |charBuffer| && error.None? && parsingDepth == old(parsingDepth)
        invariant ParseNodes(Rest(p), parseCurLineNum, parsingDepth, isDocument, done, options)
                  == ParseNodes(Rest(p0), old(parseCurLineNum), old(parsingDepth), isDocument, [], options)
        invariant TableOk() && unlinked == old(unlinked)
        invariant found + NodesMarks(Rest(p), parseCurLineNum, parsingDepth, isDocument, done, options)
                  == old(found) + NodesMarks(Rest(p0), old(parseCurLineNum), old(parsingDepth), isDocument, [], options)
        decreases |charBuffer| - p
      {
        NodesStep(Rest(p), parseCurLineNum, parsingDepth, isDocument, done, options);
        var kind, q, nodeLine, id := Identify(p);
        if kind.None? {
          return NullNodes(done);
        }
        var node := ParseNode(kind.value, q, nodeLine);
        var over;
        over, x, done, p := Insert(node, id, nodeLine, isDocument, done);
        if over {
          return;
        }
      }
      NodesEnd(Rest(p), parseCurLineNum, parsingDepth, isDocument, done, options);
      return NullNodes(done);
    }

    /** The rest of a turn of the loop: node `id`, which was read, ends it and is deleted, or is inserted and the loop
        goes on at `p'`. On every way it leaves the table of unlinked nodes. */
    method Insert(node: NodePtr, id: nat, nodeLine: nat, isDocument: bool, done: seq<Node>)
      returns (over: bool, x: NodesPtr, done': seq<Node>, p': nat)
      requires InBuffer(node) && (node != NullPtr ==> error.None?) && TableOk()
      modifies this`error, this`unlinked
      ensures NodesInBuffer(x) && p' <= |charBuffer|
      ensures TableOk() && unlinked == old(unlinked) - {id}
      ensures match NodesTurn(old(View(node)), nodeLine, isDocument, done)
              case Over(r) => over && ViewNodes(x) == r && (x.ClosedAt? ==> error.None?)
              case Further(rest, line, more) =>
                !over && done' == more && Rest(p') == rest && parseCurLineNum == line && error.None?
    {
      over, x, done', p' := true, NullNodes(done), done, 0;
      match node
      case NullPtr =>
        DeleteNode(id);
        if error.None? {
          error := Some(Error(Parsing, nodeLine));
        }
      case LeafAt(leaf, next) =>
        if leaf.Declaration? && !WellLocated(isDocument, done) {
          error := Some(Error(ParsingDeclaration, nodeLine));
          DeleteNode(id);
          return;
        }
        done' := InsertEndChild(id, leaf, done);
        over, p' := false, next;
      case ElemAt(name, attrs, closing, children, endTag, next) =>
        if closing == IsClosing {
          x := ClosedAt(done, name, next);
          DeleteNode(id);
          return;
        }
        if Mismatch(name, closing, endTag) {
          error := Some(Error(MismatchedElement, nodeLine));
          DeleteNode(id);
          return;
        }
        done' := InsertEndChild(id, Element(name, attrs, children), done);
        over, p' := false, next;
    }

    /** XMLDocument::Clear. */
    method Clear()
      modifies this
      ensures Cleared() && created == old(created) && writeBOM == old(writeBOM)
    {
      children, error, charBuffer, parsingDepth := [], None, "", 0;
      unlinked, found := {}, [];
    }

    /** XMLDocument::Parse, whatever the document held before. The depth counter is back at 0 and the table of
        unlinked nodes is empty, also after an error, which leaves no children. An empty text does not touch the flag
        for the byte order mark. */
    method Parse(text: string)
      modifies this
      ensures charBuffer == text && parsingDepth == 0 && unlinked == {} && found == Marks(text, options)
      ensures match XmlParser.Parse(text, options)
              case Parsed(nodes, bom) => error.None? && children == nodes && writeBOM == bom
              case NotParsed(e) => error == Some(e) && children == []
      ensures writeBOM == if AtEnd(text) then old(writeBOM) else BOM <= TrimLeft(text)
    {
      hide ParseNodes, TrimLeft, Lines, NodesMarks;
      Clear();
      charBuffer := text;
      if At(charBuffer, 0) == NUL {
        error := Some(Error(EmptyDocument, 0));
        return;
      }
      parseCurLineNum := 1;
      assert Rest(0) == charBuffer;
      var p := SkipSpace(0);
      writeBOM := BOM <= charBuffer[p..];
      if writeBOM {
        assert Rest(p)[3..] == Rest(p + 3);
        p := p + 3;
      }
      if At(charBuffer, p) == NUL {
        error := Some(Error(EmptyDocument, 0));
        return;
      }
      var x := ParseDeep(p, true);
      children := if error.Some? then [] else x.nodes;
    }

    /** XMLDocument::Print in compact mode, with the flags of the document. */
    method Print() returns (out: string)
      ensures out == Printed(children, writeBOM, options.processEntities)
    {
      out := PrintDocument(children, writeBOM, options.processEntities);
    }
  }

  /** XMLNode::ParseDeep with the depth check of its DepthTracker, from the enclosing depth. */
  ghost function Deep(t: string, line: nat, depth: nat, isDocument: bool, o: Options): NodesResult {
    if depth + 1 == MAX_ELEMENT_DEPTH then Stopped(Error(ElementDepthExceeded, line))
    else ParseNodes(t, line, depth + 1, isDocument, [], o)
  }

  ghost function DeepMarks(t: string, line: nat, depth: nat, isDocument: bool, o: Options): seq<Mark> {
    if depth + 1 == MAX_ELEMENT_DEPTH then [] else NodesMarks(t, line, depth + 1, isDocument, [], o)
  }
}
