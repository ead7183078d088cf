/** The places of the nodes of a document: for each node that XMLDocument::Identify makes, in order, the text from
    its first character on and the line number recorded in it. End tags are nodes here too, as the source makes one
    for each before it deletes it. */
module XmlMarks {
  import opened Wrappers
  import opened XmlUtil
  import opened StrPairs
  import opened XmlTree
  import opened XmlParser

  datatype Mark = Mark(left: string, line: nat)

  /** The nodes made while the children loop reads `t`. */
  function NodesMarks(t: string, line: nat, depth: nat, isDocument: bool, done: seq<Node>, o: Options): seq<Mark>
    decreases |t|, 2
  {
    if AtEnd(t) then []
    else
      match Identify(t, line)
      case NoNode => []
      case Found(kind, t', line', nodeLine) =>
        var here := [Mark(TrimLeft(t), nodeLine)] + NodeMarks(kind, t', line', nodeLine, depth, o);
        match ParseNode(kind, t', line', nodeLine, depth, o)
        case Failed(_) => here
        case Null => here
        case Leaf(node, rest, l) =>
          if node.Declaration? && !WellLocated(isDocument, done) then here
          else here + NodesMarks(rest, l, depth, isDocument, done + [node], o)
        case Elem(name, attrs, closing, children, endTag, rest, l) =>
          if closing == IsClosing || Mismatch(name, closing, endTag) then here
          else here + NodesMarks(rest, l, depth, isDocument, done + [Element(name, attrs, children)], o)
  }

  /** The nodes made inside one node. */
  function NodeMarks(kind: Kind, t: string, line: nat, nodeLine: nat, depth: nat, o: Options): seq<Mark>
    decreases |t|, 1
  {
    if kind == ElementKind then ElementMarks(t, line, nodeLine, depth, o) else []
  }

  function ElementMarks(t: string, line: nat, nodeLine: nat, depth: nat, o: Options): seq<Mark>
    decreases |t|, 0
  {
    match ReadTag(t, line, nodeLine, o)
    case NoTag => []
    case TagFailed(_) => []
    case Tag(_, _, closing, rest, l) =>
      if AtEnd(rest) || closing != Open || depth + 1 == MAX_ELEMENT_DEPTH then []
      else NodesMarks(rest, l, depth + 1, false, [], o)
  }

  /** The nodes made while a document is parsed. */
  function Marks(s: string, o: Options): seq<Mark> {
    var u := TrimLeft(s);
    var t := SkipBOM(u);
    if AtEnd(s) || AtEnd(t) then [] else NodesMarks(t, 1 + Lines(s, u), 1, true, [], o)
  }

  /** What a turn of the children loop comes to once its node has been read. */
  datatype Turn = Over(result: NodesResult) | Further(rest: string, line: nat, done: seq<Node>)

  function NodesTurn(node: NodeResult, nodeLine: nat, isDocument: bool, done: seq<Node>): Turn {
    match node
    case Failed(e) => Over(Stopped(e))
    case Null => Over(Stopped(Error(Parsing, nodeLine)))
    case Leaf(leaf, rest, l) =>
      if leaf.Declaration? && !WellLocated(isDocument, done) then Over(Stopped(Error(ParsingDeclaration, nodeLine)))
      else Further(rest, l, done + [leaf])
    case Elem(name, attrs, closing, children, endTag, rest, l) =>
      if closing == IsClosing then Over(ClosedBy(done, name, rest, l))
      else if Mismatch(name, closing, endTag) then Over(Stopped(Error(MismatchedElement, nodeLine)))
      else Further(rest, l, done + [Element(name, attrs, children)])
  }

  /** The loop and its places, one turn unrolled. */
  lemma NodesStep(t: string, line: nat, depth: nat, isDocument: bool, done: seq<Node>, o: Options)
    requires !AtEnd(t)
    ensures Identify(t, line).NoNode? ==>
              ParseNodes(t, line, depth, isDocument, done, o) == Ended(done)
              && NodesMarks(t, line, depth, isDocument, done, o) == []
    ensures Identify(t, line).Found? ==>
              var f := Identify(t, line);
              var here := [Mark(TrimLeft(t), f.nodeLine)] + NodeMarks(f.kind, f.rest, f.line, f.nodeLine, depth, o);
              var turn := NodesTurn(ParseNode(f.kind, f.rest, f.line, f.nodeLine, depth, o), f.nodeLine,
                                    isDocument, done);
              && (turn.Over? ==>
                    && ParseNodes(t, line, depth, isDocument, done, o) == turn.result
                    && NodesMarks(t, line, depth, isDocument, done, o) == here)
              && (turn.Further? ==>
                    && |turn.rest| < |t|
                    && ParseNodes(t, line, depth, isDocument, done, o)
                       == ParseNodes(turn.rest, turn.line, depth, isDocument, turn.done, o)
                    && NodesMarks(t, line, depth, isDocument, done, o)
                       == here + NodesMarks(turn.rest, turn.line, depth, isDocument, turn.done, o))
  {
    hide Identify, ParseNode, NodeMarks, TrimLeft;
  }

  lemma NodesEnd(t: string, line: nat, depth: nat, isDocument: bool, done: seq<Node>, o: Options)
    requires AtEnd(t)
    ensures ParseNodes(t, line, depth, isDocument, done, o) == Ended(done)
    ensures NodesMarks(t, line, depth, isDocument, done, o) == []
  {
  }
}
