/** What XMLDocument::Parse computes, as functions on the text that is still to be read. A text that
    the source reaches as a null pointer is the `Null` result; a set error is `Failed`. The line number
    is carried along as `_parseCurLineNum` is. */
module XmlParser {
  import opened Wrappers
  import opened XmlUtil
  import opened StrPairs
  import opened GetStr
  import opened XmlTree

  const MAX_ELEMENT_DEPTH: nat := 100

  datatype ErrorId =
    | EmptyDocument | ParsingElement | ParsingAttribute | ParsingText | ParsingCData | ParsingComment
    | ParsingDeclaration | ParsingUnknown | MismatchedElement | Parsing | ElementDepthExceeded

  datatype Error = Error(id: ErrorId, line: nat)

  datatype Options = Options(processEntities: bool, collapse: bool)

  function TextFlags(o: Options): Flags { Flags(o.processEntities, true, o.collapse) }
  function AttrFlags(o: Options): Flags { Flags(o.processEntities, true, false) }

  /** The newlines in the part of `t` before its suffix `u`. */
  function Lines(t: string, u: string): nat {
    if |u| <= |t| then Newlines(t[..|t| - |u|]) else 0
  }

  // ---- Attributes ----------------------------------------------------------------------------------

  datatype AttrResult = NoAttr | SomeAttr(attr: Attr, rest: string, line: nat)

  /** XMLAttribute::ParseDeep. */
  function ParseAttr(t: string, line: nat, o: Options): (r: AttrResult)
    ensures r.SomeAttr? ==> |r.rest| < |t|
  {
    if t == [] || !IsNameStartChar(t[0]) then NoAttr
    else
      var r := DropName(t);
      if AtEnd(r) then NoAttr
      else
        var u := TrimLeft(r);
        if At(u, 0) != '=' then NoAttr
        else
          var v := TrimLeft(u[1..]);
          if At(v, 0) != '\"' && At(v, 0) != '\'' then NoAttr
          else
            match FindTag(v[1..], [v[0]])
            case None => NoAttr
            case Some(n) =>
              var value := Value(v[1..][..n], AttrFlags(o));
              SomeAttr(Attr(TakeName(t), value), v[1..][n + 1..],
                       line + Lines(r, u) + Lines(u[1..], v) + Newlines(v[1..][..n]))
  }

  predicate HasAttr(attrs: seq<Attr>, name: string) {
    exists i :: 0 <= i < |attrs| && attrs[i].name == name
  }

  datatype AttrsResult =
    | Attrs(attrs: seq<Attr>, closed: bool, rest: string, line: nat)
    | AttrsFailed(error: Error)

  /** XMLElement::ParseAttributes; `done` are the attributes read so far. */
  function ParseAttributes(t: string, line: nat, elementLine: nat, done: seq<Attr>, o: Options): (r: AttrsResult)
    ensures r.Attrs? ==> |r.rest| < |t|
    decreases |t|
  {
    var u := TrimLeft(t);
    var l := line + Lines(t, u);
    if AtEnd(u) then AttrsFailed(Error(ParsingElement, elementLine))
    else if IsNameStartChar(u[0]) then
      match ParseAttr(u, l, o)
      case NoAttr => AttrsFailed(Error(ParsingAttribute, l))
      case SomeAttr(attr, rest, l') =>
        if HasAttr(done, attr.name) then AttrsFailed(Error(ParsingAttribute, l))
        else ParseAttributes(rest, l', elementLine, done + [attr], o)
    else if u[0] == '>' then Attrs(done, false, u[1..], l)
    else if "/>" <= u then Attrs(done, true, u[2..], l)
    else AttrsFailed(Error(ParsingElement, elementLine))
  }

  // ---- Nodes ---------------------------------------------------------------------------------------

  datatype Kind = DeclarationKind | CommentKind | CDataKind | UnknownKind | ElementKind | TextKind

  datatype Identified = NoNode | Found(kind: Kind, rest: string, line: nat, nodeLine: nat)

  /** The node kind that a header announces, and the header's length; text has none. */
  function Header(u: string): (r: (Kind, nat))
    ensures r.1 <= |u| && (r.0 != TextKind ==> r.1 > 0)
    ensures r.0 == TextKind ==> r.1 == 0 && At(u, 0) != '<'
  {
    if "<?" <= u then (DeclarationKind, 2)
    else if "<!--" <= u then (CommentKind, 4)
    else if "<![CDATA[" <= u then (CDataKind, 9)
    else if "<!" <= u then (UnknownKind, 2)
    else if "<" <= u then (ElementKind, 1)
    else (TextKind, 0)
  }

  /** XMLDocument::Identify. Text is backed up to before its white space. */
  function Identify(t: string, line: nat): (r: Identified)
    ensures r.Found? ==> |r.rest| <= |t| && (r.kind != TextKind ==> |r.rest| < |t|)
    ensures r.Found? && r.kind == TextKind ==> r.rest == t && t != [] && t[0] != '<'
  {
    var u := TrimLeft(t);
    var l := line + Lines(t, u);
    if AtEnd(u) then NoNode
    else
      var (kind, n) := Header(u);
      if kind == TextKind then Found(kind, t, line, l) else Found(kind, u[n..], l, l)
  }

  datatype Closing = Open | Closed | IsClosing

  datatype NodeResult =
    | Leaf(node: Node, rest: string, line: nat)
    | Elem(name: string, attrs: seq<Attr>, closing: Closing, children: seq<Node>, endTag: Option<string>,
           rest: string, line: nat)
    | Null
    | Failed(error: Error)

  function MakeLeaf(kind: Kind, text: string): Node {
    match kind
    case DeclarationKind => Declaration(text)
    case CommentKind => Comment(text)
    case UnknownKind => Unknown(text)
    case _ => Text(text, kind == CDataKind)
  }

  /** The rest of a node that reads as verbatim text up to an end tag. */
  function ParseLeaf(t: string, line: nat, tag: string, kind: Kind, error: Error): (r: NodeResult)
    requires IsTag(tag)
    ensures r.Leaf? ==> |r.rest| <= |t|
    ensures !r.Elem?
  {
    match FindTag(t, tag)
    case None => Failed(error)
    case Some(n) => Leaf(MakeLeaf(kind, Value(t[..n], VERBATIM)), t[n + |tag|..], line + Newlines(t[..n]))
  }

  /** XMLText::ParseDeep for text that is not CDATA: the `<` that ends it is left to be read. */
  function ParseText(t: string, line: nat, nodeLine: nat, o: Options): (r: NodeResult)
    ensures r.Leaf? ==> |r.rest| <= |t| && (At(t, 0) != '<' ==> |r.rest| < |t|)
    ensures !r.Elem?
  {
    match FindTag(t, "<")
    case None => Failed(Error(ParsingText, nodeLine))
    case Some(n) =>
      if At(t, n + 1) == NUL then Null
      else Leaf(Text(Value(t[..n], TextFlags(o)), false), t[n..], line + Newlines(t[..n]))
  }

  /** The ParseDeep of the node that Identify has found. */
  function ParseNode(kind: Kind, t: string, line: nat, nodeLine: nat, depth: nat, o: Options): (r: NodeResult)
    ensures r.Leaf? ==> |r.rest| <= |t| && (kind == TextKind && At(t, 0) != '<' ==> |r.rest| < |t|)
    ensures r.Elem? ==> |r.rest| < |t|
    decreases |t|, 1
  {
    match kind
    case DeclarationKind => ParseLeaf(t, line, "?>", kind, Error(ParsingDeclaration, nodeLine))
    case CommentKind => ParseLeaf(t, line, "-->", kind, Error(ParsingComment, nodeLine))
    case CDataKind => ParseLeaf(t, line, "]]>", kind, Error(ParsingCData, nodeLine))
    case UnknownKind => ParseLeaf(t, line, ">", kind, Error(ParsingUnknown, nodeLine))
    case TextKind => ParseText(t, line, nodeLine, o)
    case ElementKind => ParseElement(t, line, nodeLine, depth, o)
  }

  datatype TagResult =
    | Tag(name: string, attrs: seq<Attr>, closing: Closing, rest: string, line: nat)
    | NoTag
    | TagFailed(error: Error)

  /** The part of XMLElement::ParseDeep that reads a tag, after its `<`. */
  function ReadTag(t: string, line: nat, nodeLine: nat, o: Options): (r: TagResult)
    ensures r.Tag? ==> |r.rest| < |t|
  {
    var u := TrimLeft(t);
    var closing := At(u, 0) == '/';
    var v := if closing then u[1..] else u;
    if v == [] || !IsNameStartChar(v[0]) then NoTag
    else
      match ParseAttributes(DropName(v), line + Lines(t, u), nodeLine, [], o)
      case AttrsFailed(e) => TagFailed(e)
      case Attrs(attrs, closed, rest, l) =>
        Tag(TakeName(v), attrs, if closed then Closed else if closing then IsClosing else Open, rest, l)
  }

  /** XMLElement::ParseDeep. `depth` is the parsing depth of the enclosing level. */
  function ParseElement(t: string, line: nat, nodeLine: nat, depth: nat, o: Options): (r: NodeResult)
    ensures r.Elem? ==> |r.rest| < |t|
    ensures !r.Leaf?
    decreases |t|, 0
  {
    match ReadTag(t, line, nodeLine, o)
    case NoTag => Null
    case TagFailed(e) => Failed(e)
    case Tag(name, attrs, closing, rest, l) =>
      if AtEnd(rest) || closing != Open then Elem(name, attrs, closing, [], None, rest, l)
      else if depth + 1 == MAX_ELEMENT_DEPTH then Failed(Error(ElementDepthExceeded, l))
      else
        match ParseNodes(rest, l, depth + 1, false, [], o)
        case ClosedBy(children, tag, rest', l') => Elem(name, attrs, Open, children, Some(tag), rest', l')
        case Ended(_) => Null
        case Stopped(e) => Failed(e)
  }

  /** ClosedBy: an end tag was read. Ended: the text ran out. Stopped: an error was set. */
  datatype NodesResult =
    | ClosedBy(nodes: seq<Node>, tag: string, rest: string, line: nat)
    | Ended(nodes: seq<Node>)
    | Stopped(error: Error)

  /** The check that only declarations come before a declaration, on first and last child alone. */
  predicate WellLocated(isDocument: bool, done: seq<Node>) {
    isDocument && (done == [] || (done[0].Declaration? && done[|done| - 1].Declaration?))
  }

  /** An end tag is missing, not wanted, or another one's. */
  predicate Mismatch(name: string, closing: Closing, endTag: Option<string>) {
    match endTag
    case None => closing == Open
    case Some(tag) => closing != Open || tag != name
  }

  /** XMLNode::ParseDeep: the loop over the children, `done` being those inserted so far. */
  function ParseNodes(t: string, line: nat, depth: nat, isDocument: bool, done: seq<Node>, o: Options): (r: NodesResult)
    ensures r.ClosedBy? ==> |r.rest| < |t|
    decreases |t|, 2
  {
    if AtEnd(t) then Ended(done)
    else
      match Identify(t, line)
      case NoNode => Ended(done)
      case Found(kind, t', line', nodeLine) =>
        match ParseNode(kind, t', line', nodeLine, depth, o)
        case Failed(e) => Stopped(e)
        case Null => Stopped(Error(Parsing, nodeLine))
        case Leaf(node, rest, l) =>
          if node.Declaration? && !WellLocated(isDocument, done)
          then Stopped(Error(ParsingDeclaration, nodeLine))
          else ParseNodes(rest, l, depth, isDocument, done + [node], o)
        case Elem(name, attrs, closing, children, endTag, rest, l) =>
          if closing == IsClosing then ClosedBy(done, name, rest, l)
          else if Mismatch(name, closing, endTag) then Stopped(Error(MismatchedElement, nodeLine))
          else ParseNodes(rest, l, depth, isDocument, done + [Element(name, attrs, children)], o)
  }

  // ---- Documents -----------------------------------------------------------------------------------

  /** `bom` says that a byte order mark was read: the document will be printed with one. */
  datatype ParseResult = Parsed(children: seq<Node>, bom: bool) | NotParsed(error: Error)

  /** XMLUtil::ReadBOM. */
  function SkipBOM(t: string): string {
    if BOM <= t then t[3..] else t
  }

  /** XMLDocument::Parse on the contents of a file or buffer. A stray end tag at the top ends the
      document without an error. */
  function Parse(s: string, o: Options): ParseResult {
    var u := TrimLeft(s);
    var t := SkipBOM(u);
    if AtEnd(s) || AtEnd(t) then NotParsed(Error(EmptyDocument, 0))
    else
      match ParseNodes(t, 1 + Lines(s, u), 1, true, [], o)
      case ClosedBy(nodes, _, _, _) => Parsed(nodes, BOM <= u)
      case Ended(nodes) => Parsed(nodes, BOM <= u)
      case Stopped(e) => NotParsed(e)
  }
}
