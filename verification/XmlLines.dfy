/** The line numbers of a whole parse: of every node, and of the error that ends it. */
module XmlLines {
  import opened Wrappers
  import opened XmlUtil
  import opened StrPairs
  import opened GetStr
  import opened XmlTree
  import opened XmlParser
  import opened XmlMarks
  import opened XmlParsed

  /** The mark stands at a character of `t` that is not white space, and its line is that of this character. */
  ghost predicate Right(t: string, line: nat, m: Mark) {
    Tracks(t, line, m.left, m.line) && !AtEnd(m.left) && !IsWhiteSpace(m.left[0])
  }

  ghost predicate AllRight(t: string, line: nat, ms: seq<Mark>) {
    forall i | 0 <= i < |ms| :: Right(t, line, ms[i])
  }

  lemma RightLater(t: string, line: nat, u: string, mid: nat, ms: seq<Mark>)
    requires Tracks(t, line, u, mid) && AllRight(u, mid, ms)
    ensures AllRight(t, line, ms)
  {
    hide Tracks;
    forall i | 0 <= i < |ms|
      ensures Right(t, line, ms[i])
    {
      TracksThen(t, line, u, mid, ms[i].left, ms[i].line);
    }
  }

  lemma AllRightConcat(t: string, line: nat, a: seq<Mark>, b: seq<Mark>)
    requires AllRight(t, line, a) && AllRight(t, line, b)
    ensures AllRight(t, line, a + b)
  {
    hide Right;
  }

  lemma {:induction false} NodesRight(t: string, line: nat, depth: nat, isDocument: bool, done: seq<Node>, o: Options)
    requires depth < MAX_ELEMENT_DEPTH
    ensures AllRight(t, line, NodesMarks(t, line, depth, isDocument, done, o))
    decreases |t|, 2
  {
    hide Tracks, Identify, ParseNode, NodeMarks, AllRight;
    var i := Identify(t, line);
    if AtEnd(t) || i.NoNode? {
      NoMarks(t, line);
      return;
    }
    IdentifyTracks(t, line);
    OneMark(t, line, Mark(TrimLeft(t), i.nodeLine));
    NodeRight(i.kind, i.rest, i.line, i.nodeLine, depth, o);
    var inner := NodeMarks(i.kind, i.rest, i.line, i.nodeLine, depth, o);
    RightLater(t, line, i.rest, i.line, inner);
    AllRightConcat(t, line, [Mark(TrimLeft(t), i.nodeLine)], inner);
    IdentifyBegins(t, line);
    NodeParsed(i.kind, i.rest, i.line, i.nodeLine, depth, o);
    var n := ParseNode(i.kind, i.rest, i.line, i.nodeLine, depth, o);
    if n.Null? || n.Failed? {
      return;
    }
    var more := done + [if n.Leaf? then n.node else Element(n.name, n.attrs, n.children)];
    TracksThen(t, line, i.rest, i.line, n.rest, n.line);
    NodesRight(n.rest, n.line, depth, isDocument, more, o);
    var later := NodesMarks(n.rest, n.line, depth, isDocument, more, o);
    RightLater(t, line, n.rest, n.line, later);
    AllRightConcat(t, line, [Mark(TrimLeft(t), i.nodeLine)] + inner, later);
  }

  lemma NoMarks(t: string, line: nat)
    ensures AllRight(t, line, [])
  {
  }

  lemma OneMark(t: string, line: nat, m: Mark)
    requires Right(t, line, m)
    ensures AllRight(t, line, [m])
  {
  }

  lemma {:induction false} NodeRight(kind: Kind, t: string, line: nat, nodeLine: nat, depth: nat, o: Options)
    requires depth < MAX_ELEMENT_DEPTH
    ensures AllRight(t, line, NodeMarks(kind, t, line, nodeLine, depth, o))
    decreases |t|, 1
  {
    hide Right;
    if kind == ElementKind { ElementRight(t, line, nodeLine, depth, o); }
  }

  lemma {:induction false} ElementRight(t: string, line: nat, nodeLine: nat, depth: nat, o: Options)
    requires depth < MAX_ELEMENT_DEPTH
    ensures AllRight(t, line, ElementMarks(t, line, nodeLine, depth, o))
    decreases |t|, 0
  {
    hide Tracks, Right, ReadTag, NodesMarks;
    var tag := ReadTag(t, line, nodeLine, o);
    if tag.Tag? && !AtEnd(tag.rest) && tag.closing == Open && depth + 1 != MAX_ELEMENT_DEPTH {
      TagTracks(t, line, nodeLine, o);
      NodesRight(tag.rest, tag.line, depth + 1, false, [], o);
      RightLater(t, line, tag.rest, tag.line, NodesMarks(tag.rest, tag.line, depth + 1, false, [], o));
    }
  }

  /** Where a document begins to be read. */
  lemma StartTracks(s: string)
    ensures var u := TrimLeft(s);
            Tracks(s, 1, SkipBOM(u), 1 + Lines(s, u))
  {
    hide Tracks, TrimLeft, Lines;
    var u := TrimLeft(s);
    TracksTrim(s, 1);
    if BOM <= u {
      assert u[..3] == BOM;
      TracksNoNewline(u, 1 + Lines(s, u), 3);
      TracksThen(s, 1, u, 1 + Lines(s, u), u[3..], 1 + Lines(s, u));
    }
  }

  /** In every parse, whether it ends well or not, each node made stands at a character that is not white space, and
      the line number recorded in it is 1 plus the newlines before that character. */
  lemma LinesAreRight(s: string, o: Options, i: nat)
    requires i < |Marks(s, o)|
    ensures var m := Marks(s, o)[i];
            && 0 < |m.left| <= |s| && m.left == s[|s| - |m.left|..]
            && m.left[0] != NUL && !IsWhiteSpace(m.left[0])
            && m.line == 1 + Newlines(s[..|s| - |m.left|])
  {
    hide NodesMarks, TrimLeft, Lines, SkipBOM;
    var u := TrimLeft(s);
    StartTracks(s);
    NodesRight(SkipBOM(u), 1 + Lines(s, u), 1, true, [], o);
    RightLater(s, 1, SkipBOM(u), 1 + Lines(s, u), Marks(s, o));
  }

  // ---- errors --------------------------------------------------------------------------------------------

  predicate IsKind(m: Mark, kind: Kind) {
    Header(m.left).0 == kind
  }

  /** Where the attributes of the tag at the mark begin, and on which line. */
  function AttrsOf(m: Mark): (string, nat)
    requires m.left != []
  {
    var u := TrimLeft(m.left[1..]);
    (DropName(if At(u, 0) == '/' then u[1..] else u), m.line + Lines(m.left[1..], u))
  }

  /** The loop over the attributes comes from `t`, having read `done`, to an attribute at `left`, having read `have`. */
  predicate ComesTo(t: string, line: nat, done: seq<Attr>, left: string, line': nat, have: seq<Attr>, o: Options)
    decreases |t|
  {
    var u := TrimLeft(t);
    var l := line + Lines(t, u);
    || (left == u && line' == l && have == done)
    || (u != [] && IsNameStartChar(u[0])
        && match ParseAttr(u, l, o)
           case NoAttr => false
           case SomeAttr(attr, rest, next) =>
             !HasAttr(done, attr.name) && ComesTo(rest, next, done + [attr], left, line', have, o))
  }

  /** The attribute at which the tag at the mark fails: the loop comes to `left` with the attributes `done`, and what
      begins there is no attribute, or one whose name is among them. */
  ghost predicate AttributeFails(m: Mark, left: string, done: seq<Attr>, e: Error, o: Options)
    requires m.left != []
  {
    && Tracks(m.left, m.line, left, e.line) && left != [] && IsNameStartChar(left[0])
    && ComesTo(AttrsOf(m).0, AttrsOf(m).1, [], left, e.line, done, o)
    && (ParseAttr(left, e.line, o).NoAttr? || HasAttr(done, ParseAttr(left, e.line, o).attr.name))
  }

  /** The node at the mark is the one that the error is about, and the line of the error is its own; that of an
      attribute error is the line of the first character of the attribute, and that of a depth error the line on which
      the tag ends. */
  ghost predicate Fails(m: Mark, e: Error, o: Options)
    requires m.left != []
  {
    match e.id
    case ParsingText => IsKind(m, TextKind) && FindTag(m.left, "<").None? && e.line == m.line
    case ParsingComment => IsKind(m, CommentKind) && FindTag(m.left[4..], "-->").None? && e.line == m.line
    case ParsingCData => IsKind(m, CDataKind) && FindTag(m.left[9..], "]]>").None? && e.line == m.line
    case ParsingUnknown => IsKind(m, UnknownKind) && FindTag(m.left[2..], ">").None? && e.line == m.line
    case ParsingDeclaration => IsKind(m, DeclarationKind) && e.line == m.line
    case ParsingElement =>
      IsKind(m, ElementKind) && ReadTag(m.left[1..], m.line, m.line, o) == TagFailed(e) && e.line == m.line
    case ParsingAttribute =>
      && IsKind(m, ElementKind) && ReadTag(m.left[1..], m.line, m.line, o) == TagFailed(e)
      && exists left, done :: AttributeFails(m, left, done, e, o)
    case ElementDepthExceeded =>
      && IsKind(m, ElementKind)
      && var tag := ReadTag(m.left[1..], m.line, m.line, o);
         tag.Tag? && tag.closing == Open && !AtEnd(tag.rest) && Tracks(m.left, m.line, tag.rest, e.line)
    case MismatchedElement => IsKind(m, ElementKind) && e.line == m.line && exists depth :: EndsBadly(m, depth, o)
    case Parsing => e.line == m.line && exists depth :: RunsOut(m, depth, o)
    case EmptyDocument => false
  }

  /** The element at the mark has another's end tag, or one it should not have, or none. */
  predicate EndsBadly(m: Mark, depth: nat, o: Options)
    requires m.left != []
  {
    var r := ParseElement(m.left[1..], m.line, m.line, depth, o);
    r.Elem? && r.closing != IsClosing && r.endTag != if r.closing == Open then Some(r.name) else None
  }

  /** The element at the mark has no name, or its children end with the text; or the text at the mark is followed by
      nothing but a `<`. */
  predicate RunsOut(m: Mark, depth: nat, o: Options)
    requires m.left != []
  {
    || (IsKind(m, ElementKind) && ParseElement(m.left[1..], m.line, m.line, depth, o).Null?)
    || (IsKind(m, TextKind) && FindTag(m.left, "<").Some? && At(m.left, FindTag(m.left, "<").value + 1) == NUL)
  }

  /** One of the nodes made fails with this error; unless it is an element whose children have been read, it is the
      last node made. */
  ghost predicate Located(e: Error, ms: seq<Mark>, o: Options) {
    exists i | 0 <= i < |ms| ::
      ms[i].left != [] && Fails(ms[i], e, o) && (e.id != MismatchedElement && e.id != Parsing ==> i == |ms| - 1)
  }

  lemma LocatedLater(e: Error, before: seq<Mark>, ms: seq<Mark>, o: Options)
    requires Located(e, ms, o)
    ensures Located(e, before + ms, o)
  {
    hide Fails;
    var i :| 0 <= i < |ms| && ms[i].left != [] && Fails(ms[i], e, o)
             && (e.id != MismatchedElement && e.id != Parsing ==> i == |ms| - 1);
    assert (before + ms)[|before| + i] == ms[i];
  }

  lemma LocatedHere(e: Error, m: Mark, ms: seq<Mark>, o: Options)
    requires m.left != [] && Fails(m, e, o)
    requires ms == [] || e.id == MismatchedElement || e.id == Parsing
    ensures Located(e, [m] + ms, o)
  {
    hide Fails;
    assert ([m] + ms)[0] == m;
  }

  /** The loop over the attributes fails where it says. */
  lemma {:induction false} AttributesError(t: string, line: nat, elementLine: nat, done: seq<Attr>, o: Options)
    returns (left: string, have: seq<Attr>)
    ensures var r := ParseAttributes(t, line, elementLine, done, o);
            r.AttrsFailed? ==>
              if r.error.id == ParsingAttribute then
                && Tracks(t, line, left, r.error.line) && left != [] && IsNameStartChar(left[0])
                && ComesTo(t, line, done, left, r.error.line, have, o)
                && (ParseAttr(left, r.error.line, o).NoAttr? || HasAttr(have, ParseAttr(left, r.error.line, o).attr.name))
              else r.error == Error(ParsingElement, elementLine)
    decreases |t|
  {
    hide Tracks, Lines, TrimLeft, ParseAttr, HasAttr;
    var u := TrimLeft(t);
    var l := line + Lines(t, u);
    TracksTrim(t, line);
    left, have := u, done;
    if !AtEnd(u) && IsNameStartChar(u[0]) {
      var a := ParseAttr(u, l, o);
      AttrTracks(u, l, o);
      if a.SomeAttr? && !HasAttr(done, a.attr.name) {
        TracksThen(t, line, u, l, a.rest, a.line);
        left, have := AttributesError(a.rest, a.line, elementLine, done + [a.attr], o);
        var r := ParseAttributes(a.rest, a.line, elementLine, done + [a.attr], o);
        if r.AttrsFailed? && r.error.id == ParsingAttribute {
          TracksThen(t, line, a.rest, a.line, left, r.error.line);
        }
      }
    }
  }

  /** The attributes of a tag begin after its name. */
  lemma AttrsTrack(m: Mark)
    requires "<" <= m.left
    ensures Tracks(m.left, m.line, AttrsOf(m).0, AttrsOf(m).1)
  {
    hide Tracks, Lines, TrimLeft, DropName;
    var t := m.left[1..];
    var u := TrimLeft(t);
    var line := m.line + Lines(t, u);
    TracksChar(m.left, m.line);
    TracksTrim(t, m.line);
    TracksThen(m.left, m.line, t, m.line, u, line);
    var v := if At(u, 0) == '/' then u[1..] else u;
    if At(u, 0) == '/' {
      TracksChar(u, line);
      TracksThen(m.left, m.line, u, line, v, line);
    }
    TracksName(v, line);
    TracksThen(m.left, m.line, v, line, DropName(v), line);
  }

  lemma TagReads(m: Mark, o: Options)
    requires m.left != []
    ensures var r := ReadTag(m.left[1..], m.line, m.line, o);
            r.TagFailed? ==> ParseAttributes(AttrsOf(m).0, AttrsOf(m).1, m.line, [], o) == AttrsFailed(r.error)
  {
    hide Lines, TrimLeft, DropName, TakeName, ParseAttributes;
  }

  /** A tag fails at its node, or at one of its attributes. */
  lemma TagError(m: Mark, o: Options)
    requires "<" <= m.left && IsKind(m, ElementKind)
    ensures var r := ReadTag(m.left[1..], m.line, m.line, o);
            r.TagFailed? ==> Fails(m, r.error, o) && (r.error.id == ParsingElement || r.error.id == ParsingAttribute)
  {
    hide Tracks, ReadTag, ParseAttributes, ParseAttr, HasAttr, Header, AttrsOf, ComesTo;
    var r := ReadTag(m.left[1..], m.line, m.line, o);
    if r.TagFailed? {
      var (t, line) := AttrsOf(m);
      AttrsTrack(m);
      TagReads(m, o);
      var left, done := AttributesError(t, line, m.line, [], o);
      if r.error.id == ParsingAttribute {
        TracksThen(m.left, m.line, t, line, left, r.error.line);
        assert AttributeFails(m, left, done, r.error, o);
      }
    }
  }

  /** An element fails at its tag, or at one of the nodes below it. */
  lemma {:induction false} ElementError(m: Mark, depth: nat, o: Options)
    requires depth < MAX_ELEMENT_DEPTH && "<" <= m.left && IsKind(m, ElementKind)
    ensures var r := ParseElement(m.left[1..], m.line, m.line, depth, o);
            r.Failed? ==>
              Located(r.error, [m] + ElementMarks(m.left[1..], m.line, m.line, depth, o), o)
    decreases |m.left| - 1, 0
  {
    hide Tracks, Fails, Located, ReadTag, ParseNodes, NodesMarks, IsKind;
    var t, line := m.left[1..], m.line;
    var r, inner := ParseElement(t, line, line, depth, o), ElementMarks(t, line, line, depth, o);
    var tag := ReadTag(t, line, line, o);
    if r.Failed? {
      if tag.TagFailed? {
        TagError(m, o);
        LocatedHere(r.error, m, inner, o);
      } else if depth + 1 == MAX_ELEMENT_DEPTH {
        DepthFails(m, depth, o);
        LocatedHere(r.error, m, inner, o);
      } else {
        NodesError(tag.rest, tag.line, depth + 1, false, [], o);
        LocatedLater(r.error, [m], inner, o);
      }
    }
  }

  lemma DepthFails(m: Mark, depth: nat, o: Options)
    requires "<" <= m.left && IsKind(m, ElementKind)
    ensures var tag := ReadTag(m.left[1..], m.line, m.line, o);
            tag.Tag? && tag.closing == Open && !AtEnd(tag.rest) ==> Fails(m, Error(ElementDepthExceeded, tag.line), o)
  {
    hide Tracks, ReadTag, IsKind;
    var t := m.left[1..];
    var tag := ReadTag(t, m.line, m.line, o);
    if tag.Tag? {
      TagTracks(t, m.line, m.line, o);
      TracksChar(m.left, m.line);
      TracksThen(m.left, m.line, t, m.line, tag.rest, tag.line);
    }
  }

  /** A `<` is found at the same place when white space before the text is left out. */
  lemma {:induction false} FoundAfterSpace(t: string)
    ensures var u := TrimLeft(t);
            match FindTag(t, "<")
            case None => FindTag(u, "<").None?
            case Some(n) =>
              FindTag(u, "<").Some? && n == FindTag(u, "<").value + |t| - |u|
              && At(u, FindTag(u, "<").value + 1) == At(t, n + 1)
  {
    if t != [] && IsWhiteSpace(t[0]) {
      FoundAfterSpace(t[1..]);
    }
  }

  /** The node at the mark, when its kind is not that of an element. */
  lemma LeafError(t: string, line: nat, depth: nat, o: Options)
    requires Identify(t, line).Found? && Identify(t, line).kind != ElementKind
    ensures var f, m := Identify(t, line), Mark(TrimLeft(t), Identify(t, line).nodeLine);
            var r := ParseNode(f.kind, f.rest, f.line, f.nodeLine, depth, o);
            && m.left != [] && !r.Elem?
            && (r.Failed? ==> Fails(m, r.error, o) && r.error.id != MismatchedElement)
            && (r.Null? ==> Fails(m, Error(Parsing, m.line), o))
            && (r.Leaf? && r.node.Declaration? ==> Fails(m, Error(ParsingDeclaration, m.line), o))
  {
    hide FindTag, Value, Newlines, Lines, TrimLeft;
    var f, m := Identify(t, line), Mark(TrimLeft(t), Identify(t, line).nodeLine);
    if f.kind == TextKind {
      FoundAfterSpace(t);
      assert FindTag(m.left, "<").Some? && At(m.left, FindTag(m.left, "<").value + 1) == NUL ==> RunsOut(m, depth, o);
    } else {
      HeaderLength(m.left);
    }
  }

  lemma HeaderLength(u: string)
    ensures var (kind, n) := Header(u);
            && (kind == DeclarationKind ==> n == 2) && (kind == CommentKind ==> n == 4)
            && (kind == CDataKind ==> n == 9) && (kind == UnknownKind ==> n == 2)
            && (kind == ElementKind ==> n == 1 && "<" <= u)
  {
  }

  lemma ElementFound(t: string, line: nat)
    requires Identify(t, line).Found? && Identify(t, line).kind == ElementKind
    ensures var f, m := Identify(t, line), Mark(TrimLeft(t), Identify(t, line).nodeLine);
            "<" <= m.left && IsKind(m, ElementKind) && f.rest == m.left[1..] && f.line == f.nodeLine == m.line
    ensures |TrimLeft(t)| <= |t|
  {
    hide TrimLeft, Lines;
    HeaderLength(TrimLeft(t));
  }

  /** A turn of the loop that ends it with an error, at the node just made or below it. */
  lemma {:induction false} TurnError(t: string, line: nat, depth: nat, isDocument: bool, done: seq<Node>, o: Options)
    requires depth < MAX_ELEMENT_DEPTH && Identify(t, line).Found?
    ensures var f := Identify(t, line);
            var turn := NodesTurn(ParseNode(f.kind, f.rest, f.line, f.nodeLine, depth, o), f.nodeLine, isDocument, done);
            turn.Over? && turn.result.Stopped? ==>
              Located(turn.result.error,
                      [Mark(TrimLeft(t), f.nodeLine)] + NodeMarks(f.kind, f.rest, f.line, f.nodeLine, depth, o), o)
    decreases |t|, 1
  {
    hide Located, Identify, ParseElement, ElementMarks, TrimLeft, IsKind, FindTag, ParseNode;
    var f, m := Identify(t, line), Mark(TrimLeft(t), Identify(t, line).nodeLine);
    var r := ParseNode(f.kind, f.rest, f.line, f.nodeLine, depth, o);
    var inner := NodeMarks(f.kind, f.rest, f.line, f.nodeLine, depth, o);
    if f.kind != ElementKind {
      LeafError(t, line, depth, o);
      var turn := NodesTurn(r, f.nodeLine, isDocument, done);
      if turn.Over? && turn.result.Stopped? { LocatedHere(turn.result.error, m, inner, o); }
    } else {
      ElementFound(t, line);
      ElementParses(f.rest, m.line, depth, o);
      ElementError(m, depth, o);
      assert r.Null? ==> RunsOut(m, depth, o);
      if r.Elem? && r.closing != IsClosing && Mismatch(r.name, r.closing, r.endTag) {
        assert EndsBadly(m, depth, o);
        LocatedHere(Error(MismatchedElement, m.line), m, inner, o);
      } else if r.Null? {
        LocatedHere(Error(Parsing, m.line), m, inner, o);
      }
    }
  }

  lemma ElementParses(t: string, line: nat, depth: nat, o: Options)
    ensures ParseNode(ElementKind, t, line, line, depth, o) == ParseElement(t, line, line, depth, o)
    ensures NodeMarks(ElementKind, t, line, line, depth, o) == ElementMarks(t, line, line, depth, o)
    ensures !ParseElement(t, line, line, depth, o).Leaf?
  {
  }

  lemma {:induction false} NodesError(t: string, line: nat, depth: nat, isDocument: bool, done: seq<Node>, o: Options)
    requires depth < MAX_ELEMENT_DEPTH
    ensures var r := ParseNodes(t, line, depth, isDocument, done, o);
            r.Stopped? ==> Located(r.error, NodesMarks(t, line, depth, isDocument, done, o), o)
    decreases |t|, 2
  {
    hide Located, Identify, ParseNode, NodeMarks, ParseNodes, NodesMarks, TrimLeft, NodesTurn;
    if AtEnd(t) {
      NodesEnd(t, line, depth, isDocument, done, o);
      return;
    }
    NodesStep(t, line, depth, isDocument, done, o);
    var f := Identify(t, line);
    var r := ParseNodes(t, line, depth, isDocument, done, o);
    if f.NoNode? || !r.Stopped? {
      return;
    }
    TurnError(t, line, depth, isDocument, done, o);
    var here := [Mark(TrimLeft(t), f.nodeLine)] + NodeMarks(f.kind, f.rest, f.line, f.nodeLine, depth, o);
    var turn := NodesTurn(ParseNode(f.kind, f.rest, f.line, f.nodeLine, depth, o), f.nodeLine, isDocument, done);
    if turn.Further? {
      NodesError(turn.rest, turn.line, depth, isDocument, turn.done, o);
      LocatedLater(r.error, here, NodesMarks(turn.rest, turn.line, depth, isDocument, turn.done, o), o);
    }
  }

  /** A failed parse that is not of an empty document fails at one of the nodes it has made, whose line, that of one of
      its attributes, or that on which its tag ends is the line of the error; and all but two of the errors are about
      the last node made. */
  lemma ErrorLineIsRight(s: string, o: Options)
    requires Parse(s, o).NotParsed?
    ensures var e, ms := Parse(s, o).error, Marks(s, o);
            if AtEnd(s) || AtEnd(SkipBOM(TrimLeft(s))) then e == Error(EmptyDocument, 0)
            else
              exists i | 0 <= i < |ms| ::
                && ms[i].left != [] && Fails(ms[i], e, o)
                && (e.id != MismatchedElement && e.id != Parsing ==> i == |ms| - 1)
  {
    hide NodesMarks, ParseNodes, TrimLeft, Lines, SkipBOM, Fails;
    var u := TrimLeft(s);
    if !AtEnd(s) && !AtEnd(SkipBOM(u)) {
      var e, ms := Parse(s, o).error, Marks(s, o);
      NodesError(SkipBOM(u), 1 + Lines(s, u), 1, true, [], o);
      assert Located(e, ms, o);
      var i :| 0 <= i < |ms| && ms[i].left != [] && Fails(ms[i], e, o)
               && (e.id != MismatchedElement && e.id != Parsing ==> i == |ms| - 1);
    }
  }

  /** So the line is 1 plus the newlines before some place of the text, at or after that node. */
  lemma ErrorPlace(s: string, o: Options)
    requires Parse(s, o).NotParsed? && !AtEnd(s) && !AtEnd(SkipBOM(TrimLeft(s)))
    ensures exists n: nat | n <= |s| :: Parse(s, o).error.line == 1 + Newlines(s[..n])
  {
    hide Parse, Marks, SkipBOM, TrimLeft, Tracks, Fails;
    var e, ms := Parse(s, o).error, Marks(s, o);
    ErrorLineIsRight(s, o);
    var i :| 0 <= i < |ms| && ms[i].left != [] && Fails(ms[i], e, o);
    LinesAreRight(s, o, i);
    MarkTracks(s, ms[i]);
    var left := FailsAt(ms[i], e, o);
    TracksThen(s, 1, ms[i].left, ms[i].line, left, e.line);
    LineOfPlace(s, left, e.line);
  }

  lemma MarkTracks(s: string, m: Mark)
    requires |m.left| <= |s| && m.left == s[|s| - |m.left|..] && m.line == 1 + Newlines(s[..|s| - |m.left|])
    ensures Tracks(s, 1, m.left, m.line)
  {
  }

  lemma FailsAt(m: Mark, e: Error, o: Options) returns (left: string)
    requires m.left != [] && Fails(m, e, o)
    ensures Tracks(m.left, m.line, left, e.line)
  {
    hide Tracks, ReadTag, ParseAttributes, ParseAttr, FindTag, ComesTo, AttrsOf;
    left := m.left;
    TracksDrop(m.left, m.line, 0);
    assert m.left[..0] == [] && m.left[0..] == m.left;
    if e.id == ParsingAttribute {
      var l, done :| AttributeFails(m, l, done, e, o);
      left := l;
    } else if e.id == ElementDepthExceeded {
      left := ReadTag(m.left[1..], m.line, m.line, o).rest;
    }
  }

  lemma LineOfPlace(s: string, left: string, line: nat)
    requires Tracks(s, 1, left, line)
    ensures exists n: nat | n <= |s| :: line == 1 + Newlines(s[..n])
  {
    var n: nat := |s| - |left|;
    assert line == 1 + Newlines(s[..n]);
  }
}
