/** What every parse keeps: the line number counts the newlines read, and a tree that is returned has
    valid names, distinct attributes, declarations first, no adjacent texts, and bounded nesting. */
module XmlParsed {
  import opened Wrappers
  import opened XmlUtil
  import opened StrPairs
  import opened GetStr
  import opened XmlTree
  import opened XmlParser
  import opened XmlReadable

  // ---- Lines -----------------------------------------------------------------------------------------

  /** `rest` is what is left of `t`, and the line number has counted the newlines of what was read. */
  predicate Tracks(t: string, line: nat, rest: string, line': nat) {
    |rest| <= |t| && rest == t[|t| - |rest|..] && line' == line + Newlines(t[..|t| - |rest|])
  }

  lemma TracksThen(t: string, line: nat, u: string, mid: nat, v: string, end: nat)
    requires Tracks(t, line, u, mid) && Tracks(u, mid, v, end)
    ensures Tracks(t, line, v, end)
  {
    var m, n := |t| - |u|, |u| - |v|;
    assert t[..m + n] == t[..m] + u[..n];
    NewlinesConcat(t[..m], u[..n]);
    assert v == t[m + n..];
  }

  lemma TracksDrop(t: string, line: nat, n: nat)
    requires n <= |t|
    ensures Tracks(t, line, t[n..], line + Newlines(t[..n]))
  {
  }

  lemma TracksNoNewline(t: string, line: nat, n: nat)
    requires n <= |t| && LF !in t[..n]
    ensures Tracks(t, line, t[n..], line)
  {
    NoNewlines(t[..n]);
  }

  lemma {:induction false} NoNewlines(t: string)
    requires LF !in t
    ensures Newlines(t) == 0
  {
    if t != [] {
      assert t[|t| - 1] in t;
      NoNewlines(t[..|t| - 1]);
    }
  }

  lemma {:induction false} TracksTrim(t: string, line: nat)
    ensures Tracks(t, line, TrimLeft(t), line + Lines(t, TrimLeft(t)))
  {
    TrimLeftIsSuffix(t);
  }

  lemma {:induction false} NameSplits(t: string)
    ensures TakeName(t) + DropName(t) == t && LF !in TakeName(t)
  {
    if t != [] && IsNameChar(t[0]) {
      NameSplits(t[1..]);
    }
  }

  lemma {:induction false} NameChars(t: string)
    ensures forall i | 0 <= i < |TakeName(t)| :: IsNameChar(TakeName(t)[i])
  {
    if t != [] && IsNameChar(t[0]) {
      NameChars(t[1..]);
    }
  }

  lemma TracksName(t: string, line: nat)
    ensures Tracks(t, line, DropName(t), line)
  {
    hide TakeName, DropName, Tracks;
    var name, rest := TakeName(t), DropName(t);
    NameSplits(t);
    assert t[..|name|] == name && t[|name|..] == rest;
    TracksNoNewline(t, line, |name|);
  }

  /** XMLDocument::Identify: the recorded line of a node is the line of its first character that is not
      white space, also when text is backed up to before its white space. */
  lemma IdentifyTracks(t: string, line: nat)
    ensures var r := Identify(t, line);
            r.Found? ==>
              && Tracks(t, line, r.rest, r.line)
              && Tracks(t, line, TrimLeft(t), r.nodeLine)
              && !AtEnd(TrimLeft(t)) && !IsWhiteSpace(TrimLeft(t)[0])
  {
    hide Tracks, Header, Lines;
    var u := TrimLeft(t);
    var l := line + Lines(t, u);
    TracksTrim(t, line);
    if !AtEnd(u) {
      var n := Header(u).1;
      HeaderHasNoNewline(u);
      TracksNoNewline(u, l, n);
      TracksThen(t, line, u, l, u[n..], l);
      TracksDrop(t, line, 0);
      assert t[..0] == [] && t[0..] == t;
    }
  }

  lemma HeaderHasNoNewline(u: string)
    ensures LF !in u[..Header(u).1]
  {
    var n := Header(u).1;
    if "<?" <= u { assert u[..n] == "<?"; }
    else if "<!--" <= u { assert u[..n] == "<!--"; }
    else if "<![CDATA[" <= u { assert u[..n] == "<![CDATA["; }
    else if "<!" <= u { assert u[..n] == "<!"; }
    else if "<" <= u { assert u[..n] == "<"; }
  }

  lemma {:induction false} FindTagFinds(t: string, tag: string)
    requires IsTag(tag)
    ensures FindTag(t, tag).Some? ==> tag <= t[FindTag(t, tag).value..]
  {
    if !AtEnd(t) && !(tag <= t) {
      FindTagFinds(t[1..], tag);
      var r := FindTag(t[1..], tag);
      assert r.Some? ==> t[1..][r.value..] == t[r.value + 1..];
    } else {
      assert t[0..] == t;
    }
  }

  /** A text ended by a tag without newlines. */
  lemma TracksTag(t: string, line: nat, tag: string)
    requires IsTag(tag) && LF !in tag && FindTag(t, tag).Some?
    ensures var n := FindTag(t, tag).value;
            Tracks(t, line, t[n..], line + Newlines(t[..n]))
            && Tracks(t, line, t[n + |tag|..], line + Newlines(t[..n]))
  {
    var n := FindTag(t, tag).value;
    FindTagFinds(t, tag);
    TracksDrop(t, line, n);
    assert t[n..][..|tag|] == tag && t[n..][|tag|..] == t[n + |tag|..];
    TracksNoNewline(t[n..], line + Newlines(t[..n]), |tag|);
    TracksThen(t, line, t[n..], line + Newlines(t[..n]), t[n + |tag|..], line + Newlines(t[..n]));
  }

  lemma TracksChar(t: string, line: nat)
    requires t != [] && t[0] != LF
    ensures Tracks(t, line, t[1..], line)
  {
    assert t[..1] == [t[0]];
    TracksNoNewline(t, line, 1);
  }

  /** From one character other than a newline, over it and the white space after it. */
  lemma TracksCharTrim(t: string, line: nat)
    requires t != [] && t[0] != LF
    ensures Tracks(t, line, TrimLeft(t[1..]), line + Lines(t[1..], TrimLeft(t[1..])))
  {
    hide Tracks, Lines, TrimLeft;
    var u := t[1..];
    TracksChar(t, line);
    TracksTrim(u, line);
    TracksThen(t, line, u, line, TrimLeft(u), line + Lines(u, TrimLeft(u)));
  }

  /** Over an opening quote, the text and the closing quote. */
  lemma TracksQuoted(t: string, line: nat, n: nat)
    requires t != [] && (t[0] == '\"' || t[0] == '\'') && FindTag(t[1..], [t[0]]) == Some(n)
    ensures Tracks(t, line, t[1..][n + 1..], line + Newlines(t[1..][..n]))
  {
    hide Tracks, FindTag;
    var u := t[1..];
    TracksChar(t, line);
    TracksTag(u, line, [t[0]]);
    TracksThen(t, line, u, line, u[n + 1..], line + Newlines(u[..n]));
  }

  lemma TracksNameTrim(t: string, line: nat)
    ensures Tracks(t, line, TrimLeft(DropName(t)), line + Lines(DropName(t), TrimLeft(DropName(t))))
  {
    hide Tracks, Lines, TrimLeft, DropName;
    var u := DropName(t);
    TracksName(t, line);
    TracksTrim(u, line);
    TracksThen(t, line, u, line, TrimLeft(u), line + Lines(u, TrimLeft(u)));
  }

  lemma ValidNameTaken(t: string)
    requires t != [] && IsNameStartChar(t[0])
    ensures ValidName(TakeName(t))
  {
    NameChars(t);
  }

  lemma AttrTracks(t: string, line: nat, o: Options)
    ensures var r := ParseAttr(t, line, o);
            r.SomeAttr? ==> Tracks(t, line, r.rest, r.line) && ValidName(r.attr.name)
  {
    hide Tracks, Lines, TrimLeft, FindTag, Value, DropName, TakeName, ValidName, Newlines;
    var result := ParseAttr(t, line, o);
    if result.SomeAttr? {
      ValidNameTaken(t);
      TracksNameTrim(t, line);
      var u := TrimLeft(DropName(t));
      var l := line + Lines(DropName(t), u);
      TracksCharTrim(u, l);
      var v := TrimLeft(u[1..]);
      var l' := l + Lines(u[1..], v);
      TracksThen(t, line, u, l, v, l');
      var n := FindTag(v[1..], [v[0]]).value;
      TracksQuoted(v, l', n);
      TracksThen(t, line, v, l', v[1..][n + 1..], l' + Newlines(v[1..][..n]));
    }
  }

  // ---- Trees -----------------------------------------------------------------------------------------

  lemma {:induction false} AttributesTrack(t: string, line: nat, elementLine: nat, done: seq<Attr>, o: Options)
    requires ReadableAttrs(done)
    ensures var r := ParseAttributes(t, line, elementLine, done, o);
            r.Attrs? ==> Tracks(t, line, r.rest, r.line) && ReadableAttrs(r.attrs)
    decreases |t|
  {
    hide Tracks, Lines, TrimLeft, ParseAttr;
    var u := TrimLeft(t);
    var l := line + Lines(t, u);
    TracksTrim(t, line);
    if AtEnd(u) {
    } else if IsNameStartChar(u[0]) {
      var a := ParseAttr(u, l, o);
      AttrTracks(u, l, o);
      AttrReadable(u, l, o);
      if a.SomeAttr? && !HasAttr(done, a.attr.name) {
        TracksThen(t, line, u, l, a.rest, a.line);
        AttributesTrack(a.rest, a.line, elementLine, done + [a.attr], o);
        var r := ParseAttributes(a.rest, a.line, elementLine, done + [a.attr], o);
        if r.Attrs? {
          TracksThen(t, line, a.rest, a.line, r.rest, r.line);
        }
      }
    } else if u[0] == '>' {
      TracksChar(u, l);
      TracksThen(t, line, u, l, u[1..], l);
    } else if "/>" <= u {
      assert u[..2] == "/>";
      TracksNoNewline(u, l, 2);
      TracksThen(t, line, u, l, u[2..], l);
    }
  }

  predicate DeclarationsFirst(nodes: seq<Node>) {
    forall i, j | 0 <= i < j < |nodes| :: nodes[j].Declaration? ==> nodes[i].Declaration?
  }

  /** A node of a parsed tree, at parsing depth `depth`. */
  predicate NodeOk(n: Node, depth: nat)
    decreases n, 1
  {
    if n.Element? then
      && ValidName(n.name) && ReadableAttrs(n.attrs)
      && (n.children != [] ==> depth + 1 < MAX_ELEMENT_DEPTH)
      && TreeOk(n.children, depth + 1, false)
    else ReadableLeaf(n)
  }

  /** Children of a parsed document or element: declarations first, and only at the top; no two plain
      texts next to each other. */
  predicate TreeOk(nodes: seq<Node>, depth: nat, isDocument: bool)
    decreases nodes, 0
  {
    && (forall n | n in nodes :: NodeOk(n, depth))
    && DeclarationsFirst(nodes)
    && (!isDocument ==> forall n | n in nodes :: !n.Declaration?)
    && (forall i | 0 <= i < |nodes| - 1 :: !(IsPlainText(nodes[i]) && IsPlainText(nodes[i + 1])))
  }

  /** The check of the first and last child against the full scan it stands for. */
  lemma FirstAndLast(done: seq<Node>)
    requires DeclarationsFirst(done)
    ensures WellLocated(true, done) <==> forall d | d in done :: d.Declaration?
  {
    if done != [] && done[|done| - 1].Declaration? {
      forall d | d in done
        ensures d.Declaration?
      {
        var i :| 0 <= i < |done| && done[i] == d;
        assert i < |done| - 1 ==> done[i].Declaration?;
      }
    } else if done != [] {
      assert done[|done| - 1] in done;
    }
  }

  lemma TreeGrows(done: seq<Node>, n: Node, depth: nat, isDocument: bool)
    requires TreeOk(done, depth, isDocument) && NodeOk(n, depth)
    requires n.Declaration? ==> WellLocated(isDocument, done)
    requires IsPlainText(n) ==> done == [] || !IsPlainText(done[|done| - 1])
    ensures TreeOk(done + [n], depth, isDocument)
  {
    hide NodeOk;
    if n.Declaration? {
      FirstAndLast(done);
      assert forall i | 0 <= i < |done| :: done[i] in done;
    }
  }

  lemma LeafTracks(t: string, line: nat, tag: string, kind: Kind, error: Error)
    requires IsTag(tag) && LF !in tag
    ensures var r := ParseLeaf(t, line, tag, kind, error);
            r.Leaf? ==> Tracks(t, line, r.rest, r.line) && !r.node.Element?
  {
    hide Tracks, FindTag, Value, Newlines;
    if FindTag(t, tag).Some? {
      TracksTag(t, line, tag);
    }
  }

  lemma TextTracks(t: string, line: nat, nodeLine: nat, o: Options)
    ensures var r := XmlParser.ParseText(t, line, nodeLine, o);
            r.Leaf? ==> Tracks(t, line, r.rest, r.line) && IsPlainText(r.node) && At(r.rest, 0) == '<'
  {
    hide Tracks, FindTag, Value, Newlines;
    if FindTag(t, "<").Some? {
      TracksTag(t, line, "<");
      FindTagFinds(t, "<");
    }
  }

  /** No text begins like a comment or a CDATA section where Identify has found neither. */
  predicate Begins(kind: Kind, t: string) {
    kind == UnknownKind ==> !("--" <= t) && !("[CDATA[" <= t)
  }

  lemma LeafParsed(t: string, line: nat, tag: string, kind: Kind, error: Error)
    requires LeafTag(kind) == Some(tag) && Begins(kind, t)
    ensures IsTag(tag)
    ensures var r := ParseLeaf(t, line, tag, kind, error);
            && (r.Leaf? ==> Tracks(t, line, r.rest, r.line) && !r.node.Element? && ReadableLeaf(r.node))
            && (r.Leaf? ==> !IsPlainText(r.node))
  {
    hide Tracks, FindTag, Value, Newlines, ReadableLeaf;
    LeafTracks(t, line, tag, kind, error);
    LeafReadable(t, line, tag, kind, error);
  }

  /** The end tag of the kinds that are read verbatim. */
  function LeafTag(kind: Kind): Option<string> {
    match kind
    case DeclarationKind => Some("?>")
    case CommentKind => Some("-->")
    case CDataKind => Some("]]>")
    case UnknownKind => Some(">")
    case _ => None
  }

  /** Every node read: the line is tracked, the node is as NodeOk says, and plain text comes only from
      text and is ended by a tag. */
  lemma {:induction false} NodeParsed(kind: Kind, t: string, line: nat, nodeLine: nat, depth: nat, o: Options)
    requires depth < MAX_ELEMENT_DEPTH && Begins(kind, t)
    ensures var r := ParseNode(kind, t, line, nodeLine, depth, o);
            && (r.Leaf? ==> Tracks(t, line, r.rest, r.line) && !r.node.Element? && ReadableLeaf(r.node))
            && (r.Leaf? && IsPlainText(r.node) ==> kind == TextKind && At(r.rest, 0) == '<')
            && (r.Elem? ==> Tracks(t, line, r.rest, r.line) && NodeOk(Element(r.name, r.attrs, r.children), depth))
    decreases |t|, 1
  {
    hide Tracks, FindTag, Value, Newlines, NodeOk, ReadableLeaf, ParseLeaf, XmlParser.ParseText;
    match kind
    case DeclarationKind => LeafParsed(t, line, "?>", kind, Error(ParsingDeclaration, nodeLine));
    case CommentKind => LeafParsed(t, line, "-->", kind, Error(ParsingComment, nodeLine));
    case CDataKind => LeafParsed(t, line, "]]>", kind, Error(ParsingCData, nodeLine));
    case UnknownKind => LeafParsed(t, line, ">", kind, Error(ParsingUnknown, nodeLine));
    case TextKind => TextTracks(t, line, nodeLine, o); TextReadable(t, line, nodeLine, o);
    case ElementKind => ElementParsed(t, line, nodeLine, depth, o);
  }

  /** Over a tag: the line is tracked, and its attributes have valid and distinct names. */
  lemma TagTracks(t: string, line: nat, nodeLine: nat, o: Options)
    ensures var r := ReadTag(t, line, nodeLine, o);
            r.Tag? ==> Tracks(t, line, r.rest, r.line) && ValidName(r.name) && ReadableAttrs(r.attrs)
  {
    hide Tracks, Lines, TrimLeft, DropName, TakeName, ParseAttributes, ValidName, ReadableAttrs;
    if ReadTag(t, line, nodeLine, o).Tag? {
      var u := TrimLeft(t);
      var l := line + Lines(t, u);
      TracksTrim(t, line);
      var v := if At(u, 0) == '/' then u[1..] else u;
      if At(u, 0) == '/' {
        TracksChar(u, l);
        TracksThen(t, line, u, l, v, l);
      }
      ValidNameTaken(v);
      TracksName(v, l);
      TracksThen(t, line, v, l, DropName(v), l);
      NoAttrs();
      AttributesTrack(DropName(v), l, nodeLine, [], o);
      var a := ParseAttributes(DropName(v), l, nodeLine, [], o);
      TracksThen(t, line, DropName(v), l, a.rest, a.line);
    }
  }

  lemma NoAttrs()
    ensures ReadableAttrs([])
  {
  }

  lemma {:induction false} ElementParsed(t: string, line: nat, nodeLine: nat, depth: nat, o: Options)
    requires depth < MAX_ELEMENT_DEPTH
    ensures var r := ParseElement(t, line, nodeLine, depth, o);
            r.Elem? ==> Tracks(t, line, r.rest, r.line) && NodeOk(Element(r.name, r.attrs, r.children), depth)
    decreases |t|, 0
  {
    hide Tracks, ReadTag, ParseNodes, ValidName, ReadableAttrs;
    var r := ParseElement(t, line, nodeLine, depth, o);
    if r.Elem? {
      var tag := ReadTag(t, line, nodeLine, o);
      TagTracks(t, line, nodeLine, o);
      if r.endTag.Some? {
        NodesParsed(tag.rest, tag.line, depth + 1, false, [], o);
        TracksThen(t, line, tag.rest, tag.line, r.rest, r.line);
      }
    }
  }

  /** The loop over the children keeps TreeOk and the line count. */
  lemma {:induction false} NodesParsed(t: string, line: nat, depth: nat, isDocument: bool, done: seq<Node>, o: Options)
    requires depth < MAX_ELEMENT_DEPTH
    requires TreeOk(done, depth, isDocument)
    requires done != [] && IsPlainText(done[|done| - 1]) ==> At(t, 0) == '<'
    ensures var r := ParseNodes(t, line, depth, isDocument, done, o);
            && (!r.Stopped? ==> TreeOk(r.nodes, depth, isDocument))
            && (r.ClosedBy? ==> Tracks(t, line, r.rest, r.line))
    decreases |t|, 2
  {
    hide Tracks, Identify, ParseNode, TreeOk, NodeOk, ReadableLeaf, Begins;
    var i := Identify(t, line);
    if AtEnd(t) || i.NoNode? {
      return;
    }
    IdentifyTracks(t, line);
    IdentifyBegins(t, line);
    NodeParsed(i.kind, i.rest, i.line, i.nodeLine, depth, o);
    var n := ParseNode(i.kind, i.rest, i.line, i.nodeLine, depth, o);
    if n.Null? || n.Failed? {
      return;
    }
    TracksThen(t, line, i.rest, i.line, n.rest, n.line);
    var more := done;
    if n.Leaf? {
      LeafIsOk(n.node, depth);
      if n.node.Declaration? && !WellLocated(isDocument, done) {
        return;
      }
      TreeGrows(done, n.node, depth, isDocument);
      more := done + [n.node];
    } else {
      if n.closing == IsClosing || Mismatch(n.name, n.closing, n.endTag) {
        return;
      }
      TreeGrows(done, Element(n.name, n.attrs, n.children), depth, isDocument);
      more := done + [Element(n.name, n.attrs, n.children)];
    }
    NodesParsed(n.rest, n.line, depth, isDocument, more, o);
    var r := ParseNodes(n.rest, n.line, depth, isDocument, more, o);
    if r.ClosedBy? {
      TracksThen(t, line, n.rest, n.line, r.rest, r.line);
    }
  }

  lemma LeafIsOk(n: Node, depth: nat)
    requires !n.Element? && ReadableLeaf(n)
    ensures NodeOk(n, depth)
  {
  }

  lemma IdentifyBegins(t: string, line: nat)
    ensures Identify(t, line).Found? ==> Begins(Identify(t, line).kind, Identify(t, line).rest)
  {
    hide Identify;
    UnknownBegins(t, line);
  }

  /** Any successful parse yields such a tree. */
  lemma ParsedTree(s: string, o: Options)
    ensures Parse(s, o).Parsed? ==> TreeOk(Parse(s, o).children, 1, true)
  {
    hide ParseNodes, Lines, TrimLeft;
    var u := TrimLeft(s);
    NodesParsed(SkipBOM(u), 1 + Lines(s, u), 1, true, [], o);
  }
}
