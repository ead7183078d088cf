/** The slices of the text that a parsed tree keeps: one for each name, attribute value and text, in order. No two of
    them touch, their terminators included, and their values are the strings of the tree. */
module XmlSlices {
  import opened Wrappers
  import opened XmlUtil
  import opened StrPairs
  import opened GetStr
  import opened XmlTree
  import opened XmlParser
  import opened XmlMarks
  import opened XmlReadable
  import opened XmlParsed

  /** A slice, by how much of the text is left at its start and at its end, where its terminator goes. */
  datatype Slice = Slice(left: nat, right: nat, flags: Flags)

  const NAME := Flags(false, false, false)

  function Raw(s: string, m: Slice): string {
    if m.right <= m.left <= |s| then s[|s| - m.left..|s| - m.right] else []
  }

  /** What GetStr reports for the slices of an untouched text. */
  function Values(s: string, ms: seq<Slice>): (r: seq<string>)
    ensures |r| == |ms|
  {
    if ms == [] then [] else [Value(Raw(s, ms[0]), ms[0].flags)] + Values(s, ms[1..])
  }

  lemma {:induction false} ValuesConcat(s: string, a: seq<Slice>, b: seq<Slice>)
    ensures Values(s, a + b) == Values(s, a) + Values(s, b)
  {
    if a == [] {
      assert a + b == b;
    } else {
      assert (a + b)[1..] == a[1..] + b;
      ValuesConcat(s, a[1..], b);
    }
  }

  // ---- The slices --------------------------------------------------------------------------------------

  /** The name and the value of the attribute at the front of `t`. */
  function AttrSlices(t: string, line: nat, o: Options): seq<Slice>
    requires ParseAttr(t, line, o).SomeAttr?
  {
    var r := DropName(t);
    var v := TrimLeft(TrimLeft(r)[1..]);
    [Slice(|t|, |r|, NAME), Slice(|v| - 1, |v| - 1 - FindTag(v[1..], [v[0]]).value, AttrFlags(o))]
  }

  function AttributesSlices(t: string, line: nat, done: seq<Attr>, o: Options): seq<Slice>
    decreases |t|
  {
    var u := TrimLeft(t);
    var l := line + Lines(t, u);
    if u == [] || !IsNameStartChar(u[0]) then []
    else
      match ParseAttr(u, l, o)
      case NoAttr => []
      case SomeAttr(attr, rest, next) =>
        if HasAttr(done, attr.name) then [] else AttrSlices(u, l, o) + AttributesSlices(rest, next, done + [attr], o)
  }

  function TagSlices(t: string, line: nat, o: Options): seq<Slice> {
    var u := TrimLeft(t);
    var v := if At(u, 0) == '/' then u[1..] else u;
    [Slice(|v|, |DropName(v)|, NAME)] + AttributesSlices(DropName(v), line + Lines(t, u), [], o)
  }

  /** The end tag of a kind that is read up to one, and the flags of its text. */
  function TextEnd(kind: Kind): string {
    match kind
    case DeclarationKind => "?>"
    case CommentKind => "-->"
    case CDataKind => "]]>"
    case UnknownKind => ">"
    case _ => "<"
  }

  function LeafFlags(kind: Kind, o: Options): Flags {
    if kind == TextKind then TextFlags(o) else VERBATIM
  }

  function NodeSlices(kind: Kind, t: string, line: nat, nodeLine: nat, depth: nat, o: Options): seq<Slice>
    decreases |t|, 1
  {
    if kind == ElementKind then ElementSlices(t, line, nodeLine, depth, o)
    else
      match FindTag(t, TextEnd(kind))
      case None => []
      case Some(n) => [Slice(|t|, |t| - n, LeafFlags(kind, o))]
  }

  function ElementSlices(t: string, line: nat, nodeLine: nat, depth: nat, o: Options): seq<Slice>
    decreases |t|, 0
  {
    match ReadTag(t, line, nodeLine, o)
    case NoTag => []
    case TagFailed(_) => []
    case Tag(_, _, closing, rest, l) =>
      TagSlices(t, line, o)
      + if AtEnd(rest) || closing != Open || depth + 1 == MAX_ELEMENT_DEPTH then []
        else NodesSlices(rest, l, depth + 1, false, [], o)
  }

  /** Those of the nodes that the children loop inserts; a node that is deleted takes its slices with it. */
  function NodesSlices(t: string, line: nat, depth: nat, isDocument: bool, done: seq<Node>, o: Options): seq<Slice>
    decreases |t|, 2
  {
    if AtEnd(t) then []
    else
      match Identify(t, line)
      case NoNode => []
      case Found(kind, u, l, nodeLine) =>
        match NodesTurn(ParseNode(kind, u, l, nodeLine, depth, o), nodeLine, isDocument, done)
        case Over(_) => []
        case Further(rest, next, more) =>
          if |rest| < |t| then NodeSlices(kind, u, l, nodeLine, depth, o) + NodesSlices(rest, next, depth, isDocument, more, o)
          else []
  }

  /** The slices that the tree of a parsed text keeps. */
  function Slices(s: string, o: Options): seq<Slice> {
    var u := TrimLeft(s);
    NodesSlices(SkipBOM(u), 1 + Lines(s, u), 1, true, [], o)
  }

  // ---- The strings of a tree -----------------------------------------------------------------------------

  function AttrStrings(attrs: seq<Attr>): seq<string> {
    if attrs == [] then [] else AttrStrings(attrs[..|attrs| - 1]) + [attrs[|attrs| - 1].name, attrs[|attrs| - 1].value]
  }

  function NodeStrings(n: Node): seq<string>
    decreases n, 1
  {
    if n.Element? then [n.name] + AttrStrings(n.attrs) + Strings(n.children) else [n.text]
  }

  /** Its names, attribute values and texts, in document order. */
  function Strings(nodes: seq<Node>): seq<string>
    decreases nodes, 0
  {
    if nodes == [] then [] else NodeStrings(nodes[0]) + Strings(nodes[1..])
  }

  lemma {:induction false} StringsMore(nodes: seq<Node>, n: Node)
    ensures Strings(nodes + [n]) == Strings(nodes) + NodeStrings(n)
    decreases |nodes|
  {
    hide NodeStrings;
    if nodes == [] {
      assert [] + [n] == [n] && [n][1..] == [];
    } else {
      assert (nodes + [n])[1..] == nodes[1..] + [n];
      StringsMore(nodes[1..], n);
    }
  }

  // ---- Suffixes ------------------------------------------------------------------------------------------

  predicate IsSuffix(u: string, t: string) {
    |u| <= |t| && u == t[|t| - |u|..]
  }

  lemma SuffixOf(u: string, t: string, s: string)
    requires IsSuffix(u, t) && IsSuffix(t, s)
    ensures IsSuffix(u, s)
  {
  }

  lemma SuffixTracks(t: string, line: nat, u: string, line': nat, s: string)
    requires Tracks(t, line, u, line') && IsSuffix(t, s)
    ensures IsSuffix(u, s)
  {
  }

  lemma Dropped(t: string, n: nat, s: string)
    requires n <= |t| && IsSuffix(t, s)
    ensures IsSuffix(t[n..], s)
  {
  }

  /** The slice of the first `n` characters of what is left. */
  lemma RawOf(s: string, t: string, n: nat, f: Flags)
    requires IsSuffix(t, s) && n <= |t|
    ensures Raw(s, Slice(|t|, |t| - n, f)) == t[..n]
  {
  }

  lemma OneValue(s: string, m: Slice)
    ensures Values(s, [m]) == [Value(Raw(s, m), m.flags)]
  {
    assert [m][1..] == [];
  }

  lemma NameValue(s: string, t: string)
    requires IsSuffix(t, s)
    ensures |DropName(t)| <= |t| && IsSuffix(DropName(t), s)
    ensures Values(s, [Slice(|t|, |DropName(t)|, NAME)]) == [TakeName(t)]
  {
    hide TakeName, DropName, Raw, Values;
    var name, r := TakeName(t), DropName(t);
    NameSplits(t);
    NameChars(t);
    assert t[..|name|] == name && t[|name|..] == r;
    Dropped(t, |name|, s);
    RawOf(s, t, |name|, NAME);
    OneValue(s, Slice(|t|, |r|, NAME));
    assert forall i | 0 <= i < |name| :: name[i] != NUL;
    CStringWhole(name);
  }

  // ---- Order ---------------------------------------------------------------------------------------------

  /** The slices stand in order below `hi`, their terminators from `lo` up, and no slice begins before the terminator
      of the one before it has been passed. */
  predicate InOrder(ms: seq<Slice>, hi: nat, lo: nat) {
    && (forall i | 0 <= i < |ms| :: lo <= ms[i].right <= ms[i].left < hi)
    && (forall i, j | 0 <= i < j < |ms| :: ms[j].left < ms[i].right)
  }

  lemma OrderConcat(a: seq<Slice>, b: seq<Slice>, hi: nat, mid: nat, lo: nat)
    requires InOrder(a, hi, mid) && InOrder(b, mid, lo) && lo <= mid <= hi
    ensures InOrder(a + b, hi, lo)
  {
  }

  lemma OrderWider(ms: seq<Slice>, hi: nat, lo: nat, hi': nat, lo': nat)
    requires InOrder(ms, hi, lo) && hi <= hi' && lo' <= lo
    ensures InOrder(ms, hi', lo')
  {
  }

  // ---- Attributes ----------------------------------------------------------------------------------------

  /** The two slices of an attribute. */
  lemma AttrRead(s: string, t: string, line: nat, o: Options)
    requires IsSuffix(t, s) && ParseAttr(t, line, o).SomeAttr?
    ensures var r := ParseAttr(t, line, o);
            && IsSuffix(r.rest, s) && InOrder(AttrSlices(t, line, o), |t| + 1, |r.rest| + 1)
            && Values(s, AttrSlices(t, line, o)) == [r.attr.name, r.attr.value]
  {
    hide TakeName, DropName, TrimLeft, FindTag, Value, Values, Raw, IsSuffix, Newlines, Lines;
    var r := DropName(t);
    NameValue(s, t);
    var u := TrimLeft(r);
    TrimSuffix(r, s);
    DroppedFrom(u, 1, s);
    var v := TrimLeft(u[1..]);
    TrimSuffix(u[1..], s);
    DroppedFrom(v, 1, s);
    var body := v[1..];
    var n := FindTag(body, [v[0]]).value;
    DroppedFrom(body, n + 1, s);
    RawOf(s, body, n, AttrFlags(o));
    var a, b := Slice(|t|, |r|, NAME), Slice(|v| - 1, |v| - 1 - n, AttrFlags(o));
    OneValue(s, b);
    ValuesConcat(s, [a], [b]);
    assert AttrSlices(t, line, o) == [a] + [b];
    assert Values(s, AttrSlices(t, line, o)) == [TakeName(t)] + [Value(body[..n], AttrFlags(o))];
  }

  lemma TrimSuffix(t: string, s: string)
    requires IsSuffix(t, s)
    ensures |TrimLeft(t)| <= |t| && IsSuffix(TrimLeft(t), s)
  {
    TrimLeftIsSuffix(t);
  }

  lemma DroppedFrom(t: string, n: nat, s: string)
    requires n <= |t| && IsSuffix(t, s)
    ensures IsSuffix(t[n..], s)
  {
    Dropped(t, n, s);
  }

  lemma AttrStringsMore(done: seq<Attr>, a: Attr)
    ensures AttrStrings(done + [a]) == AttrStrings(done) + [a.name, a.value]
  {
    assert (done + [a])[..|done|] == done;
  }

  /** How far up the attributes at the front of `t` can begin. */
  function AttrsTop(t: string): (n: nat)
    ensures |t| <= n <= |t| + 1
  {
    if t != [] && IsNameStartChar(t[0]) then |t| + 1 else |t|
  }

  lemma TopOfTrimmed(t: string)
    ensures var u := TrimLeft(t);
            |u| <= |t| && (u != [] && IsNameStartChar(u[0]) ==> |u| + 1 <= AttrsTop(t))
  {
  }

  lemma NothingInOrder(hi: nat, lo: nat)
    ensures InOrder([], hi, lo)
  {
  }

  /** One turn of the loop, if it reads an attribute. */
  lemma AttributesStep(t: string, line: nat, elementLine: nat, done: seq<Attr>, o: Options)
    ensures var u := TrimLeft(t);
            var l := line + Lines(t, u);
            var p := ParseAttr(u, l, o);
            if u != [] && IsNameStartChar(u[0]) && p.SomeAttr? && !HasAttr(done, p.attr.name) then
              && AttributesSlices(t, line, done, o)
                 == AttrSlices(u, l, o) + AttributesSlices(p.rest, p.line, done + [p.attr], o)
              && ParseAttributes(t, line, elementLine, done, o)
                 == ParseAttributes(p.rest, p.line, elementLine, done + [p.attr], o)
            else
              && AttributesSlices(t, line, done, o) == []
              && var r := ParseAttributes(t, line, elementLine, done, o);
                 r.Attrs? ==> r.attrs == done && u != [] && (r.rest == u[1..] || (|u| > 1 && r.rest == u[2..]))
  {
    hide TrimLeft, ParseAttr, HasAttr, Lines, AttrSlices;
    NameStarts();
  }

  lemma NameStarts()
    ensures !IsNameStartChar(NUL) && !IsNameStartChar('>') && !IsNameStartChar('/')
  {
  }

  lemma {:induction false} AttributesRead(s: string, t: string, line: nat, elementLine: nat, done: seq<Attr>, o: Options)
    requires IsSuffix(t, s)
    ensures InOrder(AttributesSlices(t, line, done, o), AttrsTop(t), 0)
    ensures var r := ParseAttributes(t, line, elementLine, done, o);
            r.Attrs? ==>
              && IsSuffix(r.rest, s) && InOrder(AttributesSlices(t, line, done, o), AttrsTop(t), |r.rest| + 1)
              && AttrStrings(r.attrs) == AttrStrings(done) + Values(s, AttributesSlices(t, line, done, o))
    decreases |t|
  {
    hide TrimLeft, ParseAttr, HasAttr, Lines, IsSuffix, Values, AttrStrings, AttrSlices, AttributesSlices,
      ParseAttributes, InOrder, AttrsTop;
    var u := TrimLeft(t);
    var l := line + Lines(t, u);
    TrimSuffix(t, s);
    TopOfTrimmed(t);
    AttributesStep(t, line, elementLine, done, o);
    var p := ParseAttr(u, l, o);
    if u != [] && IsNameStartChar(u[0]) && p.SomeAttr? && !HasAttr(done, p.attr.name) {
      var first, more := AttrSlices(u, l, o), AttributesSlices(p.rest, p.line, done + [p.attr], o);
      AttrRead(s, u, l, o);
      AttributesRead(s, p.rest, p.line, elementLine, done + [p.attr], o);
      AttrStringsMore(done, p.attr);
      ValuesConcat(s, first, more);
      var mid := |p.rest| + 1;
      OrderWider(first, |u| + 1, mid, AttrsTop(t), mid);
      OrderWider(more, AttrsTop(p.rest), 0, mid, 0);
      OrderConcat(first, more, AttrsTop(t), mid, 0);
      var r := ParseAttributes(p.rest, p.line, elementLine, done + [p.attr], o);
      if r.Attrs? {
        OrderWider(more, AttrsTop(p.rest), |r.rest| + 1, mid, |r.rest| + 1);
        OrderConcat(first, more, AttrsTop(t), mid, |r.rest| + 1);
      }
    } else {
      NothingInOrder(AttrsTop(t), 0);
      NoValues(s, AttrStrings(done));
      var r := ParseAttributes(t, line, elementLine, done, o);
      if r.Attrs? {
        NothingInOrder(AttrsTop(t), |r.rest| + 1);
        if r.rest == u[1..] { DroppedFrom(u, 1, s); } else { DroppedFrom(u, 2, s); }
      }
    }
  }

  lemma NoValues(s: string, before: seq<string>)
    ensures before + Values(s, []) == before
  {
  }

  // ---- Nodes ---------------------------------------------------------------------------------------------

  /** The name and the attributes of a tag. */
  lemma TagReadSlices(s: string, t: string, line: nat, nodeLine: nat, o: Options)
    requires IsSuffix(t, s)
    ensures var r := ReadTag(t, line, nodeLine, o);
            r.Tag? ==>
              && IsSuffix(r.rest, s) && InOrder(TagSlices(t, line, o), |t| + 1, |r.rest| + 1)
              && [r.name] + AttrStrings(r.attrs) == Values(s, TagSlices(t, line, o))
  {
    hide TrimLeft, DropName, TakeName, ParseAttributes, AttributesSlices, Lines, IsSuffix, Values, AttrStrings, InOrder;
    var r := ReadTag(t, line, nodeLine, o);
    if r.Tag? {
      var u := TrimLeft(t);
      TrimSuffix(t, s);
      var v := if At(u, 0) == '/' then u[1..] else u;
      if At(u, 0) == '/' { DroppedFrom(u, 1, s); }
      NameValue(s, v);
      var w, l := DropName(v), line + Lines(t, u);
      NameEnds(v);
      AttributesRead(s, w, l, nodeLine, [], o);
      var name, more := Slice(|v|, |w|, NAME), AttributesSlices(w, l, [], o);
      NoAttrStrings(Values(s, more));
      ValuesConcat(s, [name], more);
      NameInOrder(name, |t| + 1);
      OrderConcat([name], more, |t| + 1, |w|, |r.rest| + 1);
    }
  }

  lemma NameInOrder(name: Slice, hi: nat)
    requires name.right <= name.left < hi
    ensures InOrder([name], hi, name.right)
  {
  }

  /** No name follows a name at once. */
  lemma NameEnds(v: string)
    ensures AttrsTop(DropName(v)) == |DropName(v)|
  {
  }

  lemma NoAttrStrings(more: seq<string>)
    ensures AttrStrings([]) + more == more
  {
  }

  /** Where the slices of the nodes at the front of `t` can begin: a `<` there belongs to none. */
  function Top(t: string): (n: nat)
    ensures |t| <= n <= |t| + 1
  {
    if At(t, 0) == '<' then |t| else |t| + 1
  }

  lemma OneInOrder(m: Slice, hi: nat, lo: nat)
    requires lo <= m.right <= m.left < hi
    ensures InOrder([m], hi, lo)
  {
  }

  /** The slice of the first `n` characters of `t`, by its value. */
  lemma LeafSlice(s: string, t: string, n: nat, f: Flags, lo: nat)
    requires IsSuffix(t, s) && n <= |t| && lo <= |t| - n
    ensures Values(s, [Slice(|t|, |t| - n, f)]) == [Value(t[..n], f)] && InOrder([Slice(|t|, |t| - n, f)], |t| + 1, lo)
  {
    hide IsSuffix, Raw, Values, Value, InOrder;
    RawOf(s, t, n, f);
    OneValue(s, Slice(|t|, |t| - n, f));
    OneInOrder(Slice(|t|, |t| - n, f), |t| + 1, lo);
  }

  lemma VerbatimRead(s: string, kind: Kind, t: string, line: nat, error: Error)
    requires IsSuffix(t, s) && kind != ElementKind && kind != TextKind
    ensures IsTag(TextEnd(kind))
    ensures var r := ParseLeaf(t, line, TextEnd(kind), kind, error);
            r.Leaf? ==>
              && FindTag(t, TextEnd(kind)).Some?
              && var m := Slice(|t|, |t| - FindTag(t, TextEnd(kind)).value, VERBATIM);
                 && IsSuffix(r.rest, s) && |r.rest| <= |t| && InOrder([m], |t| + 1, Top(r.rest))
                 && !r.node.Element? && Values(s, [m]) == [r.node.text]
  {
    hide FindTag, Value, Newlines, Values, IsSuffix, InOrder, Top;
    var tag := TextEnd(kind);
    if FindTag(t, tag).Some? {
      var n := FindTag(t, tag).value;
      DroppedFrom(t, n + |tag|, s);
      LeafSlice(s, t, n, VERBATIM, Top(t[n + |tag|..]));
    }
  }

  lemma PlainRead(s: string, t: string, line: nat, nodeLine: nat, o: Options)
    requires IsSuffix(t, s)
    ensures var r := XmlParser.ParseText(t, line, nodeLine, o);
            r.Leaf? ==>
              && FindTag(t, "<").Some?
              && var m := Slice(|t|, |t| - FindTag(t, "<").value, TextFlags(o));
                 && IsSuffix(r.rest, s) && |r.rest| <= |t| && InOrder([m], |t| + 1, Top(r.rest))
                 && !r.node.Element? && Values(s, [m]) == [r.node.text]
  {
    hide FindTag, Value, Newlines, Values, IsSuffix, InOrder;
    if FindTag(t, "<").Some? {
      var n := FindTag(t, "<").value;
      FindTagFinds(t, "<");
      DroppedFrom(t, n, s);
      LeafSlice(s, t, n, TextFlags(o), |t| - n);
    }
  }

  /** The one slice of a node other than an element: a text may end at the `<` of the next node. */
  lemma LeafRead(s: string, kind: Kind, t: string, line: nat, nodeLine: nat, depth: nat, o: Options)
    requires IsSuffix(t, s) && kind != ElementKind
    ensures var r, ms := ParseNode(kind, t, line, nodeLine, depth, o), NodeSlices(kind, t, line, nodeLine, depth, o);
            r.Leaf? ==>
              && IsSuffix(r.rest, s) && |r.rest| <= |t| && InOrder(ms, |t| + 1, Top(r.rest))
              && !r.node.Element? && Values(s, ms) == [r.node.text]
  {
    hide FindTag, Values, IsSuffix, InOrder, Top, ParseLeaf, XmlParser.ParseText;
    match kind
    case TextKind => PlainRead(s, t, line, nodeLine, o);
    case DeclarationKind => VerbatimRead(s, kind, t, line, Error(ParsingDeclaration, nodeLine));
    case CommentKind => VerbatimRead(s, kind, t, line, Error(ParsingComment, nodeLine));
    case CDataKind => VerbatimRead(s, kind, t, line, Error(ParsingCData, nodeLine));
    case UnknownKind => VerbatimRead(s, kind, t, line, Error(ParsingUnknown, nodeLine));
    case ElementKind =>
  }

  lemma {:induction false} ElementRead(s: string, t: string, line: nat, nodeLine: nat, depth: nat, o: Options)
    requires IsSuffix(t, s)
    ensures var r, ms := ParseElement(t, line, nodeLine, depth, o), ElementSlices(t, line, nodeLine, depth, o);
            r.Elem? && r.closing != IsClosing ==>
              && IsSuffix(r.rest, s) && InOrder(ms, |t| + 1, |r.rest| + 1)
              && Values(s, ms) == NodeStrings(Element(r.name, r.attrs, r.children))
    ensures var r := ParseElement(t, line, nodeLine, depth, o);
            r.Elem? ==> IsSuffix(r.rest, s)
    decreases |t|, 0
  {
    hide ReadTag, ParseNodes, NodesSlices, TagSlices, IsSuffix, InOrder, Values, AttrStrings, Strings;
    var r := ParseElement(t, line, nodeLine, depth, o);
    if r.Elem? {
      var tag := ReadTag(t, line, nodeLine, o);
      TagReadSlices(s, t, line, nodeLine, o);
      var own := TagSlices(t, line, o);
      NoStrings();
      assert own + [] == own;
      if r.endTag.Some? {
        NodesRead(s, tag.rest, tag.line, depth + 1, false, [], o);
        var inner := NodesSlices(tag.rest, tag.line, depth + 1, false, [], o);
        ValuesConcat(s, own, inner);
        OrderWider(inner, Top(tag.rest), |r.rest| + 1, |tag.rest| + 1, |r.rest| + 1);
        OrderConcat(own, inner, |t| + 1, |tag.rest| + 1, |r.rest| + 1);
        assert [] + Strings(r.children) == Strings(r.children);
        assert [] + Values(s, inner) == Values(s, inner);
      }
    }
  }

  lemma NoStrings()
    ensures Strings([]) == []
  {
  }

  lemma {:induction false} NodesRead(s: string, t: string, line: nat, depth: nat, isDocument: bool, done: seq<Node>, o: Options)
    requires IsSuffix(t, s)
    ensures var r, ms := ParseNodes(t, line, depth, isDocument, done, o), NodesSlices(t, line, depth, isDocument, done, o);
            && InOrder(ms, Top(t), 0)
            && (!r.Stopped? ==> Strings(r.nodes) == Strings(done) + Values(s, ms))
            && (r.ClosedBy? ==> IsSuffix(r.rest, s) && InOrder(ms, Top(t), |r.rest| + 1))
    decreases |t|, 2
  {
    hide Identify, ParseNode, ParseNodes, NodesSlices, NodeSlices, IsSuffix, InOrder, Values, Strings, NodeStrings, TrimLeft,
      Top, NodesTurn, NodesMarks, NodeMarks;
    NoValues(s, Strings(done));
    NothingInOrder(Top(t), 0);
    SlicesStep(t, line, depth, isDocument, done, o);
    if AtEnd(t) {
      NodesEnd(t, line, depth, isDocument, done, o);
    } else {
      NodesStep(t, line, depth, isDocument, done, o);
      if Identify(t, line).Found? { FoundRead(s, t, line, depth, isDocument, done, o); }
    }
  }

  /** The loop from a node on: the nodes and the slices of the turn are followed by those of the rest. */
  lemma {:induction false} FoundRead(s: string, t: string, line: nat, depth: nat, isDocument: bool, done: seq<Node>,
                                     o: Options)
    requires IsSuffix(t, s) && !AtEnd(t) && Identify(t, line).Found?
    ensures var f := Identify(t, line);
            var turn := NodesTurn(ParseNode(f.kind, f.rest, f.line, f.nodeLine, depth, o), f.nodeLine, isDocument, done);
            if turn.Over? then
              && (turn.result.Stopped? || (turn.result.ClosedBy? && turn.result.nodes == done))
              && (turn.result.ClosedBy? ==> IsSuffix(turn.result.rest, s) && InOrder([], Top(t), |turn.result.rest| + 1))
            else
              |turn.rest| < |t| ==>
                var r := ParseNodes(turn.rest, turn.line, depth, isDocument, turn.done, o);
                var ms := NodeSlices(f.kind, f.rest, f.line, f.nodeLine, depth, o)
                          + NodesSlices(turn.rest, turn.line, depth, isDocument, turn.done, o);
                && InOrder(ms, Top(t), 0)
                && (!r.Stopped? ==> Strings(r.nodes) == Strings(done) + Values(s, ms))
                && (r.ClosedBy? ==> IsSuffix(r.rest, s) && InOrder(ms, Top(t), |r.rest| + 1))
    decreases |t|, 1
  {
    hide Identify, ParseNode, ParseNodes, NodesSlices, NodeSlices, IsSuffix, InOrder, Values, Strings, Top, NodesTurn;
    var f := Identify(t, line);
    FoundBelow(s, t, line);
    TurnRead(s, t, line, depth, isDocument, done, o);
    var turn := NodesTurn(ParseNode(f.kind, f.rest, f.line, f.nodeLine, depth, o), f.nodeLine, isDocument, done);
    if turn.Over? {
      if turn.result.ClosedBy? { NothingInOrder(Top(t), |turn.result.rest| + 1); }
    } else if |turn.rest| < |t| {
      var first := NodeSlices(f.kind, f.rest, f.line, f.nodeLine, depth, o);
      var later := NodesSlices(turn.rest, turn.line, depth, isDocument, turn.done, o);
      NodesRead(s, turn.rest, turn.line, depth, isDocument, turn.done, o);
      ValuesConcat(s, first, later);
      OrderConcat(first, later, Top(t), Top(turn.rest), 0);
      var r := ParseNodes(turn.rest, turn.line, depth, isDocument, turn.done, o);
      if r.ClosedBy? { OrderConcat(first, later, Top(t), Top(turn.rest), |r.rest| + 1); }
    }
  }

  lemma SlicesStep(t: string, line: nat, depth: nat, isDocument: bool, done: seq<Node>, o: Options)
    ensures AtEnd(t) || Identify(t, line).NoNode? ==> NodesSlices(t, line, depth, isDocument, done, o) == []
    ensures !AtEnd(t) && Identify(t, line).Found? ==>
              var f := Identify(t, line);
              var turn := NodesTurn(ParseNode(f.kind, f.rest, f.line, f.nodeLine, depth, o), f.nodeLine,
                                    isDocument, done);
              NodesSlices(t, line, depth, isDocument, done, o)
              == if turn.Over? || |turn.rest| >= |t| then []
                 else NodeSlices(f.kind, f.rest, f.line, f.nodeLine, depth, o)
                      + NodesSlices(turn.rest, turn.line, depth, isDocument, turn.done, o)
  {
    hide Identify, ParseNode, NodeSlices;
  }

  /** Where a node that is identified begins. */
  lemma FoundBelow(s: string, t: string, line: nat)
    requires IsSuffix(t, s) && Identify(t, line).Found?
    ensures var f := Identify(t, line);
            IsSuffix(f.rest, s) && |f.rest| <= |t| && |f.rest| + 1 <= Top(t)
  {
    hide TrimLeft, IsSuffix, Lines;
    var u := TrimLeft(t);
    TrimSuffix(t, s);
    DroppedFrom(u, Header(u).1, s);
  }

  /** One turn of the loop: the node that is inserted, and its slices. */
  lemma {:induction false} TurnRead(s: string, t: string, line: nat, depth: nat, isDocument: bool, done: seq<Node>, o: Options)
    requires IsSuffix(t, s) && Identify(t, line).Found? && IsSuffix(Identify(t, line).rest, s)
    requires |Identify(t, line).rest| <= |t| && |Identify(t, line).rest| + 1 <= Top(t)
    ensures var f := Identify(t, line);
            var turn := NodesTurn(ParseNode(f.kind, f.rest, f.line, f.nodeLine, depth, o), f.nodeLine, isDocument, done);
            var ms := NodeSlices(f.kind, f.rest, f.line, f.nodeLine, depth, o);
            && (turn.Further? ==>
                  && IsSuffix(turn.rest, s) && InOrder(ms, Top(t), Top(turn.rest)) && Top(turn.rest) <= Top(t)
                  && Strings(turn.done) == Strings(done) + Values(s, ms))
            && (turn.Over? ==> turn.result.Stopped? || (turn.result.ClosedBy? && turn.result.nodes == done))
            && (turn.Over? && turn.result.ClosedBy? ==> IsSuffix(turn.result.rest, s))
    decreases |t|, 0
  {
    hide Identify, ParseNode, NodeSlices, IsSuffix, InOrder, Values, Strings, NodeStrings, ParseElement, ElementSlices;
    var f := Identify(t, line);
    var r := ParseNode(f.kind, f.rest, f.line, f.nodeLine, depth, o);
    var ms := NodeSlices(f.kind, f.rest, f.line, f.nodeLine, depth, o);
    if f.kind == ElementKind {
      ElementKinds(f.rest, f.line, f.nodeLine, depth, o);
      ElementRead(s, f.rest, f.line, f.nodeLine, depth, o);
      if r.Elem? && r.closing != IsClosing {
        OrderWider(ms, |f.rest| + 1, |r.rest| + 1, Top(t), Top(r.rest));
        StringsMore(done, Element(r.name, r.attrs, r.children));
      }
    } else {
      LeafRead(s, f.kind, f.rest, f.line, f.nodeLine, depth, o);
      NoElement(f.kind, f.rest, f.line, f.nodeLine, depth, o);
      if r.Leaf? {
        OrderWider(ms, |f.rest| + 1, Top(r.rest), Top(t), Top(r.rest));
        StringsMore(done, r.node);
        TextStrings(r.node);
      }
    }
  }

  lemma ElementKinds(t: string, line: nat, nodeLine: nat, depth: nat, o: Options)
    ensures ParseNode(ElementKind, t, line, nodeLine, depth, o) == ParseElement(t, line, nodeLine, depth, o)
    ensures NodeSlices(ElementKind, t, line, nodeLine, depth, o) == ElementSlices(t, line, nodeLine, depth, o)
    ensures !ParseElement(t, line, nodeLine, depth, o).Leaf?
    ensures ParseElement(t, line, nodeLine, depth, o).Elem? ==> |ParseElement(t, line, nodeLine, depth, o).rest| < |t|
  {
  }

  lemma NoElement(kind: Kind, t: string, line: nat, nodeLine: nat, depth: nat, o: Options)
    ensures kind != ElementKind ==> !ParseNode(kind, t, line, nodeLine, depth, o).Elem?
  {
    hide FindTag, Value;
  }

  lemma TextStrings(n: Node)
    requires !n.Element?
    ensures NodeStrings(n) == [n.text]
  {
  }

  // ---- The whole text --------------------------------------------------------------------------------------

  /** The slices that a parse keeps stand in order, with room for every terminator before the next slice begins. */
  lemma SlicesInOrder(s: string, o: Options)
    ensures InOrder(Slices(s, o), |s| + 1, 0)
  {
    hide TrimLeft, NodesSlices, InOrder, Lines;
    var u := TrimLeft(s);
    WholeSuffix(s);
    TrimSuffix(s, s);
    if BOM <= u { DroppedFrom(u, 3, s); }
    NodesRead(s, SkipBOM(u), 1 + Lines(s, u), 1, true, [], o);
    OrderWider(Slices(s, o), Top(SkipBOM(u)), 0, |s| + 1, 0);
  }

  lemma WholeSuffix(s: string)
    ensures IsSuffix(s, s)
  {
  }

  /** Their values are the names, attribute values and texts of the tree, in document order. */
  lemma SlicesAreStrings(s: string, o: Options)
    requires Parse(s, o).Parsed?
    ensures Values(s, Slices(s, o)) == Strings(Parse(s, o).children)
  {
    hide TrimLeft, NodesSlices, ParseNodes, InOrder, Lines, Values, Strings;
    var u := TrimLeft(s);
    WholeSuffix(s);
    TrimSuffix(s, s);
    if BOM <= u { DroppedFrom(u, 3, s); }
    NodesRead(s, SkipBOM(u), 1 + Lines(s, u), 1, true, [], o);
    NoStrings();
    assert [] + Values(s, Slices(s, o)) == Values(s, Slices(s, o));
  }
}
