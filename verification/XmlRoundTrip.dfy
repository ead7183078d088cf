/** Printing a document in compact mode and parsing the output: what tree comes out, and when it is the same. */
module XmlRoundTrip {
  import opened Wrappers
  import opened XmlUtil
  import opened StrPairs
  import opened GetStr
  import opened XmlTree
  import opened XmlPrinter
  import opened XmlParser
  import opened XmlText

  /** The options of a default-constructed XMLDocument. */
  const DEFAULTS := Options(true, false)

  // ---- Trees that can be printed ---------------------------------------------------------------------

  predicate IsBlank(s: string) {
    forall i | 0 <= i < |s| :: IsWhiteSpace(s[i])
  }

  /** A node whose printed form is read as one node at parsing depth `depth`. */
  predicate Readable(n: Node, depth: nat)
    decreases n, 1
  {
    if n.Element? then
      && ValidName(n.name) && ReadableAttrs(n.attrs)
      && (n.children != [] ==> depth + 1 < MAX_ELEMENT_DEPTH)
      && ReadableNodes(n.children, depth + 1, false, [])
    else ReadableLeaf(n)
  }

  predicate EndsInText(nodes: seq<Node>) {
    nodes != [] && IsPlainText(nodes[|nodes| - 1])
  }

  /** `n` may come after `done`: no adjacent texts, and declarations first. */
  predicate Fits(n: Node, isDocument: bool, done: seq<Node>) {
    && (IsPlainText(n) ==> !EndsInText(done))
    && (n.Declaration? ==> isDocument && forall d | d in done :: d.Declaration?)
  }

  predicate ReadableNodes(nodes: seq<Node>, depth: nat, isDocument: bool, done: seq<Node>)
    decreases nodes, 0
  {
    nodes == [] || (
      && Readable(nodes[0], depth)
      && Fits(nodes[0], isDocument, done)
      && ReadableNodes(nodes[1..], depth, isDocument, done + [nodes[0]]))
  }

  // ---- What is read back -------------------------------------------------------------------------------

  function RereadAttrs(attrs: seq<Attr>): (r: seq<Attr>)
    ensures |r| == |attrs|
  {
    if attrs == [] then [] else [Attr(attrs[0].name, LineEnds(attrs[0].value))] + RereadAttrs(attrs[1..])
  }

  /** Blank texts are lost; other texts and attribute values come back respaced. */
  function RereadNode(n: Node, o: Options): (r: seq<Node>)
    ensures |r| <= 1
    decreases n, 1
  {
    match n
    case Element(name, attrs, children) => [Element(name, RereadAttrs(attrs), Reread(children, o))]
    case Text(text, cdata) =>
      if cdata then [n] else if IsBlank(text) then [] else [Text(Respaced(text, o.collapse), false)]
    case _ => [n]
  }

  function Reread(nodes: seq<Node>, o: Options): (r: seq<Node>)
    ensures |r| <= |nodes|
    decreases nodes, 0
  {
    if nodes == [] then [] else RereadNode(nodes[0], o) + Reread(nodes[1..], o)
  }

  /** A node that is read back as it is: no blank text, no carriage return in a text or an attribute value, and no
      text that would be collapsed. */
  predicate Faithful(n: Node, o: Options)
    decreases n, 1
  {
    match n
    case Element(_, attrs, children) => (forall i | 0 <= i < |attrs| :: CR !in attrs[i].value) && FaithfulNodes(children, o)
    case Text(text, cdata) =>
      cdata || (CR !in text && !IsBlank(text) && (o.collapse ==> Collapse(text) == text))
    case _ => true
  }

  predicate FaithfulNodes(nodes: seq<Node>, o: Options)
    decreases nodes, 0
  {
    nodes == [] || (Faithful(nodes[0], o) && FaithfulNodes(nodes[1..], o))
  }

  lemma {:induction false} AttrsExactly(attrs: seq<Attr>)
    ensures RereadAttrs(attrs) == attrs <==> forall i | 0 <= i < |attrs| :: CR !in attrs[i].value
  {
    if attrs != [] {
      var r := RereadAttrs(attrs);
      LineEndsExactly(attrs[0].value);
      AttrsExactly(attrs[1..]);
      assert r[0] == Attr(attrs[0].name, LineEnds(attrs[0].value)) && r[1..] == RereadAttrs(attrs[1..]);
      assert attrs == [attrs[0]] + attrs[1..];
      assert forall i | 0 <= i < |attrs| - 1 :: attrs[1..][i] == attrs[i + 1];
    }
  }

  lemma {:induction false} NodeExactly(n: Node, o: Options)
    ensures RereadNode(n, o) == [n] <==> Faithful(n, o)
    decreases n, 1
  {
    match n
    case Element(_, attrs, children) =>
      AttrsExactly(attrs);
      NodesExactly(children, o);
    case Text(text, cdata) => RespacedExactly(text, o.collapse);
    case _ =>
  }

  /** A tree is read back as it is exactly when all its nodes are faithful. */
  lemma {:induction false} NodesExactly(nodes: seq<Node>, o: Options)
    ensures Reread(nodes, o) == nodes <==> FaithfulNodes(nodes, o)
    decreases nodes, 0
  {
    hide RereadNode, Faithful;
    if nodes != [] {
      var r, first, more := Reread(nodes, o), RereadNode(nodes[0], o), Reread(nodes[1..], o);
      NodeExactly(nodes[0], o);
      NodesExactly(nodes[1..], o);
      assert nodes == [nodes[0]] + nodes[1..];
      if r == nodes {
        assert |first| == 1;
        assert r[..1] == first && r[1..] == more;
      }
    }
  }

  /** No string of a printed node holds the character that is to end it, which only entities keep out. */
  predicate Delimited(n: Node, o: Options)
    decreases n, 1
  {
    match n
    case Element(_, attrs, children) =>
      (forall i | 0 <= i < |attrs| :: Closes(attrs[i].value, false, o.processEntities)) && DelimitedNodes(children, o)
    case Text(text, cdata) => cdata || Closes(text, true, o.processEntities)
    case _ => true
  }

  predicate DelimitedNodes(nodes: seq<Node>, o: Options)
    decreases nodes, 0
  {
    nodes == [] || (Delimited(nodes[0], o) && DelimitedNodes(nodes[1..], o))
  }

  lemma {:induction false} RereadMore(done: seq<Node>, n: Node, o: Options)
    ensures Reread(done + [n], o) == Reread(done, o) + RereadNode(n, o)
    decreases |done|
  {
    hide RereadNode;
    if done == [] {
      assert [] + [n] == [n] && [n][1..] == [];
    } else {
      RereadMore(done[1..], n, o);
      assert (done + [n])[1..] == done[1..] + [n];
    }
  }

  lemma {:induction false} DeclarationsStay(done: seq<Node>, o: Options)
    requires forall d | d in done :: d.Declaration?
    ensures Reread(done, o) == done
    decreases |done|
  {
    hide RereadNode;
    if done != [] {
      var n, more := done[0], done[1..];
      assert n in done && forall d | d in more :: d in done;
      DeclarationStays(n, o);
      DeclarationsStay(more, o);
      assert [n] + more == done;
    }
  }

  lemma DeclarationStays(n: Node, o: Options)
    requires n.Declaration?
    ensures RereadNode(n, o) == [n]
  {
  }

  // ---- Documents that come back --------------------------------------------------------------------------

  /** A text whose beginning Parse does not skip. */
  predicate StartsPlainly(text: string) {
    text != [] && !IsWhiteSpace(text[0]) && !(BOM <= text)
  }

  /** Something is there, text at the top begins plainly unless a byte order mark stands before it, and is followed by
      another node; and every node is faithful and delimited. */
  predicate Printable(children: seq<Node>, bom: bool, o: Options) {
    && children != [] && !EndsInText(children)
    && (!bom && IsPlainText(children[0]) ==> StartsPlainly(children[0].text))
    && FaithfulNodes(children, o) && DelimitedNodes(children, o)
  }

  predicate NormalDocument(children: seq<Node>, bom: bool, o: Options) {
    ReadableNodes(children, 1, true, []) && Printable(children, bom, o)
  }

  // ---- Names and attributes ----------------------------------------------------------------------------

  lemma {:induction false} NameRoundTrip(name: string, rest: string)
    requires forall i | 0 <= i < |name| :: IsNameChar(name[i])
    requires rest == [] || !IsNameChar(rest[0])
    ensures TakeName(name + rest) == name && DropName(name + rest) == rest
  {
    if name == [] {
      assert name + rest == rest;
    } else {
      assert (name + rest)[1..] == name[1..] + rest;
      NameRoundTrip(name[1..], rest);
    }
  }

  lemma AttrRoundTrip(a: Attr, rest: string, line: nat, o: Options) returns (line': nat)
    requires ValidName(a.name) && NUL !in a.value && Closes(a.value, false, o.processEntities)
    ensures ParseAttr(PrintAttr(a, o.processEntities)[1..] + rest, line, o)
            == SomeAttr(Attr(a.name, LineEnds(a.value)), rest, line')
  {
    hide TakeName, DropName, FindTag, Quoted, Value, LineEnds, Closes;
    var q := Quoted(a.value, false, o.processEntities);
    AttrPrinted(a, rest, o);
    NameRoundTrip(a.name, "=\"" + (q + "\"" + rest));
    AttributeRoundTrip(a.value, rest, o.processEntities);
    assert (q + "\"" + rest)[|q| + 1..] == rest;
    line' := ParseAttr(PrintAttr(a, o.processEntities)[1..] + rest, line, o).line;
  }

  lemma AttrPrinted(a: Attr, rest: string, o: Options)
    ensures var body := Quoted(a.value, false, o.processEntities) + "\"" + rest;
            && PrintAttr(a, o.processEntities)[1..] + rest == a.name + ("=\"" + body)
            && ("=\"" + body)[1..] == "\"" + body && ("\"" + body)[1..] == body
  {
    hide Quoted;
  }

  /** None of the attributes has been read yet. */
  predicate AreNew(attrs: seq<Attr>, done: seq<Attr>) {
    forall i | 0 <= i < |attrs| :: !HasAttr(done, attrs[i].name)
  }

  predicate ClosedAttrs(attrs: seq<Attr>, o: Options) {
    forall i | 0 <= i < |attrs| :: Closes(attrs[i].value, false, o.processEntities)
  }

  lemma {:induction false} AttrsRoundTrip(attrs: seq<Attr>, rest: string, line: nat, elementLine: nat, done: seq<Attr>,
                                          o: Options)
    returns (line': nat)
    requires ReadableAttrs(attrs) && AreNew(attrs, done) && ClosedAttrs(attrs, o)
    ensures ParseAttributes(PrintAttrs(attrs, o.processEntities) + rest, line, elementLine, done, o)
            == ParseAttributes(rest, line', elementLine, done + RereadAttrs(attrs), o)
    decreases |attrs|
  {
    hide ParseAttributes, PrintAttr, LineEnds, HasAttr, Closes;
    if attrs == [] {
      assert PrintAttrs(attrs, o.processEntities) + rest == rest && done + [] == done;
      line' := line;
    } else {
      var a, more := attrs[0], PrintAttrs(attrs[1..], o.processEntities) + rest;
      var a' := Attr(a.name, LineEnds(a.value));
      line' := FirstAttr(a, more, line, elementLine, done, o);
      assert PrintAttrs(attrs, o.processEntities) + rest == PrintAttr(a, o.processEntities) + more;
      StillNew(attrs, done, a');
      assert done + RereadAttrs(attrs) == done + [a'] + RereadAttrs(attrs[1..]);
      line' := AttrsRoundTrip(attrs[1..], rest, line', elementLine, done + [a'], o);
    }
  }

  lemma StillNew(attrs: seq<Attr>, done: seq<Attr>, a: Attr)
    requires ReadableAttrs(attrs) && AreNew(attrs, done) && attrs != [] && a.name == attrs[0].name
    ensures ReadableAttrs(attrs[1..]) && AreNew(attrs[1..], done + [a])
  {
    assert forall i | 0 <= i < |attrs| - 1 :: attrs[1..][i] == attrs[i + 1];
    assert forall i | 0 <= i < |done| :: (done + [a])[i] == done[i];
    forall i | 0 <= i < |attrs| - 1
      ensures !HasAttr(done + [a], attrs[1..][i].name)
    {
      assert !HasAttr(done, attrs[i + 1].name);
    }
  }

  lemma FirstAttr(a: Attr, more: string, line: nat, elementLine: nat, done: seq<Attr>, o: Options) returns (line': nat)
    requires ValidName(a.name) && NUL !in a.value && !HasAttr(done, a.name) && Closes(a.value, false, o.processEntities)
    ensures ParseAttributes(PrintAttr(a, o.processEntities) + more, line, elementLine, done, o)
            == ParseAttributes(more, line', elementLine, done + [Attr(a.name, LineEnds(a.value))], o)
  {
    hide ParseAttr, Quoted, LineEnds, Closes;
    var t := PrintAttr(a, o.processEntities) + more;
    var u := PrintAttr(a, o.processEntities)[1..] + more;
    assert t == " " + u && u[0] == a.name[0];
    NameStartIsNoSpace(a.name[0]);
    assert t[1..] == u && TrimLeft(u) == u && TrimLeft(t) == u;
    line' := AttrRoundTrip(a, more, line + Lines(t, u), o);
  }

  lemma NameStartIsNoSpace(c: char)
    ensures IsNameStartChar(c) ==> !IsWhiteSpace(c) && c != NUL && c != '/' && c != '?' && c != '!'
  {
  }

  // ---- Leaves ----------------------------------------------------------------------------------------

  /** The end tags of the leaves: their last character, `>`, is not found earlier in them. */
  predicate IsLeafTag(tag: string) {
    IsTag(tag) && tag[|tag| - 1] == '>' && forall i | 0 <= i < |tag| - 1 :: tag[i] != '>'
  }

  /** An end tag cannot begin inside the text and end outside it. */
  lemma NoOverlap(text: string, tag: string, rest: string, i: nat)
    requires IsLeafTag(tag) && !Contains(text, tag) && i < |text|
    ensures !(tag <= text[i..] + tag + rest)
  {
    var t := text[i..] + tag + rest;
    var r := |text| - i;
    if |tag| <= r {
      assert t[..|tag|] == text[i..][..|tag|];
      assert !(tag <= text[i..]);
    } else {
      assert t[|tag| - 1] == tag[|tag| - 1 - r] != '>';
    }
  }

  lemma LeafFound(text: string, tag: string, rest: string)
    requires IsLeafTag(tag) && NUL !in text && !Contains(text, tag)
    ensures IsTag(tag) && FindTag(text + tag + rest, tag) == Some(|text|)
  {
    hide FindTag, Contains;
    forall i | 0 <= i < |text|
      ensures !(tag <= text[i..] + tag + rest)
    {
      NoOverlap(text, tag, rest, i);
    }
    FindTagAfter(text, tag, rest);
  }

  lemma LeafRoundTrip(text: string, tag: string, rest: string, line: nat, kind: Kind, error: Error)
    requires IsLeafTag(tag) && CleanText(text) && !Contains(text, tag)
    ensures ParseLeaf(text + tag + rest, line, tag, kind, error)
            == Leaf(MakeLeaf(kind, text), rest, line + Newlines(text))
  {
    hide FindTag, Value, Contains, LineEnds, Newlines;
    var t := text + tag + rest;
    LeafFound(text, tag, rest);
    VerbatimValue(text);
    assert t[..|text|] == text && t[|text| + |tag|..] == rest;
  }

  /** A text that begins a tag: `<` and a character after it. */
  predicate StartsTag(t: string) {
    |t| >= 2 && t[0] == '<' && t[1] != NUL
  }

  lemma TrimTag(t: string, line: nat)
    requires StartsTag(t)
    ensures TrimLeft(t) == t && !AtEnd(t) && Lines(t, t) == 0
  {
    assert t[..0] == [];
  }

  function KindOf(open: string): Kind {
    if open == "<?" then DeclarationKind else if open == "<!--" then CommentKind
    else if open == "<![CDATA[" then CDataKind else UnknownKind
  }

  lemma HeaderOfTag(open: string, u: string)
    requires open in ["<?", "<!--", "<![CDATA[", "<!"]
    requires open == "<!" ==> !("--" <= u) && !("[CDATA[" <= u)
    ensures Header(open + u) == (KindOf(open), |open|)
  {
    var t := open + u;
    assert t[1] == open[1];
    if open == "<!" {
      DropPrefix("<!", "--", u);
      DropPrefix("<!", "[CDATA[", u);
      assert "<!" + "--" == "<!--" && "<!" + "[CDATA[" == "<![CDATA[";
    } else if open == "<![CDATA[" {
      assert t[2] == '[';
    }
  }

  /** Identify recognises a node by its opening. */
  lemma IdentifyTag(open: string, u: string, line: nat)
    requires open in ["<?", "<!--", "<![CDATA[", "<!"]
    requires open == "<!" ==> !("--" <= u) && !("[CDATA[" <= u)
    ensures Identify(open + u, line) == Found(KindOf(open), u, line, line)
    ensures StartsTag(open + u)
  {
    hide TrimLeft, Lines, Header;
    var t := open + u;
    HeaderOfTag(open, u);
    assert t[0] == '<' && t[1] == open[1] && t[|open|..] == u;
    TrimTag(t, line);
  }

  lemma DropPrefix(p: string, q: string, u: string)
    ensures p + q <= p + u <==> q <= u
  {
    assert (p + u)[|p|..] == u && (p + q)[|p|..] == q;
    if p + q <= p + u {
      assert forall i | 0 <= i < |q| :: q[i] == (p + q)[|p| + i] && u[i] == (p + u)[|p| + i];
    }
  }

  /** A leaf by its opening `open`, its text and its end `tag`. */
  lemma OneLeaf(open: string, text: string, tag: string, rest: string, line: nat, id: ErrorId)
    requires open in ["<?", "<!--", "<![CDATA[", "<!"] && IsLeafTag(tag) && CleanText(text) && !Contains(text, tag)
    requires open == "<!" ==> !("--" <= text + tag + rest) && !("[CDATA[" <= text + tag + rest)
    ensures StartsTag(open + (text + tag + rest))
    ensures Identify(open + (text + tag + rest), line) == Found(KindOf(open), text + tag + rest, line, line)
    ensures ParseLeaf(text + tag + rest, line, tag, KindOf(open), Error(id, line))
            == Leaf(MakeLeaf(KindOf(open), text), rest, line + Newlines(text))
  {
    hide Identify, ParseLeaf, Contains, CleanText, MakeLeaf, StartsTag;
    IdentifyTag(open, text + tag + rest, line);
    LeafRoundTrip(text, tag, rest, line, KindOf(open), Error(id, line));
  }

  predicate IsLeaf(n: Node) {
    !n.Element? && !IsPlainText(n)
  }

  // The opening and the end of a leaf, and the error that is set when the end is missing.

  function LeafOpen(n: Node): string
    requires IsLeaf(n)
  {
    match n
    case Declaration(_) => "<?"
    case Comment(_) => "<!--"
    case Text(_, _) => "<![CDATA["
    case Unknown(_) => "<!"
  }

  function LeafEnd(n: Node): string
    requires IsLeaf(n)
  {
    match n
    case Declaration(_) => "?>"
    case Comment(_) => "-->"
    case Text(_, _) => "]]>"
    case Unknown(_) => ">"
  }

  function LeafError(n: Node): ErrorId
    requires IsLeaf(n)
  {
    match n
    case Declaration(_) => ParsingDeclaration
    case Comment(_) => ParsingComment
    case Text(_, _) => ParsingCData
    case Unknown(_) => ParsingUnknown
  }

  lemma LeafPrinted(n: Node, rest: string, o: Options)
    requires IsLeaf(n)
    ensures Print(n, o.processEntities) + rest == LeafOpen(n) + (n.text + LeafEnd(n) + rest)
  {
    assert Print(n, o.processEntities) == LeafOpen(n) + n.text + LeafEnd(n);
  }

  lemma LeafTags(n: Node)
    requires IsLeaf(n)
    ensures LeafOpen(n) in ["<?", "<!--", "<![CDATA[", "<!"] && IsLeafTag(LeafEnd(n))
    ensures KindOf(LeafOpen(n)) != ElementKind && MakeLeaf(KindOf(LeafOpen(n)), n.text) == n
  {
  }

  lemma LeafNormal(n: Node, rest: string, depth: nat)
    requires IsLeaf(n) && Readable(n, depth)
    ensures CleanText(n.text) && !Contains(n.text, LeafEnd(n))
    ensures LeafOpen(n) == "<!" ==>
              !("--" <= n.text + LeafEnd(n) + rest) && !("[CDATA[" <= n.text + LeafEnd(n) + rest)
  {
    hide Contains, CleanText;
    if n.Unknown? {
      AvoidsPrefix(n.text, n.text + ">" + rest, "--");
      AvoidsPrefix(n.text, n.text + ">" + rest, "[CDATA[");
    } else {
      assert |LeafOpen(n)| > 2 || LeafOpen(n)[1] == '?';
    }
  }

  lemma LeafParses(n: Node, t: string, line: nat, nodeLine: nat, depth: nat, o: Options)
    requires IsLeaf(n) && IsTag(LeafEnd(n))
    ensures ParseNode(KindOf(LeafOpen(n)), t, line, nodeLine, depth, o)
            == ParseLeaf(t, line, LeafEnd(n), KindOf(LeafOpen(n)), Error(LeafError(n), nodeLine))
  {
    hide ParseLeaf;
  }

  /** What Identify and ParseNode make of the printed form of a leaf. */
  lemma LeafIdentified(n: Node, rest: string, line: nat, depth: nat, o: Options) returns (line': nat)
    requires Readable(n, depth) && IsLeaf(n)
    ensures StartsTag(Print(n, o.processEntities) + rest)
    ensures match Identify(Print(n, o.processEntities) + rest, line)
            case NoNode => false
            case Found(kind, t, l, nodeLine) => ParseNode(kind, t, l, nodeLine, depth, o) == Leaf(n, rest, line')
  {
    hide Identify, ParseLeaf, ParseNode, Contains, CleanText, StartsTag, Readable, Print, MakeLeaf, KindOf,
      LeafOpen, LeafEnd, LeafError, IsLeafTag;
    line' := line + Newlines(n.text);
    LeafPrinted(n, rest, o);
    LeafTags(n);
    LeafNormal(n, rest, depth);
    OneLeaf(LeafOpen(n), n.text, LeafEnd(n), rest, line, LeafError(n));
    LeafTagIsTag(LeafEnd(n));
    LeafParses(n, n.text + LeafEnd(n) + rest, line, line, depth, o);
  }

  lemma LeafTagIsTag(tag: string)
    requires IsLeafTag(tag)
    ensures IsTag(tag)
  {
  }

  lemma AvoidsPrefix(text: string, u: string, p: string)
    requires text + ">" <= u && !(p <= text) && '>' !in p
    ensures !(p <= u)
  {
    if |p| <= |text| {
      assert u[..|p|] == (text + ">")[..|p|] == text[..|p|];
    } else {
      assert u[|text|] == (text + ">")[|text|] == '>';
      assert p[|text|] in p;
    }
  }

  // ---- Text ------------------------------------------------------------------------------------------

  /** Text with a character other than white space is not taken for a tag, unless it begins like one. */
  lemma {:induction false} TrimText(text: string, rest: string, o: Options)
    requires NUL !in text && !IsBlank(text)
    ensures var u := TrimLeft(Quoted(text, true, o.processEntities) + rest);
            !AtEnd(u) && (Closes(text, true, o.processEntities) ==> u[0] != '<')
  {
    hide QuotedChar, Quoted;
    var c := text[0];
    var more := Quoted(text[1..], true, o.processEntities) + rest;
    assert c in text && forall d | d in text[1..] :: d in text;
    QuotedFirst(text, rest, o.processEntities);
    if IsWhiteSpace(c) {
      assert ([c] + more)[1..] == more;
      assert forall i | 0 <= i < |text| - 1 :: text[1..][i] == text[i + 1];
      TrimText(text[1..], rest, o);
    }
  }

  lemma TextParsed(text: string, rest: string, line: nat, nodeLine: nat, o: Options) returns (line': nat)
    requires NUL !in text && StartsTag(rest) && Closes(text, true, o.processEntities)
    ensures XmlParser.ParseText(Quoted(text, true, o.processEntities) + rest, line, nodeLine, o)
            == Leaf(Text(Respaced(text, o.collapse), false), rest, line')
  {
    hide FindTag, Quoted, Value, Respaced, Closes, Collapse, Newlines;
    var q := Quoted(text, true, o.processEntities);
    var t := q + rest;
    assert t == q + "<" + rest[1..];
    TextRoundTrip(text, rest[1..], o.processEntities, o.collapse);
    assert t[|q|..] == rest && At(t, |q| + 1) == rest[1];
    line' := line + Newlines(q);
    assert t[..|q|] == q;
  }

  lemma TextIdentified(text: string, rest: string, line: nat, depth: nat, o: Options) returns (line': nat)
    requires NUL !in text && !IsBlank(text) && StartsTag(rest) && Closes(text, true, o.processEntities)
    ensures match Identify(Quoted(text, true, o.processEntities) + rest, line)
            case NoNode => false
            case Found(kind, t, l, nodeLine) =>
              ParseNode(kind, t, l, nodeLine, depth, o) == Leaf(Text(Respaced(text, o.collapse), false), rest, line')
  {
    hide TrimLeft, Quoted, Respaced, Closes, IsBlank, Lines, XmlParser.ParseText, StartsTag;
    var t := Quoted(text, true, o.processEntities) + rest;
    TrimText(text, rest, o);
    line' := TextParsed(text, rest, line, line + Lines(t, TrimLeft(t)), o);
  }

  lemma TextNotAtEnd(text: string, rest: string, o: Options)
    requires NUL !in text && text != []
    ensures !AtEnd(Quoted(text, true, o.processEntities) + rest)
  {
    hide Quoted;
    QuotedFree(text, true, o.processEntities);
    var q := Quoted(text, true, o.processEntities);
    assert (q + rest)[0] == q[0] && q[0] in q;
  }

  /** Blank text before a tag is skipped with the white space. */
  lemma {:induction false} TrimBlank(text: string, rest: string, o: Options)
    requires IsBlank(text) && (StartsTag(rest) || rest == "")
    ensures TrimLeft(Quoted(text, true, o.processEntities) + rest) == rest
  {
    hide QuotedChar, Quoted;
    if text == [] {
      QuotedNothing(o.processEntities);
      assert "" + rest == rest;
    } else {
      var more := Quoted(text[1..], true, o.processEntities) + rest;
      QuotedFirst(text, rest, o.processEntities);
      assert ([text[0]] + more)[1..] == more;
      TrimBlank(text[1..], rest, o);
    }
  }

  lemma BlankRead(text: string, rest: string, line: nat, depth: nat, isDocument: bool, done: seq<Node>, o: Options)
    returns (line': nat)
    requires IsBlank(text) && NUL !in text && StartsTag(rest)
    ensures ParseNodes(Quoted(text, true, o.processEntities) + rest, line, depth, isDocument, done, o)
            == ParseNodes(rest, line', depth, isDocument, done, o)
  {
    hide TrimLeft, Quoted, ParseNode, Lines, Header;
    var t := Quoted(text, true, o.processEntities) + rest;
    if text == [] {
      QuotedNothing(o.processEntities);
      assert t == rest;
      return line;
    }
    TextNotAtEnd(text, rest, o);
    TrimBlank(text, rest, o);
    line' := line + Lines(t, rest);
    TrimTag(rest, line');
    HeaderIsTag(rest);
    assert Identify(t, line) == Identify(rest, line');
  }

  lemma HeaderIsTag(rest: string)
    requires StartsTag(rest)
    ensures Header(rest).0 != TextKind
  {
    assert "<" <= rest;
  }

  // ---- Elements --------------------------------------------------------------------------------------

  lemma IdentifyElement(u: string, line: nat)
    requires u != [] && (IsNameStartChar(u[0]) || u[0] == '/')
    ensures StartsTag("<" + u) && Identify("<" + u, line) == Found(ElementKind, u, line, line)
  {
    hide TrimLeft, Lines;
    var t := "<" + u;
    NameStartIsNoSpace(u[0]);
    assert t[1] == u[0] && t[1..] == u;
    TrimTag(t, line);
  }

  /** The end of a tag after its attributes. */
  lemma TagEndRead(closed: bool, rest: string, line: nat, elementLine: nat, done: seq<Attr>, o: Options)
    ensures ParseAttributes((if closed then "/>" else ">") + rest, line, elementLine, done, o)
            == Attrs(done, closed, rest, line)
  {
    hide ParseAttr;
    var close := if closed then "/>" else ">";
    var t := close + rest;
    assert t[0] == close[0];
    assert TrimLeft(t) == t && Lines(t, t) == 0 by { assert t[..0] == []; }
    assert t[|close|..] == rest;
  }

  /** The end tag of the element whose children are `done`. */
  lemma EndTagRead(name: string, rest: string, line: nat, depth: nat, isDocument: bool, done: seq<Node>, o: Options)
    returns (line': nat)
    requires ValidName(name)
    ensures ParseNodes("</" + name + ">" + rest, line, depth, isDocument, done, o)
            == ClosedBy(done, name, rest, line')
  {
    hide Identify, DropName, TakeName, ParseAttributes, Lines;
    var v := ">" + rest;
    var u := "/" + (name + v);
    assert "</" + name + ">" + rest == "<" + u;
    IdentifyElement(u, line);
    assert TrimLeft(u) == u && u[1..] == name + v;
    NameRoundTrip(name, v);
    line' := line + Lines(u, u);
    TagEndRead(false, rest, line', line, [], o);
    assert ParseElement(u, line, line, depth, o) == Elem(name, [], IsClosing, [], None, rest, line');
  }

  /** The tag of an element, up to its children. */
  lemma OpenTagRead(n: Node, rest: string, line: nat, elementLine: nat, o: Options) returns (line': nat)
    requires n.Element? && ValidName(n.name) && ReadableAttrs(n.attrs) && ClosedAttrs(n.attrs, o)
    ensures var t := n.name + PrintAttrs(n.attrs, o.processEntities) + (if n.children == [] then "/>" else ">") + rest;
            && t[0] == n.name[0] && TakeName(t) == n.name
            && ParseAttributes(DropName(t), line, elementLine, [], o)
               == Attrs(RereadAttrs(n.attrs), n.children == [], rest, line')
  {
    hide ParseAttributes, PrintAttrs, TakeName, DropName, ClosedAttrs;
    var close := if n.children == [] then "/>" else ">";
    var v := PrintAttrs(n.attrs, o.processEntities) + (close + rest);
    assert n.name + PrintAttrs(n.attrs, o.processEntities) + close + rest == n.name + v;
    AttrsStart(n.attrs, close + rest, o);
    NameRoundTrip(n.name, v);
    assert [] + RereadAttrs(n.attrs) == RereadAttrs(n.attrs);
    assert AreNew(n.attrs, []);
    line' := AttrsRoundTrip(n.attrs, close + rest, line, elementLine, [], o);
    TagEndRead(n.children == [], rest, line', elementLine, RereadAttrs(n.attrs), o);
  }

  lemma AttrsStart(attrs: seq<Attr>, rest: string, o: Options)
    requires rest != [] && !IsNameChar(rest[0])
    ensures var v := PrintAttrs(attrs, o.processEntities) + rest;
            v != [] && !IsNameChar(v[0])
  {
    if attrs != [] {
      assert PrintAttrs(attrs, o.processEntities)[0] == PrintAttr(attrs[0], o.processEntities)[0] == ' ';
    }
  }

  // ---- Trees -----------------------------------------------------------------------------------------

  /** What follows the tag of an element, in its printed form. */
  function AfterTag(n: Node, rest: string, o: Options): string
    requires n.Element?
  {
    if n.children == [] then rest else PrintNodes(n.children, o.processEntities) + ("</" + n.name + ">" + rest)
  }

  lemma TagRead(n: Node, rest: string, line: nat, o: Options) returns (line': nat)
    requires n.Element? && ValidName(n.name) && ReadableAttrs(n.attrs) && ClosedAttrs(n.attrs, o)
    ensures var t := Print(n, o.processEntities)[1..] + rest;
            && t[0] == n.name[0]
            && ReadTag(t, line, line, o)
               == Tag(n.name, RereadAttrs(n.attrs), if n.children == [] then Closed else Open, AfterTag(n, rest, o), line')
  {
    hide Print, PrintNodes, PrintAttrs, ParseAttributes, TakeName, DropName, RereadAttrs, ClosedAttrs;
    var close := if n.children == [] then "/>" else ">";
    var after := AfterTag(n, rest, o);
    var t := n.name + PrintAttrs(n.attrs, o.processEntities) + close + after;
    ElementPrinted(n, rest, o);
    NameStartIsNoSpace(n.name[0]);
    line' := OpenTagRead(n, after, line + Lines(t, t), line, o);
    assert TrimLeft(t) == t;
  }

  lemma {:induction false} ElementRead(n: Node, rest: string, line: nat, depth: nat, o: Options) returns (line': nat)
    requires n.Element? && Readable(n, depth) && Delimited(n, o)
    ensures var t := Print(n, o.processEntities)[1..] + rest;
            && t[0] == n.name[0] && IsNameStartChar(t[0])
            && ParseElement(t, line, line, depth, o)
               == if n.children == [] then Elem(n.name, RereadAttrs(n.attrs), Closed, [], None, rest, line')
                  else Elem(n.name, RereadAttrs(n.attrs), Open, Reread(n.children, o), Some(n.name), rest, line')
    decreases n, 1
  {
    hide Print, PrintNodes, ParseNodes, ReadTag, RereadAttrs, Reread, ReadableAttrs;
    line' := TagRead(n, rest, line, o);
    if n.children != [] {
      line' := ChildrenRead(n, rest, line', depth, o);
    }
  }

  /** The children of an element and its end tag. */
  lemma {:induction false} ChildrenRead(n: Node, rest: string, line: nat, depth: nat, o: Options) returns (line': nat)
    requires n.Element? && Readable(n, depth) && Delimited(n, o) && n.children != []
    ensures !AtEnd(AfterTag(n, rest, o))
    ensures ParseNodes(AfterTag(n, rest, o), line, depth + 1, false, [], o)
            == ClosedBy(Reread(n.children, o), n.name, rest, line')
    decreases n, 0
  {
    hide Print, PrintNodes, ParseNodes, Reread, ReadableNodes, DelimitedNodes;
    var end := "</" + n.name + ">" + rest;
    EmptyReread(o);
    var l := NodesRoundTrip(n.children, end, line, depth + 1, false, [], o);
    line' := EndTagRead(n.name, rest, l, depth + 1, false, Reread(n.children, o), o);
    assert [] + n.children == n.children;
    ChildrenNotAtEnd(n.children, end, depth + 1, false, [], o);
  }

  lemma BodyPrinted(n: Node, rest: string, o: Options)
    requires n.Element?
    ensures var close := if n.children == [] then "/>" else ">";
            var after := AfterTag(n, rest, o);
            PrintBody(n.name, n.children, o.processEntities) + rest == close + after
  {
    hide PrintNodes;
  }

  lemma ElementStarts(n: Node, o: Options)
    requires n.Element?
    ensures Print(n, o.processEntities)
            == "<" + (n.name + PrintAttrs(n.attrs, o.processEntities) + PrintBody(n.name, n.children, o.processEntities))
  {
    hide PrintNodes, PrintAttrs, PrintBody;
  }

  lemma Regroup(a: string, b: string, c: string, rest: string, close: string, after: string)
    requires c + rest == close + after
    ensures "<" + (a + b + c) + rest == "<" + (a + b + close + after)
    ensures a + b + c + rest == a + b + close + after
  {
    assert a + b + c + rest == a + b + (c + rest) == a + b + close + after;
    assert "<" + (a + b + c) + rest == "<" + (a + b + c + rest);
  }

  lemma ElementPrinted(n: Node, rest: string, o: Options)
    requires n.Element?
    ensures var close := if n.children == [] then "/>" else ">";
            var after := AfterTag(n, rest, o);
            Print(n, o.processEntities) + rest == "<" + (n.name + PrintAttrs(n.attrs, o.processEntities) + close + after)
            && Print(n, o.processEntities)[1..] + rest == n.name + PrintAttrs(n.attrs, o.processEntities) + close + after
  {
    hide PrintNodes, PrintAttrs, PrintBody, Print;
    var close := if n.children == [] then "/>" else ">";
    var after := AfterTag(n, rest, o);
    var a, b, c := n.name, PrintAttrs(n.attrs, o.processEntities), PrintBody(n.name, n.children, o.processEntities);
    BodyPrinted(n, rest, o);
    ElementStarts(n, o);
    Regroup(a, b, c, rest, close, after);
    assert Print(n, o.processEntities)[1..] == a + b + c;
  }

  lemma {:induction false} ChildrenNotAtEnd(nodes: seq<Node>, rest: string, depth: nat, isDocument: bool,
                                            done: seq<Node>, o: Options)
    requires ReadableNodes(nodes, depth, isDocument, done) && StartsTag(rest)
    ensures !AtEnd(PrintNodes(nodes, o.processEntities) + rest)
    decreases |nodes|
  {
    hide Print, Readable, Fits;
    if nodes == [] {
      assert PrintNodes(nodes, o.processEntities) + rest == rest;
    } else {
      var more := PrintNodes(nodes[1..], o.processEntities) + rest;
      assert PrintNodes(nodes, o.processEntities) + rest == Print(nodes[0], o.processEntities) + more;
      ChildrenNotAtEnd(nodes[1..], rest, depth, isDocument, done + [nodes[0]], o);
      NodeStart(nodes[0], more, depth, o);
    }
  }

  lemma NodeStart(n: Node, rest: string, depth: nat, o: Options)
    requires Readable(n, depth)
    ensures !IsPlainText(n) ==> StartsTag(Print(n, o.processEntities) + rest)
    ensures !AtEnd(rest) || !IsPlainText(n) ==> !AtEnd(Print(n, o.processEntities) + rest)
  {
    hide Quoted;
    if IsPlainText(n) {
      if n.text == [] {
        QuotedNothing(o.processEntities);
        assert Print(n, o.processEntities) + rest == rest;
      } else {
        TextNotAtEnd(n.text, rest, o);
      }
    } else if n.Element? {
      ElementPrinted(n, rest, o);
      NameStartIsNoSpace(n.name[0]);
      assert (Print(n, o.processEntities) + rest)[1] == n.name[0];
    } else {
      var line' := LeafIdentified(n, rest, 1, depth, o);
    }
  }

  /** One turn of the children loop: the printed node is read, and inserted unless it is blank text. */
  lemma {:induction false} NodeRead(n: Node, rest: string, line: nat, depth: nat, isDocument: bool, done: seq<Node>,
                                    o: Options)
    returns (line': nat)
    requires Readable(n, depth) && Delimited(n, o) && Fits(n, isDocument, done)
    requires IsPlainText(n) ==> StartsTag(rest)
    ensures ParseNodes(Print(n, o.processEntities) + rest, line, depth, isDocument, Reread(done, o), o)
            == ParseNodes(rest, line', depth, isDocument, Reread(done + [n], o), o)
    decreases n, 3
  {
    hide Print, Reread, Readable, Delimited, Fits, ParseNodes;
    RereadMore(done, n, o);
    if IsPlainText(n) {
      line' := PlainTextRead(n, rest, line, depth, isDocument, done, o);
    } else if n.Element? {
      line' := ElementTurn(n, rest, line, depth, isDocument, done, o);
    } else {
      line' := LeafTurn(n, rest, line, depth, isDocument, done, o);
    }
  }

  lemma {:induction false} ElementTurn(n: Node, rest: string, line: nat, depth: nat, isDocument: bool, done: seq<Node>,
                                       o: Options)
    returns (line': nat)
    requires Readable(n, depth) && Delimited(n, o) && n.Element?
    ensures ParseNodes(Print(n, o.processEntities) + rest, line, depth, isDocument, Reread(done, o), o)
            == ParseNodes(rest, line', depth, isDocument, Reread(done, o) + RereadNode(n, o), o)
    decreases n, 2
  {
    hide Print, ParseNode, Identify, Reread, RereadAttrs;
    NodeStart(n, rest, depth, o);
    ElementPrinted(n, rest, o);
    var t := Print(n, o.processEntities)[1..] + rest;
    line' := ElementRead(n, rest, line, depth, o);
    IdentifyElement(t, line);
    ElementKindParses(t, line, depth, o);
    EmptyReread(o);
  }

  lemma EmptyReread(o: Options)
    ensures Reread([], o) == []
  {
  }

  lemma LeafTurn(n: Node, rest: string, line: nat, depth: nat, isDocument: bool, done: seq<Node>, o: Options)
    returns (line': nat)
    requires Readable(n, depth) && IsLeaf(n) && Fits(n, isDocument, done)
    ensures ParseNodes(Print(n, o.processEntities) + rest, line, depth, isDocument, Reread(done, o), o)
            == ParseNodes(rest, line', depth, isDocument, Reread(done, o) + RereadNode(n, o), o)
  {
    hide Print, ParseNode, Identify, Reread, Readable;
    NodeStart(n, rest, depth, o);
    line' := LeafIdentified(n, rest, line, depth, o);
    if n.Declaration? {
      DeclarationsStay(done, o);
      assert done != [] ==> done[0] in done && done[|done| - 1] in done;
    }
  }

  lemma ElementKindParses(t: string, line: nat, depth: nat, o: Options)
    ensures ParseNode(ElementKind, t, line, line, depth, o) == ParseElement(t, line, line, depth, o)
  {
  }

  lemma PlainTextRead(n: Node, rest: string, line: nat, depth: nat, isDocument: bool, done: seq<Node>, o: Options)
    returns (line': nat)
    requires Readable(n, depth) && Delimited(n, o) && IsPlainText(n) && StartsTag(rest)
    ensures ParseNodes(Print(n, o.processEntities) + rest, line, depth, isDocument, Reread(done, o), o)
            == ParseNodes(rest, line', depth, isDocument, Reread(done, o) + RereadNode(n, o), o)
  {
    hide Quoted, Identify, ParseNode, Reread, IsBlank, Respaced, Closes;
    if IsBlank(n.text) {
      hide ParseNodes;
      line' := BlankRead(n.text, rest, line, depth, isDocument, Reread(done, o), o);
      assert Reread(done, o) + [] == Reread(done, o);
    } else {
      NotBlank(n.text);
      TextNotAtEnd(n.text, rest, o);
      line' := TextIdentified(n.text, rest, line, depth, o);
    }
  }

  lemma NotBlank(text: string)
    requires !IsBlank(text)
    ensures text != []
  {
  }

  /** A list of nodes, printed and followed by `rest`, is read up to `rest`. */
  lemma {:induction false} NodesRoundTrip(nodes: seq<Node>, rest: string, line: nat, depth: nat, isDocument: bool,
                                          done: seq<Node>, o: Options)
    returns (line': nat)
    requires ReadableNodes(nodes, depth, isDocument, done) && DelimitedNodes(nodes, o)
    requires EndsInText(nodes) ==> StartsTag(rest)
    ensures ParseNodes(PrintNodes(nodes, o.processEntities) + rest, line, depth, isDocument, Reread(done, o), o)
            == ParseNodes(rest, line', depth, isDocument, Reread(done + nodes, o), o)
    decreases nodes, 4
  {
    hide Print, Readable, Delimited, ParseNodes, Reread;
    if nodes == [] {
      assert PrintNodes(nodes, o.processEntities) + rest == rest && done + nodes == done;
      line' := line;
    } else {
      var n := nodes[0];
      var more := PrintNodes(nodes[1..], o.processEntities) + rest;
      assert PrintNodes(nodes, o.processEntities) + rest == Print(n, o.processEntities) + more;
      if IsPlainText(n) {
        NextIsTag(nodes[1..], rest, depth, isDocument, done + [n], o);
      }
      line' := NodeRead(n, more, line, depth, isDocument, done, o);
      line' := NodesRoundTrip(nodes[1..], rest, line', depth, isDocument, done + [n], o);
      assert done + [n] + nodes[1..] == done + nodes;
    }
  }

  lemma NextIsTag(nodes: seq<Node>, rest: string, depth: nat, isDocument: bool, done: seq<Node>, o: Options)
    requires ReadableNodes(nodes, depth, isDocument, done) && EndsInText(done) && (nodes == [] ==> StartsTag(rest))
    ensures StartsTag(PrintNodes(nodes, o.processEntities) + rest)
  {
    hide Print, Readable;
    if nodes == [] {
      assert PrintNodes(nodes, o.processEntities) + rest == rest;
    } else {
      var more := PrintNodes(nodes[1..], o.processEntities) + rest;
      assert PrintNodes(nodes, o.processEntities) + rest == Print(nodes[0], o.processEntities) + more;
      NodeStart(nodes[0], more, depth, o);
    }
  }

  // ---- Documents -----------------------------------------------------------------------------------------

  /** What follows a document that has been printed: a tag, or nothing. */
  predicate Follows(rest: string) {
    StartsTag(rest) || rest == ""
  }

  /** The byte order mark is printed as it is. */
  lemma BomQuoted(text: string, more: string, o: Options)
    requires Follows(more)
    ensures BOM <= Quoted(text, true, o.processEntities) + more <==> BOM <= text
    ensures BOM <= text ==>
              (Quoted(text, true, o.processEntities) + more)[3..] == Quoted(text[3..], true, o.processEntities) + more
  {
    hide Quoted;
    var t := Quoted(text, true, o.processEntities) + more;
    BomIs(text);
    BomIs(t);
    OneQuoted(text, more, BOM[0], o);
    if At(text, 0) == BOM[0] {
      assert At(text[1..], 0) == At(text, 1);
      OneQuoted(text[1..], more, BOM[1], o);
      if At(text, 1) == BOM[1] {
        assert text[1..][1..] == text[2..] && At(text[2..], 0) == At(text, 2);
        OneQuoted(text[2..], more, BOM[2], o);
        assert |text| > 2 ==> text[2..][1..] == text[3..];
      }
    }
  }

  lemma BomIs(t: string)
    ensures BOM <= t <==> At(t, 0) == BOM[0] && At(t, 1) == BOM[1] && At(t, 2) == BOM[2]
  {
  }

  lemma OneQuoted(text: string, more: string, c: char, o: Options)
    requires Follows(more) && c as int >= 128
    ensures var t := Quoted(text, true, o.processEntities) + more;
            && (At(t, 0) == c <==> At(text, 0) == c)
            && (At(text, 0) == c ==> text != [] && t == [c] + (Quoted(text[1..], true, o.processEntities) + more))
  {
    hide Quoted, QuotedChar;
    if text == [] {
      QuotedNothing(o.processEntities);
      assert "" + more == more;
    } else if text[0] != NUL {
      QuotedFirst(text, more, o.processEntities);
    } else {
      NulQuoted(text, more, o);
    }
  }

  lemma NulQuoted(text: string, more: string, o: Options)
    requires text != [] && text[0] == NUL
    ensures At(Quoted(text, true, o.processEntities) + more, 0) == NUL
  {
    assert o.processEntities ==> Escape(text, true) == [NUL] + Escape(text[1..], true);
  }

  /** A text that begins plainly is not skipped. */
  lemma PlainStart(text: string, more: string, o: Options)
    requires StartsPlainly(text) && NUL !in text && Follows(more)
    ensures var s := Quoted(text, true, o.processEntities) + more;
            TrimLeft(s) == s && !(BOM <= s)
  {
    hide Quoted, QuotedChar;
    var s := Quoted(text, true, o.processEntities) + more;
    assert text[0] in text;
    QuotedFirst(text, more, o.processEntities);
    BomQuoted(text, more, o);
  }

  /** The nodes of a document read up to `rest`. */
  lemma ChildrenOfDocumentRead(children: seq<Node>, rest: string, line: nat, o: Options) returns (line': nat)
    requires ReadableNodes(children, 1, true, []) && FaithfulNodes(children, o) && DelimitedNodes(children, o)
    requires children != [] && !EndsInText(children) && Follows(rest)
    ensures !AtEnd(PrintNodes(children, o.processEntities) + rest)
    ensures ParseNodes(PrintNodes(children, o.processEntities) + rest, line, 1, true, [], o)
            == ParseNodes(rest, line', 1, true, children, o)
  {
    hide Print, Readable, ParseNodes, Reread, Delimited, Faithful;
    var n, more := children[0], PrintNodes(children[1..], o.processEntities) + rest;
    assert PrintNodes(children, o.processEntities) + rest == Print(n, o.processEntities) + more;
    assert [] + children == children && [] + [n] == [n];
    if IsPlainText(n) {
      NextIsTag(children[1..], rest, 1, true, [n], o);
    }
    NodeStart(n, more, 1, o);
    EmptyReread(o);
    NodesExactly(children, o);
    line' := NodesRoundTrip(children, rest, line, 1, true, [], o);
  }

  /** Without a byte order mark, Parse skips nothing of it. */
  lemma ChildrenStart(children: seq<Node>, rest: string, o: Options)
    requires ReadableNodes(children, 1, true, []) && children != [] && !EndsInText(children) && Follows(rest)
    requires IsPlainText(children[0]) ==> StartsPlainly(children[0].text)
    ensures var t := PrintNodes(children, o.processEntities) + rest;
            TrimLeft(t) == t && !(BOM <= t)
  {
    hide Print, Readable, StartsPlainly, TrimLeft, Quoted;
    var n, more := children[0], PrintNodes(children[1..], o.processEntities) + rest;
    var t := PrintNodes(children, o.processEntities) + rest;
    assert t == Print(n, o.processEntities) + more && [] + [n] == [n];
    if IsPlainText(n) {
      NextIsTag(children[1..], rest, 1, true, [n], o);
      PlainPrinted(n, 1, o);
      PlainStart(n.text, more, o);
    } else {
      NodeStart(n, more, 1, o);
      TagStart(t);
    }
  }

  /** Parse skips nothing but a byte order mark. */
  lemma DocumentStart(children: seq<Node>, bom: bool, rest: string, o: Options)
    requires NormalDocument(children, bom, o) && Follows(rest)
    ensures var s := Printed(children, bom, o.processEntities) + rest;
            && TrimLeft(s) == s && (BOM <= s <==> bom) && SkipBOM(s) == PrintNodes(children, o.processEntities) + rest
  {
    hide PrintNodes, ReadableNodes, FaithfulNodes, StartsPlainly, DelimitedNodes, TrimLeft;
    var p := PrintNodes(children, o.processEntities);
    if bom {
      BomStart(p + rest);
      assert BOM + p + rest == BOM + (p + rest);
    } else {
      ChildrenStart(children, rest, o);
      assert "" + p == p;
    }
  }

  lemma BomStart(t: string)
    ensures TrimLeft(BOM + t) == BOM + t && BOM <= BOM + t && SkipBOM(BOM + t) == t && !AtEnd(BOM + t)
  {
    assert (BOM + t)[0] == BOM[0];
  }

  /** A document read up to `rest`. */
  lemma DocumentRead(children: seq<Node>, bom: bool, rest: string, o: Options) returns (line: nat, r: NodesResult)
    requires NormalDocument(children, bom, o) && Follows(rest)
    ensures r == ParseNodes(rest, line, 1, true, children, o)
    ensures Parse(Printed(children, bom, o.processEntities) + rest, o)
            == if r.Stopped? then NotParsed(r.error) else Parsed(r.nodes, bom)
  {
    hide PrintNodes, ReadableNodes, ParseNodes, Lines, TrimLeft, FaithfulNodes, DelimitedNodes, StartsPlainly, Printed;
    var s, t := Printed(children, bom, o.processEntities) + rest, PrintNodes(children, o.processEntities) + rest;
    DocumentStart(children, bom, rest, o);
    SkippedEnd(s);
    line := ChildrenOfDocumentRead(children, rest, 1 + Lines(s, s), o);
    r := ParseNodes(rest, line, 1, true, children, o);
  }

  lemma SkippedEnd(s: string)
    ensures AtEnd(s) ==> AtEnd(SkipBOM(s))
  {
  }

  lemma PlainPrinted(n: Node, depth: nat, o: Options)
    requires IsPlainText(n) && Readable(n, depth)
    ensures Print(n, o.processEntities) == Quoted(n.text, true, o.processEntities) && NUL !in n.text
  {
  }

  lemma TagStart(s: string)
    requires StartsTag(s)
    ensures !AtEnd(s) && TrimLeft(s) == s && !(BOM <= s) && SkipBOM(s) == s
  {
  }

  lemma NothingLeft(line: nat, done: seq<Node>, o: Options)
    ensures ParseNodes("", line, 1, true, done, o) == Ended(done)
  {
  }

  /** Printing any document in normal form, with its own flags, and parsing the output rebuilds the same document. */
  lemma DocumentRoundTrip(children: seq<Node>, bom: bool, o: Options)
    requires NormalDocument(children, bom, o)
    ensures Parse(Printed(children, bom, o.processEntities), o) == Parsed(children, bom)
  {
    hide Parse, Printed, NormalDocument, ParseNodes;
    var line, r := DocumentRead(children, bom, "", o);
    NothingLeft(line, children, o);
    assert Printed(children, bom, o.processEntities) + "" == Printed(children, bom, o.processEntities);
  }

  /** An end tag that nothing opened ends the document without an error: whatever follows is ignored. */
  lemma StrayEndTag(children: seq<Node>, bom: bool, name: string, ignored: string, o: Options)
    requires NormalDocument(children, bom, o) && ValidName(name)
    ensures Parse(Printed(children, bom, o.processEntities) + ("</" + name + ">" + ignored), o)
            == Parsed(children, bom)
  {
    hide Parse, Printed, NormalDocument, ParseNodes;
    var tag := "</" + name + ">" + ignored;
    assert tag[0] == '<' && tag[1] == '/';
    var line, r := DocumentRead(children, bom, tag, o);
    var line' := EndTagRead(name, ignored, line, 1, true, children, o);
  }

  /** `rest` begins with a complete end tag: `<`, blanks, `/`, a name, attributes, `>`. */
  predicate BeginsWithEndTag(rest: string, o: Options) {
    && StartsTag(rest)
    && var u := TrimLeft(rest[1..]);
    && At(u, 0) == '/' && At(u, 1) != NUL && IsNameStartChar(u[1])
    && var a := ParseAttributes(DropName(u[1..]), 1, 1, [], o);
    && a.Attrs? && !a.closed
  }

  /** A printed document followed by anything that starts like a tag reads as the document alone, and
      without an error, exactly when that begins with an end tag: then all of it is ignored. */
  lemma StrayEndTagExactly(children: seq<Node>, bom: bool, rest: string, o: Options)
    requires NormalDocument(children, bom, o) && Follows(rest)
    ensures Parse(Printed(children, bom, o.processEntities) + rest, o) == Parsed(children, bom)
            <==> rest == "" || BeginsWithEndTag(rest, o)
  {
    hide Parse, Printed, NormalDocument, ParseNodes, StartsTag, BeginsWithEndTag;
    var line, r := DocumentRead(children, bom, rest, o);
    if rest == "" {
      NothingLeft(line, children, o);
    } else {
      TagAfter(rest, line, children, o);
    }
  }

  /** What the loop over the top-level nodes makes of a text that starts like a tag. */
  lemma TagAfter(rest: string, line: nat, done: seq<Node>, o: Options)
    requires StartsTag(rest)
    ensures var r := ParseNodes(rest, line, 1, true, done, o);
            BeginsWithEndTag(rest, o) <==> !r.Stopped? && r.nodes == done
  {
    hide Identify, ParseNodes, ParseNode, BeginsWithEndTag;
    TagHeader(rest, line);
    var f := Identify(rest, line);
    var p := ParseNode(f.kind, f.rest, f.line, f.nodeLine, 1, o);
    OneTurn(rest, line, done, o);
    EndTagExactly(rest, line, o);
  }

  lemma TagHeader(rest: string, line: nat)
    requires StartsTag(rest)
    ensures Identify(rest, line).Found? && Identify(rest, line).kind != TextKind
    ensures Identify(rest, line).kind == ElementKind ==> Identify(rest, line) == Found(ElementKind, rest[1..], line, line)
    ensures rest[1] == '/' || IsWhiteSpace(rest[1]) ==> Identify(rest, line).kind == ElementKind
  {
    hide TrimLeft, Lines;
    TrimTag(rest, line);
    assert rest[0] == '<';
    assert "<" <= rest;
  }

  predicate IsEndTag(p: NodeResult) {
    p.Elem? && p.closing == IsClosing
  }

  /** One turn of the loop either stops at an end tag, or fails, or inserts a node for good. */
  lemma OneTurn(t: string, line: nat, done: seq<Node>, o: Options)
    requires StartsTag(t)
    ensures Identify(t, line).Found?
    ensures var f := Identify(t, line);
            var r := ParseNodes(t, line, 1, true, done, o);
            IsEndTag(ParseNode(f.kind, f.rest, f.line, f.nodeLine, 1, o)) <==> !r.Stopped? && r.nodes == done
  {
    hide Identify, ParseNode;
    TagHeader(t, line);
    var f := Identify(t, line);
    match ParseNode(f.kind, f.rest, f.line, f.nodeLine, 1, o)
    case Leaf(node, rest, l) => DoneStays(rest, l, 1, true, done + [node], o);
    case Elem(name, attrs, closing, children, endTag, rest, l) =>
      DoneStays(rest, l, 1, true, done + [Element(name, attrs, children)], o);
    case _ =>
  }

  /** The nodes inserted so far stay: the loop only adds to them. */
  lemma {:induction false} DoneStays(t: string, line: nat, depth: nat, isDocument: bool, done: seq<Node>, o: Options)
    ensures var r := ParseNodes(t, line, depth, isDocument, done, o);
            !r.Stopped? ==> done <= r.nodes
    decreases |t|
  {
    hide Identify, ParseNode;
    if !AtEnd(t) && Identify(t, line).Found? {
      var f := Identify(t, line);
      match ParseNode(f.kind, f.rest, f.line, f.nodeLine, depth, o)
      case Leaf(node, rest, l) => DoneStays(rest, l, depth, isDocument, done + [node], o);
      case Elem(name, attrs, closing, children, endTag, rest, l) =>
        DoneStays(rest, l, depth, isDocument, done + [Element(name, attrs, children)], o);
      case _ =>
    }
  }

  /** An element is an end tag exactly when the text says so. */
  lemma EndTagExactly(rest: string, line: nat, o: Options)
    requires StartsTag(rest)
    ensures var f := Identify(rest, line);
            f.Found? && (BeginsWithEndTag(rest, o) <==> IsEndTag(ParseNode(f.kind, f.rest, f.line, f.nodeLine, 1, o)))
  {
    hide Identify, TrimLeft, DropName, ParseAttributes, ParseElement, Lines;
    TagHeader(rest, line);
    var f := Identify(rest, line);
    var u := TrimLeft(rest[1..]);
    TrimStart(rest[1..]);
    if f.kind == ElementKind {
      ClosingRead(rest[1..], line, o);
      if At(u, 0) == '/' && |u| > 1 {
        AttributesAnyLine(DropName(u[1..]), line + Lines(rest[1..], u), line, 1, 1, [], o);
      }
    }
  }

  lemma TrimStart(t: string)
    ensures At(TrimLeft(t), 0) == '/' ==> t != [] && (t[0] == '/' || IsWhiteSpace(t[0]))
  {
  }

  lemma ClosingRead(t: string, line: nat, o: Options)
    ensures var u := TrimLeft(t);
            IsEndTag(ParseElement(t, line, line, 1, o))
            <==> At(u, 0) == '/' && |u| > 1 && IsNameStartChar(u[1])
                 && var a := ParseAttributes(DropName(u[1..]), line + Lines(t, u), line, [], o);
                    a.Attrs? && !a.closed
  {
    hide TrimLeft, DropName, TakeName, ParseAttributes, ParseNodes, Lines;
  }

  /** Line numbers do not decide whether attributes can be read. */
  lemma {:induction false} AttributesAnyLine(t: string, l: nat, e: nat, l': nat, e': nat, done: seq<Attr>, o: Options)
    ensures var a, b := ParseAttributes(t, l, e, done, o), ParseAttributes(t, l', e', done, o);
            a.Attrs? == b.Attrs? && (a.Attrs? ==> a.closed == b.closed)
    decreases |t|
  {
    hide TrimLeft, ParseAttr, Lines, HasAttr;
    var u := TrimLeft(t);
    var m, m' := l + Lines(t, u), l' + Lines(t, u);
    AttrAnyLine(u, m, m', o);
    if ParseAttr(u, m, o).SomeAttr? {
      var a, a' := ParseAttr(u, m, o), ParseAttr(u, m', o);
      AttributesAnyLine(a.rest, a.line, e, a'.line, e', done + [a.attr], o);
    }
  }

  lemma AttrAnyLine(t: string, l: nat, l': nat, o: Options)
    ensures var a, b := ParseAttr(t, l, o), ParseAttr(t, l', o);
            a.SomeAttr? == b.SomeAttr? && (a.SomeAttr? ==> a.attr == b.attr && a.rest == b.rest)
  {
    hide TrimLeft, DropName, TakeName, FindTag, Value, Lines;
  }
}
