/** The limit on nesting: 99 elements within one another can be parsed, and no more. */
module XmlDepth {
  import opened Wrappers
  import opened XmlUtil
  import opened XmlTree
  import opened XmlPrinter
  import opened XmlParser
  import opened XmlText
  import opened XmlMarks
  import opened XmlRoundTrip
  import opened XmlEndTags

  /** An empty element inside `n` others, as text and as a tree. */
  function Nested(n: nat): string {
    if n == 0 then "<a/>" else "<a>" + Nested(n - 1) + "</a>"
  }

  function NestedTree(n: nat): Node {
    Element("a", [], if n == 0 then [] else [NestedTree(n - 1)])
  }

  lemma {:induction false} NestedPrinted(n: nat, e: bool)
    ensures Print(NestedTree(n), e) == Nested(n) && PrintNodes([NestedTree(n)], e) == Nested(n)
  {
    hide PrintNodes;
    if n > 0 { NestedPrinted(n - 1, e); }
    OnePrinted(NestedTree(n), e);
  }

  lemma OnePrinted(n: Node, e: bool)
    ensures PrintNodes([n], e) == Print(n, e)
  {
    hide Print;
    assert [n][1..] == [] && Print(n, e) + [] == Print(n, e);
  }

  lemma {:induction false} NestedNormal(n: nat, depth: nat, isDocument: bool, o: Options)
    requires depth + n < 100
    ensures ReadableNodes([NestedTree(n)], depth, isDocument, [])
    ensures FaithfulNodes([NestedTree(n)], o) && DelimitedNodes([NestedTree(n)], o)
  {
    hide ReadableNodes, FaithfulNodes, DelimitedNodes, Readable, Faithful, Delimited;
    var t := NestedTree(n);
    if n > 0 {
      NestedNormal(n - 1, depth + 1, false, o);
    } else {
      NothingInside(depth + 1, o);
    }
    PlainElement(t, depth, o);
    OneNormal(t, depth, isDocument, o);
  }

  lemma NothingInside(depth: nat, o: Options)
    ensures ReadableNodes([], depth, false, []) && FaithfulNodes([], o) && DelimitedNodes([], o)
  {
  }

  lemma PlainElement(n: Node, depth: nat, o: Options)
    requires n.Element? && n.name == "a" && n.attrs == [] && (n.children != [] ==> depth + 1 < 100)
    requires ReadableNodes(n.children, depth + 1, false, []) && FaithfulNodes(n.children, o) && DelimitedNodes(n.children, o)
    ensures Readable(n, depth) && Faithful(n, o) && Delimited(n, o)
  {
    hide ReadableNodes, FaithfulNodes, DelimitedNodes;
  }

  lemma OneNormal(n: Node, depth: nat, isDocument: bool, o: Options)
    requires n.Element? && Readable(n, depth) && Faithful(n, o) && Delimited(n, o)
    ensures ReadableNodes([n], depth, isDocument, []) && FaithfulNodes([n], o) && DelimitedNodes([n], o)
  {
    hide Readable, Faithful, Delimited;
    assert [n][1..] == [];
  }

  /** Too many of them stop every loop they are in. */
  lemma {:induction false} TooDeep(n: nat, rest: string, line: nat, depth: nat, isDocument: bool, done: seq<Node>, o: Options)
    requires depth < 100 && depth + n >= 100
    ensures var r := ParseNodes(Nested(n) + rest, line, depth, isDocument, done, o);
            r.Stopped? && r.error.id == ElementDepthExceeded
    decreases n
  {
    hide ParseNodes, ReadTag, Identify, Nested;
    var after := Nested(n - 1) + ("</a>" + rest);
    var u := "a" + PrintAttrs([], o.processEntities) + ">" + after;
    NestedStarts(n, rest, o);
    var l := OpenTag("a", [], after, line, o);
    IdentifyElement(u, line);
    ElementKindParses(u, line, depth, o);
    if depth < 99 { TooDeep(n - 1, "</a>" + rest, l, depth + 1, false, [], o); }
    NodesStep("<" + u, line, depth, isDocument, done, o);
  }

  lemma NestedStarts(n: nat, rest: string, o: Options)
    requires n > 0
    ensures var after := Nested(n - 1) + ("</a>" + rest);
            !AtEnd(after) && Nested(n) + rest == "<" + ("a" + PrintAttrs([], o.processEntities) + ">" + after)
  {
    assert Nested(n - 1)[0] == '<';
    assert Nested(n - 1) + ("</a>" + rest) == Nested(n - 1) + "</a>" + rest;
  }

  /** An element inside 98 others is parsed, and one inside 99 is not. */
  lemma DepthExactly(n: nat, o: Options)
    ensures if n <= 98 then Parse(Nested(n), o) == Parsed([NestedTree(n)], false)
            else Parse(Nested(n), o).NotParsed? && Parse(Nested(n), o).error.id == ElementDepthExceeded
  {
    hide ParseNodes, Nested, NestedTree, ReadableNodes, FaithfulNodes, DelimitedNodes, PrintNodes;
    if n <= 98 {
      hide Parse;
      NestedNormal(n, 1, true, o);
      NestedPrinted(n, o.processEntities);
      assert "" + Nested(n) == Nested(n);
      ElementIsNoText(n);
      DocumentRoundTrip([NestedTree(n)], false, o);
    } else {
      NestedTag(n);
      TagStart(Nested(n));
      TrimTag(Nested(n), 1);
      TooDeep(n, "", 1, 1, true, [], o);
      assert Nested(n) + "" == Nested(n);
    }
  }

  lemma ElementIsNoText(n: nat)
    ensures NestedTree(n).Element?
  {
  }

  lemma NestedTag(n: nat)
    ensures StartsTag(Nested(n))
  {
  }
}
