/** What parsing makes of the printed form of any parsed document, and exactly which parsed documents come back. */
module XmlReread {
  import opened Wrappers
  import opened XmlUtil
  import opened CharRefs
  import opened StrPairs
  import opened GetStr
  import opened XmlTree
  import opened XmlPrinter
  import opened XmlParser
  import opened XmlText
  import opened XmlParsed
  import opened XmlRoundTrip
  import opened XmlUnfaithful
  import XmlDocument

  // ---- Parsed trees are readable -----------------------------------------------------------------------

  /** A tree as parsing leaves it can be printed and read, node by node. */
  lemma {:induction false} NodeIsReadable(n: Node, depth: nat)
    requires NodeOk(n, depth)
    ensures Readable(n, depth)
    decreases n, 1
  {
    if n.Element? {
      assert [] + n.children == n.children;
      TreeIsReadable(n.children, depth + 1, false, []);
    }
  }

  lemma {:induction false} TreeIsReadable(nodes: seq<Node>, depth: nat, isDocument: bool, done: seq<Node>)
    requires TreeOk(done + nodes, depth, isDocument)
    ensures ReadableNodes(nodes, depth, isDocument, done)
    decreases nodes, 0
  {
    hide NodeOk, Readable;
    if nodes != [] {
      var all, n := done + nodes, nodes[0];
      assert all[|done|] == n && n in all;
      NodeIsReadable(n, depth);
      NodeFits(all, |done|, depth, isDocument);
      assert all[..|done|] == done;
      assert done + [n] + nodes[1..] == all;
      TreeIsReadable(nodes[1..], depth, isDocument, done + [n]);
    }
  }

  lemma NodeFits(all: seq<Node>, i: nat, depth: nat, isDocument: bool)
    requires TreeOk(all, depth, isDocument) && i < |all|
    ensures Fits(all[i], isDocument, all[..i])
  {
    hide NodeOk;
    assert all[i] in all;
    assert i > 0 ==> all[..i][i - 1] == all[i - 1];
  }

  // ---- The beginning of a document ---------------------------------------------------------------------

  /** The document without what Parse skips before its first node: white space, then a byte order mark. */
  function Started(children: seq<Node>): (d: seq<Node>)
    ensures |d| == |children|
  {
    if children != [] && IsPlainText(children[0])
    then [Text(SkipBOM(TrimLeft(children[0].text)), false)] + children[1..]
    else children
  }

  /** Printed without a byte order mark, a first text is read as one if it begins like one. */
  predicate ReadsBOM(children: seq<Node>) {
    children != [] && IsPlainText(children[0]) && BOM <= TrimLeft(children[0].text)
  }

  lemma {:induction false} TrimQuoted(text: string, more: string, o: Options)
    requires NUL !in text && Follows(more)
    ensures TrimLeft(Quoted(text, true, o.processEntities) + more) == Quoted(TrimLeft(text), true, o.processEntities) + more
  {
    hide QuotedChar, Quoted;
    if text == [] {
      QuotedNothing(o.processEntities);
      assert "" + more == more;
    } else {
      var later := Quoted(text[1..], true, o.processEntities) + more;
      assert text[0] in text && forall c | c in text[1..] :: c in text;
      QuotedFirst(text, more, o.processEntities);
      assert ([text[0]] + later)[1..] == later;
      TrimQuoted(text[1..], more, o);
    }
  }

  lemma BomSkipped(text: string, more: string, o: Options)
    requires Follows(more)
    ensures SkipBOM(Quoted(text, true, o.processEntities) + more) == Quoted(SkipBOM(text), true, o.processEntities) + more
    ensures BOM <= Quoted(text, true, o.processEntities) + more <==> BOM <= text
  {
    hide Quoted;
    BomQuoted(text, more, o);
  }

  /** What follows the first node of a document that begins with text. */
  lemma AfterFirstText(children: seq<Node>, o: Options)
    requires ReadableNodes(children, 1, true, []) && children != [] && IsPlainText(children[0])
    ensures Follows(PrintNodes(children[1..], o.processEntities))
  {
    hide Print, Readable;
    var more := PrintNodes(children[1..], o.processEntities);
    if children[1..] == [] {
      NothingPrinted(o.processEntities);
    } else {
      assert more + "" == more && [] + [children[0]] == [children[0]];
      NextIsTag(children[1..], "", 1, true, [children[0]], o);
    }
  }

  lemma StartedPrints(children: seq<Node>, o: Options)
    requires ReadableNodes(children, 1, true, [])
    ensures var u := TrimLeft(PrintNodes(children, o.processEntities));
            SkipBOM(u) == PrintNodes(Started(children), o.processEntities) && (BOM <= u <==> ReadsBOM(children))
  {
    hide Print, TrimLeft, Quoted, Readable;
    if children == [] {
      NothingSkipped(o);
    } else if IsPlainText(children[0]) {
      var text, more, d := children[0].text, PrintNodes(children[1..], o.processEntities), Started(children);
      AfterFirstText(children, o);
      PlainPrinted(children[0], 1, o);
      TrimQuoted(text, more, o);
      BomSkipped(TrimLeft(text), more, o);
      TextPrinted(SkipBOM(TrimLeft(text)), o);
      assert d[0] == Text(SkipBOM(TrimLeft(text)), false) && d[1..] == children[1..];
    } else {
      var more := PrintNodes(children[1..], o.processEntities);
      NodeStart(children[0], more, 1, o);
      TagStart(PrintNodes(children, o.processEntities));
    }
  }

  lemma NothingSkipped(o: Options)
    ensures SkipBOM(TrimLeft("")) == "" && !(BOM <= TrimLeft("")) && PrintNodes([], o.processEntities) == ""
  {
  }

  lemma TextPrinted(text: string, o: Options)
    ensures Print(Text(text, false), o.processEntities) == Quoted(text, true, o.processEntities)
  {
  }

  /** What is left of a text whose beginning is skipped. */
  lemma SuffixOfText(text: string)
    requires NUL !in text
    ensures NUL !in SkipBOM(TrimLeft(text)) && |SkipBOM(TrimLeft(text))| <= |text|
    ensures '<' !in text ==> '<' !in SkipBOM(TrimLeft(text))
  {
    TrimLeftIsSuffix(text);
    var k := |text| - |TrimLeft(text)|;
    assert forall c | c in text[k..] :: c in text;
    assert BOM <= TrimLeft(text) ==> forall c | c in TrimLeft(text)[3..] :: c in TrimLeft(text);
  }

  /** Nodes fit equally after lists that end alike. */
  lemma {:induction false} ReadableAfter(nodes: seq<Node>, depth: nat, isDocument: bool, done: seq<Node>, done': seq<Node>)
    requires ReadableNodes(nodes, depth, isDocument, done) && EndsInText(done) == EndsInText(done')
    requires (forall d | d in done :: d.Declaration?) ==> forall d | d in done' :: d.Declaration?
    ensures ReadableNodes(nodes, depth, isDocument, done')
    decreases |nodes|
  {
    hide Readable;
    if nodes != [] {
      ReadableAfter(nodes[1..], depth, isDocument, done + [nodes[0]], done' + [nodes[0]]);
    }
  }

  lemma StartedReadable(children: seq<Node>, o: Options)
    requires ReadableNodes(children, 1, true, [])
    ensures ReadableNodes(Started(children), 1, true, [])
    ensures DelimitedNodes(children, o) ==> DelimitedNodes(Started(children), o)
  {
    hide Readable, TrimLeft;
    var d := Started(children);
    if children != [] && IsPlainText(children[0]) {
      PlainPrinted(children[0], 1, o);
      SuffixOfText(children[0].text);
      TextIsReadable(SkipBOM(TrimLeft(children[0].text)));
      assert d[0].Text? && d[1..] == children[1..];
      assert [] + [children[0]] == [children[0]] && [] + [d[0]] == [d[0]];
      assert !children[0].Declaration? && children[0] in [children[0]];
      ReadableAfter(children[1..], 1, true, [children[0]], [d[0]]);
      SkippedDelimited(children[0], o);
    }
  }

  lemma SkippedDelimited(n: Node, o: Options)
    requires IsPlainText(n) && NUL !in n.text
    ensures Delimited(n, o) ==> Delimited(Text(SkipBOM(TrimLeft(n.text)), false), o)
  {
    hide TrimLeft, SkipBOM;
    SuffixOfText(n.text);
  }

  lemma TextIsReadable(text: string)
    requires NUL !in text
    ensures Readable(Text(text, false), 1)
  {
  }

  // ---- The end of a document ---------------------------------------------------------------------------

  lemma {:induction false} ReadableUpTo(nodes: seq<Node>, k: nat, depth: nat, isDocument: bool, done: seq<Node>, o: Options)
    requires ReadableNodes(nodes, depth, isDocument, done) && DelimitedNodes(nodes, o) && k < |nodes|
    ensures ReadableNodes(nodes[..k], depth, isDocument, done) && DelimitedNodes(nodes[..k], o)
    ensures Readable(nodes[k], depth) && Fits(nodes[k], isDocument, done + nodes[..k]) && Delimited(nodes[k], o)
    decreases |nodes|
  {
    hide Readable, Fits, Delimited;
    if k == 0 {
      assert done + nodes[..0] == done;
    } else {
      ReadableUpTo(nodes[1..], k - 1, depth, isDocument, done + [nodes[0]], o);
      assert nodes[..k][1..] == nodes[1..][..k - 1];
      assert done + [nodes[0]] + nodes[1..][..k - 1] == done + nodes[..k];
    }
  }

  /** Text that nothing follows is an error, unless it is blank. */
  lemma LastTextRead(text: string, line: nat, done: seq<Node>, o: Options)
    requires NUL !in text && Closes(text, true, o.processEntities)
    ensures var r := ParseNodes(Quoted(text, true, o.processEntities), line, 1, true, done, o);
            if IsBlank(text) then r == Ended(done) else r.Stopped? && r.error.id == ParsingText
  {
    hide Quoted, FindTag, TrimLeft, IsBlank, Lines, Closes;
    var t := Quoted(text, true, o.processEntities);
    assert t + "" == t;
    if IsBlank(text) {
      TrimBlank(text, "", o);
    } else {
      NotBlank(text);
      TextNotAtEnd(text, "", o);
      TrimText(text, "", o);
      QuotedFree(text, true, o.processEntities);
      NeverFound(t, '<');
    }
  }

  // ---- What comes back ---------------------------------------------------------------------------------

  /** What comes back when a document is printed and parsed; None stands for an error. */
  function PrintedAndParsed(children: seq<Node>, bom: bool, o: Options): Option<seq<Node>> {
    var d := if bom then children else Started(children);
    if AtEnd(PrintNodes(d, o.processEntities)) then None
    else if EndsInText(d) && !IsBlank(d[|d| - 1].text) then None
    else Some(Reread(d, o))
  }

  /** The loop over the top-level nodes of a printed document. */
  lemma DocumentNodesRead(d: seq<Node>, line: nat, o: Options)
    requires ReadableNodes(d, 1, true, []) && DelimitedNodes(d, o)
    ensures var r := ParseNodes(PrintNodes(d, o.processEntities), line, 1, true, [], o);
            if EndsInText(d) && !IsBlank(d[|d| - 1].text) then r.Stopped? && r.error.id == ParsingText
            else r == Ended(Reread(d, o))
  {
    hide Print, ParseNodes, Reread, Readable, IsBlank, Fits, Delimited, Closes;
    var s := PrintNodes(d, o.processEntities);
    EmptyReread(o);
    if EndsInText(d) {
      var k := |d| - 1;
      var init, last := d[..k], d[k];
      ReadableUpTo(d, k, 1, true, [], o);
      assert d[..k + 1] == d == init + [last] && [] + init == init;
      OneMoreNode(d, k, o.processEntities);
      LastFits(last, init);
      LastCloses(last, o);
      PlainPrinted(last, 1, o);
      var line' := NodesRoundTrip(init, Print(last, o.processEntities), line, 1, true, [], o);
      LastTextRead(last.text, line', Reread(init, o), o);
      RereadMore(init, last, o);
      BlankIsLost(last, o);
    } else {
      assert s + "" == s && [] + d == d;
      var line' := NodesRoundTrip(d, "", line, 1, true, [], o);
      NothingLeft(line', Reread(d, o), o);
    }
  }

  lemma LastFits(last: Node, init: seq<Node>)
    requires IsPlainText(last) && Fits(last, true, init)
    ensures !EndsInText(init)
  {
  }

  lemma LastCloses(last: Node, o: Options)
    requires IsPlainText(last) && Delimited(last, o)
    ensures Closes(last.text, true, o.processEntities)
  {
  }

  lemma BlankIsLost(n: Node, o: Options)
    requires IsPlainText(n)
    ensures IsBlank(n.text) ==> RereadNode(n, o) == []
  {
  }

  /** The parse of a printed document, by the loop over its nodes. */
  lemma PrintedParse(children: seq<Node>, bom: bool, o: Options) returns (line: nat)
    requires ReadableNodes(children, 1, true, [])
    ensures var d := if bom then children else Started(children);
            var t := PrintNodes(d, o.processEntities);
            Parse(Printed(children, bom, o.processEntities), o)
            == if AtEnd(t) then NotParsed(Error(EmptyDocument, 0))
               else match ParseNodes(t, line, 1, true, [], o)
                    case ClosedBy(nodes, _, _, _) => Parsed(nodes, bom || ReadsBOM(children))
                    case Ended(nodes) => Parsed(nodes, bom || ReadsBOM(children))
                    case Stopped(e) => NotParsed(e)
  {
    hide PrintNodes, ParseNodes, ReadableNodes, Started, TrimLeft, Lines, ReadsBOM;
    var p, s := PrintNodes(children, o.processEntities), Printed(children, bom, o.processEntities);
    line := 1 + Lines(s, TrimLeft(s));
    if bom {
      BomStart(p);
    } else {
      assert s == p;
      StartedPrints(children, o);
      EndStays(s);
    }
  }

  lemma EndStays(s: string)
    ensures AtEnd(s) ==> AtEnd(SkipBOM(TrimLeft(s)))
  {
  }

  /** Printing any parsed document with its own flags and parsing the output with the same options, unless entities are
      off and a string holds the character that is to end it: blank texts are lost, other texts and attribute values
      come back respaced, what stands before the first text is skipped, and a text at the very end is an error. */
  lemma PrintThenParse(children: seq<Node>, bom: bool, o: Options)
    requires ReadableNodes(children, 1, true, []) && DelimitedNodes(children, o)
    ensures match PrintedAndParsed(children, bom, o)
            case Some(back) =>
              Parse(Printed(children, bom, o.processEntities), o) == Parsed(back, bom || ReadsBOM(children))
            case None => Parse(Printed(children, bom, o.processEntities), o).NotParsed?
  {
    hide PrintNodes, Parse, ParseNodes, Reread, ReadableNodes, DelimitedNodes, Started, IsBlank, ReadsBOM, Printed;
    var d := if bom then children else Started(children);
    StartedReadable(children, o);
    var line := PrintedParse(children, bom, o);
    DocumentNodesRead(d, line, o);
  }

  // ---- Which documents come back -------------------------------------------------------------------------

  lemma SameWhenAsLong(text: string)
    requires |SkipBOM(TrimLeft(text))| == |text| > 0
    ensures SkipBOM(TrimLeft(text)) == text && StartsPlainly(text)
  {
    TrimLeftIsSuffix(text);
    assert |TrimLeft(text)| == |text| ==> TrimLeft(text) == text[0..];
  }

  /** Where the first node comes back, nothing was skipped before it. */
  lemma FirstComesBack(children: seq<Node>, line: nat, o: Options)
    requires ReadableNodes(children, 1, true, []) && children != []
    requires var r := ParseNodes(PrintNodes(Started(children), o.processEntities), line, 1, true, [], o);
             !r.Stopped? && r.nodes == children
    ensures Started(children) == children && (IsPlainText(children[0]) ==> StartsPlainly(children[0].text))
  {
    hide Print, ParseNodes, Readable, TrimLeft, SkipBOM, StartsPlainly, FaithfulText, Quoted;
    if IsPlainText(children[0]) {
      var d, text, more := Started(children), children[0].text, PrintNodes(children[1..], o.processEntities);
      var begin := SkipBOM(TrimLeft(text));
      assert d[0] == Text(begin, false) && d[1..] == children[1..];
      PlainPrinted(children[0], 1, o);
      SuffixOfText(text);
      TextPrinted(begin, o);
      AfterFirstText(children, o);
      TextTurn(begin, more, line, 1, true, [], o);
      if |text| == 0 {
        FaithfulIsNotBlank(begin, o);
      } else {
        SameWhenAsLong(text);
        assert d == [children[0]] + children[1..];
      }
    }
  }

  lemma FaithfulIsNotBlank(text: string, o: Options)
    ensures FaithfulText(text, o) ==> text != []
  {
  }

  /** A readable document comes back from its printed form, byte order mark included, exactly when it is printable. */
  lemma PrintsBackExactly(children: seq<Node>, bom: bool, o: Options)
    requires ReadableNodes(children, 1, true, [])
    ensures Parse(Printed(children, bom, o.processEntities), o) == Parsed(children, bom) <==> Printable(children, bom, o)
  {
    hide PrintNodes, Parse, ParseNodes, ReadableNodes, Started, StartsPlainly, FaithfulNodes, DelimitedNodes, Printed,
      ReadsBOM;
    if Printable(children, bom, o) {
      DocumentRoundTrip(children, bom, o);
    } else if Parse(Printed(children, bom, o.processEntities), o) == Parsed(children, bom) {
      var line := PrintedParse(children, bom, o);
      var d := if bom then children else Started(children);
      var t := PrintNodes(d, o.processEntities);
      NothingStarted(o);
      if !bom { FirstComesBack(children, line, o); }
      assert t + "" == t && [] + children == children;
      EmptyReread(o);
      OnlyFaithful(children, "", line, 1, true, [], o);
    }
  }

  lemma NothingStarted(o: Options)
    ensures Started([]) == [] && AtEnd(PrintNodes([], o.processEntities))
  {
  }

  /** Which parsed documents print and parse back to themselves, under the options they were parsed with: exactly those
      that hold something, whose text at the top begins plainly unless they have a byte order mark and is followed by
      another node, that have no blank text, no text that would be collapsed, no carriage return in a text or an
      attribute value, and, where entities are off, no double quote in an attribute value. */
  lemma ParsedTreesPrintBack(s: string, o: Options)
    requires Parse(s, o).Parsed?
    ensures var r := Parse(s, o);
            Parse(Printed(r.children, r.bom, o.processEntities), o) == r <==> Printable(r.children, r.bom, o)
  {
    hide Parse, ReadableNodes, Printable, TreeOk, Printed;
    var r := Parse(s, o);
    ParsedTree(s, o);
    assert [] + r.children == r.children && r == Parsed(r.children, r.bom);
    TreeIsReadable(r.children, 1, true, []);
    PrintsBackExactly(r.children, r.bom, o);
  }

  /** A program that loads a text, saves the document and loads what was saved, in two documents of the same options:
      it ends with the same children and the same flag for the byte order mark exactly when the document is printable. */
  method LoadSaveLoad(text: string, o: Options) returns (loaded: XmlDocument.XMLDocument, again: XmlDocument.XMLDocument)
    ensures loaded.error.None? ==>
              (again.error.None? && again.children == loaded.children && again.writeBOM == loaded.writeBOM
               <==> Printable(loaded.children, loaded.writeBOM, o))
  {
    hide Parse, Printable, Printed;
    loaded := new XmlDocument.XMLDocument(o);
    again := new XmlDocument.XMLDocument(o);
    loaded.Parse(text);
    if loaded.error.None? {
      var saved := loaded.Print();
      again.Parse(saved);
      ParsedTreesPrintBack(text, o);
    }
  }

  // ---- A document that does not come back ----------------------------------------------------------------

  /** An element whose only text is a blank can be parsed, and comes back empty from its printed form. */
  lemma BlankTextIsLost()
    ensures Parse("<a>&#32;</a>", DEFAULTS) == Parsed([BLANK], false)
    ensures Parse(Printed([BLANK], false, true), DEFAULTS) == Parsed([Element("a", [], [])], false)
  {
    hide Parse, ReadableNodes, Reread, Print;
    BlankIsParsed();
    BlankIsReadable();
    BlankReread();
    NodeStart(BLANK, "", 1, DEFAULTS);
    assert PrintNodes([BLANK], true) == Print(BLANK, true) + "";
    PrintThenParse([BLANK], false, DEFAULTS);
  }

  const BLANK: Node := Element("a", [], [Text(" ", false)])

  lemma BlankIsReadable()
    ensures Readable(BLANK, 1) && ReadableNodes([BLANK], 1, true, []) && DelimitedNodes([BLANK], DEFAULTS)
  {
    var text := Text(" ", false);
    assert [text][1..] == [] && [BLANK][1..] == [];
    assert ReadableNodes([text], 2, false, []);
  }

  lemma BlankReread()
    ensures Reread([BLANK], DEFAULTS) == [Element("a", [], [])]
  {
    var text := Text(" ", false);
    assert [text][1..] == [] && [BLANK][1..] == [];
    assert Reread([text], DEFAULTS) == [];
  }

  lemma BlankDigits()
    ensures AllDigits("32", 10) && CodePoint("32", 10) == 32
  {
    var d, e := "32", "32"[1..];
    assert e == "2" && e[1..] == "";
    assert Digit('3') == 3 && Digit('2') == 2 && Pow(10, 1) == 10 * Pow(10, 0) && Pow(10, 0) == 1;
    assert Positional(e, 10) == 2 && Positional(d, 10) == 32;
  }

  lemma BlankReference()
    ensures ReadCharRef("&#32;") == Ref(5, " ")
  {
    hide CodePoint, AllDigits, ReadCharRef;
    BlankDigits();
    WellFormedReference("32", false, "");
    assert "&#" + "32" + ";" + "" == "&#32;" && Utf8(32) == " ";
  }

  lemma BlankValue()
    ensures Value("&#32;", ENTITY_FLAGS) == " "
  {
    hide ReadCharRef, DecodeFrom;
    var s := "&#32;";
    BlankReference();
    DecodeFromStep(s, ENTITY_FLAGS, 0, []);
    DecodeFromStep(s, ENTITY_FLAGS, 5, " ");
    assert s[0..] == s && [] + " " == " ";
    CStringWhole(" ");
  }

  lemma ReferenceIdentified(rest: string, line: nat)
    ensures Identify("&" + rest, line) == Found(TextKind, "&" + rest, line, line)
  {
    var t := "&" + rest;
    assert t[0] == '&' && t[..0] == "";
  }

  lemma BlankTextRead(line: nat) returns (l: nat)
    ensures XmlParser.ParseText("&#32;</a>", line, line, DEFAULTS) == Leaf(Text(" ", false), "</a>", l)
  {
    hide FindTag, Value, Newlines;
    var t, body := "&#32;</a>", "&#32;";
    OneCharTag(body, '<', "/a>");
    assert body + ['<'] + "/a>" == t && t[..5] == body && t[5..] == "</a>";
    BlankValue();
    l := line + Newlines(body);
  }

  lemma BlankTextParsed(line: nat) returns (line': nat)
    ensures ParseNodes("&#32;</a>", line, 2, false, [], DEFAULTS) == ClosedBy([Text(" ", false)], "a", "", line')
  {
    hide Identify, XmlParser.ParseText, ParseElement;
    assert "&" + "#32;</a>" == "&#32;</a>";
    ReferenceIdentified("#32;</a>", line);
    var l := BlankTextRead(line);
    assert [] + [Text(" ", false)] == [Text(" ", false)];
    line' := EndTagRead("a", "", l, 2, false, [Text(" ", false)], DEFAULTS);
    assert "</" + "a" + ">" + "" == "</a>";
  }

  lemma BlankElementParsed() returns (line': nat)
    ensures ParseElement("a>&#32;</a>", 1, 1, 1, DEFAULTS)
            == Elem("a", [], Open, [Text(" ", false)], Some("a"), "", line')
  {
    hide ParseNodes, ParseAttributes, TakeName, DropName;
    var t, rest := "a>&#32;</a>", "&#32;</a>";
    assert "a" + (">" + rest) == t && ">" + rest == t[1..] && t[..0] == "";
    NameRoundTrip("a", ">" + rest);
    TagEndRead(false, rest, 1, 1, [], DEFAULTS);
    line' := BlankTextParsed(1);
  }

  lemma BlankIsParsed()
    ensures Parse("<a>&#32;</a>", DEFAULTS) == Parsed([BLANK], false)
  {
    hide Identify, ParseElement;
    var s, u := "<a>&#32;</a>", "a>&#32;</a>";
    assert "<" + u == s;
    IdentifyElement(u, 1);
    TagStart(s);
    var line := BlankElementParsed();
    ElementKindParses(u, 1, 1, DEFAULTS);
    assert Lines(s, s) == 0 by { assert s[..0] == ""; }
    assert [] + [BLANK] == [BLANK];
    NothingLeft(line, [BLANK], DEFAULTS);
  }

  const RAW := Options(false, false)

  const QUOTE: Node := Element("a", [Attr("b", "\"")], [])

  /** Where entities are off, a value in single quotes may hold a double quote; it is printed raw, in double quotes. */
  lemma RawQuoteIsLost()
    ensures Parse("<a b='\"'/>", RAW) == Parsed([QUOTE], false)
    ensures Parse(Printed([QUOTE], false, false), RAW) != Parsed([QUOTE], false)
  {
    hide Parse, Printed;
    QuoteIsParsed();
    QuoteIsReadable();
    PrintsBackExactly([QUOTE], false, RAW);
  }

  lemma QuoteIsReadable()
    ensures ReadableNodes([QUOTE], 1, true, []) && !DelimitedNodes([QUOTE], RAW)
  {
    assert Readable(QUOTE, 1) && [QUOTE][1..] == [];
    assert QUOTE.attrs[0].value[0] == '\"';
    assert !Delimited(QUOTE, RAW);
  }

  lemma QuoteAttrParsed(line: nat) returns (line': nat)
    ensures ParseAttr("b='\"'/>", line, RAW) == SomeAttr(Attr("b", "\""), "/>", line')
  {
    hide TakeName, DropName, FindTag, Value;
    var r, body := "='\"'/>", "\"'/>";
    assert "b" + r == "b='\"'/>" && r[1..] == "'" + body && ("'" + body)[1..] == body;
    NameRoundTrip("b", r);
    OneCharTag("\"", '\'', "/>");
    assert "\"" + ['\''] + "/>" == body && body[..1] == "\"" && body[2..] == "/>";
    VerbatimValue("\"");
    line' := ParseAttr("b='\"'/>", line, RAW).line;
  }

  lemma QuoteTagParsed(line: nat) returns (line': nat)
    ensures ParseAttributes(" b='\"'/>", line, 1, [], RAW) == Attrs([Attr("b", "\"")], true, "", line')
  {
    hide ParseAttr;
    var t, u := " b='\"'/>", "b='\"'/>";
    assert t[1..] == u && TrimLeft(u) == u && TrimLeft(t) == u;
    line' := QuoteAttrParsed(line + Lines(t, u));
    assert [] + [Attr("b", "\"")] == [Attr("b", "\"")] && "/>" + "" == "/>";
    TagEndRead(true, "", line', 1, [Attr("b", "\"")], RAW);
  }

  lemma QuoteElementParsed() returns (line': nat)
    ensures ParseElement("a b='\"'/>", 1, 1, 1, RAW) == Elem("a", [Attr("b", "\"")], Closed, [], None, "", line')
  {
    hide ParseNodes, ParseAttributes, TakeName, DropName;
    var t, rest := "a b='\"'/>", " b='\"'/>";
    assert "a" + rest == t && t[..0] == "";
    NameRoundTrip("a", rest);
    line' := QuoteTagParsed(1);
  }

  lemma QuoteIsParsed()
    ensures Parse("<a b='\"'/>", RAW) == Parsed([QUOTE], false)
  {
    hide Identify, ParseElement;
    var s, u := "<a b='\"'/>", "a b='\"'/>";
    assert "<" + u == s;
    IdentifyElement(u, 1);
    TagStart(s);
    var line := QuoteElementParsed();
    ElementKindParses(u, 1, 1, RAW);
    assert Lines(s, s) == 0 by { assert s[..0] == ""; }
    assert [] + [QUOTE] == [QUOTE];
    NothingLeft(line, [QUOTE], RAW);
  }
}
