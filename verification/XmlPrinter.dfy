/** XMLPrinter in compact mode. */
module XmlPrinter {
  import opened Wrappers
  import opened XmlUtil
  import opened StrPairs
  import opened XmlTree

  // ---- What is printed --------------------------------------------------------------------------------

  /** The characters of `_entityFlag`, or of `_restrictedEntityFlag`. */
  predicate IsEscaped(c: char, restricted: bool) {
    c == '&' || c == '<' || c == '>' || (!restricted && (c == '\"' || c == '\''))
  }

  /** The index of the first entity of the table that stands for `c`. */
  function EntityIndex(c: char): (k: nat)
    requires IsEscaped(c, false)
    ensures k < |ENTITIES| && ENTITIES[k].value == c
  {
    if c == '\"' then 0 else if c == '&' then 1 else if c == '\'' then 2 else if c == '<' then 3 else 4
  }

  function EscapeChar(c: char, restricted: bool): string {
    if IsEscaped(c, restricted) then Reference(ENTITIES[EntityIndex(c)]) else [c]
  }

  function Escape(s: string, restricted: bool): string {
    if s == [] then [] else EscapeChar(s[0], restricted) + Escape(s[1..], restricted)
  }

  /** A string as PrintString writes it: escaped, unless entity processing is off. */
  function Quoted(s: string, restricted: bool, entities: bool): string {
    if entities then Escape(s, restricted) else s
  }

  function PrintAttr(a: Attr, entities: bool): string {
    " " + a.name + "=\"" + Quoted(a.value, false, entities) + "\""
  }

  function PrintAttrs(attrs: seq<Attr>, entities: bool): string {
    if attrs == [] then [] else PrintAttr(attrs[0], entities) + PrintAttrs(attrs[1..], entities)
  }

  function Print(n: Node, entities: bool): string
    decreases n, 2
  {
    match n
    case Element(name, attrs, children) =>
      "<" + name + PrintAttrs(attrs, entities) + PrintBody(name, children, entities)
    case Text(text, cdata) =>
      if cdata then "<![CDATA[" + text + "]]>" else Quoted(text, true, entities)
    case Comment(text) => "<!--" + text + "-->"
    case Declaration(text) => "<?" + text + "?>"
    case Unknown(text) => "<!" + text + ">"
  }

  /** What follows the attributes: a sealed tag for an element without children. */
  function PrintBody(name: string, children: seq<Node>, entities: bool): string
    decreases children, 1
  {
    if children == [] then "/>" else ">" + PrintNodes(children, entities) + "</" + name + ">"
  }

  function PrintNodes(nodes: seq<Node>, entities: bool): string
    decreases nodes, 0
  {
    if nodes == [] then [] else Print(nodes[0], entities) + PrintNodes(nodes[1..], entities)
  }

  /** A document, as its own flags say. */
  function Printed(children: seq<Node>, bom: bool, entities: bool): string {
    (if bom then BOM else "") + PrintNodes(children, entities)
  }

  // ---- The printer -----------------------------------------------------------------------------------

  class XMLPrinter {
    var buffer: string
    var elementJustOpened: bool
    var stack: seq<string>
    var depth: int
    var textDepth: int
    var processEntities: bool

    constructor ()
      ensures buffer == "" && !elementJustOpened && stack == [] && depth == 0 && processEntities
    {
      buffer, elementJustOpened, stack, depth, textDepth, processEntities := "", false, [], 0, -1, true;
    }

    /** What SealElementIfJustOpened is about to write. */
    ghost function Seal(): string
      reads this
    {
      if elementJustOpened then ">" else ""
    }

    method Write(data: string)
      modifies this`buffer
      ensures buffer == old(buffer) + data
    {
      buffer := buffer + data;
    }

    /** Writes the reference for `c`, which it looks up in the table. */
    method WriteEntity(c: char)
      requires IsEscaped(c, false)
      modifies this`buffer
      ensures buffer == old(buffer) + Reference(ENTITIES[EntityIndex(c)])
    {
      var i := 0;
      while ENTITIES[i].value != c
        invariant 0 <= i <= EntityIndex(c)
      {
        i := i + 1;
      }
      Write("&");
      Write(ENTITIES[i].pattern);
      Write(";");
    }

    /** XMLPrinter::PrintString: writes the runs between entities, and the entities. `p` is the start
        of the run not yet written. */
    method PrintString(s: string, restricted: bool)
      modifies this`buffer
      ensures buffer == old(buffer) + Quoted(s, restricted, processEntities)
    {
      hide Escape, Reference;
      if !processEntities {
        Write(s);
        return;
      }
      var p, q := 0, 0;
      EscapeNothing(restricted);
      assert s[0..0] == "" && s[..0] == "";
      while q < |s|
        invariant p <= q <= |s| && buffer + s[p..q] == old(buffer) + Escape(s[..q], restricted)
      {
        EscapeMore(s, q, restricted);
        Appended(old(buffer), Escape(s[..q], restricted), EscapeChar(s[q], restricted));
        Appended(buffer, s[p..q], [s[q]]);
        assert s[p..q + 1] == s[p..q] + [s[q]] && s[q + 1..q + 1] == "";
        if IsEscaped(s[q], restricted) {
          Write(s[p..q]);
          WriteEntity(s[q]);
          p := q + 1;
          assert buffer + "" == buffer;
        }
        q := q + 1;
      }
      Write(s[p..q]);
      assert s[..q] == s;
    }

    /** XMLPrinter::PushHeader, without a declaration. */
    method PushHeader(writeBOM: bool)
      modifies this`buffer
      ensures buffer == old(buffer) + if writeBOM then BOM else ""
    {
      if writeBOM {
        Write(BOM);
      }
    }

    /** XMLPrinter::VisitEnter of a document: its flags decide how the rest is printed. */
    method VisitDocument(bom: bool, entities: bool)
      modifies this`buffer, this`processEntities
      ensures processEntities == entities && buffer == old(buffer) + if bom then BOM else ""
    {
      processEntities := entities;
      if bom {
        PushHeader(true);
      }
    }

    method SealElementIfJustOpened()
      modifies this`buffer, this`elementJustOpened
      ensures buffer == old(buffer + Seal()) && !elementJustOpened
    {
      if !elementJustOpened {
        return;
      }
      elementJustOpened := false;
      Write(">");
    }

    method OpenElement(name: string)
      modifies this`buffer, this`elementJustOpened, this`stack, this`depth
      ensures buffer == old(buffer + Seal()) + "<" + name && elementJustOpened
      ensures stack == old(stack) + [name] && depth == old(depth) + 1
    {
      SealElementIfJustOpened();
      stack := stack + [name];
      Write("<");
      Write(name);
      elementJustOpened := true;
      depth := depth + 1;
    }

    method PushAttribute(a: Attr)
      requires elementJustOpened
      modifies this`buffer
      ensures buffer == old(buffer) + PrintAttr(a, processEntities)
    {
      hide Escape;
      Write(" ");
      Write(a.name);
      Write("=\"");
      PrintString(a.value, false);
      Write("\"");
    }

    /** XMLPrinter::CloseElement: a sealed tag when nothing was put into the element. */
    method CloseElement()
      requires stack != []
      modifies this`buffer, this`elementJustOpened, this`stack, this`depth, this`textDepth
      ensures stack == old(stack)[..|old(stack)| - 1] && depth == old(depth) - 1 && !elementJustOpened
      ensures buffer == old(buffer) + if old(elementJustOpened) then "/>" else "</" + old(stack)[|old(stack)| - 1] + ">"
    {
      depth := depth - 1;
      var name := stack[|stack| - 1];
      stack := stack[..|stack| - 1];
      if elementJustOpened {
        Write("/>");
      } else {
        Write("</");
        Write(name);
        Write(">");
      }
      if textDepth == depth {
        textDepth := -1;
      }
      elementJustOpened := false;
    }

    method PushText(text: string, cdata: bool)
      modifies this`buffer, this`elementJustOpened, this`textDepth
      ensures buffer == old(buffer + Seal()) + Print(Text(text, cdata), processEntities) && !elementJustOpened
    {
      textDepth := depth - 1;
      SealElementIfJustOpened();
      if cdata {
        Write("<![CDATA[");
        Write(text);
        Write("]]>");
      } else {
        PrintString(text, true);
      }
    }

    /** PushComment, PushDeclaration and PushUnknown: the text between its delimiters. */
    method PushDelimited(open: string, text: string, close: string)
      modifies this`buffer, this`elementJustOpened
      ensures buffer == old(buffer + Seal()) + (open + text + close) && !elementJustOpened
    {
      SealElementIfJustOpened();
      Write(open);
      Write(text);
      Write(close);
    }

    /** XMLNode::Accept with this printer as the visitor. */
    method Accept(n: Node)
      modifies this
      ensures buffer == old(buffer + Seal()) + Print(n, processEntities) && !elementJustOpened
      ensures stack == old(stack) && depth == old(depth) && processEntities == old(processEntities)
      decreases n, 1
    {
      hide Print, PrintNodes, Escape;
      match n
      case Element(name, attrs, children) =>
        OpenElement(name);
        PushAttributes(attrs);
        AcceptAll(children);
        CloseElement();
        PrintElement(n, old(buffer + Seal()), processEntities);
      case Text(text, cdata) => PushText(text, cdata);
      case Comment(text) => PushDelimited("<!--", text, "-->"); PrintLeaf(n, processEntities);
      case Declaration(text) => PushDelimited("<?", text, "?>"); PrintLeaf(n, processEntities);
      case Unknown(text) => PushDelimited("<!", text, ">"); PrintLeaf(n, processEntities);
    }

    method PushAttributes(attrs: seq<Attr>)
      requires elementJustOpened
      modifies this`buffer
      ensures buffer == old(buffer) + PrintAttrs(attrs, processEntities)
    {
      hide PrintAttr, PrintAttrs;
      NothingPrinted(processEntities);
      assert attrs[..0] == [];
      for i := 0 to |attrs|
        invariant buffer == old(buffer) + PrintAttrs(attrs[..i], processEntities)
      {
        OneMoreAttr(attrs, i, processEntities);
        PushAttribute(attrs[i]);
      }
      assert attrs[..|attrs|] == attrs;
    }

    /** The loop of Accept over the children. */
    method AcceptAll(nodes: seq<Node>)
      modifies this
      ensures buffer == old(buffer) + (if nodes == [] then "" else old(Seal())) + PrintNodes(nodes, processEntities)
      ensures elementJustOpened == (nodes == [] && old(elementJustOpened))
      ensures stack == old(stack) && depth == old(depth) && processEntities == old(processEntities)
      decreases nodes, 0
    {
      hide Print, PrintNodes;
      ghost var start := buffer + Seal();
      NothingPrinted(processEntities);
      assert nodes[..0] == [];
      for i := 0 to |nodes|
        invariant elementJustOpened == (i == 0 && old(elementJustOpened))
        invariant if i == 0 then buffer == old(buffer) else buffer == start + PrintNodes(nodes[..i], processEntities)
        invariant stack == old(stack) && depth == old(depth) && processEntities == old(processEntities)
      {
        OneMoreNode(nodes, i, processEntities);
        Accept(nodes[i]);
        assert i == 0 ==> start + "" == start;
      }
      assert nodes[..|nodes|] == nodes;
    }
  }

  lemma Appended(a: string, b: string, c: string)
    ensures a + (b + c) == a + b + c
  {
  }

  lemma EscapeNothing(restricted: bool)
    ensures Escape("", restricted) == ""
  {
  }

  /** The escaped form of one character more. */
  lemma {:induction false} EscapeMore(s: string, q: nat, restricted: bool)
    requires q < |s|
    ensures Escape(s[..q + 1], restricted) == Escape(s[..q], restricted) + EscapeChar(s[q], restricted)
  {
    hide EscapeChar;
    var t, u := s[..q + 1], s[..q];
    assert q > 0 ==> u[0] == t[0] && u[1..] == s[1..][..q - 1] && t[1..] == s[1..][..q];
    if q > 0 {
      EscapeMore(s[1..], q - 1, restricted);
    } else {
      assert t[1..] == "" && u == "";
    }
  }

  lemma NothingPrinted(entities: bool)
    ensures PrintAttrs([], entities) == "" && PrintNodes([], entities) == ""
  {
  }

  lemma {:induction false} OneMoreAttr(attrs: seq<Attr>, i: nat, entities: bool)
    requires i < |attrs|
    ensures PrintAttrs(attrs[..i + 1], entities) == PrintAttrs(attrs[..i], entities) + PrintAttr(attrs[i], entities)
  {
    hide PrintAttr;
    var t, u := attrs[..i + 1], attrs[..i];
    assert i > 0 ==> u[0] == t[0] && u[1..] == attrs[1..][..i - 1] && t[1..] == attrs[1..][..i];
    if i > 0 {
      OneMoreAttr(attrs[1..], i - 1, entities);
    } else {
      assert t[1..] == [] && u == [];
    }
  }

  lemma {:induction false} OneMoreNode(nodes: seq<Node>, i: nat, entities: bool)
    requires i < |nodes|
    ensures PrintNodes(nodes[..i + 1], entities) == PrintNodes(nodes[..i], entities) + Print(nodes[i], entities)
  {
    hide Print;
    var t, u := nodes[..i + 1], nodes[..i];
    assert i > 0 ==> u[0] == t[0] && u[1..] == nodes[1..][..i - 1] && t[1..] == nodes[1..][..i];
    if i > 0 {
      OneMoreNode(nodes[1..], i - 1, entities);
    } else {
      assert t[1..] == [] && u == [];
    }
  }

  lemma PrintElement(n: Node, b: string, entities: bool)
    requires n.Element?
    ensures b + "<" + n.name + PrintAttrs(n.attrs, entities)
            + (if n.children == [] then "" else ">") + PrintNodes(n.children, entities)
            + (if n.children == [] then "/>" else "</" + n.name + ">")
            == b + Print(n, entities)
  {
  }

  lemma PrintLeaf(n: Node, entities: bool)
    ensures n.Comment? ==> Print(n, entities) == "<!--" + n.text + "-->"
    ensures n.Declaration? ==> Print(n, entities) == "<?" + n.text + "?>"
    ensures n.Unknown? ==> Print(n, entities) == "<!" + n.text + ">"
  {
  }

  /** Printing a document: its children, one after another, after a byte order mark if it has one. */
  method PrintDocument(children: seq<Node>, bom: bool, processEntities: bool) returns (out: string)
    ensures out == Printed(children, bom, processEntities)
  {
    var printer := new XMLPrinter();
    printer.VisitDocument(bom, processEntities);
    printer.AcceptAll(children);
    out := printer.buffer;
  }
}
