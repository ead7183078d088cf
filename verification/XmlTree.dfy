/** The document tree as a value. The strings are what Value() and Name() report: C strings, without
    NUL. */
module XmlTree {
  import opened Wrappers
  import opened XmlUtil

  datatype Attr = Attr(name: string, value: string)

  datatype Node =
    | Element(name: string, attrs: seq<Attr>, children: seq<Node>)
    | Text(text: string, cdata: bool)
    | Comment(text: string)
    | Declaration(text: string)
    | Unknown(text: string)

  predicate ValidName(name: string) {
    name != [] && IsNameStartChar(name[0]) && (forall i | 0 <= i < |name| :: IsNameChar(name[i]))
  }

  predicate IsPlainText(n: Node) {
    n.Text? && !n.cdata
  }

  /** Valid attribute names, no two of them equal. */
  predicate DistinctAttrs(attrs: seq<Attr>) {
    && (forall i | 0 <= i < |attrs| :: ValidName(attrs[i].name))
    && (forall i, j | 0 <= i < j < |attrs| :: attrs[i].name != attrs[j].name)
  }

  /** No terminator, and no carriage return for GetStr to normalise away. */
  predicate CleanText(s: string) {
    NUL !in s && CR !in s
  }

  predicate Contains(s: string, tag: string) {
    exists i :: 0 <= i <= |s| && tag <= s[i..]
  }

  predicate ReadableAttrs(attrs: seq<Attr>) {
    DistinctAttrs(attrs) && forall i | 0 <= i < |attrs| :: NUL !in attrs[i].value
  }

  /** A leaf whose text does not hold its own end tag, nor makes its opening look like another. */
  predicate ReadableLeaf(n: Node)
    requires !n.Element?
  {
    match n
    case Text(text, cdata) => if cdata then CleanText(text) && !Contains(text, "]]>") else NUL !in text
    case Comment(text) => CleanText(text) && !Contains(text, "-->")
    case Declaration(text) => CleanText(text) && !Contains(text, "?>")
    case Unknown(text) => CleanText(text) && !Contains(text, ">") && !("--" <= text) && !("[CDATA[" <= text)
  }
}
