/** What the strings of a parsed tree can hold: no terminator anywhere, and in the text of a leaf no end tag. */
module XmlReadable {
  import opened Wrappers
  import opened XmlUtil
  import opened StrPairs
  import opened GetStr
  import opened XmlTree
  import opened XmlParser
  import opened XmlText

  // ---- Values ------------------------------------------------------------------------------------------

  lemma ValueHasNoNul(raw: string, flags: Flags)
    ensures NUL !in Value(raw, flags)
  {
    hide Decode, Collapse;
    CollapseHasNoNul(CString(if flags == Flags(false, false, false) then raw else Decode(raw, flags)));
  }

  lemma AttrReadable(t: string, line: nat, o: Options)
    ensures var r := ParseAttr(t, line, o);
            r.SomeAttr? ==> NUL !in r.attr.value
  {
    hide TrimLeft, DropName, TakeName, FindTag, Value, Lines;
    var u := TrimLeft(DropName(t));
    var v := if u == [] then [] else TrimLeft(u[1..]);
    if ParseAttr(t, line, o).SomeAttr? {
      ValueHasNoNul(v[1..][..FindTag(v[1..], [v[0]]).value], AttrFlags(o));
    }
  }

  // ---- Line ends and tags ------------------------------------------------------------------------------

  /** A prefix without line ends is there before they are made uniform. */
  lemma {:induction false} PrefixWasThere(t: string, p: string)
    requires p <= LineEnds(t) && LF !in p
    ensures p <= t
  {
    if p != [] {
      assert p[0] in p && forall c | c in p[1..] :: c in p;
      assert t != [] && p[0] == LineEnds(t)[0];
      assert LineEnds(t) == [t[0]] + LineEnds(t[1..]);
      assert LineEnds(t)[1..] == LineEnds(t[1..]);
      PrefixWasThere(t[1..], p[1..]);
      assert t == [t[0]] + t[1..] && p == [p[0]] + p[1..];
    }
  }

  /** So making line ends uniform brings no new tag. */
  lemma {:induction false} TagWasThere(t: string, tag: string)
    requires Contains(LineEnds(t), tag) && LF !in tag
    ensures Contains(t, tag)
    decreases |t|
  {
    var u := LineEnds(t);
    var i :| 0 <= i <= |u| && tag <= u[i..];
    if i == 0 {
      assert u[0..] == u;
      PrefixWasThere(t, tag);
      assert t[0..] == t;
    } else {
      var k := LineEndLength(t);
      VerbatimStep(t);
      assert u[i..] == u[1..][i - 1..];
      TagWasThere(t[k..], tag);
      var j :| 0 <= j <= |t[k..]| && tag <= t[k..][j..];
      assert t[k..][j..] == t[k + j..];
    }
  }

  /** What is found before a tag holds neither the terminator nor the tag. */
  lemma {:induction false} BeforeTag(t: string, tag: string, i: nat)
    requires IsTag(tag) && FindTag(t, tag).Some? && i <= FindTag(t, tag).value
    ensures NUL !in t[..FindTag(t, tag).value]
    ensures i < FindTag(t, tag).value ==> !(tag <= t[i..])
  {
    if !(tag <= t) {
      var n := FindTag(t[1..], tag).value;
      BeforeTag(t[1..], tag, if i == 0 then 0 else i - 1);
      assert t[..n + 1] == [t[0]] + t[1..][..n];
      assert i > 0 ==> t[1..][i - 1..] == t[i..];
      assert t[0..] == t;
    }
  }

  lemma TagNotInside(t: string, tag: string)
    requires IsTag(tag) && FindTag(t, tag).Some?
    ensures NUL !in t[..FindTag(t, tag).value] && !Contains(t[..FindTag(t, tag).value], tag)
  {
    hide FindTag;
    var n := FindTag(t, tag).value;
    BeforeTag(t, tag, 0);
    forall i | 0 <= i <= n
      ensures !(tag <= t[..n][i..])
    {
      BeforeTag(t, tag, i);
      PrefixOfSlice(t, n, i, tag);
    }
  }

  lemma PrefixOfSlice(t: string, n: nat, i: nat, p: string)
    requires i <= n <= |t| && p != []
    ensures p <= t[..n][i..] ==> i < n && p <= t[i..]
  {
  }

  // ---- Leaves ------------------------------------------------------------------------------------------

  /** The text of a leaf that is read up to its end tag. */
  lemma LeafText(t: string, tag: string)
    requires IsTag(tag) && LF !in tag && FindTag(t, tag).Some?
    ensures var text := Value(t[..FindTag(t, tag).value], VERBATIM);
            && CleanText(text) && !Contains(text, tag)
            && forall p | LF !in p && p <= text :: p <= t
  {
    hide FindTag, Value, LineEnds;
    var raw := t[..FindTag(t, tag).value];
    TagNotInside(t, tag);
    VerbatimValue(raw);
    LineEndsClean(raw);
    if Contains(LineEnds(raw), tag) { TagWasThere(raw, tag); }
    forall p | LF !in p && p <= LineEnds(raw)
      ensures p <= t
    {
      PrefixWasThere(raw, p);
      assert raw <= t;
    }
  }

  lemma LeafReadable(t: string, line: nat, tag: string, kind: Kind, error: Error)
    requires (kind == CommentKind && tag == "-->") || (kind == DeclarationKind && tag == "?>")
          || (kind == CDataKind && tag == "]]>")
          || (kind == UnknownKind && tag == ">" && !("--" <= t) && !("[CDATA[" <= t))
    ensures var r := ParseLeaf(t, line, tag, kind, error);
            r.Leaf? ==> !r.node.Element? && ReadableLeaf(r.node)
  {
    hide FindTag, Value, Newlines, CleanText, Contains;
    assert IsTag(tag) && LF !in tag;
    assert LF !in "--" && LF !in "[CDATA[";
    if FindTag(t, tag).Some? {
      LeafText(t, tag);
      var text := Value(t[..FindTag(t, tag).value], VERBATIM);
      assert kind == UnknownKind ==> !("--" <= text) && !("[CDATA[" <= text);
    }
  }

  lemma TextReadable(t: string, line: nat, nodeLine: nat, o: Options)
    ensures var r := XmlParser.ParseText(t, line, nodeLine, o);
            r.Leaf? ==> !r.node.Element? && ReadableLeaf(r.node)
  {
    hide FindTag, Value, Newlines;
    if FindTag(t, "<").Some? {
      ValueHasNoNul(t[..FindTag(t, "<").value], TextFlags(o));
    }
  }

  /** What Identify takes for an unknown node begins neither a comment nor a CDATA section. */
  lemma UnknownBegins(t: string, line: nat)
    ensures var r := Identify(t, line);
            r.Found? && r.kind == UnknownKind ==> !("--" <= r.rest) && !("[CDATA[" <= r.rest)
  {
    hide TrimLeft, Lines;
    var u := TrimLeft(t);
    if "<!" <= u {
      assert u == "<!" + u[2..];
      assert "--" <= u[2..] ==> "<!--" <= u;
      assert "[CDATA[" <= u[2..] ==> "<![CDATA[" <= u;
    }
  }
}
