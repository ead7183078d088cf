/** The escaped form of a string, read back: PrintString, then ParseText, then GetStr. */
module XmlText {
  import opened Wrappers
  import opened XmlUtil
  import opened CharRefs
  import opened StrPairs
  import opened GetStr
  import opened XmlTree
  import opened XmlPrinter

  const ENTITY_FLAGS := Flags(true, true, false)

  // ---- The escaped form contains no terminator ---------------------------------------------------------

  /** A reference of the table is made of `&`, `;` and small letters. */
  lemma ReferenceChars(k: nat)
    requires k < |ENTITIES|
    ensures Reference(ENTITIES[k])[0] == '&'
    ensures forall c | c in Reference(ENTITIES[k]) :: c == '&' || c == ';' || 'a' <= c <= 'z'
  {
    assert forall i | 0 <= i < |ENTITIES| :: forall c | c in ENTITIES[i].pattern :: 'a' <= c <= 'z';
  }

  lemma EscapeCharFree(c: char, restricted: bool)
    ensures c != NUL ==> NUL !in EscapeChar(c, restricted)
    ensures '<' !in EscapeChar(c, restricted)
    ensures !restricted ==> '\"' !in EscapeChar(c, restricted) && '\'' !in EscapeChar(c, restricted)
  {
    hide Reference;
    if IsEscaped(c, restricted) {
      ReferenceChars(EntityIndex(c));
    }
  }

  /** Element text never contains `<`; an attribute value never contains a quote either. */
  lemma {:induction false} EscapeFree(s: string, restricted: bool)
    ensures NUL !in s ==> NUL !in Escape(s, restricted)
    ensures '<' !in Escape(s, restricted)
    ensures !restricted ==> '\"' !in Escape(s, restricted) && '\'' !in Escape(s, restricted)
    ensures s != [] ==> Escape(s, restricted) != []
  {
    hide EscapeChar;
    if s != [] {
      EscapeCharFree(s[0], restricted);
      EscapeFree(s[1..], restricted);
      assert s[0] in s && forall c | c in s[1..] :: c in s;
      EscapeCharNonempty(s[0], restricted);
    }
  }

  lemma EscapeCharNonempty(c: char, restricted: bool)
    ensures EscapeChar(c, restricted) != []
  {
  }

  /** The five characters, and what is written for them: everywhere for `&`, `<` and `>`, in an attribute value also for
      the quotes. Any other character is written as it is. */
  lemma PredefinedEscape(ref: string, c: char, rest: string)
    requires Predefined(ref, c)
    ensures Escape([c] + rest, false) == ref + Escape(rest, false)
    ensures Escape([c] + rest, true) == (if c == '\"' || c == '\'' then [c] else ref) + Escape(rest, true)
    ensures forall d | d !in ['\"', '&', '\'', '<', '>'] :: Escape([d], false) == Escape([d], true) == [d]
  {
    hide Escape;
    EscapeOne(c, rest);
    assert Reference(ENTITIES[EntityIndex(c)]) == ref;
    forall d | d !in ['\"', '&', '\'', '<', '>']
      ensures Escape([d], false) == Escape([d], true) == [d]
    {
      EscapeOne(d, "");
      EscapeNothing(false);
      EscapeNothing(true);
      assert [d] + "" == [d];
    }
  }

  lemma EscapeOne(c: char, rest: string)
    ensures Escape([c] + rest, false) == EscapeChar(c, false) + Escape(rest, false)
    ensures Escape([c] + rest, true) == EscapeChar(c, true) + Escape(rest, true)
  {
    assert ([c] + rest)[1..] == rest;
  }

  lemma OneCharTag(body: string, c: char, rest: string)
    requires c != NUL && NUL !in body && c !in body
    ensures FindTag(body + [c] + rest, [c]) == Some(|body|)
  {
    assert forall i | 0 <= i < |body| :: (body[i..] + [c] + rest)[0] == body[i];
    FindTagAfter(body, [c], rest);
  }

  // ---- Line ends ---------------------------------------------------------------------------------------

  /** Line ends made uniform: CR, CR LF and LF CR become LF. */
  function LineEnds(t: string): (u: string)
    ensures |u| <= |t|
    decreases |t|
  {
    if t == [] then []
    else if t[0] == CR then [LF] + LineEnds(t[if At(t, 1) == LF then 2 else 1..])
    else if t[0] == LF then [LF] + LineEnds(t[if At(t, 1) == CR then 2 else 1..])
    else [t[0]] + LineEnds(t[1..])
  }

  lemma {:induction false} LineEndsClean(t: string)
    ensures CR !in LineEnds(t) && (NUL !in t ==> NUL !in LineEnds(t))
    decreases |t|
  {
    if t != [] {
      var k := if (t[0] == CR && At(t, 1) == LF) || (t[0] == LF && At(t, 1) == CR) then 2 else 1;
      LineEndsClean(t[k..]);
      assert t[0] in t && forall c | c in t[k..] :: c in t;
    }
  }

  lemma {:induction false} LineEndsSame(t: string)
    requires CR !in t
    ensures LineEnds(t) == t
  {
    if t != [] {
      assert t[0] in t && (|t| > 1 ==> t[1] in t) && forall c | c in t[1..] :: c in t;
      LineEndsSame(t[1..]);
    }
  }

  /** A string is left alone exactly when it has no carriage return. */
  lemma LineEndsExactly(t: string)
    ensures LineEnds(t) == t <==> CR !in t
  {
    LineEndsClean(t);
    if CR !in t { LineEndsSame(t); }
  }

  // ---- GetStr undoes the escaping ----------------------------------------------------------------------

  lemma ActionOnEscaped(c: char, restricted: bool, tail: string)
    requires c != CR && c != LF
    ensures var t := EscapeChar(c, restricted) + tail;
            t != [] && NextAction(t, ENTITY_FLAGS) == Emit(|EscapeChar(c, restricted)|, [c])
  {
    var t := EscapeChar(c, restricted) + tail;
    if IsEscaped(c, restricted) {
      var k := EntityIndex(c);
      EntityIs(t, k);
      assert t[1] == ENTITIES[k].pattern[0] != '#';
    }
  }

  lemma ActionOnLineEnd(c: char, restricted: bool, tail: string)
    requires c == CR || c == LF
    ensures EscapeChar(c, restricted) == [c]
    ensures var other := if c == CR then LF else CR;
            NextAction([c] + tail, ENTITY_FLAGS) == Emit(if At(tail, 0) == other then 2 else 1, [LF])
  {
  }

  /** Line ends are not escaped, and escaping makes none. */
  lemma EscapeHead(t: string, restricted: bool, c: char)
    requires c == CR || c == LF
    ensures At(Escape(t, restricted), 0) == c <==> At(t, 0) == c
    ensures At(t, 0) == c ==> t != [] && Escape(t, restricted) == [c] + Escape(t[1..], restricted)
  {
    hide Reference;
    if t != [] {
      var e := EscapeChar(t[0], restricted);
      EscapeCharNonempty(t[0], restricted);
      if IsEscaped(t[0], restricted) { ReferenceChars(EntityIndex(t[0])); }
      assert Escape(t, restricted)[0] == e[0];
    }
  }

  /** How many characters a line end at the front takes. */
  function LineEndLength(t: string): (k: nat)
    requires t != []
    ensures 1 <= k <= |t|
  {
    if (t[0] == CR && At(t, 1) == LF) || (t[0] == LF && At(t, 1) == CR) then 2 else 1
  }

  /** One turn of the decoding loop on an escaped string: `n` characters of it are read, which stand for the first
      `k` of the string. */
  lemma ActionOnEscape(rest: string, restricted: bool) returns (n: nat, k: nat, c: char)
    requires rest != []
    ensures var t := Escape(rest, restricted);
            && 1 <= n <= |t| && 1 <= k <= |rest| && t[n..] == Escape(rest[k..], restricted)
            && NextAction(t, ENTITY_FLAGS) == Emit(n, [c])
    ensures LineEnds(rest) == [c] + LineEnds(rest[k..])
  {
    hide NextAction, EscapeChar;
    var e, tail := EscapeChar(rest[0], restricted), Escape(rest[1..], restricted);
    k := LineEndLength(rest);
    EscapeCharNonempty(rest[0], restricted);
    if rest[0] != CR && rest[0] != LF {
      n, c := |e|, rest[0];
      ActionOnEscaped(rest[0], restricted, tail);
    } else {
      n, c := k, LF;
      ActionOnLineEnd(rest[0], restricted, tail);
      EscapeHead(rest[1..], restricted, if rest[0] == CR then LF else CR);
      assert k == 2 ==> rest[1..][1..] == rest[2..] && ([rest[0]] + tail)[2..] == tail[1..];
    }
  }

  lemma UnescapeStep(s: string, i: nat, out: string, rest: string, restricted: bool) returns (n: nat, k: nat, c: char)
    requires |out| <= i <= |s| && s[i..] == Escape(rest, restricted) && rest != []
    ensures 1 <= n <= |s| - i && 1 <= k <= |rest| && s[i + n..] == Escape(rest[k..], restricted)
    ensures DecodeFrom(s, ENTITY_FLAGS, i, out) == DecodeFrom(s, ENTITY_FLAGS, i + n, out + [c])
    ensures LineEnds(rest) == [c] + LineEnds(rest[k..])
  {
    hide DecodeFrom, NextAction, Escape, LineEnds;
    n, k, c := ActionOnEscape(rest, restricted);
    DecodeFromStep(s, ENTITY_FLAGS, i, out);
    assert s[i + n..] == s[i..][n..];
  }

  lemma {:induction false} UnescapeFrom(s: string, i: nat, out: string, rest: string, restricted: bool)
    requires |out| <= i <= |s| && s[i..] == Escape(rest, restricted)
    ensures DecodeFrom(s, ENTITY_FLAGS, i, out) == out + LineEnds(rest)
    decreases |rest|
  {
    hide DecodeFrom, Escape;
    if rest == [] {
      EscapeNothing(restricted);
      DecodeFromStep(s, ENTITY_FLAGS, i, out);
      assert out + [] == out;
    } else {
      var n, k, c := UnescapeStep(s, i, out, rest, restricted);
      UnescapeFrom(s, i + n, out + [c], rest[k..], restricted);
      assert out + [c] + LineEnds(rest[k..]) == out + LineEnds(rest);
    }
  }

  /** What GetStr reports for the escaped form of a string is that string with its line ends made uniform. */
  lemma EscapedValue(s: string, restricted: bool)
    requires NUL !in s
    ensures Value(Escape(s, restricted), ENTITY_FLAGS) == LineEnds(s)
  {
    assert Escape(s, restricted)[0..] == Escape(s, restricted) && [] + LineEnds(s) == LineEnds(s);
    UnescapeFrom(Escape(s, restricted), 0, [], s, restricted);
    LineEndsClean(s);
    CStringWhole(LineEnds(s));
  }

  lemma VerbatimStep(t: string)
    requires t != []
    ensures var k := LineEndLength(t);
            && NextAction(t, VERBATIM) == Emit(k, [if t[0] == CR then LF else t[0]])
            && LineEnds(t) == [if t[0] == CR then LF else t[0]] + LineEnds(t[k..])
  {
  }

  lemma VerbatimTurn(s: string, i: nat, out: string) returns (k: nat, c: char)
    requires |out| <= i < |s|
    ensures 1 <= k <= |s| - i && LineEnds(s[i..]) == [c] + LineEnds(s[i + k..])
    ensures DecodeFrom(s, VERBATIM, i, out) == DecodeFrom(s, VERBATIM, i + k, out + [c])
  {
    hide DecodeFrom, NextAction, LineEnds;
    k, c := LineEndLength(s[i..]), if s[i] == CR then LF else s[i];
    DecodeFromStep(s, VERBATIM, i, out);
    VerbatimStep(s[i..]);
    assert s[i..][k..] == s[i + k..];
  }

  lemma {:induction false} VerbatimFrom(s: string, i: nat, out: string)
    requires |out| <= i <= |s|
    ensures DecodeFrom(s, VERBATIM, i, out) == out + LineEnds(s[i..])
    decreases |s| - i
  {
    hide DecodeFrom, LineEnds;
    if i < |s| {
      var k, c := VerbatimTurn(s, i, out);
      VerbatimFrom(s, i + k, out + [c]);
      assert out + [c] + LineEnds(s[i + k..]) == out + ([c] + LineEnds(s[i + k..]));
    } else {
      DecodeFromStep(s, VERBATIM, i, out);
      NoLineEnds();
      assert s[i..] == [] && out + [] == out;
    }
  }

  lemma NoLineEnds()
    ensures LineEnds([]) == []
  {
  }

  /** Text read without entities only has its line ends made uniform. */
  lemma VerbatimValue(s: string)
    requires NUL !in s
    ensures Value(s, VERBATIM) == LineEnds(s) && (CR !in s ==> Value(s, VERBATIM) == s)
  {
    assert s[0..] == s && [] + LineEnds(s) == LineEnds(s);
    VerbatimFrom(s, 0, []);
    LineEndsClean(s);
    LineEndsExactly(s);
    CStringWhole(LineEnds(s));
  }

  // ---- Printed strings, by the flags of the document ------------------------------------------------------

  /** The flag for white space is not looked at while a slice is decoded. */
  lemma {:induction false} DecodeIgnoresCollapse(s: string, f: Flags, g: Flags, i: nat, out: string)
    requires |out| <= i <= |s| && f.entities == g.entities && f.newlines == g.newlines
    ensures DecodeFrom(s, f, i, out) == DecodeFrom(s, g, i, out)
    decreases |s| - i
  {
    hide DecodeFrom, NextAction;
    DecodeFromStep(s, f, i, out);
    DecodeFromStep(s, g, i, out);
    if i < |s| {
      SameAction(s[i..], f, g);
      match NextAction(s[i..], f)
      case Emit(n, o) => DecodeIgnoresCollapse(s, f, g, i + n, out + o);
      case Skip => DecodeIgnoresCollapse(s, f, g, i + 1, out + [s[|out|]]);
    }
  }

  lemma SameAction(t: string, f: Flags, g: Flags)
    requires t != [] && f.entities == g.entities && f.newlines == g.newlines
    ensures NextAction(t, f) == NextAction(t, g)
  {
    hide ReadCharRef, EntityAt;
  }

  /** A string as it is read back: line ends made uniform, and white space collapsed if the document does that. */
  function Respaced(s: string, collapse: bool): (r: string)
    ensures |r| <= |s|
  {
    if collapse then Collapse(LineEnds(s)) else LineEnds(s)
  }

  lemma CollapseHasNoCR(t: string)
    requires CR !in t
    ensures CR !in Collapse(t)
  {
    TrimLeftIsSuffix(t);
    SqueezeHasNoCR(TrimLeft(t));
  }

  lemma {:induction false} SqueezeHasNoCR(t: string)
    requires CR !in t
    ensures CR !in Squeeze(t)
    decreases |t|
  {
    if t != [] {
      assert t[0] in t;
      if !IsWhiteSpace(t[0]) {
        SqueezeHasNoCR(t[1..]);
      } else {
        TrimLeftIsSuffix(t[1..]);
        SqueezeHasNoCR(TrimLeft(t[1..]));
      }
    }
  }

  /** It is left alone exactly when it has no carriage return and, where white space is collapsed, is collapsed. */
  lemma RespacedExactly(s: string, collapse: bool)
    ensures Respaced(s, collapse) == s <==> CR !in s && (collapse ==> Collapse(s) == s)
  {
    hide Collapse;
    LineEndsExactly(s);
    LineEndsClean(s);
    CollapseHasNoCR(LineEnds(s));
  }

  /** Printed without entities, a text must not hold its `<`, nor an attribute value its quote. */
  predicate Closes(s: string, restricted: bool, entities: bool) {
    entities || (if restricted then '<' else '\"') !in s
  }

  lemma QuotedFree(s: string, restricted: bool, entities: bool)
    ensures NUL !in s ==> NUL !in Quoted(s, restricted, entities)
    ensures Closes(s, restricted, entities) ==> (if restricted then '<' else '\"') !in Quoted(s, restricted, entities)
    ensures s != [] ==> Quoted(s, restricted, entities) != []
    ensures s == [] ==> Quoted(s, restricted, entities) == []
  {
    EscapeFree(s, restricted);
  }

  /** What GetStr reports for a printed string, when it is read with the flags of the document that printed it. */
  lemma QuotedValue(s: string, restricted: bool, f: Flags)
    requires NUL !in s && f.newlines
    ensures Value(Quoted(s, restricted, f.entities), f) == Respaced(s, f.collapse)
  {
    hide Decode, Collapse, Escape;
    var raw := Quoted(s, restricted, f.entities);
    if f.entities { EscapedValue(s, restricted); } else { VerbatimValue(s); }
    var plain := if f.entities then ENTITY_FLAGS else VERBATIM;
    SameDecode(raw, f, plain);
  }

  lemma SameDecode(raw: string, f: Flags, g: Flags)
    requires f.entities == g.entities && f.newlines == g.newlines
    ensures Decode(raw, f) == Decode(raw, g)
  {
    hide DecodeFrom;
    DecodeIgnoresCollapse(raw, f, g, 0, []);
  }

  /** The round trip of element text, for any text after the `<` that ends it: it comes back respaced. */
  lemma TextRoundTrip(s: string, rest: string, entities: bool, collapse: bool)
    requires NUL !in s && Closes(s, true, entities)
    ensures var t := Quoted(s, true, entities) + "<" + rest;
            match FindTag(t, "<")
            case Some(n) =>
              n == |Quoted(s, true, entities)| && Value(t[..n], Flags(entities, true, collapse)) == Respaced(s, collapse)
            case None => false
    ensures Respaced(s, collapse) == s <==> CR !in s && (collapse ==> Collapse(s) == s)
  {
    hide Quoted, Value, Respaced, Collapse;
    var q := Quoted(s, true, entities);
    RespacedExactly(s, collapse);
    QuotedFree(s, true, entities);
    OneCharTag(q, '<', rest);
    QuotedValue(s, true, Flags(entities, true, collapse));
    assert (q + "<" + rest)[..|q|] == q;
  }

  /** The round trip of an attribute value, ended by its quote. */
  lemma AttributeRoundTrip(s: string, rest: string, entities: bool)
    requires NUL !in s && Closes(s, false, entities)
    ensures var t := Quoted(s, false, entities) + "\"" + rest;
            match FindTag(t, "\"")
            case Some(n) =>
              n == |Quoted(s, false, entities)| && Value(t[..n], Flags(entities, true, false)) == LineEnds(s)
            case None => false
    ensures LineEnds(s) == s <==> CR !in s
  {
    hide Quoted, Value;
    var q := Quoted(s, false, entities);
    LineEndsExactly(s);
    QuotedFree(s, false, entities);
    OneCharTag(q, '\"', rest);
    QuotedValue(s, false, Flags(entities, true, false));
    assert (q + "\"" + rest)[..|q|] == q;
  }

  /** The first character of a printed text, and what follows it. */
  function QuotedChar(c: char, entities: bool): string {
    if entities then EscapeChar(c, true) else [c]
  }

  lemma QuotedFirst(text: string, rest: string, entities: bool)
    requires text != [] && text[0] != NUL
    ensures var q := QuotedChar(text[0], entities);
            && q != []
            && Quoted(text, true, entities) + rest == q + (Quoted(text[1..], true, entities) + rest)
            && (IsWhiteSpace(text[0]) ==> q == [text[0]])
            && (!IsWhiteSpace(text[0]) ==> q[0] != NUL && !IsWhiteSpace(q[0]))
            && (q[0] == '<' <==> text[0] == '<' && !entities)
            && (text[0] as int >= 128 ==> q == [text[0]]) && (q[0] as int >= 128 ==> q == [text[0]])
  {
    hide Reference;
    if entities {
      EscapeCharNonempty(text[0], true);
      if IsEscaped(text[0], true) { ReferenceChars(EntityIndex(text[0])); }
      assert Escape(text, true) + rest == EscapeChar(text[0], true) + (Escape(text[1..], true) + rest);
    } else {
      assert text + rest == [text[0]] + (text[1..] + rest);
    }
  }

  lemma QuotedNothing(entities: bool)
    ensures Quoted("", true, entities) == ""
  {
  }
}
