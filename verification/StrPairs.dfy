/** StrPair: a lazily decoded slice of the parse buffer. GetStr rewrites the slice in place through
    a read and a write pointer: line ends, entities, numeric references, white space. */
module StrPairs {
  import opened Wrappers
  import opened XmlUtil
  import opened CharRefs

  datatype Entity = Entity(pattern: string, value: char)

  const ENTITIES: seq<Entity> := [
    Entity("quot", '\"'), Entity("amp", '&'), Entity("apos", '\''), Entity("lt", '<'), Entity("gt", '>')
  ]

  function Reference(e: Entity): string {
    "&" + e.pattern + ";"
  }

  /** The first entity of the table whose reference is at the front of `t`. */
  function EntityAt(t: string): (r: Option<Entity>)
    ensures r.Some? ==> r.value in ENTITIES && Reference(r.value) <= t
    ensures r.None? ==> forall e | e in ENTITIES :: !(Reference(e) <= t)
  {
    if Reference(ENTITIES[0]) <= t then Some(ENTITIES[0])
    else if Reference(ENTITIES[1]) <= t then Some(ENTITIES[1])
    else if Reference(ENTITIES[2]) <= t then Some(ENTITIES[2])
    else if Reference(ENTITIES[3]) <= t then Some(ENTITIES[3])
    else if Reference(ENTITIES[4]) <= t then Some(ENTITIES[4])
    else None
  }

  /** No two references agree on their first three characters. */
  lemma EntityIs(t: string, k: nat)
    requires k < |ENTITIES| && Reference(ENTITIES[k]) <= t
    ensures EntityAt(t) == Some(ENTITIES[k])
  {
    assert forall i | 0 <= i < |ENTITIES| :: Reference(ENTITIES[i])[1] == ENTITIES[i].pattern[0]
                                          && Reference(ENTITIES[i])[2] == ENTITIES[i].pattern[1];
    assert t[1] == ENTITIES[k].pattern[0] && t[2] == ENTITIES[k].pattern[1];
  }

  /** The flags of a StrPair that select how it is decoded. */
  datatype Flags = Flags(entities: bool, newlines: bool, collapse: bool)

  /** The flags of comments, declarations and the like: line ends only. */
  const VERBATIM := Flags(false, true, false)

  /** One turn of the decoding loop. Emit: read `n` characters, write `out`. Skip: an `&` that starts
      no known reference moves both pointers on and writes nothing. */
  datatype Action = Emit(n: nat, out: string) | Skip

  function NextAction(t: string, flags: Flags): (a: Action)
    requires t != []
    ensures a.Emit? ==> 1 <= a.n <= |t| && |a.out| <= a.n
  {
    if flags.newlines && t[0] == CR then Emit(if At(t, 1) == LF then 2 else 1, [LF])
    else if flags.newlines && t[0] == LF then Emit(if At(t, 1) == CR then 2 else 1, [LF])
    else if flags.entities && t[0] == '&' then
      if At(t, 1) == '#' then
        assert "&#" <= t;
        match ReadCharRef(t)
        case Malformed => Emit(1, [t[0]])
        case Ref(n, out) => Emit(n, out)
      else
        match EntityAt(t)
        case Some(e) => Emit(|e.pattern| + 2, [e.value])
        case None => Skip
    else Emit(1, [t[0]])
  }

  /** The text left by the loop when it has read `s[..i]` and written `out`. A skipped position keeps
      the character of the slice that was there before: `s[|out|]`. */
  function DecodeFrom(s: string, flags: Flags, i: nat, out: string): (r: string)
    requires |out| <= i <= |s|
    ensures out <= r && |r| <= |s|
    decreases |s| - i
  {
    if i == |s| then out
    else
      match NextAction(s[i..], flags)
      case Emit(n, o) => DecodeFrom(s, flags, i + n, out + o)
      case Skip => DecodeFrom(s, flags, i + 1, out + [s[|out|]])
  }

  lemma DecodeFromStep(s: string, flags: Flags, i: nat, out: string)
    requires |out| <= i <= |s|
    ensures i == |s| ==> DecodeFrom(s, flags, i, out) == out
    ensures i < |s| ==>
              DecodeFrom(s, flags, i, out) ==
              match NextAction(s[i..], flags)
              case Emit(n, o) => DecodeFrom(s, flags, i + n, out + o)
              case Skip => DecodeFrom(s, flags, i + 1, out + [s[|out|]])
  {
    hide NextAction;
  }

  function Decode(s: string, flags: Flags): (r: string)
    ensures |r| <= |s|
  {
    DecodeFrom(s, flags, 0, [])
  }

  // ---- The predefined entities -----------------------------------------------------------------------

  /** A reference to one of the five predefined entities of XML, and its character: section 4.6 of XML 1.0. */
  predicate Predefined(ref: string, c: char) {
    || (ref == "&quot;" && c == '\"')
    || (ref == "&amp;" && c == '&')
    || (ref == "&apos;" && c == '\'')
    || (ref == "&lt;" && c == '<')
    || (ref == "&gt;" && c == '>')
  }

  lemma PredefinedAt(t: string)
    ensures EntityAt(t).Some? <==> exists ref, c :: Predefined(ref, c) && ref <= t
    ensures forall ref, c | Predefined(ref, c) && ref <= t :: EntityAt(t).Some? && EntityAt(t).value.value == c
                                                             && |EntityAt(t).value.pattern| + 2 == |ref|
  {
    assert Reference(ENTITIES[0]) == "&quot;" && Reference(ENTITIES[1]) == "&amp;" && Reference(ENTITIES[2]) == "&apos;"
        && Reference(ENTITIES[3]) == "&lt;" && Reference(ENTITIES[4]) == "&gt;";
    forall ref, c | Predefined(ref, c) && ref <= t
      ensures EntityAt(t).Some? && EntityAt(t).value.value == c && |EntityAt(t).value.pattern| + 2 == |ref|
    {
      var k := if c == '\"' then 0 else if c == '&' then 1 else if c == '\'' then 2 else if c == '<' then 3 else 4;
      EntityIs(t, k);
    }
    if EntityAt(t).Some? {
      var e := EntityAt(t).value;
      assert Predefined(Reference(e), e.value);
    }
  }

  /** Wherever a reference to a predefined entity is met, its character is written for it and reading goes on after it;
      so it is at the front of a text, and as a slice of its own. */
  lemma PredefinedDecodes(ref: string, c: char, s: string, i: nat, flags: Flags, out: string)
    requires Predefined(ref, c) && flags.entities && |out| <= i <= |s| && ref <= s[i..]
    ensures DecodeFrom(s, flags, i, out) == DecodeFrom(s, flags, i + |ref|, out + [c])
    ensures Decode(ref, flags) == [c]
  {
    hide DecodeFrom, CleanDecode, Predefined, Decode;
    var rest := s[i + |ref|..];
    assert s[i..] == ref + rest;
    DecodesAt(ref, c, s, i, rest, flags, out);
    DecodesAlone(ref, c, flags);
  }

  lemma DecodesAt(ref: string, c: char, s: string, i: nat, rest: string, flags: Flags, out: string)
    requires Predefined(ref, c) && flags.entities && |out| <= i <= |s| && s[i..] == ref + rest
    ensures DecodeFrom(s, flags, i, out) == DecodeFrom(s, flags, i + |ref|, out + [c])
  {
    hide DecodeFrom, NextAction, Predefined;
    PredefinedTurn(ref, c, rest, flags);
    DecodesOne(s, flags, i, out, |ref|, [c]);
  }

  lemma DecodesOne(s: string, flags: Flags, i: nat, out: string, n: nat, o: string)
    requires |out| <= i < |s| && NextAction(s[i..], flags) == Emit(n, o)
    ensures DecodeFrom(s, flags, i, out) == DecodeFrom(s, flags, i + n, out + o)
  {
    hide NextAction;
  }

  /** A text that begins with such a reference is its character and the decoding of what follows. */
  lemma DecodesInFront(ref: string, c: char, rest: string, flags: Flags)
    requires Predefined(ref, c) && flags.entities
    ensures CleanDecode(ref + rest, flags) == [c] + CleanDecode(rest, flags)
  {
    hide CleanDecode, NextAction, Predefined;
    PredefinedTurn(ref, c, rest, flags);
    assert (ref + rest)[|ref|..] == rest;
    CleanStep(ref + rest, flags);
  }

  lemma DecodesAlone(ref: string, c: char, flags: Flags)
    requires Predefined(ref, c) && flags.entities
    ensures Decode(ref, flags) == [c]
  {
    hide DecodeFrom, NextAction, Predefined;
    assert ref[0..] == ref + "" && [] + [c] == [c];
    DecodesAt(ref, c, ref, 0, "", flags, []);
    DecodeFromStep(ref, flags, |ref|, [c]);
  }

  lemma PredefinedTurn(ref: string, c: char, rest: string, flags: Flags)
    requires Predefined(ref, c) && flags.entities
    ensures ref != "" && NextAction(ref + rest, flags) == Emit(|ref|, [c])
  {
    hide EntityAt;
    var t := ref + rest;
    assert t[0] == ref[0] == '&' && t[1] == ref[1] != '#' && ref <= t;
    PredefinedAt(t);
  }

  // ---- When an unrecognised ampersand is left alone -------------------------------------------------

  /** Decoding in which an unrecognised `&` stands for itself. */
  function CleanDecode(t: string, flags: Flags): string {
    if t == [] then []
    else
      match NextAction(t, flags)
      case Emit(n, out) => out + CleanDecode(t[n..], flags)
      case Skip => "&" + CleanDecode(t[1..], flags)
  }

  /** Every unrecognised `&` met from read position `i` and write position `q` finds an `&` in the
      slice at the write position. With nothing shortened before it, that is the `&` itself. */
  predicate AmpersandsInPlace(s: string, flags: Flags, i: nat, q: nat)
    requires q <= i <= |s|
    decreases |s| - i
  {
    if i == |s| then true
    else
      match NextAction(s[i..], flags)
      case Emit(n, out) => AmpersandsInPlace(s, flags, i + n, q + |out|)
      case Skip => s[q] == '&' && AmpersandsInPlace(s, flags, i + 1, q + 1)
  }

  lemma CleanStep(t: string, flags: Flags)
    requires t != []
    ensures var a := NextAction(t, flags);
            CleanDecode(t, flags) == if a.Emit? then a.out + CleanDecode(t[a.n..], flags) else "&" + CleanDecode(t[1..], flags)
  {
    hide NextAction;
  }

  lemma AmpersandsStep(s: string, flags: Flags, i: nat, q: nat)
    requires q <= i < |s|
    ensures var a := NextAction(s[i..], flags);
            AmpersandsInPlace(s, flags, i, q)
            <==> if a.Emit? then AmpersandsInPlace(s, flags, i + a.n, q + |a.out|)
                 else s[q] == '&' && AmpersandsInPlace(s, flags, i + 1, q + 1)
  {
    hide NextAction;
  }

  lemma {:induction false} CleanExactlyFrom(s: string, flags: Flags, i: nat, out: string)
    requires |out| <= i <= |s|
    ensures DecodeFrom(s, flags, i, out) == out + CleanDecode(s[i..], flags)
            <==> AmpersandsInPlace(s, flags, i, |out|)
    decreases |s| - i
  {
    hide NextAction, DecodeFrom, CleanDecode, AmpersandsInPlace;
    DecodeFromStep(s, flags, i, out);
    if i == |s| {
      CleanEnd(s, flags, |out|);
      assert out + [] == out;
    } else {
      CleanStep(s[i..], flags);
      AmpersandsStep(s, flags, i, |out|);
      match NextAction(s[i..], flags)
      case Emit(n, o) =>
        assert s[i + n..] == s[i..][n..];
        CleanExactlyFrom(s, flags, i + n, out + o);
        Associates(out, o, CleanDecode(s[i + n..], flags));
      case Skip =>
        assert s[i + 1..] == s[i..][1..];
        CleanExactlyFrom(s, flags, i + 1, out + [s[|out|]]);
        SkippedByte(out, s[|out|], CleanDecode(s[i + 1..], flags), DecodeFrom(s, flags, i + 1, out + [s[|out|]]));
    }
  }

  lemma Associates(a: string, b: string, c: string)
    ensures a + (b + c) == a + b + c
  {
  }

  lemma CleanEnd(s: string, flags: Flags, q: nat)
    requires q <= |s|
    ensures CleanDecode(s[|s|..], flags) == [] && AmpersandsInPlace(s, flags, |s|, q)
  {
  }

  lemma SkippedByte(out: string, c: char, clean: string, r: string)
    requires out + [c] <= r
    ensures r == out + ("&" + clean) <==> c == '&' && r == out + [c] + clean
  {
    assert (out + ("&" + clean))[|out|] == '&' && r[|out|] == c;
    assert c == '&' ==> out + ("&" + clean) == out + [c] + clean;
  }

  /** GetStr leaves unrecognised ampersands alone exactly when they are in place. */
  lemma CleanExactly(s: string, flags: Flags)
    ensures Decode(s, flags) == CleanDecode(s, flags) <==> AmpersandsInPlace(s, flags, 0, 0)
  {
    CleanExactlyFrom(s, flags, 0, []);
    assert s[0..] == s && [] + CleanDecode(s, flags) == CleanDecode(s, flags);
  }

  /** An `&` that starts no entity of the table and no numeric reference. */
  predicate Unrecognised(t: string) {
    At(t, 0) == '&' && At(t, 1) != '#' && EntityAt(t).None?
  }

  /** A recognised reference, or a pair of line ends: what decoding may shorten. */
  predicate Shortens(t: string) {
    || (At(t, 0) == CR && At(t, 1) == LF)
    || (At(t, 0) == LF && At(t, 1) == CR)
    || ("&#" <= t && ReadCharRef(t).Ref?)
    || EntityAt(t).Some?
  }

  lemma TurnKinds(t: string, flags: Flags)
    requires t != []
    ensures !Unrecognised(t) ==> NextAction(t, flags).Emit?
    ensures !Shortens(t) ==>
              || NextAction(t, flags).Skip?
              || NextAction(t, flags) == Emit(1, [if t[0] == CR && flags.newlines then LF else t[0]])
    ensures NextAction(t, flags).Skip? ==> t[0] == '&'
  {
    hide ReadCharRef, EntityAt;
  }

  lemma {:induction false} NothingSkipped(s: string, flags: Flags, i: nat, q: nat)
    requires q <= i <= |s|
    requires forall k | i <= k < |s| :: !Unrecognised(s[k..])
    ensures AmpersandsInPlace(s, flags, i, q)
    decreases |s| - i
  {
    hide NextAction, Unrecognised;
    if i < |s| {
      TurnKinds(s[i..], flags);
      var a := NextAction(s[i..], flags);
      NothingSkipped(s, flags, i + a.n, q + |a.out|);
    }
  }

  lemma {:induction false} NothingShortened(s: string, flags: Flags, i: nat, n: nat)
    requires i <= n <= |s|
    requires forall k | i <= k < n :: !Shortens(s[k..])
    requires forall k | n <= k < |s| :: !Unrecognised(s[k..])
    ensures AmpersandsInPlace(s, flags, i, i)
    decreases n - i
  {
    hide NextAction, Unrecognised, Shortens;
    if i == n {
      NothingSkipped(s, flags, i, i);
    } else {
      TurnKinds(s[i..], flags);
      NothingShortened(s, flags, i + 1, n);
    }
  }

  /** Where every ampersand starts a known entity or a numeric reference, no ampersand is lost. */
  lemma KnownReferencesDecode(s: string, flags: Flags)
    requires forall k | 0 <= k < |s| && s[k] == '&' :: At(s, k + 1) == '#' || EntityAt(s[k..]).Some?
    ensures Decode(s, flags) == CleanDecode(s, flags)
  {
    hide CleanDecode, AmpersandsInPlace, EntityAt;
    NothingSkipped(s, flags, 0, 0);
    CleanExactly(s, flags);
  }

  /** Nor is one lost where nothing that decoding shortens stands before the last unrecognised one. */
  lemma EarlyAmpersandsStay(s: string, flags: Flags, n: nat)
    requires n <= |s|
    requires forall k | 0 <= k < n :: !Shortens(s[k..])
    requires forall k | n <= k < |s| :: !Unrecognised(s[k..])
    ensures AmpersandsInPlace(s, flags, 0, 0) && Decode(s, flags) == CleanDecode(s, flags)
  {
    hide CleanDecode, AmpersandsInPlace, Shortens, Unrecognised;
    NothingShortened(s, flags, 0, n);
    CleanExactly(s, flags);
  }

  /** A concrete slice on which an ampersand is lost: after `&lt;` shrinks to one character, the
      unrecognised `&` of `&x` is replaced by the stale `l`. */
  lemma LostAmpersand()
    ensures Decode("&lt;&x", Flags(true, true, false)) == "<lx"
  {
    var s, flags := "&lt;&x", Flags(true, true, false);
    assert Reference(ENTITIES[3]) == s[..4];
    EntityIs(s, 3);
    assert NextAction(s, flags) == Emit(4, "<") && s[0..] == s;
    assert s[4..] == "&x" && s[5..] == "x" && EntityAt("&x").None?;
    calc {
      Decode(s, flags);
      DecodeFrom(s, flags, 4, [] + "<");
      { assert [] + "<" == "<"; }
      DecodeFrom(s, flags, 5, "<" + ['l']);
      DecodeFrom(s, flags, 6, "<" + ['l'] + ['x']);
      "<" + ['l'] + ['x'];
      "<lx";
    }
  }

  // ---- White space collapsing -----------------------------------------------------------------------

  /** The run of characters other than white space at the front of `t`, and what follows it. */
  function FirstWord(t: string): string {
    if t == [] || IsWhiteSpace(t[0]) then [] else [t[0]] + FirstWord(t[1..])
  }

  function AfterWord(t: string): (u: string)
    ensures |u| <= |t| && (t != [] && !IsWhiteSpace(t[0]) ==> |u| < |t|)
  {
    if t == [] || IsWhiteSpace(t[0]) then t else AfterWord(t[1..])
  }

  /** The maximal runs of characters other than white space, in order. */
  function Words(t: string): seq<string>
    decreases |t|
  {
    var u := TrimLeft(t);
    if u == [] then [] else [FirstWord(u)] + Words(AfterWord(u))
  }

  function Join(words: seq<string>): string {
    if words == [] then []
    else if |words| == 1 then words[0]
    else words[0] + " " + Join(words[1..])
  }

  /** What CollapseWhitespace writes for the rest `t`. */
  function Squeeze(t: string): (r: string)
    ensures |r| <= |t|
    decreases |t|
  {
    if t == [] then []
    else if !IsWhiteSpace(t[0]) then [t[0]] + Squeeze(t[1..])
    else
      var u := TrimLeft(t[1..]);
      if u == [] then [] else " " + Squeeze(u)
  }

  lemma SqueezeStep(t: string)
    ensures t == [] ==> Squeeze(t) == []
    ensures t != [] && !IsWhiteSpace(t[0]) ==> Squeeze(t) == [t[0]] + Squeeze(t[1..])
    ensures t != [] && IsWhiteSpace(t[0]) && TrimLeft(t) == [] ==> Squeeze(t) == []
    ensures t != [] && IsWhiteSpace(t[0]) && TrimLeft(t) != [] ==>
              Squeeze(t) == " " + [TrimLeft(t)[0]] + Squeeze(TrimLeft(t)[1..])
  {
  }

  function Collapse(t: string): (r: string)
    ensures |r| <= |t|
  {
    Squeeze(TrimLeft(t))
  }

  lemma JoinCons(c: char, w: string, rest: seq<string>)
    ensures Join([[c] + w] + rest) == [c] + Join([w] + rest)
  {
    if rest == [] {
      assert [[c] + w] + rest == [[c] + w] && [w] + rest == [w];
    } else {
      assert ([[c] + w] + rest)[1..] == rest && ([w] + rest)[1..] == rest;
      assert [c] + w + " " + Join(rest) == [c] + (w + " " + Join(rest));
    }
  }

  lemma {:induction false} SqueezeAtWord(u: string)
    requires u != [] && !IsWhiteSpace(u[0])
    ensures Squeeze(u) == Join(Words(u))
    decreases |u|
  {
    var c, t := u[0], u[1..];
    assert u == [c] + t;
    if t == [] || !IsWhiteSpace(t[0]) {
      if t == [] {
        assert Words(u) == [FirstWord(u)];
      } else {
        SqueezeAtWord(t);
        JoinCons(c, FirstWord(t), Words(AfterWord(t)));
      }
    } else {
      assert FirstWord(u) == [c] && AfterWord(u) == t;
      var v := TrimLeft(t[1..]);
      assert TrimLeft(t) == v;
      if v != [] {
        SqueezeAtWord(v);
        assert TrimLeft(v) == v && Words(t) == Words(v) && Words(v) != [];
        assert Words(u)[1..] == Words(v);
        assert [c] + (" " + Squeeze(v)) == [c] + " " + Squeeze(v);
      } else {
        assert Words(u) == [[c]];
      }
    }
  }

  /** Collapsing leaves the words, in order, with single blanks between them. */
  lemma CollapseIsWords(t: string)
    ensures Collapse(t) == Join(Words(t))
  {
    var u := TrimLeft(t);
    if u != [] {
      SqueezeAtWord(u);
      assert TrimLeft(u) == u;
    }
  }
}
