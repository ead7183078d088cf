/** The spellings of a tag that the printer does not use: either quote, and white space wherever it is allowed. */
module XmlSpelling {
  import opened Wrappers
  import opened XmlUtil
  import opened StrPairs
  import opened GetStr
  import opened XmlTree
  import opened XmlPrinter
  import opened XmlParser
  import opened XmlText
  import opened XmlRoundTrip

  /** An attribute as it is written: white space, its name, an `=` that may have white space around it, and the value
      in quotes. */
  datatype Spelling = Spelling(space: string, name: string, before: string, after: string, quote: char, raw: string) {
    predicate Valid() {
      && IsBlank(space) && ValidName(name) && IsBlank(before) && IsBlank(after)
      && (quote == '\"' || quote == '\'') && quote !in raw && NUL !in raw
    }

    function Text(): string {
      space + (name + (before + ("=" + (after + ([quote] + (raw + ([quote])))))))
    }

    /** What it is read as. */
    function Meaning(entities: bool): Attr {
      Attr(name, Value(raw, Flags(entities, true, false)))
    }
  }

  lemma {:induction false} SpaceSkipped(space: string, t: string)
    requires IsBlank(space) && (t == [] || !IsWhiteSpace(t[0]))
    ensures TrimLeft(space + t) == t
  {
    if space == [] {
      assert space + t == t;
    } else {
      assert (space + t)[1..] == space[1..] + t;
      assert forall i | 0 <= i < |space| - 1 :: space[1..][i] == space[i + 1];
      SpaceSkipped(space[1..], t);
    }
  }

  /** The value in quotes. */
  lemma ValueRead(quote: char, raw: string, rest: string)
    requires (quote == '\"' || quote == '\'') && quote !in raw && NUL !in raw
    ensures var v := [quote] + (raw + ([quote] + rest));
            && v[0] == quote && v[1..] == raw + [quote] + rest
            && FindTag(v[1..], [quote]) == Some(|raw|) && v[1..][..|raw|] == raw && v[1..][|raw| + 1..] == rest
  {
    hide FindTag;
    var v := [quote] + (raw + ([quote] + rest));
    OneCharTag(raw, quote, rest);
    assert v[1..] == raw + [quote] + rest;
  }

  /** What follows the name of an attribute. */
  lemma NameThenValue(a: Spelling, t: string)
    requires a.Valid()
    ensures var v := [a.quote] + t;
            var u := "=" + (a.after + v);
            && TakeName(a.name + (a.before + u)) == a.name && DropName(a.name + (a.before + u)) == a.before + u
            && !AtEnd(a.before + u) && TrimLeft(a.before + u) == u && u[1..] == a.after + v && TrimLeft(u[1..]) == v
  {
    hide TakeName, DropName, TrimLeft;
    var v := [a.quote] + t;
    var u := "=" + (a.after + v);
    assert u[1..] == a.after + v;
    SpaceSkipped(a.before, u);
    SpaceSkipped(a.after, v);
    BlankThen(a.before, u);
    NameRoundTrip(a.name, a.before + u);
  }

  lemma BlankThen(space: string, t: string)
    requires IsBlank(space) && t != [] && !IsNameChar(t[0]) && t[0] != NUL
    ensures space + t != [] && !IsNameChar((space + t)[0]) && (space + t)[0] != NUL
  {
    if space != [] { assert IsWhiteSpace(space[0]); }
  }

  lemma AttrRead(a: Spelling, rest: string, line: nat, o: Options) returns (line': nat)
    requires a.Valid()
    ensures ParseAttr(a.name + (a.before + ("=" + (a.after + ([a.quote] + (a.raw + ([a.quote] + rest)))))), line, o)
            == SomeAttr(a.Meaning(o.processEntities), rest, line')
  {
    hide TakeName, DropName, TrimLeft, FindTag, Value, Lines;
    var t := a.raw + ([a.quote] + rest);
    ValueRead(a.quote, a.raw, rest);
    NameThenValue(a, t);
    var s := a.name + (a.before + ("=" + (a.after + ([a.quote] + t))));
    assert s[0] == a.name[0];
    line' := ParseAttr(s, line, o).line;
  }

  lemma TextThen(a: Spelling, rest: string)
    ensures a.Text() + rest
            == a.space + (a.name + (a.before + ("=" + (a.after + ([a.quote] + (a.raw + ([a.quote] + rest)))))))
  {
    var q := [a.quote];
    assert (a.raw + q) + rest == a.raw + (q + rest);
    assert (q + (a.raw + q)) + rest == q + (a.raw + (q + rest));
    assert (a.after + (q + (a.raw + q))) + rest == a.after + (q + (a.raw + (q + rest)));
    Regroup(a.before, a.after + (q + (a.raw + q)), rest);
    Regroup2(a.space, a.name, a.before + ("=" + (a.after + (q + (a.raw + q)))), rest);
  }

  lemma Regroup(a: string, b: string, rest: string)
    ensures (a + ("=" + b)) + rest == a + ("=" + (b + rest))
  {
  }

  lemma Regroup2(a: string, b: string, c: string, rest: string)
    ensures (a + (b + c)) + rest == a + (b + (c + rest))
  {
  }

  // ---- tags ----------------------------------------------------------------------------------------------

  predicate AllValid(attrs: seq<Spelling>) {
    && (forall i | 0 <= i < |attrs| :: attrs[i].Valid())
    && (forall i, j | 0 <= i < j < |attrs| :: attrs[i].name != attrs[j].name)
  }

  function Texts(attrs: seq<Spelling>): string {
    if attrs == [] then "" else attrs[0].Text() + Texts(attrs[1..])
  }

  function Meanings(attrs: seq<Spelling>, entities: bool): (r: seq<Attr>)
    ensures |r| == |attrs|
  {
    if attrs == [] then [] else [attrs[0].Meaning(entities)] + Meanings(attrs[1..], entities)
  }

  predicate AllNew(attrs: seq<Spelling>, done: seq<Attr>) {
    forall i | 0 <= i < |attrs| :: !HasAttr(done, attrs[i].name)
  }

  lemma {:induction false} AttrsRead(attrs: seq<Spelling>, space: string, closed: bool, rest: string, line: nat,
                                     elementLine: nat, done: seq<Attr>, o: Options)
    returns (line': nat)
    requires AllValid(attrs) && AllNew(attrs, done) && IsBlank(space)
    ensures ParseAttributes(Texts(attrs) + (space + ((if closed then "/>" else ">") + rest)), line, elementLine, done, o)
            == Attrs(done + Meanings(attrs, o.processEntities), closed, rest, line')
    decreases |attrs|
  {
    hide ParseAttributes, HasAttr, Spelling.Text, Spelling.Meaning, Spelling.Valid;
    var end := space + ((if closed then "/>" else ">") + rest);
    if attrs == [] {
      assert Texts(attrs) + end == end && done + [] == done;
      line' := EndRead(space, closed, rest, line, elementLine, done, o);
    } else {
      var a, more := attrs[0], Texts(attrs[1..]) + end;
      assert Texts(attrs) + end == a.Text() + more;
      line' := OneAttr(a, more, line, elementLine, done, o);
      StillNewOnes(attrs, done, a.Meaning(o.processEntities));
      line' := AttrsRead(attrs[1..], space, closed, rest, line', elementLine, done + [a.Meaning(o.processEntities)], o);
      assert done + Meanings(attrs, o.processEntities)
          == done + [a.Meaning(o.processEntities)] + Meanings(attrs[1..], o.processEntities);
    }
  }

  lemma StillNewOnes(attrs: seq<Spelling>, done: seq<Attr>, a: Attr)
    requires AllValid(attrs) && AllNew(attrs, done) && attrs != []
    ensures attrs[0].Valid() && !HasAttr(done, attrs[0].name) && AllValid(attrs[1..])
    ensures a.name == attrs[0].name ==> AllNew(attrs[1..], done + [a])
  {
    hide Spelling.Valid;
    assert forall i | 0 <= i < |attrs| - 1 :: attrs[1..][i] == attrs[i + 1];
    if a.name == attrs[0].name {
      forall i | 0 <= i < |attrs| - 1
        ensures !HasAttr(done + [a], attrs[1..][i].name)
      {
        assert !HasAttr(done, attrs[i + 1].name);
        assert forall k | 0 <= k < |done| :: (done + [a])[k] == done[k];
      }
    }
  }

  lemma OneAttr(a: Spelling, more: string, line: nat, elementLine: nat, done: seq<Attr>, o: Options) returns (line': nat)
    requires a.Valid() && !HasAttr(done, a.name)
    ensures ParseAttributes(a.Text() + more, line, elementLine, done, o)
            == ParseAttributes(more, line', elementLine, done + [a.Meaning(o.processEntities)], o)
    ensures a.Meaning(o.processEntities).name == a.name
  {
    hide ParseAttr, Spelling.Text, Value, HasAttr;
    var t := a.Text() + more;
    TextThen(a, more);
    var u := a.name + (a.before + ("=" + (a.after + ([a.quote] + (a.raw + ([a.quote] + more))))));
    assert u[0] == a.name[0];
    NameStartIsNoSpace(a.name[0]);
    SpaceSkipped(a.space, u);
    line' := AttrRead(a, more, line + Lines(t, u), o);
  }

  lemma EndRead(space: string, closed: bool, rest: string, line: nat, elementLine: nat, done: seq<Attr>, o: Options)
    returns (line': nat)
    requires IsBlank(space)
    ensures ParseAttributes(space + ((if closed then "/>" else ">") + rest), line, elementLine, done, o)
            == Attrs(done, closed, rest, line')
  {
    hide ParseAttr, Lines;
    var close := if closed then "/>" else ">";
    var u := close + rest;
    assert u[0] == close[0] && u[|close|..] == rest;
    SpaceSkipped(space, u);
    line' := line + Lines(space + u, u);
  }

  /** However a tag is spelt, it is read as its name, the meanings of its attributes and how it ends: white space may
      stand before the name or the slash, around each attribute and its `=`, and before the end. */
  lemma TagSpelling(space: string, slash: bool, name: string, attrs: seq<Spelling>, end: string, closed: bool, rest: string,
                    line: nat, nodeLine: nat, o: Options)
    returns (line': nat)
    requires IsBlank(space) && ValidName(name) && AllValid(attrs) && IsBlank(end)
    requires attrs != [] ==> attrs[0].space != ""
    ensures ReadTag(space + ((if slash then "/" else "")
                             + (name + (Texts(attrs) + (end + ((if closed then "/>" else ">") + rest))))), line, nodeLine, o)
            == Tag(name, Meanings(attrs, o.processEntities), if closed then Closed else if slash then IsClosing else Open,
                   rest, line')
  {
    hide ParseAttributes, TakeName, DropName, Texts, Meanings, AllValid, Lines;
    var tail := Texts(attrs) + (end + ((if closed then "/>" else ">") + rest));
    var v := name + tail;
    var u := (if slash then "/" else "") + v;
    assert v[0] == name[0];
    NameStartIsNoSpace(name[0]);
    if slash {
      assert u[0] == '/' && u[1..] == v;
    } else {
      assert u == v;
    }
    SpaceSkipped(space, u);
    TailStart(attrs, end, closed, rest);
    NameRoundTrip(name, tail);
    var l := line + Lines(space + u, u);
    line' := AttrsRead(attrs, end, closed, rest, l, nodeLine, [], o);
    assert [] + Meanings(attrs, o.processEntities) == Meanings(attrs, o.processEntities);
  }

  lemma TailStart(attrs: seq<Spelling>, end: string, closed: bool, rest: string)
    requires AllValid(attrs) && (attrs != [] ==> attrs[0].space != "") && IsBlank(end)
    ensures var tail := Texts(attrs) + (end + ((if closed then "/>" else ">") + rest));
            tail != [] && !IsNameChar(tail[0])
  {
    var close := (if closed then "/>" else ">") + rest;
    if attrs == [] {
      assert Texts(attrs) + (end + close) == end + close;
      BlankThen(end, close);
    } else {
      var a := attrs[0];
      assert a.Valid() && IsWhiteSpace(a.space[0]);
      assert Texts(attrs)[0] == a.Text()[0] == a.space[0];
    }
  }

  // ---- documents -----------------------------------------------------------------------------------------

  /** White space before a document is skipped, also where a byte order mark follows. */
  lemma SpaceBeforeDocument(space: string, children: seq<Node>, bom: bool, o: Options)
    requires IsBlank(space) && NormalDocument(children, bom, o)
    ensures Parse(space + Printed(children, bom, o.processEntities), o) == Parsed(children, bom)
  {
    hide PrintNodes, ReadableNodes, ParseNodes, Lines, FaithfulNodes, DelimitedNodes, StartsPlainly, Printed;
    var s, t := Printed(children, bom, o.processEntities), PrintNodes(children, o.processEntities);
    assert s + "" == s && t + "" == t;
    DocumentStart(children, bom, "", o);
    var line := ChildrenOfDocumentRead(children, "", 1 + Lines(space + s, s), o);
    NothingLeft(line, children, o);
    SkippedEnd(s);
    SpaceSkipped(space, s);
    SpaceNotEnd(space, s);
  }

  lemma SpaceNotEnd(space: string, s: string)
    requires IsBlank(space) && !AtEnd(s)
    ensures !AtEnd(space + s)
  {
    if space != [] { assert IsWhiteSpace(space[0]); }
  }

  /** The byte order mark is that of UTF-8. */
  lemma MarkRead(children: seq<Node>, o: Options)
    requires NormalDocument(children, true, o)
    ensures Parse([0xEF as char, 0xBB as char, 0xBF as char] + PrintNodes(children, o.processEntities), o)
            == Parsed(children, true)
  {
    hide Parse, NormalDocument, PrintNodes;
    DocumentRoundTrip(children, true, o);
  }
}
