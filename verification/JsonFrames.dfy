/** The JSON of a forward frame and of the delivery made from it, as far as their sizes go. Texts are ASCII here:
    one character is one byte. */
module JsonFrames {
  import opened Wrappers
  import opened Daemon
  import opened Framing

  // ---- strings -------------------------------------------------------------------------------------------

  function HexDigit(c: char): Option<nat> {
    if '0' <= c <= '9' then Some(c as nat - '0' as nat)
    else if 'a' <= c <= 'f' then Some(c as nat - 'a' as nat + 10)
    else if 'A' <= c <= 'F' then Some(c as nat - 'A' as nat + 10)
    else None
  }

  /** The character of \uXXXX; surrogates are not part of an ASCII text. */
  function UnicodeEscape(t: string): Option<char>
    requires |t| == 4
  {
    var a, b, c, d := HexDigit(t[0]), HexDigit(t[1]), HexDigit(t[2]), HexDigit(t[3]);
    if a == Some(0) && b == Some(0) && c.Some? && d.Some? && 16 * c.value + d.value < 128
    then Some((16 * c.value + d.value) as char) else None
  }

  function SimpleEscape(c: char): Option<char> {
    match c
    case '"' => Some('"')
    case '\\' => Some('\\')
    case '/' => Some('/')
    case 'b' => Some(8 as char)
    case 'f' => Some(12 as char)
    case 'n' => Some('\n')
    case 'r' => Some('\r')
    case 't' => Some('\t')
    case _ => None
  }

  /** The string that the characters between two quotes stand for: section 7 of RFC 8259. */
  function Unescaped(t: string): (r: Option<string>)
    ensures r.Some? ==> |r.value| <= |t|
  {
    if t == "" then Some("")
    else if t[0] == '"' || t[0] < ' ' then None
    else
      var (c, n) :=
        if t[0] != '\\' then (Some(t[0]), 1)
        else if |t| < 2 then (None, 1)
        else if t[1] == 'u' then if |t| < 6 then (None, 1) else (UnicodeEscape(t[2..6]), 6)
        else (SimpleEscape(t[1]), 2);
      if c.None? then None else
        var rest := Unescaped(t[n..]);
        if rest.None? then None else Some([c.value] + rest.value)
  }

  /** What serde_json writes between the quotes. */
  function Escaped(s: string): string {
    if s == "" then "" else EscapedChar(s[0]) + Escaped(s[1..])
  }

  function EscapedChar(c: char): string {
    if c == '"' then "\\\""
    else if c == '\\' then "\\\\"
    else if c == '\n' then "\\n"
    else if c == '\r' then "\\r"
    else if c == '\t' then "\\t"
    else if c == 8 as char then "\\b"
    else if c == 12 as char then "\\f"
    else if c < ' ' then "\\u00" + [HexChar(c as nat / 16), HexChar(c as nat % 16)]
    else [c]
  }

  function HexChar(n: nat): char
    requires n < 16
  {
    "0123456789abcdef"[n]
  }

  predicate Plain(s: string) {
    forall i | 0 <= i < |s| :: ' ' <= s[i] && s[i] != '"' && s[i] != '\\'
  }

  lemma {:induction false} PlainIsUnescaped(s: string)
    requires Plain(s)
    ensures Escaped(s) == s
  {
    hide EscapedChar;
    if s != "" {
      PlainChar(s[0]);
      assert forall i | 0 <= i < |s| - 1 :: s[1..][i] == s[i + 1];
      PlainIsUnescaped(s[1..]);
      assert [s[0]] + s[1..] == s;
    }
  }

  lemma PlainChar(c: char)
    requires ' ' <= c && c != '"' && c != '\\'
    ensures EscapedChar(c) == [c]
  {
  }

  lemma Base64IsPlain(p: string)
    requires ValidBase64(p)
    ensures Plain(p)
  {
    forall i | 0 <= i < |p|
      ensures ' ' <= p[i] && p[i] != '"' && p[i] != '\\'
    {
      var body := p[..|p| - Padding(p)];
      if i < |body| {
        assert body[i] == p[i] && body[i] in body && Digit(p[i]) < 64;
      } else {
        assert i == |p| - 1 || i == |p| - 2;
      }
    }
  }

  // ---- objects -------------------------------------------------------------------------------------------

  datatype Value = Text(text: string) | Other(text: string)

  /** A member of an object, with the white space around its parts. */
  datatype Member = Member(space0: string, key: string, space1: string, space2: string, value: Value, space3: string)

  function ValueText(v: Value): string {
    if v.Text? then "\"" + v.text + "\"" else v.text
  }

  function MemberText(m: Member): string {
    m.space0 + "\"" + m.key + "\"" + m.space1 + ":" + m.space2 + ValueText(m.value) + m.space3
  }

  function Joined(ms: seq<Member>): string {
    if ms == [] then ""
    else if |ms| == 1 then MemberText(ms[0])
    else Joined(ms[..|ms| - 1]) + "," + MemberText(ms[|ms| - 1])
  }

  function ObjectText(space0: string, ms: seq<Member>, space1: string): string {
    space0 + "{" + Joined(ms) + "}" + space1
  }

  predicate IsString(m: Member, key: string, value: string) {
    Unescaped(m.key) == Some(key) && m.value.Text? && Unescaped(m.value.text) == Some(value)
  }

  /** The object is a forward frame; its other members do not matter. */
  ghost predicate IsForward(ms: seq<Member>, target: string, payload: string, i: nat, j: nat, k: nat) {
    && i < |ms| && j < |ms| && k < |ms| && i != j && i != k && j != k
    && IsString(ms[i], "type", "forward")
    && IsString(ms[j], "target_peer_id", target)
    && IsString(ms[k], "payload_b64", payload)
  }

  /** The space that some members take, with a comma for each. */
  ghost function Taken(ms: seq<Member>, s: set<nat>): nat {
    if ms == [] then 0
    else Taken(ms[..|ms| - 1], s) + if |ms| - 1 in s then |MemberText(ms[|ms| - 1])| + 1 else 0
  }

  lemma {:induction false} TakenFits(ms: seq<Member>, s: set<nat>)
    requires ms != []
    ensures Taken(ms, s) <= |Joined(ms)| + 1
  {
    hide MemberText;
    if |ms| > 1 { TakenFits(ms[..|ms| - 1], s); }
  }

  lemma {:induction false} TakenByOneMore(ms: seq<Member>, s: set<nat>, i: nat)
    requires i !in s
    ensures Taken(ms, s + {i}) == Taken(ms, s) + if i < |ms| then |MemberText(ms[i])| + 1 else 0
  {
    hide MemberText;
    if ms != [] {
      TakenByOneMore(ms[..|ms| - 1], s, i);
    }
  }

  lemma {:induction false} NothingTaken(ms: seq<Member>)
    ensures Taken(ms, {}) == 0
  {
    hide MemberText;
    if ms != [] { NothingTaken(ms[..|ms| - 1]); }
  }

  lemma ThreeMembers(ms: seq<Member>, i: nat, j: nat, k: nat)
    requires i < |ms| && j < |ms| && k < |ms| && i != j && i != k && j != k
    ensures |MemberText(ms[i])| + |MemberText(ms[j])| + |MemberText(ms[k])| + 2 <= |Joined(ms)|
  {
    hide MemberText, Taken, Joined;
    NothingTaken(ms);
    TakenByOneMore(ms, {}, i);
    TakenByOneMore(ms, {} + {i}, j);
    TakenByOneMore(ms, {} + {i} + {j}, k);
    TakenFits(ms, {} + {i} + {j} + {k});
  }

  lemma MemberNeeds(m: Member, key: string, value: string)
    requires IsString(m, key, value)
    ensures |MemberText(m)| >= |key| + |value| + 5
  {
    hide Unescaped;
  }

  // ---- deliveries ----------------------------------------------------------------------------------------

  /** A delivery as serde_json writes it. */
  function DeliveryText(from: string, payload: string): string {
    "{\"type\":\"delivery\",\"from_peer_id\":\"" + Escaped(from) + "\",\"payload_b64\":\"" + Escaped(payload) + "\"}"
  }

  /** Its members, read back: any two strings survive, whatever is in them. */
  lemma DeliveryReadsBack(from: string, payload: string) returns (ms: seq<Member>)
    ensures |ms| == 3 && DeliveryText(from, payload) == ObjectText("", ms, "")
    ensures IsString(ms[0], "type", "delivery")
    ensures IsString(ms[1], "from_peer_id", from) && IsString(ms[2], "payload_b64", payload)
  {
    hide Escaped, Unescaped, Joined, MemberText, Plain, Opening, DeliveryText;
    ms := [Bare("type", "delivery"), Bare("from_peer_id", Escaped(from)), Bare("payload_b64", Escaped(payload))];
    WordsArePlain();
    EscapedReadsBack(from);
    EscapedReadsBack(payload);
    ThreeJoined(ms);
    BareText("type", "delivery");
    BareText("from_peer_id", Escaped(from));
    BareText("payload_b64", Escaped(payload));
    Openings();
    DeliveryIs(from, payload);
    Assembled(Opening("type"), Opening("from_peer_id"), Opening("payload_b64"), "delivery", Escaped(from), Escaped(payload),
              "\"");
  }

  lemma WordsArePlain()
    ensures Unescaped("type") == Some("type") && Unescaped("delivery") == Some("delivery")
    ensures Unescaped("from_peer_id") == Some("from_peer_id") && Unescaped("payload_b64") == Some("payload_b64")
  {
    hide Unescaped;
    PlainReadsBack("type");
    PlainReadsBack("delivery");
    PlainReadsBack("from_peer_id");
    PlainReadsBack("payload_b64");
  }

  function Opening(key: string): string {
    "\"" + key + "\":\""
  }

  lemma BareText(key: string, text: string)
    ensures MemberText(Bare(key, text)) == Opening(key) + text + "\""
  {
  }

  lemma Assembled(a: string, b: string, c: string, d: string, f: string, p: string, q: string)
    ensures "" + "{" + ((a + d + q) + "," + (b + f + q) + "," + (c + p + q)) + "}" + ""
         == ("{" + (a + d + q) + "," + b) + f + (q + "," + c) + p + (q + "}")
  {
  }

  lemma Openings()
    ensures "{" + (Opening("type") + "delivery" + "\"") + "," + Opening("from_peer_id")
         == "{\"type\":\"delivery\",\"from_peer_id\":\""
    ensures "\"" + "," + Opening("payload_b64") == "\",\"payload_b64\":\"" && "\"" + "}" == "\"}"
  {
    hide Opening;
    FirstMember();
    OtherOpenings();
    assert "{" + "\"type\":\"delivery\"" + "," == "{\"type\":\"delivery\",";
  }

  lemma FirstMember()
    ensures Opening("type") + "delivery" + "\"" == "\"type\":\"delivery\""
  {
    assert "\"" + "type" + "\":\"" == "\"type\":\"";
  }

  lemma OtherOpenings()
    ensures Opening("from_peer_id") == "\"from_peer_id\":\"" && Opening("payload_b64") == "\"payload_b64\":\""
  {
  }

  lemma DeliveryIs(from: string, payload: string)
    ensures DeliveryText(from, payload)
         == "{\"type\":\"delivery\",\"from_peer_id\":\"" + Escaped(from) + "\",\"payload_b64\":\"" + Escaped(payload) + "\"}"
  {
  }

  function Bare(key: string, text: string): Member {
    Member("", key, "", "", Text(text), "")
  }

  lemma ThreeJoined(ms: seq<Member>)
    requires |ms| == 3
    ensures Joined(ms) == MemberText(ms[0]) + "," + MemberText(ms[1]) + "," + MemberText(ms[2])
  {
    hide MemberText;
    assert ms[..2][..1] == [ms[0]] && ms[..2][1] == ms[1];
    assert Joined(ms[..2]) == MemberText(ms[0]) + "," + MemberText(ms[1]);
  }

  lemma PlainReadsBack(s: string)
    requires Plain(s)
    ensures Unescaped(s) == Some(s)
  {
    PlainIsUnescaped(s);
    EscapedReadsBack(s);
  }

  /** Escaping loses nothing. */
  lemma {:induction false} EscapedReadsBack(s: string)
    ensures Unescaped(Escaped(s)) == Some(s)
  {
    hide EscapedChar, Unescaped;
    if s == "" {
      NothingUnescaped();
    } else {
      EscapedReadsBack(s[1..]);
      CharReadsBack(s[0], Escaped(s[1..]));
      assert s == [s[0]] + s[1..];
    }
  }

  lemma NothingUnescaped()
    ensures Unescaped("") == Some("")
  {
  }

  lemma CharReadsBack(c: char, rest: string)
    requires Unescaped(rest).Some?
    ensures Unescaped(EscapedChar(c) + rest) == Some([c] + Unescaped(rest).value)
  {
    hide Unescaped, EscapedChar, UnicodeEscape;
    EscapedKinds(c);
    var e := EscapedChar(c);
    if |e| == 1 {
      OneUnescaped(c, rest);
    } else if |e| == 2 {
      TwoUnescaped(e, c, rest);
    } else {
      SixUnescaped(e, c, rest);
    }
  }

  /** A character is written as it is, with one character after a backslash, or by its number. */
  lemma EscapedKinds(c: char)
    ensures var e := EscapedChar(c);
            || (e == [c] && c != '"' && c != '\\' && c >= ' ')
            || (|e| == 2 && e[0] == '\\' && e[1] != 'u' && SimpleEscape(e[1]) == Some(c))
            || (|e| == 6 && e[0] == '\\' && e[1] == 'u' && UnicodeEscape(e[2..]) == Some(c))
  {
    if c < ' ' {
      HexReadsBack(c as nat / 16);
      HexReadsBack(c as nat % 16);
    }
  }

  lemma OneUnescaped(c: char, rest: string)
    requires c != '"' && c != '\\' && c >= ' ' && Unescaped(rest).Some?
    ensures Unescaped([c] + rest) == Some([c] + Unescaped(rest).value)
  {
    hide UnicodeEscape, SimpleEscape;
    assert ([c] + rest)[1..] == rest;
  }

  lemma TwoUnescaped(e: string, c: char, rest: string)
    requires |e| == 2 && e[0] == '\\' && e[1] != 'u' && SimpleEscape(e[1]) == Some(c) && Unescaped(rest).Some?
    ensures Unescaped(e + rest) == Some([c] + Unescaped(rest).value)
  {
    hide UnicodeEscape, SimpleEscape;
    assert (e + rest)[2..] == rest;
  }

  lemma SixUnescaped(e: string, c: char, rest: string)
    requires |e| == 6 && e[0] == '\\' && e[1] == 'u' && UnicodeEscape(e[2..]) == Some(c) && Unescaped(rest).Some?
    ensures Unescaped(e + rest) == Some([c] + Unescaped(rest).value)
  {
    hide UnicodeEscape, SimpleEscape;
    assert (e + rest)[6..] == rest && (e + rest)[2..6] == e[2..];
  }

  lemma HexReadsBack(n: nat)
    requires n < 16
    ensures HexDigit(HexChar(n)) == Some(n)
  {
  }

  /** The text of a v4 uuid. */
  predicate IsUuid(p: string) {
    |p| == 36 && forall c | c in p :: c == '-' || '0' <= c <= '9' || 'a' <= c <= 'f'
  }

  /** The delivery made from an accepted forward frame is shorter than that frame was. So it fits whenever the
      frame did: what the daemon forwards, a peer can read. */
  lemma DeliveryFits(space0: string, ms: seq<Member>, space1: string, target: string, payload: string, from: string,
                     i: nat, j: nat, k: nat)
    requires IsForward(ms, target, payload, i, j, k) && ValidBase64(payload)
    requires IsUuid(target) && IsUuid(from)
    ensures |DeliveryText(from, payload)| < |ObjectText(space0, ms, space1)|
    ensures |ObjectText(space0, ms, space1)| <= MAX_FRAME_BYTES ==> |DeliveryText(from, payload)| <= MAX_FRAME_BYTES
  {
    hide Joined, MemberText, IsString, ValidBase64, Escaped;
    ThreeMembers(ms, i, j, k);
    MemberNeeds(ms[i], "type", "forward");
    MemberNeeds(ms[j], "target_peer_id", target);
    MemberNeeds(ms[k], "payload_b64", payload);
    Base64IsPlain(payload);
    PlainIsUnescaped(payload);
    UuidIsPlain(from);
    PlainIsUnescaped(from);
  }

  lemma UuidIsPlain(p: string)
    requires IsUuid(p)
    ensures Plain(p)
  {
    forall i | 0 <= i < |p|
      ensures ' ' <= p[i] && p[i] != '"' && p[i] != '\\'
    {
      assert p[i] in p;
    }
  }
}
