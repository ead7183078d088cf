/** Character classes and buffer scanning of tinyxml2's XMLUtil and StrPair.

    The parse buffer is a NUL-terminated char array. It is modelled as a `string` whose characters
    stand for bytes (0 to 255); reading at or past its length yields the terminator. A NUL inside
    the string ends it early, as it does in the source. */
module XmlUtil {
  import opened Wrappers

  const NUL: char := '\0'
  const LF: char := '\n'
  const CR: char := '\r'

  /** The byte order mark of UTF-8. */
  const BOM: string := [0xEF as char, 0xBB as char, 0xBF as char]

  function At(t: string, i: nat): char {
    if i < |t| then t[i] else NUL
  }

  predicate AtEnd(t: string) {
    t == [] || t[0] == NUL
  }

  /** `isspace` in the C locale. Bytes from 128 up are never white space. */
  predicate IsWhiteSpace(c: char) {
    c == ' ' || '\t' <= c <= '\r'
  }

  predicate IsNameStartChar(c: char) {
    c as int >= 128 || 'a' <= c <= 'z' || 'A' <= c <= 'Z' || c == ':' || c == '_'
  }

  predicate IsNameChar(c: char) {
    IsNameStartChar(c) || '0' <= c <= '9' || c == '.' || c == '-'
  }

  /** What follows the white space at the front of `t`. */
  function TrimLeft(t: string): (u: string)
    ensures |u| <= |t| && (u != [] ==> !IsWhiteSpace(u[0]))
  {
    if t == [] || !IsWhiteSpace(t[0]) then t else TrimLeft(t[1..])
  }

  /** The run of name characters at the front of `t`, and what follows it. */
  function TakeName(t: string): string {
    if t == [] || !IsNameChar(t[0]) then [] else [t[0]] + TakeName(t[1..])
  }

  function DropName(t: string): (u: string)
    ensures |u| <= |t| && (t != [] && IsNameChar(t[0]) ==> |u| < |t|)
  {
    if t == [] || !IsNameChar(t[0]) then t else DropName(t[1..])
  }

  function Newlines(t: string): nat {
    if t == [] then 0 else Newlines(t[..|t| - 1]) + if t[|t| - 1] == LF then 1 else 0
  }

  lemma {:induction false} NewlinesConcat(a: string, b: string)
    ensures Newlines(a + b) == Newlines(a) + Newlines(b)
  {
    if b == [] {
      assert a + b == a;
    } else {
      assert (a + b)[..|a + b| - 1] == a + b[..|b| - 1];
      NewlinesConcat(a, b[..|b| - 1]);
    }
  }

  /** An end tag: a nonempty C string. */
  predicate IsTag(tag: string) {
    tag != [] && NUL !in tag
  }

  /** The offset of the first occurrence of `tag` before the terminator of `t`. */
  function FindTag(t: string, tag: string): (r: Option<nat>)
    requires IsTag(tag)
    ensures r.Some? ==> r.value + |tag| <= |t|
  {
    if AtEnd(t) then None
    else if tag <= t then Some(0)
    else
      match FindTag(t[1..], tag)
      case Some(n) => Some(n + 1)
      case None => None
  }

  /** A text is found whole when `tag` does not occur earlier, not even across its end. */
  lemma {:induction false} FindTagAfter(body: string, tag: string, rest: string)
    requires IsTag(tag) && NUL !in body
    requires forall i | 0 <= i < |body| :: !(tag <= body[i..] + tag + rest)
    ensures FindTag(body + tag + rest, tag) == Some(|body|)
  {
    var t := body + tag + rest;
    if body == [] {
      assert t == tag + rest;
    } else {
      assert t[0] == body[0] != NUL && body[0..] == body;
      assert t[1..] == body[1..] + tag + rest;
      assert forall i | 0 <= i < |body[1..]| :: body[1..][i..] == body[i + 1..];
      FindTagAfter(body[1..], tag, rest);
    }
  }

  /** XMLUtil::SkipWhiteSpace: the position after the white space, and the line number there. */
  method SkipWhiteSpace(buf: string, p: nat, line: nat) returns (q: nat, newLine: nat)
    requires p <= |buf|
    ensures p <= q <= |buf| && buf[q..] == TrimLeft(buf[p..])
    ensures newLine == line + Newlines(buf[p..q])
  {
    q, newLine := p, line;
    while q < |buf| && IsWhiteSpace(buf[q])
      invariant p <= q <= |buf|
      invariant TrimLeft(buf[p..]) == TrimLeft(buf[q..])
      invariant newLine == line + Newlines(buf[p..q])
    {
      if buf[q] == LF {
        newLine := newLine + 1;
      }
      assert buf[p..q + 1][..q - p] == buf[p..q];
      assert buf[q..][1..] == buf[q + 1..];
      q := q + 1;
    }
  }

  /** StrPair::ParseText: scans for `tag`. On success `end` is where the text ends, `next` the
      position after the tag. */
  method ParseText(buf: string, p: nat, tag: string, line: nat)
    returns (found: bool, end: nat, next: nat, newLine: nat)
    requires p <= |buf| && IsTag(tag)
    ensures found <==> FindTag(buf[p..], tag).Some?
    ensures found ==> end == p + FindTag(buf[p..], tag).value && next == end + |tag| <= |buf|
    ensures found ==> newLine == line + Newlines(buf[p..end])
  {
    end, newLine := p, line;
    while end < |buf| && buf[end] != NUL
      invariant p <= end <= |buf|
      invariant match FindTag(buf[end..], tag)
                case Some(n) => FindTag(buf[p..], tag) == Some(end - p + n)
                case None => FindTag(buf[p..], tag) == None
      invariant newLine == line + Newlines(buf[p..end])
    {
      if tag <= buf[end..] {
        return true, end, end + |tag|, newLine;
      } else if buf[end] == LF {
        newLine := newLine + 1;
      }
      assert buf[end..][1..] == buf[end + 1..];
      assert buf[p..end + 1][..end - p] == buf[p..end];
      end := end + 1;
    }
    return false, p, p, newLine;
  }

  /** StrPair::ParseName: the end of the name at `p`, or None when no name starts there. */
  method ParseName(buf: string, p: nat) returns (end: Option<nat>)
    requires p <= |buf|
    ensures end.None? <==> buf[p..] == [] || !IsNameStartChar(buf[p])
    ensures end.Some? ==> p < end.value <= |buf| && buf[p..end.value] == TakeName(buf[p..])
                          && buf[end.value..] == DropName(buf[p..])
  {
    if p == |buf| || !IsNameStartChar(buf[p]) {
      return None;
    }
    var q := p + 1;
    assert buf[p..][1..] == buf[q..] && buf[p..q] == [buf[p]];
    while q < |buf| && IsNameChar(buf[q])
      invariant p < q <= |buf|
      invariant TakeName(buf[p..]) == buf[p..q] + TakeName(buf[q..])
      invariant DropName(buf[p..]) == DropName(buf[q..])
    {
      assert buf[q..][1..] == buf[q + 1..];
      assert buf[p..q] + ([buf[q]] + TakeName(buf[q + 1..])) == buf[p..q + 1] + TakeName(buf[q + 1..]);
      q := q + 1;
    }
    assert buf[p..q] + [] == buf[p..q];
    return Some(q);
  }
}
