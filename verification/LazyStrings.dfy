/** Strings are decoded when they are first read, each in place in the one buffer that all of them share. In whatever
    order that happens, every string is what the parse says, and a pointer that was returned stays good. */
module LazyStrings {
  import opened Wrappers
  import opened XmlUtil
  import opened StrPairs
  import opened GetStr
  import opened XmlTree
  import opened XmlParser
  import opened XmlSlices

  // ---- Strings that share a buffer -----------------------------------------------------------------------

  /** A pair as it was made: its slice, its flags and the text in it. */
  datatype Origin = Origin(start: nat, end: nat, raw: string, flags: Flags) {
    ghost function Text(): string {
      Value(raw, flags)
    }
  }

  /** The pair is as it was made, or has been read; `b` is what the buffer holds. */
  ghost predicate KeepsIn(b: string, start: nat, end: nat, flags: Flags, needsFlush: bool, origin: Origin) {
    && start <= end < |b| && origin.start <= start && end == origin.end
    && if needsFlush then start == origin.start && flags == origin.flags && b[start..end] == origin.raw
       else CString(b[start..]) == origin.Text() && start + |CString(b[start..])| <= end
  }

  ghost predicate Keeps(p: StrPair, origin: Origin)
    reads p, p.buf
  {
    KeepsIn(p.buf[..], p.start, p.end, p.flags, p.needsFlush, origin)
  }

  /** The pairs lie apart in one buffer, their terminators included. */
  ghost predicate Apart(buf: array<char>, pairs: seq<StrPair>, origins: seq<Origin>) {
    && |pairs| == |origins|
    && (forall k | 0 <= k < |pairs| :: pairs[k].buf == buf)
    && (forall j, k | 0 <= j < k < |pairs| :: pairs[j] != pairs[k] && origins[j].end < origins[k].start)
  }

  /** A text that ends within `[start, end]` depends on nothing else. */
  lemma TextThere(b: string, now: string, start: nat, end: nat)
    requires start <= end < |b| == |now| && b[start..end + 1] == now[start..end + 1]
    requires start + |CString(b[start..])| <= end
    ensures CString(now[start..]) == CString(b[start..])
  {
    hide CString;
    var n := |CString(b[start..])|;
    var text := CString(b[start..]);
    CStringIsPrefix(b[start..]);
    PartsSame(b, now, start, start, start + n, end + 1);
    assert b[start..][..n] == b[start..start + n] && now[start..][..n] == now[start..start + n];
    assert b[start..][n] == b[start..end + 1][n] == now[start..end + 1][n] == now[start..][n];
    assert now[start..] == text + now[start..][n..];
    CStringIs(text, now[start..][n..]);
    CStringWhole(text);
  }

  lemma PartsSame(b: string, now: string, lo: nat, from: nat, to: nat, hi: nat)
    requires lo <= from <= to <= hi <= |b| == |now| && b[lo..hi] == now[lo..hi]
    ensures b[from..to] == now[from..to]
  {
    PartOf(b, lo, from, to, hi);
    PartOf(now, lo, from, to, hi);
  }

  lemma PartOf(b: string, lo: nat, from: nat, to: nat, hi: nat)
    requires lo <= from <= to <= hi <= |b|
    ensures b[from..to] == b[lo..hi][from - lo..to - lo]
  {
    var u, v := b[lo..hi][from - lo..to - lo], b[from..to];
    assert |u| == |v| && forall i | 0 <= i < |u| :: u[i] == v[i];
  }

  /** What a reading leaves alone holds every other slice, with its terminator. */
  lemma OutsideSame(b: string, now: string, lo: nat, hi: nat, start: nat, end: nat)
    requires |b| == |now| && lo <= hi < |b| && b[..lo] == now[..lo] && b[hi + 1..] == now[hi + 1..]
    requires start <= end < |b| && (end < lo || hi < start)
    ensures b[start..end + 1] == now[start..end + 1]
  {
    if end < lo {
      assert b[start..end + 1] == b[..lo][start..end + 1] && now[start..end + 1] == now[..lo][start..end + 1];
    } else {
      var k := hi + 1;
      assert b[start..end + 1] == b[k..][start - k..end + 1 - k] && now[start..end + 1] == now[k..][start - k..end + 1 - k];
    }
  }

  /** A pair that is not touched keeps, when its part of the buffer is the same. */
  lemma KeepsThere(b: string, now: string, start: nat, end: nat, flags: Flags, needsFlush: bool, origin: Origin, lo: nat,
                   hi: nat)
    requires KeepsIn(b, start, end, flags, needsFlush, origin)
    requires |b| == |now| && lo <= hi < |b| && b[..lo] == now[..lo] && b[hi + 1..] == now[hi + 1..]
    requires origin.end < lo || hi < origin.start
    ensures KeepsIn(now, start, end, flags, needsFlush, origin)
  {
    hide CString, Value;
    OutsideSame(b, now, lo, hi, start, end);
    if needsFlush {
      PartsSame(b, now, start, start, end, end + 1);
    } else {
      TextThere(b, now, start, end);
    }
  }

  /** The pair that is read keeps. */
  lemma ReadKeeps(b: string, now: string, start: nat, end: nat, flags: Flags, needsFlush: bool, origin: Origin,
                  start': nat, flags': Flags)
    requires KeepsIn(b, start, end, flags, needsFlush, origin) && |b| == |now| && start <= start' <= end
    requires needsFlush ==> CString(now[start'..]) == Value(b[start..end], flags) && start' + |CString(now[start'..])| <= end
    requires !needsFlush ==> now == b && start' == start
    ensures KeepsIn(now, start', end, flags', false, origin)
  {
    hide CString, Value;
  }

  /** Reading one of the pairs. */
  method ReadOne(buf: array<char>, pairs: seq<StrPair>, ghost origins: seq<Origin>, k: nat) returns (start: nat)
    requires k < |pairs| && Apart(buf, pairs, origins) && forall j | 0 <= j < |pairs| :: Keeps(pairs[j], origins[j])
    modifies buf, pairs[k]
    ensures forall j | 0 <= j < |pairs| :: Keeps(pairs[j], origins[j])
    ensures start == pairs[k].start && !pairs[k].needsFlush
    ensures old(!pairs[k].needsFlush) ==> start == old(pairs[k].start)
  {
    hide Value, CString, KeepsIn;
    var p := pairs[k];
    ghost var b, lo, hi, flags, unread := buf[..], p.start, p.end, p.flags, p.needsFlush;
    KeepsMeans(b, lo, hi, flags, unread, origins[k]);
    assert b[lo..hi] == buf[lo..hi] && b[..lo] == buf[..lo] && b[hi + 1..] == buf[hi + 1..];
    start := p.GetStr();
    ghost var now := buf[..];
    assert now[..lo] == buf[..lo] && now[hi + 1..] == buf[hi + 1..] && now[start..] == buf[start..];
    ReadKeeps(b, now, lo, hi, flags, unread, origins[k], start, p.flags);
    forall j | 0 <= j < |pairs|
      ensures Keeps(pairs[j], origins[j])
    {
      if j != k {
        var q := pairs[j];
        KeepsMeans(b, q.start, q.end, q.flags, q.needsFlush, origins[j]);
        KeepsThere(b, now, q.start, q.end, q.flags, q.needsFlush, origins[j], lo, hi);
      }
    }
  }

  lemma KeepsMeans(b: string, start: nat, end: nat, flags: Flags, needsFlush: bool, origin: Origin)
    requires KeepsIn(b, start, end, flags, needsFlush, origin)
    ensures start <= end < |b| && origin.start <= start && end == origin.end
  {
  }

  /** Reading any of the pairs in any order, as often as one likes: each reading returns the start of the string that
      the slice stands for, and in the end the string is still there. */
  method ReadInOrder(buf: array<char>, pairs: seq<StrPair>, ghost origins: seq<Origin>, order: seq<nat>)
    returns (starts: seq<nat>)
    requires Apart(buf, pairs, origins) && forall j | 0 <= j < |pairs| :: Keeps(pairs[j], origins[j])
    requires forall i | 0 <= i < |order| :: order[i] < |pairs|
    modifies buf, pairs
    ensures |starts| == |order| && forall j | 0 <= j < |pairs| :: Keeps(pairs[j], origins[j])
    ensures forall i | 0 <= i < |order| ::
              pairs[order[i]].Valid() && starts[i] == pairs[order[i]].start && pairs[order[i]].Text() == origins[order[i]].Text()
  {
    hide Keeps, CString, Value;
    starts := [];
    for i := 0 to |order|
      invariant |starts| == i && forall j | 0 <= j < |pairs| :: Keeps(pairs[j], origins[j])
      invariant forall h | 0 <= h < i :: !pairs[order[h]].needsFlush && starts[h] == pairs[order[h]].start
    {
      var start := ReadOne(buf, pairs, origins, order[i]);
      starts := starts + [start];
    }
    forall i | 0 <= i < |order|
      ensures pairs[order[i]].Valid() && starts[i] == pairs[order[i]].start
              && pairs[order[i]].Text() == origins[order[i]].Text()
    {
      KeepsText(pairs[order[i]], origins[order[i]]);
    }
  }

  lemma KeepsText(p: StrPair, origin: Origin)
    requires Keeps(p, origin) && !p.needsFlush
    ensures p.Valid() && p.Text() == origin.Text()
  {
    hide CString, Value;
    assert p.buf[..][p.start..] == p.buf[p.start..];
  }

  // ---- The strings of a parsed text ----------------------------------------------------------------------

  function OriginOf(s: string, m: Slice): Origin
    requires m.right <= m.left <= |s|
  {
    Origin(|s| - m.left, |s| - m.right, Raw(s, m), m.flags)
  }

  lemma {:induction false} ValueAt(s: string, ms: seq<Slice>, i: nat)
    requires i < |ms|
    ensures Values(s, ms)[i] == Value(Raw(s, ms[i]), ms[i].flags)
  {
    hide Value, Raw;
    if i > 0 { ValueAt(s, ms[1..], i - 1); }
  }

  /** The pairs that a parse of `s` leaves behind, on its buffer. */
  method MakePairs(s: string, ms: seq<Slice>) returns (buf: array<char>, pairs: seq<StrPair>, ghost origins: seq<Origin>)
    requires InOrder(ms, |s| + 1, 0)
    ensures fresh(buf) && buf[..] == s + [NUL] && forall k | 0 <= k < |pairs| :: fresh(pairs[k])
    ensures |pairs| == |ms| && Apart(buf, pairs, origins)
    ensures forall k | 0 <= k < |ms| :: origins[k] == OriginOf(s, ms[k]) && Keeps(pairs[k], origins[k])
  {
    hide Value, CString;
    buf := new char[|s| + 1](i requires 0 <= i <= |s| => if i < |s| then s[i] else NUL);
    assert buf[..] == s + [NUL];
    pairs, origins := [], [];
    for i := 0 to |ms|
      invariant fresh(buf) && buf[..] == s + [NUL]
      invariant |pairs| == |origins| == i && forall k | 0 <= k < i :: fresh(pairs[k])
      invariant Apart(buf, pairs, origins)
      invariant forall k | 0 <= k < i :: origins[k] == OriginOf(s, ms[k]) && Keeps(pairs[k], origins[k])
    {
      var m := ms[i];
      var pair := new StrPair.Set(buf, |s| - m.left, |s| - m.right, m.flags);
      BufferPart(s, |s| - m.left, |s| - m.right);
      pairs, origins := pairs + [pair], origins + [OriginOf(s, m)];
    }
  }

  lemma BufferPart(s: string, from: nat, to: nat)
    requires from <= to <= |s|
    ensures (s + [NUL])[from..to] == s[from..to]
  {
  }

  /** Parsing a text, and reading its names, attribute values and texts for the first time in whatever order: each
      reading returns the string that the tree has in that place. */
  method ReadTree(s: string, o: Options, order: seq<nat>) returns (buf: array<char>, pairs: seq<StrPair>, starts: seq<nat>)
    requires Parse(s, o).Parsed? && forall i | 0 <= i < |order| :: order[i] < |Strings(Parse(s, o).children)|
    ensures |pairs| == |Strings(Parse(s, o).children)| && |starts| == |order|
    ensures forall i | 0 <= i < |order| ::
              && pairs[order[i]].Valid() && starts[i] == pairs[order[i]].start
              && pairs[order[i]].Text() == Strings(Parse(s, o).children)[order[i]]
  {
    hide Parse, Slices, Strings, Values, InOrder, Keeps, Value, CString;
    var ms := Slices(s, o);
    SlicesInOrder(s, o);
    SlicesAreStrings(s, o);
    ghost var origins;
    buf, pairs, origins := MakePairs(s, ms);
    starts := ReadInOrder(buf, pairs, origins, order);
    forall i | 0 <= i < |order|
      ensures pairs[order[i]].Text() == Strings(Parse(s, o).children)[order[i]]
    {
      ValueAt(s, ms, order[i]);
      OriginText(s, ms, order[i]);
    }
  }

  lemma OriginText(s: string, ms: seq<Slice>, k: nat)
    requires InOrder(ms, |s| + 1, 0) && k < |ms|
    ensures ms[k].right <= ms[k].left <= |s| && OriginOf(s, ms[k]).Text() == Value(Raw(s, ms[k]), ms[k].flags)
  {
    hide Value, Raw;
  }
}
