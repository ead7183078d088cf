/** StrPair as an object over the parse buffer: Set, GetStr and CollapseWhitespace rewrite the buffer
    in place. Each method is tied to the specification functions of StrPairs. */
module GetStr {
  import opened Wrappers
  import opened XmlUtil
  import opened CharRefs
  import opened StrPairs

  /** The C string at the front of `t`. */
  function CString(t: string): (s: string)
    ensures |s| <= |t| && NUL !in s
  {
    if AtEnd(t) then [] else [t[0]] + CString(t[1..])
  }

  lemma {:induction false} CStringIs(s: string, rest: string)
    requires AtEnd(rest)
    ensures CString(s + rest) == CString(s)
  {
    if AtEnd(s) {
      assert s != [] ==> (s + rest)[0] == s[0];
      assert s == [] ==> s + rest == rest;
    } else {
      assert (s + rest)[1..] == s[1..] + rest;
      CStringIs(s[1..], rest);
    }
  }

  /** What a reader of the pair sees, given the raw slice and its flags. */
  function Value(raw: string, flags: Flags): string {
    var decoded := CString(if flags == Flags(false, false, false) then raw else Decode(raw, flags));
    if flags.collapse then Collapse(decoded) else decoded
  }

  /** memcpy of `n` bytes of `value` to `buf + q`. */
  method CopyBytes(buf: array<char>, q: nat, value: array<char>, n: nat)
    requires q + n <= buf.Length && n <= value.Length && buf != value
    modifies buf
    ensures buf[..] == Poke(old(buf[..]), q, value[..n])
  {
    for i := 0 to n
      invariant forall k | 0 <= k < buf.Length :: buf[k] == if q <= k < q + i then value[k - q] else old(buf[k])
    {
      buf[q + i] := value[i];
    }
  }

  class StrPair {
    const buf: array<char>
    var start: nat
    var end: nat
    var flags: Flags
    var needsFlush: bool

    ghost predicate Valid()
      reads this
    {
      start <= end < buf.Length
    }

    /** The C string this pair points to. */
    ghost function Text(): string
      requires Valid()
      reads this, buf
    {
      CString(buf[start..])
    }

    /** StrPair::Set on the slice `[start, end)`. */
    constructor Set(buf: array<char>, start: nat, end: nat, flags: Flags)
      requires start <= end < buf.Length
      ensures Valid() && this.buf == buf && this.start == start && this.end == end
      ensures this.flags == flags && needsFlush
    {
      this.buf, this.start, this.end, this.flags, this.needsFlush := buf, start, end, flags, true;
    }

    /** One turn of the decoding loop: reads at `p`, writes at `q`. */
    method DecodeNext(p: nat, q: nat) returns (p': nat, q': nat)
      requires Valid() && q <= p < end && buf[end] == NUL
      modifies buf
      ensures Cursor(buf[..], p', q') == Turn(Cursor(old(buf[..]), p, q), end, flags)
    {
      hide ReadCharRef, EntityAt, Poke;
      ghost var b, t := buf[..], buf[p..end];
      assert t == b[p..end] && t[0] == buf[p] && At(t, 1) == buf[p + 1];
      p', q' := p + 1, q + 1;
      if flags.newlines && buf[p] == CR {
        if buf[p + 1] == LF { p' := p + 2; }
        buf[q] := LF;
        PokeOne(b, q, LF);
      } else if flags.newlines && buf[p] == LF {
        if buf[p + 1] == CR { p' := p + 2; }
        buf[q] := LF;
        PokeOne(b, q, LF);
      } else if flags.entities && buf[p] == '&' {
        if buf[p + 1] == '#' {
          assert "&#" <= t;
          p', q' := DecodeCharRef(p, q);
        } else {
          var e := EntityAt(buf[p..end]);
          if e.Some? {
            p' := p + |e.value.pattern| + 2;
            buf[q] := e.value.value;
            PokeOne(b, q, e.value.value);
          }
        }
      } else {
        PokeOne(b, q, buf[p]);
        buf[q] := buf[p];
      }
    }

    /** The branch of the loop for `&#`. */
    method DecodeCharRef(p: nat, q: nat) returns (p': nat, q': nat)
      requires Valid() && q <= p < end && buf[end] == NUL && "&#" <= buf[p..end]
      modifies buf
      ensures match ReadCharRef(old(buf[p..end]))
              case Malformed => p' == p + 1 && q' == q + 1 && buf[..] == Poke(old(buf[..]), q, "&")
              case Ref(n, out) => p' == p + n && q' == q + |out| && buf[..] == Poke(old(buf[..]), q, out)
    {
      hide ReadCharRef, Poke;
      var value := new char[10](_ => NUL);
      var adjusted, length := GetCharacterRef(buf[p..end], value);
      if adjusted.None? {
        assert buf[p] == buf[p..end][0] == '&';
        PokeOne(buf[..], q, '&');
        buf[q] := buf[p];
        return p + 1, q + 1;
      }
      CopyBytes(buf, q, value, length);
      return p + adjusted.value, q + length;
    }

    /** The decoding loop: the slice becomes its decoded form, and a terminator after it. */
    method DecodeInPlace()
      requires Valid() && buf[end] == NUL
      modifies buf
      ensures buf[..] == Replaced(old(buf[..]), start, Decode(old(buf[start..end]), flags))
    {
      hide Turn, Decoding, Replaced;
      ghost var b := buf[..];
      var p, q := start, start;
      StartDecoding(b, start, end, flags);
      while p < end
        invariant start <= q <= p <= end && buf[end] == NUL
        invariant Decoding(b, start, end, flags, Cursor(buf[..], p, q))
        decreases end - p
      {
        TurnDecodes(b, start, end, flags, Cursor(buf[..], p, q));
        p, q := DecodeNext(p, q);
      }
      FinishDecoding(b, start, end, flags, Cursor(buf[..], p, q));
      buf[q] := NUL;
    }

    /** XMLUtil::SkipWhiteSpace on the C string that `buf[z]` ends. */
    method SkipSpaces(p: nat, ghost z: nat) returns (q: nat)
      requires p <= z < buf.Length && buf[z] == NUL
      ensures p <= q <= z && buf[q..z] == TrimLeft(buf[p..z])
    {
      q := p;
      while IsWhiteSpace(buf[q])
        invariant p <= q <= z
        invariant TrimLeft(buf[p..z]) == TrimLeft(buf[q..z])
        decreases z - q
      {
        assert buf[q..z][1..] == buf[q + 1..z];
        q := q + 1;
      }
    }

    /** One turn of the CollapseWhitespace loop; `more` is false when only white space was left. */
    method SqueezeNext(p: nat, q: nat, ghost z: nat) returns (p': nat, q': nat, more: bool)
      requires q <= p < z < buf.Length && buf[z] == NUL && NUL !in buf[p..z]
      modifies buf
      ensures SqueezeTurn(Cursor(old(buf[..]), p, q), z) == if more then Some(Cursor(buf[..], p', q')) else None
      ensures !more ==> buf[..] == old(buf[..]) && q' == q
    {
      hide Poke;
      ghost var b := buf[..];
      p', q' := p, q;
      assert buf[p] == b[p..z][0];
      if IsWhiteSpace(buf[p]) {
        p' := SkipSpaces(p, z);
        ghost var u := buf[p'..z];
        assert u == TrimLeft(b[p..z]) == TrimLeft(b[p..z][1..]);
        assert p' < z ==> buf[p'] == b[p..z][p' - p];
        if buf[p'] == NUL {
          return p', q, false;
        }
        assert buf[p'] == u[0];
        buf[q] := ' ';
        PokeOne(b, q, ' ');
        q' := q + 1;
      }
      PokeOne(buf[..], q', buf[p']);
      buf[q'] := buf[p'];
      return p' + 1, q' + 1, true;
    }

    /** StrPair::CollapseWhitespace on the C string `[start, z)`. */
    method CollapseWhitespace(ghost z: nat)
      requires Valid() && start <= z <= end && buf[z] == NUL && NUL !in buf[start..z]
      modifies buf, this`start
      ensures Valid() && old(start) <= start <= z && start + |Collapse(old(buf[start..z]))| <= z
      ensures buf[..] == Replaced(old(buf[..]), start, Collapse(old(buf[start..z])))
    {
      hide SqueezeTurn, Squeezing, Squeezed, Replaced, Squeeze, TrimLeft, IsWhiteSpace;
      ghost var first := start;
      start := SkipSpaces(start, z);
      ghost var b := buf[..];
      SliceOfSlice(b, first, start, z);
      NoneInSuffix(b[first..z], start - first);
      assert buf[first..z] == b[first..z] && buf[start..z] == b[start..z];
      var p, q, more := start, start, true;
      StartSqueezing(b, start, z);
      while more && buf[p] != NUL
        invariant start <= q <= z && buf[z] == NUL
        invariant if more then q <= p <= z && Squeezing(b, start, z, Cursor(buf[..], p, q))
                  else Squeezed(b, start, z, buf[..], q)
        decreases more, z - p
        modifies buf
      {
        TurnSqueezes(b, start, z, Cursor(buf[..], p, q));
        p, q, more := SqueezeNext(p, q, z);
      }
      if more {
        EndSqueezing(b, start, z, Cursor(buf[..], p, q));
      }
      FinishSqueezing(b, start, z, buf[..], q);
      buf[q] := NUL;
    }

    /** StrPair::GetStr: decodes the slice on the first call; returns the start of the text. Nothing
        outside the slice and its terminator is written. */
    method GetStr() returns (s: nat)
      requires Valid()
      modifies this, buf
      ensures Valid() && !needsFlush && s == start && end == old(end) && old(start) <= start
      ensures old(needsFlush) ==> Text() == Value(old(buf[start..end]), old(flags)) && start + |Text()| <= end
      ensures old(needsFlush) ==> flags == Flags(false, false, false)
      ensures buf[..old(start)] == old(buf[..start]) && buf[end + 1..] == old(buf[end + 1..])
      ensures !old(needsFlush) ==> buf[..] == old(buf[..]) && start == old(start)
    {
      if needsFlush {
        FirstRead();
      }
      return start;
    }

    method FirstRead()
      requires Valid() && needsFlush
      modifies this, buf
      ensures Valid() && !needsFlush && end == old(end) && old(start) <= start
      ensures Text() == Value(old(buf[start..end]), old(flags)) && flags == Flags(false, false, false)
      ensures start + |Text()| <= end
      ensures buf[..old(start)] == old(buf[..start]) && buf[end + 1..] == old(buf[end + 1..])
    {
      hide Replaced, Decode, Collapse, CString, Framed;
      ghost var b, raw, first := buf[..], buf[start..end], start;
      TerminatedSlice(b, start, end);
      buf[end] := NUL;
      needsFlush := false;
      assert buf[start..end] == raw;
      CStringShort(raw);
      if flags != Flags(false, false, false) {
        ghost var before := buf[..];
        DecodeSlice();
        FramedTwice(b, before, buf[..], start, start, end, end);
      }
      if flags.collapse {
        ghost var before := buf[..];
        CollapseText();
        FramedTwice(b, before, buf[..], first, first, end, end);
      }
      FrameMeans(b, buf[..], first, end);
      flags := Flags(false, false, false);
    }

    /** The decoding of GetStr, on a terminated slice. */
    method DecodeSlice()
      requires Valid() && buf[end] == NUL
      modifies buf
      ensures Text() == CString(Decode(old(buf[start..end]), flags)) && start + |Text()| <= end
      ensures Framed(old(buf[..]), buf[..], start, end)
    {
      hide Replaced, Decode, CString, Framed;
      ghost var before, d := buf[..], Decode(buf[start..end], flags);
      DecodeInPlace();
      TextOfReplaced(before, start, d, end);
      CStringShort(d);
    }

    /** The collapsing of GetStr. */
    method CollapseText()
      requires Valid() && start + |Text()| <= end
      modifies buf, this`start
      ensures Valid() && old(start) <= start && Text() == Collapse(old(Text())) && start + |Text()| <= end
      ensures Framed(old(buf[..]), buf[..], old(start), end)
    {
      hide Replaced, Collapse, CString, Framed;
      ghost var before, first, text := buf[..], start, Text();
      ghost var z := start + |text|;
      CStringIsPrefix(buf[start..]);
      assert buf[start..z] == buf[start..][..z - start] && (z < buf.Length ==> buf[start..][z - start] == buf[z]);
      CollapseWhitespace(z);
      TextOfReplaced(before, start, Collapse(text), z);
      FramedSame(before, first, end);
      FramedTwice(before, before, buf[..], first, start, z, end);
      CollapseHasNoNul(text);
    }
  }

  /** Two reads: the second returns the same string, and nothing outside the slice and its terminator has been
      written after both. */
  method ReadTwice(pair: StrPair) returns (first: nat, second: nat)
    requires pair.Valid() && pair.needsFlush
    modifies pair, pair.buf
    ensures pair.Valid() && first == second == pair.start
    ensures pair.Text() == Value(old(pair.buf[pair.start..pair.end]), old(pair.flags))
    ensures pair.buf[..old(pair.start)] == old(pair.buf[..pair.start])
    ensures pair.buf[old(pair.end) + 1..] == old(pair.buf[pair.end + 1..])
  {
    hide CString, Value;
    first := pair.GetStr();
    second := pair.GetStr();
  }

  // ---- The loops, on values -------------------------------------------------------------------------

  /** The buffer, the read position and the write position. */
  datatype Cursor = Cursor(mem: string, p: nat, q: nat)

  /** The buffer after `out` and a terminator have been written at `start`. */
  function Replaced(b: string, start: nat, out: string): string
    requires start + |out| < |b|
  {
    b[..start] + (out + ([NUL] + b[start + |out| + 1..]))
  }

  /** `now` differs from `b` at most in `[lo, hi]`. */
  ghost predicate Framed(b: string, now: string, lo: nat, hi: nat) {
    lo <= hi < |b| == |now| && now[..lo] == b[..lo] && now[hi + 1..] == b[hi + 1..]
  }

  lemma FrameMeans(b: string, now: string, lo: nat, hi: nat)
    requires Framed(b, now, lo, hi)
    ensures hi < |b| == |now| && now[..lo] == b[..lo] && now[hi + 1..] == b[hi + 1..]
  {
  }

  lemma FramedTwice(b: string, mid: string, now: string, lo: nat, lo': nat, hi': nat, hi: nat)
    requires Framed(b, mid, lo, hi) && Framed(mid, now, lo', hi') && lo <= lo' <= hi' <= hi
    ensures Framed(b, now, lo, hi)
  {
    assert now[..lo] == now[..lo'][..lo] && mid[..lo] == mid[..lo'][..lo];
    assert now[hi + 1..] == now[hi' + 1..][hi - hi'..] && mid[hi + 1..] == mid[hi' + 1..][hi - hi'..];
  }

  lemma TerminatedSlice(b: string, start: nat, end: nat)
    requires start <= end < |b|
    ensures var now := b[end := NUL];
            Framed(b, now, start, end) && CString(now[start..]) == CString(b[start..end])
  {
    var now := b[end := NUL];
    assert now[start..] == b[start..end] + now[end..] && now[end..][0] == NUL;
    CStringIs(b[start..end], now[end..]);
  }

  lemma TextOfReplaced(b: string, start: nat, out: string, hi: nat)
    requires start + |out| <= hi < |b|
    ensures var now := Replaced(b, start, out);
            Framed(b, now, start, hi) && CString(now[start..]) == CString(out)
  {
    hide CString, Replaced, Framed;
    ReplacedFrame(b, start, out, hi);
    ReplacedTail(b, start, out);
    CStringIs(out, [NUL] + b[start + |out| + 1..]);
  }

  lemma ReplacedTail(b: string, start: nat, out: string)
    requires start + |out| < |b|
    ensures |Replaced(b, start, out)| == |b|
    ensures Replaced(b, start, out)[start..] == out + ([NUL] + b[start + |out| + 1..])
  {
    assert Replaced(b, start, out)[..start] == b[..start];
  }

  lemma ReplacedFrame(b: string, start: nat, out: string, hi: nat)
    requires start + |out| <= hi < |b|
    ensures Framed(b, Replaced(b, start, out), start, hi)
  {
    var now, k := Replaced(b, start, out), start + |out| + 1;
    assert now[..start] == b[..start];
    assert now == (b[..start] + (out + [NUL])) + b[k..];
    assert now[k..] == b[k..];
    SuffixAfter(b, now, k, hi + 1);
  }

  lemma CStringShort(t: string)
    ensures |CString(t)| <= |t|
  {
  }

  lemma FramedSame(b: string, lo: nat, hi: nat)
    requires lo <= hi < |b|
    ensures Framed(b, b, lo, hi)
  {
  }

  lemma SuffixAfter(b: string, now: string, from: nat, to: nat)
    requires from <= to <= |b| == |now| && now[from..] == b[from..]
    ensures now[to..] == b[to..]
  {
    assert now[to..] == now[from..][to - from..] && b[to..] == b[from..][to - from..];
  }

  lemma {:induction false} CStringIsPrefix(t: string)
    ensures var n := |CString(t)|;
            CString(t) == t[..n] && (n < |t| ==> t[n] == NUL)
  {
    if !AtEnd(t) {
      CStringIsPrefix(t[1..]);
    }
  }

  lemma {:induction false} CStringWhole(t: string)
    requires NUL !in t
    ensures CString(t) == t
  {
    if t != [] {
      assert t[0] in t && t == [t[0]] + t[1..];
      CStringWhole(t[1..]);
    }
  }

  lemma {:induction false} SqueezeHasNoNul(t: string)
    requires NUL !in t
    ensures NUL !in Squeeze(t)
    decreases |t|
  {
    if t != [] {
      assert t[0] in t;
      if !IsWhiteSpace(t[0]) {
        SqueezeHasNoNul(t[1..]);
      } else {
        TrimLeftIsSuffix(t[1..]);
        SqueezeHasNoNul(TrimLeft(t[1..]));
      }
    }
  }

  lemma CollapseHasNoNul(t: string)
    requires NUL !in t
    ensures CString(Collapse(t)) == Collapse(t)
  {
    TrimLeftIsSuffix(t);
    SqueezeHasNoNul(TrimLeft(t));
    CStringWhole(Collapse(t));
  }

  /** `o` written at `q`. */
  function Poke(mem: string, q: nat, o: string): (now: string)
    requires q + |o| <= |mem|
    ensures |now| == |mem|
  {
    mem[..q] + o + mem[q + |o|..]
  }

  lemma PokeOne(mem: string, q: nat, c: char)
    requires q < |mem|
    ensures Poke(mem, q, [c]) == mem[q := c]
  {
  }

  /** Only `[start, q)` of the buffer `b` has been rewritten. */
  ghost predicate SameOutside(b: string, start: nat, q: nat, mem: string) {
    start <= q <= |b| == |mem| && mem[..start] == b[..start] && mem[q..] == b[q..]
  }

  lemma PokeKeeps(b: string, start: nat, q: nat, mem: string, o: string)
    requires SameOutside(b, start, q, mem) && q + |o| <= |mem|
    ensures var now := Poke(mem, q, o);
            SameOutside(b, start, q + |o|, now) && now[start..q + |o|] == mem[start..q] + o
  {
    var now := Poke(mem, q, o);
    SuffixAfter(b, mem, q, q + |o|);
    assert now[q + |o|..] == mem[q + |o|..];
    assert now[..start] == mem[..start];
  }

  lemma SkipKeeps(b: string, start: nat, q: nat, mem: string)
    requires SameOutside(b, start, q, mem) && q < |mem|
    ensures SameOutside(b, start, q + 1, mem) && mem[start..q + 1] == mem[start..q] + [b[q]]
  {
    SuffixAfter(b, mem, q, q + 1);
    assert mem[q..] == [mem[q]] + mem[q + 1..] && b[q..] == [b[q]] + b[q + 1..];
    assert mem[start..q + 1] == mem[start..q] + [mem[q]];
  }

  /** The part from the write pointer on still reads as in `b`. */
  lemma Unread(b: string, start: nat, q: nat, mem: string, p: nat, end: nat)
    requires SameOutside(b, start, q, mem) && q <= p <= end <= |b|
    ensures mem[p..end] == b[p..end] == b[start..end][p - start..]
    ensures end < |b| ==> mem[end] == b[end]
  {
    SliceOfSuffix(mem, q, p, end);
    SliceOfSuffix(b, q, p, end);
    SliceOfSlice(b, start, p, end);
  }

  lemma SliceOfSuffix(t: string, q: nat, p: nat, end: nat)
    requires q <= p <= end <= |t|
    ensures t[p..end] == t[q..][p - q..end - q]
    ensures end < |t| ==> t[end] == t[q..][end - q]
  {
  }

  lemma SliceOfSlice(t: string, start: nat, p: nat, end: nat)
    requires start <= p <= end <= |t|
    ensures t[p..end] == t[start..end][p - start..]
  {
  }

  lemma TerminatorPlaced(b: string, start: nat, q: nat, mem: string)
    requires SameOutside(b, start, q, mem) && q < |b|
    ensures mem[q := NUL] == Replaced(b, start, mem[start..q])
  {
    SuffixAfter(b, mem, q, q + 1);
    assert mem[q := NUL][..start] == mem[..start] && mem[q := NUL][start..q] == mem[start..q];
  }

  function Turn(c: Cursor, end: nat, flags: Flags): (d: Cursor)
    requires c.q <= c.p < end < |c.mem|
    ensures |d.mem| == |c.mem| && c.p < d.p <= end && c.q <= d.q <= d.p
  {
    match NextAction(c.mem[c.p..end], flags)
    case Emit(n, out) => Cursor(Poke(c.mem, c.q, out), c.p + n, c.q + |out|)
    case Skip => Cursor(c.mem, c.p + 1, c.q + 1)
  }

  /** What has been written so far, continued over what is unread, decodes the slice of `b`. */
  ghost predicate Decoding(b: string, start: nat, end: nat, flags: Flags, c: Cursor) {
    && start <= c.q <= c.p <= end < |b|
    && b[end] == NUL
    && SameOutside(b, start, c.q, c.mem)
    && DecodeFrom(b[start..end], flags, c.p - start, c.mem[start..c.q]) == Decode(b[start..end], flags)
  }

  lemma StartDecoding(b: string, start: nat, end: nat, flags: Flags)
    requires start <= end < |b| && b[end] == NUL
    ensures Decoding(b, start, end, flags, Cursor(b, start, start))
  {
    assert b[start..start] == "";
  }

  lemma TurnDecodes(b: string, start: nat, end: nat, flags: Flags, c: Cursor)
    requires Decoding(b, start, end, flags, c) && c.p < end
    ensures var d := Turn(c, end, flags);
            Decoding(b, start, end, flags, d) && start <= d.q <= d.p <= end && d.mem[end] == NUL
  {
    hide NextAction, DecodeFrom, Decode, SameOutside, Poke, Decoding;
    SliceUnread(b, start, end, flags, c);
    var s := b[start..end];
    match NextAction(s[c.p - start..], flags) {
      case Emit(n, o) => EmitDecodes(b, start, end, flags, c, n, o);
      case Skip => SkipDecodes(b, start, end, flags, c);
    }
    SliceUnread(b, start, end, flags, Turn(c, end, flags));
  }

  lemma SliceUnread(b: string, start: nat, end: nat, flags: Flags, c: Cursor)
    requires Decoding(b, start, end, flags, c)
    ensures start <= c.q <= c.p <= end < |b| == |c.mem| && c.mem[end] == NUL
    ensures c.mem[c.p..end] == b[start..end][c.p - start..]
  {
    Unread(b, start, c.q, c.mem, c.p, end);
  }

  lemma EmitStep(raw: string, flags: Flags, i: nat, w: string, n: nat, o: string)
    requires |w| <= i < |raw| && NextAction(raw[i..], flags) == Emit(n, o)
    ensures 1 <= n <= |raw| - i && |o| <= n
    ensures DecodeFrom(raw, flags, i, w) == DecodeFrom(raw, flags, i + n, w + o)
  {
    hide NextAction, DecodeFrom;
    DecodeFromStep(raw, flags, i, w);
  }

  lemma EmitDecodes(b: string, start: nat, end: nat, flags: Flags, c: Cursor, n: nat, o: string)
    requires Decoding(b, start, end, flags, c) && c.p < end && |c.mem| == |b|
    requires NextAction(b[start..end][c.p - start..], flags) == Emit(n, o)
    ensures Decoding(b, start, end, flags, Cursor(Poke(c.mem, c.q, o), c.p + n, c.q + |o|))
  {
    hide NextAction, DecodeFrom, Decode, SameOutside, Poke;
    EmitStep(b[start..end], flags, c.p - start, c.mem[start..c.q], n, o);
    PokeKeeps(b, start, c.q, c.mem, o);
  }

  lemma SkipDecodes(b: string, start: nat, end: nat, flags: Flags, c: Cursor)
    requires Decoding(b, start, end, flags, c) && c.p < end && |c.mem| == |b|
    requires NextAction(b[start..end][c.p - start..], flags) == Skip
    ensures Decoding(b, start, end, flags, Cursor(c.mem, c.p + 1, c.q + 1))
  {
    hide NextAction, DecodeFrom, Decode, SameOutside;
    DecodeFromStep(b[start..end], flags, c.p - start, c.mem[start..c.q]);
    SkipKeeps(b, start, c.q, c.mem);
    assert b[start..end][c.q - start] == b[c.q];
  }

  lemma FinishDecoding(b: string, start: nat, end: nat, flags: Flags, c: Cursor)
    requires Decoding(b, start, end, flags, c) && c.p == end
    ensures var d := Decode(b[start..end], flags);
            c.q == start + |d| && c.mem[c.q := NUL] == Replaced(b, start, d)
  {
    hide NextAction, DecodeFrom, Decode;
    DecodeFromStep(b[start..end], flags, end - start, c.mem[start..c.q]);
    TerminatorPlaced(b, start, c.q, c.mem);
  }

  function SqueezeTurn(c: Cursor, z: nat): (r: Option<Cursor>)
    requires c.q <= c.p < z < |c.mem|
    ensures r.Some? ==> var d := r.value;
                        |d.mem| == |c.mem| && c.p < d.p <= z && c.q <= d.q <= d.p
  {
    var t := c.mem[c.p..z];
    if !IsWhiteSpace(t[0]) then Some(Cursor(Poke(c.mem, c.q, [t[0]]), c.p + 1, c.q + 1))
    else
      var u := TrimLeft(t[1..]);
      if u == [] then None
      else Some(Cursor(Poke(Poke(c.mem, c.q, " "), c.q + 1, [u[0]]), z - |u| + 1, c.q + 2))
  }

  ghost predicate Squeezing(b: string, start: nat, z: nat, c: Cursor) {
    && start <= c.q <= c.p <= z < |b|
    && b[z] == NUL && NUL !in b[start..z]
    && SameOutside(b, start, c.q, c.mem)
    && c.mem[start..c.q] + Squeeze(b[c.p..z]) == Squeeze(b[start..z])
  }

  lemma StartSqueezing(b: string, start: nat, z: nat)
    requires start <= z < |b| && b[z] == NUL && NUL !in b[start..z]
    ensures Squeezing(b, start, z, Cursor(b, start, start))
  {
    assert b[start..start] == "" && "" + Squeeze(b[start..z]) == Squeeze(b[start..z]);
  }

  lemma {:induction false} TrimLeftIsSuffix(t: string)
    ensures TrimLeft(t) == t[|t| - |TrimLeft(t)|..]
  {
    if t != [] && IsWhiteSpace(t[0]) {
      TrimLeftIsSuffix(t[1..]);
    }
  }

  /** The loop has written all of it. */
  ghost predicate Squeezed(b: string, start: nat, z: nat, mem: string, q: nat) {
    SameOutside(b, start, q, mem) && start <= q <= z < |b| && mem[start..q] == Squeeze(b[start..z])
  }

  lemma TurnSqueezes(b: string, start: nat, z: nat, c: Cursor)
    requires Squeezing(b, start, z, c) && c.p < z
    ensures NUL !in c.mem[c.p..z] && |c.mem| == |b|
    ensures match SqueezeTurn(c, z)
            case Some(d) => Squeezing(b, start, z, d) && d.mem[z] == NUL
            case None => Squeezed(b, start, z, c.mem, c.q)
  {
    hide Squeeze, SameOutside, Poke, IsWhiteSpace, Squeezing, Squeezed;
    TextUnread(b, start, z, c);
    var t := b[c.p..z];
    if !IsWhiteSpace(t[0]) {
      SqueezesChar(b, start, z, c);
    } else if TrimLeft(t[1..]) == [] {
      SqueezesEnd(b, start, z, c);
    } else {
      SqueezesSpace(b, start, z, c);
    }
  }

  lemma TextUnread(b: string, start: nat, z: nat, c: Cursor)
    requires Squeezing(b, start, z, c)
    ensures start <= c.q <= c.p <= z < |b| == |c.mem| && NUL !in c.mem[c.p..z] && c.mem[c.p..z] == b[c.p..z]
  {
    hide Squeeze, SameOutside;
    Unread(b, start, c.q, c.mem, c.p, z);
    NoneInSuffix(b[start..z], c.p - start);
    SameLength(b, start, c.q, c.mem);
  }

  lemma NoneInSuffix(t: string, k: nat)
    requires k <= |t| && NUL !in t
    ensures NUL !in t[k..]
  {
  }

  lemma SqueezesChar(b: string, start: nat, z: nat, c: Cursor)
    requires Squeezing(b, start, z, c) && c.p < z && !IsWhiteSpace(b[c.p]) && |c.mem| == |b|
    ensures var mem := Poke(c.mem, c.q, [b[c.p]]);
            Squeezing(b, start, z, Cursor(mem, c.p + 1, c.q + 1)) && mem[z] == NUL
  {
    hide Squeeze, SameOutside, Poke, IsWhiteSpace;
    var t, out := b[c.p..z], c.mem[start..c.q];
    SqueezeStep(t);
    PokeKeeps(b, start, c.q, c.mem, [t[0]]);
    assert b[c.p + 1..z] == t[1..];
    assert out + ([t[0]] + Squeeze(t[1..])) == out + [t[0]] + Squeeze(t[1..]);
    Unread(b, start, c.q + 1, Poke(c.mem, c.q, [t[0]]), z, z);
  }

  lemma SqueezesEnd(b: string, start: nat, z: nat, c: Cursor)
    requires Squeezing(b, start, z, c) && c.p < z && IsWhiteSpace(b[c.p]) && |c.mem| == |b|
    requires TrimLeft(b[c.p..z][1..]) == []
    ensures Squeezed(b, start, z, c.mem, c.q)
  {
    hide Squeeze, SameOutside, IsWhiteSpace;
    SqueezeStep(b[c.p..z]);
    assert c.mem[start..c.q] + [] == c.mem[start..c.q];
  }

  lemma SqueezesSpace(b: string, start: nat, z: nat, c: Cursor)
    requires Squeezing(b, start, z, c) && c.p < z && IsWhiteSpace(b[c.p]) && |c.mem| == |b|
    requires TrimLeft(b[c.p..z][1..]) != []
    ensures var u := TrimLeft(b[c.p..z][1..]);
            var mem := Poke(Poke(c.mem, c.q, " "), c.q + 1, [u[0]]);
            Squeezing(b, start, z, Cursor(mem, z - |u| + 1, c.q + 2)) && mem[z] == NUL
  {
    hide Squeeze, SameOutside, Poke, IsWhiteSpace, TrimLeft;
    var t, out := b[c.p..z], c.mem[start..c.q];
    var u := TrimLeft(t[1..]);
    var rest := Squeeze(u[1..]);
    SpaceBefore(b, c.p, z);
    PokeKeeps(b, start, c.q, c.mem, " ");
    var mem := Poke(c.mem, c.q, " ");
    PokeKeeps(b, start, c.q + 1, mem, [u[0]]);
    Unread(b, start, c.q + 2, Poke(mem, c.q + 1, [u[0]]), z, z);
    assert out + (" " + [u[0]] + rest) == out + " " + [u[0]] + rest;
  }

  lemma SpaceBefore(b: string, p: nat, z: nat)
    requires p < z <= |b| && IsWhiteSpace(b[p]) && TrimLeft(b[p..z][1..]) != []
    ensures var u := TrimLeft(b[p..z][1..]);
            b[z - |u| + 1..z] == u[1..] && Squeeze(b[p..z]) == " " + [u[0]] + Squeeze(u[1..])
  {
    hide Squeeze, TrimLeft;
    var t := b[p..z];
    SpaceTrimmed(t);
    SqueezeStep(t);
    TrimLeftIsSuffix(t[1..]);
    SuffixOfSlice(b, p + 1, z, TrimLeft(t[1..]));
  }

  lemma SpaceTrimmed(t: string)
    requires t != [] && IsWhiteSpace(t[0])
    ensures TrimLeft(t) == TrimLeft(t[1..])
  {
  }

  lemma SuffixOfSlice(b: string, p: nat, z: nat, u: string)
    requires p <= z <= |b| && 0 < |u| <= z - p && u == b[p..z][z - p - |u|..]
    ensures b[z - |u| + 1..z] == u[1..]
  {
  }

  lemma SameLength(b: string, start: nat, q: nat, mem: string)
    requires SameOutside(b, start, q, mem)
    ensures |mem| == |b|
  {
  }

  lemma EndSqueezing(b: string, start: nat, z: nat, c: Cursor)
    requires Squeezing(b, start, z, c) && |c.mem| == |b|
    ensures c.p < z ==> c.mem[c.p] != NUL
    ensures c.p == z ==> Squeezed(b, start, z, c.mem, c.q)
  {
    hide SameOutside;
    TextUnread(b, start, z, c);
    if c.p == z {
      assert b[z..z] == "" && c.mem[start..c.q] + "" == c.mem[start..c.q];
    } else {
      assert c.mem[c.p] in c.mem[c.p..z];
    }
  }

  lemma FinishSqueezing(b: string, start: nat, z: nat, mem: string, q: nat)
    requires Squeezed(b, start, z, mem, q)
    ensures var d := Squeeze(b[start..z]);
            q == start + |d| && mem[q := NUL] == Replaced(b, start, d)
  {
    TerminatorPlaced(b, start, q, mem);
  }
}
