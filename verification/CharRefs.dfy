/** Numeric character references and UTF-8: XMLUtil::ConvertUTF32ToUTF8 and
    XMLUtil::GetCharacterRef. `unsigned` and `unsigned long` are 32 bits wide (the Windows ABI of
    the DLL), so the accumulated value wraps modulo WORD. */
module CharRefs {
  import opened Wrappers
  import opened XmlUtil
  import W = Words

  const WORD: nat := 0x1_0000_0000

  // ---- UTF-8 ------------------------------------------------------------------------------

  /** The bytes written for a code point; none from 0x200000 up. */
  function Utf8(n: nat): (out: string)
    ensures |out| <= 4 && (n < 0x200000 <==> out != [])
    ensures n < 0x80 ==> |out| == 1
  {
    if n < 0x80 then [n as char]
    else if n < 0x800 then [(0xC0 + n / 0x40) as char, Tail(n)]
    else if n < 0x10000 then [(0xE0 + n / 0x1000) as char, Tail(n / 0x40), Tail(n)]
    else if n < 0x200000 then
      [(0xF0 + n / 0x40000) as char, Tail(n / 0x1000), Tail(n / 0x40), Tail(n)]
    else []
  }

  /** A continuation byte, which holds six bits. */
  function Tail(n: nat): char {
    (0x80 + n % 0x40) as char
  }

  /** A decoder that accepts exactly one code unit sequence, by the bit layout of RFC 3629,
      section 3. */
  function DecodeUtf8(s: string): Option<nat> {
    var b := (i: nat) requires i < |s| => s[i] as int;
    if |s| == 1 && b(0) < 0x80 then Some(b(0))
    else if |s| == 2 && 0xC0 <= b(0) < 0xE0 && IsTail(s[1]) then
      Some((b(0) - 0xC0) * 0x40 + (b(1) - 0x80))
    else if |s| == 3 && 0xE0 <= b(0) < 0xF0 && IsTail(s[1]) && IsTail(s[2]) then
      Some((b(0) - 0xE0) * 0x1000 + (b(1) - 0x80) * 0x40 + (b(2) - 0x80))
    else if |s| == 4 && 0xF0 <= b(0) < 0xF8 && IsTail(s[1]) && IsTail(s[2]) && IsTail(s[3]) then
      Some((b(0) - 0xF0) * 0x40000 + (b(1) - 0x80) * 0x1000 + (b(2) - 0x80) * 0x40 + (b(3) - 0x80))
    else None
  }

  predicate IsTail(c: char) {
    0x80 <= c as int <= 0xBF
  }

  /** The grammar of RFC 3629, section 4, for one code point. */
  predicate WellFormedUtf8(s: string) {
    match |s|
    case 1 => s[0] as int <= 0x7F
    case 2 => 0xC2 <= s[0] as int <= 0xDF && IsTail(s[1])
    case 3 =>
      && IsTail(s[2])
      && var (a, b) := (s[0] as int, s[1] as int);
         || (a == 0xE0 && 0xA0 <= b <= 0xBF)
         || (0xE1 <= a <= 0xEC && 0x80 <= b <= 0xBF)
         || (a == 0xED && 0x80 <= b <= 0x9F)
         || (0xEE <= a <= 0xEF && 0x80 <= b <= 0xBF)
    case 4 =>
      && IsTail(s[2]) && IsTail(s[3])
      && var (a, b) := (s[0] as int, s[1] as int);
         || (a == 0xF0 && 0x90 <= b <= 0xBF)
         || (0xF1 <= a <= 0xF3 && 0x80 <= b <= 0xBF)
         || (a == 0xF4 && 0x80 <= b <= 0x8F)
    case _ => false
  }

  lemma SplitDigits(n: nat)
    ensures n == n / 0x40 * 0x40 + n % 0x40
    ensures n / 0x1000 == n / 0x40 / 0x40 && n / 0x40000 == n / 0x1000 / 0x40
  {
  }

  lemma DecodeBytes(c: nat, x: nat, y: nat, z: nat)
    requires c < 0x20 && x < 0x40 && y < 0x40 && z < 0x40
    ensures DecodeUtf8([(0xC0 + c) as char, (0x80 + x) as char]) == Some(c * 0x40 + x)
    ensures c < 0x10 ==> DecodeUtf8([(0xE0 + c) as char, (0x80 + x) as char, (0x80 + y) as char])
                         == Some((c * 0x40 + x) * 0x40 + y)
    ensures c < 0x08 ==> DecodeUtf8([(0xF0 + c) as char, (0x80 + x) as char, (0x80 + y) as char, (0x80 + z) as char])
                         == Some(((c * 0x40 + x) * 0x40 + y) * 0x40 + z)
  {
  }

  lemma Utf8RoundTrip(n: nat)
    requires n < 0x200000
    ensures DecodeUtf8(Utf8(n)) == Some(n)
  {
    var (b, c, d) := (n / 0x40, n / 0x1000, n / 0x40000);
    SplitDigits(n);
    if n < 0x80 {
    } else if n < 0x800 {
      DecodeBytes(b, n % 0x40, 0, 0);
    } else if n < 0x10000 {
      assert b == c * 0x40 + b % 0x40 by { SplitDigits(b); }
      DecodeBytes(c, b % 0x40, n % 0x40, 0);
    } else {
      assert b == c * 0x40 + b % 0x40 by { SplitDigits(b); }
      assert c == d * 0x40 + c % 0x40 by { SplitDigits(c); }
      DecodeBytes(d, c % 0x40, b % 0x40, n % 0x40);
    }
  }

  /** The output is UTF-8 in the sense of RFC 3629 exactly for the Unicode scalar values. */
  lemma Utf8WellFormedExactly(n: nat)
    ensures WellFormedUtf8(Utf8(n)) <==> n < 0xD800 || 0xE000 <= n < 0x110000
  {
    var s := Utf8(n);
    if n < 0x800 {
      assert n >= 0x80 ==> |s| == 2 && s[0] as int == 0xC0 + n / 0x40;
    } else if n < 0x10000 {
      var (high, low) := (n / 0x1000, n / 0x40 % 0x40);
      assert n / 0x40 == high * 0x40 + low by { SplitDigits(n / 0x40); SplitDigits(n); }
      assert |s| == 3 && s[0] as int == 0xE0 + high && s[1] as int == 0x80 + low;
    } else if n < 0x200000 {
      var (high, low) := (n / 0x40000, n / 0x1000 % 0x40);
      assert n / 0x1000 == high * 0x40 + low by { SplitDigits(n / 0x1000); SplitDigits(n); }
      assert |s| == 4 && s[0] as int == 0xF0 + high && s[1] as int == 0x80 + low;
    }
  }

  // ---- The conversion, on 32-bit words ---------------------------------------------------------

  const BYTE_MASK: W.Word := 0xBF
  const BYTE_MARK: W.Word := 0x80
  const FIRST_BYTE_MARK: seq<W.Word> := [0x00, 0x00, 0xC0, 0xE0, 0xF0, 0xF8, 0xFC]

  /** A cast to a byte drops the upper bits. */
  function ToChar(x: W.Word): char {
    W.Number((x & 0xff) as W.Byte) as char
  }

  lemma ToCharIs(x: W.Word)
    requires x & 0xff == x
    ensures ToChar(x) == W.Value(x) as char && W.Value(x) < 0x100
  {
    hide W.Value, W.Number;
    W.ByteValue(x);
  }

  function Marked(x: W.Word): W.Word {
    (x | BYTE_MARK) & BYTE_MASK
  }

  lemma MarkRaw(x: W.Word)
    ensures ((x | 0x80) & 0xBF) as nat == 0x80 + (x & 0x3F) as nat
  {
  }

  lemma MarkedBits(x: W.Word)
    ensures Marked(x) == (x | 0x80) & 0xBF && Marked(x) & 0xff == Marked(x) && W.LowSix(x) == x & 0x3F
  {
  }

  lemma MarkedValue(x: W.Word)
    ensures W.Value(Marked(x)) == 0x80 + W.Value(W.LowSix(x))
  {
    hide W.Value, Marked, W.LowSix;
    MarkedBits(x);
    MarkRaw(x);
    W.ValueIs((x | 0x80) & 0xBF);
    W.ValueIs(x & 0x3F);
  }

  /** The bit operations on a continuation byte take its last six binary digits. */
  lemma ContinuationByte(x: W.Word)
    ensures ToChar(Marked(x)) == Tail(W.Value(x)) && W.Value(W.HighBits(x)) == W.Value(x) / 0x40
  {
    hide W.Value, Marked, W.LowSix, W.HighBits, ToChar;
    W.SplitSix(x);
    MarkedValue(x);
    MarkedBits(x);
    ToCharIs(Marked(x));
    SixDigits(W.Value(x), W.Value(W.HighBits(x)), W.Value(W.LowSix(x)));
  }

  lemma SixDigits(n: nat, high: nat, low: nat)
    requires n == 0x40 * high + low && low < 0x40
    ensures n % 0x40 == low && n / 0x40 == high
  {
  }

  /** The mark of the first byte of a sequence of `length` bytes. */
  function FirstMark(length: nat): W.Word
    requires length < 7
  {
    FIRST_BYTE_MARK[length]
  }

  lemma Marks()
    ensures FirstMark(1) == 0 && FirstMark(2) == 0xC0 && FirstMark(3) == 0xE0 && FirstMark(4) == 0xF0
  {
  }

  lemma FirstRaw(x: W.Word)
    ensures (x | 0x00) as nat == x as nat
    ensures x < 0x20 ==> (x | 0xC0) as nat == 0xC0 + x as nat
    ensures x < 0x10 ==> (x | 0xE0) as nat == 0xE0 + x as nat
    ensures x < 0x08 ==> (x | 0xF0) as nat == 0xF0 + x as nat
  {
  }

  lemma FirstBits(x: W.Word)
    ensures x < 0x80 ==> (x | 0x00) & 0xff == x | 0x00
    ensures x < 0x20 ==> (x | 0xC0) & 0xff == x | 0xC0
    ensures x < 0x10 ==> (x | 0xE0) & 0xff == x | 0xE0
    ensures x < 0x08 ==> (x | 0xF0) & 0xff == x | 0xF0
  {
  }

  /** The or of the bits that are left with a mark adds them, when they fit beside it. */
  lemma FirstByte(x: W.Word)
    ensures x < 0x80 ==> ToChar(x | 0x00) == W.Value(x) as char && W.Value(x) < 0x80
    ensures x < 0x20 ==> ToChar(x | 0xC0) == (0xC0 + W.Value(x)) as char && W.Value(x) < 0x20
    ensures x < 0x10 ==> ToChar(x | 0xE0) == (0xE0 + W.Value(x)) as char && W.Value(x) < 0x10
    ensures x < 0x08 ==> ToChar(x | 0xF0) == (0xF0 + W.Value(x)) as char && W.Value(x) < 0x08
  {
    hide W.Value, ToChar;
    W.SmallNumber(x);
    FirstBits(x);
    FirstRaw(x);
    W.ValueIs(x);
    if x < 0x80 { W.ValueIs(x | 0x00); ToCharIs(x | 0x00); }
    if x < 0x20 { W.ValueIs(x | 0xC0); ToCharIs(x | 0xC0); }
    if x < 0x10 { W.ValueIs(x | 0xE0); ToCharIs(x | 0xE0); }
    if x < 0x08 { W.ValueIs(x | 0xF0); ToCharIs(x | 0xF0); }
  }

  /** How many bytes the code point needs; none from 0x200000 up. */
  function Length(x: W.Word): nat {
    if x < 0x80 then 1 else if x < 0x800 then 2 else if x < 0x10000 then 3 else if x < 0x200000 then 4 else 0
  }

  lemma LengthBits(x: W.Word)
    ensures var b, c, d := W.HighBits(x), W.HighBits(W.HighBits(x)), W.HighBits(W.HighBits(W.HighBits(x)));
            && (x < 0x800 <==> b < 0x20) && (x < 0x10000 <==> c < 0x10) && (x < 0x200000 <==> d < 0x08)
  {
  }

  lemma LengthIs(x: W.Word)
    ensures var n := W.Value(x);
            && (x < 0x80 <==> n < 0x80) && (x < 0x800 <==> n < 0x800)
            && (x < 0x10000 <==> n < 0x10000) && (x < 0x200000 <==> n < 0x200000)
  {
    hide W.Value, W.HighBits;
    var b := W.HighBits(x);
    var c := W.HighBits(b);
    LengthBits(x);
    ContinuationByte(x);
    ContinuationByte(b);
    ContinuationByte(c);
    W.SmallNumber(x);
    W.SmallNumber(b);
    W.SmallNumber(c);
    W.SmallNumber(W.HighBits(c));
  }

  /** The bytes that the bit operations produce. */
  function BytesOf(x: W.Word): (out: string)
    ensures |out| == Length(x)
  {
    var b := W.HighBits(x);
    var c := W.HighBits(b);
    var d := W.HighBits(c);
    match Length(x)
    case 1 => [ToChar(x | FirstMark(1))]
    case 2 => [ToChar(b | FirstMark(2)), ToChar(Marked(x))]
    case 3 => [ToChar(c | FirstMark(3)), ToChar(Marked(b)), ToChar(Marked(x))]
    case 4 => [ToChar(d | FirstMark(4)), ToChar(Marked(c)), ToChar(Marked(b)), ToChar(Marked(x))]
    case _ => []
  }

  lemma BytesAreUtf8(x: W.Word)
    ensures BytesOf(x) == Utf8(W.Value(x))
  {
    hide W.Value, W.HighBits, ToChar, Marked, FirstMark;
    var n, b := W.Value(x), W.HighBits(x);
    var c := W.HighBits(b);
    LengthIs(x);
    LengthBits(x);
    Marks();
    ContinuationByte(x);
    ContinuationByte(b);
    ContinuationByte(c);
    SplitDigits(n);
    match Length(x)
    case 1 => FirstByte(x);
    case 2 => FirstByte(b);
    case 3 => FirstByte(c);
    case 4 => FirstByte(W.HighBits(c));
    case _ =>
  }

  /** XMLUtil::ConvertUTF32ToUTF8: writes from the last byte down, as the fall-through switch. */
  method ConvertUTF32ToUTF8(input: W.Word, output: array<char>) returns (length: nat)
    requires output.Length >= 4
    modifies output
    ensures length == |Utf8(W.Value(input))| && output[..length] == Utf8(W.Value(input))
    ensures output[length..] == old(output[length..])
  {
    hide W.Value, W.HighBits, ToChar, Marked, FirstMark, Utf8, Length;
    BytesAreUtf8(input);
    LengthAtMost(input);
    length := Length(input);
    if length == 0 {
      return;
    }
    var rest := input;
    if length >= 4 {
      output[3] := ToChar(Marked(rest));
      rest := W.HighBits(rest);
    }
    if length >= 3 {
      output[2] := ToChar(Marked(rest));
      rest := W.HighBits(rest);
    }
    if length >= 2 {
      output[1] := ToChar(Marked(rest));
      rest := W.HighBits(rest);
    }
    output[0] := ToChar(rest | FirstMark(length));
  }

  lemma LengthAtMost(x: W.Word)
    ensures Length(x) <= 4
  {
  }

  // ---- Positional notation ---------------------------------------------------------------------

  /** 32-bit unsigned wrap-around. */
  function Wrap(n: nat): nat {
    n % WORD
  }

  function WrapMul(a: nat, b: nat): nat {
    Wrap(a * b)
  }

  function Pow(base: nat, n: nat): nat {
    if n == 0 then 1 else base * Pow(base, n - 1)
  }

  predicate IsDigit(c: char, base: nat) {
    '0' <= c <= '9' || (base == 16 && ('a' <= c <= 'f' || 'A' <= c <= 'F'))
  }

  function Digit(c: char): nat
    requires IsDigit(c, 16)
  {
    if '0' <= c <= '9' then c as int - '0' as int
    else if 'a' <= c <= 'f' then c as int - 'a' as int + 10
    else c as int - 'A' as int + 10
  }

  /** The digits, small and capital, and their values. */
  lemma DigitsAre(n: nat)
    requires n < 16
    ensures var small, capital := "0123456789abcdef"[n], "0123456789ABCDEF"[n];
            && IsDigit(small, 16) && IsDigit(capital, 16) && Digit(small) == n && Digit(capital) == n
            && (IsDigit(small, 10) <==> n < 10)
    ensures forall c | IsDigit(c, 16) && Digit(c) == n :: c == "0123456789abcdef"[n] || c == "0123456789ABCDEF"[n]
  {
  }

  predicate AllDigits(ds: string, base: nat) {
    forall i | 0 <= i < |ds| :: IsDigit(ds[i], base)
  }

  function Positional(ds: string, base: nat): nat
    requires AllDigits(ds, base)
  {
    if ds == [] then 0
    else Digit(ds[0]) * Pow(base, |ds| - 1) + Positional(ds[1..], base)
  }

  /** The code point computed for a digit string: its positional value, wrapped to 32 bits. */
  function CodePoint(ds: string, base: nat): (n: nat)
    requires AllDigits(ds, base)
    ensures n < WORD && (ds == [] ==> n == 0)
  {
    Wrap(Positional(ds, base))
  }

  lemma WrapSum(a: nat, b: nat)
    ensures Wrap(Wrap(a) + Wrap(b)) == Wrap(a + b)
  {
  }

  lemma PrependDigit(c: char, ds: string, base: nat)
    requires AllDigits(ds, base) && IsDigit(c, base)
    ensures AllDigits([c] + ds, base)
    ensures var mult := Wrap(Pow(base, |ds|));
            && CodePoint([c] + ds, base) == Wrap(CodePoint(ds, base) + WrapMul(mult, Digit(c)))
            && Wrap(Pow(base, |ds| + 1)) == WrapMul(mult, base)
  {
    hide Wrap, WrapMul, Digit, Pow, Positional, Scaled, AllDigits, IsDigit;
    DigitInBase(c, base);
    OneMoreDigit(c, ds, base);
    ScaledWraps(Pow(base, |ds|), Digit(c));
    ScaledWraps(Pow(base, |ds|), base);
    WrapSum(Positional(ds, base), Scaled(Digit(c), Pow(base, |ds|)));
  }

  function Scaled(d: nat, power: nat): nat {
    d * power
  }

  lemma ScaledWraps(power: nat, d: nat)
    ensures WrapMul(Wrap(power), d) == Wrap(Scaled(d, power))
  {
    hide Wrap, WrapMul;
    WrapProduct(power, d);
  }

  lemma OneMoreDigit(c: char, ds: string, base: nat)
    requires AllDigits(ds, base) && IsDigit(c, base)
    ensures AllDigits([c] + ds, base)
    ensures Positional([c] + ds, base) == Positional(ds, base) + Scaled(Digit(c), Pow(base, |ds|))
    ensures Pow(base, |ds| + 1) == Scaled(base, Pow(base, |ds|))
  {
    hide Digit;
    assert ([c] + ds)[1..] == ds;
  }

  lemma WrapProduct(a: nat, b: nat)
    ensures WrapMul(Wrap(a), b) == Wrap(b * a)
  {
    var k, r := a / WORD, a % WORD;
    assert b * a == WORD * (b * k) + b * r by {
      assert b * (WORD * k) == WORD * (b * k);
    }
    WrapMultiple(b * r, b * k);
  }

  lemma WrapMultiple(a: nat, k: nat)
    ensures (WORD * k + a) % WORD == a % WORD
  {
  }

  // ---- Character references --------------------------------------------------------------------

  /** Malformed: the null return. Ref: how many characters are consumed, and the bytes produced. */
  datatype CharRef = Malformed | Ref(consumed: nat, out: string)

  /** What follows the last `mark`: where the right-to-left digit loop stops. */
  function AfterLast(s: string, mark: char): (r: string)
    ensures |r| <= |s|
  {
    if s == [] || s[|s| - 1] == mark then []
    else AfterLast(s[..|s| - 1], mark) + [s[|s| - 1]]
  }

  lemma AfterLastIs(s: string, mark: char)
    ensures var r := AfterLast(s, mark);
            && r == s[|s| - |r|..] && mark !in r
            && (|r| < |s| ==> s[|s| - |r| - 1] == mark)
  {
  }

  /** The reference at the front of `t`, which starts with `&#`. */
  function ReadCharRef(t: string): (r: CharRef)
    requires "&#" <= t
    ensures r.Ref? ==> 1 <= r.consumed <= |t| && |r.out| <= r.consumed && |r.out| <= 4
  {
    if At(t, 2) == NUL then Ref(1, "")
    else if t[2] == 'x' then ReadNumber(t, 3, 'x', 16)
    else ReadNumber(t, 2, '#', 10)
  }

  function ReadNumber(t: string, from: nat, mark: char, base: nat): (r: CharRef)
    requires 2 <= from <= |t|
    ensures r.Ref? ==> 3 <= r.consumed <= |t| && |r.out| <= r.consumed && |r.out| <= 4
  {
    hide Utf8, CodePoint, Positional;
    var semicolon := FindTag(t[from..], ";");
    if semicolon.None? then Malformed
    else
      var digits := AfterLast(t[from..from + semicolon.value], mark);
      if AllDigits(digits, base)
      then Ref(from + semicolon.value + 1, Utf8(CodePoint(digits, base)))
      else Malformed
  }

  lemma FindSemicolon(digits: string, base: nat, rest: string)
    requires AllDigits(digits, base)
    ensures FindTag(digits + ";" + rest, ";") == Some(|digits|)
  {
    assert forall i | 0 <= i < |digits| :: (digits[i..] + ";" + rest)[0] == digits[i];
    FindTagAfter(digits, ";", rest);
  }

  lemma WholeIsDigits(digits: string, mark: char, base: nat)
    requires AllDigits(digits, base) && (mark == 'x' || mark == '#')
    ensures AfterLast(digits, mark) == digits
  {
    AfterLastIs(digits, mark);
  }

  /** A well-formed reference yields the UTF-8 form of its positional value, wrapped to 32 bits. */
  lemma WellFormedReference(digits: string, hex: bool, rest: string)
    requires digits != [] && AllDigits(digits, if hex then 16 else 10)
    ensures var base := if hex then 16 else 10;
            var prefix := if hex then "&#x" else "&#";
            ReadCharRef(prefix + digits + ";" + rest)
            == Ref(|prefix| + |digits| + 1, Utf8(CodePoint(digits, base)))
  {
    hide Utf8, CodePoint, Positional, FindTag;
    var (prefix, mark, base) := if hex then ("&#x", 'x', 16) else ("&#", '#', 10);
    var from := |prefix|;
    var t := prefix + digits + ";" + rest;
    assert t[from..] == digits + ";" + rest;
    assert t[from] == digits[0];
    FindSemicolon(digits, base, rest);
    assert t[from..][..|digits|] == digits;
    assert t[from..from + |digits|] == t[from..][..|digits|];
    WholeIsDigits(digits, mark, base);
  }

  /** The mark that ends the digits on their left, where they begin at `k`: the one of the reference, or one inside. */
  predicate DigitsFrom(body: string, mark: char, base: nat, k: nat) {
    k <= |body| && (k == 0 || body[k - 1] == mark) && AllDigits(body[k..], base)
  }

  /** What stands between the mark and the semicolon is read as the digits at its end, which any text may precede that
      ends with the mark again; and when there are no such digits, it is no reference. */
  lemma ReferenceExactly(body: string, hex: bool, rest: string)
    requires NUL !in body && ';' !in body && (!hex ==> At(body, 0) != 'x')
    ensures var (prefix, mark, base) := if hex then ("&#x", 'x', 16) else ("&#", '#', 10);
            var r := ReadCharRef(prefix + (body + ";" + rest));
            && (r.Ref? <==> exists k: nat :: DigitsFrom(body, mark, base, k))
            && forall k: nat | DigitsFrom(body, mark, base, k) ::
                 r == Ref(|prefix| + |body| + 1, Utf8(CodePoint(body[k..], base)))
  {
    hide Utf8, CodePoint, AfterLast, AllDigits, ReadCharRef;
    var (mark, base) := if hex then ('x', 16) else ('#', 10);
    var digits := AfterLast(body, mark);
    BodyRead(body, hex, rest);
    AfterLastIs(body, mark);
    assert AllDigits(digits, base) ==> DigitsFrom(body, mark, base, |body| - |digits|);
    forall k: nat | DigitsFrom(body, mark, base, k)
      ensures body[k..] == digits
    {
      NoMark(body[k..], mark, base);
      SuffixIsLast(body, mark, k);
    }
  }

  lemma BodyRead(body: string, hex: bool, rest: string)
    requires NUL !in body && ';' !in body && (!hex ==> At(body, 0) != 'x')
    ensures var (prefix, mark, base) := if hex then ("&#x", 'x', 16) else ("&#", '#', 10);
            var digits := AfterLast(body, mark);
            ReadCharRef(prefix + (body + ";" + rest))
            == if AllDigits(digits, base) then Ref(|prefix| + |body| + 1, Utf8(CodePoint(digits, base))) else Malformed
  {
    hide Utf8, CodePoint, ReadNumber, AfterLast, AllDigits;
    if hex {
      HexMark(body + ";" + rest);
      NumberRead("&#x" + (body + ";" + rest), 3, body, rest, 'x', 16);
    } else {
      DecimalMark(body, rest);
      NumberRead("&#" + (body + ";" + rest), 2, body, rest, '#', 10);
    }
  }

  lemma HexMark(tail: string)
    ensures var t := "&#x" + tail;
            "&#" <= t && t[3..] == tail && ReadCharRef(t) == ReadNumber(t, 3, 'x', 16)
  {
    hide ReadNumber;
  }

  lemma DecimalMark(body: string, rest: string)
    requires NUL !in body && At(body, 0) != 'x'
    ensures var tail := body + ";" + rest;
            var t := "&#" + tail;
            "&#" <= t && t[2..] == tail && ReadCharRef(t) == ReadNumber(t, 2, '#', 10)
  {
    hide ReadNumber;
    assert body != [] ==> body[0] in body;
    assert (body + ";" + rest)[0] == if body == [] then ';' else body[0];
  }

  lemma NumberRead(t: string, from: nat, body: string, rest: string, mark: char, base: nat)
    requires NUL !in body && ';' !in body && 2 <= from <= |t| && t[from..] == body + ";" + rest
    ensures var digits := AfterLast(body, mark);
            ReadNumber(t, from, mark, base)
            == if AllDigits(digits, base) then Ref(from + |body| + 1, Utf8(CodePoint(digits, base))) else Malformed
  {
    hide Utf8, CodePoint, FindTag, AfterLast, AllDigits;
    BodyFound(body, rest);
    assert t[from..from + |body|] == t[from..][..|body|] == body;
  }

  lemma BodyFound(body: string, rest: string)
    requires NUL !in body && ';' !in body
    ensures FindTag(body + ";" + rest, ";") == Some(|body|)
  {
    assert forall i | 0 <= i < |body| :: (body[i..] + ";" + rest)[0] == body[i];
    FindTagAfter(body, ";", rest);
  }

  lemma NoMark(digits: string, mark: char, base: nat)
    requires AllDigits(digits, base) && (mark == 'x' || mark == '#')
    ensures mark !in digits
  {
  }

  lemma {:induction false} SuffixIsLast(body: string, mark: char, k: nat)
    requires k <= |body| && (k == 0 || body[k - 1] == mark) && mark !in body[k..]
    ensures body[k..] == AfterLast(body, mark)
    decreases |body|
  {
    if k < |body| {
      var n := |body| - 1;
      assert body[k..] == body[..n][k..] + [body[n]];
      assert body[n] in body[k..] && forall c | c in body[..n][k..] :: c in body[k..];
      SuffixIsLast(body[..n], mark, k);
    }
  }

  /** Without a semicolon there is no reference, however it goes on. */
  lemma UnterminatedReference(t: string)
    requires "&#" <= t && At(t, 2) != NUL && ';' !in t
    ensures ReadCharRef(t) == Malformed
  {
    hide FindTag;
    var from := if t[2] == 'x' then 3 else 2;
    assert forall c | c in t[from..] :: c in t;
    NotFound(t[from..], ';');
  }

  lemma {:induction false} NotFound(t: string, c: char)
    requires c !in t && c != NUL
    ensures FindTag(t, [c]) == None
  {
    if !AtEnd(t) {
      assert t[0] in t && forall d | d in t[1..] :: d in t;
      NotFound(t[1..], c);
    }
  }

  lemma DigitsInText(t: string, from: nat, semi: nat, mark: char)
    requires 1 <= from <= semi <= |t| && t[from - 1] == mark
    ensures var first := semi - |AfterLast(t[from..semi], mark)|;
            && AfterLast(t[from..semi], mark) == t[first..semi]
            && from <= first && t[first - 1] == mark
            && (forall i | first <= i < semi :: t[i] != mark)
  {
    hide AfterLast;
    var s := t[from..semi];
    var r := AfterLast(s, mark);
    AfterLastIs(s, mark);
    TailOfSlice(t, from, semi, |s| - |r|);
    forall i | semi - |r| <= i < semi
      ensures t[i] != mark
    {
      assert r[i - (semi - |r|)] in r;
    }
  }

  lemma TailOfSlice(t: string, from: nat, semi: nat, k: nat)
    requires from <= semi <= |t| && k <= semi - from
    ensures t[from..semi][k..] == t[from + k..semi]
    ensures k > 0 ==> t[from..semi][k - 1] == t[from + k - 1]
  {
  }

  lemma NoDigits(base: nat)
    ensures AllDigits([], base) && CodePoint([], base) == 0 && Wrap(Pow(base, 0)) == 1
  {
  }

  lemma DigitOfAll(ds: string, i: nat, base: nat)
    requires i < |ds|
    ensures AllDigits(ds, base) ==> IsDigit(ds[i], base)
  {
  }

  lemma DigitInBase(c: char, base: nat)
    ensures IsDigit(c, base) ==> IsDigit(c, 16)
  {
  }

  /** The right-to-left digit loops of GetCharacterRef: from before `semi` down to `mark`. */
  method ReadDigits(t: string, from: nat, semi: nat, mark: char, base: nat)
    returns (ok: bool, ucs: nat)
    requires 1 <= from <= semi <= |t| && t[from - 1] == mark && (base == 16 || base == 10)
    ensures var digits := AfterLast(t[from..semi], mark);
            && (ok <==> AllDigits(digits, base))
            && (ok ==> ucs == CodePoint(digits, base))
  {
    hide CodePoint, Positional, Digit, IsDigit, AllDigits, Wrap, WrapMul, Pow, AfterLast;
    ghost var first := semi - |AfterLast(t[from..semi], mark)|;
    DigitsInText(t, from, semi, mark);
    var mult, q := 1, semi;
    ucs := 0;
    NoDigits(base);
    assert t[semi..semi] == [];
    while t[q - 1] != mark
      invariant first <= q <= semi
      invariant AllDigits(t[q..semi], base)
      invariant mult == Wrap(Pow(base, semi - q))
      invariant ucs == CodePoint(t[q..semi], base)
      decreases q
    {
      var c := t[q - 1];
      DigitOfAll(t[first..semi], q - 1 - first, base);
      if !IsDigit(c, base) {
        return false, 0;
      }
      PrependDigit(c, t[q..semi], base);
      assert t[q - 1..semi] == [c] + t[q..semi];
      DigitInBase(c, base);
      ucs := Wrap(ucs + WrapMul(mult, Digit(c)));
      mult := WrapMul(mult, base);
      q := q - 1;
    }
    return true, ucs;
  }

  /** XMLUtil::GetCharacterRef on the C string `t`: how far the read pointer moves on, if it is a
      reference, and the bytes put into `value`. */
  method GetCharacterRef(t: string, value: array<char>) returns (adjusted: Option<nat>, length: nat)
    requires "&#" <= t && value.Length >= 4
    modifies value
    ensures match ReadCharRef(t)
            case Malformed => adjusted.None?
            case Ref(n, out) => adjusted == Some(n) && length == |out| && value[..length] == out
  {
    hide Utf8, CodePoint, Positional, FindTag, AfterLast, IsDigit, W.Value, W.WordOf;
    if At(t, 2) == NUL {
      return Some(1), 0;
    }
    var (mark, from, base) := if t[2] == 'x' then ('x', 3, 16) else ('#', 2, 10);
    var semicolon := FindTag(t[from..], ";");
    if semicolon.None? {
      return None, 0;
    }
    var semi := from + semicolon.value;
    var ok, ucs := ReadDigits(t, from, semi, mark, base);
    if !ok {
      return None, 0;
    }
    length := ConvertUTF32ToUTF8(W.WordOf(ucs), value);
    return Some(semi + 1), length;
  }
}
