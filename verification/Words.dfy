/** 32-bit machine words and bytes: rotation, little-endian storage, and the number a word stands for. */
module Words {
  type Word = bv32
  type Byte = bv8

  const WORD_VALUES: nat := 0x1_0000_0000

  /** The rotation of a 32-bit word, as two shifts. */
  function Rotl32(x: Word, n: Word): Word
    requires 0 < n < 32
  {
    (x << n) | (x >> (32 - n))
  }

  /** The rotation to the right, by one of the four distances the cipher uses. */
  function Rotr32(x: Word, n: Word): Word {
    if n == 16 then x.RotateRight(16)
    else if n == 12 then x.RotateRight(12)
    else if n == 8 then x.RotateRight(8)
    else x.RotateRight(7)
  }

  // The two shifts are a rotation to the left, which the rotation to the right undoes.

  lemma Rotates16(x: Word)
    ensures Rotl32(x, 16) == x.RotateLeft(16)
  {
  }

  lemma Rotates12(x: Word)
    ensures Rotl32(x, 12) == x.RotateLeft(12)
  {
  }

  lemma Rotates8(x: Word)
    ensures Rotl32(x, 8) == x.RotateLeft(8)
  {
  }

  lemma Rotates7(x: Word)
    ensures Rotl32(x, 7) == x.RotateLeft(7)
  {
  }

  lemma Undone16(x: Word)
    ensures Rotl32(x, 16).RotateRight(16) == x
  {
    hide Rotl32;
    Rotates16(x);
  }

  lemma Undone12(x: Word)
    ensures Rotl32(x, 12).RotateRight(12) == x
  {
    hide Rotl32;
    Rotates12(x);
  }

  lemma Undone8(x: Word)
    ensures Rotl32(x, 8).RotateRight(8) == x
  {
    hide Rotl32;
    Rotates8(x);
  }

  lemma Undone7(x: Word)
    ensures Rotl32(x, 7).RotateRight(7) == x
  {
    hide Rotl32;
    Rotates7(x);
  }

  lemma Redone16(x: Word)
    ensures Rotl32(x.RotateRight(16), 16) == x
  {
    hide Rotl32;
    Rotates16(x.RotateRight(16));
  }

  lemma Redone12(x: Word)
    ensures Rotl32(x.RotateRight(12), 12) == x
  {
    hide Rotl32;
    Rotates12(x.RotateRight(12));
  }

  lemma Redone8(x: Word)
    ensures Rotl32(x.RotateRight(8), 8) == x
  {
    hide Rotl32;
    Rotates8(x.RotateRight(8));
  }

  lemma Redone7(x: Word)
    ensures Rotl32(x.RotateRight(7), 7) == x
  {
    hide Rotl32;
    Rotates7(x.RotateRight(7));
  }

  lemma RotationUndone(x: Word, n: Word)
    requires n == 16 || n == 12 || n == 8 || n == 7
    ensures Rotr32(Rotl32(x, n), n) == x
  {
    hide Rotl32;
    if n == 16 { Undone16(x); } else if n == 12 { Undone12(x); } else if n == 8 { Undone8(x); } else { Undone7(x); }
  }

  lemma RotationRedone(x: Word, n: Word)
    requires n == 16 || n == 12 || n == 8 || n == 7
    ensures Rotl32(Rotr32(x, n), n) == x
  {
    hide Rotl32;
    if n == 16 { Redone16(x); } else if n == 12 { Redone12(x); } else if n == 8 { Redone8(x); } else { Redone7(x); }
  }

  function LoadLe32(p: seq<Byte>): Word
    requires |p| == 4
  {
    (p[0] as Word) | ((p[1] as Word) << 8) | ((p[2] as Word) << 16) | ((p[3] as Word) << 24)
  }

  function StoreLe32(v: Word): (p: seq<Byte>)
    ensures |p| == 4
  {
    [(v & 0xff) as Byte, ((v >> 8) & 0xff) as Byte, ((v >> 16) & 0xff) as Byte, ((v >> 24) & 0xff) as Byte]
  }

  lemma LoadAfterStore(v: Word)
    ensures LoadLe32(StoreLe32(v)) == v
  {
  }

  lemma StoreAfterLoad(p: seq<Byte>)
    requires |p| == 4
    ensures StoreLe32(LoadLe32(p)) == p
  {
  }

  function Number(b: Byte): (n: nat)
    ensures n < 0x100
  {
    b as nat
  }

  /** The number whose little-endian bytes these are. */
  function NumberLe(p: seq<Byte>): (n: nat)
    requires |p| == 4
    ensures n < WORD_VALUES
  {
    Number(p[0]) + 0x100 * Number(p[1]) + 0x1_0000 * Number(p[2]) + 0x100_0000 * Number(p[3])
  }

  /** The number a word stands for. */
  function Value(v: Word): nat {
    v as nat
  }

  lemma NextByte(b: Byte)
    ensures b == 0xff ==> Number(b) == 255 && Number(b + 1) == 0
    ensures b != 0xff ==> Number(b + 1) == Number(b) + 1
  {
  }

  /** The byte that stands for `n`. */
  function ToByte(n: nat): (b: Byte)
    requires n < 0x100
    ensures Number(b) == n
  {
    if n == 0 then 0 else NextByte(ToByte(n - 1)); ToByte(n - 1) + 1
  }

  /** The little-endian bytes of a 32-bit number. */
  function NumberToLe(n: nat): (p: seq<Byte>)
    requires n < WORD_VALUES
    ensures |p| == 4
  {
    var n1 := n / 0x100;
    var n2 := n1 / 0x100;
    [ToByte(n % 0x100), ToByte(n1 % 0x100), ToByte(n2 % 0x100), ToByte(n2 / 0x100)]
  }

  lemma NumberReadsBack(n: nat)
    requires n < WORD_VALUES
    ensures NumberLe(NumberToLe(n)) == n
  {
    hide Number;
    var n1 := n / 0x100;
    var n2 := n1 / 0x100;
    assert n == 0x100 * n1 + n % 0x100 && n1 == 0x100 * n2 + n1 % 0x100 && n2 == 0x100 * (n2 / 0x100) + n2 % 0x100;
  }

  /** Which bytes an increment changes: the trailing 0xff bytes and the one above them. */
  lemma BytesOfNext(v: Word)
    ensures var s, t := StoreLe32(v), StoreLe32(v + 1);
            && t[0] == s[0] + 1
            && t[1] == (if s[0] == 0xff then s[1] + 1 else s[1])
            && t[2] == (if s[0] == 0xff && s[1] == 0xff then s[2] + 1 else s[2])
            && t[3] == (if s[0] == 0xff && s[1] == 0xff && s[2] == 0xff then s[3] + 1 else s[3])
  {
  }

  /** The increment of a word is the increment of its number modulo 2^32. */
  lemma ValueOfNext(v: Word)
    ensures Value(v + 1) == (Value(v) + 1) % WORD_VALUES
  {
    hide Value, StoreLe32, Number;
    ValueLe(v);
    ValueLe(v + 1);
    BytesOfNext(v);
    NextNumber(StoreLe32(v), StoreLe32(v + 1));
  }

  lemma NextNumber(s: seq<Byte>, t: seq<Byte>)
    requires |s| == |t| == 4 && t[0] == s[0] + 1
    requires t[1] == (if s[0] == 0xff then s[1] + 1 else s[1])
    requires t[2] == (if s[0] == 0xff && s[1] == 0xff then s[2] + 1 else s[2])
    requires t[3] == (if s[0] == 0xff && s[1] == 0xff && s[2] == 0xff then s[3] + 1 else s[3])
    ensures NumberLe(t) == (NumberLe(s) + 1) % WORD_VALUES
  {
    hide Number;
    NextByte(s[0]);
    NextByte(s[1]);
    NextByte(s[2]);
    NextByte(s[3]);
  }

  // ---- Words as numbers, bit by bit --------------------------------------------------------------------

  function Half(x: Word): Word {
    x >> 1
  }

  predicate IsOdd(x: Word) {
    x & 1 == 1
  }

  function Bit(b: bool): (n: nat)
    ensures n <= 1
  {
    if b then 1 else 0
  }

  /** The word with the bits of `h` moved up by one, and `b` in the lowest place. */
  function Doubled(h: Word, b: bool): Word {
    if b then (h << 1) | 1 else h << 1
  }

  predicate IsShort(h: Word) {
    h & 0x7fff_ffff == h
  }

  lemma DoubledNumber(h: Word, b: bool)
    requires IsShort(h)
    ensures Value(Doubled(h, b)) == 2 * Value(h) + Bit(b)
  {
    hide Value, Doubled, IsShort;
    ShortIs(h);
    if b { DoubledOdd(h); } else { DoubledEven(h); }
  }

  lemma ValueIs(x: Word)
    ensures Value(x) == x as nat
  {
  }

  lemma DoubledIs(h: Word)
    ensures Doubled(h, false) == h << 1 && Doubled(h, true) == (h << 1) | 1
  {
  }

  lemma EvenRaw(h: Word)
    ensures ((h & 0x7fff_ffff) << 1) as nat == 2 * ((h & 0x7fff_ffff) as nat)
  {
  }

  lemma OddRaw(h: Word)
    ensures (((h & 0x7fff_ffff) << 1) | 1) as nat == 2 * ((h & 0x7fff_ffff) as nat) + 1
  {
  }

  lemma DoubledEven(h: Word)
    ensures Value(Doubled(h & 0x7fff_ffff, false)) == 2 * Value(h & 0x7fff_ffff)
  {
    hide Value, Doubled;
    DoubledIs(h & 0x7fff_ffff);
    ValueIs(h & 0x7fff_ffff);
    ValueIs((h & 0x7fff_ffff) << 1);
    EvenRaw(h);
  }

  lemma DoubledOdd(h: Word)
    ensures Value(Doubled(h & 0x7fff_ffff, true)) == 2 * Value(h & 0x7fff_ffff) + 1
  {
    hide Value, Doubled;
    DoubledIs(h & 0x7fff_ffff);
    ValueIs(h & 0x7fff_ffff);
    ValueIs(((h & 0x7fff_ffff) << 1) | 1);
    OddRaw(h);
  }

  lemma ShortIs(h: Word)
    requires IsShort(h)
    ensures h & 0x7fff_ffff == h
  {
  }

  lemma HalfAndBit(x: Word)
    ensures IsShort(Half(x)) && x == Doubled(Half(x), IsOdd(x))
  {
  }

  /** The last binary digit of a word. */
  lemma LastBit(x: Word)
    ensures Value(x) == 2 * Value(Half(x)) + Bit(IsOdd(x))
  {
    hide Value, Half, IsOdd, Doubled, IsShort;
    HalfAndBit(x);
    DoubledNumber(Half(x), IsOdd(x));
  }

  /** All bits but the six lowest. */
  function HighBits(x: Word): Word {
    x >> 6
  }

  lemma SixHalves(x: Word)
    ensures Half(Half(Half(Half(Half(Half(x)))))) == HighBits(x)
  {
  }

  /** The six lowest bits. */
  function LowSix(x: Word): Word {
    x & 0x3F
  }

  lemma SixBits(x: Word)
    ensures IsOdd(LowSix(x)) == IsOdd(x)
    ensures IsOdd(Half(LowSix(x))) == IsOdd(Half(x))
    ensures IsOdd(Half(Half(LowSix(x)))) == IsOdd(Half(Half(x)))
    ensures IsOdd(Half(Half(Half(LowSix(x))))) == IsOdd(Half(Half(Half(x))))
    ensures IsOdd(Half(Half(Half(Half(LowSix(x)))))) == IsOdd(Half(Half(Half(Half(x)))))
    ensures IsOdd(Half(Half(Half(Half(Half(LowSix(x))))))) == IsOdd(Half(Half(Half(Half(Half(x))))))
    ensures Half(Half(Half(Half(Half(Half(LowSix(x))))))) == 0
  {
  }

  lemma Zero()
    ensures Value(0) == 0
  {
  }

  /** A word by its six lowest bits and the rest. */
  lemma FirstBits(x: Word)
    ensures Value(x) == 0x40 * Value(Half(Half(Half(Half(Half(Half(x)))))))
                           + 0x20 * Bit(IsOdd(Half(Half(Half(Half(Half(x)))))))
                           + 0x10 * Bit(IsOdd(Half(Half(Half(Half(x))))))
                           + 8 * Bit(IsOdd(Half(Half(Half(x)))))
                           + 4 * Bit(IsOdd(Half(Half(x)))) + 2 * Bit(IsOdd(Half(x))) + Bit(IsOdd(x))
  {
    hide Value, Half, IsOdd;
    LastBit(x);
    LastBit(Half(x));
    LastBit(Half(Half(x)));
    LastBit(Half(Half(Half(x))));
    LastBit(Half(Half(Half(Half(x)))));
    LastBit(Half(Half(Half(Half(Half(x))))));
  }

  /** A word is 64 times what is left when six bits are shifted out, plus those. */
  lemma SplitSix(x: Word)
    ensures Value(x) == 0x40 * Value(HighBits(x)) + Value(LowSix(x)) && Value(LowSix(x)) < 0x40
  {
    hide Value, Half, IsOdd, LowSix, HighBits;
    SixHalves(x);
    SixBits(x);
    Zero();
    FirstBits(x);
    FirstBits(LowSix(x));
  }

  lemma SplitTwo(x: Word)
    ensures Value(x) == 4 * Value(Half(Half(x))) + Value(x & 3)
  {
    hide Value, Half, IsOdd;
    LastBit(x);
    LastBit(Half(x));
    LastBit(x & 3);
    LastBit(Half(x & 3));
    TwoBits(x);
    Zero();
  }

  lemma TwoBits(x: Word)
    ensures IsOdd(x & 3) == IsOdd(x) && IsOdd(Half(x & 3)) == IsOdd(Half(x)) && Half(Half(x & 3)) == 0
  {
  }

  /** All bits but the eight lowest. */
  function HighBytes(x: Word): Word {
    x >> 8
  }

  lemma LowByteBits(x: Word)
    ensures LowSix(x & 0xff) == LowSix(x) && HighBits(x & 0xff) & 3 == HighBits(x) & 3
    ensures Half(Half(HighBits(x & 0xff))) == 0 && Half(Half(HighBits(x))) == HighBytes(x)
  {
  }

  lemma ByteValueRaw(x: Word)
    ensures (x & 0xff) as nat == ((x & 0xff) as Byte) as nat
  {
  }

  lemma ByteValue(x: Word)
    ensures Value(x & 0xff) == Number((x & 0xff) as Byte)
  {
    hide Value, Number;
    ValueIs(x & 0xff);
    NumberIs((x & 0xff) as Byte);
    ByteValueRaw(x);
  }

  lemma NumberIs(b: Byte)
    ensures Number(b) == b as nat
  {
  }

  /** A word by its lowest byte and the rest. */
  lemma SplitByte(x: Word)
    ensures Value(x) == 0x100 * Value(HighBytes(x)) + Number((x & 0xff) as Byte)
  {
    hide Value, Number, Half, IsOdd, LowSix, HighBits, HighBytes;
    SplitSix(x);
    SplitTwo(HighBits(x));
    SplitSix(x & 0xff);
    SplitTwo(HighBits(x & 0xff));
    LowByteBits(x);
    Zero();
    ByteValue(x);
  }

  lemma BytesByHalves(x: Word)
    ensures StoreLe32(x) == [(x & 0xff) as Byte, (HighBytes(x) & 0xff) as Byte, (HighBytes(HighBytes(x)) & 0xff) as Byte,
                             (HighBytes(HighBytes(HighBytes(x))) & 0xff) as Byte]
    ensures HighBytes(HighBytes(HighBytes(HighBytes(x)))) == 0
  {
  }

  /** The value of a word is the number whose little-endian bytes it is stored as. */
  lemma ValueLe(x: Word)
    ensures Value(x) == NumberLe(StoreLe32(x))
  {
    hide Value, Number, HighBytes, StoreLe32;
    SplitByte(x);
    SplitByte(HighBytes(x));
    SplitByte(HighBytes(HighBytes(x)));
    SplitByte(HighBytes(HighBytes(HighBytes(x))));
    BytesByHalves(x);
    Zero();
  }

  // ---- The word for a number ---------------------------------------------------------------------------

  lemma SmallNumber(x: Word)
    ensures x < 8 <==> Value(x) < 8
    ensures x < 0x10 <==> Value(x) < 0x10
    ensures x < 0x20 <==> Value(x) < 0x20
    ensures x < 0x80 <==> Value(x) < 0x80
  {
  }

  lemma ShortExactly(h: Word)
    ensures IsShort(h) <==> HighBits(HighBits(HighBits(HighBits(HighBits(h))))) < 2
  {
  }

  lemma SmallTwo(x: Word)
    ensures x < 2 <==> Value(x) < 2
  {
  }

  lemma ShortNumber(h: Word)
    requires Value(h) < 0x8000_0000
    ensures IsShort(h)
  {
    hide Value, IsShort, LowSix, HighBits;
    SplitSix(h);
    SplitSix(HighBits(h));
    SplitSix(HighBits(HighBits(h)));
    SplitSix(HighBits(HighBits(HighBits(h))));
    SplitSix(HighBits(HighBits(HighBits(HighBits(h)))));
    ShortExactly(h);
    SmallTwo(HighBits(HighBits(HighBits(HighBits(HighBits(h))))));
  }

  /** The word that stands for `n`. */
  function WordOf(n: nat): (x: Word)
    requires n < WORD_VALUES
    ensures Value(x) == n
  {
    hide Value, Doubled, IsShort;
    if n == 0 then Zero(); 0
    else
      var h := WordOf(n / 2);
      ShortNumber(h);
      DoubledNumber(h, n % 2 == 1);
      Doubled(h, n % 2 == 1)
  }

  // ---- Numbers modulo 2^32 -----------------------------------------------------------------------------

  lemma ValueBound(x: Word)
    ensures Value(x) < WORD_VALUES
  {
    hide Value, StoreLe32;
    ValueLe(x);
  }

  lemma SameNumber(b: Byte, c: Byte)
    ensures Number(b) == Number(c) ==> b == c
  {
  }

  lemma SameBytes(p: seq<Byte>, q: seq<Byte>)
    requires |p| == |q| == 4 && NumberLe(p) == NumberLe(q)
    ensures p == q
  {
    hide Number;
    SameDigits(Number(p[0]), Number(p[1]), Number(p[2]), Number(p[3]),
               Number(q[0]), Number(q[1]), Number(q[2]), Number(q[3]));
    SameNumber(p[0], q[0]);
    SameNumber(p[1], q[1]);
    SameNumber(p[2], q[2]);
    SameNumber(p[3], q[3]);
  }

  lemma SameDigits(a: nat, b: nat, c: nat, d: nat, a': nat, b': nat, c': nat, d': nat)
    requires a < 0x100 && b < 0x100 && c < 0x100 && a' < 0x100 && b' < 0x100 && c' < 0x100
    requires a + 0x100 * b + 0x1_0000 * c + 0x100_0000 * d == a' + 0x100 * b' + 0x1_0000 * c' + 0x100_0000 * d'
    ensures a == a' && b == b' && c == c' && d == d'
  {
    FirstDigit(a, b + 0x100 * (c + 0x100 * d), a', b' + 0x100 * (c' + 0x100 * d'));
    FirstDigit(b, c + 0x100 * d, b', c' + 0x100 * d');
    FirstDigit(c, d, c', d');
  }

  lemma FirstDigit(a: nat, n: nat, a': nat, n': nat)
    requires a < 0x100 && a' < 0x100 && a + 0x100 * n == a' + 0x100 * n'
    ensures a == a' && n == n'
  {
  }

  /** A word is known by its number. */
  lemma SameValue(x: Word, y: Word)
    requires Value(x) == Value(y)
    ensures x == y
  {
    hide Value, StoreLe32, LoadLe32, NumberLe;
    ValueLe(x);
    ValueLe(y);
    SameBytes(StoreLe32(x), StoreLe32(y));
    LoadAfterStore(x);
    LoadAfterStore(y);
  }

  /** `n & 0xffffffff` for an integer of any size and sign. */
  function MaskedWord(n: int): (x: Word)
    ensures Value(x) == n % WORD_VALUES
  {
    WordOf(n % WORD_VALUES)
  }

  /** Masking an integer before and after an increment is the increment of the word. */
  lemma MaskedNext(n: int)
    ensures MaskedWord((n + 1) % WORD_VALUES) == MaskedWord(n) + 1
  {
    hide Value, MaskedWord;
    ValueOfNext(MaskedWord(n));
    SameValue(MaskedWord((n + 1) % WORD_VALUES), MaskedWord(n) + 1);
  }
}
