/** The cipher of scripts/dts_lib.py: words are Python integers, masked to 32 bits by hand. A counter is an
    integer of any size and sign; what is computed from words fits 64 bits (NothingLost). */
module DtsLib {
  import opened Wrappers
  import opened Words
  import opened ChaCha20
  import Loop = ChaCha20Xor

  type PyInt = bv64

  function AsPy(x: Word): PyInt {
    x as PyInt
  }

  function Rotl(x: PyInt, n: PyInt): PyInt
    requires 0 < n < 32
  {
    ((x << n) | (x >> (32 - n))) & 0xffff_ffff
  }

  function MaskedSum(x: PyInt, y: PyInt): PyInt {
    (x + y) & 0xffff_ffff
  }

  // 64 bits are enough: the sum of two 32-bit values does not wrap, and no bit is shifted out of one.

  lemma NothingLost(x: PyInt, y: PyInt)
    requires x <= 0xffff_ffff && y <= 0xffff_ffff
    ensures x <= x + y <= 0x1_ffff_fffe
  {
  }

  lemma NothingShiftedOut(x: PyInt, n: PyInt)
    requires x <= 0xffff_ffff && n < 32
    ensures (x << n) >> n == x
  {
  }

  function Flip(x: PyInt, y: PyInt): PyInt {
    x ^ y
  }

  // Each of these operations agrees with its 32-bit counterpart.

  lemma AsPyIs(x: Word)
    ensures AsPy(x) == x as PyInt
  {
  }

  lemma RotlAgrees(x: Word, n: Word)
    requires 0 < n < 32
    ensures Rotl(AsPy(x), n as PyInt) == AsPy(Rotl32(x, n))
  {
    hide Rotl, Rotl32, AsPy;
    calc {
      Rotl(AsPy(x), n as PyInt);
      { AsPyIs(x); }
      Rotl(x as PyInt, n as PyInt);
      { RotlRaw(x, n); }
      ((x << n) | (x >> (32 - n))) as PyInt;
      { Rotl32Raw(x, n); }
      Rotl32(x, n) as PyInt;
      { AsPyIs(Rotl32(x, n)); }
      AsPy(Rotl32(x, n));
    }
  }

  lemma RotlRaw(x: Word, n: Word)
    requires 0 < n < 32
    ensures Rotl(x as PyInt, n as PyInt) == ((x << n) | (x >> (32 - n))) as PyInt
  {
  }

  lemma Rotl32Raw(x: Word, n: Word)
    requires 0 < n < 32
    ensures Rotl32(x, n) == (x << n) | (x >> (32 - n))
  {
  }

  lemma SumAgrees(x: Word, y: Word)
    ensures MaskedSum(AsPy(x), AsPy(y)) == AsPy(Sum(x, y))
  {
    hide MaskedSum, Sum, AsPy;
    calc {
      MaskedSum(AsPy(x), AsPy(y));
      { AsPyIs(x); AsPyIs(y); }
      MaskedSum(x as PyInt, y as PyInt);
      { SumRaw(x, y); }
      (x + y) as PyInt;
      { SumIs(x, y); }
      Sum(x, y) as PyInt;
      { AsPyIs(Sum(x, y)); }
      AsPy(Sum(x, y));
    }
  }

  lemma SumRaw(x: Word, y: Word)
    ensures MaskedSum(x as PyInt, y as PyInt) == (x + y) as PyInt
  {
  }

  lemma FlipAgrees(x: Word, y: Word)
    ensures Flip(AsPy(x), AsPy(y)) == AsPy(Xor(x, y))
  {
    hide Flip, Xor, AsPy;
    calc {
      Flip(AsPy(x), AsPy(y));
      { AsPyIs(x); AsPyIs(y); }
      Flip(x as PyInt, y as PyInt);
      { FlipRaw(x, y); }
      (x ^ y) as PyInt;
      { XorIs(x, y); }
      Xor(x, y) as PyInt;
      { AsPyIs(Xor(x, y)); }
      AsPy(Xor(x, y));
    }
  }

  lemma FlipRaw(x: Word, y: Word)
    ensures Flip(x as PyInt, y as PyInt) == (x ^ y) as PyInt
  {
  }

  lemma XorIs(x: Word, y: Word)
    ensures Xor(x, y) == x ^ y
  {
  }

  // ---- the block function ----------------------------------------------------------------------------

  /** The Python integers hold these words. */
  ghost predicate Wide(s: seq<PyInt>, w: seq<Word>) {
    |s| == |w| && forall i | 0 <= i < |w| :: s[i] == AsPy(w[i])
  }

  /** One statement group of _quarter: an addition, an exclusive or and a rotation. */
  method MixAt(s: array<PyInt>, i: nat, j: nat, k: nat, n: Word, ghost w: Block)
    requires s.Length == 16 && i < 16 && j < 16 && k < 16 && i != j && i != k && j != k && 0 < n < 32
    requires Wide(s[..], w)
    modifies s
    ensures Wide(s[..], Loop.MixedAt(w, i, j, k, n))
  {
    hide Rotl, MaskedSum, Flip, Rotl32, Sum, Xor, AsPy;
    s[i] := MaskedSum(s[i], s[j]);
    s[k] := Flip(s[k], s[i]);
    s[k] := Rotl(s[k], n as PyInt);
    SumAgrees(w[i], w[j]);
    FlipAgrees(w[k], Sum(w[i], w[j]));
    RotlAgrees(Xor(w[k], Sum(w[i], w[j])), n);
  }

  method QuarterAt(s: array<PyInt>, l: Lane, ghost w: Block)
    requires s.Length == 16 && Wide(s[..], w)
    modifies s
    ensures Wide(s[..], Quarter(w, l))
  {
    hide Quarter, Loop.MixedAt, Wide;
    Loop.QuarterInLines(w, l);
    ghost var w1 := Loop.MixedAt(w, l.a, l.b, l.d, 16);
    ghost var w2 := Loop.MixedAt(w1, l.c, l.d, l.b, 12);
    ghost var w3 := Loop.MixedAt(w2, l.a, l.b, l.d, 8);
    MixAt(s, l.a, l.b, l.d, 16, w);
    MixAt(s, l.c, l.d, l.b, 12, w1);
    MixAt(s, l.a, l.b, l.d, 8, w2);
    MixAt(s, l.c, l.d, l.b, 7, w3);
  }

  method TwoRounds(s: array<PyInt>, ghost w: Block)
    requires s.Length == 16 && Wide(s[..], w)
    modifies s
    ensures Wide(s[..], DoubleRound(w))
  {
    hide Quarter, Wide, DoubleRound;
    Loop.DoubleRoundInLines(w);
    ghost var w1 := Quarter(w, COLUMNS[0]);
    ghost var w2 := Quarter(w1, COLUMNS[1]);
    ghost var w3 := Quarter(w2, COLUMNS[2]);
    ghost var w4 := Quarter(w3, COLUMNS[3]);
    ghost var w5 := Quarter(w4, DIAGONALS[0]);
    ghost var w6 := Quarter(w5, DIAGONALS[1]);
    ghost var w7 := Quarter(w6, DIAGONALS[2]);
    QuarterAt(s, Corners(0, 4, 8, 12), w);
    QuarterAt(s, Corners(1, 5, 9, 13), w1);
    QuarterAt(s, Corners(2, 6, 10, 14), w2);
    QuarterAt(s, Corners(3, 7, 11, 15), w3);
    QuarterAt(s, Corners(0, 5, 10, 15), w4);
    QuarterAt(s, Corners(1, 6, 11, 12), w5);
    QuarterAt(s, Corners(2, 7, 8, 13), w6);
    QuarterAt(s, Corners(3, 4, 9, 14), w7);
  }

  /** struct.unpack of `n` little-endian words. */
  method UnpackWords(p: seq<Byte>, n: nat) returns (r: seq<PyInt>)
    requires 4 * n <= |p|
    ensures Wide(r, LoadWords(p, n))
  {
    hide LoadLe32, AsPy;
    r := [];
    for i := 0 to n
      invariant Wide(r, LoadWords(p, i))
    {
      r := r + [AsPy(LoadLe32(p[4 * i..4 * i + 4]))];
    }
  }

  function Low(x: PyInt): Word {
    (x & 0xffff_ffff) as Word
  }

  lemma LowOfWord(x: Word)
    ensures Low(AsPy(x)) == x
  {
    hide Low, AsPy;
    calc { Low(AsPy(x)); { AsPyIs(x); } Low(x as PyInt); { LowRaw(x); } x; }
  }

  lemma LowRaw(x: Word)
    ensures Low(x as PyInt) == x
  {
  }

  /** struct.pack of one 32-bit value. */
  function Pack(x: PyInt): (p: seq<Byte>)
    ensures |p| == 4
  {
    StoreLe32(Low(x))
  }

  lemma PackedSum(x: Word, y: Word)
    ensures Pack(MaskedSum(AsPy(x), AsPy(y))) == StoreLe32(Sum(x, y))
  {
    hide AsPy, Low, MaskedSum, Sum, StoreLe32;
    SumAgrees(x, y);
    LowOfWord(Sum(x, y));
  }

  const EXPAND: seq<PyInt> := [0x61707865, 0x3320646e, 0x79622d32, 0x6b206574]

  lemma ConstantsAreWide()
    ensures Wide(EXPAND, CONSTANTS)
  {
    hide AsPy;
    AsPyIs(0x61707865);
    AsPyIs(0x3320646e);
    AsPyIs(0x79622d32);
    AsPyIs(0x6b206574);
  }

  lemma WideConcat(s: seq<PyInt>, t: seq<PyInt>, v: seq<Word>, w: seq<Word>)
    requires Wide(s, v) && Wide(t, w)
    ensures Wide(s + t, v + w)
  {
    hide AsPy;
  }

  method InitialState(key: seq<Byte>, counter: int, nonce: seq<Byte>) returns (state: seq<PyInt>)
    requires |key| == KEY_SIZE && |nonce| == NONCE_SIZE
    ensures Wide(state, Cipher(key, nonce, MaskedWord(counter)).State(0))
  {
    hide AsPy, MaskedWord, LoadWords, Wide, EXPAND;
    state := EXPAND;
    ConstantsAreWide();
    var words := UnpackWords(key, 8);
    WideConcat(state, words, CONSTANTS, LoadWords(key, 8));
    state := state + words;
    OneIsWide(MaskedWord(counter));
    WideConcat(state, [AsPy(MaskedWord(counter))], CONSTANTS + LoadWords(key, 8), [MaskedWord(counter)]);
    state := state + [AsPy(MaskedWord(counter))];
    words := UnpackWords(nonce, 3);
    WideConcat(state, words, CONSTANTS + LoadWords(key, 8) + [MaskedWord(counter)], LoadWords(nonce, 3));
    state := state + words;
  }

  lemma OneIsWide(x: Word)
    ensures Wide([AsPy(x)], [x])
  {
  }

  /** _chacha20_block, which masks the counter it is given. */
  method KeyBlockOf(key: seq<Byte>, counter: int, nonce: seq<Byte>) returns (r: seq<Byte>)
    requires |key| == KEY_SIZE && |nonce| == NONCE_SIZE
    ensures r == KeyBlock(Cipher(key, nonce, MaskedWord(counter)).State(0))
  {
    hide AsPy, MaskedWord, Rounds, DoubleRound, StoreLe32, Pack, MaskedSum, Sum, Cipher.State, KeyBlock, Wide, Serialized;
    ghost var s := Cipher(key, nonce, MaskedWord(counter)).State(0);
    var state := InitialState(key, counter, nonce);
    assert |state| == 16 by { SameLength(state, s); }
    var working := new PyInt[16];
    for i := 0 to 16
      invariant working[..i] == state[..i]
    {
      working[i] := state[i];
    }
    assert working[..] == state;
    Loop.NoRounds(s);
    for i := 0 to 10
      invariant Wide(working[..], Rounds(s, i))
    {
      Loop.OneMoreRound(s, i);
      TwoRounds(working, Rounds(s, i));
    }
    r := [];
    NothingSerialized(Rounds(s, 10), s);
    for i := 0 to 16
      invariant r == Serialized(Rounds(s, 10), s, i) && Wide(working[..], Rounds(s, 10))
    {
      OneMorePacked(working[..], state, Rounds(s, 10), s, i);
      r := r + Pack(MaskedSum(working[i], state[i]));
    }
    KeyBlockIs(s);
  }

  lemma SameLength(s: seq<PyInt>, w: seq<Word>)
    requires Wide(s, w)
    ensures |s| == |w|
  {
  }

  lemma NothingSerialized(x: Block, s: Block)
    ensures Serialized(x, s, 0) == []
  {
  }

  lemma OneMorePacked(p: seq<PyInt>, q: seq<PyInt>, x: Block, s: Block, i: nat)
    requires Wide(p, x) && Wide(q, s) && i < 16 && |p| == |q| == 16
    ensures Serialized(x, s, i + 1) == Serialized(x, s, i) + Pack(MaskedSum(p[i], q[i]))
  {
    hide Pack, MaskedSum, Sum, StoreLe32, AsPy;
    PackedSum(x[i], s[i]);
  }

  lemma KeyBlockIs(s: Block)
    ensures KeyBlock(s) == Serialized(Rounds(s, 10), s, 16)
  {
    hide Serialized, Rounds;
  }

  // ---- the keystream loop ----------------------------------------------------------------------------

  lemma CounterStep(counter: Word, k: nat)
    ensures CounterAt(counter, 0) == counter && CounterAt(counter, k + 1) == CounterAt(counter, k) + 1
  {
  }

  lemma NextCounter(blk: int, counter: Word, k: nat)
    requires MaskedWord(blk) == CounterAt(counter, k)
    ensures MaskedWord((blk + 1) % WORD_VALUES) == CounterAt(counter, k + 1)
  {
    hide MaskedWord, CounterAt;
    MaskedNext(blk);
    CounterStep(counter, k);
  }

  lemma StateAgain(c: Cipher, k: nat)
    requires c.Valid()
    ensures Cipher(c.key, c.nonce, CounterAt(c.counter, k)).State(0) == c.State(k)
  {
    hide LoadWords;
  }

  lemma OneMoreXored(c: Cipher, data: seq<Byte>, off: nat)
    requires c.Valid() && off < |data|
    ensures c.Xored(data[..off + 1]) == c.Xored(data[..off]) + [data[off] ^ c.KeyByte(off)]
  {
    hide Cipher.KeyByte;
    assert data[..off + 1][..off] == data[..off];
  }

  /** The inner loop: `n` bytes under the key block `k`. */
  method XorBlock(ghost c: Cipher, ghost k: nat, off: nat, data: seq<Byte>, ks: seq<Byte>, out: array<Byte>, n: nat)
    requires c.Valid() && off == 64 * k && ks == KeyBlock(c.State(k)) && n <= 64
    requires out.Length == |data| && off + n <= |data| && out[..off] == c.Xored(data[..off])
    modifies out
    ensures out[..off + n] == c.Xored(data[..off + n])
  {
    hide KeyBlock, Cipher.State, Cipher.KeyByte, Cipher.Xored;
    for i := 0 to n
      invariant out[..off + i] == c.Xored(data[..off + i])
    {
      Loop.KeyByteOfBlock(c, k, i);
      OneMoreXored(c, data, off + i);
      ghost var before := out[..off + i];
      out[off + i] := data[off + i] ^ ks[i];
      assert out[..off + i + 1] == before + [out[off + i]];
    }
  }

  /** chacha20_xor, whose assertion fails on a key or a nonce of another length. It computes what the C++ loop
      computes. */
  method ChaCha20Xor(key: seq<Byte>, nonce: seq<Byte>, counter: int, data: seq<Byte>) returns (r: Option<seq<Byte>>)
    ensures r == if |key| == KEY_SIZE && |nonce| == NONCE_SIZE
                 then Some(Cipher(key, nonce, MaskedWord(counter)).Xored(data)) else None
  {
    hide MaskedWord, CounterAt, KeyBlock, Cipher.State, Cipher.KeyByte, Cipher.XoredFrom;
    if |key| != KEY_SIZE || |nonce| != NONCE_SIZE {
      return None;
    }
    ghost var c := Cipher(key, nonce, MaskedWord(counter));
    var out := new Byte[|data|];
    var off := 0;
    var blk := counter;
    CounterStep(c.counter, 0);
    ghost var k := 0;
    while off < |data|
      invariant off <= |data| && (off < |data| ==> off == 64 * k) && MaskedWord(blk) == CounterAt(c.counter, k)
      invariant out[..off] == c.Xored(data[..off])
    {
      var ks := KeyBlockOf(key, blk, nonce);
      var n := if 64 < |data| - off then 64 else |data| - off;
      StateAgain(c, k);
      XorBlock(c, k, off, data, ks, out, n);
      off := off + n;
      NextCounter(blk, c.counter, k);
      blk := (blk + 1) % WORD_VALUES;
      k := k + 1;
    }
    assert out[..] == out[..off] && data[..off] == data;
    r := Some(out[..]);
  }
}
