/** ChaCha20 as in chacha20.cpp: the quarter round, the block function and the keystream loop, with the
    pointwise definition of RFC 8439 they are proved against. */
module ChaCha20 {
  import opened Words

  type Block = s: seq<Word> | |s| == 16 witness seq(16, _ => 0)

  datatype Mixed = Mixed(x: Word, z: Word)

  datatype Quad = Quad(a: Word, b: Word, c: Word, d: Word)

  // ---- the quarter round, section 2.1 of RFC 8439 ----------------------------------------------------

  /** One line of the quarter round: x += y, z ^= x, z <<<= n. The new x and z. */
  function Mix(x: Word, y: Word, z: Word, n: Word): (m: Mixed)
    requires 0 < n < 32
  {
    Mixed(Sum(x, y), Rotl32(Xor(z, Sum(x, y)), n))
  }

  function Unmix(x: Word, y: Word, z: Word, n: Word): Mixed {
    Mixed(Difference(x, y), Xor(Rotr32(z, n), x))
  }

  /** Sums and differences of words wrap around at 2^32. */
  function Sum(x: Word, y: Word): Word { x + y }

  function Difference(x: Word, y: Word): Word { x - y }

  function Xor(x: Word, y: Word): Word { x ^ y }

  lemma MixUndone(x: Word, y: Word, z: Word, n: Word)
    requires n == 16 || n == 12 || n == 8 || n == 7
    ensures Unmix(Mix(x, y, z, n).x, y, Mix(x, y, z, n).z, n) == Mixed(x, z)
  {
    hide Rotl32, Rotr32, Sum, Difference, Xor;
    var s := Sum(x, y);
    RotationUndone(Xor(z, s), n);
    SumUndone(x, y);
    XorUndone(z, s);
  }

  lemma MixRedone(x: Word, y: Word, z: Word, n: Word)
    requires n == 16 || n == 12 || n == 8 || n == 7
    ensures Mix(Unmix(x, y, z, n).x, y, Unmix(x, y, z, n).z, n) == Mixed(x, z)
  {
    hide Rotl32, Rotr32, Sum, Difference, Xor;
    RotationRedone(z, n);
    SumUndone(x, y);
    XorUndone(Rotr32(z, n), x);
  }

  lemma SumUndone(x: Word, y: Word)
    ensures Difference(Sum(x, y), y) == x && Sum(Difference(x, y), y) == x
  {
    hide Sum, Difference;
    SumIs(x, y);
    DifferenceIs(x, y);
    Subtracted(x, y);
    Added(x, y);
  }

  lemma SumIs(x: Word, y: Word)
    ensures Sum(x, y) == x + y
  {
  }

  lemma DifferenceIs(x: Word, y: Word)
    ensures Difference(x, y) == x - y
  {
  }

  lemma Subtracted(x: Word, y: Word)
    ensures Difference(x + y, y) == x
  {
  }

  lemma Added(x: Word, y: Word)
    ensures Sum(x - y, y) == x
  {
  }

  lemma XorUndone(x: Word, y: Word)
    ensures Xor(Xor(x, y), y) == x
  {
  }

  function QuarterRound(q: Quad): Quad {
    var Mixed(a, d) := Mix(q.a, q.b, q.d, 16);
    var Mixed(c, b) := Mix(q.c, d, q.b, 12);
    var Mixed(a, d) := Mix(a, b, d, 8);
    var Mixed(c, b) := Mix(c, d, b, 7);
    Quad(a, b, c, d)
  }

  function UndoQuarterRound(q: Quad): Quad {
    var Mixed(c, b) := Unmix(q.c, q.d, q.b, 7);
    var Mixed(a, d) := Unmix(q.a, b, q.d, 8);
    var Mixed(c, b) := Unmix(c, d, b, 12);
    var Mixed(a, d) := Unmix(a, b, d, 16);
    Quad(a, b, c, d)
  }

  /** The quarter round is a bijection on four words. */
  lemma QuarterRoundIsBijective(q: Quad)
    ensures UndoQuarterRound(QuarterRound(q)) == q
    ensures QuarterRound(UndoQuarterRound(q)) == q
  {
    QuarterRoundUndone(q);
    QuarterRoundRedone(q);
  }

  lemma QuarterRoundUndone(q: Quad)
    ensures UndoQuarterRound(QuarterRound(q)) == q
  {
    hide Mix, Unmix;
    var Mixed(a, d) := Mix(q.a, q.b, q.d, 16);
    var Mixed(c, b) := Mix(q.c, d, q.b, 12);
    var Mixed(a', d') := Mix(a, b, d, 8);
    MixUndone(q.a, q.b, q.d, 16);
    MixUndone(q.c, d, q.b, 12);
    MixUndone(a, b, d, 8);
    MixUndone(c, d', b, 7);
  }

  lemma QuarterRoundRedone(q: Quad)
    ensures QuarterRound(UndoQuarterRound(q)) == q
  {
    hide Mix, Unmix;
    var Mixed(c, b) := Unmix(q.c, q.d, q.b, 7);
    var Mixed(a, d) := Unmix(q.a, b, q.d, 8);
    var Mixed(c', b') := Unmix(c, d, b, 12);
    MixRedone(q.c, q.d, q.b, 7);
    MixRedone(q.a, b, q.d, 8);
    MixRedone(c, d, b, 12);
    MixRedone(a, b', d, 16);
  }

  /** The test vector of section 2.1.1 of RFC 8439. */
  lemma QuarterRoundVector()
    ensures QuarterRound(Quad(0x11111111, 0x01020304, 0x9b8d6f43, 0x01234567))
         == Quad(0xea2a92f4, 0xcb1cf8ce, 0x4581472e, 0x5881c4bb)
  {
  }

  // ---- the rounds, sections 2.2 and 2.3 of RFC 8439 --------------------------------------------------

  /** The four words of the state that one quarter round works on. */
  datatype Corners = Corners(a: nat, b: nat, c: nat, d: nat) {
    ghost predicate Apart(o: Corners) {
      && a != o.a && a != o.b && a != o.c && a != o.d && b != o.a && b != o.b && b != o.c && b != o.d
      && c != o.a && c != o.b && c != o.c && c != o.d && d != o.a && d != o.b && d != o.c && d != o.d
    }
  }

  type Lane = l: Corners | l.a < 16 && l.b < 16 && l.c < 16 && l.d < 16
                           && l.a != l.b && l.a != l.c && l.a != l.d && l.b != l.c && l.b != l.d && l.c != l.d
    witness Corners(0, 4, 8, 12)

  const COLUMNS: seq<Lane> := [Corners(0, 4, 8, 12), Corners(1, 5, 9, 13), Corners(2, 6, 10, 14), Corners(3, 7, 11, 15)]
  const DIAGONALS: seq<Lane> := [Corners(0, 5, 10, 15), Corners(1, 6, 11, 12), Corners(2, 7, 8, 13), Corners(3, 4, 9, 14)]

  function Pick(s: Block, l: Lane): Quad {
    Quad(s[l.a], s[l.b], s[l.c], s[l.d])
  }

  function Put(s: Block, l: Lane, q: Quad): Block {
    s[l.a := q.a][l.b := q.b][l.c := q.c][l.d := q.d]
  }

  function Quarter(s: Block, l: Lane): Block {
    Put(s, l, QuarterRound(Pick(s, l)))
  }

  function Unquarter(s: Block, l: Lane): Block {
    Put(s, l, UndoQuarterRound(Pick(s, l)))
  }

  lemma PickAndPut(s: Block, l: Lane, q: Quad, r: Quad)
    ensures Pick(Put(s, l, q), l) == q && Put(Put(s, l, q), l, r) == Put(s, l, r) && Put(s, l, Pick(s, l)) == s
  {
  }

  predicate Holds(l: Lane, i: nat) {
    i == l.a || i == l.b || i == l.c || i == l.d
  }

  function WordOf(l: Lane, q: Quad, i: nat): Word
    requires Holds(l, i)
  {
    if i == l.a then q.a else if i == l.b then q.b else if i == l.c then q.c else q.d
  }

  lemma PutAt(s: Block, l: Lane, q: Quad, i: nat)
    requires i < 16
    ensures Put(s, l, q)[i] == if Holds(l, i) then WordOf(l, q, i) else s[i]
  {
  }

  lemma NotInBoth(l: Lane, m: Lane, i: nat)
    requires l.Apart(m) && Holds(l, i)
    ensures !Holds(m, i)
  {
  }

  lemma PutsCommute(s: Block, l: Lane, q: Quad, m: Lane, r: Quad)
    requires l.Apart(m)
    ensures Put(Put(s, l, q), m, r) == Put(Put(s, m, r), l, q)
  {
    hide Put;
    forall i: nat | i < 16
      ensures Put(Put(s, l, q), m, r)[i] == Put(Put(s, m, r), l, q)[i]
    {
      PutsCommuteAt(s, l, q, m, r, i);
    }
  }

  lemma PutsCommuteAt(s: Block, l: Lane, q: Quad, m: Lane, r: Quad, i: nat)
    requires l.Apart(m) && i < 16
    ensures Put(Put(s, l, q), m, r)[i] == Put(Put(s, m, r), l, q)[i]
  {
    hide Put, Holds, WordOf;
    if Holds(l, i) { NotInBoth(l, m, i); }
    PutAt(s, l, q, i);
    PutAt(s, m, r, i);
    PutAt(Put(s, l, q), m, r, i);
    PutAt(Put(s, m, r), l, q, i);
  }

  lemma PickElsewhere(s: Block, l: Lane, q: Quad, m: Lane)
    requires l.Apart(m)
    ensures Pick(Put(s, l, q), m) == Pick(s, m)
  {
    hide Put;
    PutAt(s, l, q, m.a);
    PutAt(s, l, q, m.b);
    PutAt(s, l, q, m.c);
    PutAt(s, l, q, m.d);
  }

  lemma QuarterUndone(s: Block, l: Lane)
    ensures Unquarter(Quarter(s, l), l) == s && Quarter(Unquarter(s, l), l) == s
  {
    hide Pick, Put, QuarterRound, UndoQuarterRound;
    var q := Pick(s, l);
    QuarterRoundIsBijective(q);
    PickAndPut(s, l, QuarterRound(q), UndoQuarterRound(QuarterRound(q)));
    PickAndPut(s, l, UndoQuarterRound(q), QuarterRound(UndoQuarterRound(q)));
  }

  /** Quarter rounds on different words commute. */
  lemma QuartersCommute(s: Block, l: Lane, m: Lane)
    requires l.Apart(m)
    ensures Quarter(Quarter(s, l), m) == Quarter(Quarter(s, m), l)
  {
    hide Pick, Put, QuarterRound;
    PickElsewhere(s, l, QuarterRound(Pick(s, l)), m);
    PickElsewhere(s, m, QuarterRound(Pick(s, m)), l);
    PutsCommute(s, l, QuarterRound(Pick(s, l)), m, QuarterRound(Pick(s, m)));
  }

  /** So the order of the quarter rounds inside a column round or a diagonal round does not matter. */
  lemma RoundsHaveNoOrder(s: Block, i: nat, j: nat)
    requires i < 4 && j < 4
    ensures Quarter(Quarter(s, COLUMNS[i]), COLUMNS[j]) == Quarter(Quarter(s, COLUMNS[j]), COLUMNS[i])
    ensures Quarter(Quarter(s, DIAGONALS[i]), DIAGONALS[j]) == Quarter(Quarter(s, DIAGONALS[j]), DIAGONALS[i])
  {
    hide Quarter;
    if i != j {
      QuartersCommute(s, COLUMNS[i], COLUMNS[j]);
      QuartersCommute(s, DIAGONALS[i], DIAGONALS[j]);
    }
  }

  function Quarters(s: Block, lanes: seq<Lane>): Block {
    if lanes == [] then s else Quarter(Quarters(s, lanes[..|lanes| - 1]), lanes[|lanes| - 1])
  }

  function Unquarters(s: Block, lanes: seq<Lane>): Block
    decreases |lanes|
  {
    if lanes == [] then s else Unquarters(Unquarter(s, lanes[|lanes| - 1]), lanes[..|lanes| - 1])
  }

  lemma {:induction false} QuartersUndone(s: Block, lanes: seq<Lane>)
    ensures Unquarters(Quarters(s, lanes), lanes) == s && Quarters(Unquarters(s, lanes), lanes) == s
    decreases |lanes|
  {
    hide Quarter, Unquarter;
    if lanes != [] {
      var init, last := lanes[..|lanes| - 1], lanes[|lanes| - 1];
      QuarterUndone(Quarters(s, init), last);
      QuarterUndone(s, last);
      QuartersUndone(s, init);
      QuartersUndone(Unquarter(s, last), init);
    }
  }

  function DoubleRound(s: Block): Block {
    Quarters(Quarters(s, COLUMNS), DIAGONALS)
  }

  function UndoDoubleRound(s: Block): Block {
    Unquarters(Unquarters(s, DIAGONALS), COLUMNS)
  }

  function Rounds(s: Block, n: nat): Block {
    if n == 0 then s else DoubleRound(Rounds(s, n - 1))
  }

  function UndoRounds(s: Block, n: nat): Block
    decreases n
  {
    if n == 0 then s else UndoRounds(UndoDoubleRound(s), n - 1)
  }

  /** The twenty rounds, like any number of double rounds, are a bijection on states of sixteen words. */
  lemma {:induction false} RoundsAreInvertible(s: Block, n: nat)
    ensures UndoRounds(Rounds(s, n), n) == s && Rounds(UndoRounds(s, n), n) == s
    decreases n
  {
    hide DoubleRound, UndoDoubleRound;
    if n > 0 {
      DoubleRoundUndone(Rounds(s, n - 1));
      DoubleRoundUndone(s);
      RoundsAreInvertible(s, n - 1);
      RoundsAreInvertible(UndoDoubleRound(s), n - 1);
    }
  }

  lemma DoubleRoundUndone(s: Block)
    ensures UndoDoubleRound(DoubleRound(s)) == s && DoubleRound(UndoDoubleRound(s)) == s
  {
    hide Quarters, Unquarters, COLUMNS, DIAGONALS;
    QuartersUndone(Quarters(s, COLUMNS), DIAGONALS);
    QuartersUndone(s, COLUMNS);
    QuartersUndone(Unquarters(s, DIAGONALS), COLUMNS);
    QuartersUndone(s, DIAGONALS);
  }

  // ---- the block function and the keystream ----------------------------------------------------------

  /** The first `n` words of x + s, in little-endian order. */
  function Serialized(x: Block, s: Block, n: nat): (r: seq<Byte>)
    requires n <= 16
    ensures |r| == 4 * n
  {
    if n == 0 then [] else Serialized(x, s, n - 1) + StoreLe32(Sum(x[n - 1], s[n - 1]))
  }

  /** The key block of a state. */
  function KeyBlock(s: Block): (r: seq<Byte>)
    ensures |r| == 64
  {
    Serialized(Rounds(s, 10), s, 16)
  }

  /** The first `n` little-endian words of `p`. */
  function LoadWords(p: seq<Byte>, n: nat): (r: seq<Word>)
    requires 4 * n <= |p|
    ensures |r| == n
  {
    if n == 0 then [] else LoadWords(p, n - 1) + [LoadLe32(p[4 * (n - 1)..4 * n])]
  }

  const CONSTANTS: seq<Word> := [0x61707865, 0x3320646e, 0x79622d32, 0x6b206574]
  const KEY_SIZE: nat := 32
  const NONCE_SIZE: nat := 12

  /** The block counter after `k` increments of a 32-bit word. */
  function CounterAt(counter: Word, k: nat): Word {
    if k == 0 then counter else CounterAt(counter, k - 1) + 1
  }

  /** That is the counter plus `k` modulo 2^32. */
  lemma {:induction false} CounterWraps(counter: Word, k: nat)
    ensures Value(CounterAt(counter, k)) == (Value(counter) + k) % WORD_VALUES
  {
    hide Value;
    ValueBound(counter);
    if k > 0 {
      CounterWraps(counter, k - 1);
      ValueOfNext(CounterAt(counter, k - 1));
    }
  }

  lemma {:induction false} CountersAddUp(counter: Word, j: nat, k: nat)
    ensures CounterAt(CounterAt(counter, j), k) == CounterAt(counter, j + k)
  {
    if k > 0 { CountersAddUp(counter, j, k - 1); }
  }

  /** A key, a nonce and the counter of the first block. */
  datatype Cipher = Cipher(key: seq<Byte>, nonce: seq<Byte>, counter: Word) {
    predicate Valid() {
      |key| == KEY_SIZE && |nonce| == NONCE_SIZE
    }

    /** The state for block `k`. */
    function State(k: nat): Block
      requires Valid()
    {
      CONSTANTS + LoadWords(key, 8) + [CounterAt(counter, k)] + LoadWords(nonce, 3)
    }

    /** The keystream, byte by byte: section 2.4 of RFC 8439. */
    function KeyByte(i: nat): Byte
      requires Valid()
    {
      KeyBlock(State(i / 64))[i % 64]
    }

    /** Data under the keystream from byte `from` on. */
    function XoredFrom(data: seq<Byte>, from: nat): (r: seq<Byte>)
      requires Valid()
      ensures |r| == |data|
    {
      if data == [] then []
      else XoredFrom(data[..|data| - 1], from) + [data[|data| - 1] ^ KeyByte(from + |data| - 1)]
    }

    function Xored(data: seq<Byte>): (r: seq<Byte>)
      requires Valid()
      ensures |r| == |data|
    {
      XoredFrom(data, 0)
    }

    function Skip(blocks: nat): Cipher {
      this.(counter := CounterAt(counter, blocks))
    }
  }

  lemma {:induction false} XoredAt(c: Cipher, data: seq<Byte>, from: nat, i: nat)
    requires c.Valid() && i < |data|
    ensures c.XoredFrom(data, from)[i] == data[i] ^ c.KeyByte(from + i)
  {
    hide KeyBlock, Cipher.KeyByte;
    if i < |data| - 1 {
      XoredAt(c, data[..|data| - 1], from, i);
    }
  }

  /** The cipher is its own inverse. */
  lemma {:induction false} XorTwice(c: Cipher, data: seq<Byte>, from: nat)
    requires c.Valid()
    ensures c.XoredFrom(c.XoredFrom(data, from), from) == data
  {
    hide KeyBlock, Cipher.KeyByte, Cipher.XoredFrom;
    var once := c.XoredFrom(data, from);
    forall i: nat | i < |data|
      ensures c.XoredFrom(once, from)[i] == data[i]
    {
      XoredAt(c, data, from, i);
      XoredAt(c, once, from, i);
      BytesCancel(data[i], c.KeyByte(from + i));
    }
  }

  lemma BytesCancel(x: Byte, y: Byte)
    ensures (x ^ y) ^ y == x
  {
  }

  /** Any later part of the data can be processed alone, from its byte offset. */
  lemma XorSplits(c: Cipher, a: seq<Byte>, b: seq<Byte>, from: nat)
    requires c.Valid()
    ensures c.XoredFrom(a + b, from) == c.XoredFrom(a, from) + c.XoredFrom(b, from + |a|)
  {
    hide KeyBlock, Cipher.KeyByte, Cipher.XoredFrom;
    forall i: nat | i < |a + b|
      ensures c.XoredFrom(a + b, from)[i] == (c.XoredFrom(a, from) + c.XoredFrom(b, from + |a|))[i]
    {
      XoredAt(c, a + b, from, i);
      if i < |a| { XoredAt(c, a, from, i); } else { XoredAt(c, b, from + |a|, i - |a|); }
    }
  }

  /** When the offset is a whole number of blocks, advancing the counter does the same. */
  lemma XorAdvances(c: Cipher, data: seq<Byte>, blocks: nat)
    requires c.Valid()
    ensures c.XoredFrom(data, 64 * blocks) == c.Skip(blocks).Xored(data)
  {
    hide KeyBlock, Cipher.KeyByte, Cipher.XoredFrom;
    forall i: nat | i < |data|
      ensures c.XoredFrom(data, 64 * blocks)[i] == c.Skip(blocks).XoredFrom(data, 0)[i]
    {
      XoredAt(c, data, 64 * blocks, i);
      XoredAt(c.Skip(blocks), data, 0, i);
      KeyByteAdvances(c, blocks, i);
    }
  }

  lemma KeyByteAdvances(c: Cipher, blocks: nat, i: nat)
    requires c.Valid()
    ensures c.KeyByte(64 * blocks + i) == c.Skip(blocks).KeyByte(i)
  {
    hide KeyBlock, CounterAt, LoadWords;
    assert (64 * blocks + i) / 64 == blocks + i / 64 && (64 * blocks + i) % 64 == i % 64;
    CountersAddUp(c.counter, blocks, i / 64);
  }
}
