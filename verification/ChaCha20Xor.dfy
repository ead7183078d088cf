/** The code of chacha20.cpp: the block function over arrays and the keystream loop, for any input and
    output buffers. */
module ChaCha20Xor {
  import opened Words
  import opened ChaCha20

  // ---- the quarter round -----------------------------------------------------------------------------

  function MixedAt(s: Block, i: nat, j: nat, k: nat, n: Word): Block
    requires i < 16 && j < 16 && k < 16 && 0 < n < 32
  {
    var m := Mix(s[i], s[j], s[k], n);
    s[i := m.x][k := m.z]
  }

  /** One line of the LFXE_QR macro. */
  method MixAt(x: array<Word>, i: nat, j: nat, k: nat, n: Word)
    requires x.Length == 16 && i < 16 && j < 16 && k < 16 && i != j && i != k && j != k && 0 < n < 32
    modifies x
    ensures x[..] == MixedAt(old(x[..]), i, j, k, n)
  {
    hide Rotl32, Sum, Xor;
    x[i] := Sum(x[i], x[j]);
    x[k] := Xor(x[k], x[i]);
    x[k] := Rotl32(x[k], n);
  }

  lemma QuarterInLines(s: Block, l: Lane)
    ensures Quarter(s, l) == MixedAt(MixedAt(MixedAt(MixedAt(s, l.a, l.b, l.d, 16), l.c, l.d, l.b, 12),
                                             l.a, l.b, l.d, 8), l.c, l.d, l.b, 7)
  {
    hide Mix;
  }

  /** The LFXE_QR macro on four words of the array. */
  method QuarterRoundAt(x: array<Word>, l: Lane)
    requires x.Length == 16
    modifies x
    ensures x[..] == Quarter(old(x[..]), l)
  {
    hide Quarter, MixedAt;
    QuarterInLines(x[..], l);
    MixAt(x, l.a, l.b, l.d, 16);
    MixAt(x, l.c, l.d, l.b, 12);
    MixAt(x, l.a, l.b, l.d, 8);
    MixAt(x, l.c, l.d, l.b, 7);
  }

  // ---- the block function ----------------------------------------------------------------------------

  /** Writes a word at `off`, low byte first. */
  method StoreWord(p: array<Byte>, off: nat, v: Word)
    requires off + 4 <= p.Length
    modifies p
    ensures p[..] == old(p[..off]) + StoreLe32(v) + old(p[off + 4..])
  {
    p[off] := (v & 0xff) as Byte;
    p[off + 1] := ((v >> 8) & 0xff) as Byte;
    p[off + 2] := ((v >> 16) & 0xff) as Byte;
    p[off + 3] := ((v >> 24) & 0xff) as Byte;
  }

  lemma DoubleRoundInLines(s: Block)
    ensures DoubleRound(s) == Quarter(Quarter(Quarter(Quarter(Quarter(Quarter(Quarter(Quarter(s,
      COLUMNS[0]), COLUMNS[1]), COLUMNS[2]), COLUMNS[3]), DIAGONALS[0]), DIAGONALS[1]), DIAGONALS[2]), DIAGONALS[3])
  {
    hide Quarter;
    FourQuarters(s, COLUMNS);
    FourQuarters(Quarters(s, COLUMNS), DIAGONALS);
  }

  lemma FourQuarters(s: Block, lanes: seq<Lane>)
    requires |lanes| == 4
    ensures Quarters(s, lanes) == Quarter(Quarter(Quarter(Quarter(s, lanes[0]), lanes[1]), lanes[2]), lanes[3])
  {
    hide Quarter;
    assert lanes[..3][..2] == lanes[..2] && lanes[..2][..1] == lanes[..1] && lanes[..1][..0] == [];
    assert Quarters(s, lanes[..0]) == s;
    assert Quarters(s, lanes[..1]) == Quarter(s, lanes[0]);
    assert Quarters(s, lanes[..2]) == Quarter(Quarters(s, lanes[..1]), lanes[1]);
    assert Quarters(s, lanes[..3]) == Quarter(Quarters(s, lanes[..2]), lanes[2]);
  }

  /** chacha20_block: ten double rounds on a copy, whose sum with the input is stored. */
  method ChaCha20Block(input: array<Word>, out: array<Byte>)
    requires input.Length == 16 && out.Length == 64
    modifies out
    ensures out[..] == KeyBlock(input[..])
  {
    hide Quarter, DoubleRound, Rounds, StoreLe32, Sum, KeyBlock, Serialized;
    ghost var s: Block := input[..];
    var x := new Word[16];
    for i := 0 to 16
      invariant x[..i] == input[..i]
    {
      x[i] := input[i];
    }
    assert x[..] == s;
    NoRounds(s);
    for i := 0 to 10
      invariant x[..] == Rounds(s, i)
    {
      OneMoreRound(s, i);
      TwoRounds(x);
    }
    for i := 0 to 16
      invariant x[..] == Rounds(s, 10)
      invariant out[..4 * i] == Serialized(Rounds(s, 10), s, i)
    {
      var word := Sum(x[i], input[i]);
      assert x[i] == x[..][i] && input[i] == s[i];
      ghost var before := out[..];
      StoreWord(out, 4 * i, word);
      OneMoreWord(Rounds(s, 10), s, i, before, out[..]);
    }
    AllStored(s, out[..]);
  }

  /** The eight quarter rounds of one turn of the loop. */
  method TwoRounds(x: array<Word>)
    requires x.Length == 16
    modifies x
    ensures x[..] == DoubleRound(old(x[..]))
  {
    hide Quarter, DoubleRound;
    DoubleRoundInLines(x[..]);
    QuarterRoundAt(x, Corners(0, 4, 8, 12));
    QuarterRoundAt(x, Corners(1, 5, 9, 13));
    QuarterRoundAt(x, Corners(2, 6, 10, 14));
    QuarterRoundAt(x, Corners(3, 7, 11, 15));
    QuarterRoundAt(x, Corners(0, 5, 10, 15));
    QuarterRoundAt(x, Corners(1, 6, 11, 12));
    QuarterRoundAt(x, Corners(2, 7, 8, 13));
    QuarterRoundAt(x, Corners(3, 4, 9, 14));
  }

  lemma OneMoreWord(x: Block, s: Block, i: nat, before: seq<Byte>, after: seq<Byte>)
    requires i < 16 && |before| == 64 && before[..4 * i] == Serialized(x, s, i)
    requires after == before[..4 * i] + StoreLe32(Sum(x[i], s[i])) + before[4 * i + 4..]
    ensures after[..4 * (i + 1)] == Serialized(x, s, i + 1)
  {
    hide StoreLe32, Sum;
  }

  lemma AllStored(s: Block, out: seq<Byte>)
    requires |out| == 64 && out[..64] == Serialized(Rounds(s, 10), s, 16)
    ensures out == KeyBlock(s)
  {
    hide Serialized, Rounds;
    assert out == out[..64];
  }

  lemma NoRounds(s: Block)
    ensures Rounds(s, 0) == s
  {
  }

  lemma OneMoreRound(s: Block, n: nat)
    ensures Rounds(s, n + 1) == DoubleRound(Rounds(s, n))
  {
  }

  // ---- the keystream loop ----------------------------------------------------------------------------

  /** The output buffer after `k` bytes, when the bytes are written one by one from `to` on. With `same`, the
      input is read from the buffer being written; otherwise from `src`. */
  function Run(c: Cipher, same: bool, src: seq<Byte>, dst: seq<Byte>, from: nat, to: nat, k: nat): (r: seq<Byte>)
    requires c.Valid() && to + k <= |dst| && from + k <= if same then |dst| else |src|
    ensures |r| == |dst|
  {
    if k == 0 then dst else
      var before := Run(c, same, src, dst, from, to, k - 1);
      before[to + k - 1 := (if same then before else src)[from + k - 1] ^ c.KeyByte(k - 1)]
  }

  /** No byte is written over before it is read: separate buffers, or an output that does not start inside
      the input. Equal buffers qualify. */
  predicate InOrder(same: bool, from: nat, to: nat, len: nat) {
    same ==> !(from < to < from + len)
  }

  /** What the output buffer should hold: the cipher of the input at `to`, and the rest unchanged. */
  function Spliced(c: Cipher, src: seq<Byte>, dst: seq<Byte>, from: nat, to: nat, len: nat): (r: seq<Byte>)
    requires c.Valid() && to + len <= |dst| && from + len <= |src|
    ensures |r| == |dst|
  {
    dst[..to] + c.Xored(src[from..from + len]) + dst[to + len..]
  }

  lemma {:induction false} RunAt(c: Cipher, same: bool, src: seq<Byte>, dst: seq<Byte>, from: nat, to: nat, len: nat,
                                 k: nat, i: nat)
    requires c.Valid() && k <= len && to + len <= |dst| && from + len <= (if same then |dst| else |src|) && i < |dst|
    requires InOrder(same, from, to, len)
    ensures Run(c, same, src, dst, from, to, k)[i]
         == if to <= i < to + k then (if same then dst else src)[from + i - to] ^ c.KeyByte(i - to) else dst[i]
  {
    hide Cipher.KeyByte;
    if k > 0 {
      RunAt(c, same, src, dst, from, to, len, k - 1, i);
      if same {
        RunAt(c, same, src, dst, from, to, len, k - 1, from + k - 1);
      }
    }
  }

  lemma RunIsXored(c: Cipher, same: bool, src: seq<Byte>, dst: seq<Byte>, from: nat, to: nat, len: nat)
    requires c.Valid() && to + len <= |dst| && from + len <= |if same then dst else src|
    requires InOrder(same, from, to, len)
    ensures Run(c, same, src, dst, from, to, len) == Spliced(c, if same then dst else src, dst, from, to, len)
  {
    hide Cipher.KeyByte, Run, Cipher.XoredFrom;
    var input := if same then dst else src;
    var r, t := Run(c, same, src, dst, from, to, len), Spliced(c, input, dst, from, to, len);
    forall i: nat | i < |dst|
      ensures r[i] == t[i]
    {
      RunAt(c, same, src, dst, from, to, len, len, i);
      if to <= i < to + len {
        XoredAt(c, input[from..from + len], 0, i - to);
      }
    }
  }

  /** The buffers that defeat the loop when the output starts inside the input: byte `to` is written, from
      byte `from`, before it is read. */
  ghost function Clash(c: Cipher, n: nat, from: nat, to: nat): seq<Byte>
    requires c.Valid() && from < to < n
  {
    seq(n, i => if i == from then c.KeyByte(0) else 1)
  }

  lemma ClashClashes(c: Cipher, n: nat, from: nat, to: nat, len: nat)
    requires c.Valid() && from < to < from + len && to + len <= n
    ensures var m := Clash(c, n, from, to);
            Run(c, true, m, m, from, to, len) != Spliced(c, m, m, from, to, len)
  {
    hide Cipher.KeyByte, Run, Cipher.XoredFrom;
    var m, d := Clash(c, n, from, to), to - from;
    RunPrefix(c, m, from, to, d, len);
    RunAt(c, true, m, m, from, to, d, d, to);
    StepAt(c, m, from, to, d + 1);
    XoredAt(c, m[from..from + len], 0, d);
    assert Spliced(c, m, m, from, to, len)[to + d] == m[to] ^ c.KeyByte(d);
    Differ(c.KeyByte(0), c.KeyByte(d));
  }

  lemma Differ(x: Byte, y: Byte)
    ensures (x ^ x) ^ y != 1 ^ y
  {
  }

  lemma StepAt(c: Cipher, m: seq<Byte>, from: nat, to: nat, k: nat)
    requires c.Valid() && 0 < k && to + k <= |m| && from + k <= |m|
    ensures Run(c, true, m, m, from, to, k)[to + k - 1]
         == Run(c, true, m, m, from, to, k - 1)[from + k - 1] ^ c.KeyByte(k - 1)
  {
    hide Cipher.KeyByte;
  }

  /** A byte once written stays. */
  lemma {:induction false} RunPrefix(c: Cipher, m: seq<Byte>, from: nat, to: nat, d: nat, len: nat)
    requires c.Valid() && d < len && to + len <= |m| && from + len <= |m|
    ensures Run(c, true, m, m, from, to, len)[to + d] == Run(c, true, m, m, from, to, d + 1)[to + d]
  {
    hide Cipher.KeyByte;
    if d + 1 < len { RunPrefix(c, m, from, to, d, len - 1); }
  }

  ghost predicate AlwaysXors(c: Cipher, n: nat, from: nat, to: nat, len: nat)
    requires c.Valid() && to + len <= n && from + len <= n
  {
    forall m: seq<Byte> | |m| == n :: Run(c, true, m, m, from, to, len) == Spliced(c, m, m, from, to, len)
  }

  /** Input and output in one buffer: the loop is right for every content exactly when the output does not
      start strictly inside the input. */
  lemma AliasingExactly(c: Cipher, n: nat, from: nat, to: nat, len: nat)
    requires c.Valid() && to + len <= n && from + len <= n
    ensures AlwaysXors(c, n, from, to, len) <==> !(from < to < from + len)
  {
    hide Run, Spliced, Clash;
    if from < to < from + len {
      ClashClashes(c, n, from, to, len);
      assert |Clash(c, n, from, to)| == n by { ClashSize(c, n, from, to); }
    } else {
      forall m: seq<Byte> | |m| == n
        ensures Run(c, true, m, m, from, to, len) == Spliced(c, m, m, from, to, len)
      {
        RunIsXored(c, true, m, m, from, to, len);
      }
    }
  }

  lemma ClashSize(c: Cipher, n: nat, from: nat, to: nat)
    requires c.Valid() && from < to < n
    ensures |Clash(c, n, from, to)| == n
  {
  }

  /** Loads `n` little-endian words of `p` into the state from `at` on. */
  method LoadInto(state: array<Word>, at: nat, p: seq<Byte>, n: nat)
    requires state.Length == 16 && at + n <= 16 && 4 * n <= |p|
    modifies state
    ensures state[..] == old(state[..at]) + LoadWords(p, n) + old(state[at + n..])
  {
    hide LoadLe32, LoadWords;
    ghost var was := state[..];
    NothingLoaded(was, at, p);
    for i := 0 to n
      invariant state[..] == Loaded(was, at, p, i)
    {
      OneMoreLoaded(was, at, p, i);
      state[at + i] := LoadLe32(p[4 * i..4 * i + 4]);
    }
  }

  ghost function Loaded(was: seq<Word>, at: nat, p: seq<Byte>, i: nat): (r: seq<Word>)
    requires at + i <= |was| && 4 * i <= |p|
    ensures |r| == |was|
  {
    was[..at] + LoadWords(p, i) + was[at + i..]
  }

  lemma NothingLoaded(was: seq<Word>, at: nat, p: seq<Byte>)
    requires at <= |was|
    ensures Loaded(was, at, p, 0) == was
  {
  }

  lemma OneMoreLoaded(was: seq<Word>, at: nat, p: seq<Byte>, i: nat)
    requires at + i < |was| && 4 * (i + 1) <= |p|
    ensures Loaded(was, at, p, i + 1) == Loaded(was, at, p, i)[at + i := LoadLe32(p[4 * i..4 * i + 4])]
  {
    hide LoadLe32;
    assert LoadWords(p, i + 1) == LoadWords(p, i) + [LoadLe32(p[4 * i..4 * i + 4])];
  }

  /** The state array before the first block. */
  method InitialState(c: Cipher) returns (state: array<Word>)
    requires c.Valid()
    ensures fresh(state) && state.Length == 16 && state[..] == c.State(0)
  {
    hide LoadWords;
    state := new Word[16];
    state[0], state[1], state[2], state[3] := 0x61707865, 0x3320646e, 0x79622d32, 0x6b206574;
    assert state[..4] == CONSTANTS;
    LoadInto(state, 4, c.key, 8);
    state[12] := c.counter;
    assert state[..13] == CONSTANTS + LoadWords(c.key, 8) + [c.counter];
    LoadInto(state, 13, c.nonce, 3);
  }

  lemma NextState(c: Cipher, k: nat)
    requires c.Valid()
    ensures c.State(k + 1) == c.State(k)[12 := c.State(k)[12] + 1]
  {
    hide LoadWords;
  }

  lemma KeyByteOfBlock(c: Cipher, k: nat, i: nat)
    requires c.Valid() && i < 64
    ensures c.KeyByte(64 * k + i) == KeyBlock(c.State(k))[i]
  {
    hide KeyBlock, Cipher.State;
    assert (64 * k + i) / 64 == k && (64 * k + i) % 64 == i;
  }

  lemma OneMoreByte(c: Cipher, same: bool, src: seq<Byte>, dst: seq<Byte>, from: nat, to: nat, k: nat)
    requires c.Valid() && to + k + 1 <= |dst| && from + k + 1 <= if same then |dst| else |src|
    ensures var before := Run(c, same, src, dst, from, to, k);
            Run(c, same, src, dst, from, to, k + 1)
            == before[to + k := (if same then before else src)[from + k] ^ c.KeyByte(k)]
  {
    hide Cipher.KeyByte;
  }

  /** chacha20_xor. `input` and `output` may be the same buffer, at any offsets. */
  method XorStream(c: Cipher, input: array<Byte>, from: nat, output: array<Byte>, to: nat, len: nat)
    requires c.Valid() && from + len <= input.Length && to + len <= output.Length
    modifies output
    ensures output[..] == Run(c, input == output, old(input[..]), old(output[..]), from, to, len)
    ensures InOrder(input == output, from, to, len) ==>
              output[..] == Spliced(c, old(input[..]), old(output[..]), from, to, len)
  {
    hide Run, KeyBlock, Cipher.State, Cipher.KeyByte, Spliced, Cipher.XoredFrom;
    ghost var src, dst, same := input[..], output[..], input == output;
    var state := InitialState(c);
    var block := new Byte[64];
    var off := 0;
    ghost var k := 0;
    assert output[..] == Run(c, same, src, dst, from, to, 0) by { NothingWritten(c, same, src, dst, from, to); }
    while off < len
      invariant off <= len && (off < len ==> off == 64 * k) && state[..] == c.State(k)
      invariant output[..] == Run(c, same, src, dst, from, to, off)
      invariant !same ==> input[..] == src
    {
      ChaCha20Block(state, block);
      var n := len - off;
      if n > 64 { n := 64; }
      XorBlock(c, k, off, input, from, output, to, block, n, src, dst);
      off := off + n;
      NextBlock(c, k, state);
      k := k + 1;
    }
    if InOrder(same, from, to, len) { RunIsXored(c, same, src, dst, from, to, len); }
  }

  method NextBlock(c: Cipher, ghost k: nat, state: array<Word>)
    requires c.Valid() && state.Length == 16 && state[..] == c.State(k)
    modifies state
    ensures state[..] == c.State(k + 1)
  {
    hide Cipher.State;
    NextState(c, k);
    state[12] := state[12] + 1;
  }

  lemma NothingWritten(c: Cipher, same: bool, src: seq<Byte>, dst: seq<Byte>, from: nat, to: nat)
    requires c.Valid() && to <= |dst| && from <= if same then |dst| else |src|
    ensures Run(c, same, src, dst, from, to, 0) == dst
  {
  }

  /** The inner loop: `n` bytes under the key block `k`. */
  method XorBlock(c: Cipher, ghost k: nat, off: nat, input: array<Byte>, from: nat, output: array<Byte>, to: nat,
                  block: array<Byte>, n: nat, ghost src: seq<Byte>, ghost dst: seq<Byte>)
    requires c.Valid() && off == 64 * k && n <= 64 && block.Length == 64 && block != output && block[..] == KeyBlock(c.State(k))
    requires from + off + n <= input.Length == |src| && to + off + n <= output.Length == |dst|
    requires input != output ==> input[..] == src
    requires output[..] == Run(c, input == output, src, dst, from, to, off)
    modifies output
    ensures output[..] == Run(c, input == output, src, dst, from, to, off + n)
  {
    hide Run, KeyBlock, Cipher.State, Cipher.KeyByte;
    for i := 0 to n
      invariant output[..] == Run(c, input == output, src, dst, from, to, off + i)
      invariant block[..] == KeyBlock(c.State(k)) && (input != output ==> input[..] == src)
    {
      ghost var before := output[..];
      OneMoreByte(c, input == output, src, dst, from, to, off + i);
      KeyByteOfBlock(c, k, i);
      assert block[i] == block[..][i] && input[from + off + i] == input[..][from + off + i];
      output[to + off + i] := input[from + off + i] ^ block[i];
      assert output[..] == before[to + off + i := before[to + off + i]][to + off + i := output[to + off + i]];
    }
  }
}
