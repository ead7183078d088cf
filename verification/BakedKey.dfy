/** The baked key: gen_baked_key.py masks it with the bytes of a linear congruential generator, and
    BakedKeyProvider unmasks it with its own copy of the generator. */
module BakedKey {
  import opened Wrappers
  import opened Words
  import opened ChaCha20

  const LCG_A: nat := 1664525
  const LCG_C: nat := 1013904223

  /** The generator after `n` steps from a 32-bit seed. */
  function State(seed: int, n: nat): (s: nat)
    ensures s < WORD_VALUES
  {
    if n == 0 then seed % WORD_VALUES else (State(seed, n - 1) * LCG_A + LCG_C) % WORD_VALUES
  }

  /** Its top byte. */
  function Tap(state: nat): Byte
    requires state < WORD_VALUES
  {
    ToByte(state / 0x100_0000)
  }

  /** The generator is that of Numerical Recipes, and its top byte is taken. */
  lemma OneTap(seed: int, n: nat)
    ensures State(seed, n + 1) == (1664525 * State(seed, n) + 1013904223) % 0x1_0000_0000
    ensures Number(Tap(State(seed, n))) == State(seed, n) / 0x100_0000
  {
    hide Number;
  }

  /** Its first four bytes for the seed 0. */
  lemma FirstTaps()
    ensures Number(Tap(State(0, 1))) == 0x3c && Number(Tap(State(0, 2))) == 0x47
    ensures Number(Tap(State(0, 3))) == 0xd1 && Number(Tap(State(0, 4))) == 0xaa
  {
    hide Tap, Number;
    assert State(0, 0) == 0;
    OneTap(0, 0);
    assert State(0, 1) == 0x3c6ef35f;
    OneTap(0, 1);
    assert State(0, 2) == 0x47502932;
    OneTap(0, 2);
    assert State(0, 3) == 0xd1ccf6e9;
    OneTap(0, 3);
    assert State(0, 4) == 0xaaf95334;
    OneTap(0, 4);
  }

  function Masked(key: seq<Byte>, seed: int): (r: seq<Byte>)
    ensures |r| == |key|
  {
    if key == [] then []
    else Masked(key[..|key| - 1], seed) + [key[|key| - 1] ^ Tap(State(seed, |key|))]
  }

  /** Masking twice with one seed is the identity. */
  lemma {:induction false} MaskedTwice(key: seq<Byte>, seed: int)
    ensures Masked(Masked(key, seed), seed) == key
  {
    hide State, Tap;
    if key != [] {
      var init, mask := key[..|key| - 1], Tap(State(seed, |key|));
      MaskedTwice(init, seed);
      assert Masked(key, seed)[..|key| - 1] == Masked(init, seed);
      BytesCancel(key[|key| - 1], mask);
    }
  }

  // ---- gen_baked_key.py ----------------------------------------------------------------------------------

  function StreamTo(seed: int, n: nat): (r: seq<Byte>)
    ensures |r| == n
  {
    if n == 0 then [] else StreamTo(seed, n - 1) + [Tap(State(seed, n))]
  }

  /** lcg_stream: Python integers, reduced once a step. */
  method LcgStream(seed: int, n: nat) returns (out: seq<Byte>)
    ensures out == StreamTo(seed, n)
  {
    hide Tap;
    out := [];
    var state := seed % WORD_VALUES;
    for i := 0 to n
      invariant out == StreamTo(seed, i) && state == State(seed, i)
    {
      state := (state * LCG_A + LCG_C) % WORD_VALUES;
      out := out + [Tap(state)];
    }
  }

  lemma {:induction false} MaskedFromStream(key: seq<Byte>, seed: int, n: nat)
    requires n <= |key|
    ensures Masked(key[..n], seed) == Zipped(key, StreamTo(seed, |key|), n)
  {
    hide State, Tap;
    if n > 0 {
      MaskedFromStream(key, seed, n - 1);
      assert key[..n][..n - 1] == key[..n - 1];
      StreamAt(seed, |key|, n - 1);
    }
  }

  lemma {:induction false} StreamAt(seed: int, n: nat, i: nat)
    requires i < n
    ensures StreamTo(seed, n)[i] == Tap(State(seed, i + 1))
  {
    hide State, Tap;
    if i < n - 1 { StreamAt(seed, n - 1, i); }
  }

  function Zipped(key: seq<Byte>, mask: seq<Byte>, n: nat): (r: seq<Byte>)
    requires n <= |key| && |key| == |mask|
    ensures |r| == n
  {
    if n == 0 then [] else Zipped(key, mask, n - 1) + [key[n - 1] ^ mask[n - 1]]
  }

  /** The header that is emitted: the digits after `0x` are those of the seed. */
  datatype KeyHeader = KeyHeader(seed: int, obfuscated: seq<Byte>)

  /** emit_header, whose assertion fails on a key of another length. */
  method EmitHeader(key: seq<Byte>, seed: int) returns (h: Option<KeyHeader>)
    ensures h == if |key| == KEY_SIZE then Some(KeyHeader(seed, Masked(key, seed))) else None
  {
    hide State, Tap, StreamTo;
    if |key| != KEY_SIZE { return None; }
    var mask := LcgStream(seed, 32);
    var obf := [];
    for i := 0 to 32
      invariant obf == Zipped(key, mask, i)
    {
      obf := obf + [key[i] ^ mask[i]];
    }
    MaskedFromStream(key, seed, 32);
    assert key[..32] == key;
    h := Some(KeyHeader(seed, obf));
  }

  /** The two constants that the compiled header declares. */
  datatype KeyData = KeyData(seed: nat, obfuscated: seq<Byte>) {
    ghost predicate Valid() {
      seed < WORD_VALUES && |obfuscated| == KEY_SIZE
    }
  }

  /** The unsigned constants of C++: not negative, and at most 64 bits. */
  predicate IsConstant(seed: int) {
    0 <= seed < WORD_VALUES * WORD_VALUES
  }

  /** The compiler: the seed is stored in a uint32_t. */
  function Compiled(h: KeyHeader): Option<KeyData> {
    if IsConstant(h.seed) then Some(KeyData(h.seed % WORD_VALUES, h.obfuscated)) else None
  }

  // ---- baked_key_provider.cpp ----------------------------------------------------------------------------

  /** One step in 32-bit arithmetic: the product wraps, and then the sum does. */
  function WrappingStep(state: nat): nat {
    ((state * LCG_A) % WORD_VALUES + LCG_C) % WORD_VALUES
  }

  lemma WrappingStepAgrees(state: nat)
    ensures WrappingStep(state) == (state * LCG_A + LCG_C) % WORD_VALUES
  {
    var p := state * LCG_A;
    assert p == WORD_VALUES * (p / WORD_VALUES) + p % WORD_VALUES;
    Reduced(p % WORD_VALUES + LCG_C, p / WORD_VALUES);
  }

  lemma Reduced(x: nat, q: nat)
    ensures (x + WORD_VALUES * q) % WORD_VALUES == x % WORD_VALUES
  {
  }

  class BakedKeyProvider {
    const data: KeyData

    constructor (data: KeyData)
      ensures this.data == data
    {
      this.data := data;
    }

    /** The key for an id: this provider owns only id 0. */
    ghost function KeyFor(keyId: nat): (k: Option<seq<Byte>>)
      requires data.Valid()
      ensures k.Some? ==> |k.value| == KEY_SIZE
    {
      if keyId == 0 then Some(Masked(data.obfuscated, data.seed)) else None
    }

    /** GetKey. */
    method GetKey(keyId: nat, out: array<Byte>) returns (ok: bool)
      requires data.Valid() && out.Length == KEY_SIZE
      modifies out
      ensures ok <==> KeyFor(keyId).Some?
      ensures out[..] == if ok then KeyFor(keyId).value else old(out[..])
    {
      hide Tap, WrappingStep;
      if keyId != 0 { return false; }
      var state := data.seed;
      assert data.obfuscated[..0] == [];
      for i := 0 to KEY_SIZE
        invariant state == State(data.seed, i) && out[..i] == Masked(data.obfuscated[..i], data.seed)
      {
        WrappingStepAgrees(state);
        state := WrappingStep(state);
        ghost var before := out[..i];
        out[i] := data.obfuscated[i] ^ Tap(state);
        assert out[..i + 1] == before + [out[i]];
        assert data.obfuscated[..i + 1][..i] == data.obfuscated[..i];
      }
      assert out[..] == out[..KEY_SIZE] && data.obfuscated[..KEY_SIZE] == data.obfuscated;
      return true;
    }
  }

  lemma {:induction false} SeedReduced(key: seq<Byte>, seed: int)
    ensures Masked(key, seed % WORD_VALUES) == Masked(key, seed)
  {
    hide Tap, State;
    if key != [] {
      SeedReduced(key[..|key| - 1], seed);
      StateReduced(seed, |key|);
    }
  }

  lemma {:induction false} StateReduced(seed: int, n: nat)
    ensures State(seed % WORD_VALUES, n) == State(seed, n)
  {
    if n > 0 { StateReduced(seed, n - 1); }
  }

  /** A client can be built with a key exactly when the seed is a constant; asking its provider for id 0 then
      returns that key. */
  method BakeAndGet(key: seq<Byte>, seed: int) returns (provider: BakedKeyProvider?)
    requires |key| == KEY_SIZE
    ensures provider != null <==> IsConstant(seed)
    ensures provider != null ==>
              && fresh(provider) && provider.data.Valid()
              && provider.KeyFor(0) == Some(key) && forall id: nat | id != 0 :: provider.KeyFor(id) == None
  {
    hide Masked;
    var h := EmitHeader(key, seed);
    var data := Compiled(h.value);
    if data.None? {
      return null;
    }
    provider := new BakedKeyProvider(data.value);
    SeedReduced(Masked(key, seed), seed);
    MaskedTwice(key, seed);
  }
}
