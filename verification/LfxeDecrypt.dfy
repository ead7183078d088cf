/** TryDecryptAsset of lfxe_decrypt.cpp, and the way from the packer to the client. */
module LfxeDecrypt {
  import opened Wrappers
  import opened Words
  import opened ChaCha20
  import opened LfxeFormat
  import opened BakedKey
  import Loop = ChaCha20Xor

  datatype DecryptResult = NotEncrypted | BadHeader | NoKey | Ok

  /** Which of the four results a file gets. */
  ghost function Verdict(buf: seq<Byte>, keys: BakedKeyProvider): DecryptResult
    requires keys.data.Valid()
  {
    if !HasMagic(buf) then NotEncrypted
    else if !GoodHeader(buf) then BadHeader
    else if keys.KeyFor(KeyId(buf)).None? then NoKey
    else Ok
  }

  ghost function PlainOf(buf: seq<Byte>, keys: BakedKeyProvider): (p: seq<Byte>)
    requires keys.data.Valid() && Verdict(buf, keys) == Ok
    ensures |p| == |buf| - HEADER_SIZE
  {
    Payload(keys.KeyFor(KeyId(buf)).value, Nonce(buf), buf[HEADER_SIZE..])
  }

  /** A std::vector of bytes. */
  class ByteVector {
    var data: array<Byte>

    constructor ()
      ensures fresh(data) && data.Length == 0
    {
      data := new Byte[0];
    }

    method Resize(n: nat)
      modifies this
      ensures data.Length == n && fresh(data)
      ensures forall i | 0 <= i < n :: data[i] == if i < old(data.Length) then old(data[..])[i] else 0
    {
      var bigger := new Byte[n];
      for i := 0 to n
        invariant data == old(data) && data[..] == old(data[..])
        invariant forall j | 0 <= j < i :: bigger[j] == if j < data.Length then data[j] else 0
      {
        bigger[i] := if i < data.Length then data[i] else 0;
      }
      data := bigger;
    }
  }

  method TryDecryptAsset(input: array<Byte>, keys: BakedKeyProvider, outPlain: ByteVector) returns (r: DecryptResult)
    requires keys.data.Valid()
    modifies outPlain
    ensures r == Verdict(input[..], keys)
    ensures r == Ok ==> fresh(outPlain.data) && outPlain.data[..] == PlainOf(input[..], keys)
    ensures r != Ok ==> outPlain.data == old(outPlain.data)
  {
    hide Number, KeyId, Loop.InOrder, Loop.Run, Cipher.XoredFrom, BakedKeyProvider.KeyFor;
    ghost var buf := input[..];
    if !HasMagic(input[..]) { return NotEncrypted; }
    var h := new Header();
    var parsed := ParseHeader(input[..], h);
    if !parsed { return BadHeader; }
    var key := new Byte[KEY_SIZE];
    var found := keys.GetKey(h.keyId, key);
    if !found { return NoKey; }
    var plainLen := input.Length - HEADER_SIZE;
    outPlain.Resize(plainLen);
    if plainLen != 0 {
      var c := Cipher(key[..], h.nonce, PAYLOAD_COUNTER);
      Decrypt(c, input, outPlain.data);
    } else {
      assert outPlain.data[..] == [];
    }
    return Ok;
  }

  /** The payload of `input`, decrypted into a buffer of its own. */
  method Decrypt(c: Cipher, input: array<Byte>, output: array<Byte>)
    requires c.Valid() && input != output && input.Length >= HEADER_SIZE && output.Length == input.Length - HEADER_SIZE
    modifies output
    ensures output[..] == c.Xored(input[HEADER_SIZE..])
  {
    hide Loop.Run, Cipher.Xored;
    ghost var payload := input[HEADER_SIZE..];
    Loop.XorStream(c, input, HEADER_SIZE, output, 0, output.Length);
    assert input[..][HEADER_SIZE..HEADER_SIZE + output.Length] == payload;
  }

  /** The four results partition all byte strings. */
  lemma VerdictExactly(buf: seq<Byte>, keys: BakedKeyProvider)
    requires keys.data.Valid()
    ensures Verdict(buf, keys) == NotEncrypted <==> |buf| < 4 || buf[..4] != MAGIC
    ensures Verdict(buf, keys) == BadHeader
       <==> |buf| >= 4 && buf[..4] == MAGIC && (|buf| < HEADER_SIZE || buf[4] != 1 || buf[5] != 1)
    ensures Verdict(buf, keys) == NoKey <==> GoodHeader(buf) && (buf[6] != 0 || buf[7] != 0)
    ensures Verdict(buf, keys) == Ok <==> GoodHeader(buf) && buf[6] == 0 && buf[7] == 0
  {
    hide Number;
    if GoodHeader(buf) {
      ZeroExactly(buf[6]);
      ZeroExactly(buf[7]);
    }
  }

  lemma ZeroExactly(b: Byte)
    ensures Number(b) == 0 <==> b == 0
  {
  }

  /** Opening a container: with the key it was packed under, its plaintext; without it, no key. */
  lemma ContainerOpens(plain: seq<Byte>, key: seq<Byte>, keyId: nat, nonce: seq<Byte>, keys: BakedKeyProvider)
    requires keys.data.Valid() && Packable(key, keyId, nonce)
    ensures var c := Container(plain, key, keyId, nonce);
            && (keys.KeyFor(keyId) == Some(key) ==> Verdict(c, keys) == Ok && PlainOf(c, keys) == plain)
            && (keys.KeyFor(keyId) == None ==> Verdict(c, keys) == NoKey)
  {
    hide Container, Payload, BakedKeyProvider.KeyFor, KeyId, Nonce;
    HeaderReadsBack(plain, key, keyId, nonce);
    PayloadTwice(key, nonce, plain);
  }

  /** From the packer to the client: whatever the key, the seed, the nonce and the plaintext, a client built
      with the key recovers the plaintext of a container packed under key id 0. */
  method PackToClient(plain: seq<Byte>, key: seq<Byte>, seed: int, nonce: seq<Byte>)
    returns (built: bool, r: DecryptResult, recovered: seq<Byte>)
    requires |key| == KEY_SIZE && |nonce| == NONCE_SIZE
    ensures built <==> IsConstant(seed)
    ensures built ==> r == Ok && recovered == plain
  {
    hide Container, PlainOf, Verdict, BakedKeyProvider.KeyFor;
    var keys := BakeAndGet(key, seed);
    if keys == null {
      return false, NoKey, [];
    }
    var packed := Pack(plain, key, 0, nonce);
    ContainerOpens(plain, key, 0, nonce, keys);
    var input := new Byte[|packed.value|];
    for i := 0 to |packed.value|
      invariant input[..i] == packed.value[..i]
    {
      input[i] := packed.value[i];
    }
    assert input[..] == packed.value;
    var out := new ByteVector();
    r := TryDecryptAsset(input, keys, out);
    built, recovered := true, out.data[..];
  }
}
