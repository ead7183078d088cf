/** The LFXE container: the 24-byte header of lfxe_format.h, and pack and unpack of scripts/dts_lib.py. */
module LfxeFormat {
  import opened Wrappers
  import opened Words
  import opened ChaCha20
  import DtsLib

  const MAGIC: seq<Byte> := [0x4c, 0x46, 0x58, 0x45] // "LFXE"
  const FORMAT_V1: Byte := 1
  const CIPHER_CHACHA20: Byte := 1
  const HEADER_SIZE: nat := 24
  const PAYLOAD_COUNTER: Word := 1

  // ---- reading -----------------------------------------------------------------------------------------

  predicate HasMagic(buf: seq<Byte>) {
    |buf| >= 4 && buf[..4] == MAGIC
  }

  /** A header that both readers accept. */
  predicate GoodHeader(buf: seq<Byte>) {
    |buf| >= HEADER_SIZE && HasMagic(buf) && buf[4] == FORMAT_V1 && buf[5] == CIPHER_CHACHA20
  }

  /** The little-endian key id. Its two bytes do not overlap, so joining them is adding them. */
  function KeyId(buf: seq<Byte>): (id: nat)
    requires |buf| >= 8
    ensures id < 0x1_0000
  {
    Number(buf[6]) + 0x100 * Number(buf[7])
  }

  function Nonce(buf: seq<Byte>): (n: seq<Byte>)
    requires |buf| >= HEADER_SIZE
    ensures |n| == NONCE_SIZE
  {
    buf[8..20]
  }

  class Header {
    var magic: seq<Byte>
    var format: Byte
    var cipher: Byte
    var keyId: nat
    var nonce: seq<Byte>
    var reserved: Word

    constructor ()
    {
      magic, format, cipher, keyId, nonce, reserved := [], 0, 0, 0, [], 0;
    }
  }

  /** ParseHeader. The header is filled before the format and the cipher are judged, so a header that is
      refused for those is filled as well. */
  method ParseHeader(buf: seq<Byte>, out: Header) returns (ok: bool)
    modifies out
    ensures ok <==> GoodHeader(buf)
    ensures |buf| >= HEADER_SIZE && HasMagic(buf) ==>
              && out.magic == MAGIC && out.format == buf[4] && out.cipher == buf[5] && out.keyId == KeyId(buf)
              && out.nonce == Nonce(buf) && out.reserved == 0
    ensures !(|buf| >= HEADER_SIZE && HasMagic(buf)) ==> unchanged(out)
  {
    hide Number;
    if |buf| < HEADER_SIZE { return false; }
    if buf[..4] != MAGIC { return false; }
    out.format := buf[4];
    out.cipher := buf[5];
    out.keyId := Number(buf[6]) + 0x100 * Number(buf[7]);
    out.nonce := buf[8..8 + NONCE_SIZE];
    out.reserved := 0;
    out.magic := buf[..4];
    if out.format != FORMAT_V1 { return false; }
    if out.cipher != CIPHER_CHACHA20 { return false; }
    return true;
  }

  // ---- the packer --------------------------------------------------------------------------------------

  /** struct.pack of an unsigned 16-bit value, low byte first. */
  function ShortLe(id: nat): (p: seq<Byte>)
    requires id < 0x1_0000
    ensures |p| == 2
  {
    [ToByte(id % 0x100), ToByte(id / 0x100)]
  }

  function HeaderOf(keyId: nat, nonce: seq<Byte>): (h: seq<Byte>)
    requires keyId < 0x1_0000 && |nonce| == NONCE_SIZE
    ensures |h| == HEADER_SIZE
  {
    MAGIC + [FORMAT_V1, CIPHER_CHACHA20] + ShortLe(keyId) + nonce + [0, 0, 0, 0]
  }

  /** The payload of a container, in either direction. */
  function Payload(key: seq<Byte>, nonce: seq<Byte>, data: seq<Byte>): (r: seq<Byte>)
    requires |key| == KEY_SIZE && |nonce| == NONCE_SIZE
    ensures |r| == |data|
  {
    Cipher(key, nonce, PAYLOAD_COUNTER).Xored(data)
  }

  function Container(plain: seq<Byte>, key: seq<Byte>, keyId: nat, nonce: seq<Byte>): (c: seq<Byte>)
    requires |key| == KEY_SIZE && keyId < 0x1_0000 && |nonce| == NONCE_SIZE
    ensures |c| == HEADER_SIZE + |plain|
  {
    HeaderOf(keyId, nonce) + Payload(key, nonce, plain)
  }

  predicate Packable(key: seq<Byte>, keyId: int, nonce: seq<Byte>) {
    |key| == KEY_SIZE && 0 <= keyId < 0x1_0000 && |nonce| == NONCE_SIZE
  }

  /** pack, with the nonce as a parameter. It raises on a nonce or key of the wrong length and on a key id that
      does not fit two bytes; `None` stands for raising. */
  method Pack(plain: seq<Byte>, key: seq<Byte>, keyId: int, nonce: seq<Byte>) returns (r: Option<seq<Byte>>)
    ensures r == if Packable(key, keyId, nonce) then Some(Container(plain, key, keyId, nonce)) else None
  {
    hide ShortLe, Cipher.Xored;
    if |nonce| != NONCE_SIZE { return None; }
    if !(0 <= keyId < 0x1_0000) { return None; }
    var header := MAGIC + ([FORMAT_V1, CIPHER_CHACHA20] + ShortLe(keyId));
    header := header + (nonce + StoreLe32(0));
    assert header == HeaderOf(keyId, nonce) by { ZeroWord(); }
    PayloadCounterIsOne();
    var ct := DtsLib.ChaCha20Xor(key, nonce, 1, plain);
    if ct.None? { return None; }
    r := Some(header + ct.value);
  }

  lemma ZeroWord()
    ensures StoreLe32(0) == [0, 0, 0, 0]
  {
  }

  lemma PayloadCounterIsOne()
    ensures MaskedWord(1) == PAYLOAD_COUNTER
  {
  }

  /** unpack; `None` stands for the ValueError, and for the assertion on the key's length. */
  method Unpack(container: seq<Byte>, key: seq<Byte>) returns (r: Option<seq<Byte>>)
    ensures r == if GoodHeader(container) && |key| == KEY_SIZE
                 then Some(Payload(key, Nonce(container), container[HEADER_SIZE..])) else None
  {
    hide Cipher.Xored;
    if |container| < HEADER_SIZE || container[..4] != MAGIC { return None; }
    if container[4] != FORMAT_V1 { return None; }
    if container[5] != CIPHER_CHACHA20 { return None; }
    PayloadCounterIsOne();
    r := DtsLib.ChaCha20Xor(key, container[8..20], 1, container[HEADER_SIZE..]);
  }

  // ---- what packing achieves ---------------------------------------------------------------------------

  /** A container has a good header, with the key id and the nonce it was packed with. */
  lemma HeaderReadsBack(plain: seq<Byte>, key: seq<Byte>, keyId: nat, nonce: seq<Byte>)
    requires Packable(key, keyId, nonce)
    ensures var c := Container(plain, key, keyId, nonce);
            GoodHeader(c) && KeyId(c) == keyId && Nonce(c) == nonce
            && c[HEADER_SIZE..] == Payload(key, nonce, plain)
  {
    hide Payload, Number, ToByte;
    var c := Container(plain, key, keyId, nonce);
    assert c[..4] == MAGIC;
    assert c[6] == ToByte(keyId % 0x100) && c[7] == ToByte(keyId / 0x100);
    assert c[8..20] == nonce;
  }

  /** Where everything stands in a container, byte by byte. */
  lemma ContainerLayout(plain: seq<Byte>, key: seq<Byte>, keyId: nat, nonce: seq<Byte>)
    requires |key| == 32 && keyId < 65536 && |nonce| == 12
    ensures var c := Container(plain, key, keyId, nonce);
            && |c| == 24 + |plain|
            && c[..6] == [0x4c, 0x46, 0x58, 0x45, 1, 1]
            && Number(c[6]) == keyId % 256 && Number(c[7]) == keyId / 256
            && c[8..20] == nonce && c[20..24] == [0, 0, 0, 0]
            && c[24..] == Cipher(key, nonce, 1).Xored(plain)
  {
    hide Number, ToByte, Cipher.Xored;
    var c := Container(plain, key, keyId, nonce);
    assert c[6] == ToByte(keyId % 0x100) && c[7] == ToByte(keyId / 0x100);
    assert c[8..20] == nonce && c[..6] == MAGIC + [FORMAT_V1, CIPHER_CHACHA20];
  }

  /** And what both readers look at: a good header is the magic and two version bytes at the front of 24 bytes. */
  lemma HeaderLayout(buf: seq<Byte>)
    ensures GoodHeader(buf) <==> |buf| >= 24 && buf[..6] == [0x4c, 0x46, 0x58, 0x45, 1, 1]
    ensures |buf| >= 24 ==> KeyId(buf) == Number(buf[6]) + 256 * Number(buf[7]) && Nonce(buf) == buf[8..20]
  {
    hide Number;
    if |buf| >= 24 {
      assert buf[..6] == buf[..4] + [buf[4], buf[5]];
      if buf[..6] == [0x4c, 0x46, 0x58, 0x45, 1, 1] {
        assert buf[..6][..4] == buf[..4] && buf[..6][4] == buf[4] && buf[..6][5] == buf[5];
      }
    }
  }

  /** The payload operation undoes itself. */
  lemma PayloadTwice(key: seq<Byte>, nonce: seq<Byte>, data: seq<Byte>)
    requires |key| == KEY_SIZE && |nonce| == NONCE_SIZE
    ensures Payload(key, nonce, Payload(key, nonce, data)) == data
  {
    XorTwice(Cipher(key, nonce, PAYLOAD_COUNTER), data, 0);
  }

  /** unpack undoes pack, for every key id. */
  method PackThenUnpack(plain: seq<Byte>, key: seq<Byte>, keyId: int, nonce: seq<Byte>) returns (r: Option<seq<Byte>>)
    requires Packable(key, keyId, nonce)
    ensures r == Some(plain)
  {
    hide Payload, Container, GoodHeader;
    HeaderReadsBack(plain, key, keyId, nonce);
    PayloadTwice(key, nonce, plain);
    var c := Pack(plain, key, keyId, nonce);
    r := Unpack(c.value, key);
  }
}
