/** Which payloads the daemon accepts: those that the base64 encoding of section 4 of RFC 4648 makes. */
module Base64 {
  import opened Daemon

  const UPPER: string := "ABCDEFGHIJKLMNOPQRSTUVWXYZ"
  const LOWER: string := "abcdefghijklmnopqrstuvwxyz"
  const ALPHABET: string := UPPER + LOWER + "0123456789+/"

  type Octet = n: nat | n < 256

  function Letter(n: nat): char
    requires n < 64
  {
    assert |ALPHABET| == 64;
    ALPHABET[n]
  }

  /** Three bytes are written as four letters; one or two that are left over are padded. */
  function Encoded(bytes: seq<Octet>): string {
    if bytes == [] then ""
    else if |bytes| == 1 then [Letter(bytes[0] / 4), Letter(bytes[0] % 4 * 16), '=', '=']
    else
      var front := [Letter(bytes[0] / 4), Letter(bytes[0] % 4 * 16 + bytes[1] / 16)];
      if |bytes| == 2 then front + [Letter(bytes[1] % 16 * 4), '=']
      else front + [Letter(bytes[1] % 16 * 4 + bytes[2] / 64), Letter(bytes[2] % 64)] + Encoded(bytes[3..])
  }

  lemma Capital(n: nat)
    requires n < 26
    ensures |UPPER| == 26 && UPPER[n] as nat == 'A' as nat + n
  {
  }

  lemma Small(n: nat)
    requires n < 26
    ensures |LOWER| == 26 && LOWER[n] as nat == 'a' as nat + n
  {
  }

  lemma Figure(n: nat)
    requires n < 10
    ensures "0123456789+/"[n] as nat == '0' as nat + n
  {
  }

  /** The digits are the letters of the alphabet, each with its place in it. */
  lemma DigitOfLetter(n: nat)
    requires n < 64
    ensures Digit(Letter(n)) == n && Letter(n) != '='
  {
    hide UPPER, LOWER;
    LetterParts(n);
    if n < 26 {
      Capital(n);
    } else if n < 52 {
      Small(n - 26);
    } else if n < 62 {
      Figure(n - 52);
    }
  }

  lemma LetterParts(n: nat)
    requires n < 64
    ensures |UPPER| == |LOWER| == 26
    ensures Letter(n) == if n < 26 then UPPER[n] else if n < 52 then LOWER[n - 26] else "0123456789+/"[n - 52]
  {
  }

  lemma LetterOfDigit(c: char)
    requires Digit(c) < 64
    ensures Letter(Digit(c)) == c
  {
    hide UPPER, LOWER;
    var n := Digit(c);
    LetterParts(n);
    if n < 26 {
      Capital(n);
    } else if n < 52 {
      Small(n - 26);
    } else if n < 62 {
      Figure(n - 52);
    }
  }

  // ---- groups of four letters ----------------------------------------------------------------------------

  predicate AllDigits(q: string) {
    forall c | c in q :: Digit(c) < 64
  }

  lemma FirstGroup(q: string, rest: string)
    requires |q| == 4 && |rest| >= 4
    ensures ValidBase64(q + rest) <==> AllDigits(q) && ValidBase64(rest)
  {
    hide Digit;
    var p := q + rest;
    assert Padding(p) == Padding(rest);
    assert p[..|p| - Padding(p)] == q + rest[..|rest| - Padding(rest)];
    assert p[|p| - 2] == rest[|rest| - 2] && p[|p| - 3] == rest[|rest| - 3];
  }

  lemma OneGroup(p: string)
    requires |p| == 4
    ensures ValidBase64(p) <==>
              && Digit(p[0]) < 64 && Digit(p[1]) < 64
              && if p[3] != '=' then Digit(p[2]) < 64 && Digit(p[3]) < 64
                 else if p[2] != '=' then Digit(p[2]) < 64 && Digit(p[2]) % 4 == 0
                 else Digit(p[1]) % 16 == 0
  {
    hide Digit;
    assert p[..4] == [p[0], p[1], p[2], p[3]] && p[..3] == [p[0], p[1], p[2]] && p[..2] == [p[0], p[1]];
  }

  // ---- both directions -----------------------------------------------------------------------------------

  lemma {:induction false} EncodedIsValid(bytes: seq<Octet>)
    ensures ValidBase64(Encoded(bytes)) && (bytes != [] ==> |Encoded(bytes)| >= 4)
    decreases |bytes|
  {
    hide Digit, ValidBase64, Letter;
    if bytes == [] {
      NothingIsValid();
    } else if |bytes| <= 3 {
      SmallIsValid(bytes);
    } else {
      var b0, b1, b2 := bytes[0], bytes[1], bytes[2];
      var q := [Letter(b0 / 4), Letter(b0 % 4 * 16 + b1 / 16), Letter(b1 % 16 * 4 + b2 / 64), Letter(b2 % 64)];
      EncodedIsValid(bytes[3..]);
      assert Encoded(bytes) == q + Encoded(bytes[3..]);
      GroupIsDigits(b0, b1, b2);
      FirstGroup(q, Encoded(bytes[3..]));
    }
  }

  lemma NothingIsValid()
    ensures ValidBase64("")
  {
  }

  lemma GroupIsDigits(b0: Octet, b1: Octet, b2: Octet)
    ensures AllDigits([Letter(b0 / 4), Letter(b0 % 4 * 16 + b1 / 16), Letter(b1 % 16 * 4 + b2 / 64), Letter(b2 % 64)])
  {
    hide Digit, Letter;
    DigitOfLetter(b0 / 4);
    DigitOfLetter(b0 % 4 * 16 + b1 / 16);
    DigitOfLetter(b1 % 16 * 4 + b2 / 64);
    DigitOfLetter(b2 % 64);
  }

  lemma SmallIsValid(bytes: seq<Octet>)
    requires 1 <= |bytes| <= 3
    ensures ValidBase64(Encoded(bytes)) && |Encoded(bytes)| == 4
  {
    hide Digit, Letter, ValidBase64;
    var b0 := bytes[0];
    var b1 := if |bytes| > 1 then bytes[1] else 0;
    DigitOfLetter(b0 / 4);
    DigitOfLetter(b0 % 4 * 16 + b1 / 16);
    if |bytes| == 2 {
      DigitOfLetter(b1 % 16 * 4);
    } else if |bytes| == 3 {
      DigitOfLetter(b1 % 16 * 4 + bytes[2] / 64);
      DigitOfLetter(bytes[2] % 64);
      assert bytes[3..] == [] && Encoded(bytes[3..]) == "";
    }
    OneGroup(Encoded(bytes));
  }

  /** The bytes that a valid payload stands for. */
  lemma {:induction false} ValidIsEncoded(p: string) returns (bytes: seq<Octet>)
    requires ValidBase64(p)
    ensures Encoded(bytes) == p
    decreases |p|
  {
    hide Digit, Letter;
    if p == "" {
      bytes := [];
    } else if |p| == 4 {
      bytes := GroupIsEncoded(p);
    } else {
      assert p == p[..4] + p[4..];
      FirstGroup(p[..4], p[4..]);
      var more := ValidIsEncoded(p[4..]);
      var front := DigitsAreEncoded(p[..4]);
      bytes := front + more;
      assert bytes[3..] == more && front[3..] == [];
    }
  }

  lemma GroupIsEncoded(p: string) returns (bytes: seq<Octet>)
    requires |p| == 4 && ValidBase64(p)
    ensures Encoded(bytes) == p
  {
    hide Digit, Letter, ValidBase64, Encoded;
    OneGroup(p);
    if p[3] != '=' {
      assert AllDigits(p);
      bytes := DigitsAreEncoded(p);
    } else {
      bytes := PaddedIsEncoded(p);
    }
  }

  lemma PaddedIsEncoded(p: string) returns (bytes: seq<Octet>)
    requires |p| == 4 && Digit(p[0]) < 64 && Digit(p[1]) < 64 && p[3] == '='
    requires if p[2] != '=' then Digit(p[2]) < 64 && Digit(p[2]) % 4 == 0 else Digit(p[1]) % 16 == 0
    ensures Encoded(bytes) == p
  {
    hide Digit, Letter;
    var d0, d1 := Digit(p[0]), Digit(p[1]);
    LetterOfDigit(p[0]);
    LetterOfDigit(p[1]);
    if p[2] == '=' {
      Regrouped(d0, d1, 0, 0);
      bytes := [d0 * 4 + d1 / 16];
    } else {
      var d2 := Digit(p[2]);
      LetterOfDigit(p[2]);
      Regrouped(d0, d1, d2, 0);
      bytes := [d0 * 4 + d1 / 16, d1 % 16 * 16 + d2 / 4];
    }
  }

  /** Four digits of six bits are three bytes. */
  lemma Regrouped(d0: nat, d1: nat, d2: nat, d3: nat)
    requires d0 < 64 && d1 < 64 && d2 < 64 && d3 < 64
    ensures var b0, b1, b2 := d0 * 4 + d1 / 16, d1 % 16 * 16 + d2 / 4, d2 % 4 * 64 + d3;
            && b0 < 256 && b1 < 256 && b2 < 256
            && b0 / 4 == d0 && b0 % 4 == d1 / 16 && b1 / 16 == d1 % 16
            && b1 % 16 == d2 / 4 && b2 / 64 == d2 % 4 && b2 % 64 == d3
            && d1 / 16 * 16 + d1 % 16 == d1 && d2 / 4 * 4 + d2 % 4 == d2
  {
  }

  lemma DigitsAreEncoded(p: string) returns (bytes: seq<Octet>)
    requires |p| == 4 && AllDigits(p)
    ensures |bytes| == 3 && Encoded(bytes) == p
  {
    hide Digit, Letter, Encoded;
    var d0, d1, d2, d3 := Digit(p[0]), Digit(p[1]), Digit(p[2]), Digit(p[3]);
    Regrouped(d0, d1, d2, d3);
    bytes := [d0 * 4 + d1 / 16, d1 % 16 * 16 + d2 / 4, d2 % 4 * 64 + d3];
    ThreeEncoded(bytes[0], bytes[1], bytes[2]);
    LetterOfDigit(p[0]);
    LetterOfDigit(p[1]);
    LetterOfDigit(p[2]);
    LetterOfDigit(p[3]);
    assert p == [p[0], p[1], p[2], p[3]];
  }

  lemma ThreeEncoded(b0: Octet, b1: Octet, b2: Octet)
    ensures Encoded([b0, b1, b2])
         == [Letter(b0 / 4), Letter(b0 % 4 * 16 + b1 / 16), Letter(b1 % 16 * 4 + b2 / 64), Letter(b2 % 64)]
  {
    hide Letter;
    assert [b0, b1, b2][3..] == [];
  }

  /** The daemon accepts a payload exactly when it is the encoding of some bytes. */
  lemma ValidExactly(p: string)
    ensures ValidBase64(p) <==> exists bytes :: Encoded(bytes) == p
  {
    hide ValidBase64, Encoded;
    if ValidBase64(p) {
      var bytes := ValidIsEncoded(p);
    }
    if bytes :| Encoded(bytes) == p {
      EncodedIsValid(bytes);
    }
  }
}
