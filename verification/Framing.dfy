/** The wire format of the daemon: a 32-bit little-endian length and then the body. */
module Framing {
  import opened Wrappers
  import opened Words

  /** A body whose length fits the 32-bit prefix. */
  type Body = b: seq<Byte> | |b| < WORD_VALUES

  const MAX_FRAME_BYTES: nat := 64 * 1024

  predicate Fits(b: Body) {
    1 <= |b| <= MAX_FRAME_BYTES
  }

  function Encoded(b: Body): (r: seq<Byte>)
    ensures |r| == 4 + |b|
  {
    NumberToLe(|b|) + b
  }

  /** The stream of several frames. */
  function EncodedAll(bodies: seq<Body>): seq<Byte>
  {
    if bodies == [] then [] else
      Encoded(bodies[0]) + EncodedAll(bodies[1..])
  }

  /** A socket: what is still to be read, and what has been written. */
  class Socket {
    var input: seq<Byte>
    var output: seq<Byte>

    constructor (input: seq<Byte>)
      ensures this.input == input && output == []
    {
      this.input, output := input, [];
    }

    /** read_exact: fails when the stream ends first. */
    method ReadExact(n: nat) returns (r: Option<seq<Byte>>)
      modifies this`input
      ensures n <= |old(input)| ==> r == Some(old(input)[..n]) && input == old(input)[n..]
      ensures n > |old(input)| ==> r == None && input == []
    {
      if n > |input| {
        input := [];
        return None;
      }
      r := Some(input[..n]);
      input := input[n..];
    }

    /** read_frame: `None` is any of its errors. */
    method ReadFrame() returns (r: Option<Body>)
      modifies this`input
      ensures r == Decoded(old(input))
      ensures r.Some? ==> input == old(input)[4 + |r.value|..]
    {
      hide NumberLe;
      ghost var was := input;
      var len := ReadExact(4);
      if len.None? { return None; }
      var n := NumberLe(len.value);
      if n == 0 { return None; }
      if n > MAX_FRAME_BYTES { return None; }
      r := ReadExact(n);
      assert n <= |was| - 4 ==> was[4..][..n] == was[4..4 + n];
    }

    /** write_frame_json, given the serialised frame: it fails only on a body whose length does not fit 32 bits,
        and does not mind one that no reader accepts. */
    method WriteFrame(body: seq<Byte>) returns (ok: bool)
      modifies this`output
      ensures ok <==> |body| < WORD_VALUES
      ensures output == if ok then old(output) + Encoded(body) else old(output)
    {
      if |body| >= WORD_VALUES { return false; }
      output := output + NumberToLe(|body|);
      output := output + body;
      return true;
    }
  }

  /** What read_frame makes of a stream. */
  function Decoded(s: seq<Byte>): Option<Body> {
    if |s| < 4 then None else
      var n := NumberLe(s[..4]);
      if n == 0 || n > MAX_FRAME_BYTES || 4 + n > |s| then None else Some(s[4..4 + n])
  }

  /** All frames of a stream, until the first error. */
  function DecodedAll(s: seq<Byte>): seq<Body>
    decreases |s|
  {
    match Decoded(s)
    case None => []
    case Some(b) => [b] + DecodedAll(s[4 + |b|..])
  }

  /** A frame is the length of its body, lowest byte first, and the body. */
  lemma PrefixIsLittleEndian(b: Body)
    ensures var f := Encoded(b);
            && |b| == Number(f[0]) + 0x100 * Number(f[1]) + 0x1_0000 * Number(f[2]) + 0x100_0000 * Number(f[3])
            && f[4..] == b
  {
    hide NumberToLe, Number;
    NumberReadsBack(|b|);
    assert Encoded(b)[..4] == NumberToLe(|b|);
  }

  /** A frame reads back whatever follows it, exactly when its body has 1 to 65536 bytes. */
  lemma FrameReadsBack(b: Body, rest: seq<Byte>)
    ensures Decoded(Encoded(b) + rest) == (if Fits(b) then Some(b) else None) && (Fits(b) <==> 1 <= |b| <= 65536)
    ensures (Encoded(b) + rest)[4 + |b|..] == rest
  {
    hide NumberLe, NumberToLe;
    NumberReadsBack(|b|);
    var s := Encoded(b) + rest;
    assert s[..4] == NumberToLe(|b|);
    assert s[4..4 + |b|] == b;
  }

  /** Reading back any concatenation of frames recovers exactly the bodies, when each has 1 to 65536 bytes. */
  lemma {:induction false} FramesReadBack(bodies: seq<Body>)
    requires forall b | b in bodies :: Fits(b)
    ensures DecodedAll(EncodedAll(bodies)) == bodies
  {
    hide Encoded, Decoded;
    if bodies == [] {
      assert Decoded([]) == None by { NothingDecoded(); }
    } else {
      assert bodies[0] in bodies;
      FramesReadBack(bodies[1..]);
      FrameReadsBack(bodies[0], EncodedAll(bodies[1..]));
    }
  }

  lemma NothingDecoded()
    ensures Decoded([]) == None
  {
  }

  /** Frames that do not fit end the reading where they stand. */
  lemma {:induction false} ReadingStopsAtMisfit(bodies: seq<Body>, misfit: Body, rest: seq<Byte>)
    requires (forall b | b in bodies :: Fits(b)) && !Fits(misfit)
    ensures DecodedAll(EncodedAll(bodies) + (Encoded(misfit) + rest)) == bodies
  {
    hide Encoded, Decoded, DecodedAll, Fits;
    var tail := Encoded(misfit) + rest;
    if bodies == [] {
      assert EncodedAll(bodies) + tail == tail;
      MisfitStops(misfit, rest);
    } else {
      var more := EncodedAll(bodies[1..]) + tail;
      assert bodies[0] in bodies;
      ReadingStopsAtMisfit(bodies[1..], misfit, rest);
      FrameThenRest(bodies[0], more);
      assert EncodedAll(bodies) + tail == Encoded(bodies[0]) + more;
    }
  }

  lemma MisfitStops(misfit: Body, rest: seq<Byte>)
    requires !Fits(misfit)
    ensures DecodedAll(Encoded(misfit) + rest) == []
  {
    hide Encoded, Decoded;
    FrameReadsBack(misfit, rest);
  }

  lemma FrameThenRest(b: Body, rest: seq<Byte>)
    requires Fits(b)
    ensures DecodedAll(Encoded(b) + rest) == [b] + DecodedAll(rest)
  {
    hide Encoded, Decoded;
    FrameReadsBack(b, rest);
  }

  /** The writer's loop over the frames of a queue, and the reader's over a socket that holds what was written. */
  method WriteAll(sock: Socket, bodies: seq<Body>)
    modifies sock
    ensures sock.output == old(sock.output) + EncodedAll(bodies) && sock.input == old(sock.input)
  {
    hide Encoded;
    assert bodies[0..] == bodies;
    for i := 0 to |bodies|
      invariant sock.output + EncodedAll(bodies[i..]) == old(sock.output) + EncodedAll(bodies)
      invariant sock.input == old(sock.input)
    {
      assert bodies[i] in bodies && bodies[i..][0] == bodies[i] && bodies[i..][1..] == bodies[i + 1..];
      var ok := sock.WriteFrame(bodies[i]);
    }
  }

  method ReadAll(sock: Socket) returns (bodies: seq<Body>)
    modifies sock
    ensures bodies == DecodedAll(old(sock.input))
  {
    hide Decoded;
    bodies := [];
    var going := true;
    while going
      invariant bodies + (if going then DecodedAll(sock.input) else []) == DecodedAll(old(sock.input))
      decreases going, |sock.input|
    {
      ghost var was := sock.input;
      var r := sock.ReadFrame();
      if r.None? { going := false; } else { bodies := bodies + [r.value]; DecodedFits(was); }
    }
  }

  lemma DecodedFits(s: seq<Byte>)
    requires Decoded(s).Some?
    ensures Fits(Decoded(s).value) && 4 + |Decoded(s).value| <= |s|
  {
  }

  /** What one side writes, the other reads. */
  method WriteThenRead(bodies: seq<Body>) returns (received: seq<Body>)
    requires forall b | b in bodies :: Fits(b)
    ensures received == bodies
  {
    hide EncodedAll, DecodedAll;
    var a := new Socket([]);
    WriteAll(a, bodies);
    FramesReadBack(bodies);
    assert [] + EncodedAll(bodies) == EncodedAll(bodies);
    var b := new Socket(a.output);
    received := ReadAll(b);
  }
}
