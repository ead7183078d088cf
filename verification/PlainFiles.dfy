/** What a program sees of file streams: plain files. The engine's own methods behave like this on the raw
    bytes; the hooks of hook_filestream.cpp must make an encrypted file behave like this on its plaintext. */
module PlainFiles {
  import opened Wrappers
  import opened Words
  import opened LfxeFormat
  import opened BakedKey
  import opened LfxeDecrypt

  type Handle = nat

  const STATUS_OK: nat := 0
  const STATUS_IO_ERROR: nat := 1
  const STATUS_EOS: nat := 2

  const ACCESS_READ: nat := 0

  /** A stream: its bytes, its position, its status field, and how many of its bytes the device can deliver. A
      read that needs a byte beyond those fails and moves nothing. */
  datatype Raw = Raw(data: seq<Byte>, pos: nat, status: nat, good: nat) {
    function Available(): nat {
      if pos <= |data| then |data| - pos else 0
    }

    predicate Fails(n: nat) {
      n > 0 && Available() > 0 && pos + (if n <= Available() then n else Available()) > good
    }

    /** How many of `n` bytes a read delivers. */
    function Taken(n: nat): (k: nat)
      ensures k <= n && pos + k <= if pos <= |data| then |data| else pos
    {
      if Fails(n) then 0 else if n <= Available() then n else Available()
    }

    function Bytes(n: nat): (b: seq<Byte>)
      ensures |b| == Taken(n)
    {
      if Taken(n) == 0 then [] else data[pos..pos + Taken(n)]
    }

    predicate ReadOk(n: nat) {
      !Fails(n) && Taken(n) == n
    }

    function AfterRead(n: nat): Raw {
      if Fails(n) then this.(status := STATUS_IO_ERROR)
      else this.(pos := pos + Taken(n), status := if Taken(n) == n then STATUS_OK else STATUS_EOS)
    }

    function AfterSeek(p: nat): Raw {
      if p > |data| then this else this.(pos := p)
    }
  }

  /** A stream object that has no file. */
  const CLOSED: Raw := Raw([], 0, STATUS_OK, 0)

  /** What opening finds: no file, or its bytes and how many of them can be read. */
  datatype Disk = Missing | File(data: seq<Byte>, good: nat)

  /** The stream that a program should see after opening. A container whose key is known is its plaintext, at
      position 0. Anything else is the raw file at position 0; only a read error met while looking at it shows in
      the status. */
  ghost function Opened(disk: Disk, mode: nat, keys: BakedKeyProvider): Raw
    requires keys.data.Valid()
  {
    if disk.Missing? then CLOSED
    else if mode != ACCESS_READ || |disk.data| < HEADER_SIZE then Raw(disk.data, 0, STATUS_OK, disk.good)
    else if disk.good < 4 then Raw(disk.data, 0, STATUS_IO_ERROR, disk.good)
    else if !HasMagic(disk.data) then Raw(disk.data, 0, STATUS_OK, disk.good)
    else if disk.good < |disk.data| then Raw(disk.data, 0, STATUS_IO_ERROR, disk.good)
    else if Verdict(disk.data, keys) == Ok then Decrypted(PlainOf(disk.data, keys), 0, STATUS_OK)
    else Raw(disk.data, 0, STATUS_OK, disk.good)
  }

  /** A stream served from memory. */
  function Decrypted(plain: seq<Byte>, pos: nat, status: nat): Raw {
    Raw(plain, pos, status, |plain|)
  }

  /** In one line: a readable container whose key is known is its plaintext, and everything else is itself. */
  lemma OpenedExactly(disk: Disk, keys: BakedKeyProvider)
    requires keys.data.Valid() && disk.File?
    ensures var r := Opened(disk, ACCESS_READ, keys);
            && r.pos == 0
            && (if Verdict(disk.data, keys) == Ok && disk.good >= |disk.data|
                then r == Decrypted(PlainOf(disk.data, keys), 0, STATUS_OK)
                else r.data == disk.data && r.good == disk.good)
            && (disk.good >= |disk.data| ==> r.status == STATUS_OK)
  {
    hide PlainOf;
  }

  /** So a packed file, opened for reading by a client that holds the key, is the plain file that was packed. */
  lemma PackedFileIsPlain(plain: seq<Byte>, key: seq<Byte>, nonce: seq<Byte>, good: nat, keys: BakedKeyProvider)
    requires keys.data.Valid() && Packable(key, 0, nonce) && keys.KeyFor(0) == Some(key)
    requires good >= HEADER_SIZE + |plain|
    ensures Opened(File(Container(plain, key, 0, nonce), good), ACCESS_READ, keys) == Decrypted(plain, 0, STATUS_OK)
  {
    hide Container, Opened, PlainOf, Verdict, BakedKeyProvider.KeyFor;
    ContainerOpens(plain, key, 0, nonce, keys);
    OpenedExactly(File(Container(plain, key, 0, nonce), good), keys);
  }

  /** A file opened in any mode but the one for reading is itself, encrypted or not. */
  lemma OpenedForWriting(disk: Disk, mode: nat, keys: BakedKeyProvider)
    requires keys.data.Valid() && mode != 0 && disk.File?
    ensures Opened(disk, mode, keys) == Raw(disk.data, 0, 0, disk.good)
  {
  }

  /** A read of more bytes than are left gives those, and the end of the stream as the status; one of no more than are
      left resets the status. */
  lemma ReadPastEnd(plain: seq<Byte>, pos: nat, status: nat, n: nat)
    requires pos <= |plain|
    ensures var r := Decrypted(plain, pos, status);
            if pos + n > |plain| then
              r.Bytes(n) == plain[pos..] && r.AfterRead(n) == Decrypted(plain, |plain|, 2) && !r.ReadOk(n)
            else r.Bytes(n) == plain[pos..pos + n] && r.AfterRead(n) == Decrypted(plain, pos + n, 0) && r.ReadOk(n)
  {
  }

  // ---- runs ----------------------------------------------------------------------------------------------

  datatype Op =
    | Create(h: Handle)
    | Open(h: Handle, disk: Disk, mode: nat)
    | Read(h: Handle, n: nat)
    | Seek(h: Handle, p: nat)
    | Tell(h: Handle)
    | Size(h: Handle)
    | Destroy(h: Handle)

  datatype Result = Done | Answer(ok: bool) | Got(full: bool, bytes: seq<Byte>) | Amount(n: nat)

  type Streams = map<Handle, Raw>

  /** A program creates a handle before using it, and does not use it after destroying it. A destroyed handle may
      be created again. */
  predicate Allowed(s: Streams, op: Op) {
    op.Create? <==> op.h !in s
  }

  ghost function Next(s: Streams, op: Op, keys: BakedKeyProvider): Streams
    requires keys.data.Valid() && Allowed(s, op)
  {
    match op
    case Create(h) => s[h := CLOSED]
    case Open(h, disk, mode) => s[h := Opened(disk, mode, keys)]
    case Read(h, n) => s[h := s[h].AfterRead(n)]
    case Seek(h, p) => s[h := s[h].AfterSeek(p)]
    case Tell(h) => s
    case Size(h) => s
    case Destroy(h) => s - {h}
  }

  function Zeros(n: nat): (z: seq<Byte>)
    ensures |z| == n
  {
    if n == 0 then [] else Zeros(n - 1) + [0]
  }

  /** What the program gets back; a read is into a buffer of zeros. */
  function Reply(s: Streams, op: Op): Result
    requires Allowed(s, op)
  {
    match op
    case Create(h) => Done
    case Open(h, disk, mode) => Answer(disk.File?)
    case Read(h, n) => Got(s[h].ReadOk(n), s[h].Bytes(n) + Zeros(n - s[h].Taken(n)))
    case Seek(h, p) => Answer(p <= |s[h].data|)
    case Tell(h) => Amount(s[h].pos)
    case Size(h) => Amount(|s[h].data|)
    case Destroy(h) => Done
  }

  ghost predicate Legal(s: Streams, ops: seq<Op>, keys: BakedKeyProvider)
    requires keys.data.Valid()
    decreases |ops|
  {
    ops == [] || (Allowed(s, ops[0]) && Legal(Next(s, ops[0], keys), ops[1..], keys))
  }

  ghost function Final(s: Streams, ops: seq<Op>, keys: BakedKeyProvider): Streams
    requires keys.data.Valid() && Legal(s, ops, keys)
    decreases |ops|
  {
    if ops == [] then s else Final(Next(s, ops[0], keys), ops[1..], keys)
  }

  ghost function Replies(s: Streams, ops: seq<Op>, keys: BakedKeyProvider): (r: seq<Result>)
    requires keys.data.Valid() && Legal(s, ops, keys)
    ensures |r| == |ops|
    decreases |ops|
  {
    if ops == [] then [] else [Reply(s, ops[0])] + Replies(Next(s, ops[0], keys), ops[1..], keys)
  }

  lemma OneStep(s: Streams, ops: seq<Op>, keys: BakedKeyProvider)
    requires keys.data.Valid() && Legal(s, ops, keys) && ops != []
    ensures Allowed(s, ops[0]) && Legal(Next(s, ops[0], keys), ops[1..], keys)
    ensures Replies(s, ops, keys) == [Reply(s, ops[0])] + Replies(Next(s, ops[0], keys), ops[1..], keys)
    ensures Final(s, ops, keys) == Final(Next(s, ops[0], keys), ops[1..], keys)
  {
    hide Opened;
  }

  lemma NoStep(s: Streams, ops: seq<Op>, keys: BakedKeyProvider)
    requires keys.data.Valid() && ops == []
    ensures Legal(s, ops, keys) && Replies(s, ops, keys) == [] && Final(s, ops, keys) == s
  {
  }

  // ---- handles are independent, and forget ---------------------------------------------------------------

  /** Operations on other handles change nothing that a handle sees. */
  lemma {:induction false} HandlesAreIndependent(s: Streams, ops: seq<Op>, h: Handle, keys: BakedKeyProvider)
    requires keys.data.Valid() && Legal(s, ops, keys) && forall i | 0 <= i < |ops| :: ops[i].h != h
    ensures h in Final(s, ops, keys) <==> h in s
    ensures h in s ==> Final(s, ops, keys)[h] == s[h]
    decreases |ops|
  {
    if ops != [] {
      HandlesAreIndependent(Next(s, ops[0], keys), ops[1..], h, keys);
    }
  }

  /** What a run has to do with one handle: its stream, its operations, and their replies. */
  ghost function Only(s: Streams, h: Handle): Streams {
    if h in s then map[h := s[h]] else map[]
  }

  function On(ops: seq<Op>, h: Handle): seq<Op> {
    if ops == [] then [] else (if ops[0].h == h then [ops[0]] else []) + On(ops[1..], h)
  }

  function For(ops: seq<Op>, replies: seq<Result>, h: Handle): seq<Result>
    requires |ops| == |replies|
  {
    if ops == [] then [] else (if ops[0].h == h then [replies[0]] else []) + For(ops[1..], replies[1..], h)
  }

  /** A handle answers in any run as it does alone. */
  lemma {:induction false} AnswersAsAlone(s: Streams, ops: seq<Op>, h: Handle, keys: BakedKeyProvider)
    requires keys.data.Valid() && Legal(s, ops, keys)
    ensures Legal(Only(s, h), On(ops, h), keys)
    ensures For(ops, Replies(s, ops, keys), h) == Replies(Only(s, h), On(ops, h), keys)
    decreases |ops|
  {
    hide Next, Reply, Only;
    if ops != [] {
      var op, more := ops[0], On(ops[1..], h);
      OneStep(s, ops, keys);
      StepAlone(s, op, h, keys);
      AnswersAsAlone(Next(s, op, keys), ops[1..], h, keys);
      assert Replies(s, ops, keys)[1..] == Replies(Next(s, op, keys), ops[1..], keys);
      if op.h == h {
        assert On(ops, h)[0] == op && On(ops, h)[1..] == more;
      } else {
        assert On(ops, h) == more;
      }
    }
  }

  lemma StepAlone(s: Streams, op: Op, h: Handle, keys: BakedKeyProvider)
    requires keys.data.Valid() && Allowed(s, op)
    ensures op.h == h ==> Allowed(Only(s, h), op) && Reply(Only(s, h), op) == Reply(s, op)
                          && Next(Only(s, h), op, keys) == Only(Next(s, op, keys), h)
    ensures op.h != h ==> Only(Next(s, op, keys), h) == Only(s, h)
  {
    hide Opened, Raw.AfterRead, Raw.AfterSeek, Raw.Bytes, Raw.Taken, Raw.ReadOk;
  }

  /** An answer that shows nothing but the file: its size, whether a position is in it, a part of it. */
  ghost predicate FromFile(op: Op, r: Result, data: seq<Byte>) {
    match op
    case Size(_) => r == Amount(|data|)
    case Seek(_, p) => r == Answer(p <= |data|)
    case Read(_, n) => r.Got? && exists p, k :: PartOf(r.bytes, data, p, k, n)
    case _ => true
  }

  predicate PartOf(bytes: seq<Byte>, data: seq<Byte>, p: nat, k: nat, n: nat) {
    p + k <= |data| && k <= n && bytes == data[p..p + k] + Zeros(n - k)
  }

  /** From an opening in such a mode to the next open or destroy of the handle, all its answers are those of the raw
      file read alone from its start: no plaintext is ever given. */
  lemma WriterSeesRawFile(s: Streams, h: Handle, disk: Disk, mode: nat, ops: seq<Op>, i: nat, keys: BakedKeyProvider)
    requires keys.data.Valid() && mode != 0 && disk.File? && Legal(s, [Open(h, disk, mode)] + ops, keys)
    ensures var run, raw := [Open(h, disk, mode)] + ops, map[h := Raw(disk.data, 0, 0, disk.good)];
            && Legal(raw, On(ops, h), keys)
            && For(run, Replies(s, run, keys), h) == [Answer(true)] + Replies(raw, On(ops, h), keys)
    ensures i < |ops| && ops[i].h == h && (forall j | 0 <= j <= i && ops[j].h == h :: !ops[j].Open? && !ops[j].Destroy?) ==>
              FromFile(ops[i], Replies(s, [Open(h, disk, mode)] + ops, keys)[i + 1], disk.data)
  {
    hide Opened, Reply, Legal, Replies, FromFile, Only;
    var run := [Open(h, disk, mode)] + ops;
    assert run[0] == Open(h, disk, mode) && run[1..] == ops;
    OneStep(s, run, keys);
    OpenedForWriting(disk, mode, keys);
    var t := s[h := Raw(disk.data, 0, 0, disk.good)];
    OpensAs(s, h, disk, mode, keys);
    AnswersAsAlone(t, ops, h, keys);
    OnlyOne(t, h);
    if i < |ops| && ops[i].h == h && forall j | 0 <= j <= i && ops[j].h == h :: !ops[j].Open? && !ops[j].Destroy? {
      AnswersFromFile(t, h, ops, i, keys);
    }
  }

  lemma OpensAs(s: Streams, h: Handle, disk: Disk, mode: nat, keys: BakedKeyProvider)
    requires keys.data.Valid() && Allowed(s, Open(h, disk, mode))
    ensures h in s && Next(s, Open(h, disk, mode), keys) == s[h := Opened(disk, mode, keys)]
    ensures Reply(s, Open(h, disk, mode)) == Answer(disk.File?)
  {
    hide Opened;
  }

  lemma OnlyOne(s: Streams, h: Handle)
    requires h in s
    ensures Only(s, h) == map[h := s[h]]
  {
  }

  lemma {:induction false} AnswersFromFile(s: Streams, h: Handle, ops: seq<Op>, i: nat, keys: BakedKeyProvider)
    requires keys.data.Valid() && h in s && Legal(s, ops, keys) && i < |ops| && ops[i].h == h
    requires forall j | 0 <= j <= i && ops[j].h == h :: !ops[j].Open? && !ops[j].Destroy?
    ensures FromFile(ops[i], Replies(s, ops, keys)[i], s[h].data)
    decreases i
  {
    hide Next, Reply, FromFile, Legal, Replies;
    OneStep(s, ops, keys);
    if i == 0 {
      AnswerFromFile(s, ops[0]);
    } else {
      StepKeepsData(s, ops[0], h, keys);
      assert forall j | 0 <= j < i :: ops[1..][j] == ops[j + 1];
      AnswersFromFile(Next(s, ops[0], keys), h, ops[1..], i - 1, keys);
    }
  }

  lemma StepKeepsData(s: Streams, op: Op, h: Handle, keys: BakedKeyProvider)
    requires keys.data.Valid() && h in s && Allowed(s, op) && (op.h == h ==> !op.Open? && !op.Destroy?)
    ensures h in Next(s, op, keys) && Next(s, op, keys)[h].data == s[h].data
  {
    hide Opened;
  }

  lemma AnswerFromFile(s: Streams, op: Op)
    requires Allowed(s, op) && op.h in s
    ensures FromFile(op, Reply(s, op), s[op.h].data)
  {
    if op.Read? {
      var r := s[op.h];
      var k := r.Taken(op.n);
      if k == 0 {
        assert r.data[0..0] + Zeros(op.n) == [] + Zeros(op.n);
        assert PartOf(Reply(s, op).bytes, r.data, 0, 0, op.n);
      } else {
        assert PartOf(Reply(s, op).bytes, r.data, r.pos, k, op.n);
      }
    }
  }

  /** After opening, and until the next open or destroy of the handle, whatever the program does with this and
      other handles, the stream holds exactly the file that was opened. */
  lemma {:induction false} OpenDeterminesData(s: Streams, h: Handle, disk: Disk, mode: nat, ops: seq<Op>,
                                              keys: BakedKeyProvider)
    requires keys.data.Valid() && h in s && Legal(s[h := Opened(disk, mode, keys)], ops, keys)
    requires forall i | 0 <= i < |ops| :: ops[i].h == h ==> !ops[i].Open? && !ops[i].Destroy?
    ensures var t := Final(s[h := Opened(disk, mode, keys)], ops, keys);
            h in t && t[h].data == Opened(disk, mode, keys).data && t[h].good == Opened(disk, mode, keys).good
  {
    hide Opened;
    DataStays(s[h := Opened(disk, mode, keys)], h, ops, keys);
  }

  lemma {:induction false} DataStays(s: Streams, h: Handle, ops: seq<Op>, keys: BakedKeyProvider)
    requires keys.data.Valid() && h in s && Legal(s, ops, keys)
    requires forall i | 0 <= i < |ops| :: ops[i].h == h ==> !ops[i].Open? && !ops[i].Destroy?
    ensures h in Final(s, ops, keys)
    ensures Final(s, ops, keys)[h].data == s[h].data && Final(s, ops, keys)[h].good == s[h].good
    decreases |ops|
  {
    hide Opened;
    if ops != [] {
      DataStays(Next(s, ops[0], keys), h, ops[1..], keys);
    }
  }

  /** Seeking to an offset and reading gives the bytes of the file from there. */
  lemma SeekThenRead(r: Raw, p: nat, n: nat)
    requires p + n <= |r.data| && p + n <= r.good
    ensures var at := r.AfterSeek(p); at.ReadOk(n) && at.Bytes(n) == r.data[p..p + n] && at.AfterRead(n).pos == p + n
  {
  }

  /** A read of the whole of a readable container whose key is known gives its plaintext. */
  lemma WholeFile(disk: Disk, keys: BakedKeyProvider)
    requires keys.data.Valid() && disk.File? && disk.good >= |disk.data| && Verdict(disk.data, keys) == Ok
    ensures var r, plain := Opened(disk, ACCESS_READ, keys), PlainOf(disk.data, keys);
            && r == Decrypted(plain, 0, STATUS_OK)
            && r.Bytes(|plain|) == plain && r.AfterRead(|plain|) == Decrypted(plain, |plain|, STATUS_OK)
  {
    hide PlainOf, Opened, Verdict;
    OpenedExactly(disk, keys);
  }
}
