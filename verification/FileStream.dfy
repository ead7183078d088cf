/** The decrypting file streams: the registry of lfxe_filestream.cpp and the detours of hook_filestream.cpp, over
    the engine's own streams. */
module FileStream {
  import opened Wrappers
  import opened Words
  import opened LfxeFormat
  import opened BakedKey
  import opened LfxeDecrypt
  import opened PlainFiles

  /** The engine's original methods, on the raw bytes of each file. */
  class Engine {
    var streams: Streams

    constructor ()
      ensures streams == map[]
    {
      streams := map[];
    }

    method FsOpen(self: Handle, disk: Disk, accessMode: nat) returns (ok: bool)
      requires self in streams
      modifies this
      ensures ok == disk.File?
      ensures streams == old(streams)[self := if ok then Raw(disk.data, 0, STATUS_OK, disk.good) else CLOSED]
    {
      streams := streams[self := if disk.File? then Raw(disk.data, 0, STATUS_OK, disk.good) else CLOSED];
      return disk.File?;
    }

    method FsRead(self: Handle, size: nat, dst: array<Byte>) returns (ok: bool)
      requires self in streams && size <= dst.Length
      modifies this, dst
      ensures var r := old(streams)[self];
              && ok == r.ReadOk(size) && streams == old(streams)[self := r.AfterRead(size)]
              && dst[..] == Over(old(dst[..]), r.Bytes(size))
    {
      var r := streams[self];
      CopyTo(r.data, r.pos, r.Taken(size), dst);
      streams := streams[self := r.AfterRead(size)];
      return r.ReadOk(size);
    }

    method FsSetPosition(self: Handle, pos: nat) returns (ok: bool)
      requires self in streams
      modifies this
      ensures ok == (pos <= |old(streams)[self].data|)
      ensures streams == old(streams)[self := old(streams)[self].AfterSeek(pos)]
    {
      ok := pos <= |streams[self].data|;
      streams := streams[self := streams[self].AfterSeek(pos)];
    }

    method FsGetPosition(self: Handle) returns (pos: nat)
      requires self in streams
      ensures pos == streams[self].pos
    {
      return streams[self].pos;
    }

    method FsGetStreamSize(self: Handle) returns (size: nat)
      requires self in streams
      ensures size == |streams[self].data|
    {
      return |streams[self].data|;
    }

    method FsDtor(self: Handle)
      requires self in streams
      modifies this
      ensures streams == old(streams) - {self}
    {
      streams := streams - {self};
    }
  }

  /** A buffer whose first bytes are replaced by `front`. */
  function Over(dst: seq<Byte>, front: seq<Byte>): (r: seq<Byte>)
    requires |front| <= |dst|
    ensures |r| == |dst|
  {
    front + dst[|front|..]
  }

  lemma OverNothing(dst: seq<Byte>)
    ensures Over(dst, []) == dst
  {
  }

  lemma OverStep(dst: seq<Byte>, src: seq<Byte>, from: nat, i: nat)
    requires i < |dst| && from + i < |src|
    ensures Over(dst, src[from..from + i + 1]) == Over(dst, src[from..from + i])[i := src[from + i]]
  {
    assert src[from..from + i + 1] == src[from..from + i] + [src[from + i]];
  }

  /** memcpy of `take` bytes from `from` to the start of `dst`, when there are any. */
  method CopyTo(src: seq<Byte>, from: nat, take: nat, dst: array<Byte>)
    requires take <= dst.Length && (take > 0 ==> from + take <= |src|)
    modifies dst
    ensures dst[..] == Over(old(dst[..]), if take == 0 then [] else src[from..from + take])
  {
    hide Over;
    ghost var was := dst[..];
    OverNothing(was);
    if take > 0 {
      assert src[from..from] == [];
      for i := 0 to take
        invariant dst[..] == Over(was, src[from..from + i])
      {
        OverStep(was, src, from, i);
        dst[i] := src[from + i];
      }
    }
  }

  /** A decrypted stream: the plaintext, and the position in it. */
  datatype Entry = Entry(plain: seq<Byte>, pos: nat)

  type Entries = map<Handle, Entry>

  /** What a program sees of a stream: the registry's entry if there is one, the engine's stream otherwise. The
      status field is the engine object's in both cases. */
  ghost function Seen(streams: Streams, entries: Entries, h: Handle): Raw
    requires h in streams
  {
    if h in entries then Decrypted(entries[h].plain, entries[h].pos, streams[h].status) else streams[h]
  }

  ghost function AllSeen(streams: Streams, entries: Entries): (v: Streams)
    ensures v.Keys == streams.Keys
  {
    map h | h in streams :: Seen(streams, entries, h)
  }

  /** One handle changes. */
  lemma SeenAfter(streams: Streams, entries: Entries, streams': Streams, entries': Entries, h: Handle)
    requires streams'.Keys == streams.Keys + {h}
    requires forall k | k in streams && k != h :: streams'[k] == streams[k]
    requires forall k | k != h :: k in entries' <==> k in entries
    requires forall k | k in entries && k != h :: entries'[k] == entries[k]
    ensures AllSeen(streams', entries') == AllSeen(streams, entries)[h := Seen(streams', entries', h)]
  {
  }

  /** The registry `gMap` and the detours. */
  class HookFileStream {
    const engine: Engine
    const keys: BakedKeyProvider
    var gMap: Entries

    ghost predicate Valid()
      reads this, engine
    {
      keys.data.Valid() && gMap.Keys <= engine.streams.Keys
    }

    ghost function View(): (v: Streams)
      reads this, engine
      ensures v.Keys == engine.streams.Keys
    {
      AllSeen(engine.streams, gMap)
    }

    constructor (keys: BakedKeyProvider)
      requires keys.data.Valid()
      ensures Valid() && View() == map[] && fresh(engine) && this.keys == keys
    {
      engine := new Engine();
      this.keys := keys;
      gMap := map[];
    }

    // ---- lfxe_filestream.cpp -----------------------------------------------------------------------------

    method SetStatus(self: Handle, status: nat)
      requires self in engine.streams
      modifies engine
      ensures engine.streams == old(engine.streams)[self := old(engine.streams)[self].(status := status)]
    {
      engine.streams := engine.streams[self := engine.streams[self].(status := status)];
    }

    method FsUnregister(self: Handle)
      modifies this
      ensures gMap == old(gMap) - {self}
    {
      gMap := gMap - {self};
    }

    /** The whole file, read from the start through the engine's own methods. */
    method Slurp(self: Handle, size: nat, buf: array<Byte>) returns (ok: bool)
      requires self in engine.streams && size <= buf.Length
      modifies engine, buf
      ensures var r := old(engine.streams)[self].(pos := 0);
              && ok == r.ReadOk(size) && engine.streams == old(engine.streams)[self := r.AfterRead(size)]
              && (size == buf.Length && ok ==> buf[..] == r.Bytes(size))
    {
      hide Over;
      var sought := engine.FsSetPosition(self, 0);
      ok := engine.FsRead(self, size, buf);
      if size == buf.Length && ok { OverAll(old(buf[..]), old(engine.streams)[self].(pos := 0).Bytes(size)); }
    }

    /** The second half of FsRegisterIfEncrypted, once the magic has been seen: the whole file is read and
        decrypted. */
    method RegisterMagical(self: Handle, size: nat, ghost raw: Raw) returns (registered: bool)
      requires keys.data.Valid() && self in engine.streams && self !in gMap && raw.pos == 0 && raw.status == STATUS_OK
      requires size == |raw.data| >= HEADER_SIZE && raw.good >= 4 && HasMagic(raw.data)
      requires var r := engine.streams[self]; r.data == raw.data && r.good == raw.good
      modifies this, engine
      ensures engine.streams.Keys == old(engine.streams.Keys)
      ensures forall k | k in engine.streams && k != self :: engine.streams[k] == old(engine.streams)[k]
      ensures forall k | k != self :: k in gMap <==> k in old(gMap)
      ensures forall k | k in gMap && k != self :: gMap[k] == old(gMap)[k]
      ensures registered <==> self in gMap
      ensures Seen(engine.streams, gMap, self) == Freshly(raw, keys)
    {
      hide Verdict, PlainOf, HasMagic, Freshly, Over, Raw.Fails, Raw.Taken, Raw.ReadOk, Raw.Bytes, Raw.AfterRead;
      FreshlyExactly(raw, keys);
      var cipher := new Byte[size];
      ReadFromStart(engine.streams[self].(pos := 0), size);
      var read := Slurp(self, size, cipher);
      if !read {
        var back := engine.FsSetPosition(self, 0);
        return false;
      }
      assert cipher[..] == raw.data;
      var plain := new ByteVector();
      var result := TryDecryptAsset(cipher, keys, plain);
      if result != Ok {
        var back := engine.FsSetPosition(self, 0);
        return false;
      }
      gMap := gMap[self := Entry(plain.data[..], 0)];
      var back := engine.FsSetPosition(self, 0);
      SetStatus(self, STATUS_OK);
      return true;
    }

    /** FsRegisterIfEncrypted, on a stream that the engine has just opened. */
    method FsRegisterIfEncrypted(self: Handle) returns (registered: bool)
      requires Valid() && self in engine.streams && engine.streams[self].pos == 0 && engine.streams[self].status == STATUS_OK
      modifies this, engine
      ensures Valid()
      ensures View() == old(View())[self := Freshly(old(engine.streams[self]), keys)]
      ensures registered <==> self in gMap
    {
      hide Verdict, PlainOf, AllSeen, HasMagic, Freshly, Over, Raw.Fails, Raw.Taken, Raw.ReadOk, Raw.Bytes, Raw.AfterRead;
      ghost var streams0, gMap0, raw := engine.streams, gMap, engine.streams[self];
      FsUnregister(self);
      FreshlyExactly(raw, keys);
      var size := engine.FsGetStreamSize(self);
      if size < HEADER_SIZE {
        SeenAfter(streams0, gMap0, engine.streams, gMap, self);
        return false;
      }
      var magic := new Byte[4];
      ReadFromStart(raw, 4);
      var peeked := Slurp(self, 4, magic);
      if !peeked || !HasMagic(magic[..]) {
        var back := engine.FsSetPosition(self, 0);
        SeenAfter(streams0, gMap0, engine.streams, gMap, self);
        return false;
      }
      registered := RegisterMagical(self, size, raw);
      SeenAfter(streams0, gMap0, engine.streams, gMap, self);
    }

    /** FsTryRead: `served` says whether the stream is a decrypted one, and `full` is its result then. Without a
        destination the bytes are skipped. */
    method FsTryRead(self: Handle, size: nat, dst: array?<Byte>) returns (served: bool, full: bool)
      requires Valid() && self in engine.streams && (dst != null ==> size <= dst.Length)
      modifies this, engine, dst
      ensures Valid() && served == (self in old(gMap))
      ensures !served ==> gMap == old(gMap) && engine.streams == old(engine.streams)
      ensures !served && dst != null ==> dst[..] == old(dst[..])
      ensures served ==> var r := old(View())[self];
                         full == r.ReadOk(size) && View() == old(View())[self := r.AfterRead(size)]
      ensures served && dst != null ==> dst[..] == Over(old(dst[..]), old(View())[self].Bytes(size))
    {
      hide AllSeen, Over, Raw.Fails, Raw.Taken, Raw.ReadOk, Raw.Bytes, Raw.AfterRead;
      if self !in gMap { return false, false; }
      ghost var streams0, gMap0 := engine.streams, gMap;
      SeenAt(streams0, gMap0, self);
      var e := gMap[self];
      ReadDecrypted(e.plain, e.pos, engine.streams[self].status, size);
      var avail := if e.pos <= |e.plain| then |e.plain| - e.pos else 0;
      var take := if size <= avail then size else avail;
      if dst != null {
        CopyTo(e.plain, e.pos, take, dst);
      }
      gMap := gMap[self := e.(pos := e.pos + take)];
      full := take == size;
      SetStatus(self, if full then STATUS_OK else STATUS_EOS);
      SeenAfter(streams0, gMap0, engine.streams, gMap, self);
      return true, full;
    }

    method FsTryGetSize(self: Handle) returns (served: bool, size: nat)
      requires Valid() && self in engine.streams
      ensures served == (self in gMap) && (served ==> size == |View()[self].data|)
    {
      hide AllSeen;
      SeenAt(engine.streams, gMap, self);
      if self !in gMap { return false, 0; }
      return true, |gMap[self].plain|;
    }

    method FsTryGetPosition(self: Handle) returns (served: bool, pos: nat)
      requires Valid() && self in engine.streams
      ensures served == (self in gMap) && (served ==> pos == View()[self].pos)
    {
      hide AllSeen;
      SeenAt(engine.streams, gMap, self);
      if self !in gMap { return false, 0; }
      return true, gMap[self].pos;
    }

    method FsTrySetPosition(self: Handle, pos: nat) returns (served: bool, ok: bool)
      requires Valid() && self in engine.streams
      modifies this
      ensures Valid() && served == (self in old(gMap))
      ensures !served ==> gMap == old(gMap)
      ensures served ==> var r := old(View())[self];
                         ok == (pos <= |r.data|) && View() == old(View())[self := r.AfterSeek(pos)]
    {
      hide AllSeen;
      ghost var gMap0 := gMap;
      SeenAt(engine.streams, gMap, self);
      if self !in gMap { return false, false; }
      if pos > |gMap[self].plain| { return true, false; }
      gMap := gMap[self := gMap[self].(pos := pos)];
      SeenAfter(engine.streams, gMap0, engine.streams, gMap, self);
      return true, true;
    }

    // ---- hook_filestream.cpp -----------------------------------------------------------------------------

    method OnOpen(self: Handle, disk: Disk, accessMode: nat) returns (ok: bool)
      requires Valid() && self in engine.streams
      modifies this, engine
      ensures Valid() && ok == disk.File?
      ensures View() == old(View())[self := Opened(disk, accessMode, keys)]
      ensures accessMode != 0 || !ok ==> self !in gMap
      ensures accessMode != 0 || !ok ==> View()[self] == if ok then Raw(disk.data, 0, 0, disk.good) else Raw([], 0, 0, 0)
    {
      hide AllSeen, Verdict, PlainOf;
      ghost var streams0, gMap0 := engine.streams, gMap;
      ok := engine.FsOpen(self, disk, accessMode);
      if !ok || accessMode != ACCESS_READ {
        FsUnregister(self);
        SeenAfter(streams0, gMap0, engine.streams, gMap, self);
        return;
      }
      SeenAfter(streams0, gMap0, engine.streams, gMap, self);
      var registered := FsRegisterIfEncrypted(self);
    }

    method OnRead(self: Handle, size: nat, dst: array<Byte>) returns (full: bool)
      requires Valid() && self in engine.streams && size <= dst.Length
      modifies this, engine, dst
      ensures var r := old(View())[self];
              && Valid() && full == r.ReadOk(size) && View() == old(View())[self := r.AfterRead(size)]
              && dst[..] == Over(old(dst[..]), r.Bytes(size))
    {
      hide AllSeen, Over, Raw.Fails, Raw.Taken, Raw.ReadOk, Raw.Bytes, Raw.AfterRead;
      ghost var streams0, gMap0 := engine.streams, gMap;
      SeenAt(streams0, gMap0, self);
      var served, out := FsTryRead(self, size, dst);
      if served { return out; }
      full := engine.FsRead(self, size, dst);
      SeenAfter(streams0, gMap0, engine.streams, gMap, self);
    }

    method OnSetPosition(self: Handle, pos: nat) returns (ok: bool)
      requires Valid() && self in engine.streams
      modifies this, engine
      ensures var r := old(View())[self];
              Valid() && ok == (pos <= |r.data|) && View() == old(View())[self := r.AfterSeek(pos)]
    {
      hide AllSeen;
      ghost var streams0, gMap0 := engine.streams, gMap;
      SeenAt(streams0, gMap0, self);
      var served, out := FsTrySetPosition(self, pos);
      if served { return out; }
      ok := engine.FsSetPosition(self, pos);
      SeenAfter(streams0, gMap0, engine.streams, gMap, self);
    }

    method OnGetPosition(self: Handle) returns (pos: nat)
      requires Valid() && self in engine.streams
      ensures pos == View()[self].pos
    {
      hide AllSeen;
      SeenAt(engine.streams, gMap, self);
      var served, out := FsTryGetPosition(self);
      if served { return out; }
      pos := engine.FsGetPosition(self);
    }

    method OnGetStreamSize(self: Handle) returns (size: nat)
      requires Valid() && self in engine.streams
      ensures size == |View()[self].data|
    {
      hide AllSeen;
      SeenAt(engine.streams, gMap, self);
      var served, out := FsTryGetSize(self);
      if served { return out; }
      size := engine.FsGetStreamSize(self);
    }

    method OnDtor(self: Handle)
      requires Valid() && self in engine.streams
      modifies this, engine
      ensures Valid() && View() == old(View()) - {self}
    {
      FsUnregister(self);
      engine.FsDtor(self);
    }

    /** A stream object comes to life; this is not hooked. */
    method Construct(self: Handle)
      requires Valid() && self !in engine.streams
      modifies engine
      ensures Valid() && View() == old(View())[self := CLOSED]
    {
      hide AllSeen;
      ghost var streams0 := engine.streams;
      engine.streams := engine.streams[self := CLOSED];
      SeenAfter(streams0, gMap, engine.streams, gMap, self);
    }

    /** One operation of the program. A read is into a buffer of zeros. */
    method Perform(op: Op) returns (r: Result)
      requires Valid() && Allowed(View(), op)
      modifies this, engine
      ensures Valid() && View() == Next(old(View()), op, keys) && r == Reply(old(View()), op)
    {
      hide Opened, AllSeen, Raw.Fails, Raw.Taken, Raw.ReadOk, Raw.Bytes, Raw.AfterRead, Raw.AfterSeek;
      match op {
        case Create(h) => Construct(h); r := Done;
        case Open(h, disk, mode) => var ok := OnOpen(h, disk, mode); r := Answer(ok);
        case Read(h, n) =>
          var dst := new Byte[n](i => 0);
          ZeroBuffer(dst[..]);
          ghost var seen := View()[h];
          var full := OnRead(h, n, dst);
          OverZeros(n, seen.Bytes(n));
          r := Got(full, dst[..]);
        case Seek(h, p) => var ok := OnSetPosition(h, p); r := Answer(ok);
        case Tell(h) => var pos := OnGetPosition(h); r := Amount(pos);
        case Size(h) => var size := OnGetStreamSize(h); r := Amount(size);
        case Destroy(h) => OnDtor(h); r := Done;
      }
    }

    /** Any run of a program over any number of handles: the hooked engine answers exactly as plain files would. */
    method Run(ops: seq<Op>) returns (replies: seq<Result>)
      requires Valid() && Legal(View(), ops, keys)
      modifies this, engine
      ensures Valid() && replies == Replies(old(View()), ops, keys) && View() == Final(old(View()), ops, keys)
    {
      hide AllSeen, Opened, Next, Reply, Legal, Final, Replies;
      ghost var v0 := View();
      replies := [];
      assert ops[0..] == ops;
      for i := 0 to |ops|
        invariant Valid() && Legal(View(), ops[i..], keys)
        invariant replies + Replies(View(), ops[i..], keys) == Replies(v0, ops, keys)
        invariant Final(View(), ops[i..], keys) == Final(v0, ops, keys)
      {
        OneStep(View(), ops[i..], keys);
        assert ops[i..][0] == ops[i] && ops[i..][1..] == ops[i + 1..];
        var r := Perform(ops[i]);
        replies := replies + [r];
      }
      NoStep(View(), ops[|ops|..], keys);
    }
  }

  /** Opening a readable container whose key is known, and reading as many bytes as its size says, gives the whole
      plaintext. */
  method ReadWhole(fs: HookFileStream, h: Handle, disk: Disk) returns (bytes: seq<Byte>)
    requires fs.Valid() && h in fs.engine.streams
    requires disk.File? && disk.good >= |disk.data| && Verdict(disk.data, fs.keys) == Ok
    modifies fs, fs.engine
    ensures fs.Valid() && bytes == PlainOf(disk.data, fs.keys)
    ensures fs.View() == old(fs.View())[h := Decrypted(bytes, |bytes|, STATUS_OK)]
  {
    hide Verdict, PlainOf, Opened, AllSeen, Over;
    WholeFile(disk, fs.keys);
    ghost var plain := PlainOf(disk.data, fs.keys);
    ghost var before := fs.View();
    var ok := fs.OnOpen(h, disk, ACCESS_READ);
    assert fs.View()[h] == Decrypted(plain, 0, STATUS_OK);
    var size := fs.OnGetStreamSize(h);
    var dst := new Byte[size];
    ghost var blank := dst[..];
    var full := fs.OnRead(h, size, dst);
    OverAll(blank, plain);
    bytes := dst[..];
  }

  /** The stream that should be seen, given the engine's stream just after opening. */
  ghost function Freshly(raw: Raw, keys: BakedKeyProvider): Raw
    requires keys.data.Valid()
  {
    Opened(File(raw.data, raw.good), ACCESS_READ, keys)
  }

  /** What it is, case by case. */
  lemma FreshlyExactly(raw: Raw, keys: BakedKeyProvider)
    requires keys.data.Valid() && raw.pos == 0 && raw.status == STATUS_OK
    ensures |raw.data| >= 4 ==> (HasMagic(raw.data[..4]) <==> HasMagic(raw.data))
    ensures |raw.data| < HEADER_SIZE ==> Freshly(raw, keys) == raw
    ensures |raw.data| >= HEADER_SIZE && raw.good < 4 ==> Freshly(raw, keys) == raw.(status := STATUS_IO_ERROR)
    ensures |raw.data| >= HEADER_SIZE && raw.good >= 4 && !HasMagic(raw.data) ==> Freshly(raw, keys) == raw
    ensures |raw.data| >= HEADER_SIZE && 4 <= raw.good < |raw.data| && HasMagic(raw.data) ==>
              Freshly(raw, keys) == raw.(status := STATUS_IO_ERROR)
    ensures |raw.data| >= HEADER_SIZE && raw.good >= |raw.data| && HasMagic(raw.data) ==>
              Freshly(raw, keys) == if Verdict(raw.data, keys) == Ok then Decrypted(PlainOf(raw.data, keys), 0, STATUS_OK)
                                    else raw
  {
    hide PlainOf;
  }

  /** A read of the first `n` bytes. */
  lemma ReadFromStart(r: Raw, n: nat)
    requires r.pos == 0 && 0 < n <= |r.data|
    ensures r.ReadOk(n) <==> n <= r.good
    ensures r.ReadOk(n) ==> r.Bytes(n) == r.data[..n] && r.AfterRead(n) == r.(pos := n, status := STATUS_OK)
    ensures !r.ReadOk(n) ==> r.AfterRead(n) == r.(status := STATUS_IO_ERROR)
  {
  }

  /** A read of a decrypted stream: it never fails, and stops at the end. */
  lemma ReadDecrypted(plain: seq<Byte>, pos: nat, status: nat, size: nat)
    ensures var r := Decrypted(plain, pos, status);
            var avail := if pos <= |plain| then |plain| - pos else 0;
            var take := if size <= avail then size else avail;
            && (r.ReadOk(size) <==> take == size)
            && r.AfterRead(size) == Decrypted(plain, pos + take, if take == size then STATUS_OK else STATUS_EOS)
            && r.Bytes(size) == if take == 0 then [] else plain[pos..pos + take]
  {
  }

  lemma {:induction false} ZeroBuffer(b: seq<Byte>)
    requires forall i | 0 <= i < |b| :: b[i] == 0
    ensures b == Zeros(|b|)
  {
    if b != [] { ZeroBuffer(b[..|b| - 1]); }
  }

  lemma ZerosAt(n: nat, i: nat)
    requires i < n
    ensures Zeros(n)[i] == 0
  {
    if i < n - 1 { ZerosAt(n - 1, i); }
  }

  lemma OverZeros(n: nat, front: seq<Byte>)
    requires |front| <= n
    ensures Over(Zeros(n), front) == front + Zeros(n - |front|)
  {
    forall i | 0 <= i < n - |front|
      ensures Zeros(n)[|front|..][i] == Zeros(n - |front|)[i]
    {
      ZerosAt(n, |front| + i);
      ZerosAt(n - |front|, i);
    }
    assert Zeros(n)[|front|..] == Zeros(n - |front|);
  }

  lemma SeenAt(streams: Streams, entries: Entries, h: Handle)
    requires h in streams
    ensures AllSeen(streams, entries)[h] == Seen(streams, entries, h)
  {
  }

  lemma OverAll(dst: seq<Byte>, front: seq<Byte>)
    requires |dst| == |front|
    ensures Over(dst, front) == front
  {
  }
}
