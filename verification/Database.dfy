/** The two tables of the dispatcher daemon, with the atomic operations of upsert_world, claim_sector and
    resolve_sector. */
module Database {
  import opened Wrappers

  type PeerId = string
  type Uuid = string
  type Sector = nat

  /** A row of dispatcher_worlds; its server_uuid is unique and is the key here. */
  datatype World = World(peer: PeerId, worldId: nat)

  datatype Db = Db(worlds: map<Uuid, World>, sectors: map<Sector, PeerId>)

  const EMPTY: Db := Db(map[], map[])

  ghost predicate Registered(db: Db, peer: PeerId) {
    exists u | u in db.worlds :: db.worlds[u].peer == peer
  }

  /** upsert_world for a uuid; `newId` is what a new v4 uuid would be. */
  function Upsert(db: Db, worldId: nat, uuid: Uuid, newId: PeerId): Db {
    var peer := if uuid in db.worlds then db.worlds[uuid].peer else newId;
    db.(worlds := db.worlds[uuid := World(peer, worldId)])
  }

  function First(db: Db, uuid: Uuid): bool {
    uuid !in db.worlds
  }

  function Claim(db: Db, sector: Sector, peer: PeerId): Db {
    db.(sectors := db.sectors[sector := peer])
  }

  function Resolve(db: Db, sector: Sector): Option<PeerId> {
    if sector in db.sectors then Some(db.sectors[sector]) else None
  }

  // ---- runs ----------------------------------------------------------------------------------------------

  datatype DbOp = Hello(worldId: nat, uuid: Uuid, newId: PeerId) | Claimed(sector: Sector, peer: PeerId)

  /** A fresh uuid is nobody's; claims come from registered peers. */
  ghost predicate Allowed(db: Db, op: DbOp) {
    match op
    case Hello(w, uuid, newId) => uuid !in db.worlds ==> !Registered(db, newId)
    case Claimed(sector, peer) => Registered(db, peer)
  }

  function Apply(db: Db, op: DbOp): Db {
    match op
    case Hello(w, uuid, newId) => Upsert(db, w, uuid, newId)
    case Claimed(sector, peer) => Claim(db, sector, peer)
  }

  ghost predicate LegalOps(db: Db, ops: seq<DbOp>) {
    ops == [] || (LegalOps(db, ops[..|ops| - 1]) && Allowed(AfterOps(db, ops[..|ops| - 1]), ops[|ops| - 1]))
  }

  function AfterOps(db: Db, ops: seq<DbOp>): Db {
    if ops == [] then db else Apply(AfterOps(db, ops[..|ops| - 1]), ops[|ops| - 1])
  }

  /** Peer ids are unique, and every sector is owned by a registered peer. */
  ghost predicate Inv(db: Db) {
    && (forall u, v | u in db.worlds && v in db.worlds && db.worlds[u].peer == db.worlds[v].peer :: u == v)
    && (forall k | k in db.sectors :: Registered(db, db.sectors[k]))
  }

  lemma RegisteredStays(db: Db, op: DbOp, peer: PeerId)
    requires Registered(db, peer)
    ensures Registered(Apply(db, op), peer)
  {
    var u :| u in db.worlds && db.worlds[u].peer == peer;
    assert u in Apply(db, op).worlds && Apply(db, op).worlds[u].peer == peer;
  }

  lemma InvKept(db: Db, op: DbOp)
    requires Inv(db) && Allowed(db, op)
    ensures Inv(Apply(db, op))
  {
    var t := Apply(db, op);
    forall k | k in t.sectors
      ensures Registered(t, t.sectors[k])
    {
      if op.Claimed? && k == op.sector {
        RegisteredStays(db, op, op.peer);
      } else {
        RegisteredStays(db, op, db.sectors[k]);
      }
    }
  }

  /** Whatever the daemon does, every resolved owner is a registered peer and no two servers share a peer id. */
  lemma {:induction false} InvAlways(ops: seq<DbOp>)
    requires LegalOps(EMPTY, ops)
    ensures Inv(AfterOps(EMPTY, ops))
  {
    if ops != [] {
      InvAlways(ops[..|ops| - 1]);
      InvKept(AfterOps(EMPTY, ops[..|ops| - 1]), ops[|ops| - 1]);
    }
  }

  /** A server's peer id never changes. */
  lemma {:induction false} PeerIdsAreStable(db: Db, ops: seq<DbOp>, uuid: Uuid)
    requires uuid in db.worlds
    ensures uuid in AfterOps(db, ops).worlds && AfterOps(db, ops).worlds[uuid].peer == db.worlds[uuid].peer
  {
    if ops != [] { PeerIdsAreStable(db, ops[..|ops| - 1], uuid); }
  }

  ghost predicate Says(ops: seq<DbOp>, i: int, uuid: Uuid) {
    0 <= i < |ops| && ops[i].Hello? && ops[i].uuid == uuid
  }

  lemma {:induction false} Known(ops: seq<DbOp>, uuid: Uuid)
    ensures uuid in AfterOps(EMPTY, ops).worlds <==> exists i :: Says(ops, i, uuid)
  {
    if ops != [] {
      var init := ops[..|ops| - 1];
      Known(init, uuid);
      if i :| Says(init, i, uuid) { assert Says(ops, i, uuid); }
      if i :| Says(ops, i, uuid) { assert i < |init| ==> Says(init, i, uuid); }
      assert ops[|ops| - 1].Hello? && ops[|ops| - 1].uuid == uuid ==> Says(ops, |ops| - 1, uuid);
    }
  }

  /** A hello is answered with first_registration exactly when no hello with that server_uuid came before: so at
      most once for each. */
  lemma FirstExactly(ops: seq<DbOp>, i: nat)
    requires i < |ops| && ops[i].Hello?
    ensures First(AfterOps(EMPTY, ops[..i]), ops[i].uuid) <==> !exists j :: j < i && Says(ops, j, ops[i].uuid)
  {
    var uuid := ops[i].uuid;
    Known(ops[..i], uuid);
    if j :| Says(ops[..i], j, uuid) { assert Says(ops, j, uuid); }
    if j :| j < i && Says(ops, j, uuid) { assert Says(ops[..i], j, uuid); }
  }

  lemma FirstAtMostOnce(ops: seq<DbOp>, i: nat, j: nat)
    requires i < j < |ops| && ops[i].Hello? && ops[j].Hello? && ops[i].uuid == ops[j].uuid
    ensures !First(AfterOps(EMPTY, ops[..j]), ops[j].uuid)
  {
    FirstExactly(ops, j);
    assert Says(ops, i, ops[j].uuid);
  }

  /** The last claim of a sector. */
  function LastClaim(ops: seq<DbOp>, sector: Sector): Option<PeerId> {
    if ops == [] then None
    else if ops[|ops| - 1].Claimed? && ops[|ops| - 1].sector == sector then Some(ops[|ops| - 1].peer)
    else LastClaim(ops[..|ops| - 1], sector)
  }

  /** Resolving a sector gives its most recent claimant, or nothing when nobody claimed it. */
  lemma {:induction false} ResolveIsLastClaim(ops: seq<DbOp>, sector: Sector)
    ensures Resolve(AfterOps(EMPTY, ops), sector) == LastClaim(ops, sector)
  {
    if ops != [] { ResolveIsLastClaim(ops[..|ops| - 1], sector); }
  }

  // ---- worlds --------------------------------------------------------------------------------------------

  /** The peer id that the first hello of a server_uuid brought, and the world of the last one. */
  function FirstHello(ops: seq<DbOp>, uuid: Uuid): Option<PeerId> {
    if ops == [] then None
    else if FirstHello(ops[..|ops| - 1], uuid).Some? then FirstHello(ops[..|ops| - 1], uuid)
    else if ops[|ops| - 1].Hello? && ops[|ops| - 1].uuid == uuid then Some(ops[|ops| - 1].newId)
    else None
  }

  function LastHello(ops: seq<DbOp>, uuid: Uuid): Option<nat> {
    if ops == [] then None
    else if ops[|ops| - 1].Hello? && ops[|ops| - 1].uuid == uuid then Some(ops[|ops| - 1].worldId)
    else LastHello(ops[..|ops| - 1], uuid)
  }

  /** A server is known once it has said hello: by the peer id of its first hello, in the world of its last one. */
  lemma {:induction false} WorldIsOfLastHello(ops: seq<DbOp>, uuid: Uuid)
    ensures var db := AfterOps(EMPTY, ops);
            if uuid in db.worlds then
              && FirstHello(ops, uuid) == Some(db.worlds[uuid].peer)
              && LastHello(ops, uuid) == Some(db.worlds[uuid].worldId)
            else FirstHello(ops, uuid) == None && LastHello(ops, uuid) == None
  {
    if ops != [] { WorldIsOfLastHello(ops[..|ops| - 1], uuid); }
  }
}
