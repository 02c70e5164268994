/*
 * The client (ClientUDP/Network.cpp, ClientUDP/main_client.cpp): the check
 * of the server's RSP_CONNECT, the three datagrams the client builds, the
 * handlers of the receive thread, and the game rules the client runs itself
 * (Shoot, SpawnAsteroid, the collision check, the per-frame updates and the
 * dead-reckoning that brings server data up to the local clock).
 *
 * The globals of the program are the fields of one Client object, in the
 * state WaitGameStart leaves them: connected, running, with the slot the
 * server assigned.  Each handler is one method.  The float <-> word
 * conversions, cos/sin, the client's own random draws and the frame time are
 * parameters.
 */
module ClientSide {
  import opened Wire
  import opened Kinematics
  import opened Collision
  import opened Pools
  import opened Scoring
  import opened Records
  import opened Spawning

  const BulletSpeed: real := 1000.0

  /** cos/sin of a heading in degrees, as the unit vector the bullet flies along. */
  type Heading = real -> Vec2

  /** The velocity Shoot gives a bullet fired at angle. */
  function Muzzle(heading: Heading, angle: real): Vec2
  {
    var h := heading(angle);
    Vec2(h.x * BulletSpeed, h.y * BulletSpeed)
  }

  // ---------------------------------------------------------------------------
  // The datagrams the client builds

  /** CreateUpdate: STATE_UPDATE with the local clock and the local ship's record. */
  function CreateUpdate(appTime: real, ship: GameObject, enc: FloatToBits): (r: seq<byte>)
    ensures |r| == 33 && r[0] == Code(CStateUpdate)
  {
    LayoutSizes();
    Encode(StateUpdate(enc(appTime), RecordOf(ship, enc)))
  }

  /** The eight words of a STATE_UPDATE in wire order: time, pos, scale, rot, vel. */
  function UpdateWords(appTime: real, ship: GameObject, enc: FloatToBits): seq<u32>
  {
    [enc(appTime), enc(ship.t.pos.x), enc(ship.t.pos.y), enc(ship.t.scale.x), enc(ship.t.scale.y),
     enc(ship.t.rot), enc(ship.vel.x), enc(ship.vel.y)]
  }

  /** The server, reading word k of CreateUpdate's datagram at offset 1 + 4k, gets field k back. */
  lemma UpdateFieldAt(appTime: real, ship: GameObject, enc: FloatToBits, k: nat)
    requires k < 8
    ensures 1 + 4 * k + 4 <= |CreateUpdate(appTime, ship, enc)|
    ensures ReadBE32(CreateUpdate(appTime, ship, enc), 1 + 4 * k) == UpdateWords(appTime, ship, enc)[k]
  {
    var m := StateUpdate(enc(appTime), RecordOf(ship, enc));
    assert Fields(m) == UpdateWords(appTime, ship, enc);
    ReadWordAt(Code(CStateUpdate), Fields(m), k);
  }

  /**
   * CreateUpdate round trip: the server decodes the datagram as a
   * STATE_UPDATE, and with conversions exact on the clock and the ship's
   * values it reads back the local clock, the ship's transform and its velocity.
   */
  lemma UpdateRoundTrip(appTime: real, ship: GameObject, enc: FloatToBits, dec: BitsToFloat)
    requires dec(enc(appTime)) == appTime && Exact(ship, enc, dec)
    ensures var m := Decode(CreateUpdate(appTime, ship, enc));
      m.Some? && m.value.StateUpdate? &&
      dec(m.value.time) == appTime &&
      PosOf(m.value.state, dec) == ship.t.pos && ScaleOf(m.value.state, dec) == ship.t.scale &&
      dec(m.value.state.rot) == ship.t.rot && VelOf(m.value.state, dec) == ship.vel
  {
    StateUpdateRoundTrip(enc(appTime), RecordOf(ship, enc));
    RecordRoundTrip(ship, enc, dec);
  }

  /** CreateReqFire: the command byte 3, then the time of the shot. */
  function CreateReqFire(fireTime: real, enc: FloatToBits): (r: seq<byte>)
    ensures r == [3] + BE32(enc(fireTime))
  {
    var r := Encode(ReqFire(enc(fireTime)));
    assert Words([enc(fireTime)]) == BE32(enc(fireTime)) + Words([]);
    r
  }

  /** CreateReqConnect: the command byte 7 alone. */
  function CreateReqConnect(): (r: seq<byte>)
    ensures r == [7]
  {
    Encode(ReqConnect)
  }

  // ---------------------------------------------------------------------------
  // The RSP_CONNECT check of ConnectServer

  /** The receive buffer is zero-initialised, so bytes past the end of a short reply read as 0. */
  function Padded(s: seq<byte>, n: nat): (r: seq<byte>)
    ensures |r| >= n && |r| >= |s|
    ensures forall i :: 0 <= i < |s| ==> r[i] == s[i]
    ensures forall i :: |s| <= i < n ==> r[i] == 0
  {
    if |s| >= n then s else s + seq(n - |s|, _ => 0 as byte)
  }

  /**
   * The slot the client takes from the server's reply: none when nothing
   * came, when the first byte is not RSP_CONNECT, or when the index read at
   * offset 1 is outside 0..3.
   */
  function ConnectReply(s: seq<byte>): (slot: Option<nat>)
    ensures slot.Some? ==> slot.value < Players && |s| >= 1 && s[0] == Code(CRspConnect)
    ensures slot.Some? ==> slot.value as int == IntOfWord(ReadBE32(Padded(s, 5), 1))
  {
    if |s| == 0 || s[0] != Code(CRspConnect) then None
    else
      var n := IntOfWord(ReadBE32(Padded(s, 5), 1));
      if n < 0 || n > 3 then None else Some(n as nat)
  }

  /** A well-formed reply is taken exactly when the index it carries, read as a C++ int, is 0..3. */
  lemma ConnectReplyOf(w: u32)
    ensures ConnectReply(Encode(RspConnect(w))) ==
      if 0 <= IntOfWord(w) <= 3 then Some(IntOfWord(w) as nat) else None
  {
    var s := Encode(RspConnect(w));
    ReadWordAt(Code(CRspConnect), [w], 0);
    assert Padded(s, 5) == s;
  }

  /** The reply the server sends for slot k (0..3) gives the client slot k. */
  lemma ServerSlotTaken(k: nat)
    requires k < Players
    ensures ConnectReply(Encode(RspConnect(WordOfInt(k)))) == Some(k)
  {
    ConnectReplyOf(WordOfInt(k));
    IntWordRoundTrip(k);
  }

  // ---------------------------------------------------------------------------
  // What the handlers do to one value

  /** The pos, rot and vel of a record replace the object's; the decoded scale is not kept. */
  function Overwritten(go: GameObject, r: Record, dec: BitsToFloat): GameObject
  {
    go.(t := go.t.(pos := PosOf(r, dec), rot := dec(r.rot)), vel := VelOf(r, dec))
  }

  /**
   * ALL_UPDATE stamped ts, taken at local time now: the local player keeps
   * its own state; every other ship takes its record, dead-reckoned from ts
   * to now.
   */
  function AllState(ps: seq<Player>, local: nat, rs: seq<Record>, dec: BitsToFloat, now: real, ts: real): (qs: seq<Player>)
    requires |rs| == |ps|
    ensures |qs| == |ps|
    ensures local < |ps| ==> qs[local] == ps[local]
    ensures forall i :: 0 <= i < |ps| && i != local ==>
      qs[i].score == ps[i].score && qs[i].timestamp == ps[i].timestamp &&
      qs[i].go.t.scale == ps[i].go.t.scale && qs[i].go.t.rot == dec(rs[i].rot) && qs[i].go.vel == VelOf(rs[i], dec) &&
      qs[i].go.t.pos == DeadReckon(PosOf(rs[i], dec), VelOf(rs[i], dec), now - ts) &&
      qs[i].go.texid == ps[i].go.texid && qs[i].go.col == ps[i].go.col && qs[i].go.isActive == ps[i].go.isActive
  {
    seq(|ps|, i requires 0 <= i < |ps| =>
      if i == local then ps[i] else ps[i].(go := Interpolate(Overwritten(ps[i].go, rs[i], dec), now, ts)))
  }

  /**
   * ALL_UPDATE never touches the local player, and on every other ship it
   * changes only the position, rotation and velocity: scale, texture,
   * colour, flag and score stay.
   */
  lemma AllStateSparesLocal(ps: seq<Player>, local: nat, rs: seq<Record>, dec: BitsToFloat, now: real, ts: real)
    requires |rs| == |ps|
    ensures local < |ps| ==> AllState(ps, local, rs, dec, now, ts)[local] == ps[local]
    ensures forall i :: 0 <= i < |ps| ==> var q := AllState(ps, local, rs, dec, now, ts)[i];
      q.score == ps[i].score && q.timestamp == ps[i].timestamp &&
      q.go.t.scale == ps[i].go.t.scale && q.go.texid == ps[i].go.texid &&
      q.go.col == ps[i].go.col && q.go.isActive == ps[i].go.isActive
  {
  }

  /** A duplicated ALL_UPDATE (an equal timestamp is taken again) leaves what the first copy left. */
  lemma AllStateIdempotent(ps: seq<Player>, local: nat, rs: seq<Record>, dec: BitsToFloat, now: real, ts: real)
    requires |rs| == |ps|
    ensures var qs := AllState(ps, local, rs, dec, now, ts);
      AllState(qs, local, rs, dec, now, ts) == qs
  {
    var qs := AllState(ps, local, rs, dec, now, ts);
    var rs2 := AllState(qs, local, rs, dec, now, ts);
    forall i | 0 <= i < |ps|
      ensures rs2[i] == qs[i]
    {
      if i != local {
        assert Overwritten(qs[i].go, rs[i], dec) == Overwritten(ps[i].go, rs[i], dec);
      }
    }
  }

  /**
   * A remote ship whose record came from the server's object go (Snapshot
   * puts RecordOf(server[i].go) at index i), with conversions exact on go's
   * values, ends up where go is, dead-reckoned from ts to now, with go's
   * rotation and velocity.
   */
  lemma AllStateReconstructs(ps: seq<Player>, rs: seq<Record>, go: GameObject, local: nat,
                             enc: FloatToBits, dec: BitsToFloat, now: real, ts: real, i: nat)
    requires |rs| == |ps| && i < |ps| && i != local
    requires rs[i] == RecordOf(go, enc) && Exact(go, enc, dec)
    ensures var q := AllState(ps, local, rs, dec, now, ts)[i].go;
      q.t.pos == DeadReckon(go.t.pos, go.vel, now - ts) && q.t.rot == go.t.rot && q.vel == go.vel
  {
    RecordRoundTrip(go, enc, dec);
  }

  /** TIME_SYNC's overwrite of every ship, the local one included, with no dead-reckoning. */
  function Resynced(ps: seq<Player>, rs: seq<Record>, dec: BitsToFloat): (qs: seq<Player>)
    requires |rs| == |ps|
    ensures |qs| == |ps|
  {
    seq(|ps|, i requires 0 <= i < |ps| => ps[i].(go := Overwritten(ps[i].go, rs[i], dec)))
  }

  /**
   * TIME_SYNC is unconditional: whatever ALL_UPDATE was taken before it, the
   * ships end up the same, and the local ship takes the server's record too.
   */
  lemma ResyncedForgetsAllState(ps: seq<Player>, local: nat, rs0: seq<Record>, rs: seq<Record>, dec: BitsToFloat,
                                now: real, ts: real)
    requires |rs0| == |ps| && |rs| == |ps|
    ensures Resynced(AllState(ps, local, rs0, dec, now, ts), rs, dec) == Resynced(ps, rs, dec)
    ensures local < |ps| ==>
      Resynced(ps, rs, dec)[local].go.t.pos == PosOf(rs[local], dec) &&
      Resynced(ps, rs, dec)[local].go.vel == VelOf(rs[local], dec)
  {
    var a := AllState(ps, local, rs0, dec, now, ts);
    forall i | 0 <= i < |ps|
      ensures Resynced(a, rs, dec)[i] == Resynced(ps, rs, dec)[i]
    {
      if i != local {
        assert Overwritten(a[i].go, rs[i], dec) == Overwritten(ps[i].go, rs[i], dec);
      }
    }
  }

  /** The bullets after InterpolateGOsync: GameObject::Update only, so no lifetime is used up. */
  function SyncedBullets(bs: seq<Bullet>, d: real): seq<Bullet>
  {
    seq(|bs|, j requires 0 <= j < |bs| => bs[j].(go := Update(bs[j].go, Screen, d)))
  }

  /**
   * InterpolateGOsync keeps every bullet's lifetime, owner and flag, and
   * leaves inactive bullets as they were.
   */
  lemma SyncedBulletsKeep(bs: seq<Bullet>, d: real)
    ensures |SyncedBullets(bs, d)| == |bs|
    ensures forall j :: 0 <= j < |bs| ==> var b := SyncedBullets(bs, d)[j];
      b.lifeTime == bs[j].lifeTime && b.playerNO == bs[j].playerNO && b.go.isActive == bs[j].go.isActive &&
      (!bs[j].go.isActive ==> b == bs[j])
  {
  }

  /** The bullet loop of InterpolateGOsync: each active bullet moved by d, in place. */
  method SyncBullets(bs: seq<Bullet>, d: real) returns (r: seq<Bullet>)
    ensures r == SyncedBullets(bs, d)
  {
    r := bs;
    var j := 0;
    while j < |r|
      invariant 0 <= j <= |r| == |bs|
      invariant forall k :: 0 <= k < j ==> r[k] == bs[k].(go := Update(bs[k].go, Screen, d))
      invariant forall k :: j <= k < |r| ==> r[k] == bs[k]
    {
      if r[j].go.isActive {
        r := r[j := r[j].(go := Update(r[j].go, Screen, d))];
      }
      j := j + 1;
    }
  }

  /** The object loop of InterpolateGOsync: each active object moved by d, in place. */
  method SyncObjects(gs: seq<GameObject>, d: real) returns (r: seq<GameObject>)
    ensures r == MovedObjects(gs, d)
  {
    r := gs;
    var i := 0;
    while i < |r|
      invariant 0 <= i <= |r| == |gs|
      invariant forall k :: 0 <= k < i ==> r[k] == Update(gs[k], Screen, d)
      invariant forall k :: i <= k < |r| ==> r[k] == gs[k]
    {
      if r[i].isActive {
        r := r[i := Update(r[i], Screen, d)];
      }
      i := i + 1;
    }
  }

  /** The bullet InterpolatedShoot leaves in the pool. */
  function RelayedBullet(ship: GameObject, id: nat, local: nat, heading: Heading, now: real, ts: real): Bullet
  {
    var b := NewBullet(ship.t.pos, ship.t.rot, Muzzle(heading, ship.t.rot), ship.col, id);
    if id != local then b.(go := Interpolate(b.go, now, ts)) else b
  }

  /**
   * A shot relayed by RSP_FIRE leaves the shooter's ship in its heading and
   * colour; the local player's own shot shows at the ship, any other is
   * carried along its flight from ts to now.
   */
  lemma RelayedBulletPlacement(ship: GameObject, id: nat, local: nat, heading: Heading, now: real, ts: real)
    ensures var b := RelayedBullet(ship, id, local, heading, now, ts);
      var fired := NewBullet(ship.t.pos, ship.t.rot, Muzzle(heading, ship.t.rot), ship.col, id);
      b == fired.(go := fired.go.(t := fired.go.t.(pos := b.go.t.pos))) &&
      (id == local ==> b == fired) &&
      (id != local ==> b.go.t.pos == DeadReckon(ship.t.pos, Muzzle(heading, ship.t.rot), now - ts))
  {
  }

  /** The object list after ASTEROID_DESTROY carrying index: the entry it names, if any, is cleared. */
  function Destroyed(gs: seq<GameObject>, index: u32): (hs: seq<GameObject>)
    ensures |hs| == |gs|
  {
    var id := IntOfWord(index);
    if 0 <= id < |gs| then gs[id := Cleared(gs[id])] else gs
  }

  /**
   * The notice the server sends for entry i clears entry i on a client
   * whose list has it, and nothing else; on a shorter list it is ignored.
   */
  lemma DestroyNotice(gs: seq<GameObject>, i: nat)
    requires i < 0x8000_0000
    ensures Decode(Encode(AsteroidDestroy(WordOfInt(i)))) == Some(AsteroidDestroy(WordOfInt(i)))
    ensures var hs := Destroyed(gs, WordOfInt(i));
      (i < |gs| ==> !hs[i].isActive && hs[i] == gs[i].(isActive := false)) &&
      (forall j :: 0 <= j < |gs| && j != i ==> hs[j] == gs[j]) &&
      (i >= |gs| ==> hs == gs)
  {
    DecodeEncode(AsteroidDestroy(WordOfInt(i)));
    IntWordRoundTrip(i);
  }

  /** A negative index (a word of 2^31 or more) is ignored, and a repeated notice changes nothing more. */
  lemma DestroyGuard(gs: seq<GameObject>, index: u32)
    ensures index >= 0x8000_0000 ==> Destroyed(gs, index) == gs
    ensures Destroyed(Destroyed(gs, index), index) == Destroyed(gs, index)
  {
  }

  /** GAME_END's scores: each slot's score is the signed reading of its word. */
  function WithScores(ps: seq<Player>, ws: seq<u32>): (qs: seq<Player>)
    requires |ws| == |ps|
    ensures |qs| == |ps|
  {
    seq(|ps|, i requires 0 <= i < |ps| => ps[i].(score := IntOfWord(ws[i])))
  }

  /** The scores the server sends as htonl of a C++ int arrive unchanged, and only the scores change. */
  lemma ScoresArrive(ps: seq<Player>, scores: seq<int>)
    requires |scores| == |ps| && forall i :: 0 <= i < |scores| ==> IsInt32(scores[i])
    ensures var qs := WithScores(ps, seq(|scores|, i requires 0 <= i < |scores| => WordOfInt(scores[i])));
      forall i :: 0 <= i < |ps| ==> qs[i] == ps[i].(score := scores[i])
  {
    var ws := seq(|scores|, i requires 0 <= i < |scores| => WordOfInt(scores[i]));
    forall i | 0 <= i < |ps|
      ensures IntOfWord(ws[i]) == scores[i]
    {
      IntWordRoundTrip(scores[i]);
    }
  }

  /**
   * SpawnInterpolatedAsteroid's asteroid: the one SpawnAsteroid builds from
   * the draws, carried along its flight from the server's spawn time ts to now.
   */
  lemma CaughtUpAsteroid(d: SpawnDraws, now: real, ts: real)
    ensures var g := Interpolate(NewAsteroid(d), now, ts);
      LiveAsteroid(g) && g.vel == NewAsteroid(d).vel && g.t.scale == NewAsteroid(d).t.scale &&
      g.t.pos == DeadReckon(NewAsteroid(d).t.pos, NewAsteroid(d).vel, now - ts)
    ensures DrawsInRange(d) && now == ts ==>
      OffScreen(Interpolate(NewAsteroid(d), now, ts)) && HeadingIn(Interpolate(NewAsteroid(d), now, ts))
  {
    if DrawsInRange(d) && now == ts {
      InterpolateSameTime(NewAsteroid(d), now);
      SpawnEntersFromOutside(d);
    }
  }

  // ---------------------------------------------------------------------------
  // The client's collision check (tested: the local player only; credit: the local player)

  /**
   * The bullet pass credits only the local player: every other score stays
   * and the local score rises by 50 per asteroid a bullet destroyed.
   */
  lemma {:induction false} LocalCredit(f: Field, p: nat, m: nat, dt: real)
    requires p < |f.players| && m <= |f.bullets|
    ensures Creditable(f, Some(p))
    ensures var r := BulletPass(f, Some(p), m, dt);
      (forall q :: 0 <= q < |f.players| && q != p ==> r.players[q].score == f.players[q].score) &&
      r.players[p].score == f.players[p].score + ScorePerAsteroid * (|r.destroyed| - |f.destroyed|)
  {
    if m > 0 {
      LocalCredit(f, p, m - 1, dt);
      LocalCreditNext(f, p, m, dt);
    }
  }

  lemma LocalCreditNext(f: Field, p: nat, m: nat, dt: real)
    requires p < |f.players| && 0 < m <= |f.bullets| && Creditable(f, Some(p))
    requires var g := BulletPass(f, Some(p), m - 1, dt);
      (forall q :: 0 <= q < |f.players| && q != p ==> g.players[q].score == f.players[q].score) &&
      g.players[p].score == f.players[p].score + ScorePerAsteroid * (|g.destroyed| - |f.destroyed|)
    ensures var r := BulletPass(f, Some(p), m, dt);
      (forall q :: 0 <= q < |f.players| && q != p ==> r.players[q].score == f.players[q].score) &&
      r.players[p].score == f.players[p].score + ScorePerAsteroid * (|r.destroyed| - |f.destroyed|)
  {
    var g := BulletPass(f, Some(p), m - 1, dt);
    assert BulletPass(f, Some(p), m, dt) == BulletVsAsteroids(g, m - 1, Some(p), dt);
  }

  /**
   * The client's SimpleDynamicCollisionCheck changes no score but the local
   * player's, which loses 10 for each live asteroid its ship reaches and
   * gains 50 for each asteroid a bullet then destroys, whoever fired it.
   */
  lemma ClientCollisionScores(f: Field, p: nat, dt: real)
    requires p < |f.players|
    ensures Slots([p], |f.players|) && Creditable(f, Some(p))
    ensures var a := AsteroidPass(f, [p], |f.gos|, dt);
      var r := CollisionPass(f, [p], Some(p), dt);
      (forall q :: 0 <= q < |f.players| && q != p ==> r.players[q].score == f.players[q].score) &&
      r.players[p].score == f.players[p].score - NegScorePerHit * PlayerHits(f.players[p].go, f.gos, dt)
                             + ScorePerAsteroid * (|r.destroyed| - |a.destroyed|)
  {
    var a := AsteroidPass(f, [p], |f.gos|, dt);
    assert f.gos[..|f.gos|] == f.gos;
    assert Distinct([p]);
    forall q | 0 <= q < |f.players|
      ensures a.players[q].score == f.players[q].score -
        (if q == p then NegScorePerHit * PlayerHits(f.players[p].go, f.gos, dt) else 0)
    {
      AsteroidPassScore(f, [p], |f.gos|, dt, q);
    }
    LocalCredit(a, p, |a.bullets|, dt);
  }

  // ---------------------------------------------------------------------------
  // The client

  /** Everything a handler may change, for stating what it leaves alone. */
  datatype ClientState = ClientState(players: seq<Player>, bullets: seq<Bullet>, gos: seq<GameObject>,
                              appTime: real, latest: real, highscores: seq<ScoreRow>,
                              connected: bool, gameRunning: bool)

  class Client {
    /** The slot the server assigned, 0..3; it also picks the ship's colour. */
    const playerNO: nat
    const players: array<Player>
    var bulletlist: seq<Bullet>
    var golist: seq<GameObject>
    var appTime: real
    /** The time of the newest ALL_UPDATE or TIME_SYNC taken. */
    var latestServerUpdate: real
    /** The table GAME_END carries: five (score, date) pairs. */
    var highscores: seq<ScoreRow>
    var connected: bool
    var gameRunning: bool

    ghost predicate Valid()
      reads this
    {
      players.Length == Players && playerNO < Players && |highscores| == TableSize
    }

    function State(): ClientState
      reads this, players
    {
      ClientState(players[..], bulletlist, golist, appTime, latestServerUpdate, highscores, connected, gameRunning)
    }

    /**
     * The state once the server has answered and started the match: the
     * assigned slot, four ships at the origin in their slot colours, empty
     * pools, both clocks at zero.
     */
    constructor(playerNO: nat, colours: seq<Color>)
      requires playerNO < Players && |colours| == Players
      ensures Valid() && fresh(players) && this.playerNO == playerNO
      ensures forall i :: 0 <= i < Players ==> players[i] == InitialPlayer.(go := InitialPlayer.go.(col := colours[i]))
      ensures bulletlist == [] && golist == [] && appTime == 0.0 && latestServerUpdate == 0.0
      ensures highscores == seq(TableSize, _ => ScoreRow(0, 0)) && connected && gameRunning
    {
      this.playerNO := playerNO;
      players := new Player[Players](i requires 0 <= i < Players => InitialPlayer.(go := InitialPlayer.go.(col := colours[i])));
      bulletlist := [];
      golist := [];
      appTime := 0.0;
      latestServerUpdate := 0.0;
      highscores := seq(TableSize, _ => ScoreRow(0, 0));
      connected := true;
      gameRunning := true;
    }

    /**
     * Shoot: a bullet at pos and angle in the shooter's colour takes the
     * first inactive bullet, or is appended; the index written is returned.
     */
    method Shoot(pos: Vec2, angle: real, playerID: nat, heading: Heading) returns (k: nat)
      requires Valid() && playerID < Players
      modifies this
      ensures Valid()
      ensures k == FirstFreeBullet(old(bulletlist)) && k < |bulletlist|
      ensures State() == old(State()).(bullets := Placed(old(bulletlist), k,
        NewBullet(pos, angle, Muzzle(heading, angle), players[playerID].go.col, playerID)))
    {
      var b := NewBullet(pos, angle, Muzzle(heading, angle), players[playerID].go.col, playerID);
      k := FindFreeBullet(bulletlist);
      if k < |bulletlist| {
        bulletlist := bulletlist[k := b];
      } else {
        bulletlist := bulletlist + [b];
      }
    }

    /** InterpolatedShoot: the shooter's ship fires; a shot from another slot is carried from ts to the local clock. */
    method InterpolatedShoot(playerID: nat, ts: real, heading: Heading)
      requires Valid() && playerID < Players
      modifies this
      ensures Valid()
      ensures State() == old(State()).(bullets := Placed(old(bulletlist), FirstFreeBullet(old(bulletlist)),
        RelayedBullet(players[playerID].go, playerID, playerNO, heading, appTime, ts)))
    {
      var ship := players[playerID].go;
      var k := Shoot(ship.t.pos, ship.t.rot, playerID, heading);
      if playerID != playerNO {
        var b := bulletlist[k];
        bulletlist := bulletlist[k := b.(go := b.go.(t := b.go.t.(pos := DeadReckon(b.go.t.pos, b.go.vel, appTime - ts))))];
      }
    }

    /** RSP_FIRE: the slot it names fires; a slot outside 0..3 is ignored. */
    method ProcessRspFire(time: u32, player: u32, heading: Heading, dec: BitsToFloat)
      requires Valid()
      modifies this
      ensures Valid()
      ensures var id := IntOfWord(player);
        !(0 <= id < Players) ==> State() == old(State())
      ensures var id := IntOfWord(player);
        0 <= id < Players ==>
          State() == old(State()).(bullets := Placed(old(bulletlist), FirstFreeBullet(old(bulletlist)),
            RelayedBullet(players[id].go, id, playerNO, heading, appTime, dec(time))))
    {
      var id := IntOfWord(player);
      if 0 <= id < Players {
        InterpolatedShoot(id, dec(time), heading);
      }
    }

    /** SpawnAsteroid: the asteroid built from the draws takes the first reusable entry, or is appended. */
    method SpawnAsteroid(d: SpawnDraws) returns (k: nat)
      requires Valid()
      modifies this
      ensures Valid()
      ensures k == FirstReusable(old(golist)) && k < |golist|
      ensures State() == old(State()).(gos := Placed(old(golist), k, NewAsteroid(d)))
    {
      var g := NewAsteroid(d);
      k := FindReusable(golist);
      if k < |golist| {
        golist := golist[k := g];
      } else {
        golist := golist + [g];
      }
    }

    /** ASTEROID_SPAWN (SpawnInterpolatedAsteroid): the spawn, carried from the server's time ts to the local clock. */
    method ProcessAsteroidSpawn(time: u32, d: SpawnDraws, dec: BitsToFloat)
      requires Valid()
      modifies this
      ensures Valid()
      ensures State() == old(State()).(gos := Placed(old(golist), FirstReusable(old(golist)),
        Interpolate(NewAsteroid(d), appTime, dec(time))))
    {
      var k := SpawnAsteroid(d);
      var g := golist[k];
      golist := golist[k := g.(t := g.t.(pos := DeadReckon(g.t.pos, g.vel, appTime - dec(time))))];
    }

    /** ASTEROID_DESTROY: the entry the index names is cleared when it is in the list. */
    method ProcessAsteroidDestroy(index: u32)
      requires Valid()
      modifies this
      ensures Valid()
      ensures State() == old(State()).(gos := Destroyed(old(golist), index))
    {
      var id := IntOfWord(index);
      if 0 <= id < |golist| {
        golist := golist[id := golist[id].(isActive := false)];
      }
    }

    /**
     * ALL_UPDATE: a datagram older than the newest one taken is dropped;
     * otherwise every other slot takes its record, dead-reckoned to the
     * local clock, and its time becomes the newest.
     */
    method ProcessAllState(time: u32, states: seq<Record>, dec: BitsToFloat)
      requires Valid() && |states| == Players
      modifies this, players
      ensures Valid()
      ensures dec(time) < old(latestServerUpdate) ==> State() == old(State())
      ensures dec(time) >= old(latestServerUpdate) ==>
        State() == old(State()).(players := AllState(old(players[..]), playerNO, states, dec, appTime, dec(time)),
                               latest := dec(time))
    {
      var ts := dec(time);
      if ts < latestServerUpdate {
        return;
      }
      latestServerUpdate := ts;
      TakeShips(states, dec, ts);
    }

    /** The loop of ProcessAllState: every slot but the local one takes its record, dead-reckoned to the local clock. */
    method TakeShips(states: seq<Record>, dec: BitsToFloat, ts: real)
      requires Valid() && |states| == Players
      modifies players
      ensures players[..] == AllState(old(players[..]), playerNO, states, dec, appTime, ts)
    {
      var i := 0;
      while i < Players
        invariant 0 <= i <= Players
        invariant forall k :: 0 <= k < i ==>
          players[k] == AllState(old(players[..]), playerNO, states, dec, appTime, ts)[k]
        invariant forall k :: i <= k < Players ==> players[k] == old(players[k])
      {
        if i != playerNO {
          var go := Overwritten(players[i].go, states[i], dec);
          players[i] := players[i].(go := go.(t := go.t.(pos := DeadReckon(go.t.pos, go.vel, appTime - ts))));
        }
        i := i + 1;
      }
    }

    /**
     * TIME_SYNC: taken whatever its time.  Every ship, the local one
     * included, takes its record; active bullets and objects move by the
     * gap from the local clock to ts; both clocks become ts.
     */
    method ProcessTimeSync(time: u32, states: seq<Record>, dec: BitsToFloat)
      requires Valid() && |states| == Players
      modifies this, players
      ensures Valid()
      ensures State() == old(State()).(players := Resynced(old(players[..]), states, dec),
                                     bullets := SyncedBullets(old(bulletlist), dec(time) - old(appTime)),
                                     gos := MovedObjects(old(golist), dec(time) - old(appTime)),
                                     appTime := dec(time), latest := dec(time))
    {
      var ts := dec(time);
      latestServerUpdate := ts;
      OverwriteShips(states, dec);
      InterpolateGOsync(ts);
      appTime := ts;
    }

    /** The loop of ProcessTimeSync: every slot, the local one included, takes its record. */
    method OverwriteShips(states: seq<Record>, dec: BitsToFloat)
      requires Valid() && |states| == Players
      modifies players
      ensures players[..] == Resynced(old(players[..]), states, dec)
    {
      var i := 0;
      while i < Players
        invariant 0 <= i <= Players
        invariant forall k :: 0 <= k < i ==> players[k] == old(players[k]).(go := Overwritten(old(players[k]).go, states[k], dec))
        invariant forall k :: i <= k < Players ==> players[k] == old(players[k])
      {
        players[i] := players[i].(go := Overwritten(players[i].go, states[i], dec));
        i := i + 1;
      }
    }

    /** InterpolateGOsync: every active bullet and object moves by ts minus the local clock. */
    method InterpolateGOsync(ts: real)
      requires Valid()
      modifies this
      ensures Valid()
      ensures State() == old(State()).(bullets := SyncedBullets(old(bulletlist), ts - appTime),
                                     gos := MovedObjects(old(golist), ts - appTime))
    {
      var offset := ts - appTime;
      bulletlist := SyncBullets(bulletlist, offset);
      golist := SyncObjects(golist, offset);
    }

    /** GAME_END: the table and the four scores are taken, and the match is over. */
    method ProcessGameEnd(table: seq<ScoreRow>, scores: seq<u32>)
      requires Valid() && |table| == TableSize && |scores| == Players
      modifies this, players
      ensures Valid()
      ensures State() == old(State()).(players := WithScores(old(players[..]), scores), highscores := table,
                                     connected := false, gameRunning := false)
    {
      highscores := table;
      TakeScores(scores);
      connected := false;
      gameRunning := false;
    }

    /** The score loop of ProcessGameEnd. */
    method TakeScores(scores: seq<u32>)
      requires Valid() && |scores| == Players
      modifies players
      ensures players[..] == WithScores(old(players[..]), scores)
    {
      var q := 0;
      while q < Players
        invariant 0 <= q <= Players
        invariant forall k :: 0 <= k < q ==> players[k] == old(players[k]).(score := IntOfWord(scores[k]))
        invariant forall k :: q <= k < Players ==> players[k] == old(players[k])
      {
        players[q] := players[q].(score := IntOfWord(scores[q]));
        q := q + 1;
      }
    }

    /**
     * One iteration of the receive thread, which runs while the client is
     * connected: the six commands the client handles are dispatched; a
     * datagram that does not decode, or carries any other command, changes
     * nothing.  Once GAME_END has cleared `connected` the thread has
     * stopped and no datagram is handled.
     */
    method Receive(datagram: seq<byte>, d: SpawnDraws, heading: Heading, dec: BitsToFloat)
      requires Valid()
      modifies this, players
      ensures Valid()
      ensures !old(connected) ==> State() == old(State())
      ensures var m := Decode(datagram);
        m.None? || !(m.value.AllUpdate? || m.value.AsteroidSpawn? || m.value.AsteroidDestroy? ||
                     m.value.RspFire? || m.value.TimeSync? || m.value.GameEnd?) ==>
          State() == old(State())
      ensures var m := Decode(datagram);
        old(connected) && m.Some? && m.value.AsteroidDestroy? ==>
          State() == old(State()).(gos := Destroyed(old(golist), m.value.index))
      ensures var m := Decode(datagram);
        m.Some? && m.value.AllUpdate? && dec(m.value.time) < old(latestServerUpdate) ==> State() == old(State())
      ensures var m := Decode(datagram);
        old(connected) && m.Some? && m.value.GameEnd? ==>
          State() == old(State()).(players := WithScores(old(players[..]), m.value.scores), highscores := m.value.table,
                                 connected := false, gameRunning := false)
    {
      if !connected {
        return;
      }
      match Decode(datagram)
      case Some(AllUpdate(time, states)) =>
        ProcessAllState(time, states, dec);
      case Some(AsteroidSpawn(time)) =>
        ProcessAsteroidSpawn(time, d, dec);
      case Some(AsteroidDestroy(index)) =>
        ProcessAsteroidDestroy(index);
      case Some(RspFire(time, player)) =>
        ProcessRspFire(time, player, heading, dec);
      case Some(TimeSync(time, states)) =>
        ProcessTimeSync(time, states, dec);
      case Some(GameEnd(table, scores)) =>
        ProcessGameEnd(table, scores);
      case _ =>
    }

    /** The per-frame updates of the main loop: the clock, every ship, every object, every bullet. */
    method Frame(dt: real)
      requires Valid()
      modifies this, players
      ensures Valid()
      ensures State() == old(State()).(players := MovedPlayers(old(players[..]), dt),
                                     bullets := MovedBullets(old(bulletlist), dt),
                                     gos := MovedObjects(old(golist), dt), appTime := old(appTime) + dt)
    {
      appTime := appTime + dt;
      MoveShips(dt);
      golist := MoveObjects(golist, dt);
      bulletlist := MoveBullets(bulletlist, dt);
    }

    /** The ship loop of the main loop: each ship updated in place. */
    method MoveShips(dt: real)
      requires Valid()
      modifies players
      ensures players[..] == MovedPlayers(old(players[..]), dt)
    {
      var q := 0;
      while q < Players
        invariant 0 <= q <= Players
        invariant forall r :: 0 <= r < q ==> players[r] == old(players[r]).(go := Update(old(players[r]).go, Screen, dt))
        invariant forall r :: q <= r < Players ==> players[r] == old(players[r])
      {
        players[q] := players[q].(go := Update(players[q].go, Screen, dt));
        q := q + 1;
      }
    }

    /**
     * SimpleDynamicCollisionCheck on the client: the two passes of
     * Scoring.CollisionPass with only the local ship tested and every bullet
     * hit credited to the local player.
     */
    method SimpleDynamicCollisionCheck(dt: real)
      requires Valid()
      modifies this, players
      ensures Valid()
      ensures var f := CollisionPass(Field(old(players[..]), old(bulletlist), old(golist), []), [playerNO], Some(playerNO), dt);
        State() == old(State()).(players := f.players, bullets := f.bullets, gos := f.gos)
    {
      var gos, d := ShipPass(dt);
      var bullets;
      bullets, gos, d := BulletsPass(gos, d, dt);
      golist := gos;
      bulletlist := bullets;
    }

    /** The first loop: every live asteroid against the local ship. */
    method ShipPass(dt: real) returns (gos: seq<GameObject>, d: seq<nat>)
      requires Valid()
      modifies players
      ensures Field(players[..], bulletlist, gos, d) ==
        AsteroidPass(Field(old(players[..]), bulletlist, golist, []), [playerNO], |golist|, dt)
    {
      ghost var f0 := Field(players[..], bulletlist, golist, []);
      gos, d := golist, [];
      var i := 0;
      while i < |gos|
        invariant 0 <= i <= |gos| == |golist|
        invariant Field(players[..], bulletlist, gos, d) == AsteroidPass(f0, [playerNO], i, dt)
      {
        if LiveAsteroid(gos[i]) {
          gos, d := HitShip(gos, i, d, dt, bulletlist);
        }
        i := i + 1;
      }
    }

    /** One step of the first loop: the local ship against live asteroid i. */
    method HitShip(gos0: seq<GameObject>, i: nat, d0: seq<nat>, dt: real, ghost bullets: seq<Bullet>)
      returns (gos: seq<GameObject>, d: seq<nat>)
      requires Valid() && i < |gos0|
      modifies players
      ensures Field(players[..], bullets, gos, d) ==
        PlayersVsAsteroid(Field(old(players[..]), bullets, gos0, d0), [playerNO], i, dt)
    {
      ghost var g := Field(players[..], bullets, gos0, d0);
      assert [playerNO][..0] == [];
      assert PlayersVsAsteroid(g, [playerNO], i, dt) == PlayerVsAsteroid(g, playerNO, i, dt);
      gos, d := gos0, d0;
      if IsWithinDistanceCheckDynamic(players[playerNO].go, gos[i], dt) {
        players[playerNO] := players[playerNO].(score := players[playerNO].score - NegScorePerHit);
        gos := gos[i := gos[i].(isActive := false)];
        d := d + [i];
      }
    }

    /** The second loop: each active bullet against the first live asteroid it reaches. */
    method BulletsPass(gos0: seq<GameObject>, d0: seq<nat>, dt: real)
      returns (bullets: seq<Bullet>, gos: seq<GameObject>, d: seq<nat>)
      requires Valid()
      modifies players
      ensures Field(players[..], bullets, gos, d) ==
        BulletPass(Field(old(players[..]), bulletlist, gos0, d0), Some(playerNO), |bulletlist|, dt)
    {
      ghost var a := Field(players[..], bulletlist, gos0, d0);
      bullets, gos, d := bulletlist, gos0, d0;
      var j := 0;
      while j < |bullets|
        invariant 0 <= j <= |bullets| == |bulletlist|
        invariant Field(players[..], bullets, gos, d) == BulletPass(a, Some(playerNO), j, dt)
      {
        bullets, gos, d := HitByBullet(j, bullets, gos, d, dt);
        j := j + 1;
      }
    }

    /** One step of the second loop: bullet j, when active, against the object list. */
    method HitByBullet(j: nat, bullets0: seq<Bullet>, gos0: seq<GameObject>, d0: seq<nat>, dt: real)
      returns (bullets: seq<Bullet>, gos: seq<GameObject>, d: seq<nat>)
      requires Valid() && j < |bullets0|
      modifies players
      ensures Field(players[..], bullets, gos, d) ==
        BulletVsAsteroids(Field(old(players[..]), bullets0, gos0, d0), j, Some(playerNO), dt)
    {
      bullets, gos, d := bullets0, gos0, d0;
      if bullets[j].go.isActive {
        var b := bullets[j];
        var k := FindFirstHit(b.go, gos, dt);
        if k < |gos| {
          bullets := bullets[j := b.(go := b.go.(isActive := false))];
          gos := gos[k := gos[k].(isActive := false)];
          players[playerNO] := players[playerNO].(score := players[playerNO].score + ScorePerAsteroid);
          d := d + [k];
        }
      }
    }
  }
}
