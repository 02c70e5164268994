/*
 * The authoritative server (ServerUDP/main_server.cpp): admission of
 * clients, the handlers for REQ_FIRE and STATE_UPDATE, the send thread's
 * GAME_START / ALL_UPDATE / TIME_SYNC broadcasts, asteroid spawning, the
 * collision pass with its ASTEROID_DESTROY notices, and the end of the
 * match with the highscore table.
 *
 * The globals of the program are the fields of one Server object.  Each
 * thread's loop body is one method: Receive handles one datagram, SendTick
 * is one iteration of the send thread, Frame one iteration of the main loop.
 * What leaves the server is returned as a list of datagrams, each either for
 * one address or for every admitted client.  The frame time, the random
 * draws, cos/sin, the float <-> word conversions, the clock and the
 * highscore file's lines are parameters.
 */
module ServerSide {
  import opened Wire
  import opened Kinematics
  import opened Collision
  import opened Pools
  import opened Scoring
  import opened Records
  import opened HighscoreTable
  import opened Spawning

  const TotalTime: real := 60.0
  const AsteroidSpawnSpeed: real := 2.0
  const BulletSpeed: real := 1000.0
  const TimeSyncPeriod: real := 5.0

  /** Every player slot, in order: the server tests all four in the first collision pass. */
  const AllSlots: seq<nat> := seq(Players, i requires 0 <= i => i as nat)

  /** Extending the prefix of AllSlots by one slot appends that slot. */
  lemma SlotsStep(p: nat)
    requires p < Players
    ensures AllSlots[..p + 1] == AllSlots[..p] + [p]
  {
  }

  datatype Dest = Peer(addr: string) | AllClients

  /** One outgoing datagram: where it goes and its bytes. */
  datatype Datagram = Datagram(to: Dest, bytes: seq<byte>)

  function Broadcast(m: Message): Datagram
    requires m.WellFormed()
  {
    Datagram(AllClients, Encode(m))
  }

  /** The ASTEROID_DESTROY notice for object-list index i. */
  function Notice(i: nat): Datagram
  {
    Broadcast(AsteroidDestroy(WordOfInt(i)))
  }

  /** One notice per reported index, in report order. */
  function Notices(ds: seq<nat>): (r: seq<Datagram>)
    ensures |r| == |ds|
    ensures forall k :: 0 <= k < |ds| ==> r[k] == Notice(ds[k])
  {
    if ds == [] then [] else Notices(ds[..|ds| - 1]) + [Notice(ds[|ds| - 1])]
  }

  /** cos and sin of an angle given in degrees. */
  type Heading = real -> Vec2

  // ---------------------------------------------------------------------------
  // Admission

  /**
   * The slot RSP_CONNECT announces, as written: the number of clients
   * before the request, even when the sender is already admitted.
   */
  function AdmitReplyAsWritten(clients: set<string>, index: map<string, nat>, from: string): nat
  {
    |clients|
  }

  /**
   * The admission bookkeeping: the indexed addresses are the admitted
   * ones, and they hold pairwise different slots below the number of
   * admitted clients, i.e. exactly the slots 0 .. |clients| - 1.
   */
  predicate SlotsValid(clients: set<string>, index: map<string, nat>)
  {
    index.Keys == clients &&
    (forall a :: a in index ==> index[a] < |clients|) &&
    (forall a, b :: a in index && b in index && a != b ==> index[a] != index[b])
  }

  /**
   * The slot the sender holds once admitted: its stored slot when it is
   * already known (the map insert does not overwrite), else the next one.
   */
  function AdmitSlot(clients: set<string>, index: map<string, nat>, from: string): (k: nat)
    requires SlotsValid(clients, index)
    ensures k <= |clients|
    ensures from in index ==> k == index[from]
    ensures from !in index ==> k == |clients| && forall a :: a in index ==> index[a] != k
  {
    if from in index then index[from] else |clients|
  }

  /**
   * As written, a second REQ_CONNECT from an admitted address is answered
   * with a slot that is not the one the server stores for it, so that
   * client would steer another player's ship.
   */
  lemma RepeatConnectAsWritten(clients: set<string>, index: map<string, nat>, from: string)
    requires SlotsValid(clients, index)
    requires from in index
    ensures AdmitReplyAsWritten(clients, index, from) != index[from]
    ensures AdmitSlot(clients, index, from) == index[from]
  {
  }

  /** Admitting an address, new or known, keeps every slot distinct and in range. */
  lemma AdmitKeepsSlots(clients: set<string>, index: map<string, nat>, from: string)
    requires SlotsValid(clients, index)
    ensures SlotsValid(clients + {from}, index[from := AdmitSlot(clients, index, from)])
  {
    if from in index {
      assert clients + {from} == clients;
      assert index[from := index[from]] == index;
    } else {
      AdmitNewKeepsSlots(clients, index, from);
    }
  }

  /** A new address takes the next slot, |clients|, which no admitted address holds. */
  lemma AdmitNewKeepsSlots(clients: set<string>, index: map<string, nat>, from: string)
    requires SlotsValid(clients, index) && from !in index
    ensures SlotsValid(clients + {from}, index[from := |clients|])
  {
    var index' := index[from := |clients|];
    assert |clients + {from}| == |clients| + 1;
    forall a, b | a in index' && b in index' && a != b
      ensures index'[a] != index'[b]
    {
      if a != from && b != from {
        assert index'[a] == index[a] && index'[b] == index[b];
      }
    }
  }

  /** A concrete case: two players expected, one admitted at slot 0, which asks again. */
  lemma RepeatConnectExample(clients: set<string>, index: map<string, nat>)
    requires clients == {"10.0.0.2:5000"} && index == map["10.0.0.2:5000" := 0]
    ensures |clients| < 2
    ensures AdmitReplyAsWritten(clients, index, "10.0.0.2:5000") == 1
    ensures AdmitSlot(clients, index, "10.0.0.2:5000") == 0
  {
  }

  // ---------------------------------------------------------------------------
  // STATE_UPDATE

  /**
   * A STATE_UPDATE stamped ts arriving for player p at server time now: a
   * datagram no newer than the last one taken is dropped; otherwise the
   * sender's transform and velocity replace p's, dead-reckoned from ts to now.
   */
  function Accept(p: Player, ts: real, r: Record, dec: BitsToFloat, now: real): (q: Player)
    ensures q.score == p.score && q.go.texid == p.go.texid && q.go.col == p.go.col
    ensures q.go.isActive == p.go.isActive
    ensures ts <= p.timestamp ==> q == p
    ensures ts > p.timestamp ==>
      q.timestamp == ts && q.go.t.scale == ScaleOf(r, dec) && q.go.t.rot == dec(r.rot) && q.go.vel == VelOf(r, dec) &&
      q.go.t.pos.x == dec(r.posX) + dec(r.velX) * (now - ts) &&
      q.go.t.pos.y == dec(r.posY) + dec(r.velY) * (now - ts)
  {
    if ts > p.timestamp then
      var go := p.go.(t := Transform(PosOf(r, dec), ScaleOf(r, dec), dec(r.rot)), vel := VelOf(r, dec));
      Player(Interpolate(go, now, ts), p.score, ts)
    else p
  }

  /** A stale or duplicated datagram changes nothing. */
  lemma AcceptStale(p: Player, ts: real, r: Record, dec: BitsToFloat, now: real)
    requires ts <= p.timestamp
    ensures Accept(p, ts, r, dec, now) == p
  {
  }

  /** Receiving the same datagram twice has the effect of receiving it once. */
  lemma AcceptIdempotent(p: Player, ts: real, r: Record, dec: BitsToFloat, now: real, later: real)
    ensures var q := Accept(p, ts, r, dec, now);
      Accept(q, ts, r, dec, later) == q
  {
  }

  /** An older datagram overtaken by a newer one is dropped when it arrives. */
  lemma AcceptReordered(p: Player, ts1: real, r1: Record, ts2: real, r2: Record,
                        dec: BitsToFloat, now1: real, now2: real)
    requires ts1 < ts2
    ensures var q := Accept(p, ts2, r2, dec, now1);
      Accept(q, ts1, r1, dec, now2) == q
  {
  }

  /**
   * With conversions exact on the sender's values, a fresh datagram built
   * from the sender's object go leaves the server holding go's transform and velocity,
   * moved on by vel * (now - ts); the slot's score, texture, colour and flag stay.
   */
  lemma AcceptReconstructs(p: Player, go: GameObject, ts: real, enc: FloatToBits, dec: BitsToFloat, now: real)
    requires Exact(go, enc, dec)
    requires ts > p.timestamp
    ensures Accept(p, ts, RecordOf(go, enc), dec, now) ==
      Player(Interpolate(p.go.(t := go.t, vel := go.vel), now, ts), p.score, ts)
  {
    RecordRoundTrip(go, enc, dec);
  }

  // ---------------------------------------------------------------------------
  // TIME_SYNC timing

  /** x / y rounded toward zero. */
  function TruncDiv(x: real, y: real): real
    requires y > 0.0
  {
    var q := x / y;
    if q >= 0.0 then q.Floor as real else -((-q).Floor as real)
  }

  /** y times a fraction of magnitude below one stays within y of zero, on the fraction's side. */
  lemma ScaledFraction(y: real, a: real)
    requires y > 0.0
    ensures 0.0 <= a < 1.0 ==> 0.0 <= Mul(y, a) < y
    ensures -1.0 < a <= 0.0 ==> -y < Mul(y, a) <= 0.0
  {
    assert Mul(y, 1.0 - a) == y - Mul(y, a);
    assert Mul(y, 1.0 + a) == y + Mul(y, a);
    ProductSign(y, a);
    ProductSign(y, 1.0 - a);
    ProductSign(y, 1.0 + a);
  }

  lemma FmodBounds(x: real, y: real)
    requires y > 0.0
    ensures x >= 0.0 ==> 0.0 <= x - y * TruncDiv(x, y) < y
    ensures x < 0.0 ==> -y < x - y * TruncDiv(x, y) <= 0.0
  {
    var q := x / y;
    var n := TruncDiv(x, y);
    assert x - y * n == Mul(y, q - n) by {
      assert x == y * q;
    }
    ScaledFraction(y, q - n);
    if x >= 0.0 {
      assert q >= 0.0 by { QuotientSign(x, y); }
    } else {
      assert q < 0.0 by { QuotientSign(x, y); }
    }
  }

  lemma QuotientSign(x: real, y: real)
    requires y > 0.0
    ensures x >= 0.0 <==> x / y >= 0.0
  {
    assert x == Mul(y, x / y);
    ProductSign(y, x / y);
    ProductSign(y, -(x / y));
    assert Mul(y, -(x / y)) == -Mul(y, x / y);
  }

  /** C's fmod for a positive divisor: x minus y times x / y truncated toward zero. */
  function Fmod(x: real, y: real): (r: real)
    requires y > 0.0
    ensures x >= 0.0 ==> 0.0 <= r < y
    ensures x < 0.0 ==> -y < r <= 0.0
  {
    FmodBounds(x, y);
    x - y * TruncDiv(x, y)
  }

  /** The send thread adds a TIME_SYNC when appTime is within 0.005 s past a multiple of five seconds. */
  predicate SyncDue(appTime: real)
  {
    Fmod(appTime, TimeSyncPeriod) < 0.005
  }

  /** Every whole multiple of the period is a sync instant. */
  lemma SyncDueAtPeriods(k: nat)
    ensures SyncDue(TimeSyncPeriod * k as real)
  {
    var x := TimeSyncPeriod * k as real;
    assert x / TimeSyncPeriod == k as real;
    assert (k as real).Floor == k;
  }

  /** Halfway between two sync instants no TIME_SYNC is sent. */
  lemma NoSyncBetweenPeriods(k: nat)
    ensures !SyncDue(TimeSyncPeriod * k as real + 2.5)
  {
    var x := TimeSyncPeriod * k as real + 2.5;
    assert x / TimeSyncPeriod == k as real + 0.5;
    assert (k as real + 0.5).Floor == k;
  }

  // ---------------------------------------------------------------------------
  // GAME_END

  /** The highscore rows as GAME_END carries them: htonl of the score, htonll of the date. */
  function Rows(es: seq<Highscore>): (rows: seq<ScoreRow>)
    ensures |rows| == |es|
    ensures forall i :: 0 <= i < |es| ==>
      rows[i] == ScoreRow(WordOfInt(es[i].score), Word64OfInt(es[i].playDate))
  {
    if es == [] then []
    else Rows(es[..|es| - 1]) + [ScoreRow(WordOfInt(es[|es| - 1].score), Word64OfInt(es[|es| - 1].playDate))]
  }

  /** Every slot's score, as htonl words, in slot order. */
  function Scores(ps: seq<Player>): (ws: seq<u32>)
    ensures |ws| == |ps|
    ensures forall i :: 0 <= i < |ps| ==> ws[i] == WordOfInt(ps[i].score)
  {
    if ps == [] then [] else Scores(ps[..|ps| - 1]) + [WordOfInt(ps[|ps| - 1].score)]
  }

  /** A client reading GAME_END gets back every slot's 32-bit score. */
  lemma GameEndScores(es: seq<Highscore>, ps: seq<Player>, i: nat)
    requires |es| == TableSize && |ps| == Players && i < Players
    requires IsInt32(ps[i].score)
    ensures var m := Decode(Encode(GameEnd(Rows(es), Scores(ps))));
      m.Some? && m.value.GameEnd? && IntOfWord(m.value.scores[i]) == ps[i].score
  {
    DecodeEncode(GameEnd(Rows(es), Scores(ps)));
    IntWordRoundTrip(ps[i].score);
  }

  // ---------------------------------------------------------------------------
  // The server

  /** keepRunning (both threads loop), gameStart (the match is on), hasStarted (GAME_START was sent). */
  datatype Flags = Flags(keepRunning: bool, gameStart: bool, hasStarted: bool)

  /** The match time left, the time since the match started, and the spawn countdown. */
  datatype Clocks = Clocks(timer: real, appTime: real, countDown: real)

  class Server {
    /** TOTAL_PLAYERS: how many clients the match waits for (1 in this build). */
    const totalPlayers: nat
    /** Admitted addresses, "IP:port". */
    var clients: set<string>
    var playersIndex: map<string, nat>
    const playersInfo: array<Player>
    var bulletlist: seq<Bullet>
    var golist: seq<GameObject>
    var keepRunning: bool
    var gameStart: bool
    var hasStarted: bool
    var timer: real
    var appTime: real
    /** The main loop's static spawn countdown. */
    var countDown: real
    const table: Table

    /**
     * Every admitted address has its own slot below the number of admitted
     * clients (so the slots in use are exactly 0 .. |clients| - 1), and every
     * bullet belongs to a player slot.
     */
    ghost predicate Valid()
      reads this, table
    {
      1 <= totalPlayers <= Players &&
      playersInfo.Length == Players &&
      table.Valid() &&
      SlotsValid(clients, playersIndex) &&
      |clients| <= totalPlayers &&
      (forall j :: 0 <= j < |bulletlist| ==> 0 <= bulletlist[j].playerNO < Players)
    }

    /** The admitted addresses and their slots. */
    function Roster(): (set<string>, map<string, nat>)
      reads this
    {
      (clients, playersIndex)
    }

    /** The bullet pool and the object list. */
    function Objects(): (seq<Bullet>, seq<GameObject>)
      reads this
    {
      (bulletlist, golist)
    }

    function RunFlags(): Flags
      reads this
    {
      Flags(keepRunning, gameStart, hasStarted)
    }

    function Timers(): Clocks
      reads this
    {
      Clocks(timer, appTime, countDown)
    }

    /** Admission, the flags and the clocks are as they were. */
    twostate predicate RosterKept()
      reads this
    {
      Roster() == old(Roster()) && RunFlags() == old(RunFlags()) && Timers() == old(Timers())
    }

    /** The state at start-up: no clients, four players at the origin, a blank table. */
    constructor(totalPlayers: nat)
      requires 1 <= totalPlayers <= Players
      ensures Valid() && fresh(playersInfo) && fresh(table) && fresh(table.entries)
      ensures this.totalPlayers == totalPlayers
      ensures clients == {} && playersIndex == map[] && bulletlist == [] && golist == []
      ensures forall i :: 0 <= i < Players ==> playersInfo[i] == InitialPlayer
      ensures keepRunning && !gameStart && !hasStarted
      ensures timer == TotalTime && appTime == 0.0 && countDown == 0.0
      ensures forall i :: 0 <= i < Size ==> table.entries[i] == Blank
    {
      this.totalPlayers := totalPlayers;
      clients := {};
      playersIndex := map[];
      playersInfo := new Player[Players](_ => InitialPlayer);
      bulletlist := [];
      golist := [];
      keepRunning := true;
      gameStart := false;
      hasStarted := false;
      timer := TotalTime;
      appTime := 0.0;
      countDown := 0.0;
      table := new Table();
    }

    /** The slot the handlers use for a sender: its stored slot, or 0 for an unknown address. */
    function SenderSlot(from: string): (k: nat)
      reads this, table
      requires Valid()
      ensures k < totalPlayers
      ensures from in playersIndex ==> k == playersIndex[from]
      ensures from !in playersIndex ==> k == 0
    {
      if from in playersIndex then playersIndex[from] else 0
    }

    /**
     * REQ_CONNECT: while the match is not full the sender is admitted and
     * told its slot, which is the slot the server will use for its later
     * datagrams; the request that fills the match starts it and resets
     * appTime.  A request to a full match is ignored.
     */
    method ReceiveConnect(from: string) returns (out: seq<Datagram>)
      requires Valid()
      modifies this
      ensures Valid() && Objects() == old(Objects())
      ensures old(|clients|) >= totalPlayers ==> RosterKept() && out == []
      ensures old(|clients|) < totalPlayers ==>
        Roster() == (old(clients) + {from}, old(playersIndex)[from := AdmitSlot(old(clients), old(playersIndex), from)]) &&
        out == [Datagram(Peer(from), Encode(RspConnect(WordOfInt(SenderSlot(from)))))] &&
        RunFlags() == Flags(old(keepRunning), old(gameStart) || |clients| == totalPlayers, old(hasStarted)) &&
        Timers() == Clocks(old(timer), if |clients| == totalPlayers then 0.0 else old(appTime), old(countDown))
    {
      out := [];
      if |clients| < totalPlayers {
        var slot := Admit(from);
        StartIfFull();
        out := [Datagram(Peer(from), Encode(RspConnect(WordOfInt(slot))))];
      }
    }

    /** The roster half of REQ_CONNECT: the sender joins, keeping its slot or taking the next one. */
    method Admit(from: string) returns (slot: nat)
      requires Valid() && |clients| < totalPlayers
      modifies this
      ensures Valid() && Objects() == old(Objects()) && RunFlags() == old(RunFlags()) && Timers() == old(Timers())
      ensures slot == AdmitSlot(old(clients), old(playersIndex), from)
      ensures Roster() == (old(clients) + {from}, old(playersIndex)[from := slot])
    {
      // the insert keeps an existing entry, whose slot is `slot` already
      slot := AdmitSlot(clients, playersIndex, from);
      AdmitKeepsSlots(clients, playersIndex, from);
      playersIndex := playersIndex[from := slot];
      clients := clients + {from};
    }

    /** The match starts, with appTime reset, once every expected client is admitted. */
    method StartIfFull()
      requires Valid()
      modifies this
      ensures Valid() && Objects() == old(Objects()) && Roster() == old(Roster())
      ensures RunFlags() == Flags(old(keepRunning), old(gameStart) || |clients| == totalPlayers, old(hasStarted))
      ensures Timers() == Clocks(old(timer), if |clients| == totalPlayers then 0.0 else old(appTime), old(countDown))
    {
      if |clients| == totalPlayers {
        gameStart := true;
        appTime := 0.0;
      }
    }

    /**
     * Shoot: a 10x10 bullet at pos and angle, flying at BULLET_SPEED along
     * the heading, in the shooter's colour, placed in the first inactive
     * bullet or appended.
     */
    method Shoot(pos: Vec2, angle: real, playerID: nat, heading: Heading)
      requires Valid() && playerID < Players
      modifies this
      ensures Valid() && RosterKept() && golist == old(golist)
      ensures var h := heading(angle);
        bulletlist == Placed(old(bulletlist), FirstFreeBullet(old(bulletlist)),
                             NewBullet(pos, angle, Vec2(h.x * BulletSpeed, h.y * BulletSpeed),
                                       playersInfo[playerID].go.col, playerID))
    {
      var h := heading(angle);
      var b := NewBullet(pos, angle, Vec2(h.x * BulletSpeed, h.y * BulletSpeed), playersInfo[playerID].go.col, playerID);
      var k := FindFreeBullet(bulletlist);
      if k < |bulletlist| {
        bulletlist := bulletlist[k := b];
      } else {
        bulletlist := bulletlist + [b];
      }
    }

    /**
     * REQ_FIRE: every client is told, with the server's time, which slot
     * fired, and that slot's ship fires from where the server has it.
     */
    method ReceiveFire(from: string, heading: Heading, enc: FloatToBits) returns (out: seq<Datagram>)
      requires Valid()
      modifies this
      ensures Valid() && RosterKept() && golist == old(golist)
      ensures var id := SenderSlot(from);
        var ship := playersInfo[id].go;
        var h := heading(ship.t.rot);
        out == [Broadcast(RspFire(enc(appTime), WordOfInt(id)))] &&
        bulletlist == Placed(old(bulletlist), FirstFreeBullet(old(bulletlist)),
                             NewBullet(ship.t.pos, ship.t.rot, Vec2(h.x * BulletSpeed, h.y * BulletSpeed), ship.col, id))
    {
      var id := SenderSlot(from);
      out := [Broadcast(RspFire(enc(appTime), WordOfInt(id)))];
      Shoot(playersInfo[id].go.t.pos, playersInfo[id].go.t.rot, id, heading);
    }

    /** STATE_UPDATE: only the sender's slot changes, as Accept says. */
    method ReceiveStateUpdate(from: string, time: u32, state: Record, dec: BitsToFloat)
      requires Valid()
      modifies playersInfo
      ensures Valid()
      ensures var id := SenderSlot(from);
        playersInfo[..] == old(playersInfo[..])[id := Accept(old(playersInfo[id]), dec(time), state, dec, appTime)]
    {
      var id := SenderSlot(from);
      playersInfo[id] := Accept(playersInfo[id], dec(time), state, dec, appTime);
    }

    /**
     * One iteration of the receive thread.  Nothing is handled once the
     * match has ended; datagrams that do not decode, and commands the server
     * does not handle, change nothing.
     */
    method Receive(from: string, datagram: seq<byte>, heading: Heading, enc: FloatToBits, dec: BitsToFloat)
      returns (out: seq<Datagram>)
      requires Valid()
      modifies this, playersInfo
      ensures Valid()
      ensures var m := Decode(datagram);
        !old(keepRunning) || m.None? || !(m.value.ReqConnect? || m.value.ReqFire? || m.value.StateUpdate?) ==>
          out == [] && RosterKept() && bulletlist == old(bulletlist) && golist == old(golist) &&
          playersInfo[..] == old(playersInfo[..])
      ensures var m := Decode(datagram);
        old(keepRunning) && m.Some? && m.value.StateUpdate? ==>
          out == [] && RosterKept() && bulletlist == old(bulletlist) && golist == old(golist) &&
          playersInfo[..] == old(playersInfo[..])[SenderSlot(from) :=
            Accept(old(playersInfo[SenderSlot(from)]), dec(m.value.time), m.value.state, dec, appTime)]
    {
      out := [];
      if !keepRunning {
        return;
      }
      match Decode(datagram)
      case Some(ReqConnect) =>
        out := ReceiveConnect(from);
      case Some(ReqFire(_)) =>
        out := ReceiveFire(from, heading, enc);
      case Some(StateUpdate(time, state)) =>
        ReceiveStateUpdate(from, time, state, dec);
      case _ =>
    }

    /**
     * One iteration of the send thread: the first tick after the match
     * starts sends GAME_START; every later one sends ALL_UPDATE with every
     * slot's record, plus TIME_SYNC when a sync instant has come.
     */
    method SendTick(enc: FloatToBits) returns (out: seq<Datagram>)
      requires Valid()
      modifies this
      ensures Valid() && Objects() == old(Objects()) && Roster() == old(Roster()) && Timers() == old(Timers())
      ensures keepRunning == old(keepRunning) && gameStart == old(gameStart)
      ensures !(keepRunning && gameStart) ==> out == [] && hasStarted == old(hasStarted)
      ensures keepRunning && gameStart && !old(hasStarted) ==> hasStarted && out == [Broadcast(GameStart)]
      ensures keepRunning && gameStart && old(hasStarted) ==>
        hasStarted &&
        out == [Broadcast(AllUpdate(enc(appTime), Snapshot(playersInfo[..], enc)))] +
               (if SyncDue(appTime) then [Broadcast(TimeSync(enc(appTime), Snapshot(playersInfo[..], enc)))] else [])
    {
      out := [];
      if keepRunning && gameStart {
        if !hasStarted {
          out := [Broadcast(GameStart)];
          hasStarted := true;
        } else {
          out := [Broadcast(AllUpdate(enc(appTime), Snapshot(playersInfo[..], enc)))];
          if SyncDue(appTime) {
            out := out + [Broadcast(TimeSync(enc(appTime), Snapshot(playersInfo[..], enc)))];
          }
        }
      }
    }

    /** SpawnAsteroid: the new asteroid takes the first reusable object-list entry, or is appended. */
    method SpawnAsteroid(d: SpawnDraws)
      requires Valid()
      modifies this
      ensures Valid() && RosterKept()
      ensures Objects() == (old(bulletlist), Placed(old(golist), FirstReusable(old(golist)), NewAsteroid(d)))
    {
      var g := NewAsteroid(d);
      var k := FindReusable(golist);
      if k < |golist| {
        golist := golist[k := g];
      } else {
        golist := golist + [g];
      }
    }

    /** Spawn_Asteroids: ASTEROID_SPAWN with the server's time to every client, then the spawn. */
    method SpawnAsteroids(d: SpawnDraws, enc: FloatToBits) returns (out: seq<Datagram>)
      requires Valid()
      modifies this
      ensures Valid() && RosterKept()
      ensures Objects() == (old(bulletlist), Placed(old(golist), FirstReusable(old(golist)), NewAsteroid(d)))
      ensures out == [Broadcast(AsteroidSpawn(enc(appTime)))]
    {
      out := [Broadcast(AsteroidSpawn(enc(appTime)))];
      SpawnAsteroid(d);
    }

    /**
     * SimpleDynamicCollisionCheck: the two passes of Scoring.CollisionPass
     * over every slot, with bullet hits credited to the bullet's owner, and
     * one ASTEROID_DESTROY per report, in report order.
     */
    method SimpleDynamicCollisionCheck(dt: real) returns (out: seq<Datagram>)
      requires Valid()
      modifies this, playersInfo
      ensures Valid() && RosterKept()
      ensures var f := CollisionPass(Field(old(playersInfo[..]), old(bulletlist), old(golist), []), AllSlots, None, dt);
        playersInfo[..] == f.players && Objects() == (f.bullets, f.gos) && out == Notices(f.destroyed)
    {
      var gos, bullets, d;
      gos, d := PlayersPass(dt);
      bullets, gos, d := BulletsPass(gos, d, dt);
      golist := gos;
      bulletlist := bullets;
      out := Notices(d);
    }

    /** The first loop of SimpleDynamicCollisionCheck: every live asteroid against every slot. */
    method PlayersPass(dt: real) returns (gos: seq<GameObject>, d: seq<nat>)
      requires playersInfo.Length == Players
      modifies playersInfo
      ensures Field(playersInfo[..], bulletlist, gos, d) ==
        AsteroidPass(Field(old(playersInfo[..]), bulletlist, golist, []), AllSlots, |golist|, dt)
    {
      ghost var f0 := Field(playersInfo[..], bulletlist, golist, []);
      gos, d := golist, [];
      var i := 0;
      while i < |gos|
        invariant 0 <= i <= |gos| == |golist|
        invariant Field(playersInfo[..], bulletlist, gos, d) == AsteroidPass(f0, AllSlots, i, dt)
      {
        if LiveAsteroid(gos[i]) {
          gos, d := HitPlayers(gos, i, d, dt, bulletlist);
        }
        i := i + 1;
      }
    }

    /** The inner loop of the first pass: live asteroid i against slots 0 to 3. */
    method HitPlayers(gos0: seq<GameObject>, i: nat, d0: seq<nat>, dt: real, ghost bullets: seq<Bullet>)
      returns (gos: seq<GameObject>, d: seq<nat>)
      requires playersInfo.Length == Players && i < |gos0|
      modifies playersInfo
      ensures Field(playersInfo[..], bullets, gos, d) ==
        PlayersVsAsteroid(Field(old(playersInfo[..]), bullets, gos0, d0), AllSlots, i, dt)
    {
      ghost var g := Field(playersInfo[..], bullets, gos0, d0);
      gos, d := gos0, d0;
      var p := 0;
      while p < Players
        invariant 0 <= p <= Players && |gos| == |gos0|
        invariant Field(playersInfo[..], bullets, gos, d) == PlayersVsAsteroid(g, AllSlots[..p], i, dt)
      {
        SlotsStep(p);
        gos, d := HitPlayer(p, gos, i, d, dt, bullets);
        p := p + 1;
      }
      assert AllSlots[..Players] == AllSlots;
    }

    /** One step of the first pass: slot p against asteroid i. */
    method HitPlayer(p: nat, gos0: seq<GameObject>, i: nat, d0: seq<nat>, dt: real, ghost bullets: seq<Bullet>)
      returns (gos: seq<GameObject>, d: seq<nat>)
      requires playersInfo.Length == Players && p < Players && i < |gos0|
      modifies playersInfo
      ensures Field(playersInfo[..], bullets, gos, d) ==
        PlayerVsAsteroid(Field(old(playersInfo[..]), bullets, gos0, d0), p, i, dt)
    {
      gos, d := gos0, d0;
      if IsWithinDistanceCheckDynamic(playersInfo[p].go, gos[i], dt) {
        playersInfo[p] := playersInfo[p].(score := playersInfo[p].score - NegScorePerHit);
        gos := gos[i := gos[i].(isActive := false)];
        d := d + [i];
      }
    }

    /** The second loop of SimpleDynamicCollisionCheck: each live bullet against the first asteroid it reaches. */
    method BulletsPass(gos0: seq<GameObject>, d0: seq<nat>, dt: real)
      returns (bullets: seq<Bullet>, gos: seq<GameObject>, d: seq<nat>)
      requires playersInfo.Length == Players
      requires forall j :: 0 <= j < |bulletlist| ==> 0 <= bulletlist[j].playerNO < Players
      modifies playersInfo
      ensures Field(playersInfo[..], bullets, gos, d) ==
        BulletPass(Field(old(playersInfo[..]), bulletlist, gos0, d0), None, |bulletlist|, dt)
    {
      ghost var a := Field(playersInfo[..], bulletlist, gos0, d0);
      bullets, gos, d := bulletlist, gos0, d0;
      var j := 0;
      while j < |bullets|
        invariant 0 <= j <= |bullets| == |bulletlist|
        invariant Field(playersInfo[..], bullets, gos, d) == BulletPass(a, None, j, dt)
      {
        bullets, gos, d := HitByBullet(j, bullets, gos, d, dt);
        j := j + 1;
      }
    }

    /** One step of the second pass: bullet j, when active, against the object list. */
    method HitByBullet(j: nat, bullets0: seq<Bullet>, gos0: seq<GameObject>, d0: seq<nat>, dt: real)
      returns (bullets: seq<Bullet>, gos: seq<GameObject>, d: seq<nat>)
      requires playersInfo.Length == Players
      requires j < |bullets0| && 0 <= bullets0[j].playerNO < Players
      modifies playersInfo
      ensures Field(playersInfo[..], bullets, gos, d) ==
        BulletVsAsteroids(Field(old(playersInfo[..]), bullets0, gos0, d0), j, None, dt)
    {
      bullets, gos, d := bullets0, gos0, d0;
      if bullets[j].go.isActive {
        var b := bullets[j];
        var k := FindFirstHit(b.go, gos, dt);
        if k < |gos| {
          bullets := bullets[j := b.(go := b.go.(isActive := false))];
          gos := gos[k := gos[k].(isActive := false)];
          playersInfo[b.playerNO] := playersInfo[b.playerNO].(score := playersInfo[b.playerNO].score + ScorePerAsteroid);
          d := d + [k];
        }
      }
    }

    /** The per-frame updates of the main loop: every player's ship, every object, every bullet. */
    method UpdateAll(dt: real)
      requires Valid()
      modifies this, playersInfo
      ensures Valid() && RosterKept()
      ensures playersInfo[..] == MovedPlayers(old(playersInfo[..]), dt)
      ensures Objects() == (MovedBullets(old(bulletlist), dt), MovedObjects(old(golist), dt))
    {
      MovePlayers(dt);
      FrameKeepsPools(bulletlist, golist, dt);
      golist := MoveObjects(golist, dt);
      bulletlist := MoveBullets(bulletlist, dt);
    }

    /** The player loop: each slot's ship updated in place. */
    method MovePlayers(dt: real)
      requires playersInfo.Length == Players
      modifies playersInfo
      ensures playersInfo[..] == MovedPlayers(old(playersInfo[..]), dt)
    {
      var q := 0;
      while q < Players
        invariant 0 <= q <= Players
        invariant forall r :: 0 <= r < q ==>
          playersInfo[r] == old(playersInfo[r]).(go := Update(old(playersInfo[r]).go, Screen, dt))
        invariant forall r :: q <= r < Players ==> playersInfo[r] == old(playersInfo[r])
      {
        playersInfo[q] := playersInfo[q].(go := Update(playersInfo[q].go, Screen, dt));
        q := q + 1;
      }
    }

    /** The scores of the expected players, in slot order. */
    function Standings(): (sc: seq<int>)
      reads this, table, playersInfo
      requires Valid()
      ensures |sc| == totalPlayers && forall j :: 0 <= j < totalPlayers ==> sc[j] == playersInfo[j].score
    {
      seq(totalPlayers, j requires 0 <= j < totalPlayers reads playersInfo => playersInfo[j].score)
    }

    /**
     * The highscore half of the end of the match: the file is read, then
     * each expected player is offered to the table under the name
     * "player <n>".  A file line that does not parse throws (ok is false),
     * which ends the process.  Otherwise trail records the table after each
     * offer, starting from the table the file held (or the table in memory
     * when there is no file) and ending with the table left.
     */
    method RecordScores(now: int, clockOk: bool, file: Option<seq<string>>)
      returns (ok: bool, ghost trail: seq<seq<Highscore>>)
      requires Valid()
      modifies table.entries
      ensures ok <==> !(file.Some? && ParseRows(file.value, Size).None?)
      ensures ok ==>
        Recorded(trail, Standings(), now, clockOk) &&
        trail[0] == (if file.None? then old(table.entries[..]) else ParseRows(file.value, Size).value) &&
        trail[totalPlayers] == table.entries[..]
    {
      trail := [];
      var outcome := table.ReadFromHighscoreFile(file);
      if outcome == Threw {
        return false, trail;
      }
      trail := OfferAll(now, clockOk);
      return true, trail;
    }

    /**
     * The loop of RecordScores: each expected player's score is offered to
     * the table in slot order; trail records the table before the first
     * offer and after each one.
     */
    method OfferAll(now: int, clockOk: bool) returns (ghost trail: seq<seq<Highscore>>)
      requires Valid()
      modifies table.entries
      ensures Recorded(trail, Standings(), now, clockOk)
      ensures trail[0] == old(table.entries[..]) && trail[totalPlayers] == table.entries[..]
    {
      trail := [table.entries[..]];
      var i := 0;
      while i < totalPlayers
        invariant 0 <= i <= totalPlayers
        invariant table.Valid()
        invariant Recorded(trail, Standings()[..i], now, clockOk)
        invariant trail[0] == old(table.entries[..]) && trail[i] == table.entries[..]
        modifies table.entries
      {
        ghost var before := table.entries[..];
        table.AddHighscore(playersInfo[i].score, PlayerName(i), now, clockOk);
        assert AddStep(before, table.entries[..], Standings()[i], PlayerName(i), now, clockOk);
        RecordedExtend(trail, Standings()[..i], table.entries[..], Standings()[i], now, clockOk);
        assert Standings()[..i] + [Standings()[i]] == Standings()[..i + 1];
        trail := trail + [table.entries[..]];
        i := i + 1;
      }
      assert Standings()[..totalPlayers] == Standings();
    }

    /**
     * What ending a match produces: the file read fails exactly when it
     * cannot be parsed, and then nothing is sent; otherwise every player's
     * score was offered in slot order to the table as it was loaded (or as
     * it stood, when there is no file), GAME_END carries the new table and
     * the scores, and the saved lines are the new table, one per entry.
     */
    static ghost predicate Concluded(now: int, clockOk: bool, file: Option<seq<string>>, before: seq<Highscore>,
                                     standings: seq<int>, players: seq<Player>, after: seq<Highscore>,
                                     out: seq<Datagram>, saved: Option<seq<string>>, trail: seq<seq<Highscore>>)
    {
      (saved.None? <==> file.Some? && ParseRows(file.value, Size).None?) &&
      (saved.None? ==> out == []) &&
      (saved.Some? ==>
        Recorded(trail, standings, now, clockOk) &&
        trail[0] == (if file.None? then before else ParseRows(file.value, Size).value) &&
        trail[|standings|] == after &&
        |after| == Size && |players| == Players &&
        out == [Broadcast(GameEnd(Rows(after), Scores(players)))] &&
        |saved.value| == |after| &&
        (forall i :: 0 <= i < |after| ==> saved.value[i] == FormatLine(after[i])))
    }

    /**
     * The end of the match: both loops stop, the scores are recorded,
     * GAME_END with the table and all four scores goes to every client, and
     * the table is written back.  When the file read throws, nothing is sent
     * or saved.
     */
    method EndMatch(now: int, clockOk: bool, file: Option<seq<string>>)
      returns (out: seq<Datagram>, saved: Option<seq<string>>, ghost trail: seq<seq<Highscore>>)
      requires Valid()
      modifies this, table.entries
      ensures Valid() && Objects() == old(Objects()) && Roster() == old(Roster()) && Timers() == old(Timers())
      ensures RunFlags() == Flags(false, false, old(hasStarted))
      ensures Concluded(now, clockOk, file, old(table.entries[..]), Standings(), playersInfo[..], table.entries[..], out, saved, trail)
    {
      keepRunning, gameStart := false, false;
      out, saved, trail := Conclude(now, clockOk, file);
    }

    /** The highscore and GAME_END part of EndMatch, which touches only the table. */
    method Conclude(now: int, clockOk: bool, file: Option<seq<string>>)
      returns (out: seq<Datagram>, saved: Option<seq<string>>, ghost trail: seq<seq<Highscore>>)
      requires Valid()
      modifies table.entries
      ensures Valid() && Objects() == old(Objects()) && Roster() == old(Roster()) && Timers() == old(Timers())
      ensures RunFlags() == old(RunFlags())
      ensures Concluded(now, clockOk, file, old(table.entries[..]), Standings(), playersInfo[..], table.entries[..], out, saved, trail)
    {
      ghost var before := table.entries[..];
      var ok;
      ok, trail := RecordScores(now, clockOk, file);
      out, saved := [], None;
      if ok {
        out := [Broadcast(GameEnd(Rows(table.entries[..]), Scores(playersInfo[..])))];
        var lines := table.WriteToHighscoreFile();
        saved := Some(lines);
        ConcludedSaved(now, clockOk, file, before, Standings(), playersInfo[..], table.entries[..], out, lines, trail);
      }
    }

    /** Assembles Concluded for a match whose highscore file was read and rewritten. */
    static lemma ConcludedSaved(now: int, clockOk: bool, file: Option<seq<string>>, before: seq<Highscore>,
                                standings: seq<int>, players: seq<Player>, after: seq<Highscore>,
                                out: seq<Datagram>, lines: seq<string>, trail: seq<seq<Highscore>>)
      requires !(file.Some? && ParseRows(file.value, Size).None?)
      requires Recorded(trail, standings, now, clockOk)
      requires trail[0] == (if file.None? then before else ParseRows(file.value, Size).value)
      requires trail[|standings|] == after && |after| == Size && |players| == Players
      requires out == [Broadcast(GameEnd(Rows(after), Scores(players)))]
      requires |lines| == Size && forall i :: 0 <= i < Size ==> lines[i] == FormatLine(after[i])
      ensures Concluded(now, clockOk, file, before, standings, players, after, out, Some(lines), trail)
    {
    }

    /**
     * One iteration of the main loop.  Nothing happens before the match
     * starts.  Otherwise the clocks advance by dt, an asteroid spawns when
     * the countdown runs out (it restarts at two seconds), everything moves,
     * collisions are resolved, and when the match time is used up the match ends.
     */
    method Frame(dt: real, d: SpawnDraws, enc: FloatToBits,
                 now: int, clockOk: bool, file: Option<seq<string>>)
      returns (out: seq<Datagram>, saved: Option<seq<string>>, ghost cut: nat, ghost trail: seq<seq<Highscore>>)
      requires Valid()
      modifies this, playersInfo, table.entries
      ensures Valid() && Roster() == old(Roster())
      ensures !old(gameStart) ==>
        out == [] && saved.None? && RosterKept() && Objects() == old(Objects()) && playersInfo[..] == old(playersInfo[..])
      ensures old(gameStart) ==>
        Timers() == Clocks(old(timer) - dt, old(appTime) + dt,
                           if old(countDown) - dt <= 0.0 then AsteroidSpawnSpeed else old(countDown) - dt)
      ensures old(gameStart) && timer > 0.0 ==> RunFlags() == old(RunFlags()) && saved.None?
      ensures old(gameStart) && timer <= 0.0 ==> RunFlags() == Flags(false, false, old(hasStarted))
      ensures old(gameStart) && timer <= 0.0 ==>
        cut <= |out| &&
        Concluded(now, clockOk, file, old(table.entries[..]), Standings(), playersInfo[..], table.entries[..],
                  out[cut..], saved, trail)
    {
      out := [];
      saved := None;
      cut, trail := 0, [];
      if !gameStart {
        return;
      }
      out := Advance(dt, d, enc);
      var destroyed := Simulate(dt);
      out := out + destroyed;
      if timer <= 0.0 {
        var ended;
        ended, saved, trail := EndMatch(now, clockOk, file);
        cut := |out|;
        out := out + ended;
        assert out[cut..] == ended;
      }
    }

    /** The clock half of a frame: the clocks advance by dt and an asteroid spawns when the countdown runs out. */
    method Advance(dt: real, d: SpawnDraws, enc: FloatToBits) returns (out: seq<Datagram>)
      requires Valid()
      modifies this
      ensures Valid() && Roster() == old(Roster()) && RunFlags() == old(RunFlags())
      ensures Timers() == Clocks(old(timer) - dt, old(appTime) + dt,
                                 if old(countDown) - dt <= 0.0 then AsteroidSpawnSpeed else old(countDown) - dt)
      ensures old(countDown) - dt > 0.0 ==> out == [] && Objects() == old(Objects())
      ensures old(countDown) - dt <= 0.0 ==>
        out == [Broadcast(AsteroidSpawn(enc(appTime)))] &&
        Objects() == (old(bulletlist), Placed(old(golist), FirstReusable(old(golist)), NewAsteroid(d)))
    {
      out := [];
      var due := Tick(dt);
      if due {
        out := SpawnAsteroids(d, enc);
      }
    }

    /** The clock half of Advance: appTime and timer move by dt, the countdown restarts when it runs out. */
    method Tick(dt: real) returns (due: bool)
      requires Valid()
      modifies this
      ensures Valid() && Roster() == old(Roster()) && RunFlags() == old(RunFlags()) && Objects() == old(Objects())
      ensures due <==> old(countDown) - dt <= 0.0
      ensures Timers() == Clocks(old(timer) - dt, old(appTime) + dt,
                                 if due then AsteroidSpawnSpeed else old(countDown) - dt)
    {
      timer, appTime, countDown := timer - dt, appTime + dt, countDown - dt;
      due := countDown <= 0.0;
      if due {
        countDown := AsteroidSpawnSpeed;
      }
    }

    /** The world half of a frame: everything moves, then collisions are resolved. */
    method Simulate(dt: real) returns (out: seq<Datagram>)
      requires Valid()
      modifies this, playersInfo
      ensures Valid() && RosterKept()
      ensures var moved := Field(MovedPlayers(old(playersInfo[..]), dt), MovedBullets(old(bulletlist), dt),
                                 MovedObjects(old(golist), dt), []);
        var f := CollisionPass(moved, AllSlots, None, dt);
        playersInfo[..] == f.players && Objects() == (f.bullets, f.gos) && out == Notices(f.destroyed)
    {
      UpdateAll(dt);
      out := SimpleDynamicCollisionCheck(dt);
    }
  }
}
