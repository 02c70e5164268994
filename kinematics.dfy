/*
 * Entity model shared by client and server (ServerUDP/gameobject.h,
 * ClientUDP/gameobject.cpp): transforms, game objects, players and bullets,
 * the per-frame integration with one-step toroidal wrap, bullet lifetime,
 * and the dead-reckoning used to bring received state up to the local clock.
 *
 * The C++ structs are copied by value (into vectors, into std::array), so
 * each is a datatype here, and a member function that updates `*this` is a
 * function from the old value to the new one.  Floats are `real`: IEEE
 * rounding is not modelled.
 */
module Kinematics {

  datatype Vec2 = Vec2(x: real, y: real)

  /** pos, scale, rotation in degrees */
  datatype Transform = Transform(pos: Vec2, scale: Vec2, rot: real)

  datatype Color = Color(r: real, g: real, b: real, a: real)

  const Red := Color(1.0, 0.0, 0.0, 1.0)

  /** Transform, velocity, texture tag ("player", "bullet", "asteroid", ...), colour, active flag */
  datatype GameObject = GameObject(t: Transform, vel: Vec2, texid: string, col: Color, isActive: bool)

  /** score and the timestamp of the last STATE_UPDATE the server accepted for this slot */
  datatype Player = Player(go: GameObject, score: int, timestamp: real)

  /** remaining lifetime in seconds and the index of the player who fired it */
  datatype Bullet = Bullet(go: GameObject, lifeTime: real, playerNO: int)

  /** Application window width and height on both peers. */
  const Screen := Vec2(1600.0, 900.0)

  /** The player every slot starts as: at the origin, 50x50, red, active, score 0. */
  const InitialPlayer := Player(GameObject(Transform(Vec2(0.0, 0.0), Vec2(50.0, 50.0), 0.0),
                                           Vec2(0.0, 0.0), "player", Red, true), 0, 0.0)

  // ---------------------------------------------------------------------------
  // GameObject::Update

  /**
   * One axis of the wrap after integration: p is the integrated position,
   * v the velocity, s the size on that axis and extent the screen size.
   * Only the side the object is moving towards is checked, once.
   */
  function WrapAxis(p: real, v: real, s: real, extent: real): (r: real)
    ensures r == p || r == p - (extent + s) || r == p + (extent + s)
    ensures v > 0.0 && p - s * 0.5 > extent * 0.5 ==> r == p - (extent + s)
    ensures v < 0.0 && p + s * 0.5 < -extent * 0.5 ==> r == p + (extent + s)
    ensures r != p ==> (v > 0.0 && p - s * 0.5 > extent * 0.5) || (v < 0.0 && p + s * 0.5 < -extent * 0.5)
  {
    if v > 0.0 && p - s * 0.5 > extent * 0.5 then p - (extent + s)
    else if v < 0.0 && p + s * 0.5 < -extent * 0.5 then p + (extent + s)
    else p
  }

  /** GameObject::Update: integrate pos by vel * dt, then wrap each axis independently. */
  function Update(go: GameObject, screenSize: Vec2, dt: real): (r: GameObject)
    ensures !go.isActive ==> r == go
    ensures r.t.scale == go.t.scale && r.t.rot == go.t.rot && r.vel == go.vel
    ensures r.texid == go.texid && r.col == go.col && r.isActive == go.isActive
    ensures go.isActive ==>
      r.t.pos.x == WrapAxis(go.t.pos.x + go.vel.x * dt, go.vel.x, go.t.scale.x, screenSize.x) &&
      r.t.pos.y == WrapAxis(go.t.pos.y + go.vel.y * dt, go.vel.y, go.t.scale.y, screenSize.y)
  {
    if !go.isActive then go
    else
      var x := go.t.pos.x + go.vel.x * dt;
      var y := go.t.pos.y + go.vel.y * dt;
      go.(t := go.t.(pos := Vec2(WrapAxis(x, go.vel.x, go.t.scale.x, screenSize.x),
                                 WrapAxis(y, go.vel.y, go.t.scale.y, screenSize.y))))
  }

  /** With zero velocity on an axis, Update leaves that axis's position where it was. */
  lemma ZeroVelocityStill(go: GameObject, screenSize: Vec2, dt: real)
    ensures go.vel.x == 0.0 ==> Update(go, screenSize, dt).t.pos.x == go.t.pos.x
    ensures go.vel.y == 0.0 ==> Update(go, screenSize, dt).t.pos.y == go.t.pos.y
  {
  }

  /** The band an object of size s is kept in on an axis of the given extent. */
  predicate InBand(p: real, s: real, extent: real)
  {
    -extent * 0.5 - s <= p <= extent * 0.5 + s
  }

  function Abs(x: real): real { if x < 0.0 then -x else x }

  /**
   * The wrap keeps an object inside [-extent/2 - s, extent/2 + s] on an axis,
   * provided one frame's travel |v| dt is at most extent + s.
   */
  lemma AxisStaysInBand(p: real, v: real, s: real, extent: real, dt: real)
    requires s >= 0.0 && extent >= 0.0 && dt >= 0.0
    requires Abs(v * dt) <= extent + s
    requires InBand(p, s, extent)
    ensures InBand(WrapAxis(p + v * dt, v, s, extent), s, extent)
  {
    if v > 0.0 {
      assert v * dt >= 0.0;
    } else if v < 0.0 {
      assert v * dt <= 0.0;
    } else {
      assert v * dt == 0.0;
    }
  }

  /** One frame of Update keeps the x axis in its band. */
  lemma UpdateStaysInBand(g: GameObject, screenSize: Vec2, dt: real)
    requires g.t.scale.x >= 0.0 && screenSize.x >= 0.0 && dt >= 0.0
    requires Abs(g.vel.x * dt) <= screenSize.x + g.t.scale.x
    requires InBand(g.t.pos.x, g.t.scale.x, screenSize.x)
    ensures InBand(Update(g, screenSize, dt).t.pos.x, g.t.scale.x, screenSize.x)
  {
    if g.isActive {
      AxisStaysInBand(g.t.pos.x, g.vel.x, g.t.scale.x, screenSize.x, dt);
    }
  }

  /** n frames of Update with the same step. */
  function UpdateN(go: GameObject, screenSize: Vec2, dt: real, n: nat): GameObject
  {
    if n == 0 then go else Update(UpdateN(go, screenSize, dt, n - 1), screenSize, dt)
  }

  /**
   * An object moving at constant velocity never drifts out of the screen band,
   * however many frames pass.
   */
  lemma {:induction false} NoUnboundedDrift(go: GameObject, screenSize: Vec2, dt: real, n: nat)
    requires go.t.scale.x >= 0.0 && screenSize.x >= 0.0 && dt >= 0.0
    requires Abs(go.vel.x * dt) <= screenSize.x + go.t.scale.x
    requires InBand(go.t.pos.x, go.t.scale.x, screenSize.x)
    ensures UpdateN(go, screenSize, dt, n).vel == go.vel && UpdateN(go, screenSize, dt, n).t.scale == go.t.scale
    ensures InBand(UpdateN(go, screenSize, dt, n).t.pos.x, go.t.scale.x, screenSize.x)
  {
    if n > 0 {
      NoUnboundedDrift(go, screenSize, dt, n - 1);
      var prev := UpdateN(go, screenSize, dt, n - 1);
      assert prev.vel.x == go.vel.x && prev.t.scale.x == go.t.scale.x;
      UpdateStaysInBand(prev, screenSize, dt);
      assert UpdateN(go, screenSize, dt, n) == Update(prev, screenSize, dt);
    }
  }

  // ---------------------------------------------------------------------------
  // Bullet::Update

  /** Bullet::Update: an active bullet moves, loses dt of lifetime and dies once that is negative. */
  function BulletUpdate(b: Bullet, screenSize: Vec2, dt: real): (r: Bullet)
    ensures !b.go.isActive ==> r == b
    ensures b.go.isActive ==> r.lifeTime == b.lifeTime - dt
    ensures b.go.isActive ==> (r.go.isActive <==> b.lifeTime - dt >= 0.0)
    ensures b.go.isActive ==> r.go == Update(b.go, screenSize, dt).(isActive := r.go.isActive)
    ensures r.playerNO == b.playerNO
  {
    if !b.go.isActive then b
    else
      var moved := Update(b.go, screenSize, dt);
      var life := b.lifeTime - dt;
      Bullet(if life < 0.0 then moved.(isActive := false) else moved, life, b.playerNO)
  }

  // ---------------------------------------------------------------------------
  // The update loops of the main loop (the same on both peers)

  /** Every object of a list after one frame. */
  function MovedObjects(gs: seq<GameObject>, dt: real): seq<GameObject>
  {
    seq(|gs|, i requires 0 <= i < |gs| => Update(gs[i], Screen, dt))
  }

  /** Every bullet of a pool after one frame. */
  function MovedBullets(bs: seq<Bullet>, dt: real): seq<Bullet>
  {
    seq(|bs|, j requires 0 <= j < |bs| => BulletUpdate(bs[j], Screen, dt))
  }

  /** Every player's ship after one frame; scores and timestamps stay. */
  function MovedPlayers(ps: seq<Player>, dt: real): seq<Player>
  {
    seq(|ps|, q requires 0 <= q < |ps| => ps[q].(go := Update(ps[q].go, Screen, dt)))
  }

  /**
   * A frame keeps the pools' sizes and the bullets' owners, leaves inactive
   * entries as they are and revives nothing.
   */
  lemma FrameKeepsPools(bs: seq<Bullet>, gs: seq<GameObject>, dt: real)
    ensures |MovedBullets(bs, dt)| == |bs| && |MovedObjects(gs, dt)| == |gs|
    ensures forall j :: 0 <= j < |bs| ==>
      MovedBullets(bs, dt)[j].playerNO == bs[j].playerNO &&
      (MovedBullets(bs, dt)[j].go.isActive ==> bs[j].go.isActive) &&
      (!bs[j].go.isActive ==> MovedBullets(bs, dt)[j] == bs[j])
    ensures forall i :: 0 <= i < |gs| ==>
      MovedObjects(gs, dt)[i].isActive == gs[i].isActive &&
      (!gs[i].isActive ==> MovedObjects(gs, dt)[i] == gs[i])
  {
  }

  /** The object-list loop: each object updated in place, in order. */
  method MoveObjects(gs: seq<GameObject>, dt: real) returns (r: seq<GameObject>)
    ensures r == MovedObjects(gs, dt)
  {
    r := gs;
    var i := 0;
    while i < |r|
      invariant 0 <= i <= |r| == |gs|
      invariant forall k :: 0 <= k < i ==> r[k] == Update(gs[k], Screen, dt)
      invariant forall k :: i <= k < |r| ==> r[k] == gs[k]
    {
      r := r[i := Update(r[i], Screen, dt)];
      i := i + 1;
    }
  }

  /** The bullet loop: each bullet updated in place, in order. */
  method MoveBullets(bs: seq<Bullet>, dt: real) returns (r: seq<Bullet>)
    ensures r == MovedBullets(bs, dt)
  {
    r := bs;
    var j := 0;
    while j < |r|
      invariant 0 <= j <= |r| == |bs|
      invariant forall k :: 0 <= k < j ==> r[k] == BulletUpdate(bs[k], Screen, dt)
      invariant forall k :: j <= k < |r| ==> r[k] == bs[k]
    {
      r := r[j := BulletUpdate(r[j], Screen, dt)];
      j := j + 1;
    }
  }

  // ---------------------------------------------------------------------------
  // InterpolateGameobject (same on client and server)

  /** A position carried along a velocity for d seconds. */
  function DeadReckon(p: Vec2, v: Vec2, d: real): Vec2
  {
    Vec2(p.x + v.x * d, p.y + v.y * d)
  }

  /** Dead-reckon pos forward by vel * (now - timestamp); nothing else changes. */
  function Interpolate(go: GameObject, now: real, timestamp: real): (r: GameObject)
    ensures r == go.(t := go.t.(pos := r.t.pos))
    ensures r.t.pos.x - go.t.pos.x == go.vel.x * (now - timestamp)
    ensures r.t.pos.y - go.t.pos.y == go.vel.y * (now - timestamp)
  {
    go.(t := go.t.(pos := DeadReckon(go.t.pos, go.vel, now - timestamp)))
  }

  /** Data valid at the local clock needs no correction. */
  lemma InterpolateSameTime(go: GameObject, t: real)
    ensures Interpolate(go, t, t) == go
  {
  }

  /** Dead-reckoning in two hops equals one hop over the whole interval (velocity is constant). */
  lemma InterpolateCompose(go: GameObject, t0: real, t1: real, t2: real)
    ensures Interpolate(Interpolate(go, t1, t0), t2, t1) == Interpolate(go, t2, t0)
  {
    DeadReckonCompose(go.t.pos, go.vel, t1 - t0, t2 - t1);
    assert (t1 - t0) + (t2 - t1) == t2 - t0;
  }

  lemma DeadReckonCompose(p: Vec2, v: Vec2, d1: real, d2: real)
    ensures DeadReckon(DeadReckon(p, v, d1), v, d2) == DeadReckon(p, v, d1 + d2)
  {
    assert v.x * d1 + v.x * d2 == v.x * (d1 + d2);
    assert v.y * d1 + v.y * d2 == v.y * (d1 + d2);
  }
}
