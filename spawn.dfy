/*
 * The asteroid SpawnAsteroid builds, the same on both peers
 * (ServerUDP/main_server.cpp and ClientUDP/main_client.cpp): an edge of the
 * screen, a size, a rotation and two coordinates are drawn, and the asteroid
 * is placed just past that edge, flying in.  The draws of the seeded
 * generator are a parameter; the slot it takes is in Pools.
 */
module Spawning {
  import opened Kinematics
  import opened Collision
  import opened Scoring

  const AsteroidMoveSpeed: real := 100.0

  /** The random draws SpawnAsteroid makes, in order: side, size, rotation, then the two free coordinates. */
  datatype SpawnDraws = SpawnDraws(side: int, radius: real, rot: real, along: real, cross: real)

  /** The ranges the distributions draw from; `along` runs along the chosen edge. */
  predicate DrawsInRange(d: SpawnDraws)
  {
    0 <= d.side <= 3 &&
    50.0 <= d.radius <= 100.0 && 0.0 <= d.rot <= 359.0 &&
    (d.side <= 1 ==> -Screen.x * 0.5 <= d.along <= Screen.x * 0.5) &&
    (d.side >= 2 ==> -Screen.y * 0.5 <= d.along <= Screen.y * 0.5) &&
    -AsteroidMoveSpeed * 0.4 <= d.cross <= AsteroidMoveSpeed * 0.4
  }

  /**
   * The asteroid SpawnAsteroid builds: just past the top, bottom, left or
   * right edge (sides 0..3), moving into the screen at 60 across the edge
   * and the cross draw along it.  Any other side leaves it at the origin
   * with no velocity.
   */
  function NewAsteroid(d: SpawnDraws): (g: GameObject)
    ensures LiveAsteroid(g) && g.col == Color(0.0, 0.0, 0.0, 1.0)
    ensures g.t.scale == Vec2(d.radius, d.radius) && g.t.rot == d.rot
  {
    var base := GameObject(Transform(Vec2(0.0, 0.0), Vec2(d.radius, d.radius), d.rot),
                           Vec2(0.0, 0.0), "asteroid", Color(0.0, 0.0, 0.0, 1.0), true);
    var across := AsteroidMoveSpeed - AsteroidMoveSpeed * 0.4;
    if d.side == 0 then
      base.(t := base.t.(pos := Vec2(d.along, Screen.y * 0.5 + d.radius)), vel := Vec2(d.cross, -1.0 * across))
    else if d.side == 1 then
      base.(t := base.t.(pos := Vec2(d.along, -Screen.y * 0.5 - d.radius)), vel := Vec2(d.cross, across))
    else if d.side == 2 then
      base.(t := base.t.(pos := Vec2(-Screen.x * 0.5 - d.radius, d.along)), vel := Vec2(across, d.cross))
    else if d.side == 3 then
      base.(t := base.t.(pos := Vec2(Screen.x * 0.5 + d.radius, d.along)), vel := Vec2(-1.0 * across, d.cross))
    else base
  }

  /** The object's collision circle lies wholly beyond one edge of the screen. */
  predicate OffScreen(g: GameObject)
  {
    g.t.pos.y - Radius(g.t) > Screen.y * 0.5 || g.t.pos.y + Radius(g.t) < -Screen.y * 0.5 ||
    g.t.pos.x + Radius(g.t) < -Screen.x * 0.5 || g.t.pos.x - Radius(g.t) > Screen.x * 0.5
  }

  /** On every axis where the object's centre is outside the screen, it moves back toward it. */
  predicate HeadingIn(g: GameObject)
  {
    (g.t.pos.y > Screen.y * 0.5 ==> g.vel.y < 0.0) && (g.t.pos.y < -Screen.y * 0.5 ==> g.vel.y > 0.0) &&
    (g.t.pos.x > Screen.x * 0.5 ==> g.vel.x < 0.0) && (g.t.pos.x < -Screen.x * 0.5 ==> g.vel.x > 0.0)
  }

  /** A spawned asteroid appears unseen, outside the screen, and flies in. */
  lemma SpawnEntersFromOutside(d: SpawnDraws)
    requires DrawsInRange(d)
    ensures OffScreen(NewAsteroid(d)) && HeadingIn(NewAsteroid(d))
  {
    var g := NewAsteroid(d);
    assert Radius(g.t) == 0.5 * d.radius;
  }
}
