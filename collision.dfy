/*
 * Circle-approximation collision tests (ServerUDP/collision.cpp), used by
 * both peers.  Each object's radius is half its larger scale axis.  The
 * static test compares squared centre distance with the squared radius
 * sum; the swept test also catches a closest approach that falls within
 * the current step of length dt.  Arithmetic is over `real`.
 */
module Collision {
  import opened Kinematics

  function Dot(a: Vec2, b: Vec2): real { a.x * b.x + a.y * b.y }

  /** Component-wise difference a - b. */
  function Diff(a: Vec2, b: Vec2): Vec2 { Vec2(a.x - b.x, a.y - b.y) }

  /*
   * Sign facts about products are stated over Mul rather than a bare x * x,
   * so that the solver keeps each square as one term.
   */
  function Mul(x: real, y: real): real { x * y }

  lemma ProductSign(x: real, y: real)
    ensures (x > 0.0 && y > 0.0) || (x < 0.0 && y < 0.0) ==> Mul(x, y) > 0.0
    ensures x == 0.0 || y == 0.0 ==> Mul(x, y) == 0.0
  {
    if x < 0.0 && y < 0.0 {
      assert Mul(x, y) == Mul(-x, -y);
    }
  }

  lemma SquareSign(x: real)
    ensures Mul(x, x) >= 0.0
    ensures Mul(x, x) == 0.0 <==> x == 0.0
  {
    ProductSign(x, x);
  }

  /** v . v is non-negative, and zero exactly for the zero vector. */
  lemma DotSelf(v: Vec2)
    ensures Dot(v, v) >= 0.0
    ensures Dot(v, v) == 0.0 <==> v == Vec2(0.0, 0.0)
  {
    SquareSign(v.x);
    SquareSign(v.y);
    assert Dot(v, v) == Mul(v.x, v.x) + Mul(v.y, v.y);
  }

  lemma DiffZero(a: Vec2, b: Vec2)
    ensures Diff(a, b) == Vec2(0.0, 0.0) <==> a == b
  {
  }

  /** DSquared: squared distance (a.x - b.x)^2 + (a.y - b.y)^2 between two points. */
  function DSquared(a: Vec2, b: Vec2): (r: real)
    ensures r >= 0.0
    ensures r == 0.0 <==> a == b
  {
    DotSelf(Diff(a, b));
    DiffZero(a, b);
    Dot(Diff(a, b), Diff(a, b))
  }

  lemma DSquaredSymmetric(a: Vec2, b: Vec2)
    ensures DSquared(a, b) == DSquared(b, a)
  {
    assert Dot(Diff(b, a), Diff(b, a)) == Dot(Diff(a, b), Diff(a, b)) by {
      NegatedDot(Diff(a, b), Diff(a, b));
    }
  }

  /** Negating both vectors leaves their dot product unchanged. */
  lemma NegatedDot(a: Vec2, b: Vec2)
    ensures Dot(Vec2(-a.x, -a.y), Vec2(-b.x, -b.y)) == Dot(a, b)
  {
    assert Mul(-a.x, -b.x) == Mul(a.x, b.x);
    assert Mul(-a.y, -b.y) == Mul(a.y, b.y);
  }

  /** Half of the larger scale axis. */
  function Radius(t: Transform): (r: real)
    ensures r == 0.5 * t.scale.x || r == 0.5 * t.scale.y
    ensures r >= 0.5 * t.scale.x && r >= 0.5 * t.scale.y
  {
    if t.scale.x > t.scale.y then 0.5 * t.scale.x else 0.5 * t.scale.y
  }

  /** totalRadius: the square (ra + rb)^2 of the sum of the two radii. */
  function ReachSquared(a: Transform, b: Transform): (r: real)
    ensures r >= 0.0
  {
    SquareSign(Radius(a) + Radius(b));
    Mul(Radius(a) + Radius(b), Radius(a) + Radius(b))
  }

  /** IsWithinDistanceCheck: the two circles touch or overlap. */
  function IsWithinDistanceCheck(a: Transform, b: Transform): bool
  {
    DSquared(a.pos, b.pos) <= ReachSquared(a, b)
  }

  lemma StaticSymmetric(a: Transform, b: Transform)
    ensures IsWithinDistanceCheck(a, b) == IsWithinDistanceCheck(b, a)
  {
    DSquaredSymmetric(a.pos, b.pos);
  }

  /** Two objects whose centres coincide always collide, whatever their sizes. */
  lemma SameCentreCollides(a: Transform, b: Transform)
    requires a.pos == b.pos
    ensures IsWithinDistanceCheck(a, b)
  {
    assert DSquared(a.pos, b.pos) == 0.0;
  }

  function RelPos(a: GameObject, b: GameObject): Vec2 { Diff(a.t.pos, b.t.pos) }

  function RelVel(a: GameObject, b: GameObject): Vec2 { Diff(a.vel, b.vel) }

  /** Time of closest approach t1 = -(relPos . relVel) / (relVel . relVel); defined once relVel is not zero. */
  function ClosestTime(a: GameObject, b: GameObject): real
    requires RelVel(a, b) != Vec2(0.0, 0.0)
  {
    ApproachTime(RelPos(a, b), RelVel(a, b))
  }

  /** t1 for relative position p and relative velocity v. */
  function ApproachTime(p: Vec2, v: Vec2): real
    requires v != Vec2(0.0, 0.0)
  {
    DotSelf(v);
    -Dot(p, v) / Dot(v, v)
  }

  /** Where the relative position is at time t1: cPos1 = relPos + relVel * t1. */
  function ClosestPos(a: GameObject, b: GameObject): Vec2
    requires RelVel(a, b) != Vec2(0.0, 0.0)
  {
    ApproachPoint(RelPos(a, b), RelVel(a, b))
  }

  /** cPos1 for relative position p and relative velocity v. */
  function ApproachPoint(p: Vec2, v: Vec2): Vec2
    requires v != Vec2(0.0, 0.0)
  {
    var t1 := ApproachTime(p, v);
    Vec2(p.x + v.x * t1, p.y + v.y * t1)
  }

  /**
   * IsWithinDistanceCheckDynamic: true when the objects already overlap, or
   * when they approach each other, the closest approach is within reach
   * and it happens within [0, dt].
   */
  function IsWithinDistanceCheckDynamic(a: GameObject, b: GameObject, dt: real): (r: bool)
    ensures IsWithinDistanceCheck(a.t, b.t) ==> r
    ensures !IsWithinDistanceCheck(a.t, b.t) && RelVel(a, b) == Vec2(0.0, 0.0) ==> !r
    ensures !IsWithinDistanceCheck(a.t, b.t) && Dot(RelPos(a, b), RelVel(a, b)) >= 0.0 ==> !r
    ensures r && !IsWithinDistanceCheck(a.t, b.t) ==>
      RelVel(a, b) != Vec2(0.0, 0.0) &&
      Dot(RelPos(a, b), RelVel(a, b)) < 0.0 &&
      DSquared(ClosestPos(a, b), Vec2(0.0, 0.0)) <= ReachSquared(a.t, b.t) &&
      0.0 <= ClosestTime(a, b) <= dt
  {
    if IsWithinDistanceCheck(a.t, b.t) then true
    else if RelVel(a, b).x == 0.0 && RelVel(a, b).y == 0.0 then false
    else if Dot(RelPos(a, b), RelVel(a, b)) >= 0.0 then false
    else if DSquared(ClosestPos(a, b), Vec2(0.0, 0.0)) > ReachSquared(a.t, b.t) then false
    else 0.0 <= ClosestTime(a, b) <= dt
  }

  /** The approaching case, both directions: not overlapping and moving closer. */
  lemma ApproachingCase(a: GameObject, b: GameObject, dt: real)
    requires !IsWithinDistanceCheck(a.t, b.t)
    requires RelVel(a, b) != Vec2(0.0, 0.0) && Dot(RelPos(a, b), RelVel(a, b)) < 0.0
    ensures IsWithinDistanceCheckDynamic(a, b, dt) <==>
      DSquared(ClosestPos(a, b), Vec2(0.0, 0.0)) <= ReachSquared(a.t, b.t) && 0.0 <= ClosestTime(a, b) <= dt
  {
  }

  /** When approaching, t1 is positive, so only the "t1 <= dt" half of the window can fail. */
  lemma ApproachTimePositive(a: GameObject, b: GameObject)
    requires RelVel(a, b) != Vec2(0.0, 0.0) && Dot(RelPos(a, b), RelVel(a, b)) < 0.0
    ensures ClosestTime(a, b) > 0.0
  {
    var v := RelVel(a, b);
    DotSelf(v);
    QuotientPositive(-Dot(RelPos(a, b), v), Dot(v, v));
  }

  lemma QuotientPositive(n: real, d: real)
    requires n > 0.0 && d > 0.0
    ensures n / d > 0.0
  {
    var q := n / d;
    assert Mul(q, d) == n;
    assert Mul(-q, d) == -Mul(q, d);
    ProductSign(q, d);
    ProductSign(-q, d);
  }

  /** Swapping the objects negates relPos and relVel and leaves the dot products unchanged. */
  lemma SwapNegates(a: GameObject, b: GameObject)
    ensures RelPos(b, a) == Vec2(-RelPos(a, b).x, -RelPos(a, b).y)
    ensures RelVel(b, a) == Vec2(-RelVel(a, b).x, -RelVel(a, b).y)
    ensures Dot(RelPos(b, a), RelVel(b, a)) == Dot(RelPos(a, b), RelVel(a, b))
    ensures Dot(RelVel(b, a), RelVel(b, a)) == Dot(RelVel(a, b), RelVel(a, b))
  {
    NegatedDot(RelPos(a, b), RelVel(a, b));
    NegatedDot(RelVel(a, b), RelVel(a, b));
  }

  lemma ClosestSwap(a: GameObject, b: GameObject)
    requires RelVel(a, b) != Vec2(0.0, 0.0)
    ensures RelVel(b, a) != Vec2(0.0, 0.0)
    ensures ClosestTime(b, a) == ClosestTime(a, b)
    ensures ClosestPos(b, a) == Vec2(-ClosestPos(a, b).x, -ClosestPos(a, b).y)
  {
    SwapNegates(a, b);
    var t1 := ClosestTime(a, b);
    var v := RelVel(a, b);
    assert Mul(-v.x, t1) == -Mul(v.x, t1);
    assert Mul(-v.y, t1) == -Mul(v.y, t1);
  }

  /** The distance of a point from the origin does not change when the point is reflected through it. */
  lemma ReflectedDistance(c: Vec2)
    ensures DSquared(Vec2(-c.x, -c.y), Vec2(0.0, 0.0)) == DSquared(c, Vec2(0.0, 0.0))
  {
    assert Diff(Vec2(-c.x, -c.y), Vec2(0.0, 0.0)) == Vec2(-c.x, -c.y);
    assert Diff(c, Vec2(0.0, 0.0)) == c;
    NegatedDot(c, c);
  }

  /** The swept test does not depend on which object is named first. */
  lemma DynamicSymmetric(a: GameObject, b: GameObject, dt: real)
    ensures IsWithinDistanceCheckDynamic(a, b, dt) == IsWithinDistanceCheckDynamic(b, a, dt)
  {
    StaticSymmetric(a.t, b.t);
    SwapNegates(a, b);
    assert ReachSquared(b.t, a.t) == ReachSquared(a.t, b.t);
    if RelVel(a, b) != Vec2(0.0, 0.0) {
      ClosestSwap(a, b);
      ReflectedDistance(ClosestPos(a, b));
    }
  }
}
