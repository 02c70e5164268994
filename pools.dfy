/*
 * Slot reuse in the bullet and asteroid pools, the same on both peers
 * (Shoot and the pool half of SpawnAsteroid in ServerUDP/main_server.cpp and
 * ClientUDP/main_client.cpp).  A new bullet goes into the first inactive
 * bullet; a new asteroid goes into the first entry of the object list that is
 * inactive and is not a player; when there is no such entry the list grows by
 * one.
 */
module Pools {
  import opened Kinematics

  /** An object-list entry SpawnAsteroid may overwrite. */
  predicate Reusable(g: GameObject)
  {
    !g.isActive && g.texid != "player"
  }

  /** Index of the first inactive bullet; |bs| when every bullet is active. */
  function FirstFreeBullet(bs: seq<Bullet>): (k: nat)
    ensures k <= |bs|
    ensures k < |bs| ==> !bs[k].go.isActive
    ensures forall j :: 0 <= j < k ==> bs[j].go.isActive
  {
    if bs == [] then 0
    else if !bs[0].go.isActive then 0
    else
      var k := FirstFreeBullet(bs[1..]);
      assert forall j :: 1 <= j < k + 1 ==> bs[j] == bs[1..][j - 1];
      k + 1
  }

  /** Index of the first reusable object; |gs| when there is none. */
  function FirstReusable(gs: seq<GameObject>): (k: nat)
    ensures k <= |gs|
    ensures k < |gs| ==> Reusable(gs[k])
    ensures forall j :: 0 <= j < k ==> !Reusable(gs[j])
  {
    if gs == [] then 0
    else if Reusable(gs[0]) then 0
    else
      var k := FirstReusable(gs[1..]);
      assert forall j :: 1 <= j < k + 1 ==> gs[j] == gs[1..][j - 1];
      k + 1
  }

  /** Write x into slot k, or append it when k is one past the end. */
  function Placed<T>(s: seq<T>, k: nat, x: T): (r: seq<T>)
    requires k <= |s|
    ensures |r| == if k < |s| then |s| else |s| + 1
    ensures r[k] == x
    ensures forall j :: 0 <= j < |s| && j != k ==> r[j] == s[j]
  {
    if k < |s| then s[k := x] else s + [x]
  }

  /** The search loop of Shoot. */
  method FindFreeBullet(bs: seq<Bullet>) returns (k: nat)
    ensures k == FirstFreeBullet(bs)
  {
    k := 0;
    while k < |bs| && bs[k].go.isActive
      invariant k <= |bs|
      invariant forall j :: 0 <= j < k ==> bs[j].go.isActive
    {
      k := k + 1;
    }
  }

  /** The search loop of SpawnAsteroid. */
  method FindReusable(gs: seq<GameObject>) returns (k: nat)
    ensures k == FirstReusable(gs)
  {
    k := 0;
    while k < |gs| && !Reusable(gs[k])
      invariant k <= |gs|
      invariant forall j :: 0 <= j < k ==> !Reusable(gs[j])
    {
      k := k + 1;
    }
  }

  /** The bullet Shoot builds: 10x10 at the shooter's position and heading, alive for one second. */
  function NewBullet(pos: Vec2, angle: real, vel: Vec2, col: Color, playerID: int): (b: Bullet)
    ensures b.go.isActive && b.lifeTime == 1.0 && b.playerNO == playerID
    ensures b.go.t == Transform(pos, Vec2(10.0, 10.0), angle) && b.go.vel == vel
    ensures b.go.texid == "bullet" && b.go.col == col
  {
    Bullet(GameObject(Transform(pos, Vec2(10.0, 10.0), angle), vel, "bullet", col, true), 1.0, playerID)
  }

  /**
   * The bullet pool after a shot: it grows only when every bullet is
   * active, the new bullet lands at the index returned, and every other
   * bullet keeps its value.
   */
  lemma ShotPool(bs: seq<Bullet>, b: Bullet)
    ensures var r := Placed(bs, FirstFreeBullet(bs), b);
      (|r| == |bs| + 1 <==> forall j :: 0 <= j < |bs| ==> bs[j].go.isActive) &&
      (|r| == |bs| <==> exists j :: 0 <= j < |bs| && !bs[j].go.isActive) &&
      r[FirstFreeBullet(bs)] == b &&
      (forall j :: 0 <= j < |bs| && j != FirstFreeBullet(bs) ==> r[j] == bs[j])
  {
    var k := FirstFreeBullet(bs);
    if k < |bs| {
      assert !bs[k].go.isActive;
    }
  }

  /** The object list after a spawn: the same shape of guarantee for reusable slots. */
  lemma SpawnPool(gs: seq<GameObject>, g: GameObject)
    ensures var r := Placed(gs, FirstReusable(gs), g);
      (|r| == |gs| + 1 <==> forall j :: 0 <= j < |gs| ==> !Reusable(gs[j])) &&
      (|r| == |gs| <==> exists j :: 0 <= j < |gs| && Reusable(gs[j])) &&
      r[FirstReusable(gs)] == g &&
      (forall j :: 0 <= j < |gs| && j != FirstReusable(gs) ==> r[j] == gs[j])
  {
    var k := FirstReusable(gs);
    if k < |gs| {
      assert Reusable(gs[k]);
    }
  }

  /** A player entry is never overwritten by a spawn. */
  lemma SpawnSparesPlayers(gs: seq<GameObject>, g: GameObject, j: nat)
    requires j < |gs| && gs[j].texid == "player"
    ensures Placed(gs, FirstReusable(gs), g)[j] == gs[j]
  {
  }
}
