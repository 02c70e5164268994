/*
 * SimpleDynamicCollisionCheck on both peers, as functions over the state the
 * check reads and writes: the players, the bullet list, the object list and
 * the indices reported as destroyed (the server sends one ASTEROID_DESTROY
 * per index; the client sends nothing).
 *
 * First pass: every live asteroid, in list order, is tested against each
 * tested player in turn (the server tests all four slots, the client only
 * its own player); each hit costs that player 10 and clears the asteroid.
 * The test does not look at isActive, so a cleared asteroid is still tested
 * against the remaining players.
 *
 * Second pass: every active bullet, in list order, clears itself and the
 * first live asteroid it reaches, and 50 goes to the credited player: the
 * bullet's owner on the server, the local player on the client.
 */
module Scoring {
  import opened Kinematics
  import opened Collision
  import Wire

  const ScorePerAsteroid: int := 50
  const NegScorePerHit: int := 10

  predicate LiveAsteroid(g: GameObject)
  {
    g.isActive && g.texid == "asteroid"
  }

  function Cleared(g: GameObject): GameObject { g.(isActive := false) }

  datatype Field = Field(players: seq<Player>, bullets: seq<Bullet>, gos: seq<GameObject>, destroyed: seq<nat>)

  /** Player indices that are in range for n players. */
  predicate Slots(tested: seq<nat>, n: nat)
  {
    forall k :: 0 <= k < |tested| ==> tested[k] < n
  }

  predicate Distinct(s: seq<nat>)
  {
    forall a, b :: 0 <= a < b < |s| ==> s[a] != s[b]
  }

  function AddScore(ps: seq<Player>, p: nat, delta: int): (r: seq<Player>)
    requires p < |ps|
    ensures |r| == |ps|
    ensures r[p] == ps[p].(score := ps[p].score + delta)
    ensures forall q :: 0 <= q < |ps| && q != p ==> r[q] == ps[q]
  {
    ps[p := ps[p].(score := ps[p].score + delta)]
  }

  function ScoreSum(ps: seq<Player>): int
  {
    if ps == [] then 0 else ps[0].score + ScoreSum(ps[1..])
  }

  /** Changing one score by delta changes the total by delta. */
  lemma {:induction false} ScoreSumAdd(ps: seq<Player>, p: nat, delta: int)
    requires p < |ps|
    ensures ScoreSum(AddScore(ps, p, delta)) == ScoreSum(ps) + delta
  {
    var r := AddScore(ps, p, delta);
    if p == 0 {
      assert r[1..] == ps[1..];
    } else {
      ScoreSumAdd(ps[1..], p - 1, delta);
      assert r[1..] == AddScore(ps[1..], p - 1, delta);
    }
  }

  // ---------------------------------------------------------------------------
  // First pass: players against asteroids

  /** Whether the player's swept circle reaches the object during dt. */
  predicate Hits(pg: GameObject, g: GameObject, dt: real)
  {
    IsWithinDistanceCheckDynamic(pg, g, dt)
  }

  /** The swept test reads only positions, sizes and velocities, not the active flag. */
  lemma HitsIgnoresFlag(pg: GameObject, g: GameObject, dt: real)
    ensures Hits(pg, Cleared(g), dt) == Hits(pg, g, dt)
  {
    var c := Cleared(g);
    assert c.t == g.t && c.vel == g.vel;
    assert RelPos(pg, c) == RelPos(pg, g);
    assert RelVel(pg, c) == RelVel(pg, g);
    if RelVel(pg, g) != Vec2(0.0, 0.0) {
      assert ClosestTime(pg, c) == ClosestTime(pg, g);
      assert ClosestPos(pg, c) == ClosestPos(pg, g);
    }
  }

  /** One tested player against asteroid i. */
  function PlayerVsAsteroid(f: Field, p: nat, i: nat, dt: real): (r: Field)
    requires p < |f.players| && i < |f.gos|
    ensures r.bullets == f.bullets
    ensures r == f || r == f.(players := AddScore(f.players, p, -NegScorePerHit),
                              gos := f.gos[i := Cleared(f.gos[i])],
                              destroyed := f.destroyed + [i])
    ensures r != f <==> Hits(f.players[p].go, f.gos[i], dt)
  {
    if Hits(f.players[p].go, f.gos[i], dt) then
      f.(players := AddScore(f.players, p, -NegScorePerHit),
         gos := f.gos[i := Cleared(f.gos[i])],
         destroyed := f.destroyed + [i])
    else f
  }

  /** Two player lists that differ at most in the scores. */
  predicate SameBodies(a: seq<Player>, b: seq<Player>)
  {
    |a| == |b| && forall q :: 0 <= q < |a| ==> b[q] == a[q].(score := b[q].score)
  }

  /**
   * The tested players, in order, against asteroid i: only entry i of the
   * object list and the scores can change, and every report names i.
   */
  function PlayersVsAsteroid(f: Field, tested: seq<nat>, i: nat, dt: real): (r: Field)
    requires Slots(tested, |f.players|) && i < |f.gos|
    ensures SameBodies(f.players, r.players) && |r.gos| == |f.gos| && r.bullets == f.bullets
    ensures forall j :: 0 <= j < |f.gos| && j != i ==> r.gos[j] == f.gos[j]
    ensures r.gos[i] == f.gos[i] || r.gos[i] == Cleared(f.gos[i])
    ensures f.destroyed <= r.destroyed
    ensures forall d :: |f.destroyed| <= d < |r.destroyed| ==> r.destroyed[d] == i
    ensures |r.destroyed| == |f.destroyed| || !r.gos[i].isActive
    decreases |tested|
  {
    if tested == [] then f
    else
      var g := PlayersVsAsteroid(f, tested[..|tested| - 1], i, dt);
      PlayerVsAsteroid(g, tested[|tested| - 1], i, dt)
  }

  /** The first pass over the first n entries of the object list; it keeps the lengths and the bullets. */
  function AsteroidPass(f: Field, tested: seq<nat>, n: nat, dt: real): (r: Field)
    requires Slots(tested, |f.players|) && n <= |f.gos|
    ensures |r.players| == |f.players| && |r.gos| == |f.gos| && r.bullets == f.bullets
  {
    if n == 0 then f
    else
      var g := AsteroidPass(f, tested, n - 1, dt);
      if LiveAsteroid(g.gos[n - 1]) then PlayersVsAsteroid(g, tested, n - 1, dt) else g
  }

  /**
   * From f to r, a sweep over the first n entries: only scores change on
   * the players, only live asteroids among the first n entries are
   * cleared, and every report names such an asteroid, now cleared.
   */
  predicate Sweep(f: Field, r: Field, n: nat)
  {
    n <= |f.gos| && SameBodies(f.players, r.players) && ClearsOnlyLive(f.gos, r.gos) &&
    (forall j :: n <= j < |f.gos| ==> r.gos[j] == f.gos[j]) &&
    f.destroyed <= r.destroyed &&
    (forall d :: |f.destroyed| <= d < |r.destroyed| ==>
      r.destroyed[d] < n && LiveAsteroid(f.gos[r.destroyed[d]])) &&
    ReportsCleared(r, |f.destroyed|)
  }

  /** A sweep over n - 1 entries followed by the inner loop on live asteroid n - 1 is a sweep over n entries. */
  lemma SweepNext(f: Field, g: Field, tested: seq<nat>, n: nat, dt: real)
    requires 0 < n <= |g.gos| && Slots(tested, |g.players|) && Sweep(f, g, n - 1) && LiveAsteroid(g.gos[n - 1])
    ensures Sweep(f, PlayersVsAsteroid(g, tested, n - 1, dt), n)
  {
    var r := PlayersVsAsteroid(g, tested, n - 1, dt);
    assert g.gos[n - 1] == f.gos[n - 1];
    assert ClearsOnlyLive(g.gos, r.gos);
    ClearsOnlyLiveTrans(f.gos, g.gos, r.gos);
    forall d | |f.destroyed| <= d < |r.destroyed|
      ensures r.destroyed[d] < n && LiveAsteroid(f.gos[r.destroyed[d]]) && !r.gos[r.destroyed[d]].isActive
    {
      if d < |g.destroyed| {
        assert r.destroyed[d] == g.destroyed[d];
      }
    }
  }

  /** The first pass over the first n entries is a sweep over them. */
  lemma {:induction false} AsteroidPassSweep(f: Field, tested: seq<nat>, n: nat, dt: real)
    requires Slots(tested, |f.players|) && n <= |f.gos|
    ensures Sweep(f, AsteroidPass(f, tested, n, dt), n)
  {
    if n > 0 {
      var g := AsteroidPass(f, tested, n - 1, dt);
      AsteroidPassSweep(f, tested, n - 1, dt);
      if LiveAsteroid(g.gos[n - 1]) {
        assert AsteroidPass(f, tested, n, dt) == PlayersVsAsteroid(g, tested, n - 1, dt);
        SweepNext(f, g, tested, n, dt);
      } else {
        assert AsteroidPass(f, tested, n, dt) == g;
      }
    }
  }

  /** Some tested player hits g. */
  predicate HitByAny(ps: seq<Player>, tested: seq<nat>, g: GameObject, dt: real)
    requires Slots(tested, |ps|)
  {
    exists k :: 0 <= k < |tested| && Hits(ps[tested[k]].go, g, dt)
  }

  /** HitByAny over tested + [p] splits into the front and the last player. */
  lemma HitByAnyLast(ps: seq<Player>, tested: seq<nat>, dt: real, g: GameObject)
    requires Slots(tested, |ps|) && tested != []
    ensures Slots(tested[..|tested| - 1], |ps|)
    ensures HitByAny(ps, tested, g, dt) <==>
      HitByAny(ps, tested[..|tested| - 1], g, dt) || Hits(ps[tested[|tested| - 1]].go, g, dt)
  {
    var front := tested[..|tested| - 1];
    if HitByAny(ps, tested, g, dt) {
      var k :| 0 <= k < |tested| && Hits(ps[tested[k]].go, g, dt);
      if k < |front| {
        assert front[k] == tested[k];
      }
    }
    if HitByAny(ps, front, g, dt) {
      var k :| 0 <= k < |front| && Hits(ps[front[k]].go, g, dt);
      assert tested[k] == front[k];
    }
  }

  /** Players whose bodies agree see the same hits. */
  lemma HitByAnySameBodies(ps: seq<Player>, qs: seq<Player>, tested: seq<nat>, g: GameObject, dt: real)
    requires SameBodies(ps, qs) && Slots(tested, |ps|)
    ensures HitByAny(ps, tested, g, dt) == HitByAny(qs, tested, g, dt)
  {
    assert forall k :: 0 <= k < |tested| ==> ps[tested[k]].go == qs[tested[k]].go;
  }

  /** A live asteroid i ends the inner loop cleared exactly when some tested player hits it. */
  lemma {:induction false} PlayersVsAsteroidClears(f: Field, tested: seq<nat>, i: nat, dt: real)
    requires Slots(tested, |f.players|) && i < |f.gos| && f.gos[i].isActive
    ensures !PlayersVsAsteroid(f, tested, i, dt).gos[i].isActive <==> HitByAny(f.players, tested, f.gos[i], dt)
    decreases |tested|
  {
    if tested != [] {
      var front := tested[..|tested| - 1];
      var p := tested[|tested| - 1];
      HitByAnyLast(f.players, tested, dt, f.gos[i]);
      PlayersVsAsteroidClears(f, front, i, dt);
      var g := PlayersVsAsteroid(f, front, i, dt);
      HitsIgnoresFlag(f.players[p].go, f.gos[i], dt);
      assert g.players[p].go == f.players[p].go;
    }
  }

  /**
   * The inner loop's score for one player: with distinct tested slots, a
   * tested player that hits asteroid i loses 10, every other player keeps
   * its score.
   */
  lemma {:induction false} PlayersVsAsteroidScore(f: Field, tested: seq<nat>, i: nat, dt: real, q: nat)
    requires Slots(tested, |f.players|) && Distinct(tested) && i < |f.gos| && q < |f.players|
    ensures PlayersVsAsteroid(f, tested, i, dt).players[q].score == f.players[q].score -
      (if q in tested && Hits(f.players[q].go, f.gos[i], dt) then NegScorePerHit else 0)
    decreases |tested|
  {
    if tested != [] {
      var front := tested[..|tested| - 1];
      var p := tested[|tested| - 1];
      assert Slots(front, |f.players|) && Distinct(front);
      PlayersVsAsteroidScore(f, front, i, dt, q);
      var g := PlayersVsAsteroid(f, front, i, dt);
      HitsIgnoresFlag(f.players[p].go, f.gos[i], dt);
      assert g.players[p].go == f.players[p].go;
      assert q in tested <==> q in front || q == p;
      if q == p {
        assert p !in front;
      }
    }
  }

  /** The inner loop's total: it drops by 10 per report. */
  lemma {:induction false} PlayersVsAsteroidSum(f: Field, tested: seq<nat>, i: nat, dt: real)
    requires Slots(tested, |f.players|) && i < |f.gos|
    ensures var r := PlayersVsAsteroid(f, tested, i, dt);
      ScoreSum(r.players) == ScoreSum(f.players) - NegScorePerHit * (|r.destroyed| - |f.destroyed|)
    decreases |tested|
  {
    if tested != [] {
      var front := tested[..|tested| - 1];
      var p := tested[|tested| - 1];
      PlayersVsAsteroidSum(f, front, i, dt);
      var g := PlayersVsAsteroid(f, front, i, dt);
      if Hits(g.players[p].go, g.gos[i], dt) {
        ScoreSumAdd(g.players, p, -NegScorePerHit);
      }
    }
  }

  /** Number of live asteroids in gs that the player object pg hits. */
  function PlayerHits(pg: GameObject, gs: seq<GameObject>, dt: real): nat
  {
    if gs == [] then 0
    else PlayerHits(pg, gs[..|gs| - 1], dt) +
         (if LiveAsteroid(gs[|gs| - 1]) && Hits(pg, gs[|gs| - 1], dt) then 1 else 0)
  }

  /** Counting over one more entry of the list adds that entry's hit. */
  lemma PlayerHitsPrefix(pg: GameObject, gs: seq<GameObject>, i: nat, dt: real)
    requires i < |gs|
    ensures PlayerHits(pg, gs[..i + 1], dt) ==
      PlayerHits(pg, gs[..i], dt) + (if LiveAsteroid(gs[i]) && Hits(pg, gs[i], dt) then 1 else 0)
  {
    assert gs[..i + 1][..i] == gs[..i];
    assert gs[..i + 1][i] == gs[i];
  }

  /** After the first pass, a live asteroid among the first n is cleared exactly when a tested player hits it. */
  lemma {:induction false} AsteroidPassClears(f: Field, tested: seq<nat>, n: nat, dt: real, i: nat)
    requires Slots(tested, |f.players|) && n <= |f.gos|
    requires i < n && LiveAsteroid(f.gos[i])
    ensures !AsteroidPass(f, tested, n, dt).gos[i].isActive <==> HitByAny(f.players, tested, f.gos[i], dt)
  {
    if i < n - 1 {
      AsteroidPassClears(f, tested, n - 1, dt, i);
    } else {
      AsteroidPassClearsLast(f, tested, n, dt);
    }
  }

  /** The step of AsteroidPassClears for the last entry of the prefix. */
  lemma AsteroidPassClearsLast(f: Field, tested: seq<nat>, n: nat, dt: real)
    requires Slots(tested, |f.players|) && 0 < n <= |f.gos| && LiveAsteroid(f.gos[n - 1])
    ensures !AsteroidPass(f, tested, n, dt).gos[n - 1].isActive <==> HitByAny(f.players, tested, f.gos[n - 1], dt)
  {
    var g := AsteroidPass(f, tested, n - 1, dt);
    AsteroidPassSweep(f, tested, n - 1, dt);
    assert g.gos[n - 1] == f.gos[n - 1];
    PlayersVsAsteroidClears(g, tested, n - 1, dt);
    HitByAnySameBodies(f.players, g.players, tested, f.gos[n - 1], dt);
  }

  /**
   * The first pass's score for one player: a tested player loses 10 per
   * live asteroid it hits, an untested one keeps its score.
   */
  lemma {:induction false} AsteroidPassScore(f: Field, tested: seq<nat>, n: nat, dt: real, q: nat)
    requires Slots(tested, |f.players|) && Distinct(tested) && n <= |f.gos| && q < |f.players|
    ensures AsteroidPass(f, tested, n, dt).players[q].score == f.players[q].score -
      (if q in tested then NegScorePerHit * PlayerHits(f.players[q].go, f.gos[..n], dt) else 0)
  {
    if n > 0 {
      AsteroidPassScore(f, tested, n - 1, dt, q);
      AsteroidPassScoreNext(f, tested, n, dt, q);
    }
  }

  /** The step of AsteroidPassScore from n - 1 entries to n. */
  lemma AsteroidPassScoreNext(f: Field, tested: seq<nat>, n: nat, dt: real, q: nat)
    requires Slots(tested, |f.players|) && Distinct(tested) && 0 < n <= |f.gos| && q < |f.players|
    requires AsteroidPass(f, tested, n - 1, dt).players[q].score == f.players[q].score -
      (if q in tested then NegScorePerHit * PlayerHits(f.players[q].go, f.gos[..n - 1], dt) else 0)
    ensures AsteroidPass(f, tested, n, dt).players[q].score == f.players[q].score -
      (if q in tested then NegScorePerHit * PlayerHits(f.players[q].go, f.gos[..n], dt) else 0)
  {
    var g := AsteroidPass(f, tested, n - 1, dt);
    var i := n - 1;
    AsteroidPassSweep(f, tested, n - 1, dt);
    assert g.gos[i] == f.gos[i];
    PlayerHitsPrefix(f.players[q].go, f.gos, i, dt);
    if LiveAsteroid(g.gos[i]) {
      assert AsteroidPass(f, tested, n, dt) == PlayersVsAsteroid(g, tested, i, dt);
      PlayersVsAsteroidScore(g, tested, i, dt, q);
      assert g.players[q].go == f.players[q].go;
    } else {
      assert AsteroidPass(f, tested, n, dt) == g;
    }
  }

  /** The first pass's total: it drops by 10 per report. */
  lemma {:induction false} AsteroidPassSum(f: Field, tested: seq<nat>, n: nat, dt: real)
    requires Slots(tested, |f.players|) && n <= |f.gos|
    ensures var r := AsteroidPass(f, tested, n, dt);
      ScoreSum(r.players) == ScoreSum(f.players) - NegScorePerHit * (|r.destroyed| - |f.destroyed|)
  {
    if n > 0 {
      AsteroidPassSum(f, tested, n - 1, dt);
      AsteroidPassSumNext(f, tested, n, dt);
    }
  }

  /** The step of AsteroidPassSum: entry n - 1 changes the total by -10 per report it adds. */
  lemma AsteroidPassSumNext(f: Field, tested: seq<nat>, n: nat, dt: real)
    requires Slots(tested, |f.players|) && 0 < n <= |f.gos|
    ensures var g := AsteroidPass(f, tested, n - 1, dt);
      var r := AsteroidPass(f, tested, n, dt);
      ScoreSum(r.players) == ScoreSum(g.players) - NegScorePerHit * (|r.destroyed| - |g.destroyed|)
  {
    var g := AsteroidPass(f, tested, n - 1, dt);
    if LiveAsteroid(g.gos[n - 1]) {
      assert AsteroidPass(f, tested, n, dt) == PlayersVsAsteroid(g, tested, n - 1, dt);
      PlayersVsAsteroidSum(g, tested, n - 1, dt);
    } else {
      assert AsteroidPass(f, tested, n, dt) == g;
    }
  }

  // ---------------------------------------------------------------------------
  // Second pass: bullets against asteroids

  /** Index of the first live asteroid at or after `from` that the bullet reaches; |gos| if none. */
  function FirstHit(b: GameObject, gos: seq<GameObject>, from: nat, dt: real): (k: nat)
    requires from <= |gos|
    ensures from <= k <= |gos|
    ensures k < |gos| ==> LiveAsteroid(gos[k]) && Hits(b, gos[k], dt)
    ensures forall j :: from <= j < k ==> !(LiveAsteroid(gos[j]) && Hits(b, gos[j], dt))
    decreases |gos| - from
  {
    if from == |gos| then from
    else if LiveAsteroid(gos[from]) && IsWithinDistanceCheckDynamic(b, gos[from], dt) then from
    else FirstHit(b, gos, from + 1, dt)
  }

  /** The search loop of the bullet pass. */
  method FindFirstHit(b: GameObject, gos: seq<GameObject>, dt: real) returns (k: nat)
    ensures k == FirstHit(b, gos, 0, dt)
  {
    k := 0;
    while k < |gos| && !(LiveAsteroid(gos[k]) && IsWithinDistanceCheckDynamic(b, gos[k], dt))
      invariant k <= |gos|
      invariant forall j :: 0 <= j < k ==> !(LiveAsteroid(gos[j]) && Hits(b, gos[j], dt))
    {
      k := k + 1;
    }
  }

  /** The player a bullet hit is credited to: the local player when there is one, else the bullet's owner. */
  function CreditOf(b: Bullet, local: Wire.Option<nat>): int
  {
    if local.Some? then local.value else b.playerNO
  }

  predicate Creditable(f: Field, local: Wire.Option<nat>)
  {
    forall j :: 0 <= j < |f.bullets| ==> 0 <= CreditOf(f.bullets[j], local) < |f.players|
  }

  /** Bullet j against the object list. */
  function BulletVsAsteroids(f: Field, j: nat, local: Wire.Option<nat>, dt: real): (r: Field)
    requires j < |f.bullets| && 0 <= CreditOf(f.bullets[j], local) < |f.players|
  {
    var b := f.bullets[j];
    if !b.go.isActive then f
    else
      var k := FirstHit(b.go, f.gos, 0, dt);
      if k == |f.gos| then f
      else
        f.(bullets := f.bullets[j := b.(go := Cleared(b.go))],
           gos := f.gos[k := Cleared(f.gos[k])],
           players := AddScore(f.players, CreditOf(b, local), ScorePerAsteroid),
           destroyed := f.destroyed + [k])
  }

  /**
   * One bullet destroys at most one asteroid: the first live one it reaches.
   * Then the bullet and that asteroid are cleared, the credited player gains
   * 50, and nothing else changes; otherwise nothing changes at all.
   */
  lemma BulletVsAsteroidsEffect(f: Field, j: nat, local: Wire.Option<nat>, dt: real)
    requires j < |f.bullets| && 0 <= CreditOf(f.bullets[j], local) < |f.players|
    ensures var r := BulletVsAsteroids(f, j, local, dt);
      var k := FirstHit(f.bullets[j].go, f.gos, 0, dt);
      if f.bullets[j].go.isActive && k < |f.gos| then
        LiveAsteroid(f.gos[k]) &&
        r == f.(bullets := f.bullets[j := f.bullets[j].(go := Cleared(f.bullets[j].go))],
                gos := f.gos[k := Cleared(f.gos[k])],
                players := AddScore(f.players, CreditOf(f.bullets[j], local), ScorePerAsteroid),
                destroyed := f.destroyed + [k]) &&
        ScoreSum(r.players) == ScoreSum(f.players) + ScorePerAsteroid
      else r == f
  {
    var k := FirstHit(f.bullets[j].go, f.gos, 0, dt);
    if f.bullets[j].go.isActive && k < |f.gos| {
      ScoreSumAdd(f.players, CreditOf(f.bullets[j], local), ScorePerAsteroid);
    }
  }

  /** One bullet adds 50 to the total per report, that is 50 or nothing. */
  lemma BulletVsAsteroidsSum(f: Field, j: nat, local: Wire.Option<nat>, dt: real)
    requires j < |f.bullets| && 0 <= CreditOf(f.bullets[j], local) < |f.players|
    ensures var r := BulletVsAsteroids(f, j, local, dt);
      ScoreSum(r.players) == ScoreSum(f.players) + ScorePerAsteroid * (|r.destroyed| - |f.destroyed|)
  {
    var k := FirstHit(f.bullets[j].go, f.gos, 0, dt);
    if f.bullets[j].go.isActive && k < |f.gos| {
      ScoreSumAdd(f.players, CreditOf(f.bullets[j], local), ScorePerAsteroid);
    }
  }

  /** The second pass over the first m bullets; it keeps every list's length and every bullet's owner. */
  function BulletPass(f: Field, local: Wire.Option<nat>, m: nat, dt: real): (r: Field)
    requires m <= |f.bullets| && Creditable(f, local)
    ensures |r.players| == |f.players| && |r.gos| == |f.gos| && |r.bullets| == |f.bullets|
    ensures forall j :: 0 <= j < |f.bullets| ==> r.bullets[j].playerNO == f.bullets[j].playerNO
  {
    if m == 0 then f
    else
      var g := BulletPass(f, local, m - 1, dt);
      assert 0 <= CreditOf(g.bullets[m - 1], local) < |g.players| by {
        assert CreditOf(g.bullets[m - 1], local) == CreditOf(f.bullets[m - 1], local);
      }
      BulletVsAsteroids(g, m - 1, local, dt)
  }

  /** Every report from index `base` on names an entry of the object list that is now cleared. */
  predicate ReportsCleared(f: Field, base: nat)
  {
    forall d :: base <= d < |f.destroyed| ==> f.destroyed[d] < |f.gos| && !f.gos[f.destroyed[d]].isActive
  }

  /** Going from gs to hs, only live asteroids may be cleared and nothing else changes. */
  predicate ClearsOnlyLive(gs: seq<GameObject>, hs: seq<GameObject>)
  {
    |hs| == |gs| &&
    forall i :: 0 <= i < |gs| ==> hs[i] == gs[i] || (LiveAsteroid(gs[i]) && hs[i] == Cleared(gs[i]))
  }

  lemma ClearsOnlyLiveTrans(gs: seq<GameObject>, hs: seq<GameObject>, ks: seq<GameObject>)
    requires ClearsOnlyLive(gs, hs) && ClearsOnlyLive(hs, ks)
    ensures ClearsOnlyLive(gs, ks)
  {
  }

  /**
   * From f to r at most m reports were added, and each names an entry that
   * was a live asteroid in f and is cleared in r.
   */
  predicate Reported(f: Field, r: Field, m: nat)
  {
    f.destroyed <= r.destroyed && |r.destroyed| - |f.destroyed| <= m &&
    (forall d :: |f.destroyed| <= d < |r.destroyed| ==>
      r.destroyed[d] < |f.gos| && LiveAsteroid(f.gos[r.destroyed[d]])) &&
    ReportsCleared(r, |f.destroyed|)
  }

  /** What a run of the second pass over m bullets does to the object list and the reports. */
  predicate Stage(f: Field, r: Field, m: nat)
  {
    ClearsOnlyLive(f.gos, r.gos) && Reported(f, r, m)
  }

  /** A run over m - 1 bullets followed by bullet m - 1 is a run over m bullets. */
  lemma StageNext(f: Field, g: Field, local: Wire.Option<nat>, m: nat, dt: real)
    requires 0 < m <= |g.bullets| && 0 <= CreditOf(g.bullets[m - 1], local) < |g.players|
    requires Stage(f, g, m - 1)
    ensures Stage(f, BulletVsAsteroids(g, m - 1, local, dt), m)
  {
    var r := BulletVsAsteroids(g, m - 1, local, dt);
    var k := FirstHit(g.bullets[m - 1].go, g.gos, 0, dt);
    assert ClearsOnlyLive(g.gos, r.gos);
    ClearsOnlyLiveTrans(f.gos, g.gos, r.gos);
    if g.bullets[m - 1].go.isActive && k < |g.gos| {
      assert r.destroyed == g.destroyed + [k];
      assert g.gos[k] == f.gos[k];
      forall d | |f.destroyed| <= d < |g.destroyed|
        ensures !r.gos[r.destroyed[d]].isActive
      {
        assert r.destroyed[d] == g.destroyed[d];
      }
    }
  }

  /**
   * The second pass over the first m bullets: it clears only live
   * asteroids and changes nothing else in the object list; it adds at most
   * one report per bullet, and each names an entry that was a live
   * asteroid and is now cleared.
   */
  lemma {:induction false} BulletPassReports(f: Field, local: Wire.Option<nat>, m: nat, dt: real)
    requires m <= |f.bullets| && Creditable(f, local)
    ensures Stage(f, BulletPass(f, local, m, dt), m)
  {
    if m > 0 {
      var g := BulletPass(f, local, m - 1, dt);
      assert BulletPass(f, local, m, dt) == BulletVsAsteroids(g, m - 1, local, dt);
      BulletPassReports(f, local, m - 1, dt);
      StageNext(f, g, local, m, dt);
    }
  }

  /** The entries of s from index `from` on are pairwise different. */
  predicate DistinctFrom(s: seq<nat>, from: nat)
  {
    forall d, e :: from <= d < e < |s| ==> s[d] != s[e]
  }

  /**
   * A bullet never reports an entry already reported since `base`: those
   * are cleared, and a bullet only reports a live asteroid.
   */
  lemma BulletVsAsteroidsFresh(f: Field, j: nat, local: Wire.Option<nat>, dt: real, base: nat)
    requires j < |f.bullets| && 0 <= CreditOf(f.bullets[j], local) < |f.players|
    requires base <= |f.destroyed| && DistinctFrom(f.destroyed, base)
    requires ReportsCleared(f, base)
    ensures DistinctFrom(BulletVsAsteroids(f, j, local, dt).destroyed, base)
  {
    var r := BulletVsAsteroids(f, j, local, dt);
    var k := FirstHit(f.bullets[j].go, f.gos, 0, dt);
    if f.bullets[j].go.isActive && k < |f.gos| {
      assert r.destroyed == f.destroyed + [k];
      forall d, e | base <= d < e < |r.destroyed|
        ensures r.destroyed[d] != r.destroyed[e]
      {
        if e == |f.destroyed| {
          assert !f.gos[f.destroyed[d]].isActive;
        }
      }
    }
  }

  /** No asteroid is reported twice in one second pass. */
  lemma {:induction false} BulletPassDistinct(f: Field, local: Wire.Option<nat>, m: nat, dt: real)
    requires m <= |f.bullets| && Creditable(f, local)
    ensures DistinctFrom(BulletPass(f, local, m, dt).destroyed, |f.destroyed|)
  {
    if m > 0 {
      BulletPassDistinct(f, local, m - 1, dt);
      BulletPassDistinctNext(f, local, m, dt);
    }
  }

  /** The step of BulletPassDistinct from m - 1 bullets to m. */
  lemma BulletPassDistinctNext(f: Field, local: Wire.Option<nat>, m: nat, dt: real)
    requires 0 < m <= |f.bullets| && Creditable(f, local)
    requires DistinctFrom(BulletPass(f, local, m - 1, dt).destroyed, |f.destroyed|)
    ensures DistinctFrom(BulletPass(f, local, m, dt).destroyed, |f.destroyed|)
  {
    var g := BulletPass(f, local, m - 1, dt);
    assert BulletPass(f, local, m, dt) == BulletVsAsteroids(g, m - 1, local, dt);
    BulletPassReports(f, local, m - 1, dt);
    BulletVsAsteroidsFresh(g, m - 1, local, dt, |f.destroyed|);
  }

  /** The total score grows by 50 per report of the second pass. */
  lemma {:induction false} BulletPassScoreSum(f: Field, local: Wire.Option<nat>, m: nat, dt: real)
    requires m <= |f.bullets| && Creditable(f, local)
    ensures var r := BulletPass(f, local, m, dt);
      ScoreSum(r.players) == ScoreSum(f.players) + ScorePerAsteroid * (|r.destroyed| - |f.destroyed|)
  {
    if m > 0 {
      BulletPassScoreSum(f, local, m - 1, dt);
      BulletVsAsteroidsSum(BulletPass(f, local, m - 1, dt), m - 1, local, dt);
    }
  }

  /** Both passes, in the order the check runs them. */
  function CollisionPass(f: Field, tested: seq<nat>, local: Wire.Option<nat>, dt: real): (r: Field)
    requires Slots(tested, |f.players|) && Creditable(f, local)
    ensures |r.players| == |f.players| && |r.gos| == |f.gos| && |r.bullets| == |f.bullets|
  {
    var a := AsteroidPass(f, tested, |f.gos|, dt);
    BulletPass(a, local, |a.bullets|, dt)
  }
}
