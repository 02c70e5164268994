/*
 * The seven-float player record both peers put on the wire (STATE_UPDATE,
 * ALL_UPDATE, TIME_SYNC): pos.x, pos.y, scale.x, scale.y, rot, vel.x, vel.y,
 * each as the bit pattern htonf produces.  The float <-> word conversions
 * are parameters.
 */
module Records {
  import opened Wire
  import opened Kinematics

  /**
   * The conversions are exact on the seven values go puts on the wire:
   * each of them, converted to its word and back, is itself.  (No
   * conversion from real to 32-bit words can be exact on every real.)
   */
  predicate Exact(go: GameObject, enc: FloatToBits, dec: BitsToFloat)
  {
    dec(enc(go.t.pos.x)) == go.t.pos.x && dec(enc(go.t.pos.y)) == go.t.pos.y &&
    dec(enc(go.t.scale.x)) == go.t.scale.x && dec(enc(go.t.scale.y)) == go.t.scale.y &&
    dec(enc(go.t.rot)) == go.t.rot &&
    dec(enc(go.vel.x)) == go.vel.x && dec(enc(go.vel.y)) == go.vel.y
  }

  /**
   * The record the sender appends for one game object: read back with
   * conversions exact on its values, it gives the object's transform and
   * velocity.
   */
  function RecordOf(go: GameObject, enc: FloatToBits): (r: Record)
    ensures forall dec :: Exact(go, enc, dec) ==>
      PosOf(r, dec) == go.t.pos && ScaleOf(r, dec) == go.t.scale && dec(r.rot) == go.t.rot && VelOf(r, dec) == go.vel
  {
    Record(enc(go.t.pos.x), enc(go.t.pos.y), enc(go.t.scale.x), enc(go.t.scale.y),
           enc(go.t.rot), enc(go.vel.x), enc(go.vel.y))
  }

  function PosOf(r: Record, dec: BitsToFloat): Vec2 { Vec2(dec(r.posX), dec(r.posY)) }

  function ScaleOf(r: Record, dec: BitsToFloat): Vec2 { Vec2(dec(r.scaleX), dec(r.scaleY)) }

  function VelOf(r: Record, dec: BitsToFloat): Vec2 { Vec2(dec(r.velX), dec(r.velY)) }

  /** The records of a list of players, in slot order. */
  function Snapshot(ps: seq<Player>, enc: FloatToBits): (rs: seq<Record>)
    ensures |rs| == |ps|
    ensures forall i :: 0 <= i < |ps| ==> rs[i] == RecordOf(ps[i].go, enc)
  {
    if ps == [] then [] else Snapshot(ps[..|ps| - 1], enc) + [RecordOf(ps[|ps| - 1].go, enc)]
  }

  /**
   * Reading a record back gives the sender's transform and velocity when
   * the conversions are exact on its values, and two objects with the same
   * record then agree on all of them.
   */
  lemma RecordRoundTrip(go: GameObject, enc: FloatToBits, dec: BitsToFloat)
    requires Exact(go, enc, dec)
    ensures PosOf(RecordOf(go, enc), dec) == go.t.pos
    ensures ScaleOf(RecordOf(go, enc), dec) == go.t.scale
    ensures dec(RecordOf(go, enc).rot) == go.t.rot
    ensures VelOf(RecordOf(go, enc), dec) == go.vel
  {
  }

  /** With exact conversions, objects that put the same record on the wire have the same transform and velocity. */
  lemma RecordDetermines(go1: GameObject, go2: GameObject, enc: FloatToBits, dec: BitsToFloat)
    requires Exact(go1, enc, dec) && Exact(go2, enc, dec)
    requires RecordOf(go1, enc) == RecordOf(go2, enc)
    ensures go1.t == go2.t && go1.vel == go2.vel
  {
    RecordRoundTrip(go1, enc, dec);
    RecordRoundTrip(go2, enc, dec);
  }
}
