/*
 * The datagram layer shared by the client and the server of the arena game:
 * the twelve command ids, the fixed byte layout of every command, and the
 * big-endian encoders and decoders for each of them.
 *
 * Every datagram is one command byte followed by 4-byte big-endian words
 * (the GAME_END dates are 8-byte big-endian).  Floats travel as the 32-bit
 * pattern of their IEEE 754 binary32 value; here such a field is an opaque
 * `u32`, and the conversion between a word and a number is left to the
 * caller (see Kinematics for the real-valued side).
 */
module Wire {

  newtype byte = x: int | 0 <= x < 0x100
  newtype u32 = x: int | 0 <= x < 0x1_0000_0000
  newtype u64 = x: int | 0 <= x < 0x1_0000_0000_0000_0000

  datatype Option<T> = None | Some(value: T)

  /** Float <-> bit-pattern reinterpretation (htonf / ntohf), supplied by the caller. */
  type FloatToBits = real -> u32
  type BitsToFloat = u32 -> real

  // ---------------------------------------------------------------------------
  // Integer conversions the C++ code performs implicitly.

  /** `unsigned int tmp = htonl(x)` for a C++ `int` x: reduction modulo 2^32. */
  function WordOfInt(x: int): (w: u32)
    ensures w as int % 0x1_0000_0000 == x % 0x1_0000_0000
  {
    (x % 0x1_0000_0000) as u32
  }

  /** `(int)ntohl(...)`: the two's-complement reading of a 32-bit word. */
  function IntOfWord(w: u32): (x: int)
    ensures -0x8000_0000 <= x < 0x8000_0000
    ensures x >= 0 <==> w < 0x8000_0000
  {
    if w < 0x8000_0000 then w as int else w as int - 0x1_0000_0000
  }

  /** `htonll(playDate)` for a C++ `long long`: reduction modulo 2^64. */
  function Word64OfInt(x: int): (w: u64)
    ensures w as int % 0x1_0000_0000_0000_0000 == x % 0x1_0000_0000_0000_0000
  {
    (x % 0x1_0000_0000_0000_0000) as u64
  }

  predicate IsInt32(x: int) { -0x8000_0000 <= x < 0x8000_0000 }

  /** A C++ `int` survives the trip through an unsigned 32-bit word. */
  lemma IntWordRoundTrip(x: int)
    requires IsInt32(x)
    ensures IntOfWord(WordOfInt(x)) == x
  {
    if x < 0 {
      assert (x % 0x1_0000_0000) == x + 0x1_0000_0000;
    }
  }

  // ---------------------------------------------------------------------------
  // Command ids (ClientUDP/Network.h, enum CommandID)

  datatype Command =
    | CError | CStateUpdate | CAllUpdate | CReqFire | CRspFire
    | CAsteroidSpawn | CAsteroidDestroy | CReqConnect | CRspConnect
    | CGameStart | CGameEnd | CTimeSync

  function Code(c: Command): (b: byte)
    ensures b < 12
  {
    match c
    case CError => 0
    case CStateUpdate => 1
    case CAllUpdate => 2
    case CReqFire => 3
    case CRspFire => 4
    case CAsteroidSpawn => 5
    case CAsteroidDestroy => 6
    case CReqConnect => 7
    case CRspConnect => 8
    case CGameStart => 9
    case CGameEnd => 10
    case CTimeSync => 11
  }

  /** The command a leading byte names; ids 12..255 name none. */
  function CommandOf(b: byte): (c: Option<Command>)
    ensures c.Some? <==> b < 12
    ensures c.Some? ==> Code(c.value) == b
  {
    if b == 0 then Some(CError)
    else if b == 1 then Some(CStateUpdate)
    else if b == 2 then Some(CAllUpdate)
    else if b == 3 then Some(CReqFire)
    else if b == 4 then Some(CRspFire)
    else if b == 5 then Some(CAsteroidSpawn)
    else if b == 6 then Some(CAsteroidDestroy)
    else if b == 7 then Some(CReqConnect)
    else if b == 8 then Some(CRspConnect)
    else if b == 9 then Some(CGameStart)
    else if b == 10 then Some(CGameEnd)
    else if b == 11 then Some(CTimeSync)
    else None
  }

  /** The twelve ids are pairwise distinct: `Code` is injective and `CommandOf` inverts it. */
  lemma CodesDistinct(c: Command, d: Command)
    ensures CommandOf(Code(c)) == Some(c)
    ensures Code(c) == Code(d) ==> c == d
  {
  }

  /** Number of words in one player's kinematic record: pos(2), scale(2), rot, vel(2). */
  const RecordWords: nat := 7
  const Players: nat := 4
  const TableSize: nat := 5

  /** Byte length of each command's datagram (Network.h layout comments). */
  function Layout(c: Command): (n: nat)
    ensures n >= 1
  {
    match c
    case CError => 1
    case CStateUpdate => 1 + 4 + 4 * RecordWords
    case CAllUpdate => 1 + 4 + Players * 4 * RecordWords
    case CReqFire => 1 + 4
    case CRspFire => 1 + 4 + 4
    case CAsteroidSpawn => 1 + 4
    case CAsteroidDestroy => 1 + 4
    case CReqConnect => 1
    case CRspConnect => 1 + 4
    case CGameStart => 1
    case CGameEnd => 1 + TableSize * (4 + 8) + Players * 4
    case CTimeSync => 1 + 4 + Players * 4 * RecordWords
  }

  /** The concrete sizes the layout comments promise. */
  lemma LayoutSizes()
    ensures Layout(CStateUpdate) == 33
    ensures Layout(CAllUpdate) == Layout(CTimeSync) == 117
    ensures Layout(CReqFire) == Layout(CAsteroidSpawn) == Layout(CAsteroidDestroy) == Layout(CRspConnect) == 5
    ensures Layout(CRspFire) == 9
    ensures Layout(CReqConnect) == Layout(CGameStart) == 1
    ensures Layout(CGameEnd) == 77
  {
  }

  // ---------------------------------------------------------------------------
  // Big-endian words

  function BE32(w: u32): (r: seq<byte>)
    ensures |r| == 4
  {
    [(w / 0x100_0000) as byte, (w / 0x1_0000 % 0x100) as byte,
     (w / 0x100 % 0x100) as byte, (w % 0x100) as byte]
  }

  /** `ntohl(*(uint32_t*)(buffer + off))` */
  function ReadBE32(s: seq<byte>, off: nat): u32
    requires off + 4 <= |s|
  {
    (s[off] as int * 0x100_0000 + s[off + 1] as int * 0x1_0000
     + s[off + 2] as int * 0x100 + s[off + 3] as int) as u32
  }

  function High(w: u64): u32 { (w / 0x1_0000_0000) as u32 }
  function Low(w: u64): u32 { (w % 0x1_0000_0000) as u32 }

  function Join(hi: u32, lo: u32): (w: u64)
    ensures High(w) == hi && Low(w) == lo
  {
    (hi as int * 0x1_0000_0000 + lo as int) as u64
  }

  /** `ntohll(*(uint64_t*)(buffer + off))` */
  function ReadBE64(s: seq<byte>, off: nat): u64
    requires off + 8 <= |s|
  {
    Join(ReadBE32(s, off), ReadBE32(s, off + 4))
  }

  lemma ReadBE32Inverse(w: u32)
    ensures ReadBE32(BE32(w), 0) == w
  {
    var x := w as int;
    var q1 := x / 0x100;
    var q2 := q1 / 0x100;
    var q3 := q2 / 0x100;
    assert q2 == x / 0x1_0000;
    assert q3 == x / 0x100_0000;
    assert x == q1 * 0x100 + x % 0x100;
    assert q1 == q2 * 0x100 + q1 % 0x100;
    assert q2 == q3 * 0x100 + q2 % 0x100;
  }

  lemma JoinSplit(w: u64)
    ensures Join(High(w), Low(w)) == w
  {
  }

  /** The bytes of a sequence of words laid end to end. */
  function Words(ws: seq<u32>): (r: seq<byte>)
    ensures |r| == 4 * |ws|
  {
    if ws == [] then [] else BE32(ws[0]) + Words(ws[1..])
  }

  lemma {:induction false} WordsSlice(ws: seq<u32>, k: nat)
    requires k < |ws|
    ensures Words(ws)[4 * k .. 4 * k + 4] == BE32(ws[k])
  {
    if k > 0 {
      WordsSlice(ws[1..], k - 1);
      assert Words(ws) == BE32(ws[0]) + Words(ws[1..]);
      assert Words(ws)[4 * k .. 4 * k + 4] == Words(ws[1..])[4 * (k - 1) .. 4 * (k - 1) + 4];
    }
  }

  /** The word at index k of a datagram `[id] + Words(ws)` is read back at offset 1 + 4k. */
  lemma {:induction false} ReadWordAt(id: byte, ws: seq<u32>, k: nat)
    requires k < |ws|
    ensures 1 + 4 * k + 4 <= |[id] + Words(ws)|
    ensures ReadBE32([id] + Words(ws), 1 + 4 * k) == ws[k]
  {
    var s := [id] + Words(ws);
    WordsSlice(ws, k);
    assert s[1 + 4 * k .. 1 + 4 * k + 4] == Words(ws)[4 * k .. 4 * k + 4];
    ReadBE32Inverse(ws[k]);
    assert ReadBE32(s, 1 + 4 * k) == ReadBE32(s[1 + 4 * k .. 1 + 4 * k + 4], 0);
  }

  // ---------------------------------------------------------------------------
  // Messages

  /** One player's kinematics as float bit patterns, in wire order. */
  datatype Record = Record(posX: u32, posY: u32, scaleX: u32, scaleY: u32,
                           rot: u32, velX: u32, velY: u32)

  /** One highscore row of GAME_END: score word and 8-byte date. */
  datatype ScoreRow = ScoreRow(score: u32, date: u64)

  datatype Message =
    | StateUpdate(time: u32, state: Record)
    | AllUpdate(time: u32, states: seq<Record>)
    | ReqFire(time: u32)
    | RspFire(time: u32, player: u32)
    | AsteroidSpawn(time: u32)
    | AsteroidDestroy(index: u32)
    | ReqConnect
    | RspConnect(player: u32)
    | GameStart
    | GameEnd(table: seq<ScoreRow>, scores: seq<u32>)
    | TimeSync(time: u32, states: seq<Record>)
  {
    function Cmd(): Command
    {
      match this
      case StateUpdate(_, _) => CStateUpdate
      case AllUpdate(_, _) => CAllUpdate
      case ReqFire(_) => CReqFire
      case RspFire(_, _) => CRspFire
      case AsteroidSpawn(_) => CAsteroidSpawn
      case AsteroidDestroy(_) => CAsteroidDestroy
      case ReqConnect => CReqConnect
      case RspConnect(_) => CRspConnect
      case GameStart => CGameStart
      case GameEnd(_, _) => CGameEnd
      case TimeSync(_, _) => CTimeSync
    }

    /** The fixed counts the layouts rely on: four player records, five highscore rows, four scores. */
    predicate WellFormed()
    {
      match this
      case AllUpdate(_, states) => |states| == Players
      case TimeSync(_, states) => |states| == Players
      case GameEnd(table, scores) => |table| == TableSize && |scores| == Players
      case _ => true
    }
  }

  function RecordFields(r: Record): (ws: seq<u32>)
    ensures |ws| == RecordWords
  {
    [r.posX, r.posY, r.scaleX, r.scaleY, r.rot, r.velX, r.velY]
  }

  function RecordsFields(rs: seq<Record>): (ws: seq<u32>)
    ensures |ws| == RecordWords * |rs|
  {
    if rs == [] then [] else RecordFields(rs[0]) + RecordsFields(rs[1..])
  }

  function RowsFields(rows: seq<ScoreRow>): (ws: seq<u32>)
    ensures |ws| == 3 * |rows|
  {
    if rows == [] then [] else [rows[0].score, High(rows[0].date), Low(rows[0].date)] + RowsFields(rows[1..])
  }

  /** The words following the id byte, in the order the encoders append them. */
  function Fields(m: Message): seq<u32>
  {
    match m
    case StateUpdate(t, r) => [t] + RecordFields(r)
    case AllUpdate(t, rs) => [t] + RecordsFields(rs)
    case ReqFire(t) => [t]
    case RspFire(t, p) => [t, p]
    case AsteroidSpawn(t) => [t]
    case AsteroidDestroy(i) => [i]
    case ReqConnect => []
    case RspConnect(p) => [p]
    case GameStart => []
    case GameEnd(rows, scores) => RowsFields(rows) + scores
    case TimeSync(t, rs) => [t] + RecordsFields(rs)
  }

  /** The datagram for a message: its id byte, then its words big-endian. */
  function Encode(m: Message): (r: seq<byte>)
    requires m.WellFormed()
    ensures |r| == Layout(m.Cmd())
    ensures r[0] == Code(m.Cmd())
  {
    [Code(m.Cmd())] + Words(Fields(m))
  }

  // ---------------------------------------------------------------------------
  // Decoders.  The source reads fixed offsets without looking at the received
  // length; here a buffer shorter than the layout is refused.

  function ReadRecord(s: seq<byte>, off: nat): Record
    requires off + 4 * RecordWords <= |s|
  {
    Record(ReadBE32(s, off), ReadBE32(s, off + 4), ReadBE32(s, off + 8), ReadBE32(s, off + 12),
           ReadBE32(s, off + 16), ReadBE32(s, off + 20), ReadBE32(s, off + 24))
  }

  /** Player i's record in an ALL_UPDATE / TIME_SYNC sits at offset 5 + 28 i. */
  function ReadRecords(s: seq<byte>): (rs: seq<Record>)
    requires |s| >= Layout(CAllUpdate)
    ensures |rs| == Players
  {
    seq(Players, i requires 0 <= i < Players => ReadRecord(s, 5 + 4 * RecordWords * i))
  }

  function ReadRows(s: seq<byte>): (rows: seq<ScoreRow>)
    requires |s| >= Layout(CGameEnd)
    ensures |rows| == TableSize
  {
    seq(TableSize, i requires 0 <= i < TableSize => ScoreRow(ReadBE32(s, 1 + 12 * i), ReadBE64(s, 1 + 12 * i + 4)))
  }

  function ReadScores(s: seq<byte>): (scores: seq<u32>)
    requires |s| >= Layout(CGameEnd)
    ensures |scores| == Players
  {
    seq(Players, i requires 0 <= i < Players => ReadBE32(s, 61 + 4 * i))
  }

  /**
   * Decode the payload of a datagram whose command byte has already been
   * dispatched to command c (the receivers switch on byte 0 first).
   */
  function DecodeAs(c: Command, s: seq<byte>): (r: Option<Message>)
    ensures r.Some? <==> c != CError && |s| >= Layout(c)
    ensures r.Some? ==> r.value.Cmd() == c && r.value.WellFormed()
  {
    if c == CError || |s| < Layout(c) then None
    else
      match c
      case CStateUpdate => Some(StateUpdate(ReadBE32(s, 1), ReadRecord(s, 5)))
      case CAllUpdate => Some(AllUpdate(ReadBE32(s, 1), ReadRecords(s)))
      case CReqFire => Some(ReqFire(ReadBE32(s, 1)))
      case CRspFire => Some(RspFire(ReadBE32(s, 1), ReadBE32(s, 5)))
      case CAsteroidSpawn => Some(AsteroidSpawn(ReadBE32(s, 1)))
      case CAsteroidDestroy => Some(AsteroidDestroy(ReadBE32(s, 1)))
      case CReqConnect => Some(ReqConnect)
      case CRspConnect => Some(RspConnect(ReadBE32(s, 1)))
      case CGameStart => Some(GameStart)
      case CGameEnd => Some(GameEnd(ReadRows(s), ReadScores(s)))
      case CTimeSync => Some(TimeSync(ReadBE32(s, 1), ReadRecords(s)))
  }

  /** Dispatch on the command byte, then decode; unknown ids, ERROR and short buffers give None. */
  function Decode(s: seq<byte>): (r: Option<Message>)
    ensures r.Some? ==> |s| >= 1 && CommandOf(s[0]) == Some(r.value.Cmd()) && |s| >= Layout(r.value.Cmd())
  {
    if |s| == 0 then None
    else match CommandOf(s[0])
      case None => None
      case Some(c) => DecodeAs(c, s)
  }

  // ---------------------------------------------------------------------------
  // Round trips

  lemma {:induction false} RecordsFieldsAt(rs: seq<Record>, i: nat, j: nat)
    requires i < |rs| && j < RecordWords
    ensures RecordsFields(rs)[RecordWords * i + j] == RecordFields(rs[i])[j]
  {
    if i > 0 {
      RecordsFieldsAt(rs[1..], i - 1, j);
    }
  }

  lemma {:induction false} RowsFieldsAt(rows: seq<ScoreRow>, i: nat)
    requires i < |rows|
    ensures RowsFields(rows)[3 * i] == rows[i].score
    ensures RowsFields(rows)[3 * i + 1] == High(rows[i].date)
    ensures RowsFields(rows)[3 * i + 2] == Low(rows[i].date)
  {
    if i > 0 {
      RowsFieldsAt(rows[1..], i - 1);
    }
  }

  /** A record written as words starting at word index `base` reads back at byte offset 1 + 4 base. */
  lemma RecordAt(id: byte, ws: seq<u32>, base: nat, r: Record)
    requires base + RecordWords <= |ws|
    requires ws[base .. base + RecordWords] == RecordFields(r)
    ensures 1 + 4 * base + 4 * RecordWords <= |[id] + Words(ws)|
    ensures ReadRecord([id] + Words(ws), 1 + 4 * base) == r
  {
    var s := [id] + Words(ws);
    forall j | 0 <= j < RecordWords
      ensures ReadBE32(s, 1 + 4 * (base + j)) == RecordFields(r)[j]
    {
      ReadWordAt(id, ws, base + j);
      assert ws[base + j] == ws[base .. base + RecordWords][j];
    }
    assert ReadBE32(s, 1 + 4 * base) == RecordFields(r)[0];
    assert ReadBE32(s, 1 + 4 * (base + 1)) == RecordFields(r)[1];
    assert ReadBE32(s, 1 + 4 * (base + 2)) == RecordFields(r)[2];
    assert ReadBE32(s, 1 + 4 * (base + 3)) == RecordFields(r)[3];
    assert ReadBE32(s, 1 + 4 * (base + 4)) == RecordFields(r)[4];
    assert ReadBE32(s, 1 + 4 * (base + 5)) == RecordFields(r)[5];
    assert ReadBE32(s, 1 + 4 * (base + 6)) == RecordFields(r)[6];
  }

  lemma SnapshotRoundTrip(id: byte, t: u32, rs: seq<Record>)
    requires |rs| == Players
    ensures |[id] + Words([t] + RecordsFields(rs))| >= Layout(CAllUpdate)
    ensures ReadBE32([id] + Words([t] + RecordsFields(rs)), 1) == t
    ensures ReadRecords([id] + Words([t] + RecordsFields(rs))) == rs
  {
    var ws := [t] + RecordsFields(rs);
    var s := [id] + Words(ws);
    ReadWordAt(id, ws, 0);
    forall i | 0 <= i < Players
      ensures ReadRecord(s, 5 + 4 * RecordWords * i) == rs[i]
    {
      forall j | 0 <= j < RecordWords
        ensures ws[1 + RecordWords * i .. 1 + RecordWords * i + RecordWords][j] == RecordFields(rs[i])[j]
      {
        RecordsFieldsAt(rs, i, j);
      }
      RecordAt(id, ws, 1 + RecordWords * i, rs[i]);
    }
  }

  lemma GameEndRoundTrip(rows: seq<ScoreRow>, scores: seq<u32>)
    requires |rows| == TableSize && |scores| == Players
    ensures |[Code(CGameEnd)] + Words(RowsFields(rows) + scores)| >= Layout(CGameEnd)
    ensures ReadRows([Code(CGameEnd)] + Words(RowsFields(rows) + scores)) == rows
    ensures ReadScores([Code(CGameEnd)] + Words(RowsFields(rows) + scores)) == scores
  {
    TableRoundTrip(rows, scores);
    ScoresRoundTrip(rows, scores);
  }

  lemma TableRoundTrip(rows: seq<ScoreRow>, scores: seq<u32>)
    requires |rows| == TableSize && |scores| == Players
    ensures |[Code(CGameEnd)] + Words(RowsFields(rows) + scores)| >= Layout(CGameEnd)
    ensures ReadRows([Code(CGameEnd)] + Words(RowsFields(rows) + scores)) == rows
  {
    var ws := RowsFields(rows) + scores;
    var s := [Code(CGameEnd)] + Words(ws);
    forall i | 0 <= i < TableSize
      ensures ReadBE32(s, 1 + 12 * i) == rows[i].score
      ensures ReadBE64(s, 1 + 12 * i + 4) == rows[i].date
    {
      RowsFieldsAt(rows, i);
      ReadWordAt(Code(CGameEnd), ws, 3 * i);
      ReadWordAt(Code(CGameEnd), ws, 3 * i + 1);
      ReadWordAt(Code(CGameEnd), ws, 3 * i + 2);
      JoinSplit(rows[i].date);
    }
  }

  lemma ScoresRoundTrip(rows: seq<ScoreRow>, scores: seq<u32>)
    requires |rows| == TableSize && |scores| == Players
    ensures |[Code(CGameEnd)] + Words(RowsFields(rows) + scores)| >= Layout(CGameEnd)
    ensures ReadScores([Code(CGameEnd)] + Words(RowsFields(rows) + scores)) == scores
  {
    var ws := RowsFields(rows) + scores;
    forall i | 0 <= i < Players
      ensures ReadBE32([Code(CGameEnd)] + Words(ws), 61 + 4 * i) == scores[i]
    {
      ReadWordAt(Code(CGameEnd), ws, 15 + i);
    }
  }

  lemma DecodeEncode(m: Message)
    requires m.WellFormed()
    ensures Decode(Encode(m)) == Some(m)
  {
    match m {
      case StateUpdate(t, r) => StateUpdateRoundTrip(t, r);
      case AllUpdate(t, rs) => SnapshotMessageRoundTrip(m);
      case TimeSync(t, rs) => SnapshotMessageRoundTrip(m);
      case GameEnd(rows, scores) => GameEndMessageRoundTrip(rows, scores);
      case _ => ShortRoundTrip(m);
    }
  }

  lemma StateUpdateRoundTrip(t: u32, r: Record)
    ensures Decode(Encode(StateUpdate(t, r))) == Some(StateUpdate(t, r))
  {
    var ws := Fields(StateUpdate(t, r));
    ReadWordAt(Code(CStateUpdate), ws, 0);
    assert ws[1 .. 1 + RecordWords] == RecordFields(r);
    RecordAt(Code(CStateUpdate), ws, 1, r);
  }

  lemma SnapshotMessageRoundTrip(m: Message)
    requires (m.AllUpdate? || m.TimeSync?) && m.WellFormed()
    ensures Decode(Encode(m)) == Some(m)
  {
    var s := Encode(m);
    assert s == [Code(m.Cmd())] + Words([m.time] + RecordsFields(m.states));
    SnapshotRoundTrip(Code(m.Cmd()), m.time, m.states);
  }

  lemma GameEndMessageRoundTrip(rows: seq<ScoreRow>, scores: seq<u32>)
    requires |rows| == TableSize && |scores| == Players
    ensures Decode(Encode(GameEnd(rows, scores))) == Some(GameEnd(rows, scores))
  {
    var s := Encode(GameEnd(rows, scores));
    assert s == [Code(CGameEnd)] + Words(RowsFields(rows) + scores);
    GameEndRoundTrip(rows, scores);
  }

  /** The messages of at most two words. */
  lemma ShortRoundTrip(m: Message)
    requires !(m.StateUpdate? || m.AllUpdate? || m.TimeSync? || m.GameEnd?)
    ensures Decode(Encode(m)) == Some(m)
  {
    var ws := Fields(m);
    if |ws| > 0 {
      ReadWordAt(Code(m.Cmd()), ws, 0);
    }
    if |ws| > 1 {
      ReadWordAt(Code(m.Cmd()), ws, 1);
    }
  }

  /** A datagram shorter than its command's layout is refused, never read past its end. */
  lemma ShortRefused(s: seq<byte>)
    requires |s| >= 1 && CommandOf(s[0]).Some?
    requires |s| < Layout(CommandOf(s[0]).value)
    ensures Decode(s) == None
  {
  }
}
