# Asteroids over UDP: a verified model of the sync protocol and game rules

The system is a two-program multiplayer asteroid shooter. ServerUDP runs the authoritative match and ClientUDP is the player's client. They talk over UDP in fixed-layout datagrams: a one-byte command id (0..11) followed by big-endian 4-byte words. Floats travel as IEEE 754 bit patterns, and the highscore date travels as one 8-byte word.

This project models the deterministic core of both programs.

- **Wire codec** (`wire.dfy`, module `Wire`):
  - the command ids and the per-command layouts;
  - a single `Encode`/`Decode` pair for every message, with decoders that refuse a buffer shorter than its layout;
  - byte-level round trips.
- **Records** (`records.dfy`): the 7-word per-ship record shared by STATE_UPDATE, ALL_UPDATE and TIME_SYNC.
- **Entity update** (`kinematics.dfy`):
  - `GameObject::Update`, which integrates, then wraps each axis at most once;
  - `Bullet::Update`, which spends lifetime;
  - the frame loops over the pools;
  - dead reckoning (`InterpolateGameobject`).
- **Collision tests** (`collision.cpp`, `collision.dfy`): the static circle test and the swept test, over `real`.
- **`Wrap`** (`Math.h`, `math.dfy`).
- **Pools** (`pools.dfy`): first-free-slot reuse in the bullet list and in the asteroid list.
- **Scoring** (`scoring.dfy`): the collision pass shared by server and client. It has −10 for a ship that hits an asteroid and +50 for a bullet hit, and every destroyed asteroid is reported.
- **Asteroid spawn** (`spawn.dfy`): the asteroid built from the generator's draws.
- **Highscore table** (`highscore.dfy`):
  - the top-5 insertion with sort;
  - the `name|score|date` line format and its parse;
  - reading and writing the file as a list of lines.
- **Server session** (`server.dfy`, class `ServerSide.Server`): the receive dispatch, covering REQ_CONNECT admission, REQ_FIRE relay and STATE_UPDATE staleness; the send thread's GAME_START / ALL_UPDATE / TIME_SYNC; and the main loop's spawn, move, collide and match end.
- **Client session** (`client.dfy`, class `ClientSide.Client`): the encoders, the RSP_CONNECT check, every inbound `Process*` handler and the receive dispatch, plus the client's pools, interpolation, frame update and collision check.

Floats on the wire are opaque 32-bit words. The conversions `htonf`/`ntohf` are parameters `enc: real -> u32` and `dec: u32 -> real`. Round-trip lemmas rely only on the fact that the conversions are exact on the values a record carries (`Records.Exact`: `dec(enc(v)) == v` for each of the seven values); no conversion into 32-bit words can be exact on every real. The following are also parameters of the operations that use them:

- the random draws of asteroid spawning (`SpawnDraws`);
- the trigonometry of a shot (`heading: real -> Vec2`);
- the wall clock and whether `localtime_s` succeeded (`now`, `clockOk`);
- the highscore file, as `Option<seq<string>>` lines;
- the frame time `dt`.

A sent datagram is a `Datagram` value: a destination set (all clients or one address) and its bytes.

## Model

| member | source | states |
|---|---|---|
| Wire.Code | ClientUDP/Network.h:34-47 | every command id is below 12 |
| Wire.CommandOf | ClientUDP/Network.h:34-47 | a byte names a command iff it is below 12, and then it is that command's id |
| Wire.CodesDistinct | ClientUDP/Network.h:34-47 | the twelve ids are pairwise distinct and each decodes back to its command |
| Wire.Layout | ClientUDP/Network.h:49-73 | every layout has at least the id byte |
| Wire.LayoutSizes | ClientUDP/Network.h:52-73 | STATE_UPDATE is 33 bytes, ALL_UPDATE and TIME_SYNC 117, REQ_FIRE/ASTEROID_SPAWN/ASTEROID_DESTROY/RSP_CONNECT 5, RSP_FIRE 9, REQ_CONNECT/GAME_START 1, GAME_END 77 |
| Wire.WordOfInt | ServerUDP/main_server.cpp:384-385 | htonl of an int keeps its value modulo 2^32 |
| Wire.IntOfWord | ClientUDP/Network.cpp:535 | the (int) cast of a received word lies in the int32 range and is negative iff the top bit is set |
| Wire.Word64OfInt | ServerUDP/main_server.cpp:302-303 | htonll of the date keeps its value modulo 2^64 |
| Wire.IntWordRoundTrip | ClientUDP/Network.cpp:514 | an int32 sent with htonl and read back with (int)ntohl is unchanged |
| Wire.BE32 | ServerUDP/main_server.cpp:299-300 | a word is appended as exactly 4 bytes |
| Wire.ReadBE32Inverse | ServerUDP/main_server.cpp:457 | reading 4 big-endian bytes back gives the word that was written |
| Wire.Join | ClientUDP/Network.cpp:509 | the 8-byte date is rebuilt from its high and low words |
| Wire.JoinSplit | ClientUDP/Network.cpp:509 | splitting a 64-bit date into two words and joining them gives it back |
| Wire.Words | ServerUDP/main_server.cpp:546-571 | appending n words adds 4n bytes |
| Wire.ReadWordAt | ClientUDP/Network.h:52-73 | word k of a message sits at byte offset 1 + 4k |
| Wire.RecordFields | ClientUDP/Network.h:53 | a ship record is 7 words: pos, scale, rot, vel |
| Wire.RecordsFields | ClientUDP/Network.h:55 | n ship records are 7n words |
| Wire.RowsFields | ClientUDP/Network.h:71 | n highscore rows are 3n words: score, then the date's two halves |
| Wire.RecordsFieldsAt | ServerUDP/main_server.cpp:552-571 | word 7i+j of the records is word j of record i, in slot order |
| Wire.RowsFieldsAt | ServerUDP/main_server.cpp:297-305 | row i's score and date halves are words 3i, 3i+1, 3i+2 |
| Wire.Encode | ClientUDP/Network.h:49-73 | every encoded message has its command's layout length and starts with its id |
| Wire.ReadRecords | ClientUDP/Network.cpp:410-437 | the ALL_UPDATE/TIME_SYNC reader yields four records |
| Wire.ReadRows | ClientUDP/Network.cpp:504-510 | the GAME_END reader yields five table rows |
| Wire.ReadScores | ClientUDP/Network.cpp:511-515 | the GAME_END reader yields four player scores |
| Wire.RecordAt | ClientUDP/Network.cpp:419-437 | a record written at word base is read back at byte 1 + 4·base |
| Wire.DecodeAs | ClientUDP/Network.h:49-73 | decoding as a command succeeds iff the command is not C_ERROR and the buffer holds its layout |
| Wire.Decode | ClientUDP/Network.cpp:255-275 | a decoded message has the id of its first byte and the buffer holds its whole layout |
| Wire.SnapshotRoundTrip | ClientUDP/Network.cpp:400-437 | the server's 117-byte snapshot is read back with the same time and the same four records |
| Wire.GameEndRoundTrip | ClientUDP/Network.cpp:501-515 | GAME_END's table rows at 1 + 12i and scores at 61 + 4i are read back as written |
| Wire.TableRoundTrip | ClientUDP/Network.cpp:506-510 | the five (score, date) rows come back as the server wrote them |
| Wire.ScoresRoundTrip | ClientUDP/Network.cpp:511-515 | the four player scores come back as the server wrote them |
| Wire.DecodeEncode | ClientUDP/Network.h:49-73 | every well-formed message decodes back to itself |
| Wire.StateUpdateRoundTrip | ServerUDP/main_server.cpp:457-483 | a STATE_UPDATE decodes back to the same time and record |
| Wire.SnapshotMessageRoundTrip | ClientUDP/Network.cpp:397-444 | ALL_UPDATE and TIME_SYNC decode back to themselves |
| Wire.GameEndMessageRoundTrip | ClientUDP/Network.cpp:501-519 | GAME_END decodes back to itself |
| Wire.ShortRoundTrip | ClientUDP/Network.h:56-69 | the short messages (REQ_FIRE, RSP_FIRE, spawn, destroy, connect, start) decode back to themselves |
| Wire.ShortRefused | ServerUDP/main_server.cpp:457-483 | a buffer shorter than its command's layout is refused |
| Records.RecordOf | ClientUDP/Network.cpp:353-374 | read back with any conversion exact on the ship's seven values, the record gives the ship's pos, scale, rot and vel |
| Records.Snapshot | ServerUDP/main_server.cpp:552-571 | the snapshot holds one record per player, in slot order |
| Records.RecordRoundTrip | ServerUDP/main_server.cpp:471-483 | with conversions exact on the sender's values, the receiver's ntohf reads give back pos, scale, rot and vel |
| Records.RecordDetermines | ServerUDP/main_server.cpp:471-483 | with exact conversions, two ships that send the same record have the same transform and velocity |
| Math.Wrap | ClientUDP/Math.h:18-24 | when the recursion terminates, the result lies in [min(lo,hi), max(lo,hi)) |
| Math.SwappedBounds | ClientUDP/Math.h:20-22 | with min > max, Wrap(v, min, max) equals Wrap(v, max, min) |
| Math.InRangeFixed | ClientUDP/Math.h:23 | a value already in [min, max) is returned unchanged |
| Math.Idempotent | ClientUDP/Math.h:23 | wrapping a wrapped value changes nothing |
| Math.ZeroMinPeriodic | ClientUDP/Math.h:23 | with min = 0 and max > 0 the recursion terminates, and the result differs from the value by a whole multiple of max |
| Math.DownsDecrease | ClientUDP/Math.h:23 | the subtracting branch decreases a natural measure, so it terminates |
| Math.UpsDecrease | ClientUDP/Math.h:23 | the adding branch decreases a natural measure and lands below max |
| Kinematics.WrapAxis | ClientUDP/gameobject.cpp:42-50 | one axis moves by at most one wrap. It moves by −(W+s) only when it moves right past +W/2, and by +(W+s) only when it moves left past −W/2 |
| Kinematics.Update | ClientUDP/gameobject.cpp:33-51 | an inactive object is unchanged. An active one gets pos += vel·dt, then the per-axis wrap. Scale, rot, vel, texid, col and isActive never change |
| Kinematics.ZeroVelocityStill | ClientUDP/gameobject.cpp:38-50 | an axis with zero velocity keeps its position |
| Kinematics.AxisStaysInBand | ClientUDP/gameobject.cpp:42-46 | a step no longer than W + s keeps the position within the wrap band |
| Kinematics.UpdateStaysInBand | ClientUDP/gameobject.cpp:33-51 | one Update keeps the x position within the wrap band |
| Kinematics.NoUnboundedDrift | ClientUDP/gameobject.cpp:33-51 | any number of Updates keep the object within the wrap band with the same velocity and size |
| Kinematics.BulletUpdate | ClientUDP/gameobject.cpp:83-90 | an active bullet moves and loses dt of lifetime, and goes inactive iff its lifetime drops below 0. An inactive bullet is unchanged |
| Kinematics.FrameKeepsPools | ClientUDP/main_client.cpp:473-481 | the frame update keeps pool sizes, owners, textures and isActive flags |
| Kinematics.MoveObjects | ClientUDP/main_client.cpp:476-478 | the asteroid loop updates every entry by GameObject::Update |
| Kinematics.MoveBullets | ClientUDP/main_client.cpp:479-481 | the bullet loop updates every entry by Bullet::Update |
| Kinematics.Interpolate | ClientUDP/main_client.cpp:572-576 | only pos changes, and it changes by exactly vel·(now − timestamp) |
| Kinematics.InterpolateSameTime | ClientUDP/main_client.cpp:572-576 | interpolating to the same time changes nothing |
| Kinematics.InterpolateCompose | ClientUDP/main_client.cpp:572-576 | interpolating t0→t1 then t1→t2 equals interpolating t0→t2 |
| Kinematics.DeadReckonCompose | ServerUDP/main_server.cpp:655-659 | two dead-reckoning steps compose into one over the summed time |
| Collision.DSquared | ServerUDP/collision.cpp:18-21 | the squared distance is non-negative and zero iff the points coincide |
| Collision.DSquaredSymmetric | ServerUDP/collision.cpp:18-21 | the squared distance is symmetric |
| Collision.DotSelf | ServerUDP/collision.cpp:48 | v·v is non-negative and zero iff v is zero |
| Collision.Radius | ServerUDP/collision.cpp:26-27 | the radius is half the larger scale axis |
| Collision.ReachSquared | ServerUDP/collision.cpp:28 | the squared combined radius is non-negative |
| Collision.StaticSymmetric | ServerUDP/collision.cpp:22-32 | the static test is symmetric |
| Collision.SameCentreCollides | ServerUDP/collision.cpp:22-32 | two objects at the same centre always collide |
| Collision.IsWithinDistanceCheckDynamic | ServerUDP/collision.cpp:33-71 | a static overlap is a hit. Otherwise zero relative velocity, or separating motion, is no hit. Any other hit has a closest approach within reach at a time in [0, dt] |
| Collision.ApproachingCase | ServerUDP/collision.cpp:53-63 | when approaching, the result is a hit iff the closest-approach distance² is within reach and 0 ≤ t1 ≤ dt |
| Collision.ApproachTimePositive | ServerUDP/collision.cpp:46-53 | when approaching, vDotV > 0 and t1 > 0 |
| Collision.SwapNegates | ServerUDP/collision.cpp:40-48 | swapping a and b negates relPos and relVel and keeps aDotV and vDotV |
| Collision.ClosestSwap | ServerUDP/collision.cpp:53-54 | swapping a and b keeps t1 and negates the closest point |
| Collision.ReflectedDistance | ServerUDP/collision.cpp:60 | the distance of the closest point to the origin is unchanged by negation |
| Collision.DynamicSymmetric | ServerUDP/collision.cpp:33-71 | the swept test is symmetric in its two objects |
| Pools.FirstFreeBullet | ServerUDP/main_server.cpp:669-676 | the index found is the first inactive bullet, or the list length when all are active |
| Pools.FirstReusable | ServerUDP/main_server.cpp:753-760 | the index found is the first entry that is inactive and not a "player", or the list length |
| Pools.Placed | ServerUDP/main_server.cpp:669-679 | writing at the found index overwrites that entry, or appends one, and leaves every other entry alone |
| Pools.FindFreeBullet | ClientUDP/main_client.cpp:117-124 | the search loop returns the first inactive bullet |
| Pools.FindReusable | ClientUDP/main_client.cpp:341-348 | the search loop returns the first reusable list entry |
| Pools.NewBullet | ServerUDP/main_server.cpp:664-667 | a shot is an active "bullet" of scale 10×10 at the shooter's pos and angle, with lifetime 1 and the shooter as owner |
| Pools.ShotPool | ServerUDP/main_server.cpp:662-680 | the bullet list grows by one iff every bullet was active; the new bullet sits at the first free slot; the others are unchanged |
| Pools.SpawnPool | ServerUDP/main_server.cpp:752-762 | the list grows by one iff no entry was reusable; the asteroid sits at the first reusable slot; the others are unchanged |
| Pools.SpawnSparesPlayers | ServerUDP/main_server.cpp:755 | a spawn never overwrites a "player" entry |
| Scoring.AddScore | ServerUDP/main_server.cpp:780 | only the given player's score changes, by delta |
| Scoring.ScoreSumAdd | ServerUDP/main_server.cpp:802 | adding delta to one score adds delta to the sum of scores |
| Scoring.HitsIgnoresFlag | ServerUDP/main_server.cpp:778 | the hit test does not depend on the asteroid's isActive flag |
| Scoring.PlayerVsAsteroid | ServerUDP/main_server.cpp:778-783 | on a hit, the player loses 10, the asteroid is cleared and its index reported. Otherwise nothing changes |
| Scoring.PlayersVsAsteroid | ServerUDP/main_server.cpp:776-784 | testing one asteroid against the players touches only that asteroid, only clears it, and reports only its index |
| Scoring.PlayersVsAsteroidClears | ServerUDP/main_server.cpp:776-784 | a live asteroid ends cleared iff some tested player hits it |
| Scoring.PlayersVsAsteroidScore | ServerUDP/main_server.cpp:776-784 | each tested player that hits the asteroid loses exactly 10; other players are unchanged |
| Scoring.PlayersVsAsteroidSum | ServerUDP/main_server.cpp:776-784 | the score sum drops by 10 per reported destruction |
| Scoring.PlayerHitsPrefix | ServerUDP/main_server.cpp:770-775 | the hit count over a prefix grows by one exactly at each live asteroid the ship hits |
| Scoring.AsteroidPassSweep | ServerUDP/main_server.cpp:770-785 | the asteroid pass touches only the first n asteroids, only clears live ones, and reports each index it clears |
| Scoring.AsteroidPassClears | ServerUDP/main_server.cpp:770-785 | after the pass, a live asteroid is cleared iff some tested player hits it |
| Scoring.AsteroidPassScore | ServerUDP/main_server.cpp:770-785 | each tested player loses 10 per live asteroid it hits; untested players are unchanged |
| Scoring.AsteroidPassSum | ServerUDP/main_server.cpp:770-785 | over the whole pass the score sum drops by 10 per reported destruction |
| Scoring.FirstHit | ServerUDP/main_server.cpp:793-806 | the bullet's target is the first live asteroid it hits, or none |
| Scoring.FindFirstHit | ClientUDP/main_client.cpp:376-387 | the inner loop stops at the first live asteroid the bullet hits |
| Scoring.BulletVsAsteroidsEffect | ServerUDP/main_server.cpp:799-805 | on a hit, the bullet and that one asteroid are cleared, the credited player gains 50 and one index is reported. Otherwise nothing changes |
| Scoring.BulletVsAsteroidsSum | ServerUDP/main_server.cpp:799-805 | the score sum rises by 50 per reported destruction |
| Scoring.BulletPass | ServerUDP/main_server.cpp:788-807 | the bullet pass keeps every pool size and every bullet owner |
| Scoring.BulletPassReports | ServerUDP/main_server.cpp:788-807 | each bullet destroys at most one asteroid; only live asteroids are cleared, and every clear is reported |
| Scoring.BulletPassDistinct | ServerUDP/main_server.cpp:788-807 | no asteroid is reported destroyed twice in one bullet pass |
| Scoring.BulletPassScoreSum | ServerUDP/main_server.cpp:788-807 | over the bullet pass the score sum rises by 50 per destruction |
| Scoring.CollisionPass | ServerUDP/main_server.cpp:766-808 | the whole collision check keeps every pool size |
| Spawning.NewAsteroid | ServerUDP/main_server.cpp:705-750 | a spawned asteroid is a live black "asteroid" of scale (r, r) with the drawn rotation |
| Spawning.SpawnEntersFromOutside | ServerUDP/main_server.cpp:708-749 | with draws in range, the asteroid starts outside the screen on its side and heads inward |
| HighscoreTable.DigitChar | ServerUDP/highscore.cpp:70 | a digit is written as its decimal character |
| HighscoreTable.Digits | ServerUDP/highscore.cpp:70 | a natural number is written as non-empty decimal digits without a leading zero |
| HighscoreTable.IntText | ServerUDP/highscore.cpp:70 | a written score never contains the separator |
| HighscoreTable.ValueDigits | ServerUDP/highscore.cpp:55 | reading the written digits of n gives n |
| HighscoreTable.LeadingSpaces | ServerUDP/highscore.cpp:51-55 | the white space skipped is the longest run of isspace characters at the start |
| HighscoreTable.Stoi | ServerUDP/highscore.cpp:51 | after skipping white space and reading an optional sign and the leading digits, a parsed score lies in the int32 range |
| HighscoreTable.Stoull | ServerUDP/highscore.cpp:55 | after skipping white space and reading an optional sign and the leading digits, a parsed date fits the signed 64-bit field, a minus sign negating modulo 2^64 |
| HighscoreTable.StoiIntText | ServerUDP/highscore.cpp:51 | stoi reads back every written int32 score |
| HighscoreTable.StoullDigits | ServerUDP/highscore.cpp:55 | stoull reads back every written non-negative date |
| HighscoreTable.StoullNegative | ServerUDP/highscore.cpp:55 | stoull reads back a negative date written with its minus sign |
| HighscoreTable.SpaceSkipped | ServerUDP/highscore.cpp:51-55 | a leading white-space character changes neither stoi's nor stoull's result |
| HighscoreTable.Find | ServerUDP/highscore.cpp:45 | find returns the first occurrence of the character at or after from, or npos (the length) |
| HighscoreTable.Substr | ServerUDP/highscore.cpp:46-54 | substr takes a start and a count, clamped to the end of the string |
| HighscoreTable.ParseLine | ServerUDP/highscore.cpp:44-55 | the corrected parse yields a name without '\|' and an int32 score |
| HighscoreTable.ParseFormat | ServerUDP/highscore.cpp:44-55 | the corrected parse reads back every line written by the format |
| HighscoreTable.AsWrittenTruncatesDate | ServerUDP/highscore.cpp:49-55 | the parse as written reads a formatted row back with its name and score but only the first \|name\| digits of the date, and fails on an empty name, whose date is left empty |
| HighscoreTable.AsWrittenLosesDigits | ServerUDP/highscore.cpp:49 | ("player 1", 50, 1743465600) is read back as written with date 17434656, while the corrected parse recovers it |
| HighscoreTable.AsWrittenRejectsBlank | ServerUDP/highscore.cpp:49-55 | the line written for the initial blank entry fails the parse as written, and the corrected parse accepts it |
| HighscoreTable.PlayerName | ServerUDP/main_server.cpp:292-293 | the corrected name is "player " followed by the decimal slot number, without '\|' |
| HighscoreTable.PlayerNameAsWrittenDiffers | ServerUDP/main_server.cpp:293 | as written, the name gets the control character i+1 rather than the digit |
| HighscoreTable.PlayerNamesDistinct | ServerUDP/main_server.cpp:290-295 | different slots get different names |
| HighscoreTable.RowsSound | ServerUDP/highscore.cpp:39-56 | a successful read fills the n entries from the first n lines, each by the line parse |
| HighscoreTable.RowsComplete | ServerUDP/highscore.cpp:39-56 | when the first n lines all parse, the read succeeds with those entries |
| HighscoreTable.RowsStayFailed | ServerUDP/highscore.cpp:39-56 | once a line fails, reading more lines still fails |
| HighscoreTable.RowsFail | ServerUDP/highscore.cpp:51-55 | one line that does not parse makes the read fail |
| HighscoreTable.WriteThenRead | ServerUDP/highscore.cpp:60-74 | with the corrected parse, a table of storable entries written to lines is read back unchanged |
| HighscoreTable.AsWrittenBlankRowThrows | ServerUDP/highscore.cpp:39-56 | a file written from a table that still holds a blank entry fails to read with the parse as written, while the corrected parse reads it back unchanged |
| HighscoreTable.SortDescending | ServerUDP/highscore.cpp:100-103 | sorting leaves the table ordered by descending score and a permutation of what it was |
| HighscoreTable.Table.constructor | ServerUDP/highscore.cpp:25 | the table starts as five blank entries |
| HighscoreTable.Table.AddHighscore | ServerUDP/highscore.cpp:76-104 | a score not above the last entry, or a failed clock, changes nothing. Otherwise the table is the old first four plus the new (name, score, now), sorted descending |
| HighscoreTable.Table.WriteToHighscoreFile | ServerUDP/highscore.cpp:68-71 | one line `name\|score\|date` is written per entry, in table order |
| HighscoreTable.Table.ReadFromHighscoreFile | ServerUDP/highscore.cpp:29-59 | a missing file leaves the table alone; a file whose five lines parse loads them; otherwise the read throws |
| HighscoreTable.Table.LoadRow | ServerUDP/highscore.cpp:39-56 | one step of the read loop parses line i into entry i |
| HighscoreTable.InsertionRanking | ServerUDP/highscore.cpp:96-103 | after an insert the new entry is in the table and every entry scores at least the evicted one |
| HighscoreTable.AddStepContents | ServerUDP/highscore.cpp:76-104 | one AddHighscore step leaves only entries that were in the table or the new one |
| HighscoreTable.AddStepSorted | ServerUDP/highscore.cpp:76-104 | on a sorted table one step keeps it sorted, never lowers the last score, keeps every entry above the new last score, and holds the new entry when it beats that score |
| HighscoreTable.RecordedExtend | ServerUDP/main_server.cpp:290-294 | one more player's AddHighscore step extends the chain of offers |
| HighscoreTable.RecordedPrefix | ServerUDP/main_server.cpp:290-294 | the chain of offers without its last step is still a chain |
| HighscoreTable.RecordedContents | ServerUDP/main_server.cpp:287-295 | after the offers the table holds only entries of the starting table and the players' new entries |
| HighscoreTable.RecordedNoClock | ServerUDP/main_server.cpp:287-295 | when the clock cannot be read, every offer is dropped and the table after the offers is the starting table |
| HighscoreTable.RecordedSorted | ServerUDP/main_server.cpp:287-295 | from a sorted table the offers leave a sorted table whose last score has not dropped; with a clock, every player whose score beats that last score is in it under the name "player <n>" |
| ServerSide.Notices | ServerUDP/main_server.cpp:829-844 | one ASTEROID_DESTROY is broadcast per reported index, in order |
| ServerSide.AdmitSlot | ServerUDP/main_server.cpp:370-375 | a known address keeps its stored slot; a new one gets the client count, which no address holds yet |
| ServerSide.RepeatConnectAsWritten | ServerUDP/main_server.cpp:372-385 | for a repeat connect, the reply as written differs from the slot the map keeps |
| ServerSide.RepeatConnectExample | ServerUDP/main_server.cpp:366-387 | with one client at slot 0, its second REQ_CONNECT is answered with 1 as written, and with 0 when corrected |
| ServerSide.AdmitKeepsSlots | ServerUDP/main_server.cpp:372-379 | admission keeps the slots of the roster distinct and below the client count |
| ServerSide.AdmitNewKeepsSlots | ServerUDP/main_server.cpp:374-378 | admitting a new address at the client count keeps the slots valid |
| ServerSide.Accept | ServerUDP/main_server.cpp:457-494 | a STATE_UPDATE not newer than the stored time changes nothing. A newer one stores its time and sets the ship's scale, rot and vel to the record's, and its pos to the record's pos dead-reckoned by vel·(now − ts); score, texid, col and isActive never change |
| ServerSide.AcceptStale | ServerUDP/main_server.cpp:461-468 | an update not newer than the stored time changes nothing |
| ServerSide.AcceptIdempotent | ServerUDP/main_server.cpp:461-468 | a duplicate datagram changes nothing |
| ServerSide.AcceptReordered | ServerUDP/main_server.cpp:461-468 | an older update arriving after a newer one is dropped |
| ServerSide.AcceptReconstructs | ServerUDP/main_server.cpp:471-494 | with conversions exact on the sender's values, an accepted update built from the sender's ship leaves the slot with that ship's pos, scale, rot and vel, dead-reckoned to the server clock |
| ServerSide.Fmod | ServerUDP/main_server.cpp:596 | fmod with a positive divisor keeps the dividend's sign and stays below the divisor |
| ServerSide.FmodBounds | ServerUDP/main_server.cpp:596 | the truncated remainder lies in [0, y) for x ≥ 0 and in (−y, 0] for x < 0 |
| ServerSide.SyncDueAtPeriods | ServerUDP/main_server.cpp:596 | TIME_SYNC is due at every whole multiple of 5 seconds |
| ServerSide.NoSyncBetweenPeriods | ServerUDP/main_server.cpp:596 | TIME_SYNC is not due halfway between two periods |
| ServerSide.Rows | ServerUDP/main_server.cpp:297-305 | each table entry goes out as its score word and 64-bit date |
| ServerSide.Scores | ServerUDP/main_server.cpp:308-312 | each player's score goes out as a word, in slot order |
| ServerSide.GameEndScores | ServerUDP/main_server.cpp:284-312 | every player's int32 score survives GAME_END's encode and decode |
| ServerSide.Server.constructor | ServerUDP/main_server.cpp:105-113 | no clients, empty pools, four initial players, both loops running, match not started, timer at 60 |
| ServerSide.Server.SenderSlot | ServerUDP/main_server.cpp:406-418 | the sender's slot is the one stored for its address, or 0 for an unknown address |
| ServerSide.Server.ReceiveConnect | ServerUDP/main_server.cpp:366-400 | when full, nothing changes and nothing is sent. Otherwise the address is admitted, answered with [8, slot], and the match starts with appTime 0 once the roster is full |
| ServerSide.Server.Admit | ServerUDP/main_server.cpp:370-379 | the roster gains the address at AdmitSlot; nothing else changes |
| ServerSide.Server.StartIfFull | ServerUDP/main_server.cpp:389-393 | when the roster is full, game_start is set and appTime reset to 0; nothing else changes |
| ServerSide.Server.Shoot | ServerUDP/main_server.cpp:662-680 | a bullet from the shooter's colour, at its pos and angle, is placed at the first free slot of the bullet list |
| ServerSide.Server.ReceiveFire | ServerUDP/main_server.cpp:404-438 | RSP_FIRE [4, appTime, slot] goes to all clients, carrying the server clock, and the slot's ship fires |
| ServerSide.Server.ReceiveStateUpdate | ServerUDP/main_server.cpp:442-495 | only the sender's slot changes, and only as Accept states |
| ServerSide.Server.Receive | ServerUDP/main_server.cpp:366-495 | commands other than REQ_CONNECT, REQ_FIRE and STATE_UPDATE, and datagrams after the end, change nothing; a STATE_UPDATE is applied to the sender's slot |
| ServerSide.Server.SendTick | ServerUDP/main_server.cpp:508-653 | before the start nothing is sent. The first tick broadcasts GAME_START. Later ticks broadcast ALL_UPDATE [2, appTime, four records], plus TIME_SYNC when due |
| ServerSide.Server.SpawnAsteroid | ServerUDP/main_server.cpp:693-763 | the new asteroid is placed at the first reusable slot of the list; the bullets are unchanged |
| ServerSide.Server.SpawnAsteroids | ServerUDP/main_server.cpp:810-827 | ASTEROID_SPAWN [5, appTime] is broadcast and an asteroid is spawned |
| ServerSide.Server.SimpleDynamicCollisionCheck | ServerUDP/main_server.cpp:766-808 | the new scores and pools are those of the collision pass over all four players, crediting each bullet's owner, and one ASTEROID_DESTROY is sent per destruction |
| ServerSide.Server.PlayersPass | ServerUDP/main_server.cpp:770-785 | the first loop computes the asteroid pass over all four players |
| ServerSide.Server.HitPlayers | ServerUDP/main_server.cpp:776-784 | the inner loop tests one asteroid against all four players |
| ServerSide.Server.HitPlayer | ServerUDP/main_server.cpp:778-783 | one player–asteroid test: −10 and the asteroid cleared on a hit |
| ServerSide.Server.BulletsPass | ServerUDP/main_server.cpp:788-807 | the second loop computes the bullet pass, crediting each bullet's owner |
| ServerSide.Server.HitByBullet | ServerUDP/main_server.cpp:793-806 | one bullet destroys the first live asteroid it hits and credits its owner 50 |
| ServerSide.Server.UpdateAll | ServerUDP/main_server.cpp:261-271 | players, asteroids and bullets are each moved by their update |
| ServerSide.Server.MovePlayers | ServerUDP/main_server.cpp:262-265 | every player's ship is moved by GameObject::Update |
| ServerSide.Server.Standings | ServerUDP/main_server.cpp:290-294 | the scores offered are the expected players' scores, in slot order |
| ServerSide.Server.RecordScores | ServerUDP/main_server.cpp:287-295 | the recording fails exactly when the highscore file exists and a line does not parse. Otherwise the table left is reached from the table read (or the one in memory when there is no file) by one AddHighscore step per expected player, in slot order |
| ServerSide.Server.OfferAll | ServerUDP/main_server.cpp:290-295 | offers each expected player's score to the table in slot order: the table left is reached from the table it started from by one AddHighscore step per player (Recorded) |
| ServerSide.Server.EndMatch | ServerUDP/main_server.cpp:278-320 | both loops stop. Unless the read throws, the table is the one the per-player AddHighscore steps reach, GAME_END with that table and the four scores is broadcast, and the table is written as five lines |
| ServerSide.Server.Conclude | ServerUDP/main_server.cpp:284-319 | changes only the table and keeps admission, objects, clocks and flags. It ends as EndMatch says (Concluded): nothing is sent exactly when the read throws; otherwise the offers run from the table read, GAME_END carries the new table and the scores, and the saved lines are that table |
| ServerSide.Server.Frame | ServerUDP/main_server.cpp:239-320 | before the start nothing changes. Otherwise the clocks advance by dt, and when the timer reaches 0 both loops stop and the frame ends as EndMatch says (Concluded): the datagrams after the frame's spawn and destroy notices are EndMatch's GAME_END, and the saved lines are its table |
| ServerSide.Server.Advance | ServerUDP/main_server.cpp:246-259 | the clocks advance; when the countdown runs out an asteroid spawns, ASTEROID_SPAWN is sent, and the countdown restarts at 2 |
| ServerSide.Server.Tick | ServerUDP/main_server.cpp:246-256 | appTime rises and timer falls by dt; a spawn is due iff the countdown reaches 0 |
| ServerSide.Server.Simulate | ServerUDP/main_server.cpp:261-275 | everything is moved, then the collision pass runs on the moved state |
| ClientSide.CreateUpdate | ClientUDP/Network.cpp:345-377 | STATE_UPDATE is 33 bytes starting with id 1 |
| ClientSide.UpdateFieldAt | ClientUDP/Network.cpp:345-377 | word k at byte 1 + 4k is appTime, pos.x, pos.y, scale.x, scale.y, rot, vel.x, vel.y in turn |
| ClientSide.UpdateRoundTrip | ServerUDP/main_server.cpp:457-483 | with conversions exact on the clock and the ship's values, the server's reading of CreateUpdate recovers the time and the ship's pos, scale, rot and vel |
| ClientSide.CreateReqFire | ClientUDP/Network.cpp:379-387 | REQ_FIRE is exactly [3] followed by the time's 4 bytes |
| ClientSide.CreateReqConnect | ClientUDP/Network.cpp:389-394 | REQ_CONNECT is the single byte 7 |
| ClientSide.ConnectReply | ClientUDP/Network.cpp:137-149 | a reply is accepted only when it starts with 8 and its int slot is in 0..3 |
| ClientSide.ConnectReplyOf | ClientUDP/Network.cpp:143-148 | an RSP_CONNECT is accepted iff its slot, as an int, is in 0..3, and then yields that slot |
| ClientSide.ServerSlotTaken | ServerUDP/main_server.cpp:381-385 | every slot the server assigns is accepted by the client as that slot |
| ClientSide.AllState | ClientUDP/Network.cpp:397-444 | the local ship is unchanged; every other ship takes the record's rot and vel and the record's pos dead-reckoned by vel·(now − ts), keeping its scale, score, timestamp, texid, col and isActive |
| ClientSide.AllStateSparesLocal | ClientUDP/Network.cpp:413-441 | the local ship is never overwritten; no ship's score, timestamp, scale or flags change |
| ClientSide.AllStateIdempotent | ClientUDP/Network.cpp:397-444 | applying the same ALL_UPDATE twice is the same as once |
| ClientSide.AllStateReconstructs | ClientUDP/Network.cpp:410-442 | a remote ship whose record the server built from its ship (as Snapshot does for slot i) takes, with conversions exact on that ship's values, the server's rot and vel and the server's pos dead-reckoned to the client clock |
| ClientSide.Resynced | ClientUDP/Network.cpp:464-493 | TIME_SYNC keeps the number of players |
| ClientSide.ResyncedForgetsAllState | ClientUDP/Network.cpp:464-493 | TIME_SYNC overwrites every ship, the local one included, so earlier ALL_UPDATEs leave no trace |
| ClientSide.SyncedBulletsKeep | ClientUDP/main_client.cpp:595-600 | syncing bullets keeps their count, lifetimes, owners and flags |
| ClientSide.SyncBullets | ClientUDP/main_client.cpp:595-600 | the loop moves each active bullet by GameObject::Update and skips inactive ones |
| ClientSide.SyncObjects | ClientUDP/main_client.cpp:602-607 | the loop moves each active asteroid and skips inactive ones |
| ClientSide.RelayedBulletPlacement | ClientUDP/main_client.cpp:579-587 | a relayed shot starts at the shooter's pos and rot; it is dead-reckoned only when the shooter is not the local player |
| ClientSide.Destroyed | ClientUDP/Network.cpp:532-539 | ASTEROID_DESTROY keeps the list length |
| ClientSide.DestroyNotice | ClientUDP/Network.cpp:532-539 | the server's notice for index i clears entry i only when it exists; every other entry is unchanged |
| ClientSide.DestroyGuard | ClientUDP/Network.cpp:535-537 | a negative index is ignored, and a repeated notice changes nothing more |
| ClientSide.WithScores | ClientUDP/Network.cpp:512-515 | GAME_END keeps the number of players |
| ClientSide.ScoresArrive | ClientUDP/Network.cpp:511-515 | every player's int32 score arrives unchanged and nothing else of the player changes |
| ClientSide.CaughtUpAsteroid | ClientUDP/main_client.cpp:610-618 | a spawned asteroid caught up to the client clock is still live, with the same size and velocity |
| ClientSide.LocalCredit | ClientUDP/main_client.cpp:370-388 | the client's bullet pass credits the local player, and no other player, with 50 per destruction, whoever owns the bullet |
| ClientSide.ClientCollisionScores | ClientUDP/main_client.cpp:354-389 | only the local ship is scored. It loses 10 per live asteroid it hits and gains 50 per bullet destruction; other scores are unchanged |
| ClientSide.Client.constructor | ClientUDP/main_client.cpp:431-449 | four initial ships in their colours, empty pools, zero clocks, a blank table; connected and running |
| ClientSide.Client.Shoot | ClientUDP/main_client.cpp:110-128 | the shot is placed at the first free slot, which is returned, and nothing else changes |
| ClientSide.Client.InterpolatedShoot | ClientUDP/main_client.cpp:579-587 | the relayed bullet is placed at the first free slot; nothing else changes |
| ClientSide.Client.ProcessRspFire | ClientUDP/Network.cpp:447-453 | RSP_FIRE fires from the named ship at the server time; an id outside 0..3 is ignored |
| ClientSide.Client.SpawnAsteroid | ClientUDP/main_client.cpp:281-351 | the asteroid is placed at the first reusable slot, which is returned; nothing else changes |
| ClientSide.Client.ProcessAsteroidSpawn | ClientUDP/Network.cpp:523-528 | the spawned asteroid is placed and caught up from the server time to the client clock |
| ClientSide.Client.ProcessAsteroidDestroy | ClientUDP/Network.cpp:532-539 | only the named asteroid is cleared, and only when its index is in range |
| ClientSide.Client.ProcessAllState | ClientUDP/Network.cpp:397-444 | an older snapshot changes nothing. An equal or newer one is applied by AllState and becomes the latest server update |
| ClientSide.Client.TakeShips | ClientUDP/Network.cpp:413-443 | the loop applies the snapshot to every ship but the local one |
| ClientSide.Client.ProcessTimeSync | ClientUDP/Network.cpp:456-497 | every ship is overwritten, active bullets and asteroids are moved by the time offset, and both clocks take the server time |
| ClientSide.Client.OverwriteShips | ClientUDP/Network.cpp:464-493 | the loop overwrites every ship's pos, rot and vel |
| ClientSide.Client.InterpolateGOsync | ClientUDP/main_client.cpp:590-608 | active bullets and asteroids move by (timestamp − appTime); nothing else changes |
| ClientSide.Client.ProcessGameEnd | ClientUDP/Network.cpp:501-519 | the table and the four scores are stored, and connected and gameRunning are cleared |
| ClientSide.Client.TakeScores | ClientUDP/Network.cpp:512-515 | the loop stores each player's score |
| ClientSide.Client.Receive | ClientUDP/Network.cpp:219-275 | once disconnected (after GAME_END) nothing is handled; ids other than 2, 4, 5, 6, 10 and 11 change nothing; ASTEROID_DESTROY, stale ALL_UPDATE and GAME_END act as their handlers state |
| ClientSide.Client.Frame | ClientUDP/main_client.cpp:465-481 | appTime advances by dt, and ships, asteroids and bullets are each moved by their update |
| ClientSide.Client.MoveShips | ClientUDP/main_client.cpp:473-475 | every ship is moved by GameObject::Update |
| ClientSide.Client.SimpleDynamicCollisionCheck | ClientUDP/main_client.cpp:354-389 | the new state is the collision pass testing only the local ship and crediting every bullet hit to it |
| ClientSide.Client.ShipPass | ClientUDP/main_client.cpp:358-368 | the first loop tests every asteroid against the local ship |
| ClientSide.Client.HitShip | ClientUDP/main_client.cpp:363-367 | one asteroid against the local ship: −10 and the asteroid cleared on a hit |
| ClientSide.Client.BulletsPass | ClientUDP/main_client.cpp:371-388 | the second loop computes the bullet pass, crediting the local player |
| ClientSide.Client.HitByBullet | ClientUDP/main_client.cpp:376-387 | one bullet destroys the first live asteroid it hits and credits the local player 50 |

## Left out

- Sockets, Winsock set-up, `sendto`/`recvfrom`, the sender-address filter and the server/port files: the model covers only the bytes sent and received. A datagram's destination is "all clients" or one address.
- Fan-out order. Datagrams broadcast to all clients are modelled as one value with a destination set, not as one `sendto` per client in map order.
- Threads, mutexes, detach/join, sleeps and the 50 ms cadence. The receive thread, send thread and main loop are separate methods of one object, with no interleaving.
- The TIME_SYNC trigger `fmod(appTime, 5) < 0.005`. It is modelled over `real` as `SyncDue` with C's truncating fmod. Float rounding of appTime is not modelled.
- IEEE 754 floats, `htonf`/`ntohf` and rounding. Kinematics and collision are over `real`, and the conversions are parameters.
- The random spawn draws (std::mt19937, uniform distributions). They are a `SpawnDraws` parameter, and only the asteroid built from them and its slot reuse are modelled.
- `cosf`/`sinf`/`AEDegToRad` in Shoot. The shot's direction is a parameter `heading: real -> Vec2`.
- `std::chrono`, `to_time_t` and `localtime_s` in AddHighscore. They are the parameters `now` and `clockOk`. One `now` serves every player added at the end of a match.
- File I/O for highscore.txt. The file is a list of lines, or absent.
  - A line that `stoi`/`stoull` cannot read is a failed read ("throws"). The process then ends, so the model sends and saves nothing.
  - The entries already overwritten before the throw are not stated.
  - Integers too large for `stoi`/`stoull` are treated as failures rather than as the out_of_range exception.
  - The readers skip white space and take a sign as strtol/strtoull do; the `0x`/octal prefixes do not apply, since both calls use base 10.
- Stale-buffer reads. The source reads fixed offsets whatever the received length. The model's decoders refuse a buffer shorter than its layout, and a refused or empty datagram changes nothing.
- 32-bit wrap-around of scores. Scores are unbounded `int` in the model, and the wire conversion `WordOfInt` is exact modulo 2^32.
- Rendering, input (`UpdateInput`), the highscore display loop, meshes and textures, and every AlphaEngine/demo file.
- The client's own SimpleDynamicCollisionCheck is modelled, although its main loop never calls it.
- The client Player's `timestamp` field, which the client never reads.
- The client's colour constants RED/GREEN/BLUE/PURPLE are defined outside the files modelled here. They are a constructor parameter.
- The client's `RandomizeAsteroidSpawn` (ClientUDP/main_client.cpp:204), which the server's loop has commented out. It is an unused spawner with its own generator.
- `TOTAL_PLAYERS` is 1 in the source. The server takes the expected number of players (1..4) as a constructor parameter, so that admission with several clients is modelled.
- The server's ASTEROID_DESTROY notices are computed from the whole collision pass and sent afterwards, in order, rather than interleaved with the pass.
- Loops that update one part of the state are separate helper methods (PlayersPass, TakeShips, SyncBullets, …). Each is proved against the specification function of the loop it models.
- ClientSide.Client.ProcessRspFire: an id outside 0..3 is ignored. The source indexes the players array out of bounds there.
- ServerSide.Server.Frame: states the clocks, the flags, the end-of-match outcome (through Concluded, as EndMatch does) and the no-op before the start. The moved and collided state and the spawn and destroy datagrams that precede GAME_END are stated by Advance and Simulate, which it calls.
- HighscoreTable.Table.ReadFromHighscoreFile: reads each line with the corrected parse (ParseLine, Findings row 1). As written (highscore.cpp:49) the date is cut to |name| characters and a blank line `|0|0` makes stoull throw, so every file left by a match with fewer than five players ends the next match's server (AsWrittenBlankRowThrows); the model loads such a file.
- HighscoreTable.Table.LoadRow: one step of that read, with the corrected parse for the same reason.
- HighscoreTable.WriteThenRead: holds for the corrected parse only; with the parse as written, AsWrittenTruncatesDate and AsWrittenBlankRowThrows state what is read instead.
- ServerSide.Server.RecordScores: inserts the corrected name PlayerName(i) (Findings row 2) where the source inserts "player " followed by the character i+1 (PlayerNameAsWritten), and its throw condition is that of the corrected parse.
- ServerSide.Server.OfferAll: offers each score under the corrected name PlayerName(i) (Findings row 2), where the source uses "player " followed by the character i+1 (PlayerNameAsWritten).
- ServerSide.Server.EndMatch: the throw condition and the table broadcast and saved are those of the corrected parse and names, as for RecordScores.
- ServerSide.Server.Conclude: the same as EndMatch, whose table part it is.
- ServerSide.Server.ReceiveConnect: replies with the slot the server keeps (AdmitSlot, Findings row 3). On a repeat connect the source replies clients.size() instead (RepeatConnectAsWritten); the build's TOTAL_PLAYERS of 1 never reaches that case, since the roster is full after the first connect.
- ServerSide.Server.Receive: states the ignored cases and the STATE_UPDATE case. For REQ_CONNECT and REQ_FIRE, see ReceiveConnect and ReceiveFire.
- ClientSide.Client.Receive: states the ignored cases, ASTEROID_DESTROY, a stale ALL_UPDATE and GAME_END. The other commands are stated by their handlers.
- ClientSide.Resynced, ClientSide.WithScores, ClientSide.Destroyed: their own ensures state only the length. Their meaning is stated by the lemmas beside them.
- Scoring.BulletPass, Scoring.CollisionPass: their own ensures state only sizes and owners. Their effects are stated by BulletPassReports, BulletPassScoreSum, ClientCollisionScores and the asteroid-pass lemmas.

## Findings

| source | as written | input that shows it | evidently intended | confidence | as-written member | corrected member |
|---|---|---|---|---|---|---|
| ServerUDP/highscore.cpp:49 | `substr(size + 1, line.find('\|', size + 1))` passes the position of the second '\|' (\|name\| + 1 + \|score\|) as a count, so the remainder keeps the score, the second '\|' and only the first \|name\| characters of the date | line `player 1\|50\|1743465600` reads back with date 17434656; the blank entry's line `\|0\|0` fails to parse | take the rest of the line after the first '\|' | not executed | HighscoreTable.AsWrittenLosesDigits | HighscoreTable.ParseFormat |
| ServerUDP/main_server.cpp:293 | `name += (i+1)` appends the character with code i+1, not a digit | slot 0 gets the name "player " followed by the control character 0x01 | "player 1", "player 2", … | not executed | HighscoreTable.PlayerNameAsWrittenDiffers | HighscoreTable.PlayerNamesDistinct |
| ServerUDP/main_server.cpp:374-385 | the reply to REQ_CONNECT carries `clients.size()` even when the address is already registered and the map keeps its old slot | one client at slot 0 with TOTAL_PLAYERS ≥ 2 sends REQ_CONNECT again: the reply says slot 1, the server keeps slot 0 | answer a repeat connect with the slot the server keeps | not executed | ServerSide.RepeatConnectExample | ServerSide.AdmitSlot |
