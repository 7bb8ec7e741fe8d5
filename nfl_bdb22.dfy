/** Selection of the modelled frames of punt-return plays, the time-to-catch
    countdown and the returner's downfield speed at the catch. */
module Bdb22 {
  import opened Tables

  /** One row of the play table.  `returnerId` lists the ids written in the
      play's returnerId field, which separates several returners by ';';
      it is empty when the field is missing. */
  datatype PlayRow = PlayRow(specialTeamsPlayType: string, specialTeamsResult: string, returnerId: seq<int>)

  /** One row of the scouting table. */
  datatype PffRow = PffRow(kickContactType: string)

  /** One row of the game table. */
  datatype GameRow = GameRow(homeTeamAbbr: string, visitorTeamAbbr: string)

  type PlayTable = map<PlayKey, PlayRow>
  type PffTable = map<PlayKey, PffRow>
  type GameTable = map<int, GameRow>

  /** The ways the dataframe pipelines stop with an exception. */
  datatype PipelineError =
    | DuplicatePivotEntries(event: string)  // a play has the event at two different frames
    | MissingColumn(column: string)         // no row at all has the event, so its column never appears

  datatype Result<T> = Ok(value: T) | Err(error: PipelineError)

  // ---------- event frames ----------

  /** Some row of the table carries the event. */
  predicate HasEvent(t: seq<TrackRow>, ev: string) {
    exists i :: 0 <= i < |t| && t[i].event == ev
  }

  /** Some play has the event at two different frames, so the pivot from
      (play, event) to frame cannot be built. */
  predicate AmbiguousEvent(t: seq<TrackRow>, ev: string) {
    exists i, j :: 0 <= i < |t| && 0 <= j < |t| && t[i].event == ev && t[j].event == ev
      && PlayOf(t[i]) == PlayOf(t[j]) && t[i].frameId != t[j].frameId
  }

  /** The frame at which play `k` has the event, if it has it at all. */
  function EventFrame(t: seq<TrackRow>, k: PlayKey, ev: string): (f: Option<int>)
    ensures f.None? <==> forall i :: 0 <= i < |t| ==> !(t[i].event == ev && PlayOf(t[i]) == k)
    ensures f.Some? ==> exists i :: 0 <= i < |t| && t[i].event == ev && PlayOf(t[i]) == k && t[i].frameId == f.value
  {
    if t == [] then None
    else if t[0].event == ev && PlayOf(t[0]) == k then Some(t[0].frameId)
    else
      var f := EventFrame(t[1..], k, ev);
      assert f.Some? ==> exists i :: 0 <= i < |t| && t[i].event == ev && PlayOf(t[i]) == k && t[i].frameId == f.value by {
        if f.Some? {
          var i :| 0 <= i < |t[1..]| && t[1..][i].event == ev && PlayOf(t[1..][i]) == k && t[1..][i].frameId == f.value;
          assert t[i + 1] == t[1..][i];
        }
      }
      assert f.None? ==> forall i :: 0 <= i < |t| ==> !(t[i].event == ev && PlayOf(t[i]) == k) by {
        if f.None? {
          forall i | 0 <= i < |t| ensures !(t[i].event == ev && PlayOf(t[i]) == k) {
            if i > 0 { assert t[i] == t[1..][i - 1]; }
          }
        }
      }
      f
  }

  /** When the pivot can be built, every row carrying the event records the
      frame the pivot gives for its play. */
  lemma EventFrameOfRow(t: seq<TrackRow>, ev: string, i: int)
    requires !AmbiguousEvent(t, ev)
    requires 0 <= i < |t| && t[i].event == ev
    ensures EventFrame(t, PlayOf(t[i]), ev) == Some(t[i].frameId)
  {
  }

  // ---------- prep_get_modeling_frames ----------

  predicate IsPuntReturn(plays: PlayTable, k: PlayKey) {
    k in plays && plays[k].specialTeamsPlayType == "Punt" && plays[k].specialTeamsResult == "Return"
  }

  predicate IsCleanCatch(pff: PffTable, k: PlayKey) {
    k in pff && pff[k].kickContactType == "CC"
  }

  /** The row's frame lies between the punt and the catch of its play, both
      included; a play missing either event has no such frames. */
  predicate InPuntWindow(t: seq<TrackRow>, r: TrackRow) {
    var pf := EventFrame(t, PlayOf(r), "punt");
    var rf := EventFrame(t, PlayOf(r), "punt_received");
    pf.Some? && rf.Some? && pf.value <= r.frameId <= rf.value
  }

  predicate IsModelingFrame(track: seq<TrackRow>, plays: PlayTable, pff: PffTable, r: TrackRow) {
    IsPuntReturn(plays, PlayOf(r)) && IsCleanCatch(pff, PlayOf(r)) && InPuntWindow(track, r)
  }

  /** The rows of punt-return, clean-catch plays from the punt to the catch,
      in table order and with the tracking table's own columns. */
  function PrepGetModelingFrames(track: seq<TrackRow>, plays: PlayTable, pff: PffTable): (res: Result<seq<TrackRow>>)
    ensures res.Ok? ==> |res.value| <= |track|
  {
    if AmbiguousEvent(track, "punt") then Err(DuplicatePivotEntries("punt"))
    else if AmbiguousEvent(track, "punt_received") then Err(DuplicatePivotEntries("punt_received"))
    else if !HasEvent(track, "punt") then Err(MissingColumn("puntFrameId"))
    else if !HasEvent(track, "punt_received") then Err(MissingColumn("puntReceivedFrameId"))
    else Ok(Filter(track, r => IsModelingFrame(track, plays, pff, r)))
  }

  /** The pipeline fails exactly when the pivot is ambiguous or one of the
      two event columns never appears. */
  lemma PrepFailsExactly(track: seq<TrackRow>, plays: PlayTable, pff: PffTable)
    ensures PrepGetModelingFrames(track, plays, pff).Err? <==>
      AmbiguousEvent(track, "punt") || AmbiguousEvent(track, "punt_received")
      || !HasEvent(track, "punt") || !HasEvent(track, "punt_received")
  {
  }

  /** A row is kept exactly when it is a row of the tracking table that
      belongs to a punt play with a return, a clean catch, and lies in the
      punt-to-catch window. */
  lemma PrepKeepsExactly(track: seq<TrackRow>, plays: PlayTable, pff: PffTable, r: TrackRow)
    requires PrepGetModelingFrames(track, plays, pff).Ok?
    ensures r in PrepGetModelingFrames(track, plays, pff).value <==>
      r in track
      && PlayOf(r) in plays && plays[PlayOf(r)].specialTeamsPlayType == "Punt"
      && plays[PlayOf(r)].specialTeamsResult == "Return"
      && PlayOf(r) in pff && pff[PlayOf(r)].kickContactType == "CC"
      && InPuntWindow(track, r)
  {
  }

  /** Every kept row lies between a punt row and a catch row of its own play. */
  lemma PrepFrameWindow(track: seq<TrackRow>, plays: PlayTable, pff: PffTable, r: TrackRow)
    requires PrepGetModelingFrames(track, plays, pff).Ok?
    requires r in PrepGetModelingFrames(track, plays, pff).value
    ensures exists i, j :: (0 <= i < |track| && 0 <= j < |track|
      && track[i].event == "punt" && track[j].event == "punt_received"
      && PlayOf(track[i]) == PlayOf(r) && PlayOf(track[j]) == PlayOf(r)
      && track[i].frameId <= r.frameId <= track[j].frameId)
  {
    var pf := EventFrame(track, PlayOf(r), "punt");
    var rf := EventFrame(track, PlayOf(r), "punt_received");
    var i :| 0 <= i < |track| && track[i].event == "punt" && PlayOf(track[i]) == PlayOf(r) && track[i].frameId == pf.value;
    var j :| 0 <= j < |track| && track[j].event == "punt_received" && PlayOf(track[j]) == PlayOf(r) && track[j].frameId == rf.value;
  }

  /** A play with no punt row, or no catch row, contributes no rows. */
  lemma PrepDropsPlayMissingEvent(track: seq<TrackRow>, plays: PlayTable, pff: PffTable, k: PlayKey)
    requires PrepGetModelingFrames(track, plays, pff).Ok?
    requires (forall i :: 0 <= i < |track| ==> !(track[i].event == "punt" && PlayOf(track[i]) == k))
          || (forall i :: 0 <= i < |track| ==> !(track[i].event == "punt_received" && PlayOf(track[i]) == k))
    ensures forall r :: r in PrepGetModelingFrames(track, plays, pff).value ==> PlayOf(r) != k
  {
  }

  /** The rows kept keep their relative order in the tracking table. */
  lemma PrepKeepsOrder(track: seq<TrackRow>, plays: PlayTable, pff: PffTable, before: (TrackRow, TrackRow) -> bool)
    requires PrepGetModelingFrames(track, plays, pff).Ok?
    requires forall i, j :: 0 <= i < j < |track| ==> before(track[i], track[j])
    ensures var out := PrepGetModelingFrames(track, plays, pff).value;
      forall i, j :: 0 <= i < j < |out| ==> before(out[i], out[j])
  {
    FilterKeepsOrder(track, r => IsModelingFrame(track, plays, pff, r), before);
  }

  // ---------- feat_timeToCatch ----------

  /** A tracking row with the seconds left until the catch of its play;
      missing when the play has no catch frame. */
  datatype TimedRow = TimedRow(row: TrackRow, timeToCatch: Option<real>)

  /** Frames are taken ten per second: the countdown is missing exactly
      when there is no catch frame, zero exactly at it, and positive exactly
      before it. */
  function SecondsBetween(catchFrame: Option<int>, frameId: int): (t: Option<real>)
    ensures t.None? <==> catchFrame.None?
    ensures t.Some? ==> t.value * 10.0 == (catchFrame.value - frameId) as real
    ensures t.Some? ==> (t.value == 0.0 <==> frameId == catchFrame.value)
    ensures t.Some? ==> (t.value > 0.0 <==> frameId < catchFrame.value)
  {
    match catchFrame
    case None => None
    case Some(cf) => Some((cf - frameId) as real / 10.0)
  }

  /** Every row with the time until its play's catch, in table order. */
  function FeatTimeToCatch(track: seq<TrackRow>): (res: Result<seq<TimedRow>>)
    ensures res.Ok? ==> |res.value| == |track| && forall i :: 0 <= i < |track| ==> res.value[i].row == track[i]
  {
    if AmbiguousEvent(track, "punt_received") then Err(DuplicatePivotEntries("punt_received"))
    else if !HasEvent(track, "punt_received") then Err(MissingColumn("puntReceivedFrameId"))
    else Ok(seq(|track|, i requires 0 <= i < |track| =>
      TimedRow(track[i], SecondsBetween(EventFrame(track, PlayOf(track[i]), "punt_received"), track[i].frameId))))
  }

  lemma TimeToCatchFailsExactly(track: seq<TrackRow>)
    ensures FeatTimeToCatch(track).Err? <==>
      AmbiguousEvent(track, "punt_received") || !HasEvent(track, "punt_received")
  {
  }

  /** The countdown is zero exactly at the catch frame of the row's play,
      positive before it, negative after it, ten frames to the second, and
      missing only for plays without a catch row. */
  lemma TimeToCatchCountdown(track: seq<TrackRow>, i: int)
    requires FeatTimeToCatch(track).Ok?
    requires 0 <= i < |track|
    ensures var t := FeatTimeToCatch(track).value[i].timeToCatch;
      && (t.None? <==> forall j :: 0 <= j < |track| ==> !(track[j].event == "punt_received" && PlayOf(track[j]) == PlayOf(track[i])))
      && (t.Some? ==> exists j :: (0 <= j < |track| && track[j].event == "punt_received"
            && PlayOf(track[j]) == PlayOf(track[i])
            && t.value * 10.0 == (track[j].frameId - track[i].frameId) as real
            && (t.value == 0.0 <==> track[i].frameId == track[j].frameId)
            && (t.value > 0.0 <==> track[i].frameId < track[j].frameId)))
  {
    var cf := EventFrame(track, PlayOf(track[i]), "punt_received");
    if cf.Some? {
      var j :| 0 <= j < |track| && track[j].event == "punt_received" && PlayOf(track[j]) == PlayOf(track[i]) && track[j].frameId == cf.value;
    }
  }

  // ---------- feat_returnerSpeedAtCatch ----------

  /** The returnerId field holds no ';', i.e. lists at most one returner. */
  predicate SingleReturner(p: PlayRow) {
    |p.returnerId| <= 1
  }

  /** The play's returner as a join key: missing when the field is empty,
      and a missing key matches the football's missing nflId. */
  function ReturnerKey(p: PlayRow): Option<int> {
    if p.returnerId == [] then None else Some(p.returnerId[0])
  }

  /** The row tracks the single returner of its play. */
  predicate IsReturnerRow(plays: PlayTable, r: TrackRow) {
    PlayOf(r) in plays && SingleReturner(plays[PlayOf(r)]) && r.nflId == ReturnerKey(plays[PlayOf(r)])
  }

  /** The join matches missing keys to each other: a play whose returnerId
      field is empty treats the football's rows as its returner's rows. */
  lemma MissingReturnerMatchesFootball(plays: PlayTable, r: TrackRow)
    requires PlayOf(r) in plays && plays[PlayOf(r)].returnerId == [] && r.nflId.None?
    ensures IsReturnerRow(plays, r)
  {
  }

  /** A play listing several returners has no returner rows. */
  lemma SeveralReturnersExcluded(plays: PlayTable, r: TrackRow)
    requires PlayOf(r) in plays && |plays[PlayOf(r)].returnerId| > 1
    ensures !IsReturnerRow(plays, r)
  {
  }

  /** The tracking rows of single-returner plays' returners, in table order. */
  function ReturnerRows(track: seq<TrackRow>, plays: PlayTable): (ret: seq<TrackRow>)
    ensures forall r :: r in ret <==> r in track && IsReturnerRow(plays, r)
  {
    Filter(track, r => IsReturnerRow(plays, r))
  }

  /** The downfield component of the returner's speed at the catch. */
  datatype SpeedRow = SpeedRow(gameId: int, playId: int, sDwnfld: Option<real>)

  /** Speed along the field; `sinDeg` is the sine of an angle in degrees
      (0 to 180 degrees point backwards, hence the minus sign). */
  function DownfieldSpeed(r: TrackRow, sinDeg: real -> real): (v: Option<real>)
    ensures v.None? <==> r.dir.None?
    ensures v.Some? && r.s > 0.0 ==> (v.value < 0.0 <==> sinDeg(r.dir.value) > 0.0)
    ensures v.Some? && r.s > 0.0 ==> (v.value > 0.0 <==> sinDeg(r.dir.value) < 0.0)
    ensures v.Some? && r.s == 0.0 ==> v.value == 0.0
  {
    match r.dir
    case None => None
    case Some(d) => Some(r.s * -sinDeg(d))
  }

  predicate AtCatch(tr: TimedRow) {
    tr.timeToCatch == Some(0.0)
  }

  function SpeedRows(timed: seq<TimedRow>, sinDeg: real -> real): (out: seq<SpeedRow>)
    ensures |out| == |timed|
  {
    seq(|timed|, i requires 0 <= i < |timed| =>
      SpeedRow(timed[i].row.gameId, timed[i].row.playId, DownfieldSpeed(timed[i].row, sinDeg)))
  }

  /** For each single-returner play, the returner's downfield speed at the
      frame where the returner's own rows record the catch. */
  function FeatReturnerSpeedAtCatch(track: seq<TrackRow>, plays: PlayTable, sinDeg: real -> real): (res: Result<seq<SpeedRow>>)
    ensures res.Err? <==> AmbiguousEvent(ReturnerRows(track, plays), "punt_received")
                          || !HasEvent(ReturnerRows(track, plays), "punt_received")
    ensures res.Ok? ==> |res.value| <= |ReturnerRows(track, plays)|
  {
    match FeatTimeToCatch(ReturnerRows(track, plays))
    case Err(e) => Err(e)
    case Ok(timed) => Ok(SpeedRows(Filter(timed, AtCatch), sinDeg))
  }

  /** One row per player per frame. */
  predicate UniquePlayerFrames(t: seq<TrackRow>) {
    forall i, j :: 0 <= i < j < |t| ==> !(FrameOf(t[i]) == FrameOf(t[j]) && t[i].nflId == t[j].nflId)
  }

  /** The countdown of one row, as the merge with the pivoted catch frames
      gives it. */
  lemma TimeToCatchAt(track: seq<TrackRow>, i: int)
    requires FeatTimeToCatch(track).Ok?
    requires 0 <= i < |track|
    ensures FeatTimeToCatch(track).value[i].timeToCatch
      == SecondsBetween(EventFrame(track, PlayOf(track[i]), "punt_received"), track[i].frameId)
  {
  }

  /** The countdown is zero only at the catch frame itself. */
  lemma ZeroSecondsAtFrame(catchFrame: Option<int>, frameId: int)
    requires SecondsBetween(catchFrame, frameId) == Some(0.0)
    ensures catchFrame == Some(frameId)
  {
  }

  /** A row whose countdown is zero sits at the catch frame of its play. */
  lemma AtCatchFrame(track: seq<TrackRow>, i: int)
    requires FeatTimeToCatch(track).Ok?
    requires 0 <= i < |track| && AtCatch(FeatTimeToCatch(track).value[i])
    ensures EventFrame(track, PlayOf(track[i]), "punt_received") == Some(track[i].frameId)
  {
    TimeToCatchAt(track, i);
    ZeroSecondsAtFrame(EventFrame(track, PlayOf(track[i]), "punt_received"), track[i].frameId);
  }

  /** The speed rows, once the time-to-catch pipeline has succeeded. */
  lemma SpeedAtCatchShape(track: seq<TrackRow>, plays: PlayTable, sinDeg: real -> real)
    requires FeatReturnerSpeedAtCatch(track, plays, sinDeg).Ok?
    ensures FeatTimeToCatch(ReturnerRows(track, plays)).Ok?
    ensures FeatReturnerSpeedAtCatch(track, plays, sinDeg).value
      == SpeedRows(Filter(FeatTimeToCatch(ReturnerRows(track, plays)).value, AtCatch), sinDeg)
  {
  }

  /** Every speed row comes from a returner row of a single-returner play at
      the frame where that returner's rows record the catch. */
  lemma SpeedRowsAreReturnersAtCatch(track: seq<TrackRow>, plays: PlayTable, sinDeg: real -> real, o: SpeedRow)
    requires FeatReturnerSpeedAtCatch(track, plays, sinDeg).Ok?
    requires o in FeatReturnerSpeedAtCatch(track, plays, sinDeg).value
    ensures exists r :: (r in track && IsReturnerRow(plays, r) && SingleReturner(plays[PlayOf(r)])
      && r.gameId == o.gameId && r.playId == o.playId && o.sDwnfld == DownfieldSpeed(r, sinDeg)
      && EventFrame(ReturnerRows(track, plays), PlayOf(r), "punt_received") == Some(r.frameId))
  {
    SpeedAtCatchShape(track, plays, sinDeg);
    var ret := ReturnerRows(track, plays);
    var timed := FeatTimeToCatch(ret).value;
    var caught := Filter(timed, AtCatch);
    var out := SpeedRows(caught, sinDeg);
    var k :| 0 <= k < |out| && out[k] == o;
    assert caught[k] in timed && AtCatch(caught[k]);
    var i :| 0 <= i < |timed| && timed[i] == caught[k];
    AtCatchFrame(ret, i);
    var r := ret[i];
    assert r in ret;
  }

  /** The speed row of every caught row is among the speed rows. */
  lemma SpeedRowOfCaught(caught: seq<TimedRow>, sinDeg: real -> real, tr: TimedRow)
    requires tr in caught
    ensures SpeedRow(tr.row.gameId, tr.row.playId, DownfieldSpeed(tr.row, sinDeg)) in SpeedRows(caught, sinDeg)
  {
    var k :| 0 <= k < |caught| && caught[k] == tr;
    assert SpeedRows(caught, sinDeg)[k] == SpeedRow(tr.row.gameId, tr.row.playId, DownfieldSpeed(tr.row, sinDeg));
  }

  /** Conversely, every returner row at the frame where the returner's rows
      record the catch gives a speed row. */
  lemma ReturnerAtCatchFound(track: seq<TrackRow>, plays: PlayTable, sinDeg: real -> real, r: TrackRow)
    requires FeatReturnerSpeedAtCatch(track, plays, sinDeg).Ok?
    requires r in track && IsReturnerRow(plays, r)
    requires EventFrame(ReturnerRows(track, plays), PlayOf(r), "punt_received") == Some(r.frameId)
    ensures SpeedRow(r.gameId, r.playId, DownfieldSpeed(r, sinDeg)) in FeatReturnerSpeedAtCatch(track, plays, sinDeg).value
  {
    SpeedAtCatchShape(track, plays, sinDeg);
    var ret := ReturnerRows(track, plays);
    assert r in ret;
    var i :| 0 <= i < |ret| && ret[i] == r;
    var timed := FeatTimeToCatch(ret).value;
    TimeToCatchAt(ret, i);
    assert AtCatch(timed[i]);
    SpeedRowOfCaught(Filter(timed, AtCatch), sinDeg, timed[i]);
  }

  /** Selecting the returners' rows keeps one row per player per frame. */
  lemma ReturnerRowsUnique(track: seq<TrackRow>, plays: PlayTable)
    requires UniquePlayerFrames(track)
    ensures UniquePlayerFrames(ReturnerRows(track, plays))
  {
    var notSame := (a: TrackRow, b: TrackRow) => !(FrameOf(a) == FrameOf(b) && a.nflId == b.nflId);
    FilterKeepsOrder(track, r => IsReturnerRow(plays, r), notSame);
  }

  /** Two returner rows at their play's catch belong to different plays. */
  lemma {:induction false} CaughtRowsDistinctPlays(ret: seq<TrackRow>, plays: PlayTable, i: int, j: int)
    requires UniquePlayerFrames(ret)
    requires forall r :: r in ret ==> IsReturnerRow(plays, r)
    requires FeatTimeToCatch(ret).Ok?
    requires 0 <= i < j < |ret|
    requires AtCatch(FeatTimeToCatch(ret).value[i]) && AtCatch(FeatTimeToCatch(ret).value[j])
    ensures PlayOf(ret[i]) != PlayOf(ret[j])
  {
    AtCatchFrame(ret, i);
    AtCatchFrame(ret, j);
    var a, b := ret[i], ret[j];
    assert a in ret && b in ret;
  }

  /** With one row per player per frame, no play yields two speed rows. */
  lemma {:induction false} AtMostOneSpeedPerPlay(track: seq<TrackRow>, plays: PlayTable, sinDeg: real -> real)
    requires UniquePlayerFrames(track)
    requires FeatReturnerSpeedAtCatch(track, plays, sinDeg).Ok?
    ensures var out := FeatReturnerSpeedAtCatch(track, plays, sinDeg).value;
      forall i, j :: 0 <= i < j < |out| ==> (out[i].gameId, out[i].playId) != (out[j].gameId, out[j].playId)
  {
    SpeedAtCatchShape(track, plays, sinDeg);
    var ret := ReturnerRows(track, plays);
    ReturnerRowsUnique(track, plays);
    var timed := FeatTimeToCatch(ret).value;
    var distinctPlays := (a: TimedRow, b: TimedRow) => AtCatch(a) && AtCatch(b) ==> PlayOf(a.row) != PlayOf(b.row);
    forall i, j | 0 <= i < j < |timed| ensures distinctPlays(timed[i], timed[j]) {
      if AtCatch(timed[i]) && AtCatch(timed[j]) {
        CaughtRowsDistinctPlays(ret, plays, i, j);
      }
    }
    FilterKeepsOrder(timed, AtCatch, distinctPlays);
    var caught := Filter(timed, AtCatch);
    forall k | 0 <= k < |caught| ensures AtCatch(caught[k]) {
      assert caught[k] in caught;
    }
  }
}
