/** Field constants, the colour scaling helper, and the standardisation of
    tracking data to a single direction of play. */
module NflUtil {
  import opened Tables

  /** Yards from the back of one end zone to the back of the other. */
  const FieldSizeX: real := 120.0
  /** Yards from sideline to sideline. */
  const FieldSizeY: real := 53.3

  /** Scales an RGB triple from the 0..255 range to the 0..1 range that the
      plotting library expects. */
  function Rgb(r: int, g: int, b: int): (c: seq<real>)
    ensures |c| == 3
    ensures c[0] * 255.0 == r as real && c[1] * 255.0 == g as real && c[2] * 255.0 == b as real
  {
    [r as real / 255.0, g as real / 255.0, b as real / 255.0]
  }

  /** Components given in 0..255 come out in [0, 1]. */
  lemma RgbInUnitRange(r: int, g: int, b: int)
    requires 0 <= r <= 255 && 0 <= g <= 255 && 0 <= b <= 255
    ensures forall k :: 0 <= k < 3 ==> 0.0 <= Rgb(r, g, b)[k] <= 1.0
  {
    var c := Rgb(r, g, b);
    assert c[0] * 255.0 <= 255.0 && c[1] * 255.0 <= 255.0 && c[2] * 255.0 <= 255.0;
  }

  /** Python's `v % 360` on floats: the remainder takes the sign of the
      divisor, so it always lies in [0, 360). */
  function Mod360(v: real): (m: real)
    ensures 0.0 <= m < 360.0
    ensures (v - m) / 360.0 == ((v - m) / 360.0).Floor as real
  {
    var q := (v / 360.0).Floor;
    assert q as real <= v / 360.0 < q as real + 1.0;
    v - 360.0 * q as real
  }

  /** Mod360 leaves an angle already in [0, 360) alone. */
  lemma Mod360OfNormal(v: real)
    requires 0.0 <= v < 360.0
    ensures Mod360(v) == v
  {
    assert (v / 360.0).Floor == 0;
  }

  /** An orientation rotated by half a turn, as the standardisation does. */
  function Rotate180(angle: Option<real>): (r: Option<real>)
    ensures r.None? <==> angle.None?
    ensures r.Some? ==> 0.0 <= r.value < 360.0
  {
    match angle
    case None => None
    case Some(v) => Some(Mod360(v + 180.0))
  }

  /** Rotating an angle in [0, 360) by half a turn twice gives it back. */
  lemma {:induction false} Rotate180Twice(angle: Option<real>)
    requires angle.Some? ==> 0.0 <= angle.value < 360.0
    ensures Rotate180(Rotate180(angle)) == angle
  {
    if angle.Some? {
      var v := angle.value;
      if v < 180.0 {
        Mod360OfNormal(v + 180.0);
        assert ((v + 360.0) / 360.0).Floor == 1;
      } else {
        assert ((v + 180.0) / 360.0).Floor == 1;
        Mod360OfNormal(v);
      }
    }
  }

  /** True for rows of plays that move towards the left end zone. */
  predicate MovesLeft(r: TrackRow) {
    r.playDirection == "left"
  }

  /** One row standardised to the right-moving frame of reference: rows of
      left-moving plays are reflected through the centre of the field and
      their orientation and direction turned by 180 degrees. */
  function StandardizeRow(r: TrackRow): TrackRow {
    if MovesLeft(r) then
      r.(x := FieldSizeX - r.x, y := FieldSizeY - r.y,
         o := Rotate180(r.o), dir := Rotate180(r.dir))
    else r
  }

  /** The whole table standardised: the rows selected by the 'left' mask are
      reflected and rotated, every other row is kept as it is, and the table
      keeps its length and row order. */
  function Standardized(t: seq<TrackRow>): (u: seq<TrackRow>)
    ensures |u| == |t|
    ensures forall i :: 0 <= i < |t| && !MovesLeft(t[i]) ==> u[i] == t[i]
    ensures forall i :: 0 <= i < |t| && MovesLeft(t[i]) ==>
      && u[i].x == FieldSizeX - t[i].x && u[i].y == FieldSizeY - t[i].y
      && u[i].o == Rotate180(t[i].o) && u[i].dir == Rotate180(t[i].dir)
    ensures forall i :: 0 <= i < |t| ==> u[i].(x := t[i].x, y := t[i].y, o := t[i].o, dir := t[i].dir) == t[i]
  {
    seq(|t|, i requires 0 <= i < |t| => StandardizeRow(t[i]))
  }

  /** A left-moving row is reflected in x and y and rotated in o and dir. */
  lemma LeftRowReflected(r: TrackRow)
    requires MovesLeft(r)
    ensures StandardizeRow(r).x == FieldSizeX - r.x
    ensures StandardizeRow(r).y == FieldSizeY - r.y
    ensures StandardizeRow(r).o == Rotate180(r.o)
    ensures StandardizeRow(r).dir == Rotate180(r.dir)
  {
  }

  /** Any other row is left unchanged in every column. */
  lemma OtherRowUnchanged(r: TrackRow)
    requires !MovesLeft(r)
    ensures StandardizeRow(r) == r
  {
  }

  /** Only x, y, o and dir can change; in particular the play direction is
      kept, so a standardised table still says which rows were reflected. */
  lemma OnlyPositionColumnsChange(r: TrackRow)
    ensures StandardizeRow(r).(x := r.x, y := r.y, o := r.o, dir := r.dir) == r
  {
  }

  /** After standardisation every orientation and direction of a reflected
      row lies in [0, 360), whatever the input angle was. */
  lemma RotatedAnglesInRange(r: TrackRow)
    requires MovesLeft(r)
    ensures StandardizeRow(r).o.Some? ==> 0.0 <= StandardizeRow(r).o.value < 360.0
    ensures StandardizeRow(r).dir.Some? ==> 0.0 <= StandardizeRow(r).dir.value < 360.0
  {
  }

  /** The position of a row lies on the field. */
  predicate OnField(r: TrackRow) {
    0.0 <= r.x <= FieldSizeX && 0.0 <= r.y <= FieldSizeY
  }

  /** Standardisation keeps every on-field position on the field. */
  lemma StandardizeStaysOnField(t: seq<TrackRow>)
    ensures forall i :: 0 <= i < |t| && OnField(t[i]) ==> OnField(Standardized(t)[i])
  {
  }

  /** Angles as recorded (in [0, 360) or missing). */
  predicate NormalAngles(r: TrackRow) {
    (r.o.Some? ==> 0.0 <= r.o.value < 360.0) && (r.dir.Some? ==> 0.0 <= r.dir.value < 360.0)
  }

  /** Standardising twice restores a table whose angles are in [0, 360):
      the transformation is its own inverse. */
  lemma {:induction false} StandardizeTwice(t: seq<TrackRow>)
    requires forall i :: 0 <= i < |t| ==> NormalAngles(t[i])
    ensures Standardized(Standardized(t)) == t
  {
    forall i | 0 <= i < |t|
      ensures Standardized(Standardized(t))[i] == t[i]
    {
      var r := t[i];
      if MovesLeft(r) {
        Rotate180Twice(r.o);
        Rotate180Twice(r.dir);
      }
    }
  }

  /** Standardises the tracking table.  With `inplace` the caller's own
      array is changed and nothing is returned; otherwise a changed copy is
      returned and the caller's array is left as it was. */
  method TransformTrackingData(trackDf: array<TrackRow>, inplace: bool := false) returns (result: array?<TrackRow>)
    modifies if inplace then {trackDf} else {}
    ensures inplace ==> result == null && trackDf[..] == Standardized(old(trackDf[..]))
    ensures !inplace ==> result != null && fresh(result) && result[..] == Standardized(old(trackDf[..]))
    ensures !inplace ==> trackDf[..] == old(trackDf[..])
  {
    var outDf: array<TrackRow>;
    if inplace {
      outDf := trackDf;
    } else {
      outDf := new TrackRow[trackDf.Length](i requires 0 <= i < trackDf.Length reads trackDf => trackDf[i]);
    }
    assert outDf[..] == old(trackDf[..]);
    // the masked assignments to x, y, o and dir, done one row at a time
    var i := 0;
    while i < outDf.Length
      invariant 0 <= i <= outDf.Length == trackDf.Length
      invariant forall k :: 0 <= k < i ==> outDf[k] == StandardizeRow(old(trackDf[k]))
      invariant forall k :: i <= k < outDf.Length ==> outDf[k] == old(trackDf[k])
      invariant !inplace ==> outDf != trackDf && trackDf[..] == old(trackDf[..])
      modifies outDf
    {
      if MovesLeft(outDf[i]) {
        var r := outDf[i];
        outDf[i] := r.(x := FieldSizeX - r.x, y := FieldSizeY - r.y,
                       o := Rotate180(r.o), dir := Rotate180(r.dir));
      }
      i := i + 1;
    }
    assert outDf[..] == Standardized(old(trackDf[..]));
    if inplace {
      result := null;
    } else {
      result := outDf;
    }
  }
}
