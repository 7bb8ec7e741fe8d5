# Punt-return tracking features, modelled in Dafny

This project models the logic of a small player-tracking analysis package for
American football punt returns. The tracking table has one row per player, or
the football, per frame (ten frames per second). The model covers:

- `nflutil`: the field constants. It also covers the RGB scaling helper and
  `transform_tracking_data`. That function puts every play into one frame of
  reference. Rows of plays moving left are reflected through the centre of the
  field and their orientation and direction are turned by 180 degrees. It
  either changes the caller's table in place or returns a changed copy.
- `nfl_bdb22`:
  - `prep_get_modeling_frames` keeps the frames from the punt to the catch of
    punt plays that were returned and cleanly caught.
  - `feat_timeToCatch` is the countdown to the catch.
  - `feat_byDefender` ranks, per frame, the opponents by distance to the
    returner. It keeps the nearest `n_defenders` and computes their closing
    time and lateral leverage.
  - `feat_returnerSpeedAtCatch` gives the returner's downfield speed at the
    catch frame.

Module layout:

- `Tables` (`tables.dfy`) holds the tracking record and the filter and count
  helpers that the dataframe queries become.
- `NflUtil` (`nflutil.dfy`) models `nflutil.py`. The transformation is a
  method over an `array` of rows. It is proved against the pure
  `Standardized` function on `seq`.
- `Bdb22` (`nfl_bdb22.dfy`) and `Bdb22Defenders` (`defenders.dfy`) model
  `nfl_bdb22.py` as functions over sequences of rows.

The play, scouting and game tables are maps keyed by play or by game. The
tracking table is a sequence, because it may hold repeated rows and its order
matters.

Modelling choices:

- The pandas exceptions the pipelines can raise are results of type
  `Err(...)`.
  - A pivot fails when a play has the same event at two different frames.
  - A query or assign fails when no row anywhere has the event, so its column
    never appears.
- Values pandas reads as NaN are `Option`s: `nflId`, `o` and `dir` of the
  football, and a missing event frame.
- The join in pandas matches NaN keys to each other. So a play whose returnerId
  field is empty takes the football's rows as its "returner" rows. The model
  keeps this. See `Bdb22.MissingReturnerMatchesFootball`.
- `get_frame_of_event` is called as `nflutil.get_frame_of_event`, but
  `nflutil.py` does not define it. That file defines only `_rgb`,
  `base_import` and `transform_tracking_data`. The model assumes the function
  gives one (gameId, playId, event, frameId) row for each distinct such
  combination among the rows that carry the named events.
  - `Bdb22.EventFrame` gives that frame for one play.
  - Both `DuplicatePivotEntries` error paths rely on that assumption: a play
    with the event at two different frames. They are stated in
    `Bdb22.PrepFailsExactly` and `Bdb22.TimeToCatchFailsExactly`. If the
    function returned one row per tracking row, the pivot would also fail for
    the same frame repeated.

## Model

| member | source | states |
|---|---|---|
| `NflUtil.Rgb` | nflutil.py:7-10 | three components, each the input divided by 255 (times 255 gives the input back) |
| `NflUtil.RgbInUnitRange` | nflutil.py:7-10 | components given in 0..255 come out in [0, 1] |
| `NflUtil.Mod360` | nflutil.py:93-94 | Python's float `% 360`: the result lies in [0, 360) and differs from the input by a whole number of turns |
| `NflUtil.Mod360OfNormal` | nflutil.py:93-94 | an angle already in [0, 360) is unchanged by `% 360` |
| `NflUtil.Rotate180` | nflutil.py:93-94 | a missing angle stays missing; any rotated angle lies in [0, 360) whatever the input |
| `NflUtil.Rotate180Twice` | nflutil.py:93-94 | turning an angle in [0, 360) by half a turn twice gives it back |
| `NflUtil.LeftRowReflected` | nflutil.py:85-94 | `StandardizeRow` on a left-moving row: x becomes 120 − x, y becomes 53.3 − y, o and dir become (v + 180) mod 360 |
| `NflUtil.OtherRowUnchanged` | nflutil.py:85-94 | `StandardizeRow` leaves a row whose playDirection is not 'left' unchanged in every column |
| `NflUtil.OnlyPositionColumnsChange` | nflutil.py:88-94 | `StandardizeRow` can change only x, y, o and dir; playDirection and all other columns keep their values |
| `NflUtil.Standardized` | nflutil.py:84-94 | the table keeps its length and row order; rows outside the 'left' mask are kept as they are, rows inside it get x ↦ 120 − x, y ↦ 53.3 − y and both angles turned by half a turn, and no other column changes |
| `NflUtil.RotatedAnglesInRange` | nflutil.py:93-94 | after the transform, o and dir of a reflected row lie in [0, 360) |
| `NflUtil.StandardizeStaysOnField` | nflutil.py:88-89 | a row with 0 ≤ x ≤ 120 and 0 ≤ y ≤ 53.3 keeps those bounds |
| `NflUtil.StandardizeTwice` | nflutil.py:84-94 | the transform is its own inverse on tables whose angles lie in [0, 360) |
| `NflUtil.TransformTrackingData` | nflutil.py:69-99 | `inplace` defaults to false. In place, the caller's array becomes the standardised table and the result is null. Otherwise a fresh standardised copy is returned and the caller's array is unchanged |
| `Bdb22.EventFrame` | nfl_bdb22.py:22-29 | missing exactly when the play has no row with the event; otherwise the frame of such a row |
| `Bdb22.EventFrameOfRow` | nfl_bdb22.py:22-29 | when no play has the event at two frames, every event row's frame is the pivoted frame of its play |
| `Bdb22.PrepGetModelingFrames` | nfl_bdb22.py:6-38 | the selection never has more rows than the tracking table |
| `Bdb22.PrepFailsExactly` | nfl_bdb22.py:22-33 | the selection fails exactly when a play has punt or punt_received at two frames, or one of the two events appears nowhere |
| `Bdb22.PrepKeepsExactly` | nfl_bdb22.py:8-33 | a row is kept iff it is a tracking row of a 'Punt'/'Return' play with kickContactType 'CC' whose frame lies in the punt-to-catch window |
| `Bdb22.PrepFrameWindow` | nfl_bdb22.py:20-33 | every kept row lies between a punt row and a punt_received row of its own play, both ends included |
| `Bdb22.PrepDropsPlayMissingEvent` | nfl_bdb22.py:22-25 | a play missing the punt or the punt_received event contributes no rows |
| `Bdb22.PrepKeepsOrder` | nfl_bdb22.py:8-37 | kept rows keep their relative order, and they are the input's own rows with the input's own columns |
| `Bdb22.FeatTimeToCatch` | nfl_bdb22.py:42-59 | on success, one output row per input row, in order, carrying the input row unchanged |
| `Bdb22.SecondsBetween` | nfl_bdb22.py:57 | at ten frames per second: missing exactly when there is no catch frame; otherwise ten times the seconds is catchFrame − frameId, zero exactly at the catch frame and positive exactly before it |
| `Bdb22.TimeToCatchFailsExactly` | nfl_bdb22.py:46-58 | the countdown fails exactly when a play has punt_received at two frames or no row has it |
| `Bdb22.TimeToCatchCountdown` | nfl_bdb22.py:57 | missing iff the play has no catch row; otherwise ten times the countdown is catchFrame − frameId, zero exactly at the catch frame, positive exactly before it |
| `Bdb22.ZeroSecondsAtFrame` | nfl_bdb22.py:57 | a zero countdown happens only at the catch frame itself |
| `Bdb22.AtCatchFrame` | nfl_bdb22.py:116-118 | a row kept by the `timeToCatch == 0` query sits at its play's catch frame |
| `Bdb22.MissingReturnerMatchesFootball` | nfl_bdb22.py:111-115 | with an empty returnerId the football's rows (missing nflId) become returner rows |
| `Bdb22.SeveralReturnersExcluded` | nfl_bdb22.py:111-115 | a play whose returnerId lists several ids (contains ';') has no returner rows |
| `Bdb22.ReturnerRows` | nfl_bdb22.py:111-115 | a row is a returner row iff it is a tracking row of a single-returner play whose nflId is the play's returner |
| `Bdb22.DownfieldSpeed` | nfl_bdb22.py:119 | missing exactly when dir is missing; for a moving player, negative exactly when sin(dir) > 0 (0 to 180 degrees point backwards) and positive exactly when sin(dir) < 0; zero for a standing player |
| `Bdb22.FeatReturnerSpeedAtCatch` | nfl_bdb22.py:107-122 | fails exactly when the returners' rows have punt_received at two frames of one play or nowhere at all; otherwise gives at most one speed row per returner row |
| `Bdb22.SpeedRowsAreReturnersAtCatch` | nfl_bdb22.py:107-121 | every speed row comes from a single returner's row at the frame where the returner's rows record the catch, with s_dwnfld = s · −sin(dir) |
| `Bdb22.ReturnerAtCatchFound` | nfl_bdb22.py:107-122 | conversely, every returner row at the frame where the returner's rows record the catch yields its speed row (gameId, playId, s · −sin(dir)) |
| `Bdb22.ReturnerRowsUnique` | nfl_bdb22.py:111-115 | picking the returner rows keeps one row per player per frame |
| `Bdb22.CaughtRowsDistinctPlays` | nfl_bdb22.py:111-118 | two returner rows at their plays' catch frames belong to different plays |
| `Bdb22.AtMostOneSpeedPerPlay` | nfl_bdb22.py:107-122 | with one tracking row per player per frame, no (game, play) has two speed rows |
| `Bdb22Defenders.ReturnerFrames` | nfl_bdb22.py:63-72 | one entry per returner row, in order: entry i is the gameId, playId, frameId, team, x and y of returner row i |
| `Bdb22Defenders.FrameOpponents` | nfl_bdb22.py:74-82 | exactly the rows of the returner's frame that are of the other team and not the football, for games in the game table, each joined once: as many joined rows as such tracking rows |
| `Bdb22Defenders.JoinOpponents` | nfl_bdb22.py:74-82 | the same for all returner frames: every joined row is an opponent in its frame, every opponent in the frame is joined, and there is one joined row per pair of a returner frame and an opponent row of that frame |
| `Bdb22Defenders.SquaredDistance` | nfl_bdb22.py:87 | the squared distance under the square root is never negative, and is zero when the two positions coincide |
| `Bdb22Defenders.Measure` | nfl_bdb22.py:84-87 | keeps the opponent's frame, nflId, position, speed and angles and the returner's position; dist is the square root of the squared distance between them; puntTeamAbbr is the home abbreviation for home players and the visitor abbreviation for every other player |
| `Bdb22Defenders.InsertByFrameDist` | nfl_bdb22.py:89 | inserting into a sorted table gives a sorted permutation with the new row added |
| `Bdb22Defenders.SortByFrameDist` | nfl_bdb22.py:89 | the result is sorted by (gameId, playId, frameId, dist) and is a permutation of the input |
| `Bdb22Defenders.WithFeatures` | nfl_bdb22.py:91-94 | keeps frame, nflId, dist, s and y and sets distOrder; timeToClose · max(s, 0.01) = dist with max(s, 0.01) ≥ 0.01, and upGutLeverage = abs(y − y_returner) ≥ 0 |
| `Bdb22Defenders.RankAt` | nfl_bdb22.py:91 | the rank of the i-th row lies in 1..i + 1 |
| `Bdb22Defenders.Ranked` | nfl_bdb22.py:89-94 | one ranked row per sorted row, in the same frame, with rank in 1..i + 1 |
| `Bdb22Defenders.TopN` | nfl_bdb22.py:96 | a row survives iff its rank is at most n |
| `Bdb22Defenders.RankedInOrder` | nfl_bdb22.py:89-91 | in a frame of the sorted table a later row is no nearer and has a strictly larger rank |
| `Bdb22Defenders.RanksConsecutive` | nfl_bdb22.py:89-91 | the first row of a frame has rank 1, every further row one more than the row before |
| `Bdb22Defenders.RankedRanksByPrefix` | nfl_bdb22.py:91 | every rank is one more than the number of earlier rows of its frame |
| `Bdb22Defenders.CountKept` | nfl_bdb22.py:91-96 | per frame, the rows ranked within n number min(n, frame size) |
| `Bdb22Defenders.CountOfTopN` | nfl_bdb22.py:96 | counting a frame after the cut counts rows both kept and in the frame |
| `Bdb22Defenders.TopNCount` | nfl_bdb22.py:91-96 | the cut keeps min(n, frame size) rows of each frame |
| `Bdb22Defenders.TopNOrdered` | nfl_bdb22.py:89-96 | after the cut, ranks lie in 1..n and, within a frame, rise strictly while dist does not decrease |
| `Bdb22Defenders.FeatByDefender` | nfl_bdb22.py:62-96 | `nDefenders` defaults to 4; every kept row has rank at most nDefenders, and there are no more kept rows than joined opponents |
| `Bdb22Defenders.DefenderRanksOrdered` | nfl_bdb22.py:89-98 | feat_byDefender's ranks lie in 1..n_defenders and, within each frame, are distinct, strictly increasing and in non-decreasing order of dist, so the pivot to one line per frame has no duplicate entries |
| `Bdb22Defenders.DefenderRanksConsecutive` | nfl_bdb22.py:89-91 | before the cut, ranks run 1, 2, 3, … through each frame in order of distance |
| `Bdb22Defenders.DefendersPerFrame` | nfl_bdb22.py:63-96 | each frame keeps exactly min(n_defenders, number of joined opponent rows of the frame) rows, with one joined row per returner row of the frame and opponent; a negative n_defenders keeps none |
| `Bdb22Defenders.RankedFromCandidate` | nfl_bdb22.py:89-93 | every ranked row is the features of one measured opponent |
| `Bdb22Defenders.DefendersAreOpponents` | nfl_bdb22.py:63-93 | every kept row comes from a single returner's row and an opponent's row (other team, not the football) of the same frame; its dist, puntTeamAbbr and features are computed from those two rows |
| `Bdb22Defenders.DefenderFeatureFormulas` | nfl_bdb22.py:92-93 | for every row feat_byDefender keeps: timeToClose · max(s, 0.01) = dist with max(s, 0.01) ≥ 0.01, and upGutLeverage = abs(y − y_returner) ≥ 0 |

## Left out

- `nflplot.py` is not part of this model. It renders animations with the
  plotting library.
- `nflutil.base_import` is not modelled. It only reads CSV files.
- The contents of the `TEAM_COLORS` table are not modelled. They are constant
  data; only `_rgb`, which builds them, is modelled.
- Floating point is replaced by exact reals:
  - 53.3 is the exact decimal.
  - `% 360` is exact floor modulo.
  - `(catch − frame)/10` is exact division.
  - `timeToCatch == 0.0` is exact equality.
- `np.sqrt` and `np.sin(np.deg2rad(...))` do not exist in the model. They are
  function parameters (`sqrt`, `sinDeg`), and nothing is assumed about them.
- `Bdb22Defenders.SortByFrameDist`: the sort on several columns
  (nfl_bdb22.py:89) is a stable lexicographic sort in pandas, so equally
  distant opponents keep their table order. The stable insertion sort of the
  model gives the same tie order, given the merge order described in the
  `Bdb22.PrepKeepsOrder` line below.
  pandas does not document that tie order.
  - The general ranking lemmas admit any order of ties: `TopNOrdered`,
    `TopNCount`, `RankedFromCandidate` and `CountPermutation` take any sorted
    permutation.
  - The lemmas about `FeatByDefender` itself are stated for the stable sort
    only.
- `Bdb22.PrepKeepsOrder`: the model keeps the tracking table's row order
  through the inner merges (nfl_bdb22.py:10, 15, 66, 78, 111). That is the left-key
  order pandas documents. Older pandas releases (before 2.2) grouped the
  rows of an inner merge by key, in order of first appearance. The two orders
  agree only when each play's rows are contiguous in the tracking table.
- The pivot of `feat_byDefender` into wide columns keyed by rank, and the renaming
  of the flattened column index (nfl_bdb22.py:98-103), are not modelled. The
  model returns the long table of ranked rows that is pivoted. It proves that
  (gameId, playId, frameId, distOrder) is unique, which is what the pivot needs.
- Duplicate keys in the play, scouting or game table cannot be represented,
  because those tables are maps. In pandas such duplicates would repeat rows in
  the joins.
- Index handling (`reset_index`) is not modelled; a sequence position stands
  for the row index.
- NaN beyond missing ids, angles and event frames is not modelled. For example,
  a NaN position or speed is not modelled.
- `Bdb22.AtMostOneSpeedPerPlay` assumes one tracking row per player per frame.
  Duplicated tracking rows would repeat speed rows in the source too.
- The exact exception pandas raises is not modelled. The model only records
  which of the two failure causes occurred.
