/** Per-frame features of the defenders nearest to the punt returner:
    the returner's position is attached to every opposing player of the same
    frame, the opponents are ranked by distance to the returner, and the
    nearest ones are kept. */
module Bdb22Defenders {
  import opened Tables
  import opened Bdb22

  /** The default number of nearest defenders kept per frame. */
  const DefaultDefenders: int := 4

  // ---------- the returner's position in each frame ----------

  /** Position and team of the returner in one frame. */
  datatype ReturnerFrame = ReturnerFrame(gameId: int, playId: int, frameId: int,
                                         teamReturner: string, xReturner: real, yReturner: real)

  function ReturnerFrameOf(r: TrackRow): ReturnerFrame {
    ReturnerFrame(r.gameId, r.playId, r.frameId, r.team, r.x, r.y)
  }

  /** One entry per tracking row of a single-returner play's returner. */
  function ReturnerFrames(track: seq<TrackRow>, plays: PlayTable): (rets: seq<ReturnerFrame>)
    ensures |rets| == |ReturnerRows(track, plays)|
    ensures forall i :: 0 <= i < |rets| ==> rets[i] == ReturnerFrameOf(ReturnerRows(track, plays)[i])
    ensures forall q :: q in rets ==> exists r :: r in track && IsReturnerRow(plays, r) && q == ReturnerFrameOf(r)
  {
    var ret := ReturnerRows(track, plays);
    var rets := seq(|ret|, i requires 0 <= i < |ret| => ReturnerFrameOf(ret[i]));
    assert forall q :: q in rets ==> exists r :: r in track && IsReturnerRow(plays, r) && q == ReturnerFrameOf(r) by {
      forall q | q in rets ensures exists r :: r in track && IsReturnerRow(plays, r) && q == ReturnerFrameOf(r) {
        var i :| 0 <= i < |rets| && rets[i] == q;
        assert ret[i] in ret;
      }
    }
    rets
  }

  // ---------- opponents in the returner's frame ----------

  /** A returner frame joined with one other tracking row of the same frame
      and with the game's team abbreviations. */
  datatype Joined = Joined(ret: ReturnerFrame, other: TrackRow, game: GameRow)

  predicate SameFrame(q: ReturnerFrame, r: TrackRow) {
    q.gameId == r.gameId && q.playId == r.playId && q.frameId == r.frameId
  }

  /** The row is a player of the team the returner does not play for. */
  predicate Opposes(q: ReturnerFrame, r: TrackRow) {
    q.teamReturner != r.team && r.team != "football"
  }

  /** The tracking rows that the join pairs with returner frame `q`. */
  function OpponentOf(q: ReturnerFrame, games: GameTable): TrackRow -> bool {
    (r: TrackRow) => SameFrame(q, r) && Opposes(q, r) && q.gameId in games
  }

  /** The number of opponent rows over all returner frames: one joined row
      per pair of a returner frame and an opponent of its frame. */
  function OpponentPairs(rets: seq<ReturnerFrame>, track: seq<TrackRow>, games: GameTable): nat {
    if rets == [] then 0 else Count(track, OpponentOf(rets[0], games)) + OpponentPairs(rets[1..], track, games)
  }

  /** The opponents of one returner frame, in table order, for games listed
      in the game table. */
  function FrameOpponents(q: ReturnerFrame, t: seq<TrackRow>, games: GameTable): (js: seq<Joined>)
    ensures forall j :: j in js ==> (j.ret == q && j.other in t && SameFrame(q, j.other)
      && Opposes(q, j.other) && q.gameId in games && j.game == games[q.gameId])
    ensures forall r :: r in t && SameFrame(q, r) && Opposes(q, r) && q.gameId in games ==>
      Joined(q, r, games[q.gameId]) in js
    ensures |js| == Count(t, OpponentOf(q, games))
  {
    if t == [] then []
    else
      var rest := FrameOpponents(q, t[1..], games);
      if SameFrame(q, t[0]) && q.gameId in games && Opposes(q, t[0])
      then [Joined(q, t[0], games[q.gameId])] + rest
      else rest
  }

  /** All returner frames joined with their opponents. */
  function JoinOpponents(rets: seq<ReturnerFrame>, track: seq<TrackRow>, games: GameTable): (js: seq<Joined>)
    ensures forall j :: j in js ==> (j.ret in rets && j.other in track && SameFrame(j.ret, j.other)
      && Opposes(j.ret, j.other) && j.ret.gameId in games && j.game == games[j.ret.gameId])
    ensures forall q, r :: q in rets && r in track && SameFrame(q, r) && Opposes(q, r) && q.gameId in games ==>
      Joined(q, r, games[q.gameId]) in js
    ensures |js| == OpponentPairs(rets, track, games)
  {
    if rets == [] then []
    else FrameOpponents(rets[0], track, games) + JoinOpponents(rets[1..], track, games)
  }

  // ---------- distance to the returner ----------

  /** An opponent with the returner's position, the punting team and the
      distance to the returner. */
  datatype Measured = Measured(gameId: int, playId: int, frameId: int, nflId: Option<int>,
                               x: real, y: real, s: real, o: Option<real>, dir: Option<real>,
                               xReturner: real, yReturner: real, puntTeamAbbr: string, dist: real)

  /** Abbreviation of the opponent's team: home players play for the home
      team, everyone else for the visitors. */
  function PuntTeamAbbr(team: string, g: GameRow): string {
    if team == "home" then g.homeTeamAbbr else g.visitorTeamAbbr
  }

  /** A square is never negative, and zero for zero. */
  lemma SquareFacts(v: real)
    ensures v * v >= 0.0
    ensures v == 0.0 ==> v * v == 0.0
  {
    if v == 0.0 {
      assert v * v == 0.0 * 0.0;
    } else if v < 0.0 {
      var w := -v;
      assert w * w > 0.0;
      assert v * v == w * w;
    }
  }

  /** Squared Euclidean distance between two positions: never negative, and
      zero when the positions coincide. */
  function SquaredDistance(x1: real, y1: real, x2: real, y2: real): (d2: real)
    ensures d2 >= 0.0
    ensures x1 == x2 && y1 == y2 ==> d2 == 0.0
  {
    SquareFacts(x1 - x2);
    SquareFacts(y1 - y2);
    (x1 - x2) * (x1 - x2) + (y1 - y2) * (y1 - y2)
  }

  /** The opponent measured against the returner of the same frame: it keeps
      the opponent's identity, frame and movement, and its distance is the
      square root of the squared distance between the two positions.
      `sqrt` is the square root the distance uses. */
  function Measure(j: Joined, sqrt: real -> real): (m: Measured)
    ensures FrameOfMeasured(m) == FrameOf(j.other) && m.nflId == j.other.nflId
    ensures m.x == j.other.x && m.y == j.other.y && m.s == j.other.s && m.o == j.other.o && m.dir == j.other.dir
    ensures m.xReturner == j.ret.xReturner && m.yReturner == j.ret.yReturner
    ensures m.dist == sqrt(SquaredDistance(j.other.x, j.other.y, j.ret.xReturner, j.ret.yReturner))
    ensures j.other.team == "home" ==> m.puntTeamAbbr == j.game.homeTeamAbbr
    ensures j.other.team != "home" ==> m.puntTeamAbbr == j.game.visitorTeamAbbr
  {
    var r := j.other;
    Measured(r.gameId, r.playId, r.frameId, r.nflId, r.x, r.y, r.s, r.o, r.dir,
             j.ret.xReturner, j.ret.yReturner, PuntTeamAbbr(r.team, j.game),
             sqrt(SquaredDistance(r.x, r.y, j.ret.xReturner, j.ret.yReturner)))
  }

  function Measurements(js: seq<Joined>, sqrt: real -> real): (ms: seq<Measured>)
    ensures |ms| == |js|
  {
    seq(|js|, i requires 0 <= i < |js| => Measure(js[i], sqrt))
  }

  // ---------- sorting by (gameId, playId, frameId, dist) ----------

  function FrameOfMeasured(m: Measured): FrameKey {
    FrameKey(m.gameId, m.playId, m.frameId)
  }

  /** The sort key of `a` is not above that of `b`, lexicographically. */
  predicate SortsBefore(a: Measured, b: Measured) {
    a.gameId < b.gameId || (a.gameId == b.gameId &&
      (a.playId < b.playId || (a.playId == b.playId &&
        (a.frameId < b.frameId || (a.frameId == b.frameId && a.dist <= b.dist)))))
  }

  predicate SortedByFrameDist(s: seq<Measured>) {
    forall i, j :: 0 <= i < j < |s| ==> SortsBefore(s[i], s[j])
  }

  function InsertByFrameDist(m: Measured, s: seq<Measured>): (r: seq<Measured>)
    requires SortedByFrameDist(s)
    ensures SortedByFrameDist(r)
    ensures multiset(r) == multiset(s) + multiset{m}
  {
    if s == [] then [m]
    else if SortsBefore(m, s[0]) then [m] + s
    else
      var rest := InsertByFrameDist(m, s[1..]);
      assert s == [s[0]] + s[1..];
      assert forall k :: 0 <= k < |rest| ==> SortsBefore(s[0], rest[k]) by {
        forall k | 0 <= k < |rest| ensures SortsBefore(s[0], rest[k]) {
          assert rest[k] in multiset(rest);
          if rest[k] != m {
            assert rest[k] in multiset(s[1..]);
          }
        }
      }
      [s[0]] + rest
  }

  /** The rows sorted by game, play, frame and distance; rows with equal
      keys keep their relative order (one of the orders an unstable sort may
      produce). */
  function SortByFrameDist(s: seq<Measured>): (r: seq<Measured>)
    ensures SortedByFrameDist(r)
    ensures multiset(r) == multiset(s)
  {
    if s == [] then []
    else
      assert s == [s[0]] + s[1..];
      InsertByFrameDist(s[0], SortByFrameDist(s[1..]))
  }

  // ---------- ranks and features ----------

  /** A ranked opponent with the per-defender features. */
  datatype DefenderRow = DefenderRow(gameId: int, playId: int, frameId: int, nflId: Option<int>,
                                     x: real, y: real, s: real, o: Option<real>, dir: Option<real>,
                                     xReturner: real, yReturner: real, puntTeamAbbr: string, dist: real,
                                     distOrder: int, timeToClose: real, upGutLeverage: real)

  function FrameOfDefender(d: DefenderRow): FrameKey {
    FrameKey(d.gameId, d.playId, d.frameId)
  }

  function InFrameM(k: FrameKey): Measured -> bool {
    m => FrameOfMeasured(m) == k
  }

  function InFrameD(k: FrameKey): DefenderRow -> bool {
    d => FrameOfDefender(d) == k
  }

  function Max(a: real, b: real): real {
    if a >= b then a else b
  }

  function Abs(a: real): real {
    if a >= 0.0 then a else -a
  }

  /** Closing time divides by the speed, floored at 0.01 yards per second;
      leverage is the lateral separation from the returner. */
  function WithFeatures(m: Measured, distOrder: int): (d: DefenderRow)
    ensures FrameOfDefender(d) == FrameOfMeasured(m) && d.nflId == m.nflId && d.dist == m.dist
    ensures d.s == m.s && d.y == m.y && d.yReturner == m.yReturner && d.distOrder == distOrder
    ensures Max(d.s, 0.01) >= 0.01 && d.timeToClose * Max(d.s, 0.01) == d.dist
    ensures d.upGutLeverage >= 0.0
    ensures d.upGutLeverage == d.y - d.yReturner || d.upGutLeverage == d.yReturner - d.y
  {
    DefenderRow(m.gameId, m.playId, m.frameId, m.nflId, m.x, m.y, m.s, m.o, m.dir,
                m.xReturner, m.yReturner, m.puntTeamAbbr, m.dist,
                distOrder, m.dist / Max(m.s, 0.01), Abs(m.y - m.yReturner))
  }

  /** Ranks as a running count within each frame assigns them: one more
      than the number of earlier rows of the same frame. */
  function Ranked(s: seq<Measured>): (r: seq<DefenderRow>)
    ensures |r| == |s|
    ensures forall i :: 0 <= i < |s| ==> FrameOfDefender(r[i]) == FrameOfMeasured(s[i]) && 1 <= r[i].distOrder <= i + 1
  {
    seq(|s|, i requires 0 <= i < |s| => WithFeatures(s[i], RankAt(s, i)))
  }

  function RankAt(s: seq<Measured>, i: int): (k: int)
    requires 0 <= i < |s|
    ensures 1 <= k <= i + 1
  {
    Count(s[..i], InFrameM(FrameOfMeasured(s[i]))) + 1
  }

  function RankedWithin(n: int): DefenderRow -> bool {
    (d: DefenderRow) => d.distOrder <= n
  }

  /** The rows ranked within the first `n` of their frame. */
  function TopN(r: seq<DefenderRow>, n: int): (out: seq<DefenderRow>)
    ensures forall d :: d in out <==> d in r && d.distOrder <= n
  {
    Filter(r, RankedWithin(n))
  }

  // ---------- lemmas about ranking ----------

  lemma CountPrefixStep(s: seq<Measured>, i: int, p: Measured -> bool)
    requires 0 <= i < |s|
    ensures Count(s[..i + 1], p) == Count(s[..i], p) + (if p(s[i]) then 1 else 0)
  {
    assert s[..i + 1] == s[..i] + [s[i]];
    CountAppend(s[..i], [s[i]], p);
  }

  lemma CountPrefixGrows(s: seq<Measured>, i: int, j: int, p: Measured -> bool)
    requires 0 <= i <= j <= |s|
    ensures Count(s[..i], p) <= Count(s[..j], p)
  {
    assert s[..j] == s[..i] + s[i..j];
    CountAppend(s[..i], s[i..j], p);
  }

  /** Within a frame of a sorted table, a later row is no nearer and has a
      strictly larger rank. */
  lemma RankedInOrder(s: seq<Measured>, i: int, j: int)
    requires SortedByFrameDist(s)
    requires 0 <= i < j < |s| && FrameOfMeasured(s[i]) == FrameOfMeasured(s[j])
    ensures Ranked(s)[i].dist <= Ranked(s)[j].dist
    ensures Ranked(s)[i].distOrder < Ranked(s)[j].distOrder
  {
    var p := InFrameM(FrameOfMeasured(s[i]));
    CountPrefixStep(s, i, p);
    CountPrefixGrows(s, i + 1, j, p);
  }

  /** In a sorted table the ranks of a frame run 1, 2, 3, ...: the first row
      of a frame has rank 1 and each further row one more than the row before. */
  lemma RanksConsecutive(s: seq<Measured>, i: int)
    requires SortedByFrameDist(s)
    requires 0 <= i < |s|
    ensures i == 0 || FrameOfMeasured(s[i - 1]) != FrameOfMeasured(s[i]) ==> Ranked(s)[i].distOrder == 1
    ensures i > 0 && FrameOfMeasured(s[i - 1]) == FrameOfMeasured(s[i]) ==>
      Ranked(s)[i].distOrder == Ranked(s)[i - 1].distOrder + 1
  {
    var p := InFrameM(FrameOfMeasured(s[i]));
    if i > 0 && FrameOfMeasured(s[i - 1]) == FrameOfMeasured(s[i]) {
      CountPrefixStep(s, i - 1, p);
    } else {
      forall k | 0 <= k < i ensures !p(s[..i][k]) {
        if k < i - 1 {
          assert SortsBefore(s[k], s[i - 1]) && SortsBefore(s[i - 1], s[i]);
        }
      }
      CountNone(s[..i], p);
    }
  }

  /** Counting is unaffected by reordering. */
  lemma {:induction false} CountPermutation<T(!new)>(a: seq<T>, b: seq<T>, p: T -> bool)
    requires multiset(a) == multiset(b)
    ensures Count(a, p) == Count(b, p)
  {
    if a == [] {
      assert |b| == |multiset(b)| == 0;
    } else {
      var x := a[0];
      assert a == [x] + a[1..];
      assert x in multiset(b);
      var k :| 0 <= k < |b| && b[k] == x;
      assert b == b[..k] + [x] + b[k + 1..];
      var b' := b[..k] + b[k + 1..];
      assert multiset(b') == multiset(b) - multiset{x};
      CountPermutation(a[1..], b', p);
      CountAppend(b[..k], [x], p);
      CountAppend(b[..k] + [x], b[k + 1..], p);
      CountAppend(b[..k], b[k + 1..], p);
    }
  }

  /** Two tables that agree row by row on `p` and `q` have equal counts. */
  lemma {:induction false} CountAlongside<T(!new), U(!new)>(a: seq<T>, b: seq<U>, p: T -> bool, q: U -> bool)
    requires |a| == |b|
    requires forall i :: 0 <= i < |a| ==> p(a[i]) == q(b[i])
    ensures Count(a, p) == Count(b, q)
  {
    if a != [] {
      assert forall i :: 0 <= i < |a[1..]| ==> a[1..][i] == a[i + 1] && b[1..][i] == b[i + 1];
      CountAlongside(a[1..], b[1..], p, q);
    }
  }

  /** Every rank is one more than the number of earlier rows of its frame. */
  predicate RanksByPrefix(r: seq<DefenderRow>) {
    forall i :: 0 <= i < |r| ==> r[i].distOrder == Count(r[..i], InFrameD(FrameOfDefender(r[i]))) + 1
  }

  lemma RankedRanksByPrefix(s: seq<Measured>)
    ensures RanksByPrefix(Ranked(s))
  {
    var r := Ranked(s);
    forall i | 0 <= i < |r|
      ensures r[i].distOrder == Count(r[..i], InFrameD(FrameOfDefender(r[i]))) + 1
    {
      var k := FrameOfMeasured(s[i]);
      CountAlongside(r[..i], s[..i], InFrameD(k), InFrameM(k));
    }
  }

  function MinInt(a: int, b: int): int {
    if a <= b then a else b
  }

  /** How many rows per frame a cut at `n` can keep: a negative `n` keeps
      none. */
  function CutSize(n: int): nat {
    if n < 0 then 0 else n
  }

  /** Kept by the cut and in frame `k`. */
  function KeptInFrame(n: int, k: FrameKey): DefenderRow -> bool {
    (d: DefenderRow) => d.distOrder <= n && FrameOfDefender(d) == k
  }

  /** Adding one row ranked after its frame's earlier rows keeps the count
      of kept rows of a frame at the smaller of `n` and the frame's size. */
  lemma CountKeptStep(r: seq<DefenderRow>, x: DefenderRow, n: int, k: FrameKey)
    requires x.distOrder == Count(r, InFrameD(FrameOfDefender(x))) + 1
    requires Count(r, KeptInFrame(n, k)) == MinInt(CutSize(n), Count(r, InFrameD(k)))
    ensures Count(r + [x], KeptInFrame(n, k)) == MinInt(CutSize(n), Count(r + [x], InFrameD(k)))
  {
    CountAppend(r, [x], KeptInFrame(n, k));
    CountAppend(r, [x], InFrameD(k));
    assert Count([x], KeptInFrame(n, k)) == if KeptInFrame(n, k)(x) then 1 else 0;
    assert Count([x], InFrameD(k)) == if InFrameD(k)(x) then 1 else 0;
  }

  /** Of every frame of a table ranked by prefix, the rows ranked within `n`
      number the smaller of `n` and the frame's size. */
  lemma {:induction false} CountKept(r: seq<DefenderRow>, n: int, k: FrameKey)
    requires RanksByPrefix(r)
    ensures Count(r, KeptInFrame(n, k)) == MinInt(CutSize(n), Count(r, InFrameD(k)))
    decreases |r|
  {
    if r != [] {
      var m := |r| - 1;
      var r', x := r[..m], r[m];
      assert r == r' + [x];
      forall i | 0 <= i < |r'|
        ensures r'[i].distOrder == Count(r'[..i], InFrameD(FrameOfDefender(r'[i]))) + 1
      {
        assert r'[..i] == r[..i];
      }
      CountKept(r', n, k);
      assert r[..m] == r';
      CountKeptStep(r', x, n, k);
    }
  }

  /** Counting the rows of a frame after the cut is counting the rows that
      are both in the frame and kept. */
  lemma {:induction false} CountOfTopN(r: seq<DefenderRow>, n: int, k: FrameKey)
    ensures Count(TopN(r, n), InFrameD(k)) == Count(r, KeptInFrame(n, k))
  {
    if r != [] {
      CountOfTopN(r[1..], n, k);
      if r[0].distOrder <= n {
        assert TopN(r, n) == [r[0]] + TopN(r[1..], n);
        assert ([r[0]] + TopN(r[1..], n))[1..] == TopN(r[1..], n);
      } else {
        assert TopN(r, n) == TopN(r[1..], n);
      }
    }
  }

  /** The cut keeps, of every frame, as many rows as the frame has, but
      never more than `n`. */
  lemma TopNCount(r: seq<DefenderRow>, n: int, k: FrameKey)
    requires RanksByPrefix(r)
    ensures Count(TopN(r, n), InFrameD(k)) == MinInt(CutSize(n), Count(r, InFrameD(k)))
  {
    CountOfTopN(r, n, k);
    CountKept(r, n, k);
  }

  /** In the cut of a sorted, ranked table, the rows of a frame are in
      non-decreasing order of distance with strictly increasing ranks in
      1..n. */
  lemma TopNOrdered(s: seq<Measured>, n: int)
    requires SortedByFrameDist(s)
    ensures var out := TopN(Ranked(s), n);
      && (forall d :: d in out ==> 1 <= d.distOrder <= n)
      && (forall i, j :: 0 <= i < j < |out| && FrameOfDefender(out[i]) == FrameOfDefender(out[j]) ==>
            out[i].dist <= out[j].dist && out[i].distOrder < out[j].distOrder)
  {
    var r := Ranked(s);
    var rel := (a: DefenderRow, b: DefenderRow) =>
      FrameOfDefender(a) == FrameOfDefender(b) ==> a.dist <= b.dist && a.distOrder < b.distOrder;
    forall i, j | 0 <= i < j < |r| ensures rel(r[i], r[j]) {
      if FrameOfDefender(r[i]) == FrameOfDefender(r[j]) {
        RankedInOrder(s, i, j);
      }
    }
    FilterKeepsOrder(r, RankedWithin(n), rel);
  }

  // ---------- properties of feat_byDefender ----------

  /** The opponents of every returner frame, before ranking. */
  function OpponentRows(track: seq<TrackRow>, plays: PlayTable, games: GameTable): seq<Joined> {
    JoinOpponents(ReturnerFrames(track, plays), track, games)
  }

  /** The opponents measured and sorted by frame and distance. */
  function SortedCandidates(track: seq<TrackRow>, plays: PlayTable, games: GameTable, sqrt: real -> real): seq<Measured> {
    SortByFrameDist(Measurements(OpponentRows(track, plays, games), sqrt))
  }

  /** The ranked table before the cut. */
  function RankedOpponents(track: seq<TrackRow>, plays: PlayTable, games: GameTable, sqrt: real -> real): seq<DefenderRow> {
    Ranked(SortedCandidates(track, plays, games, sqrt))
  }

  /** The `nDefenders` opponents nearest to the returner in every frame of
      every single-returner play, with their features. */
  function FeatByDefender(track: seq<TrackRow>, plays: PlayTable, games: GameTable,
                          nDefenders: int := DefaultDefenders, sqrt: real -> real): (out: seq<DefenderRow>)
    ensures forall d :: d in out ==> d.distOrder <= nDefenders
    ensures |out| <= |OpponentRows(track, plays, games)|
  {
    assert |SortedCandidates(track, plays, games, sqrt)| == |OpponentRows(track, plays, games)| by {
      var ms := Measurements(OpponentRows(track, plays, games), sqrt);
      assert |multiset(SortByFrameDist(ms))| == |multiset(ms)|;
    }
    TopN(RankedOpponents(track, plays, games, sqrt), nDefenders)
  }

  /** Within each frame, the kept rows are in non-decreasing order of
      distance and their ranks strictly increase and lie in 1..nDefenders,
      so no rank repeats within a frame and the pivot to one line per frame
      never meets two entries for one rank. */
  lemma DefenderRanksOrdered(track: seq<TrackRow>, plays: PlayTable, games: GameTable, nDefenders: int, sqrt: real -> real)
    ensures var out := FeatByDefender(track, plays, games, nDefenders, sqrt);
      && (forall d :: d in out ==> 1 <= d.distOrder <= nDefenders)
      && (forall i, j :: 0 <= i < j < |out| && FrameOfDefender(out[i]) == FrameOfDefender(out[j]) ==>
            out[i].dist <= out[j].dist && out[i].distOrder < out[j].distOrder)
  {
    TopNOrdered(SortedCandidates(track, plays, games, sqrt), nDefenders);
  }

  /** Ranks before the cut run 1, 2, 3, ... through each frame in order of
      distance. */
  lemma DefenderRanksConsecutive(track: seq<TrackRow>, plays: PlayTable, games: GameTable, sqrt: real -> real, i: int)
    requires 0 <= i < |RankedOpponents(track, plays, games, sqrt)|
    ensures var r := RankedOpponents(track, plays, games, sqrt);
      && (i == 0 || FrameOfDefender(r[i - 1]) != FrameOfDefender(r[i]) ==> r[i].distOrder == 1)
      && (i > 0 && FrameOfDefender(r[i - 1]) == FrameOfDefender(r[i]) ==>
            r[i].distOrder == r[i - 1].distOrder + 1 && r[i - 1].dist <= r[i].dist)
  {
    var s := SortedCandidates(track, plays, games, sqrt);
    RanksConsecutive(s, i);
    if i > 0 && FrameOfMeasured(s[i - 1]) == FrameOfMeasured(s[i]) {
      RankedInOrder(s, i - 1, i);
    }
  }

  /** Measuring, sorting, ranking and cutting any joined table keeps, of
      every frame, the smaller of the cut and the frame's joined rows. */
  lemma CutPerFrame(js: seq<Joined>, n: int, sqrt: real -> real, k: FrameKey)
    ensures Count(TopN(Ranked(SortByFrameDist(Measurements(js, sqrt))), n), InFrameD(k))
      == MinInt(CutSize(n), Count(js, (j: Joined) => FrameOf(j.other) == k))
  {
    var ms := Measurements(js, sqrt);
    var s := SortByFrameDist(ms);
    var r := Ranked(s);
    RankedRanksByPrefix(s);
    TopNCount(r, n, k);
    CountAlongside(r, s, InFrameD(k), InFrameM(k));
    CountPermutation(s, ms, InFrameM(k));
    CountAlongside(ms, js, InFrameM(k), (j: Joined) => FrameOf(j.other) == k);
  }

  /** Each frame keeps the `nDefenders` nearest opponents, or all of them
      when it has fewer; a negative `nDefenders` keeps none. */
  lemma DefendersPerFrame(track: seq<TrackRow>, plays: PlayTable, games: GameTable, nDefenders: int, sqrt: real -> real, k: FrameKey)
    ensures Count(FeatByDefender(track, plays, games, nDefenders, sqrt), InFrameD(k))
      == MinInt(CutSize(nDefenders), Count(OpponentRows(track, plays, games), (j: Joined) => FrameOf(j.other) == k))
  {
    CutPerFrame(OpponentRows(track, plays, games), nDefenders, sqrt, k);
  }

  /** A ranked row comes from one of the measured opponents. */
  lemma RankedFromCandidate(s: seq<Measured>, ms: seq<Measured>, d: DefenderRow)
    requires multiset(s) == multiset(ms)
    requires d in Ranked(s)
    ensures exists k :: 0 <= k < |ms| && d == WithFeatures(ms[k], d.distOrder)
  {
    var r := Ranked(s);
    var i :| 0 <= i < |r| && r[i] == d;
    var m := s[i];
    assert d == WithFeatures(m, RankAt(s, i));
    assert m in multiset(s);
    var k :| 0 <= k < |ms| && ms[k] == m;
  }

  /** Every kept row describes an opponent of the returner in the returner's
      own frame: a player, not the football, of the other team, with the
      distance and features computed from the two tracking rows. */
  lemma DefendersAreOpponents(track: seq<TrackRow>, plays: PlayTable, games: GameTable, nDefenders: int, sqrt: real -> real, d: DefenderRow)
    requires d in FeatByDefender(track, plays, games, nDefenders, sqrt)
    ensures exists ret, other :: (ret in track && IsReturnerRow(plays, ret) && other in track
      && FrameOf(other) == FrameOf(ret) && other.team != ret.team && other.team != "football"
      && ret.gameId in games
      && d == WithFeatures(Measure(Joined(ReturnerFrameOf(ret), other, games[ret.gameId]), sqrt), d.distOrder))
  {
    var rets := ReturnerFrames(track, plays);
    var js := OpponentRows(track, plays, games);
    var ms := Measurements(js, sqrt);
    RankedFromCandidate(SortByFrameDist(ms), ms, d);
    var k :| 0 <= k < |ms| && d == WithFeatures(ms[k], d.distOrder);
    var j := js[k];
    assert j in js;
    var ret :| ret in track && IsReturnerRow(plays, ret) && j.ret == ReturnerFrameOf(ret);
    assert j == Joined(ReturnerFrameOf(ret), j.other, games[ret.gameId]);
  }

  /** The closing time never divides by less than 0.01, and the leverage is
      the non-negative lateral distance to the returner. */
  lemma DefenderFeatureFormulas(track: seq<TrackRow>, plays: PlayTable, games: GameTable, nDefenders: int, sqrt: real -> real, d: DefenderRow)
    requires d in FeatByDefender(track, plays, games, nDefenders, sqrt)
    ensures Max(d.s, 0.01) >= 0.01 && d.timeToClose * Max(d.s, 0.01) == d.dist
    ensures d.upGutLeverage >= 0.0
    ensures d.upGutLeverage == d.y - d.yReturner || d.upGutLeverage == d.yReturner - d.y
  {
    var ms := Measurements(OpponentRows(track, plays, games), sqrt);
    RankedFromCandidate(SortByFrameDist(ms), ms, d);
    var k :| 0 <= k < |ms| && d == WithFeatures(ms[k], d.distOrder);
    FeatureFormulas(d, ms[k]);
  }

  lemma FeatureFormulas(d: DefenderRow, m: Measured)
    requires d == WithFeatures(m, d.distOrder)
    ensures Max(d.s, 0.01) >= 0.01 && d.timeToClose * Max(d.s, 0.01) == d.dist
    ensures d.upGutLeverage >= 0.0
    ensures d.upGutLeverage == d.y - d.yReturner || d.upGutLeverage == d.yReturner - d.y
  {
  }
}
