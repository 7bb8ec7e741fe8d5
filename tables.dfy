/** Shared data model of the tracking tables: one record per row of the
    per-week tracking file, and the few sequence helpers (filtering and
    counting) that the dataframe queries become. */
module Tables {

  datatype Option<+T> = None | Some(value: T)

  /** One row of the tracking table: one player (or the football) in one
      frame of one play.  Columns that pandas reads as NaN for the football
      (nflId, jerseyNumber, o, dir) are options. */
  datatype TrackRow = TrackRow(
    time: string,
    x: real,
    y: real,
    s: real,
    a: real,
    dis: real,
    o: Option<real>,
    dir: Option<real>,
    event: string,
    nflId: Option<int>,
    displayName: string,
    jerseyNumber: Option<int>,
    position: string,
    team: string,
    frameId: int,
    gameId: int,
    playId: int,
    playDirection: string)

  /** The (gameId, playId) pair that identifies a play. */
  datatype PlayKey = PlayKey(gameId: int, playId: int)

  /** The (gameId, playId, frameId) triple that identifies a frame. */
  datatype FrameKey = FrameKey(gameId: int, playId: int, frameId: int)

  function PlayOf(r: TrackRow): PlayKey {
    PlayKey(r.gameId, r.playId)
  }

  function FrameOf(r: TrackRow): FrameKey {
    FrameKey(r.gameId, r.playId, r.frameId)
  }

  /** The rows of `s` that satisfy `p`, in their original order: what a
      boolean-mask query on a dataframe keeps. */
  function Filter<T(!new)>(s: seq<T>, p: T -> bool): (r: seq<T>)
    ensures |r| <= |s|
    ensures forall x :: x in r <==> x in s && p(x)
  {
    if s == [] then []
    else if p(s[0]) then [s[0]] + Filter(s[1..], p)
    else Filter(s[1..], p)
  }

  /** Any relation that holds between every earlier and later element of `s`
      still holds in a filtered copy of `s`: filtering keeps order. */
  lemma {:induction false} FilterKeepsOrder<T(!new)>(s: seq<T>, p: T -> bool, rel: (T, T) -> bool)
    requires forall i, j :: 0 <= i < j < |s| ==> rel(s[i], s[j])
    ensures forall i, j :: 0 <= i < j < |Filter(s, p)| ==> rel(Filter(s, p)[i], Filter(s, p)[j])
  {
    if s != [] {
      FilterKeepsOrder(s[1..], p, rel);
      var t := Filter(s[1..], p);
      if p(s[0]) {
        assert Filter(s, p) == [s[0]] + t;
        forall i, j | 0 <= i < j < |Filter(s, p)|
          ensures rel(Filter(s, p)[i], Filter(s, p)[j])
        {
          if i == 0 {
            assert Filter(s, p)[j] in s[1..];
            var k :| 0 <= k < |s[1..]| && s[1..][k] == Filter(s, p)[j];
            assert s[k + 1] == Filter(s, p)[j];
          } else {
            assert Filter(s, p)[i] == t[i - 1] && Filter(s, p)[j] == t[j - 1];
          }
        }
      }
    }
  }

  /** Number of elements of `s` that satisfy `p`. */
  function Count<T(!new)>(s: seq<T>, p: T -> bool): (n: nat)
    ensures n <= |s|
  {
    if s == [] then 0
    else (if p(s[0]) then 1 else 0) + Count(s[1..], p)
  }

  lemma {:induction false} CountAppend<T(!new)>(a: seq<T>, b: seq<T>, p: T -> bool)
    ensures Count(a + b, p) == Count(a, p) + Count(b, p)
  {
    if a == [] {
      assert a + b == b;
    } else {
      assert (a + b)[1..] == a[1..] + b;
      CountAppend(a[1..], b, p);
    }
  }

  /** Nothing is counted when no element satisfies `p`. */
  lemma {:induction false} CountNone<T(!new)>(s: seq<T>, p: T -> bool)
    requires forall i :: 0 <= i < |s| ==> !p(s[i])
    ensures Count(s, p) == 0
  {
    if s != [] {
      assert forall i :: 0 <= i < |s[1..]| ==> s[1..][i] == s[i + 1];
      CountNone(s[1..], p);
    }
  }
}
