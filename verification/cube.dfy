/** The path finder of the cube animation in `src/app/three/page.tsx`: two
    points walk along the edges of a cube, each time to a random neighbouring
    corner, following a path found by a bounded search over the edge table. */
module Cube {
  import opened Text

  /** A corner index. */
  type Corner = c: int | 0 <= c < 8

  /** The twelve edges, as the page lists them: front face, back face, then the
      four edges joining them. */
  const Edges: seq<(int, int)> := [
    (0, 1), (1, 2), (2, 3), (3, 0),
    (4, 5), (5, 6), (6, 7), (7, 4),
    (0, 4), (1, 5), (2, 6), (3, 7)]

  /** For each corner, the corners a point may move to next. */
  const EdgeConnections: seq<seq<int>> := [
    [1, 3, 4], [0, 2, 5], [1, 3, 6], [0, 2, 7],
    [0, 5, 7], [1, 4, 6], [2, 5, 7], [3, 4, 6]]

  /** `edges.some(([s, e]) => (s === a && e === b) || (s === b && e === a))`. */
  function SomeEdge(es: seq<(int, int)>, a: int, b: int): (r: bool)
    ensures r <==> exists i :: 0 <= i < |es| && (es[i] == (a, b) || es[i] == (b, a))
  {
    if |es| == 0 then false
    else
      (es[0] == (a, b) || es[0] == (b, a)) || (
        var rest := SomeEdge(es[1..], a, b);
        assert rest <==> exists i :: 1 <= i < |es| && (es[i] == (a, b) || es[i] == (b, a)) by {
          if rest {
            var i :| 0 <= i < |es[1..]| && (es[1..][i] == (a, b) || es[1..][i] == (b, a));
            assert es[i + 1] == es[1..][i];
          }
          if exists i :: 1 <= i < |es| && (es[i] == (a, b) || es[i] == (b, a)) {
            var i :| 1 <= i < |es| && (es[i] == (a, b) || es[i] == (b, a));
            assert es[1..][i - 1] == es[i];
          }
        }
        rest)
  }

  /** `isDirectlyConnected(a, b)`. */
  function IsDirectlyConnected(a: int, b: int): (r: bool)
    ensures r <==> exists i :: 0 <= i < |Edges| && (Edges[i] == (a, b) || Edges[i] == (b, a))
  {
    SomeEdge(Edges, a, b)
  }

  /** The position of each corner as three sign bits, from the page's corner
      coordinates: positive x for corners 1, 2, 5, 6, positive y for 2, 3, 6, 7
      and positive z (the front face) for 0 to 3. */
  predicate PosX(c: Corner) { c == 1 || c == 2 || c == 5 || c == 6 }
  predicate PosY(c: Corner) { c == 2 || c == 3 || c == 6 || c == 7 }
  predicate PosZ(c: Corner) { c < 4 }

  /** The corner at the given sign bits. */
  function CornerAt(x: bool, y: bool, z: bool): (c: Corner)
    ensures PosX(c) == x && PosY(c) == y && PosZ(c) == z
  {
    var face := if !x && !y then 0 else if x && !y then 1 else if x && y then 2 else 3;
    if z then face else face + 4
  }

  function B(x: bool): nat { if x then 1 else 0 }

  /** The number of coordinates in which two corners differ: the number of
      cube edges between them. */
  function Hamming(a: Corner, b: Corner): (d: nat)
    ensures d <= 3
    ensures d == 0 <==> a == b
  {
    B(PosX(a) != PosX(b)) + B(PosY(a) != PosY(b)) + B(PosZ(a) != PosZ(b))
  }

  /** The edge table is the cube's: two corners are joined exactly when they
      differ in one coordinate. */
  lemma EdgesAreCubeEdges(a: Corner, b: Corner)
    ensures IsDirectlyConnected(a, b) <==> Hamming(a, b) == 1
  {
    if IsDirectlyConnected(a, b) {
      var i :| 0 <= i < |Edges| && (Edges[i] == (a, b) || Edges[i] == (b, a));
      if i < 4 {
        assert i == 0 || i == 1 || i == 2 || i == 3;
      } else if i < 8 {
        assert i == 4 || i == 5 || i == 6 || i == 7;
      } else {
        assert i == 8 || i == 9 || i == 10 || i == 11;
      }
    }
    if Hamming(a, b) == 1 {
      var i := EdgeIndex(a, b);
    }
  }

  /** Where the edge between two corners one coordinate apart sits in the
      table: the four front-to-back edges last, and on each face the edge
      closing the square last. */
  function EdgeIndex(a: Corner, b: Corner): (i: int)
    requires Hamming(a, b) == 1
    ensures 0 <= i < |Edges| && (Edges[i] == (a, b) || Edges[i] == (b, a))
  {
    var lo := if a < b then a else b;
    var hi := if a < b then b else a;
    if hi - lo == 4 then lo + 8
    else if lo == 0 && hi == 3 then 3
    else if lo == 4 && hi == 7 then 7
    else lo
  }

  /** `edgeConnections[c]` lists exactly the three corners joined to `c`. */
  lemma ConnectionsAreNeighbours(c: Corner, d: Corner)
    ensures |EdgeConnections[c]| == 3
    ensures forall i :: 0 <= i < 3 ==> 0 <= EdgeConnections[c][i] < 8
    ensures d in EdgeConnections[c] <==> IsDirectlyConnected(c, d)
  {
    EdgesAreCubeEdges(c, d);
    ConnectionsAreCube(c, d);
  }

  lemma ConnectionsAreCube(c: Corner, d: Corner)
    ensures |EdgeConnections[c]| == 3
    ensures forall i :: 0 <= i < 3 ==> 0 <= EdgeConnections[c][i] < 8
    ensures d in EdgeConnections[c] <==> Hamming(c, d) == 1
  {
    if c == 0 {
    } else if c == 1 {
    } else if c == 2 {
    } else if c == 3 {
    } else if c == 4 {
    } else if c == 5 {
    } else if c == 6 {
    } else {
    }
  }

  /** Only corners are joined. */
  lemma JoinedAreCorners(a: int, b: int)
    requires IsDirectlyConnected(a, b)
    ensures 0 <= a < 8 && 0 <= b < 8
  {
    var i :| 0 <= i < |Edges| && (Edges[i] == (a, b) || Edges[i] == (b, a));
    if i < 4 {
      assert i == 0 || i == 1 || i == 2 || i == 3;
    } else if i < 8 {
      assert i == 4 || i == 5 || i == 6 || i == 7;
    } else {
      assert i == 8 || i == 9 || i == 10 || i == 11;
    }
  }

  /** `mids[i]` is the first corner of `mids` joined to `target`. */
  predicate FirstJoinedAt(mids: seq<int>, target: int, i: int) {
    && 0 <= i < |mids| && IsDirectlyConnected(mids[i], target)
    && forall k :: 0 <= k < i ==> !IsDirectlyConnected(mids[k], target)
  }

  /** `(mids1[i], mids2[j])` is the first joined pair of the nested scan: no
      earlier `mid1` has a partner, and no earlier `mid2` is joined to `mids1[i]`. */
  predicate FirstPairAt(mids1: seq<int>, mids2: seq<int>, i: int, j: int) {
    && 0 <= i < |mids1| && 0 <= j < |mids2| && IsDirectlyConnected(mids1[i], mids2[j])
    && (forall k, l :: 0 <= k < i && 0 <= l < |mids2| ==> !IsDirectlyConnected(mids1[k], mids2[l]))
    && (forall l :: 0 <= l < j ==> !IsDirectlyConnected(mids1[i], mids2[l]))
  }

  /** The first corner of `mids` joined to `target`. */
  function FirstJoined(mids: seq<int>, target: int): (r: Option<int>)
    ensures r.None? <==> forall i :: 0 <= i < |mids| ==> !IsDirectlyConnected(mids[i], target)
    ensures r.Some? ==> r.value in mids && IsDirectlyConnected(r.value, target)
    ensures r.Some? ==> exists i :: FirstJoinedAt(mids, target, i) && mids[i] == r.value
  {
    if |mids| == 0 then None
    else if IsDirectlyConnected(mids[0], target) then
      assert FirstJoinedAt(mids, target, 0);
      Some(mids[0])
    else
      var r := FirstJoined(mids[1..], target);
      assert forall i :: 1 <= i < |mids| ==> mids[i] == mids[1..][i - 1];
      if r.Some? then FirstJoinedShift(mids, target, r.value); r else r
  }

  /** The first joined corner of `mids[1..]` is the first of `mids` when
      `mids[0]` is not joined. */
  lemma FirstJoinedShift(mids: seq<int>, target: int, v: int)
    requires |mids| > 0 && !IsDirectlyConnected(mids[0], target)
    requires exists i :: FirstJoinedAt(mids[1..], target, i) && mids[1..][i] == v
    ensures exists i :: FirstJoinedAt(mids, target, i) && mids[i] == v
  {
    var i :| FirstJoinedAt(mids[1..], target, i) && mids[1..][i] == v;
    forall k | 0 <= k < i + 1 ensures !IsDirectlyConnected(mids[k], target) {
      if k > 0 {
        assert mids[k] == mids[1..][k - 1];
      }
    }
    assert FirstJoinedAt(mids, target, i + 1);
  }

  /** The first `mid1` of `mids1`, and for it the first `mid2` of `mids2`,
      that are joined to each other. */
  function FirstJoinedPair(mids1: seq<int>, mids2: seq<int>): (r: Option<(int, int)>)
    ensures r.None? <==> forall i, j :: 0 <= i < |mids1| && 0 <= j < |mids2| ==> !IsDirectlyConnected(mids1[i], mids2[j])
    ensures r.Some? ==> r.value.0 in mids1 && r.value.1 in mids2 && IsDirectlyConnected(r.value.0, r.value.1)
    ensures r.Some? ==> exists i, j :: FirstPairAt(mids1, mids2, i, j) && r.value == (mids1[i], mids2[j])
  {
    if |mids1| == 0 then None
    else
      match FirstJoined(mids2, mids1[0])
      case Some(m2) =>
        EdgeSymmetric(m2, mids1[0]);
        FirstPairHead(mids1, mids2, m2);
        Some((mids1[0], m2))
      case None =>
        forall j | 0 <= j < |mids2| ensures !IsDirectlyConnected(mids1[0], mids2[j]) {
          EdgeSymmetric(mids1[0], mids2[j]);
        }
        var r := FirstJoinedPair(mids1[1..], mids2);
        assert forall i :: 1 <= i < |mids1| ==> mids1[i] == mids1[1..][i - 1];
        if r.Some? then FirstPairShift(mids1, mids2, r.value); r else r
  }

  /** The first partner of `mids1[0]` makes the first pair. */
  lemma FirstPairHead(mids1: seq<int>, mids2: seq<int>, m2: int)
    requires |mids1| > 0
    requires exists l :: FirstJoinedAt(mids2, mids1[0], l) && mids2[l] == m2
    ensures exists i, j :: FirstPairAt(mids1, mids2, i, j) && (mids1[0], m2) == (mids1[i], mids2[j])
  {
    var l :| FirstJoinedAt(mids2, mids1[0], l) && mids2[l] == m2;
    EdgeSymmetric(mids2[l], mids1[0]);
    forall k | 0 <= k < l ensures !IsDirectlyConnected(mids1[0], mids2[k]) {
      EdgeSymmetric(mids2[k], mids1[0]);
    }
    assert FirstPairAt(mids1, mids2, 0, l);
  }

  /** The first pair of `mids1[1..]` is the first pair of `mids1` when
      `mids1[0]` has no partner. */
  lemma FirstPairShift(mids1: seq<int>, mids2: seq<int>, v: (int, int))
    requires |mids1| > 0
    requires forall l :: 0 <= l < |mids2| ==> !IsDirectlyConnected(mids1[0], mids2[l])
    requires exists i, j :: FirstPairAt(mids1[1..], mids2, i, j) && v == (mids1[1..][i], mids2[j])
    ensures exists i, j :: FirstPairAt(mids1, mids2, i, j) && v == (mids1[i], mids2[j])
  {
    var i, j :| FirstPairAt(mids1[1..], mids2, i, j) && v == (mids1[1..][i], mids2[j]);
    forall k, l | 0 <= k < i + 1 && 0 <= l < |mids2| ensures !IsDirectlyConnected(mids1[k], mids2[l]) {
      if k > 0 {
        assert mids1[k] == mids1[1..][k - 1];
      }
    }
    assert mids1[i + 1] == mids1[1..][i];
    assert FirstPairAt(mids1, mids2, i + 1, j);
  }

  lemma EdgeSymmetric(a: int, b: int)
    ensures IsDirectlyConnected(a, b) == IsDirectlyConnected(b, a)
  {
    if IsDirectlyConnected(a, b) {
      var i :| 0 <= i < |Edges| && (Edges[i] == (a, b) || Edges[i] == (b, a));
    }
    if IsDirectlyConnected(b, a) {
      var i :| 0 <= i < |Edges| && (Edges[i] == (b, a) || Edges[i] == (a, b));
    }
  }

  /** `findPathAlongEdges(start, end)`: the direct edge, else one stop via a
      neighbour of `start`, else two stops via a neighbour of each end, else the
      bare pair. */
  function FindPathAlongEdges(start: Corner, end: Corner): (p: seq<int>)
    ensures 2 <= |p| <= 4 && p[0] == start && p[|p| - 1] == end
  {
    if IsDirectlyConnected(start, end) then [start, end]
    else match FirstJoined(EdgeConnections[start], end)
      case Some(mid) => [start, mid, end]
      case None =>
        match FirstJoinedPair(EdgeConnections[start], EdgeConnections[end])
        case Some((m1, m2)) => [start, m1, m2, end]
        case None => [start, end]
  }

  /** Consecutive entries are joined by an edge. */
  predicate IsWalk(p: seq<int>) {
    forall i :: 0 <= i < |p| - 1 ==> IsDirectlyConnected(p[i], p[i + 1])
  }

  /** The path for one start and every end: always a walk along edges, so the
      fallback is never taken, and one step longer than the distance between
      distinct corners. */
  lemma PathsFrom(s: Corner)
    ensures forall e: Corner :: IsWalk(FindPathAlongEdges(s, e))
    ensures forall e: Corner :: s != e ==> |FindPathAlongEdges(s, e)| == Hamming(s, e) + 1
  {
    forall e: Corner ensures IsWalk(FindPathAlongEdges(s, e)) && (s != e ==> |FindPathAlongEdges(s, e)| == Hamming(s, e) + 1) {
      PathFacts(s, e);
    }
  }

  lemma PathFacts(s: Corner, e: Corner)
    ensures IsWalk(FindPathAlongEdges(s, e))
    ensures s != e ==> |FindPathAlongEdges(s, e)| == Hamming(s, e) + 1
  {
    if IsDirectlyConnected(s, e) {
      EdgesAreCubeEdges(s, e);
    } else if FirstJoined(EdgeConnections[s], e).Some? {
      PathOneStop(s, e);
    } else {
      PathTwoStops(s, e);
    }
  }

  lemma PathOneStop(s: Corner, e: Corner)
    requires !IsDirectlyConnected(s, e) && FirstJoined(EdgeConnections[s], e).Some?
    ensures IsWalk(FindPathAlongEdges(s, e))
    ensures s != e ==> |FindPathAlongEdges(s, e)| == Hamming(s, e) + 1
  {
    var m := FirstJoined(EdgeConnections[s], e).value;
    ConnectionsAreCube(s, s);
    ConnectionsAreNeighbours(s, m);
    ThroughOne(s, m, e);
    var p := FindPathAlongEdges(s, e);
    assert p == [s, m, e];
  }

  lemma PathTwoStops(s: Corner, e: Corner)
    requires !IsDirectlyConnected(s, e) && FirstJoined(EdgeConnections[s], e).None?
    ensures IsWalk(FindPathAlongEdges(s, e))
    ensures s != e ==> |FindPathAlongEdges(s, e)| == Hamming(s, e) + 1
  {
    FarCorners(s, e);
    var (m1, m2) := FirstJoinedPair(EdgeConnections[s], EdgeConnections[e]).value;
    assert FindPathAlongEdges(s, e) == [s, m1, m2, e];
    assert IsDirectlyConnected(s, m1) by {
      ConnectionsAreCube(s, s);
      ConnectionsAreNeighbours(s, m1);
    }
    assert IsDirectlyConnected(m2, e) by {
      ConnectionsAreCube(e, e);
      ConnectionsAreNeighbours(e, m2);
      EdgeSymmetric(e, m2);
    }
    WalkOfFour(s, m1, m2, e);
  }

  lemma WalkOfFour(a: int, b: int, c: int, d: int)
    requires IsDirectlyConnected(a, b) && IsDirectlyConnected(b, c) && IsDirectlyConnected(c, d)
    ensures IsWalk([a, b, c, d])
  {
  }

  /** A corner joined to `s` and to `e`, with `s` and `e` not joined, is the
      middle of a two-edge path, and `s`, `e` are two apart or equal. */
  lemma ThroughOne(s: Corner, m: int, e: Corner)
    requires IsDirectlyConnected(s, m) && IsDirectlyConnected(m, e) && !IsDirectlyConnected(s, e)
    ensures s != e ==> Hamming(s, e) == 2
  {
    JoinedAreCorners(s, m);
    EdgesAreCubeEdges(s, m);
    EdgesAreCubeEdges(m, e);
    EdgesAreCubeEdges(s, e);
    HammingTriangle(s, m, e);
  }

  /** Corners with no direct edge and no common neighbour are opposite, and
      then a neighbour of each end is joined. */
  lemma FarCorners(s: Corner, e: Corner)
    requires !IsDirectlyConnected(s, e)
    requires FirstJoined(EdgeConnections[s], e).None?
    ensures s != e && Hamming(s, e) == 3
    ensures FirstJoinedPair(EdgeConnections[s], EdgeConnections[e]).Some?
  {
    FarApart(s, e);
    OppositePair(s, e);
  }

  lemma FarApart(s: Corner, e: Corner)
    requires !IsDirectlyConnected(s, e)
    requires FirstJoined(EdgeConnections[s], e).None?
    ensures s != e && Hamming(s, e) == 3
  {
    ConnectionsAreCube(s, s);
    var n: Corner := EdgeConnections[s][0];
    assert Hamming(s, n) == 1 && Hamming(n, e) != 1 by {
      ConnectionsAreNeighbours(s, n);
      EdgesAreCubeEdges(s, n);
      EdgesAreCubeEdges(n, e);
    }
    HammingSymmetric(s, n);
    EdgesAreCubeEdges(s, e);
    NoCommonNeighbour(s, e);
  }

  /** For opposite corners the two-stop search succeeds. */
  lemma OppositePair(s: Corner, e: Corner)
    requires Hamming(s, e) == 3
    ensures FirstJoinedPair(EdgeConnections[s], EdgeConnections[e]).Some?
  {
    ConnectionsAreCube(s, s);
    var n: Corner := EdgeConnections[s][0];
    assert Hamming(s, n) == 1 by {
      ConnectionsAreNeighbours(s, n);
      EdgesAreCubeEdges(s, n);
    }
    assert Hamming(n, e) == 2 by {
      OneStepCloser(s, n, e);
    }
    var k := CommonNeighbour(n, e);
    assert k in EdgeConnections[e] by {
      ConnectionsAreNeighbours(e, k);
      EdgeSymmetric(k, e);
    }
    PairFound(EdgeConnections[s], EdgeConnections[e], n, k);
  }

  /** A step from one corner towards the opposite one leaves two steps. */
  lemma OneStepCloser(s: Corner, n: Corner, e: Corner)
    requires Hamming(s, e) == 3 && Hamming(s, n) == 1
    ensures Hamming(n, e) == 2
  {
  }

  /** Distance does not depend on the direction. */
  lemma HammingSymmetric(a: Corner, b: Corner)
    ensures Hamming(a, b) == Hamming(b, a)
  {
  }

  /** The pair search succeeds once some joined pair is on offer. */
  lemma PairFound(mids1: seq<int>, mids2: seq<int>, a: int, b: int)
    requires a in mids1 && b in mids2 && IsDirectlyConnected(a, b)
    ensures FirstJoinedPair(mids1, mids2).Some?
  {
    var i :| 0 <= i < |mids1| && mids1[i] == a;
    var j :| 0 <= j < |mids2| && mids2[j] == b;
    assert IsDirectlyConnected(mids1[i], mids2[j]);
  }

  /** Corners with no neighbour of one joined to the other are not two apart. */
  lemma NoCommonNeighbour(s: Corner, e: Corner)
    requires FirstJoined(EdgeConnections[s], e).None?
    ensures Hamming(s, e) != 2
  {
    if Hamming(s, e) == 2 {
      var m := CommonNeighbour(s, e);
      ConnectionsAreNeighbours(s, m);
    }
  }

  /** Two corners two coordinates apart share a neighbour: flip one of the
      coordinates in which they differ. */
  lemma CommonNeighbour(s: Corner, e: Corner) returns (m: Corner)
    requires Hamming(s, e) == 2
    ensures IsDirectlyConnected(s, m) && IsDirectlyConnected(m, e)
  {
    if PosX(s) != PosX(e) {
      m := CornerAt(PosX(e), PosY(s), PosZ(s));
    } else {
      m := CornerAt(PosX(s), PosY(e), PosZ(s));
    }
    EdgesAreCubeEdges(s, m);
    EdgesAreCubeEdges(m, e);
  }

  /** The number of edges between corners obeys the triangle inequality. */
  lemma HammingTriangle(a: Corner, b: Corner, c: Corner)
    ensures Hamming(a, c) <= Hamming(a, b) + Hamming(b, c)
    ensures Hamming(a, b) == 1 ==> Hamming(b, c) + 1 >= Hamming(a, c) && Hamming(a, c) + 1 >= Hamming(b, c)
  {
  }

  /** Any walk from `s` to `e` along edges takes at least as many steps as the
      coordinates in which they differ: the paths found are shortest. */
  lemma {:induction false} WalkAtLeastDistance(p: seq<int>)
    requires |p| >= 1 && IsWalk(p)
    requires forall i :: 0 <= i < |p| ==> 0 <= p[i] < 8
    ensures |p| - 1 >= Hamming(p[0], p[|p| - 1])
  {
    if |p| > 1 {
      var q := p[1..];
      assert IsWalk(q) by {
        forall i | 0 <= i < |q| - 1 ensures IsDirectlyConnected(q[i], q[i + 1]) {
          assert q[i] == p[i + 1] && q[i + 1] == p[i + 2];
        }
      }
      WalkAtLeastDistance(q);
      EdgesAreCubeEdges(p[0], p[1]);
      HammingTriangle(p[0], p[1], p[|p| - 1]);
    }
  }

  /** The random choice of the next corner among `options`, one roll of
      `Math.floor(Math.random() * options.length)` per turn of the do-while
      loop, redrawn while the pick equals the current corner. `None` when the
      rolls run out. */
  function NextTarget(current: int, options: seq<int>, rolls: seq<nat>): (r: Option<int>)
    requires forall i :: 0 <= i < |rolls| ==> rolls[i] < |options|
    ensures r.None? <==> forall i :: 0 <= i < |rolls| ==> options[rolls[i]] == current
    ensures r.Some? ==> r.value != current
    ensures r.Some? ==> exists i :: FirstMoveAt(current, options, rolls, i) && r.value == options[rolls[i]]
  {
    if |rolls| == 0 then None
    else
      var pick := options[rolls[0]];
      if pick != current then
        assert FirstMoveAt(current, options, rolls, 0);
        Some(pick)
      else
        var r := NextTarget(current, options, rolls[1..]);
        assert forall i :: 1 <= i < |rolls| ==> rolls[i] == rolls[1..][i - 1];
        if r.Some? then NextTargetShift(current, options, rolls, r.value); r else r
  }

  /** Roll `rolls[i]` is the first that picks an option other than `current`,
      the one the do-while loop stops at. */
  predicate FirstMoveAt(current: int, options: seq<int>, rolls: seq<nat>, i: int)
    requires forall k :: 0 <= k < |rolls| ==> rolls[k] < |options|
  {
    && 0 <= i < |rolls| && options[rolls[i]] != current
    && forall k :: 0 <= k < i ==> options[rolls[k]] == current
  }

  /** The stopping roll of `rolls[1..]` is that of `rolls` when the first roll
      picks `current` itself. */
  lemma NextTargetShift(current: int, options: seq<int>, rolls: seq<nat>, v: int)
    requires forall i :: 0 <= i < |rolls| ==> rolls[i] < |options|
    requires |rolls| > 0 && options[rolls[0]] == current
    requires exists i :: FirstMoveAt(current, options, rolls[1..], i) && v == options[rolls[1..][i]]
    ensures exists i :: FirstMoveAt(current, options, rolls, i) && v == options[rolls[i]]
  {
    var i :| FirstMoveAt(current, options, rolls[1..], i) && v == options[rolls[1..][i]];
    forall k | 0 <= k < i + 1 ensures options[rolls[k]] == current {
      if k > 0 {
        assert rolls[k] == rolls[1..][k - 1];
      }
    }
    assert rolls[i + 1] == rolls[1..][i];
    assert FirstMoveAt(current, options, rolls, i + 1);
  }

  /** With an option equal to the current corner the loop does redraw: rolling
      that option first and then another gives the other. */
  lemma NextTargetRedraws()
    ensures NextTarget(0, [0, 5], [0, 0, 1]) == Some(5)
  {
    assert [0, 0, 1][1..] == [0, 1] && [0, 1][1..] == [1];
  }

  /** The loop ends after its first roll, since no corner lists itself, and the
      chosen corner is a neighbour of the current one. */
  lemma NextTargetIsNeighbour(current: Corner, rolls: seq<nat>)
    requires forall i :: 0 <= i < |rolls| ==> rolls[i] < 3
    requires |rolls| > 0
    ensures NextTarget(current, EdgeConnections[current], rolls) == Some(EdgeConnections[current][rolls[0]])
    ensures var t := NextTarget(current, EdgeConnections[current], rolls).value;
      0 <= t < 8 && t != current && IsDirectlyConnected(current, t)
  {
    var t := EdgeConnections[current][rolls[0]];
    ConnectionsAreNeighbours(current, t);
  }

  /** A move from one corner to the next one chosen is a single edge. */
  lemma MoveIsOneEdge(current: Corner, rolls: seq<nat>)
    requires forall i :: 0 <= i < |rolls| ==> rolls[i] < 3
    requires |rolls| > 0
    ensures var t := NextTarget(current, EdgeConnections[current], rolls).value;
      0 <= t < 8 && FindPathAlongEdges(current, t) == [current, t]
  {
    NextTargetIsNeighbour(current, rolls);
  }

  /** Asking for a path from a corner to itself yields a detour through its
      first listed neighbour rather than a path of one corner. */
  lemma SelfPathIsDetour(c: Corner)
    ensures FindPathAlongEdges(c, c) == [c, EdgeConnections[c][0], c]
  {
    var n := EdgeConnections[c][0];
    ConnectionsAreNeighbours(c, n);
    ConnectionsAreNeighbours(c, c);
    EdgeSymmetric(c, n);
  }
}
