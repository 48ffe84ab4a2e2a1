/** One row of the compliance matrix: for a single evaluation point, the sum over
    the mesh's triangles of each triangle's per-vertex compliance, scattered into
    the slots of the triangle's three nodes. */
module RowComplianceMatrix {
  import opened Numerics

  datatype Option<T> = None | Some(value: T)

  /** A mesh triangle: three node indices, in the order that fixes its normal. */
  datatype Triangle = Triangle(i0: int, i1: int, i2: int)

  /** The per-triangle evaluation, together with the triangle frame it needs:
      given the triangle's three vertices and the evaluation point in world
      coordinates and the stiffness constant, the compliance contributions of
      the three vertices in the triangle's vertex order, or None when the result
      is not finite or the triangle frame cannot be built. */
  type Evaluator = (Vec3, Vec3, Vec3, Vec3, real) -> Option<Vec3>

  predicate IndexesNodes(t: Triangle, numNodes: int)
  {
    0 <= t.i0 < numNodes && 0 <= t.i1 < numNodes && 0 <= t.i2 < numNodes
  }

  predicate WellIndexed(triangles: seq<Triangle>, numNodes: int)
  {
    forall i :: 0 <= i < |triangles| ==> IndexesNodes(triangles[i], numNodes)
  }

  function ElementCompliance(points: seq<Vec3>, t: Triangle, nodeA: Vec3, k: real,
                             evaluate: Evaluator): Option<Vec3>
    requires IndexesNodes(t, |points|)
  {
    evaluate(points[t.i0], points[t.i1], points[t.i2], nodeA, k)
  }

  /** The element compliances of all triangles, in mesh order; None as soon as
      one of them is not finite. */
  function ElementCompliances(points: seq<Vec3>, triangles: seq<Triangle>, nodeA: Vec3,
                              k: real, evaluate: Evaluator): (r: Option<seq<Vec3>>)
    requires WellIndexed(triangles, |points|)
    ensures r.Some? <==> forall i :: 0 <= i < |triangles| ==>
                           ElementCompliance(points, triangles[i], nodeA, k, evaluate).Some?
    ensures r.Some? ==> |r.value| == |triangles| &&
                        forall i :: 0 <= i < |triangles| ==>
                          ElementCompliance(points, triangles[i], nodeA, k, evaluate) == Some(r.value[i])
    decreases |triangles|
  {
    if triangles == [] then Some([])
    else
      var n := |triangles| - 1;
      match ElementCompliances(points, triangles[..n], nodeA, k, evaluate)
      case None => None
      case Some(prefix) =>
        match ElementCompliance(points, triangles[n], nodeA, k, evaluate)
        case None => None
        case Some(e) => Some(prefix + [e])
  }

  /** What triangle t with vertex contributions e adds to node j: every vertex
      position holding j contributes, so a repeated index contributes twice. */
  function Share(t: Triangle, e: Vec3, j: int): real
  {
    (if t.i0 == j then e.x else 0.0)
    + (if t.i1 == j then e.y else 0.0)
    + (if t.i2 == j then e.z else 0.0)
  }

  /** The compliance of node j: the sum of the shares of all triangles. */
  function NodeTotal(j: int, triangles: seq<Triangle>, contributions: seq<Vec3>): real
    requires |triangles| == |contributions|
    decreases |triangles|
  {
    if triangles == [] then 0.0
    else
      var n := |triangles| - 1;
      NodeTotal(j, triangles[..n], contributions[..n]) + Share(triangles[n], contributions[n], j)
  }

  /** The three read-add-write updates of one triangle: each slot named by the
      triangle gains that vertex's contribution on top of what it already holds,
      so a slot named twice gains both, and every other slot is unchanged. */
  method AddElementCompliance(compliance: array<real>, indexes: Triangle, e: Vec3)
    requires IndexesNodes(indexes, compliance.Length)
    modifies compliance
    ensures forall j :: 0 <= j < compliance.Length ==>
              compliance[j] == old(compliance[j]) + Share(indexes, e, j)
  {
    var c1 := compliance[indexes.i0];
    compliance[indexes.i0] := c1 + e.x;
    var c2 := compliance[indexes.i1];
    compliance[indexes.i1] := c2 + e.y;
    var c3 := compliance[indexes.i2];
    compliance[indexes.i2] := c3 + e.z;
  }

  /** CalcRowComplianceMatrix: a zero row with one slot per node, then, triangle by
      triangle, the three element compliances added into the slots of the
      triangle's nodes. A triangle whose result is not finite stops the
      computation and no row is returned. */
  method CalcRowComplianceMatrix(points: seq<Vec3>, triangles: seq<Triangle>, nodeA: Vec3,
                                 k: real, evaluate: Evaluator) returns (row: Option<seq<real>>)
    requires WellIndexed(triangles, |points|)
    ensures row.None? <==> exists i :: 0 <= i < |triangles| &&
                             ElementCompliance(points, triangles[i], nodeA, k, evaluate).None?
    ensures row.None? <==> ElementCompliances(points, triangles, nodeA, k, evaluate).None?
    ensures triangles == [] ==> row == Some(seq(|points|, _ => 0.0))
    ensures row.Some? ==>
              var contributions := ElementCompliances(points, triangles, nodeA, k, evaluate).value;
              |row.value| == |points| &&
              forall j :: 0 <= j < |points| ==> row.value[j] == NodeTotal(j, triangles, contributions)
  {
    var numNodes := |points|;
    var compliance := new real[numNodes](_ => 0.0);
    ghost var contributions: seq<Vec3> := [];
    var i := 0;
    while i < |triangles|
      invariant 0 <= i <= |triangles|
      invariant compliance.Length == numNodes
      invariant ElementCompliances(points, triangles[..i], nodeA, k, evaluate) == Some(contributions)
      invariant |contributions| == i
      invariant forall j :: 0 <= j < numNodes ==>
                  compliance[j] == NodeTotal(j, triangles[..i], contributions)
    {
      var indexes := triangles[i];
      var elementCompliance := evaluate(points[indexes.i0], points[indexes.i1],
                                        points[indexes.i2], nodeA, k);
      if elementCompliance.None? {
        assert ElementCompliance(points, triangles[i], nodeA, k, evaluate).None?;
        return None;
      }
      var e := elementCompliance.value;
      AddElementCompliance(compliance, indexes, e);
      ElementCompliancesStep(points, triangles, nodeA, k, evaluate, i, contributions);
      forall j | 0 <= j < numNodes
        ensures compliance[j] == NodeTotal(j, triangles[..i + 1], contributions + [e])
      {
        NodeTotalStep(j, triangles, i, contributions, e);
      }
      contributions := contributions + [e];
      i := i + 1;
    }
    assert triangles[..i] == triangles;
    if triangles == [] {
      assert compliance[..] == seq(numNodes, _ => 0.0);
    }
    row := Some(compliance[..]);
  }

  lemma ElementCompliancesStep(points: seq<Vec3>, triangles: seq<Triangle>, nodeA: Vec3, k: real,
                               evaluate: Evaluator, i: nat, prefix: seq<Vec3>)
    requires WellIndexed(triangles, |points|) && i < |triangles|
    requires ElementCompliances(points, triangles[..i], nodeA, k, evaluate) == Some(prefix)
    requires ElementCompliance(points, triangles[i], nodeA, k, evaluate).Some?
    ensures ElementCompliances(points, triangles[..i + 1], nodeA, k, evaluate)
         == Some(prefix + [ElementCompliance(points, triangles[i], nodeA, k, evaluate).value])
  {
    assert triangles[..i + 1][..i] == triangles[..i];
  }

  lemma NodeTotalStep(j: int, triangles: seq<Triangle>, i: nat, prefix: seq<Vec3>, e: Vec3)
    requires i < |triangles| && |prefix| == i
    ensures NodeTotal(j, triangles[..i + 1], prefix + [e])
         == NodeTotal(j, triangles[..i], prefix) + Share(triangles[i], e, j)
  {
    assert triangles[..i + 1][..i] == triangles[..i];
    assert (prefix + [e])[..i] == prefix;
  }

  /** Triangles are independent: the total over a mesh split in two parts is the
      sum of the totals over the parts. */
  lemma {:induction false} NodeTotalAppend(j: int, t1: seq<Triangle>, c1: seq<Vec3>,
                                           t2: seq<Triangle>, c2: seq<Vec3>)
    requires |t1| == |c1| && |t2| == |c2|
    ensures NodeTotal(j, t1 + t2, c1 + c2) == NodeTotal(j, t1, c1) + NodeTotal(j, t2, c2)
    decreases |t2|
  {
    if t2 == [] {
      assert t1 + t2 == t1 && c1 + c2 == c1;
    } else {
      var n := |t2| - 1;
      assert (t1 + t2)[..|t1| + n] == t1 + t2[..n];
      assert (c1 + c2)[..|c1| + n] == c1 + c2[..n];
      NodeTotalAppend(j, t1, c1, t2[..n], c2[..n]);
    }
  }

  /** The order in which the triangles are visited does not matter: exchanging
      two consecutive blocks of the mesh leaves every node's total unchanged. */
  lemma NodeTotalOrderIndependent(j: int, t1: seq<Triangle>, c1: seq<Vec3>,
                                  t2: seq<Triangle>, c2: seq<Vec3>)
    requires |t1| == |c1| && |t2| == |c2|
    ensures NodeTotal(j, t1 + t2, c1 + c2) == NodeTotal(j, t2 + t1, c2 + c1)
  {
    NodeTotalAppend(j, t1, c1, t2, c2);
    NodeTotalAppend(j, t2, c2, t1, c1);
  }

  /** Exchanging two neighbouring triangles anywhere in the mesh leaves every
      node's total unchanged; since such exchanges reach every visiting order,
      the order of the mesh does not matter. */
  lemma NodeTotalSwapAdjacent(j: int, before: seq<Triangle>, cb: seq<Vec3>, x: Triangle, ex: Vec3,
                              y: Triangle, ey: Vec3, after: seq<Triangle>, ca: seq<Vec3>)
    requires |before| == |cb| && |after| == |ca|
    ensures NodeTotal(j, before + [x, y] + after, cb + [ex, ey] + ca)
         == NodeTotal(j, before + [y, x] + after, cb + [ey, ex] + ca)
  {
    NodeTotalAppend(j, before + [x, y], cb + [ex, ey], after, ca);
    NodeTotalAppend(j, before + [y, x], cb + [ey, ex], after, ca);
    NodeTotalAppend(j, before, cb, [x, y], [ex, ey]);
    NodeTotalAppend(j, before, cb, [y, x], [ey, ex]);
    assert [x] + [y] == [x, y] && [ex] + [ey] == [ex, ey];
    assert [y] + [x] == [y, x] && [ey] + [ex] == [ey, ex];
    NodeTotalOrderIndependent(j, [x], [ex], [y], [ey]);
  }

  predicate Mentions(t: Triangle, j: int)
  {
    t.i0 == j || t.i1 == j || t.i2 == j
  }

  /** A node that no triangle names keeps the value zero it started with. */
  lemma {:induction false} UnreferencedNodeIsZero(j: int, triangles: seq<Triangle>,
                                                  contributions: seq<Vec3>)
    requires |triangles| == |contributions|
    requires forall i :: 0 <= i < |triangles| ==> !Mentions(triangles[i], j)
    ensures NodeTotal(j, triangles, contributions) == 0.0
    decreases |triangles|
  {
    if triangles != [] {
      var n := |triangles| - 1;
      UnreferencedNodeIsZero(j, triangles[..n], contributions[..n]);
    }
  }

  /** A node's total only changes through triangles that name it. */
  lemma {:induction false} NodeTotalOnlyFromMentioningTriangles(j: int, triangles: seq<Triangle>,
                                                                contributions: seq<Vec3>, i: int)
    requires |triangles| == |contributions|
    requires 0 <= i < |triangles| && !Mentions(triangles[i], j)
    ensures NodeTotal(j, triangles, contributions)
         == NodeTotal(j, triangles[..i] + triangles[i + 1..], contributions[..i] + contributions[i + 1..])
  {
    assert triangles == triangles[..i] + [triangles[i]] + triangles[i + 1..];
    assert contributions == contributions[..i] + [contributions[i]] + contributions[i + 1..];
    NodeTotalAppend(j, triangles[..i] + [triangles[i]], contributions[..i] + [contributions[i]],
                    triangles[i + 1..], contributions[i + 1..]);
    NodeTotalAppend(j, triangles[..i], contributions[..i], [triangles[i]], [contributions[i]]);
    NodeTotalAppend(j, triangles[..i], contributions[..i], triangles[i + 1..], contributions[i + 1..]);
    assert NodeTotal(j, [triangles[i]], [contributions[i]]) == 0.0 by {
      assert [triangles[i]][..0] == [];
    }
  }

  /** A triangle that names one node twice adds both contributions to it. */
  lemma RepeatedIndexAccumulates(j: int, m: int, e: Vec3)
    requires j != m
    ensures NodeTotal(j, [Triangle(j, j, m)], [e]) == e.x + e.y
    ensures NodeTotal(j, [Triangle(j, m, j)], [e]) == e.x + e.z
    ensures NodeTotal(j, [Triangle(m, j, j)], [e]) == e.y + e.z
    ensures NodeTotal(j, [Triangle(j, j, j)], [e]) == e.x + e.y + e.z
  {
  }

  /** Two triangles sharing the edge 0–2, as in a unit square split along its
      diagonal: the shared nodes receive a contribution from each triangle, the
      other two nodes from one only. */
  lemma SharedEdgeRow(e1: Vec3, e2: Vec3)
    ensures var ts := [Triangle(0, 1, 2), Triangle(0, 2, 3)];
            NodeTotal(0, ts, [e1, e2]) == e1.x + e2.x &&
            NodeTotal(1, ts, [e1, e2]) == e1.y &&
            NodeTotal(2, ts, [e1, e2]) == e1.z + e2.y &&
            NodeTotal(3, ts, [e1, e2]) == e2.z
  {
  }
}
