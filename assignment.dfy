/**
 * Per-element nearest-cluster selection (`process_element`): compute the
 * element centre, then scan the clusters in order keeping a running minimum
 * of the nearest-point distance, skipping absent clusters. The cluster
 * number is its 1-based position among ALL clusters, absent ones included.
 *
 * A cluster's spatial index is represented by its (non-empty) point set and
 * the index query by `nearest`, the distance from a point to the nearest
 * point of the cluster, which the caller supplies.
 */
module Assignment {
  import opened Wrappers
  import opened MeshParser
  import opened Centroid

  /** The point set of a present cluster. */
  type Cluster = seq<Point>

  /** The nearest-neighbour query of a cluster's index. */
  type Query = (Cluster, Point) -> real

  /** `(element_id, cluster_id)` with a 1-based cluster id. */
  datatype Assignment = Assignment(elementId: int, clusterId: int)

  /** What one call of `process_element` does: return an assignment, return
      `None` (wrong vertex count, or no present cluster), or raise
      `IndexError` (a node id that `nodes[id - 1]` cannot index, outside
      1-len..len). */
  datatype Outcome = Assigned(assignment: Assignment) | NoAssignment | IndexFailure

  /** The distance reported by each cluster's index; `None` for an absent cluster. */
  function Distances(trees: seq<Option<Cluster>>, center: Point, nearest: Query): seq<Option<real>>
  {
    seq(|trees|, i requires 0 <= i < |trees| =>
      if trees[i].None? then None else Some(nearest(trees[i].value, center)))
  }

  /** The 1-based position of the first smallest present distance, or -1
      when every entry is absent. */
  function Closest(ds: seq<Option<real>>): (c: int)
    ensures c == -1 <==> forall i :: 0 <= i < |ds| ==> ds[i].None?
    ensures c != -1 ==> 1 <= c <= |ds| && ds[c - 1].Some?
    ensures c != -1 ==> forall j :: 0 <= j < |ds| && ds[j].Some? ==> ds[c - 1].value <= ds[j].value
    ensures c != -1 ==> forall j :: 0 <= j < c - 1 && ds[j].Some? ==> ds[c - 1].value < ds[j].value
  {
    if ds == [] then -1
    else
      var init := ds[..|ds| - 1];
      var c := Closest(init);
      var d := ds[|ds| - 1];
      if d.Some? && (c == -1 || d.value < init[c - 1].value) then |ds| else c
  }

  /** One more step of the scan: the next distance replaces the current
      minimum only when it is present and strictly smaller. */
  lemma ClosestStep(ds: seq<Option<real>>, i: nat)
    requires i < |ds|
    ensures var c := Closest(ds[..i]);
      Closest(ds[..i + 1]) ==
        if ds[i].Some? && (c == -1 || ds[i].value < ds[c - 1].value) then i + 1 else c
  {
    assert ds[..i + 1][..i] == ds[..i];
  }

  /** The two properties of Closest pin it down: any position holding a
      smallest present distance, strictly below every earlier one, is it. */
  lemma ClosestIsUnique(ds: seq<Option<real>>, c: int)
    requires 1 <= c <= |ds| && ds[c - 1].Some?
    requires forall j :: 0 <= j < |ds| && ds[j].Some? ==> ds[c - 1].value <= ds[j].value
    requires forall j :: 0 <= j < c - 1 && ds[j].Some? ==> ds[c - 1].value < ds[j].value
    ensures Closest(ds) == c
  {
  }

  /** The result of `process_element` on one element. */
  function Process(e: Element, nodes: seq<Node>, trees: seq<Option<Cluster>>, nearest: Query): (out: Outcome)
    ensures out.IndexFailure? <==> |e.nodeIds| == 4 && exists id :: id in e.nodeIds && !Resolvable(nodes, id)
    ensures out.NoAssignment? <==>
      |e.nodeIds| != 4 ||
      ((forall id :: id in e.nodeIds ==> Resolvable(nodes, id)) && forall i :: 0 <= i < |trees| ==> trees[i].None?)
    ensures out.Assigned? ==>
      && out.assignment.elementId == e.id
      && 1 <= out.assignment.clusterId <= |trees| && trees[out.assignment.clusterId - 1].Some?
  {
    match FindElementCenter(e, nodes)
    case Failure(WrongVertexCount) => NoAssignment
    case Failure(NodeIndexError) => IndexFailure
    case Success(center) =>
      var ds := Distances(trees, center, nearest);
      assert |ds| == |trees| && forall i :: 0 <= i < |trees| ==> (ds[i].None? <==> trees[i].None?);
      var c := Closest(ds);
      if c == -1 then NoAssignment else Assigned(Assignment(e.id, c))
  }

  /** An element is assigned to a present cluster whose distance to the
      centre is the smallest, the earliest such cluster on a tie; it gets no
      assignment exactly when it does not have four node ids or no cluster is
      present; the run fails on it exactly when a node id is out of range. */
  lemma ProcessPicksNearestPresentCluster(e: Element, nodes: seq<Node>, trees: seq<Option<Cluster>>, nearest: Query)
    ensures Process(e, nodes, trees, nearest).IndexFailure? <==>
      |e.nodeIds| == 4 && exists id :: id in e.nodeIds && !Resolvable(nodes, id)
    ensures Process(e, nodes, trees, nearest).NoAssignment? <==>
      |e.nodeIds| != 4 ||
      (FindElementCenter(e, nodes).Success? && forall i :: 0 <= i < |trees| ==> trees[i].None?)
    ensures Process(e, nodes, trees, nearest).Assigned? ==>
      var a := Process(e, nodes, trees, nearest).assignment;
      var center := FindElementCenter(e, nodes).value;
      && a.elementId == e.id
      && 1 <= a.clusterId <= |trees| && trees[a.clusterId - 1].Some?
      && (forall j :: 0 <= j < |trees| && trees[j].Some? ==>
            nearest(trees[a.clusterId - 1].value, center) <= nearest(trees[j].value, center))
      && (forall j :: 0 <= j < a.clusterId - 1 && trees[j].Some? ==>
            nearest(trees[a.clusterId - 1].value, center) < nearest(trees[j].value, center))
  {
    var r := FindElementCenter(e, nodes);
    if r.Success? {
      var ds := Distances(trees, r.value, nearest);
      var c := Closest(ds);
      if c != -1 {
        forall j | 0 <= j < |trees| && trees[j].Some?
          ensures nearest(trees[c - 1].value, r.value) <= nearest(trees[j].value, r.value)
        {
          assert ds[j].Some?;
        }
        forall j | 0 <= j < c - 1 && trees[j].Some?
          ensures nearest(trees[c - 1].value, r.value) < nearest(trees[j].value, r.value)
        {
          assert ds[j].Some?;
        }
      } else {
        forall i | 0 <= i < |trees| ensures trees[i].None? {
          assert ds[i].None?;
        }
      }
    }
  }

  /** `process_element`: the running-minimum scan over the clusters. */
  method ProcessElement(e: Element, nodes: seq<Node>, trees: seq<Option<Cluster>>, nearest: Query)
    returns (out: Outcome)
    ensures out == Process(e, nodes, trees, nearest)
  {
    var center := FindElementCenter(e, nodes);
    if center.Failure? {
      // ValueError is caught and reported; IndexError propagates.
      return if center.error == WrongVertexCount then NoAssignment else IndexFailure;
    }
    var c := center.value;
    ghost var ds := Distances(trees, c, nearest);
    var minDist: Option<real> := None;  // None plays the role of float('inf')
    var closest := -1;
    for i := 0 to |trees|
      invariant closest == Closest(ds[..i])
      invariant minDist == if closest == -1 then None else ds[closest - 1]
    {
      ClosestStep(ds, i);
      assert ds[i] == if trees[i].None? then None else Some(nearest(trees[i].value, c));
      if trees[i].None? {
        continue;
      }
      var dist := nearest(trees[i].value, c);
      if minDist.None? || dist < minDist.value {
        minDist := Some(dist);
        closest := i + 1;
      }
    }
    assert ds[..|trees|] == ds;
    return if closest != -1 then Assigned(Assignment(e.id, closest)) else NoAssignment;
  }
}
