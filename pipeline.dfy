/**
 * The assignment run: one index per cluster (absent for an empty point
 * set), `process_element` over every element in submission order, and the
 * final filter that drops the elements without an assignment.
 *
 * The worker pool is modelled as a sequential map: `Pool.map` returns the
 * results in submission order, and an exception raised by any task is
 * raised again by `Pool.map`, which ends the run.
 */
module Pipeline {
  import opened Wrappers
  import opened MeshParser
  import opened Centroid
  import opened Assignment

  /** The only way the assignment phase itself ends the run. */
  datatype RunError = NodeIndexOutOfRange

  /** `[KDTree(v) if len(v) > 0 else None for v in all_vertices]`. */
  function BuildIndex(vertexSets: seq<seq<Point>>): (trees: seq<Option<Cluster>>)
    ensures |trees| == |vertexSets|
    ensures forall i :: 0 <= i < |trees| ==> (trees[i].None? <==> vertexSets[i] == [])
    ensures forall i :: 0 <= i < |trees| && trees[i].Some? ==> trees[i].value == vertexSets[i]
  {
    seq(|vertexSets|, i requires 0 <= i < |vertexSets| =>
      if |vertexSets[i]| > 0 then Some(vertexSets[i]) else None)
  }

  /** `pool.map(process_element, ...)`, one task per element, in order; an
      `IndexError` raised by a task is raised again and ends the map. */
  method MapElements(elements: seq<Element>, nodes: seq<Node>, trees: seq<Option<Cluster>>, nearest: Query)
    returns (r: Result<seq<Outcome>, RunError>)
    ensures r.Failure? <==> exists k :: 0 <= k < |elements| && Process(elements[k], nodes, trees, nearest).IndexFailure?
    ensures r.Success? ==> r.value == Outcomes(elements, nodes, trees, nearest)
  {
    var outs := [];
    for k := 0 to |elements|
      invariant outs == Outcomes(elements[..k], nodes, trees, nearest)
      invariant forall j :: 0 <= j < k ==> !Process(elements[j], nodes, trees, nearest).IndexFailure?
    {
      var out := ProcessElement(elements[k], nodes, trees, nearest);
      if out.IndexFailure? {
        return Failure(NodeIndexOutOfRange);
      }
      outs := outs + [out];
    }
    assert elements[..|elements|] == elements;
    return Success(outs);
  }

  /** `[r for r in results if r is not None]`. */
  function DropNone(outs: seq<Outcome>): (r: seq<Assignment>)
    ensures |r| <= |outs|
    ensures forall a :: a in r <==> Assigned(a) in outs
  {
    if outs == [] then []
    else
      var rest := DropNone(outs[1..]);
      assert forall a :: Assigned(a) in outs <==> Assigned(a) == outs[0] || Assigned(a) in outs[1..] by {
        assert outs == [outs[0]] + outs[1..];
      }
      if outs[0].Assigned? then [outs[0].assignment] + rest else rest
  }

  /** The filter works piecewise: it keeps an assignment and drops anything else. */
  lemma {:induction false} DropNoneConcat(xs: seq<Outcome>, ys: seq<Outcome>)
    ensures DropNone(xs + ys) == DropNone(xs) + DropNone(ys)
  {
    if xs == [] {
      assert xs + ys == ys;
    } else {
      assert (xs + ys)[1..] == xs[1..] + ys;
      DropNoneConcat(xs[1..], ys);
    }
  }

  /** The positions of the results that carry an assignment. */
  function AssignedPositions(outs: seq<Outcome>): (p: seq<nat>)
    ensures forall i :: 0 <= i < |p| ==> p[i] < |outs|
  {
    if outs == [] then []
    else
      var rest := AssignedPositions(outs[1..]);
      var shifted := seq(|rest|, i requires 0 <= i < |rest| => rest[i] + 1);
      if outs[0].Assigned? then [0] + shifted else shifted
  }

  /** The positions of the assigned results increase, and every assigned
      result's position is among them. */
  lemma {:induction false} AssignedPositionsIncrease(outs: seq<Outcome>)
    ensures forall i, j :: 0 <= i < j < |AssignedPositions(outs)| ==>
      AssignedPositions(outs)[i] < AssignedPositions(outs)[j]
    ensures forall k :: 0 <= k < |outs| && outs[k].Assigned? ==> k in AssignedPositions(outs)
  {
    if outs != [] {
      var tail := outs[1..];
      AssignedPositionsIncrease(tail);
      var rest := AssignedPositions(tail);
      var shifted := seq(|rest|, i requires 0 <= i < |rest| => rest[i] + 1);
      forall k | 1 <= k < |outs| && outs[k].Assigned? ensures k in shifted {
        assert tail[k - 1] == outs[k];
        var i :| 0 <= i < |rest| && rest[i] == k - 1;
        assert shifted[i] == k;
      }
    }
  }

  /** The i-th survivor of the filter is the result at the i-th assigned position. */
  lemma {:induction false} DropNoneTakesAssignedPositions(outs: seq<Outcome>)
    ensures |AssignedPositions(outs)| == |DropNone(outs)|
    ensures forall i :: 0 <= i < |DropNone(outs)| ==>
      outs[AssignedPositions(outs)[i]] == Assigned(DropNone(outs)[i])
  {
    if outs != [] {
      var tail := outs[1..];
      DropNoneTakesAssignedPositions(tail);
      var rest, kept := AssignedPositions(tail), DropNone(tail);
      var shifted := seq(|rest|, i requires 0 <= i < |rest| => rest[i] + 1);
      forall i | 0 <= i < |rest| ensures outs[shifted[i]] == Assigned(kept[i]) {
        assert outs[rest[i] + 1] == tail[rest[i]];
      }
      if outs[0].Assigned? {
        var p, r := [0] + shifted, [outs[0].assignment] + kept;
        assert AssignedPositions(outs) == p && DropNone(outs) == r;
        forall i | 0 <= i < |r| ensures outs[p[i]] == Assigned(r[i]) {
          if i > 0 {
            assert p[i] == shifted[i - 1] && r[i] == kept[i - 1];
          }
        }
      } else {
        assert AssignedPositions(outs) == shifted && DropNone(outs) == kept;
      }
    }
  }

  /** The filtered results are the assigned results, in their original
      order: the i-th survivor comes from position p[i], the positions
      increase, and every assigned result survives. */
  lemma DropNoneIsOrderedSubsequence(outs: seq<Outcome>)
    ensures |AssignedPositions(outs)| == |DropNone(outs)|
    ensures forall i :: 0 <= i < |DropNone(outs)| ==>
      outs[AssignedPositions(outs)[i]] == Assigned(DropNone(outs)[i])
    ensures forall i, j :: 0 <= i < j < |AssignedPositions(outs)| ==>
      AssignedPositions(outs)[i] < AssignedPositions(outs)[j]
    ensures forall k :: 0 <= k < |outs| && outs[k].Assigned? ==> k in AssignedPositions(outs)
  {
    AssignedPositionsIncrease(outs);
    DropNoneTakesAssignedPositions(outs);
  }

  /** The per-element results of the whole run, in element order. */
  function Outcomes(elements: seq<Element>, nodes: seq<Node>, trees: seq<Option<Cluster>>, nearest: Query): seq<Outcome>
  {
    seq(|elements|, k requires 0 <= k < |elements| => Process(elements[k], nodes, trees, nearest))
  }

  /** The assignment phase of the run (Read.py lines 127-142): stop with no
      assignments when there is no cluster, else index the clusters, process
      every element and drop the elements without an assignment. */
  function Run(elements: seq<Element>, nodes: seq<Node>, vertexSets: seq<seq<Point>>, nearest: Query): (r: Result<seq<Assignment>, RunError>)
    ensures |vertexSets| == 0 ==> r == Success([])
    ensures r.Failure? <==>
      |vertexSets| > 0 &&
      exists k :: 0 <= k < |elements| && |elements[k].nodeIds| == 4 &&
        exists id :: id in elements[k].nodeIds && !Resolvable(nodes, id)
    ensures r.Success? ==> |r.value| <= |elements|
  {
    if |vertexSets| == 0 then Success([])
    else
      var trees := BuildIndex(vertexSets);
      if exists k :: 0 <= k < |elements| && Process(elements[k], nodes, trees, nearest).IndexFailure? then
        Failure(NodeIndexOutOfRange)
      else
        Success(DropNone(Outcomes(elements, nodes, trees, nearest)))
  }

  /** The assignment phase as the program runs it. */
  method AssignClusters(elements: seq<Element>, nodes: seq<Node>, vertexSets: seq<seq<Point>>, nearest: Query)
    returns (r: Result<seq<Assignment>, RunError>)
    ensures r == Run(elements, nodes, vertexSets, nearest)
  {
    if |vertexSets| == 0 {
      return Success([]);
    }
    var trees := BuildIndex(vertexSets);
    var results := MapElements(elements, nodes, trees, nearest);
    if results.Failure? {
      return Failure(NodeIndexOutOfRange);
    }
    return Success(DropNone(results.value));
  }

  /** What the run delivers: nothing without clusters; otherwise it fails
      exactly when some element with four node ids has an id outside 1-len..len,
      and on success every assignment belongs to an element of the mesh, names
      a non-empty cluster that is nearest to that element's centre, and there
      are at most as many assignments as elements. */
  lemma RunAssignsNearestNonEmptyClusters(elements: seq<Element>, nodes: seq<Node>, vertexSets: seq<seq<Point>>, nearest: Query)
    ensures |vertexSets| == 0 ==> Run(elements, nodes, vertexSets, nearest) == Success([])
    ensures Run(elements, nodes, vertexSets, nearest).Failure? <==>
      |vertexSets| > 0 &&
      exists k :: 0 <= k < |elements| && |elements[k].nodeIds| == 4 &&
        exists id :: id in elements[k].nodeIds && !Resolvable(nodes, id)
    ensures Run(elements, nodes, vertexSets, nearest).Success? ==>
      |Run(elements, nodes, vertexSets, nearest).value| <= |elements|
    ensures Run(elements, nodes, vertexSets, nearest).Success? ==>
      forall a :: a in Run(elements, nodes, vertexSets, nearest).value ==>
        && 1 <= a.clusterId <= |vertexSets|
        && vertexSets[a.clusterId - 1] != []
        && exists k :: 0 <= k < |elements| && elements[k].id == a.elementId &&
             Process(elements[k], nodes, BuildIndex(vertexSets), nearest) == Assigned(a)
  {
  }

  /** When no element with four node ids has an id outside 1-len..len (one
      that `nodes[id - 1]` cannot index), the run succeeds, and an element with four node ids is assigned as soon as some
      cluster is non-empty. */
  lemma ValidElementIsAssigned(elements: seq<Element>, nodes: seq<Node>, vertexSets: seq<seq<Point>>, nearest: Query, k: nat)
    requires forall j, id :: 0 <= j < |elements| && |elements[j].nodeIds| == 4 && id in elements[j].nodeIds ==> Resolvable(nodes, id)
    requires k < |elements| && |elements[k].nodeIds| == 4
    requires exists i :: 0 <= i < |vertexSets| && vertexSets[i] != []
    ensures Run(elements, nodes, vertexSets, nearest).Success?
    ensures exists a :: a in Run(elements, nodes, vertexSets, nearest).value && a.elementId == elements[k].id
  {
    var trees := BuildIndex(vertexSets);
    var outs := Outcomes(elements, nodes, trees, nearest);
    forall j | 0 <= j < |elements| ensures !Process(elements[j], nodes, trees, nearest).IndexFailure? {
      ProcessPicksNearestPresentCluster(elements[j], nodes, trees, nearest);
    }
    ProcessPicksNearestPresentCluster(elements[k], nodes, trees, nearest);
    var i :| 0 <= i < |vertexSets| && vertexSets[i] != [];
    assert trees[i].Some?;
    assert outs[k].Assigned?;
    assert outs[k].assignment in DropNone(outs);
  }
}
