/**
 * The element centre (`find_element_center`): an element must have exactly
 * four node ids after deduplication; each id i selects `nodes[i - 1]` by
 * POSITION in the node list (the stored node id is not consulted), and the
 * centre is the componentwise mean of the four coordinate triples.
 */
module Centroid {
  import opened Wrappers
  import opened MeshParser

  datatype Point = Point(x: real, y: real, z: real)

  /** `ValueError` (not four node ids) is caught by the caller;
      `IndexError` (an id outside 1-len..len, which `nodes[id - 1]` cannot
      index) is not. */
  datatype CenterError = WrongVertexCount | NodeIndexError

  /** An id that `nodes[id - 1]` resolves without raising. */
  predicate Resolvable(nodes: seq<Node>, id: int)
  {
    1 - |nodes| <= id <= |nodes|
  }

  /** `nodes[id - 1]` with Python's list indexing: a negative index counts
      from the end, so id 0 names the last node. */
  function NodeAt(nodes: seq<Node>, id: int): (r: Option<Node>)
    ensures r.Some? <==> Resolvable(nodes, id)
    ensures r.Some? ==> r.value == if id >= 1 then nodes[id - 1] else nodes[|nodes| + id - 1]
  {
    var i := id - 1;
    if 0 <= i < |nodes| then Some(nodes[i])
    else if -|nodes| <= i < 0 then Some(nodes[|nodes| + i])
    else None
  }

  /** `nodes[i - 1][1:4]`: the coordinates of a node record. */
  function Position(n: Node): Point
  {
    Point(n.x, n.y, n.z)
  }

  function Add(p: Point, q: Point): Point
  {
    Point(p.x + q.x, p.y + q.y, p.z + q.z)
  }

  /** The componentwise sum of the coordinates of the nodes the ids select. */
  function PositionSum(ids: seq<int>, nodes: seq<Node>): Point
    requires forall id :: id in ids ==> Resolvable(nodes, id)
  {
    if ids == [] then Point(0.0, 0.0, 0.0)
    else Add(Position(NodeAt(nodes, ids[0]).value), PositionSum(ids[1..], nodes))
  }

  function FindElementCenter(e: Element, nodes: seq<Node>): (r: Result<Point, CenterError>)
    ensures r == Failure(WrongVertexCount) <==> |e.nodeIds| != 4
    ensures r == Failure(NodeIndexError) <==>
      |e.nodeIds| == 4 && exists id :: id in e.nodeIds && !Resolvable(nodes, id)
    ensures |e.nodeIds| == 4 && (forall k :: 0 <= k < 4 ==> 1 <= e.nodeIds[k] <= |nodes|) ==>
      var a, b, c, d := nodes[e.nodeIds[0] - 1], nodes[e.nodeIds[1] - 1], nodes[e.nodeIds[2] - 1], nodes[e.nodeIds[3] - 1];
      r == Success(Point((a.x + b.x + c.x + d.x) / 4.0, (a.y + b.y + c.y + d.y) / 4.0, (a.z + b.z + c.z + d.z) / 4.0))
    ensures |e.nodeIds| == 4 && (forall id :: id in e.nodeIds ==> Resolvable(nodes, id)) ==>
      var a, b := Position(NodeAt(nodes, e.nodeIds[0]).value), Position(NodeAt(nodes, e.nodeIds[1]).value);
      var c, d := Position(NodeAt(nodes, e.nodeIds[2]).value), Position(NodeAt(nodes, e.nodeIds[3]).value);
      r == Success(Point((a.x + b.x + c.x + d.x) / 4.0, (a.y + b.y + c.y + d.y) / 4.0, (a.z + b.z + c.z + d.z) / 4.0))
  {
    var ids := e.nodeIds;
    if |ids| != 4 then Failure(WrongVertexCount)
    else if exists id :: id in ids && !Resolvable(nodes, id) then Failure(NodeIndexError)
    else
      var s := PositionSum(ids, nodes);
      PositionSumOfFour(ids, nodes);
      Success(Point(s.x / 4.0, s.y / 4.0, s.z / 4.0))
  }

  /** The sum over four ids, written out. */
  lemma PositionSumOfFour(ids: seq<int>, nodes: seq<Node>)
    requires |ids| == 4 && forall id :: id in ids ==> Resolvable(nodes, id)
    ensures PositionSum(ids, nodes) ==
      Add(Position(NodeAt(nodes, ids[0]).value), Add(Position(NodeAt(nodes, ids[1]).value),
        Add(Position(NodeAt(nodes, ids[2]).value), Position(NodeAt(nodes, ids[3]).value))))
  {
    var t1 := ids[1..];
    var t2 := t1[1..];
    var t3 := t2[1..];
    assert t3[1..] == [];
    assert PositionSum(t3, nodes) == Position(NodeAt(nodes, ids[3]).value);
    assert PositionSum(t2, nodes) == Add(Position(NodeAt(nodes, ids[2]).value), PositionSum(t3, nodes));
    assert PositionSum(t1, nodes) == Add(Position(NodeAt(nodes, ids[1]).value), PositionSum(t2, nodes));
  }

  /** Splitting the id list splits the sum. */
  lemma {:induction false} PositionSumConcat(a: seq<int>, b: seq<int>, nodes: seq<Node>)
    requires forall id :: id in a + b ==> Resolvable(nodes, id)
    ensures PositionSum(a + b, nodes) == Add(PositionSum(a, nodes), PositionSum(b, nodes))
  {
    if a == [] {
      assert a + b == b;
    } else {
      assert (a + b)[1..] == a[1..] + b;
      PositionSumConcat(a[1..], b, nodes);
    }
  }

  /** Removing the element at position j removes one copy of it from the multiset. */
  lemma MultisetRemoveAt(b: seq<int>, j: nat)
    requires j < |b|
    ensures multiset(b[..j] + b[j + 1..]) == multiset(b) - multiset{b[j]}
  {
    assert b == b[..j] + [b[j]] + b[j + 1..];
  }

  /** Moving one id to the front does not change the sum. */
  lemma PositionSumMoveToFront(left: seq<int>, x: int, right: seq<int>, nodes: seq<Node>)
    requires forall id :: id in left + [x] + right ==> Resolvable(nodes, id)
    ensures forall id :: id in [x] + (left + right) ==> Resolvable(nodes, id)
    ensures PositionSum(left + [x] + right, nodes) == PositionSum([x] + (left + right), nodes)
  {
    assert left + [x] + right == left + ([x] + right);
    PositionSumConcat(left, [x] + right, nodes);
    PositionSumConcat(left, right, nodes);
    assert ([x] + right)[1..] == right;
    assert ([x] + (left + right))[1..] == left + right;
  }

  /** The sum does not depend on the order of the ids. */
  lemma {:induction false} PositionSumPermutation(a: seq<int>, b: seq<int>, nodes: seq<Node>)
    requires multiset(a) == multiset(b)
    requires forall id :: id in a ==> Resolvable(nodes, id)
    requires forall id :: id in b ==> Resolvable(nodes, id)
    ensures PositionSum(a, nodes) == PositionSum(b, nodes)
  {
    if a == [] {
      assert |b| == |multiset(b)| == 0;
    } else {
      var x := a[0];
      assert x in multiset(b);
      var j :| 0 <= j < |b| && b[j] == x;
      var left, right := b[..j], b[j + 1..];
      assert b == left + [x] + right;
      assert multiset(a[1..]) == multiset(left + right) by {
        MultisetRemoveAt(b, j);
        MultisetRemoveAt(a, 0);
        assert a[..0] + a[1..] == a[1..];
      }
      assert forall id :: id in left + right ==> id in b;
      PositionSumPermutation(a[1..], left + right, nodes);
      PositionSumMoveToFront(left, x, right, nodes);
      assert a == [x] + a[1..];
    }
  }

  /** Listing the same node ids in another order gives the same centre
      (or the same error). */
  lemma CenterIgnoresIdOrder(e1: Element, e2: Element, nodes: seq<Node>)
    requires multiset(e1.nodeIds) == multiset(e2.nodeIds)
    ensures FindElementCenter(e1, nodes) == FindElementCenter(e2, nodes)
  {
    assert |e1.nodeIds| == |multiset(e1.nodeIds)| == |e2.nodeIds|;
    assert forall id :: id in e1.nodeIds <==> id in e2.nodeIds by {
      assert forall id :: id in e1.nodeIds <==> id in multiset(e1.nodeIds);
    }
    if |e1.nodeIds| == 4 && forall id :: id in e1.nodeIds ==> Resolvable(nodes, id) {
      PositionSumPermutation(e1.nodeIds, e2.nodeIds, nodes);
    }
  }
}
