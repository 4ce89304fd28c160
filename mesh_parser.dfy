/**
 * The mesh text reader (`read_mesh_file`): a header with the node and element
 * counts, the node records `id x y z`, one discarded line, then the element
 * records whose field 10 is the element id and fields 11..18 its node ids.
 *
 * The file is given already split into lines of whitespace-separated tokens.
 * What Python's `int()` and `float()` make of a token is carried by the token
 * itself, so the conversion stays abstract while its failures are modelled.
 */
module MeshParser {
  import opened Wrappers

  /** One whitespace-separated field, with the value `int()` and the value
      `float()` give for its text (`None` where the conversion raises). */
  datatype Token = Token(asInt: Option<int>, asFloat: Option<real>)

  type Line = seq<Token>

  /** A node record `(node_id, x, y, z)`. */
  datatype Node = Node(id: int, x: real, y: real, z: real)

  /** An element record `(element_id, node_ids)`. */
  datatype Element = Element(id: int, nodeIds: seq<int>)

  /** What `read_mesh_file` returns: the two header counts and the two lists. */
  datatype Mesh = Mesh(numNodes: int, numElements: int, nodes: seq<Node>, elements: seq<Element>)

  /** The Python exception that aborts the reader, and the 0-based line it came from. */
  datatype ErrorKind = IndexError | ValueError
  datatype ParseError = ParseError(kind: ErrorKind, line: nat)

  /** The k-th line; reading past the end of the file yields an empty line. */
  function LineAt(lines: seq<Line>, k: nat): Line
  {
    if k < |lines| then lines[k] else []
  }

  /** The number of iterations of `range(n)`, which is empty for negative n. */
  function Count(n: int): nat
  {
    if n < 0 then 0 else n
  }

  /** The line holding node record k (the header is line 0). */
  function NodeLine(lines: seq<Line>, k: nat): Line
  {
    LineAt(lines, 1 + k)
  }

  /** The line that is read and discarded when the header declares n nodes. */
  function SeparatorIndex(n: int): nat
  {
    1 + Count(n)
  }

  /** The line holding element record k when the header declares n nodes. */
  function ElementLine(lines: seq<Line>, n: int, k: nat): Line
  {
    LineAt(lines, SeparatorIndex(n) + 1 + k)
  }

  /** `num_nodes, num_elements = map(int, line)`: exactly two integer tokens. */
  function ParseHeader(t: Line): (r: Result<(int, int), ErrorKind>)
    ensures r.Success? <==> |t| == 2 && t[0].asInt.Some? && t[1].asInt.Some?
    ensures r.Success? ==> t[0].asInt == Some(r.value.0) && t[1].asInt == Some(r.value.1)
    ensures r.Failure? ==> r.error == ValueError
  {
    if |t| == 2 && t[0].asInt.Some? && t[1].asInt.Some? then
      Success((t[0].asInt.value, t[1].asInt.value))
    else
      Failure(ValueError)
  }

  /** `int(line[0])` then `x, y, z = map(float, line[1:4])`. */
  function ParseNodeLine(t: Line): (r: Result<Node, ErrorKind>)
    ensures r == Failure(IndexError) <==> |t| == 0
    ensures r.Success? <==> |t| >= 4 && t[0].asInt.Some? && forall j :: 1 <= j < 4 ==> t[j].asFloat.Some?
    ensures r.Success? ==>
      && t[0].asInt == Some(r.value.id)
      && t[1].asFloat == Some(r.value.x) && t[2].asFloat == Some(r.value.y) && t[3].asFloat == Some(r.value.z)
  {
    if |t| == 0 then Failure(IndexError)
    else if t[0].asInt.None? || |t| < 4 then Failure(ValueError)
    else if t[1].asFloat.None? || t[2].asFloat.None? || t[3].asFloat.None? then Failure(ValueError)
    else Success(Node(t[0].asInt.value, t[1].asFloat.value, t[2].asFloat.value, t[3].asFloat.value))
  }

  /** `map(int, ts)`, failing if any token is not an integer. */
  function Ints(ts: seq<Token>): (r: Option<seq<int>>)
    ensures r.Some? <==> forall i :: 0 <= i < |ts| ==> ts[i].asInt.Some?
    ensures r.Some? ==> |r.value| == |ts| && forall i :: 0 <= i < |ts| ==> ts[i].asInt == Some(r.value[i])
  {
    if ts == [] then Some([])
    else if ts[0].asInt.None? then None
    else match Ints(ts[1..])
      case None => None
      case Some(rest) => Some([ts[0].asInt.value] + rest)
  }

  /** `line[11:19]`: Python slicing stops early on a line shorter than 19 tokens. */
  function IdTokens(t: Line): (f: seq<Token>)
    requires |t| >= 11
    ensures |f| == (if |t| < 19 then |t| else 19) - 11
    ensures forall j :: 0 <= j < |f| ==> f[j] == t[11 + j]
  {
    t[11..if |t| < 19 then |t| else 19]
  }

  /** No value occurs twice. */
  predicate NoDuplicates(xs: seq<int>)
  {
    forall i, j :: 0 <= i < j < |xs| ==> xs[i] != xs[j]
  }

  /** The position of the first occurrence of x in xs. */
  function FirstIndex(xs: seq<int>, x: int): (r: nat)
    requires x in xs
    ensures r < |xs| && xs[r] == x && x !in xs[..r]
  {
    var init := xs[..|xs| - 1];
    if x in init then
      var r := FirstIndex(init, x);
      assert xs[..r] == init[..r];
      r
    else
      assert xs == init + [xs[|xs| - 1]];
      |xs| - 1
  }

  /** `list(dict.fromkeys(xs))`: each key is inserted when first met and
      later repeats leave the dictionary unchanged. */
  function Dedup(xs: seq<int>): (r: seq<int>)
    ensures NoDuplicates(r)
    ensures forall x :: x in r <==> x in xs
    ensures |r| <= |xs|
  {
    if xs == [] then []
    else
      var init := xs[..|xs| - 1];
      var x := xs[|xs| - 1];
      var r := Dedup(init);
      assert xs == init + [x];
      if x in r then r else r + [x]
  }

  /** `element_id = int(line[10])`, then the node ids `map(int, line[11:19])`
      with repeats removed. */
  function ParseElementLine(t: Line): (r: Result<Element, ErrorKind>)
    ensures r == Failure(IndexError) <==> |t| < 11
    ensures r.Success? <==> |t| >= 11 && t[10].asInt.Some? && forall j :: 11 <= j < |t| && j < 19 ==> t[j].asInt.Some?
    ensures r.Success? ==> t[10].asInt == Some(r.value.id)
    ensures r.Success? ==> |r.value.nodeIds| <= 8 && NoDuplicates(r.value.nodeIds)
    ensures r.Success? ==> forall v :: v in r.value.nodeIds <==> exists j :: 11 <= j < |t| && j < 19 && t[j].asInt == Some(v)
    ensures r.Success? ==> Ints(IdTokens(t)).Some? && r.value.nodeIds == Dedup(Ints(IdTokens(t)).value)
  {
    if |t| < 11 then Failure(IndexError)
    else if t[10].asInt.None? then Failure(ValueError)
    else
      var f := IdTokens(t);
      match Ints(f)
      case None =>
        var i :| 0 <= i < |f| && f[i].asInt.None?;
        assert t[11 + i].asInt.None?;
        Failure(ValueError)
      case Some(ids) =>
        assert forall v :: v in ids <==> exists j :: 11 <= j < |t| && j < 19 && t[j].asInt == Some(v) by {
          forall v ensures v in ids <==> exists j :: 11 <= j < |t| && j < 19 && t[j].asInt == Some(v) {
            if v in ids {
              var i :| 0 <= i < |ids| && ids[i] == v;
              assert t[11 + i].asInt == Some(v);
            }
            if exists j :: 11 <= j < |t| && j < 19 && t[j].asInt == Some(v) {
              var j :| 11 <= j < |t| && j < 19 && t[j].asInt == Some(v);
              assert f[j - 11] == t[j];
              assert ids[j - 11] == v;
            }
          }
        }
        assert forall j :: 11 <= j < |t| && j < 19 ==> t[j].asInt.Some? by {
          forall j | 11 <= j < |t| && j < 19 ensures t[j].asInt.Some? {
            assert f[j - 11] == t[j];
          }
        }
        Success(Element(t[10].asInt.value, Dedup(ids)))
  }

  /** The header parses, every declared node line parses and every declared
      element line parses: the reader returns normally. */
  ghost predicate WellFormed(lines: seq<Line>)
  {
    var h := ParseHeader(LineAt(lines, 0));
    && h.Success?
    && (forall k :: 0 <= k < Count(h.value.0) ==> ParseNodeLine(NodeLine(lines, k)).Success?)
    && (forall k :: 0 <= k < Count(h.value.1) ==> ParseElementLine(ElementLine(lines, h.value.0, k)).Success?)
  }

  /** e is the exception raised by the first line, in reading order, that does not parse. */
  ghost predicate FailsFirstAt(lines: seq<Line>, e: ParseError)
  {
    var h := ParseHeader(LineAt(lines, 0));
    if h.Failure? then e == ParseError(h.error, 0)
    else
      var (n, m) := h.value;
      || (&& 1 <= e.line <= Count(n)
          && ParseNodeLine(NodeLine(lines, e.line - 1)) == Failure(e.kind)
          && forall k :: 0 <= k < e.line - 1 ==> ParseNodeLine(NodeLine(lines, k)).Success?)
      || (&& SeparatorIndex(n) + 1 <= e.line < SeparatorIndex(n) + 1 + Count(m)
          && (forall k :: 0 <= k < Count(n) ==> ParseNodeLine(NodeLine(lines, k)).Success?)
          && ParseElementLine(ElementLine(lines, n, e.line - SeparatorIndex(n) - 1)) == Failure(e.kind)
          && forall k :: 0 <= k < e.line - SeparatorIndex(n) - 1 ==> ParseElementLine(ElementLine(lines, n, k)).Success?)
  }

  /** Reads the mesh line by line with a cursor, as `read_mesh_file` does with `readline`. */
  method ReadMeshFile(lines: seq<Line>) returns (r: Result<Mesh, ParseError>)
    ensures r.Success? <==> WellFormed(lines)
    ensures r.Failure? ==> FailsFirstAt(lines, r.error)
    ensures r.Success? ==>
      var (n, m) := ParseHeader(LineAt(lines, 0)).value;
      && r.value.numNodes == n && r.value.numElements == m
      && |r.value.nodes| == Count(n) && |r.value.elements| == Count(m)
      && (forall k :: 0 <= k < Count(n) ==> ParseNodeLine(NodeLine(lines, k)) == Success(r.value.nodes[k]))
      && (forall k :: 0 <= k < Count(m) ==> ParseElementLine(ElementLine(lines, n, k)) == Success(r.value.elements[k]))
  {
    var cursor := 0;
    var header := ParseHeader(LineAt(lines, cursor));
    cursor := cursor + 1;
    if header.Failure? {
      return Failure(ParseError(header.error, 0));
    }
    var (numNodes, numElements) := header.value;

    var nodes: seq<Node> := [];
    for k := 0 to Count(numNodes)
      invariant cursor == 1 + k
      invariant |nodes| == k
      invariant forall j :: 0 <= j < k ==> ParseNodeLine(NodeLine(lines, j)) == Success(nodes[j])
    {
      assert NodeLine(lines, k) == LineAt(lines, cursor);
      var node := ParseNodeLine(LineAt(lines, cursor));
      if node.Failure? {
        return Failure(ParseError(node.error, cursor));
      }
      nodes := nodes + [node.value];
      cursor := cursor + 1;
    }

    // The line after the node block is read and its content ignored.
    cursor := cursor + 1;

    var elements: seq<Element> := [];
    for k := 0 to Count(numElements)
      invariant cursor == SeparatorIndex(numNodes) + 1 + k
      invariant |elements| == k
      invariant forall j :: 0 <= j < k ==> ParseElementLine(ElementLine(lines, numNodes, j)) == Success(elements[j])
    {
      assert ElementLine(lines, numNodes, k) == LineAt(lines, cursor);
      var element := ParseElementLine(LineAt(lines, cursor));
      if element.Failure? {
        return Failure(ParseError(element.error, cursor));
      }
      elements := elements + [element.value];
      cursor := cursor + 1;
    }

    return Success(Mesh(numNodes, numElements, nodes, elements));
  }

  /** Dedup keeps the surviving values in the order of their first occurrence. */
  lemma {:induction false} DedupKeepsFirstOccurrenceOrder(xs: seq<int>)
    ensures forall i, j :: 0 <= i < j < |Dedup(xs)| ==> FirstIndex(xs, Dedup(xs)[i]) < FirstIndex(xs, Dedup(xs)[j])
  {
    if xs != [] {
      var init := xs[..|xs| - 1];
      var x := xs[|xs| - 1];
      var r := Dedup(init);
      DedupKeepsFirstOccurrenceOrder(init);
      assert xs == init + [x];
      forall v | v in init ensures FirstIndex(xs, v) == FirstIndex(init, v) {
        FirstIndexOfPrefix(init, x, v);
      }
      if x !in r {
        assert FirstIndex(xs, x) == |xs| - 1;
        assert Dedup(xs) == r + [x];
      }
    }
  }

  /** Appending a value does not move the first occurrence of any earlier value. */
  lemma FirstIndexOfPrefix(init: seq<int>, x: int, v: int)
    requires v in init
    ensures FirstIndex(init + [x], v) == FirstIndex(init, v)
  {
  }

  /** A list that already has no repeats comes back unchanged. */
  lemma {:induction false} DedupOfDistinct(xs: seq<int>)
    requires NoDuplicates(xs)
    ensures Dedup(xs) == xs
  {
    if xs != [] {
      var init := xs[..|xs| - 1];
      assert NoDuplicates(init);
      DedupOfDistinct(init);
      assert xs[|xs| - 1] !in init;
      assert xs == init + [xs[|xs| - 1]];
    }
  }

  /** The line between the node block and the element block is read and
      ignored: replacing it changes neither the outcome nor any record. */
  lemma SeparatorLineIsIgnored(lines: seq<Line>, other: Line)
    requires ParseHeader(LineAt(lines, 0)).Success?
    requires SeparatorIndex(ParseHeader(LineAt(lines, 0)).value.0) < |lines|
    ensures var n := ParseHeader(LineAt(lines, 0)).value.0;
      var edited := lines[SeparatorIndex(n) := other];
      && ParseHeader(LineAt(edited, 0)) == ParseHeader(LineAt(lines, 0))
      && (WellFormed(edited) <==> WellFormed(lines))
      && (forall e :: FailsFirstAt(edited, e) <==> FailsFirstAt(lines, e))
      && (forall k :: 0 <= k < Count(n) ==> NodeLine(edited, k) == NodeLine(lines, k))
      && (forall k :: ElementLine(edited, n, k) == ElementLine(lines, n, k))
  {
    var n := ParseHeader(LineAt(lines, 0)).value.0;
    var edited := lines[SeparatorIndex(n) := other];
    assert LineAt(edited, 0) == LineAt(lines, 0);
    forall k | 0 <= k < Count(n) ensures NodeLine(edited, k) == NodeLine(lines, k) {
    }
    forall k: nat ensures ElementLine(edited, n, k) == ElementLine(lines, n, k) {
    }
  }
}
