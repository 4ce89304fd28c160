# Nearest-cluster assignment of tetrahedral mesh elements — a Dafny model

The modelled program (`Read.py`) reads a finite-element mesh from a text file,
computes the centre of every tetrahedral element, and assigns each element to
the point-cloud cluster whose nearest point is closest to that centre. This
project models that pipeline in Dafny and proves its contracts:

- `MeshParser` (`mesh_parser.dfy`) is the mesh reader `read_mesh_file`. It
  reads a header with the node count N and the element count M, then N node
  records `id x y z`, then one discarded line, then M element records. In an
  element record, token 10 is the element id and tokens 11..18 are the node
  ids, with repeats removed as `list(dict.fromkeys(...))` does. The reader
  works over lines that are already split into tokens and advances a line
  cursor, as `readline` does. Reading past the end of the file gives an empty
  line. Each token carries the values `int()` and `float()` give for its
  text, so number conversion stays abstract while its `ValueError` is still
  modelled. A `range` over a negative count is empty.
- `Centroid` (`centroid.dfy`) is `find_element_center`. An element must have
  exactly four node ids, otherwise `ValueError`. Each id `i` selects
  `nodes[i - 1]` by position in the node list, following Python's indexing:
  an id from 1-len to 0 counts from the end of the list, so id 0 selects the
  last node. An id above len, or at or below -len, raises `IndexError`. The
  centre is the componentwise mean, over `real` numbers.
- `Assignment` (`assignment.dfy`) is `process_element`. It is a running-minimum
  scan over the clusters with a strict `<`, so on a tie the earliest cluster
  wins. Absent clusters are skipped. The cluster number is the 1-based
  position among all clusters, absent ones included. A cluster's spatial index
  is its non-empty point set, and the index query is a caller-supplied
  function `nearest` giving the distance to the nearest point.
- `Pipeline` (`pipeline.dfy`) is the assignment phase of `main`. It stops
  without assignments when there are no clusters. Otherwise it builds one
  index per non-empty point set and `None` for an empty one, maps
  `process_element` over the elements in submission order, and filters out
  the `None` results. An `IndexError` raised by any element ends the run.
- `Wrappers` (`wrappers.dfy`) holds the `Option` and `Result` datatypes.

## Model

| member | source | states |
|---|---|---|
| MeshParser.ReadMeshFile | Read.py:9-37 | Returns normally exactly when the header holds two integers and each of the max(N,0) node lines and max(M,0) element lines parses. In that case the counts are the header's two integers, there are exactly max(N,0) nodes and max(M,0) elements, node k comes from line 1+k, and element k comes from line 1+max(N,0)+1+k, so exactly one line in between is skipped. Otherwise the error is the exception of the first line, in reading order, that does not parse. |
| MeshParser.ParseHeader | Read.py:18-19 | The header parses exactly when it has two tokens and both are integers; these are the two counts. Anything else raises ValueError. |
| MeshParser.ParseNodeLine | Read.py:23-26 | An empty line raises IndexError. The line parses exactly when it has at least 4 tokens, token 0 is an integer and tokens 1..3 are floats; any other line raises ValueError. The node is the id from token 0 and the coordinates from tokens 1..3, and tokens after the fourth are ignored. |
| MeshParser.ParseElementLine | Read.py:32-35 | A line shorter than 11 tokens raises IndexError. Parsing succeeds exactly when token 10 and every token in positions 11..18 that exists are integers. The element id is token 10. The node-id list has at most 8 entries, has no repeats, and holds exactly the values of tokens 11..18. It is the deduplication of those tokens' integers, so it keeps first-occurrence order. |
| MeshParser.Ints | Read.py:34 | `map(int, ...)` succeeds exactly when every token is an integer, and then gives their values position by position. |
| MeshParser.IdTokens | Read.py:34 | The slice `line[11:19]` has min(len,19)-11 tokens, and token j of it is token 11+j of the line. |
| MeshParser.Dedup | Read.py:34 | The deduplicated list has no repeats, holds exactly the values of its input, and is no longer than the input. |
| MeshParser.DedupKeepsFirstOccurrenceOrder | Read.py:34 | The surviving values appear in the order of their first occurrences in the input. |
| MeshParser.DedupOfDistinct | Read.py:34 | A list without repeats is returned unchanged. |
| MeshParser.FirstIndex | Read.py:34 | Gives the position of the first occurrence of a value: the value is at that position and does not occur earlier. |
| MeshParser.SeparatorLineIsIgnored | Read.py:28 | Replacing the line read between the node block and the element block changes neither whether the file parses, nor the error, nor any line a record is read from. |
| Centroid.NodeAt | Read.py:71 | `nodes[id - 1]` yields a node exactly when 1-len <= id <= len. That node is `nodes[id-1]` for id >= 1 and `nodes[len+id-1]` for id <= 0, as with Python's negative indexing. |
| Centroid.FindElementCenter | Read.py:61-73 | Fails with ValueError exactly when the id list does not have 4 entries. Fails with IndexError exactly when it has 4 entries and one of them is out of range. When all four ids are in 1..len, the centre is the sum of the coordinates of `nodes[id-1]` over the four ids, divided by 4, componentwise. When all four ids resolve, including wrapped ids <= 0, the centre is the same mean over the nodes that Python's indexing selects. |
| Centroid.PositionSumPermutation | Read.py:71-72 | The coordinate sum over a list of ids does not depend on the order of the ids. |
| Centroid.CenterIgnoresIdOrder | Read.py:71-72 | Two elements whose node ids are the same multiset get the same centre, or the same error. |
| Assignment.Closest | Read.py:94-102 | Gives -1 exactly when every cluster is absent. Otherwise it gives a 1-based position of a present cluster whose distance is at most every present distance and strictly less than every earlier present distance, so on a tie the first cluster wins. |
| Assignment.ClosestStep | Read.py:100-102 | One step of the scan replaces the current choice exactly when the next cluster is present and its distance is strictly below the running minimum. |
| Assignment.ClosestIsUnique | Read.py:94-102 | Any position with the two properties above is the one Closest gives. |
| Assignment.Process | Read.py:85-104 | One element's outcome. It raises IndexError exactly when the element has four ids and one is out of range. It gives None exactly when the id count is not 4, or when all ids resolve and no cluster is present. An assignment carries the element's id and a 1-based cluster number of a present cluster. |
| Assignment.ProcessPicksNearestPresentCluster | Read.py:85-104 | `process_element` raises IndexError exactly when the element has four ids and one is out of range. It returns None exactly when the id count is not 4 or no cluster is present. When it returns `(id, c)`, id is the element id and cluster c-1 is present. Its distance is at most every present cluster's distance and strictly below every earlier present cluster's distance. |
| Assignment.ProcessElement | Read.py:85-104 | The running-minimum loop, with None standing for `float('inf')`, returns exactly the outcome that the first-wins argmin reference gives. |
| Pipeline.BuildIndex | Read.py:135 | One entry per point set. An entry is absent exactly when its point set is empty, and a present entry indexes that point set. |
| Pipeline.MapElements | Read.py:138-139 | Processing the elements in order either raises, exactly when some element raises IndexError, or gives one result per element, in submission order. |
| Pipeline.DropNone | Read.py:142 | The filter keeps exactly the assignments among the results and is no longer than its input. |
| Pipeline.DropNoneConcat | Read.py:142 | The filter of a concatenation is the concatenation of the filters. |
| Pipeline.AssignedPositionsIncrease | Read.py:142 | The positions of the assigned results increase, and every assigned result's position is among them. |
| Pipeline.DropNoneTakesAssignedPositions | Read.py:142 | The i-th survivor of the filter is the result at the i-th assigned position. |
| Pipeline.DropNoneIsOrderedSubsequence | Read.py:142 | The filtered results are the assigned results in their original order: an order-preserving subsequence that drops every None and keeps every assignment. |
| Pipeline.Run | Read.py:127-142 | The reference result of the assignment phase. With no clusters it is empty. It fails exactly when some element has four ids and one of them is out of range. On success it has at most as many assignments as elements. |
| Pipeline.AssignClusters | Read.py:127-142 | The assignment phase as run gives exactly the reference result of the run. |
| Pipeline.RunAssignsNearestNonEmptyClusters | Read.py:127-142 | With no clusters the result is empty. The run fails exactly when some element has four ids and one is out of range. On success there are at most as many assignments as elements. Each assignment names a non-empty cluster and comes from an element of the mesh whose processing chose that cluster, so an empty cluster is never selected. |
| Pipeline.ValidElementIsAssigned | Read.py:127-142 | When no element with four node ids has an id outside 1-len..len (an id that `nodes[id-1]` cannot index), the run succeeds, even if other elements are malformed, and every element with four node ids receives an assignment as soon as some cluster is non-empty. |

## Left out

- `read_ply_vertices` (Read.py:41-57) is not part of this model. It checks the filesystem, lists a directory in an order that depends on the platform, and calls a foreign mesh loader. The model takes its result as a given sequence of point sets.
- KD-tree construction and query (Read.py:99, 135) are not part of this model. The tree is represented by its point set, and the query is the caller-supplied function `nearest`. Only the emptiness test at line 135 is modelled.
- The process pool (Read.py:138-139) is modelled as a sequential map that stops at the first IndexError. The pool returns results in submission order and re-raises a task's exception, so the model gives the same result.
- `distance_between_points` (Read.py:77-81) is never called and is not modelled.
- IEEE floating point is not modelled. Coordinates, centres and distances are `real`, and `float('inf')` is `None`. NaN and rounding, including the order of summation inside `np.mean`, are not captured.
- Opening the file and `readline` I/O are not modelled; the input is a sequence of tokenised lines. What `int()` and `float()` accept is not modelled either: each token says whether each conversion succeeds. The exact exception class is kept only as IndexError versus ValueError.
- Console output, the diagnostics printed for skipped elements, and the rest of `main` (Read.py:108-126, 143-150) are not modelled. This includes the `FileNotFoundError` handling and the printing of counts and results.
- Pipeline.RunAssignsNearestNonEmptyClusters does not say which element's IndexError ends the run. The run fails with a single error value, as the program ends with an uncaught exception.
