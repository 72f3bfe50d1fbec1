/** Base-layer connectivity repair (vexdb_duckdb/include/vex_graph_connectivity.hpp).

    A neighbour table holds, for every reserved node id, a fixed number of slots; a slot is either
    empty or names a node. A breadth-first visit from the root records a parent for every node it
    meets. Nodes it does not meet are then linked, one overwritten slot at a time, by slots that
    carry no parent edge.
 */
module GraphConnectivity {
  import opened Basics
  import opened Picks
  import opened Scores

  // Ids are uint32; the largest one marks an empty slot and an unvisited node.
  const INVALID: int := 0xFFFF_FFFF

  type Table = seq<seq<int>>

  datatype Stats = Stats(reachableBefore: nat, reachableAfter: nat, repairedEdges: nat, fallbackScans: nat)

  datatype Error = NodeCountExceedsSlots | InvalidRootOrDegree | InvalidNeighbor

  datatype Result = Done(stats: Stats) | Thrown(error: Error)

  // ----- Tables and reachability -----

  ghost predicate WellShaped(t: Table, n: nat, slots: nat) {
    n <= |t| && n <= INVALID && forall u :: 0 <= u < n ==> |t[u]| == slots
  }

  /** The slot is empty or names an assigned node. */
  predicate GoodSlot(to: int, n: nat) {
    to == INVALID || 0 <= to < n
  }

  ghost predicate GoodRow(row: seq<int>, n: nat) {
    forall j :: 0 <= j < |row| ==> GoodSlot(row[j], n)
  }

  ghost predicate HasBadSlot(t: Table, n: nat) {
    exists u :: 0 <= u < n <= |t| && !GoodRow(t[u], n)
  }

  /** `p` walks along table edges between assigned nodes. */
  ghost predicate IsWalk(t: Table, n: nat, p: seq<int>)
  {
    && p != []
    && (forall i :: 0 <= i < |p| ==> 0 <= p[i] < n <= |t|)
    && (forall i :: 0 <= i < |p| - 1 ==> p[i + 1] in t[p[i]])
  }

  ghost predicate Reaches(t: Table, n: nat, a: nat, b: nat) {
    exists p :: IsWalk(t, n, p) && p[0] == a && p[|p| - 1] == b
  }

  ghost function ReachSet(t: Table, n: nat, root: nat): set<nat> {
    set v: nat | v < n && Reaches(t, n, root, v)
  }

  lemma ReachesSelf(t: Table, n: nat, a: nat)
    requires 0 <= a < n <= |t|
    ensures Reaches(t, n, a, a)
  {
    assert IsWalk(t, n, [a]);
  }

  lemma ReachesExtend(t: Table, n: nat, a: nat, b: nat, c: nat)
    requires Reaches(t, n, a, b) && 0 <= b < n <= |t| && 0 <= c < n && c in t[b]
    ensures Reaches(t, n, a, c)
  {
    var p :| IsWalk(t, n, p) && p[0] == a && p[|p| - 1] == b;
    var q := p + [c];
    assert IsWalk(t, n, q) && q[0] == a && q[|q| - 1] == c;
  }

  // ----- The parent table -----

  ghost function Visited(parent: seq<int>): set<nat> {
    set v: nat | v < |parent| && parent[v] != INVALID
  }

  /** Parent edges form a tree over the visited nodes, rooted at `root`, and every parent edge is
      still present in the table. `rank` grows along tree edges, so the tree has no cycle. */
  ghost predicate SpanningTree(t: Table, n: nat, root: nat, parent: seq<int>, rank: seq<nat>) {
    && |parent| == |rank| == n <= |t|
    && 0 <= root < n && parent[root] == root
    && forall v :: v in Visited(parent) && v != root ==> TreeEdge(t, n, parent, rank, v)
  }

  ghost predicate TreeEdge(t: Table, n: nat, parent: seq<int>, rank: seq<nat>, v: nat)
    requires |parent| == |rank| == n <= |t| && 0 <= v < n
  {
    var u := parent[v];
    0 <= u < n && parent[u] != INVALID && rank[u] < rank[v] && v in t[u]
  }

  /** Neighbours of every visited node outside `pending` are visited. */
  ghost predicate ClosedExcept(t: Table, n: nat, parent: seq<int>, pending: seq<nat>)
    requires |parent| == n <= |t|
  {
    forall v :: v in Visited(parent) && v !in pending ==> RowVisited(t[v], n, parent)
  }

  ghost predicate RowVisited(row: seq<int>, n: nat, parent: seq<int>)
    requires |parent| == n
  {
    forall j :: 0 <= j < |row| ==> SlotVisited(row[j], n, parent)
  }

  predicate SlotVisited(to: int, n: nat, parent: seq<int>)
    requires |parent| == n
  {
    to == INVALID || (0 <= to < n && parent[to] != INVALID)
  }

  /** A tree node is reached by walking down from the root. */
  lemma {:induction false} TreeIsReachable(t: Table, n: nat, root: nat, parent: seq<int>, rank: seq<nat>, v: nat)
    requires SpanningTree(t, n, root, parent, rank) && v in Visited(parent)
    ensures Reaches(t, n, root, v)
    decreases rank[v]
  {
    if v == root {
      ReachesSelf(t, n, root);
    } else {
      assert TreeEdge(t, n, parent, rank, v);
      TreeIsReachable(t, n, root, parent, rank, parent[v]);
      ReachesExtend(t, n, root, parent[v], v);
    }
  }

  /** A walk that starts at a visited node never leaves a closed visited set. */
  lemma {:induction false} WalkStaysVisited(t: Table, n: nat, parent: seq<int>, p: seq<int>, k: nat)
    requires |parent| == n <= |t| && n <= INVALID && ClosedExcept(t, n, parent, [])
    requires IsWalk(t, n, p) && p[0] in Visited(parent) && k < |p|
    ensures p[k] in Visited(parent)
  {
    if k > 0 {
      WalkStaysVisited(t, n, parent, p, k - 1);
      assert RowVisited(t[p[k - 1]], n, parent);
    }
  }

  /** A closed spanning tree covers exactly the nodes reachable from its root. */
  lemma ClosedTreeIsReachSet(t: Table, n: nat, root: nat, parent: seq<int>, rank: seq<nat>)
    requires SpanningTree(t, n, root, parent, rank) && n <= INVALID && ClosedExcept(t, n, parent, [])
    ensures Visited(parent) == ReachSet(t, n, root)
  {
    forall v | v in Visited(parent) ensures v in ReachSet(t, n, root) {
      TreeIsReachable(t, n, root, parent, rank, v);
    }
    forall v | v in ReachSet(t, n, root) ensures v in Visited(parent) {
      var p :| IsWalk(t, n, p) && p[0] == root && p[|p| - 1] == v;
      WalkStaysVisited(t, n, parent, p, |p| - 1);
    }
  }

  // ----- Replaceable slots -----

  /** Overwriting the slot removes no spanning-tree edge. */
  ghost predicate Replaceable(row: seq<int>, root: nat, parent: seq<int>, from: nat, j: nat)
    requires j < |row|
  {
    row[j] == INVALID || row[j] == root || (0 <= row[j] < |parent| && parent[row[j]] != from)
  }

  /** A node of greatest rank has no tree child, so every slot of its row may be overwritten. */
  lemma DeepestNodeIsLeaf(t: Table, n: nat, root: nat, parent: seq<int>, rank: seq<nat>, leaf: nat, j: nat)
    requires SpanningTree(t, n, root, parent, rank) && n <= INVALID && ClosedExcept(t, n, parent, [])
    requires leaf in Visited(parent) && j < |t[leaf]|
    requires forall v :: v in Visited(parent) ==> rank[v] <= rank[leaf]
    ensures Replaceable(t[leaf], root, parent, leaf, j)
  {
    assert RowVisited(t[leaf], n, parent);
    var to := t[leaf][j];
    assert SlotVisited(to, n, parent);
    if to != INVALID && to != root {
      assert TreeEdge(t, n, parent, rank, to);
    }
  }

  lemma {:induction false} DeepestNodeExists(parent: seq<int>, rank: seq<nat>, root: nat, m: nat) returns (leaf: nat)
    requires |parent| == |rank| && root < |parent| && parent[root] != INVALID && m <= |parent|
    ensures leaf in Visited(parent)
    ensures forall v :: v in Visited(parent) && v < m ==> rank[v] <= rank[leaf]
  {
    if m == 0 {
      leaf := root;
    } else {
      leaf := DeepestNodeExists(parent, rank, root, m - 1);
      if parent[m - 1] != INVALID && rank[leaf] < rank[m - 1] { leaf := m - 1; }
    }
  }

  // ----- Repairs as table writes -----

  datatype Write = Write(source: int, slot: int, target: int)

  predicate CanWrite(t: Table, w: Write) {
    0 <= w.source < |t| && 0 <= w.slot < |t[w.source]|
  }

  function SetNeighbor(t: Table, w: Write): (t': Table)
    requires CanWrite(t, w)
    ensures |t'| == |t|
    ensures forall u, j :: 0 <= u < |t| && 0 <= j < |t[u]| && (u, j) != (w.source, w.slot) ==>
              |t'[u]| == |t[u]| && t'[u][j] == t[u][j]
    ensures forall u :: 0 <= u < |t| ==> |t'[u]| == |t[u]|
    ensures t'[w.source][w.slot] == w.target
  {
    t[w.source := t[w.source][w.slot := w.target]]
  }

  /** The write links a node that was out of reach from a node that was within reach, and loses
      nothing that was within reach. */
  ghost predicate Links(t: Table, n: nat, root: nat, w: Write)
  {
    && CanWrite(t, w)
    && w.source in ReachSet(t, n, root)
    && 0 <= w.target < n && w.target !in ReachSet(t, n, root)
    && ReachSet(t, n, root) + {w.target} <= ReachSet(SetNeighbor(t, w), n, root)
  }

  ghost predicate RepairStep(t: Table, n: nat, root: nat, w: Write, t': Table) {
    Links(t, n, root, w) && t' == SetNeighbor(t, w)
  }

  /** The tables `history` lead from the first to the last by the linking writes `ws`, in order,
      each changing one slot. */
  ghost predicate Repairs(history: seq<Table>, n: nat, root: nat, ws: seq<Write>) {
    && |history| == |ws| + 1
    && forall k {:trigger ws[k]} :: 0 <= k < |ws| ==> RepairStep(history[k], n, root, ws[k], history[k + 1])
  }

  /** Recording a parent for an unvisited neighbour of a visited node grows the tree. */
  lemma GrowTree(t: Table, n: nat, root: nat, parent: seq<int>, rank: seq<nat>, from: nat, to: int)
    requires SpanningTree(t, n, root, parent, rank) && n <= INVALID
    requires from in Visited(parent) && 0 <= to < n && to !in Visited(parent) && to in t[from]
    ensures SpanningTree(t, n, root, parent[to := from], rank[to := rank[from] + 1])
    ensures Visited(parent[to := from]) == Visited(parent) + {to}
  {
    var parent' := parent[to := from];
    var rank' := rank[to := rank[from] + 1];
    forall v | v in Visited(parent') && v != root ensures TreeEdge(t, n, parent', rank', v) {
      if v != to {
        assert v in Visited(parent) && TreeEdge(t, n, parent, rank, v);
      }
    }
  }

  /** Overwriting a replaceable slot removes no tree edge. */
  lemma WriteKeepsTree(t: Table, n: nat, root: nat, parent: seq<int>, rank: seq<nat>, w: Write)
    requires SpanningTree(t, n, root, parent, rank) && n <= INVALID
    requires CanWrite(t, w) && w.source in Visited(parent)
    requires Replaceable(t[w.source], root, parent, w.source, w.slot)
    ensures SpanningTree(SetNeighbor(t, w), n, root, parent, rank)
  {
    var t' := SetNeighbor(t, w);
    forall v | v in Visited(parent) && v != root ensures TreeEdge(t', n, parent, rank, v) {
      assert TreeEdge(t, n, parent, rank, v);
      var u := parent[v];
      var j :| 0 <= j < |t[u]| && t[u][j] == v;
      assert t'[u][j] == v;
    }
  }

  lemma {:induction false} RangeSize(s: set<nat>, n: nat)
    requires forall v :: v in s ==> v < n
    ensures |s| <= n
    ensures (forall v: nat :: v < n ==> v in s) ==> |s| == n
  {
    if n > 0 {
      RangeSize(s - {n - 1}, n - 1);
    } else {
      assert s == {};
    }
  }

  // ----- The visitor -----

  /** After `j` slots of `from` the tree has grown by the nodes `found`, once each. */
  ghost predicate Scanned(t: Table, n: nat, root: nat, parent0: seq<int>, from: nat, j: nat,
                          parent: seq<int>, rank: seq<nat>, found: seq<nat>, seen: set<nat>)
    requires |parent0| == n <= |t| && from < n && j <= |t[from]|
  {
    && SpanningTree(t, n, root, parent, rank)
    && Visited(parent) == Visited(parent0) + seen && Visited(parent0) !! seen
    && |seen| == |found| && (forall v :: v in found <==> v in seen)
    && forall k :: 0 <= k < j ==> SlotVisited(t[from][k], n, parent)
  }

  lemma ScanSkips(t: Table, n: nat, root: nat, parent0: seq<int>, from: nat, j: nat,
                  parent: seq<int>, rank: seq<nat>, found: seq<nat>, seen: set<nat>)
    requires |parent0| == n <= |t| && from < n && j < |t[from]|
    requires Scanned(t, n, root, parent0, from, j, parent, rank, found, seen)
    requires SlotVisited(t[from][j], n, parent)
    ensures Scanned(t, n, root, parent0, from, j + 1, parent, rank, found, seen)
  {
  }

  lemma ScanDiscovers(t: Table, n: nat, root: nat, parent0: seq<int>, from: nat, j: nat,
                      parent: seq<int>, rank: seq<nat>, found: seq<nat>, seen: set<nat>, to: nat)
    requires |parent0| == n <= |t| && n <= INVALID && from in Visited(parent0) && j < |t[from]|
    requires Scanned(t, n, root, parent0, from, j, parent, rank, found, seen)
    requires t[from][j] == to < n && parent[to] == INVALID
    ensures Scanned(t, n, root, parent0, from, j + 1,
                    parent[to := from], rank[to := rank[from] + 1], found + [to], seen + {to})
  {
    GrowTree(t, n, root, parent, rank, from, to);
    var parent' := parent[to := from];
    forall k | 0 <= k < j + 1 ensures SlotVisited(t[from][k], n, parent') {
      assert k < j ==> SlotVisited(t[from][k], n, parent);
    }
  }

  // The order of the visit: nodes join the queue in the order in which its rows, slot by slot, first name them.

  /** A slot met by the visit: slot `slot` of the node queued at `row`. */
  datatype Spot = Spot(row: nat, slot: nat)

  ghost predicate Earlier(a: Spot, b: Spot) {
    a.row < b.row || (a.row == b.row && a.slot < b.slot)
  }

  ghost predicate Names(t: Table, queue: seq<nat>, spot: Spot, v: int) {
    && spot.row < |queue| && queue[spot.row] < |t| && spot.slot < |t[queue[spot.row]]|
    && t[queue[spot.row]][spot.slot] == v
  }

  /** Entry `k` of the queue was not visited before, is named first by its spot, and has the spot's node as parent. */
  ghost predicate LogEntry(t: Table, n: nat, parent0: seq<int>, parent: seq<int>, queue: seq<nat>, spots: seq<Spot>,
                           k: nat)
    requires |parent0| == |parent| == n && |queue| == |spots| && k < |queue|
  {
    && queue[k] < n && parent0[queue[k]] == INVALID
    && spots[k].row < k && Names(t, queue, spots[k], queue[k]) && parent[queue[k]] == queue[spots[k].row]
    && forall spot :: Earlier(spot, spots[k]) ==> !Names(t, queue, spot, queue[k])
  }

  /** A visit from `first`: what was visited before keeps its parent, the rest of the queue follows the spots. */
  ghost predicate VisitLog(t: Table, n: nat, parent0: seq<int>, first: nat, parent: seq<int>,
                           queue: seq<nat>, spots: seq<Spot>)
    requires |parent0| == |parent| == n
  {
    && |queue| == |spots| > 0 && queue[0] == first
    && (forall k :: 1 <= k < |queue| ==> LogEntry(t, n, parent0, parent, queue, spots, k))
    && (forall i, k :: 1 <= i < k < |queue| ==> Earlier(spots[i], spots[k]))
    && (forall v :: 0 <= v < n && (v == first || v !in queue) ==> parent[v] == parent0[v])
  }

  /** The rows queued before `pos` are done: every spot of the log lies there, and all they name is visited. */
  ghost predicate LoggedUpTo(t: Table, n: nat, parent: seq<int>, queue: seq<nat>, spots: seq<Spot>, pos: nat)
    requires |parent| == n
  {
    && |queue| == |spots| && (forall k :: 1 <= k < |spots| ==> spots[k].row < pos)
    && (forall u :: u in queue ==> u < n && parent[u] != INVALID)
    && (forall spot: Spot, v :: spot.row < pos && Names(t, queue, spot, v) ==> SlotVisited(v, n, parent))
  }

  ghost predicate Logged(t: Table, n: nat, start: seq<int>, first: nat, parent: seq<int>, queue: seq<nat>,
                         spots: seq<Spot>, pos: nat)
  {
    && |start| == |parent| == n
    && VisitLog(t, n, start, first, parent, queue, spots) && LoggedUpTo(t, n, parent, queue, spots, pos)
  }

  lemma LogStarts(t: Table, n: nat, parent0: seq<int>, first: nat, spots: seq<Spot>)
    requires |parent0| == n && first < n && parent0[first] != INVALID && spots == [Spot(0, 0)]
    ensures Logged(t, n, parent0, first, parent0, [first], spots, 0)
  {
  }

  /** The first slot that names `v`; the row's length if none does. */
  ghost function FirstSlot(row: seq<int>, v: int): (j: nat)
    ensures j <= |row| && (j < |row| ==> row[j] == v) && forall i :: 0 <= i < j ==> row[i] != v
  {
    if row == [] || row[0] == v then 0 else 1 + FirstSlot(row[1..], v)
  }

  /** `found` lists the unvisited nodes that the row names before slot `j`, in the order in which it first does, and
      they alone have a new parent. */
  ghost predicate FoundInOrder(row: seq<int>, n: nat, parent0: seq<int>, parent: seq<int>, from: nat, j: nat,
                               found: seq<nat>)
  {
    && |parent0| == |parent| == n && j <= |row|
    && (forall k :: 0 <= k < |found| ==> found[k] < n && parent0[found[k]] == INVALID && FirstSlot(row, found[k]) < j)
    && (forall i, k :: 0 <= i < k < |found| ==> FirstSlot(row, found[i]) < FirstSlot(row, found[k]))
    && (forall v :: 0 <= v < n ==> parent[v] == if v in found then from else parent0[v])
  }

  lemma FoundMore(row: seq<int>, n: nat, parent0: seq<int>, parent: seq<int>, from: nat, j: nat, found: seq<nat>,
                  to: nat)
    requires FoundInOrder(row, n, parent0, parent, from, j, found) && j < |row|
    requires row[j] == to < n <= INVALID && from < n && parent[to] == INVALID
    requires forall i :: 0 <= i < j ==> SlotVisited(row[i], n, parent)
    ensures FoundInOrder(row, n, parent0, parent[to := from], from, j + 1, found + [to])
  {
    assert to !in found;
    forall i | 0 <= i < j ensures row[i] != to {
      assert SlotVisited(row[i], n, parent);
    }
    assert FirstSlot(row, to) == j;
  }

  /** A longer queue names the same nodes at the places it had. */
  lemma NamesPersist(t: Table, queue: seq<nat>, found: seq<nat>, spot: Spot, v: int)
    requires spot.row < |queue|
    ensures Names(t, queue + found, spot, v) <==> Names(t, queue, spot, v)
  {
    assert (queue + found)[spot.row] == queue[spot.row];
  }

  ghost function SpotsOf(pos: nat, row: seq<int>, found: seq<nat>): (spots: seq<Spot>)
    ensures |spots| == |found|
  {
    seq(|found|, k requires 0 <= k < |found| => Spot(pos, FirstSlot(row, found[k])))
  }

  /** A scanned row extends the log. */
  lemma LogGrows(t: Table, n: nat, start: seq<int>, first: nat, parent: seq<int>, queue: seq<nat>, spots: seq<Spot>,
                 pos: nat, parent': seq<int>, found: seq<nat>)
    requires Logged(t, n, start, first, parent, queue, spots, pos) && n <= INVALID && Visited(start) <= Visited(parent)
    requires |parent'| == n && pos < |queue| && queue[pos] < |t| && RowVisited(t[queue[pos]], n, parent')
    requires FoundInOrder(t[queue[pos]], n, parent, parent', queue[pos], |t[queue[pos]]|, found)
    ensures Logged(t, n, start, first, parent', queue + found, spots + SpotsOf(pos, t[queue[pos]], found), pos + 1)
  {
    var queue', spots' := queue + found, spots + SpotsOf(pos, t[queue[pos]], found);
    assert queue[pos] in queue;
    forall k | 1 <= k < |queue'| ensures LogEntry(t, n, start, parent', queue', spots', k) {
      if k < |queue| {
        EntryPersists(t, n, start, parent, queue, spots, k, parent', found, spots');
      } else {
        NewEntry(t, n, start, parent, queue, spots, pos, parent', found, k - |queue|);
      }
    }
    forall spot: Spot, v | spot.row < pos + 1 && Names(t, queue', spot, v) ensures SlotVisited(v, n, parent') {
      NamesPersist(t, queue, found, spot, v);
      if spot.row < pos {
        assert SlotVisited(v, n, parent);
      } else {
        assert SlotVisited(t[queue[pos]][spot.slot], n, parent');
      }
    }
  }

  lemma EntryPersists(t: Table, n: nat, start: seq<int>, parent: seq<int>, queue: seq<nat>, spots: seq<Spot>, k: nat,
                      parent': seq<int>, found: seq<nat>, spots': seq<Spot>)
    requires |start| == |parent| == |parent'| == n && |queue| == |spots| && 1 <= k < |queue|
    requires LogEntry(t, n, start, parent, queue, spots, k) && parent'[queue[k]] == parent[queue[k]]
    requires |spots'| == |queue + found| && spots'[k] == spots[k]
    ensures LogEntry(t, n, start, parent', queue + found, spots', k)
  {
    NamesPersist(t, queue, found, spots[k], queue[k]);
    forall spot | Earlier(spot, spots[k]) ensures !Names(t, queue + found, spot, queue[k]) {
      NamesPersist(t, queue, found, spot, queue[k]);
    }
  }

  lemma NewEntry(t: Table, n: nat, start: seq<int>, parent: seq<int>, queue: seq<nat>, spots: seq<Spot>, pos: nat,
                 parent': seq<int>, found: seq<nat>, k: nat)
    requires |start| == |parent| == n <= INVALID && LoggedUpTo(t, n, parent, queue, spots, pos)
    requires Visited(start) <= Visited(parent) && pos < |queue| && queue[pos] < |t|
    requires FoundInOrder(t[queue[pos]], n, parent, parent', queue[pos], |t[queue[pos]]|, found) && k < |found|
    ensures LogEntry(t, n, start, parent', queue + found, spots + SpotsOf(pos, t[queue[pos]], found), |queue| + k)
  {
    var to, spot' := found[k], Spot(pos, FirstSlot(t[queue[pos]], found[k]));
    assert (spots + SpotsOf(pos, t[queue[pos]], found))[|queue| + k] == spot';
    assert to !in Visited(parent);
    forall spot | Earlier(spot, spot') ensures !Names(t, queue + found, spot, to) {
      NamesPersist(t, queue, found, spot, to);
    }
    NamesPersist(t, queue, found, spot', to);
  }

  /** The first `j` slots of the row of `from` are scanned. */
  ghost predicate RowScan(t: Table, n: nat, root: nat, parent0: seq<int>, from: nat, j: nat,
                          parent: seq<int>, rank: seq<nat>, found: seq<nat>, seen: set<nat>)
  {
    && |parent0| == n <= |t| && from < n && j <= |t[from]|
    && Scanned(t, n, root, parent0, from, j, parent, rank, found, seen)
    && FoundInOrder(t[from], n, parent0, parent, from, j, found)
  }

  lemma RowStarts(t: Table, n: nat, root: nat, parent0: seq<int>, rank0: seq<nat>, from: nat)
    requires SpanningTree(t, n, root, parent0, rank0) && from in Visited(parent0)
    ensures RowScan(t, n, root, parent0, from, 0, parent0, rank0, [], {})
  {
  }

  lemma RowSkips(t: Table, n: nat, root: nat, parent0: seq<int>, from: nat, j: nat,
                 parent: seq<int>, rank: seq<nat>, found: seq<nat>, seen: set<nat>)
    requires RowScan(t, n, root, parent0, from, j, parent, rank, found, seen)
    requires j < |t[from]| && SlotVisited(t[from][j], n, parent)
    ensures RowScan(t, n, root, parent0, from, j + 1, parent, rank, found, seen)
  {
    ScanSkips(t, n, root, parent0, from, j, parent, rank, found, seen);
  }

  lemma RowDiscovers(t: Table, n: nat, root: nat, parent0: seq<int>, from: nat, j: nat,
                     parent: seq<int>, rank: seq<nat>, found: seq<nat>, seen: set<nat>, to: nat)
    requires RowScan(t, n, root, parent0, from, j, parent, rank, found, seen)
    requires n <= INVALID && from in Visited(parent0) && j < |t[from]|
    requires t[from][j] == to < n && parent[to] == INVALID
    ensures RowScan(t, n, root, parent0, from, j + 1,
                    parent[to := from], rank[to := rank[from] + 1], found + [to], seen + {to})
  {
    ScanDiscovers(t, n, root, parent0, from, j, parent, rank, found, seen, to);
    FoundMore(t[from], n, parent0, parent, from, j, found, to);
  }

  lemma RowIsDone(t: Table, n: nat, root: nat, parent0: seq<int>, from: nat,
                  parent: seq<int>, rank: seq<nat>, found: seq<nat>, seen: set<nat>)
    requires from < n <= |t| && RowScan(t, n, root, parent0, from, |t[from]|, parent, rank, found, seen)
    ensures RowVisited(t[from], n, parent)
  {
  }

  /** Slot `j` of the row: an unvisited neighbour gets `from` as its parent. */
  method ScanSlot(t: Table, n: nat, ghost root: nat, ghost parent0: seq<int>, from: nat, j: nat,
                  parent: seq<int>, ghost rank: seq<nat>, found: seq<nat>, ghost seen: set<nat>)
    returns (ok: bool, parent': seq<int>, ghost rank': seq<nat>, found': seq<nat>, ghost seen': set<nat>)
    requires RowScan(t, n, root, parent0, from, j, parent, rank, found, seen)
    requires n <= INVALID && from in Visited(parent0) && j < |t[from]|
    ensures ok ==> RowScan(t, n, root, parent0, from, j + 1, parent', rank', found', seen')
    ensures !ok ==> !GoodSlot(t[from][j], n)
  {
    var to := t[from][j];
    if to == INVALID {
      RowSkips(t, n, root, parent0, from, j, parent, rank, found, seen);
      return true, parent, rank, found, seen;
    }
    if !(0 <= to < n) {
      return false, parent, rank, found, seen;
    }
    if parent[to] != INVALID {
      RowSkips(t, n, root, parent0, from, j, parent, rank, found, seen);
      return true, parent, rank, found, seen;
    }
    var node: nat := to;
    RowDiscovers(t, n, root, parent0, from, j, parent, rank, found, seen, node);
    return true, parent[node := from], rank[node := rank[from] + 1], found + [node], seen + {node};
  }

  /** One step of the visit: every unvisited neighbour of `from` gets `from` as its parent and
      joins the queue. Fails exactly on a slot that is neither empty nor an assigned node. */
  method ScanNeighbors(t: Table, n: nat, root: nat, parent0: seq<int>, ghost rank0: seq<nat>, from: nat)
    returns (ok: bool, parent: seq<int>, ghost rank: seq<nat>, found: seq<nat>, ghost seen: set<nat>)
    requires SpanningTree(t, n, root, parent0, rank0) && n <= INVALID && from in Visited(parent0)
    ensures ok ==> RowScan(t, n, root, parent0, from, |t[from]|, parent, rank, found, seen)
    ensures !ok ==> !GoodRow(t[from], n)
  {
    ok, parent, rank, found, seen := true, parent0, rank0, [], {};
    RowStarts(t, n, root, parent0, rank0, from);
    var j := 0;
    while j < |t[from]|
      invariant j <= |t[from]|
      invariant RowScan(t, n, root, parent0, from, j, parent, rank, found, seen)
    {
      ok, parent, rank, found, seen := ScanSlot(t, n, root, parent0, from, j, parent, rank, found, seen);
      if !ok {
        return;
      }
      j := j + 1;
    }
    ok := true;
  }

  /** With `queue[..at]` scanned, everything visited since the start is queued, once, and only the
      rest of the queue may still have unvisited neighbours. */
  ghost predicate Visiting(t: Table, n: nat, root: nat, parent0: seq<int>, first: nat,
                           parent: seq<int>, rank: seq<nat>, queue: seq<nat>, at: nat)
    requires |parent0| == n <= |t| && at <= |queue|
  {
    && SpanningTree(t, n, root, parent, rank)
    && Visited(parent0) <= Visited(parent)
    && (forall u :: u in queue ==> u in Visited(parent) && (u !in Visited(parent0) || u == first))
    && ClosedExcept(t, n, parent, queue[at..])
    && |Visited(parent)| + 1 == |Visited(parent0)| + |queue|
  }

  lemma VisitAdvances(t: Table, n: nat, root: nat, parent0: seq<int>, first: nat, at: nat, from: nat,
                      parent: seq<int>, rank: seq<nat>, queue: seq<nat>,
                      parent': seq<int>, rank': seq<nat>, found: seq<nat>, seen: set<nat>)
    requires |parent0| == n <= |t| && at < |queue| && from == queue[at] && from < n
    requires Visiting(t, n, root, parent0, first, parent, rank, queue, at)
    requires Scanned(t, n, root, parent, from, 0, parent', rank', found, seen)
    requires RowVisited(t[from], n, parent')
    ensures Visiting(t, n, root, parent0, first, parent', rank', queue + found, at + 1)
  {
    QueueTail(queue, found, at);
    AdvanceCloses(t, n, parent, parent', queue[at + 1..], from, found, seen);
    forall u | u in queue + found ensures u in Visited(parent') && (u !in Visited(parent0) || u == first) {
      assert u in queue || u in found;
    }
  }

  lemma QueueTail(queue: seq<nat>, found: seq<nat>, at: nat)
    requires at < |queue|
    ensures queue[at..] == [queue[at]] + queue[at + 1..]
    ensures (queue + found)[at + 1..] == queue[at + 1..] + found
  {
  }

  lemma AdvanceCloses(t: Table, n: nat, parent: seq<int>, parent': seq<int>,
                      rest: seq<nat>, from: nat, found: seq<nat>, seen: set<nat>)
    requires |parent| == |parent'| == n <= |t| && from < n
    requires ClosedExcept(t, n, parent, [from] + rest)
    requires Visited(parent') == Visited(parent) + seen && forall v :: v in found <==> v in seen
    requires RowVisited(t[from], n, parent')
    ensures ClosedExcept(t, n, parent', rest + found)
  {
    forall v | v in Visited(parent') && v !in rest + found ensures RowVisited(t[v], n, parent') {
      if v != from {
        RowStaysVisited(t[v], n, parent, parent');
      }
    }
  }

  lemma RowStaysVisited(row: seq<int>, n: nat, parent: seq<int>, parent': seq<int>)
    requires |parent| == |parent'| == n && Visited(parent) <= Visited(parent') && RowVisited(row, n, parent)
    ensures RowVisited(row, n, parent')
  {
    forall j | 0 <= j < |row| ensures SlotVisited(row[j], n, parent') {
      assert SlotVisited(row[j], n, parent);
      assert row[j] != INVALID ==> row[j] in Visited(parent);
    }
  }

  lemma QueueFits(t: Table, n: nat, root: nat, parent0: seq<int>, first: nat,
                  parent: seq<int>, rank: seq<nat>, queue: seq<nat>, at: nat)
    requires |parent0| == n <= |t| && at <= |queue| && first in Visited(parent0)
    requires Visiting(t, n, root, parent0, first, parent, rank, queue, at)
    ensures |queue| <= n
  {
    RangeSize(Visited(parent), n);
    assert {first} <= Visited(parent0);
    assert |Visited(parent0)| == |Visited(parent0) - {first}| + 1;
  }

  /** Breadth-first visit from a node that already has a parent; `count` is the number of nodes
      queued. Fails only on meeting a slot that is neither empty nor an assigned node. */
  method Visit(t: Table, n: nat, root: nat, parent0: seq<int>, ghost rank0: seq<nat>, first: nat)
    returns (ok: bool, parent: seq<int>, ghost rank: seq<nat>, count: nat)
    requires SpanningTree(t, n, root, parent0, rank0) && n <= INVALID
    requires first in Visited(parent0) && ClosedExcept(t, n, parent0, [first])
    ensures SpanningTree(t, n, root, parent, rank) && Visited(parent0) <= Visited(parent)
    ensures ok ==> ClosedExcept(t, n, parent, [])
    ensures ok ==> |Visited(parent)| + 1 == |Visited(parent0)| + count
    ensures ok ==> IsVisit(t, n, parent0, first, parent)
    ensures !ok ==> exists u :: u in Visited(parent) && (u !in Visited(parent0) || u == first) && !GoodRow(t[u], n)
  {
    var queue := [first];
    ghost var spots := [Spot(0, 0)];
    parent, rank := parent0, rank0;
    assert queue[0..] == [first];
    LogStarts(t, n, parent0, first, spots);
    var at := 0;
    while at < |queue|
      invariant at <= |queue|
      invariant Visiting(t, n, root, parent0, first, parent, rank, queue, at)
      invariant Logged(t, n, parent0, first, parent, queue, spots, at)
      decreases n - at
    {
      var from := queue[at];
      QueueFits(t, n, root, parent0, first, parent, rank, queue, at);
      var good, parent', rank', found, seen := ScanNeighbors(t, n, root, parent, rank, from);
      if !good {
        return false, parent, rank, 0;
      }
      RowIsDone(t, n, root, parent, from, parent', rank', found, seen);
      VisitAdvances(t, n, root, parent0, first, at, from, parent, rank, queue, parent', rank', found, seen);
      LogGrows(t, n, parent0, first, parent, queue, spots, at, parent', found);
      spots := spots + SpotsOf(at, t[from], found);
      parent, rank, queue, at := parent', rank', queue + found, at + 1;
    }
    assert queue[at..] == [];
    return true, parent, rank, |queue|;
  }

  /** The visit's parents are those of some log. */
  ghost predicate IsVisit(t: Table, n: nat, parent0: seq<int>, first: nat, parent: seq<int>) {
    |parent0| == |parent| == n && exists queue, spots :: VisitLog(t, n, parent0, first, parent, queue, spots)
  }

  // ----- Choosing the slot to overwrite -----

  predicate HasEmptySlot(row: seq<int>, upTo: nat)
    requires upTo <= |row|
  {
    exists j :: 0 <= j < upTo && row[j] == INVALID
  }

  /** What the slots offer: the distance to their node, if they may be overwritten. */
  ghost function SlotOffers(row: seq<int>, root: nat, parent: seq<int>, from: nat, distance: (int, int) -> Score):
    (offers: seq<Option<Score>>)
    ensures |offers| == |row|
  {
    seq(|row|, j requires 0 <= j < |row| =>
      if Replaceable(row, root, parent, from, j) then Some(distance(from, row[j])) else None)
  }

  /** What `victim_slot` promises: the first empty slot if there is one; otherwise the farthest replaceable one, as
      far as the comparisons can tell; and -1 only when no slot is replaceable. */
  ghost predicate IsVictim(row: seq<int>, root: nat, parent: seq<int>, from: nat,
                           distance: (int, int) -> Score, chosen: int)
  {
    if HasEmptySlot(row, |row|) then 0 <= chosen < |row| && row[chosen] == INVALID && !HasEmptySlot(row, chosen)
    else IsPick(SlotOffers(row, root, parent, from, distance), true, chosen)
  }

  lemma VictimIsReplaceable(row: seq<int>, root: nat, parent: seq<int>, from: nat,
                            distance: (int, int) -> Score, chosen: int)
    requires IsVictim(row, root, parent, from, distance, chosen)
    ensures -1 <= chosen < |row|
    ensures chosen >= 0 ==> Replaceable(row, root, parent, from, chosen)
    ensures chosen < 0 ==> forall j :: 0 <= j < |row| ==> !Replaceable(row, root, parent, from, j)
  {
    var offers := SlotOffers(row, root, parent, from, distance);
    forall j | 0 <= j < |row| ensures offers[j].Some? <==> Replaceable(row, root, parent, from, j) {
    }
  }

  method VictimSlot(row: seq<int>, n: nat, root: nat, parent: seq<int>, from: nat,
                    distance: (int, int) -> Score) returns (chosen: int)
    requires |parent| == n && RowVisited(row, n, parent)
    ensures IsVictim(row, root, parent, from, distance, chosen)
    ensures -1 <= chosen < |row|
    ensures chosen >= 0 ==> Replaceable(row, root, parent, from, chosen)
    ensures chosen < 0 ==> forall j :: 0 <= j < |row| ==> !Replaceable(row, root, parent, from, j)
  {
    chosen := -1;
    var worst := NegativeInfinity;
    ghost var offers := SlotOffers(row, root, parent, from, distance);
    var j := 0;
    while j < |row|
      invariant j <= |row| && !HasEmptySlot(row, j)
      invariant IsPick(offers[..j], true, chosen)
      invariant chosen >= 0 ==> offers[chosen] == Some(worst)
    {
      var to := row[j];
      if to == INVALID {
        return j;
      }
      assert SlotVisited(row[j], n, parent); // so the out-of-range throw cannot fire here
      assert offers[..j + 1] == offers[..j] + [offers[j]];
      if to == root || parent[to] != from {
        var score := distance(from, to);
        assert offers[j] == Some(score);
        if chosen < 0 || Greater(score, worst) {
          PickTakes(offers[..j], true, chosen, score);
          chosen, worst := j, score;
        } else {
          PickStays(offers[..j], true, chosen, score);
        }
      } else {
        assert !Replaceable(row, root, parent, from, j);
        assert offers[j].None?;
        PickSkips(offers[..j], true, chosen);
      }
      j := j + 1;
    }
    assert offers[..j] == offers;
    VictimIsReplaceable(row, root, parent, from, distance, chosen);
  }

  /** The node is visited and one of its slots can be overwritten without losing a tree edge. */
  ghost predicate Usable(t: Table, n: nat, root: nat, parent: seq<int>, v: int)
    requires |parent| == n <= |t|
  {
    0 <= v < n && parent[v] != INVALID && exists j :: 0 <= j < |t[v]| && Replaceable(t[v], root, parent, v, j)
  }

  ghost predicate GoodChoice(t: Table, n: nat, root: nat, parent: seq<int>, distance: (int, int) -> Score,
                             source: int, slot: int)
    requires |parent| == n <= |t|
  {
    && 0 <= source < n && parent[source] != INVALID
    && 0 <= slot < |t[source]|
    && IsVictim(t[source], root, parent, source, distance, slot)
  }

  ghost predicate SomeUsable(t: Table, n: nat, root: nat, parent: seq<int>, candidates: seq<int>)
    requires |parent| == n <= |t|
  {
    exists i :: 0 <= i < |candidates| && Usable(t, n, root, parent, candidates[i])
  }

  ghost predicate IsFirstUsable(t: Table, n: nat, root: nat, parent: seq<int>, candidates: seq<int>, source: int)
    requires |parent| == n <= |t|
  {
    exists i :: 0 <= i < |candidates| && candidates[i] == source && Usable(t, n, root, parent, source) &&
                forall k :: 0 <= k < i ==> !Usable(t, n, root, parent, candidates[k])
  }

  /** The first usable candidate, if the oracle named one. */
  method CandidateSource(t: Table, n: nat, root: nat, parent: seq<int>, candidates: seq<int>,
                         distance: (int, int) -> Score) returns (source: int, slot: int)
    requires |parent| == n <= |t| && n <= INVALID && ClosedExcept(t, n, parent, [])
    ensures source == INVALID <==> !SomeUsable(t, n, root, parent, candidates)
    ensures source != INVALID ==>
              && GoodChoice(t, n, root, parent, distance, source, slot)
              && IsFirstUsable(t, n, root, parent, candidates, source)
  {
    source, slot := INVALID, -1;
    var i := 0;
    while i < |candidates|
      invariant i <= |candidates|
      invariant forall k :: 0 <= k < i ==> !Usable(t, n, root, parent, candidates[k])
    {
      var candidate := candidates[i];
      if 0 <= candidate < n && parent[candidate] != INVALID {
        assert candidate in Visited(parent);
        var available := VictimSlot(t[candidate], n, root, parent, candidate, distance);
        if available >= 0 {
          assert Usable(t, n, root, parent, candidate);
          return candidate, available;
        }
      }
      i := i + 1;
    }
  }

  /** What the nodes offer the target: their distance, if they are usable. */
  ghost function NodeOffers(t: Table, n: nat, root: nat, parent: seq<int>, target: int,
                            distance: (int, int) -> Score): (offers: seq<Option<Score>>)
    requires |parent| == n <= |t|
    ensures |offers| == n
  {
    seq(n, v requires 0 <= v < n => if Usable(t, n, root, parent, v) then Some(distance(target, v)) else None)
  }

  /** The fallback scan over every node: the nearest usable node, as far as the comparisons can tell. A deepest
      tree node is always usable, so it never comes back empty-handed. */
  method FallbackSource(t: Table, n: nat, root: nat, parent: seq<int>, ghost rank: seq<nat>, target: nat,
                        distance: (int, int) -> Score, slots: nat) returns (source: int, slot: int)
    requires SpanningTree(t, n, root, parent, rank) && WellShaped(t, n, slots) && slots > 0
    requires ClosedExcept(t, n, parent, [])
    ensures source != INVALID && GoodChoice(t, n, root, parent, distance, source, slot)
    ensures IsPick(NodeOffers(t, n, root, parent, target, distance), false, source)
  {
    source, slot := INVALID, -1;
    var best := PositiveInfinity;
    ghost var offers := NodeOffers(t, n, root, parent, target, distance);
    var j := 0;
    while j < n
      invariant j <= n
      invariant IsPick(offers[..j], false, if source == INVALID then -1 else source)
      invariant source != INVALID ==>
                  GoodChoice(t, n, root, parent, distance, source, slot) && offers[source] == Some(best)
    {
      assert offers[..j + 1] == offers[..j] + [offers[j]];
      var available := -1;
      if parent[j] != INVALID {
        assert j in Visited(parent);
        available := VictimSlot(t[j], n, root, parent, j, distance);
      }
      if available >= 0 {
        var score := distance(target, j);
        assert offers[j] == Some(score);
        if source == INVALID || Greater(best, score) {
          PickTakes(offers[..j], false, if source == INVALID then -1 else source, score);
          source, slot, best := j, available, score;
        } else {
          PickStays(offers[..j], false, source, score);
        }
      } else {
        assert !Usable(t, n, root, parent, j);
        assert offers[j].None?;
        PickSkips(offers[..j], false, if source == INVALID then -1 else source);
      }
      j := j + 1;
    }
    assert offers[..j] == offers;
    SomeNodeIsUsable(t, n, root, parent, rank, slots);
    ghost var usable :| 0 <= usable < n && Usable(t, n, root, parent, usable);
    assert offers[usable].Some?;
  }

  /** Some spanning-tree leaf always has a slot to give up. */
  lemma SomeNodeIsUsable(t: Table, n: nat, root: nat, parent: seq<int>, rank: seq<nat>, slots: nat)
    requires SpanningTree(t, n, root, parent, rank) && WellShaped(t, n, slots) && slots > 0
    requires ClosedExcept(t, n, parent, [])
    ensures exists v :: 0 <= v < n && Usable(t, n, root, parent, v)
  {
    var leaf := DeepestNodeExists(parent, rank, root, n);
    DeepestNodeIsLeaf(t, n, root, parent, rank, leaf, 0);
    assert Usable(t, n, root, parent, leaf);
  }

  // ----- The repair -----

  /** A write over a replaceable slot of a visited node hangs an unvisited target below it; only the
      target may then have unvisited neighbours. */
  lemma LinkWrite(t: Table, n: nat, slots: nat, root: nat, parent: seq<int>, rank: seq<nat>, w: Write)
    requires SpanningTree(t, n, root, parent, rank) && WellShaped(t, n, slots) && ClosedExcept(t, n, parent, [])
    requires CanWrite(t, w) && w.source in Visited(parent) && 0 <= w.target < n && w.target !in Visited(parent)
    requires Replaceable(t[w.source], root, parent, w.source, w.slot)
    ensures WellShaped(SetNeighbor(t, w), n, slots)
    ensures SpanningTree(SetNeighbor(t, w), n, root, parent[w.target := w.source], rank[w.target := rank[w.source] + 1])
    ensures Visited(parent[w.target := w.source]) == Visited(parent) + {w.target}
    ensures ClosedExcept(SetNeighbor(t, w), n, parent[w.target := w.source], [w.target])
  {
    var t' := SetNeighbor(t, w);
    var parent' := parent[w.target := w.source];
    WriteKeepsTree(t, n, root, parent, rank, w);
    GrowTree(t', n, root, parent, rank, w.source, w.target);
    forall v | v in Visited(parent') && v !in [w.target] ensures RowVisited(t'[v], n, parent') {
      RowStaysVisited(t[v], n, parent, parent');
      forall j | 0 <= j < |t'[v]| ensures SlotVisited(t'[v][j], n, parent') {
        assert (v, j) != (w.source, w.slot) ==> SlotVisited(t[v][j], n, parent');
      }
    }
  }

  /** Linking and then visiting the target reaches strictly more and loses nothing. */
  lemma LinkReaches(t: Table, n: nat, root: nat, parent: seq<int>, rank: seq<nat>, w: Write,
                    parent': seq<int>, rank': seq<nat>)
    requires SpanningTree(t, n, root, parent, rank) && n <= INVALID && ClosedExcept(t, n, parent, [])
    requires CanWrite(t, w) && w.source in Visited(parent) && 0 <= w.target < n && w.target !in Visited(parent)
    requires SpanningTree(SetNeighbor(t, w), n, root, parent', rank')
    requires ClosedExcept(SetNeighbor(t, w), n, parent', [])
    requires Visited(parent) + {w.target} <= Visited(parent')
    ensures Links(t, n, root, w)
  {
    ClosedTreeIsReachSet(t, n, root, parent, rank);
    ClosedTreeIsReachSet(SetNeighbor(t, w), n, root, parent', rank');
  }

  /** Rows of visited nodes had only good slots to begin with; rows of unvisited nodes are untouched. */
  ghost predicate RowsAccounted(t0: Table, t: Table, n: nat, parent: seq<int>)
    requires |parent| == n <= |t0| == |t|
  {
    forall u :: 0 <= u < n ==> if parent[u] != INVALID then GoodRow(t0[u], n) else t[u] == t0[u]
  }

  ghost predicate TreeState(t: Table, n: nat, slots: nat, root: nat, parent: seq<int>, rank: seq<nat>, i: nat) {
    && WellShaped(t, n, slots) && slots > 0
    && SpanningTree(t, n, root, parent, rank) && ClosedExcept(t, n, parent, [])
    && (forall v :: 0 <= v < i <= n ==> parent[v] != INVALID)
  }

  ghost predicate Ledger(t0: Table, t: Table, n: nat, root: nat, visited: nat,
                         stats: Stats, history: seq<Table>, ws: seq<Write>)
  {
    && stats.reachableBefore == |ReachSet(t0, n, root)|
    && stats.reachableAfter == visited
    && stats.fallbackScans <= stats.repairedEdges == |ws|
    && stats.reachableBefore + stats.repairedEdges <= stats.reachableAfter
    && Repairs(history, n, root, ws) && history[0] == t0 && history[|ws|] == t
  }

  ghost predicate RepairState(t0: Table, t: Table, n: nat, slots: nat, root: nat, parent: seq<int>, rank: seq<nat>,
                              i: nat, stats: Stats, history: seq<Table>, ws: seq<Write>)
  {
    && TreeState(t, n, slots, root, parent, rank, i)
    && n <= |t0| == |t| && RowsAccounted(t0, t, n, parent)
    && Ledger(t0, t, n, root, |Visited(parent)|, stats, history, ws)
  }

  lemma RowsStayAccounted(t0: Table, t: Table, n: nat, parent: seq<int>, w: Write, t': Table, parent': seq<int>)
    requires |parent| == |parent'| == n <= |t0| == |t| == |t'| && n <= INVALID && RowsAccounted(t0, t, n, parent)
    requires CanWrite(t, w) && w.source in Visited(parent) && t' == SetNeighbor(t, w)
    requires Visited(parent) <= Visited(parent') && ClosedExcept(t', n, parent', [])
    ensures RowsAccounted(t0, t', n, parent')
  {
    forall u | 0 <= u < n
      ensures if parent'[u] != INVALID then GoodRow(t0[u], n) else t'[u] == t0[u]
    {
      assert u in Visited(parent) ==> u in Visited(parent');
      if parent[u] == INVALID {
        assert t'[u] == t[u];
        if parent'[u] != INVALID {
          assert u in Visited(parent') && RowVisited(t'[u], n, parent');
          forall j | 0 <= j < |t0[u]| ensures GoodSlot(t0[u][j], n) {
            assert SlotVisited(t'[u][j], n, parent');
          }
        }
      }
    }
  }

  lemma LedgerAdvances(t0: Table, t: Table, n: nat, root: nat, visited: nat, stats: Stats,
                       history: seq<Table>, ws: seq<Write>, w: Write, t': Table, visited': nat, stats': Stats)
    requires Ledger(t0, t, n, root, visited, stats, history, ws)
    requires RepairStep(t, n, root, w, t') && visited < visited'
    requires stats'.reachableBefore == stats.reachableBefore && stats'.repairedEdges == stats.repairedEdges + 1
    requires stats'.reachableAfter == visited'
    requires stats.fallbackScans <= stats'.fallbackScans <= stats.fallbackScans + 1
    ensures Ledger(t0, t', n, root, visited', stats', history + [t'], ws + [w])
  {
    RepairsExtend(history, n, root, ws, w, t');
  }

  lemma RepairAdvances(t0: Table, t: Table, n: nat, slots: nat, root: nat, parent: seq<int>, rank: seq<nat>,
                       i: nat, stats: Stats, history: seq<Table>, ws: seq<Write>, w: Write,
                       t': Table, parent': seq<int>, rank': seq<nat>, stats': Stats)
    requires RepairState(t0, t, n, slots, root, parent, rank, i, stats, history, ws)
    requires CanWrite(t, w) && w.source in Visited(parent) && w.target == i < n && parent[i] == INVALID
    requires t' == SetNeighbor(t, w)
    requires SpanningTree(t', n, root, parent', rank') && ClosedExcept(t', n, parent', [])
    requires Visited(parent) + {w.target} <= Visited(parent')
    requires stats'.reachableBefore == stats.reachableBefore && stats'.repairedEdges == stats.repairedEdges + 1
    requires stats'.reachableAfter == |Visited(parent')|
    requires stats.fallbackScans <= stats'.fallbackScans <= stats.fallbackScans + 1
    ensures RepairState(t0, t', n, slots, root, parent', rank', i + 1, stats', history + [t'], ws + [w])
  {
    LinkReaches(t, n, root, parent, rank, w, parent', rank');
    RowsStayAccounted(t0, t, n, parent, w, t', parent');
    VisitedGrew(n, parent, parent', i);
    LedgerAdvances(t0, t, n, root, |Visited(parent)|, stats, history, ws, w, t', |Visited(parent')|, stats');
  }

  lemma VisitedGrew(n: nat, parent: seq<int>, parent': seq<int>, i: nat)
    requires |parent| == |parent'| == n && i < n && (forall v :: 0 <= v < i <= n ==> parent[v] != INVALID)
    requires parent[i] == INVALID && Visited(parent) + {i} <= Visited(parent')
    ensures |Visited(parent)| < |Visited(parent')|
    ensures forall v :: 0 <= v < i + 1 <= n ==> parent'[v] != INVALID
  {
    var grown := Visited(parent) + {i};
    assert Visited(parent') == grown + (Visited(parent') - grown);
    forall v | 0 <= v < i + 1 ensures parent'[v] != INVALID {
      assert v in grown;
    }
  }

  lemma RepairSkips(t0: Table, t: Table, n: nat, slots: nat, root: nat, parent: seq<int>, rank: seq<nat>,
                    i: nat, stats: Stats, history: seq<Table>, ws: seq<Write>)
    requires RepairState(t0, t, n, slots, root, parent, rank, i, stats, history, ws)
    requires i < n && parent[i] != INVALID
    ensures RepairState(t0, t, n, slots, root, parent, rank, i + 1, stats, history, ws)
  {
  }

  lemma RepairsExtend(history: seq<Table>, n: nat, root: nat, ws: seq<Write>, w: Write, t': Table)
    requires Repairs(history, n, root, ws) && RepairStep(history[|ws|], n, root, w, t')
    ensures Repairs(history + [t'], n, root, ws + [w])
  {
    var h, ws' := history + [t'], ws + [w];
    forall k | 0 <= k < |ws'| ensures RepairStep(h[k], n, root, ws'[k], h[k + 1]) {
      if k < |ws| {
        assert RepairStep(history[k], n, root, ws[k], history[k + 1]);
        assert ws'[k] == ws[k] && h[k] == history[k] && h[k + 1] == history[k + 1];
      } else {
        assert ws'[k] == w && h[k] == history[|ws|] && h[k + 1] == t';
      }
    }
  }

  /** The state before the first repair: the tree covers what the input table reaches. */
  lemma RepairStarts(t: Table, n: nat, slots: nat, root: nat, parent: seq<int>, rank: seq<nat>, count: nat)
    requires WellShaped(t, n, slots) && slots > 0
    requires SpanningTree(t, n, root, parent, rank) && ClosedExcept(t, n, parent, []) && count == |Visited(parent)|
    ensures RepairState(t, t, n, slots, root, parent, rank, 0, Stats(count, count, 0, 0), [t], [])
  {
    ClosedTreeIsReachSet(t, n, root, parent, rank);
    forall u | 0 <= u < n && parent[u] != INVALID ensures GoodRow(t[u], n) {
      assert u in Visited(parent) && RowVisited(t[u], n, parent);
      forall j | 0 <= j < |t[u]| ensures GoodSlot(t[u][j], n) {
        assert SlotVisited(t[u][j], n, parent);
      }
    }
  }

  // ----- Which slot every write takes -----

  /** The rule for the least unvisited node: its source is the first usable candidate or, if there is none, the
      nearest usable node, and the slot is the one that source has to give up. */
  ghost predicate IsChoice(t: Table, n: nat, root: nat, parent: seq<int>, distance: (int, int) -> Score,
                           candidates: seq<int>, w: Write)
    requires |parent| == n <= |t|
  {
    && 0 <= w.target < n && parent[w.target] == INVALID && (forall v :: 0 <= v < w.target ==> parent[v] != INVALID)
    && GoodChoice(t, n, root, parent, distance, w.source, w.slot)
    && if SomeUsable(t, n, root, parent, candidates) then IsFirstUsable(t, n, root, parent, candidates, w.source)
       else IsPick(NodeOffers(t, n, root, parent, w.target, distance), false, w.source)
  }

  /** What the rule comes to as long as no distance is NaN: a nearest usable node, and the first empty slot or
      a farthest replaceable one. */
  lemma ChoiceIsNearest(t: Table, n: nat, root: nat, parent: seq<int>, distance: (int, int) -> Score,
                        candidates: seq<int>, w: Write)
    requires |parent| == n <= |t| && IsChoice(t, n, root, parent, distance, candidates, w)
    requires forall a, b :: distance(a, b) != NotANumber
    ensures Usable(t, n, root, parent, w.source)
    ensures !SomeUsable(t, n, root, parent, candidates) ==>
              forall v :: 0 <= v < n && Usable(t, n, root, parent, v) ==>
                && NoMore(distance(w.target, w.source), distance(w.target, v))
                && (distance(w.target, v) == distance(w.target, w.source) ==> w.source <= v)
    ensures forall j :: 0 <= j < w.slot ==> t[w.source][j] != INVALID
    ensures t[w.source][w.slot] != INVALID ==>
              forall j :: 0 <= j < |t[w.source]| ==>
                && t[w.source][j] != INVALID
                && (Replaceable(t[w.source], root, parent, w.source, j) ==>
                      NoMore(distance(w.source, t[w.source][j]), distance(w.source, t[w.source][w.slot])))
  {
    var row := t[w.source];
    VictimIsReplaceable(row, root, parent, w.source, distance, w.slot);
    if !SomeUsable(t, n, root, parent, candidates) {
      var offers := NodeOffers(t, n, root, parent, w.target, distance);
      forall v | 0 <= v < n && Usable(t, n, root, parent, v)
        ensures NoMore(distance(w.target, w.source), distance(w.target, v))
        ensures distance(w.target, v) == distance(w.target, w.source) ==> w.source <= v
      {
        assert offers[v] == Some(distance(w.target, v)) && offers[w.source] == Some(distance(w.target, w.source));
      }
    }
    if row[w.slot] != INVALID {
      var offers := SlotOffers(row, root, parent, w.source, distance);
      assert offers[w.slot] == Some(distance(w.source, row[w.slot]));
      forall j | 0 <= j < |row|
        ensures row[j] != INVALID
        ensures Replaceable(row, root, parent, w.source, j) ==>
                  NoMore(distance(w.source, row[j]), distance(w.source, row[w.slot]))
      {
        assert Replaceable(row, root, parent, w.source, j) ==> offers[j] == Some(distance(w.source, row[j]));
      }
    }
  }

  /** Only the root is visited. */
  ghost function RootOnly(n: nat, root: nat): (parent: seq<int>)
    ensures |parent| == n
  {
    seq(n, v => if v == root then root else INVALID)
  }

  ghost predicate IsTreeOf(t: Table, n: nat, root: nat, parent: seq<int>) {
    |parent| == n <= |t| && Visited(parent) == ReachSet(t, n, root)
  }

  ghost predicate Chosen(findNeighbors: (Table, nat) -> seq<int>, distance: (int, int) -> Score, n: nat, root: nat,
                         t: Table, parent: seq<int>, w: Write, t': Table)
  {
    && |parent| == n <= |t| && w.target >= 0
    && IsChoice(t, n, root, parent, distance, findNeighbors(t, w.target), w)
    && CanWrite(t, w) && t' == SetNeighbor(t, w)
  }

  /** After a write, the visit goes on from its target. */
  ghost predicate Continues(n: nat, parent: seq<int>, w: Write, t': Table, parent': seq<int>) {
    && |parent| == n && 0 <= w.target < n
    && IsVisit(t', n, parent[w.target := w.source], w.target, parent')
  }

  /** The whole run: the table before and after every write, and the tree each table was visited with. The last
      write goes without its visit when that visit met a bad slot. */
  ghost predicate Trace(findNeighbors: (Table, nat) -> seq<int>, distance: (int, int) -> Score, n: nat, root: nat,
                        history: seq<Table>, ws: seq<Write>, trees: seq<seq<int>>)
  {
    && |history| == |ws| + 1 && |ws| <= |trees| <= |ws| + 1
    && (forall k :: 0 <= k < |trees| ==> IsTreeOf(history[k], n, root, trees[k]))
    && (|trees| > 0 ==> IsVisit(history[0], n, RootOnly(n, root), root, trees[0]))
    && (forall k :: 0 <= k < |ws| ==>
          Chosen(findNeighbors, distance, n, root, history[k], trees[k], ws[k], history[k + 1]))
    && (forall k :: 0 <= k < |ws| && k + 1 < |trees| ==>
          Continues(n, trees[k], ws[k], history[k + 1], trees[k + 1]))
  }

  /** The writes for which no candidate was usable. */
  ghost function Fallbacks(findNeighbors: (Table, nat) -> seq<int>, n: nat, root: nat,
                           history: seq<Table>, ws: seq<Write>, trees: seq<seq<int>>): (s: set<nat>)
  {
    set k: nat | k < |ws| && NoCandidate(findNeighbors, n, root, history, ws, trees, k)
  }

  ghost predicate NoCandidate(findNeighbors: (Table, nat) -> seq<int>, n: nat, root: nat,
                              history: seq<Table>, ws: seq<Write>, trees: seq<seq<int>>, k: nat)
  {
    && k < |ws| && k < |trees| && k < |history| && |trees[k]| == n <= |history[k]| && ws[k].target >= 0
    && !SomeUsable(history[k], n, root, trees[k], findNeighbors(history[k], ws[k].target))
  }

  /** The run so far, ending with a visited table. */
  ghost predicate Traced(findNeighbors: (Table, nat) -> seq<int>, distance: (int, int) -> Score, n: nat, root: nat,
                         history: seq<Table>, ws: seq<Write>, trees: seq<seq<int>>, parent: seq<int>, scans: nat)
  {
    && Trace(findNeighbors, distance, n, root, history, ws, trees)
    && |trees| == |ws| + 1 && trees[|ws|] == parent
    && scans == |Fallbacks(findNeighbors, n, root, history, ws, trees)|
  }

  lemma TraceStarts(findNeighbors: (Table, nat) -> seq<int>, distance: (int, int) -> Score, t: Table, n: nat,
                    root: nat, parent: seq<int>, rank: seq<nat>)
    requires SpanningTree(t, n, root, parent, rank) && n <= INVALID && ClosedExcept(t, n, parent, [])
    requires IsVisit(t, n, RootOnly(n, root), root, parent)
    ensures Traced(findNeighbors, distance, n, root, [t], [], [parent], parent, 0)
  {
    ClosedTreeIsReachSet(t, n, root, parent, rank);
    assert Fallbacks(findNeighbors, n, root, [t], [], [parent]) == {};
  }

  /** One more write extends the run; its visit may still be missing. */
  lemma TraceWrites(findNeighbors: (Table, nat) -> seq<int>, distance: (int, int) -> Score, n: nat, root: nat,
                    history: seq<Table>, ws: seq<Write>, trees: seq<seq<int>>, w: Write, t': Table)
    requires Trace(findNeighbors, distance, n, root, history, ws, trees) && |trees| == |ws| + 1
    requires Chosen(findNeighbors, distance, n, root, history[|ws|], trees[|ws|], w, t')
    ensures Trace(findNeighbors, distance, n, root, history + [t'], ws + [w], trees)
  {
    var h, ws' := history + [t'], ws + [w];
    forall k | 0 <= k < |ws'|
      ensures Chosen(findNeighbors, distance, n, root, h[k], trees[k], ws'[k], h[k + 1])
      ensures k + 1 < |trees| ==> Continues(n, trees[k], ws'[k], h[k + 1], trees[k + 1])
    {
      if k < |ws| {
        assert ws'[k] == ws[k] && h[k] == history[k] && h[k + 1] == history[k + 1];
      } else {
        assert ws'[k] == w && h[k] == history[|ws|] && h[k + 1] == t';
      }
    }
    assert h[0] == history[0];
    forall k | 0 <= k < |trees| ensures IsTreeOf(h[k], n, root, trees[k]) {
      assert h[k] == history[k];
    }
  }

  lemma TraceVisits(findNeighbors: (Table, nat) -> seq<int>, distance: (int, int) -> Score, n: nat, root: nat,
                    history: seq<Table>, ws: seq<Write>, trees: seq<seq<int>>, parent: seq<int>, rank: seq<nat>)
    requires Trace(findNeighbors, distance, n, root, history, ws, trees) && |trees| == |ws| > 0
    requires Continues(n, trees[|ws| - 1], ws[|ws| - 1], history[|ws|], parent)
    requires SpanningTree(history[|ws|], n, root, parent, rank) && n <= INVALID
    requires ClosedExcept(history[|ws|], n, parent, [])
    ensures Trace(findNeighbors, distance, n, root, history, ws, trees + [parent])
  {
    ClosedTreeIsReachSet(history[|ws|], n, root, parent, rank);
    var trees' := trees + [parent];
    forall k | 0 <= k < |ws|
      ensures Chosen(findNeighbors, distance, n, root, history[k], trees'[k], ws[k], history[k + 1])
      ensures k + 1 < |trees'| ==> Continues(n, trees'[k], ws[k], history[k + 1], trees'[k + 1])
    {
      assert trees'[k] == trees[k];
      assert k + 1 < |trees| ==> trees'[k + 1] == trees[k + 1];
    }
    assert trees'[0] == trees[0];
    forall k | 0 <= k < |trees'| ensures IsTreeOf(history[k], n, root, trees'[k]) {
      assert k < |trees| ==> trees'[k] == trees[k];
    }
  }

  lemma FallbacksGrow(findNeighbors: (Table, nat) -> seq<int>, n: nat, root: nat, history: seq<Table>,
                      ws: seq<Write>, trees: seq<seq<int>>, w: Write, t': Table, parent': seq<int>, fallback: bool)
    requires |history| == |trees| == |ws| + 1 && |trees[|ws|]| == n <= |history[|ws|]| && w.target >= 0
    requires fallback <==>
               !SomeUsable(history[|ws|], n, root, trees[|ws|], findNeighbors(history[|ws|], w.target))
    ensures |Fallbacks(findNeighbors, n, root, history + [t'], ws + [w], trees + [parent'])| ==
            |Fallbacks(findNeighbors, n, root, history, ws, trees)| + if fallback then 1 else 0
  {
    var h, ws', trees' := history + [t'], ws + [w], trees + [parent'];
    var now := Fallbacks(findNeighbors, n, root, history, ws, trees);
    var last: nat := |ws|;
    forall k: nat | k < |ws'|
      ensures NoCandidate(findNeighbors, n, root, h, ws', trees', k) <==>
              if k < last then NoCandidate(findNeighbors, n, root, history, ws, trees, k) else fallback
    {
      assert h[k] == history[k] && trees'[k] == trees[k];
      if k < last {
        assert ws'[k] == ws[k];
      } else {
        assert ws'[k] == w;
      }
    }
    assert Fallbacks(findNeighbors, n, root, h, ws', trees') == now + if fallback then {last} else {};
  }

  /** What a completed repair guarantees. */
  ghost predicate Repaired(findNeighbors: (Table, nat) -> seq<int>, distance: (int, int) -> Score, t0: Table, t: Table,
                           n: nat, root: nat, stats: Stats, history: seq<Table>, ws: seq<Write>,
                           trees: seq<seq<int>>)
  {
    && (forall v :: 0 <= v < n ==> Reaches(t, n, root, v))
    && stats.reachableAfter == n
    && stats.reachableBefore == |ReachSet(t0, n, root)|
    && stats.fallbackScans <= stats.repairedEdges == |ws| <= n - stats.reachableBefore
    && Repairs(history, n, root, ws) && history[0] == t0 && history[|ws|] == t
    && n <= |t| == |t0| && (forall u :: 0 <= u < n ==> |t[u]| == |t0[u]|)
    && !HasBadSlot(t0, n)
    && Trace(findNeighbors, distance, n, root, history, ws, trees) && |trees| == |ws| + 1
    && stats.fallbackScans == |Fallbacks(findNeighbors, n, root, history, ws, trees)|
  }

  /** What is left behind when a visit meets a bad slot: every write so far followed the rule, and the table is the
      one after the last of them. */
  ghost predicate Abandoned(findNeighbors: (Table, nat) -> seq<int>, distance: (int, int) -> Score, t0: Table, t: Table,
                            n: nat, root: nat, history: seq<Table>, ws: seq<Write>, trees: seq<seq<int>>)
  {
    && HasBadSlot(t0, n)
    && Trace(findNeighbors, distance, n, root, history, ws, trees) && |trees| == |ws|
    && history[0] == t0 && history[|ws|] == t
  }

  lemma RepairEnds(findNeighbors: (Table, nat) -> seq<int>, distance: (int, int) -> Score, t0: Table, t: Table, n: nat,
                   slots: nat, root: nat, parent: seq<int>, rank: seq<nat>,
                   stats: Stats, history: seq<Table>, ws: seq<Write>, trees: seq<seq<int>>)
    requires WellShaped(t0, n, slots)
    requires RepairState(t0, t, n, slots, root, parent, rank, n, stats, history, ws)
    requires Traced(findNeighbors, distance, n, root, history, ws, trees, parent, stats.fallbackScans)
    ensures Repaired(findNeighbors, distance, t0, t, n, root, stats, history, ws, trees)
  {
    RangeSize(Visited(parent), n);
    forall v | 0 <= v < n ensures Reaches(t, n, root, v) {
      TreeIsReachable(t, n, root, parent, rank, v);
    }
  }

  /** The graph store: one row of `slots` neighbour slots for every reserved element. */
  class Store {
    var edges: Table
    const nextId: nat
    const slots: nat

    constructor (edges: Table, nextId: nat, slots: nat)
      requires nextId <= INVALID && forall u :: 0 <= u < |edges| ==> |edges[u]| == slots
      ensures Valid() && this.edges == edges && this.nextId == nextId && this.slots == slots
    {
      this.edges, this.nextId, this.slots := edges, nextId, slots;
    }

    ghost predicate Valid()
      reads this
    {
      nextId <= INVALID && forall u :: 0 <= u < |edges| ==> |edges[u]| == slots
    }
  }

  /** The slot to overwrite for `target`: a candidate's if one is usable, the fallback scan's otherwise. */
  method ChooseSource(t: Table, n: nat, slots: nat, root: nat, parent: seq<int>, ghost rank: seq<nat>, target: nat,
                      candidates: seq<int>, distance: (int, int) -> Score) returns (w: Write, fallback: bool)
    requires TreeState(t, n, slots, root, parent, rank, target) && target < n && parent[target] == INVALID
    ensures CanWrite(t, w) && w.source in Visited(parent) && w.target == target
    ensures IsChoice(t, n, root, parent, distance, candidates, w)
    ensures fallback <==> !SomeUsable(t, n, root, parent, candidates)
  {
    var source, slot := CandidateSource(t, n, root, parent, candidates, distance);
    fallback := source == INVALID;
    if fallback {
      source, slot := FallbackSource(t, n, root, parent, rank, target, distance, slots);
    }
    w := Write(source, slot, target);
    assert w.source in Visited(parent);
  }

  /** The write for `i` follows the rule. */
  ghost predicate IsWritten(t: Table, n: nat, root: nat, parent: seq<int>, distance: (int, int) -> Score,
                            candidates: seq<int>, i: nat, w: Write, fallback: bool, t': Table)
  {
    && |parent| == n <= |t| && w.target == i && CanWrite(t, w) && t' == SetNeighbor(t, w)
    && IsChoice(t, n, root, parent, distance, candidates, w)
    && (fallback <==> !SomeUsable(t, n, root, parent, candidates))
  }

  /** And the visit from it is finished. */
  ghost predicate IsLinked(n: nat, root: nat, parent: seq<int>, i: nat, w: Write, t': Table,
                           parent': seq<int>, rank': seq<nat>, count: nat)
  {
    && |parent| == n && SpanningTree(t', n, root, parent', rank') && ClosedExcept(t', n, parent', [])
    && Visited(parent) + {i} <= Visited(parent') && |Visited(parent')| == |Visited(parent)| + count
    && Continues(n, parent, w, t', parent')
  }

  ghost predicate HasBadRow(t: Table, n: nat, parent: seq<int>) {
    |parent| == n <= |t| && exists u :: 0 <= u < n && parent[u] == INVALID && !GoodRow(t[u], n)
  }

  /** One repair: link the unvisited node `i` and visit whatever it brings within reach. */
  method LinkTarget(store: Store, n: nat, slots: nat, root: nat, parent: seq<int>, ghost rank: seq<nat>, i: nat,
                    candidates: seq<int>, distance: (int, int) -> Score)
    returns (ok: bool, w: Write, fallback: bool, parent': seq<int>, ghost rank': seq<nat>, count: nat)
    requires i < n && TreeState(store.edges, n, slots, root, parent, rank, i) && parent[i] == INVALID
    modifies store
    ensures IsWritten(old(store.edges), n, root, parent, distance, candidates, i, w, fallback, store.edges)
    ensures ok ==> IsLinked(n, root, parent, i, w, store.edges, parent', rank', count)
    ensures !ok ==> HasBadRow(old(store.edges), n, parent)
  {
    ghost var t := store.edges;
    w, fallback := ChooseSource(store.edges, n, slots, root, parent, rank, i, candidates, distance);
    VictimIsReplaceable(t[w.source], root, parent, w.source, distance, w.slot);
    LinkWrite(t, n, slots, root, parent, rank, w);
    store.edges := SetNeighbor(store.edges, w);
    ghost var rank1 := rank[i := rank[w.source] + 1];
    ok, parent', rank', count := Visit(store.edges, n, root, parent[i := w.source], rank1, i);
  }

  lemma TraceAdvances(findNeighbors: (Table, nat) -> seq<int>, distance: (int, int) -> Score, n: nat, root: nat,
                      history: seq<Table>, ws: seq<Write>, trees: seq<seq<int>>, parent: seq<int>, scans: nat,
                      w: Write, t': Table, parent': seq<int>, rank': seq<nat>, fallback: bool)
    requires Traced(findNeighbors, distance, n, root, history, ws, trees, parent, scans)
    requires Trace(findNeighbors, distance, n, root, history + [t'], ws + [w], trees)
    requires n <= |history[|ws|]| && w.target >= 0 && Continues(n, parent, w, t', parent')
    requires SpanningTree(t', n, root, parent', rank') && n <= INVALID && ClosedExcept(t', n, parent', [])
    requires fallback <==> !SomeUsable(history[|ws|], n, root, parent, findNeighbors(history[|ws|], w.target))
    ensures Traced(findNeighbors, distance, n, root, history + [t'], ws + [w], trees + [parent'], parent',
                   if fallback then scans + 1 else scans)
  {
    TraceVisits(findNeighbors, distance, n, root, history + [t'], ws + [w], trees, parent', rank');
    FallbacksGrow(findNeighbors, n, root, history, ws, trees, w, t', parent', fallback);
  }

  /** Ledger and run, up to node `i`. */
  ghost predicate Repairing(findNeighbors: (Table, nat) -> seq<int>, distance: (int, int) -> Score, t0: Table, t: Table,
                            n: nat, slots: nat, root: nat, parent: seq<int>, rank: seq<nat>, i: nat, stats: Stats,
                            history: seq<Table>, ws: seq<Write>, trees: seq<seq<int>>)
  {
    && RepairState(t0, t, n, slots, root, parent, rank, i, stats, history, ws)
    && Traced(findNeighbors, distance, n, root, history, ws, trees, parent, stats.fallbackScans)
  }

  lemma NodeWritten(findNeighbors: (Table, nat) -> seq<int>, distance: (int, int) -> Score, t0: Table, t: Table, n: nat,
                    slots: nat, root: nat, parent: seq<int>, rank: seq<nat>, i: nat, stats: Stats,
                    history: seq<Table>, ws: seq<Write>, trees: seq<seq<int>>, w: Write, fallback: bool, t': Table)
    requires Repairing(findNeighbors, distance, t0, t, n, slots, root, parent, rank, i, stats, history, ws, trees)
    requires IsWritten(t, n, root, parent, distance, findNeighbors(t, i), i, w, fallback, t')
    ensures Trace(findNeighbors, distance, n, root, history + [t'], ws + [w], trees) && |trees| == |ws| + 1
  {
    TraceWrites(findNeighbors, distance, n, root, history, ws, trees, w, t');
  }

  lemma NodeRepaired(findNeighbors: (Table, nat) -> seq<int>, distance: (int, int) -> Score, t0: Table, t: Table,
                     n: nat, slots: nat, root: nat, parent: seq<int>, rank: seq<nat>, i: nat, stats: Stats,
                     history: seq<Table>, ws: seq<Write>, trees: seq<seq<int>>, w: Write, fallback: bool, t': Table,
                     parent': seq<int>, rank': seq<nat>, count: nat, stats': Stats)
    requires Repairing(findNeighbors, distance, t0, t, n, slots, root, parent, rank, i, stats, history, ws, trees)
    requires i < n && parent[i] == INVALID
    requires IsWritten(t, n, root, parent, distance, findNeighbors(t, i), i, w, fallback, t')
    requires IsLinked(n, root, parent, i, w, t', parent', rank', count)
    requires stats' == Stats(stats.reachableBefore, stats.reachableAfter + count, stats.repairedEdges + 1,
                             if fallback then stats.fallbackScans + 1 else stats.fallbackScans)
    ensures Repairing(findNeighbors, distance, t0, t', n, slots, root, parent', rank', i + 1, stats',
                      history + [t'], ws + [w], trees + [parent'])
  {
    NodeWritten(findNeighbors, distance, t0, t, n, slots, root, parent, rank, i, stats, history, ws, trees,
                w, fallback, t');
    assert w.source in Visited(parent);
    RepairAdvances(t0, t, n, slots, root, parent, rank, i, stats, history, ws, w, t', parent', rank', stats');
    TraceAdvances(findNeighbors, distance, n, root, history, ws, trees, parent, stats.fallbackScans, w, t',
                  parent', rank', fallback);
  }

  /** The ledger and the run after one repair. */
  method RepairNode(store: Store, ghost t0: Table, n: nat, slots: nat, root: nat,
                    parent: seq<int>, ghost rank: seq<nat>, i: nat, stats: Stats,
                    ghost history: seq<Table>, ghost ws: seq<Write>, ghost trees: seq<seq<int>>,
                    findNeighbors: (Table, nat) -> seq<int>, distance: (int, int) -> Score)
    returns (ok: bool, parent': seq<int>, ghost rank': seq<nat>, stats': Stats,
             ghost history': seq<Table>, ghost ws': seq<Write>, ghost trees': seq<seq<int>>)
    requires i < n
    requires Repairing(findNeighbors, distance, t0, store.edges, n, slots, root, parent, rank, i, stats,
                       history, ws, trees)
    requires parent[i] == INVALID
    modifies store
    ensures ok ==> Repairing(findNeighbors, distance, t0, store.edges, n, slots, root, parent', rank', i + 1, stats',
                             history', ws', trees')
    ensures !ok ==> Abandoned(findNeighbors, distance, t0, store.edges, n, root, history', ws', trees')
  {
    ghost var t := store.edges;
    var w, fallback, count;
    ok, w, fallback, parent', rank', count :=
      LinkTarget(store, n, slots, root, parent, rank, i, findNeighbors(store.edges, i), distance);
    stats' := Stats(stats.reachableBefore, stats.reachableAfter + count, stats.repairedEdges + 1,
                    if fallback then stats.fallbackScans + 1 else stats.fallbackScans);
    history', ws', trees' := history + [store.edges], ws + [w], trees;
    if !ok {
      NodeWritten(findNeighbors, distance, t0, t, n, slots, root, parent, rank, i, stats, history, ws, trees,
                  w, fallback, store.edges);
      RepairStops(findNeighbors, distance, t0, t, n, slots, root, parent, rank, i, stats, history, ws, trees,
                  w, store.edges);
      return;
    }
    trees' := trees + [parent'];
    NodeRepaired(findNeighbors, distance, t0, t, n, slots, root, parent, rank, i, stats, history, ws, trees,
                 w, fallback, store.edges, parent', rank', count, stats');
  }

  /** A bad row met by a visit was a bad row of the input. */
  lemma RepairStops(findNeighbors: (Table, nat) -> seq<int>, distance: (int, int) -> Score, t0: Table, t: Table,
                    n: nat, slots: nat, root: nat, parent: seq<int>, rank: seq<nat>, i: nat, stats: Stats,
                    history: seq<Table>, ws: seq<Write>, trees: seq<seq<int>>, w: Write, t': Table)
    requires RepairState(t0, t, n, slots, root, parent, rank, i, stats, history, ws)
    requires Trace(findNeighbors, distance, n, root, history + [t'], ws + [w], trees) && |trees| == |ws| + 1
    requires HasBadRow(t, n, parent)
    ensures Abandoned(findNeighbors, distance, t0, t', n, root, history + [t'], ws + [w], trees)
  {
    var u :| 0 <= u < n && parent[u] == INVALID && !GoodRow(t[u], n);
    assert t[u] == t0[u];
    assert (history + [t'])[0] == history[0];
  }

  method RepairBaseConnectivity(store: Store, root: nat,
                                findNeighbors: (Table, nat) -> seq<int>, distance: (int, int) -> Score)
    returns (result: Result, ghost history: seq<Table>, ghost ws: seq<Write>, ghost trees: seq<seq<int>>)
    requires store.Valid()
    modifies store
    ensures result == Thrown(NodeCountExceedsSlots) <==> store.nextId > |old(store.edges)|
    ensures result == Thrown(InvalidRootOrDegree) <==>
              0 < store.nextId <= |old(store.edges)| && (root >= store.nextId || store.slots == 0)
    ensures result == Thrown(InvalidNeighbor) <==>
              && 0 < store.nextId <= |old(store.edges)| && root < store.nextId && store.slots > 0
              && HasBadSlot(old(store.edges), store.nextId)
    ensures store.nextId == 0 ==> result == Done(Stats(0, 0, 0, 0)) && store.edges == old(store.edges)
    ensures result.Thrown? && result.error != InvalidNeighbor ==> store.edges == old(store.edges)
    ensures result == Thrown(InvalidNeighbor) ==>
              Abandoned(findNeighbors, distance, old(store.edges), store.edges, store.nextId, root, history, ws, trees)
    ensures result.Done? && store.nextId > 0 ==>
              Repaired(findNeighbors, distance, old(store.edges), store.edges, store.nextId, root, result.stats,
                       history, ws, trees)
  {
    var n, slots := store.nextId, store.slots;
    history, ws, trees := [], [], [];
    if n > |store.edges| {
      return Thrown(NodeCountExceedsSlots), history, ws, trees;
    }
    if n == 0 {
      return Done(Stats(0, 0, 0, 0)), history, ws, trees;
    }
    if root >= n || slots == 0 {
      return Thrown(InvalidRootOrDegree), history, ws, trees;
    }
    result, history, ws, trees := ConnectAll(store, n, slots, root, findNeighbors, distance);
  }

  /** The body proper: the first visit and one repair for every node it leaves unvisited. */
  method ConnectAll(store: Store, n: nat, slots: nat, root: nat,
                    findNeighbors: (Table, nat) -> seq<int>, distance: (int, int) -> Score)
    returns (result: Result, ghost history: seq<Table>, ghost ws: seq<Write>, ghost trees: seq<seq<int>>)
    requires WellShaped(store.edges, n, slots) && root < n && slots > 0
    modifies store
    ensures result.Thrown? ==>
              && result.error == InvalidNeighbor
              && Abandoned(findNeighbors, distance, old(store.edges), store.edges, n, root, history, ws, trees)
    ensures result.Done? ==>
              Repaired(findNeighbors, distance, old(store.edges), store.edges, n, root, result.stats,
                       history, ws, trees)
  {
    ghost var t0 := store.edges;
    history, ws, trees := [t0], [], [];
    var ok, parent, rank, count := FirstVisit(store.edges, n, slots, root);
    if !ok {
      return Thrown(InvalidNeighbor), history, ws, trees;
    }
    var stats := Stats(count, count, 0, 0);
    trees := [parent];
    RepairStarts(t0, n, slots, root, parent, rank, count);
    TraceStarts(findNeighbors, distance, t0, n, root, parent, rank);
    var i := 0;
    while i < n
      invariant i <= n
      invariant Repairing(findNeighbors, distance, t0, store.edges, n, slots, root, parent, rank, i, stats,
                          history, ws, trees)
    {
      if parent[i] != INVALID {
        RepairSkips(t0, store.edges, n, slots, root, parent, rank, i, stats, history, ws);
      } else {
        ok, parent, rank, stats, history, ws, trees :=
          RepairNode(store, t0, n, slots, root, parent, rank, i, stats, history, ws, trees,
                     findNeighbors, distance);
        if !ok {
          return Thrown(InvalidNeighbor), history, ws, trees;
        }
      }
      i := i + 1;
    }
    RepairEnds(findNeighbors, distance, t0, store.edges, n, slots, root, parent, rank, stats, history, ws, trees);
    return Done(stats), history, ws, trees;
  }

  method FirstVisit(t: Table, n: nat, slots: nat, root: nat)
    returns (ok: bool, parent: seq<int>, ghost rank: seq<nat>, count: nat)
    requires WellShaped(t, n, slots) && root < n
    ensures !ok ==> HasBadSlot(t, n)
    ensures ok ==> SpanningTree(t, n, root, parent, rank) && ClosedExcept(t, n, parent, [])
    ensures ok ==> count == |Visited(parent)|
    ensures ok ==> IsVisit(t, n, RootOnly(n, root), root, parent)
  {
    parent := seq(n, _ => INVALID)[root := root];
    rank := seq(n, _ => 0);
    assert Visited(parent) == {root};
    assert parent == RootOnly(n, root);
    ok, parent, rank, count := Visit(t, n, root, parent, rank, root);
  }
}
