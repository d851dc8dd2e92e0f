/** Breadth-first search over an adjacency matrix (`bfs`) and the adjacency matrix of the
    search tree it finds (`build_bfs_tree_matrix`). An edge from `v` to `u` is an entry
    `graph[v][u] == 1`; `None` in the parent list marks the start and every vertex the search
    never reached. */
module Bfs {
  import opened Wrappers

  /** A list of `V` rows of `V` entries each. */
  predicate IsAdjacency(graph: seq<seq<int>>) {
    forall v :: 0 <= v < |graph| ==> |graph[v]| == |graph|
  }

  /** A walk along edges of the graph: every step `p[i] -> p[i + 1]` is an entry 1. */
  predicate IsWalk(graph: seq<seq<int>>, p: seq<nat>)
    requires IsAdjacency(graph)
  {
    |p| >= 1 && (forall i :: 0 <= i < |p| ==> p[i] < |graph|) &&
    forall i :: 0 <= i < |p| - 1 ==> graph[p[i]][p[i + 1]] == 1
  }

  ghost predicate Reachable(graph: seq<seq<int>>, start: nat, u: nat)
    requires IsAdjacency(graph)
  {
    exists p :: IsWalk(graph, p) && p[0] == start && p[|p| - 1] == u
  }

  /** The number of `false` entries. */
  function CountFalse(s: seq<bool>): (n: nat)
    ensures n <= |s|
  {
    if s == [] then 0 else CountFalse(s[..|s| - 1]) + if s[|s| - 1] then 0 else 1
  }

  lemma {:induction false} CountFalseAll(n: nat)
    ensures CountFalse(seq(n, _ => false)) == n
  {
    if n > 0 {
      assert seq(n, _ => false)[..n - 1] == seq(n - 1, _ => false);
      CountFalseAll(n - 1);
    }
  }

  /** Marking one unmarked entry removes one `false`. */
  lemma {:induction false} CountFalseMark(s: seq<bool>, i: nat)
    requires i < |s| && !s[i]
    ensures CountFalse(s[i := true]) == CountFalse(s) - 1
  {
    var t := s[i := true];
    if i < |s| - 1 {
      assert t[..|t| - 1] == s[..|s| - 1][i := true];
      CountFalseMark(s[..|s| - 1], i);
    } else {
      assert t[..|t| - 1] == s[..|s| - 1];
    }
  }

  /** A walk to `v` followed by the edge `v -> u` is a walk to `u`. */
  lemma ReachableStep(graph: seq<seq<int>>, start: nat, v: nat, u: nat)
    requires IsAdjacency(graph) && v < |graph| && u < |graph| && graph[v][u] == 1
    requires Reachable(graph, start, v)
    ensures Reachable(graph, start, u)
  {
    var p :| IsWalk(graph, p) && p[0] == start && p[|p| - 1] == v;
    assert IsWalk(graph, p + [u]);
  }

  /** A set of vertices that holds `start` and every neighbour of its members holds every
      vertex reachable from `start`. */
  lemma {:induction false} ClosedHoldsReachable(graph: seq<seq<int>>, start: nat, marked: seq<bool>, p: seq<nat>)
    requires IsAdjacency(graph) && |marked| == |graph| && start < |graph| && marked[start]
    requires forall w, u :: 0 <= w < |graph| && 0 <= u < |graph| && marked[w] && graph[w][u] == 1 ==> marked[u]
    requires IsWalk(graph, p) && p[0] == start
    ensures marked[p[|p| - 1]]
  {
    if |p| > 1 {
      var q := p[..|p| - 1];
      assert IsWalk(graph, q);
      ClosedHoldsReachable(graph, start, marked, q);
      assert graph[q[|q| - 1]][p[|p| - 1]] == 1;
    }
  }

  /** What holds of the search between two steps: `vis` and `par` are the `visited` and
      `parent` lists, `order` every vertex queued so far. */
  ghost predicate Searching(graph: seq<seq<int>>, start: nat, vis: seq<bool>, par: seq<Option<nat>>,
                            order: seq<nat>)
    requires IsAdjacency(graph)
  {
    Visiting(graph, start, vis, par, order) && ParentsEarlier(par, order)
  }

  /** The search state apart from the order of the parents: the visited vertices are the
      queued ones, each queued once, and each but the start has a visited parent with an edge
      to it. */
  ghost predicate Visiting(graph: seq<seq<int>>, start: nat, vis: seq<bool>, par: seq<Option<nat>>,
                           order: seq<nat>)
    requires IsAdjacency(graph)
  {
    var n := |graph|;
    |vis| == n && |par| == n && start < n &&
    |order| >= 1 && order[0] == start && |order| + CountFalse(vis) == n &&
    (forall i :: 0 <= i < |order| ==> order[i] < n) &&
    (forall i, j :: 0 <= i < j < |order| ==> order[i] != order[j]) &&
    (forall w :: 0 <= w < n ==> (vis[w] <==> w in order)) &&
    par[start] == None &&
    (forall w :: 0 <= w < n ==> (par[w].Some? <==> vis[w] && w != start)) &&
    (forall w :: 0 <= w < n && par[w].Some? ==>
       par[w].value < n && graph[par[w].value][w] == 1 && vis[par[w].value])
  }

  /** Every queued vertex after the first has a parent that was queued before it. */
  predicate ParentsEarlier(par: seq<Option<nat>>, order: seq<nat>)
    requires forall i :: 0 <= i < |order| ==> order[i] < |par|
  {
    forall j :: 0 < j < |order| ==> par[order[j]].Some? && par[order[j]].value in order[..j]
  }

  /** Queueing a new vertex `u` with a queued parent `v` keeps every parent queued earlier. */
  lemma ParentsEarlierVisit(par: seq<Option<nat>>, order: seq<nat>, v: nat, u: nat)
    requires forall i :: 0 <= i < |order| ==> order[i] < |par|
    requires ParentsEarlier(par, order) && u < |par| && u !in order && v in order
    ensures ParentsEarlier(par[u := Some(v)], order + [u])
  {
    var par', order' := par[u := Some(v)], order + [u];
    forall j | 0 < j < |order'|
      ensures par'[order'[j]].Some? && par'[order'[j]].value in order'[..j]
    {
      if j < |order| {
        assert order'[j] == order[j] && order'[..j] == order[..j];
      } else {
        assert order'[..j] == order;
      }
    }
  }

  /** Every neighbour of the first `k` queued vertices is visited. */
  ghost predicate Scanned(graph: seq<seq<int>>, vis: seq<bool>, order: seq<nat>, k: nat)
    requires IsAdjacency(graph) && |vis| == |graph| && k <= |order|
    requires forall i :: 0 <= i < |order| ==> order[i] < |graph|
  {
    forall i, w :: 0 <= i < k && 0 <= w < |graph| && graph[order[i]][w] == 1 ==> vis[w]
  }

  /** Visiting more vertices and queueing more keeps the scanned prefix scanned. */
  lemma ScannedKeeps(graph: seq<seq<int>>, vis: seq<bool>, vis': seq<bool>, order: seq<nat>, order': seq<nat>, k: nat)
    requires IsAdjacency(graph) && |vis| == |graph| && |vis'| == |graph|
    requires k <= |order| <= |order'| && order'[..|order|] == order
    requires forall i :: 0 <= i < |order'| ==> order'[i] < |graph|
    requires forall w :: 0 <= w < |graph| && vis[w] ==> vis'[w]
    requires Scanned(graph, vis, order, k)
    ensures Scanned(graph, vis', order', k)
  {
    forall i | 0 <= i < k ensures order'[i] == order[i] {
      assert order'[..|order|][i] == order'[i];
    }
  }

  /** Once every neighbour of `order[k]` is visited, the first `k + 1` queued vertices are
      scanned. */
  lemma ScannedNext(graph: seq<seq<int>>, vis: seq<bool>, order: seq<nat>, k: nat)
    requires IsAdjacency(graph) && |vis| == |graph| && k < |order|
    requires forall i :: 0 <= i < |order| ==> order[i] < |graph|
    requires Scanned(graph, vis, order, k)
    requires forall w :: 0 <= w < |graph| && graph[order[k]][w] == 1 ==> vis[w]
    ensures Scanned(graph, vis, order, k + 1)
  {
  }

  /** When every queued vertex is scanned, the search has visited exactly the vertices
      reachable from `start`, and each has a reachable parent with an edge to it. */
  lemma Finished(graph: seq<seq<int>>, start: nat, vis: seq<bool>, par: seq<Option<nat>>, order: seq<nat>)
    requires IsAdjacency(graph) && Searching(graph, start, vis, par, order)
    requires Scanned(graph, vis, order, |order|)
    requires forall w :: 0 <= w < |graph| && vis[w] ==> Reachable(graph, start, w)
    ensures forall u :: 0 <= u < |graph| && par[u].Some? ==>
              par[u].value < |graph| && graph[par[u].value][u] == 1 &&
              Reachable(graph, start, par[u].value)
    ensures forall u :: 0 <= u < |graph| && u != start ==> (par[u].Some? <==> Reachable(graph, start, u))
    ensures |order| <= |graph|
    ensures forall u :: 0 <= u < |graph| ==> (u in order <==> Reachable(graph, start, u))
  {
    forall u | 0 <= u < |graph| && Reachable(graph, start, u) ensures vis[u] {
      var p :| IsWalk(graph, p) && p[0] == start && p[|p| - 1] == u;
      ClosedHoldsReachable(graph, start, vis, p);
    }
  }

  /** Visiting `u` from `v` keeps the search state. */
  lemma Visit(graph: seq<seq<int>>, start: nat, vis: seq<bool>, par: seq<Option<nat>>,
              order: seq<nat>, v: nat, u: nat)
    requires IsAdjacency(graph) && Searching(graph, start, vis, par, order)
    requires v < |graph| && vis[v] && u < |graph| && graph[v][u] == 1 && !vis[u]
    ensures Searching(graph, start, vis[u := true], par[u := Some(v)], order + [u])
  {
    VisitKeeps(graph, start, vis, par, order, v, u);
    ParentsEarlierVisit(par, order, v, u);
  }

  lemma VisitKeeps(graph: seq<seq<int>>, start: nat, vis: seq<bool>, par: seq<Option<nat>>,
                   order: seq<nat>, v: nat, u: nat)
    requires IsAdjacency(graph) && Visiting(graph, start, vis, par, order)
    requires v < |graph| && vis[v] && u < |graph| && graph[v][u] == 1 && !vis[u]
    ensures Visiting(graph, start, vis[u := true], par[u := Some(v)], order + [u])
  {
    CountFalseMark(vis, u);
  }

  /** Every neighbour of `v` below `k` is visited. */
  predicate NeighboursVisited(graph: seq<seq<int>>, v: nat, vis: seq<bool>, k: nat)
    requires IsAdjacency(graph) && v < |graph| && |vis| == |graph| && k <= |graph|
  {
    forall w :: 0 <= w < k && graph[v][w] == 1 ==> vis[w]
  }

  lemma NeighboursMark(graph: seq<seq<int>>, v: nat, vis: seq<bool>, u: nat)
    requires IsAdjacency(graph) && v < |graph| && |vis| == |graph| && u < |graph|
    requires NeighboursVisited(graph, v, vis, u)
    ensures NeighboursVisited(graph, v, vis[u := true], u + 1)
  {
  }

  lemma NeighboursNext(graph: seq<seq<int>>, v: nat, vis: seq<bool>, u: nat)
    requires IsAdjacency(graph) && v < |graph| && |vis| == |graph| && u < |graph|
    requires NeighboursVisited(graph, v, vis, u) && (graph[v][u] == 1 ==> vis[u])
    ensures NeighboursVisited(graph, v, vis, u + 1)
  {
  }

  /** The invariant of the `for u in range(V)` loop for the dequeued vertex `v` once the
      columns below `u` are done: the search state holds, `added` were queued, nothing visited
      before was lost, every neighbour below `u` is visited and every newly visited vertex is a
      neighbour of `v`. */
  ghost predicate Scanning(graph: seq<seq<int>>, start: nat, v: nat, visited0: seq<bool>, order0: seq<nat>,
                           u: nat, vis: seq<bool>, par: seq<Option<nat>>, order: seq<nat>, added: seq<nat>)
    requires IsAdjacency(graph) && v < |graph| && |visited0| == |graph| && u <= |graph|
  {
    Searching(graph, start, vis, par, order) && order == order0 + added &&
    (forall w :: 0 <= w < |graph| && visited0[w] ==> vis[w]) &&
    NeighboursVisited(graph, v, vis, u) &&
    (forall w :: 0 <= w < |graph| && vis[w] && !visited0[w] ==> graph[v][w] == 1)
  }

  /** Visiting the unvisited neighbour `u` keeps the scan invariant for the next column. */
  lemma ScanVisit(graph: seq<seq<int>>, start: nat, v: nat, visited0: seq<bool>, order0: seq<nat>,
                  u: nat, vis: seq<bool>, par: seq<Option<nat>>, order: seq<nat>, added: seq<nat>)
    requires IsAdjacency(graph) && v < |graph| && |visited0| == |graph| && u < |graph| && visited0[v]
    requires Scanning(graph, start, v, visited0, order0, u, vis, par, order, added)
    requires graph[v][u] == 1 && !vis[u]
    ensures Scanning(graph, start, v, visited0, order0, u + 1, vis[u := true], par[u := Some(v)],
                     order + [u], added + [u])
  {
    Visit(graph, start, vis, par, order, v, u);
    NeighboursMark(graph, v, vis, u);
  }

  lemma AppendOne(a: seq<nat>, b: seq<nat>, x: nat)
    ensures (a + b) + [x] == a + (b + [x])
  {
  }

  /** Passing over column `u` keeps the scan invariant when `u` is no edge or already visited. */
  lemma ScanSkip(graph: seq<seq<int>>, start: nat, v: nat, visited0: seq<bool>, order0: seq<nat>,
                 u: nat, vis: seq<bool>, par: seq<Option<nat>>, order: seq<nat>, added: seq<nat>)
    requires IsAdjacency(graph) && v < |graph| && |visited0| == |graph| && u < |graph|
    requires Scanning(graph, start, v, visited0, order0, u, vis, par, order, added)
    requires !(graph[v][u] == 1 && !vis[u])
    ensures Scanning(graph, start, v, visited0, order0, u + 1, vis, par, order, added)
  {
    NeighboursNext(graph, v, vis, u);
  }

  /** The `for u in range(V)` loop for the dequeued vertex `v`: every neighbour of `v` not yet
      visited is visited, given parent `v` and queued, in increasing order. */
  method Scan(graph: seq<seq<int>>, start: nat, v: nat, visited0: seq<bool>, par0: seq<Option<nat>>,
              queue0: seq<nat>, ghost order0: seq<nat>)
    returns (visited: seq<bool>, par: seq<Option<nat>>, queue: seq<nat>, ghost order: seq<nat>, ghost added: seq<nat>)
    requires IsAdjacency(graph) && Searching(graph, start, visited0, par0, order0)
    requires v < |graph| && visited0[v]
    ensures Searching(graph, start, visited, par, order)
    ensures order == order0 + added && queue == queue0 + added
    ensures forall w :: 0 <= w < |graph| && visited0[w] ==> visited[w]
    ensures NeighboursVisited(graph, v, visited, |graph|)
    ensures forall w :: 0 <= w < |graph| && visited[w] && !visited0[w] ==> graph[v][w] == 1
  {
    visited, par, queue, order, added := visited0, par0, queue0, order0, [];
    for u: nat := 0 to |graph|
      invariant Scanning(graph, start, v, visited0, order0, u, visited, par, order, added)
      invariant queue == queue0 + added
    {
      if graph[v][u] == 1 && !visited[u] {
        ScanVisit(graph, start, v, visited0, order0, u, visited, par, order, added);
        AppendOne(queue0, added, u);
        visited := visited[u := true];
        par := par[u := Some(v)];
        queue := queue + [u];
        order := order + [u];
        added := added + [u];
      } else {
        ScanSkip(graph, start, v, visited0, order0, u, visited, par, order, added);
      }
    }
  }

  /** The invariant of the `while queue` loop once `head` vertices have been dequeued: the
      search state holds, the dequeued vertices are scanned and every visited vertex is
      reachable from `start`. */
  ghost predicate Queued(graph: seq<seq<int>>, start: nat, vis: seq<bool>, par: seq<Option<nat>>,
                         order: seq<nat>, head: nat)
    requires IsAdjacency(graph)
  {
    Searching(graph, start, vis, par, order) && head <= |order| &&
    Scanned(graph, vis, order, head) &&
    (forall w :: 0 <= w < |graph| && vis[w] ==> Reachable(graph, start, w))
  }

  /** Scanning the neighbours of the vertex dequeued at `head` keeps the loop invariant with
      one more vertex dequeued. */
  lemma ScanStep(graph: seq<seq<int>>, start: nat, v: nat,
                 vis: seq<bool>, par: seq<Option<nat>>, order0: seq<nat>,
                 vis': seq<bool>, par': seq<Option<nat>>, order: seq<nat>, added: seq<nat>, head: nat)
    requires IsAdjacency(graph) && Queued(graph, start, vis, par, order0, head)
    requires head < |order0| && v == order0[head]
    requires Searching(graph, start, vis', par', order) && order == order0 + added
    requires forall w :: 0 <= w < |graph| && vis[w] ==> vis'[w]
    requires NeighboursVisited(graph, v, vis', |graph|)
    requires forall w :: 0 <= w < |graph| && vis'[w] && !vis[w] ==> graph[v][w] == 1
    ensures Queued(graph, start, vis', par', order, head + 1)
  {
    assert order[..|order0|] == order0;
    ScannedKeeps(graph, vis, vis', order0, order, head);
    ScannedNext(graph, vis', order, head);
    forall w | 0 <= w < |graph| && vis'[w] ensures Reachable(graph, start, w) {
      if !vis[w] {
        ReachableStep(graph, start, v, w);
      }
    }
  }

  /** One turn of the `while queue` loop: `queue.popleft()` and the scan of its neighbours. */
  method Dequeue(graph: seq<seq<int>>, start: nat, visited0: seq<bool>, par0: seq<Option<nat>>,
                 queue0: seq<nat>, ghost order0: seq<nat>, ghost head: nat)
    returns (visited: seq<bool>, par: seq<Option<nat>>, queue: seq<nat>, ghost order: seq<nat>)
    requires IsAdjacency(graph) && Queued(graph, start, visited0, par0, order0, head)
    requires queue0 == order0[head..] && queue0 != []
    ensures Queued(graph, start, visited, par, order, head + 1)
    ensures queue == order[head + 1..]
  {
    var v := queue0[0];
    ghost var added;
    visited, par, queue, order, added := Scan(graph, start, v, visited0, par0, queue0[1..], order0);
    ScanStep(graph, start, v, visited0, par0, order0, visited, par, order, added, head);
    QueueTail(order0, added, head);
  }

  /** Dropping the front of the queue and appending to both keeps the queue the unscanned
      tail of the record. */
  lemma QueueTail(order0: seq<nat>, added: seq<nat>, head: nat)
    requires head < |order0|
    ensures order0[head..][1..] + added == (order0 + added)[head + 1..]
  {
  }

  /** `bfs(graph, start)`. `order` is the ghost record of every vertex in the order it was put on
      the queue: each vertex is queued at most once, so the loop takes at most `V` turns, and
      the queued vertices are exactly those reachable from `start`. The start keeps parent
      `None`; every other vertex has a parent exactly when it is reachable, and its parent is
      a reachable vertex with an edge to it. */
  method Search(graph: seq<seq<int>>, start: nat) returns (parent: seq<Option<nat>>, ghost order: seq<nat>)
    requires IsAdjacency(graph) && start < |graph|
    ensures |parent| == |graph|
    ensures parent[start] == None
    ensures forall u :: 0 <= u < |graph| && parent[u].Some? ==>
              parent[u].value < |graph| && graph[parent[u].value][u] == 1 &&
              Reachable(graph, start, parent[u].value)
    ensures forall u :: 0 <= u < |graph| && u != start ==> (parent[u].Some? <==> Reachable(graph, start, u))
    ensures 1 <= |order| <= |graph| && order[0] == start
    ensures forall i, j :: 0 <= i < j < |order| ==> order[i] != order[j]
    ensures forall u :: 0 <= u < |graph| ==> (u in order <==> Reachable(graph, start, u))
    ensures forall i :: 0 <= i < |order| ==> order[i] < |graph|
    ensures forall j :: 0 < j < |order| ==> parent[order[j]].Some? && parent[order[j]].value in order[..j]
  {
    var n := |graph|;
    var visited := seq(n, _ => false);
    parent := seq(n, _ => None);
    CountFalseAll(n);
    CountFalseMark(visited, start);
    visited := visited[start := true];
    assert IsWalk(graph, [start]);
    var queue := [start];
    order := [start];
    ghost var head := 0;
    while queue != []
      invariant Queued(graph, start, visited, parent, order, head)
      invariant queue == order[head..]
      decreases n - head
    {
      visited, parent, queue, order := Dequeue(graph, start, visited, parent, queue, order, head);
      head := head + 1;
    }
    Finished(graph, start, visited, parent, order);
  }

  /** Whether `build_bfs_tree_matrix` puts a 1 at row `i`, column `j`: `j` is the parent of `i`
      or `i` is the parent of `j`. */
  predicate TreeEdge(parent: seq<Option<nat>>, i: nat, j: nat)
    requires i < |parent| && j < |parent|
  {
    parent[i] == Some(j) || parent[j] == Some(i)
  }

  /** The entry of row `a`, column `b` once rows `0 .. k - 1` of the parent list are done. */
  function PartialEntry(parent: seq<Option<nat>>, k: nat, a: nat, b: nat): int
    requires a < |parent| && b < |parent|
  {
    if (a < k && parent[a] == Some(b)) || (b < k && parent[b] == Some(a)) then 1 else 0
  }

  /** `build_bfs_tree_matrix(parent)`: a `V x V` matrix of zeros with a 1 at `(parent[i], i)`
      and at `(i, parent[i])` for every `i` with a parent. Python would raise `IndexError` for
      a parent outside `0 .. V - 1`; `bfs` never returns one. */
  method BuildTreeMatrix(parent: seq<Option<nat>>) returns (tree: array2<int>)
    requires forall i :: 0 <= i < |parent| && parent[i].Some? ==> parent[i].value < |parent|
    ensures tree.Length0 == |parent| && tree.Length1 == |parent|
    ensures forall i, j :: 0 <= i < |parent| && 0 <= j < |parent| ==>
              tree[i, j] == if TreeEdge(parent, i, j) then 1 else 0
  {
    var n := |parent|;
    tree := new int[n, n]((_, _) => 0);
    for i := 0 to n
      invariant forall a, b :: 0 <= a < n && 0 <= b < n ==> tree[a, b] == PartialEntry(parent, i, a, b)
    {
      if parent[i].Some? {
        var u := parent[i].value;
        tree[u, i] := 1;
        tree[i, u] := 1;
      }
    }
  }

  /** The tree matrix is symmetric, holds only 0 and 1, and each of its 1s lies on an edge of
      the graph the parents came from. */
  lemma TreeMatrixShape(graph: seq<seq<int>>, parent: seq<Option<nat>>)
    requires IsAdjacency(graph) && |parent| == |graph|
    requires forall u :: 0 <= u < |graph| && parent[u].Some? ==>
               parent[u].value < |graph| && graph[parent[u].value][u] == 1
    ensures forall i, j :: 0 <= i < |parent| && 0 <= j < |parent| ==>
              (TreeEdge(parent, i, j) <==> TreeEdge(parent, j, i))
    ensures forall i, j :: 0 <= i < |parent| && 0 <= j < |parent| && TreeEdge(parent, i, j) ==>
              graph[i][j] == 1 || graph[j][i] == 1
  {
  }

  /** A walk along the 1s of the tree matrix. */
  predicate IsTreeWalk(parent: seq<Option<nat>>, p: seq<nat>) {
    |p| >= 1 && (forall i :: 0 <= i < |p| ==> p[i] < |parent|) &&
    forall i :: 0 <= i < |p| - 1 ==> TreeEdge(parent, p[i], p[i + 1])
  }

  ghost predicate TreeConnected(parent: seq<Option<nat>>, start: nat, u: nat) {
    exists p :: IsTreeWalk(parent, p) && p[0] == start && p[|p| - 1] == u
  }

  /** Following parents back from the `j`-th queued vertex reaches the first one. */
  lemma {:induction false} ChainTo(parent: seq<Option<nat>>, order: seq<nat>, j: nat)
    requires j < |order| && forall i :: 0 <= i < |order| ==> order[i] < |parent|
    requires forall k :: 0 < k < |order| ==> parent[order[k]].Some? && parent[order[k]].value in order[..k]
    ensures TreeConnected(parent, order[0], order[j])
    decreases j
  {
    if j == 0 {
      assert IsTreeWalk(parent, [order[0]]);
    } else {
      var i :| 0 <= i < j && order[i] == parent[order[j]].value;
      ChainTo(parent, order, i);
      var p :| IsTreeWalk(parent, p) && p[0] == order[0] && p[|p| - 1] == order[i];
      assert TreeEdge(parent, order[i], order[j]);
      assert IsTreeWalk(parent, p + [order[j]]);
    }
  }

  /** Following the search: every vertex reachable from `start` is joined to `start` by a walk
      along the 1s of the tree matrix, so the parents form a tree rooted at `start`. */
  lemma SearchTreeConnected(graph: seq<seq<int>>, start: nat, parent: seq<Option<nat>>, order: seq<nat>, u: nat)
    requires IsAdjacency(graph) && |parent| == |graph| && u < |graph|
    requires |order| >= 1 && order[0] == start
    requires forall i :: 0 <= i < |order| ==> order[i] < |graph|
    requires forall j :: 0 < j < |order| ==> parent[order[j]].Some? && parent[order[j]].value in order[..j]
    requires forall w :: 0 <= w < |graph| ==> (w in order <==> Reachable(graph, start, w))
    requires Reachable(graph, start, u)
    ensures TreeConnected(parent, start, u)
  {
    var j :| 0 <= j < |order| && order[j] == u;
    ChainTo(parent, order, j);
  }

  /** Following the search: a vertex the search could not reach has an empty row in the
      tree matrix. */
  lemma SearchTree(graph: seq<seq<int>>, start: nat, parent: seq<Option<nat>>, u: nat)
    requires IsAdjacency(graph) && start < |graph| && u < |graph| && |parent| == |graph|
    requires forall w :: 0 <= w < |graph| && w != start ==> (parent[w].Some? <==> Reachable(graph, start, w))
    requires forall w :: 0 <= w < |graph| && parent[w].Some? ==> Reachable(graph, start, parent[w].value)
    requires !Reachable(graph, start, u)
    ensures forall j :: 0 <= j < |graph| ==> !TreeEdge(parent, u, j)
  {
    assert IsWalk(graph, [start]);
  }
}
