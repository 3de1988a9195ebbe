/**
 * The wait-for graph (WaitForGraph.java): an edge u -> w says that
 * transaction u waits for transaction w. Deadlock detection is a depth-first
 * search that reports the first back edge it meets and rebuilds the cycle
 * while the recursion unwinds.
 *
 * The search is proved sound (a reported list is a cycle of the graph) and
 * complete (no report means the graph has no cycle). Completeness rests on a
 * ghost finishing order: every finished node waits only for finished nodes
 * that finished earlier.
 */
module Deadlock {
  import opened Common

  type Graph = map<TxId, set<TxId>>

  /** The transactions `u` waits for (an absent key has none). */
  function Succ(g: Graph, u: TxId): set<TxId>
  {
    if u in g then g[u] else {}
  }

  /** Every transaction that appears in the graph, as a source or as a target. */
  ghost function Nodes(g: Graph): set<TxId>
    decreases |g|
  {
    if g == map[] then {}
    else
      var u :| u in g;
      assert |g - {u}| < |g| by { assert g.Keys == (g - {u}).Keys + {u}; }
      {u} + g[u] + Nodes(g - {u})
  }

  /** Every source and every target of an edge is a node. */
  lemma {:induction false} NodesHold(g: Graph, u: TxId)
    requires u in g
    ensures u in Nodes(g) && g[u] <= Nodes(g)
    decreases |g|
  {
    var v :| v in g && Nodes(g) == {v} + g[v] + Nodes(g - {v});
    if v != u {
      assert |g - {v}| < |g| by { assert g.Keys == (g - {v}).Keys + {v}; }
      NodesHold(g - {v}, u);
    }
  }

  predicate Distinct(s: seq<TxId>)
  {
    forall i, j :: 0 <= i < j < |s| ==> s[i] != s[j]
  }

  /** Consecutive elements of `p` are joined by edges. */
  ghost predicate IsPath(g: Graph, p: seq<TxId>)
  {
    forall i :: 0 <= i < |p| - 1 ==> p[i + 1] in Succ(g, p[i])
  }

  /**
   * `p` is a simple path, stated one step at a time as the search builds
   * it: every element follows its predecessor by an edge and is new.
   */
  ghost predicate Simple(g: Graph, p: seq<TxId>)
    decreases |p|
  {
    |p| >= 1
    && (|p| >= 2 ==>
      && Simple(g, p[..|p| - 1])
      && p[|p| - 1] in Succ(g, p[|p| - 2])
      && p[|p| - 1] !in p[..|p| - 1])
  }

  lemma {:induction false} SimpleIsPath(g: Graph, p: seq<TxId>)
    requires Simple(g, p)
    ensures IsPath(g, p) && Distinct(p)
    decreases |p|
  {
    if |p| >= 2 {
      var q := p[..|p| - 1];
      SimpleIsPath(g, q);
      assert forall i :: 0 <= i < |q| ==> p[i] == q[i];
      forall i, j | 0 <= i < j < |p|
        ensures p[i] != p[j]
      {
        if j == |p| - 1 {
          assert p[i] in q;
        }
      }
    }
  }

  /**
   * A cycle as the search reports it: distinct transactions, each waiting
   * for the one before it, and the first waiting for the last.
   */
  ghost predicate IsCycle(g: Graph, c: seq<TxId>)
  {
    && |c| >= 1
    && Distinct(c)
    && c[|c| - 1] in Succ(g, c[0])
    && forall i :: 1 <= i < |c| ==> c[i - 1] in Succ(g, c[i])
  }

  ghost predicate HasCycle(g: Graph)
  {
    exists c :: IsCycle(g, c)
  }

  function Reverse(s: seq<TxId>): (r: seq<TxId>)
    ensures |r| == |s|
    ensures forall x :: x in r <==> x in s
  {
    if s == [] then [] else Reverse(s[1..]) + [s[0]]
  }

  /** Position `i` of the reversal holds the element `i` places from the end. */
  lemma {:induction false} ReverseAt(s: seq<TxId>)
    ensures forall i :: 0 <= i < |s| ==> Reverse(s)[i] == s[|s| - 1 - i]
    decreases |s|
  {
    if s != [] {
      ReverseAt(s[1..]);
    }
  }

  function Max(a: int, b: int): int
  {
    if a < b then b else a
  }

  /** addEdge, as a value: exactly one edge more (if it was not there already). */
  function AddedEdge(g: Graph, source: TxId, end: TxId): (r: Graph)
    ensures r.Keys == g.Keys + {source}
    ensures forall u, w :: w in Succ(r, u) <==> w in Succ(g, u) || (u == source && w == end)
  {
    g[source := Succ(g, source) + {end}]
  }

  /** Adding an edge that is already there changes nothing but the key set. */
  lemma AddEdgeIdempotent(g: Graph, source: TxId, end: TxId)
    ensures AddedEdge(AddedEdge(g, source, end), source, end) == AddedEdge(g, source, end)
  {
  }

  /** removeNode, as a value: the node loses its own entry and every edge into it. */
  function RemovedNode(g: Graph, n: TxId): (r: Graph)
    ensures r.Keys == g.Keys - {n}
    ensures forall u, w :: w in Succ(r, u) <==> w in Succ(g, u) && u != n && w != n
  {
    map u | u in g && u != n :: g[u] - {n}
  }

  /** Removing a node breaks every cycle through it and creates none. */
  lemma RemovedNodeCycles(g: Graph, n: TxId, c: seq<TxId>)
    requires IsCycle(RemovedNode(g, n), c)
    ensures IsCycle(g, c) && n !in c
  {
    forall i | 0 <= i < |c|
      ensures c[i] != n
    {
      if i == 0 {
        assert c[|c| - 1] in Succ(RemovedNode(g, n), c[0]);
      } else {
        assert c[i - 1] in Succ(RemovedNode(g, n), c[i]);
      }
    }
  }

  /**
   * `S` is closed under edges and `rank` strictly decreases along them: the
   * state of the finished part of a depth-first search.
   */
  ghost predicate Ranked(g: Graph, S: set<TxId>, rank: map<TxId, nat>)
  {
    && (forall u :: u in S ==> u in rank)
    && forall u {:trigger Succ(g, u)} :: u in S ==>
      forall w {:trigger w in Succ(g, u)} :: w in Succ(g, u) ==> w in S && rank[w] < rank[u]
  }

  lemma {:induction false} CycleInside(g: Graph, S: set<TxId>, rank: map<TxId, nat>, c: seq<TxId>, i: int)
    requires Ranked(g, S, rank) && IsCycle(g, c) && c[|c| - 1] in S
    requires 0 <= i < |c|
    ensures c[i] in S
    decreases |c| - i
  {
    if i < |c| - 1 {
      CycleInside(g, S, rank, c, i + 1);
      assert c[i] in Succ(g, c[i + 1]);
    }
  }

  lemma {:induction false} RankClimbs(g: Graph, S: set<TxId>, rank: map<TxId, nat>, c: seq<TxId>, i: int)
    requires Ranked(g, S, rank) && IsCycle(g, c)
    requires forall j :: 0 <= j < |c| ==> c[j] in S
    requires 0 <= i < |c|
    ensures rank[c[i]] >= rank[c[0]] + i
  {
    if i > 0 {
      RankClimbs(g, S, rank, c, i - 1);
      assert c[i - 1] in Succ(g, c[i]);
    }
  }

  /** A graph whose every source is ranked has no cycle. */
  lemma RankedAcyclic(g: Graph, S: set<TxId>, rank: map<TxId, nat>)
    requires Ranked(g, S, rank) && g.Keys <= S
    ensures !HasCycle(g)
  {
    if c :| IsCycle(g, c) {
      assert c[0] in g;
      assert c[|c| - 1] in S;
      forall j | 0 <= j < |c|
        ensures c[j] in S
      {
        CycleInside(g, S, rank, c, j);
      }
      RankClimbs(g, S, rank, c, |c| - 1);
      assert false;
    }
  }

  /**
   * A simple path closed by a back edge to position `k` yields the cycle
   * the search reports: the target of the back edge, then the path after
   * it, backwards.
   */
  lemma BackEdgeCycle(g: Graph, p: seq<TxId>, k: nat)
    requires IsPath(g, p) && Distinct(p) && k < |p|
    requires p[k] in Succ(g, p[|p| - 1])
    ensures IsCycle(g, [p[k]] + Reverse(p[k + 1..]))
  {
    var c := [p[k]] + Reverse(p[k + 1..]);
    var n := |p| - 1;
    ReverseAt(p[k + 1..]);
    assert forall i :: 1 <= i < |c| ==> c[i] == p[n + 1 - i];
    forall i | 1 <= i < |c|
      ensures c[i - 1] in Succ(g, c[i])
    {
      if i >= 2 {
        assert p[n + 2 - i] in Succ(g, p[n + 1 - i]);
      }
    }
    if n > k {
      assert c[|c| - 1] == p[k + 1];
    }
  }

  /** The transactions on a sequence. */
  ghost function Elems(s: seq<TxId>): set<TxId>
  {
    if s == [] then {} else {s[0]} + Elems(s[1..])
  }

  lemma {:induction false} ElemsMember(s: seq<TxId>, x: TxId)
    ensures x in Elems(s) <==> x in s
  {
    if s != [] {
      ElemsMember(s[1..], x);
      assert s == [s[0]] + s[1..];
    }
  }

  lemma {:induction false} ElemsAppend(s: seq<TxId>, x: TxId)
    ensures Elems(s + [x]) == Elems(s) + {x}
  {
    if s != [] {
      ElemsAppend(s[1..], x);
      assert (s + [x])[1..] == s[1..] + [x];
    }
  }

  /** Visiting a successor not yet visited shrinks the unvisited part of the graph. */
  lemma Unvisited(g: Graph, visited: set<TxId>, u: TxId, end: TxId)
    requires end in Succ(g, u) && end !in visited
    ensures end in Nodes(g)
    ensures |Nodes(g) - (visited + {end})| < |Nodes(g) - visited|
  {
    NodesHold(g, u);
    assert Nodes(g) - (visited + {end}) == (Nodes(g) - visited) - {end};
  }

  /** Visiting more nodes never enlarges the unvisited part. */
  lemma MoreVisited(g: Graph, visited: set<TxId>, visited': set<TxId>)
    requires visited <= visited'
    ensures |Nodes(g) - visited'| <= |Nodes(g) - visited|
  {
    var a, b := Nodes(g) - visited', Nodes(g) - visited;
    assert b == a + (b - a) && a * (b - a) == {};
  }

  lemma Grows(a: set<TxId>, b: set<TxId>, c: set<TxId>)
    requires a <= b && b <= c
    ensures a <= c
  {
  }

  /** Extending a simple path by an edge to a new node. */
  lemma Push(g: Graph, stack: seq<TxId>, end: TxId)
    requires Simple(g, stack)
    requires end in Succ(g, stack[|stack| - 1]) && end !in Elems(stack)
    ensures Simple(g, stack + [end])
    ensures Elems(stack + [end]) == Elems(stack) + {end}
  {
    assert (stack + [end])[..|stack|] == stack;
    ElemsMember(stack, end);
    ElemsAppend(stack, end);
  }

  /**
   * One step of unwinding the search after the node at position `m` of `p`
   * reported a cycle: that node is already in the rebuilt list exactly when
   * it is the target `p[j]` of the back edge, and appending it otherwise
   * extends the reversed part by one.
   */
  lemma Unwind(p: seq<TxId>, j: nat, m: nat)
    requires Unique(p, m) && j < |p| && m < |p|
    ensures (p[m] in [p[j]] + Reverse(p[Max(j, m) + 1..])) <==> j == m
    ensures j < m ==> [p[j]] + Reverse(p[m + 1..]) + [p[m]] == [p[j]] + Reverse(p[m..])
  {
    if j != m {
      var tail := p[Max(j, m) + 1..];
      assert forall i :: 0 <= i < |tail| ==> tail[i] == p[Max(j, m) + 1 + i];
      assert p[m] !in tail;
    }
    assert p[m..][1..] == p[m + 1..];
  }

  /** `path` is a simple path whose last node has a back edge to position `k`. */
  ghost predicate ClosesAt(g: Graph, path: seq<TxId>, k: nat)
  {
    Simple(g, path) && k < |path| && path[k] in Succ(g, path[|path| - 1])
  }

  /**
   * The rebuilt list `c` and the switch `sw` when the search leaves the top
   * of `stack`, after a back edge from the end of `path` to position `k`.
   */
  ghost predicate Rebuilt(g: Graph, c: seq<TxId>, sw: bool, stack: seq<TxId>, path: seq<TxId>, k: nat)
  {
    && 1 <= |stack| <= |path| && path[..|stack|] == stack
    && ClosesAt(g, path, k)
    && Listed(c, sw, |stack| - 1, path, k)
  }

  /**
   * The list and switch once the search has left every node of `path` above
   * position `m`: the back edge's target, then those nodes from the top down.
   */
  ghost predicate Listed(c: seq<TxId>, sw: bool, m: int, path: seq<TxId>, k: nat)
  {
    && 0 <= m < |path| && k < |path|
    && c == [path[k]] + Reverse(path[Max(k, m) + 1..])
    && sw == (k <= m)
  }

  /** A back edge from the top of the stack to position `k` starts the rebuilt list with its target. */
  lemma BackEdge(g: Graph, stack: seq<TxId>, k: nat)
    requires Simple(g, stack) && k < |stack| && stack[k] in Succ(g, stack[|stack| - 1])
    ensures Rebuilt(g, [stack[k]], true, stack, stack, k)
  {
    assert Max(k, |stack| - 1) + 1 == |stack|;
    assert stack[|stack|..] == [];
  }

  /** Leaving `end` after its subtree reported a cycle: the step of hasLoopDFS that follows the recursive call. */
  lemma UnwindStep(g: Graph, c: seq<TxId>, sw: bool, stack: seq<TxId>, end: TxId, path: seq<TxId>, k: nat, c': seq<TxId>, sw': bool)
    requires |stack| >= 1 && Rebuilt(g, c, sw, stack + [end], path, k)
    requires sw' == (sw && end !in c) && c' == if sw' then c + [end] else c
    ensures Rebuilt(g, c', sw', stack, path, k)
  {
    var m := |stack|;
    assert |stack + [end]| - 1 == m;
    PopPrefix(path, stack, end);
    SimpleUnique(g, path, m);
    UnwindList(path, k, m, c, sw, c', sw');
  }

  /** No other entry of `p` equals `p[m]`. */
  ghost predicate Unique(p: seq<TxId>, m: nat)
  {
    m < |p| && forall i :: 0 <= i < |p| && i != m ==> p[i] != p[m]
  }

  lemma SimpleUnique(g: Graph, p: seq<TxId>, m: nat)
    requires Simple(g, p) && m < |p|
    ensures Unique(p, m)
  {
    SimpleIsPath(g, p);
    forall i | 0 <= i < |p| && i != m
      ensures p[i] != p[m]
    {
      if i < m {
        assert p[i] != p[m];
      } else {
        assert p[m] != p[i];
      }
    }
  }

  lemma PopPrefix(path: seq<TxId>, stack: seq<TxId>, end: TxId)
    requires |stack| < |path| && path[..|stack| + 1] == stack + [end]
    ensures path[..|stack|] == stack && path[|stack|] == end
  {
    assert path[..|stack|] == (path[..|stack| + 1])[..|stack|];
    assert (stack + [end])[..|stack|] == stack;
  }

  /** The list and switch of `UnwindStep`, apart from the graph. */
  lemma UnwindList(path: seq<TxId>, k: nat, m: nat, c: seq<TxId>, sw: bool, c': seq<TxId>, sw': bool)
    requires Unique(path, m) && 1 <= m && Listed(c, sw, m, path, k)
    requires sw' == (sw && path[m] !in c) && c' == if sw' then c + [path[m]] else c
    ensures Listed(c', sw', m - 1, path, k)
  {
    Unwind(path, k, m);
    if k < m {
      assert Max(k, m) == m && Max(k, m - 1) + 1 == m && sw';
      assert c' == [path[k]] + Reverse(path[m + 1..]) + [path[m]];
    } else {
      assert Max(k, m - 1) == Max(k, m) && !sw' && c' == c;
    }
  }

  /**
   * The bookkeeping of the search: the visited nodes are the finished ones
   * and those on the current `stack`; the finished ones are ranked.
   */
  ghost predicate ExploredIn(g: Graph, visited: set<TxId>, searched: set<TxId>, rank: map<TxId, nat>, nextRank: nat, stack: seq<TxId>)
  {
    && visited == searched + Elems(stack)
    && Ranked(g, searched, rank)
    && forall u :: u in rank ==> rank[u] < nextRank
  }

  /** The search is exploring from the top of `stack`, a simple path of unfinished nodes. */
  ghost predicate SearchingIn(g: Graph, visited: set<TxId>, searched: set<TxId>, rank: map<TxId, nat>, nextRank: nat, stack: seq<TxId>)
  {
    && Simple(g, stack)
    && ExploredIn(g, visited, searched, rank, nextRank, stack)
    && Elems(stack) !! searched
  }

  /** The top of `stack` is finished; the rest of the stack is still being explored. */
  ghost predicate Finished(g: Graph, visited: set<TxId>, searched: set<TxId>, rank: map<TxId, nat>, nextRank: nat, stack: seq<TxId>)
    requires |stack| >= 1
  {
    && ExploredIn(g, visited, searched, rank, nextRank, stack)
    && stack[|stack| - 1] in searched
    && Elems(stack[..|stack| - 1]) !! searched
  }

  /** A visited, unfinished node lies on the stack. */
  lemma OnStack(g: Graph, visited: set<TxId>, searched: set<TxId>, rank: map<TxId, nat>, nextRank: nat, stack: seq<TxId>, x: TxId)
    requires SearchingIn(g, visited, searched, rank, nextRank, stack)
    requires x in visited && x !in searched
    ensures x in stack
  {
    ElemsMember(stack, x);
  }

  /** The search starts afresh from a node not yet finished. */
  lemma StartSearch(g: Graph, visited: set<TxId>, searched: set<TxId>, rank: map<TxId, nat>, nextRank: nat, src: TxId)
    requires ExploredIn(g, visited, searched, rank, nextRank, []) && src in g && src !in searched
    ensures SearchingIn(g, visited + {src}, searched, rank, nextRank, [src])
  {
    assert Elems([src]) == {src} + Elems([]);
  }

  /** Visiting an unvisited successor pushes it on the stack. */
  lemma EnterChild(g: Graph, visited: set<TxId>, searched: set<TxId>, rank: map<TxId, nat>, nextRank: nat, stack: seq<TxId>, end: TxId)
    requires SearchingIn(g, visited, searched, rank, nextRank, stack)
    requires end in Succ(g, stack[|stack| - 1]) && end !in visited
    ensures SearchingIn(g, visited + {end}, searched, rank, nextRank, stack + [end])
    ensures |Nodes(g) - (visited + {end})| < |Nodes(g) - visited|
  {
    Unvisited(g, visited, stack[|stack| - 1], end);
    ElemsMember(stack, end);
    Push(g, stack, end);
    PushExplored(g, visited, searched, rank, nextRank, stack, end);
  }

  lemma PushExplored(g: Graph, visited: set<TxId>, searched: set<TxId>, rank: map<TxId, nat>, nextRank: nat, stack: seq<TxId>, end: TxId)
    requires ExploredIn(g, visited, searched, rank, nextRank, stack)
    requires Elems(stack + [end]) == Elems(stack) + {end}
    ensures ExploredIn(g, visited + {end}, searched, rank, nextRank, stack + [end])
  {
  }

  /** A successor finished without a cycle is popped again. */
  lemma LeaveChild(g: Graph, visited: set<TxId>, searched: set<TxId>, rank: map<TxId, nat>, nextRank: nat, stack: seq<TxId>, end: TxId)
    requires Simple(g, stack)
    requires Finished(g, visited, searched, rank, nextRank, stack + [end])
    ensures SearchingIn(g, visited, searched, rank, nextRank, stack) && end in searched
  {
    assert (stack + [end])[..|stack|] == stack;
    assert (stack + [end])[|stack|] == end;
    ElemsAppend(stack, end);
  }

  /** Once every successor of the top is finished, the top is finished with the next rank. */
  lemma Finish(g: Graph, visited: set<TxId>, searched: set<TxId>, rank: map<TxId, nat>, nextRank: nat, stack: seq<TxId>)
    requires SearchingIn(g, visited, searched, rank, nextRank, stack)
    requires forall w :: w in Succ(g, stack[|stack| - 1]) ==> w in searched
    ensures var source := stack[|stack| - 1];
      Finished(g, visited, searched + {source}, rank[source := nextRank], nextRank + 1, stack)
  {
    var source := stack[|stack| - 1];
    var rest := stack[..|stack| - 1];
    assert stack == rest + [source];
    ElemsAppend(rest, source);
    ElemsMember(rest, source);
    if |stack| >= 2 {
      assert source !in rest;
    }
    var searched', rank' := searched + {source}, rank[source := nextRank];
    assert source !in searched;
    assert forall u :: u in searched' ==> u in rank';
    forall u | u in searched'
      ensures forall w :: w in Succ(g, u) ==> w in searched' && rank'[w] < rank'[u]
    {
      if u != source {
        assert forall w :: w in Succ(g, u) ==> w in searched && w != source;
      }
    }
    assert Ranked(g, searched', rank');
    assert visited == searched' + Elems(stack);
  }

  /**
   * hasLoopDFS from `source`, the top of `stack`. The search's sets are
   * passed in and handed back rather than kept in fields; `rank` and
   * `nextRank` are the proof's record of the finishing order. On success
   * `path` extends the stack and ends with a back edge to position `k`, and
   * `cycle`/`recordSwitch` are the list and switch as this call leaves them;
   * otherwise `source` is finished.
   */
  method HasLoopDFS(g: Graph, source: TxId, visited: set<TxId>, searched: set<TxId>, ghost rank: map<TxId, nat>, ghost nextRank: nat, ghost stack: seq<TxId>)
    returns (found: bool, visited': set<TxId>, searched': set<TxId>, cycle: seq<TxId>, recordSwitch: bool,
             ghost rank': map<TxId, nat>, ghost nextRank': nat, ghost path: seq<TxId>, ghost k: nat)
    requires SearchingIn(g, visited, searched, rank, nextRank, stack) && stack[|stack| - 1] == source
    ensures searched <= searched' && visited <= visited'
    ensures !found ==> Finished(g, visited', searched', rank', nextRank', stack)
    ensures found ==> Rebuilt(g, cycle, recordSwitch, stack, path, k)
    decreases |Nodes(g) - visited|, 2
  {
    visited', searched', rank', nextRank' := visited, searched, rank, nextRank;
    cycle, recordSwitch := [], false;
    var todo := Succ(g, source);
    while todo != {}
      invariant todo <= Succ(g, source)
      invariant forall w :: w in Succ(g, source) && w !in todo ==> w in searched'
      invariant searched <= searched' && visited <= visited'
      invariant SearchingIn(g, visited', searched', rank', nextRank', stack)
      decreases todo
    {
      var end := Choose(todo);
      todo := todo - {end};
      MoreVisited(g, visited, visited');
      ghost var v0, s0 := visited', searched';
      found, visited', searched', cycle, recordSwitch, rank', nextRank', path, k := Visit(g, end, visited', searched', rank', nextRank', stack);
      Grows(visited, v0, visited');
      Grows(searched, s0, searched');
      if found {
        return;
      }
    }
    Finish(g, visited', searched', rank', nextRank', stack);
    searched' := searched' + {source};
    rank' := rank'[source := nextRank'];
    nextRank' := nextRank' + 1;
    return false, visited', searched', cycle, recordSwitch, rank', nextRank', stack, 0;
  }

  /**
   * One successor `end` of the top of `stack`, as the loop of hasLoopDFS
   * treats it: skipped when finished, the start of a new cycle list when it
   * is on the stack, explored otherwise.
   */
  method Visit(g: Graph, end: TxId, visited: set<TxId>, searched: set<TxId>, ghost rank: map<TxId, nat>, ghost nextRank: nat, ghost stack: seq<TxId>)
    returns (found: bool, visited': set<TxId>, searched': set<TxId>, cycle: seq<TxId>, recordSwitch: bool,
             ghost rank': map<TxId, nat>, ghost nextRank': nat, ghost path: seq<TxId>, ghost k: nat)
    requires SearchingIn(g, visited, searched, rank, nextRank, stack) && end in Succ(g, stack[|stack| - 1])
    ensures searched <= searched' && visited <= visited'
    ensures !found ==> SearchingIn(g, visited', searched', rank', nextRank', stack) && end in searched'
    ensures found ==> Rebuilt(g, cycle, recordSwitch, stack, path, k)
    decreases |Nodes(g) - visited|, 1
  {
    if end in searched {
      return false, visited, searched, [], false, rank, nextRank, stack, 0;
    }
    if end in visited {
      OnStack(g, visited, searched, rank, nextRank, stack, end);
      k := IndexOf(stack, end);
      BackEdge(g, stack, k);
      return true, visited, searched, [end], true, rank, nextRank, stack, k;
    }
    found, visited', searched', cycle, recordSwitch, rank', nextRank', path, k := Descend(g, end, visited, searched, rank, nextRank, stack);
  }

  /**
   * Visiting `end`: it is marked visited and pushed, hasLoopDFS runs on it,
   * and what follows the recursive call: the unwinding when it reported a
   * cycle (`end` stops the recording when it is the cycle's first node and
   * is appended while recording is on), the pop otherwise.
   */
  method Descend(g: Graph, end: TxId, visited: set<TxId>, searched: set<TxId>, ghost rank: map<TxId, nat>, ghost nextRank: nat, ghost stack: seq<TxId>)
    returns (found: bool, visited': set<TxId>, searched': set<TxId>, cycle: seq<TxId>, recordSwitch: bool,
             ghost rank': map<TxId, nat>, ghost nextRank': nat, ghost path: seq<TxId>, ghost k: nat)
    requires SearchingIn(g, visited, searched, rank, nextRank, stack) && end in Succ(g, stack[|stack| - 1]) && end !in visited
    ensures searched <= searched' && visited <= visited'
    ensures !found ==> SearchingIn(g, visited', searched', rank', nextRank', stack) && end in searched'
    ensures found ==> Rebuilt(g, cycle, recordSwitch, stack, path, k)
    decreases |Nodes(g) - visited|, 0
  {
    EnterChild(g, visited, searched, rank, nextRank, stack, end);
    found, visited', searched', cycle, recordSwitch, rank', nextRank', path, k := HasLoopDFS(g, end, visited + {end}, searched, rank, nextRank, stack + [end]);
    if found {
      ghost var c, sw := cycle, recordSwitch;
      if end in cycle {
        recordSwitch := false;
      }
      if recordSwitch {
        cycle := cycle + [end];
      }
      UnwindStep(g, c, sw, stack, end, path, k, cycle, recordSwitch);
      return;
    }
    LeaveChild(g, visited', searched', rank', nextRank', stack, end);
    path, k := stack, 0;
  }

  /** The wait-for graph of the transaction manager and its cycle search. */
  class WaitForGraph {
    var graph: Graph
    var visited: set<TxId>
    var searched: set<TxId>
    var cycle: seq<TxId>
    var recordSwitch: bool

    constructor ()
      ensures graph == map[]
    {
      graph := map[];
      visited := {};
      searched := {};
      cycle := [];
      recordSwitch := false;
    }

    method AddEdge(source: TxId, end: TxId)
      modifies this
      ensures graph == AddedEdge(old(graph), source, end)
    {
      graph := graph[source := Succ(graph, source) + {end}];
    }

    /** Drops the node's entry, then removes it from every remaining entry. */
    method RemoveNode(n: TxId)
      modifies this
      ensures graph == RemovedNode(old(graph), n)
    {
      graph := graph - {n};
      var keys := graph.Keys;
      while keys != {}
        invariant keys <= graph.Keys
        invariant graph.Keys == old(graph).Keys - {n}
        invariant forall u :: u in graph ==> graph[u] == if u in keys then old(graph)[u] else old(graph)[u] - {n}
        decreases keys
      {
        var u := Choose(keys);
        graph := graph[u := graph[u] - {n}];
        keys := keys - {u};
      }
    }

    /**
     * detectDeadlock: some cycle of the graph, or `None` exactly when the
     * graph has no cycle. The graph itself is left as it was.
     */
    method DetectDeadlock() returns (r: Option<seq<TxId>>)
      modifies this
      ensures graph == old(graph)
      ensures r.Some? ==> IsCycle(graph, r.value)
      ensures r.None? <==> !HasCycle(graph)
    {
      var g := graph;
      var v, s := {}, {};
      ghost var rank, nextRank := map[], 0;
      var keys := g.Keys;
      while keys != {}
        invariant keys <= g.Keys && graph == g
        invariant ExploredIn(g, v, s, rank, nextRank, [])
        invariant forall u :: u in g && u !in keys ==> u in s
        decreases keys
      {
        var src := Choose(keys);
        keys := keys - {src};
        if src !in s {
          StartSearch(g, v, s, rank, nextRank, src);
          var found, c, sw;
          ghost var path, k;
          found, v, s, c, sw, rank, nextRank, path, k := HasLoopDFS(g, src, v + {src}, s, rank, nextRank, [src]);
          if found {
            SimpleIsPath(g, path);
            BackEdgeCycle(g, path, k);
            visited, searched, cycle, recordSwitch := v, s, c, sw;
            return Some(c);
          }
          assert [src][..0] == [];
        }
      }
      RankedAcyclic(g, s, rank);
      visited, searched := v, s;
      return None;
    }
  }

  /** The position of `x` in `s`. */
  function IndexOf(s: seq<TxId>, x: TxId): (i: nat)
    requires x in s
    ensures i < |s| && s[i] == x
  {
    if s[0] == x then 0 else 1 + IndexOf(s[1..], x)
  }
}
