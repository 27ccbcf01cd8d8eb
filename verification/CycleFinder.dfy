/**
 The three-colour depth-first search that guards the import graph.

 Modules are numbered in the sorted order of their names, so visiting sorted
 neighbours is visiting them in increasing number.
 */
module CycleFinder {
  import opened Basics

  /** The modules each module imports. */
  type Graph = seq<set<nat>>

  datatype Colour = White | Grey | Black

  /** Every edge leads to a module of the graph. */
  ghost predicate Closed(graph: Graph) {
    forall n, m :: 0 <= n < |graph| && m in graph[n] ==> m < |graph|
  }

  ghost predicate Edge(graph: Graph, a: nat, b: nat) {
    a < |graph| && b in graph[a]
  }

  ghost predicate IsPath(graph: Graph, path: seq<nat>) {
    forall i :: 0 <= i < |path| - 1 ==> Edge(graph, path[i], path[i + 1])
  }

  ghost predicate IsCycle(graph: Graph, path: seq<nat>) {
    |path| >= 2 && path[0] == path[|path| - 1] && IsPath(graph, path)
  }

  ghost predicate Distinct(s: seq<nat>) {
    forall i, j :: 0 <= i < j < |s| ==> s[i] != s[j]
  }

  /** A cycle that passes through no module twice. */
  ghost predicate IsSimpleCycle(graph: Graph, path: seq<nat>) {
    IsCycle(graph, path) && Distinct(path[1..])
  }

  ghost predicate Acyclic(graph: Graph) {
    forall path :: !IsCycle(graph, path)
  }

  /** The elements of a set below `n`, in increasing order. */
  function Sorted(s: set<nat>, n: nat): (r: seq<nat>)
    ensures forall x :: x in r <==> x in s && x < n
    ensures forall i, j :: 0 <= i < j < |r| ==> r[i] < r[j]
  {
    if n == 0 then []
    else
      var rest := Sorted(s, n - 1);
      assert forall i :: 0 <= i < |rest| ==> rest[i] in rest;
      if n - 1 in s then rest + [n - 1] else rest
  }

  /** Grey and black modules kept their colour. */
  ghost predicate Settled(before: seq<Colour>, after: seq<Colour>) {
    |before| == |after| && forall n :: 0 <= n < |before| && before[n] != White ==> after[n] == before[n]
  }

  ghost function WhitesOf(colour: seq<Colour>): set<nat> {
    set n: nat | n < |colour| && colour[n] == White
  }

  class Search {
    const graph: Graph
    var colour: seq<Colour>
    var stack: seq<nat>
    // The black modules in the order they were finished.
    ghost var finished: seq<nat>

    /** Grey modules are exactly the stack, the stack is a path, and every
        finished module leads only to modules finished before it. */
    ghost predicate Valid()
      reads this
    {
      && Closed(graph)
      && |colour| == |graph|
      && (forall n: nat :: n in stack <==> n < |colour| && colour[n] == Grey)
      && (forall n: nat :: n in finished <==> n < |colour| && colour[n] == Black)
      && Distinct(stack) && IsPath(graph, stack)
      && FinishedInOrder(graph, finished)
    }

    constructor (graph: Graph)
      requires Closed(graph)
      ensures Valid() && this.graph == graph && stack == []
      ensures forall n :: 0 <= n < |graph| ==> colour[n] == White
    {
      this.graph := graph;
      this.colour := seq(|graph|, _ => White);
      this.stack := [];
      this.finished := [];
    }

    /** Returns a cycle, or finishes `node` and everything it leads to. */
    method Visit(node: nat) returns (cycle: Option<seq<nat>>)
      requires Valid() && node < |graph| && colour[node] == White
      requires stack != [] ==> Edge(graph, stack[|stack| - 1], node)
      modifies this
      ensures cycle.Some? ==> IsSimpleCycle(graph, cycle.value)
      ensures cycle.None? ==> Valid() && stack == old(stack) && colour[node] == Black
      ensures cycle.None? ==> Settled(old(colour), colour) && WhitesOf(colour) <= WhitesOf(old(colour))
      decreases WhitesOf(colour), 0
    {
      Wind(node);
      cycle := VisitNeighbours(node);
      if cycle.None? {
        Unwind(node);
      }
    }

    /** The neighbour loop of a visit. */
    method VisitNeighbours(node: nat) returns (cycle: Option<seq<nat>>)
      requires Valid() && node < |graph| && stack != [] && node == stack[|stack| - 1]
      modifies this
      ensures cycle.Some? ==> IsSimpleCycle(graph, cycle.value)
      ensures cycle.None? ==> Valid() && stack == old(stack)
      ensures cycle.None? ==> forall n: nat :: n in graph[node] ==> n < |colour| && colour[n] == Black
      ensures cycle.None? ==> Settled(old(colour), colour) && WhitesOf(colour) <= WhitesOf(old(colour))
      decreases WhitesOf(colour), 1
    {
      hide FinishedInOrder, IsPath, Distinct, IsSimpleCycle, Sorted;
      var neighbours := Sorted(graph[node], |graph|);
      var i := 0;
      while i < |neighbours|
        invariant 0 <= i <= |neighbours|
        invariant Valid() && stack == old(stack)
        invariant forall k :: 0 <= k < i ==> neighbours[k] < |colour| && colour[neighbours[k]] == Black
        invariant Settled(old(colour), colour) && WhitesOf(colour) <= WhitesOf(old(colour))
      {
        var neighbour := neighbours[i];
        assert neighbour in neighbours;
        if colour[neighbour] == Grey {
          var found := StackFrom(neighbour);
          return Some(found);
        }
        if colour[neighbour] == White {
          cycle := Visit(neighbour);
          if cycle.Some? {
            return cycle;
          }
        }
        i := i + 1;
      }
      return None;
    }

    /** The part of the stack from a grey module on, closed into a cycle. */
    method StackFrom(neighbour: nat) returns (cycle: seq<nat>)
      requires Valid() && neighbour in stack && Edge(graph, stack[|stack| - 1], neighbour)
      ensures IsSimpleCycle(graph, cycle)
    {
      hide FinishedInOrder;
      var at := IndexOf(stack, neighbour);
      ClosingTheStack(graph, stack, at);
      cycle := stack[at..] + [neighbour];
    }

    /** Greys a white module and pushes it. */
    method Wind(node: nat)
      requires Valid() && node < |graph| && colour[node] == White
      requires stack != [] ==> Edge(graph, stack[|stack| - 1], node)
      modifies this
      ensures Valid() && stack == old(stack) + [node]
      ensures Settled(old(colour), colour) && WhitesOf(colour) < WhitesOf(old(colour))
    {
      hide FinishedInOrder;
      assert node !in stack && node in WhitesOf(colour);
      colour := colour[node := Grey];
      stack := stack + [node];
      assert forall n: nat :: n in stack <==> n in old(stack) || n == node;
    }

    /** Pops a module whose successors are all black, and blackens it. */
    method Unwind(node: nat)
      requires Valid() && stack != [] && node == stack[|stack| - 1] && node < |graph|
      requires forall n: nat :: n in graph[node] ==> n < |colour| && colour[n] == Black
      modifies this
      ensures Valid() && stack == old(stack)[..|old(stack)| - 1]
      ensures colour == old(colour)[node := Black]
    {
      PopKeepsPath(graph, stack);
      FinishOneMore(graph, finished, node) by {
        assert node in stack;
      }
      hide FinishedInOrder, IsPath, Distinct;
      stack := stack[..|stack| - 1];
      colour := colour[node := Black];
      finished := finished + [node];
      assert forall n: nat :: n in old(stack) <==> n in stack || n == node;
      assert forall n: nat :: n in finished <==> n in old(finished) || n == node;
    }

    /** The whole search over a freshly built colouring. */
    method Run() returns (cycle: Option<seq<nat>>)
      requires Valid() && stack == []
      requires forall n :: 0 <= n < |colour| ==> colour[n] == White
      modifies this
      ensures cycle.Some? ==> IsSimpleCycle(graph, cycle.value)
      ensures cycle.None? <==> Acyclic(graph)
    {
      hide FinishedInOrder, IsPath, Distinct;
      var node := 0;
      while node < |graph|
        invariant 0 <= node <= |graph|
        invariant Valid() && stack == []
        invariant forall k :: 0 <= k < node ==> colour[k] == Black
      {
        if colour[node] == White {
          cycle := Visit(node);
          if cycle.Some? {
            assert IsCycle(graph, cycle.value);
            return;
          }
        }
        node := node + 1;
      }
      AllFinishedIsAcyclic(graph, finished);
      return None;
    }
  }

  lemma PopKeepsPath(graph: Graph, stack: seq<nat>)
    requires stack != [] && Distinct(stack) && IsPath(graph, stack)
    ensures Distinct(stack[..|stack| - 1]) && IsPath(graph, stack[..|stack| - 1])
    ensures stack[|stack| - 1] !in stack[..|stack| - 1]
    ensures stack == stack[..|stack| - 1] + [stack[|stack| - 1]]
  {
    var rest := stack[..|stack| - 1];
    forall i | 0 <= i < |rest| - 1 ensures Edge(graph, rest[i], rest[i + 1]) {
      assert Edge(graph, stack[i], stack[i + 1]);
    }
  }

  lemma FinishOneMore(graph: Graph, order: seq<nat>, node: nat)
    requires FinishedInOrder(graph, order) && node < |graph| && node !in order
    requires forall n: nat :: n in graph[node] ==> n in order
    ensures FinishedInOrder(graph, order + [node])
  {
    var after := order + [node];
    forall i, n: nat | 0 <= i < |after| && Edge(graph, after[i], n) ensures n in after[..i] {
      if i < |order| {
        assert Edge(graph, order[i], n) && after[..i] == order[..i];
      } else {
        assert after[..i] == order;
      }
    }
  }

  /** `_find_cycle`: some simple cycle of the graph, or nothing exactly when it has none. */
  method FindCycle(graph: Graph) returns (cycle: Option<seq<nat>>)
    requires Closed(graph)
    ensures cycle.Some? ==> IsSimpleCycle(graph, cycle.value)
    ensures cycle.None? <==> Acyclic(graph)
  {
    var search := new Search(graph);
    cycle := search.Run();
  }

  method IndexOf(s: seq<nat>, x: nat) returns (at: nat)
    requires x in s
    ensures at < |s| && s[at] == x && x !in s[..at]
  {
    at := 0;
    while s[at] != x
      invariant at < |s| && x !in s[..at]
      decreases |s| - at
    {
      at := at + 1;
      assert x in s[..at] + s[at..];
    }
  }

  /** A top-of-stack edge back to a module on the stack closes a cycle. */
  lemma {:induction false} ClosingTheStack(graph: Graph, stack: seq<nat>, at: nat)
    requires at < |stack| && Distinct(stack) && IsPath(graph, stack)
    requires Edge(graph, stack[|stack| - 1], stack[at])
    ensures IsSimpleCycle(graph, stack[at..] + [stack[at]])
  {
    var path := stack[at..] + [stack[at]];
    forall i | 0 <= i < |path| - 1 ensures Edge(graph, path[i], path[i + 1]) {
      if i < |path| - 2 {
        assert Edge(graph, stack[at + i], stack[at + i + 1]);
      }
    }
  }

  // --- Why an exhausted search proves there is no cycle ---------------------

  ghost predicate FinishedInOrder(graph: Graph, order: seq<nat>) {
    && Distinct(order)
    && (forall i, n: nat :: 0 <= i < |order| && Edge(graph, order[i], n) ==> n in order[..i])
  }

  /** Along any path the finishing positions go down. */
  lemma {:induction false} PathDescends(graph: Graph, order: seq<nat>, path: seq<nat>, at: nat) returns (end: nat)
    requires FinishedInOrder(graph, order) && IsPath(graph, path) && |path| >= 1
    requires at < |order| && order[at] == path[0]
    ensures end <= at && order[end] == path[|path| - 1]
    ensures |path| > 1 ==> end < at
    decreases |path|
  {
    if |path| == 1 {
      end := at;
    } else {
      assert Edge(graph, path[0], path[1]);
      var next :| 0 <= next < at && order[next] == path[1];
      assert IsPath(graph, path[1..]) by {
        forall i | 0 <= i < |path[1..]| - 1 ensures Edge(graph, path[1..][i], path[1..][i + 1]) {
          assert Edge(graph, path[i + 1], path[i + 2]);
        }
      }
      end := PathDescends(graph, order, path[1..], next);
    }
  }

  lemma {:induction false} AllFinishedIsAcyclic(graph: Graph, order: seq<nat>)
    requires FinishedInOrder(graph, order) && forall n: nat :: n < |graph| ==> n in order
    ensures Acyclic(graph)
  {
    forall path ensures !IsCycle(graph, path) {
      if IsCycle(graph, path) {
        assert Edge(graph, path[0], path[1]);
        assert path[0] in order;
        var at :| 0 <= at < |order| && order[at] == path[0];
        var end := PathDescends(graph, order, path, at);
        assert false;
      }
    }
  }
}
