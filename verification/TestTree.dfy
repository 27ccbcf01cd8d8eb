/**
 Shape of the test picker: a forest of items numbered in the order they are
 created. Creation is depth-first, so that order is also the top-to-bottom order
 in which the tree is displayed.
 */
module Forest {
  /** `parents[i]` is the parent of item `i`, or -1 for a top-level item. */
  type Parents = seq<int>

  /** A parent exists before its children. */
  predicate Ordered(p: Parents) {
    forall i :: 0 <= i < |p| ==> -1 <= p[i] < i
  }

  /** Item `x` is item `a` or lies below it. */
  predicate Under(p: Parents, a: nat, x: nat)
    requires Ordered(p) && x < |p|
    decreases x
  {
    x == a || (p[x] >= 0 && Under(p, a, p[x]))
  }

  /** Items are created depth-first: each one below the item created just before
      it, or below one of that item's ancestors, or at the top level. */
  predicate DepthFirst(p: Parents)
    requires Ordered(p)
  {
    forall i :: 1 <= i < |p| && p[i] >= 0 ==> Under(p, p[i], i - 1)
  }

  predicate Grown(p: Parents) {
    Ordered(p) && DepthFirst(p)
  }

  /** A forest with two levels below its first item, and one that was not created
      depth-first. */
  lemma SomeForests()
    ensures Grown([-1, 0, 1, 1, 0, -1])
    ensures Ordered([-1, -1, 0]) && !Grown([-1, -1, 0])
  {
    var p: Parents := [-1, -1, 0];
    assert p[2] == 0 && !Under(p, 0, 1);
    assert !DepthFirst(p);
  }

  predicate Leaf(p: Parents, i: nat) {
    forall j :: 0 <= j < |p| ==> p[j] != i
  }

  /** The children of an item (or the top-level items, for -1) in display order. */
  function ChildrenOf(p: Parents, i: int): (kids: seq<nat>)
    ensures forall c :: c in kids <==> 0 <= c < |p| && p[c] == i
    ensures forall k :: 0 <= k < |kids| ==> kids[k] < |p| && p[kids[k]] == i
    ensures forall a, b :: 0 <= a < b < |kids| ==> kids[a] < kids[b]
  {
    var kids := ChildrenBefore(p, i, |p|);
    assert forall k :: 0 <= k < |kids| ==> kids[k] in kids;
    kids
  }

  function ChildrenBefore(p: Parents, i: int, n: nat): (kids: seq<nat>)
    requires n <= |p|
    ensures forall c :: c in kids <==> 0 <= c < n && p[c] == i
    ensures forall a, b :: 0 <= a < b < |kids| ==> kids[a] < kids[b]
  {
    if n == 0 then []
    else
      var rest := ChildrenBefore(p, i, n - 1);
      assert forall a :: 0 <= a < |rest| ==> rest[a] in rest;
      if p[n - 1] == i then rest + [n - 1] else rest
  }

  /** Item `x` lies at or below one of the first `n` of these items. */
  ghost predicate BelowSome(p: Parents, items: seq<nat>, n: nat, x: nat)
    requires Ordered(p) && x < |p| && n <= |items|
  {
    exists k :: 0 <= k < n && Under(p, items[k], x)
  }

  lemma {:induction false} UnderIsLater(p: Parents, a: nat, x: nat)
    requires Ordered(p) && x < |p| && Under(p, a, x)
    ensures a <= x
    decreases x
  {
    if x != a {
      UnderIsLater(p, a, p[x]);
    }
  }

  lemma {:induction false} UnderTransitive(p: Parents, a: nat, b: nat, x: nat)
    requires Ordered(p) && b < |p| && x < |p| && Under(p, a, b) && Under(p, b, x)
    ensures Under(p, a, x)
    decreases x
  {
    if x != b {
      UnderTransitive(p, a, b, p[x]);
    }
  }

  /** Two items above the same item are above one another. */
  lemma {:induction false} Comparable(p: Parents, a: nat, b: nat, x: nat)
    requires Ordered(p) && x < |p| && Under(p, a, x) && Under(p, b, x) && a <= b
    ensures b < |p| && Under(p, a, b)
    decreases x
  {
    UnderIsLater(p, b, x);
    if x != b {
      UnderIsLater(p, b, p[x]);
      Comparable(p, a, b, p[x]);
    }
  }

  /** The items below one item are numbered consecutively. */
  lemma {:induction false} Consecutive(p: Parents, a: nat, y: nat, x: nat)
    requires Grown(p) && x < |p| && Under(p, a, x) && a <= y <= x
    ensures Under(p, a, y)
    decreases x
  {
    if y < x {
      UnderTransitive(p, a, p[x], x - 1) by { assert Under(p, a, p[x]); }
      Consecutive(p, a, y, x - 1);
    }
  }

  /** Everything below an earlier sibling is displayed above everything below a later one. */
  lemma {:induction false} SiblingsInOrder(p: Parents, c: nat, d: nat, x: nat, y: nat)
    requires Grown(p) && c < d < |p| && x < |p| && y < |p|
    requires p[c] == p[d] && Under(p, c, x) && Under(p, d, y)
    ensures x < y
  {
    UnderIsLater(p, d, y);
    if y <= x {
      Consecutive(p, c, d, x);
      UnderIsLater(p, c, p[d]);
      assert false;
    }
  }

  /** Below an item is the item itself or something below one of its children. */
  lemma {:induction false} ThroughAChild(p: Parents, a: nat, x: nat) returns (c: nat)
    requires Ordered(p) && x < |p| && Under(p, a, x) && x != a
    ensures c < |p| && p[c] == a && Under(p, c, x)
    decreases x
  {
    if p[x] == a {
      c := x;
    } else {
      c := ThroughAChild(p, a, p[x]);
    }
  }

  lemma {:induction false} FirstLeaf(p: Parents, a: nat) returns (x: nat)
    requires Ordered(p) && a < |p|
    ensures x < |p| && Under(p, a, x) && Leaf(p, x)
    decreases |p| - a
  {
    if Leaf(p, a) {
      x := a;
    } else {
      var c :| 0 <= c < |p| && p[c] == a;
      x := FirstLeaf(p, c);
      UnderTransitive(p, a, c, x);
    }
  }

  lemma {:induction false} TopOf(p: Parents, x: nat) returns (t: nat)
    requires Ordered(p) && x < |p|
    ensures t < |p| && p[t] == -1 && Under(p, t, x)
    decreases x
  {
    if p[x] == -1 {
      t := x;
    } else {
      t := TopOf(p, p[x]);
    }
  }
}

/** What the check marks of the tree mean, and what a selection covers. */
module Selection {
  import opened Forest

  datatype CheckState = Unchecked | Partial | Checked

  type States = seq<CheckState>

  /** Every leaf below item `i` is in state `c`. */
  ghost predicate AllLeaves(p: Parents, st: States, i: nat, c: CheckState)
    requires Ordered(p) && |st| == |p|
  {
    forall x :: 0 <= x < |p| && Under(p, i, x) && Leaf(p, x) ==> st[x] == c
  }

  /** The global reading of the tri-state marks. */
  ghost predicate Truthful(p: Parents, st: States, i: nat)
    requires Ordered(p) && |st| == |p| && i < |p|
  {
    && (st[i] == Checked <==> AllLeaves(p, st, i, Checked))
    && (st[i] == Unchecked <==> AllLeaves(p, st, i, Unchecked))
  }

  /** The local rule the widget maintains between an item and its children. */
  predicate RolledUp(p: Parents, st: States, i: nat)
    requires |st| == |p| && i < |p|
  {
    if Leaf(p, i) then st[i] != Partial
    else if forall c :: 0 <= c < |p| && p[c] == i ==> st[c] == Checked then st[i] == Checked
    else if forall c :: 0 <= c < |p| && p[c] == i ==> st[c] == Unchecked then st[i] == Unchecked
    else st[i] == Partial
  }

  predicate Coherent(p: Parents, st: States) {
    |st| == |p| && forall i :: 0 <= i < |p| ==> RolledUp(p, st, i)
  }

  /** The local rule everywhere is the global reading everywhere. */
  lemma {:induction false} CoherentIsTruthful(p: Parents, st: States, i: nat)
    requires Ordered(p) && Coherent(p, st) && i < |p|
    ensures Truthful(p, st, i)
    decreases |p| - i
  {
    if Leaf(p, i) {
      assert RolledUp(p, st, i);
      forall x | 0 <= x < |p| && Under(p, i, x) ensures x == i {
        if x != i { var c := ThroughAChild(p, i, x); }
      }
    } else {
      forall c | 0 <= c < |p| && p[c] == i ensures Truthful(p, st, c) {
        CoherentIsTruthful(p, st, c);
      }
      ChildrenDecide(p, st, i, Checked);
      ChildrenDecide(p, st, i, Unchecked);
      assert RolledUp(p, st, i);
    }
  }

  lemma {:induction false} ChildrenDecide(p: Parents, st: States, i: nat, k: CheckState)
    requires Ordered(p) && |st| == |p| && i < |p| && !Leaf(p, i) && k != Partial
    requires forall c :: 0 <= c < |p| && p[c] == i ==> Truthful(p, st, c)
    ensures AllLeaves(p, st, i, k) <==> forall c :: 0 <= c < |p| && p[c] == i ==> st[c] == k
  {
    if AllLeaves(p, st, i, k) {
      forall c | 0 <= c < |p| && p[c] == i ensures st[c] == k {
        forall x | 0 <= x < |p| && Under(p, c, x) && Leaf(p, x) ensures st[x] == k {
          UnderTransitive(p, i, c, x);
        }
        assert AllLeaves(p, st, c, k);
      }
    }
    if forall c :: 0 <= c < |p| && p[c] == i ==> st[c] == k {
      forall x | 0 <= x < |p| && Under(p, i, x) && Leaf(p, x) ensures st[x] == k {
        var c := ThroughAChild(p, i, x);
        assert Truthful(p, st, c);
      }
    }
  }

  /** A checked item whose parent is not checked: what `checked_targets` reports. */
  predicate Reported(p: Parents, st: States, i: nat)
    requires Ordered(p) && |st| == |p| && i < |p|
  {
    st[i] == Checked && (p[i] == -1 || st[p[i]] != Checked)
  }

  lemma {:induction false} CheckedDownwards(p: Parents, st: States, a: nat, x: nat)
    requires Ordered(p) && Coherent(p, st) && x < |p| && a < |p| && Under(p, a, x) && st[a] == Checked
    ensures st[x] == Checked
  {
    CoherentIsTruthful(p, st, a);
    CoherentIsTruthful(p, st, x);
    forall l | 0 <= l < |p| && Under(p, x, l) && Leaf(p, l) ensures st[l] == Checked {
      UnderTransitive(p, a, x, l);
    }
  }

  /** Above every checked item there is a reported one. */
  lemma {:induction false} ReportedAbove(p: Parents, st: States, x: nat) returns (m: nat)
    requires Ordered(p) && |st| == |p| && x < |p| && st[x] == Checked
    ensures m < |p| && Under(p, m, x) && Reported(p, st, m)
    decreases x
  {
    if p[x] == -1 || st[p[x]] != Checked {
      m := x;
    } else {
      m := ReportedAbove(p, st, p[x]);
    }
  }

  ghost predicate Covers(p: Parents, nodes: set<nat>, x: nat)
    requires Ordered(p) && x < |p|
  {
    exists m :: m in nodes && Under(p, m, x)
  }

  /** Running these items runs exactly the checked leaves. */
  ghost predicate ExactCover(p: Parents, st: States, nodes: set<nat>)
    requires Ordered(p) && |st| == |p|
  {
    && (forall m :: m in nodes ==> m < |p|)
    && (forall x :: 0 <= x < |p| && Leaf(p, x) ==> (st[x] == Checked <==> Covers(p, nodes, x)))
  }

  function ReportedItems(p: Parents, st: States): set<nat>
    requires Ordered(p) && |st| == |p|
  {
    set i: nat | i < |p| && Reported(p, st, i)
  }

  lemma {:induction false} ReportedNotNested(p: Parents, st: States, a: nat, b: nat)
    requires Ordered(p) && Coherent(p, st) && a < |p| && b < |p|
    requires Reported(p, st, a) && Reported(p, st, b) && Under(p, a, b)
    ensures a == b
  {
    if a != b {
      CheckedDownwards(p, st, a, p[b]);
    }
  }

  /** The reported items cover exactly the checked leaves, none inside another,
      and they contain exactly the checked items of any kind. */
  lemma {:induction false} ReportedCoverExactly(p: Parents, st: States)
    requires Ordered(p) && Coherent(p, st)
    ensures ExactCover(p, st, ReportedItems(p, st))
    ensures forall x :: 0 <= x < |p| ==> (st[x] == Checked <==> Covers(p, ReportedItems(p, st), x))
    ensures forall a, b :: a in ReportedItems(p, st) && b in ReportedItems(p, st) && Under(p, a, b) ==> a == b
  {
    var nodes := ReportedItems(p, st);
    forall x | 0 <= x < |p| ensures st[x] == Checked <==> Covers(p, nodes, x) {
      if st[x] == Checked {
        var m := ReportedAbove(p, st, x);
        assert m in nodes;
      }
      if Covers(p, nodes, x) {
        var m :| m in nodes && Under(p, m, x);
        CheckedDownwards(p, st, m, x);
      }
    }
    forall a, b | a in nodes && b in nodes && Under(p, a, b) ensures a == b {
      ReportedNotNested(p, st, a, b);
    }
  }

  /** Any exact cover has an item at or below each reported item. */
  lemma {:induction false} CoverReachesInside(p: Parents, st: States, other: set<nat>, m: nat) returns (s: nat)
    requires Ordered(p) && Coherent(p, st) && ExactCover(p, st, other)
    requires m < |p| && Reported(p, st, m)
    ensures s in other && Under(p, m, s)
  {
    var l := FirstLeaf(p, m);
    CheckedDownwards(p, st, m, l);
    s :| s in other && Under(p, s, l);
    CoherentIsTruthful(p, st, s);
    forall x | 0 <= x < |p| && Under(p, s, x) && Leaf(p, x) ensures st[x] == Checked {
      assert Covers(p, other, x);
    }
    if m <= s {
      Comparable(p, m, s, l);
    } else {
      Comparable(p, s, m, l);
      CheckedDownwards(p, st, s, p[m]);
      assert false;
    }
  }

  lemma {:induction false} DisjointSubtreesCount(p: Parents, nodes: set<nat>, other: set<nat>)
    requires Ordered(p)
    requires forall m :: m in nodes ==> m < |p|
    requires forall s :: s in other ==> s < |p|
    requires forall a, b :: a in nodes && b in nodes && Under(p, a, b) ==> a == b
    requires forall m :: m in nodes ==> exists s :: s in other && Under(p, m, s)
    ensures |nodes| <= |other|
  {
    if nodes != {} {
      var m :| m in nodes;
      var s :| s in other && Under(p, m, s);
      forall k | k in nodes - {m} ensures exists u :: u in other - {s} && Under(p, k, u) {
        var u :| u in other && Under(p, k, u);
        if u == s {
          if k <= m { Comparable(p, k, m, s); } else { Comparable(p, m, k, s); }
        }
        assert u in other - {s};
      }
      DisjointSubtreesCount(p, nodes - {m}, other - {s});
    }
  }

  /** No set of items that covers exactly the checked leaves is smaller than the reported one. */
  lemma {:induction false} ReportedIsMinimum(p: Parents, st: States, other: set<nat>)
    requires Ordered(p) && Coherent(p, st) && ExactCover(p, st, other)
    ensures |ReportedItems(p, st)| <= |other|
  {
    ReportedCoverExactly(p, st);
    forall m | m in ReportedItems(p, st) ensures exists s :: s in other && Under(p, m, s) {
      var s := CoverReachesInside(p, st, other, m);
    }
    DisjointSubtreesCount(p, ReportedItems(p, st), other);
  }
}
