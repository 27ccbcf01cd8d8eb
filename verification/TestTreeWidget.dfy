/** The check marks as the widget keeps them: one mutable state per item. */
module TestTreeWidget {
  import opened Basics
  import opened Forest
  import opened Selection

  /** One user action: an item's box is ticked or cleared. */
  datatype Toggle = Toggle(item: nat, on: bool) {
    function State(): CheckState {
      if on then Checked else Unchecked
    }
  }

  /** What the last toggle at or above leaf `x` left it as. */
  function LeafState(p: Parents, toggles: seq<Toggle>, x: nat): CheckState
    requires Ordered(p) && x < |p|
    decreases |toggles|
  {
    if toggles == [] then Unchecked
    else
      var last := toggles[|toggles| - 1];
      if Under(p, last.item, x) then last.State() else LeafState(p, toggles[..|toggles| - 1], x)
  }

  /** A leaf is checked exactly if the last click at or above it ticked its box, and
      otherwise it is unchecked. */
  lemma {:induction false} LeafStateIff(p: Parents, toggles: seq<Toggle>, x: nat)
    requires Ordered(p) && x < |p|
    ensures LeafState(p, toggles, x) != Partial
    ensures LeafState(p, toggles, x) == Checked
       <==> exists k: nat :: LastTick(p, toggles, x, k)
  {
    if toggles != [] {
      var n := |toggles| - 1;
      assert Under(p, toggles[n].item, x) && toggles[n].on ==> LastTick(p, toggles, x, n);
      if !Under(p, toggles[n].item, x) {
        LeafStateIff(p, toggles[..n], x);
        hide Under;
        if k: nat :| LastTick(p, toggles[..n], x, k) {
          assert LastTick(p, toggles, x, k);
        }
        if k: nat :| LastTick(p, toggles, x, k) {
          assert LastTick(p, toggles[..n], x, k);
        }
      }
    }
  }

  /** Click `k` ticked a box at or above the leaf, and no later click was there. */
  predicate LastTick(p: Parents, toggles: seq<Toggle>, x: nat, k: nat)
    requires Ordered(p) && x < |p|
  {
    && k < |toggles| && toggles[k].on && Under(p, toggles[k].item, x)
    && forall j :: k < j < |toggles| ==> !Under(p, toggles[j].item, x)
  }

  class Widget {
    const parents: Parents
    const targets: seq<string>
    const specs: seq<Option<string>>
    const states: array<CheckState>

    ghost predicate Shaped() {
      Grown(parents) && |targets| == |specs| == states.Length == |parents|
    }

    ghost predicate Valid()
      reads states
    {
      Shaped() && Coherent(parents, states[..])
    }

    /** Items are created unchecked. */
    constructor (parents: Parents, targets: seq<string>, specs: seq<Option<string>>)
      requires Grown(parents) && |targets| == |specs| == |parents|
      ensures Valid() && fresh(states)
      ensures this.parents == parents && this.targets == targets && this.specs == specs
      ensures forall i :: 0 <= i < |parents| ==> states[i] == Unchecked
    {
      this.parents := parents;
      this.targets := targets;
      this.specs := specs;
      this.states := new CheckState[|parents|](_ => Unchecked);
      new;
      assert forall i :: 0 <= i < |parents| ==> RolledUp(parents, states[..], i);
    }

    // --- checkbox cascade ---------------------------------------------------

    /** The user's click on one box, and the cascade it sets off. */
    method UserToggles(item: nat, state: CheckState)
      requires Valid() && item < |parents| && state != Partial
      modifies states
      ensures Valid()
      ensures forall x :: 0 <= x < |parents| && Under(parents, item, x) ==> states[x] == state
      ensures forall x :: 0 <= x < |parents| && !Under(parents, item, x) && !Under(parents, x, item)
                ==> states[x] == old(states[x])
    {
      states[item] := state;
      OnItemChanged(item);
      var st := states[..];
      forall i | 0 <= i < |parents| ensures RolledUp(parents, st, i) {
        assert RolledUp(parents, old(states[..]), i);
        if Under(parents, item, i) {
          assert forall c :: 0 <= c < |parents| && parents[c] == i ==> Under(parents, item, c);
        } else if !Under(parents, i, item) {
          forall c | 0 <= c < |parents| && parents[c] == i ensures st[c] == old(states[c]) {
            if Under(parents, c, item) { UnderTransitive(parents, i, c, item); }
          }
        }
      }
    }

    method OnItemChanged(item: nat)
      requires Shaped() && item < |parents|
      modifies states
      ensures states[item] == old(states[item])
      ensures old(states[item]) != Partial ==>
                forall x :: 0 <= x < |parents| && Under(parents, item, x) ==> states[x] == old(states[item])
      ensures old(states[item]) == Partial ==>
                forall x :: 0 <= x < |parents| && Under(parents, item, x) ==> states[x] == old(states[x])
      ensures forall a :: 0 <= a < |parents| && Under(parents, a, item) && a != item ==>
                RolledUp(parents, states[..], a)
      ensures forall x :: 0 <= x < |parents| && !Under(parents, item, x) && !Under(parents, x, item)
                ==> states[x] == old(states[x])
    {
      var state := states[item];
      if state != Partial {
        SetDescendants(item, state);
      }
      label rolled:
      RefreshAncestors(item);
      forall x | 0 <= x < |parents| && Under(parents, item, x) ensures states[x] == old@rolled(states[x]) {
        if Under(parents, x, item) {
          UnderIsLater(parents, x, item);
          UnderIsLater(parents, item, x);
        }
      }
    }

    /** Everything strictly below `item` takes the given state. */
    method SetDescendants(item: nat, state: CheckState)
      requires Shaped() && item < |parents|
      modifies states
      ensures forall x :: 0 <= x < |parents| ==>
                states[x] == if Under(parents, item, x) && x != item then state else old(states[x])
      decreases |parents| - item
    {
      ghost var was := states[..];
      var children := ChildrenOf(parents, item);
      for i := 0 to |children|
        invariant forall x :: 0 <= x < |parents| ==>
                    states[x] == if BelowSome(parents, children, i, x) then state else was[x]
      {
        var child := children[i];
        states[child] := state;
        SetDescendants(child, state);
        OneMoreChild(children, i);
      }
      StrictlyBelow(item, children);
    }

    lemma OneMoreChild(children: seq<nat>, i: nat)
      requires Ordered(parents) && i < |children|
      ensures forall x :: 0 <= x < |parents| ==>
                (BelowSome(parents, children, i + 1, x)
                 <==> BelowSome(parents, children, i, x) || Under(parents, children[i], x))
    {
      forall x | 0 <= x < |parents| && BelowSome(parents, children, i, x)
        ensures BelowSome(parents, children, i + 1, x)
      {
        var k :| 0 <= k < i && Under(parents, children[k], x);
      }
    }

    lemma {:induction false} StrictlyBelow(item: nat, children: seq<nat>)
      requires Ordered(parents) && item < |parents| && children == ChildrenOf(parents, item)
      ensures forall x :: 0 <= x < |parents| ==>
                (Under(parents, item, x) && x != item <==> BelowSome(parents, children, |children|, x))
    {
      forall x | 0 <= x < |parents|
        ensures Under(parents, item, x) && x != item <==> BelowSome(parents, children, |children|, x)
      {
        if Under(parents, item, x) && x != item {
          var c := ThroughAChild(parents, item, x);
          assert c in children;
        }
        if k :| 0 <= k < |children| && Under(parents, children[k], x) {
          assert Under(parents, item, children[k]);
          UnderTransitive(parents, item, children[k], x);
          UnderIsLater(parents, children[k], x);
        }
      }
    }

    /** Every ancestor of `item` is recomputed from its children, bottom up. */
    method RefreshAncestors(item: nat)
      requires Shaped() && item < |parents|
      modifies states
      ensures forall x :: 0 <= x < |parents| && !(Under(parents, x, item) && x != item) ==> states[x] == old(states[x])
      ensures forall a :: 0 <= a < |parents| && Under(parents, a, item) && a != item ==>
                RolledUp(parents, states[..], a)
    {
      var parent := parents[item];
      var below := item;
      forall a | item <= a < |parents| && Under(parents, a, item) ensures a == item {
        UnderIsLater(parents, a, item);
      }
      while parent != -1
        invariant -1 <= parent < |parents| && 0 <= below < |parents| && parent == parents[below]
        invariant Under(parents, below, item)
        invariant forall x :: 0 <= x < |parents| && !(below <= x && Under(parents, x, item) && x != item)
                    ==> states[x] == old(states[x])
        invariant forall a :: below <= a < |parents| && Under(parents, a, item) && a != item ==>
                    RolledUp(parents, states[..], a)
        decreases parent
      {
        ghost var was := states[..];
        RollUp(parent);
        StillRolledUp(was, states[..], parent, below, item);
        below := parent;
        parent := parents[parent];
      }
      forall a | 0 <= a < |parents| && Under(parents, a, item) && a != item ensures below <= a {
        if a < below {
          Comparable(parents, a, below, item);
        }
      }
    }

    /** Recomputes one item from its children. */
    method RollUp(parent: nat)
      requires Shaped() && parent < |parents| && !Leaf(parents, parent)
      modifies states
      ensures RolledUp(parents, states[..], parent)
      ensures forall x :: 0 <= x < |parents| && x != parent ==> states[x] == old(states[x])
    {
      var state := ChildrenVerdict(parent);
      ghost var rolled := states[..][parent := state];
      states[parent] := state;
      assert states[..] == rolled;
    }

    method ChildrenVerdict(parent: nat) returns (state: CheckState)
      requires Shaped() && parent < |parents| && !Leaf(parents, parent)
      ensures RolledUp(parents, states[..][parent := state], parent)
    {
      hide DepthFirst, Under, ChildrenOf;
      var children := ChildrenOf(parents, parent);
      if forall i :: 0 <= i < |children| ==> states[children[i]] == Checked {
        state := Checked;
      } else if forall i :: 0 <= i < |children| ==> states[children[i]] == Unchecked {
        state := Unchecked;
      } else {
        state := Partial;
      }
      ghost var st := states[..][parent := state];
      assert forall c :: 0 <= c < |parents| && parents[c] == parent ==> c in children;
      assert forall k :: 0 <= k < |children| ==> st[children[k]] == states[children[k]];
    }

    /** Rewriting one ancestor leaves those nearer to `item` as they were. */
    lemma {:induction false} StillRolledUp(was: States, st: States, parent: nat, below: nat, item: nat)
      requires Shaped() && |was| == |st| == |parents| && item < |parents| && below < |parents|
      requires parents[below] == parent && Under(parents, below, item)
      requires forall x :: 0 <= x < |st| && x != parent ==> st[x] == was[x]
      requires RolledUp(parents, st, parent)
      requires forall a :: below <= a < |parents| && Under(parents, a, item) && a != item ==> RolledUp(parents, was, a)
      ensures Under(parents, parent, item)
      ensures forall a :: parent <= a < |parents| && Under(parents, a, item) && a != item ==> RolledUp(parents, st, a)
    {
      assert Under(parents, parent, below);
      UnderTransitive(parents, parent, below, item);
      forall a | parent < a < |parents| && Under(parents, a, item) && a != item ensures RolledUp(parents, st, a) {
        NothingBetween(parents, below, a, item);
        assert RolledUp(parents, was, a);
      }
    }

    // --- queries ------------------------------------------------------------

    /** The texts are these items' targets. */
    ghost predicate TargetsOf(items: seq<nat>, found: seq<string>) {
      |found| == |items| && forall k :: 0 <= k < |items| ==> items[k] < |targets| && found[k] == targets[items[k]]
    }

    /** The texts are these items' specs. */
    ghost predicate SpecsOf(items: seq<nat>, found: seq<string>) {
      |found| == |items| && forall k :: 0 <= k < |items| ==> items[k] < |specs| && specs[items[k]] == Some(found[k])
    }

    lemma TextsConcat(a: seq<nat>, textsA: seq<string>, b: seq<nat>, textsB: seq<string>)
      ensures TargetsOf(a, textsA) && TargetsOf(b, textsB) ==> TargetsOf(a + b, textsA + textsB)
      ensures SpecsOf(a, textsA) && SpecsOf(b, textsB) ==> SpecsOf(a + b, textsA + textsB)
    {
    }

    method CheckedTargets() returns (found: seq<string>, items: seq<nat>)
      requires Valid()
      ensures Listed(items, ReportedItems(parents, states[..]))
      ensures TargetsOf(items, found)
    {
      found, items := WalkChildTargets(-1);
      TopSpans(ReportedItems(parents, states[..]), items);
    }

    method WalkTargets(item: nat) returns (found: seq<string>, items: seq<nat>)
      requires Valid() && item < |parents|
      ensures TargetsOf(items, found)
      ensures Listed(items, Below(ReportedItems(parents, states[..]), item))
      decreases |parents| - item, 1
    {
      var parentFullyChecked := parents[item] != -1 && states[parents[item]] == Checked;
      if states[item] == Checked && !parentFullyChecked {
        ReportedAlone(item);
        return [targets[item]], [item];
      }
      assert item !in ReportedItems(parents, states[..]);
      found, items := WalkChildTargets(item);
      OwnFirst(ReportedItems(parents, states[..]), item, items);
    }

    /** The walk over the children of an item, or over the top-level items for -1. */
    method WalkChildTargets(parent: int) returns (found: seq<string>, items: seq<nat>)
      requires Valid() && -1 <= parent < |parents|
      ensures TargetsOf(items, found)
      ensures Listed(items, BelowChildren(ReportedItems(parents, states[..]), parent))
      decreases |parents| - parent, 0
    {
      var children := ChildrenOf(parents, parent);
      ghost var wanted := ReportedItems(parents, states[..]);
      NothingYet(wanted, children);
      assert TargetsOf([], []) && SpecsOf([], []);
      hide DepthFirst, BelowSome, Listed, Part, Below, ReportedItems, TargetsOf, SpecsOf, Coherent;
      found, items := [], [];
      for i := 0 to |children|
        invariant TargetsOf(items, found)
        invariant Listed(items, Part(wanted, children, i))
      {
        var more, ids := WalkTargets(children[i]);
        JoinLists(parent, children, i, wanted, items, ids);
        TextsConcat(items, found, ids, more);
        found, items := found + more, items + ids;
      }
    }

    /** The catalog specs of the checked items, in display order. */
    method CheckedSpecs() returns (found: seq<string>, items: seq<nat>)
      requires Valid()
      ensures Listed(items, CheckedWithSpec(states[..]))
      ensures forall x :: x in items ==> Covers(parents, ReportedItems(parents, states[..]), x)
      ensures SpecsOf(items, found)
    {
      found, items := WalkChildSpecs(-1);
      TopSpans(CheckedWithSpec(states[..]), items);
      ReportedCoverExactly(parents, states[..]);
    }

    method WalkSpecs(item: nat) returns (found: seq<string>, items: seq<nat>)
      requires Shaped() && item < |parents|
      ensures SpecsOf(items, found)
      ensures Listed(items, Below(CheckedWithSpec(states[..]), item))
      decreases |parents| - item, 1
    {
      found, items := WalkChildSpecs(item);
      OwnFirst(CheckedWithSpec(states[..]), item, items);
      if states[item] == Checked && specs[item].Some? {
        assert item in CheckedWithSpec(states[..]) && SpecsOf([item], [specs[item].value]);
        TextsConcat([item], [specs[item].value], items, found);
        hide *;
        found, items := [specs[item].value] + found, [item] + items;
      }
    }

    /** The walk over the children of an item, or over the top-level items for -1. */
    method WalkChildSpecs(parent: int) returns (found: seq<string>, items: seq<nat>)
      requires Shaped() && -1 <= parent < |parents|
      ensures SpecsOf(items, found)
      ensures Listed(items, BelowChildren(CheckedWithSpec(states[..]), parent))
      decreases |parents| - parent, 0
    {
      var children := ChildrenOf(parents, parent);
      ghost var wanted := CheckedWithSpec(states[..]);
      NothingYet(wanted, children);
      assert TargetsOf([], []) && SpecsOf([], []);
      hide DepthFirst, BelowSome, Listed, Part, Below, CheckedWithSpec, TargetsOf, SpecsOf;
      found, items := [], [];
      for i := 0 to |children|
        invariant SpecsOf(items, found)
        invariant Listed(items, Part(wanted, children, i))
      {
        var more, ids := WalkSpecs(children[i]);
        JoinLists(parent, children, i, wanted, items, ids);
        TextsConcat(items, found, ids, more);
        found, items := found + more, items + ids;
      }
    }

    /** The checked items that carry a catalog spec. */
    ghost function CheckedWithSpec(st: States): set<nat>
      requires |st| == |parents| == |specs|
    {
      set x: nat | x < |parents| && st[x] == Checked && specs[x].Some?
    }

    /** The items, in display order, are exactly this set. */
    ghost predicate Listed(items: seq<nat>, wanted: set<nat>) {
      && (forall i, j :: 0 <= i < j < |items| ==> items[i] < items[j])
      && (forall x :: x in items <==> x in wanted)
    }

    ghost function Below(wanted: set<nat>, item: nat): set<nat>
      requires Ordered(parents)
    {
      set x | x in wanted && x < |parents| && Under(parents, item, x)
    }

    ghost function Part(wanted: set<nat>, roots: seq<nat>, n: nat): set<nat>
      requires Ordered(parents) && n <= |roots|
    {
      set x | x in wanted && x < |parents| && BelowSome(parents, roots, n, x)
    }

    ghost function BelowChildren(wanted: set<nat>, parent: int): set<nat>
      requires Ordered(parents)
    {
      var children := ChildrenOf(parents, parent);
      Part(wanted, children, |children|)
    }

    /** Results of earlier siblings come before those of a later one. */
    lemma {:induction false} JoinLists(parent: int, children: seq<nat>, i: nat, wanted: set<nat>,
                                       items: seq<nat>, ids: seq<nat>)
      requires Shaped() && i < |children| && children == ChildrenOf(parents, parent)
      requires Listed(items, Part(wanted, children, i))
      requires Listed(ids, Below(wanted, children[i]))
      ensures Listed(items + ids, Part(wanted, children, i + 1))
    {
      hide DepthFirst, Under;
      forall a, b | 0 <= a < |items| && 0 <= b < |ids| ensures items[a] < ids[b] {
        var x, y := items[a], ids[b];
        assert x in items && y in ids;
        var k :| 0 <= k < i && Under(parents, children[k], x);
        SiblingsInOrder(parents, children[k], children[i], x, y);
      }
      OneMoreChild(children, i);
      assert forall x :: x in items + ids <==> x in items || x in ids;
    }

    lemma NothingYet(wanted: set<nat>, roots: seq<nat>)
      requires Ordered(parents)
      ensures Listed([], Part(wanted, roots, 0))
    {
    }

    /** An item's subtree is the item, displayed first, and its children's subtrees. */
    lemma {:induction false} OwnFirst(wanted: set<nat>, item: nat, ids: seq<nat>)
      requires Shaped() && item < |parents| && Listed(ids, BelowChildren(wanted, item))
      ensures Listed(if item in wanted then [item] + ids else ids, Below(wanted, item))
    {
      StrictlyBelow(item, ChildrenOf(parents, item));
      forall k | 0 <= k < |ids| ensures item < ids[k] {
        assert ids[k] in ids;
        UnderIsLater(parents, item, ids[k]);
      }
    }

    /** Every item is below a top-level one. */
    lemma {:induction false} TopSpans(wanted: set<nat>, items: seq<nat>)
      requires Ordered(parents) && Listed(items, BelowChildren(wanted, -1))
      requires forall x :: x in wanted ==> x < |parents|
      ensures Listed(items, wanted)
    {
      var top := ChildrenOf(parents, -1);
      forall x | x in wanted ensures BelowSome(parents, top, |top|, x) {
        var t := TopOf(parents, x);
        assert t in top;
      }
    }

    /** Nothing below a reported item is reported. */
    lemma {:induction false} ReportedAlone(item: nat)
      requires Valid() && item < |parents| && Reported(parents, states[..], item)
      ensures Below(ReportedItems(parents, states[..]), item) == {item}
    {
      forall x | x in Below(ReportedItems(parents, states[..]), item) ensures x == item {
        ReportedNotNested(parents, states[..], item, x);
      }
    }
  }

  /** On the way down from `b`'s parent to `item` the next item is `b`. */
  lemma {:induction false} NothingBetween(p: Parents, b: nat, a: nat, item: nat)
    requires Ordered(p) && b < |p| && a < |p| && item < |p| && p[b] >= 0
    requires Under(p, b, item) && Under(p, a, item) && p[b] < a
    ensures b <= a
  {
    if a < b {
      Comparable(p, a, b, item);
      UnderIsLater(p, a, p[b]);
    }
  }

  /** A whole session of clicks from the freshly built tree: every mark tells the
      truth about the leaves, and each leaf is as its last covering click left it. */
  method Session(widget: Widget, toggles: seq<Toggle>)
    requires widget.Valid() && forall i :: 0 <= i < |widget.parents| ==> widget.states[i] == Unchecked
    requires forall t :: t in toggles ==> t.item < |widget.parents|
    modifies widget.states
    ensures widget.Valid()
    ensures forall i :: 0 <= i < |widget.parents| ==> Truthful(widget.parents, widget.states[..], i)
    ensures forall x :: 0 <= x < |widget.parents| && Leaf(widget.parents, x)
              ==> widget.states[x] == LeafState(widget.parents, toggles, x)
  {
    var p := widget.parents;
    for i := 0 to |toggles|
      invariant widget.Valid()
      invariant forall x :: 0 <= x < |p| && Leaf(p, x) ==> widget.states[x] == LeafState(p, toggles[..i], x)
    {
      assert toggles[i] in toggles;
      widget.UserToggles(toggles[i].item, toggles[i].State());
      assert toggles[..i + 1][..i] == toggles[..i];
      forall x | 0 <= x < |p| && Leaf(p, x) && !Under(p, toggles[i].item, x) ensures !Under(p, x, toggles[i].item) {
        if Under(p, x, toggles[i].item) && x != toggles[i].item {
          var c := ThroughAChild(p, x, toggles[i].item);
        }
      }
    }
    assert toggles[..|toggles|] == toggles;
    forall i | 0 <= i < |p| ensures Truthful(p, widget.states[..], i) {
      CoherentIsTruthful(p, widget.states[..], i);
    }
  }
}
