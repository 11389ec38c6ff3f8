/** `Remove(value)` (BTree/BTree/BTree.cs:94-208) followed through a whole search
    tree of height 1 (a root whose children are leaves): deleting from a leaf
    with keys to spare, replacing a separator by its predecessor or successor,
    and merging the two leaves of a one-key root into a new leaf root. Each
    leaves a search-ordered tree that stores exactly the old keys without
    `value`. */
module ShallowRemoval {
  import opened Wrappers
  import opened Lists
  import opened Keys
  import opened Node
  import opened Search
  import opened TreeState
  import opened Insertion
  import opened Removal

  /** Under a node whose children are ordered leaves, a key of child `j` lies in
      the gap at position `j` of the node's keys, which is where `Find` goes for
      it, and is not one of the node's keys. */
  lemma KeyOfChild(a: Arena, p: NodeId, j: int, v: int)
    requires LeafParent(a, p) && 0 <= j < |a.nodes[p].children|
    requires v in a.nodes[a.nodes[p].children[j]].keys
    ensures var K := a.nodes[p].keys;
      j == FirstNotLess(K, v) && v !in K && Separated(K, j, {v})
  {
    var P := a.nodes[p];
    assert v in KeySet(a.nodes[P.children[j]].keys);
    GapIsFirstNotLess(P.keys, v, j);
    NotAKey(P.keys, j, v);
  }

  /** Under a node whose children are ordered leaves, a leaf that loses the key
      `v` and keeps its other keys in order leaves the node's children ordered
      and the keys below them without `v`. */
  lemma LeafLosesKey(a: Arena, p: NodeId, j: int, v: int, ks: seq<int>)
    requires Closed(a) && LeafParent(a, p) && 0 <= j < |a.nodes[p].children|
    requires var c := a.nodes[p].children[j];
      v in a.nodes[c].keys && StrictlySorted(ks) && KeySet(ks) == KeySet(a.nodes[c].keys) - {v}
    ensures var b, cs := WithKeys(a, a.nodes[p].children[j], ks), a.nodes[p].children;
      LeafParent(b, p) && b.nodes[p] == a.nodes[p] &&
      ChildContent(b, cs, 0) == ChildContent(a, cs, 0) - {v}
  {
    var P := a.nodes[p];
    var cs, c := P.children, P.children[j];
    var b := WithKeys(a, c, ks);
    NonEmptyChildOnce(a, p, j);
    forall k | 0 <= k < |cs|
      ensures cs[k] in b.nodes && b.nodes[cs[k]].isLeaf && StrictlySorted(b.nodes[cs[k]].keys) &&
        Separated(P.keys, k, KeySet(b.nodes[cs[k]].keys))
    {
      if k == j {
        assert Separated(P.keys, j, KeySet(a.nodes[c].keys));
      }
    }
    LeafLosesKeyContent(a, b, p, j, v);
  }

  /** The keys below the children of `p` when only leaf `j`, which holds `v`,
      changes, to its old keys without `v`. */
  lemma LeafLosesKeyContent(a: Arena, b: Arena, p: NodeId, j: int, v: int)
    requires LeafParent(a, p) && 0 <= j < |a.nodes[p].children|
    requires var cs := a.nodes[p].children;
      v in a.nodes[cs[j]].keys && (forall k :: 0 <= k < |cs| && k != j ==> cs[k] != cs[j]) &&
      b.nodes.Keys == a.nodes.Keys && KeySet(b.nodes[cs[j]].keys) == KeySet(a.nodes[cs[j]].keys) - {v} &&
      forall id :: id in a.nodes && id != cs[j] ==> b.nodes[id] == a.nodes[id]
    ensures var cs := a.nodes[p].children;
      ChildContent(b, cs, 0) == ChildContent(a, cs, 0) - {v}
  {
    var P := a.nodes[p];
    var cs, c := P.children, P.children[j];
    KeyOfChild(a, p, j, v);
    ChildContentAround(a, cs, j, 0);
    ChildContentAround(b, cs, j, 0);
    LeafContentFrame(a, b, cs[..j]);
    LeafContentFrame(a, b, cs[j + 1..]);
    LeafContent(a, c);
    LeafContent(b, c);
    if 0 < j {
      var below, above := KeysAroundSeparator(a, p, j - 1);
      assert cs[..j - 1 + 1] == cs[..j];
    }
    if j < |P.keys| {
      var below, above := KeysAroundSeparator(a, p, j);
    }
  }
  /** Removing a key from a leaf below the root that holds more than t-1 keys
      (BTree.cs:103-107) deletes it from that leaf only; the tree stays
      search-ordered with height 1 and stores exactly the other keys. */
  lemma RemoveFromLeafChild(s: State, t: int, v: int, fuel: nat, c: NodeId)
    requires WellFormed(s) && fuel > 0 && SearchOrdered(s, 1)
    requires c in s.arena.nodes[s.root.value].children
    requires v in s.arena.nodes[c].keys && |s.arena.nodes[c].keys| > t - 1
    ensures var o := RemoveFrom(s, t, v, fuel);
      o.fault.None? && o.state.root == s.root && o.state.arena == RemoveKeyFrom(s.arena, c, v) &&
      SearchOrdered(o.state, 1) && Stored(o.state, 1) == Stored(s, 1) - {v}
  {
    LeafChildLosesKey(s.arena, s.root.value, c, v);
    FindLeafChild(s, v);
    RemoveDirectStep(s, t, v, fuel, c);
  }

  /** Under the root of a search tree of height 1, deleting a key from one of
      its leaves: `Find` goes to that leaf for the key, and the tree stays a
      search tree of height 1 holding the other keys. */
  lemma LeafChildLosesKey(a: Arena, p: NodeId, c: NodeId, v: int)
    requires Closed(a) && SearchTree(a, p, 1) && c in a.nodes[p].children && v in a.nodes[c].keys
    ensures var P, b := a.nodes[p], RemoveKeyFrom(a, c, v);
      v !in P.keys && FirstNotLess(P.keys, v) < |P.children| && P.children[FirstNotLess(P.keys, v)] == c &&
      SearchTree(b, p, 1) && Content(b, p, 1) == Content(a, p, 1) - {v} &&
      ChildContent(b, P.children, 0) == ChildContent(a, P.children, 0) - {v}
  {
    var P := a.nodes[p];
    HeightOne(a, p);
    var j :| 0 <= j < |P.children| && P.children[j] == c;
    KeyOfChild(a, p, j, v);
    var N := a.nodes[c];
    RemoveSortedKey(N.keys, v);
    LeafLosesKey(a, p, j, v, RemoveFirst(N.keys, v));
    HeightOne(RemoveKeyFrom(a, c, v), p);
  }
  /** Under a node whose children are ordered leaves, none of its keys is also
      below it. */
  lemma SeparatorNotBelow(a: Arena, p: NodeId, i: int)
    requires LeafParent(a, p) && 0 <= i < |a.nodes[p].keys|
    ensures a.nodes[p].keys[i] !in ChildContent(a, a.nodes[p].children, 0)
  {
    var cs, k := a.nodes[p].children, a.nodes[p].keys[i];
    var below, above := KeysAroundSeparator(a, p, i);
    assert cs == cs[..i + 1] + cs[i + 1..];
    ChildContentAppend(a, cs[..i + 1], cs[i + 1..], 0);
    assert ChildContent(a, cs, 0) == below + above;
    assert k !in below && k !in above;
  }

  /** Writing a new key `x` over key `i` of a node whose children are ordered
      leaves keeps them ordered when `x` still lies between the neighbouring
      keys and between the leaves on either side of it. */
  lemma NewSeparator(b: Arena, p: NodeId, i: int, x: int)
    requires Closed(b) && LeafParent(b, p) && 0 <= i < |b.nodes[p].keys|
    requires var K, cs := b.nodes[p].keys, b.nodes[p].children;
      (0 < i ==> K[i - 1] < x) && (i + 1 < |K| ==> x < K[i + 1]) &&
      Separated([x], 0, KeySet(b.nodes[cs[i]].keys)) && Separated([x], 1, KeySet(b.nodes[cs[i + 1]].keys))
    ensures var K, cs := b.nodes[p].keys, b.nodes[p].children;
      var b' := WithKeys(b, p, K[i := x]);
      SearchTree(b', p, 1) && Content(b', p, 1) == KeySet(K[i := x]) + ChildContent(b, cs, 0)
  {
    var P := b.nodes[p];
    var K, cs := P.keys, P.children;
    var b' := WithKeys(b, p, K[i := x]);
    NewSeparatorOrder(b, p, i, x);
    HeightOne(b', p);
  }

  /** The node-by-node order of `NewSeparator`. */
  lemma NewSeparatorOrder(b: Arena, p: NodeId, i: int, x: int)
    requires Closed(b) && LeafParent(b, p) && 0 <= i < |b.nodes[p].keys|
    requires var K, cs := b.nodes[p].keys, b.nodes[p].children;
      (0 < i ==> K[i - 1] < x) && (i + 1 < |K| ==> x < K[i + 1]) &&
      Separated([x], 0, KeySet(b.nodes[cs[i]].keys)) && Separated([x], 1, KeySet(b.nodes[cs[i + 1]].keys))
    ensures var b' := WithKeys(b, p, b.nodes[p].keys[i := x]);
      LeafParent(b', p) && ChildContent(b', b.nodes[p].children, 0) == ChildContent(b, b.nodes[p].children, 0)
  {
    var P := b.nodes[p];
    var K, cs := P.keys, P.children;
    var b' := WithKeys(b, p, K[i := x]);
    SeparatorUpdate(K, i, x);
    forall k | 0 <= k < |cs|
      ensures cs[k] in b'.nodes && b'.nodes[cs[k]].isLeaf && StrictlySorted(b'.nodes[cs[k]].keys) &&
        Separated(K[i := x], k, KeySet(b'.nodes[cs[k]].keys))
    {
      assert cs[k] != p;
      var ks := b.nodes[cs[k]].keys;
      assert Separated(K, k, KeySet(ks));
      if k == i {
        BelowKey(ks, x);
      } else if k == i + 1 {
        AboveKey(ks, x);
      }
    }
    forall c | c in cs
      ensures c in b.nodes && c in b'.nodes && b.nodes[c].keys == b'.nodes[c].keys
    {
      var k :| 0 <= k < |cs| && cs[k] == c;
    }
    LeafContentFrame(b, b', cs);
  }
  /** Removing key `i` of the root of a search tree of height 1 when leaf `i`
      holds more than t-1 keys (BTree.cs:175-181): the predecessor, the last key
      of that leaf, is removed by a nested `Remove` and written over key `i`. The
      tree stays search-ordered with height 1 and stores exactly the other keys. */
  lemma RemoveByPredecessor(s: State, t: int, v: int, fuel: nat, i: int)
    requires WellFormed(s) && fuel > 1 && SearchOrdered(s, 1)
    requires var P := s.arena.nodes[s.root.value];
      0 <= i < |P.keys| && P.keys[i] == v &&
      0 < |s.arena.nodes[P.children[i]].keys| && t - 1 < |s.arena.nodes[P.children[i]].keys|
    ensures var P := s.arena.nodes[s.root.value];
      var ci := s.arena.nodes[P.children[i]].keys;
      var o := RemoveFrom(s, t, v, fuel);
      o.fault.None? && o.state.root == s.root &&
      o.state.arena.nodes[s.root.value].keys == P.keys[i := ci[|ci| - 1]] &&
      SearchOrdered(o.state, 1) && Stored(o.state, 1) == Stored(s, 1) - {v}
  {
    var a, p := s.arena, s.root.value;
    var P := a.nodes[p];
    var c := P.children[i];
    var ci := a.nodes[c].keys;
    var x := ci[|ci| - 1];
    HeightOne(a, p);
    FoundInRoot(s, v, i);
    assert InternalChoice(a, t, p, v) == Replace(i, x);
    RemoveFromLeafChild(s, t, x, Spent(fuel), c);
    ReplaceStep(s, t, v, fuel, i, x);
    ReplaceWithLast(a, p, i);
  }

  /** Removing key `i` of the root of a search tree of height 1 when leaf `i`
      holds at most t-1 keys and leaf `i+1` more (BTree.cs:182-188): the
      successor, the first key of leaf `i+1`, is removed by a nested `Remove`
      and written over key `i`. The tree stays search-ordered with height 1 and
      stores exactly the other keys. */
  lemma RemoveBySuccessor(s: State, t: int, v: int, fuel: nat, i: int)
    requires WellFormed(s) && fuel > 1 && SearchOrdered(s, 1)
    requires var P := s.arena.nodes[s.root.value];
      0 <= i < |P.keys| && P.keys[i] == v && |s.arena.nodes[P.children[i]].keys| <= t - 1 &&
      0 < |s.arena.nodes[P.children[i + 1]].keys| && t - 1 < |s.arena.nodes[P.children[i + 1]].keys|
    ensures var P := s.arena.nodes[s.root.value];
      var o := RemoveFrom(s, t, v, fuel);
      o.fault.None? && o.state.root == s.root &&
      o.state.arena.nodes[s.root.value].keys == P.keys[i := s.arena.nodes[P.children[i + 1]].keys[0]] &&
      SearchOrdered(o.state, 1) && Stored(o.state, 1) == Stored(s, 1) - {v}
  {
    var a, p := s.arena, s.root.value;
    var P := a.nodes[p];
    var c := P.children[i + 1];
    var x := a.nodes[c].keys[0];
    HeightOne(a, p);
    FoundInRoot(s, v, i);
    assert InternalChoice(a, t, p, v) == Replace(i, x);
    RemoveFromLeafChild(s, t, x, Spent(fuel), c);
    ReplaceStep(s, t, v, fuel, i, x);
    ReplaceWithFirst(a, p, i);
  }

  /** Removing the only key of a root of height 1 whose two leaves hold at most
      t-1 keys each (BTree.cs:190-199): the leaves are merged into a fresh leaf
      that becomes the parentless root, and `value` is dropped with the old
      root. The tree is one level lower, search-ordered, and stores exactly the
      other keys. */
  lemma RemoveByRootMerge(s: State, t: int, v: int, fuel: nat)
    requires WellFormed(s) && fuel > 0 && SearchOrdered(s, 1)
    requires var p := s.root.value; var P := s.arena.nodes[p];
      P.keys == [v] &&
      |s.arena.nodes[P.children[0]].keys| <= t - 1 && |s.arena.nodes[P.children[1]].keys| <= t - 1 &&
      s.arena.nodes[P.children[0]].parent == Some(p) && s.arena.nodes[P.children[1]].parent == Some(p)
    ensures var o := RemoveFrom(s, t, v, fuel);
      o.fault.None? && o.state.root.Some? && o.state.root.value !in s.arena.nodes &&
      o.state.arena.nodes[o.state.root.value].parent.None? &&
      SearchOrdered(o.state, 0) && Stored(o.state, 0) == Stored(s, 1) - {v}
  {
    var a, p := s.arena, s.root.value;
    var P := a.nodes[p];
    HeightOne(a, p);
    FoundInRoot(s, v, 0);
    assert InternalChoice(a, t, p, v) == MergeAt(0);
    var b := Merge(a, P.children[0], P.children[1], t);
    var m := b.result.value;
    MergeStep(s, t, v, fuel, 0);
    MergedLeaves(a, p, v);
    LeafContent(WithParent(b.arena, m, None), m);
  }

  /** When `Find` stops at the root, the choice is to merge children `i` and
      `i+1` and the merge succeeds, `Remove(value)` goes on with the merged node. */
  lemma MergeStep(s: State, t: int, v: int, fuel: nat, i: nat)
    requires WellFormed(s) && fuel > 0 && s.root.Some? && FindIn(s, v) == Ok(s.root)
    requires var P := s.arena.nodes[s.root.value];
      !P.isLeaf && v in P.keys && i + 1 < |P.children| && InternalChoice(s.arena, t, s.root.value, v) == MergeAt(i)
    requires var cs := s.arena.nodes[s.root.value].children; Merge(s.arena, cs[i], cs[i + 1], t).result.Ok?
    ensures var cs := s.arena.nodes[s.root.value].children;
      var b := Merge(s.arena, cs[i], cs[i + 1], t);
      RemoveFrom(s, t, v, fuel) == MergeChildrenRest(s, b.arena, t, s.root.value, b.result.value, i, v, fuel)
  {
    InternalCall(s, t, v, fuel, s.root.value);
    MergeAtCall(s, t, s.root.value, v, fuel, i);
  }

  /** The merge branch of the internal case, once the merge of children `i` and
      `i+1` succeeds. */
  lemma MergeAtCall(s: State, t: int, n: NodeId, v: int, fuel: nat, i: nat)
    requires WellFormed(s) && n in s.arena.nodes && fuel > 0
    requires i + 1 < |s.arena.nodes[n].children| && InternalChoice(s.arena, t, n, v) == MergeAt(i)
    requires var cs := s.arena.nodes[n].children; Merge(s.arena, cs[i], cs[i + 1], t).result.Ok?
    ensures var cs := s.arena.nodes[n].children;
      var b := Merge(s.arena, cs[i], cs[i + 1], t);
      RemoveFromInternal(s, t, n, v, fuel) == MergeChildrenRest(s, b.arena, t, n, b.result.value, i, v, fuel)
  {
    assert RemoveFromInternal(s, t, n, v, fuel) == MergeChildren(s, t, n, i, v, fuel);
    MergeChildrenCall(s, t, n, i, v, fuel);
  }

  /** Merging children `i` and `i+1` goes on with the merged node when the merge succeeds. */
  lemma MergeChildrenCall(s: State, t: int, n: NodeId, i: nat, v: int, fuel: nat)
    requires WellFormed(s) && n in s.arena.nodes && fuel > 0 && i + 1 < |s.arena.nodes[n].children|
    requires var cs := s.arena.nodes[n].children; Merge(s.arena, cs[i], cs[i + 1], t).result.Ok?
    ensures var cs := s.arena.nodes[n].children;
      var b := Merge(s.arena, cs[i], cs[i + 1], t);
      MergeChildren(s, t, n, i, v, fuel) == MergeChildrenRest(s, b.arena, t, n, b.result.value, i, v, fuel)
  {
  }

  /** The two leaves of a root of height 1 with the single key `v`, joined: an
      ascending list holding every key of the tree but `v`. */
  lemma MergedLeaves(a: Arena, p: NodeId, v: int)
    requires LeafParent(a, p) && a.nodes[p].keys == [v]
    ensures var cs := a.nodes[p].children;
      var C0, C1 := a.nodes[cs[0]].keys, a.nodes[cs[1]].keys;
      StrictlySorted(C0 + C1) && KeySet(C0 + C1) == Content(a, p, 1) - {v}
  {
    var cs := a.nodes[p].children;
    var C0, C1 := a.nodes[cs[0]].keys, a.nodes[cs[1]].keys;
    assert Separated([v], 0, KeySet(C0)) && Separated([v], 1, KeySet(C1));
    JoinWithout(C0, v, C1);
    HeightOne(a, p);
    assert cs == [cs[0], cs[1]];
    ChildContentPair(a, cs[0], cs[1], 0);
    LeafContent(a, cs[0]);
    LeafContent(a, cs[1]);
    BelowKey(C0, v);
    AboveKey(C1, v);
  }

  /** When `Find` stops at the root and the choice is to replace key `i` by
      `x`, `Remove(value)` is the nested `Remove(x)` followed by writing `x`
      over key `i` of the root. */
  lemma ReplaceStep(s: State, t: int, v: int, fuel: nat, i: nat, x: int)
    requires WellFormed(s) && fuel > 1 && s.root.Some? && FindIn(s, v) == Ok(s.root)
    requires var R := s.arena.nodes[s.root.value]; !R.isLeaf && v in R.keys
    requires InternalChoice(s.arena, t, s.root.value, v) == Replace(i, x)
    requires var o1 := RemoveFrom(s, t, x, Spent(fuel));
      o1.fault.None? && i < |o1.state.arena.nodes[s.root.value].keys|
    ensures var o1, r := RemoveFrom(s, t, x, Spent(fuel)), s.root.value;
      RemoveFrom(s, t, v, fuel) ==
        Outcome(o1.state.(arena := WithKeys(o1.state.arena, r, o1.state.arena.nodes[r].keys[i := x])), None)
  {
    InternalCall(s, t, v, fuel, s.root.value);
    ReplaceKeyCall(s, t, s.root.value, i, x, fuel);
  }

  /** `Remove(value)` at an internal node holding `value` takes the internal branch (BTree.cs:171-208). */
  lemma InternalCall(s: State, t: int, v: int, fuel: nat, n: NodeId)
    requires WellFormed(s) && FindIn(s, v) == Ok(Some(n)) && fuel > 0
    requires !s.arena.nodes[n].isLeaf && v in s.arena.nodes[n].keys
    ensures RemoveFrom(s, t, v, fuel) == RemoveFromInternal(s, t, n, v, fuel)
  {
  }

  /** Replacing key `i` after a nested removal that succeeds. */
  lemma ReplaceKeyCall(s: State, t: int, n: NodeId, i: nat, x: int, fuel: nat)
    requires WellFormed(s) && n in s.arena.nodes && fuel > 0
    requires var o1 := RemoveFrom(s, t, x, Spent(fuel));
      o1.fault.None? && i < |o1.state.arena.nodes[n].keys|
    ensures var o1 := RemoveFrom(s, t, x, Spent(fuel));
      ReplaceKey(s, t, n, i, x, fuel) ==
        Outcome(o1.state.(arena := WithKeys(o1.state.arena, n, o1.state.arena.nodes[n].keys[i := x])), None)
  {
  }

  /** `Find` stops at the root for a key of the root of a search tree of
      height 1, and the linear scan for it finds its position. */
  lemma FoundInRoot(s: State, v: int, i: int)
    requires WellFormed(s) && SearchOrdered(s, 1)
    requires var P := s.arena.nodes[s.root.value]; 0 <= i < |P.keys| && P.keys[i] == v
    ensures FindIn(s, v) == Ok(s.root) && IndexOf(s.arena.nodes[s.root.value].keys, v) == i
  {
    var a, p := s.arena, s.root.value;
    HeightBelowSize(a, p, 1);
    FindOnMatch(a, p, v, |a.nodes|);
  }

  /** Under the root of a search tree of height 1, moving the last key of leaf `i`
      over key `i` of the root keeps a search tree of height 1 that holds the
      old keys without the old key `i`. */
  lemma ReplaceWithLast(a: Arena, p: NodeId, i: int)
    requires Closed(a) && SearchTree(a, p, 1) && 0 <= i < |a.nodes[p].keys|
    requires |a.nodes[a.nodes[p].children[i]].keys| > 0
    ensures var P := a.nodes[p];
      var ci := a.nodes[P.children[i]].keys;
      var x := ci[|ci| - 1];
      var b := WithKeys(RemoveKeyFrom(a, P.children[i], x), p, P.keys[i := x]);
      SearchTree(b, p, 1) && Content(b, p, 1) == Content(a, p, 1) - {P.keys[i]}
  {
    var P := a.nodes[p];
    var K, cs := P.keys, P.children;
    var c := cs[i];
    var ci := a.nodes[c].keys;
    var x := ci[|ci| - 1];
    HeightOne(a, p);
    LeafChildLosesKey(a, p, c, x);
    var b1 := RemoveKeyFrom(a, c, x);
    HeightOne(b1, p);
    KeyOfChild(a, p, i, x);
    RemoveSortedKey(ci, x);
    assert Separated([x], 0, KeySet(b1.nodes[c].keys)) by {
      forall y | y in KeySet(b1.nodes[c].keys)
        ensures y < x
      {
        var m :| 0 <= m < |ci| && ci[m] == y;
      }
    }
    NonEmptyChildOnce(a, p, i);
    assert Separated([x], 1, KeySet(b1.nodes[cs[i + 1]].keys)) by {
      assert Separated(K, i + 1, KeySet(a.nodes[cs[i + 1]].keys));
    }
    NewSeparator(b1, p, i, x);
    TradedKey(a, p, i, x, c);
  }

  /** Under the root of a search tree of height 1, moving the first key of leaf
      `i+1` over key `i` of the root keeps a search tree of height 1 that holds
      the old keys without the old key `i`. */
  lemma ReplaceWithFirst(a: Arena, p: NodeId, i: int)
    requires Closed(a) && SearchTree(a, p, 1) && 0 <= i < |a.nodes[p].keys|
    requires |a.nodes[a.nodes[p].children[i + 1]].keys| > 0
    ensures var P := a.nodes[p];
      var x := a.nodes[P.children[i + 1]].keys[0];
      var b := WithKeys(RemoveKeyFrom(a, P.children[i + 1], x), p, P.keys[i := x]);
      SearchTree(b, p, 1) && Content(b, p, 1) == Content(a, p, 1) - {P.keys[i]}
  {
    var P := a.nodes[p];
    var K, cs := P.keys, P.children;
    var c := cs[i + 1];
    var cj := a.nodes[c].keys;
    var x := cj[0];
    HeightOne(a, p);
    LeafChildLosesKey(a, p, c, x);
    var b1 := RemoveKeyFrom(a, c, x);
    HeightOne(b1, p);
    KeyOfChild(a, p, i + 1, x);
    RemoveSortedKey(cj, x);
    assert Separated([x], 1, KeySet(b1.nodes[c].keys)) by {
      forall y | y in KeySet(b1.nodes[c].keys)
        ensures x < y
      {
        var m :| 0 <= m < |cj| && cj[m] == y;
      }
    }
    NonEmptyChildOnce(a, p, i + 1);
    assert Separated([x], 0, KeySet(b1.nodes[cs[i]].keys)) by {
      assert Separated(K, i, KeySet(a.nodes[cs[i]].keys));
    }
    NewSeparator(b1, p, i, x);
    TradedKey(a, p, i, x, c);
  }

  /** The keys of the root of height 1 and of its leaves, once key `i` has been
      overwritten by the key `x` of leaf `c`, which that leaf loses. */
  lemma TradedKey(a: Arena, p: NodeId, i: int, x: int, c: NodeId)
    requires LeafParent(a, p) && 0 <= i < |a.nodes[p].keys| && c in a.nodes[p].children
    requires x in a.nodes[c].keys && x !in a.nodes[p].keys
    ensures var P := a.nodes[p];
      KeySet(P.keys[i := x]) + (ChildContent(a, P.children, 0) - {x}) ==
        KeySet(P.keys) + ChildContent(a, P.children, 0) - {P.keys[i]}
  {
    var P := a.nodes[p];
    ReplacedKeySet(P.keys, i, x);
    SeparatorNotBelow(a, p, i);
    var j :| 0 <= j < |P.children| && P.children[j] == c;
    ChildContentMember(a, P.children, 0, x);
    LeafContent(a, c);
    assert x in KeySet(a.nodes[c].keys);
  }

  /** Under a node whose children are ordered leaves, moving keys between the
      neighbouring leaves `j` and `j+1` through key `j` of the node, so that the
      three stay ascending and separated and hold the same keys between them,
      keeps the children ordered and the keys of the subtree. */
  lemma Rotated(a: Arena, b: Arena, p: NodeId, j: int, x: int)
    requires LeafParent(a, p) && 0 <= j < |a.nodes[p].keys|
    requires var P := a.nodes[p];
      var cs, K' := P.children, P.keys[j := x];
      var l, r := cs[j], cs[j + 1];
      l != r && (forall k :: 0 <= k < |cs| && k != j && k != j + 1 ==> cs[k] != l && cs[k] != r) &&
      b.nodes.Keys == a.nodes.Keys && b.nodes[p] == P.(keys := K') &&
      b.nodes[l].isLeaf && b.nodes[r].isLeaf && StrictlySorted(K') &&
      StrictlySorted(b.nodes[l].keys) && StrictlySorted(b.nodes[r].keys) &&
      Separated(K', j, KeySet(b.nodes[l].keys)) && Separated(K', j + 1, KeySet(b.nodes[r].keys)) &&
      KeySet(K') + KeySet(b.nodes[l].keys) + KeySet(b.nodes[r].keys) ==
        KeySet(P.keys) + KeySet(a.nodes[l].keys) + KeySet(a.nodes[r].keys) &&
      forall id :: id in a.nodes && id != p && id != l && id != r ==> b.nodes[id] == a.nodes[id]
    ensures LeafParent(b, p) && Content(b, p, 1) == Content(a, p, 1)
  {
    var P := a.nodes[p];
    var cs, K, K' := P.children, P.keys, P.keys[j := x];
    var l, r := cs[j], cs[j + 1];
    RotatedOrder(a, b, p, j, x);
    forall c | c in cs[..j] + cs[j + 2..]
      ensures c in a.nodes && c in b.nodes && a.nodes[c].keys == b.nodes[c].keys
    {
      var k :| 0 <= k < |cs| && k != j && k != j + 1 && cs[k] == c;
      assert a.nodes[c].isLeaf;
    }
    LeafContentFrame(a, b, cs[..j]);
    LeafContentFrame(a, b, cs[j + 2..]);
    ChildContentAroundPair(a, cs, j, 0);
    ChildContentAroundPair(b, cs, j, 0);
    LeafContent(a, l);
    LeafContent(a, r);
    LeafContent(b, l);
    LeafContent(b, r);
    HeightOne(a, p);
    HeightOne(b, p);
    RegroupedSum(KeySet(K'), KeySet(K), ChildContent(a, cs[..j], 0),
      KeySet(b.nodes[l].keys), KeySet(a.nodes[l].keys), KeySet(b.nodes[r].keys), KeySet(a.nodes[r].keys),
      ChildContent(a, cs[j + 2..], 0));
  }

  /** Keys kept by a node and two neighbouring children, regrouped with the
      keys of the children before and after them. */
  lemma RegroupedSum(k': set<int>, k: set<int>, below: set<int>, l': set<int>, l: set<int>,
                     r': set<int>, r: set<int>, above: set<int>)
    requires k' + l' + r' == k + l + r
    ensures k' + (below + l' + r' + above) == k + (below + l + r + above)
  {
  }

  /** The order half of `Rotated`: the children stay ordered leaves. */
  lemma RotatedOrder(a: Arena, b: Arena, p: NodeId, j: int, x: int)
    requires LeafParent(a, p) && 0 <= j < |a.nodes[p].keys|
    requires var P := a.nodes[p];
      var cs, K' := P.children, P.keys[j := x];
      var l, r := cs[j], cs[j + 1];
      (forall k :: 0 <= k < |cs| && k != j && k != j + 1 ==> cs[k] != l && cs[k] != r) &&
      b.nodes.Keys == a.nodes.Keys && b.nodes[p] == P.(keys := K') &&
      b.nodes[l].isLeaf && b.nodes[r].isLeaf && StrictlySorted(K') &&
      StrictlySorted(b.nodes[l].keys) && StrictlySorted(b.nodes[r].keys) &&
      Separated(K', j, KeySet(b.nodes[l].keys)) && Separated(K', j + 1, KeySet(b.nodes[r].keys)) &&
      forall id :: id in a.nodes && id != p && id != l && id != r ==> b.nodes[id] == a.nodes[id]
    ensures LeafParent(b, p)
  {
    var P := a.nodes[p];
    var cs, K, K' := P.children, P.keys, P.keys[j := x];
    forall k | 0 <= k < |cs|
      ensures cs[k] in b.nodes && b.nodes[cs[k]].isLeaf && StrictlySorted(b.nodes[cs[k]].keys) &&
        Separated(K', k, KeySet(b.nodes[cs[k]].keys))
    {
      if k != j && k != j + 1 {
        assert a.nodes[cs[k]].isLeaf;
        assert b.nodes[cs[k]] == a.nodes[cs[k]];
        assert Separated(K, k, KeySet(a.nodes[cs[k]].keys));
      }
    }
  }

  /** Removing a key from a leaf below the root of a search tree of height 1,
      when the leaf is at the minimum and its left sibling has keys to spare
      (BTree.cs:112-124): the separator goes down into the leaf, the sibling's
      last key takes its place in the root, and the tree stays search-ordered
      with height 1 and stores exactly the other keys. */
  lemma RemoveByBorrowLeft(s: State, t: int, v: int, fuel: nat, i: int)
    requires WellFormed(s) && fuel > 0 && SearchOrdered(s, 1)
    requires var p := s.root.value; var cs := s.arena.nodes[p].children;
      0 < i < |cs| && cs[i] in s.arena.nodes && cs[i - 1] in s.arena.nodes &&
      var N, NB := s.arena.nodes[cs[i]], s.arena.nodes[cs[i - 1]];
      v in N.keys && |N.keys| <= t - 1 && N.parent == s.root && |NB.keys| > t - 1
    ensures var p := s.root.value; var P := s.arena.nodes[p];
      var NB := s.arena.nodes[P.children[i - 1]].keys;
      var o := RemoveFrom(s, t, v, fuel);
      o.fault.None? && o.state.root == s.root &&
      o.state.arena.nodes[p].keys == P.keys[i - 1 := NB[|NB| - 1]] &&
      SearchOrdered(o.state, 1) && Stored(o.state, 1) == Stored(s, 1) - {v}
  {
    BorrowLeftTaken(s, t, v, fuel, i);
    BorrowLeftOrdered(s, i, v);
  }

  /** The left borrow on leaf `i` under the root of a search tree of height 1
      keeps a search tree of height 1 holding the old keys without `v`. */
  lemma BorrowLeftOrdered(s: State, i: int, v: int)
    requires WellFormed(s) && SearchOrdered(s, 1) && 0 < i < |s.arena.nodes[s.root.value].children|
    requires var a, p := s.arena, s.root.value;
      var n, nb := a.nodes[p].children[i], a.nodes[p].children[i - 1];
      n in a.nodes && nb in a.nodes && a.nodes[n].isLeaf && !a.nodes[p].isLeaf && nb != n && a.nodes[nb].isLeaf &&
      var K, N, NB := a.nodes[p].keys, a.nodes[n].keys, a.nodes[nb].keys;
      |NB| > 0 && i - 1 < |K| && v in N && StrictlySorted(K) && StrictlySorted(N) && StrictlySorted(NB) &&
      Separated(K, i, KeySet(N)) && Separated(K, i - 1, KeySet(NB))
    ensures var a, p := s.arena, s.root.value;
      var P := a.nodes[p];
      var o := BorrowLeft(s, P.children[i], p, i, v);
      var NB := a.nodes[P.children[i - 1]].keys;
      o.fault.None? && o.state.root == s.root &&
      o.state.arena.nodes[p].keys == P.keys[i - 1 := NB[|NB| - 1]] &&
      SearchOrdered(o.state, 1) && Stored(o.state, 1) == Stored(s, 1) - {v}
  {
    var p := s.root.value;
    var n := s.arena.nodes[p].children[i];
    BorrowLeftRecords(s, n, p, i, v);
    BorrowLeftEffect(s, n, p, i, v);
    BorrowedLeft(s.arena, BorrowLeft(s, n, p, i, v).state.arena, p, i, v);
  }

  /** Under the root of a search tree of height 1, the records a borrow from the
      left sibling leaves keep a search tree of height 1 holding the old keys
      without `v`. */
  lemma BorrowedLeft(a: Arena, b: Arena, p: NodeId, i: int, v: int)
    requires Closed(a) && SearchTree(a, p, 1) && 0 < i < |a.nodes[p].children|
    requires var P := a.nodes[p];
      var n, nb := P.children[i], P.children[i - 1];
      var N, NB := a.nodes[n], a.nodes[nb];
      v in N.keys && nb != n && |NB.keys| > 0 && b.nodes.Keys == a.nodes.Keys &&
      b.nodes[n] == N.(keys := InsertSorted(RemoveFirst(N.keys, v), P.keys[i - 1])) &&
      b.nodes[p] == P.(keys := P.keys[i - 1 := NB.keys[|NB.keys| - 1]]) &&
      b.nodes[nb] == NB.(keys := RemoveFirst(NB.keys, NB.keys[|NB.keys| - 1])) &&
      StrictlySorted(b.nodes[n].keys) && StrictlySorted(b.nodes[p].keys) && StrictlySorted(b.nodes[nb].keys) &&
      Separated(b.nodes[p].keys, i - 1, KeySet(b.nodes[nb].keys)) &&
      Separated(b.nodes[p].keys, i, KeySet(b.nodes[n].keys)) &&
      forall id :: id in a.nodes && id != n && id != p && id != nb ==> b.nodes[id] == a.nodes[id]
    ensures SearchTree(b, p, 1) && Content(b, p, 1) == Content(a, p, 1) - {v}
  {
    var P := a.nodes[p];
    var n, nb := P.children[i], P.children[i - 1];
    var NB := a.nodes[nb].keys;
    LeafChildLosesKey(a, p, n, v);
    var a1 := RemoveKeyFrom(a, n, v);
    HeightOne(a, p);
    HeightOne(a1, p);
    NonEmptyChildOnce(a, p, i);
    NonEmptyChildOnce(a, p, i - 1);
    Borrowed(a1, b, p, i, i - 1, NB[|NB| - 1]);
    HeightOne(b, p);
  }

  /** Under a node whose children are ordered leaves, a borrow between the
      neighbouring leaves at `jn` and `jb`: the key of the node between them goes
      down into leaf `jn`, and key `kn` of the sibling at `jb` takes its place.
      When the three stay ascending and separated, the children stay ordered and
      the subtree keeps its keys. */
  lemma Borrowed(a: Arena, b: Arena, p: NodeId, jn: int, jb: int, kn: int)
    requires LeafParent(a, p) && 0 <= jn < |a.nodes[p].children| && 0 <= jb < |a.nodes[p].children|
    requires jn == jb + 1 || jb == jn + 1
    requires var P := a.nodes[p];
      var cs, j := P.children, if jn < jb then jn else jb;
      var n, nb := cs[jn], cs[jb];
      n != nb && (forall k :: 0 <= k < |cs| && k != jn && k != jb ==> cs[k] != n && cs[k] != nb) &&
      var N, NB := a.nodes[n], a.nodes[nb];
      StrictlySorted(NB.keys) && kn in NB.keys && b.nodes.Keys == a.nodes.Keys &&
      b.nodes[p] == P.(keys := P.keys[j := kn]) &&
      b.nodes[n] == N.(keys := InsertSorted(N.keys, P.keys[j])) &&
      b.nodes[nb] == NB.(keys := RemoveFirst(NB.keys, kn)) &&
      StrictlySorted(b.nodes[p].keys) && StrictlySorted(b.nodes[n].keys) && StrictlySorted(b.nodes[nb].keys) &&
      Separated(b.nodes[p].keys, jn, KeySet(b.nodes[n].keys)) &&
      Separated(b.nodes[p].keys, jb, KeySet(b.nodes[nb].keys)) &&
      forall id :: id in a.nodes && id != p && id != n && id != nb ==> b.nodes[id] == a.nodes[id]
    ensures LeafParent(b, p) && Content(b, p, 1) == Content(a, p, 1)
  {
    var P := a.nodes[p];
    var cs, j := P.children, if jn < jb then jn else jb;
    var n, nb := cs[jn], cs[jb];
    var K, N, NB := P.keys, a.nodes[n].keys, a.nodes[nb].keys;
    var K' := K[j := kn];
    var l, r := cs[j], cs[j + 1];
    BorrowedKeys(K, N, NB, j, kn);
    var kK, kN, kB := KeySet(K'), KeySet(InsertSorted(N, K[j])), KeySet(RemoveFirst(NB, kn));
    if jn < jb {
      assert n == l && nb == r;
    } else {
      assert n == r && nb == l;
      SwappedSum(kK, kN, kB);
      SwappedSum(KeySet(K), KeySet(N), KeySet(NB));
    }
    assert forall id :: id in a.nodes && id != p && id != l && id != r ==> b.nodes[id] == a.nodes[id];
    Rotated(a, b, p, j, kn);
  }

  /** At height 1, `Remove` takes the left borrow for a key in leaf `i` at the
      minimum whose left sibling has keys to spare, and the three nodes meet what
      `BorrowLeftEffect` asks of them. */
  lemma BorrowLeftTaken(s: State, t: int, v: int, fuel: nat, i: int)
    requires WellFormed(s) && fuel > 0 && SearchOrdered(s, 1)
    requires var p := s.root.value; var cs := s.arena.nodes[p].children;
      0 < i < |cs| && cs[i] in s.arena.nodes && cs[i - 1] in s.arena.nodes &&
      var N, NB := s.arena.nodes[cs[i]], s.arena.nodes[cs[i - 1]];
      v in N.keys && |N.keys| <= t - 1 && N.parent == s.root && |NB.keys| > t - 1
    ensures var a, p := s.arena, s.root.value;
      var P := a.nodes[p];
      var n, nb := P.children[i], P.children[i - 1];
      n in a.nodes && nb in a.nodes && a.nodes[n].isLeaf && !P.isLeaf && nb != n && a.nodes[nb].isLeaf &&
      var K, N, NB := P.keys, a.nodes[n].keys, a.nodes[nb].keys;
      |NB| > 0 && i - 1 < |K| && v in N && StrictlySorted(K) && StrictlySorted(N) && StrictlySorted(NB) &&
      Separated(K, i, KeySet(N)) && Separated(K, i - 1, KeySet(NB)) &&
      RemoveFrom(s, t, v, fuel) == BorrowLeft(s, n, p, i, v)
  {
    var a, p := s.arena, s.root.value;
    var P := a.nodes[p];
    Underflowing(s, t, v, i);
    BorrowLeftCall(s, t, v, fuel, P.children[i]);
    var n, nb := P.children[i], P.children[i - 1];
    assert a.nodes[n].isLeaf && a.nodes[nb].isLeaf;
    assert Separated(P.keys, i, KeySet(a.nodes[n].keys)) && Separated(P.keys, i - 1, KeySet(a.nodes[nb].keys));
  }

  /** At height 1, a key in leaf `i` at the minimum sends `Remove` to the
      sibling cases for that leaf, which appears only at position `i`. */
  lemma Underflowing(s: State, t: int, v: int, i: int)
    requires WellFormed(s) && SearchOrdered(s, 1)
    requires var p := s.root.value; var cs := s.arena.nodes[p].children;
      0 <= i < |cs| && cs[i] in s.arena.nodes &&
      var N := s.arena.nodes[cs[i]];
      v in N.keys && |N.keys| <= t - 1 && N.parent == s.root
    ensures var a, p := s.arena, s.root.value;
      var cs := a.nodes[p].children;
      LeafParent(a, p) && LeafUnderflow(s, t, v, cs[i]) && a.nodes[cs[i]].parent.value == p &&
      IndexOf(cs, cs[i]) == i &&
      forall k :: 0 <= k < |cs| && k != i ==> cs[k] != cs[i]
  {
    var a, p := s.arena, s.root.value;
    var P := a.nodes[p];
    var n := P.children[i];
    HeightOne(a, p);
    KeyOfChild(a, p, i, v);
    FindLeafChild(s, v);
    NonEmptyChildOnce(a, p, i);
    assert IndexOf(P.children, n) == i;
  }

  /** Removing a key from a leaf below the root of a search tree of height 1,
      when the leaf is at the minimum, its left sibling (if any) is too, and its
      right sibling has keys to spare (BTree.cs:125-138): the separator goes down
      into the leaf, the sibling's first key takes its place in the root, and the
      tree stays search-ordered with height 1 and stores exactly the other keys. */
  lemma RemoveByBorrowRight(s: State, t: int, v: int, fuel: nat, i: int)
    requires WellFormed(s) && fuel > 0 && SearchOrdered(s, 1)
    requires var p := s.root.value; var cs := s.arena.nodes[p].children;
      0 <= i && i + 1 < |cs| && cs[i] in s.arena.nodes && cs[i + 1] in s.arena.nodes &&
      (i == 0 || (cs[i - 1] in s.arena.nodes && |s.arena.nodes[cs[i - 1]].keys| <= t - 1)) &&
      var N, NB := s.arena.nodes[cs[i]], s.arena.nodes[cs[i + 1]];
      v in N.keys && |N.keys| <= t - 1 && N.parent == s.root && |NB.keys| > t - 1
    ensures var p := s.root.value; var P := s.arena.nodes[p];
      var NB := s.arena.nodes[P.children[i + 1]].keys;
      var o := RemoveFrom(s, t, v, fuel);
      o.fault.None? && o.state.root == s.root &&
      o.state.arena.nodes[p].keys == P.keys[i := NB[0]] &&
      SearchOrdered(o.state, 1) && Stored(o.state, 1) == Stored(s, 1) - {v}
  {
    BorrowRightTaken(s, t, v, fuel, i);
    BorrowRightOrdered(s, i, v);
  }

  /** At height 1, `Remove` takes the right borrow for a key in leaf `i` at the
      minimum whose right sibling has keys to spare and whose left sibling, if
      any, has none, and the three nodes meet what `BorrowRightEffect` asks of
      them. */
  lemma BorrowRightTaken(s: State, t: int, v: int, fuel: nat, i: int)
    requires WellFormed(s) && fuel > 0 && SearchOrdered(s, 1)
    requires var p := s.root.value; var cs := s.arena.nodes[p].children;
      0 <= i && i + 1 < |cs| && cs[i] in s.arena.nodes && cs[i + 1] in s.arena.nodes &&
      (i == 0 || (cs[i - 1] in s.arena.nodes && |s.arena.nodes[cs[i - 1]].keys| <= t - 1)) &&
      var N, NB := s.arena.nodes[cs[i]], s.arena.nodes[cs[i + 1]];
      v in N.keys && |N.keys| <= t - 1 && N.parent == s.root && |NB.keys| > t - 1
    ensures var a, p := s.arena, s.root.value;
      var P := a.nodes[p];
      var n, nb := P.children[i], P.children[i + 1];
      n in a.nodes && nb in a.nodes && a.nodes[n].isLeaf && !P.isLeaf && nb != n && a.nodes[nb].isLeaf &&
      var K, N, NB := P.keys, a.nodes[n].keys, a.nodes[nb].keys;
      |NB| > 0 && i < |K| && v in N && StrictlySorted(K) && StrictlySorted(N) && StrictlySorted(NB) &&
      Separated(K, i, KeySet(N)) && Separated(K, i + 1, KeySet(NB)) &&
      RemoveFrom(s, t, v, fuel) == BorrowRight(s, n, p, i, v)
  {
    var a, p := s.arena, s.root.value;
    var P := a.nodes[p];
    Underflowing(s, t, v, i);
    BorrowRightCall(s, t, v, fuel, P.children[i]);
    var n, nb := P.children[i], P.children[i + 1];
    assert a.nodes[n].isLeaf && a.nodes[nb].isLeaf;
    assert Separated(P.keys, i, KeySet(a.nodes[n].keys)) && Separated(P.keys, i + 1, KeySet(a.nodes[nb].keys));
  }

  /** The right borrow on leaf `i` under the root of a search tree of height 1
      keeps a search tree of height 1 holding the old keys without `v`. */
  lemma BorrowRightOrdered(s: State, i: int, v: int)
    requires WellFormed(s) && SearchOrdered(s, 1) && 0 <= i && i + 1 < |s.arena.nodes[s.root.value].children|
    requires var a, p := s.arena, s.root.value;
      var n, nb := a.nodes[p].children[i], a.nodes[p].children[i + 1];
      n in a.nodes && nb in a.nodes && a.nodes[n].isLeaf && !a.nodes[p].isLeaf && nb != n && a.nodes[nb].isLeaf &&
      var K, N, NB := a.nodes[p].keys, a.nodes[n].keys, a.nodes[nb].keys;
      |NB| > 0 && i < |K| && v in N && StrictlySorted(K) && StrictlySorted(N) && StrictlySorted(NB) &&
      Separated(K, i, KeySet(N)) && Separated(K, i + 1, KeySet(NB))
    ensures var a, p := s.arena, s.root.value;
      var P := a.nodes[p];
      var o := BorrowRight(s, P.children[i], p, i, v);
      var NB := a.nodes[P.children[i + 1]].keys;
      o.fault.None? && o.state.root == s.root &&
      o.state.arena.nodes[p].keys == P.keys[i := NB[0]] &&
      SearchOrdered(o.state, 1) && Stored(o.state, 1) == Stored(s, 1) - {v}
  {
    var p := s.root.value;
    var n := s.arena.nodes[p].children[i];
    BorrowRightRecords(s, n, p, i, v);
    BorrowRightEffect(s, n, p, i, v);
    BorrowedRight(s.arena, BorrowRight(s, n, p, i, v).state.arena, p, i, v);
  }

  /** Under the root of a search tree of height 1, the records a borrow from the
      right sibling leaves keep a search tree of height 1 holding the old keys
      without `v`. */
  lemma BorrowedRight(a: Arena, b: Arena, p: NodeId, i: int, v: int)
    requires Closed(a) && SearchTree(a, p, 1) && 0 <= i && i + 1 < |a.nodes[p].children|
    requires var P := a.nodes[p];
      var n, nb := P.children[i], P.children[i + 1];
      var N, NB := a.nodes[n], a.nodes[nb];
      v in N.keys && nb != n && |NB.keys| > 0 && b.nodes.Keys == a.nodes.Keys &&
      b.nodes[n] == N.(keys := InsertSorted(RemoveFirst(N.keys, v), P.keys[i])) &&
      b.nodes[p] == P.(keys := P.keys[i := NB.keys[0]]) &&
      b.nodes[nb] == NB.(keys := RemoveFirst(NB.keys, NB.keys[0])) &&
      StrictlySorted(b.nodes[n].keys) && StrictlySorted(b.nodes[p].keys) && StrictlySorted(b.nodes[nb].keys) &&
      Separated(b.nodes[p].keys, i, KeySet(b.nodes[n].keys)) &&
      Separated(b.nodes[p].keys, i + 1, KeySet(b.nodes[nb].keys)) &&
      forall id :: id in a.nodes && id != n && id != p && id != nb ==> b.nodes[id] == a.nodes[id]
    ensures SearchTree(b, p, 1) && Content(b, p, 1) == Content(a, p, 1) - {v}
  {
    var P := a.nodes[p];
    var n, nb := P.children[i], P.children[i + 1];
    var NB := a.nodes[nb].keys;
    LeafChildLosesKey(a, p, n, v);
    var a1 := RemoveKeyFrom(a, n, v);
    HeightOne(a, p);
    HeightOne(a1, p);
    NonEmptyChildOnce(a, p, i);
    NonEmptyChildOnce(a, p, i + 1);
    Borrowed(a1, b, p, i, i + 1, NB[0]);
    HeightOne(b, p);
  }

  /** The keys of a node and of its leaves `j` and `j+1` after a borrow through
      key `j`: the leaf that held `v` has lost it, and the keys `kp` and `kn`
      have moved; between them the three hold the same keys as the node and the
      two leaves once `v` was gone. */
  lemma BorrowedKeys(K: seq<int>, N1: seq<int>, NB: seq<int>, j: int, kn: int)
    requires StrictlySorted(K) && StrictlySorted(NB) && 0 <= j < |K| && kn in NB
    ensures KeySet(K[j := kn]) + KeySet(InsertSorted(N1, K[j])) + KeySet(RemoveFirst(NB, kn)) ==
      KeySet(K) + KeySet(N1) + KeySet(NB)
  {
    ReplacedKeySet(K, j, kn);
    RemoveSortedKey(NB, kn);
    InsertSortedMembers(N1, K[j]);
    assert KeySet(InsertSorted(N1, K[j])) == KeySet(N1) + {K[j]};
    MovedKeys(KeySet(K), KeySet(N1), KeySet(NB), K[j], kn);
  }

  /** The union of three sets does not depend on the order of the last two. */
  lemma SwappedSum(x: set<int>, y: set<int>, z: set<int>)
    ensures x + y + z == x + z + y
  {
  }

  /** A key `kp` of the node moves into the leaf and a key `kn` of the sibling
      takes its place: the three hold the same keys. */
  lemma MovedKeys(k: set<int>, n: set<int>, nb: set<int>, kp: int, kn: int)
    requires kp in k && kn in nb
    ensures (k - {kp} + {kn}) + (n + {kp}) + (nb - {kn}) == k + n + nb
  {
  }
}
