/** Search-ordered subtrees of the arena, the keys they hold, and what `Find`
    returns on them (BTree/BTree/Node.cs:54-74). */
module Search {
  import opened Wrappers
  import opened Lists
  import opened Keys
  import opened Node

  /** The keys held in the subtree of `n`, looking `d` levels down. */
  ghost function Content(a: Arena, n: NodeId, d: nat): set<int>
    decreases d, 0
  {
    if n !in a.nodes then {}
    else
      var node := a.nodes[n];
      KeySet(node.keys) + (if d == 0 then {} else ChildContent(a, node.children, d - 1))
  }

  /** The keys held in the subtrees of the nodes `cs`. */
  ghost function ChildContent(a: Arena, cs: seq<NodeId>, d: nat): set<int>
    decreases d, |cs|
  {
    if cs == [] then {} else Content(a, cs[0], d) + ChildContent(a, cs[1..], d)
  }

  /** `n` roots a search tree whose leaves all lie exactly `d` levels below it:
      keys strictly ascending in every node, every internal node with at least
      one key and one more child than keys, and every key of child `i` strictly
      between the node's keys `i-1` and `i`. */
  ghost predicate SearchTree(a: Arena, n: NodeId, d: nat)
    decreases d
  {
    n in a.nodes &&
    var node := a.nodes[n];
    StrictlySorted(node.keys) &&
    if d == 0 then node.isLeaf
    else
      !node.isLeaf && |node.keys| >= 1 && |node.children| == |node.keys| + 1 &&
      forall i :: 0 <= i < |node.children| ==>
        SearchTree(a, node.children[i], d - 1) &&
        Separated(node.keys, i, Content(a, node.children[i], d - 1))
  }

  lemma {:induction false} ChildContentMember(a: Arena, cs: seq<NodeId>, d: nat, v: int)
    ensures v in ChildContent(a, cs, d) <==> exists j :: 0 <= j < |cs| && v in Content(a, cs[j], d)
    decreases |cs|
  {
    if cs != [] {
      ChildContentMember(a, cs[1..], d, v);
      if v in ChildContent(a, cs[1..], d) {
        var j :| 0 <= j < |cs| - 1 && v in Content(a, cs[1..][j], d);
        assert cs[j + 1] == cs[1..][j];
      }
      if exists j :: 0 <= j < |cs| && v in Content(a, cs[j], d) {
        var j :| 0 <= j < |cs| && v in Content(a, cs[j], d);
        if j > 0 {
          assert cs[1..][j - 1] == cs[j];
        }
      }
    }
  }

  /** The keys below two nodes. */
  lemma ChildContentPair(a: Arena, l: NodeId, r: NodeId, d: nat)
    ensures ChildContent(a, [l, r], d) == Content(a, l, d) + Content(a, r, d)
  {
    assert [l, r][1..] == [r];
    assert [r][1..] == [];
    assert ChildContent(a, [r], d) == Content(a, r, d) + ChildContent(a, [], d);
  }

  /** The keys of a leaf. */
  lemma LeafContent(a: Arena, n: NodeId)
    requires n in a.nodes
    ensures Content(a, n, 0) == KeySet(a.nodes[n].keys)
  {
  }

  /** A node with one key and two ascending leaves on either side of it is a
      search tree of height 1 holding the keys of all three. */
  lemma TwoLeafTree(a: Arena, n: NodeId, l: NodeId, r: NodeId)
    requires n in a.nodes && l in a.nodes && r in a.nodes
    requires var N, L, R := a.nodes[n], a.nodes[l], a.nodes[r];
      !N.isLeaf && |N.keys| == 1 && N.children == [l, r] && L.isLeaf && R.isLeaf &&
      StrictlySorted(L.keys) && StrictlySorted(R.keys) &&
      (forall x :: x in L.keys ==> x < N.keys[0]) && (forall x :: x in R.keys ==> N.keys[0] < x)
    ensures SearchTree(a, n, 1)
    ensures Content(a, n, 1) == KeySet(a.nodes[l].keys) + {a.nodes[n].keys[0]} + KeySet(a.nodes[r].keys)
  {
    var N := a.nodes[n];
    LeafContent(a, l);
    LeafContent(a, r);
    ChildContentPair(a, l, r, 0);
    assert N.keys == [N.keys[0]];
    assert Separated(N.keys, 0, Content(a, l, 0));
    assert Separated(N.keys, 1, Content(a, r, 0));
  }

  /** In a search-ordered subtree, `Find` returns a node, and `value` is in the
      subtree exactly when it is among the keys of that node. */
  lemma {:induction false} FindInSearchTree(a: Arena, n: NodeId, d: nat, v: int, fuel: nat)
    requires Closed(a) && SearchTree(a, n, d) && fuel > d
    ensures Descend(a, n, v, fuel).Ok?
    ensures v in Content(a, n, d) <==> v in a.nodes[Descend(a, n, v, fuel).value].keys
    decreases d
  {
    var node := a.nodes[n];
    if d == 0 {
      FindOnLeaf(a, n, v, fuel);
    } else if v in node.keys {
      FindOnMatch(a, n, v, fuel);
    } else {
      var k := FirstNotLess(node.keys, v);
      FindDescends(a, n, v, fuel);
      FindInSearchTree(a, node.children[k], d - 1, v, Spent(fuel));
      ContentThroughChild(a, n, d, v);
    }
  }

  /** A key that is not in an internal node of a search tree is in its subtree
      exactly when it is in the subtree of the child that `Find` goes into. */
  lemma ContentThroughChild(a: Arena, n: NodeId, d: nat, v: int)
    requires SearchTree(a, n, d) && d > 0 && v !in a.nodes[n].keys
    ensures var node := a.nodes[n];
      var k := FirstNotLess(node.keys, v);
      k < |node.children| &&
      (v in Content(a, n, d) <==> v in Content(a, node.children[k], d - 1))
  {
    var node := a.nodes[n];
    var k := FirstNotLess(node.keys, v);
    ChildContentMember(a, node.children, d - 1, v);
    if v in Content(a, n, d) {
      var j :| 0 <= j < |node.children| && v in Content(a, node.children[j], d - 1);
      assert Separated(node.keys, j, Content(a, node.children[j], d - 1));
      GapIsFirstNotLess(node.keys, v, j);
    }
  }

  /** A node roots search trees of one height only. */
  lemma {:induction false} HeightUnique(a: Arena, n: NodeId, d1: nat, d2: nat)
    requires SearchTree(a, n, d1) && SearchTree(a, n, d2)
    ensures d1 == d2
    decreases d1
  {
    if d1 > 0 && d2 > 0 {
      var c := a.nodes[n].children[0];
      HeightUnique(a, c, d1 - 1, d2 - 1);
    }
  }

  /** The leftmost path below a search tree of height `d`: d+1 distinct nodes, none
      of which roots a search tree higher than `d`. */
  lemma {:induction false} LeftmostPath(a: Arena, n: NodeId, d: nat) returns (path: set<NodeId>)
    requires SearchTree(a, n, d)
    ensures path <= a.nodes.Keys && |path| == d + 1
    ensures forall m, k: nat :: m in path && SearchTree(a, m, k) ==> k <= d
    decreases d
  {
    if d == 0 {
      path := {n};
      forall m, k: nat | m in path && SearchTree(a, m, k)
        ensures k <= d
      {
        HeightUnique(a, n, 0, k);
      }
    } else {
      var c := a.nodes[n].children[0];
      var below := LeftmostPath(a, c, d - 1);
      assert n !in below;
      path := below + {n};
      forall m, k: nat | m in path && SearchTree(a, m, k)
        ensures k <= d
      {
        if m == n {
          HeightUnique(a, n, d, k);
        }
      }
    }
  }

  /** The arena holds more nodes than a search tree in it is high, so a descent
      with one unit of fuel per node never runs dry on it. */
  lemma HeightBelowSize(a: Arena, n: NodeId, d: nat)
    requires SearchTree(a, n, d)
    ensures |a.nodes| > d
  {
    var path := LeftmostPath(a, n, d);
    SubsetSize(path, a.nodes.Keys);
  }

  lemma {:induction false} SubsetSize<T>(s: set<T>, u: set<T>)
    requires s <= u
    ensures |s| <= |u|
    decreases |s|
  {
    if s != {} {
      var x :| x in s;
      SubsetSize(s - {x}, u - {x});
    }
  }

  /** Under a node of height 1, child `k` is an ascending leaf whose keys lie
      between the node's keys `k-1` and `k`. */
  lemma LeafChild(a: Arena, p: NodeId, k: int)
    requires SearchTree(a, p, 1) && 0 <= k < |a.nodes[p].children|
    ensures var K, c := a.nodes[p].keys, a.nodes[p].children[k];
      c in a.nodes && a.nodes[c].isLeaf && StrictlySorted(a.nodes[c].keys) &&
      Separated(K, k, KeySet(a.nodes[c].keys))
  {
    var c := a.nodes[p].children[k];
    assert SearchTree(a, c, 0);
    assert Separated(a.nodes[p].keys, k, Content(a, c, 0));
    LeafContent(a, c);
  }

  /** The keys below `xs + ys` are those below `xs` and those below `ys`. */
  lemma {:induction false} ChildContentAppend(a: Arena, xs: seq<NodeId>, ys: seq<NodeId>, d: nat)
    ensures ChildContent(a, xs + ys, d) == ChildContent(a, xs, d) + ChildContent(a, ys, d)
    decreases |xs|
  {
    if xs == [] {
      assert xs + ys == ys;
    } else {
      assert (xs + ys)[1..] == xs[1..] + ys;
      ChildContentAppend(a, xs[1..], ys, d);
    }
  }

  /** The keys below child `i`, and below the children before and after it. */
  lemma ChildContentAround(a: Arena, cs: seq<NodeId>, i: int, d: nat)
    requires 0 <= i < |cs|
    ensures ChildContent(a, cs, d) == ChildContent(a, cs[..i], d) + Content(a, cs[i], d) + ChildContent(a, cs[i + 1..], d)
  {
    assert cs == cs[..i] + ([cs[i]] + cs[i + 1..]);
    ChildContentAppend(a, cs[..i], [cs[i]] + cs[i + 1..], d);
    ChildContentAppend(a, [cs[i]], cs[i + 1..], d);
    assert [cs[i]][1..] == [];
  }

  /** The keys below two neighbouring children `j` and `j+1`, and below the
      children before and after them. */
  lemma ChildContentAroundPair(a: Arena, cs: seq<NodeId>, j: int, d: nat)
    requires 0 <= j && j + 1 < |cs|
    ensures ChildContent(a, cs, d) ==
      ChildContent(a, cs[..j], d) + Content(a, cs[j], d) + Content(a, cs[j + 1], d) + ChildContent(a, cs[j + 2..], d)
  {
    assert cs == cs[..j] + ([cs[j], cs[j + 1]] + cs[j + 2..]);
    ChildContentAppend(a, cs[..j], [cs[j], cs[j + 1]] + cs[j + 2..], d);
    ChildContentAppend(a, [cs[j], cs[j + 1]], cs[j + 2..], d);
    ChildContentPair(a, cs[j], cs[j + 1], d);
  }

  /** Leaves whose key lists are kept keep the keys below them. */
  lemma {:induction false} LeafContentFrame(a: Arena, b: Arena, cs: seq<NodeId>)
    requires forall c :: c in cs ==> c in a.nodes && c in b.nodes && a.nodes[c].keys == b.nodes[c].keys
    ensures ChildContent(a, cs, 0) == ChildContent(b, cs, 0)
    decreases |cs|
  {
    if cs != [] {
      LeafContentFrame(a, b, cs[1..]);
    }
  }

  /** `p` is an internal node whose children are all leaves, each holding
      ascending keys that lie between the keys of `p` around it: the shape of a
      search tree of height 1, spelled out node by node. */
  ghost predicate LeafParent(a: Arena, p: NodeId) {
    p in a.nodes &&
    var P := a.nodes[p];
    !P.isLeaf && |P.keys| >= 1 && |P.children| == |P.keys| + 1 && StrictlySorted(P.keys) &&
    forall j :: 0 <= j < |P.children| ==>
      P.children[j] in a.nodes && a.nodes[P.children[j]].isLeaf &&
      StrictlySorted(a.nodes[P.children[j]].keys) &&
      Separated(P.keys, j, KeySet(a.nodes[P.children[j]].keys))
  }

  /** A search tree of height 1 is exactly a node whose children are ordered leaves,
      and it holds the keys of the node and of its leaves. */
  lemma HeightOne(a: Arena, p: NodeId)
    ensures SearchTree(a, p, 1) <==> LeafParent(a, p)
    ensures p in a.nodes ==> Content(a, p, 1) == KeySet(a.nodes[p].keys) + ChildContent(a, a.nodes[p].children, 0)
  {
    if SearchTree(a, p, 1) {
      var P := a.nodes[p];
      forall j | 0 <= j < |P.children|
        ensures P.children[j] in a.nodes && a.nodes[P.children[j]].isLeaf &&
          StrictlySorted(a.nodes[P.children[j]].keys) &&
          Separated(P.keys, j, KeySet(a.nodes[P.children[j]].keys))
      {
        LeafChild(a, p, j);
      }
    }
    if LeafParent(a, p) {
      var P := a.nodes[p];
      forall j | 0 <= j < |P.children|
        ensures SearchTree(a, P.children[j], 0) && Separated(P.keys, j, Content(a, P.children[j], 0))
      {
        LeafContent(a, P.children[j]);
      }
    }
  }

  /** Under a node whose children are ordered leaves, the keys below the
      children up to position i lie below key i, and those below the children
      after it lie above key i. */
  lemma KeysAroundSeparator(a: Arena, p: NodeId, i: int) returns (below: set<int>, above: set<int>)
    requires LeafParent(a, p) && 0 <= i < |a.nodes[p].keys|
    ensures below == ChildContent(a, a.nodes[p].children[..i + 1], 0)
    ensures above == ChildContent(a, a.nodes[p].children[i + 1..], 0)
    ensures forall x :: x in below ==> x < a.nodes[p].keys[i]
    ensures forall x :: x in above ==> a.nodes[p].keys[i] < x
  {
    var P := a.nodes[p];
    var lo, hi := P.children[..i + 1], P.children[i + 1..];
    below, above := ChildContent(a, lo, 0), ChildContent(a, hi, 0);
    forall x | x in ChildContent(a, lo, 0)
      ensures x < P.keys[i]
    {
      ChildContentMember(a, lo, 0, x);
      var j :| 0 <= j < |lo| && x in Content(a, lo[j], 0);
      assert lo[j] == P.children[j];
      LeafContent(a, P.children[j]);
      assert x < P.keys[j];
    }
    forall x | x in ChildContent(a, hi, 0)
      ensures P.keys[i] < x
    {
      ChildContentMember(a, hi, 0, x);
      var j :| 0 <= j < |hi| && x in Content(a, hi[j], 0);
      assert hi[j] == P.children[i + 1 + j];
      LeafContent(a, P.children[i + 1 + j]);
      assert P.keys[i + j] < x;
    }
  }

  /** Under a node whose children are ordered leaves, a leaf that holds a key
      appears only once among the children. */
  lemma NonEmptyChildOnce(a: Arena, p: NodeId, i: int)
    requires LeafParent(a, p) && 0 <= i < |a.nodes[p].children|
    requires |a.nodes[a.nodes[p].children[i]].keys| > 0
    ensures var cs := a.nodes[p].children;
      forall j :: 0 <= j < |cs| && j != i ==> cs[j] != cs[i]
  {
    var P := a.nodes[p];
    var cs := P.children;
    var x := a.nodes[cs[i]].keys[0];
    assert x in KeySet(a.nodes[cs[i]].keys);
    forall j | 0 <= j < |cs| && j != i
      ensures cs[j] != cs[i]
    {
      if j < i {
        assert P.keys[i - 1] < x && P.keys[j] <= P.keys[i - 1];
      } else {
        assert x < P.keys[i] && P.keys[i] <= P.keys[j - 1];
      }
      assert x !in KeySet(a.nodes[cs[j]].keys);
    }
  }
}

