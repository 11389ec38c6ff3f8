/** `Insert(value)` (BTree/BTree/BTree.cs:25-71) followed through a whole search
    tree of height 1 (a root whose children are leaves) for an absent `value`:
    when its leaf has room, `value` joins that leaf; when the leaf is full and
    the root has room, the leaf splits into two halves and the middle key goes
    up into the root. Either way the tree stays search-ordered with height 1
    and stores exactly the old keys and `value`. */
module ShallowInsertion {
  import opened Wrappers
  import opened Lists
  import opened Keys
  import opened Node
  import opened Search
  import opened TreeState
  import opened Insertion

  /** Inserting `value`, absent from a search tree of height 1, when the leaf
      below the root that it belongs to is full and the root has fewer than 2t-1
      keys (BTree.cs:44-70 for one pass of the split loop): the middle key of the
      leaf joins the root's keys, the tree stays search-ordered with height 1,
      and it stores exactly the old keys and `value`. */
  lemma InsertSplitsLeafOrdered(s: State, t: int, v: int)
    requires WellFormed(s) && SearchOrdered(s, 1) && t >= 1 && v !in Stored(s, 1)
    requires var P := s.arena.nodes[s.root.value];
      FirstNotLess(P.keys, v) < |P.children| && P.children[FirstNotLess(P.keys, v)] in s.arena.nodes &&
      var N := s.arena.nodes[P.children[FirstNotLess(P.keys, v)]];
      |N.keys| == 2 * t - 1 && N.parent == s.root && |P.keys| != 2 * t - 1
    ensures var P := s.arena.nodes[s.root.value];
      var N := s.arena.nodes[P.children[FirstNotLess(P.keys, v)]];
      var o := InsertInto(s, t, v);
      o.fault.None? && o.state.root == s.root &&
      o.state.arena.nodes[s.root.value].keys == InsertSorted(P.keys, N.keys[t - 1]) &&
      SearchOrdered(o.state, 1) && Stored(o.state, 1) == Stored(s, 1) + {v}
  {
    var a, p := s.arena, s.root.value;
    var P := a.nodes[p];
    var j := FirstNotLess(P.keys, v);
    var n := P.children[j];
    var l, r := SplitChildAt(s, t, v);
    var b := InsertInto(s, t, v).state.arena;
    SplitAtGap(a, b, t, p, j, v, l, r);
  }

  /** Inserting `value`, absent from a search tree of height 1, when the leaf
      below the root that it belongs to has fewer than 2t-1 keys (BTree.cs:38-42):
      `value` joins that leaf's keys in order, the tree stays search-ordered with
      height 1, and it stores exactly the old keys and `value`. The root's
      children are distinct nodes, as the children of a tree are. */
  lemma InsertIntoLeafOrdered(s: State, t: int, v: int)
    requires WellFormed(s) && SearchOrdered(s, 1) && v !in Stored(s, 1)
    requires var P := s.arena.nodes[s.root.value];
      Distinct(P.children) &&
      FirstNotLess(P.keys, v) < |P.children| && P.children[FirstNotLess(P.keys, v)] in s.arena.nodes &&
      |s.arena.nodes[P.children[FirstNotLess(P.keys, v)]].keys| < 2 * t - 1
    ensures var P := s.arena.nodes[s.root.value];
      var n := P.children[FirstNotLess(P.keys, v)];
      var o := InsertInto(s, t, v);
      o.fault.None? && o.state.root == s.root &&
      o.state.arena.nodes[n].keys == InsertSorted(s.arena.nodes[n].keys, v) &&
      SearchOrdered(o.state, 1) && Stored(o.state, 1) == Stored(s, 1) + {v}
  {
    var a, p := s.arena, s.root.value;
    var P := a.nodes[p];
    var j := FirstNotLess(P.keys, v);
    var n := P.children[j];
    var N := a.nodes[n].keys;
    AbsentInGap(s, v);
    var b := AddKeyTo(a, n, v);
    assert InsertInto(s, t, v) == Outcome(s.(arena := b), None);
    InsertSortedKeepsOrder(N, v);
    KeySetOfInsertSorted(N, v);
    LeafGainsKey(a, p, j, v, InsertSorted(N, v));
    HeightOne(b, p);
  }

  /** Under a node whose children are distinct ordered leaves, a leaf that gains
      a key `v` from its own gap and keeps its keys in order leaves the node's
      children ordered and the keys below them with `v` added. */
  lemma LeafGainsKey(a: Arena, p: NodeId, j: int, v: int, ks: seq<int>)
    requires Closed(a) && LeafParent(a, p) && 0 <= j < |a.nodes[p].children|
    requires var P := a.nodes[p]; var c := P.children[j];
      Distinct(P.children) && Separated(P.keys, j, {v}) &&
      StrictlySorted(ks) && KeySet(ks) == KeySet(a.nodes[c].keys) + {v}
    ensures var b, cs := WithKeys(a, a.nodes[p].children[j], ks), a.nodes[p].children;
      LeafParent(b, p) && b.nodes[p] == a.nodes[p] &&
      ChildContent(b, cs, 0) == ChildContent(a, cs, 0) + {v}
  {
    var P := a.nodes[p];
    var cs, c := P.children, P.children[j];
    var b := WithKeys(a, c, ks);
    forall k | 0 <= k < |cs|
      ensures cs[k] in b.nodes && b.nodes[cs[k]].isLeaf && StrictlySorted(b.nodes[cs[k]].keys) &&
        Separated(P.keys, k, KeySet(b.nodes[cs[k]].keys))
    {
      if k == j {
        assert Separated(P.keys, j, KeySet(a.nodes[c].keys));
        forall x | x in KeySet(ks)
          ensures (0 < j <= |P.keys| ==> P.keys[j - 1] < x) && (0 <= j < |P.keys| ==> x < P.keys[j])
        {
          if x == v {
            assert v in {v};
          } else {
            assert x in KeySet(a.nodes[c].keys);
          }
        }
      } else {
        assert cs[k] != c;
      }
    }
    forall c' | c' in cs[..j] + cs[j + 1..]
      ensures c' in a.nodes && c' in b.nodes && a.nodes[c'].keys == b.nodes[c'].keys
    {
      var k :| 0 <= k < |cs| && k != j && cs[k] == c';
      assert a.nodes[c'].isLeaf;
    }
    LeafContentFrame(a, b, cs[..j]);
    LeafContentFrame(a, b, cs[j + 1..]);
    ChildContentAround(a, cs, j, 0);
    ChildContentAround(b, cs, j, 0);
    LeafContent(a, c);
    LeafContent(b, c);
  }

  /** The keys of `InsertSorted(s, v)` are those of `s` and `v`. */
  lemma KeySetOfInsertSorted(s: seq<int>, v: int)
    ensures KeySet(InsertSorted(s, v)) == KeySet(s) + {v}
  {
    var r := InsertSorted(s, v);
    forall x
      ensures x in r <==> x in s || x == v
    {
      assert x in r <==> x in multiset(r);
      assert x in s <==> x in multiset(s);
    }
  }

  /** On a search tree of height 1, inserting an absent `value` whose leaf is
      full and whose root has room goes through one split of that leaf, found at
      position `j` of the root's children. */
  lemma SplitChildAt(s: State, t: int, v: int) returns (l: NodeId, r: NodeId)
    requires WellFormed(s) && SearchOrdered(s, 1) && t >= 1 && v !in Stored(s, 1)
    requires var P := s.arena.nodes[s.root.value];
      FirstNotLess(P.keys, v) < |P.children| && P.children[FirstNotLess(P.keys, v)] in s.arena.nodes &&
      var N := s.arena.nodes[P.children[FirstNotLess(P.keys, v)]];
      |N.keys| == 2 * t - 1 && N.parent == s.root && |P.keys| != 2 * t - 1
    ensures var a, p := s.arena, s.root.value;
      var P := a.nodes[p];
      var j := FirstNotLess(P.keys, v);
      var n := P.children[j];
      var o := InsertInto(s, t, v);
      LeafParent(a, p) && a.nodes[n].parent == Some(p) && IndexOf(P.children, n) == j &&
      v !in a.nodes[n].keys && v !in P.keys && Separated(P.keys, j, {v}) &&
      o.fault.None? && o.state.root == s.root && LeafSplitInto(a, o.state.arena, t, n, v, l, r)
  {
    var a, p := s.arena, s.root.value;
    var P := a.nodes[p];
    var j := FirstNotLess(P.keys, v);
    var n := P.children[j];
    AbsentInGap(s, v);
    NonEmptyChildOnce(a, p, j);
    assert IndexOf(P.children, n) == j;
    l, r := InsertSplitsLeaf(s, t, v, n);
  }

  /** On a search tree of height 1, a key stored nowhere in it lies in the gap
      of the root's keys at their first key not smaller than it, and `Find`
      goes to the leaf below that gap. */
  lemma AbsentInGap(s: State, v: int)
    requires WellFormed(s) && SearchOrdered(s, 1) && v !in Stored(s, 1)
    ensures var a, p := s.arena, s.root.value;
      var P := a.nodes[p];
      var j := FirstNotLess(P.keys, v);
      LeafParent(a, p) && j < |P.children| && P.children[j] in a.nodes &&
      v !in P.keys && v !in a.nodes[P.children[j]].keys && Separated(P.keys, j, {v}) &&
      FindIn(s, v) == Ok(Some(P.children[j]))
  {
    var a, p := s.arena, s.root.value;
    var P := a.nodes[p];
    var j := FirstNotLess(P.keys, v);
    HeightOne(a, p);
    ChildContentAround(a, P.children, j, 0);
    LeafContent(a, P.children[j]);
    assert v !in P.keys;
    if j < |P.keys| {
      assert P.keys[j] != v;
    }
    FindLeafChild(s, v);
  }

  /** The split of leaf `j` under a node whose children are ordered leaves,
      with `value` in gap `j`, leaves the children ordered and adds exactly
      `value` to the subtree. */
  lemma SplitAtGap(a: Arena, b: Arena, t: int, p: NodeId, j: int, v: int, l: NodeId, r: NodeId)
    requires LeafParent(a, p) && 0 <= j < |a.nodes[p].children|
    requires var P := a.nodes[p]; var n := P.children[j];
      a.nodes[n].parent == Some(p) && IndexOf(P.children, n) == j &&
      v !in a.nodes[n].keys && Separated(P.keys, j, {v}) &&
      LeafSplitInto(a, b, t, n, v, l, r)
    ensures var P := a.nodes[p];
      b.nodes[p].keys == InsertSorted(P.keys, a.nodes[P.children[j]].keys[t - 1]) &&
      SearchTree(b, p, 1) && Content(b, p, 1) == Content(a, p, 1) + {v}
  {
    SplitGapOrdered(a, b, t, p, j, v, l, r);
    SplitGapContent(a, b, t, p, j, v, l, r);
    HeightOne(b, p);
  }

  /** The order half of `SplitAtGap`: the node's keys gain the middle key and
      its children stay ordered leaves. */
  lemma SplitGapOrdered(a: Arena, b: Arena, t: int, p: NodeId, j: int, v: int, l: NodeId, r: NodeId)
    requires LeafParent(a, p) && 0 <= j < |a.nodes[p].children|
    requires var P := a.nodes[p]; var n := P.children[j];
      a.nodes[n].parent == Some(p) && IndexOf(P.children, n) == j &&
      v !in a.nodes[n].keys && Separated(P.keys, j, {v}) &&
      LeafSplitInto(a, b, t, n, v, l, r)
    ensures var P := a.nodes[p]; var mid := a.nodes[P.children[j]].keys[t - 1];
      InsertSorted(P.keys, mid) == P.keys[..j] + [mid] + P.keys[j..] &&
      b.nodes[p].keys == InsertSorted(P.keys, mid) && LeafParent(b, p)
  {
    var P := a.nodes[p];
    var K, cs := P.keys, P.children;
    var n := cs[j];
    var N := a.nodes[n].keys;
    var mid := N[t - 1];
    assert b.nodes[p] == P.(keys := InsertSorted(K, mid), children := cs[..j] + [l, r] + cs[j + 1..]);
    assert mid in KeySet(N);
    GapIsFirstNotLess(K, mid, j);
    NotAKey(K, j, mid);
    InsertSortedKeepsOrder(K, mid);
    var lo, hi := GrownHalves(N, t, v);
    assert b.nodes[l].keys == lo && b.nodes[r].keys == hi;
    GrownHalvesInGap(K, j, N, v, lo, hi);
    assert InsertSorted(K, mid) == K[..j] + [mid] + K[j..];
    assert (forall x :: x in lo ==> x < mid) && (forall x :: x in hi ==> mid < x);
    assert forall id :: id in a.nodes && id != p ==> id in b.nodes && b.nodes[id] == a.nodes[id];
    SplitUnderOrder(a, b, p, j, mid, l, r);
  }

  /** The content half of `SplitAtGap`: the subtree's keys gain `value`. */
  lemma SplitGapContent(a: Arena, b: Arena, t: int, p: NodeId, j: int, v: int, l: NodeId, r: NodeId)
    requires LeafParent(a, p) && 0 <= j < |a.nodes[p].children|
    requires var P := a.nodes[p]; var n := P.children[j];
      a.nodes[n].parent == Some(p) && IndexOf(P.children, n) == j &&
      v !in a.nodes[n].keys && LeafSplitInto(a, b, t, n, v, l, r)
    requires var P := a.nodes[p]; var mid := a.nodes[P.children[j]].keys[t - 1];
      InsertSorted(P.keys, mid) == P.keys[..j] + [mid] + P.keys[j..]
    ensures Content(b, p, 1) == Content(a, p, 1) + {v}
  {
    var P := a.nodes[p];
    var K, cs := P.keys, P.children;
    var n := cs[j];
    var N := a.nodes[n].keys;
    var mid := N[t - 1];
    assert b.nodes[p] == P.(keys := InsertSorted(K, mid), children := cs[..j] + [l, r] + cs[j + 1..]);
    var lo, hi := GrownHalves(N, t, v);
    assert b.nodes[l].keys == lo && b.nodes[r].keys == hi;
    SplitUnderContent(a, b, p, j, mid, l, r);
    HeightOne(a, p);
    ChildContentAround(a, cs, j, 0);
    LeafContent(a, n);
    GainedKey(KeySet(K), ChildContent(a, cs[..j], 0), KeySet(N), ChildContent(a, cs[j + 1..], 0),
      KeySet(lo), mid, KeySet(hi), v);
  }

  /** The halves of a leaf in gap `j` of a node's keys, with `value` from the
      same gap added, stay in that gap. */
  lemma GrownHalvesInGap(K: seq<int>, j: int, N: seq<int>, v: int, lo: seq<int>, hi: seq<int>)
    requires Separated(K, j, KeySet(N)) && Separated(K, j, {v})
    requires KeySet(lo) + KeySet(hi) <= KeySet(N) + {v}
    ensures Separated(K, j, KeySet(lo)) && Separated(K, j, KeySet(hi))
  {
    forall x | x in KeySet(lo) + KeySet(hi)
      ensures (0 < j <= |K| ==> K[j - 1] < x) && (0 <= j < |K| ==> x < K[j])
    {
      if x == v {
        assert v in {v};
      } else {
        assert x in KeySet(N);
      }
    }
  }

  /** The keys of the subtree before and after the split, as sets: the middle
      key moves from the leaf into the node and `value` joins one half. */
  lemma GainedKey(k: set<int>, below: set<int>, n: set<int>, above: set<int>,
                  lo: set<int>, mid: int, hi: set<int>, v: int)
    requires lo + {mid} + hi == n + {v}
    ensures k + {mid} + below + lo + hi + above == k + (below + n + above) + {v}
  {
  }

  /** Under a node whose children are ordered leaves, replacing child `j` by two
      fresh ordered leaves `l` and `r` and putting `mid` between them among the
      node's keys keeps the children ordered, when both halves lie in gap `j`
      of the old keys and on either side of `mid`. */
  lemma SplitUnderOrder(a: Arena, b: Arena, p: NodeId, j: int, mid: int, l: NodeId, r: NodeId)
    requires LeafParent(a, p) && 0 <= j < |a.nodes[p].children|
    requires var P := a.nodes[p];
      var K, cs := P.keys, P.children;
      l !in a.nodes && r !in a.nodes && l != r && p in b.nodes && l in b.nodes && r in b.nodes &&
      b.nodes[p] == P.(keys := K[..j] + [mid] + K[j..], children := cs[..j] + [l, r] + cs[j + 1..]) &&
      b.nodes[l].isLeaf && b.nodes[r].isLeaf &&
      StrictlySorted(b.nodes[l].keys) && StrictlySorted(b.nodes[r].keys) &&
      StrictlySorted(K[..j] + [mid] + K[j..]) &&
      Separated(K, j, KeySet(b.nodes[l].keys)) && Separated(K, j, KeySet(b.nodes[r].keys)) &&
      (forall x :: x in b.nodes[l].keys ==> x < mid) && (forall x :: x in b.nodes[r].keys ==> mid < x) &&
      forall id :: id in a.nodes && id != p ==> id in b.nodes && b.nodes[id] == a.nodes[id]
    ensures LeafParent(b, p)
  {
    var P := a.nodes[p];
    var K, cs := P.keys, P.children;
    var K', cs' := K[..j] + [mid] + K[j..], cs[..j] + [l, r] + cs[j + 1..];
    assert |K'| == |K| + 1 && |cs'| == |cs| + 1;
    forall k | 0 <= k < |cs'|
      ensures cs'[k] in b.nodes && b.nodes[cs'[k]].isLeaf && StrictlySorted(b.nodes[cs'[k]].keys) &&
        Separated(K', k, KeySet(b.nodes[cs'[k]].keys))
    {
      if k < j {
        assert cs'[k] == cs[k] && a.nodes[cs[k]].isLeaf;
        SeparatedBefore(K, j, mid, k, KeySet(a.nodes[cs[k]].keys));
      } else if k == j {
        assert cs'[k] == l;
        SeparatedBelowMid(K, j, mid, KeySet(b.nodes[l].keys));
      } else if k == j + 1 {
        assert cs'[k] == r;
        SeparatedAboveMid(K, j, mid, KeySet(b.nodes[r].keys));
      } else {
        assert cs'[k] == cs[k - 1] && a.nodes[cs[k - 1]].isLeaf;
        SeparatedAfter(K, j, mid, k - 1, KeySet(a.nodes[cs[k - 1]].keys));
      }
    }
  }

  /** The keys of the subtree after the split: the node's keys with `mid`, the
      untouched leaves before and after position `j`, and the two halves. */
  lemma SplitUnderContent(a: Arena, b: Arena, p: NodeId, j: int, mid: int, l: NodeId, r: NodeId)
    requires LeafParent(a, p) && 0 <= j < |a.nodes[p].children|
    requires var P := a.nodes[p];
      var K, cs := P.keys, P.children;
      p in b.nodes && l in b.nodes && r in b.nodes &&
      b.nodes[p] == P.(keys := K[..j] + [mid] + K[j..], children := cs[..j] + [l, r] + cs[j + 1..]) &&
      forall id :: id in a.nodes && id != p ==> id in b.nodes && b.nodes[id] == a.nodes[id]
    ensures var P := a.nodes[p];
      var K, cs := P.keys, P.children;
      Content(b, p, 1) == KeySet(K) + {mid} + ChildContent(a, cs[..j], 0) +
        KeySet(b.nodes[l].keys) + KeySet(b.nodes[r].keys) + ChildContent(a, cs[j + 1..], 0)
  {
    var P := a.nodes[p];
    var K, cs := P.keys, P.children;
    var K', cs' := K[..j] + [mid] + K[j..], cs[..j] + [l, r] + cs[j + 1..];
    forall c | c in cs[..j] + cs[j + 1..]
      ensures c in a.nodes && c in b.nodes && a.nodes[c].keys == b.nodes[c].keys
    {
      var k :| 0 <= k < |cs| && k != j && cs[k] == c;
      assert a.nodes[c].isLeaf;
    }
    LeafContentFrame(a, b, cs[..j]);
    LeafContentFrame(a, b, cs[j + 1..]);
    ChildContentAppend(b, cs[..j] + [l, r], cs[j + 1..], 0);
    ChildContentAppend(b, cs[..j], [l, r], 0);
    ChildContentPair(b, l, r, 0);
    LeafContent(b, l);
    LeafContent(b, r);
    KeySetInserted(K, j, mid);
    HeightOne(b, p);
  }

  /** The keys of `K` with `mid` put at position `j`. */
  lemma KeySetInserted(K: seq<int>, j: int, mid: int)
    requires 0 <= j <= |K|
    ensures KeySet(K[..j] + [mid] + K[j..]) == KeySet(K) + {mid}
  {
    assert K == K[..j] + K[j..];
    forall x
      ensures x in K[..j] + [mid] + K[j..] <==> x in K || x == mid
    {
    }
  }

  /** A gap before position `j` is the same after `mid` goes in at `j`. */
  lemma SeparatedBefore(K: seq<int>, j: int, mid: int, k: int, S: set<int>)
    requires 0 <= k < j <= |K| && Separated(K, k, S)
    ensures Separated(K[..j] + [mid] + K[j..], k, S)
  {
    var K' := K[..j] + [mid] + K[j..];
    assert K'[k] == K[k];
    if 0 < k {
      assert K'[k - 1] == K[k - 1];
    }
  }

  /** A gap after position `j` moves one place up when `mid` goes in at `j`. */
  lemma SeparatedAfter(K: seq<int>, j: int, mid: int, k: int, S: set<int>)
    requires 0 <= j < k <= |K| && Separated(K, k, S)
    ensures Separated(K[..j] + [mid] + K[j..], k + 1, S)
  {
    var K' := K[..j] + [mid] + K[j..];
    assert K'[k] == K[k - 1];
    if k < |K| {
      assert K'[k + 1] == K[k];
    }
  }

  /** Keys of gap `j` below `mid` lie in gap `j` once `mid` is put at `j`. */
  lemma SeparatedBelowMid(K: seq<int>, j: int, mid: int, S: set<int>)
    requires 0 <= j <= |K| && Separated(K, j, S) && forall x :: x in S ==> x < mid
    ensures Separated(K[..j] + [mid] + K[j..], j, S)
  {
    var K' := K[..j] + [mid] + K[j..];
    assert K'[j] == mid;
    if 0 < j {
      assert K'[j - 1] == K[j - 1];
    }
  }

  /** Keys of gap `j` above `mid` lie in gap `j+1` once `mid` is put at `j`. */
  lemma SeparatedAboveMid(K: seq<int>, j: int, mid: int, S: set<int>)
    requires 0 <= j <= |K| && Separated(K, j, S) && forall x :: x in S ==> mid < x
    ensures Separated(K[..j] + [mid] + K[j..], j + 1, S)
  {
    var K' := K[..j] + [mid] + K[j..];
    assert K'[j] == mid;
    if j < |K| {
      assert K'[j + 1] == K[j];
    }
  }
}
