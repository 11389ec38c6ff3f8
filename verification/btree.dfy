/** `BTree<T>` (BTree/BTree/BTree.cs) as a class: the minimum degree `_amount`,
    the node objects (an arena) and the nullable `_root`. Every method follows the
    C# statements in order, editing the arena in place, and is proved to leave the
    state (and the exception, if any) that the matching function of `TreeState`,
    `Insertion` or `Removal` describes; the properties are lemmas about those
    functions. */
module BTrees {
  import opened Wrappers
  import opened Lists
  import opened Keys
  import opened Node
  import opened TreeState
  import opened Insertion
  import opened Removal

  /** The index scans `while (list[i] != x) i++` (BTree.cs:54-56, 109-111, 173-175):
      the first position holding `x`, or `|s|` where the C# loop runs off the end
      of the list and throws. */
  method IndexIn<T(==)>(s: seq<T>, x: T) returns (i: nat)
    ensures i == IndexOf(s, x)
  {
    i := 0;
    while i < |s| && s[i] != x
      invariant i <= |s|
      invariant forall j :: 0 <= j < i ==> s[j] != x
    {
      i := i + 1;
    }
  }

  class BTree {
    const amount: int
    var arena: Arena
    var root: Option<NodeId>

    /** The tree as a value. */
    function Current(): State
      reads this
    {
      State(arena, root)
    }

    /** Every reference is to a node object that exists. */
    ghost predicate Valid()
      reads this
    {
      WellFormed(Current())
    }

    /** `new BTree(amount)` (BTree.cs:8-11): no root. */
    constructor(amount: int)
      ensures Valid() && this.amount == amount && Current() == Empty()
    {
      this.amount := amount;
      arena := Arena(map[], 0);
      root := None;
    }

    /** `node.AddKey(value)` (Node.cs:150-156) on the node `n`. */
    method AddKeyAt(n: NodeId, v: int)
      requires Valid() && n in arena.nodes
      modifies this
      ensures Valid() && root == old(root) && arena == AddKeyTo(old(arena), n, v)
    {
      var ks := AddKey(arena.nodes[n].keys, v);
      arena := WithKeys(arena, n, ks);
    }

    /** `node.Keys[j] = k` on the node `n`, for a position inside its keys. */
    method SetKeyAt(n: NodeId, j: nat, k: int)
      requires Valid() && n in arena.nodes && j < |arena.nodes[n].keys|
      modifies this
      ensures Valid() && root == old(root) && arena == WithKeys(old(arena), n, old(arena).nodes[n].keys[j := k])
    {
      arena := WithKeys(arena, n, arena.nodes[n].keys[j := k]);
    }

    /** `node.Children[j] = c` on the node `n`, for a position inside its children. */
    method SetChildAt(n: NodeId, j: nat, c: NodeId)
      requires Valid() && n in arena.nodes && c in arena.nodes && j < |arena.nodes[n].children|
      modifies this
      ensures Valid() && root == old(root)
      ensures arena == WithChildren(old(arena), n, old(arena).nodes[n].children[j := c])
    {
      RefsInArena(arena, n);
      UpdateMembers(arena.nodes[n].children, j, c);
      arena := WithChildren(arena, n, arena.nodes[n].children[j := c]);
    }

    /** `node.Children.Remove(c)` on the node `n`: drop the first occurrence. */
    method RemoveChildAt(n: NodeId, c: NodeId)
      requires Valid() && n in arena.nodes
      modifies this
      ensures Valid() && root == old(root)
      ensures arena == WithChildren(old(arena), n, RemoveFirst(old(arena).nodes[n].children, c))
    {
      RefsInArena(arena, n);
      arena := WithChildren(arena, n, RemoveFirst(arena.nodes[n].children, c));
    }

    /** `Node.Merge(left, right)` (Node.cs:107-127) on the nodes `l` and `r`:
        the merged node, if any, joins the node objects. */
    method MergeNodesAt(l: NodeId, r: NodeId) returns (m: Result<NodeId>)
      requires Valid() && l in arena.nodes && r in arena.nodes
      modifies this
      ensures Valid() && root == old(root) && Built(arena, m) == Merge(old(arena), l, r, amount)
    {
      var b := Merge(arena, l, r, amount);
      arena, m := b.arena, b.result;
    }

    /** `node.Keys.Remove(value)` on the node `n`: drop the first occurrence. */
    method RemoveKeyAt(n: NodeId, v: int)
      requires Valid() && n in arena.nodes
      modifies this
      ensures Valid() && root == old(root) && arena == RemoveKeyFrom(old(arena), n, v)
    {
      var ks := arena.nodes[n].keys;
      var k := IndexIn(ks, v);
      if k < |ks| {
        ks := ks[..k] + ks[k + 1..];
      }
      arena := WithKeys(arena, n, ks);
    }

    /** `Find(value)` (BTree.cs:13-16). */
    method Find(v: int) returns (r: Result<Option<NodeId>>)
      requires Valid()
      ensures r == FindIn(Current(), v)
    {
      if root.None? {
        return Ok(None);
      }
      var found := Node.Find(arena, root.value, v, |arena.nodes|);
      if found.Err? {
        return Err(found.fault);
      }
      return Ok(Some(found.value));
    }

    /** `Contains(value)` (BTree.cs:18-23). */
    method Contains(v: int) returns (r: Result<bool>)
      requires Valid()
      ensures r == ContainsIn(Current(), v)
    {
      var node := Find(v);
      if node.Err? {
        return Err(node.fault);
      }
      return Ok(node.value.Some? && v in arena.nodes[node.value.value].keys);
    }

    /** `Insert(value)` (BTree.cs:25-71). `fuel` counts the passes of the split
        loop; it starts at the number of nodes, which a loop climbing an acyclic
        parent chain never exceeds. */
    method Insert(v: int) returns (f: Option<Fault>)
      requires Valid()
      modifies this
      ensures Valid() && Outcome(Current(), f) == InsertInto(old(Current()), amount, v)
    {
      var found := Find(v);
      if found.Err? {
        return Some(found.fault);
      }
      if found.value.None? {
        var (a1, id) := NewNode(arena, v, true);
        arena, root := a1, Some(id);
        return None;
      }
      var node := found.value.value;
      if v in arena.nodes[node].keys {
        return None;
      }
      if |arena.nodes[node].keys| < 2 * amount - 1 {
        AddKeyAt(node, v);
        return None;
      }
      f := SplitLoop(node, v);
    }

    /** The split loop of `Insert` (BTree.cs:44-70) from the full node `n` with
        pending key `v`. `fuel` counts the passes; it starts at the number of
        nodes, which a loop climbing an acyclic parent chain never exceeds. */
    method SplitLoop(n: NodeId, v: int) returns (f: Option<Fault>)
      requires Valid() && n in arena.nodes
      modifies this
      ensures Valid() && Outcome(Current(), f) == Climb(old(Current()), amount, n, v, |old(arena).nodes|)
    {
      var node, value := n, v;
      var fuel: nat := |arena.nodes|;
      ghost var cur := Current();
      ghost var goal := Climb(cur, amount, n, v, fuel);
      while |arena.nodes[node].keys| == 2 * amount - 1
        invariant cur == Current() && WellFormed(cur) && node in cur.arena.nodes
        invariant Climb(cur, amount, node, value, fuel) == goal
        decreases fuel
      {
        if arena.nodes[node].parent.None? {
          ClimbExits(cur, amount, node, value, fuel);
          f := RebuildRootAt(value);
          return;
        }
        if fuel == 0 {
          ClimbExits(cur, amount, node, value, fuel);
          return Some(NoTermination);
        }
        var next := SplitPass(node, value);
        if next.Err? {
          ClimbExits(cur, amount, node, value, fuel);
          return Some(next.fault);
        }
        var rest := Spent(fuel);
        ClimbPass(cur, Current(), amount, node, value, fuel, rest, next.value.0, next.value.1);
        cur := Current();
        node, value, fuel := next.value.0, next.value.1, rest;
      }
      ClimbExits(cur, amount, node, value, fuel);
      AddKeyAt(node, value);
      f := None;
    }

    /** One pass of the split loop (BTree.cs:52-67); the result is the next node
        and the next pending key. */
    method SplitPass(n: NodeId, v: int) returns (r: Result<(NodeId, int)>)
      requires Valid() && n in arena.nodes
      modifies this
      ensures Valid() && root == old(root) && Built(arena, r) == SplitStep(old(arena), amount, n, v)
    {
      var b := Split(arena, n, amount);
      arena := b.arena;
      if b.result.Err? {
        return Err(b.result.fault);
      }
      r := HangPass(n, b.result.value, v);
    }

    /** The split loop once `n` is split into `parts` (BTree.cs:54-67): put the
        halves in its place among its parent's children and add `v` to one of them. */
    method HangPass(n: NodeId, parts: Parts, v: int) returns (r: Result<(NodeId, int)>)
      requires Valid() && n in arena.nodes && parts.left in arena.nodes && parts.right in arena.nodes
      modifies this
      ensures Valid() && root == old(root) && Built(arena, r) == Hang(old(arena), n, parts, v)
    {
      RefsInArena(arena, n);
      var p := arena.nodes[n].parent;
      if p.None? || arena.nodes[p.value].isLeaf {
        return Err(NullReference);
      }
      var cs := arena.nodes[p.value].children;
      var i := IndexIn(cs, n);
      if i == |cs| {
        return Err(IndexOutOfRange);
      }
      RefsInArena(arena, p.value);
      UpdateMembers(cs, i, parts.left);
      cs := cs[i := parts.left];
      cs := InsertAt(cs, i + 1, parts.right);
      arena := WithChildren(arena, p.value, cs);
      AddKeyAt(Side(parts, v), v);
      return Ok((p.value, parts.middle));
    }

    /** `RebuildRoot(newRootValue)` (BTree.cs:73-92). */
    method RebuildRootAt(v: int) returns (f: Option<Fault>)
      requires Valid()
      modifies this
      ensures Valid() && Outcome(Current(), f) == RebuildRoot(old(Current()), amount, v)
    {
      if root.None? {
        return Some(InvariantViolation);
      }
      var old_root := root.value;
      var (a1, nr) := NewNode(arena, v, false);
      arena := WithParent(a1, old_root, Some(nr));
      var b := Split(arena, old_root, amount);
      arena := b.arena;
      if b.result.Err? {
        return Some(b.result.fault);
      }
      AttachAt(nr, b.result.value, v);
      root := Some(nr);
      f := None;
    }

    /** The end of `RebuildRoot` (BTree.cs:82-89): the halves become the
        children of `nr`, the middle key its first key, and `v` goes into one half. */
    method AttachAt(nr: NodeId, parts: Parts, v: int)
      requires Valid() && nr in arena.nodes && parts.left in arena.nodes && parts.right in arena.nodes
      requires |arena.nodes[nr].keys| > 0
      modifies this
      ensures Valid() && root == old(root) && arena == Attach(old(arena), nr, parts, v)
    {
      RefsInArena(arena, nr);
      arena := WithChildren(arena, nr, arena.nodes[nr].children + [parts.left, parts.right]);
      arena := WithKeys(arena, nr, arena.nodes[nr].keys[0 := parts.middle]);
      AddKeyAt(Side(parts, v), v);
    }

    /** Borrow from the left sibling (BTree.cs:112-124): the leaf `n` at
        position `i` of `p`'s children drops `v` and takes the separator, whose
        place goes to the sibling's last key. */
    method BorrowLeftAt(n: NodeId, p: NodeId, i: nat, v: int) returns (f: Option<Fault>)
      requires Valid() && n in arena.nodes && p in arena.nodes
      requires arena.nodes[n].isLeaf && !arena.nodes[p].isLeaf
      requires 0 < i < |arena.nodes[p].children| && arena.nodes[p].children[i] == n
      modifies this
      ensures Valid() && Outcome(Current(), f) == BorrowLeft(old(Current()), n, p, i, v)
    {
      var nb := arena.nodes[p].children[i - 1];
      RefsInArena(arena, p);
      var ks := arena.nodes[nb].keys;
      if |ks| == 0 || i - 1 >= |arena.nodes[p].keys| {
        return Some(IndexOutOfRange);
      }
      var kn := ks[|ks| - 1];
      var kp := arena.nodes[p].keys[i - 1];
      RemoveKeyAt(n, v);
      AddKeyAt(n, kp);
      SetKeyAt(p, i - 1, kn);
      RemoveKeyAt(nb, kn);
      f := None;
    }

    /** Borrow from the right sibling (BTree.cs:125-138): the leaf `n` at
        position `i` of `p`'s children drops `v` and takes the separator, whose
        place goes to the sibling's first key. */
    method BorrowRightAt(n: NodeId, p: NodeId, i: nat, v: int) returns (f: Option<Fault>)
      requires Valid() && n in arena.nodes && p in arena.nodes
      requires arena.nodes[n].isLeaf && !arena.nodes[p].isLeaf
      requires i + 1 < |arena.nodes[p].children| && arena.nodes[p].children[i] == n
      modifies this
      ensures Valid() && Outcome(Current(), f) == BorrowRight(old(Current()), n, p, i, v)
    {
      var nb := arena.nodes[p].children[i + 1];
      RefsInArena(arena, p);
      var ks := arena.nodes[nb].keys;
      if |ks| == 0 || i >= |arena.nodes[p].keys| {
        return Some(IndexOutOfRange);
      }
      var kn := ks[0];
      var kp := arena.nodes[p].keys[i];
      RemoveKeyAt(n, v);
      AddKeyAt(n, kp);
      SetKeyAt(p, i, kn);
      RemoveKeyAt(nb, kn);
      f := None;
    }

    /** Root collapse (BTree.cs:139-143): the leaf `n` drops `v` and the root `p`
        is replaced by `MergeWithRoot(_root)`. */
    method CollapseRootAt(n: NodeId, p: NodeId, v: int) returns (f: Option<Fault>)
      requires Valid() && n in arena.nodes && root == Some(p)
      modifies this
      ensures Valid() && Outcome(Current(), f) == CollapseRoot(old(Current()), amount, n, p, v)
    {
      RemoveKeyAt(n, v);
      var b := MergeWithRoot(arena, p, amount);
      arena := b.arena;
      if b.result.Err? {
        return Some(b.result.fault);
      }
      root := Some(b.result.value);
      f := None;
    }

    /** `node.Parent.Children.Remove(c)` (BTree.cs:154, 168). */
    method DropChildAt(n: NodeId, c: NodeId) returns (f: Option<Fault>)
      requires Valid() && n in arena.nodes
      modifies this
      ensures Valid() && Outcome(Current(), f) == DropChild(old(Current()), n, c)
    {
      var q := arena.nodes[n].parent;
      RefsInArena(arena, n);
      if q.None? || arena.nodes[q.value].isLeaf {
        return Some(NullReference);
      }
      RemoveChildAt(q.value, c);
      f := None;
    }

    /** `Remove(value)` (BTree.cs:94-210); `fuel` bounds the depth of the nested
        `Remove` calls. */
    method Remove(v: int, fuel: nat) returns (f: Option<Fault>)
      requires Valid()
      modifies this
      ensures Valid() && Outcome(Current(), f) == RemoveFrom(old(Current()), amount, v, fuel)
      decreases fuel, 5
    {
      if fuel == 0 {
        return Some(NoTermination);
      }
      var found := Find(v);
      if found.Err? {
        return Some(found.fault);
      }
      if found.value.None? {
        return Some(KeyNotFound);
      }
      var n := found.value.value;
      if v !in arena.nodes[n].keys {
        return Some(KeyNotFound);
      }
      if arena.nodes[n].isLeaf {
        f := RemoveAtLeaf(n, v, fuel);
      } else {
        f := RemoveAtInternal(n, v, fuel);
      }
    }

    /** The leaf branch of `Remove` (BTree.cs:101-111). */
    method RemoveAtLeaf(n: NodeId, v: int, fuel: nat) returns (f: Option<Fault>)
      requires Valid() && n in arena.nodes && arena.nodes[n].isLeaf && fuel > 0
      modifies this
      ensures Valid() && Outcome(Current(), f) == RemoveFromLeaf(old(Current()), amount, n, v, fuel)
      decreases fuel, 4
    {
      if root == Some(n) || |arena.nodes[n].keys| > amount - 1 {
        RemoveKeyAt(n, v);
        return None;
      }
      var q := arena.nodes[n].parent;
      if q.None? {
        return Some(NullReference);
      }
      var p := q.value;
      RefsInArena(arena, n);
      if arena.nodes[p].isLeaf {
        return Some(NullReference);
      }
      var i := IndexIn(arena.nodes[p].children, n);
      if i == |arena.nodes[p].children| {
        return Some(IndexOutOfRange);
      }
      f := RebalanceAt(n, p, i, v, fuel);
    }

    /** The choice among the ways to restore a leaf at the minimum (BTree.cs:112-169). */
    method RebalanceAt(n: NodeId, p: NodeId, i: nat, v: int, fuel: nat) returns (f: Option<Fault>)
      requires Valid() && n in arena.nodes && p in arena.nodes && fuel > 0
      requires arena.nodes[n].isLeaf && !arena.nodes[p].isLeaf
      requires i < |arena.nodes[p].children| && arena.nodes[p].children[i] == n
      modifies this
      ensures Valid() && Outcome(Current(), f) == Rebalance(old(Current()), amount, n, p, i, v, fuel)
      decreases fuel, 3
    {
      var cs := arena.nodes[p].children;
      RefsInArena(arena, p);
      if i > 0 && |arena.nodes[cs[i - 1]].keys| > amount - 1 {
        f := BorrowLeftAt(n, p, i, v);
      } else if i < |cs| - 1 && |arena.nodes[cs[i + 1]].keys| > amount - 1 {
        f := BorrowRightAt(n, p, i, v);
      } else if root == Some(p) && |cs| == 2 {
        f := CollapseRootAt(n, p, v);
      } else if i > 0 {
        f := MergeLeftAt(n, p, i, v, fuel);
      } else {
        f := MergeRightAt(n, p, i, v, fuel);
      }
    }

    /** Merge with the left sibling (BTree.cs:144-148). */
    method MergeLeftAt(n: NodeId, p: NodeId, i: nat, v: int, fuel: nat) returns (f: Option<Fault>)
      requires Valid() && n in arena.nodes && p in arena.nodes && fuel > 0
      requires !arena.nodes[p].isLeaf && 0 < i < |arena.nodes[p].children|
      modifies this
      ensures Valid() && Outcome(Current(), f) == MergeLeft(old(Current()), amount, n, p, i, v, fuel)
      decreases fuel, 2
    {
      ghost var s := Current();
      RemoveKeyAt(n, v);
      RefsInArena(arena, p);
      var m := MergeNodesAt(arena.nodes[p].children[i - 1], n);
      if m.Err? {
        return Some(m.fault);
      }
      f := MergeLeftRestAt(s, n, m.value, i, fuel);
    }

    /** Merge with the left sibling once the merged node `m` exists
        (BTree.cs:149-154); `s` is the state the removal started from. */
    method MergeLeftRestAt(ghost s: State, n: NodeId, m: NodeId, i: nat, fuel: nat) returns (f: Option<Fault>)
      requires Valid() && WellFormed(s) && s.root == root && s.arena.nodes.Keys <= arena.nodes.Keys
      requires n in arena.nodes && m in arena.nodes && 0 < i && fuel > 0
      modifies this
      ensures Valid() && Outcome(Current(), f) == MergeLeftRest(s, old(arena), amount, n, m, i, fuel)
      decreases fuel, 1
    {
      var q := arena.nodes[n].parent;
      RefsInArena(arena, n);
      if q.None? {
        return Some(NullReference);
      }
      if i - 1 >= |arena.nodes[q.value].keys| {
        return Some(IndexOutOfRange);
      }
      var kp := arena.nodes[q.value].keys[i - 1];
      AddKeyAt(m, kp);
      if arena.nodes[q.value].isLeaf {
        return Some(NullReference);
      }
      if i >= |arena.nodes[q.value].children| {
        return Some(IndexOutOfRange);
      }
      SetChildAt(q.value, i, m);
      f := Remove(kp, Spent(fuel));
      if f.Some? {
        return;
      }
      f := DropChildAt(n, n);
    }

    /** Merge with the right sibling (BTree.cs:157-161). */
    method MergeRightAt(n: NodeId, p: NodeId, i: nat, v: int, fuel: nat) returns (f: Option<Fault>)
      requires Valid() && n in arena.nodes && p in arena.nodes && fuel > 0
      requires !arena.nodes[p].isLeaf && i < |arena.nodes[p].children|
      modifies this
      ensures Valid() && Outcome(Current(), f) == MergeRight(old(Current()), amount, n, p, i, v, fuel)
      decreases fuel, 2
    {
      ghost var s := Current();
      RemoveKeyAt(n, v);
      RefsInArena(arena, p);
      if i + 1 >= |arena.nodes[p].children| {
        return Some(IndexOutOfRange);
      }
      var nb := arena.nodes[p].children[i + 1];
      var m := MergeNodesAt(n, nb);
      if m.Err? {
        return Some(m.fault);
      }
      f := MergeRightRestAt(s, n, m.value, nb, i, fuel);
    }

    /** Merge with the right sibling once the merged node `m` exists
        (BTree.cs:162-168); `s` is the state the removal started from. */
    method MergeRightRestAt(ghost s: State, n: NodeId, m: NodeId, nb: NodeId, i: nat, fuel: nat) returns (f: Option<Fault>)
      requires Valid() && WellFormed(s) && s.root == root && s.arena.nodes.Keys <= arena.nodes.Keys
      requires n in arena.nodes && m in arena.nodes && fuel > 0
      modifies this
      ensures Valid() && Outcome(Current(), f) == MergeRightRest(s, old(arena), amount, n, m, nb, i, fuel)
      decreases fuel, 1
    {
      var q := arena.nodes[n].parent;
      RefsInArena(arena, n);
      if q.None? {
        return Some(NullReference);
      }
      if i >= |arena.nodes[q.value].keys| {
        return Some(IndexOutOfRange);
      }
      if arena.nodes[q.value].isLeaf {
        return Some(NullReference);
      }
      if i + 1 >= |arena.nodes[q.value].children| {
        return Some(IndexOutOfRange);
      }
      f := MergeRightTailAt(s, n, q.value, m, nb, i, fuel);
    }

    /** The end of a merge with the right sibling (BTree.cs:164-168) once the
        checks on the parent `p` have passed. */
    method MergeRightTailAt(ghost s: State, n: NodeId, p: NodeId, m: NodeId, nb: NodeId, i: nat, fuel: nat) returns (f: Option<Fault>)
      requires Valid() && WellFormed(s) && s.root == root && s.arena.nodes.Keys <= arena.nodes.Keys
      requires n in arena.nodes && m in arena.nodes && p in arena.nodes && fuel > 0
      requires i < |arena.nodes[p].keys| && i + 1 < |arena.nodes[p].children|
      modifies this
      ensures Valid() && Outcome(Current(), f) == MergeRightTail(s, old(arena), amount, n, p, m, nb, i, fuel)
      decreases fuel, 0
    {
      var kp := arena.nodes[p].keys[i];
      SetChildAt(p, i + 1, m);
      f := Remove(kp, Spent(fuel));
      if f.Some? {
        return;
      }
      f := FinishRightMergeAt(n, m, nb, kp);
    }

    /** The end of a merge with the right sibling (BTree.cs:167-168): the merged
        node `m` takes the separator `kp` and the parent drops the sibling `nb`. */
    method FinishRightMergeAt(n: NodeId, m: NodeId, nb: NodeId, kp: int) returns (f: Option<Fault>)
      requires Valid() && n in arena.nodes && m in arena.nodes
      modifies this
      ensures Valid() && Outcome(Current(), f) == DropChild(old(Current()).(arena := AddKeyTo(old(arena), m, kp)), n, nb)
    {
      AddKeyAt(m, kp);
      f := DropChildAt(n, nb);
    }

    /** The internal-node branch of `Remove` (BTree.cs:171-189): `v` is key i of
        the node `n`. */
    method RemoveAtInternal(n: NodeId, v: int, fuel: nat) returns (f: Option<Fault>)
      requires Valid() && n in arena.nodes && fuel > 0
      modifies this
      ensures Valid() && Outcome(Current(), f) == RemoveFromInternal(old(Current()), amount, n, v, fuel)
      decreases fuel, 3
    {
      var ks, cs := arena.nodes[n].keys, arena.nodes[n].children;
      var i := IndexIn(ks, v);
      RefsInArena(arena, n);
      if i == |ks| || i >= |cs| {
        return Some(IndexOutOfRange);
      }
      var ci := arena.nodes[cs[i]].keys;
      if |ci| > amount - 1 {
        if |ci| == 0 {
          return Some(IndexOutOfRange);
        }
        assert InternalChoice(arena, amount, n, v) == Replace(i, ci[|ci| - 1]);
        f := ReplaceKeyAt(n, i, ci[|ci| - 1], fuel);
      } else if i < |cs| - 1 && |arena.nodes[cs[i + 1]].keys| > amount - 1 {
        var cj := arena.nodes[cs[i + 1]].keys;
        if |cj| == 0 {
          return Some(IndexOutOfRange);
        }
        assert InternalChoice(arena, amount, n, v) == Replace(i, cj[0]);
        f := ReplaceKeyAt(n, i, cj[0], fuel);
      } else if i + 1 >= |cs| {
        return Some(IndexOutOfRange);
      } else {
        assert InternalChoice(arena, amount, n, v) == MergeAt(i);
        f := MergeChildrenAt(n, i, v, fuel);
      }
    }

    /** Predecessor or successor (BTree.cs:179-181, 186-188): remove `key` from
        the tree, then write it over key i of the node `n`. */
    method ReplaceKeyAt(n: NodeId, i: nat, key: int, fuel: nat) returns (f: Option<Fault>)
      requires Valid() && n in arena.nodes && fuel > 0
      modifies this
      ensures Valid() && Outcome(Current(), f) == ReplaceKey(old(Current()), amount, n, i, key, fuel)
      decreases fuel, 1
    {
      f := Remove(key, Spent(fuel));
      if f.Some? {
        return;
      }
      var ks := SetAt(arena.nodes[n].keys, i, key);
      if ks.Err? {
        return Some(ks.fault);
      }
      arena := WithKeys(arena, n, ks.value);
    }

    /** Merging children i and i+1 of the node `n` (BTree.cs:190-192). */
    method MergeChildrenAt(n: NodeId, i: nat, v: int, fuel: nat) returns (f: Option<Fault>)
      requires Valid() && n in arena.nodes && fuel > 0
      requires i + 1 < |arena.nodes[n].children|
      modifies this
      ensures Valid() && Outcome(Current(), f) == MergeChildren(old(Current()), amount, n, i, v, fuel)
      decreases fuel, 1
    {
      ghost var s := Current();
      var cs := arena.nodes[n].children;
      RefsInArena(arena, n);
      var m := MergeNodesAt(cs[i], cs[i + 1]);
      if m.Err? {
        return Some(m.fault);
      }
      f := MergeChildrenRestAt(s, n, m.value, i, v, fuel);
    }

    /** Merging children i and i+1 once the merged node `m` exists
        (BTree.cs:194-207); `s` is the state the removal started from. */
    method MergeChildrenRestAt(ghost s: State, n: NodeId, m: NodeId, i: nat, v: int, fuel: nat) returns (f: Option<Fault>)
      requires Valid() && WellFormed(s) && s.root == root && s.arena.nodes.Keys <= arena.nodes.Keys
      requires n in arena.nodes && m in arena.nodes && m != n && fuel > 0
      requires i + 1 < |arena.nodes[n].children|
      modifies this
      ensures Valid() && Outcome(Current(), f) == MergeChildrenRest(s, old(arena), amount, n, m, i, v, fuel)
      decreases fuel, 0
    {
      if root == Some(n) && |arena.nodes[n].children| == 2 {
        arena := WithParent(arena, m, None);
        root := Some(m);
        return None;
      }
      PutMergedAt(n, m, i, v);
      f := Remove(v, Spent(fuel));
    }

    /** BTree.cs:201-204: `m` takes `v`, `n` drops it, `m` replaces child i of
        `n` and child i+1 is removed. */
    method PutMergedAt(n: NodeId, m: NodeId, i: nat, v: int)
      requires Valid() && n in arena.nodes && m in arena.nodes && m != n
      requires i + 1 < |arena.nodes[n].children|
      modifies this
      ensures Valid() && root == old(root) && arena == PutMerged(old(arena), n, m, i, v)
    {
      AddKeyAt(m, v);
      RemoveKeyAt(n, v);
      SetChildAt(n, i, m);
      var cs := arena.nodes[n].children;
      RemoveChildAt(n, cs[i + 1]);
    }
  }
}
