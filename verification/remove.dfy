/** `Remove` of `BTree<T>` (BTree/BTree/BTree.cs:94-210) as functions of the tree
    state, one function per branch. The C# method calls itself at BTree.cs:153,
    166, 180, 187 and 207; `fuel` bounds the depth of those nested calls, and a
    call that would go deeper ends with `NoTermination`. Every field read after a
    nested call or a `Merge` is read again from the state of that moment, as the
    C# code re-reads `node.Parent`, `node.Keys` and `node.Children`. */
module Removal {
  import opened Wrappers
  import opened Lists
  import opened Keys
  import opened Node
  import opened Search
  import opened TreeState
  import opened Insertion

  /** `node.Keys.Remove(value)` on the node `n` of the arena. */
  function RemoveKeyFrom(a: Arena, n: NodeId, v: int): (r: Arena)
    requires Closed(a) && n in a.nodes
    ensures Closed(r) && r.next == a.next && r.nodes.Keys == a.nodes.Keys
    ensures r.nodes[n] == a.nodes[n].(keys := RemoveFirst(a.nodes[n].keys, v))
    ensures forall id :: id in a.nodes && id != n ==> r.nodes[id] == a.nodes[id]
  {
    WithKeys(a, n, RemoveFirst(a.nodes[n].keys, v))
  }

  /** The arena of `o` with the root of `s`: the state after a throw part-way. */
  function Fail(s: State, a: Arena, f: Fault): (o: Outcome)
    requires WellFormed(s) && Closed(a) && s.arena.nodes.Keys <= a.nodes.Keys
    ensures WellFormed(o.state) && o.state.root == s.root && o.fault == Some(f)
  {
    Outcome(State(a, s.root), Some(f))
  }

  /** `Remove(value)` (BTree.cs:94-210): find the node for `value`; throw when it
      does not hold `value`; otherwise go to the leaf or the internal-node branch. */
  function RemoveFrom(s: State, t: int, v: int, fuel: nat): (o: Outcome)
    requires WellFormed(s)
    ensures WellFormed(o.state) && s.arena.nodes.Keys <= o.state.arena.nodes.Keys
    decreases fuel, 5
  {
    if fuel == 0 then Outcome(s, Some(NoTermination))
    else
      match FindIn(s, v)
      case Err(f) => Outcome(s, Some(f))
      case Ok(None) => Outcome(s, Some(KeyNotFound))
      case Ok(Some(n)) =>
        if v !in s.arena.nodes[n].keys then Outcome(s, Some(KeyNotFound))
        else if s.arena.nodes[n].isLeaf then RemoveFromLeaf(s, t, n, v, fuel)
        else RemoveFromInternal(s, t, n, v, fuel)
  }

  /** The leaf branch (BTree.cs:101-170): delete directly from the root or from a
      leaf with more than t-1 keys; otherwise find the leaf at position i among
      its parent's children (BTree.cs:109-111) and rebalance. */
  function RemoveFromLeaf(s: State, t: int, n: NodeId, v: int, fuel: nat): (o: Outcome)
    requires WellFormed(s) && n in s.arena.nodes && s.arena.nodes[n].isLeaf && fuel > 0
    ensures WellFormed(o.state) && s.arena.nodes.Keys <= o.state.arena.nodes.Keys
    decreases fuel, 4
  {
    var a := s.arena;
    var node := a.nodes[n];
    if s.root == Some(n) || |node.keys| > t - 1 then Outcome(s.(arena := RemoveKeyFrom(a, n, v)), None)
    else if node.parent.None? then Outcome(s, Some(NullReference))
    else
      var p := node.parent.value;
      RefsInArena(a, n);
      var P := a.nodes[p];
      if P.isLeaf then Outcome(s, Some(NullReference))
      else
        var i := IndexOf(P.children, n);
        if i == |P.children| then Outcome(s, Some(IndexOutOfRange))
        else Rebalance(s, t, n, p, i, v, fuel)
  }

  /** The leaf `n` at position i of the children of `p` is at the minimum
      (BTree.cs:112-169): borrow from the left sibling, borrow from the right
      sibling, collapse the root, merge with the left sibling or merge with the
      right sibling, the first that applies. */
  function Rebalance(s: State, t: int, n: NodeId, p: NodeId, i: nat, v: int, fuel: nat): (o: Outcome)
    requires WellFormed(s) && n in s.arena.nodes && p in s.arena.nodes && fuel > 0
    requires s.arena.nodes[n].isLeaf && !s.arena.nodes[p].isLeaf
    requires i < |s.arena.nodes[p].children| && s.arena.nodes[p].children[i] == n
    ensures WellFormed(o.state) && s.arena.nodes.Keys <= o.state.arena.nodes.Keys
    decreases fuel, 3
  {
    var a := s.arena;
    var P := a.nodes[p];
    RefsInArena(a, p);
    if i > 0 && |a.nodes[P.children[i - 1]].keys| > t - 1 then BorrowLeft(s, n, p, i, v)
    else if i < |P.children| - 1 && |a.nodes[P.children[i + 1]].keys| > t - 1 then BorrowRight(s, n, p, i, v)
    else if s.root == Some(p) && |P.children| == 2 then CollapseRoot(s, t, n, p, v)
    else if i > 0 then MergeLeft(s, t, n, p, i, v, fuel)
    else MergeRight(s, t, n, p, i, v, fuel)
  }

  /** Borrow from the left sibling (BTree.cs:112-124): the leaf drops `value` and
      takes the separator `Keys[i-1]` of the parent, whose place goes to the
      sibling's last key, which the sibling drops. */
  function BorrowLeft(s: State, n: NodeId, p: NodeId, i: nat, v: int): (o: Outcome)
    requires WellFormed(s) && n in s.arena.nodes && p in s.arena.nodes
    requires s.arena.nodes[n].isLeaf && !s.arena.nodes[p].isLeaf
    requires 0 < i < |s.arena.nodes[p].children| && s.arena.nodes[p].children[i] == n
    ensures WellFormed(o.state) && s.arena.nodes.Keys == o.state.arena.nodes.Keys && o.state.root == s.root
  {
    var a := s.arena;
    var P := a.nodes[p];
    var nb := P.children[i - 1];
    RefsInArena(a, p);
    var NB := a.nodes[nb];
    if |NB.keys| == 0 || i - 1 >= |P.keys| then Outcome(s, Some(IndexOutOfRange))
    else
      var kn := NB.keys[|NB.keys| - 1];
      var kp := P.keys[i - 1];
      var a1 := AddKeyTo(RemoveKeyFrom(a, n, v), n, kp);
      var a2 := WithKeys(a1, p, a1.nodes[p].keys[i - 1 := kn]);
      Outcome(s.(arena := RemoveKeyFrom(a2, nb, kn)), None)
  }

  /** Borrow from the right sibling (BTree.cs:125-138): the leaf drops `value` and
      takes the separator `Keys[i]` of the parent, whose place goes to the
      sibling's first key, which the sibling drops. */
  function BorrowRight(s: State, n: NodeId, p: NodeId, i: nat, v: int): (o: Outcome)
    requires WellFormed(s) && n in s.arena.nodes && p in s.arena.nodes
    requires s.arena.nodes[n].isLeaf && !s.arena.nodes[p].isLeaf
    requires i + 1 < |s.arena.nodes[p].children| && s.arena.nodes[p].children[i] == n
    ensures WellFormed(o.state) && s.arena.nodes.Keys == o.state.arena.nodes.Keys && o.state.root == s.root
  {
    var a := s.arena;
    var P := a.nodes[p];
    var nb := P.children[i + 1];
    RefsInArena(a, p);
    var NB := a.nodes[nb];
    if |NB.keys| == 0 || i >= |P.keys| then Outcome(s, Some(IndexOutOfRange))
    else
      var kn := NB.keys[0];
      var kp := P.keys[i];
      var a1 := AddKeyTo(RemoveKeyFrom(a, n, v), n, kp);
      var a2 := WithKeys(a1, p, a1.nodes[p].keys[i := kn]);
      Outcome(s.(arena := RemoveKeyFrom(a2, nb, kn)), None)
  }

  /** Root collapse (BTree.cs:139-143): the leaf drops `value` and the root with
      its two children is replaced by `MergeWithRoot(_root)`. */
  function CollapseRoot(s: State, t: int, n: NodeId, p: NodeId, v: int): (o: Outcome)
    requires WellFormed(s) && n in s.arena.nodes && s.root == Some(p)
    ensures WellFormed(o.state) && s.arena.nodes.Keys <= o.state.arena.nodes.Keys
  {
    var b := MergeWithRoot(RemoveKeyFrom(s.arena, n, v), p, t);
    match b.result
    case Err(f) => Fail(s, b.arena, f)
    case Ok(m) => Outcome(State(b.arena, Some(m)), None)
  }

  /** Merge with the left sibling (BTree.cs:144-156): the leaf drops `value`, the
      sibling and the leaf are merged, the merged node takes the separator
      `Keys[i-1]` and replaces the leaf at position i of the parent, the separator
      is removed from the tree by a nested `Remove`, and finally the leaf (no
      longer among the parent's children) is removed from the parent's children. */
  function MergeLeft(s: State, t: int, n: NodeId, p: NodeId, i: nat, v: int, fuel: nat): (o: Outcome)
    requires WellFormed(s) && n in s.arena.nodes && p in s.arena.nodes && fuel > 0
    requires !s.arena.nodes[p].isLeaf && 0 < i < |s.arena.nodes[p].children|
    ensures WellFormed(o.state) && s.arena.nodes.Keys <= o.state.arena.nodes.Keys
    decreases fuel, 2
  {
    var a1 := RemoveKeyFrom(s.arena, n, v);
    RefsInArena(a1, p);
    var b := Merge(a1, a1.nodes[p].children[i - 1], n, t);
    match b.result
    case Err(f) => Fail(s, b.arena, f)
    case Ok(m) => MergeLeftRest(s, b.arena, t, n, m, i, fuel)
  }

  /** Merge with the left sibling once the merged node `m` exists (BTree.cs:149-154). */
  function MergeLeftRest(s: State, a2: Arena, t: int, n: NodeId, m: NodeId, i: nat, fuel: nat): (o: Outcome)
    requires WellFormed(s) && Closed(a2) && s.arena.nodes.Keys <= a2.nodes.Keys
    requires n in a2.nodes && m in a2.nodes && 0 < i && fuel > 0
    ensures WellFormed(o.state) && s.arena.nodes.Keys <= o.state.arena.nodes.Keys
    decreases fuel, 1
  {
    var q := a2.nodes[n].parent;
    RefsInArena(a2, n);
    if q.None? then Fail(s, a2, NullReference)
    else if i - 1 >= |a2.nodes[q.value].keys| then Fail(s, a2, IndexOutOfRange)
    else
      var kp := a2.nodes[q.value].keys[i - 1];
      var a3 := AddKeyTo(a2, m, kp);
      if a3.nodes[q.value].isLeaf then Fail(s, a3, NullReference)
      else if i >= |a3.nodes[q.value].children| then Fail(s, a3, IndexOutOfRange)
      else
        var a4 := WithChildren(a3, q.value, a3.nodes[q.value].children[i := m]);
        var o := RemoveFrom(State(a4, s.root), t, kp, Spent(fuel));
        if o.fault.Some? then o
        else DropChild(o.state, n, n)
  }

  /** Merge with the right sibling (BTree.cs:157-169): the leaf drops `value`, the
      leaf and the sibling are merged, the merged node replaces the sibling at
      position i+1, the separator `Keys[i]` is removed from the tree by a nested
      `Remove` and then added to the merged node, and finally the sibling (no
      longer among the parent's children) is removed from the parent's children. */
  function MergeRight(s: State, t: int, n: NodeId, p: NodeId, i: nat, v: int, fuel: nat): (o: Outcome)
    requires WellFormed(s) && n in s.arena.nodes && p in s.arena.nodes && fuel > 0
    requires !s.arena.nodes[p].isLeaf && i < |s.arena.nodes[p].children|
    ensures WellFormed(o.state) && s.arena.nodes.Keys <= o.state.arena.nodes.Keys
    decreases fuel, 2
  {
    var a1 := RemoveKeyFrom(s.arena, n, v);
    RefsInArena(a1, p);
    if i + 1 >= |a1.nodes[p].children| then Fail(s, a1, IndexOutOfRange)
    else
      var nb := a1.nodes[p].children[i + 1];
      var b := Merge(a1, n, nb, t);
      match b.result
      case Err(f) => Fail(s, b.arena, f)
      case Ok(m) => MergeRightRest(s, b.arena, t, n, m, nb, i, fuel)
  }

  /** Merge with the right sibling once the merged node `m` exists (BTree.cs:162-168). */
  function MergeRightRest(s: State, a2: Arena, t: int, n: NodeId, m: NodeId, nb: NodeId, i: nat, fuel: nat): (o: Outcome)
    requires WellFormed(s) && Closed(a2) && s.arena.nodes.Keys <= a2.nodes.Keys
    requires n in a2.nodes && m in a2.nodes && fuel > 0
    ensures WellFormed(o.state) && s.arena.nodes.Keys <= o.state.arena.nodes.Keys
    decreases fuel, 1
  {
    var q := a2.nodes[n].parent;
    RefsInArena(a2, n);
    if q.None? then Fail(s, a2, NullReference)
    else if i >= |a2.nodes[q.value].keys| then Fail(s, a2, IndexOutOfRange)
    else
      var kp := a2.nodes[q.value].keys[i];
      if a2.nodes[q.value].isLeaf then Fail(s, a2, NullReference)
      else if i + 1 >= |a2.nodes[q.value].children| then Fail(s, a2, IndexOutOfRange)
      else MergeRightTail(s, a2, t, n, q.value, m, nb, i, fuel)
  }

  /** The end of a merge with the right sibling once the checks on the parent
      `p` have passed (BTree.cs:164-168): `m` replaces child i+1 of `p`, the
      separator `Keys[i]` is removed from the tree by a nested `Remove`, `m`
      takes it and the parent drops the sibling `nb`. */
  function MergeRightTail(s: State, a2: Arena, t: int, n: NodeId, p: NodeId, m: NodeId, nb: NodeId, i: nat, fuel: nat): (o: Outcome)
    requires WellFormed(s) && Closed(a2) && s.arena.nodes.Keys <= a2.nodes.Keys
    requires n in a2.nodes && m in a2.nodes && p in a2.nodes && fuel > 0
    requires i < |a2.nodes[p].keys| && i + 1 < |a2.nodes[p].children|
    ensures WellFormed(o.state) && s.arena.nodes.Keys <= o.state.arena.nodes.Keys
    decreases fuel, 0
  {
    var kp := a2.nodes[p].keys[i];
    RefsInArena(a2, p);
    UpdateMembers(a2.nodes[p].children, i + 1, m);
    var a3 := WithChildren(a2, p, a2.nodes[p].children[i + 1 := m]);
    var o := RemoveFrom(State(a3, s.root), t, kp, Spent(fuel));
    if o.fault.Some? then o
    else DropChild(o.state.(arena := AddKeyTo(o.state.arena, m, kp)), n, nb)
  }

  /** `node.Parent.Children.Remove(c)` (BTree.cs:154, 168), with `node.Parent`
      read in the current state. */
  function DropChild(s: State, n: NodeId, c: NodeId): (o: Outcome)
    requires WellFormed(s) && n in s.arena.nodes
    ensures WellFormed(o.state) && s.arena.nodes.Keys == o.state.arena.nodes.Keys && o.state.root == s.root
    ensures var q := s.arena.nodes[n].parent;
      (q.None? || (q.value in s.arena.nodes && s.arena.nodes[q.value].isLeaf)) ==>
        o == Outcome(s, Some(NullReference))
    ensures var q := s.arena.nodes[n].parent;
      (q.Some? && q.value in s.arena.nodes && !s.arena.nodes[q.value].isLeaf) ==>
        var Q := s.arena.nodes[q.value];
        o.fault.None? &&
        o.state.arena.nodes[q.value] == Q.(children := RemoveFirst(Q.children, c)) &&
        forall id :: id in s.arena.nodes && id != q.value ==> o.state.arena.nodes[id] == s.arena.nodes[id]
    ensures var q := s.arena.nodes[n].parent;
      (q.Some? && q.value in s.arena.nodes && !s.arena.nodes[q.value].isLeaf &&
       c !in s.arena.nodes[q.value].children) ==> o == Outcome(s, None)
  {
    var q := s.arena.nodes[n].parent;
    RefsInArena(s.arena, n);
    if q.None? || s.arena.nodes[q.value].isLeaf then Outcome(s, Some(NullReference))
    else
      RefsInArena(s.arena, q.value);
      var cs := s.arena.nodes[q.value].children;
      Outcome(s.(arena := WithChildren(s.arena, q.value, RemoveFirst(cs, c))), None)
  }

  /** What the internal-node branch does (BTree.cs:171-209). */
  datatype InternalStep =
    | Refuse(fault: Fault)           // an index check of the branch throws
    | Replace(i: nat, key: int)      // key i of the node is replaced by `key`
    | MergeAt(i: nat)                // children i and i+1 are merged

  /** The choice made by the internal-node branch: find `value` among the keys
      at position i; if child i has more than t-1 keys, its last key replaces
      `value`; else if child i+1 has more than t-1 keys, its first key does;
      otherwise children i and i+1 are merged. */
  function InternalChoice(a: Arena, t: int, n: NodeId, v: int): (c: InternalStep)
    requires Closed(a) && n in a.nodes
    ensures c.Replace? || c.MergeAt? ==> c.i == IndexOf(a.nodes[n].keys, v) < |a.nodes[n].keys|
    ensures c.MergeAt? ==> c.i + 1 < |a.nodes[n].children|
    ensures c.Refuse? ==> c.fault == IndexOutOfRange
    ensures var cs, i := a.nodes[n].children, IndexOf(a.nodes[n].keys, v);
      i < |a.nodes[n].keys| && i < |cs| && cs[i] in a.nodes ==>
        var ci := a.nodes[cs[i]].keys;
        |ci| > t - 1 ==> c == if |ci| == 0 then Refuse(IndexOutOfRange) else Replace(i, ci[|ci| - 1])
    ensures var cs, i := a.nodes[n].children, IndexOf(a.nodes[n].keys, v);
      i < |a.nodes[n].keys| && i + 1 < |cs| && cs[i] in a.nodes && cs[i + 1] in a.nodes ==>
        var ci, cj := a.nodes[cs[i]].keys, a.nodes[cs[i + 1]].keys;
        (|ci| <= t - 1 && |cj| > t - 1 ==> c == if |cj| == 0 then Refuse(IndexOutOfRange) else Replace(i, cj[0])) &&
        (|ci| <= t - 1 && |cj| <= t - 1 ==> c == MergeAt(i))
    ensures c.MergeAt? ==>
      var cs := a.nodes[n].children;
      cs[c.i] in a.nodes && cs[c.i + 1] in a.nodes &&
      |a.nodes[cs[c.i]].keys| <= t - 1 && |a.nodes[cs[c.i + 1]].keys| <= t - 1
  {
    var node := a.nodes[n];
    var i := IndexOf(node.keys, v);
    RefsInArena(a, n);
    if i == |node.keys| || i >= |node.children| then Refuse(IndexOutOfRange)
    else
      var ci := a.nodes[node.children[i]];
      if |ci.keys| > t - 1 then
        if |ci.keys| == 0 then Refuse(IndexOutOfRange)
        else Replace(i, ci.keys[|ci.keys| - 1])
      else if i < |node.children| - 1 && |a.nodes[node.children[i + 1]].keys| > t - 1 then
        var cj := a.nodes[node.children[i + 1]];
        if |cj.keys| == 0 then Refuse(IndexOutOfRange)
        else Replace(i, cj.keys[0])
      else if i + 1 >= |node.children| then Refuse(IndexOutOfRange)
      else MergeAt(i)
  }

  /** The internal-node branch (BTree.cs:171-209), carrying out `InternalChoice`. */
  function RemoveFromInternal(s: State, t: int, n: NodeId, v: int, fuel: nat): (o: Outcome)
    requires WellFormed(s) && n in s.arena.nodes && fuel > 0
    ensures WellFormed(o.state) && s.arena.nodes.Keys <= o.state.arena.nodes.Keys
    decreases fuel, 3
  {
    match InternalChoice(s.arena, t, n, v)
    case Refuse(f) => Outcome(s, Some(f))
    case Replace(i, key) => ReplaceKey(s, t, n, i, key, fuel)
    case MergeAt(i) => MergeChildren(s, t, n, i, v, fuel)
  }

  /** Predecessor or successor (BTree.cs:179-181, 186-188): remove `key` from the
      tree by a nested `Remove`, then write it over `Keys[i]` of the node. */
  function ReplaceKey(s: State, t: int, n: NodeId, i: nat, key: int, fuel: nat): (o: Outcome)
    requires WellFormed(s) && n in s.arena.nodes && fuel > 0
    ensures WellFormed(o.state) && s.arena.nodes.Keys <= o.state.arena.nodes.Keys
    decreases fuel, 1
  {
    var o := RemoveFrom(s, t, key, Spent(fuel));
    if o.fault.Some? then o
    else
      var a := o.state.arena;
      match SetAt(a.nodes[n].keys, i, key)
      case Err(f) => Outcome(o.state, Some(f))
      case Ok(ks) => Outcome(o.state.(arena := WithKeys(a, n, ks)), None)
  }

  /** Merging children i and i+1 (BTree.cs:190-208). When the node is the root
      with exactly two children the merged node becomes the parentless root and
      nothing else happens; otherwise the merged node takes `value`, the node
      drops it, the merged node replaces child i, child i+1 is removed from the
      children, and `value` is removed again by a nested `Remove`. */
  function MergeChildren(s: State, t: int, n: NodeId, i: nat, v: int, fuel: nat): (o: Outcome)
    requires WellFormed(s) && n in s.arena.nodes && fuel > 0
    requires i + 1 < |s.arena.nodes[n].children|
    ensures WellFormed(o.state) && s.arena.nodes.Keys <= o.state.arena.nodes.Keys
    decreases fuel, 1
  {
    var a := s.arena;
    var cs := a.nodes[n].children;
    RefsInArena(a, n);
    var b := Merge(a, cs[i], cs[i + 1], t);
    match b.result
    case Err(f) => Fail(s, b.arena, f)
    case Ok(m) => MergeChildrenRest(s, b.arena, t, n, m, i, v, fuel)
  }

  /** Merging children i and i+1 once the merged node `m` exists (BTree.cs:194-207). */
  function MergeChildrenRest(s: State, a1: Arena, t: int, n: NodeId, m: NodeId, i: nat, v: int, fuel: nat): (o: Outcome)
    requires WellFormed(s) && Closed(a1) && s.arena.nodes.Keys <= a1.nodes.Keys
    requires n in a1.nodes && m in a1.nodes && m != n && fuel > 0
    requires i + 1 < |a1.nodes[n].children|
    ensures WellFormed(o.state) && s.arena.nodes.Keys <= o.state.arena.nodes.Keys
    ensures s.root == Some(n) && |a1.nodes[n].children| == 2 ==>
      o.fault.None? && o.state.root == Some(m) && o.state.arena.nodes.Keys == a1.nodes.Keys &&
      o.state.arena.nodes[m] == a1.nodes[m].(parent := None) &&
      forall id :: id in a1.nodes && id != m ==> o.state.arena.nodes[id] == a1.nodes[id]
    decreases fuel, 0
  {
    if s.root == Some(n) && |a1.nodes[n].children| == 2 then
      Outcome(State(WithParent(a1, m, None), Some(m)), None)
    else
      RemoveFrom(State(PutMerged(a1, n, m, i, v), s.root), t, v, Spent(fuel))
  }

  /** The merged node `m` takes `value`, the node `n` drops it, `m` replaces
      child i and child i+1 is removed from the children (BTree.cs:201-204). */
  function PutMerged(a1: Arena, n: NodeId, m: NodeId, i: nat, v: int): (r: Arena)
    requires Closed(a1) && n in a1.nodes && m in a1.nodes && m != n
    requires i + 1 < |a1.nodes[n].children|
    ensures Closed(r) && r.nodes.Keys == a1.nodes.Keys && r.next == a1.next
    ensures r.nodes[m] == a1.nodes[m].(keys := InsertSorted(a1.nodes[m].keys, v))
    ensures var N := a1.nodes[n]; var cs := N.children[i := m];
      r.nodes[n] == N.(keys := RemoveFirst(N.keys, v), children := RemoveFirst(cs, cs[i + 1]))
    ensures var cs := a1.nodes[n].children;
      Distinct(cs) && m !in cs ==> r.nodes[n].children == cs[..i] + [m] + cs[i + 2..]
    ensures forall id :: id in a1.nodes && id != n && id != m ==> r.nodes[id] == a1.nodes[id]
  {
    ReplaceThenDrop(a1.nodes[n].children, i, m);
    var a2 := RemoveKeyFrom(AddKeyTo(a1, m, v), n, v);
    var a3 := WithChildren(a2, n, a2.nodes[n].children[i := m]);
    var cs3 := a3.nodes[n].children;
    WithChildren(a3, n, RemoveFirst(cs3, cs3[i + 1]))
  }

  /** Removing a key the tree does not store (an empty tree included) throws and
      changes nothing (BTree.cs:96-99). */
  lemma RemoveNotStored(s: State, d: nat, t: int, v: int, fuel: nat)
    requires WellFormed(s) && fuel > 0
    requires s.root.None? || SearchOrdered(s, d)
    requires v !in Stored(s, d)
    ensures RemoveFrom(s, t, v, fuel) == Outcome(s, Some(KeyNotFound))
  {
    if s.root.Some? {
      ContainsIsMembership(s, d, v);
    }
  }

  /** Removing from the root leaf, or from a leaf with more than t-1 keys, deletes
      exactly `value` from that leaf and changes nothing else (BTree.cs:103-107). */
  lemma RemoveDirect(s: State, t: int, v: int, fuel: nat, n: NodeId)
    requires WellFormed(s) && fuel > 0 && FindIn(s, v) == Ok(Some(n))
    requires var N := s.arena.nodes[n];
      N.isLeaf && v in N.keys && (s.root == Some(n) || |N.keys| > t - 1)
    ensures var o, N := RemoveFrom(s, t, v, fuel), s.arena.nodes[n];
      var ks := o.state.arena.nodes[n].keys;
      o.fault.None? && o.state.root == s.root && o.state.arena.nodes.Keys == s.arena.nodes.Keys &&
      o.state.arena.nodes[n] == N.(keys := ks) &&
      |ks| == |N.keys| - 1 && multiset(ks) == multiset(N.keys) - multiset{v} &&
      (StrictlySorted(N.keys) ==> StrictlySorted(ks) && KeySet(ks) == KeySet(N.keys) - {v}) &&
      forall id :: id in s.arena.nodes && id != n ==> o.state.arena.nodes[id] == s.arena.nodes[id]
  {
    var N := s.arena.nodes[n];
    RemoveDirectStep(s, t, v, fuel, n);
    if StrictlySorted(N.keys) {
      RemoveSortedKey(N.keys, v);
    }
  }

  /** On that path `Remove` is one `Keys.Remove(value)` on the leaf found. */
  lemma RemoveDirectStep(s: State, t: int, v: int, fuel: nat, n: NodeId)
    requires WellFormed(s) && fuel > 0 && FindIn(s, v) == Ok(Some(n))
    requires var N := s.arena.nodes[n];
      N.isLeaf && v in N.keys && (s.root == Some(n) || |N.keys| > t - 1)
    ensures RemoveFrom(s, t, v, fuel) == Outcome(s.(arena := RemoveKeyFrom(s.arena, n, v)), None)
  {
  }

  /** A tree that is a single leaf stays a search-ordered single leaf, and loses
      exactly `value`. */
  lemma RemoveFromLeafRoot(s: State, t: int, v: int, fuel: nat)
    requires WellFormed(s) && fuel > 0 && SearchOrdered(s, 0) && v in Stored(s, 0)
    ensures var o := RemoveFrom(s, t, v, fuel);
      o.fault.None? && SearchOrdered(o.state, 0) && Stored(o.state, 0) == Stored(s, 0) - {v}
  {
    var n := s.root.value;
    LeafContent(s.arena, n);
    FindOnLeaf(s.arena, n, v, |s.arena.nodes|);
    RemoveDirect(s, t, v, fuel, n);
    var o := RemoveFrom(s, t, v, fuel);
    LeafContent(o.state.arena, n);
  }

  /** `Remove(value)` reaches the sibling cases (BTree.cs:109-111): the node found
      is a leaf holding `value`, neither the root nor above the minimum, with an
      internal parent that lists it among its children. */
  ghost predicate LeafUnderflow(s: State, t: int, v: int, n: NodeId) {
    WellFormed(s) && FindIn(s, v) == Ok(Some(n)) &&
    var N := s.arena.nodes[n];
    N.isLeaf && v in N.keys && s.root != Some(n) && |N.keys| <= t - 1 &&
    N.parent.Some? && N.parent.value in s.arena.nodes &&
    var P := s.arena.nodes[N.parent.value];
    !P.isLeaf && n in P.children
  }

  /** With a left sibling above the minimum, `Remove` borrows from it. */
  lemma BorrowLeftCall(s: State, t: int, v: int, fuel: nat, n: NodeId)
    requires LeafUnderflow(s, t, v, n) && fuel > 0
    requires var p := s.arena.nodes[n].parent.value;
      var cs := s.arena.nodes[p].children;
      var i := IndexOf(cs, n);
      i > 0 && cs[i - 1] in s.arena.nodes && |s.arena.nodes[cs[i - 1]].keys| > t - 1
    ensures var p := s.arena.nodes[n].parent.value;
      RemoveFrom(s, t, v, fuel) == BorrowLeft(s, n, p, IndexOf(s.arena.nodes[p].children, n), v)
  {
    RebalanceCall(s, t, v, fuel, n);
  }

  /** A borrow from the left sibling `nb` at position i-1 changes three nodes: the
      leaf drops `value` and takes the separator `Keys[i-1]`, the separator becomes
      the sibling's last key, and the sibling drops that key (BTree.cs:112-124). */
  lemma BorrowLeftRecords(s: State, n: NodeId, p: NodeId, i: nat, v: int)
    requires WellFormed(s) && n in s.arena.nodes && p in s.arena.nodes
    requires s.arena.nodes[n].isLeaf && !s.arena.nodes[p].isLeaf
    requires 0 < i < |s.arena.nodes[p].children| && s.arena.nodes[p].children[i] == n
    requires var nb := s.arena.nodes[p].children[i - 1];
      nb in s.arena.nodes && nb != n && s.arena.nodes[nb].isLeaf &&
      |s.arena.nodes[nb].keys| > 0 && i - 1 < |s.arena.nodes[p].keys|
    ensures var a, o := s.arena, BorrowLeft(s, n, p, i, v);
      var N, P := a.nodes[n], a.nodes[p];
      var nb := P.children[i - 1];
      var NB := a.nodes[nb];
      var kn, kp := NB.keys[|NB.keys| - 1], P.keys[i - 1];
      o.fault.None? && o.state.root == s.root && o.state.arena.nodes.Keys == a.nodes.Keys &&
      o.state.arena.nodes[n] == N.(keys := InsertSorted(RemoveFirst(N.keys, v), kp)) &&
      o.state.arena.nodes[p] == P.(keys := P.keys[i - 1 := kn]) &&
      o.state.arena.nodes[nb] == NB.(keys := RemoveFirst(NB.keys, kn)) &&
      forall id :: id in a.nodes && id != n && id != p && id != nb ==> o.state.arena.nodes[id] == a.nodes[id]
  {
  }

  /** The key lists a borrow from the left sibling produces under a node of
      height 1: the three nodes lose exactly `value` between them, all three stay
      ascending, and the new separator lies between the sibling and the leaf. */
  lemma BorrowLeftOrder(a: Arena, p: NodeId, i: int, v: int)
    requires p in a.nodes && 0 < i < |a.nodes[p].children| && i - 1 < |a.nodes[p].keys|
    requires a.nodes[p].children[i] in a.nodes && a.nodes[p].children[i - 1] in a.nodes
    requires var K, N, NB := a.nodes[p].keys, a.nodes[a.nodes[p].children[i]].keys, a.nodes[a.nodes[p].children[i - 1]].keys;
      StrictlySorted(K) && StrictlySorted(N) && StrictlySorted(NB) &&
      Separated(K, i, KeySet(N)) && Separated(K, i - 1, KeySet(NB)) && v in N && |NB| > 0
    ensures var P := a.nodes[p].keys;
      var N, NB := a.nodes[a.nodes[p].children[i]].keys, a.nodes[a.nodes[p].children[i - 1]].keys;
      var N', P', NB' := InsertSorted(RemoveFirst(N, v), P[i - 1]), P[i - 1 := NB[|NB| - 1]], RemoveFirst(NB, NB[|NB| - 1]);
      multiset(N') + multiset(P') + multiset(NB') == multiset(N) + multiset(P) + multiset(NB) - multiset{v} &&
      StrictlySorted(N') && StrictlySorted(P') && StrictlySorted(NB') &&
      Separated(P', i - 1, KeySet(NB')) && Separated(P', i, KeySet(N'))
  {
    var P := a.nodes[p];
    var N, NB := a.nodes[P.children[i]].keys, a.nodes[P.children[i - 1]].keys;
    BorrowFromLeft(NB, P.keys, N, i - 1, v);
  }

  /** What `BorrowLeft` does to the three nodes, with the order facts. */
  lemma BorrowLeftEffect(s: State, n: NodeId, p: NodeId, i: nat, v: int)
    requires WellFormed(s) && n in s.arena.nodes && p in s.arena.nodes
    requires s.arena.nodes[n].isLeaf && !s.arena.nodes[p].isLeaf
    requires 0 < i < |s.arena.nodes[p].children| && s.arena.nodes[p].children[i] == n
    requires var a, nb := s.arena, s.arena.nodes[p].children[i - 1];
      nb in a.nodes && nb != n && a.nodes[nb].isLeaf &&
      var K, N, NB := a.nodes[p].keys, a.nodes[n].keys, a.nodes[nb].keys;
      |NB| > 0 && i - 1 < |K| && v in N && StrictlySorted(K) && StrictlySorted(N) && StrictlySorted(NB) &&
      Separated(K, i, KeySet(N)) && Separated(K, i - 1, KeySet(NB))
    ensures var a, o := s.arena, BorrowLeft(s, n, p, i, v);
      var nb := a.nodes[p].children[i - 1];
      var N, P, NB := a.nodes[n].keys, a.nodes[p].keys, a.nodes[nb].keys;
      var N', P', NB' := o.state.arena.nodes[n].keys, o.state.arena.nodes[p].keys, o.state.arena.nodes[nb].keys;
      o.fault.None? && o.state.root == s.root && o.state.arena.nodes.Keys == a.nodes.Keys &&
      N' == InsertSorted(RemoveFirst(N, v), P[i - 1]) && P' == P[i - 1 := NB[|NB| - 1]] && NB' == RemoveFirst(NB, NB[|NB| - 1]) &&
      multiset(N') + multiset(P') + multiset(NB') == multiset(N) + multiset(P) + multiset(NB) - multiset{v} &&
      StrictlySorted(N') && StrictlySorted(P') && StrictlySorted(NB') &&
      Separated(P', i - 1, KeySet(NB')) && Separated(P', i, KeySet(N')) &&
      forall id :: id in a.nodes && id != n && id != p && id != nb ==> o.state.arena.nodes[id] == a.nodes[id]
  {
    BorrowLeftRecords(s, n, p, i, v);
    BorrowLeftOrder(s.arena, p, i, v);
  }

  /** With no left sibling above the minimum and a right sibling above it,
      `Remove` borrows from the right sibling. */
  lemma BorrowRightCall(s: State, t: int, v: int, fuel: nat, n: NodeId)
    requires LeafUnderflow(s, t, v, n) && fuel > 0
    requires var p := s.arena.nodes[n].parent.value;
      var cs := s.arena.nodes[p].children;
      var i := IndexOf(cs, n);
      (i == 0 || (cs[i - 1] in s.arena.nodes && |s.arena.nodes[cs[i - 1]].keys| <= t - 1)) &&
      i + 1 < |cs| && cs[i + 1] in s.arena.nodes && |s.arena.nodes[cs[i + 1]].keys| > t - 1
    ensures var p := s.arena.nodes[n].parent.value;
      RemoveFrom(s, t, v, fuel) == BorrowRight(s, n, p, IndexOf(s.arena.nodes[p].children, n), v)
  {
    RebalanceCall(s, t, v, fuel, n);
  }

  /** A borrow from the right sibling `nb` at position i+1 changes three nodes:
      the leaf drops `value` and takes the separator `Keys[i]`, the separator
      becomes the sibling's first key, and the sibling drops that key
      (BTree.cs:125-138). */
  lemma BorrowRightRecords(s: State, n: NodeId, p: NodeId, i: nat, v: int)
    requires WellFormed(s) && n in s.arena.nodes && p in s.arena.nodes
    requires s.arena.nodes[n].isLeaf && !s.arena.nodes[p].isLeaf
    requires i + 1 < |s.arena.nodes[p].children| && s.arena.nodes[p].children[i] == n
    requires var nb := s.arena.nodes[p].children[i + 1];
      nb in s.arena.nodes && nb != n && s.arena.nodes[nb].isLeaf &&
      |s.arena.nodes[nb].keys| > 0 && i < |s.arena.nodes[p].keys|
    ensures var a, o := s.arena, BorrowRight(s, n, p, i, v);
      var N, P := a.nodes[n], a.nodes[p];
      var nb := P.children[i + 1];
      var NB := a.nodes[nb];
      var kn, kp := NB.keys[0], P.keys[i];
      o.fault.None? && o.state.root == s.root && o.state.arena.nodes.Keys == a.nodes.Keys &&
      o.state.arena.nodes[n] == N.(keys := InsertSorted(RemoveFirst(N.keys, v), kp)) &&
      o.state.arena.nodes[p] == P.(keys := P.keys[i := kn]) &&
      o.state.arena.nodes[nb] == NB.(keys := RemoveFirst(NB.keys, kn)) &&
      forall id :: id in a.nodes && id != n && id != p && id != nb ==> o.state.arena.nodes[id] == a.nodes[id]
  {
  }

  /** The key lists a borrow from the right sibling produces: the three nodes
      lose exactly `value` between them, all three stay ascending, and the new
      separator lies between the leaf and the sibling. */
  lemma BorrowRightOrder(a: Arena, p: NodeId, i: int, v: int)
    requires p in a.nodes && 0 <= i && i + 1 < |a.nodes[p].children| && i < |a.nodes[p].keys|
    requires a.nodes[p].children[i] in a.nodes && a.nodes[p].children[i + 1] in a.nodes
    requires var K, N, NB := a.nodes[p].keys, a.nodes[a.nodes[p].children[i]].keys, a.nodes[a.nodes[p].children[i + 1]].keys;
      StrictlySorted(K) && StrictlySorted(N) && StrictlySorted(NB) &&
      Separated(K, i, KeySet(N)) && Separated(K, i + 1, KeySet(NB)) && v in N && |NB| > 0
    ensures var P := a.nodes[p].keys;
      var N, NB := a.nodes[a.nodes[p].children[i]].keys, a.nodes[a.nodes[p].children[i + 1]].keys;
      var N', P', NB' := InsertSorted(RemoveFirst(N, v), P[i]), P[i := NB[0]], RemoveFirst(NB, NB[0]);
      multiset(N') + multiset(P') + multiset(NB') == multiset(N) + multiset(P) + multiset(NB) - multiset{v} &&
      StrictlySorted(N') && StrictlySorted(P') && StrictlySorted(NB') &&
      Separated(P', i, KeySet(N')) && Separated(P', i + 1, KeySet(NB'))
  {
    var P := a.nodes[p];
    var N, NB := a.nodes[P.children[i]].keys, a.nodes[P.children[i + 1]].keys;
    BorrowFromRight(NB, P.keys, N, i, v);
  }

  /** What `BorrowRight` does to the three nodes, with the order facts. */
  lemma BorrowRightEffect(s: State, n: NodeId, p: NodeId, i: nat, v: int)
    requires WellFormed(s) && n in s.arena.nodes && p in s.arena.nodes
    requires s.arena.nodes[n].isLeaf && !s.arena.nodes[p].isLeaf
    requires i + 1 < |s.arena.nodes[p].children| && s.arena.nodes[p].children[i] == n
    requires var a, nb := s.arena, s.arena.nodes[p].children[i + 1];
      nb in a.nodes && a.nodes[nb].isLeaf &&
      var K, N, NB := a.nodes[p].keys, a.nodes[n].keys, a.nodes[nb].keys;
      |NB| > 0 && i < |K| && v in N && StrictlySorted(K) && StrictlySorted(N) && StrictlySorted(NB) &&
      Separated(K, i, KeySet(N)) && Separated(K, i + 1, KeySet(NB))
    ensures var a, o := s.arena, BorrowRight(s, n, p, i, v);
      var nb := a.nodes[p].children[i + 1];
      var N, P, NB := a.nodes[n].keys, a.nodes[p].keys, a.nodes[nb].keys;
      var N', P', NB' := o.state.arena.nodes[n].keys, o.state.arena.nodes[p].keys, o.state.arena.nodes[nb].keys;
      o.fault.None? && o.state.root == s.root && o.state.arena.nodes.Keys == a.nodes.Keys &&
      N' == InsertSorted(RemoveFirst(N, v), P[i]) && P' == P[i := NB[0]] && NB' == RemoveFirst(NB, NB[0]) &&
      multiset(N') + multiset(P') + multiset(NB') == multiset(N) + multiset(P) + multiset(NB) - multiset{v} &&
      StrictlySorted(N') && StrictlySorted(P') && StrictlySorted(NB') &&
      Separated(P', i, KeySet(N')) && Separated(P', i + 1, KeySet(NB')) &&
      forall id :: id in a.nodes && id != n && id != p && id != nb ==> o.state.arena.nodes[id] == a.nodes[id]
  {
    var a := s.arena;
    var nb := a.nodes[p].children[i + 1];
    assert v in KeySet(a.nodes[n].keys);
    assert nb != n;
    BorrowRightRecords(s, n, p, i, v);
    BorrowRightOrder(a, p, i, v);
  }

  /** `Remove` goes to the leaf branch when the node found is a leaf holding `value`. */
  lemma LeafCall(s: State, t: int, v: int, fuel: nat, n: NodeId)
    requires WellFormed(s) && FindIn(s, v) == Ok(Some(n)) && fuel > 0
    requires s.arena.nodes[n].isLeaf && v in s.arena.nodes[n].keys
    ensures RemoveFrom(s, t, v, fuel) == RemoveFromLeaf(s, t, n, v, fuel)
  {
  }

  /** `Remove` on a leaf at the minimum that is not the root finds the leaf's
      position among its parent's children and rebalances (BTree.cs:101-111). */
  lemma RebalanceCall(s: State, t: int, v: int, fuel: nat, n: NodeId)
    requires LeafUnderflow(s, t, v, n) && fuel > 0
    ensures var p := s.arena.nodes[n].parent.value;
      RemoveFrom(s, t, v, fuel) == Rebalance(s, t, n, p, IndexOf(s.arena.nodes[p].children, n), v, fuel)
  {
    LeafCall(s, t, v, fuel, n);
  }

  /** A merge with the left sibling `nb` at position i-1 (BTree.cs:144-153), up to
      the nested `Remove` of the separator `Keys[i-1]`: the leaf drops `value`; a
      fresh leaf holds the sibling's keys, the leaf's remaining keys and the
      separator; it replaces the leaf at position i of the parent, while the
      sibling stays at position i-1. After the nested `Remove`, the parent of
      the leaf drops the leaf itself from its children (BTree.cs:154). */
  lemma MergeLeftRecords(s: State, t: int, n: NodeId, p: NodeId, i: nat, v: int, fuel: nat) returns (a4: Arena, m: NodeId)
    requires WellFormed(s) && n in s.arena.nodes && p in s.arena.nodes && fuel > 0
    requires s.arena.nodes[n].isLeaf && !s.arena.nodes[p].isLeaf && s.arena.nodes[n].parent == Some(p)
    requires 0 < i < |s.arena.nodes[p].children| && s.arena.nodes[p].children[i] == n && i - 1 < |s.arena.nodes[p].keys|
    requires var nb := s.arena.nodes[p].children[i - 1];
      nb in s.arena.nodes && nb != n && s.arena.nodes[nb].isLeaf && s.arena.nodes[nb].parent == Some(p) &&
      v in s.arena.nodes[n].keys && |s.arena.nodes[nb].keys| + |s.arena.nodes[n].keys| <= 2 * t
    ensures var a, N, P := s.arena, s.arena.nodes[n], s.arena.nodes[p];
      var NB := a.nodes[P.children[i - 1]];
      m !in a.nodes && Closed(a4) && a4.nodes.Keys == a.nodes.Keys + {m} &&
      a4.nodes[m] == NodeRec(true, InsertSorted(NB.keys + RemoveFirst(N.keys, v), P.keys[i - 1]), [], Some(p)) &&
      a4.nodes[p] == P.(children := P.children[i := m]) &&
      a4.nodes[n] == N.(keys := RemoveFirst(N.keys, v)) &&
      (forall id :: id in a.nodes && id != p && id != n ==> a4.nodes[id] == a.nodes[id]) &&
      MergeLeft(s, t, n, p, i, v, fuel) ==
        var o := RemoveFrom(State(a4, s.root), t, P.keys[i - 1], Spent(fuel));
        if o.fault.Some? then o else DropChild(o.state, n, n)
  {
    var a, P := s.arena, s.arena.nodes[p];
    var b := MergeLeftCall(s, t, n, p, i, v, fuel);
    m := b.result.value;
    UpdateMembers(P.children, i, m);
    assert b.arena.nodes[p] == P;
    var a3 := AddKeyTo(b.arena, m, P.keys[i - 1]);
    assert a3.nodes[p] == P && a3.nodes[n] == b.arena.nodes[n];
    a4 := WithChildren(a3, p, P.children[i := m]);
    MergeLeftRestCall(s, b.arena, t, n, p, m, i, fuel);
    assert MergeLeft(s, t, n, p, i, v, fuel) == MergeLeftRest(s, b.arena, t, n, m, i, fuel);
  }

  /** The merge of the sibling and the leaf without `value` succeeds, and the
      merge with the left sibling goes on with the merged node. */
  lemma MergeLeftCall(s: State, t: int, n: NodeId, p: NodeId, i: nat, v: int, fuel: nat) returns (b: Built<NodeId>)
    requires WellFormed(s) && n in s.arena.nodes && p in s.arena.nodes && fuel > 0
    requires s.arena.nodes[n].isLeaf && !s.arena.nodes[p].isLeaf && s.arena.nodes[n].parent == Some(p)
    requires 0 < i < |s.arena.nodes[p].children| && s.arena.nodes[p].children[i] == n
    requires var nb := s.arena.nodes[p].children[i - 1];
      nb in s.arena.nodes && nb != n && s.arena.nodes[nb].isLeaf && s.arena.nodes[nb].parent == Some(p) &&
      v in s.arena.nodes[n].keys && |s.arena.nodes[nb].keys| + |s.arena.nodes[n].keys| <= 2 * t
    ensures b == Merge(RemoveKeyFrom(s.arena, n, v), s.arena.nodes[p].children[i - 1], n, t) && b.result.Ok?
    ensures var a, N, m := s.arena, s.arena.nodes[n], b.result.value;
      m !in a.nodes && Closed(b.arena) && b.arena.nodes.Keys == a.nodes.Keys + {m} &&
      b.arena.nodes[m] == NodeRec(true, a.nodes[a.nodes[p].children[i - 1]].keys + RemoveFirst(N.keys, v), [], Some(p)) &&
      b.arena.nodes[n] == N.(keys := RemoveFirst(N.keys, v)) &&
      forall id :: id in a.nodes && id != n ==> b.arena.nodes[id] == a.nodes[id]
    ensures MergeLeft(s, t, n, p, i, v, fuel) == MergeLeftRest(s, b.arena, t, n, b.result.value, i, fuel)
  {
    b := Merge(RemoveKeyFrom(s.arena, n, v), s.arena.nodes[p].children[i - 1], n, t);
  }

  /** Once the merged node `m` exists and the leaf's parent `p` passes the checks,
      the rest of the merge with the left sibling is the nested `Remove` of the
      separator on the arena where `m` holds it and replaces the leaf, then the
      parent's `Children.Remove(node)`. */
  lemma MergeLeftRestCall(s: State, a2: Arena, t: int, n: NodeId, p: NodeId, m: NodeId, i: nat, fuel: nat)
    requires WellFormed(s) && Closed(a2) && s.arena.nodes.Keys <= a2.nodes.Keys
    requires n in a2.nodes && m in a2.nodes && p in a2.nodes && 0 < i && fuel > 0
    requires a2.nodes[n].parent == Some(p) && !a2.nodes[p].isLeaf
    requires i - 1 < |a2.nodes[p].keys| && i < |a2.nodes[p].children|
    ensures var kp, cs := a2.nodes[p].keys[i - 1], a2.nodes[p].children;
      var a4 := WithChildren(AddKeyTo(a2, m, kp), p, cs[i := m]);
      MergeLeftRest(s, a2, t, n, m, i, fuel) ==
        var o := RemoveFrom(State(a4, s.root), t, kp, Spent(fuel));
        if o.fault.Some? then o else DropChild(o.state, n, n)
  {
  }

  /** A merge with the right sibling `nb` at position i+1 (BTree.cs:157-167), up
      to the nested `Remove` of the separator `Keys[i]`: the leaf drops `value`; a
      fresh leaf holds the leaf's remaining keys and the sibling's keys; it
      replaces the sibling at position i+1 of the parent, while the leaf stays at
      position i. After the nested `Remove`, the fresh leaf takes the separator
      and the parent of the leaf drops the sibling from its children
      (BTree.cs:167-168). */
  lemma MergeRightRecords(s: State, t: int, n: NodeId, p: NodeId, i: nat, v: int, fuel: nat) returns (a3: Arena, m: NodeId)
    requires WellFormed(s) && n in s.arena.nodes && p in s.arena.nodes && fuel > 0
    requires s.arena.nodes[n].isLeaf && !s.arena.nodes[p].isLeaf && s.arena.nodes[n].parent == Some(p)
    requires i + 1 < |s.arena.nodes[p].children| && s.arena.nodes[p].children[i] == n && i < |s.arena.nodes[p].keys|
    requires var nb := s.arena.nodes[p].children[i + 1];
      nb in s.arena.nodes && nb != n && s.arena.nodes[nb].isLeaf && s.arena.nodes[nb].parent == Some(p) &&
      v in s.arena.nodes[n].keys && |s.arena.nodes[nb].keys| + |s.arena.nodes[n].keys| <= 2 * t
    ensures var a, N, P := s.arena, s.arena.nodes[n], s.arena.nodes[p];
      var nb := P.children[i + 1];
      m !in a.nodes && Closed(a3) && a3.nodes.Keys == a.nodes.Keys + {m} &&
      a3.nodes[m] == NodeRec(true, RemoveFirst(N.keys, v) + a.nodes[nb].keys, [], Some(p)) &&
      a3.nodes[p] == P.(children := P.children[i + 1 := m]) &&
      a3.nodes[n] == N.(keys := RemoveFirst(N.keys, v)) &&
      (forall id :: id in a.nodes && id != p && id != n ==> a3.nodes[id] == a.nodes[id]) &&
      MergeRight(s, t, n, p, i, v, fuel) ==
        var o := RemoveFrom(State(a3, s.root), t, P.keys[i], Spent(fuel));
        if o.fault.Some? then o
        else DropChild(o.state.(arena := AddKeyTo(o.state.arena, m, P.keys[i])), n, nb)
  {
    var a, P := s.arena, s.arena.nodes[p];
    var nb := P.children[i + 1];
    var b := MergeRightCall(s, t, n, p, i, v, fuel);
    m := b.result.value;
    UpdateMembers(P.children, i + 1, m);
    a3 := WithChildren(b.arena, p, P.children[i + 1 := m]);
    MergeRightRestCall(s, b.arena, t, n, p, m, nb, i, fuel);
  }

  /** The merge of the leaf without `value` and the right sibling succeeds, and
      the merge with the right sibling goes on with the merged node. */
  lemma MergeRightCall(s: State, t: int, n: NodeId, p: NodeId, i: nat, v: int, fuel: nat) returns (b: Built<NodeId>)
    requires WellFormed(s) && n in s.arena.nodes && p in s.arena.nodes && fuel > 0
    requires s.arena.nodes[n].isLeaf && !s.arena.nodes[p].isLeaf && s.arena.nodes[n].parent == Some(p)
    requires i + 1 < |s.arena.nodes[p].children| && s.arena.nodes[p].children[i] == n
    requires var nb := s.arena.nodes[p].children[i + 1];
      nb in s.arena.nodes && nb != n && s.arena.nodes[nb].isLeaf && s.arena.nodes[nb].parent == Some(p) &&
      v in s.arena.nodes[n].keys && |s.arena.nodes[nb].keys| + |s.arena.nodes[n].keys| <= 2 * t
    ensures var nb := s.arena.nodes[p].children[i + 1];
      b == Merge(RemoveKeyFrom(s.arena, n, v), n, nb, t) && b.result.Ok? &&
      MergeRight(s, t, n, p, i, v, fuel) == MergeRightRest(s, b.arena, t, n, b.result.value, nb, i, fuel)
  {
    b := Merge(RemoveKeyFrom(s.arena, n, v), n, s.arena.nodes[p].children[i + 1], t);
  }

  /** Once the merged node `m` exists and the leaf's parent `p` passes the checks,
      the rest of the merge with the right sibling is the nested `Remove` of the
      separator on the arena where `m` replaces the sibling, then `m` takes the
      separator and the parent's `Children.Remove(neighbour)`. */
  lemma MergeRightRestCall(s: State, a2: Arena, t: int, n: NodeId, p: NodeId, m: NodeId, nb: NodeId, i: nat, fuel: nat)
    requires WellFormed(s) && Closed(a2) && s.arena.nodes.Keys <= a2.nodes.Keys
    requires n in a2.nodes && m in a2.nodes && p in a2.nodes && fuel > 0
    requires a2.nodes[n].parent == Some(p) && !a2.nodes[p].isLeaf
    requires i < |a2.nodes[p].keys| && i + 1 < |a2.nodes[p].children|
    ensures var kp, cs := a2.nodes[p].keys[i], a2.nodes[p].children;
      var a3 := WithChildren(a2, p, cs[i + 1 := m]);
      MergeRightRest(s, a2, t, n, m, nb, i, fuel) ==
        var o := RemoveFrom(State(a3, s.root), t, kp, Spent(fuel));
        if o.fault.Some? then o else DropChild(o.state.(arena := AddKeyTo(o.state.arena, m, kp)), n, nb)
  {
  }

  /** With no sibling above the minimum and the root as a parent of two
      children, `Remove` collapses the root (BTree.cs:139-143). */
  lemma CollapseRootCall(s: State, t: int, v: int, fuel: nat, n: NodeId)
    requires LeafUnderflow(s, t, v, n) && fuel > 0
    requires var p := s.arena.nodes[n].parent.value;
      var cs := s.arena.nodes[p].children;
      var i := IndexOf(cs, n);
      (i == 0 || (cs[i - 1] in s.arena.nodes && |s.arena.nodes[cs[i - 1]].keys| <= t - 1)) &&
      (i + 1 == |cs| || (cs[i + 1] in s.arena.nodes && |s.arena.nodes[cs[i + 1]].keys| <= t - 1)) &&
      s.root == Some(p) && |cs| == 2
    ensures RemoveFrom(s, t, v, fuel) == CollapseRoot(s, t, n, s.arena.nodes[n].parent.value, v)
  {
    RebalanceCall(s, t, v, fuel, n);
  }

  /** With no sibling above the minimum, a left sibling, and no root of two
      children as the parent, `Remove` merges with the left sibling (BTree.cs:144). */
  lemma MergeLeftChosen(s: State, t: int, v: int, fuel: nat, n: NodeId)
    requires LeafUnderflow(s, t, v, n) && fuel > 0
    requires var p := s.arena.nodes[n].parent.value;
      var cs := s.arena.nodes[p].children;
      var i := IndexOf(cs, n);
      0 < i && cs[i - 1] in s.arena.nodes && |s.arena.nodes[cs[i - 1]].keys| <= t - 1 &&
      (i + 1 == |cs| || (cs[i + 1] in s.arena.nodes && |s.arena.nodes[cs[i + 1]].keys| <= t - 1)) &&
      !(s.root == Some(p) && |cs| == 2)
    ensures var p := s.arena.nodes[n].parent.value;
      RemoveFrom(s, t, v, fuel) == MergeLeft(s, t, n, p, IndexOf(s.arena.nodes[p].children, n), v, fuel)
  {
    RebalanceCall(s, t, v, fuel, n);
  }

  /** With no sibling above the minimum, the leaf first among its siblings, and
      no root of two children as the parent, `Remove` merges with the right
      sibling (BTree.cs:157). */
  lemma MergeRightChosen(s: State, t: int, v: int, fuel: nat, n: NodeId)
    requires LeafUnderflow(s, t, v, n) && fuel > 0
    requires var p := s.arena.nodes[n].parent.value;
      var cs := s.arena.nodes[p].children;
      IndexOf(cs, n) == 0 && (|cs| == 1 || (cs[1] in s.arena.nodes && |s.arena.nodes[cs[1]].keys| <= t - 1)) &&
      !(s.root == Some(p) && |cs| == 2)
    ensures var p := s.arena.nodes[n].parent.value;
      RemoveFrom(s, t, v, fuel) == MergeRight(s, t, n, p, 0, v, fuel)
  {
    RebalanceCall(s, t, v, fuel, n);
  }

  /** Collapsing a search-ordered root of height 1 whose two leaves and single
      key fit in one node: the new root is a fresh leaf, the tree is one level
      lower, still search-ordered, and holds every key but `value`. */
  lemma CollapseRootEffect(s: State, t: int, n: NodeId, v: int)
    requires WellFormed(s) && SearchOrdered(s, 1) && n in s.arena.nodes
    requires var P := s.arena.nodes[s.root.value];
      P.parent.None? && |P.children| == 2 && n in P.children && v in s.arena.nodes[n].keys &&
      P.children[0] in s.arena.nodes && P.children[1] in s.arena.nodes &&
      |s.arena.nodes[P.children[0]].keys| + |P.keys| + |s.arena.nodes[P.children[1]].keys| <= 2 * t
    ensures var o := CollapseRoot(s, t, n, s.root.value, v);
      o.fault.None? && o.state.root.Some? && o.state.root.value !in s.arena.nodes &&
      SearchOrdered(o.state, 0) && Stored(o.state, 0) == Stored(s, 1) - {v}
  {
    var a, p := s.arena, s.root.value;
    var P := a.nodes[p];
    var c0, c1 := P.children[0], P.children[1];
    LeafChild(a, p, 0);
    LeafChild(a, p, 1);
    assert P.keys == [P.keys[0]];
    var k := P.keys[0];
    var L, R := a.nodes[c0].keys, a.nodes[c1].keys;
    assert P.children == [c0, c1];
    ChildContentPair(a, c0, c1, 0);
    LeafContent(a, c0);
    LeafContent(a, c1);
    assert Stored(s, 1) == KeySet(L) + {k} + KeySet(R);
    assert v in KeySet(a.nodes[n].keys);
    assert c0 != c1;
    var a1 := RemoveKeyFrom(a, n, v);
    DropAndJoin(L, k, R, v, n == c0);
    var b := MergeWithRoot(a1, p, t);
    var m := b.result.value;
    LeafContent(b.arena, m);
  }
}
