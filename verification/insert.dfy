/** `Insert` and `RebuildRoot` of `BTree<T>` (BTree/BTree/BTree.cs:25-92) as
    functions of the tree state. */
module Insertion {
  import opened Wrappers
  import opened Lists
  import opened Keys
  import opened Node
  import opened Search
  import opened TreeState

  /** `node.AddKey(value)` on the node `n` of the arena. */
  function AddKeyTo(a: Arena, n: NodeId, v: int): (r: Arena)
    requires Closed(a) && n in a.nodes
    ensures Closed(r) && r.next == a.next && r.nodes.Keys == a.nodes.Keys
    ensures r.nodes[n] == a.nodes[n].(keys := InsertSorted(a.nodes[n].keys, v))
    ensures forall id :: id in a.nodes && id != n ==> r.nodes[id] == a.nodes[id]
  {
    WithKeys(a, n, InsertSorted(a.nodes[n].keys, v))
  }

  /** The key `v` goes into the left half of a split when it is smaller than the
      middle key, into the right half otherwise (BTree.cs:61-64, 86-89). */
  function Side(parts: Parts, v: int): NodeId {
    if v < parts.middle then parts.left else parts.right
  }

  /** One pass of the split loop (BTree.cs:52-67): split `n`, find it among its
      parent's children, put the left half in its place and the right half just
      after it, and add `v` to the half its comparison with the middle key picks.
      The result is the parent and the middle key, the next node and key of the loop. */
  function SplitStep(a: Arena, t: int, n: NodeId, v: int): (r: Built<(NodeId, int)>)
    requires Closed(a) && n in a.nodes
    ensures Closed(r.arena) && a.nodes.Keys <= r.arena.nodes.Keys && a.next <= r.arena.next
    ensures r.result.Ok? ==> r.result.value.0 in r.arena.nodes
  {
    var b := Split(a, n, t);
    match b.result
    case Err(f) => Built(b.arena, Err(f))
    case Ok(parts) => Hang(b.arena, n, parts, v)
  }

  /** The rest of the pass once `n` is split into `parts` (BTree.cs:54-67). */
  function Hang(a1: Arena, n: NodeId, parts: Parts, v: int): (r: Built<(NodeId, int)>)
    requires Closed(a1) && n in a1.nodes && parts.left in a1.nodes && parts.right in a1.nodes
    ensures Closed(r.arena) && a1.nodes.Keys == r.arena.nodes.Keys && a1.next == r.arena.next
    ensures r.result.Ok? ==> r.result.value.0 in r.arena.nodes
  {
    var p := a1.nodes[n].parent;
    RefsInArena(a1, n);
    if p.None? then Built(a1, Err(NullReference))
    else
      var P := a1.nodes[p.value];
      if P.isLeaf then Built(a1, Err(NullReference))
      else
        var i := IndexOf(P.children, n);
        if i == |P.children| then Built(a1, Err(IndexOutOfRange))
        else Built(AddKeyTo(HangHalves(a1, p.value, i, parts), Side(parts, v), v), Ok((p.value, parts.middle)))
  }

  /** `parent.Children[index] = left; parent.Children.Insert(index + 1, right)`
      (BTree.cs:58-59). */
  function HangHalves(a1: Arena, p: NodeId, i: int, parts: Parts): (r: Arena)
    requires Closed(a1) && p in a1.nodes && parts.left in a1.nodes && parts.right in a1.nodes
    requires 0 <= i < |a1.nodes[p].children|
    ensures Closed(r) && a1.nodes.Keys == r.nodes.Keys && a1.next == r.next
    ensures r.nodes[p] == a1.nodes[p].(children := InsertAt(a1.nodes[p].children[i := parts.left], i + 1, parts.right))
    ensures forall id :: id in a1.nodes && id != p ==> r.nodes[id] == a1.nodes[id]
  {
    RefsInArena(a1, p);
    UpdateMembers(a1.nodes[p].children, i, parts.left);
    WithChildren(a1, p, InsertAt(a1.nodes[p].children[i := parts.left], i + 1, parts.right))
  }

  /** `RebuildRoot(newRootValue)` (BTree.cs:73-92): a new internal root holding
      `v` becomes the old root's parent; the old root is split, its halves become
      the new root's two children, the middle key replaces `v` in the new root, and
      `v` goes into the half its comparison selects. */
  function RebuildRoot(s: State, t: int, v: int): (o: Outcome)
    requires WellFormed(s)
    ensures WellFormed(o.state) && s.arena.nodes.Keys <= o.state.arena.nodes.Keys
    ensures s.root.None? <==> o == Outcome(s, Some(InvariantViolation))
  {
    if s.root.None? then Outcome(s, Some(InvariantViolation))
    else
      var root := s.root.value;
      var (a1, nr) := NewNode(s.arena, v, false);
      var a2 := WithParent(a1, root, Some(nr));
      var b := Split(a2, root, t);
      match b.result
      case Err(f) => Outcome(s.(arena := b.arena), Some(f))
      case Ok(parts) => Outcome(State(Attach(b.arena, nr, parts, v), Some(nr)), None)
  }

  /** The end of `RebuildRoot` (BTree.cs:82-89): the halves become the children of
      `nr`, the middle key its first key, and `v` goes into one half. */
  function Attach(a: Arena, nr: NodeId, parts: Parts, v: int): (r: Arena)
    requires Closed(a) && nr in a.nodes && parts.left in a.nodes && parts.right in a.nodes
    requires |a.nodes[nr].keys| > 0
    ensures Closed(r) && r.nodes.Keys == a.nodes.Keys && r.next == a.next
    ensures nr != parts.left && nr != parts.right && parts.left != parts.right ==>
      var N := a.nodes[nr];
      r.nodes[nr] == N.(keys := N.keys[0 := parts.middle], children := N.children + [parts.left, parts.right]) &&
      r.nodes[Side(parts, v)] == a.nodes[Side(parts, v)].(keys := InsertSorted(a.nodes[Side(parts, v)].keys, v)) &&
      forall id :: id in a.nodes && id != nr && id != Side(parts, v) ==> r.nodes[id] == a.nodes[id]
  {
    RefsInArena(a, nr);
    var a3 := WithChildren(a, nr, a.nodes[nr].children + [parts.left, parts.right]);
    var a4 := WithKeys(a3, nr, a3.nodes[nr].keys[0 := parts.middle]);
    AddKeyTo(a4, Side(parts, v), v)
  }

  /** The split loop of `Insert` (BTree.cs:44-70) from node `n` with pending key
      `v`: while the node is full, either rebuild the root (no parent) or split
      and carry the middle key up; then add the pending key. `fuel` bounds the
      number of splits. */
  function Climb(s: State, t: int, n: NodeId, v: int, fuel: nat): (o: Outcome)
    requires WellFormed(s) && n in s.arena.nodes
    ensures WellFormed(o.state) && s.arena.nodes.Keys <= o.state.arena.nodes.Keys
    decreases fuel
  {
    var node := s.arena.nodes[n];
    if |node.keys| != 2 * t - 1 then Outcome(s.(arena := AddKeyTo(s.arena, n, v)), None)
    else if node.parent.None? then RebuildRoot(s, t, v)
    else if fuel == 0 then Outcome(s, Some(NoTermination))
    else
      var b := SplitStep(s.arena, t, n, v);
      match b.result
      case Err(f) => Outcome(s.(arena := b.arena), Some(f))
      case Ok(next) => Climb(s.(arena := b.arena), t, next.0, next.1, Spent(fuel))
  }

  /** `Insert(value)` (BTree.cs:25-71): a single-key leaf root on an empty tree,
      nothing when the node found already holds `value`, a sorted insert when it
      has fewer than 2t-1 keys, and the split loop otherwise. */
  function InsertInto(s: State, t: int, v: int): (o: Outcome)
    requires WellFormed(s)
    ensures WellFormed(o.state) && s.arena.nodes.Keys <= o.state.arena.nodes.Keys
  {
    match FindIn(s, v)
    case Err(f) => Outcome(s, Some(f))
    case Ok(None) =>
      var (a1, id) := NewNode(s.arena, v, true);
      Outcome(State(a1, Some(id)), None)
    case Ok(Some(n)) =>
      var node := s.arena.nodes[n];
      if v in node.keys then Outcome(s, None)
      else if |node.keys| < 2 * t - 1 then Outcome(s.(arena := AddKeyTo(s.arena, n, v)), None)
      else Climb(s, t, n, v, |s.arena.nodes|)
  }

  /** One pass of the split loop: on a full node with a parent, `Climb` goes on
      from the node and key that the split step returns, in the state it leaves. */
  lemma ClimbPass(s: State, s2: State, t: int, n: NodeId, v: int, fuel: nat, rest: nat, n2: NodeId, v2: int)
    requires WellFormed(s) && n in s.arena.nodes && fuel > 0 && rest == Spent(fuel)
    requires |s.arena.nodes[n].keys| == 2 * t - 1 && s.arena.nodes[n].parent.Some?
    requires Built(s2.arena, Ok((n2, v2))) == SplitStep(s.arena, t, n, v) && s2.root == s.root
    ensures WellFormed(s2) && n2 in s2.arena.nodes
    ensures Climb(s2, t, n2, v2, rest) == Climb(s, t, n, v, fuel)
  {
    ClimbSplits(s, t, n, v, fuel);
    var b := SplitStep(s.arena, t, n, v);
    assert b.arena == s2.arena && b.result.value.0 == n2 && b.result.value.1 == v2;
    assert s.(arena := b.arena) == s2;
  }

  /** A full node with a parent whose split step succeeds: `Climb` goes on from
      the node and key that step returns. */
  lemma ClimbSplits(s: State, t: int, n: NodeId, v: int, fuel: nat)
    requires WellFormed(s) && n in s.arena.nodes && fuel > 0
    requires |s.arena.nodes[n].keys| == 2 * t - 1 && s.arena.nodes[n].parent.Some?
    requires SplitStep(s.arena, t, n, v).result.Ok?
    ensures var b := SplitStep(s.arena, t, n, v);
      b.result.value.0 in b.arena.nodes &&
      Climb(s, t, n, v, fuel) == Climb(s.(arena := b.arena), t, b.result.value.0, b.result.value.1, Spent(fuel))
  {
  }

  /** The ways out of the split loop: a node with room takes the pending key, a
      full root is rebuilt, the passes run out, or a pass throws. */
  lemma ClimbExits(s: State, t: int, n: NodeId, v: int, fuel: nat)
    requires WellFormed(s) && n in s.arena.nodes
    ensures |s.arena.nodes[n].keys| != 2 * t - 1 ==>
      Climb(s, t, n, v, fuel) == Outcome(s.(arena := AddKeyTo(s.arena, n, v)), None)
    ensures |s.arena.nodes[n].keys| == 2 * t - 1 && s.arena.nodes[n].parent.None? ==>
      Climb(s, t, n, v, fuel) == RebuildRoot(s, t, v)
    ensures |s.arena.nodes[n].keys| == 2 * t - 1 && s.arena.nodes[n].parent.Some? && fuel == 0 ==>
      Climb(s, t, n, v, fuel) == Outcome(s, Some(NoTermination))
    ensures (|s.arena.nodes[n].keys| == 2 * t - 1 && s.arena.nodes[n].parent.Some? && fuel > 0 &&
             SplitStep(s.arena, t, n, v).result.Err?) ==>
        var b := SplitStep(s.arena, t, n, v);
        Climb(s, t, n, v, fuel) == Outcome(s.(arena := b.arena), Some(b.result.fault))
  {
  }

  // Properties of insertion.

  /** Inserting into an empty tree makes a single-key leaf the root: a search
      tree of height 0 that stores exactly `value`. */
  lemma InsertIntoEmpty(s: State, t: int, v: int)
    requires WellFormed(s) && s.root.None?
    ensures var o := InsertInto(s, t, v);
      o.fault.None? && o.state.root.Some? && o.state.root.value !in s.arena.nodes &&
      o.state.arena.nodes[o.state.root.value] == NodeRec(true, [v], [], None) &&
      Extends(s.arena, o.state.arena) &&
      SearchOrdered(o.state, 0) && Stored(o.state, 0) == {v}
  {
    var o := InsertInto(s, t, v);
    var r := o.state.root.value;
    assert Content(o.state.arena, r, 0) == KeySet([v]);
  }

  /** Inserting a key that `Contains` reports present changes nothing. */
  lemma InsertPresent(s: State, t: int, v: int)
    requires WellFormed(s) && ContainsIn(s, v) == Ok(true)
    ensures InsertInto(s, t, v) == Outcome(s, None)
  {
  }

  /** On a search-ordered tree, inserting a key the tree already stores changes nothing. */
  lemma InsertStored(s: State, d: nat, t: int, v: int)
    requires WellFormed(s) && SearchOrdered(s, d) && v in Stored(s, d)
    ensures InsertInto(s, t, v) == Outcome(s, None)
  {
    ContainsIsMembership(s, d, v);
  }

  /** Inserting into a node with fewer than 2t-1 keys that does not hold `value`
      puts `value` in front of that node's first key not smaller than it and
      changes no other node; ascending keys stay ascending. */
  lemma InsertWithRoom(s: State, t: int, v: int, n: NodeId)
    requires WellFormed(s) && FindIn(s, v) == Ok(Some(n))
    requires v !in s.arena.nodes[n].keys && |s.arena.nodes[n].keys| < 2 * t - 1
    ensures var o, N := InsertInto(s, t, v), s.arena.nodes[n];
      var k := FirstNotLess(N.keys, v);
      o.fault.None? && o.state.root == s.root &&
      o.state.arena.nodes.Keys == s.arena.nodes.Keys &&
      o.state.arena.nodes[n] == N.(keys := N.keys[..k] + [v] + N.keys[k..]) &&
      multiset(o.state.arena.nodes[n].keys) == multiset(N.keys) + multiset{v} &&
      (forall id :: id in s.arena.nodes && id != n ==> o.state.arena.nodes[id] == s.arena.nodes[id]) &&
      (StrictlySorted(N.keys) ==> StrictlySorted(o.state.arena.nodes[n].keys))
  {
    var N := s.arena.nodes[n];
    if StrictlySorted(N.keys) {
      InsertSortedKeepsOrder(N.keys, v);
    }
  }

  /** `nr` roots, in `b`, the full leaf with keys `ks` grown by one level: it is a
      parentless internal node holding only the middle key `Keys[t-1]`, whose two
      leaf children point back at it and hold `Keys[0, t-1)` and `Keys[t, 2t-1)`,
      with `value` added to the one its comparison with the middle key selects. */
  ghost predicate GrownLeafRoot(b: Arena, nr: NodeId, ks: seq<int>, t: int, v: int) {
    t >= 1 && |ks| == 2 * t - 1 && nr in b.nodes &&
    var R, mid := b.nodes[nr], ks[t - 1];
    !R.isLeaf && R.keys == [mid] && |R.children| == 2 && R.parent.None? &&
    R.children[0] in b.nodes && R.children[1] in b.nodes && R.children[0] != R.children[1] &&
    var L, Rt := b.nodes[R.children[0]], b.nodes[R.children[1]];
    L == NodeRec(true, if v < mid then InsertSorted(ks[..t - 1], v) else ks[..t - 1], [], Some(nr)) &&
    Rt == NodeRec(true, if v < mid then ks[t..] else InsertSorted(ks[t..], v), [], Some(nr))
  }

  /** Inserting into a full leaf root (2t-1 keys, no parent) grows the tree by one
      level (`GrownLeafRoot`), under a root that is a fresh node. */
  lemma InsertSplitsRoot(s: State, t: int, v: int)
    requires WellFormed(s) && s.root.Some? && t >= 1
    requires var N := s.arena.nodes[s.root.value];
      N.isLeaf && N.parent.None? && |N.keys| == 2 * t - 1 && v !in N.keys
    ensures var o := InsertInto(s, t, v);
      o.fault.None? && o.state.root.Some? && o.state.root.value !in s.arena.nodes &&
      GrownLeafRoot(o.state.arena, o.state.root.value, s.arena.nodes[s.root.value].keys, t, v)
  {
    var a, root := s.arena, s.root.value;
    FindOnLeaf(a, root, v, |a.nodes|);
    assert InsertInto(s, t, v) == Climb(s, t, root, v, |a.nodes|) == RebuildRoot(s, t, v);
    RebuildLeafRoot(s, t, v);
  }

  /** `RebuildRoot` on a full leaf root. */
  lemma RebuildLeafRoot(s: State, t: int, v: int)
    requires WellFormed(s) && s.root.Some? && t >= 1
    requires var N := s.arena.nodes[s.root.value];
      N.isLeaf && |N.keys| == 2 * t - 1
    ensures var o := RebuildRoot(s, t, v);
      o.fault.None? && o.state.root.Some? && o.state.root.value !in s.arena.nodes &&
      GrownLeafRoot(o.state.arena, o.state.root.value, s.arena.nodes[s.root.value].keys, t, v)
  {
    var a, root := s.arena, s.root.value;
    var (a1, nr) := NewNode(a, v, false);
    var a2 := WithParent(a1, root, Some(nr));
    SplitFullLeaf(a2, root, t);
    var b := Split(a2, root, t);
    assert RebuildRoot(s, t, v) == Outcome(State(Attach(b.arena, nr, b.result.value, v), Some(nr)), None);
    AttachLeaves(b.arena, nr, b.result.value, a.nodes[root].keys, t, v);
  }

  /** Hanging the two halves of a split leaf under the new root `nr`. */
  lemma AttachLeaves(a: Arena, nr: NodeId, parts: Parts, ks: seq<int>, t: int, v: int)
    requires Closed(a) && nr in a.nodes && parts.left in a.nodes && parts.right in a.nodes
    requires nr != parts.left && nr != parts.right && parts.left != parts.right
    requires t >= 1 && |ks| == 2 * t - 1 && parts.middle == ks[t - 1]
    requires a.nodes[nr] == NodeRec(false, [v], [], None)
    requires a.nodes[parts.left] == NodeRec(true, ks[..t - 1], [], Some(nr))
    requires a.nodes[parts.right] == NodeRec(true, ks[t..], [], Some(nr))
    ensures GrownLeafRoot(Attach(a, nr, parts, v), nr, ks, t, v)
  {
  }

  /** Growing a full, ascending leaf root yields a search tree of height 1 that
      stores the old keys and `value`. */
  lemma InsertSplitsRootOrdered(s: State, t: int, v: int)
    requires WellFormed(s) && s.root.Some? && t >= 1
    requires var N := s.arena.nodes[s.root.value];
      N.isLeaf && N.parent.None? && |N.keys| == 2 * t - 1 && StrictlySorted(N.keys) && v !in N.keys
    ensures SearchOrdered(s, 0)
    ensures var o := InsertInto(s, t, v);
      SearchOrdered(o.state, 1) && Stored(o.state, 1) == Stored(s, 0) + {v}
  {
    InsertSplitsRoot(s, t, v);
    var o := InsertInto(s, t, v);
    var N := s.arena.nodes[s.root.value];
    GrownRoot(o.state.arena, o.state.root.value, N.keys, t, v);
    LeafContent(s.arena, s.root.value);
  }

  /** A root holding the middle key of ascending keys `ks`, over two leaves that
      hold the halves around it with `v` added on its side, is a search tree of
      height 1 storing `ks` and `v`. */
  lemma GrownRoot(a: Arena, nr: NodeId, ks: seq<int>, t: int, v: int)
    requires StrictlySorted(ks) && v !in ks && GrownLeafRoot(a, nr, ks, t, v)
    ensures SearchTree(a, nr, 1)
    ensures Content(a, nr, 1) == KeySet(ks) + {v}
  {
    var R := a.nodes[nr];
    var lo, hi := GrownHalves(ks, t, v);
    assert R.children == [R.children[0], R.children[1]];
    TwoLeafTree(a, nr, R.children[0], R.children[1]);
  }

  /** The halves of ascending keys around the middle one, with `v` added on its side. */
  lemma GrownHalves(ks: seq<int>, t: int, v: int) returns (lo: seq<int>, hi: seq<int>)
    requires t >= 1 && |ks| == 2 * t - 1 && StrictlySorted(ks) && v !in ks
    ensures lo == if v < ks[t - 1] then InsertSorted(ks[..t - 1], v) else ks[..t - 1]
    ensures hi == if v < ks[t - 1] then ks[t..] else InsertSorted(ks[t..], v)
    ensures StrictlySorted(lo) && StrictlySorted(hi)
    ensures (forall x :: x in lo ==> x < ks[t - 1]) && (forall x :: x in hi ==> ks[t - 1] < x)
    ensures KeySet(lo) + {ks[t - 1]} + KeySet(hi) == KeySet(ks) + {v}
  {
    assert ks[t - 1 + 1..] == ks[t..];
    lo, hi := HalvesWithKey(ks, t - 1, v);
  }

  /** One pass of the split loop on a full leaf whose parent is an internal node
      listing it: the two fresh halves `l` and `r` take the leaf's place in the
      parent's children, `value` goes into the half its comparison selects, and
      only the parent among the old nodes changes. */
  lemma SplitStepOnLeaf(a: Arena, t: int, n: NodeId, v: int) returns (l: NodeId, r: NodeId)
    requires Closed(a) && n in a.nodes && t >= 1
    requires var N := a.nodes[n];
      N.isLeaf && |N.keys| == 2 * t - 1 && N.parent.Some? &&
      var P := a.nodes[N.parent.value];
      !P.isLeaf && n in P.children
    ensures var b, N := SplitStep(a, t, n, v), a.nodes[n];
      var p, mid := N.parent.value, N.keys[t - 1];
      var P, i := a.nodes[p], IndexOf(a.nodes[N.parent.value].children, n);
      b.result == Ok((p, mid)) &&
      b.arena.nodes[p] == P.(children := P.children[..i] + [l, r] + P.children[i + 1..]) &&
      l !in a.nodes && r !in a.nodes && l != r && l in b.arena.nodes && r in b.arena.nodes &&
      b.arena.nodes[l] == NodeRec(true, if v < mid then InsertSorted(N.keys[..t - 1], v) else N.keys[..t - 1], [], Some(p)) &&
      b.arena.nodes[r] == NodeRec(true, if v < mid then N.keys[t..] else InsertSorted(N.keys[t..], v), [], Some(p)) &&
      forall id :: id in a.nodes && id != p ==> b.arena.nodes[id] == a.nodes[id]
  {
    var N := a.nodes[n];
    SplitFullLeaf(a, n, t);
    var sp := Split(a, n, t);
    l, r := sp.result.value.left, sp.result.value.right;
    HangOnParent(sp.arena, n, sp.result.value, v);
  }

  /** Hanging the halves of a split node in its parent's children in place of it. */
  lemma HangOnParent(a1: Arena, n: NodeId, parts: Parts, v: int)
    requires Closed(a1) && n in a1.nodes && parts.left in a1.nodes && parts.right in a1.nodes
    requires parts.left != parts.right && a1.nodes[n].parent.Some?
    requires var p := a1.nodes[n].parent.value;
      p in a1.nodes && !a1.nodes[p].isLeaf && n in a1.nodes[p].children &&
      p != parts.left && p != parts.right
    ensures var b, p := Hang(a1, n, parts, v), a1.nodes[n].parent.value;
      var P, i := a1.nodes[p], IndexOf(a1.nodes[p].children, n);
      var side := Side(parts, v);
      b.result == Ok((p, parts.middle)) &&
      b.arena.nodes[p] == P.(children := P.children[..i] + [parts.left, parts.right] + P.children[i + 1..]) &&
      b.arena.nodes[side] == a1.nodes[side].(keys := InsertSorted(a1.nodes[side].keys, v)) &&
      forall id :: id in a1.nodes && id != p && id != side ==> b.arena.nodes[id] == a1.nodes[id]
  {
    var p := a1.nodes[n].parent.value;
    var P := a1.nodes[p];
    var i := IndexOf(P.children, n);
    ReplaceByTwo(P.children, i, parts.left, parts.right);
  }

  /** `b` is `a` after its full leaf `n` has been split into the fresh leaves `l`
      and `r`: they take its place in the parent's children, at positions i and
      i+1, the middle key `Keys[t-1]` joins the parent's keys in sorted position,
      `value` goes into the half its comparison selects, and no other node changes. */
  ghost predicate LeafSplitShape(a: Arena, b: Arena, t: int, n: NodeId, v: int, l: NodeId, r: NodeId) {
    n in a.nodes && t >= 1 && |a.nodes[n].keys| == 2 * t - 1 && a.nodes[n].parent.Some? &&
    a.nodes[n].parent.value in a.nodes &&
    var N := a.nodes[n];
    var p, mid := N.parent.value, N.keys[t - 1];
    var P, i := a.nodes[p], IndexOf(a.nodes[p].children, n);
    i < |P.children| && p in b.nodes && l in b.nodes && r in b.nodes &&
    b.nodes[p] == P.(keys := InsertSorted(P.keys, mid), children := P.children[..i] + [l, r] + P.children[i + 1..]) &&
    l !in a.nodes && r !in a.nodes && l != r &&
    b.nodes[l] == NodeRec(true, if v < mid then InsertSorted(N.keys[..t - 1], v) else N.keys[..t - 1], [], Some(p)) &&
    b.nodes[r] == NodeRec(true, if v < mid then N.keys[t..] else InsertSorted(N.keys[t..], v), [], Some(p)) &&
    forall id :: id in a.nodes && id != p ==> id in b.nodes && b.nodes[id] == a.nodes[id]
  }

  /** `LeafSplitShape`, where the two halves and the parent together hold the keys
      of the leaf and the parent plus `value`. */
  ghost predicate LeafSplitInto(a: Arena, b: Arena, t: int, n: NodeId, v: int, l: NodeId, r: NodeId) {
    LeafSplitShape(a, b, t, n, v, l, r) &&
    var N := a.nodes[n];
    var p := N.parent.value;
    multiset(b.nodes[l].keys) + multiset(b.nodes[r].keys) + multiset(b.nodes[p].keys) ==
      multiset(N.keys) + multiset(a.nodes[p].keys) + multiset{v}
  }

  /** Inserting into a full leaf whose parent has room splits the leaf into two
      fresh halves under that parent (`LeafSplitInto`) and keeps the root. */
  lemma InsertSplitsLeaf(s: State, t: int, v: int, n: NodeId) returns (l: NodeId, r: NodeId)
    requires WellFormed(s) && FindIn(s, v) == Ok(Some(n)) && t >= 1
    requires var N := s.arena.nodes[n];
      N.isLeaf && v !in N.keys && |N.keys| == 2 * t - 1 && N.parent.Some? &&
      var P := s.arena.nodes[N.parent.value];
      !P.isLeaf && n in P.children && |P.keys| != 2 * t - 1
    ensures var o := InsertInto(s, t, v);
      o.fault.None? && o.state.root == s.root && LeafSplitInto(s.arena, o.state.arena, t, n, v, l, r)
  {
    InsertThroughLeafSplit(s, t, v, n);
    l, r := LeafSplitRecords(s.arena, t, n, v);
  }

  /** The nodes after a split step on a full leaf and the middle key added to
      its parent. */
  lemma LeafSplitRecords(a: Arena, t: int, n: NodeId, v: int) returns (l: NodeId, r: NodeId)
    requires Closed(a) && n in a.nodes && t >= 1
    requires var N := a.nodes[n];
      N.isLeaf && |N.keys| == 2 * t - 1 && N.parent.Some? &&
      var P := a.nodes[N.parent.value];
      !P.isLeaf && n in P.children
    ensures var N := a.nodes[n];
      var c := AddKeyTo(SplitStep(a, t, n, v).arena, N.parent.value, N.keys[t - 1]);
      LeafSplitInto(a, c, t, n, v, l, r)
  {
    var N := a.nodes[n];
    RefsInArena(a, n);
    l, r := SplitStepOnLeaf(a, t, n, v);
    MiddleKeyUp(a, SplitStep(a, t, n, v).arena, t, n, v, l, r);
  }

  /** Adding the middle key to the parent after the halves of a full leaf took
      its place there. */
  lemma MiddleKeyUp(a: Arena, b: Arena, t: int, n: NodeId, v: int, l: NodeId, r: NodeId)
    requires Closed(b) && n in a.nodes && t >= 1
    requires var N := a.nodes[n];
      |N.keys| == 2 * t - 1 && N.parent.Some? && N.parent.value in a.nodes && n in a.nodes[N.parent.value].children
    requires var N := a.nodes[n];
      var p, mid := N.parent.value, N.keys[t - 1];
      var P, i := a.nodes[p], IndexOf(a.nodes[p].children, n);
      p in b.nodes &&
      b.nodes[p] == P.(children := P.children[..i] + [l, r] + P.children[i + 1..]) &&
      l !in a.nodes && r !in a.nodes && l != r && l in b.nodes && r in b.nodes &&
      b.nodes[l] == NodeRec(true, if v < mid then InsertSorted(N.keys[..t - 1], v) else N.keys[..t - 1], [], Some(p)) &&
      b.nodes[r] == NodeRec(true, if v < mid then N.keys[t..] else InsertSorted(N.keys[t..], v), [], Some(p)) &&
      forall id :: id in a.nodes && id != p ==> id in b.nodes && b.nodes[id] == a.nodes[id]
    ensures var N := a.nodes[n];
      LeafSplitInto(a, AddKeyTo(b, N.parent.value, N.keys[t - 1]), t, n, v, l, r)
  {
    var N := a.nodes[n];
    var p, mid := N.parent.value, N.keys[t - 1];
    var c := AddKeyTo(b, p, mid);
    MiddleKeyShape(a, b, t, n, v, l, r);
    SplitKeysMoveUp(N.keys, a.nodes[p].keys, t, v, c.nodes[l].keys, c.nodes[r].keys, c.nodes[p].keys);
  }

  /** The records of `MiddleKeyUp`. */
  lemma MiddleKeyShape(a: Arena, b: Arena, t: int, n: NodeId, v: int, l: NodeId, r: NodeId)
    requires Closed(b) && n in a.nodes && t >= 1
    requires var N := a.nodes[n];
      |N.keys| == 2 * t - 1 && N.parent.Some? && N.parent.value in a.nodes && n in a.nodes[N.parent.value].children
    requires var N := a.nodes[n];
      var p, mid := N.parent.value, N.keys[t - 1];
      var P, i := a.nodes[p], IndexOf(a.nodes[p].children, n);
      p in b.nodes &&
      b.nodes[p] == P.(children := P.children[..i] + [l, r] + P.children[i + 1..]) &&
      l !in a.nodes && r !in a.nodes && l != r && l in b.nodes && r in b.nodes &&
      b.nodes[l] == NodeRec(true, if v < mid then InsertSorted(N.keys[..t - 1], v) else N.keys[..t - 1], [], Some(p)) &&
      b.nodes[r] == NodeRec(true, if v < mid then N.keys[t..] else InsertSorted(N.keys[t..], v), [], Some(p)) &&
      forall id :: id in a.nodes && id != p ==> id in b.nodes && b.nodes[id] == a.nodes[id]
    ensures var N := a.nodes[n];
      LeafSplitShape(a, AddKeyTo(b, N.parent.value, N.keys[t - 1]), t, n, v, l, r)
  {
  }

  /** The keys of a split leaf, with `v` added on its side, and of its parent,
      with the middle key added, are the old keys of both and `v`. */
  lemma SplitKeysMoveUp(ks: seq<int>, pk: seq<int>, t: int, v: int, lo: seq<int>, hi: seq<int>, up: seq<int>)
    requires t >= 1 && |ks| == 2 * t - 1
    requires lo == if v < ks[t - 1] then InsertSorted(ks[..t - 1], v) else ks[..t - 1]
    requires hi == if v < ks[t - 1] then ks[t..] else InsertSorted(ks[t..], v)
    requires up == InsertSorted(pk, ks[t - 1])
    ensures multiset(lo) + multiset(hi) + multiset(up) == multiset(ks) + multiset(pk) + multiset{v}
  {
    SplitLeafKeys(ks, t, v);
    MovedUp(multiset(lo), multiset(hi), multiset(up), multiset(ks), multiset(pk), ks[t - 1], v);
  }

  /** Moving the middle key of a split node into its parent keeps the keys of
      the three nodes together. */
  lemma MovedUp(lo: multiset<int>, hi: multiset<int>, up: multiset<int>, was: multiset<int>, par: multiset<int>, mid: int, v: int)
    requires lo + hi + multiset{mid} == was + multiset{v} && up == par + multiset{mid}
    ensures lo + hi + up == was + par + multiset{v}
  {
    forall x
      ensures (lo + hi + up)[x] == (was + par + multiset{v})[x]
    {
      assert (lo + hi + multiset{mid})[x] == (was + multiset{v})[x];
    }
  }

  /** The call sequence of an insertion into a full leaf whose parent has room:
      one split step, then the middle key added to the parent. */
  lemma InsertThroughLeafSplit(s: State, t: int, v: int, n: NodeId)
    requires WellFormed(s) && FindIn(s, v) == Ok(Some(n)) && t >= 1
    requires var N := s.arena.nodes[n];
      N.isLeaf && v !in N.keys && |N.keys| == 2 * t - 1 && N.parent.Some? &&
      var P := s.arena.nodes[N.parent.value];
      !P.isLeaf && n in P.children && |P.keys| != 2 * t - 1
    ensures var N := s.arena.nodes[n];
      InsertInto(s, t, v) == Outcome(s.(arena := AddKeyTo(SplitStep(s.arena, t, n, v).arena, N.parent.value, N.keys[t - 1])), None)
  {
    var a := s.arena;
    var N := a.nodes[n];
    var p, mid := N.parent.value, N.keys[t - 1];
    var l, r := SplitStepOnLeaf(a, t, n, v);
    var b := SplitStep(a, t, n, v);
    assert InsertInto(s, t, v) == Climb(s, t, n, v, |a.nodes|);
    ClimbSplits(s, t, n, v, |a.nodes|);
    assert |b.arena.nodes[p].keys| != 2 * t - 1;
  }

  /** The keys of a split leaf, with `v` added on its side and the middle key
      moved up, are the old keys and `v`. */
  lemma SplitLeafKeys(ks: seq<int>, t: int, v: int)
    requires t >= 1 && |ks| == 2 * t - 1
    ensures var mid := ks[t - 1];
      var lo := if v < mid then InsertSorted(ks[..t - 1], v) else ks[..t - 1];
      var hi := if v < mid then ks[t..] else InsertSorted(ks[t..], v);
      multiset(lo) + multiset(hi) + multiset{mid} == multiset(ks) + multiset{v}
  {
    AroundIndex(ks, t - 1);
    assert ks[t - 1 + 1..] == ks[t..];
    assert multiset(ks) == multiset(ks[..t - 1]) + multiset{ks[t - 1]} + multiset(ks[t..]);
  }

  /** The root is a parentless leaf holding the keys `ks`. */
  ghost predicate LeafRoot(s: State, ks: seq<int>) {
    WellFormed(s) && s.root.Some? && s.arena.nodes[s.root.value] == NodeRec(true, ks, [], None)
  }

  /** The first key inserted makes a leaf root of its own. */
  lemma FirstLeafRoot(s: State, t: int, v: int)
    requires WellFormed(s) && s.root.None?
    ensures LeafRoot(InsertInto(s, t, v).state, [v])
  {
    InsertIntoEmpty(s, t, v);
  }

  /** A key above every key of a leaf root with room lands at its end. */
  lemma AppendToLeafRoot(s: State, t: int, v: int, ks: seq<int>)
    requires LeafRoot(s, ks) && |ks| < 2 * t - 1 && forall j :: 0 <= j < |ks| ==> ks[j] < v
    ensures LeafRoot(InsertInto(s, t, v).state, ks + [v])
  {
    var r := s.root.value;
    FindOnLeaf(s.arena, r, v, |s.arena.nodes|);
    FirstNotLessUnique(ks, v, |ks|);
    InsertWithRoom(s, t, v, r);
    assert ks[..|ks|] == ks && ks[|ks|..] == [];
  }

  /** With minimum degree 2, inserting 2 and 3 into the leaf root [1] fills it. */
  lemma InsertTwoThree(s1: State)
    requires LeafRoot(s1, [1])
    ensures LeafRoot(InsertInto(InsertInto(s1, 2, 2).state, 2, 3).state, [1, 2, 3])
  {
    assert [1] + [2] == [1, 2] && [1, 2] + [3] == [1, 2, 3];
    AppendToLeafRoot(s1, 2, 2, [1]);
    AppendToLeafRoot(InsertInto(s1, 2, 2).state, 2, 3, [1, 2]);
  }

  /** With minimum degree 2, inserting 1, 2 and 3 into an empty tree fills a
      single leaf root. */
  lemma InsertOneToThree(s0: State)
    requires WellFormed(s0) && s0.root.None?
    ensures LeafRoot(InsertInto(InsertInto(InsertInto(s0, 2, 1).state, 2, 2).state, 2, 3).state, [1, 2, 3])
  {
    FirstLeafRoot(s0, 2, 1);
    InsertTwoThree(InsertInto(s0, 2, 1).state);
  }

  /** With minimum degree 2, inserting 4 into a full leaf root [1, 2, 3] gives
      a root holding 2 above the leaves [1] and [3, 4]. */
  lemma InsertFourIntoFullRoot(s3: State)
    requires LeafRoot(s3, [1, 2, 3])
    ensures var s4 := InsertInto(s3, 2, 4).state;
      s4.root.Some? &&
      var R := s4.arena.nodes[s4.root.value];
      !R.isLeaf && R.keys == [2] && |R.children| == 2 &&
      R.children[0] in s4.arena.nodes && R.children[1] in s4.arena.nodes &&
      s4.arena.nodes[R.children[0]].keys == [1] && s4.arena.nodes[R.children[1]].keys == [3, 4]
  {
    InsertSplitsRoot(s3, 2, 4);
    var s4 := InsertInto(s3, 2, 4).state;
    GrownFromOneToThree(s4.arena, s4.root.value);
  }

  /** The root grown from the leaf [1, 2, 3] by the key 4, with minimum degree 2. */
  lemma GrownFromOneToThree(a: Arena, nr: NodeId)
    requires GrownLeafRoot(a, nr, [1, 2, 3], 2, 4)
    ensures var R := a.nodes[nr];
      !R.isLeaf && R.keys == [2] && |R.children| == 2 &&
      R.children[0] in a.nodes && R.children[1] in a.nodes &&
      a.nodes[R.children[0]].keys == [1] && a.nodes[R.children[1]].keys == [3, 4]
  {
    FirstNotLessUnique([3], 4, 1);
    assert [1, 2, 3][..1] == [1] && [1, 2, 3][2..] == [3];
  }

  /** With minimum degree 2, inserting 1, 2, 3 and 4 into an empty tree leaves
      a root holding 2 above the leaves [1] and [3, 4]. */
  lemma InsertOneToFour(s0: State)
    requires WellFormed(s0) && s0.root.None?
    ensures var s1 := InsertInto(s0, 2, 1).state;
      var s2 := InsertInto(s1, 2, 2).state;
      var s3 := InsertInto(s2, 2, 3).state;
      var s4 := InsertInto(s3, 2, 4).state;
      s4.root.Some? &&
      var R := s4.arena.nodes[s4.root.value];
      !R.isLeaf && R.keys == [2] && |R.children| == 2 &&
      R.children[0] in s4.arena.nodes && R.children[1] in s4.arena.nodes &&
      s4.arena.nodes[R.children[0]].keys == [1] && s4.arena.nodes[R.children[1]].keys == [3, 4]
  {
    InsertOneToThree(s0);
    InsertFourIntoFullRoot(InsertInto(InsertInto(InsertInto(s0, 2, 1).state, 2, 2).state, 2, 3).state);
  }
}
