/** Model of `Node<T>` (BTree/BTree/Node.cs).

    Nodes live in an arena: a map from node ids to node records plus the next
    free id. A C# reference becomes a `NodeId`, the nullable `Parent`
    back-reference an `Option<NodeId>`, and allocating a node takes the next id.
    A leaf's `Children` list is null in C#; here it is `[]`, and the callers
    that dereference a leaf's children report `NullReference` explicitly.
    Every node of a tree shares the tree's minimum degree, so `_amount` is
    passed in as `t` instead of being stored per node. */
module Node {
  import opened Wrappers
  import opened Lists
  import opened Keys

  type NodeId = nat

  datatype NodeRec = NodeRec(isLeaf: bool, keys: seq<int>, children: seq<NodeId>, parent: Option<NodeId>)

  datatype Arena = Arena(nodes: map<NodeId, NodeRec>, next: NodeId)

  /** What an allocating operation leaves behind: the arena (changed even when
      the operation throws half-way) and its result or fault. */
  datatype Built<+T> = Built(arena: Arena, result: Result<T>)

  /** The three values `Split` returns. */
  datatype Parts = Parts(left: NodeId, middle: int, right: NodeId)

  /** The ids a node refers to: its children and its parent. */
  function Refs(r: NodeRec): set<NodeId> {
    (set c | c in r.children) + (if r.parent.Some? then {r.parent.value} else {})
  }

  /** Every id in use is below `next` and every reference is to a node of the arena:
      the arena counterpart of "a reference always points at an object". */
  predicate Closed(a: Arena) {
    forall id :: id in a.nodes ==> id < a.next && Refs(a.nodes[id]) <= a.nodes.Keys
  }

  /** `b` is `a` with possibly more nodes, and every node of `a` is untouched. */
  predicate Extends(a: Arena, b: Arena) {
    a.nodes.Keys <= b.nodes.Keys && a.next <= b.next &&
    forall id :: id in a.nodes ==> b.nodes[id] == a.nodes[id]
  }

  /** `b` is `a` with possibly more nodes, and the nodes of `a` differ at most in their parent. */
  predicate SameShape(a: Arena, b: Arena) {
    a.nodes.Keys <= b.nodes.Keys && a.next <= b.next &&
    forall id :: id in a.nodes ==>
      b.nodes[id].isLeaf == a.nodes[id].isLeaf &&
      b.nodes[id].keys == a.nodes[id].keys &&
      b.nodes[id].children == a.nodes[id].children
  }

  lemma SameShapeTrans(a: Arena, b: Arena, c: Arena)
    requires SameShape(a, b) && SameShape(b, c)
    ensures SameShape(a, c)
  {
  }

  /** In a closed arena, a node's children and parent are nodes of the arena. */
  lemma RefsInArena(a: Arena, n: NodeId)
    requires Closed(a) && n in a.nodes
    ensures forall c :: c in a.nodes[n].children ==> c in a.nodes
    ensures a.nodes[n].parent.Some? ==> a.nodes[n].parent.value in a.nodes
  {
    assert Refs(a.nodes[n]) <= a.nodes.Keys;
  }

  // In-place updates of one node's fields.

  function WithKeys(a: Arena, n: NodeId, ks: seq<int>): (r: Arena)
    requires Closed(a) && n in a.nodes
    ensures Closed(r) && r.next == a.next && r.nodes.Keys == a.nodes.Keys
    ensures r.nodes[n] == a.nodes[n].(keys := ks)
    ensures forall id :: id in a.nodes && id != n ==> r.nodes[id] == a.nodes[id]
  {
    a.(nodes := a.nodes[n := a.nodes[n].(keys := ks)])
  }

  function WithChildren(a: Arena, n: NodeId, cs: seq<NodeId>): (r: Arena)
    requires Closed(a) && n in a.nodes
    requires forall c :: c in cs ==> c in a.nodes
    ensures Closed(r) && r.next == a.next && r.nodes.Keys == a.nodes.Keys
    ensures r.nodes[n] == a.nodes[n].(children := cs)
    ensures forall id :: id in a.nodes && id != n ==> r.nodes[id] == a.nodes[id]
  {
    a.(nodes := a.nodes[n := a.nodes[n].(children := cs)])
  }

  function WithParent(a: Arena, n: NodeId, p: Option<NodeId>): (r: Arena)
    requires Closed(a) && n in a.nodes
    requires p.Some? ==> p.value in a.nodes
    ensures Closed(r) && r.next == a.next && r.nodes.Keys == a.nodes.Keys
    ensures r.nodes[n] == a.nodes[n].(parent := p)
    ensures forall id :: id in a.nodes && id != n ==> r.nodes[id] == a.nodes[id]
    ensures SameShape(a, r)
  {
    a.(nodes := a.nodes[n := a.nodes[n].(parent := p)])
  }

  /** Allocation of a fresh node. */
  function Alloc(a: Arena, r: NodeRec): (b: (Arena, NodeId))
    requires Closed(a) && Refs(r) <= a.nodes.Keys
    ensures Closed(b.0) && Extends(a, b.0)
    ensures b.1 == a.next && b.1 !in a.nodes && b.0.nodes.Keys == a.nodes.Keys + {b.1}
    ensures b.0.nodes[b.1] == r && b.0.next == a.next + 1
  {
    (a.(nodes := a.nodes[a.next := r], next := a.next + 1), a.next)
  }

  /** The constructor's `foreach (var child in Children) child.Parent = this` (Node.cs:47-48):
      every listed node now has `p` as its parent. */
  function Adopt(a: Arena, cs: seq<NodeId>, p: NodeId): (r: Arena)
    requires Closed(a) && p in a.nodes
    requires forall c :: c in cs ==> c in a.nodes
    ensures Closed(r) && r.next == a.next && r.nodes.Keys == a.nodes.Keys
    ensures forall c :: c in cs ==> r.nodes[c] == a.nodes[c].(parent := Some(p))
    ensures forall id :: id in a.nodes && id !in cs ==> r.nodes[id] == a.nodes[id]
    ensures SameShape(a, r)
  {
    a.(nodes := map id | id in a.nodes :: if id in cs then a.nodes[id].(parent := Some(p)) else a.nodes[id])
  }

  /** `new Node(value, amount, isLeaf)` (Node.cs:13-21): one key, no parent, and an
      empty child list when the node is internal. It never throws. */
  function NewNode(a: Arena, value: int, isLeaf: bool): (b: (Arena, NodeId))
    requires Closed(a)
    ensures Closed(b.0) && Extends(a, b.0) && b.1 !in a.nodes && b.1 in b.0.nodes
    ensures b.0.nodes[b.1].keys == [value] && b.0.nodes[b.1].children == []
    ensures b.0.nodes[b.1].isLeaf == isLeaf && b.0.nodes[b.1].parent == None
  {
    Alloc(a, NodeRec(isLeaf, [value], [], None))
  }

  /** `new Node(keys, amount)` (Node.cs:23-34): a parentless leaf holding `keys`;
      it throws when there are 2t or more keys. */
  function NewLeaf(a: Arena, keys: seq<int>, t: int): (b: Built<NodeId>)
    requires Closed(a)
    ensures Closed(b.arena) && Extends(a, b.arena) && SameShape(a, b.arena)
    ensures b.result.Ok? <==> |keys| < 2 * t
    ensures b.result.Err? ==> b.arena == a && b.result.fault == InvariantViolation
    ensures b.result.Ok? ==>
      (b.result.value !in a.nodes && b.result.value in b.arena.nodes &&
       b.arena.nodes[b.result.value] == NodeRec(true, keys, [], None) &&
       b.arena.nodes.Keys == a.nodes.Keys + {b.result.value})
  {
    if |keys| >= 2 * t then Built(a, Err(InvariantViolation))
    else
      var (a1, id) := Alloc(a, NodeRec(true, keys, [], None));
      Built(a1, Ok(id))
  }

  /** `new Node(keys, children, amount)` (Node.cs:36-52): an internal node that first
      makes itself the parent of every child and only then checks its capacity, so
      when it throws (2t or more keys, 2t+1 or more children) the children already
      point at it. The node is therefore in the arena in both outcomes, at `a.next`. */
  function NewInternal(a: Arena, keys: seq<int>, children: seq<NodeId>, t: int): (b: Built<NodeId>)
    requires Closed(a)
    requires forall c :: c in children ==> c in a.nodes
    ensures Closed(b.arena) && SameShape(a, b.arena)
    ensures b.result.Ok? <==> |keys| < 2 * t && |children| < 2 * t + 1
    ensures b.result.Err? ==> b.result.fault == InvariantViolation
    ensures b.result.Ok? ==> b.result.value == a.next
    ensures a.next !in a.nodes && b.arena.nodes.Keys == a.nodes.Keys + {a.next}
    ensures b.arena.nodes[a.next] == NodeRec(false, keys, children, None)
    ensures forall c :: c in children ==> b.arena.nodes[c].parent == Some(a.next)
    ensures forall id :: id in a.nodes && id !in children ==> b.arena.nodes[id] == a.nodes[id]
  {
    var (a1, id) := Alloc(a, NodeRec(false, keys, children, None));
    var a2 := Adopt(a1, children, id);
    if |keys| >= 2 * t || |children| >= 2 * t + 1 then Built(a2, Err(InvariantViolation))
    else Built(a2, Ok(id))
  }

  /** One half of a split: `new Node(keys, amount) { Parent = Parent }` for a leaf,
      `new Node(keys, children, amount) { Parent = Parent }` for an internal node,
      where `Parent` is the splitting node's parent as it is once the constructor ran. */
  function Half(a: Arena, n: NodeId, keys: seq<int>, children: seq<NodeId>, t: int): (b: Built<NodeId>)
    requires Closed(a) && n in a.nodes
    requires forall c :: c in children ==> c in a.nodes
    ensures Closed(b.arena) && SameShape(a, b.arena)
    ensures b.result.Ok? <==> |keys| < 2 * t && (a.nodes[n].isLeaf || |children| < 2 * t + 1)
    ensures b.result.Ok? ==> b.result.value in b.arena.nodes && b.result.value !in a.nodes
    ensures b.result.Ok? ==>
      var h := b.arena.nodes[b.result.value];
      h.isLeaf == a.nodes[n].isLeaf && h.keys == keys &&
      h.children == (if h.isLeaf then [] else children) &&
      h.parent == (if !h.isLeaf && n in children then Some(b.result.value) else a.nodes[n].parent)
    ensures b.result.Ok? && !a.nodes[n].isLeaf ==>
      forall c :: c in children ==> b.arena.nodes[c].parent == Some(b.result.value)
    ensures forall id :: id in a.nodes && (a.nodes[n].isLeaf || id !in children) ==>
      b.arena.nodes[id] == a.nodes[id]
  {
    var b1 := if a.nodes[n].isLeaf then NewLeaf(a, keys, t) else NewInternal(a, keys, children, t);
    if b1.result.Err? then b1
    else
      var a2 := WithParent(b1.arena, b1.result.value, b1.arena.nodes[n].parent);
      SameShapeTrans(a, b1.arena, a2);
      Built(a2, b1.result)
  }

  /** `Split()` (Node.cs:76-105): two new nodes built from `Keys[0, t-1)` and
      `Keys[t, 2t-1)` (and, for an internal node, `Children[0, t)` and the rest),
      each given the splitting node's parent, and the middle key `Keys[t-1]`. */
  function Split(a: Arena, n: NodeId, t: int): (b: Built<Parts>)
    requires Closed(a) && n in a.nodes
    ensures Closed(b.arena) && SameShape(a, b.arena)
    ensures b.result.Ok? ==> b.result.value.left in b.arena.nodes && b.result.value.right in b.arena.nodes
  {
    var node := a.nodes[n];
    match GetRange(node.keys, 0, t - 1)
    case Err(f) => Built(a, Err(f))
    case Ok(lk) =>
      match (if node.isLeaf then Ok([]) else GetRange(node.children, 0, t))
      case Err(f) => Built(a, Err(f))
      case Ok(lc) =>
        var b1 := Half(a, n, lk, lc, t);
        if b1.result.Err? then Built(b1.arena, Err(b1.result.fault))
        else
          match GetRange(node.keys, t, t - 1)
          case Err(f) => Built(b1.arena, Err(f))
          case Ok(rk) =>
            match (if node.isLeaf then Ok([]) else GetRange(node.children, t, |node.children| - t))
            case Err(f) => Built(b1.arena, Err(f))
            case Ok(rc) =>
              var b2 := Half(b1.arena, n, rk, rc, t);
              if b2.result.Err? then Built(b2.arena, Err(b2.result.fault))
              else Built(b2.arena, Ok(Parts(b1.result.value, node.keys[t - 1], b2.result.value)))
  }

  /** `Merge(left, right)` (Node.cs:107-127): throws unless both nodes have the same
      non-null parent and the same leaf flag; otherwise a new node holding
      `left.Keys ++ right.Keys` (and `left.Children ++ right.Children`), given
      `left`'s parent. */
  function Merge(a: Arena, l: NodeId, r: NodeId, t: int): (b: Built<NodeId>)
    requires Closed(a) && l in a.nodes && r in a.nodes
    ensures Closed(b.arena) && SameShape(a, b.arena)
    ensures var L, R := a.nodes[l], a.nodes[r];
      L.parent.None? || R.parent.None? || L.parent != R.parent || L.isLeaf != R.isLeaf ==>
        b == Built(a, Err(InvariantViolation))
    ensures b.result.Ok? ==> b.result.value !in a.nodes && b.result.value in b.arena.nodes
    ensures b.result.Ok? ==>
      var L, R := a.nodes[l], a.nodes[r];
      var m := b.arena.nodes[b.result.value];
      L.parent.Some? && L.parent == R.parent && L.isLeaf == R.isLeaf &&
      m.isLeaf == L.isLeaf && m.keys == L.keys + R.keys &&
      m.children == (if L.isLeaf then [] else L.children + R.children)
    ensures b.result.Ok? <==>
      var L, R := a.nodes[l], a.nodes[r];
      L.parent.Some? && L.parent == R.parent && L.isLeaf == R.isLeaf &&
      |L.keys| + |R.keys| < 2 * t && (L.isLeaf || |L.children| + |R.children| < 2 * t + 1)
    ensures b.result.Ok? ==>
      var L, R := a.nodes[l], a.nodes[r];
      b.arena.nodes[b.result.value].parent ==
        if !L.isLeaf && l in L.children + R.children then Some(b.result.value) else L.parent
    ensures b.result.Ok? && !a.nodes[l].isLeaf ==>
      var cs := a.nodes[l].children + a.nodes[r].children;
      (forall c :: c in cs ==> b.arena.nodes[c].parent == Some(b.result.value)) &&
      forall id :: id in a.nodes && id !in cs ==> b.arena.nodes[id] == a.nodes[id]
    ensures b.result.Ok? && a.nodes[l].isLeaf ==>
      b.arena.nodes.Keys == a.nodes.Keys + {b.result.value} &&
      forall id :: id in a.nodes ==> b.arena.nodes[id] == a.nodes[id]
  {
    var L, R := a.nodes[l], a.nodes[r];
    if L.parent.None? || R.parent.None? || L.parent != R.parent || L.isLeaf != R.isLeaf then
      Built(a, Err(InvariantViolation))
    else
      var b1 :=
        if L.isLeaf then NewLeaf(a, L.keys + R.keys, t)
        else NewInternal(a, L.keys + R.keys, L.children + R.children, t);
      if b1.result.Err? then b1
      else
        var a2 := WithParent(b1.arena, b1.result.value, b1.arena.nodes[l].parent);
        SameShapeTrans(a, b1.arena, a2);
        Built(a2, b1.result)
  }

  /** `MergeWithRoot(root)` (Node.cs:129-148): throws unless `root` has no parent and
      exactly two children that are both leaves; otherwise a new parentless leaf
      holding `left.Keys ++ root.Keys ++ right.Keys`. */
  function MergeWithRoot(a: Arena, root: NodeId, t: int): (b: Built<NodeId>)
    requires Closed(a) && root in a.nodes
    ensures Closed(b.arena) && Extends(a, b.arena)
    ensures var R := a.nodes[root];
      R.parent.Some? || R.isLeaf || |R.children| != 2 ==> b.arena == a && b.result.Err?
    ensures b.result.Ok? <==>
      var R := a.nodes[root];
      R.parent.None? && !R.isLeaf && |R.children| == 2 &&
      a.nodes[R.children[0]].isLeaf && a.nodes[R.children[1]].isLeaf &&
      |a.nodes[R.children[0]].keys| + |R.keys| + |a.nodes[R.children[1]].keys| < 2 * t
    ensures b.result.Ok? ==>
      var R := a.nodes[root];
      b.result.value !in a.nodes && b.result.value in b.arena.nodes &&
      b.arena.nodes[b.result.value] ==
        NodeRec(true, a.nodes[R.children[0]].keys + R.keys + a.nodes[R.children[1]].keys, [], None)
  {
    var R := a.nodes[root];
    if R.parent.Some? then Built(a, Err(InvariantViolation))
    else if R.isLeaf then Built(a, Err(NullReference))
    else if |R.children| != 2 then Built(a, Err(InvariantViolation))
    else
      var L, Rt := a.nodes[R.children[0]], a.nodes[R.children[1]];
      if !L.isLeaf || !Rt.isLeaf then Built(a, Err(InvariantViolation))
      else NewLeaf(a, L.keys + R.keys + Rt.keys, t)
  }

  /** One unit less of the fuel that bounds a loop or a chain of nested calls. */
  function Spent(fuel: nat): (r: nat)
    requires fuel > 0
    ensures r < fuel
  {
    fuel - 1
  }

  /** `Find(value)` (Node.cs:54-74) as a function: stop at this node when it has no
      keys, when `value` is one of its keys or when it is a leaf, and otherwise go
      down into the child at the first key not smaller than `value`. `fuel` bounds
      the number of nodes visited; `Err(NoTermination)` when it runs out. */
  function Descend(a: Arena, n: NodeId, v: int, fuel: nat): (r: Result<NodeId>)
    requires Closed(a) && n in a.nodes
    ensures r.Ok? ==> r.value in a.nodes
    decreases fuel
  {
    if fuel == 0 then Err(NoTermination)
    else
      var node := a.nodes[n];
      var k := FirstNotLess(node.keys, v);
      if |node.keys| == 0 then Ok(n)
      else if k < |node.keys| && node.keys[k] == v then Ok(n)
      else if node.isLeaf then Ok(n)
      else if k < |node.children| then Descend(a, node.children[k], v, Spent(fuel))
      else Err(IndexOutOfRange)
  }

  /** `Find(value)` (Node.cs:54-74) with its scan over the keys. */
  method Find(a: Arena, n: NodeId, v: int, fuel: nat) returns (r: Result<NodeId>)
    requires Closed(a) && n in a.nodes
    ensures r == Descend(a, n, v, fuel)
    decreases fuel
  {
    if fuel == 0 {
      return Err(NoTermination);
    }
    var node := a.nodes[n];
    var i := 0;
    while i < |node.keys|
      invariant 0 <= i <= |node.keys|
      invariant forall j :: 0 <= j < i ==> node.keys[j] < v
      invariant |node.keys| > 0 ==> i < |node.keys|
    {
      if v == node.keys[i] {
        FirstNotLessUnique(node.keys, v, i);
        return Ok(n);
      }
      if v < node.keys[i] {
        FirstNotLessUnique(node.keys, v, i);
        if node.isLeaf {
          return Ok(n);
        }
        if i >= |node.children| {
          return Err(IndexOutOfRange);
        }
        r := Find(a, node.children[i], v, Spent(fuel));
        return;
      }
      if i + 1 == |node.keys| {
        FirstNotLessUnique(node.keys, v, i + 1);
        if node.isLeaf {
          return Ok(n);
        }
        if i + 1 >= |node.children| {
          return Err(IndexOutOfRange);
        }
        r := Find(a, node.children[i + 1], v, Spent(fuel));
        return;
      }
      i := i + 1;
    }
    return Ok(n);
  }

  /** `AddKey(value)` (Node.cs:150-156): scan past the keys smaller than `value`
      and insert it there. */
  method AddKey(keys: seq<int>, v: int) returns (r: seq<int>)
    ensures r == InsertSorted(keys, v)
  {
    var i := 0;
    while i < |keys| && v > keys[i]
      invariant 0 <= i <= |keys|
      invariant forall j :: 0 <= j < i ==> keys[j] < v
    {
      i := i + 1;
    }
    FirstNotLessUnique(keys, v, i);
    r := keys[..i] + [v] + keys[i..];
  }

  // Properties of the primitives.

  /** A leaf with 2t-1 keys splits into two fresh leaves of t-1 keys each,
      `Keys[0, t-1)` and `Keys[t, 2t-1)`, around the middle key `Keys[t-1]`;
      both keep the split node's parent, and no existing node changes. */
  lemma SplitFullLeaf(a: Arena, n: NodeId, t: int)
    requires Closed(a) && n in a.nodes && a.nodes[n].isLeaf
    requires t >= 1 && |a.nodes[n].keys| == 2 * t - 1
    ensures Split(a, n, t).result.Ok?
    ensures var b := Split(a, n, t);
      var node, p := a.nodes[n], b.result.value;
      p.left !in a.nodes && p.right !in a.nodes && p.left != p.right &&
      b.arena.nodes[p.left] == NodeRec(true, node.keys[..t - 1], [], node.parent) &&
      b.arena.nodes[p.right] == NodeRec(true, node.keys[t..], [], node.parent) &&
      p.middle == node.keys[t - 1] &&
      b.arena.nodes[p.left].keys + [p.middle] + b.arena.nodes[p.right].keys == node.keys &&
      Extends(a, b.arena)
  {
    var node := a.nodes[n];
    var lk := node.keys[..t - 1];
    var rk := node.keys[t..];
    assert GetRange(node.keys, 0, t - 1) == Ok(lk);
    assert node.keys[t..t + (t - 1)] == rk;
    assert GetRange(node.keys, t, t - 1) == Ok(rk);
    var b1 := Half(a, n, lk, [], t);
    var b2 := Half(b1.arena, n, rk, [], t);
    AroundIndex(node.keys, t - 1);
  }

  /** An internal node with 2t-1 keys and between t and 2t+1 children (2t+1 is what
      a cascading insertion hands it) splits into two fresh internal nodes: the left
      one takes `Keys[0, t-1)` and the first t children, the right one `Keys[t, 2t-1)`
      and the remaining children, and both keep the split node's parent. */
  lemma SplitFullInternal(a: Arena, n: NodeId, t: int)
    requires Closed(a) && n in a.nodes && !a.nodes[n].isLeaf
    requires t >= 1 && |a.nodes[n].keys| == 2 * t - 1
    requires t <= |a.nodes[n].children| <= 2 * t + 1
    requires n !in a.nodes[n].children
    ensures Split(a, n, t).result.Ok?
    ensures var b := Split(a, n, t);
      var node, p := a.nodes[n], b.result.value;
      var L, R := b.arena.nodes[p.left], b.arena.nodes[p.right];
      p.left !in a.nodes && p.right !in a.nodes && p.left != p.right &&
      !L.isLeaf && !R.isLeaf &&
      L.keys == node.keys[..t - 1] && R.keys == node.keys[t..] &&
      p.middle == node.keys[t - 1] && L.keys + [p.middle] + R.keys == node.keys &&
      L.children == node.children[..t] && R.children == node.children[t..] &&
      L.children + R.children == node.children &&
      L.parent == node.parent && R.parent == node.parent
  {
    var node := a.nodes[n];
    var b1, b2 := SplitInternalSteps(a, n, t);
    assert b1.arena.nodes[n].parent == node.parent;
    AroundIndex(node.keys, t - 1);
    AtIndex(node.children, t);
  }

  /** After an internal split, every child of the split node names its new owner
      as parent: the first t the left half, the others the right half (the
      children being distinct). */
  lemma SplitMovesChildren(a: Arena, n: NodeId, t: int)
    requires Closed(a) && n in a.nodes && !a.nodes[n].isLeaf
    requires t >= 1 && |a.nodes[n].keys| == 2 * t - 1
    requires t <= |a.nodes[n].children| <= 2 * t + 1
    requires Distinct(a.nodes[n].children)
    ensures Split(a, n, t).result.Ok?
    ensures var b := Split(a, n, t);
      var cs, p := a.nodes[n].children, b.result.value;
      (forall j :: 0 <= j < t ==> b.arena.nodes[cs[j]].parent == Some(p.left)) &&
      (forall j :: t <= j < |cs| ==> b.arena.nodes[cs[j]].parent == Some(p.right))
  {
    LeftChildrenMoved(a, n, t);
    RightChildrenMoved(a, n, t);
  }

  /** The children from position t on end up under the right half. */
  lemma RightChildrenMoved(a: Arena, n: NodeId, t: int)
    requires Closed(a) && n in a.nodes && !a.nodes[n].isLeaf
    requires t >= 1 && |a.nodes[n].keys| == 2 * t - 1
    requires t <= |a.nodes[n].children| <= 2 * t + 1
    ensures Split(a, n, t).result.Ok?
    ensures var b, cs := Split(a, n, t), a.nodes[n].children;
      forall j :: t <= j < |cs| ==>
        cs[j] in b.arena.nodes && b.arena.nodes[cs[j]].parent == Some(b.result.value.right)
  {
    var cs := a.nodes[n].children;
    var b1, b2 := SplitInternalSteps(a, n, t);
    SuffixParents(cs, t, b2.arena, b2.result.value);
  }

  /** A fact about every member of `cs[t..]`, restated position by position. */
  lemma SuffixParents(cs: seq<NodeId>, t: int, a: Arena, owner: NodeId)
    requires 0 <= t <= |cs|
    requires forall c :: c in cs[t..] ==> c in a.nodes && a.nodes[c].parent == Some(owner)
    ensures forall j :: t <= j < |cs| ==> cs[j] in a.nodes && a.nodes[cs[j]].parent == Some(owner)
  {
    forall j | t <= j < |cs|
      ensures cs[j] in a.nodes && a.nodes[cs[j]].parent == Some(owner)
    {
      assert cs[j] == cs[t..][j - t];
    }
  }

  /** The first t children end up under the left half. */
  lemma LeftChildrenMoved(a: Arena, n: NodeId, t: int)
    requires Closed(a) && n in a.nodes && !a.nodes[n].isLeaf
    requires t >= 1 && |a.nodes[n].keys| == 2 * t - 1
    requires t <= |a.nodes[n].children| <= 2 * t + 1
    requires Distinct(a.nodes[n].children)
    ensures Split(a, n, t).result.Ok?
    ensures var b, cs := Split(a, n, t), a.nodes[n].children;
      forall j :: 0 <= j < t ==>
        cs[j] in b.arena.nodes && b.arena.nodes[cs[j]].parent == Some(b.result.value.left)
  {
    var cs := a.nodes[n].children;
    var b1, b2 := SplitInternalSteps(a, n, t);
    DistinctHalves(cs, t);
    SecondHalfKeepsParents(b1.arena, n, a.nodes[n].keys[t..], cs[t..], t, cs[..t], b1.result.value);
    forall j | 0 <= j < t
      ensures cs[j] in b2.arena.nodes && b2.arena.nodes[cs[j]].parent == Some(b1.result.value)
    {
      assert cs[j] in cs[..t];
    }
  }

  /** Building the second half leaves the parents the first half set alone. */
  lemma SecondHalfKeepsParents(a: Arena, n: NodeId, keys: seq<int>, children: seq<NodeId>, t: int,
                               moved: seq<NodeId>, owner: NodeId)
    requires Closed(a) && n in a.nodes && forall c :: c in children ==> c in a.nodes
    requires forall c :: c in moved ==> c in a.nodes && c !in children && a.nodes[c].parent == Some(owner)
    ensures forall c :: c in moved ==> Half(a, n, keys, children, t).arena.nodes[c].parent == Some(owner)
  {
  }

  /** The two constructor calls an internal split makes, in order. */
  lemma SplitInternalSteps(a: Arena, n: NodeId, t: int) returns (b1: Built<NodeId>, b2: Built<NodeId>)
    requires Closed(a) && n in a.nodes && !a.nodes[n].isLeaf
    requires t >= 1 && |a.nodes[n].keys| == 2 * t - 1
    requires t <= |a.nodes[n].children| <= 2 * t + 1
    ensures b1 == Half(a, n, a.nodes[n].keys[..t - 1], a.nodes[n].children[..t], t) && b1.result.Ok?
    ensures Closed(b1.arena) && n in b1.arena.nodes && !b1.arena.nodes[n].isLeaf
    ensures forall c :: c in a.nodes[n].children[t..] ==> c in b1.arena.nodes
    ensures b2 == Half(b1.arena, n, a.nodes[n].keys[t..], a.nodes[n].children[t..], t) && b2.result.Ok?
    ensures forall c :: c in a.nodes[n].children[t..] ==> c in b2.arena.nodes && b2.arena.nodes[c].parent == Some(b2.result.value)
    ensures Split(a, n, t) == Built(b2.arena, Ok(Parts(b1.result.value, a.nodes[n].keys[t - 1], b2.result.value)))
  {
    var node := a.nodes[n];
    SplitRanges(node.keys, node.children, t);
    b1 := Half(a, n, node.keys[..t - 1], node.children[..t], t);
    assert b1.result.Ok?;
    b2 := Half(b1.arena, n, node.keys[t..], node.children[t..], t);
    assert b2.result.Ok?;
  }

  /** The four ranges an internal split reads all lie inside the lists. */
  lemma SplitRanges(keys: seq<int>, children: seq<NodeId>, t: int)
    requires t >= 1 && |keys| == 2 * t - 1 && t <= |children|
    ensures GetRange(keys, 0, t - 1) == Ok(keys[..t - 1])
    ensures GetRange(keys, t, t - 1) == Ok(keys[t..])
    ensures GetRange(children, 0, t) == Ok(children[..t])
    ensures GetRange(children, t, |children| - t) == Ok(children[t..])
  {
    assert keys[t..t + (t - 1)] == keys[t..];
    assert children[t..t + (|children| - t)] == children[t..];
  }

  /** On a leaf, `Find` returns the leaf itself. */
  lemma FindOnLeaf(a: Arena, n: NodeId, v: int, fuel: nat)
    requires Closed(a) && n in a.nodes && a.nodes[n].isLeaf && fuel > 0
    ensures Descend(a, n, v, fuel) == Ok(n)
  {
  }

  /** `Find` stops at any node with ascending keys one of which is `value`. */
  lemma FindOnMatch(a: Arena, n: NodeId, v: int, fuel: nat)
    requires Closed(a) && n in a.nodes && v in a.nodes[n].keys && fuel > 0
    requires StrictlySorted(a.nodes[n].keys)
    ensures Descend(a, n, v, fuel) == Ok(n)
  {
    var node := a.nodes[n];
    var j :| 0 <= j < |node.keys| && node.keys[j] == v;
    assert FirstNotLess(node.keys, v) <= j;
  }

  /** On an internal node with at least one key, none of them `value`, `Find` goes
      on into the child at the first key greater than `value` (the last child when
      there is none), and fails when the node has no such child. */
  lemma FindDescends(a: Arena, n: NodeId, v: int, fuel: nat)
    requires Closed(a) && n in a.nodes && !a.nodes[n].isLeaf
    requires |a.nodes[n].keys| > 0 && v !in a.nodes[n].keys && fuel > 0
    ensures var node, k := a.nodes[n], FirstNotLess(a.nodes[n].keys, v);
      (k < |node.keys| ==> v < node.keys[k]) &&
      Descend(a, n, v, fuel) ==
        if k < |node.children| then Descend(a, node.children[k], v, Spent(fuel)) else Err(IndexOutOfRange)
  {
  }
}
