/** The state of a `BTree<T>` (BTree/BTree/BTree.cs): the node arena and the
    nullable `_root`, the tree-level `Find` and `Contains`, and what they mean on
    a search-ordered tree. */
module TreeState {
  import opened Wrappers
  import opened Keys
  import opened Node
  import opened Search

  /** `_root` together with every node object reachable in the program. */
  datatype State = State(arena: Arena, root: Option<NodeId>)

  /** What a mutating tree operation leaves behind: the new state, and the
      exception it ended with, if any (the state then holds every change made
      before the throw). */
  datatype Outcome = Outcome(state: State, fault: Option<Fault>)

  /** References are to nodes of the arena, `_root` included. */
  predicate WellFormed(s: State) {
    Closed(s.arena) && (s.root.Some? ==> s.root.value in s.arena.nodes)
  }

  /** A freshly constructed tree: no root (BTree.cs:8-11). */
  function Empty(): (s: State)
    ensures WellFormed(s) && s.root.None?
  {
    State(Arena(map[], 0), None)
  }

  /** `Find(value)` (BTree.cs:13-16): null on an empty tree, else the root's
      `Find`. A descent visits at most as many nodes as there are: a longer one
      repeats a node and so never ends. */
  function FindIn(s: State, v: int): (r: Result<Option<NodeId>>)
    requires WellFormed(s)
    ensures s.root.None? <==> r == Ok(None)
    ensures r.Ok? && r.value.Some? ==> r.value.value in s.arena.nodes
  {
    if s.root.None? then Ok(None)
    else
      match Descend(s.arena, s.root.value, v, |s.arena.nodes|)
      case Ok(n) => Ok(Some(n))
      case Err(f) => Err(f)
  }

  /** `Contains(value)` (BTree.cs:18-23): whether the node `Find` returns holds `value`. */
  function ContainsIn(s: State, v: int): (r: Result<bool>)
    requires WellFormed(s)
    ensures s.root.None? ==> r == Ok(false)
    ensures r.Ok? <==> FindIn(s, v).Ok?
    ensures r == Ok(true) ==> s.root.Some?
  {
    match FindIn(s, v)
    case Err(f) => Err(f)
    case Ok(None) => Ok(false)
    case Ok(Some(n)) => Ok(v in s.arena.nodes[n].keys)
  }

  /** `_root` is the root of a search tree of height `d`. */
  ghost predicate SearchOrdered(s: State, d: nat) {
    s.root.Some? && SearchTree(s.arena, s.root.value, d)
  }

  /** The keys stored in the tree. */
  ghost function Stored(s: State, d: nat): set<int> {
    if s.root.None? then {} else Content(s.arena, s.root.value, d)
  }

  /** On a search-ordered tree `Contains` never fails, and it answers whether
      `value` is stored anywhere in the tree. */
  lemma ContainsIsMembership(s: State, d: nat, v: int)
    requires WellFormed(s) && SearchOrdered(s, d)
    ensures ContainsIn(s, v) == Ok(v in Stored(s, d))
  {
    HeightBelowSize(s.arena, s.root.value, d);
    FindInSearchTree(s.arena, s.root.value, d, v, |s.arena.nodes|);
  }

  /** On a search tree of height 1, `Find` for a key that is not in the root goes
      to the leaf at the first root key not smaller than it. */
  lemma FindLeafChild(s: State, v: int)
    requires WellFormed(s) && SearchOrdered(s, 1)
    requires v !in s.arena.nodes[s.root.value].keys
    ensures var P := s.arena.nodes[s.root.value];
      FirstNotLess(P.keys, v) < |P.children| &&
      FindIn(s, v) == Ok(Some(P.children[FirstNotLess(P.keys, v)]))
  {
    var a, p := s.arena, s.root.value;
    var P := a.nodes[p];
    HeightOne(a, p);
    HeightBelowSize(a, p, 1);
    FindDescends(a, p, v, |a.nodes|);
    FindOnLeaf(a, P.children[FirstNotLess(P.keys, v)], v, |a.nodes| - 1);
  }
}
