/** The few operations of .NET's `List<T>` that the B-tree relies on, stated on sequences. */
module Lists {
  import opened Wrappers

  /** Index of the first occurrence of `x`, or `|s|` when there is none
      (the linear scans of BTree.cs and the search inside `List.Remove`). */
  function IndexOf<T(==)>(s: seq<T>, x: T): (k: nat)
    ensures k <= |s|
    ensures k < |s| ==> s[k] == x
    ensures forall j :: 0 <= j < k ==> s[j] != x
    ensures k == |s| <==> x !in s
  {
    if s == [] then 0
    else if s[0] == x then 0
    else 1 + IndexOf(s[1..], x)
  }

  /** `List.Remove(x)`: drop the first occurrence of `x`, if any, keeping the
      order of the rest. */
  function RemoveFirst<T(==)>(s: seq<T>, x: T): (r: seq<T>)
    ensures x !in s ==> r == s
    ensures x in s ==> |r| == |s| - 1
    ensures x in s ==> r == s[..IndexOf(s, x)] + s[IndexOf(s, x) + 1..]
    ensures multiset(r) == multiset(s) - multiset{x}
  {
    var k := IndexOf(s, x);
    if k == |s| then s
    else
      assert s == s[..k] + [x] + s[k + 1..];
      s[..k] + s[k + 1..]
  }

  /** `List.GetRange(index, count)`, which throws unless the range lies inside the list. */
  function GetRange<T>(s: seq<T>, index: int, count: int): (r: Result<seq<T>>)
    ensures r.Ok? <==> 0 <= index && 0 <= count && index + count <= |s|
    ensures r.Ok? ==> |r.value| == count
    ensures r.Ok? ==> forall j :: 0 <= j < count ==> r.value[j] == s[index + j]
  {
    if 0 <= index && 0 <= count && index + count <= |s| then Ok(s[index..index + count])
    else Err(IndexOutOfRange)
  }

  /** `list[index] = x`, which throws when `index` is outside the list. */
  function SetAt<T>(s: seq<T>, index: int, x: T): (r: Result<seq<T>>)
    ensures r.Ok? <==> 0 <= index < |s|
    ensures r.Ok? ==> |r.value| == |s| && r.value[index] == x
    ensures r.Ok? ==> forall j :: 0 <= j < |s| && j != index ==> r.value[j] == s[j]
  {
    if 0 <= index < |s| then Ok(s[index := x]) else Err(IndexOutOfRange)
  }

  /** `List.Insert(index, x)` for an index inside the list or just past its end. */
  function InsertAt<T(!new)>(s: seq<T>, index: int, x: T): (r: seq<T>)
    requires 0 <= index <= |s|
    ensures |r| == |s| + 1 && r[index] == x
    ensures forall j :: 0 <= j < index ==> r[j] == s[j]
    ensures forall j :: index < j < |r| ==> r[j] == s[j - 1]
    ensures forall z :: z in r <==> z in s || z == x
  {
    var r := s[..index] + [x] + s[index..];
    assert forall z :: z in s ==> z in r by {
      forall z | z in s
        ensures z in r
      {
        var j :| 0 <= j < |s| && s[j] == z;
        if j < index { assert r[j] == z; } else { assert r[j + 1] == z; }
      }
    }
    r
  }

  /** After `s[i] = x`, every element is an old element or `x`. */
  lemma UpdateMembers<T>(s: seq<T>, i: int, x: T)
    requires 0 <= i < |s|
    ensures forall z :: z in s[i := x] ==> z in s || z == x
  {
    forall z | z in s[i := x]
      ensures z in s || z == x
    {
      var j :| 0 <= j < |s| && s[i := x][j] == z;
      if j != i {
        assert s[j] == z;
      }
    }
  }

  /** Overwriting position `i` with `x` and inserting `y` right after it puts the
      two in place of the old element. */
  lemma ReplaceByTwo<T(!new)>(s: seq<T>, i: int, x: T, y: T)
    requires 0 <= i < |s|
    ensures InsertAt(s[i := x], i + 1, y) == s[..i] + [x, y] + s[i + 1..]
  {
    var r, e := InsertAt(s[i := x], i + 1, y), s[..i] + [x, y] + s[i + 1..];
    assert |r| == |e|;
    forall j | 0 <= j < |r|
      ensures r[j] == e[j]
    {
      if j < i {
      } else if j == i {
      } else if j == i + 1 {
      } else {
        assert r[j] == s[j - 1];
      }
    }
  }

  /** Overwriting position `i` of a list without repetitions by a new element and
      then removing the old element at `i+1` joins the two positions into one. */
  lemma ReplaceThenDrop<T>(s: seq<T>, i: int, x: T)
    requires 0 <= i && i + 1 < |s|
    ensures Distinct(s) && x !in s ==> RemoveFirst(s[i := x], s[i + 1]) == s[..i] + [x] + s[i + 2..]
  {
    if !Distinct(s) || x in s {
      return;
    }
    var u := s[i := x];
    assert u[i + 1] == s[i + 1];
    var k := IndexOf(u, s[i + 1]);
    assert k == i + 1;
    assert u[..k] == s[..i] + [x];
    assert u[k + 1..] == s[i + 2..];
  }

  /** A list is the part before position `k`, the element at `k` and the part after it. */
  lemma AroundIndex<T>(s: seq<T>, k: int)
    requires 0 <= k < |s|
    ensures s[..k] + [s[k]] + s[k + 1..] == s
  {
  }

  /** A list is its part before position `k` followed by the rest. */
  lemma AtIndex<T>(s: seq<T>, k: int)
    requires 0 <= k <= |s|
    ensures s[..k] + s[k..] == s
  {
  }

  /** No element occurs twice. */
  predicate Distinct<T(==)>(s: seq<T>) {
    forall i, j :: 0 <= i < j < |s| ==> s[i] != s[j]
  }

  /** In a list without repetitions, nothing before position `k` occurs from `k` on. */
  lemma DistinctHalves<T>(s: seq<T>, k: int)
    requires Distinct(s) && 0 <= k <= |s|
    ensures forall j :: 0 <= j < k ==> s[j] !in s[k..]
  {
  }
}
