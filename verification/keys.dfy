/** Sorted key lists: the order a node keeps its keys in, the position a key is
    inserted at, and the lemmas that insertion and removal keep the order. */
module Keys {
  import opened Lists

  /** Strictly ascending: sorted and free of duplicates. */
  predicate StrictlySorted(s: seq<int>) {
    forall i, j :: 0 <= i < j < |s| ==> s[i] < s[j]
  }

  /** The keys of a list, as a set. */
  function KeySet(s: seq<int>): set<int> {
    set x | x in s
  }

  /** Every key in `s` lies strictly between the keys around child position `i`. */
  predicate Separated(keys: seq<int>, i: int, s: set<int>) {
    forall x :: x in s ==> (0 < i <= |keys| ==> keys[i - 1] < x) && (0 <= i < |keys| ==> x < keys[i])
  }

  /** The first position whose key is not smaller than `v` (or `|s|` when every
      key is smaller): where a scan from the left stops for `v`. */
  function FirstNotLess(s: seq<int>, v: int): (k: nat)
    ensures k <= |s|
    ensures forall j :: 0 <= j < k ==> s[j] < v
    ensures k < |s| ==> v <= s[k]
  {
    if s == [] then 0
    else if v <= s[0] then 0
    else 1 + FirstNotLess(s[1..], v)
  }

  /** Any position that splits the keys into "smaller than v" and "the rest" is FirstNotLess. */
  lemma FirstNotLessUnique(s: seq<int>, v: int, k: nat)
    requires k <= |s|
    requires forall j :: 0 <= j < k ==> s[j] < v
    requires k < |s| ==> v <= s[k]
    ensures k == FirstNotLess(s, v)
  {
  }

  /** In an ascending list, the gap between keys `j-1` and `j` that holds `v` is
      where FirstNotLess stops. */
  lemma GapIsFirstNotLess(s: seq<int>, v: int, j: nat)
    requires StrictlySorted(s) && j <= |s|
    requires 0 < j ==> s[j - 1] < v
    requires j < |s| ==> v < s[j]
    ensures j == FirstNotLess(s, v)
  {
    assert forall m :: 0 <= m < j ==> s[m] < v by {
      if 0 < j {
        assert forall m :: 0 <= m < j - 1 ==> s[m] < s[j - 1];
      }
    }
    FirstNotLessUnique(s, v, j);
  }

  /** The key list after `v` is placed in front of the first key not smaller than it. */
  function InsertSorted(s: seq<int>, v: int): (r: seq<int>)
    ensures |r| == |s| + 1
    ensures multiset(r) == multiset(s) + multiset{v}
  {
    var k := FirstNotLess(s, v);
    assert s == s[..k] + s[k..];
    s[..k] + [v] + s[k..]
  }

  /** Inserting a new key into a strictly ascending list keeps it strictly ascending. */
  lemma InsertSortedKeepsOrder(s: seq<int>, v: int)
    requires StrictlySorted(s)
    requires v !in s
    ensures StrictlySorted(InsertSorted(s, v))
  {
    var k := FirstNotLess(s, v);
    var r := InsertSorted(s, v);
    forall i, j | 0 <= i < j < |r|
      ensures r[i] < r[j]
    {
      if j < k {
        assert r[i] == s[i] && r[j] == s[j];
      } else if j == k {
        assert r[i] == s[i] && r[j] == v;
      } else if i < k {
        assert r[i] == s[i] && r[j] == s[j - 1];
        assert s[i] < v <= s[k];
      } else if i == k {
        assert r[i] == v && r[j] == s[j - 1];
        assert v <= s[k] && s[k] != v;
      } else {
        assert r[i] == s[i - 1] && r[j] == s[j - 1];
      }
    }
  }

  /** Removing a key from a strictly ascending list keeps it strictly ascending. */
  lemma RemoveFirstKeepsOrder(s: seq<int>, x: int)
    requires StrictlySorted(s)
    ensures StrictlySorted(RemoveFirst(s, x))
  {
    var k := IndexOf(s, x);
    if k < |s| {
      var r := RemoveFirst(s, x);
      assert r == s[..k] + s[k + 1..];
      forall i, j | 0 <= i < j < |r|
        ensures r[i] < r[j]
      {
        if j < k {
          assert r[i] == s[i] && r[j] == s[j];
        } else if i < k {
          assert r[i] == s[i] && r[j] == s[j + 1];
        } else {
          assert r[i] == s[i + 1] && r[j] == s[j + 1];
        }
      }
    }
  }

  /** Removing a key from a strictly ascending list removes exactly that key. */
  lemma RemoveFirstMembers(s: seq<int>, x: int, y: int)
    requires StrictlySorted(s)
    ensures y in RemoveFirst(s, x) <==> y in s && y != x
  {
    var k := IndexOf(s, x);
    if k < |s| {
      assert RemoveFirst(s, x) == s[..k] + s[k + 1..];
      if y in s[..k] + s[k + 1..] {
        RemovedNotEqual(s, k, y);
      }
      if y in s && y != x {
        var m :| 0 <= m < |s| && s[m] == y;
        assert m != k;
        KeptMember(s, k, m);
      }
    }
  }

  /** Deleting a key from an ascending key list leaves it ascending and holding
      exactly the other keys. */
  lemma RemoveSortedKey(s: seq<int>, x: int)
    requires StrictlySorted(s)
    ensures StrictlySorted(RemoveFirst(s, x)) && KeySet(RemoveFirst(s, x)) == KeySet(s) - {x}
  {
    RemoveFirstKeepsOrder(s, x);
    forall y
      ensures y in KeySet(RemoveFirst(s, x)) <==> y in KeySet(s) - {x}
    {
      RemoveFirstMembers(s, x, y);
    }
  }

  /** What is left around position `k` of a strictly ascending list is not its key `k`. */
  lemma RemovedNotEqual(s: seq<int>, k: int, y: int)
    requires StrictlySorted(s) && 0 <= k < |s| && y in s[..k] + s[k + 1..]
    ensures y in s && y != s[k]
  {
    var r := s[..k] + s[k + 1..];
    var m :| 0 <= m < |r| && r[m] == y;
    if m < k {
      assert s[m] == y && s[m] < s[k];
    } else {
      assert s[m + 1] == y && s[k] < s[m + 1];
    }
  }

  /** Every key but the one at position `k` is left when it is cut out. */
  lemma KeptMember(s: seq<int>, k: int, m: int)
    requires 0 <= k < |s| && 0 <= m < |s| && m != k
    ensures s[m] in s[..k] + s[k + 1..]
  {
    var r := s[..k] + s[k + 1..];
    if m < k {
      assert r[m] == s[m];
    } else {
      assert r[m - 1] == s[m];
    }
  }

  /** The members after an insertion are the old members and the new key. */
  lemma InsertSortedMembers(s: seq<int>, v: int)
    ensures forall x :: x in InsertSorted(s, v) <==> x in s || x == v
  {
    var k := FirstNotLess(s, v);
    assert InsertSorted(s, v) == s[..k] + [v] + s[k..];
    assert s == s[..k] + s[k..];
  }

  /** Around position `k` of a strictly ascending list, the part before holds
      only smaller keys and the part after only greater ones, both ascending. */
  lemma SortedSlices(s: seq<int>, k: int)
    requires StrictlySorted(s) && 0 <= k < |s|
    ensures StrictlySorted(s[..k]) && StrictlySorted(s[k + 1..])
    ensures var before := s[..k]; forall x :: x in before ==> x < s[k]
    ensures var after := s[k + 1..]; forall x :: x in after ==> s[k] < x
  {
  }

  /** The keys of a list are those before position `k`, the one at `k` and those after it. */
  lemma KeySetAround(s: seq<int>, k: int)
    requires 0 <= k < |s|
    ensures KeySet(s) == KeySet(s[..k]) + {s[k]} + KeySet(s[k + 1..])
  {
    AroundIndex(s, k);
  }

  /** Splitting ascending keys around position `k` and adding a new key `v` to
      the side its comparison with the middle key selects leaves two ascending
      halves on either side of the middle key that together with it hold the old
      keys and `v`. */
  lemma HalvesWithKey(s: seq<int>, k: int, v: int) returns (lo: seq<int>, hi: seq<int>)
    requires StrictlySorted(s) && 0 <= k < |s| && v !in s
    ensures lo == if v < s[k] then InsertSorted(s[..k], v) else s[..k]
    ensures hi == if v < s[k] then s[k + 1..] else InsertSorted(s[k + 1..], v)
    ensures StrictlySorted(lo) && StrictlySorted(hi)
    ensures (forall x :: x in lo ==> x < s[k]) && (forall x :: x in hi ==> s[k] < x)
    ensures KeySet(lo) + {s[k]} + KeySet(hi) == KeySet(s) + {v}
  {
    if v < s[k] {
      lo, hi := HalvesBelow(s, k, v);
    } else {
      lo, hi := HalvesAbove(s, k, v);
    }
  }

  /** `HalvesWithKey` when the new key goes to the left half. */
  lemma HalvesBelow(s: seq<int>, k: int, v: int) returns (lo: seq<int>, hi: seq<int>)
    requires StrictlySorted(s) && 0 <= k < |s| && v !in s && v < s[k]
    ensures lo == InsertSorted(s[..k], v) && hi == s[k + 1..]
    ensures StrictlySorted(lo) && StrictlySorted(hi)
    ensures (forall x :: x in lo ==> x < s[k]) && (forall x :: x in hi ==> s[k] < x)
    ensures KeySet(lo) + {s[k]} + KeySet(hi) == KeySet(s) + {v}
  {
    var before, after := s[..k], s[k + 1..];
    SortedSlices(s, k);
    KeySetAround(s, k);
    InsertSortedKeepsOrder(before, v);
    InsertSortedMembers(before, v);
    lo, hi := InsertSorted(before, v), after;
    AddedKeySet(before, s[k], after, lo, hi, v);
  }

  /** `HalvesWithKey` when the new key goes to the right half. */
  lemma HalvesAbove(s: seq<int>, k: int, v: int) returns (lo: seq<int>, hi: seq<int>)
    requires StrictlySorted(s) && 0 <= k < |s| && v !in s && s[k] < v
    ensures lo == s[..k] && hi == InsertSorted(s[k + 1..], v)
    ensures StrictlySorted(lo) && StrictlySorted(hi)
    ensures (forall x :: x in lo ==> x < s[k]) && (forall x :: x in hi ==> s[k] < x)
    ensures KeySet(lo) + {s[k]} + KeySet(hi) == KeySet(s) + {v}
  {
    var before, after := s[..k], s[k + 1..];
    SortedSlices(s, k);
    KeySetAround(s, k);
    InsertSortedKeepsOrder(after, v);
    InsertSortedMembers(after, v);
    lo, hi := before, InsertSorted(after, v);
    AddedKeySet(before, s[k], after, lo, hi, v);
  }

  /** Adding `v` to one of two key lists around `mid` adds it to their key set. */
  lemma AddedKeySet(before: seq<int>, mid: int, after: seq<int>, lo: seq<int>, hi: seq<int>, v: int)
    requires ((forall x :: x in lo <==> x in before || x == v) && hi == after) ||
             (lo == before && (forall x :: x in hi <==> x in after || x == v))
    ensures KeySet(lo) + {mid} + KeySet(hi) == KeySet(before) + {mid} + KeySet(after) + {v}
  {
    forall x
      ensures x in KeySet(lo) + {mid} + KeySet(hi) <==> x in KeySet(before) + {mid} + KeySet(after) + {v}
    {
      assert x in KeySet(lo) <==> x in lo;
      assert x in KeySet(hi) <==> x in hi;
      assert x in KeySet(before) <==> x in before;
      assert x in KeySet(after) <==> x in after;
    }
  }

  /** Overwriting one key trades it for the new one in the multiset. */
  lemma UpdateMultiset(s: seq<int>, j: int, x: int)
    requires 0 <= j < |s|
    ensures multiset(s[j := x]) == multiset(s) - multiset{s[j]} + multiset{x}
  {
    AroundIndex(s, j);
    assert s[j := x] == s[..j] + [x] + s[j + 1..];
    assert s == s[..j] + [s[j]] + s[j + 1..];
  }

  /** A key that fits between the neighbours of position `j` can replace the key there. */
  lemma SeparatorUpdate(K: seq<int>, j: int, x: int)
    requires StrictlySorted(K) && 0 <= j < |K|
    requires 0 < j ==> K[j - 1] < x
    requires j + 1 < |K| ==> x < K[j + 1]
    ensures StrictlySorted(K[j := x])
  {
    var K' := K[j := x];
    forall i, m | 0 <= i < m < |K'|
      ensures K'[i] < K'[m]
    {
      if m == j {
        assert K[i] <= K[j - 1];
      } else if i == j {
        assert K[j + 1] <= K[m];
      }
    }
  }

  /** Keys of a donor, a receiver and the separator between them, as a borrow
      moves them: the receiver drops `v` and takes the separator `K[j]`, whose
      place goes to the donor's key `kn`, which the donor drops. The three lists
      lose exactly `v` between them. */
  lemma BorrowMultiset(D: seq<int>, K: seq<int>, N: seq<int>, j: int, kn: int, v: int)
    requires kn in D && 0 <= j < |K| && v in N
    ensures multiset(InsertSorted(RemoveFirst(N, v), K[j])) + multiset(K[j := kn]) + multiset(RemoveFirst(D, kn)) ==
      multiset(N) + multiset(K) + multiset(D) - multiset{v}
  {
    UpdateMultiset(K, j, kn);
    assert K[j] in K;
    MultisetShuffle(multiset(D), multiset(K), multiset(N), kn, K[j], v);
  }

  /** Moving `kn` from the first bag into the second, `kj` from the second into the
      third, and dropping `v` from the third loses only `v` overall. */
  lemma MultisetShuffle(mD: multiset<int>, mK: multiset<int>, mN: multiset<int>, kn: int, kj: int, v: int)
    requires kn in mD && kj in mK && v in mN
    ensures (mN - multiset{v} + multiset{kj}) + (mK - multiset{kj} + multiset{kn}) + (mD - multiset{kn}) ==
      mN + mK + mD - multiset{v}
  {
    forall x
      ensures ((mN - multiset{v} + multiset{kj}) + (mK - multiset{kj} + multiset{kn}) + (mD - multiset{kn}))[x] ==
        (mN + mK + mD - multiset{v})[x]
    {
    }
  }

  /** Dropping a key from an ascending list keeps it ascending and keeps every other key. */
  lemma DropKey(s: seq<int>, x: int)
    requires StrictlySorted(s)
    ensures var r := RemoveFirst(s, x);
      StrictlySorted(r) && forall y :: y in r <==> y in s && y != x
  {
    RemoveFirstKeepsOrder(s, x);
    forall y
      ensures y in RemoveFirst(s, x) <==> y in s && y != x
    {
      RemoveFirstMembers(s, x, y);
    }
  }

  /** Dropping `v` from an ascending list and inserting a key `k` it does not hold
      keeps it ascending, with members the old ones but `v`, and `k`. */
  lemma SwapKey(s: seq<int>, v: int, k: int)
    requires StrictlySorted(s) && k !in s
    ensures var r := InsertSorted(RemoveFirst(s, v), k);
      StrictlySorted(r) && forall y :: y in r <==> (y in s && y != v) || y == k
  {
    DropKey(s, v);
    InsertSortedKeepsOrder(RemoveFirst(s, v), k);
    InsertSortedMembers(RemoveFirst(s, v), k);
  }

  /** Borrowing the donor's last key through separator `K[j]` into the receiver
      on its right keeps all three lists strictly ascending and keeps the
      separators around both of them in order. */
  lemma BorrowFromLeft(D: seq<int>, K: seq<int>, N: seq<int>, j: int, v: int)
    requires StrictlySorted(D) && StrictlySorted(K) && StrictlySorted(N)
    requires |D| > 0 && 0 <= j < |K| && v in N
    requires Separated(K, j, KeySet(D)) && Separated(K, j + 1, KeySet(N))
    ensures var kn := D[|D| - 1];
      var D', K', N' := RemoveFirst(D, kn), K[j := kn], InsertSorted(RemoveFirst(N, v), K[j]);
      StrictlySorted(D') && StrictlySorted(K') && StrictlySorted(N') &&
      Separated(K', j, KeySet(D')) && Separated(K', j + 1, KeySet(N')) &&
      multiset(N') + multiset(K') + multiset(D') == multiset(N) + multiset(K) + multiset(D) - multiset{v}
  {
    var kn := D[|D| - 1];
    assert kn in KeySet(D);
    var D', K', N' := RemoveFirst(D, kn), K[j := kn], InsertSorted(RemoveFirst(N, v), K[j]);
    DropKey(D, kn);
    assert K[j] !in KeySet(N);
    SwapKey(N, v, K[j]);
    if j + 1 < |K| {
      assert kn < K[j] < K[j + 1];
    }
    SeparatorUpdate(K, j, kn);
    forall x | x in KeySet(D')
      ensures (0 < j ==> K'[j - 1] < x) && x < K'[j]
    {
      assert x in KeySet(D) && x != kn;
      var m :| 0 <= m < |D| && D[m] == x;
    }
    forall x | x in KeySet(N')
      ensures K'[j] < x && (j + 1 < |K'| ==> x < K'[j + 1])
    {
      assert x == K[j] || x in KeySet(N);
    }
    BorrowMultiset(D, K, N, j, kn, v);
  }

  /** Borrowing the donor's first key through separator `K[j]` into the receiver
      on its left keeps all three lists strictly ascending and keeps the
      separators around both of them in order. */
  lemma BorrowFromRight(D: seq<int>, K: seq<int>, N: seq<int>, j: int, v: int)
    requires StrictlySorted(D) && StrictlySorted(K) && StrictlySorted(N)
    requires |D| > 0 && 0 <= j < |K| && v in N
    requires Separated(K, j, KeySet(N)) && Separated(K, j + 1, KeySet(D))
    ensures var kn := D[0];
      var D', K', N' := RemoveFirst(D, kn), K[j := kn], InsertSorted(RemoveFirst(N, v), K[j]);
      StrictlySorted(D') && StrictlySorted(K') && StrictlySorted(N') &&
      Separated(K', j, KeySet(N')) && Separated(K', j + 1, KeySet(D')) &&
      multiset(N') + multiset(K') + multiset(D') == multiset(N) + multiset(K) + multiset(D) - multiset{v}
  {
    var kn := D[0];
    assert kn in KeySet(D);
    var D', K', N' := RemoveFirst(D, kn), K[j := kn], InsertSorted(RemoveFirst(N, v), K[j]);
    DropKey(D, kn);
    assert K[j] !in KeySet(N);
    SwapKey(N, v, K[j]);
    if 0 < j {
      assert K[j - 1] < K[j] < kn;
    }
    SeparatorUpdate(K, j, kn);
    forall x | x in KeySet(D')
      ensures kn < x && (j + 1 < |K'| ==> x < K'[j + 1])
    {
      assert x in KeySet(D) && x != kn;
      var m :| 0 <= m < |D| && D[m] == x;
    }
    forall x | x in KeySet(N')
      ensures (0 < j ==> K'[j - 1] < x) && x < K'[j]
    {
      assert x == K[j] || x in KeySet(N);
    }
    BorrowMultiset(D, K, N, j, kn, v);
  }

  /** Two ascending lists on either side of a key join, around it, into one
      ascending list holding the keys of all three. */
  lemma JoinAround(lo: seq<int>, k: int, hi: seq<int>)
    requires StrictlySorted(lo) && StrictlySorted(hi)
    requires (forall x :: x in lo ==> x < k) && (forall x :: x in hi ==> k < x)
    ensures StrictlySorted(lo + [k] + hi)
    ensures KeySet(lo + [k] + hi) == KeySet(lo) + {k} + KeySet(hi)
  {
    var s := lo + [k] + hi;
    forall i, j | 0 <= i < j < |s|
      ensures s[i] < s[j]
    {
      if j < |lo| {
      } else if i < |lo| {
        assert s[i] in lo;
        if j > |lo| {
          assert s[j] == hi[j - |lo| - 1] && s[j] in hi;
        }
      } else if i > |lo| {
        assert s[i] == hi[i - |lo| - 1] && s[j] == hi[j - |lo| - 1];
      } else {
        assert s[j] == hi[j - |lo| - 1] && s[j] in hi;
      }
    }
  }

  /** Keys on the low side of the one-key list `[k]` are below `k`. */
  lemma BelowKey(s: seq<int>, k: int)
    requires Separated([k], 0, KeySet(s))
    ensures forall x :: x in s ==> x < k
  {
    forall x | x in s
      ensures x < k
    {
      assert x in KeySet(s);
    }
  }

  /** Keys on the high side of the one-key list `[k]` are above `k`. */
  lemma AboveKey(s: seq<int>, k: int)
    requires Separated([k], 1, KeySet(s))
    ensures forall x :: x in s ==> k < x
  {
    forall x | x in s
      ensures k < x
    {
      assert x in KeySet(s);
    }
  }

  /** Dropping `v` from one of two ascending lists that lie on either side of
      the key `k`, then joining them around `k`: an ascending list holding the
      keys of all three but `v`. */
  lemma DropAndJoin(lo: seq<int>, k: int, hi: seq<int>, v: int, fromLo: bool)
    requires StrictlySorted(lo) && StrictlySorted(hi)
    requires Separated([k], 0, KeySet(lo)) && Separated([k], 1, KeySet(hi))
    requires if fromLo then v in lo else v in hi
    ensures var lo', hi' := (if fromLo then RemoveFirst(lo, v) else lo), (if fromLo then hi else RemoveFirst(hi, v));
      StrictlySorted(lo' + [k] + hi') &&
      KeySet(lo' + [k] + hi') == KeySet(lo) + {k} + KeySet(hi) - {v}
  {
    var lo', hi' := (if fromLo then RemoveFirst(lo, v) else lo), (if fromLo then hi else RemoveFirst(hi, v));
    if fromLo {
      RemoveSortedKey(lo, v);
      assert v in KeySet(lo) && v < k && v !in KeySet(hi);
    } else {
      RemoveSortedKey(hi, v);
      assert v in KeySet(hi) && k < v && v !in KeySet(lo);
    }
    BelowKey(lo', k);
    AboveKey(hi', k);
    JoinAround(lo', k, hi');
    DropFromOneSide(KeySet(lo), k, KeySet(hi), v, KeySet(lo'), KeySet(hi'));
  }

  /** Taking `v` out of one of two sets that it is the only one of to hold,
      next to a key other than `v`. */
  lemma DropFromOneSide(lo: set<int>, k: int, hi: set<int>, v: int, lo': set<int>, hi': set<int>)
    requires v != k
    requires (lo' == lo - {v} && hi' == hi && v !in hi) || (lo' == lo && hi' == hi - {v} && v !in lo)
    ensures lo' + {k} + hi' == lo + {k} + hi - {v}
  {
  }
  /** A key strictly inside the gap at child position `j` of ascending keys is not one of them. */
  lemma NotAKey(s: seq<int>, j: int, v: int)
    requires StrictlySorted(s) && 0 <= j <= |s| && Separated(s, j, {v})
    ensures v !in s
  {
    forall m | 0 <= m < |s|
      ensures s[m] != v
    {
      if m < j {
        assert s[m] <= s[j - 1];
      } else {
        assert s[j] <= s[m];
      }
    }
  }

  /** Two ascending lists on either side of the key `k`, joined without it: an
      ascending list holding the keys of both. */
  lemma JoinWithout(lo: seq<int>, k: int, hi: seq<int>)
    requires StrictlySorted(lo) && StrictlySorted(hi)
    requires Separated([k], 0, KeySet(lo)) && Separated([k], 1, KeySet(hi))
    ensures StrictlySorted(lo + hi) && KeySet(lo + hi) == KeySet(lo) + KeySet(hi)
  {
    BelowKey(lo, k);
    AboveKey(hi, k);
    var s := lo + hi;
    forall i, j | 0 <= i < j < |s|
      ensures s[i] < s[j]
    {
      if j < |lo| {
      } else if i < |lo| {
        assert s[i] in lo && s[j] in hi;
      } else {
        assert s[i] == hi[i - |lo|] && s[j] == hi[j - |lo|];
      }
    }
  }
  /** Overwriting key `j` of an ascending list trades that key for the new one. */
  lemma ReplacedKeySet(K: seq<int>, j: int, x: int)
    requires StrictlySorted(K) && 0 <= j < |K|
    ensures KeySet(K[j := x]) == KeySet(K) - {K[j]} + {x}
  {
    var K' := K[j := x];
    forall y
      ensures y in KeySet(K') <==> y in KeySet(K) - {K[j]} + {x}
    {
      if y in KeySet(K') && y != x {
        var m :| 0 <= m < |K'| && K'[m] == y;
        assert m != j && K[m] == y;
      }
      if y in KeySet(K) - {K[j]} {
        var m :| 0 <= m < |K| && K[m] == y;
        assert m != j && K'[m] == y;
      }
      assert K'[j] == x;
    }
  }
}
