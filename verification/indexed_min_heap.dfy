/** A binary min-heap of `(key, score)` nodes kept in a list, with a map from each
    key to its node's position so that a key's score can be updated in place. */
module IndexedMinHeap {
  import opened Common

  datatype Node<K> = Node(key: K, score: int)

  // ---------------------------------------------------------------------------
  // Heap shape on a list.

  function Parent(i: int): int
  {
    (i - 1) / 2
  }

  /** No child scores below its parent. */
  ghost predicate HeapOrdered<K>(s: seq<Node<K>>)
  {
    forall i {:trigger Parent(i)} :: 0 < i < |s| ==> s[Parent(i)].score <= s[i].score
  }

  /** Every edge is ordered except possibly the one from `k` up to its parent, and
      `k`'s parent is no larger than `k`'s children: what swimming `k` repairs. */
  ghost predicate SwimReady<K>(s: seq<Node<K>>, k: int)
  {
    && (forall i {:trigger Parent(i)} :: 0 < i < |s| && i != k ==> s[Parent(i)].score <= s[i].score)
    && Bridged(s, k)
  }

  /** Every edge not touching `k` is ordered, and `k`'s parent is no larger than
      `k`'s children: what holds once the score at `k` has been overwritten. */
  ghost predicate SinkReady<K>(s: seq<Node<K>>, k: int)
  {
    && (forall i {:trigger Parent(i)} :: 0 < i < |s| && i != k && Parent(i) != k ==> s[Parent(i)].score <= s[i].score)
    && Bridged(s, k)
  }

  ghost predicate Bridged<K>(s: seq<Node<K>>, k: int)
  {
    0 < k < |s| ==> forall c {:trigger Parent(c)} :: 0 < c < |s| && Parent(c) == k ==> s[Parent(k)].score <= s[c].score
  }

  /** `key_to_index_map[k] == i` exactly when `lst[i].key == k`. */
  ghost predicate IndexConsistent<K>(s: seq<Node<K>>, m: map<K, int>)
  {
    && (forall k :: k in m ==> 0 <= m[k] < |s| && s[m[k]].key == k)
    && (forall i :: 0 <= i < |s| ==> s[i].key in m && m[s[i].key] == i)
  }

  function Swapped<K>(s: seq<Node<K>>, i: int, j: int): (r: seq<Node<K>>)
    requires 0 <= i < |s| && 0 <= j < |s|
    ensures |r| == |s| && r[i] == s[j] && r[j] == s[i]
    ensures forall k :: 0 <= k < |s| && k != i && k != j ==> r[k] == s[k]
  {
    s[i := s[j]][j := s[i]]
  }

  lemma SwapPermutes<K>(s: seq<Node<K>>, i: int, j: int)
    requires 0 <= i < |s| && 0 <= j < |s|
    ensures multiset(Swapped(s, i, j)) == multiset(s)
  {
    var t := s[i := s[j]];
    assert multiset(t) == multiset(s) - multiset{s[i]} + multiset{s[j]};
    assert t[j] == s[j];
    assert multiset(t[j := s[i]]) == multiset(t) - multiset{t[j]} + multiset{s[i]};
  }

  /** What `__swim` does to the list. */
  function SwimF<K>(s: seq<Node<K>>, idx: int): (r: seq<Node<K>>)
    requires 0 <= idx < |s|
    ensures |r| == |s|
    decreases idx
  {
    if idx > 0 && s[idx].score < s[Parent(idx)].score then
      SwimF(Swapped(s, idx, Parent(idx)), Parent(idx))
    else s
  }

  /** The child `__sink` compares with: the left one when it is the last node or
      strictly smaller than the right one, otherwise the right one. */
  function SinkChild<K>(s: seq<Node<K>>, idx: int): (c: int)
    requires 0 <= idx && idx * 2 + 1 < |s|
    ensures Parent(c) == idx && 0 < c < |s|
    ensures forall d {:trigger Parent(d)} :: 0 < d < |s| && Parent(d) == idx ==> s[c].score <= s[d].score
  {
    if idx * 2 + 2 == |s| || s[idx * 2 + 1].score < s[idx * 2 + 2].score then idx * 2 + 1 else idx * 2 + 2
  }

  /** What `__sink` does to the list. */
  function SinkF<K>(s: seq<Node<K>>, idx: int): (r: seq<Node<K>>)
    requires 0 <= idx < |s|
    ensures |r| == |s|
    decreases |s| - idx
  {
    if idx * 2 + 1 < |s| then
      var c := SinkChild(s, idx);
      if s[idx].score > s[c].score then SinkF(Swapped(s, idx, c), c) else s
    else s
  }

  // ---------------------------------------------------------------------------
  // Swim and sink only reorder the nodes, and they restore the heap order.

  lemma {:induction false} SwimPermutes<K>(s: seq<Node<K>>, idx: int)
    requires 0 <= idx < |s|
    ensures multiset(SwimF(s, idx)) == multiset(s)
    decreases idx
  {
    if idx > 0 && s[idx].score < s[Parent(idx)].score {
      SwapPermutes(s, idx, Parent(idx));
      SwimPermutes(Swapped(s, idx, Parent(idx)), Parent(idx));
    }
  }

  lemma {:induction false} SinkPermutes<K>(s: seq<Node<K>>, idx: int)
    requires 0 <= idx < |s|
    ensures multiset(SinkF(s, idx)) == multiset(s)
    decreases |s| - idx
  {
    if idx * 2 + 1 < |s| {
      var c := SinkChild(s, idx);
      if s[idx].score > s[c].score {
        SwapPermutes(s, idx, c);
        SinkPermutes(Swapped(s, idx, c), c);
      }
    }
  }

  lemma {:induction false} SwimRestoresOrder<K>(s: seq<Node<K>>, idx: int)
    requires 0 <= idx < |s| && SwimReady(s, idx)
    ensures HeapOrdered(SwimF(s, idx))
    decreases idx
  {
    if idx > 0 && s[idx].score < s[Parent(idx)].score {
      var p := Parent(idx);
      SwimStep(s, idx, p);
      SwimRestoresOrder(Swapped(s, idx, p), p);
    } else if idx > 0 {
      assert s[Parent(idx)].score <= s[idx].score;
    }
  }

  /** One exchange of `__swim`: the smaller node moves up, and the list is ready
      to swim from the parent's place. */
  lemma SwimStep<K>(s: seq<Node<K>>, idx: int, p: int)
    requires 0 < idx < |s| && p == Parent(idx) && SwimReady(s, idx)
    requires s[idx].score < s[p].score
    ensures SwimReady(Swapped(s, idx, p), p)
  {
    var t := Swapped(s, idx, p);
    forall i {:trigger Parent(i)} | 0 < i < |t| && i != p
      ensures t[Parent(i)].score <= t[i].score
    {
      var q := Parent(i);
      if i == idx {
        assert t[q] == s[idx] && t[i] == s[p];
      } else if q == p {
        assert t[q] == s[idx] && t[i] == s[i];
        assert s[p].score <= s[i].score;
      } else if q == idx {
        assert t[q] == s[p] && t[i] == s[i];
      } else {
        assert t[q] == s[q] && t[i] == s[i];
      }
    }
    if 0 < p {
      forall c {:trigger Parent(c)} | 0 < c < |t| && Parent(c) == p
        ensures t[Parent(p)].score <= t[c].score
      {
        assert t[Parent(p)] == s[Parent(p)];
        assert s[Parent(p)].score <= s[p].score;
        if c != idx {
          assert s[p].score <= s[c].score;
        }
      }
    }
  }

  /** From a position whose own parent edge is ordered, sinking yields a heap. */
  lemma {:induction false} SinkRestoresOrder<K>(s: seq<Node<K>>, idx: int)
    requires 0 <= idx < |s| && SinkReady(s, idx)
    requires idx > 0 ==> s[Parent(idx)].score <= s[idx].score
    ensures HeapOrdered(SinkF(s, idx))
    decreases |s| - idx
  {
    if idx * 2 + 1 < |s| {
      var c := SinkChild(s, idx);
      if s[idx].score > s[c].score {
        SinkStep(s, idx, c);
        SinkRestoresOrder(Swapped(s, idx, c), c);
      }
    }
  }

  /** One exchange of `__sink`: the smaller child moves up, and the sinking node is
      ready to sink further from the child's place. */
  lemma SinkStep<K>(s: seq<Node<K>>, idx: int, c: int)
    requires 0 <= idx && idx * 2 + 1 < |s| && SinkReady(s, idx)
    requires c == SinkChild(s, idx) && s[idx].score > s[c].score
    ensures SinkReady(Swapped(s, idx, c), c)
    ensures Swapped(s, idx, c)[idx].score <= Swapped(s, idx, c)[c].score
  {
    SinkStepEdges(s, idx, c);
    SinkStepBridge(s, idx, c);
  }

  lemma SinkStepEdges<K>(s: seq<Node<K>>, idx: int, c: int)
    requires 0 <= idx && idx * 2 + 1 < |s| && SinkReady(s, idx)
    requires c == SinkChild(s, idx) && s[idx].score > s[c].score
    ensures var t := Swapped(s, idx, c);
      forall i {:trigger Parent(i)} :: 0 < i < |t| && i != c && Parent(i) != c ==> t[Parent(i)].score <= t[i].score
  {
    var t := Swapped(s, idx, c);
    forall i {:trigger Parent(i)} | 0 < i < |t| && i != c && Parent(i) != c
      ensures t[Parent(i)].score <= t[i].score
    {
      var q := Parent(i);
      if i == idx {
        assert t[q] == s[q] && t[i] == s[c];
        assert Bridged(s, idx);
      } else if q == idx {
        assert t[q] == s[c] && t[i] == s[i];
      } else {
        assert t[q] == s[q] && t[i] == s[i];
      }
    }
  }

  lemma SinkStepBridge<K>(s: seq<Node<K>>, idx: int, c: int)
    requires 0 <= idx && idx * 2 + 1 < |s| && SinkReady(s, idx)
    requires c == SinkChild(s, idx) && s[idx].score > s[c].score
    ensures Bridged(Swapped(s, idx, c), c)
  {
    var t := Swapped(s, idx, c);
    assert t[idx] == s[c];
    forall g {:trigger Parent(g)} | 0 < g < |t| && Parent(g) == c
      ensures t[Parent(c)].score <= t[g].score
    {
      assert t[g] == s[g];
      assert s[c].score <= s[g].score;
    }
  }

  /** Sinking leaves the list ready to swim from the same position; if it moved
      anything, the list is already a heap. */
  lemma {:induction false} SinkThenSwimReady<K>(s: seq<Node<K>>, idx: int)
    requires 0 <= idx < |s| && SinkReady(s, idx)
    ensures SwimReady(SinkF(s, idx), idx)
  {
    if idx * 2 + 1 < |s| {
      var c := SinkChild(s, idx);
      if s[idx].score > s[c].score {
        SinkStep(s, idx, c);
        SinkRestoresOrder(Swapped(s, idx, c), c);
        HeapIsSwimReady(SinkF(s, idx), idx);
      }
    }
  }

  lemma HeapIsSwimReady<K>(s: seq<Node<K>>, k: int)
    requires HeapOrdered(s)
    ensures SwimReady(s, k)
  {
    if 0 < k < |s| {
      assert s[Parent(k)].score <= s[k].score;
    }
  }

  ghost predicate IsMinimum<K>(n: Node<K>, s: seq<Node<K>>)
  {
    forall i :: 0 <= i < |s| ==> n.score <= s[i].score
  }

  lemma RootIsMinimumOfAll<K>(s: seq<Node<K>>)
    requires HeapOrdered(s) && |s| > 0
    ensures IsMinimum(s[0], s)
  {
    forall i | 0 <= i < |s| ensures s[0].score <= s[i].score {
      RootIsMinimum(s, i);
    }
  }

  /** The first node of a heap has a minimum score. */
  lemma {:induction false} RootIsMinimum<K>(s: seq<Node<K>>, i: int)
    requires HeapOrdered(s) && 0 <= i < |s|
    ensures s[0].score <= s[i].score
    decreases i
  {
    if i > 0 {
      RootIsMinimum(s, Parent(i));
    }
  }

  // ---------------------------------------------------------------------------
  // The key-to-position map follows the list.

  lemma SwapKeepsIndex<K>(s: seq<Node<K>>, m: map<K, int>, i: int, j: int)
    requires 0 <= i < |s| && 0 <= j < |s| && IndexConsistent(s, m)
    ensures IndexConsistent(Swapped(s, i, j), m[s[j].key := i][s[i].key := j])
  {
    var t := Swapped(s, i, j);
    var m' := m[s[j].key := i][s[i].key := j];
    forall k | k in m'
      ensures 0 <= m'[k] < |t| && t[m'[k]].key == k
    {
      if k != s[i].key && k != s[j].key {
        assert m[k] != i && m[k] != j;
      }
    }
  }

  /** A list whose keys are distinct, with its map, grows by a node of a new key. */
  lemma AppendKeepsIndex<K>(s: seq<Node<K>>, m: map<K, int>, n: Node<K>)
    requires IndexConsistent(s, m) && n.key !in m
    ensures IndexConsistent(s + [n], m[n.key := |s|])
  {
  }

  /** Appending a node and swimming it yields a heap with that node added. */
  lemma InsertShape<K>(s: seq<Node<K>>, n: Node<K>)
    requires HeapOrdered(s)
    ensures HeapOrdered(SwimF(s + [n], |s|))
    ensures multiset(SwimF(s + [n], |s|)) == multiset(s) + multiset{n}
  {
    var t := s + [n];
    forall i {:trigger Parent(i)} | 0 < i < |t| && i != |s|
      ensures t[Parent(i)].score <= t[i].score
    {
      assert t[Parent(i)] == s[Parent(i)] && t[i] == s[i];
    }
    SwimRestoresOrder(t, |s|);
    SwimPermutes(t, |s|);
  }

  lemma DropLastKeepsIndex<K>(s: seq<Node<K>>, m: map<K, int>)
    requires IndexConsistent(s, m) && |s| > 0
    ensures IndexConsistent(s[..|s| - 1], m - {s[|s| - 1].key})
  {
    var t := s[..|s| - 1];
    var m' := m - {s[|s| - 1].key};
    forall k | k in m'
      ensures 0 <= m'[k] < |t|
    {
      assert m[k] != |s| - 1;
    }
  }

  lemma RescoreKeepsIndex<K>(s: seq<Node<K>>, m: map<K, int>, i: int, score: int)
    requires IndexConsistent(s, m) && 0 <= i < |s|
    ensures IndexConsistent(s[i := Node(s[i].key, score)], m)
  {
  }

  /** Overwriting one score leaves a heap ready to sink from that position. */
  lemma RescoreIsSinkReady<K>(s: seq<Node<K>>, i: int, score: int)
    requires HeapOrdered(s) && 0 <= i < |s|
    ensures SinkReady(s[i := Node(s[i].key, score)], i)
  {
    var t := s[i := Node(s[i].key, score)];
    if 0 < i {
      forall c | 0 < c < |t| && Parent(c) == i
        ensures t[Parent(i)].score <= t[c].score
      {
        assert s[Parent(i)].score <= s[i].score <= s[c].score;
      }
    }
  }

  /** Removing the last node (after it was swapped to the end) leaves a list ready
      to sink from the root. */
  lemma SwapRootAndDropIsSinkReady<K>(s: seq<Node<K>>)
    requires HeapOrdered(s) && |s| >= 2
    ensures SinkReady(Swapped(s, 0, |s| - 1)[..|s| - 1], 0)
  {
    var t := Swapped(s, 0, |s| - 1)[..|s| - 1];
    forall i {:trigger Parent(i)} | 0 < i < |t| && Parent(i) != 0
      ensures t[Parent(i)].score <= t[i].score
    {
      assert t[i] == s[i] && t[Parent(i)] == s[Parent(i)];
    }
  }

  /** Swapping the root with the last node and dropping the last position removes
      the root, and leaves a list from which sinking the root yields a heap. */
  lemma PopShape<K>(s: seq<Node<K>>)
    requires HeapOrdered(s) && |s| >= 2
    ensures var t := Swapped(s, 0, |s| - 1)[..|s| - 1];
      multiset(t) == multiset(s) - multiset{s[0]} && HeapOrdered(SinkF(t, 0))
  {
    var u := Swapped(s, 0, |s| - 1);
    SwapPermutes(s, 0, |s| - 1);
    assert u == u[..|s| - 1] + [s[0]];
    SwapRootAndDropIsSinkReady(s);
    SinkThenSwimReady(u[..|s| - 1], 0);
  }

  /** What `insert` does to the list, for a key not yet present. */
  function Inserted<K>(s: seq<Node<K>>, key: K, score: int): seq<Node<K>>
  {
    SwimF(s + [Node(key, score)], |s|)
  }

  /** The array order after the unit test's five insertions. */
  lemma IterationOrderExample()
    ensures
      var s0: seq<Node<string>> := [];
      var s1 := Inserted(s0, "A", 100);
      var s2 := Inserted(s1, "B", 99);
      var s3 := Inserted(s2, "C", 98);
      var s4 := Inserted(s3, "D", 97);
      var s5 := Inserted(s4, "E", 96);
      s5 == [Node("E", 96), Node("D", 97), Node("B", 99), Node("A", 100), Node("C", 98)]
  {
    var a, b, c, d, e := Node("A", 100), Node("B", 99), Node("C", 98), Node("D", 97), Node("E", 96);
    SwimTwoExample(a, b);
    SwimThreeExample(b, a, c);
    SwimFourExample(c, a, b, d);
    SwimFiveExample(d, c, b, a, e);
  }

  lemma SwimTwoExample(a: Node<string>, b: Node<string>)
    requires a == Node("A", 100) && b == Node("B", 99)
    ensures Inserted([], "A", 100) == [a] && Inserted([a], "B", 99) == [b, a]
  {
    assert Swapped([a, b], 1, 0) == [b, a];
  }

  lemma SwimThreeExample(b: Node<string>, a: Node<string>, c: Node<string>)
    requires a == Node("A", 100) && b == Node("B", 99) && c == Node("C", 98)
    ensures Inserted([b, a], "C", 98) == [c, a, b]
  {
    assert Swapped([b, a, c], 2, 0) == [c, a, b];
  }

  lemma SwimFourExample(c: Node<string>, a: Node<string>, b: Node<string>, d: Node<string>)
    requires a == Node("A", 100) && b == Node("B", 99) && c == Node("C", 98) && d == Node("D", 97)
    ensures Inserted([c, a, b], "D", 97) == [d, c, b, a]
  {
    assert Swapped([c, a, b, d], 3, 1) == [c, d, b, a];
    assert Swapped([c, d, b, a], 1, 0) == [d, c, b, a];
  }

  lemma SwimFiveExample(d: Node<string>, c: Node<string>, b: Node<string>, a: Node<string>, e: Node<string>)
    requires a == Node("A", 100) && b == Node("B", 99) && c == Node("C", 98)
    requires d == Node("D", 97) && e == Node("E", 96)
    ensures Inserted([d, c, b, a], "E", 96) == [e, d, b, a, c]
  {
    assert Swapped([d, c, b, a, e], 4, 1) == [d, e, b, a, c];
    assert Swapped([d, e, b, a, c], 1, 0) == [e, d, b, a, c];
  }

  // ---------------------------------------------------------------------------

  class IndexedMinHeap<K(==)> {
    var lst: seq<Node<K>>
    var keyToIndex: map<K, int>

    ghost predicate Valid()
      reads this
    {
      IndexConsistent(lst, keyToIndex) && HeapOrdered(lst)
    }

    constructor ()
      ensures Valid() && lst == [] && keyToIndex == map[]
    {
      lst := [];
      keyToIndex := map[];
    }

    /** The nodes in list order, as `__iter__` yields them. */
    function Items(): (r: seq<Node<K>>)
      reads this
      requires Valid()
      ensures multiset(r) == multiset(lst)
      ensures |r| > 0 ==> IsMinimum(r[0], r)
    {
      if |lst| > 0 then RootIsMinimumOfAll(lst); lst else lst
    }

    method Swap(i: int, j: int)
      requires 0 <= i < |lst| && 0 <= j < |lst| && IndexConsistent(lst, keyToIndex)
      modifies this
      ensures lst == Swapped(old(lst), i, j)
      ensures keyToIndex == old(keyToIndex)[old(lst)[j].key := i][old(lst)[i].key := j]
      ensures IndexConsistent(lst, keyToIndex) && keyToIndex.Keys == old(keyToIndex).Keys
    {
      SwapKeepsIndex(lst, keyToIndex, i, j);
      lst := lst[i := lst[j]][j := lst[i]];
      keyToIndex := keyToIndex[lst[i].key := i];
      keyToIndex := keyToIndex[lst[j].key := j];
    }

    method Swim(idx: int)
      requires 0 <= idx < |lst| && IndexConsistent(lst, keyToIndex)
      modifies this
      ensures lst == SwimF(old(lst), idx)
      ensures IndexConsistent(lst, keyToIndex) && keyToIndex.Keys == old(keyToIndex).Keys
    {
      var i := idx;
      while i > 0
        invariant 0 <= i < |lst| && IndexConsistent(lst, keyToIndex)
        invariant keyToIndex.Keys == old(keyToIndex).Keys
        invariant SwimF(lst, i) == SwimF(old(lst), idx)
        decreases i
      {
        var parent := (i - 1) / 2;
        if lst[i].score < lst[parent].score {
          Swap(i, parent);
        } else {
          break;
        }
        i := parent;
      }
    }

    method Sink(idx: int)
      requires 0 <= idx < |lst| && IndexConsistent(lst, keyToIndex)
      modifies this
      ensures lst == SinkF(old(lst), idx)
      ensures IndexConsistent(lst, keyToIndex) && keyToIndex.Keys == old(keyToIndex).Keys
    {
      var i := idx;
      while i * 2 + 1 < |lst|
        invariant 0 <= i < |lst| && IndexConsistent(lst, keyToIndex)
        invariant keyToIndex.Keys == old(keyToIndex).Keys
        invariant SinkF(lst, i) == SinkF(old(lst), idx)
        decreases |lst| - i
      {
        var child := if i * 2 + 2 == |lst| || lst[i * 2 + 1].score < lst[i * 2 + 2].score
                     then i * 2 + 1 else i * 2 + 2;
        if lst[i].score > lst[child].score {
          Swap(i, child);
        } else {
          break;
        }
        i := child;
      }
    }

    /** Adds a node for a new key; a key already present raises. */
    method Insert(key: K, score: int) returns (r: Outcome<string>)
      requires Valid()
      modifies this
      ensures Valid()
      ensures r == if key in old(keyToIndex) then Fail("key exists") else Pass
      ensures r.Pass? ==> lst == Inserted(old(lst), key, score)
      ensures r.Pass? ==> multiset(lst) == multiset(old(lst)) + multiset{Node(key, score)}
      ensures r.Pass? ==> keyToIndex.Keys == old(keyToIndex).Keys + {key}
      ensures r.Fail? ==> lst == old(lst) && keyToIndex == old(keyToIndex)
    {
      if key in keyToIndex {
        return Fail("key exists");
      }
      AppendKeepsIndex(lst, keyToIndex, Node(key, score));
      InsertShape(lst, Node(key, score));
      lst := lst + [Node(key, score)];
      keyToIndex := keyToIndex[key := |lst| - 1];
      Swim(|lst| - 1);
      r := Pass;
    }

    /** Removes and returns a node of minimum score; an empty heap raises. */
    method Pop() returns (r: Result<Node<K>, string>)
      requires Valid()
      modifies this
      ensures Valid()
      ensures r == if old(lst) == [] then Failure("heap is empty") else Success(old(lst)[0])
      ensures r.Success? ==> IsMinimum(r.value, old(lst))
      ensures r.Success? ==> multiset(lst) == multiset(old(lst)) - multiset{r.value}
      ensures r.Success? ==> keyToIndex.Keys == old(keyToIndex).Keys - {r.value.key}
      ensures r.Failure? ==> lst == old(lst) && keyToIndex == old(keyToIndex)
    {
      if lst == [] {
        return Failure("heap is empty");
      }
      RootIsMinimumOfAll(lst);
      if |lst| == 1 {
        var result := lst[0];
        DropLastKeepsIndex(lst, keyToIndex);
        lst := lst[..0];
        keyToIndex := keyToIndex - {result.key};
        return Success(result);
      }
      var result := RemoveRoot();
      r := Success(result);
    }

    /** The steps of `pop` on a heap of two or more nodes: swap the root to the
        end, remove it there, and sink the node that took its place. */
    method RemoveRoot() returns (result: Node<K>)
      requires Valid() && |lst| >= 2
      modifies this
      ensures Valid()
      ensures result == old(lst)[0]
      ensures multiset(lst) == multiset(old(lst)) - multiset{result}
      ensures keyToIndex.Keys == old(keyToIndex).Keys - {result.key}
    {
      ghost var s := lst;
      ghost var t := Swapped(s, 0, |s| - 1)[..|s| - 1];
      PopShape(s);
      Swap(0, |lst| - 1);
      result := lst[|lst| - 1];
      DropLastKeepsIndex(lst, keyToIndex);
      lst := lst[..|lst| - 1];
      keyToIndex := keyToIndex - {result.key};
      assert lst == t;
      SinkPermutes(lst, 0);
      Sink(0);
    }

    /** Gives `key` a new score; an unknown key raises. */
    method Update(key: K, score: int) returns (r: Outcome<string>)
      requires Valid()
      modifies this
      ensures Valid()
      ensures r == if key in old(keyToIndex) then Pass else Fail("key does not exist")
      ensures r.Pass? ==> multiset(lst) == multiset(old(lst)) - multiset{old(lst)[old(keyToIndex)[key]]}
                                          + multiset{Node(key, score)}
      ensures keyToIndex.Keys == old(keyToIndex).Keys
      ensures r.Fail? ==> lst == old(lst) && keyToIndex == old(keyToIndex)
    {
      if key !in keyToIndex {
        return Fail("key does not exist");
      }
      var idx := keyToIndex[key];
      RescoreKeepsIndex(lst, keyToIndex, idx, score);
      RescoreIsSinkReady(lst, idx, score);
      ghost var before := lst;
      lst := lst[idx := Node(key, score)];
      assert multiset(lst) == multiset(before) - multiset{before[idx]} + multiset{Node(key, score)};
      SinkThenSwimReady(lst, idx);
      SinkPermutes(lst, idx);
      Sink(idx);
      SwimRestoresOrder(lst, idx);
      SwimPermutes(lst, idx);
      Swim(idx);
      r := Pass;
    }
  }
}
