/** A hash table with linear probing and tombstones, and a wrapper that doubles
    the table when it is full. Keys are integers and Python's `hash` is a
    parameter: any function from keys to integers. */
module OpenAddressingHashMap {
  import opened Bits
  import opened Common

  /** A slot's content: deleting a key only sets `deleted` (a tombstone). */
  datatype Node<V> = Node(key: int, val: V, deleted: bool)

  type Slots<V> = seq<Option<Node<V>>>

  // ---------------------------------------------------------------------------
  // Probing

  /** The `t`-th slot probed for hash `h`: `(h & (n - 1) + t) & (n - 1)`. */
  function Position(h: int, t: int, n: int): (p: int)
    requires n > 0 && t >= 0
    ensures 0 <= p < n
  {
    And(And(h, n - 1) + t, n - 1)
  }

  /** What `__find` returns, probing from the `t`-th step on: the first probed slot
      that is empty or holds `key`, or -1 once every step has been tried. */
  function Probe<V>(s: Slots<V>, h: int, key: int, t: nat): (r: int)
    ensures -1 <= r < |s|
    ensures r != -1 ==> s[r].None? || s[r].value.key == key
    ensures r == -1 ==> forall u :: t <= u < |s| ==>
      s[Position(h, u, |s|)].Some? && s[Position(h, u, |s|)].value.key != key
    decreases |s| - t
  {
    if t >= |s| then -1
    else
      var p := Position(h, t, |s|);
      if s[p].None? || s[p].value.key == key then p else Probe(s, h, key, t + 1)
  }

  /** The class invariant: every occupied slot is the one probing finds for its key,
      so no empty slot lies on the probe path before it. */
  ghost predicate Findable<V>(s: Slots<V>, hash: int -> int)
  {
    forall i :: 0 <= i < |s| && s[i].Some? ==> Probe(s, hash(s[i].value.key), s[i].value.key, 0) == i
  }

  ghost predicate DistinctKeys<V>(s: Slots<V>)
  {
    forall i, j :: 0 <= i < |s| && 0 <= j < |s| && s[i].Some? && s[j].Some? && s[i].value.key == s[j].value.key ==> i == j
  }

  /** Each key occupies at most one slot. */
  lemma FindableKeysDistinct<V>(s: Slots<V>, hash: int -> int)
    requires Findable(s, hash)
    ensures DistinctKeys(s)
  {
    forall i, j | 0 <= i < |s| && 0 <= j < |s| && s[i].Some? && s[j].Some? && s[i].value.key == s[j].value.key
      ensures i == j
    {
      assert Probe(s, hash(s[i].value.key), s[i].value.key, 0) == i;
      assert Probe(s, hash(s[j].value.key), s[j].value.key, 0) == j;
    }
  }

  function KeyAt<V>(s: Slots<V>, i: int): Option<int>
    requires 0 <= i < |s|
  {
    if s[i].None? then None else Some(s[i].value.key)
  }

  /** Probing looks only at which slots are empty and at the keys in the others. */
  lemma {:induction false} ProbeSeesOnlyKeys<V>(s: Slots<V>, s': Slots<V>, h: int, key: int, t: nat)
    requires |s| == |s'| && forall i :: 0 <= i < |s| ==> KeyAt(s, i) == KeyAt(s', i)
    ensures Probe(s, h, key, t) == Probe(s', h, key, t)
    decreases |s| - t
  {
    if t < |s| {
      var p := Position(h, t, |s|);
      assert KeyAt(s, p) == KeyAt(s', p);
      ProbeSeesOnlyKeys(s, s', h, key, t + 1);
    }
  }

  /** Filling an empty slot does not change a probe that did not stop there. */
  lemma {:induction false} ProbeAfterFill<V>(s: Slots<V>, idx: int, node: Node<V>, h: int, key: int, t: nat)
    requires 0 <= idx < |s| && s[idx].None? && Probe(s, h, key, t) != idx
    ensures Probe(s[idx := Some(node)], h, key, t) == Probe(s, h, key, t)
    decreases |s| - t
  {
    if t < |s| {
      var p := Position(h, t, |s|);
      if p != idx && s[p].Some? && s[p].value.key != key {
        ProbeAfterFill(s, idx, node, h, key, t + 1);
      }
    }
  }

  /** The probe that stopped at an empty slot stops there again once its key fills it. */
  lemma {:induction false} ProbeFindsFilled<V>(s: Slots<V>, idx: int, node: Node<V>, h: int, t: nat)
    requires 0 <= idx < |s| && s[idx].None? && Probe(s, h, node.key, t) == idx
    ensures Probe(s[idx := Some(node)], h, node.key, t) == idx
    decreases |s| - t
  {
    var p := Position(h, t, |s|);
    if p != idx {
      ProbeFindsFilled(s, idx, node, h, t + 1);
    }
  }

  /** Storing `node` in the slot probing found for its key keeps every slot findable. */
  lemma StoreKeepsFindable<V>(s: Slots<V>, hash: int -> int, idx: int, node: Node<V>)
    requires Findable(s, hash) && 0 <= idx < |s|
    requires Probe(s, hash(node.key), node.key, 0) == idx
    ensures Findable(s[idx := Some(node)], hash)
  {
    var s' := s[idx := Some(node)];
    if s[idx].Some? {
      forall i | 0 <= i < |s'| && s'[i].Some?
        ensures Probe(s', hash(s'[i].value.key), s'[i].value.key, 0) == i
      {
        assert forall j :: 0 <= j < |s| ==> KeyAt(s, j) == KeyAt(s', j);
        ProbeSeesOnlyKeys(s, s', hash(s'[i].value.key), s'[i].value.key, 0);
      }
    } else {
      forall i | 0 <= i < |s'| && s'[i].Some?
        ensures Probe(s', hash(s'[i].value.key), s'[i].value.key, 0) == i
      {
        if i == idx {
          ProbeFindsFilled(s, idx, node, hash(node.key), 0);
        } else {
          ProbeAfterFill(s, idx, node, hash(s[i].value.key), s[i].value.key, 0);
        }
      }
    }
  }

  // ---------------------------------------------------------------------------
  // The live mapping

  /** The key/value pairs of the live (non-tombstoned) slots. */
  function ContentsOf<V>(s: Slots<V>): map<int, V>
  {
    if s == [] then map[]
    else
      var m := ContentsOf(s[..|s| - 1]);
      var last := s[|s| - 1];
      if last.Some? && !last.value.deleted then m[last.value.key := last.value.val] else m
  }

  /** A key with no live slot is not in the mapping. */
  lemma {:induction false} ContentsOfAbsent<V>(s: Slots<V>, k: int)
    requires forall i :: 0 <= i < |s| && s[i].Some? && s[i].value.key == k ==> s[i].value.deleted
    ensures k !in ContentsOf(s)
  {
    if s != [] {
      ContentsOfAbsent(s[..|s| - 1], k);
    }
  }

  /** A live slot's pair is in the mapping, when keys are distinct. */
  lemma {:induction false} ContentsOfSlot<V>(s: Slots<V>, i: int)
    requires DistinctKeys(s) && 0 <= i < |s| && s[i].Some? && !s[i].value.deleted
    ensures s[i].value.key in ContentsOf(s) && ContentsOf(s)[s[i].value.key] == s[i].value.val
  {
    var t := s[..|s| - 1];
    if i < |s| - 1 {
      ContentsOfSlot(t, i);
    }
  }

  /** Writing `node` into a slot that is empty or already holds its key, when no other
      slot holds that key, updates the mapping for that key only. */
  lemma {:induction false} ContentsOfStore<V>(s: Slots<V>, idx: int, node: Node<V>)
    requires 0 <= idx < |s| && (s[idx].None? || s[idx].value.key == node.key)
    requires forall i :: 0 <= i < |s| && i != idx && s[i].Some? ==> s[i].value.key != node.key
    ensures ContentsOf(s[idx := Some(node)]) ==
      if node.deleted then ContentsOf(s) - {node.key} else ContentsOf(s)[node.key := node.val]
  {
    var s' := s[idx := Some(node)];
    var t := s[..|s| - 1];
    if idx == |s| - 1 {
      assert s'[..|s| - 1] == t;
      ContentsOfAbsent(t, node.key);
    } else {
      assert s'[..|s| - 1] == t[idx := Some(node)];
      ContentsOfStore(t, idx, node);
    }
  }

  /** The live pairs in slot order, as `items` yields them. */
  function LiveItems<V>(s: Slots<V>): (r: seq<(int, V)>)
    ensures |r| <= |s|
  {
    if s == [] then []
    else
      var last := s[|s| - 1];
      LiveItems(s[..|s| - 1]) + if last.Some? && !last.value.deleted then [(last.value.key, last.value.val)] else []
  }

  /** Inserting pairs in order into an empty mapping. */
  function MapOf<V>(ps: seq<(int, V)>): map<int, V>
  {
    if ps == [] then map[] else MapOf(ps[..|ps| - 1])[ps[|ps| - 1].0 := ps[|ps| - 1].1]
  }

  /** Re-inserting the yielded pairs rebuilds exactly the live mapping. */
  lemma {:induction false} LiveItemsRebuildContents<V>(s: Slots<V>)
    ensures MapOf(LiveItems(s)) == ContentsOf(s)
  {
    if s != [] {
      var t := s[..|s| - 1];
      LiveItemsRebuildContents(t);
      var last := s[|s| - 1];
      var ps := LiveItems(s);
      if last.Some? && !last.value.deleted {
        assert ps == LiveItems(t) + [(last.value.key, last.value.val)];
        assert ps[..|ps| - 1] == LiveItems(t);
      } else {
        assert ps == LiveItems(t);
      }
    }
  }

  lemma {:induction false} MapOfHasKeys<V>(ps: seq<(int, V)>)
    ensures forall a :: 0 <= a < |ps| ==> ps[a].0 in MapOf(ps)
  {
    if ps != [] {
      MapOfHasKeys(ps[..|ps| - 1]);
      assert forall a :: 0 <= a < |ps| - 1 ==> ps[a] == ps[..|ps| - 1][a];
    }
  }

  /** With distinct keys, each key is yielded at most once. */
  lemma {:induction false} LiveItemsDistinct<V>(s: Slots<V>)
    requires DistinctKeys(s)
    ensures forall a, b :: 0 <= a < b < |LiveItems(s)| ==> LiveItems(s)[a].0 != LiveItems(s)[b].0
  {
    if s != [] {
      var t := s[..|s| - 1];
      LiveItemsDistinct(t);
      var last := s[|s| - 1];
      if last.Some? && !last.value.deleted {
        LiveItemsRebuildContents(t);
        MapOfHasKeys(LiveItems(t));
        ContentsOfAbsent(t, last.value.key);
        assert LiveItems(s) == LiveItems(t) + [(last.value.key, last.value.val)];
      } else {
        assert LiveItems(s) == LiveItems(t);
      }
    }
  }

  // ---------------------------------------------------------------------------
  // Room in a table whose size is a power of two

  /** The number of occupied slots, tombstones included. */
  function Occupied<V>(s: Slots<V>): (c: nat)
    ensures c <= |s|
  {
    if s == [] then 0 else Occupied(s[..|s| - 1]) + if s[|s| - 1].Some? then 1 else 0
  }

  lemma {:induction false} SomeSlotEmpty<V>(s: Slots<V>) returns (e: int)
    requires Occupied(s) < |s|
    ensures 0 <= e < |s| && s[e].None?
  {
    if s[|s| - 1].None? {
      e := |s| - 1;
    } else {
      e := SomeSlotEmpty(s[..|s| - 1]);
    }
  }

  lemma {:induction false} OccupiedAfterStore<V>(s: Slots<V>, idx: int, node: Node<V>)
    requires 0 <= idx < |s|
    ensures Occupied(s[idx := Some(node)]) == Occupied(s) + if s[idx].None? then 1 else 0
  {
    var s' := s[idx := Some(node)];
    if idx == |s| - 1 {
      assert s'[..|s| - 1] == s[..|s| - 1];
    } else {
      assert s'[..|s| - 1] == s[..|s| - 1][idx := Some(node)];
      OccupiedAfterStore(s[..|s| - 1], idx, node);
    }
  }

  lemma OccupiedOfEmpty<V>(n: nat)
    ensures Occupied(seq<Option<Node<V>>>(n, _ => None)) == 0
  {
    if n > 0 {
      assert seq<Option<Node<V>>>(n, _ => None)[..n - 1] == seq<Option<Node<V>>>(n - 1, _ => None);
      OccupiedOfEmpty<V>(n - 1);
    }
  }

  /** With a power-of-two size, the probes visit every slot: the mask is the
      remainder, so step `t` is slot `(h % n + t) % n`. */
  lemma ProbeVisits(h: int, n: int, e: int) returns (t: int)
    requires IsPowerOfTwo(n) && 0 <= e < n
    ensures 0 <= t < n && Position(h, t, n) == e
  {
    MaskIsMod(h, n);
    var a := h % n;
    t := if e >= a then e - a else e - a + n;
    MaskIsMod(a + t, n);
    ModOfDecomposition(a + t, n, if e >= a then 0 else 1, e);
  }

  /** A power-of-two table with an empty slot always finds a slot. */
  lemma ProbeFindsRoom<V>(s: Slots<V>, h: int, key: int)
    requires IsPowerOfTwo(|s|) && Occupied(s) < |s|
    ensures Probe(s, h, key, 0) != -1
  {
    var e := SomeSlotEmpty(s);
    var t := ProbeVisits(h, |s|, e);
  }

  /** A table of size 3 (not a power of two) masks with 2, so it never probes slot 1:
      with slots 0 and 2 taken, a new key finds no room although slot 1 is empty. */
  lemma NonPowerOfTwoSkipsSlots(h: int, key: int)
    requires key != 7 && key != 8
    ensures var s: Slots<int> := [Some(Node(7, 0, false)), None, Some(Node(8, 0, false))];
      Probe(s, h, key, 0) == -1
  {
    var s: Slots<int> := [Some(Node(7, 0, false)), None, Some(Node(8, 0, false))];
    forall t | 0 <= t < 3 ensures Position(h, t, 3) != 1 {
      assert And(And(h, 2) + t, 2) != 1 by {
        var x := And(h, 2) + t;
        assert And(x, 2) == 2 * And(x / 2, 1);
      }
    }
    assert Probe(s, h, key, 3) == -1;
    assert Position(h, 2, 3) != 1 && Position(h, 1, 3) != 1 && Position(h, 0, 3) != 1;
  }

  // ---------------------------------------------------------------------------

  class LinearProbingHashST<V> {
    const hash: int -> int
    const nodes: array<Option<Node<V>>>

    ghost predicate Valid()
      reads nodes
    {
      Findable(nodes[..], hash)
    }

    /** The live key/value mapping. */
    ghost function Contents(): map<int, V>
      reads nodes
    {
      ContentsOf(nodes[..])
    }

    constructor (bucketSize: int, hash: int -> int)
      ensures Valid() && this.hash == hash && fresh(nodes)
      ensures nodes.Length == (if bucketSize < 0 then 0 else bucketSize)
      ensures nodes[..] == seq(nodes.Length, _ => None)
      ensures Contents() == map[] && Occupied(nodes[..]) == 0
    {
      this.hash := hash;
      nodes := new Option<Node<V>>[if bucketSize < 0 then 0 else bucketSize](_ => None);
      new;
      EmptyContents<V>(nodes.Length);
      OccupiedOfEmpty<V>(nodes.Length);
    }

    /** `__find`: the probing loop. */
    method Find(key: int) returns (r: int)
      ensures r == Probe(nodes[..], hash(key), key, 0)
    {
      var n := nodes.Length;
      if n == 0 {
        return -1;
      }
      ghost var s := nodes[..];
      var initBucketIdx := And(hash(key), n - 1);
      var i := 0;
      while i < n
        invariant 0 <= i <= n
        invariant Probe(s, hash(key), key, i) == Probe(s, hash(key), key, 0)
      {
        var nxtBucketIdx := And(initBucketIdx + i, n - 1);
        assert nxtBucketIdx == Position(hash(key), i, |s|) && nodes[nxtBucketIdx] == s[nxtBucketIdx];
        if nodes[nxtBucketIdx].None? || nodes[nxtBucketIdx].value.key == key {
          return nxtBucketIdx;
        }
        i := i + 1;
      }
      return -1;
    }

    /** `__setitem__`: overwrites the value (and clears the tombstone) of a present
        key, otherwise fills the empty slot the probe found; raises when the probe
        found neither. */
    method Set(key: int, val: V) returns (r: Outcome<string>)
      requires Valid()
      modifies nodes
      ensures Valid()
      ensures r == if Probe(old(nodes[..]), hash(key), key, 0) == -1 then Fail("hash table is full") else Pass
      ensures r.Pass? ==> Contents() == old(Contents())[key := val]
      ensures r.Fail? ==> nodes[..] == old(nodes[..])
      ensures Occupied(nodes[..]) <= Occupied(old(nodes[..])) + 1
    {
      var idx := Find(key);
      if idx == -1 {
        return Fail("hash table is full");
      }
      ghost var s := nodes[..];
      FindableKeysDistinct(s, hash);
      StoreKeepsFindable(s, hash, idx, Node(key, val, false));
      ContentsOfStore(s, idx, Node(key, val, false));
      OccupiedAfterStore(s, idx, Node(key, val, false));
      if nodes[idx].Some? {
        nodes[idx] := Some(nodes[idx].value.(val := val, deleted := false));
      } else {
        nodes[idx] := Some(Node(key, val, false));
      }
      assert nodes[..] == s[idx := Some(Node(key, val, false))];
      r := Pass;
    }

    /** `__getitem__`: the value of a live key, None for an absent or deleted one. */
    method Get(key: int) returns (r: Option<V>)
      requires Valid()
      ensures r == if key in Contents() then Some(Contents()[key]) else None
    {
      var idx := Find(key);
      FindableKeysDistinct(nodes[..], hash);
      if idx == -1 || nodes[idx].None? || nodes[idx].value.deleted {
        NotFoundIsAbsent(nodes[..], hash, key);
        return None;
      }
      ContentsOfSlot(nodes[..], idx);
      return Some(nodes[idx].value.val);
    }

    /** `__delitem__`: tombstones a live key; an absent or deleted key raises. */
    method Delete(key: int) returns (r: Outcome<string>)
      requires Valid()
      modifies nodes
      ensures Valid()
      ensures r == if key in old(Contents()) then Pass else Fail("key not found")
      ensures r.Pass? ==> Contents() == old(Contents()) - {key}
      ensures forall i :: 0 <= i < nodes.Length ==> KeyAt(nodes[..], i) == KeyAt(old(nodes[..]), i)
      ensures r.Fail? ==> nodes[..] == old(nodes[..])
    {
      var idx := Find(key);
      ghost var s := nodes[..];
      FindableKeysDistinct(s, hash);
      if idx == -1 || nodes[idx].None? || nodes[idx].value.deleted {
        NotFoundIsAbsent(s, hash, key);
        return Fail("key not found");
      }
      ContentsOfSlot(s, idx);
      var node := nodes[idx].value.(deleted := true);
      ContentsOfStore(s, idx, node);
      nodes[idx] := Some(node);
      assert nodes[..] == s[idx := Some(node)];
      forall i | 0 <= i < |s| && nodes[..][i].Some?
        ensures Probe(nodes[..], hash(nodes[..][i].value.key), nodes[..][i].value.key, 0) == i
      {
        ProbeSeesOnlyKeys(s, nodes[..], hash(nodes[..][i].value.key), nodes[..][i].value.key, 0);
      }
      r := Pass;
    }

    /** `items`: the live pairs in slot order. */
    method Items() returns (r: seq<(int, V)>)
      ensures r == LiveItems(nodes[..])
    {
      r := [];
      var i := 0;
      while i < nodes.Length
        invariant 0 <= i <= nodes.Length
        invariant r == LiveItems(nodes[..i])
      {
        assert nodes[..i + 1][..i] == nodes[..i];
        if nodes[i].Some? && !nodes[i].value.deleted {
          r := r + [(nodes[i].value.key, nodes[i].value.val)];
        }
        i := i + 1;
      }
      assert nodes[..i] == nodes[..];
    }
  }

  lemma EmptyContents<V>(n: nat)
    ensures ContentsOf(seq<Option<Node<V>>>(n, _ => None)) == map[]
  {
    ContentsOfAbsentAll(seq<Option<Node<V>>>(n, _ => None));
  }

  lemma {:induction false} ContentsOfAbsentAll<V>(s: Slots<V>)
    requires forall i :: 0 <= i < |s| ==> s[i].None?
    ensures ContentsOf(s) == map[]
  {
    if s != [] {
      ContentsOfAbsentAll(s[..|s| - 1]);
    }
  }

  /** When the probe for `key` stops at -1, an empty slot or a tombstone, the key
      has no live slot. */
  lemma NotFoundIsAbsent<V>(s: Slots<V>, hash: int -> int, key: int)
    requires Findable(s, hash)
    requires var j := Probe(s, hash(key), key, 0); j == -1 || s[j].None? || s[j].value.deleted
    ensures key !in ContentsOf(s)
  {
    forall i | 0 <= i < |s| && s[i].Some? && s[i].value.key == key
      ensures s[i].value.deleted
    {
      assert Probe(s, hash(key), key, 0) == i;
    }
    ContentsOfAbsent(s, key);
  }

  /** The table that doubles when full. */
  class ResizableOpenAddressingHashST<V> {
    static const InitHashTableSize := 4
    const hash: int -> int
    var curSize: int
    var table: LinearProbingHashST<V>

    ghost predicate Valid()
      reads this, table, table.nodes
    {
      && table.Valid()
      && table.hash == hash
      && table.nodes.Length == curSize
      && IsPowerOfTwo(curSize)
    }

    ghost function Contents(): map<int, V>
      reads this, table, table.nodes
    {
      table.Contents()
    }

    constructor (hash: int -> int)
      ensures Valid() && curSize == InitHashTableSize && Contents() == map[]
      ensures this.hash == hash && fresh(table) && fresh(table.nodes)
    {
      this.hash := hash;
      curSize := InitHashTableSize;
      table := new LinearProbingHashST(InitHashTableSize, hash);
      assert IsPowerOfTwo(2) && IsPowerOfTwo(4);
    }

    method Get(key: int) returns (r: Option<V>)
      requires Valid()
      ensures r == if key in Contents() then Some(Contents()[key]) else None
    {
      r := table.Get(key);
    }

    method Delete(key: int) returns (r: Outcome<string>)
      requires Valid()
      modifies table.nodes
      ensures Valid()
      ensures r == if key in old(Contents()) then Pass else Fail("key not found")
      ensures r.Pass? ==> Contents() == old(Contents()) - {key}
      ensures r.Fail? ==> Contents() == old(Contents())
    {
      r := table.Delete(key);
    }

    /** Sets the key; when the table is full, doubles the size, re-inserts every live
        pair into a new table and then the new pair. No pair is lost and the set
        never fails. */
    method Set(key: int, val: V) returns (r: Outcome<string>)
      requires Valid()
      modifies this, table.nodes
      ensures Valid() && r == Pass
      ensures Contents() == old(Contents())[key := val]
      ensures curSize == if Probe(old(table.nodes[..]), hash(key), key, 0) == -1
                         then 2 * old(curSize) else old(curSize)
    {
      var attempt := table.Set(key, val);
      if attempt.Fail? {
        Resize(key, val);
      }
      r := Pass;
    }

    /** The `except` branch of `__setitem__`: doubles the size, re-inserts every live
        pair into a new table, then inserts the new pair there. */
    method Resize(key: int, val: V)
      requires Valid()
      modifies this
      ensures Valid() && curSize == 2 * old(curSize) && fresh(table.nodes)
      ensures Contents() == old(Contents())[key := val]
    {
      DoubleIsPowerOfTwo(curSize);
      var grown := Grow(table, 2 * curSize, key, val);
      curSize, table := 2 * curSize, grown;
    }
  }

  /** The body of the resize: a new table of `size` slots holding every live pair of
      `t`, then `key` set to `val` there. */
  method Grow<V>(t: LinearProbingHashST<V>, size: int, key: int, val: V) returns (g: LinearProbingHashST<V>)
    requires t.Valid() && IsPowerOfTwo(size) && t.nodes.Length < size
    ensures fresh(g) && fresh(g.nodes) && g.Valid() && g.hash == t.hash && g.nodes.Length == size
    ensures g.Contents() == t.Contents()[key := val]
  {
    var items := t.Items();
    LiveItemsRebuildContents(t.nodes[..]);
    g := Rebuild(items, size, t.hash);
    ProbeFindsRoom(g.nodes[..], g.hash(key), key);
    var last := g.Set(key, val);
  }

  /** The rehash loop of the resize: a new table of `size` slots holding `items`. */
  method Rebuild<V>(items: seq<(int, V)>, size: int, hash: int -> int) returns (t: LinearProbingHashST<V>)
    requires IsPowerOfTwo(size) && |items| < size
    ensures fresh(t) && fresh(t.nodes) && t.Valid() && t.hash == hash && t.nodes.Length == size
    ensures t.Contents() == MapOf(items) && Occupied(t.nodes[..]) <= |items|
  {
    t := new LinearProbingHashST(size, hash);
    var i := 0;
    while i < |items|
      invariant 0 <= i <= |items|
      invariant fresh(t.nodes) && t.Valid() && t.hash == hash && t.nodes.Length == size
      invariant Occupied(t.nodes[..]) <= i
      invariant t.Contents() == MapOf(items[..i])
    {
      ProbeFindsRoom(t.nodes[..], hash(items[i].0), items[i].0);
      var inserted := t.Set(items[i].0, items[i].1);
      assert items[..i + 1][..i] == items[..i];
      i := i + 1;
    }
    assert items[..i] == items;
  }
}
