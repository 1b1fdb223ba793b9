/** A hash table of 10007 buckets, each a singly-linked chain behind a dummy head
    node. Keys are integers (0 is the falsy key the table rejects) and Python's
    `hash` is a parameter. */
module SeparateChainingHashMap {
  import opened Bits
  import opened Common

  const Buckets := 10007

  /** `__get_bucket_idx`: the hash masked with `Buckets - 1`. */
  function BucketIdx(h: int): (b: int)
    ensures 0 <= b < Buckets
  {
    And(h, Buckets - 1)
  }

  /** `Buckets - 1` is 10006, which is not one less than a power of two: the mask
      keeps only seven bits, so every bucket index is even and at most 128 of the
      buckets are ever used. */
  lemma {:induction false} BucketIdxIsEven(h: int)
    ensures BucketIdx(h) % 2 == 0
  {
    assert (Buckets - 1) % 2 == 0;
    assert And(h, Buckets - 1) == 2 * And(h / 2, (Buckets - 1) / 2);
  }

  // ---------------------------------------------------------------------------
  // One chain, as the list of its nodes' key/value pairs

  type Chain<V> = seq<(int, V)>

  /** The position `__find` stops before: the first node holding `key`, or the end. */
  function IndexOf<V>(c: Chain<V>, key: int): (j: int)
    ensures 0 <= j <= |c|
    ensures j < |c| ==> c[j].0 == key
    ensures forall i :: 0 <= i < j ==> c[i].0 != key
  {
    if c == [] then 0 else if c[0].0 == key then 0 else 1 + IndexOf(c[1..], key)
  }

  lemma {:induction false} IndexOfUnique<V>(c: Chain<V>, key: int, j: int)
    requires 0 <= j <= |c| && (j < |c| ==> c[j].0 == key)
    requires forall i :: 0 <= i < j ==> c[i].0 != key
    ensures IndexOf(c, key) == j
  {
    if c != [] && c[0].0 != key {
      IndexOfUnique(c[1..], key, j - 1);
    }
  }

  function Lookup<V>(c: Chain<V>, key: int): Option<V>
  {
    var j := IndexOf(c, key);
    if j < |c| then Some(c[j].1) else None
  }

  /** `__setitem__` on a chain: overwrite the value in place, or append a node. */
  function SetInChain<V>(c: Chain<V>, key: int, val: V): Chain<V>
  {
    var j := IndexOf(c, key);
    if j < |c| then c[j := (key, val)] else c + [(key, val)]
  }

  /** `__delitem__` on a chain: unlink the key's node. */
  function RemoveFromChain<V>(c: Chain<V>, key: int): Chain<V>
  {
    var j := IndexOf(c, key);
    if j < |c| then c[..j] + c[j + 1..] else c
  }

  ghost predicate DistinctKeys<V>(c: Chain<V>)
  {
    forall i, j :: 0 <= i < j < |c| ==> c[i].0 != c[j].0
  }

  lemma LookupAfterSet<V>(c: Chain<V>, key: int, val: V, k: int)
    ensures Lookup(SetInChain(c, key, val), k) == if k == key then Some(val) else Lookup(c, k)
  {
    var c' := SetInChain(c, key, val);
    var j := IndexOf(c, key);
    if k == key {
      IndexOfUnique(c', key, j);
    } else {
      var jk := IndexOf(c, k);
      if jk < |c| {
        IndexOfUnique(c', k, jk);
      } else {
        IndexOfUnique(c', k, |c'|);
      }
    }
  }

  /** Setting keeps each key in at most one node of the chain. */
  lemma SetKeepsDistinct<V>(c: Chain<V>, key: int, val: V)
    requires DistinctKeys(c)
    ensures DistinctKeys(SetInChain(c, key, val))
  {
  }

  lemma LookupAfterRemove<V>(c: Chain<V>, key: int, k: int)
    requires DistinctKeys(c)
    ensures Lookup(RemoveFromChain(c, key), k) == if k == key then None else Lookup(c, k)
  {
    var j := IndexOf(c, key);
    var c' := RemoveFromChain(c, key);
    if j < |c| {
      if k == key {
        IndexOfUnique(c', k, |c'|);
      } else {
        var jk := IndexOf(c, k);
        if jk < j {
          IndexOfUnique(c', k, jk);
        } else if jk < |c| {
          IndexOfUnique(c', k, jk - 1);
        } else {
          IndexOfUnique(c', k, |c'|);
        }
      }
    }
  }

  /** Removal keeps the other nodes, in their order. */
  lemma RemoveKeepsOthers<V>(c: Chain<V>, key: int)
    requires DistinctKeys(c)
    ensures DistinctKeys(RemoveFromChain(c, key))
    ensures forall p :: p in RemoveFromChain(c, key) <==> p in c && p.0 != key
  {
    var j := IndexOf(c, key);
    if j < |c| {
      var c' := RemoveFromChain(c, key);
      forall p | p in c && p.0 != key ensures p in c' {
        var i :| 0 <= i < |c| && c[i] == p;
        assert i != j;
        if i < j { assert c'[i] == p; } else { assert c'[i - 1] == p; }
      }
    }
  }

  // ---------------------------------------------------------------------------
  // The whole table, as one chain per bucket

  function TableGet<V>(kv: seq<Chain<V>>, hash: int -> int, key: int): Option<V>
    requires |kv| == Buckets
  {
    Lookup(kv[BucketIdx(hash(key))], key)
  }

  function TableSet<V>(kv: seq<Chain<V>>, hash: int -> int, key: int, val: V): seq<Chain<V>>
    requires |kv| == Buckets
  {
    var b := BucketIdx(hash(key));
    kv[b := SetInChain(kv[b], key, val)]
  }

  function TableRemove<V>(kv: seq<Chain<V>>, hash: int -> int, key: int): seq<Chain<V>>
    requires |kv| == Buckets
  {
    var b := BucketIdx(hash(key));
    kv[b := RemoveFromChain(kv[b], key)]
  }

  /** After setting, a lookup gives the last value set for that key, and every other
      key's value is unchanged. */
  lemma GetAfterSet<V>(kv: seq<Chain<V>>, hash: int -> int, key: int, val: V, k: int)
    requires |kv| == Buckets
    ensures TableGet(TableSet(kv, hash, key, val), hash, k) ==
      if k == key then Some(val) else TableGet(kv, hash, k)
  {
    LookupAfterSet(kv[BucketIdx(hash(key))], key, val, k);
  }

  /** After deleting, the key is absent and every other key's value is unchanged. */
  lemma GetAfterRemove<V>(kv: seq<Chain<V>>, hash: int -> int, key: int, k: int)
    requires |kv| == Buckets && forall b :: 0 <= b < Buckets ==> DistinctKeys(kv[b])
    ensures TableGet(TableRemove(kv, hash, key), hash, k) ==
      if k == key then None else TableGet(kv, hash, k)
  {
    LookupAfterRemove(kv[BucketIdx(hash(key))], key, k);
  }

  /** Every key sits in its own bucket, at most once, and is never the falsy key. */
  ghost predicate KeysPlaced<V>(kv: seq<Chain<V>>, hash: int -> int)
  {
    && |kv| == Buckets
    && (forall b :: 0 <= b < Buckets ==> DistinctKeys(kv[b]))
    && (forall b, i :: 0 <= b < Buckets && 0 <= i < |kv[b]| ==> kv[b][i].0 != 0 && BucketIdx(hash(kv[b][i].0)) == b)
  }

  /** Setting a non-falsy key keeps every key in its bucket, once. */
  lemma SetKeepsPlaced<V>(kv: seq<Chain<V>>, hash: int -> int, key: int, val: V)
    requires KeysPlaced(kv, hash) && key != 0
    ensures KeysPlaced(TableSet(kv, hash, key, val), hash)
  {
    var b := BucketIdx(hash(key));
    SetKeepsDistinct(kv[b], key, val);
  }

  /** Deleting keeps every remaining key in its bucket, once. */
  lemma RemoveKeepsPlaced<V>(kv: seq<Chain<V>>, hash: int -> int, key: int)
    requires KeysPlaced(kv, hash)
    ensures KeysPlaced(TableRemove(kv, hash, key), hash)
  {
    var b := BucketIdx(hash(key));
    RemoveKeepsOthers(kv[b], key);
  }

  // ---------------------------------------------------------------------------

  class Node<V(0)> {
    var key: int
    var val: V
    var next: Node?<V>

    /** A bucket's dummy head; its key and value are never read. */
    constructor Dummy()
      ensures next == null
    {
      key := 0;
      next := null;
    }

    constructor (key: int, val: V)
      ensures this.key == key && this.val == val && next == null
    {
      this.key := key;
      this.val := val;
      next := null;
    }
  }

  /** A position in the table: the `index`-th node of chain `bucket`. */
  datatype Place = Place(bucket: int, index: int)

  class SeparateChainingHashST<V(0)> {
    const hash: int -> int
    const buckets: array<Node<V>>
    /** The nodes after each bucket's head, in chain order. */
    ghost var chains: seq<seq<Node<V>>>
    /** The key/value pairs of those nodes. */
    ghost var chainsKV: seq<Chain<V>>
    /** Which chain a node belongs to; the head of bucket `b` is marked `-1 - b`. */
    ghost var owner: map<Node<V>, int>
    ghost var Repr: set<object>

    ghost predicate Valid()
      reads this, Repr
    {
      && buckets in Repr
      && buckets.Length == Buckets && |chains| == Buckets && |chainsKV| == Buckets
      && HeadsLinked()
      && ChainsLinked()
      && KeysPlaced(chainsKV, hash)
    }

    ghost predicate HeadsLinked()
      requires buckets.Length == Buckets && |chains| == Buckets
      reads this, buckets, Repr
    {
      forall b :: 0 <= b < Buckets ==>
        && buckets[b] in Repr
        && buckets[b] in owner && owner[buckets[b]] == -1 - b
        && buckets[b].next == if chains[b] == [] then null else chains[b][0]
    }

    ghost predicate ChainsLinked()
      requires |chains| == Buckets && |chainsKV| == Buckets
      reads this, Repr
    {
      forall b :: 0 <= b < Buckets ==> ChainLinked(b)
    }

    /** Chain `b` is a list of distinct nodes of bucket `b`, each pointing to the next,
        holding the pairs of `chainsKV[b]`. */
    ghost predicate ChainLinked(b: int)
      requires 0 <= b < |chains| && 0 <= b < |chainsKV|
      reads this, Repr
    {
      && |chains[b]| == |chainsKV[b]|
      && (forall i, i' :: 0 <= i < i' < |chains[b]| ==> chains[b][i] != chains[b][i'])
      && forall i :: 0 <= i < |chains[b]| ==> NodeLinked(b, i)
    }

    /** The `i`-th node of chain `b` belongs to bucket `b`, points to its successor and
        holds the `i`-th pair. */
    ghost predicate NodeLinked(b: int, i: int)
      requires 0 <= b < |chains| && 0 <= b < |chainsKV| && 0 <= i < |chains[b]| == |chainsKV[b]|
      reads this, Repr
    {
      var c := chains[b];
      && c[i] in Repr
      && c[i] in owner && owner[c[i]] == b
      && c[i].next == (if i + 1 < |c| then c[i + 1] else null)
      && c[i].key == chainsKV[b][i].0
      && c[i].val == chainsKV[b][i].1
    }

    constructor (hash: int -> int)
      ensures Valid() && fresh(Repr) && this.hash == hash
      ensures chainsKV == seq(Buckets, _ => [])
    {
      this.hash := hash;
      var heads: seq<Node<V>> := [];
      ghost var own: map<Node<V>, int> := map[];
      ghost var rep: set<object> := {};
      while |heads| < Buckets
        invariant |heads| <= Buckets && fresh(rep)
        invariant forall i :: 0 <= i < |heads| ==>
          heads[i].next == null && heads[i] in rep && heads[i] in own && own[heads[i]] == -1 - i
      {
        var head := new Node.Dummy();
        own := own[head := -1 - |heads|];
        rep := rep + {head};
        heads := heads + [head];
      }
      buckets := new Node<V>[Buckets](i requires 0 <= i < Buckets reads heads => heads[i]);
      chains := seq(Buckets, _ => []);
      chainsKV := seq(Buckets, _ => []);
      owner := own;
      Repr := rep + {buckets};
      new;
      assert HeadsLinked() by {
        forall b | 0 <= b < Buckets
          ensures buckets[b] == heads[b]
        {
        }
      }
    }

    /** `__find`: the node just before the key's node in bucket `b`, or the last node
        of the chain when the key is absent. */
    method FindPrev(b: int, key: int) returns (prv: Node<V>, ghost j: int)
      requires Valid() && 0 <= b < Buckets
      ensures 0 <= j <= |chains[b]| == |chainsKV[b]|
      ensures j == IndexOf(chainsKV[b], key)
      ensures prv == if j == 0 then buckets[b] else chains[b][j - 1]
      ensures prv.next == if j < |chains[b]| then chains[b][j] else null
      ensures prv in Repr && (prv.next != null ==> prv.next in Repr)
    {
      assert ChainLinked(b);
      prv := buckets[b];
      j := 0;
      while prv.next != null && prv.next.key != key
        invariant 0 <= j <= |chains[b]|
        invariant prv == if j == 0 then buckets[b] else chains[b][j - 1]
        invariant prv.next == if j < |chains[b]| then chains[b][j] else null
        invariant forall i :: 0 <= i < j ==> chainsKV[b][i].0 != key
        decreases |chains[b]| - j
      {
        assert NodeLinked(b, j);
        prv := prv.next;
        j := j + 1;
      }
      if j < |chains[b]| {
        assert NodeLinked(b, j);
      }
      if j > 0 {
        assert NodeLinked(b, j - 1);
      }
      IndexOfUnique(chainsKV[b], key, j);
    }

    /** `__setitem__`: overwrites the value of a present key in place, otherwise
        appends a node at the end of the chain; the falsy key raises. */
    method Set(key: int, val: V) returns (r: Outcome<string>)
      requires Valid()
      modifies this, Repr
      ensures Valid() && fresh(Repr - old(Repr))
      ensures r == if key == 0 then Fail("key cannot be None") else Pass
      ensures chainsKV == if key == 0 then old(chainsKV) else TableSet(old(chainsKV), hash, key, val)
      ensures key != 0 && TableGet(old(chainsKV), hash, key).Some? ==> Repr == old(Repr)
    {
      if key == 0 {
        return Fail("key cannot be None");
      }
      var b := BucketIdx(hash(key));
      var prv, j := FindPrev(b, key);
      SetKeepsPlaced(chainsKV, hash, key, val);
      if prv.next != null {
        Overwrite(b, j, prv.next, key, val);
      } else {
        Append(b, prv, key, val);
      }
      r := Pass;
    }

    /** Overwrites the value in the `j`-th node of chain `b`. */
    method Overwrite(b: int, ghost j: int, node: Node<V>, key: int, val: V)
      requires Valid() && 0 <= b < Buckets && 0 <= j < |chains[b]| == |chainsKV[b]|
      requires node == chains[b][j] && chainsKV[b][j].0 == key
      requires KeysPlaced(chainsKV[b := chainsKV[b][j := (key, val)]], hash)
      modifies this, node
      ensures Valid() && Repr == old(Repr)
      ensures chainsKV == old(chainsKV)[b := old(chainsKV)[b][j := (key, val)]]
    {
      assert ChainLinked(b) && NodeLinked(b, j);
      node.val := val;
      chainsKV := chainsKV[b := chainsKV[b][j := (key, val)]];
      forall b' | 0 <= b' < Buckets ensures |chains[b']| == |chainsKV[b']| {
        assert old(ChainLinked(b'));
      }
      forall b', i | 0 <= b' < Buckets && 0 <= i < |chains[b']|
        ensures NodeLinked(b', i)
      {
        assert old(ChainLinked(b'));
        assert old(NodeLinked(b', i));
        if b' != b || i != j {
          assert chains[b'][i] != node by {
            if b' == b {
              assert chains[b][i] != chains[b][j];
            }
          }
        }
      }
      forall b' | 0 <= b' < Buckets ensures ChainLinked(b') {
        assert old(ChainLinked(b'));
      }
    }

    /** Links a new node after `prv`, the last node of chain `b` (or its head). */
    method Append(b: int, prv: Node<V>, key: int, val: V)
      requires Valid() && 0 <= b < Buckets
      requires prv == (if chains[b] == [] then buckets[b] else chains[b][|chains[b]| - 1])
      requires KeysPlaced(chainsKV[b := chainsKV[b] + [(key, val)]], hash)
      modifies this, prv
      ensures Valid() && fresh(Repr - old(Repr))
      ensures chainsKV == old(chainsKV)[b := old(chainsKV)[b] + [(key, val)]]
    {
      var node := NewNode(b, key, val);
      Link(b, prv, node);
    }

    /** Allocates a node for bucket `b`, not yet on its chain. */
    method NewNode(b: int, key: int, val: V) returns (node: Node<V>)
      requires Valid() && 0 <= b < Buckets
      modifies this
      ensures Valid() && fresh(node) && Repr == old(Repr) + {node}
      ensures node.key == key && node.val == val && node.next == null
      ensures node in owner && owner[node] == b
      ensures chains == old(chains) && chainsKV == old(chainsKV)
      ensures forall b', i :: 0 <= b' < Buckets && 0 <= i < |chains[b']| ==> chains[b'][i] != node
      ensures forall b' :: 0 <= b' < Buckets ==> buckets[b'] != node
    {
      node := new Node(key, val);
      owner := owner[node := b];
      Repr := Repr + {node};
      forall b' | 0 <= b' < Buckets ensures |chains[b']| == |chainsKV[b']| {
        assert old(ChainLinked(b'));
      }
      forall b', i | 0 <= b' < Buckets && 0 <= i < |chains[b']|
        ensures NodeLinked(b', i)
      {
        assert old(ChainLinked(b'));
        assert old(NodeLinked(b', i));
      }
      forall b' | 0 <= b' < Buckets ensures ChainLinked(b') {
        assert old(ChainLinked(b'));
      }
    }

    /** Links `node`, a node of bucket `b` on no chain, after `prv`, the last node of
        chain `b` (or its head). */
    method Link(b: int, prv: Node<V>, node: Node<V>)
      requires Valid() && 0 <= b < Buckets
      requires prv == (if chains[b] == [] then buckets[b] else chains[b][|chains[b]| - 1])
      requires node in Repr && node in owner && owner[node] == b && node.next == null
      requires forall b', i :: 0 <= b' < Buckets && 0 <= i < |chains[b']| ==> chains[b'][i] != node
      requires forall b' :: 0 <= b' < Buckets ==> buckets[b'] != node
      requires KeysPlaced(chainsKV[b := chainsKV[b] + [(node.key, node.val)]], hash)
      modifies this, prv
      ensures Valid() && Repr == old(Repr)
      ensures chainsKV == old(chainsKV)[b := old(chainsKV)[b] + [(old(node.key), old(node.val))]]
    {
      assert ChainLinked(b);
      var n := |chains[b]|;
      if n > 0 {
        assert NodeLinked(b, n - 1);
      }
      assert owner[prv] == if n == 0 then -1 - b else b;
      prv.next := node;
      chains := chains[b := chains[b] + [node]];
      chainsKV := chainsKV[b := chainsKV[b] + [(node.key, node.val)]];
      forall b' | 0 <= b' < Buckets ensures |chains[b']| == |chainsKV[b']| {
        assert old(ChainLinked(b'));
      }
      forall b', i | 0 <= b' < Buckets && 0 <= i < |chains[b']|
        ensures NodeLinked(b', i)
      {
        if b' != b || i < n {
          assert old(ChainLinked(b'));
          assert old(NodeLinked(b', i));
          assert chains[b'][i] != prv || (b' == b && i == n - 1) by {
            assert old(owner[chains[b'][i]]) == b';
          }
        }
      }
      forall b' | 0 <= b' < Buckets ensures ChainLinked(b') {
        assert old(ChainLinked(b'));
      }
      forall b' | 0 <= b' < Buckets
        ensures buckets[b'].next == if chains[b'] == [] then null else chains[b'][0]
      {
        if buckets[b'] == prv {
          assert n == 0 && b' == b;
        }
      }
    }

    /** `__getitem__`: the value of a present key, None for an absent one; the falsy
        key raises. */
    method Get(key: int) returns (r: Result<Option<V>, string>)
      requires Valid()
      ensures r == if key == 0 then Failure("key cannot be None") else Success(TableGet(chainsKV, hash, key))
    {
      if key == 0 {
        return Failure("key cannot be None");
      }
      var b := BucketIdx(hash(key));
      var prv, j := FindPrev(b, key);
      assert ChainLinked(b);
      if j < |chains[b]| {
        assert NodeLinked(b, j);
      }
      return Success(if prv.next != null then Some(prv.next.val) else None);
    }

    /** `__delitem__`: unlinks the key's node; an absent key or the falsy key raises. */
    method Delete(key: int) returns (r: Outcome<string>)
      requires Valid()
      modifies this, Repr
      ensures Valid() && Repr == old(Repr)
      ensures r == if key == 0 then Fail("key cannot be None")
                   else if TableGet(old(chainsKV), hash, key).None? then Fail("key does not exist")
                   else Pass
      ensures chainsKV == if r.Pass? then TableRemove(old(chainsKV), hash, key) else old(chainsKV)
    {
      if key == 0 {
        return Fail("key cannot be None");
      }
      var b := BucketIdx(hash(key));
      var prv, j := FindPrev(b, key);
      if prv.next == null {
        return Fail("key does not exist");
      }
      assert ChainLinked(b);
      if j > 0 {
        assert NodeLinked(b, j - 1);
      }
      RemoveKeepsPlaced(chainsKV, hash, key);
      Unlink(b, j, prv);
      r := Pass;
    }

    /** Unlinks the `j`-th node of chain `b`, whose predecessor is `prv`. */
    method Unlink(b: int, ghost j: int, prv: Node<V>)
      requires Valid() && 0 <= b < Buckets && 0 <= j < |chains[b]| == |chainsKV[b]|
      requires prv == if j == 0 then buckets[b] else chains[b][j - 1]
      requires KeysPlaced(chainsKV[b := chainsKV[b][..j] + chainsKV[b][j + 1..]], hash)
      modifies this, prv
      ensures Valid() && Repr == old(Repr)
      ensures chainsKV == old(chainsKV)[b := old(chainsKV)[b][..j] + old(chainsKV)[b][j + 1..]]
    {
      assert ChainLinked(b) && NodeLinked(b, j);
      ghost var c := chains[b];
      if j > 0 {
        assert NodeLinked(b, j - 1);
      }
      assert prv.next == c[j];
      assert owner[prv] == if j == 0 then -1 - b else b;
      prv.next := prv.next.next;
      chains := chains[b := c[..j] + c[j + 1..]];
      chainsKV := chainsKV[b := chainsKV[b][..j] + chainsKV[b][j + 1..]];
      NodesStayLinked(Place(b, j));
      forall b' | 0 <= b' < Buckets ensures ChainLinked(b') {
        assert old(ChainLinked(b'));
        if b' == b {
          forall i, i' | 0 <= i < i' < |chains[b]| ensures chains[b][i] != chains[b][i'] {
            var k := if i < j then i else i + 1;
            var k' := if i' < j then i' else i' + 1;
            assert chains[b][i] == c[k] && chains[b][i'] == c[k'];
          }
        }
      }
      forall b' | 0 <= b' < Buckets
        ensures buckets[b'].next == if chains[b'] == [] then null else chains[b'][0]
      {
        if buckets[b'] == prv {
          assert j == 0 && b' == b;
        }
      }
    }

    /** The predecessor of the `j`-th node of chain `b`: its dummy head or the node before it. */
    ghost function Pred(b: int, j: int): Node<V>
      requires buckets.Length == Buckets && |chains| == Buckets
      requires 0 <= b < Buckets && 0 <= j <= |chains[b]|
      reads this, buckets
    {
      if j == 0 then buckets[b] else chains[b][j - 1]
    }

    /** After the predecessor of the `j`-th node of chain `b` is made to skip that
        node, every remaining node is still linked. */
    twostate lemma NodesStayLinked(at: Place)
      requires old(Valid()) && 0 <= at.bucket < Buckets && 0 <= at.index < old(|chains[at.bucket]|)
      requires old(ChainLinked(at.bucket)) && old(Pred(at.bucket, at.index)) in old(owner)
      requires old(owner[Pred(at.bucket, at.index)]) == if at.index == 0 then -1 - at.bucket else at.bucket
      requires old(Pred(at.bucket, at.index)).next == old(chains[at.bucket][at.index].next)
      requires chains == old(chains)[at.bucket := old(chains[at.bucket])[..at.index] + old(chains[at.bucket])[at.index + 1..]]
      requires chainsKV == old(chainsKV)[at.bucket := old(chainsKV)[at.bucket][..at.index] + old(chainsKV)[at.bucket][at.index + 1..]]
      requires owner == old(owner) && Repr == old(Repr)
      requires forall n: Node<V> :: n in Repr ==>
                 n.key == old(n.key) && n.val == old(n.val) && (n != old(Pred(at.bucket, at.index)) ==> n.next == old(n.next))
      ensures forall b' :: 0 <= b' < Buckets ==> |chains[b']| == |chainsKV[b']|
      ensures forall b', i :: 0 <= b' < Buckets && 0 <= i < |chains[b']| ==> NodeLinked(b', i)
    {
      var b, j := at.bucket, at.index;
      var c := old(chains[b]);
      var prv := old(Pred(b, j));
      forall b' | 0 <= b' < Buckets ensures |chains[b']| == |chainsKV[b']| {
        assert old(ChainLinked(b'));
      }
      forall b', i | 0 <= b' < Buckets && 0 <= i < |chains[b']|
        ensures NodeLinked(b', i)
      {
        assert old(ChainLinked(b'));
        if b' != b {
          assert old(NodeLinked(b', i));
          assert old(owner[chains[b'][i]]) == b';
        } else {
          var k := if i < j then i else i + 1;
          assert chains[b][i] == c[k];
          assert old(NodeLinked(b, k)) && old(NodeLinked(b, j));
          if i + 1 < |chains[b]| {
            assert chains[b][i + 1] == c[k + 1] || (k == j - 1 && chains[b][i + 1] == c[j + 1]);
          }
          assert c[k] != prv || k == j - 1 by {
            if j == 0 {
              assert old(owner[c[k]]) == b;
            } else {
              assert prv == c[j - 1];
            }
          }
        }
      }
    }
  }
}
