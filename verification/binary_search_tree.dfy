/** A binary search tree with integer keys whose nodes hang below a sentry node.

    Nodes live in an arena: node `i` holds `entries[i]` and the links `left[i]` and
    `right[i]`, with `Null` for a missing child. Node 0 is the sentry; its entry is
    `SmallestDummy` and its right link is the root. A Python object reference is an
    arena index, so `cur.left = x` is an update of `left` at `cur`, and two links
    to the same node are two equal indices. The ghost `tree` is the shape the links
    form from the sentry; `Items` lists its pairs in order. */
module BinarySearchTree {
  import opened Common
  import Calc

  /** The missing link, Python's `None`. */
  const Null := -1

  /** A node's key and value. The sentry's key is `SmallestDummy`. */
  datatype Entry<V> = SmallestDummy | Entry(key: int, val: V)

  /** `cur.key == key`: the dummy is equal to no key (it has no `__eq__`). */
  predicate Eq<V>(e: Entry<V>, key: int)
  {
    e.Entry? && e.key == key
  }

  /** `key < cur.key`: against the dummy Python falls back on `SmallestDummy.__gt__`,
      which answers false, so every search leaves the sentry to the right. */
  predicate Lt<V>(key: int, e: Entry<V>)
  {
    e.Entry? && key < e.key
  }

  // ---------------------------------------------------------------------------
  // Shapes

  datatype Tree = Leaf | Branch(left: Tree, id: nat, right: Tree)

  ghost function Ids(t: Tree): set<nat>
  {
    if t.Leaf? then {} else Ids(t.left) + {t.id} + Ids(t.right)
  }

  /** No node occurs twice. */
  ghost predicate Unique(t: Tree)
  {
    t.Branch? ==>
      && Unique(t.left) && Unique(t.right)
      && t.id !in Ids(t.left) && t.id !in Ids(t.right)
      && Ids(t.left) !! Ids(t.right)
  }

  ghost function Size(t: Tree): nat
  {
    if t.Leaf? then 0 else Size(t.left) + 1 + Size(t.right)
  }

  /** Every node of `t` is below `n`. */
  ghost predicate InRange(t: Tree, n: int)
  {
    t.Branch? ==> t.id < n && InRange(t.left, n) && InRange(t.right, n)
  }

  lemma {:induction false} InRangeIds(t: Tree, n: int)
    requires InRange(t, n)
    ensures forall i :: i in Ids(t) ==> i < n
  {
    if t.Branch? {
      InRangeIds(t.left, n);
      InRangeIds(t.right, n);
    }
  }

  /** Every node of `t` is in the arena and holds a real key. */
  ghost predicate AllEntries<V>(entries: seq<Entry<V>>, t: Tree)
  {
    InRange(t, |entries|) && RealKeys(entries, t)
  }

  ghost predicate RealKeys<V>(entries: seq<Entry<V>>, t: Tree)
    requires InRange(t, |entries|)
  {
    t.Branch? ==> entries[t.id].Entry? && RealKeys(entries, t.left) && RealKeys(entries, t.right)
  }

  /** The rightmost node: the one that comes last in order. */
  ghost function MaxId(t: Tree): (m: nat)
    requires t.Branch?
    ensures m in Ids(t)
  {
    if t.right.Leaf? then t.id else MaxId(t.right)
  }

  /** The (key, value) pairs of `t` in order; the sentry contributes none. */
  ghost function Items<V>(entries: seq<Entry<V>>, t: Tree): seq<(int, V)>
    requires InRange(t, |entries|)
  {
    if t.Leaf? then []
    else
      var e := entries[t.id];
      Items(entries, t.left) + (if e.Entry? then [(e.key, e.val)] else []) + Items(entries, t.right)
  }

  // ---------------------------------------------------------------------------
  // Links

  /** The links from `p` form the shape `t`, except that the link after the last
      node of `t` in order (the right link of its rightmost node, or `p` itself
      when `t` is empty) is `after` rather than `Null`. A Morris thread is such
      an `after`; with `after == Null` the links form `t` exactly. */
  ghost predicate Links(left: seq<int>, right: seq<int>, p: int, t: Tree, after: int)
    decreases t
  {
    if t.Leaf? then p == after
    else
      && p == t.id && t.id < |left| && t.id < |right|
      && Links(left, right, left[t.id], t.left, Null)
      && Links(left, right, right[t.id], t.right, after)
  }

  /** The links agree on the nodes of `ids`. */
  ghost predicate Agree(left: seq<int>, right: seq<int>, left': seq<int>, right': seq<int>, ids: set<nat>)
  {
    forall i :: i in ids && i < |left| && i < |right| ==>
      i < |left'| && i < |right'| && left'[i] == left[i] && right'[i] == right[i]
  }

  /** Changing links outside a shape leaves the shape. */
  lemma {:induction false} LinksFrame(left: seq<int>, right: seq<int>, left': seq<int>, right': seq<int>,
                                      p: int, t: Tree, after: int)
    requires Links(left, right, p, t, after) && Agree(left, right, left', right', Ids(t))
    ensures Links(left', right', p, t, after)
    decreases t
  {
    if t.Branch? {
      assert t.id in Ids(t);
      LinksFrame(left, right, left', right', left[t.id], t.left, Null);
      LinksFrame(left, right, left', right', right[t.id], t.right, after);
    }
  }

  /** A shape with a hole: the path from the hole up to the top, with the
      subtrees hanging beside it. */
  datatype Ctx = Top | InLeft(up: Ctx, id: nat, right: Tree) | InRight(left: Tree, id: nat, up: Ctx)

  ghost function Plug(c: Ctx, s: Tree): Tree
    decreases c
  {
    match c
    case Top => s
    case InLeft(up, id, rt) => Plug(up, Branch(s, id, rt))
    case InRight(lt, id, up) => Plug(up, Branch(lt, id, s))
  }

  ghost function CtxIds(c: Ctx): set<nat>
  {
    match c
    case Top => {}
    case InLeft(up, id, rt) => CtxIds(up) + {id} + Ids(rt)
    case InRight(lt, id, up) => Ids(lt) + {id} + CtxIds(up)
  }

  ghost predicate CtxUnique(c: Ctx)
  {
    match c
    case Top => true
    case InLeft(up, id, rt) => Unique(rt) && id !in Ids(rt) && ({id} + Ids(rt)) !! CtxIds(up) && CtxUnique(up)
    case InRight(lt, id, up) => Unique(lt) && id !in Ids(lt) && ({id} + Ids(lt)) !! CtxIds(up) && CtxUnique(up)
  }

  /** The link that reaches the top of the context. */
  ghost function TopLink(c: Ctx, hole: int): int
  {
    match c
    case Top => hole
    case InLeft(up, id, _) => TopLink(up, id)
    case InRight(_, id, up) => TopLink(up, id)
  }

  /** The links outside the hole form the context, and the link into the hole is `hole`. */
  ghost predicate CtxLinks(left: seq<int>, right: seq<int>, c: Ctx, hole: int)
  {
    match c
    case Top => true
    case InLeft(up, id, rt) =>
      && id < |left| && id < |right| && left[id] == hole
      && Links(left, right, right[id], rt, Null) && CtxLinks(left, right, up, id)
    case InRight(lt, id, up) =>
      && id < |left| && id < |right| && right[id] == hole
      && Links(left, right, left[id], lt, Null) && CtxLinks(left, right, up, id)
  }

  lemma {:induction false} PlugLinks(left: seq<int>, right: seq<int>, c: Ctx, hole: int, s: Tree)
    requires CtxLinks(left, right, c, hole) && Links(left, right, hole, s, Null)
    ensures Links(left, right, TopLink(c, hole), Plug(c, s), Null)
    decreases c
  {
    match c
    case Top =>
    case InLeft(up, id, rt) => PlugLinks(left, right, up, id, Branch(s, id, rt));
    case InRight(lt, id, up) => PlugLinks(left, right, up, id, Branch(lt, id, s));
  }

  lemma {:induction false} PlugUnique(c: Ctx, s: Tree)
    requires Unique(Plug(c, s))
    ensures Unique(s) && CtxUnique(c) && Ids(s) !! CtxIds(c)
    decreases c
  {
    match c
    case Top =>
    case InLeft(up, id, rt) => PlugUnique(up, Branch(s, id, rt));
    case InRight(lt, id, up) => PlugUnique(up, Branch(lt, id, s));
  }

  lemma {:induction false} CtxLinksFrame(left: seq<int>, right: seq<int>, left': seq<int>, right': seq<int>,
                                         c: Ctx, hole: int)
    requires CtxLinks(left, right, c, hole) && Agree(left, right, left', right', CtxIds(c))
    ensures CtxLinks(left', right', c, hole)
    decreases c
  {
    match c
    case Top =>
    case InLeft(up, id, rt) =>
      LinksFrame(left, right, left', right', right[id], rt, Null);
      CtxLinksFrame(left, right, left', right', up, id);
    case InRight(lt, id, up) =>
      LinksFrame(left, right, left', right', left[id], lt, Null);
      CtxLinksFrame(left, right, left', right', up, id);
  }

  /** Re-pointing the link into the hole, as `__replace_node` does to the parent,
      keeps the rest of the context. */
  lemma Redirect(left: seq<int>, right: seq<int>, left': seq<int>, right': seq<int>,
                 c: Ctx, hole: int, hole': int)
    requires c != Top && CtxUnique(c) && CtxLinks(left, right, c, hole)
    requires Agree(left, right, left', right', CtxIds(c) - {c.id})
    requires c.id < |left'| && c.id < |right'|
    requires c.InLeft? ==> left'[c.id] == hole' && right'[c.id] == right[c.id]
    requires c.InRight? ==> right'[c.id] == hole' && left'[c.id] == left[c.id]
    ensures CtxLinks(left', right', c, hole')
  {
    match c
    case InLeft(up, id, rt) =>
      AgreeOn(left, right, left', right', CtxIds(c) - {id}, Ids(rt));
      AgreeOn(left, right, left', right', CtxIds(c) - {id}, CtxIds(up));
      LinksFrame(left, right, left', right', right[id], rt, Null);
      CtxLinksFrame(left, right, left', right', up, id);
    case InRight(lt, id, up) =>
      AgreeOn(left, right, left', right', CtxIds(c) - {id}, Ids(lt));
      AgreeOn(left, right, left', right', CtxIds(c) - {id}, CtxIds(up));
      LinksFrame(left, right, left', right', left[id], lt, Null);
      CtxLinksFrame(left, right, left', right', up, id);
  }

  lemma AgreeOn(left: seq<int>, right: seq<int>, left': seq<int>, right': seq<int>, ids: set<nat>, sub: set<nat>)
    requires Agree(left, right, left', right', ids) && sub <= ids
    ensures Agree(left, right, left', right', sub)
  {
  }

  // ---------------------------------------------------------------------------
  // Ordered listings

  /** Keys strictly increase along `s`. */
  predicate Sorted<V>(s: seq<(int, V)>)
  {
    forall i, j :: 0 <= i < j < |s| ==> s[i].0 < s[j].0
  }

  ghost predicate KeysBelow<V>(s: seq<(int, V)>, k: int)
  {
    forall y :: y in s ==> y.0 < k
  }

  ghost predicate KeysAbove<V>(s: seq<(int, V)>, k: int)
  {
    forall y :: y in s ==> k < y.0
  }

  /** The value paired with `key` in a listing. */
  function Lookup<V>(s: seq<(int, V)>, key: int): (r: Option<V>)
    ensures r.None? <==> forall y :: y in s ==> y.0 != key
    ensures r.Some? ==> (key, r.value) in s
  {
    if s == [] then None
    else if s[0].0 == key then
      assert s[0] == (key, s[0].1) && s[0] in s;
      Some(s[0].1)
    else
      assert forall y :: y in s ==> y == s[0] || y in s[1..];
      assert forall y :: y in s[1..] ==> y in s;
      Lookup(s[1..], key)
  }

  lemma {:induction false} LookupConcat<V>(s1: seq<(int, V)>, s2: seq<(int, V)>, key: int)
    ensures Lookup(s1 + s2, key) == if Lookup(s1, key).Some? then Lookup(s1, key) else Lookup(s2, key)
    decreases |s1|
  {
    if s1 != [] {
      assert (s1 + s2)[1..] == s1[1..] + s2;
      LookupConcat(s1[1..], s2, key);
    } else {
      assert s1 + s2 == s2;
    }
  }

  /** A sorted listing split around one pair: both sides are sorted and the
      pair's key separates them. */
  lemma SortedParts<V>(s1: seq<(int, V)>, x: (int, V), s2: seq<(int, V)>)
    requires Sorted(s1 + [x] + s2)
    ensures Sorted(s1) && Sorted(s2) && KeysBelow(s1, x.0) && KeysAbove(s2, x.0)
  {
    var s := s1 + [x] + s2;
    assert s[|s1|] == x;
    forall y | y in s1 ensures y.0 < x.0 {
      var i :| 0 <= i < |s1| && s1[i] == y;
      assert s[i] == y;
    }
    forall y | y in s2 ensures x.0 < y.0 {
      var j :| 0 <= j < |s2| && s2[j] == y;
      assert s[|s1| + 1 + j] == y;
    }
    forall i, j | 0 <= i < j < |s1| ensures s1[i].0 < s1[j].0 {
      assert s[i] == s1[i] && s[j] == s1[j];
    }
    forall i, j | 0 <= i < j < |s2| ensures s2[i].0 < s2[j].0 {
      assert s[|s1| + 1 + i] == s2[i] && s[|s1| + 1 + j] == s2[j];
    }
  }

  /** The converse: sorted sides separated by the pair's key make a sorted listing. */
  lemma SortedBuild<V>(s1: seq<(int, V)>, x: (int, V), s2: seq<(int, V)>)
    requires Sorted(s1) && Sorted(s2) && KeysBelow(s1, x.0) && KeysAbove(s2, x.0)
    ensures Sorted(s1 + [x] + s2)
  {
    var s := s1 + [x] + s2;
    assert s[|s1|] == x;
    forall i, j | 0 <= i < j < |s| ensures s[i].0 < s[j].0 {
      if j < |s1| {
        assert s[i] == s1[i] && s[j] == s1[j];
      } else if i < |s1| {
        assert s[i] == s1[i] && s1[i] in s1;
        if j > |s1| {
          assert s[j] == s2[j - |s1| - 1] && s2[j - |s1| - 1] in s2;
        }
      } else if i == |s1| {
        assert s[j] == s2[j - |s1| - 1] && s2[j - |s1| - 1] in s2;
      } else {
        assert s[i] == s2[i - |s1| - 1] && s[j] == s2[j - |s1| - 1];
      }
    }
  }

  /** Two sorted listings separated by a key join into a sorted listing. */
  lemma SortedJoin<V>(s1: seq<(int, V)>, k: int, s2: seq<(int, V)>)
    requires Sorted(s1) && Sorted(s2) && KeysBelow(s1, k) && KeysAbove(s2, k)
    ensures Sorted(s1 + s2)
  {
    var s := s1 + s2;
    forall i, j | 0 <= i < j < |s| ensures s[i].0 < s[j].0 {
      if j < |s1| {
        assert s[i] == s1[i] && s[j] == s1[j];
      } else if i < |s1| {
        assert s[i] == s1[i] && s1[i] in s1 && s[j] == s2[j - |s1|] && s2[j - |s1|] in s2;
      } else {
        assert s[i] == s2[i - |s1|] && s[j] == s2[j - |s1|];
      }
    }
  }

  /** Appending to the arena does not change a shape already in it. */
  lemma {:induction false} ItemsExtend<V>(entries: seq<Entry<V>>, e: Entry<V>, t: Tree)
    requires InRange(t, |entries|)
    ensures InRange(t, |entries + [e]|) && Items(entries + [e], t) == Items(entries, t)
    decreases t
  {
    if t.Branch? {
      ItemsExtend(entries, e, t.left);
      ItemsExtend(entries, e, t.right);
      assert (entries + [e])[t.id] == entries[t.id];
    }
  }

  lemma {:induction false} AllEntriesExtend<V>(entries: seq<Entry<V>>, e: Entry<V>, t: Tree)
    requires AllEntries(entries, t)
    ensures AllEntries(entries + [e], t)
    decreases t
  {
    if t.Branch? {
      AllEntriesExtend(entries, e, t.left);
      AllEntriesExtend(entries, e, t.right);
      assert (entries + [e])[t.id] == entries[t.id];
    }
  }

  // ---------------------------------------------------------------------------
  // The operations on shapes

  /** The walk of `find`: stop at an equal key, go left below a smaller key,
      right otherwise. */
  ghost function Search<V>(entries: seq<Entry<V>>, t: Tree, key: int): Option<V>
    requires InRange(t, |entries|)
  {
    if t.Leaf? then None
    else if Eq(entries[t.id], key) then Some(entries[t.id].val)
    else if Lt(key, entries[t.id]) then Search(entries, t.left, key)
    else Search(entries, t.right, key)
  }

  /** The shape `insert` leaves: the same walk, ending either at an equal key
      (nothing changes) or where it falls off the tree (a new leaf `n` hangs there). */
  ghost function Inserted<V>(entries: seq<Entry<V>>, t: Tree, key: int, n: nat): Tree
    requires InRange(t, |entries|)
  {
    if t.Leaf? then Branch(Leaf, n, Leaf)
    else if Eq(entries[t.id], key) then t
    else if Lt(key, entries[t.id]) then Branch(Inserted(entries, t.left, key, n), t.id, t.right)
    else Branch(t.left, t.id, Inserted(entries, t.right, key, n))
  }

  /** `x` hung below the rightmost node of `t`. */
  ghost function AttachMax(t: Tree, x: Tree): Tree
  {
    if t.Leaf? then x else Branch(t.left, t.id, AttachMax(t.right, x))
  }

  /** What `delete` puts in place of a node whose subtrees are `a` and `b`: the
      other subtree when one is empty; otherwise `b`'s root takes the node's
      place, with `a` as its left subtree and `b`'s old left subtree moved below
      the rightmost node of `a`. */
  ghost function Splice(a: Tree, b: Tree): Tree
  {
    if a.Leaf? then b
    else if b.Leaf? then a
    else Branch(AttachMax(a, b.left), b.id, b.right)
  }

  /** The shape `delete` leaves. */
  ghost function Deleted<V>(entries: seq<Entry<V>>, t: Tree, key: int): Tree
    requires InRange(t, |entries|)
  {
    if t.Leaf? then t
    else if Eq(entries[t.id], key) then Splice(t.left, t.right)
    else if Lt(key, entries[t.id]) then Branch(Deleted(entries, t.left, key), t.id, t.right)
    else Branch(t.left, t.id, Deleted(entries, t.right, key))
  }

  /** In a search tree the walk of `find` returns the value listed with the key. */
  lemma {:induction false} SearchItems<V>(entries: seq<Entry<V>>, t: Tree, key: int)
    requires AllEntries(entries, t) && Sorted(Items(entries, t))
    ensures Search(entries, t, key) == Lookup(Items(entries, t), key)
    decreases t
  {
    if t.Branch? {
      var e := entries[t.id];
      var a, x, b := Items(entries, t.left), (e.key, e.val), Items(entries, t.right);
      assert Items(entries, t) == a + ([x] + b);
      SortedParts(a, x, b);
      LookupConcat(a, [x] + b, key);
      LookupConcat([x], b, key);
      if Lt(key, e) {
        SearchItems(entries, t.left, key);
      } else if !Eq(e, key) {
        SearchItems(entries, t.right, key);
      }
    }
  }

  /** Where the walk finds no equal key, inserting hangs exactly one new node `n`. */
  lemma {:induction false} InsertedShape<V>(entries: seq<Entry<V>>, t: Tree, key: int, val: V)
    requires AllEntries(entries, t) && Search(entries, t, key).None?
    ensures var t' := Inserted(entries, t, key, |entries|);
            && Ids(t') == Ids(t) + {|entries|} && AllEntries(entries + [Entry(key, val)], t')
            && (Unique(t) ==> Unique(t'))
    decreases t
  {
    var entries' := entries + [Entry(key, val)];
    InRangeIds(t, |entries|);
    if t.Branch? {
      AllEntriesExtend(entries, Entry(key, val), t.left);
      AllEntriesExtend(entries, Entry(key, val), t.right);
      assert entries'[t.id] == entries[t.id];
      if Lt(key, entries[t.id]) {
        InsertedShape(entries, t.left, key, val);
      } else {
        InsertedShape(entries, t.right, key, val);
      }
    }
  }

  /** The listing of a node with a real key: left side, its pair, right side. */
  lemma ItemsBranch<V>(entries: seq<Entry<V>>, l: Tree, id: nat, r: Tree)
    requires InRange(Branch(l, id, r), |entries|) && entries[id].Entry?
    ensures Items(entries, Branch(l, id, r))
            == Items(entries, l) + [(entries[id].key, entries[id].val)] + Items(entries, r)
  {
  }

  /** Inserting a key the tree lacks adds exactly its pair and keeps the listing sorted. */
  lemma {:induction false} InsertedItems<V>(entries: seq<Entry<V>>, t: Tree, key: int, val: V)
    requires AllEntries(entries, t) && Sorted(Items(entries, t)) && Search(entries, t, key).None?
    ensures var entries' := entries + [Entry(key, val)];
            var t' := Inserted(entries, t, key, |entries|);
            && AllEntries(entries', t') && Sorted(Items(entries', t'))
            && multiset(Items(entries', t')) == multiset(Items(entries, t)) + multiset{(key, val)}
    decreases t, 1
  {
    InsertedShape(entries, t, key, val);
    if t.Leaf? {
      var entries' := entries + [Entry(key, val)];
      assert Items(entries', Inserted(entries, t, key, |entries|)) == [(key, val)];
    } else if key < entries[t.id].key {
      InsertedLeft(entries, t, key, val);
    } else {
      InsertedRight(entries, t, key, val);
    }
  }

  lemma {:induction false} InsertedLeft<V>(entries: seq<Entry<V>>, t: Tree, key: int, val: V)
    requires AllEntries(entries, t) && Sorted(Items(entries, t)) && Search(entries, t, key).None?
    requires t.Branch? && key < entries[t.id].key
    ensures var entries' := entries + [Entry(key, val)];
            var t' := Inserted(entries, t, key, |entries|);
            && AllEntries(entries', t') && Sorted(Items(entries', t'))
            && multiset(Items(entries', t')) == multiset(Items(entries, t)) + multiset{(key, val)}
    decreases t, 0
  {
    var n := |entries|;
    var entries' := entries + [Entry(key, val)];
    var e := entries[t.id];
    var a, x, b := Items(entries, t.left), (e.key, e.val), Items(entries, t.right);
    ItemsBranch(entries, t.left, t.id, t.right);
    SortedParts(a, x, b);
    InsertedItems(entries, t.left, key, val);
    InsertedShape(entries, t, key, val);
    ItemsExtend(entries, Entry(key, val), t.right);
    var l' := Inserted(entries, t.left, key, n);
    assert Inserted(entries, t, key, n) == Branch(l', t.id, t.right);
    assert entries'[t.id] == e;
    ItemsBranch(entries', l', t.id, t.right);
    AddLeft(a, Items(entries', l'), x, b, (key, val));
  }

  lemma {:induction false} InsertedRight<V>(entries: seq<Entry<V>>, t: Tree, key: int, val: V)
    requires AllEntries(entries, t) && Sorted(Items(entries, t)) && Search(entries, t, key).None?
    requires t.Branch? && entries[t.id].key <= key
    ensures var entries' := entries + [Entry(key, val)];
            var t' := Inserted(entries, t, key, |entries|);
            && AllEntries(entries', t') && Sorted(Items(entries', t'))
            && multiset(Items(entries', t')) == multiset(Items(entries, t)) + multiset{(key, val)}
    decreases t, 0
  {
    var n := |entries|;
    var entries' := entries + [Entry(key, val)];
    var e := entries[t.id];
    var a, x, b := Items(entries, t.left), (e.key, e.val), Items(entries, t.right);
    ItemsBranch(entries, t.left, t.id, t.right);
    SortedParts(a, x, b);
    InsertedItems(entries, t.right, key, val);
    InsertedShape(entries, t, key, val);
    ItemsExtend(entries, Entry(key, val), t.left);
    var r' := Inserted(entries, t.right, key, n);
    assert Inserted(entries, t, key, n) == Branch(t.left, t.id, r');
    assert entries'[t.id] == e;
    ItemsBranch(entries', t.left, t.id, r');
    AddRight(a, x, b, Items(entries', r'), (key, val));
  }

  /** A pair added on the left of `x` keeps the listing sorted when its key is below `x`'s. */
  lemma AddLeft<V>(a: seq<(int, V)>, a': seq<(int, V)>, x: (int, V), b: seq<(int, V)>, y: (int, V))
    requires Sorted(a) && Sorted(b) && KeysBelow(a, x.0) && KeysAbove(b, x.0)
    requires Sorted(a') && multiset(a') == multiset(a) + multiset{y} && y.0 < x.0
    ensures Sorted(a' + [x] + b) && multiset(a' + [x] + b) == multiset(a + [x] + b) + multiset{y}
  {
    forall z | z in a' ensures z.0 < x.0 {
      assert z in multiset(a');
    }
    SortedBuild(a', x, b);
  }

  lemma AddRight<V>(a: seq<(int, V)>, x: (int, V), b: seq<(int, V)>, b': seq<(int, V)>, y: (int, V))
    requires Sorted(a) && Sorted(b) && KeysBelow(a, x.0) && KeysAbove(b, x.0)
    requires Sorted(b') && multiset(b') == multiset(b) + multiset{y} && x.0 < y.0
    ensures Sorted(a + [x] + b') && multiset(a + [x] + b') == multiset(a + [x] + b) + multiset{y}
  {
    forall z | z in b' ensures x.0 < z.0 {
      assert z in multiset(b');
    }
    SortedBuild(a, x, b');
  }

  lemma {:induction false} AttachMaxIds<V>(entries: seq<Entry<V>>, t: Tree, x: Tree)
    ensures Ids(AttachMax(t, x)) == Ids(t) + Ids(x)
    ensures AllEntries(entries, t) && AllEntries(entries, x) ==> AllEntries(entries, AttachMax(t, x))
    ensures Unique(t) && Unique(x) && Ids(t) !! Ids(x) ==> Unique(AttachMax(t, x))
    decreases t
  {
    if t.Branch? {
      AttachMaxIds(entries, t.right, x);
    }
  }

  lemma {:induction false} AttachMaxItems<V>(entries: seq<Entry<V>>, t: Tree, x: Tree)
    requires AllEntries(entries, t) && AllEntries(entries, x)
    ensures AllEntries(entries, AttachMax(t, x))
    ensures Items(entries, AttachMax(t, x)) == Items(entries, t) + Items(entries, x)
    decreases t
  {
    AttachMaxIds(entries, t, x);
    if t.Branch? {
      AttachMaxItems(entries, t.right, x);
      var e := entries[t.id];
      var a, b, c := Items(entries, t.left), Items(entries, t.right), Items(entries, x);
      calc {
        Items(entries, AttachMax(t, x));
        a + [(e.key, e.val)] + (b + c);
        (a + [(e.key, e.val)] + b) + c;
      }
    }
  }

  lemma SpliceIds<V>(entries: seq<Entry<V>>, a: Tree, b: Tree)
    ensures Ids(Splice(a, b)) == Ids(a) + Ids(b)
    ensures AllEntries(entries, a) && AllEntries(entries, b) ==> AllEntries(entries, Splice(a, b))
    ensures Unique(a) && Unique(b) && Ids(a) !! Ids(b) ==> Unique(Splice(a, b))
  {
    if a.Branch? && b.Branch? {
      AttachMaxIds(entries, a, b.left);
    }
  }

  lemma SpliceItems<V>(entries: seq<Entry<V>>, a: Tree, b: Tree)
    requires AllEntries(entries, a) && AllEntries(entries, b)
    ensures AllEntries(entries, Splice(a, b))
    ensures Items(entries, Splice(a, b)) == Items(entries, a) + Items(entries, b)
  {
    if a.Branch? && b.Branch? {
      AttachMaxItems(entries, a, b.left);
      var m := AttachMax(a, b.left);
      var p, q, r := Items(entries, a), Items(entries, b.left), Items(entries, b.right);
      var x := (entries[b.id].key, entries[b.id].val);
      ItemsBranch(entries, m, b.id, b.right);
      ItemsBranch(entries, b.left, b.id, b.right);
      calc {
        Items(entries, Splice(a, b));
        (p + q) + [x] + r;
        p + (q + [x] + r);
      }
    }
  }

  /** Looking a key up in a listing split around one pair. */
  lemma LookupSplit<V>(a: seq<(int, V)>, x: (int, V), b: seq<(int, V)>, key: int)
    requires KeysBelow(a, x.0) && KeysAbove(b, x.0)
    ensures Lookup(a + [x] + b, key)
            == if key < x.0 then Lookup(a, key) else if key == x.0 then Some(x.1) else Lookup(b, key)
  {
    assert a + [x] + b == a + ([x] + b);
    LookupConcat(a, [x] + b, key);
    LookupConcat([x], b, key);
    assert [x][1..] == [];
  }

  /** Removing a key from the left side of `x`. */
  lemma RemoveLeft<V>(a: seq<(int, V)>, a': seq<(int, V)>, x: (int, V), b: seq<(int, V)>, y: (int, V))
    requires Sorted(b) && KeysBelow(a, x.0) && KeysAbove(b, x.0)
    requires Sorted(a') && y in a && multiset(a') == multiset(a) - multiset{y} && Lookup(a', y.0).None?
    ensures Sorted(a' + [x] + b) && Lookup(a' + [x] + b, y.0).None?
    ensures multiset(a' + [x] + b) == multiset(a + [x] + b) - multiset{y}
  {
    forall z | z in a' ensures z.0 < x.0 {
      assert z in multiset(a');
      assert z in a;
    }
    SortedBuild(a', x, b);
    LookupSplit(a', x, b, y.0);
    assert y in multiset(a);
  }

  /** Removing a key from the right side of `x`. */
  lemma RemoveRight<V>(a: seq<(int, V)>, x: (int, V), b: seq<(int, V)>, b': seq<(int, V)>, y: (int, V))
    requires Sorted(a) && KeysBelow(a, x.0) && KeysAbove(b, x.0)
    requires Sorted(b') && y in b && multiset(b') == multiset(b) - multiset{y} && Lookup(b', y.0).None?
    ensures Sorted(a + [x] + b') && Lookup(a + [x] + b', y.0).None?
    ensures multiset(a + [x] + b') == multiset(a + [x] + b) - multiset{y}
  {
    forall z | z in b' ensures x.0 < z.0 {
      assert z in multiset(b');
      assert z in b;
    }
    SortedBuild(a, x, b');
    LookupSplit(a, x, b', y.0);
    assert y in multiset(b);
  }

  /** Deleting a key the tree holds removes exactly its pair and keeps the
      listing sorted. */
  lemma {:induction false} DeleteFound<V>(entries: seq<Entry<V>>, t: Tree, key: int)
    requires AllEntries(entries, t) && Unique(t) && Sorted(Items(entries, t))
    requires Lookup(Items(entries, t), key).Some?
    ensures var t' := Deleted(entries, t, key);
            var v := Lookup(Items(entries, t), key).value;
            && Ids(t') <= Ids(t) && Unique(t') && AllEntries(entries, t')
            && Sorted(Items(entries, t')) && Lookup(Items(entries, t'), key).None?
            && multiset(Items(entries, t')) == multiset(Items(entries, t)) - multiset{(key, v)}
    decreases t, 1
  {
    if key == entries[t.id].key {
      DeleteHere(entries, t, key);
    } else if key < entries[t.id].key {
      DeleteLeft(entries, t, key);
    } else {
      DeleteRight(entries, t, key);
    }
  }

  lemma DeleteHere<V>(entries: seq<Entry<V>>, t: Tree, key: int)
    requires AllEntries(entries, t) && Unique(t) && Sorted(Items(entries, t))
    requires t.Branch? && key == entries[t.id].key
    ensures var t' := Deleted(entries, t, key);
            var v := entries[t.id].val;
            && Lookup(Items(entries, t), key) == Some(v)
            && Ids(t') <= Ids(t) && Unique(t') && AllEntries(entries, t')
            && Sorted(Items(entries, t')) && Lookup(Items(entries, t'), key).None?
            && multiset(Items(entries, t')) == multiset(Items(entries, t)) - multiset{(key, v)}
  {
    var e := entries[t.id];
    var a, x, b := Items(entries, t.left), (e.key, e.val), Items(entries, t.right);
    ItemsBranch(entries, t.left, t.id, t.right);
    SortedParts(a, x, b);
    LookupSplit(a, x, b, key);
    assert Deleted(entries, t, key) == Splice(t.left, t.right);
    SpliceIds(entries, t.left, t.right);
    SpliceItems(entries, t.left, t.right);
    RemoveHere(a, x, b);
  }

  /** Removing the pair that separates two sides. */
  lemma RemoveHere<V>(a: seq<(int, V)>, x: (int, V), b: seq<(int, V)>)
    requires Sorted(a) && Sorted(b) && KeysBelow(a, x.0) && KeysAbove(b, x.0)
    ensures Sorted(a + b) && Lookup(a + b, x.0).None?
    ensures multiset(a + b) == multiset(a + [x] + b) - multiset{x}
  {
    SortedJoin(a, x.0, b);
    LookupConcat(a, b, x.0);
    assert multiset(a + [x] + b) == multiset(a + b) + multiset{x};
  }

  lemma {:induction false} DeleteLeft<V>(entries: seq<Entry<V>>, t: Tree, key: int)
    requires AllEntries(entries, t) && Unique(t) && Sorted(Items(entries, t))
    requires Lookup(Items(entries, t), key).Some?
    requires t.Branch? && key < entries[t.id].key
    ensures var t' := Deleted(entries, t, key);
            var v := Lookup(Items(entries, t), key).value;
            && Ids(t') <= Ids(t) && Unique(t') && AllEntries(entries, t')
            && Sorted(Items(entries, t')) && Lookup(Items(entries, t'), key).None?
            && multiset(Items(entries, t')) == multiset(Items(entries, t)) - multiset{(key, v)}
    decreases t, 0
  {
    var e := entries[t.id];
    var a, x, b := Items(entries, t.left), (e.key, e.val), Items(entries, t.right);
    ItemsBranch(entries, t.left, t.id, t.right);
    SortedParts(a, x, b);
    LookupSplit(a, x, b, key);
    DeleteFound(entries, t.left, key);
    var l' := Deleted(entries, t.left, key);
    assert Deleted(entries, t, key) == Branch(l', t.id, t.right);
    ItemsBranch(entries, l', t.id, t.right);
    RemoveLeft(a, Items(entries, l'), x, b, (key, Lookup(a, key).value));
  }

  lemma {:induction false} DeleteRight<V>(entries: seq<Entry<V>>, t: Tree, key: int)
    requires AllEntries(entries, t) && Unique(t) && Sorted(Items(entries, t))
    requires Lookup(Items(entries, t), key).Some?
    requires t.Branch? && entries[t.id].key < key
    ensures var t' := Deleted(entries, t, key);
            var v := Lookup(Items(entries, t), key).value;
            && Ids(t') <= Ids(t) && Unique(t') && AllEntries(entries, t')
            && Sorted(Items(entries, t')) && Lookup(Items(entries, t'), key).None?
            && multiset(Items(entries, t')) == multiset(Items(entries, t)) - multiset{(key, v)}
    decreases t, 0
  {
    var e := entries[t.id];
    var a, x, b := Items(entries, t.left), (e.key, e.val), Items(entries, t.right);
    ItemsBranch(entries, t.left, t.id, t.right);
    SortedParts(a, x, b);
    LookupSplit(a, x, b, key);
    DeleteFound(entries, t.right, key);
    var r' := Deleted(entries, t.right, key);
    assert Deleted(entries, t, key) == Branch(t.left, t.id, r');
    ItemsBranch(entries, t.left, t.id, r');
    RemoveRight(a, x, b, Items(entries, r'), (key, Lookup(b, key).value));
  }

  // ---------------------------------------------------------------------------
  // Morris traversal

  /** The inner walk of `__iter__`: from `temp` follow right links while they
      are neither `Null` nor `cur`; `None` only when it leaves the arena or
      exceeds `fuel` steps. */
  ghost function Walk(right: seq<int>, cur: int, temp: int, fuel: nat): (r: Option<nat>)
    ensures r.Some? ==> r.value < |right| && (right[r.value] == Null || right[r.value] == cur)
    ensures r.Some? ==> 0 <= temp < |right|
    decreases fuel
  {
    if !(0 <= temp < |right|) then None
    else if right[temp] == Null || right[temp] == cur then Some(temp)
    else if fuel == 0 then None
    else Walk(right, cur, right[temp], fuel - 1)
  }

  /** The outer loop of `__iter__`, run from `cur` with the pairs `out` already
      yielded: the pairs it yields in all and the right links it leaves. At a
      node without a left child it yields and goes right; otherwise it walks to
      the rightmost node of the left subtree and either threads it to `cur` and
      goes left, or finds the thread, removes it, yields and goes right. `None`
      when the links leave the arena, reach the sentry, or `fuel` runs out. */
  ghost function Run<V>(entries: seq<Entry<V>>, left: seq<int>, right: seq<int>,
                        cur: int, out: seq<(int, V)>, fuel: nat): Option<(seq<(int, V)>, seq<int>)>
    decreases fuel
  {
    if cur == Null then Some((out, right))
    else if !(0 <= cur < |entries| && cur < |left| && cur < |right|) || entries[cur].SmallestDummy? || fuel == 0 then None
    else
      var x := (entries[cur].key, entries[cur].val);
      if left[cur] == Null then Run(entries, left, right, right[cur], out + [x], fuel - 1)
      else match Walk(right, cur, left[cur], |right|)
        case None => None
        case Some(temp) =>
          if right[temp] == Null then Run(entries, left, right[temp := cur], left[cur], out, fuel - 1)
          else
            var right' := right[temp := Null];
            Run(entries, left, right', right'[cur], out + [x], fuel - 1)
  }

  /** The steps the outer loop takes over `t`: one visit per node, and a second
      one at each node with a left subtree. */
  ghost function Cost(t: Tree): nat
  {
    if t.Leaf? then 0 else (if t.left.Leaf? then 1 else 2) + Cost(t.left) + Cost(t.right)
  }

  /** Distinct nodes of an arena of `n` nodes number at most `n`. */
  lemma {:induction false} CardBound(s: set<nat>, n: nat)
    requires forall i :: i in s ==> i < n
    ensures |s| <= n
    decreases n
  {
    if n == 0 {
      assert s == {};
    } else {
      CardBound(s - {n - 1}, n - 1);
    }
  }

  lemma {:induction false} IdsCard(t: Tree)
    requires Unique(t)
    ensures |Ids(t)| == Size(t)
    decreases t
  {
    if t.Branch? {
      IdsCard(t.left);
      IdsCard(t.right);
      assert Ids(t.left) + {t.id} !! Ids(t.right);
    }
  }

  /** In the links of a shape without a thread, the walk from its root stops at its
      rightmost node: no right link on the way is `Null` or the node `cur` outside it. */
  lemma {:induction false} WalkToMax(left: seq<int>, right: seq<int>, cur: int, p: int, t: Tree, after: int, fuel: nat)
    requires Links(left, right, p, t, after) && t.Branch?
    requires after == Null || after == cur
    requires cur !in Ids(t) && Size(t) <= fuel + 1
    ensures Walk(right, cur, p, fuel) == Some(MaxId(t))
    decreases t
  {
    if t.right.Branch? {
      assert t.right.id in Ids(t);
      WalkToMax(left, right, cur, right[t.id], t.right, after, fuel - 1);
    }
  }

  /** Threading the rightmost node of a shape to `x`. */
  lemma {:induction false} ThreadMax(left: seq<int>, right: seq<int>, p: int, t: Tree, x: int)
    requires Links(left, right, p, t, Null) && Unique(t) && t.Branch?
    ensures MaxId(t) < |right| && right[MaxId(t)] == Null
    ensures Links(left, right[MaxId(t) := x], p, t, x)
    decreases t
  {
    var m := MaxId(t);
    if t.right.Branch? {
      ThreadMax(left, right, right[t.id], t.right, x);
    }
    LinksFrame(left, right, left, right[m := x], left[t.id], t.left, Null);
  }

  /** The outer loop over a shape whose last right link is `after` yields its
      listing and arrives at `after` with every thread it made removed again. */
  lemma {:induction false} MorrisSubtree<V>(entries: seq<Entry<V>>, left: seq<int>, right: seq<int>,
                                           p: int, t: Tree, after: int, out: seq<(int, V)>, fuel: nat)
    requires |left| == |entries| && |right| == |entries|
    requires AllEntries(entries, t) && Unique(t) && Links(left, right, p, t, after)
    ensures Run(entries, left, right, p, out, fuel + Cost(t))
            == Run(entries, left, right, after, out + Items(entries, t), fuel)
    decreases t, 1
  {
    if t.Branch? {
      var x := (entries[t.id].key, entries[t.id].val);
      ItemsBranch(entries, t.left, t.id, t.right);
      if t.left.Leaf? {
        assert left[t.id] == Null;
        assert Run(entries, left, right, p, out, fuel + Cost(t))
               == Run(entries, left, right, right[t.id], out + [x], fuel + Cost(t.right));
        MorrisSubtree(entries, left, right, right[t.id], t.right, after, out + [x], fuel);
        assert out + [x] + Items(entries, t.right) == out + Items(entries, t);
      } else {
        MorrisLeft(entries, left, right, t, after, out, fuel);
      }
    } else {
      assert out + Items(entries, t) == out;
    }
  }

  /** At node `id` with left subtree `l` the loop first threads the rightmost
      node of `l` to `id` and descends. */
  lemma MorrisThread<V>(entries: seq<Entry<V>>, left: seq<int>, right: seq<int>,
                        id: nat, l: Tree, out: seq<(int, V)>, fuel: nat)
    requires |left| == |entries| && |right| == |entries| && id < |entries| && entries[id].Entry?
    requires l.Branch? && Links(left, right, left[id], l, Null)
    requires InRange(l, |entries|) && Unique(l) && id !in Ids(l) && fuel > 0
    ensures var m := MaxId(l);
            && m < |right|
            && Run(entries, left, right, id, out, fuel) == Run(entries, left, right[m := id], left[id], out, fuel - 1)
  {
    InRangeIds(l, |entries|);
    IdsCard(l);
    CardBound(Ids(l), |right|);
    WalkToMax(left, right, id, left[id], l, Null, |right|);
    ThreadMax(left, right, left[id], l, id);
  }

  /** Back at `id`, the loop finds the thread, removes it, yields the node and
      goes right. */
  lemma MorrisUnthread<V>(entries: seq<Entry<V>>, left: seq<int>, right: seq<int>,
                          id: nat, l: Tree, out: seq<(int, V)>, fuel: nat)
    requires |left| == |entries| && |right| == |entries| && id < |entries| && entries[id].Entry?
    requires l.Branch? && Links(left, right, left[id], l, Null)
    requires InRange(l, |entries|) && Unique(l) && id !in Ids(l) && fuel > 0
    ensures var m := MaxId(l);
            && m < |right|
            && Run(entries, left, right[m := id], id, out, fuel)
               == Run(entries, left, right, right[id], out + [(entries[id].key, entries[id].val)], fuel - 1)
  {
    var m := MaxId(l);
    InRangeIds(l, |entries|);
    IdsCard(l);
    CardBound(Ids(l), |right|);
    ThreadMax(left, right, left[id], l, id);
    var right' := right[m := id];
    WalkToMax(left, right', id, left[id], l, id, |right'|);
    assert right'[m := Null] == right;
  }

  lemma {:induction false} MorrisLeft<V>(entries: seq<Entry<V>>, left: seq<int>, right: seq<int>,
                                        t: Tree, after: int, out: seq<(int, V)>, fuel: nat)
    requires t.Branch? && t.left.Branch?
    requires |left| == |entries| && |right| == |entries|
    requires AllEntries(entries, t) && Unique(t) && Links(left, right, t.id, t, after)
    ensures Run(entries, left, right, t.id, out, fuel + Cost(t))
            == Run(entries, left, right, after, out + Items(entries, t), fuel)
    decreases t, 0
  {
    var id, l := t.id, t.left;
    var x := (entries[id].key, entries[id].val);
    assert id !in Ids(l);
    ThreadMax(left, right, left[id], l, id);
    var right' := right[MaxId(l) := id];
    MorrisThread(entries, left, right, id, l, out, fuel + Cost(t));
    MorrisSubtree(entries, left, right', left[id], l, id, out, fuel + 1 + Cost(t.right));
    MorrisUnthread(entries, left, right, id, l, out + Items(entries, l), fuel + 1 + Cost(t.right));
    MorrisSubtree(entries, left, right, right[id], t.right, after, out + Items(entries, l) + [x], fuel);
    ItemsBranch(entries, l, id, t.right);
    assert out + Items(entries, l) + [x] + Items(entries, t.right) == out + Items(entries, t);
  }

  // ---------------------------------------------------------------------------
  // Re-linking

  /** Links for `t` ending at `xp`, and links for `x` from `xp`, form `AttachMax(t, x)`. */
  lemma {:induction false} AttachLinks(left: seq<int>, right: seq<int>, p: int, t: Tree, xp: int, x: Tree)
    requires Links(left, right, p, t, xp) && Links(left, right, xp, x, Null)
    ensures Links(left, right, p, AttachMax(t, x), Null)
    decreases t
  {
    if t.Branch? {
      AttachLinks(left, right, right[t.id], t.right, xp, x);
    }
  }

  lemma {:induction false} PlugIds(c: Ctx, s: Tree)
    ensures Ids(Plug(c, s)) == CtxIds(c) + Ids(s)
    decreases c
  {
    match c
    case Top =>
    case InLeft(up, id, rt) => PlugIds(up, Branch(s, id, rt));
    case InRight(lt, id, up) => PlugIds(up, Branch(lt, id, s));
  }

  /** `__replace_node(target, child, new_child)`: the link of `target` that is
      `child` becomes `new_child`, the left one when both are. */
  ghost predicate Replaced(left: seq<int>, right: seq<int>, left': seq<int>, right': seq<int>,
                           target: nat, child: int, newChild: int)
    requires target < |left| && target < |right|
  {
    if left[target] == child then left' == left[target := newChild] && right' == right
    else left' == left && right' == right[target := newChild]
  }

  /** Below a parent whose right link leads into the hole, its left link does not. */
  lemma ParentSide(left: seq<int>, right: seq<int>, c: Ctx, hole: int)
    requires c.InRight? && CtxLinks(left, right, c, hole) && 0 <= hole && hole !in CtxIds(c)
    ensures left[c.id] != hole
  {
    if c.left.Branch? {
      assert c.left.id in Ids(c.left);
    }
  }

  /** Replacing the hole's subtree through its parent re-links the whole shape. */
  lemma ReplaceLinks(left: seq<int>, right: seq<int>, left': seq<int>, right': seq<int>,
                     c: Ctx, cur: nat, s: Tree, newChild: int)
    requires c != Top && CtxUnique(c) && CtxLinks(left, right, c, cur) && cur !in CtxIds(c)
    requires Links(left, right, newChild, s, Null) && Ids(s) !! CtxIds(c)
    requires Replaced(left, right, left', right', c.id, cur, newChild)
    ensures Links(left', right', TopLink(c, cur), Plug(c, s), Null)
  {
    assert c.id in CtxIds(c);
    if c.InRight? {
      ParentSide(left, right, c, cur);
    }
    LinksFrame(left, right, left', right', newChild, s, Null);
    Redirect(left, right, left', right', c, cur, newChild);
    PlugLinks(left', right', c, newChild, s);
  }

  /** The rewiring of `delete` for a node `cur` with two children: the rightmost
      node `m` of the left subtree takes over the right child's left subtree, the
      right child takes over the left subtree, and `cur` loses its left link. The
      links from the right child then form `Splice`, and the context is untouched. */
  lemma SpliceLinks(left: seq<int>, right: seq<int>, c: Ctx, cur: nat, sub: Tree, m: nat)
    requires CtxLinks(left, right, c, cur) && Links(left, right, cur, sub, Null)
    requires sub.Branch? && sub.left.Branch? && sub.right.Branch? && Unique(sub) && Ids(sub) !! CtxIds(c)
    requires m == MaxId(sub.left)
    ensures var a, b := sub.left, sub.right;
            && cur < |left| && cur < |right| && left[cur] == a.id && right[cur] == b.id
            && b.id < |left| && m < |right|
            && var right1 := right[m := left[b.id]];
               var left1 := left[b.id := a.id][cur := Null];
               Links(left1, right1, b.id, Splice(a, b), Null) && CtxLinks(left1, right1, c, cur)
  {
    var a, b := sub.left, sub.right;
    assert Links(left, right, left[cur], a, Null) && Links(left, right, right[cur], b, Null);
    var x := left[b.id];
    ThreadMax(left, right, a.id, a, x);
    var right1 := right[m := x];
    var left1 := left[b.id := a.id][cur := Null];
    assert m in Ids(a) && b.id in Ids(b) && cur !in Ids(a) && cur !in Ids(b);
    assert Ids(a) !! Ids(b) && b.id !in Ids(b.left) && b.id !in Ids(b.right);
    LinksFrame(left, right1, left1, right1, a.id, a, x);
    LinksFrame(left, right, left1, right1, x, b.left, Null);
    AttachLinks(left1, right1, a.id, a, x, b.left);
    SpliceAgrees(left, right, Ids(b.right), cur, b.id, a.id, m, x);
    LinksFrame(left, right, left1, right1, right[b.id], b.right, Null);
    assert m in Ids(sub) && b.id in Ids(sub) && cur in Ids(sub);
    SpliceAgrees(left, right, CtxIds(c), cur, b.id, a.id, m, x);
    CtxLinksFrame(left, right, left1, right1, c, cur);
  }

  /** The links the splice rewrites (`cur` and `bid` on the left, `m` on the right)
      lie outside `ids`, so the links of `ids` are kept. */
  lemma SpliceAgrees(left: seq<int>, right: seq<int>, ids: set<nat>, cur: nat, bid: nat, aid: int, m: nat, x: int)
    requires cur < |left| && bid < |left| && m < |right|
    requires cur !in ids && bid !in ids && m !in ids
    ensures Agree(left, right, left[bid := aid][cur := Null], right[m := x], ids)
  {
  }

  /** The end of the two-children case: the parent takes the right child, and
      `cur` loses its right link. */
  lemma ReplaceAndClear(left: seq<int>, right: seq<int>, left': seq<int>, right': seq<int>,
                        c: Ctx, cur: nat, s: Tree, b: int)
    requires c != Top && CtxUnique(c) && CtxLinks(left, right, c, cur) && cur !in CtxIds(c)
    requires Links(left, right, b, s, Null) && Ids(s) !! CtxIds(c) && cur !in Ids(s)
    requires Replaced(left, right, left', right', c.id, cur, b) && cur < |right'|
    ensures Links(left', right'[cur := Null], TopLink(c, cur), Plug(c, s), Null)
  {
    ReplaceLinks(left, right, left', right', c, cur, s, b);
    PlugIds(c, s);
    LinksFrame(left', right', left', right'[cur := Null], TopLink(c, cur), Plug(c, s), Null);
  }

  // ---------------------------------------------------------------------------
  // The tree object

  /** `tree` is the sentry, node 0, with a search tree to its right. */
  ghost predicate Ordered<V>(entries: seq<Entry<V>>, tree: Tree)
  {
    && 0 < |entries| && entries[0] == SmallestDummy
    && tree.Branch? && tree.left.Leaf? && tree.id == 0
    && AllEntries(entries, tree.right) && Unique(tree)
    && Sorted(Items(entries, tree.right))
  }

  /** The arena's links form `tree`. */
  ghost predicate Wf<V>(entries: seq<Entry<V>>, left: seq<int>, right: seq<int>, tree: Tree)
  {
    |left| == |entries| && |right| == |entries| && Ordered(entries, tree) && Links(left, right, 0, tree, Null)
  }

  /** The walk of `find` from the sentry finds what the listing holds. */
  lemma SearchPairs<V>(entries: seq<Entry<V>>, tree: Tree, key: int)
    requires Ordered(entries, tree)
    ensures InRange(tree, |entries|)
    ensures Search(entries, tree, key) == Lookup(Items(entries, tree.right), key)
  {
    SearchItems(entries, tree.right, key);
  }

  /** Hanging a new node `n`, appended to the arena, as the missing left child of
      the hole's root re-links the whole shape. */
  lemma HangLeft(left: seq<int>, right: seq<int>, c: Ctx, sub: Tree, n: nat)
    requires n == |left| && n == |right| && InRange(Plug(c, sub), n) && Unique(Plug(c, sub))
    requires sub.Branch? && sub.left.Leaf? && CtxLinks(left, right, c, sub.id) && Links(left, right, sub.id, sub, Null)
    ensures Links(left[sub.id := n] + [Null], right + [Null], TopLink(c, sub.id),
                  Plug(c, Branch(Branch(Leaf, n, Leaf), sub.id, sub.right)), Null)
  {
    var cur := sub.id;
    var left', right' := left[cur := n] + [Null], right + [Null];
    InRangeIds(Plug(c, sub), n);
    PlugUnique(c, sub);
    PlugIds(c, sub);
    assert cur in Ids(sub);
    assert Agree(left, right, left', right', Ids(sub.right) + CtxIds(c)) by {
      forall i | i in Ids(sub.right) + CtxIds(c) && i < |left| && i < |right|
        ensures i < |left'| && i < |right'| && left'[i] == left[i] && right'[i] == right[i]
      {
        assert i != cur;
      }
    }
    AgreeOn(left, right, left', right', Ids(sub.right) + CtxIds(c), Ids(sub.right));
    AgreeOn(left, right, left', right', Ids(sub.right) + CtxIds(c), CtxIds(c));
    LinksFrame(left, right, left', right', right[cur], sub.right, Null);
    CtxLinksFrame(left, right, left', right', c, cur);
    assert Links(left', right', n, Branch(Leaf, n, Leaf), Null);
    PlugLinks(left', right', c, cur, Branch(Branch(Leaf, n, Leaf), cur, sub.right));
  }

  /** The same as the missing right child. */
  lemma HangRight(left: seq<int>, right: seq<int>, c: Ctx, sub: Tree, n: nat)
    requires n == |left| && n == |right| && InRange(Plug(c, sub), n) && Unique(Plug(c, sub))
    requires sub.Branch? && sub.right.Leaf? && CtxLinks(left, right, c, sub.id) && Links(left, right, sub.id, sub, Null)
    ensures Links(left + [Null], right[sub.id := n] + [Null], TopLink(c, sub.id),
                  Plug(c, Branch(sub.left, sub.id, Branch(Leaf, n, Leaf))), Null)
  {
    var cur := sub.id;
    var left', right' := left + [Null], right[cur := n] + [Null];
    InRangeIds(Plug(c, sub), n);
    PlugUnique(c, sub);
    PlugIds(c, sub);
    assert cur in Ids(sub);
    assert Agree(left, right, left', right', Ids(sub.left) + CtxIds(c)) by {
      forall i | i in Ids(sub.left) + CtxIds(c) && i < |left| && i < |right|
        ensures i < |left'| && i < |right'| && left'[i] == left[i] && right'[i] == right[i]
      {
        assert i != cur;
      }
    }
    AgreeOn(left, right, left', right', Ids(sub.left) + CtxIds(c), Ids(sub.left));
    AgreeOn(left, right, left', right', Ids(sub.left) + CtxIds(c), CtxIds(c));
    LinksFrame(left, right, left', right', left[cur], sub.left, Null);
    CtxLinksFrame(left, right, left', right', c, cur);
    assert Links(left', right', n, Branch(Leaf, n, Leaf), Null);
    PlugLinks(left', right', c, cur, Branch(sub.left, cur, Branch(Leaf, n, Leaf)));
  }

  /** After the new node is linked in, the arena holds the search tree `Inserted`
      with one more pair. */
  lemma InsertTree<V>(entries: seq<Entry<V>>, tree: Tree, key: int, val: V)
    requires Ordered(entries, tree) && Search(entries, tree.right, key).None?
    ensures InRange(tree, |entries|)
    ensures var entries', tree' := entries + [Entry(key, val)], Inserted(entries, tree, key, |entries|);
            && Ordered(entries', tree')
            && multiset(Items(entries', tree'.right)) == multiset(Items(entries, tree.right)) + multiset{(key, val)}
  {
    var r' := Inserted(entries, tree.right, key, |entries|);
    assert Inserted(entries, tree, key, |entries|) == Branch(Leaf, 0, r');
    InsertedShape(entries, tree.right, key, val);
    InsertedItems(entries, tree.right, key, val);
    OrderedIntro(entries + [Entry(key, val)], r');
  }

  /** The state after `insert` links the new node in. */
  lemma InsertWf<V>(entries: seq<Entry<V>>, tree: Tree, left': seq<int>, right': seq<int>,
                    c: Ctx, sub: Tree, key: int, val: V)
    requires Ordered(entries, tree) && Search(entries, tree.right, key).None?
    requires |left'| == |entries| + 1 && |right'| == |entries| + 1
    requires InRange(tree, |entries|) && InRange(sub, |entries|) && sub.Branch? && TopLink(c, sub.id) == 0
    requires Inserted(entries, tree, key, |entries|) == Plug(c, Inserted(entries, sub, key, |entries|))
    requires Links(left', right', TopLink(c, sub.id), Plug(c, Inserted(entries, sub, key, |entries|)), Null)
    ensures var entries', tree' := entries + [Entry(key, val)], Inserted(entries, tree, key, |entries|);
            && Wf(entries', left', right', tree')
            && multiset(Items(entries', tree'.right)) == multiset(Items(entries, tree.right)) + multiset{(key, val)}
  {
    InsertTree(entries, tree, key, val);
  }

  /** The links after a new node, at the end of the arena, is hung below `cur`
      on the side where `key` belongs. */
  function HungLinks<V>(entries: seq<Entry<V>>, left: seq<int>, right: seq<int>, cur: nat, key: int): (seq<int>, seq<int>)
    requires cur < |entries| && cur < |left| && cur < |right|
  {
    var n := |entries|;
    if Lt(key, entries[cur]) then (left[cur := n] + [Null], right + [Null])
    else (left + [Null], right[cur := n] + [Null])
  }

  /** Where the walk of `insert` stops: `sub`, reached through `c`, is on the
      key's search path and has no child on the key's side. */
  ghost predicate HangPoint<V>(entries: seq<Entry<V>>, left: seq<int>, right: seq<int>, tree: Tree,
                               c: Ctx, sub: Tree, key: int)
  {
    && Ordered(entries, tree) && Search(entries, tree.right, key).None?
    && |left| == |entries| && |right| == |entries|
    && sub.Branch? && Plug(c, sub) == tree && InRange(sub, |entries|)
    && Links(left, right, sub.id, sub, Null) && CtxLinks(left, right, c, sub.id) && TopLink(c, sub.id) == 0
    && Inserted(entries, tree, key, |entries|) == Plug(c, Inserted(entries, sub, key, |entries|))
    && !Eq(entries[sub.id], key)
    && if Lt(key, entries[sub.id]) then left[sub.id] == Null else right[sub.id] == Null
  }

  /** Hanging the new node at the hang point yields the search tree `Inserted`
      with one more pair. */
  lemma HangWf<V>(entries: seq<Entry<V>>, left: seq<int>, right: seq<int>, tree: Tree,
                  c: Ctx, sub: Tree, key: int, val: V)
    requires HangPoint(entries, left, right, tree, c, sub, key)
    ensures sub.id < |entries|
    ensures var links := HungLinks(entries, left, right, sub.id, key);
            var entries', tree' := entries + [Entry(key, val)], Inserted(entries, tree, key, |entries|);
            && Wf(entries', links.0, links.1, tree')
            && multiset(Items(entries', tree'.right)) == multiset(Items(entries, tree.right)) + multiset{(key, val)}
  {
    var n, cur := |entries|, sub.id;
    SearchPairs(entries, tree, key);
    var links := HungLinks(entries, left, right, cur, key);
    if Lt(key, entries[cur]) {
      assert sub.left.Leaf? by { assert Links(left, right, left[cur], sub.left, Null); }
      HangLeft(left, right, c, sub, n);
      assert Inserted(entries, sub, key, n) == Branch(Branch(Leaf, n, Leaf), cur, sub.right);
    } else {
      assert sub.right.Leaf? by { assert Links(left, right, right[cur], sub.right, Null); }
      HangRight(left, right, c, sub, n);
      assert Inserted(entries, sub, key, n) == Branch(sub.left, cur, Branch(Leaf, n, Leaf));
    }
    InsertWf(entries, tree, links.0, links.1, c, sub, key, val);
  }

  /** The link that leads to `t`. */
  function ChildLink(t: Tree): int
  {
    if t.Leaf? then Null else t.id
  }

  /** Where the walk of `delete` stops when it finds `key`: `sub`, reached
      through `c`, holds the key; its parent is `c.id`. */
  ghost predicate DeletePoint<V>(entries: seq<Entry<V>>, left: seq<int>, right: seq<int>, tree: Tree,
                                 c: Ctx, sub: Tree, key: int)
  {
    && Ordered(entries, tree) && |left| == |entries| && |right| == |entries|
    && c != Top && c.id < |entries| && sub.Branch? && sub.id < |entries|
    && Plug(c, sub) == tree && InRange(sub, |entries|) && InRange(tree, |entries|)
    && Links(left, right, sub.id, sub, Null) && CtxLinks(left, right, c, sub.id) && TopLink(c, sub.id) == 0
    && left[sub.id] == ChildLink(sub.left) && right[sub.id] == ChildLink(sub.right)
    && Links(left, right, left[sub.id], sub.left, Null) && Links(left, right, right[sub.id], sub.right, Null)
    && (sub.left.Branch? ==> sub.left.id < |entries|) && (sub.right.Branch? ==> sub.right.id < |entries|)
    && Deleted(entries, tree, key) == Plug(c, Deleted(entries, sub, key))
    && Search(entries, tree, key) == Search(entries, sub, key) && Eq(entries[sub.id], key)
  }

  /** Where the descent of `delete` stops at the node holding `key`, the node and
      its parent are a deletion point. */
  lemma SeekFound<V>(entries: seq<Entry<V>>, left: seq<int>, right: seq<int>, tree: Tree,
                     c: Ctx, sub: Tree, cur: int, key: int)
    requires Wf(entries, left, right, tree)
    requires c != Top && Plug(c, sub) == tree && InRange(sub, |entries|)
    requires Links(left, right, cur, sub, Null) && CtxLinks(left, right, c, cur) && TopLink(c, cur) == 0
    requires Deleted(entries, tree, key) == Plug(c, Deleted(entries, sub, key))
    requires Search(entries, tree, key) == Search(entries, sub, key)
    requires 0 <= cur < |entries| && Eq(entries[cur], key)
    ensures sub.Branch? && cur == sub.id && DeletePoint(entries, left, right, tree, c, sub, key)
  {
    assert Links(left, right, left[cur], sub.left, Null) && Links(left, right, right[cur], sub.right, Null);
    assert InRange(sub.left, |entries|) && InRange(sub.right, |entries|);
  }

  /** The links form the search tree `Deleted` of `tree`, which lacks the pair
      of `key`; `v` was the key's value. */
  ghost predicate Removed<V>(entries: seq<Entry<V>>, left: seq<int>, right: seq<int>, tree: Tree, key: int, v: V)
  {
    && tree.Branch? && InRange(tree, |entries|)
    && var tree' := Deleted(entries, tree, key);
       && Wf(entries, left, right, tree')
       && Lookup(Items(entries, tree.right), key) == Some(v)
       && Lookup(Items(entries, tree'.right), key).None?
       && multiset(Items(entries, tree'.right)) == multiset(Items(entries, tree.right)) - multiset{(key, v)}
  }

  /** Unlinking a node with at most one child, by pointing its parent at that
      child, yields the search tree `Deleted` without the key's pair. */
  lemma UnlinkWf<V>(entries: seq<Entry<V>>, left: seq<int>, right: seq<int>, tree: Tree,
                    c: Ctx, sub: Tree, key: int, left': seq<int>, right': seq<int>)
    requires DeletePoint(entries, left, right, tree, c, sub, key)
    requires left[sub.id] == Null || right[sub.id] == Null
    requires Replaced(left, right, left', right', c.id, sub.id,
                      if left[sub.id] == Null then right[sub.id] else left[sub.id])
    ensures Removed(entries, left', right', tree, key, entries[sub.id].val)
  {
    var cur := sub.id;
    DeleteTree(entries, tree, c, sub, key);
    PlugUnique(c, sub);
    assert cur in Ids(sub);
    assert Links(left, right, left[cur], sub.left, Null) && Links(left, right, right[cur], sub.right, Null);
    if left[cur] == Null {
      ReplaceLinks(left, right, left', right', c, cur, sub.right, right[cur]);
    } else {
      ReplaceLinks(left, right, left', right', c, cur, sub.left, left[cur]);
    }
  }

  /** The largest node of the left subtree is not the node being deleted. */
  lemma MaxApart<V>(entries: seq<Entry<V>>, left: seq<int>, right: seq<int>, tree: Tree,
                    c: Ctx, sub: Tree, key: int)
    requires DeletePoint(entries, left, right, tree, c, sub, key) && sub.left.Branch?
    ensures MaxId(sub.left) != sub.id
  {
    PlugUnique(c, sub);
    assert sub.id !in Ids(sub.left);
  }

  /** The links of the two-children case of `delete`: the right child's left
      subtree hangs below the largest node `m` of the left subtree, the left
      subtree becomes the right child's left subtree, the parent takes the right
      child and the deleted node loses both links. */
  lemma RotateLinks(left: seq<int>, right: seq<int>, c: Ctx, sub: Tree, m: nat,
                    left1: seq<int>, right1: seq<int>, left': seq<int>, right': seq<int>)
    requires c != Top && sub.Branch? && sub.left.Branch? && sub.right.Branch?
    requires CtxLinks(left, right, c, sub.id) && Links(left, right, sub.id, sub, Null)
    requires Unique(sub) && CtxUnique(c) && Ids(sub) !! CtxIds(c)
    requires m == MaxId(sub.left) && m < |right| && m != sub.id
    requires sub.id < |left| && sub.id < |right| && right[sub.id] == sub.right.id && sub.right.id < |left|
    requires right1 == right[m := left[right[sub.id]]]
    requires left1 == left[right1[sub.id] := left[sub.id]][sub.id := Null]
    requires c.id < |left1| && c.id < |right1|
    requires Replaced(left1, right1, left', right', c.id, sub.id, right1[sub.id])
    ensures sub.id < |right'|
    ensures Links(left', right'[sub.id := Null], TopLink(c, sub.id), Plug(c, Splice(sub.left, sub.right)), Null)
  {
    var cur, a, b := sub.id, sub.left, sub.right;
    assert cur in Ids(sub) && a.id in Ids(sub) && b.id in Ids(sub);
    SpliceLinks(left, right, c, cur, sub, m);
    SpliceIds<int>([], a, b);
    ReplaceAndClear(left1, right1, left', right', c, cur, Splice(a, b), b.id);
  }

  /** The two-children case of `delete` yields the search tree `Deleted`
      without the key's pair. */
  lemma RotateWf<V>(entries: seq<Entry<V>>, left: seq<int>, right: seq<int>, tree: Tree,
                    c: Ctx, sub: Tree, key: int, m: nat,
                    left1: seq<int>, right1: seq<int>, left': seq<int>, right': seq<int>)
    requires DeletePoint(entries, left, right, tree, c, sub, key)
    requires sub.left.Branch? && sub.right.Branch? && m == MaxId(sub.left) && m < |entries| && m != sub.id
    requires right1 == right[m := left[right[sub.id]]]
    requires left1 == left[right1[sub.id] := left[sub.id]][sub.id := Null]
    requires Replaced(left1, right1, left', right', c.id, sub.id, right1[sub.id])
    ensures sub.id < |right'|
    ensures Removed(entries, left', right'[sub.id := Null], tree, key, entries[sub.id].val)
  {
    DeleteTree(entries, tree, c, sub, key);
    PlugUnique(c, sub);
    RotateLinks(left, right, c, sub, m, left1, right1, left', right');
  }

  /** `Ordered` from its parts. */
  lemma OrderedIntro<V>(entries: seq<Entry<V>>, r: Tree)
    requires 0 < |entries| && entries[0] == SmallestDummy
    requires AllEntries(entries, r) && Unique(r) && 0 !in Ids(r) && Sorted(Items(entries, r))
    ensures Ordered(entries, Branch(Leaf, 0, r))
  {
  }

  /** After the node holding `key` is unlinked, the arena holds the search tree
      `Deleted` without the key's pair. */
  lemma DeleteTree<V>(entries: seq<Entry<V>>, tree: Tree, c: Ctx, sub: Tree, key: int)
    requires Ordered(entries, tree)
    requires sub.Branch? && Plug(c, sub) == tree && InRange(sub, |entries|) && InRange(tree, |entries|)
    requires Deleted(entries, tree, key) == Plug(c, Deleted(entries, sub, key))
    requires Search(entries, tree, key) == Search(entries, sub, key) && Eq(entries[sub.id], key)
    ensures var tree', v := Deleted(entries, tree, key), entries[sub.id].val;
            && tree' == Plug(c, Splice(sub.left, sub.right))
            && Lookup(Items(entries, tree.right), key) == Some(v)
            && Ordered(entries, tree')
            && Lookup(Items(entries, tree'.right), key).None?
            && multiset(Items(entries, tree'.right)) == multiset(Items(entries, tree.right)) - multiset{(key, v)}
  {
    SearchPairs(entries, tree, key);
    assert Deleted(entries, tree, key) == Branch(Leaf, 0, Deleted(entries, tree.right, key));
    assert tree.right.Branch? ==> 0 !in Ids(tree.right);
    DeleteFound(entries, tree.right, key);
  }

  class BinarySearchTree<V> {
    var entries: seq<Entry<V>>
    var left: seq<int>
    var right: seq<int>
    ghost var tree: Tree

    ghost predicate Valid()
      reads this
    {
      Wf(entries, left, right, tree)
    }

    /** The (key, value) pairs in key order. */
    ghost function Pairs(): seq<(int, V)>
      reads this
    {
      if Ordered(entries, tree) then Items(entries, tree.right) else []
    }

    /** A tree holding only the sentry. */
    constructor()
      ensures Valid() && Pairs() == []
    {
      entries := [SmallestDummy];
      left := [Null];
      right := [Null];
      tree := Branch(Leaf, 0, Leaf);
    }

    /** Adds `key` with `val` unless the key is already there; answers whether it did. */
    method Insert(key: int, val: V) returns (inserted: bool)
      requires Valid()
      modifies this
      ensures Valid()
      ensures inserted <==> Lookup(old(Pairs()), key).None?
      ensures inserted ==> entries == old(entries) + [Entry(key, val)]
                           && multiset(Pairs()) == multiset(old(Pairs())) + multiset{(key, val)}
      ensures !inserted ==> entries == old(entries) && left == old(left) && right == old(right) && tree == old(tree)
    {
      var found, cur, c, sub := Locate(key);
      if found {
        return false;
      }
      HangWf(entries, left, right, tree, c, sub, key, val);
      var links := HungLinks(entries, left, right, cur, key);
      entries, left, right, tree := entries + [Entry(key, val)], links.0, links.1, Inserted(entries, tree, key, |entries|);
      return true;
    }

    /** The walk of `insert` from the sentry: stops at the node holding `key`,
        or at the hang point for a new node. */
    method Locate(key: int) returns (found: bool, cur: nat, ghost c: Ctx, ghost sub: Tree)
      requires Valid()
      ensures found <==> Lookup(Pairs(), key).Some?
      ensures !found ==> sub.Branch? && cur == sub.id && HangPoint(entries, left, right, tree, c, sub, key)
    {
      SearchPairs(entries, tree, key);
      var n := |entries|;
      cur, c, sub := 0, Top, tree;
      while true
        invariant sub.Branch? && Plug(c, sub) == tree && InRange(sub, |entries|)
        invariant Links(left, right, cur, sub, Null) && CtxLinks(left, right, c, cur) && TopLink(c, cur) == 0
        invariant Inserted(entries, tree, key, n) == Plug(c, Inserted(entries, sub, key, n))
        invariant Search(entries, tree, key) == Search(entries, sub, key)
        decreases sub
      {
        if Eq(entries[cur], key) {
          return true, cur, c, sub;
        }
        if Lt(key, entries[cur]) {
          if left[cur] == Null {
            return false, cur, c, sub;
          }
          c, sub := InLeft(c, cur, sub.right), sub.left;
          cur := left[cur];
        } else {
          if right[cur] == Null {
            return false, cur, c, sub;
          }
          c, sub := InRight(sub.left, cur, c), sub.right;
          cur := right[cur];
        }
      }
    }

    /** `__replace_node`: the link of `target` that leads to `child` now leads to `newChild`. */
    method ReplaceNode(target: nat, child: int, newChild: int)
      requires target < |left| && target < |right|
      modifies this
      ensures Replaced(old(left), old(right), left, right, target, child, newChild)
      ensures entries == old(entries) && tree == old(tree)
    {
      if left[target] == child {
        left := left[target := newChild];
      } else {
        right := right[target := newChild];
      }
    }

    /** Removes `key` and its value; fails, changing nothing, when the key is absent. */
    method Delete(key: int) returns (r: Outcome<string>)
      requires Valid()
      modifies this
      ensures Valid() && entries == old(entries)
      ensures Lookup(old(Pairs()), key).None? ==>
                r == Fail("cannot find " + Calc.IntToString(key))
                && left == old(left) && right == old(right) && tree == old(tree)
      ensures Lookup(old(Pairs()), key).Some? ==>
                r == Pass && Lookup(Pairs(), key).None?
                && multiset(Pairs()) == multiset(old(Pairs())) - multiset{(key, Lookup(old(Pairs()), key).value)}
    {
      var pre, cur, c, sub := Seek(key);
      if cur == Null {
        return Fail("cannot find " + Calc.IntToString(key));
      }
      RemoveNode(pre, cur, c, sub, key);
      r := Pass;
    }

    /** The unlinking step of `delete`, at the node `cur` holding `key`, whose
        parent is `pre`. */
    method RemoveNode(pre: nat, cur: nat, ghost c: Ctx, ghost sub: Tree, key: int)
      requires c != Top && sub.Branch? && pre == c.id && cur == sub.id
      requires DeletePoint(entries, left, right, tree, c, sub, key)
      modifies this
      ensures Valid() && entries == old(entries)
      ensures Lookup(old(Pairs()), key) == Some(old(entries)[cur].val) && Lookup(Pairs(), key).None?
      ensures multiset(Pairs()) == multiset(old(Pairs())) - multiset{(key, old(entries)[cur].val)}
    {
      Unhook(pre, cur, c, sub, key);
      tree := Deleted(entries, tree, key);
    }

    /** The three cases of unlinking `cur`: no left child, no right child, or
        both, where the right child takes its place. */
    method Unhook(pre: nat, cur: nat, ghost c: Ctx, ghost sub: Tree, key: int)
      requires c != Top && sub.Branch? && pre == c.id && cur == sub.id
      requires DeletePoint(entries, left, right, tree, c, sub, key)
      modifies this
      ensures entries == old(entries) && tree == old(tree)
      ensures Removed(entries, left, right, tree, key, entries[cur].val)
    {
      ghost var left0, right0 := left, right;
      if left[cur] == Null {
        ReplaceNode(pre, cur, right[cur]);
        UnlinkWf(entries, left0, right0, tree, c, sub, key, left, right);
      } else if right[cur] == Null {
        ReplaceNode(pre, cur, left[cur]);
        UnlinkWf(entries, left0, right0, tree, c, sub, key, left, right);
      } else {
        var m := MaxNode(left[cur], sub.left);
        MaxApart(entries, left, right, tree, c, sub, key);
        right := right[m := left[right[cur]]];
        left := left[right[cur] := left[cur]];
        left := left[cur := Null];
        ghost var left1, right1 := left, right;
        ReplaceNode(pre, cur, right[cur]);
        ghost var right2 := right;
        right := right[cur := Null];
        RotateWf(entries, left0, right0, tree, c, sub, key, m, left1, right1, left, right2);
      }
    }

    /** The walk of `delete` from the sentry: stops at the node holding `key`,
        with its parent, or at `Null` when the key is absent. */
    method Seek(key: int) returns (pre: nat, cur: int, ghost c: Ctx, ghost sub: Tree)
      requires Valid()
      ensures cur == Null <==> Lookup(Pairs(), key).None?
      ensures cur != Null ==> c != Top && sub.Branch? && pre == c.id && cur == sub.id
                              && DeletePoint(entries, left, right, tree, c, sub, key)
    {
      SearchPairs(entries, tree, key);
      pre, cur := 0, right[0];
      c, sub := InRight(Leaf, 0, Top), tree.right;
      while cur != Null && !Eq(entries[cur], key)
        invariant c != Top && c.id == pre && Plug(c, sub) == tree && InRange(sub, |entries|)
        invariant Links(left, right, cur, sub, Null) && CtxLinks(left, right, c, cur) && TopLink(c, cur) == 0
        invariant Deleted(entries, tree, key) == Plug(c, Deleted(entries, sub, key))
        invariant Search(entries, tree, key) == Search(entries, sub, key)
        decreases sub
      {
        pre := cur;
        if Lt(key, entries[cur]) {
          c, sub := InLeft(c, cur, sub.right), sub.left;
          cur := left[cur];
        } else {
          c, sub := InRight(sub.left, cur, c), sub.right;
          cur := right[cur];
        }
      }
      if cur != Null {
        SeekFound(entries, left, right, tree, c, sub, cur, key);
      }
    }

    /** The largest node of the subtree `t` whose root `from` is: the walk
        along right links that `delete` makes in the two-children case. */
    method MaxNode(from: int, ghost t: Tree) returns (m: nat)
      requires t.Branch? && Links(left, right, from, t, Null)
      ensures m == MaxId(t) && m < |right| && right[m] == Null
    {
      m := from;
      ghost var spine := t;
      while right[m] != Null
        invariant spine.Branch? && Links(left, right, m, spine, Null) && MaxId(spine) == MaxId(t)
        decreases spine
      {
        m := right[m];
        spine := spine.right;
      }
    }

    /** The value stored with `key`, if any. */
    method Find(key: int) returns (r: Option<V>)
      requires Valid()
      ensures r == Lookup(Pairs(), key)
    {
      SearchPairs(entries, tree, key);
      var cur := right[0];
      ghost var sub := tree.right;
      while cur != Null && !Eq(entries[cur], key)
        invariant InRange(sub, |entries|) && Links(left, right, cur, sub, Null)
        invariant Search(entries, tree, key) == Search(entries, sub, key)
        decreases sub
      {
        if Lt(key, entries[cur]) {
          sub := sub.left;
          cur := left[cur];
        } else {
          sub := sub.right;
          cur := right[cur];
        }
      }
      r := if cur == Null then None else Some(entries[cur].val);
    }

    /** `__iter__`, run to the end: the pairs in key order, by Morris traversal,
        which threads and unthreads right links and leaves them as they were. */
    method Iter() returns (items: seq<(int, V)>)
      requires Valid()
      modifies this
      ensures Valid() && items == Pairs()
      ensures entries == old(entries) && left == old(left) && right == old(right) && tree == old(tree)
    {
      var cur := right[0];
      items := [];
      ghost var fuel := Cost(tree.right);
      ghost var r0 := right;
      MorrisSubtree(entries, left, right, cur, tree.right, Null, [], 0);
      assert [] + Items(entries, tree.right) == Items(entries, tree.right);
      while cur != Null
        invariant |right| == |r0| && left == old(left) && entries == old(entries) && tree == old(tree)
        invariant Run(entries, left, right, cur, items, fuel) == Some((Items(entries, tree.right), r0))
        decreases fuel
      {
        if left[cur] == Null {
          items := items + [(entries[cur].key, entries[cur].val)];
          cur := right[cur];
        } else {
          var temp := left[cur];
          ghost var steps: nat := |right|;
          while right[temp] != Null && right[temp] != cur
            invariant Walk(right, cur, temp, steps) == Walk(right, cur, left[cur], |right|)
            invariant Walk(right, cur, temp, steps).Some?
            decreases steps
          {
            temp := right[temp];
            steps := steps - 1;
          }
          if right[temp] == Null {
            right := right[temp := cur];
            cur := left[cur];
          } else {
            right := right[temp := Null];
            items := items + [(entries[cur].key, entries[cur].val)];
            cur := right[cur];
          }
        }
        fuel := fuel - 1;
      }
    }
  }
}
