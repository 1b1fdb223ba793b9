/** The rules of the single-instrument order book, as functions of its state.

    Every order that ever rests is kept in one table, `orders`; a price level's
    queue and the order-id index hold handles (positions in that table), so a
    change to an order's quantity or cancelled flag is seen from both, as it is
    through the shared `Order` object in the source. Each side is a heap of the
    prices of its levels, best first (`SamePriceOrders.__lt__`), and a map from
    price to the level's queue. */
module OrderMatchingSpec {
  import opened Common

  datatype OrderType = Limit | Market

  datatype Side = Buy | Sell

  /** `quantity` is what is left to trade; `price` is only meaningful for limit
      orders (market orders carry -1). */
  datatype Order = Order(kind: OrderType, userId: string, side: Side, id: string,
                         quantity: int, cancelled: bool, price: int)

  datatype User = User(userId: string, makerCost: int, takerCost: int)

  function UnknownUser(userId: string): (r: string)
    ensures r != AssertionError
  {
    userId + " is not a valid user ID"
  }

  function DuplicateUser(userId: string): string
  {
    userId + " has already existed"
  }

  const AssertionError := "AssertionError"

  function Opposite(s: Side): (r: Side)
    ensures r != s
  {
    if s == Buy then Sell else Buy
  }

  function Min(a: int, b: int): (m: int)
    ensures m <= a && m <= b && (m == a || m == b)
  {
    if a <= b then a else b
  }

  // ---------------------------------------------------------------------------
  // Users

  /** Python's `<` on strings: code point by code point, a proper prefix first. */
  predicate StrLess(a: string, b: string)
  {
    if a == [] then b != []
    else b != [] && (a[0] < b[0] || (a[0] == b[0] && StrLess(a[1..], b[1..])))
  }

  lemma {:induction false} StrLessTotal(a: string, b: string)
    ensures a == b || StrLess(a, b) || StrLess(b, a)
  {
    if a != [] && b != [] && a[0] == b[0] {
      StrLessTotal(a[1..], b[1..]);
      if a[1..] == b[1..] {
        assert a == [a[0]] + a[1..] && b == [b[0]] + b[1..];
      }
    }
  }

  lemma {:induction false} StrLessIrreflexive(a: string)
    ensures !StrLess(a, a)
  {
    if a != [] {
      StrLessIrreflexive(a[1..]);
    }
  }

  lemma {:induction false} StrLessTransitive(a: string, b: string, c: string)
    requires StrLess(a, b) && StrLess(b, c)
    ensures StrLess(a, c)
  {
    if a != [] && a[0] == b[0] && b[0] == c[0] {
      StrLessTransitive(a[1..], b[1..], c[1..]);
    }
  }

  /** Every user is filed under its own id. */
  predicate UsersOk(users: map<string, User>)
  {
    forall k :: k in users ==> users[k].userId == k
  }

  predicate SortedById(us: seq<User>)
  {
    forall i, j :: 0 <= i < j < |us| ==> StrLess(us[i].userId, us[j].userId)
  }

  /** `us` with `u` put at its place by id. */
  function InsertById(us: seq<User>, u: User): (r: seq<User>)
    requires SortedById(us) && forall i :: 0 <= i < |us| ==> us[i].userId != u.userId
    ensures SortedById(r) && |r| == |us| + 1
    ensures forall x :: x in r <==> x == u || x in us
  {
    if us == [] then [u]
    else
      StrLessTotal(u.userId, us[0].userId);
      if StrLess(u.userId, us[0].userId) then
        assert forall j :: 0 <= j < |us| ==> StrLess(u.userId, us[j].userId) by {
          forall j | 0 <= j < |us| ensures StrLess(u.userId, us[j].userId) {
            if j > 0 {
              StrLessTransitive(u.userId, us[0].userId, us[j].userId);
            }
          }
        }
        [u] + us
      else
        var rest := InsertById(us[1..], u);
        assert forall x :: x in rest ==> StrLess(us[0].userId, x.userId) by {
          forall x | x in rest ensures StrLess(us[0].userId, x.userId) {
            if x != u {
              var j :| 0 <= j < |us[1..]| && us[1..][j] == x;
              assert us[j + 1] == x;
            }
          }
        }
        assert us == [us[0]] + us[1..];
        [us[0]] + rest
  }

  function Balance(u: User): int
  {
    u.makerCost - u.takerCost
  }

  /** The sum of all maker costs minus the sum of all taker costs. */
  ghost function Net(users: map<string, User>): int
    decreases |users|
  {
    if users == map[] then 0
    else
      var k :| k in users;
      Balance(users[k]) + Net(users - {k})
  }

  lemma {:induction false} NetRemove(users: map<string, User>, k: string)
    requires k in users
    ensures Net(users) == Balance(users[k]) + Net(users - {k})
    decreases |users|
  {
    var k' :| k' in users && Net(users) == Balance(users[k']) + Net(users - {k'});
    if k' != k {
      NetRemove(users - {k'}, k);
      NetRemove(users - {k}, k');
      assert users - {k'} - {k} == users - {k} - {k'};
    }
  }

  lemma NetUpdate(users: map<string, User>, k: string, u: User)
    requires k in users
    ensures Net(users[k := u]) == Net(users) - Balance(users[k]) + Balance(u)
  {
    NetRemove(users[k := u], k);
    NetRemove(users, k);
    assert users[k := u] - {k} == users - {k};
  }

  /** Registering a user with no costs leaves the books balanced. */
  lemma NetAddUser(users: map<string, User>, k: string)
    requires k !in users
    ensures Net(users[k := User(k, 0, 0)]) == Net(users)
  {
    NetRemove(users[k := User(k, 0, 0)], k);
    assert users[k := User(k, 0, 0)] - {k} == users;
  }

  // ---------------------------------------------------------------------------
  // Price levels

  /** The heap order of two levels of one side (`SamePriceOrders.__lt__`): asks come
      out lowest price first, bids highest price first. */
  predicate Before(side: Side, a: int, b: int)
  {
    if side == Sell then a < b else a > b
  }

  /** An order that can still trade: neither cancelled nor exhausted. */
  predicate Live(o: Order)
  {
    !o.cancelled && o.quantity != 0
  }

  predicate Handles(orders: seq<Order>, q: seq<nat>)
  {
    forall i :: 0 <= i < |q| ==> q[i] < |orders|
  }

  /** How many orders `_purge_cancelled_or_empty_orders` pops: those at the front
      of the queue that can no longer trade, up to the first one that can. */
  function Dead(orders: seq<Order>, q: seq<nat>): (k: nat)
    requires Handles(orders, q)
    ensures k <= |q| && (k < |q| ==> Live(orders[q[k]]))
    ensures forall i :: 0 <= i < k ==> !Live(orders[q[i]])
    decreases |q|
  {
    if q != [] && !Live(orders[q[0]]) then
      var k := Dead(orders, q[1..]);
      assert forall i :: 0 < i <= k ==> q[i] == q[1..][i - 1];
      1 + k
    else 0
  }

  /** `_purge_cancelled_or_empty_orders`: the queue from its first order that can
      still trade, or empty. */
  function Purge(orders: seq<Order>, q: seq<nat>): (r: seq<nat>)
    requires Handles(orders, q)
    ensures Handles(orders, r) && (r != [] ==> Live(orders[r[0]]))
  {
    q[Dead(orders, q)..]
  }

  lemma PurgeIdempotent(orders: seq<Order>, q: seq<nat>)
    requires Handles(orders, q)
    ensures Purge(orders, Purge(orders, q)) == Purge(orders, q)
  {
  }

  /** One side of the book: the heap of level prices and each level's queue. */
  datatype Levels = Levels(heap: seq<int>, queues: map<int, seq<nat>>)

  predicate Ordered(side: Side, heap: seq<int>)
  {
    forall i, j :: 0 <= i < j < |heap| ==> Before(side, heap[i], heap[j])
  }

  /** The heap holds exactly the prices of the levels in the map. */
  ghost predicate HeapKeys(lv: Levels)
  {
    && (forall i :: 0 <= i < |lv.heap| ==> lv.heap[i] in lv.queues)
    && (forall p :: p in lv.queues ==> p in lv.heap)
  }

  predicate QueuesOk(queues: map<int, seq<nat>>, orders: seq<Order>)
  {
    forall p :: p in queues ==> Handles(orders, queues[p])
  }

  ghost predicate LevelsOk(side: Side, lv: Levels, orders: seq<Order>)
  {
    Ordered(side, lv.heap) && HeapKeys(lv) && QueuesOk(lv.queues, orders)
  }

  /** `heapq.heappush` of a new level price, in the abstract: the heap keeps its
      order and gains exactly that price. */
  function Push(side: Side, heap: seq<int>, p: int): (r: seq<int>)
    requires Ordered(side, heap) && p !in heap
    ensures Ordered(side, r) && |r| == |heap| + 1
    ensures forall x :: x in r <==> x == p || x in heap
  {
    if heap == [] || Before(side, p, heap[0]) then
      assert forall j :: 0 <= j < |heap| ==> Before(side, p, heap[j]) by {
        forall j | 0 < j < |heap| ensures Before(side, p, heap[j]) {
          assert Before(side, heap[0], heap[j]);
        }
      }
      [p] + heap
    else
      var rest := Push(side, heap[1..], p);
      assert forall x :: x in rest ==> Before(side, heap[0], x) by {
        forall x | x in rest ensures Before(side, heap[0], x) {
          if x != p {
            var j :| 0 <= j < |heap[1..]| && heap[1..][j] == x;
            assert heap[j + 1] == x;
          }
        }
      }
      assert heap == [heap[0]] + heap[1..];
      [heap[0]] + rest
  }

  /** The top of the heap is the best level of its side. */
  lemma TopIsBest(side: Side, lv: Levels, orders: seq<Order>)
    requires LevelsOk(side, lv, orders) && lv.heap != []
    ensures forall p :: p in lv.queues && p != lv.heap[0] ==> Before(side, lv.heap[0], p)
  {
    forall p | p in lv.queues && p != lv.heap[0] ensures Before(side, lv.heap[0], p) {
      var i :| 0 <= i < |lv.heap| && lv.heap[i] == p;
    }
  }

  /** The best level is present and its front order can trade. */
  predicate TopLive(lv: Levels, orders: seq<Order>)
  {
    lv.heap != [] ==>
      && lv.heap[0] in lv.queues
      && lv.queues[lv.heap[0]] != []
      && lv.queues[lv.heap[0]][0] < |orders|
      && Live(orders[lv.queues[lv.heap[0]][0]])
  }

  /** `_maintain_orders`: purge the best level and drop it while it purges to
      empty; what is left has a best level whose front order can trade, or no
      level at all. */
  function Maintain(side: Side, lv: Levels, orders: seq<Order>): Levels
    requires LevelsOk(side, lv, orders)
    decreases |lv.heap|
  {
    if lv.heap == [] then lv
    else
      var p := lv.heap[0];
      var q := Purge(orders, lv.queues[p]);
      if q == [] then Maintain(side, Pop(side, lv, orders), orders)
      else Levels(lv.heap, lv.queues[p := q])
  }

  /** What `_maintain_orders` leaves is well formed, and its best level, if any,
      has a front order that can trade. */
  lemma {:induction false} MaintainOk(side: Side, lv: Levels, orders: seq<Order>)
    requires LevelsOk(side, lv, orders)
    ensures LevelsOk(side, Maintain(side, lv, orders), orders) && TopLive(Maintain(side, lv, orders), orders)
    decreases |lv.heap|
  {
    if lv.heap != [] {
      var p := lv.heap[0];
      var q := Purge(orders, lv.queues[p]);
      if q == [] {
        MaintainOk(side, Pop(side, lv, orders), orders);
      } else {
        PurgeKeepsLevels(side, lv, orders);
      }
    }
  }

  /** `heapq.heappop` of the best level, with its entry in the price map. */
  function Pop(side: Side, lv: Levels, orders: seq<Order>): (r: Levels)
    requires LevelsOk(side, lv, orders) && lv.heap != []
    ensures LevelsOk(side, r, orders) && r.heap == lv.heap[1..] && r.queues == lv.queues - {lv.heap[0]}
  {
    var p := lv.heap[0];
    assert lv.heap == [p] + lv.heap[1..];
    assert forall i :: 0 < i < |lv.heap| ==> lv.heap[i] != p by {
      assert forall i :: 0 < i < |lv.heap| ==> Before(side, p, lv.heap[i]);
    }
    Levels(lv.heap[1..], lv.queues - {p})
  }

  /** The levels `_maintain_orders` leaves are the last ones of the heap: it only
      drops best levels. */
  lemma {:induction false} MaintainSuffix(side: Side, lv: Levels, orders: seq<Order>)
    requires LevelsOk(side, lv, orders)
    ensures var r := Maintain(side, lv, orders);
      |r.heap| <= |lv.heap| && r.heap == lv.heap[|lv.heap| - |r.heap|..]
    decreases |lv.heap|
  {
    if lv.heap != [] {
      var p := lv.heap[0];
      if Purge(orders, lv.queues[p]) == [] {
        var lv' := Pop(side, lv, orders);
        MaintainSuffix(side, lv', orders);
        var r := Maintain(side, lv', orders);
        assert r == Maintain(side, lv, orders);
        assert lv'.heap[|lv'.heap| - |r.heap|..] == lv.heap[|lv.heap| - |r.heap|..];
      }
    }
  }

  /** None of the levels `_maintain_orders` drops held an order that could trade. */
  lemma {:induction false} MaintainDrops(side: Side, lv: Levels, orders: seq<Order>)
    requires LevelsOk(side, lv, orders)
    ensures var r := Maintain(side, lv, orders);
      forall i :: 0 <= i < |lv.heap| - |r.heap| ==> Purge(orders, lv.queues[lv.heap[i]]) == []
    decreases |lv.heap|
  {
    if lv.heap != [] {
      var p := lv.heap[0];
      if Purge(orders, lv.queues[p]) == [] {
        var lv' := Pop(side, lv, orders);
        MaintainDrops(side, lv', orders);
        var r := Maintain(side, lv', orders);
        assert r == Maintain(side, lv, orders);
        forall i | 1 <= i < |lv.heap| - |r.heap| ensures Purge(orders, lv.queues[lv.heap[i]]) == [] {
          assert lv.heap[i] == lv'.heap[i - 1] && lv.heap[i] in lv'.queues;
          assert lv'.queues[lv.heap[i]] == lv.queues[lv.heap[i]];
        }
      }
    }
  }

  /** `_maintain_orders` purges the best level it keeps and leaves every other
      level as it was. */
  lemma {:induction false} MaintainKeeps(side: Side, lv: Levels, orders: seq<Order>)
    requires LevelsOk(side, lv, orders)
    ensures var r := Maintain(side, lv, orders);
      forall p :: p in r.queues ==>
        p in lv.queues && r.queues[p] == if r.heap != [] && p == r.heap[0] then Purge(orders, lv.queues[p]) else lv.queues[p]
    decreases |lv.heap|
  {
    if lv.heap != [] {
      var p := lv.heap[0];
      if Purge(orders, lv.queues[p]) == [] {
        var lv' := Pop(side, lv, orders);
        MaintainKeeps(side, lv', orders);
      }
    }
  }

  /** Purging the best level first does not change what `_maintain_orders` leaves. */
  lemma MaintainAfterPurge(side: Side, lv: Levels, orders: seq<Order>)
    requires LevelsOk(side, lv, orders) && lv.heap != []
    ensures var p := lv.heap[0];
      Maintain(side, Levels(lv.heap, lv.queues[p := Purge(orders, lv.queues[p])]), orders) == Maintain(side, lv, orders)
  {
    var p := lv.heap[0];
    var q := Purge(orders, lv.queues[p]);
    var lv1 := Levels(lv.heap, lv.queues[p := q]);
    PurgeKeepsLevels(side, lv, orders);
    PurgeIdempotent(orders, lv.queues[p]);
    assert lv1.queues[p] == q;
    if q == [] {
      assert Pop(side, lv1, orders) == Pop(side, lv, orders) by {
        assert lv1.queues - {p} == lv.queues - {p};
      }
      assert Maintain(side, lv1, orders) == Maintain(side, Pop(side, lv1, orders), orders);
    } else {
      assert lv1.queues[p := q] == lv1.queues;
      assert Maintain(side, lv1, orders) == lv1;
    }
  }

  /** A best level that is empty is popped and `_maintain_orders` goes on. */
  lemma MaintainPopsEmpty(side: Side, lv: Levels, orders: seq<Order>)
    requires LevelsOk(side, lv, orders) && lv.heap != [] && lv.queues[lv.heap[0]] == []
    ensures Maintain(side, lv, orders) == Maintain(side, Levels(lv.heap[1..], lv.queues - {lv.heap[0]}), orders)
  {
    assert Pop(side, lv, orders) == Levels(lv.heap[1..], lv.queues - {lv.heap[0]});
  }

  /** Purging the best level's queue keeps the side well formed. */
  lemma PurgeKeepsLevels(side: Side, lv: Levels, orders: seq<Order>)
    requires LevelsOk(side, lv, orders) && lv.heap != []
    ensures var p := lv.heap[0];
      LevelsOk(side, Levels(lv.heap, lv.queues[p := Purge(orders, lv.queues[p])]), orders)
  {
    var p := lv.heap[0];
    var q := Purge(orders, lv.queues[p]);
    assert lv.queues[p := q].Keys == lv.queues.Keys;
    assert Handles(orders, q);
  }

  /** A best level whose front can trade is what `_maintain_orders` leaves as it is. */
  lemma MaintainTopLive(side: Side, lv: Levels, orders: seq<Order>)
    requires LevelsOk(side, lv, orders) && TopLive(lv, orders)
    ensures Maintain(side, lv, orders) == lv
  {
    if lv.heap != [] {
      assert lv.queues[lv.heap[0] := lv.queues[lv.heap[0]]] == lv.queues;
    }
  }

  // ---------------------------------------------------------------------------
  // Matching

  /** The crossing rule (`matching_predict`): a market order takes any price, a
      limit sell bids at or above its price, a limit buy asks at or below it. */
  predicate Crosses(o: Order, price: int)
  {
    o.kind == Market || if o.side == Sell then o.price <= price else o.price >= price
  }

  /** One trade against the resting order with handle `handle`. */
  datatype Fill = Fill(handle: nat, quantity: int, price: int)

  function Costs(fs: seq<Fill>): int
  {
    if fs == [] then 0 else Costs(fs[..|fs| - 1]) + fs[|fs| - 1].quantity * fs[|fs| - 1].price
  }

  function Traded(fs: seq<Fill>): int
  {
    if fs == [] then 0 else Traded(fs[..|fs| - 1]) + fs[|fs| - 1].quantity
  }

  /** The state of `_match_and_store`'s loop: the contra side, the order table, the
      users, the incoming order's remaining quantity, the running total, the fills
      so far and the error that ended it, if any. */
  datatype Matching = Matching(target: Levels, orders: seq<Order>, users: map<string, User>,
                               qty: int, total: int, fills: seq<Fill>, error: Option<string>)

  predicate NonNegative(orders: seq<Order>)
  {
    forall i :: 0 <= i < |orders| ==> orders[i].quantity >= 0
  }

  ghost predicate MatchOk(side: Side, m: Matching)
  {
    && LevelsOk(side, m.target, m.orders) && TopLive(m.target, m.orders)
    && NonNegative(m.orders) && UsersOk(m.users) && m.qty >= 0
  }

  function Front(lv: Levels): nat
    requires lv.heap != [] && lv.heap[0] in lv.queues && lv.queues[lv.heap[0]] != []
  {
    lv.queues[lv.heap[0]][0]
  }

  function AddTaker(u: User, cost: int): User
  {
    u.(takerCost := u.takerCost + cost)
  }

  function AddMaker(u: User, cost: int): User
  {
    u.(makerCost := u.makerCost + cost)
  }

  /** One turn of the loop: trade with the front order of the best level, credit
      the taker and then the maker (a lookup of an unknown user raises), reduce
      both quantities and maintain the contra side. */
  function MatchStep(o: Order, side: Side, m: Matching): (r: Matching)
    requires MatchOk(side, m) && m.target.heap != [] && m.qty > 0
    ensures MatchOk(side, r) && |r.orders| == |m.orders|
    ensures r.error.None? ==> 0 <= r.qty < m.qty
    ensures r.error != Some(AssertionError)
  {
    var h := Front(m.target);
    var c := m.orders[h];
    var tq := Min(m.qty, c.quantity);
    var cost := tq * c.price;
    if o.userId !in m.users then m.(error := Some(UnknownUser(o.userId)))
    else
      var users := m.users[o.userId := AddTaker(m.users[o.userId], cost)];
      if c.userId !in users then m.(users := users, error := Some(UnknownUser(c.userId)))
      else
        var users' := users[c.userId := AddMaker(users[c.userId], cost)];
        var orders := m.orders[h := c.(quantity := c.quantity - tq)];
        assert LevelsOk(side, m.target, orders);
        MaintainOk(side, m.target, orders);
        Matching(Maintain(side, m.target, orders), orders, users', m.qty - tq, m.total + cost,
                 m.fills + [Fill(h, tq, c.price)], None)
  }

  /** The loop runs while the contra side has a level, the incoming order has
      quantity left and the best level's front order crosses. */
  function MatchLoop(o: Order, side: Side, m: Matching): (r: Matching)
    requires MatchOk(side, m) && m.error.None?
    ensures MatchOk(side, r)
    ensures r.error != Some(AssertionError)
    decreases m.qty
  {
    if m.target.heap == [] || m.qty == 0 || !Crosses(o, m.orders[Front(m.target)].price) then m
    else
      var m' := MatchStep(o, side, m);
      if m'.error.Some? then m' else MatchLoop(o, side, m')
  }

  // ---------------------------------------------------------------------------
  // The book

  /** `bids` are the buy levels (`_buy_order_heap`, `_buy_order_map`), `asks` the
      sell levels; `ids` is `_order_id_map`; `users` is the user manager's table. */
  datatype Book = Book(bids: Levels, asks: Levels, orders: seq<Order>,
                       ids: map<string, nat>, users: map<string, User>)

  function SideLevels(b: Book, s: Side): Levels
  {
    if s == Buy then b.bids else b.asks
  }

  function WithSide(b: Book, s: Side, lv: Levels): (r: Book)
    ensures SideLevels(r, s) == lv && SideLevels(r, Opposite(s)) == SideLevels(b, Opposite(s))
    ensures r.orders == b.orders && r.ids == b.ids && r.users == b.users
  {
    if s == Buy then b.(bids := lv) else b.(asks := lv)
  }

  predicate IdsOk(ids: map<string, nat>, orders: seq<Order>)
  {
    forall id :: id in ids ==> ids[id] < |orders|
  }

  ghost predicate BookOk(b: Book)
  {
    && LevelsOk(Buy, b.bids, b.orders) && LevelsOk(Sell, b.asks, b.orders)
    && NonNegative(b.orders) && IdsOk(b.ids, b.orders) && UsersOk(b.users)
  }

  const EmptyBook := Book(Levels([], map[]), Levels([], map[]), [], map[], map[])

  /** The loop's starting state: the contra side maintained, nothing traded. */
  function Start(b: Book, o: Order): (m: Matching)
    requires BookOk(b) && o.quantity > 0
    ensures MatchOk(Opposite(o.side), m) && m.error.None?
  {
    var side := Opposite(o.side);
    MaintainOk(side, SideLevels(b, side), b.orders);
    Matching(Maintain(side, SideLevels(b, side), b.orders), b.orders, b.users, o.quantity, 0, [], None)
  }

  function Matched(b: Book, o: Order): (m: Matching)
    requires BookOk(b) && o.quantity > 0
    ensures MatchOk(Opposite(o.side), m)
  {
    MatchLoop(o, Opposite(o.side), Start(b, o))
  }

  datatype Submitted = Submitted(result: Result<int, string>, book: Book)

  /** `add_order` on one side: the handle joins the back of the level at `price`,
      or the first order of a new level pushed on the heap. */
  function Enqueue(side: Side, lv: Levels, price: int, h: nat): (r: Levels)
    requires Ordered(side, lv.heap) && HeapKeys(lv)
  {
    if price in lv.queues then lv.(queues := lv.queues[price := lv.queues[price] + [h]])
    else
      assert price !in lv.heap;
      Levels(Push(side, lv.heap, price), lv.queues[price := [h]])
  }

  /** Adding an order's handle keeps the side well formed. */
  lemma EnqueueOk(side: Side, lv: Levels, orders: seq<Order>, price: int, h: nat)
    requires LevelsOk(side, lv, orders) && h < |orders|
    ensures LevelsOk(side, Enqueue(side, lv, price, h), orders)
  {
    var r := Enqueue(side, lv, price, h);
    if price !in lv.queues {
      forall i | 0 <= i < |r.heap| ensures r.heap[i] in r.queues {
        assert r.heap[i] in r.heap;
      }
    }
  }

  /** Appending an order to the table keeps a side well formed. */
  lemma ExtendKeepsLevels(side: Side, lv: Levels, orders: seq<Order>, o: Order)
    requires LevelsOk(side, lv, orders)
    ensures LevelsOk(side, lv, orders + [o])
  {
  }

  /** The resting rule: the order joins its level, and is then filed under its id,
      which must be new (the source asserts it after the order has joined the level). */
  function Rest(b: Book, o: Order, total: int): (r: Submitted)
    requires BookOk(b) && o.quantity > 0
    ensures BookOk(r.book)
  {
    var h := |b.orders|;
    var orders := b.orders + [o];
    var lv := SideLevels(b, o.side);
    ExtendKeepsLevels(o.side, lv, b.orders, o);
    ExtendKeepsLevels(Opposite(o.side), SideLevels(b, Opposite(o.side)), b.orders, o);
    EnqueueOk(o.side, lv, orders, o.price, h);
    var b' := WithSide(b, o.side, Enqueue(o.side, lv, o.price, h)).(orders := orders);
    if o.id in b.ids then Submitted(Failure(AssertionError), b')
    else Submitted(Success(total), b'.(ids := b.ids[o.id := h]))
  }

  /** The book once the loop has ended: the contra side, the order table and the
      users as the loop left them. */
  function AfterMatch(b: Book, o: Order): (r: Book)
    requires BookOk(b) && o.quantity > 0
    ensures BookOk(r)
  {
    var m := Matched(b, o);
    assert LevelsOk(o.side, SideLevels(b, o.side), b.orders);
    assert |m.orders| == |b.orders| by { MatchLoopOrders(o, Opposite(o.side), Start(b, o)); }
    WithSide(b, Opposite(o.side), m.target).(orders := m.orders, users := m.users)
  }

  /** `match_and_store`: nothing happens to an order without quantity; otherwise
      it trades against the opposite side, then a limit order's remainder rests and
      a market order's is dropped. The result is the total cost of the trades. */
  function Submit(b: Book, o: Order): (r: Submitted)
    requires BookOk(b)
    ensures BookOk(r.book)
    ensures o.quantity <= 0 ==> r == Submitted(Success(0), b)
  {
    if o.quantity <= 0 then Submitted(Success(0), b)
    else
      var m := Matched(b, o);
      var b' := AfterMatch(b, o);
      if m.error.Some? then Submitted(Failure(m.error.value), b')
      else if o.kind == Limit && m.qty != 0 then Rest(b', o.(quantity := m.qty), m.total)
      else Submitted(Success(m.total), b')
  }

  /** `cancel`: only the owner's known order is touched, and only its flag. */
  function Cancel(b: Book, user: User, id: string): (r: Book)
    requires BookOk(b)
    ensures BookOk(r)
  {
    if id !in b.ids || b.orders[b.ids[id]].userId != user.userId then b
    else b.(orders := b.orders[b.ids[id] := b.orders[b.ids[id]].(cancelled := true)])
  }

  // ---------------------------------------------------------------------------
  // Properties of the loop

  /** What one turn of the loop does, when it does not raise: it records the
      fill of the best level's front order and takes its quantity off both orders. */
  lemma MatchStepEffect(o: Order, side: Side, m: Matching)
    requires MatchOk(side, m) && m.target.heap != [] && m.qty > 0
    ensures var r := MatchStep(o, side, m);
      var h := Front(m.target);
      var tq := Min(m.qty, m.orders[h].quantity);
      && (r.error.None? ==>
            && r.fills == m.fills + [Fill(h, tq, m.orders[h].price)]
            && r.orders == m.orders[h := m.orders[h].(quantity := m.orders[h].quantity - tq)]
            && r.qty == m.qty - tq && r.total == m.total + tq * m.orders[h].price)
      && (r.error.Some? ==> r.fills == m.fills && r.orders == m.orders)
  {
  }

  /** The loop keeps the order table's length and every order's cancelled flag,
      and quantities only go down. */
  lemma {:induction false} MatchLoopOrders(o: Order, side: Side, m: Matching)
    requires MatchOk(side, m) && m.error.None?
    ensures var r := MatchLoop(o, side, m);
      && |r.orders| == |m.orders|
      && (forall h :: 0 <= h < |m.orders| ==>
            && r.orders[h].cancelled == m.orders[h].cancelled
            && r.orders[h].quantity <= m.orders[h].quantity)
    decreases m.qty
  {
    if !(m.target.heap == [] || m.qty == 0 || !Crosses(o, m.orders[Front(m.target)].price)) {
      var m' := MatchStep(o, side, m);
      MatchStepEffect(o, side, m);
      if m'.error.None? {
        MatchLoopOrders(o, side, m');
      }
    }
  }

  /** Only orders that could trade are filled; earlier fills are kept. */
  lemma {:induction false} MatchLoopFills(o: Order, side: Side, m: Matching)
    requires MatchOk(side, m) && m.error.None?
    ensures var r := MatchLoop(o, side, m);
      && |m.fills| <= |r.fills|
      && (forall i :: 0 <= i < |m.fills| ==> r.fills[i] == m.fills[i])
      && (forall i :: |m.fills| <= i < |r.fills| ==>
            r.fills[i].handle < |m.orders| && Live(m.orders[r.fills[i].handle]))
    decreases m.qty
  {
    var r := MatchLoop(o, side, m);
    if !(m.target.heap == [] || m.qty == 0 || !Crosses(o, m.orders[Front(m.target)].price)) {
      var m' := MatchStep(o, side, m);
      MatchStepEffect(o, side, m);
      if m'.error.None? {
        assert r == MatchLoop(o, side, m');
        MatchLoopFills(o, side, m');
        var h := Front(m.target);
        assert |m'.orders| == |m.orders|;
        forall g | 0 <= g < |m.orders| && Live(m'.orders[g]) ensures Live(m.orders[g]) {
          if g != h {
            assert m'.orders[g] == m.orders[g];
          }
        }
        forall i | |m.fills| <= i < |r.fills|
          ensures r.fills[i].handle < |m.orders| && Live(m.orders[r.fills[i].handle])
        {
          if i == |m.fills| {
            assert r.fills[i] == m'.fills[i];
          }
        }
      } else {
        assert r == m';
      }
    }
  }

  lemma CostsAppend(fs: seq<Fill>, f: Fill)
    ensures Costs(fs + [f]) == Costs(fs) + f.quantity * f.price
    ensures Traded(fs + [f]) == Traded(fs) + f.quantity
  {
    assert (fs + [f])[..|fs|] == fs;
  }

  /** Accounting: the running total grows by the cost of each fill and the
      incoming order shrinks by its quantity. */
  lemma {:induction false} MatchLoopAccounting(o: Order, side: Side, m: Matching)
    requires MatchOk(side, m) && m.error.None?
    ensures var r := MatchLoop(o, side, m);
      r.error.None? ==>
        && r.total - Costs(r.fills) == m.total - Costs(m.fills)
        && r.qty + Traded(r.fills) == m.qty + Traded(m.fills)
    decreases m.qty
  {
    if !(m.target.heap == [] || m.qty == 0 || !Crosses(o, m.orders[Front(m.target)].price)) {
      var m' := MatchStep(o, side, m);
      MatchStepEffect(o, side, m);
      if m'.error.None? {
        MatchLoopAccounting(o, side, m');
        CostsAppend(m.fills, m'.fills[|m.fills|]);
        assert m'.fills == m.fills + [m'.fills[|m.fills|]];
      }
    }
  }

  /** Every fill is of a positive quantity at a price the incoming order crosses. */
  lemma {:induction false} MatchLoopCrosses(o: Order, side: Side, m: Matching)
    requires MatchOk(side, m) && m.error.None?
    ensures var r := MatchLoop(o, side, m);
      forall i :: |m.fills| <= i < |r.fills| ==> r.fills[i].quantity > 0 && Crosses(o, r.fills[i].price)
    decreases m.qty
  {
    var r := MatchLoop(o, side, m);
    if !(m.target.heap == [] || m.qty == 0 || !Crosses(o, m.orders[Front(m.target)].price)) {
      var m' := MatchStep(o, side, m);
      MatchStepEffect(o, side, m);
      if m'.error.None? {
        assert r == MatchLoop(o, side, m');
        MatchLoopCrosses(o, side, m');
        MatchLoopFills(o, side, m');
        assert r.fills[|m.fills|] == m'.fills[|m.fills|];
      } else {
        assert r == m';
      }
    }
  }

  /** Without an error, the loop stops only when the contra side is empty, the
      incoming order is exhausted or the best price does not cross. */
  lemma {:induction false} MatchLoopStops(o: Order, side: Side, m: Matching)
    requires MatchOk(side, m) && m.error.None?
    ensures var r := MatchLoop(o, side, m);
      r.error.None? ==> r.target.heap == [] || r.qty == 0 || !Crosses(o, r.orders[Front(r.target)].price)
    decreases m.qty
  {
    if !(m.target.heap == [] || m.qty == 0 || !Crosses(o, m.orders[Front(m.target)].price)) {
      var m' := MatchStep(o, side, m);
      if m'.error.None? {
        MatchLoopStops(o, side, m');
      }
    }
  }

  /** Every trade credits its cost to the taker and to the maker, so the difference
      between all maker costs and all taker costs is unchanged by a loop that
      completes. */
  lemma {:induction false} MatchLoopBalanced(o: Order, side: Side, m: Matching)
    requires MatchOk(side, m) && m.error.None?
    ensures MatchLoop(o, side, m).error.None? ==> Net(MatchLoop(o, side, m).users) == Net(m.users)
    decreases m.qty
  {
    if !(m.target.heap == [] || m.qty == 0 || !Crosses(o, m.orders[Front(m.target)].price)) {
      var m' := MatchStep(o, side, m);
      if m'.error.None? {
        MatchLoopBalanced(o, side, m');
        var c := m.orders[Front(m.target)];
        var cost := Min(m.qty, c.quantity) * c.price;
        var users := m.users[o.userId := AddTaker(m.users[o.userId], cost)];
        NetUpdate(m.users, o.userId, AddTaker(m.users[o.userId], cost));
        NetUpdate(users, c.userId, AddMaker(users[c.userId], cost));
      }
    }
  }

  /** Price/time priority: a turn of the loop trades with the front order of the
      best level, which can trade; it trades the smaller of the two remaining
      quantities, at the resting order's price, and takes that quantity off both. */
  lemma MatchStepFill(o: Order, side: Side, m: Matching)
    requires MatchOk(side, m) && m.target.heap != [] && m.qty > 0
    requires MatchStep(o, side, m).error.None?
    ensures var best := m.target.heap[0];
      var h := m.target.queues[best][0];
      var c := m.orders[h];
      var r := MatchStep(o, side, m);
      var tq := if m.qty <= c.quantity then m.qty else c.quantity;
      && (forall p :: p in m.target.queues && p != best ==> Before(side, best, p))
      && !c.cancelled && c.quantity > 0
      && r.fills == m.fills + [Fill(h, tq, c.price)]
      && 0 < tq && r.qty == m.qty - tq >= 0 && r.orders[h].quantity == c.quantity - tq >= 0
      && r.total == m.total + tq * c.price
  {
    TopIsBest(side, m.target, m.orders);
  }

  // ---------------------------------------------------------------------------
  // Properties of submissions and cancellations

  /** The fills a submission makes. */
  function SubmitFills(b: Book, o: Order): seq<Fill>
    requires BookOk(b)
  {
    if o.quantity <= 0 then [] else Matched(b, o).fills
  }

  /** A successful submission returns the total cost of its fills, each of which
      is at a crossing price and against an order that could trade, and trades no
      more than the order's quantity. */
  lemma {:induction false} TradedNonNegative(fs: seq<Fill>)
    requires forall i :: 0 <= i < |fs| ==> fs[i].quantity > 0
    ensures Traded(fs) >= 0
  {
    if fs != [] {
      TradedNonNegative(fs[..|fs| - 1]);
    }
  }

  lemma SubmitAccounting(b: Book, o: Order)
    requires BookOk(b) && Submit(b, o).result.Success?
    ensures Submit(b, o).result.value == Costs(SubmitFills(b, o))
    ensures 0 <= Traded(SubmitFills(b, o)) <= (if o.quantity <= 0 then 0 else o.quantity)
    ensures forall i :: 0 <= i < |SubmitFills(b, o)| ==>
      var f := SubmitFills(b, o)[i];
      f.quantity > 0 && Crosses(o, f.price) && f.handle < |b.orders| && Live(b.orders[f.handle])
  {
    if o.quantity > 0 {
      var m0 := Start(b, o);
      MatchLoopAccounting(o, Opposite(o.side), m0);
      MatchLoopCrosses(o, Opposite(o.side), m0);
      MatchLoopFills(o, Opposite(o.side), m0);
      TradedNonNegative(SubmitFills(b, o));
    }
  }

  /** A submission that succeeds, or that fails only when filing its remainder under
      an id already in use, keeps the difference between all maker costs and all
      taker costs: every trade credits both sides alike. (An unknown maker id is
      different: the taker has been charged before the maker lookup fails.) */
  lemma SubmitBalanced(b: Book, o: Order)
    requires BookOk(b)
    requires Submit(b, o).result.Success? || Submit(b, o).result == Failure(AssertionError)
    ensures Net(Submit(b, o).book.users) == Net(b.users)
  {
    if o.quantity > 0 {
      MatchLoopBalanced(o, Opposite(o.side), Start(b, o));
    }
  }

  /** A submission leaves the contra side and the users as matching left them. */
  lemma SubmitMatches(b: Book, o: Order)
    requires BookOk(b) && o.quantity > 0 && Submit(b, o).result.Success?
    ensures SideLevels(Submit(b, o).book, Opposite(o.side)) == Matched(b, o).target
    ensures Submit(b, o).book.users == Matched(b, o).users
  {
  }

  /** The resting rule. A limit order with quantity left after matching is added to
      the table with that quantity, at the back of the level at its price on its
      own side (new or not), and filed under its id, which was not filed before;
      every other level of its side is untouched. */
  lemma SubmitRests(b: Book, o: Order)
    requires BookOk(b) && o.quantity > 0 && Submit(b, o).result.Success?
    requires o.kind == Limit && Matched(b, o).qty > 0
    ensures var m := Matched(b, o);
      var r := Submit(b, o).book;
      var own := SideLevels(b, o.side);
      && o.id !in b.ids
      && r.orders == m.orders + [o.(quantity := m.qty)]
      && r.ids == b.ids[o.id := |m.orders|]
      && o.price in SideLevels(r, o.side).queues
      && SideLevels(r, o.side).queues[o.price] ==
           (if o.price in own.queues then own.queues[o.price] else []) + [|m.orders|]
      && (forall p :: p != o.price ==>
            (p in SideLevels(r, o.side).queues <==> p in own.queues)
            && (p in own.queues ==> SideLevels(r, o.side).queues[p] == own.queues[p]))
  {
  }

  /** Nothing else rests: a market order's remainder is dropped, and an exhausted
      order leaves its own side, the table and the ids as matching left them. */
  lemma SubmitDropsRemainder(b: Book, o: Order)
    requires BookOk(b) && o.quantity > 0 && Submit(b, o).result.Success?
    requires o.kind == Market || Matched(b, o).qty == 0
    ensures var r := Submit(b, o).book;
      r.orders == Matched(b, o).orders && r.ids == b.ids && SideLevels(r, o.side) == SideLevels(b, o.side)
  {
  }

  /** A cancellation by someone other than the owner, or of an unknown id, changes
      nothing; otherwise it only sets the order's cancelled flag. */
  lemma CancelEffect(b: Book, user: User, id: string)
    requires BookOk(b)
    ensures var r := Cancel(b, user, id);
      && r.bids == b.bids && r.asks == b.asks && r.ids == b.ids && r.users == b.users
      && |r.orders| == |b.orders|
      && (forall h :: 0 <= h < |b.orders| && (id !in b.ids || h != b.ids[id]) ==> r.orders[h] == b.orders[h])
      && (id in b.ids ==>
            var h := b.ids[id];
            r.orders[h] == if b.orders[h].userId == user.userId then b.orders[h].(cancelled := true) else b.orders[h])
  {
  }

  /** A cancelled order is never matched afterwards: no later submission fills it,
      whoever submits it. */
  lemma CancelledNeverFilled(b: Book, user: User, id: string, o: Order)
    requires BookOk(b) && id in b.ids && b.orders[b.ids[id]].userId == user.userId
    ensures var fs := SubmitFills(Cancel(b, user, id), o);
      forall i :: 0 <= i < |fs| ==> fs[i].handle != b.ids[id]
  {
    var b' := Cancel(b, user, id);
    if o.quantity > 0 {
      var m0 := Start(b', o);
      MatchLoopFills(o, Opposite(o.side), m0);
      assert !Live(b'.orders[b.ids[id]]);
    }
  }

  /** Cancelling twice is cancelling once. */
  lemma CancelIdempotent(b: Book, user: User, id: string)
    requires BookOk(b)
    ensures Cancel(Cancel(b, user, id), user, id) == Cancel(b, user, id)
  {
    var b' := Cancel(b, user, id);
    if id in b.ids && b.orders[b.ids[id]].userId == user.userId {
      var h := b.ids[id];
      assert b'.orders[h := b'.orders[h].(cancelled := true)] == b'.orders;
    }
  }
}
