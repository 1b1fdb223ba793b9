/** The order book and its user registry as objects whose methods change them in
    place, each proved to do what the corresponding function of
    `OrderMatchingSpec` says. The level objects shared by a side's heap and price
    map are the side's `Levels` value: a best-first heap of prices and a map from
    price to the queue of order handles. */
module OrderMatchingEngine {
  import opened Common
  import opened OrderMatchingSpec

  /** `UserManager`: the users, by id. The order book credits their costs in place. */
  class UserManager {
    var users: map<string, User>

    ghost predicate Valid()
      reads this
    {
      UsersOk(users)
    }

    constructor ()
      ensures Valid() && users == map[]
    {
      users := map[];
    }

    /** `exist`: a user is known exactly when looking it up succeeds. */
    predicate Exist(userId: string)
      reads this
      ensures Exist(userId) <==> Lookup(userId).Success?
    {
      userId in users
    }

    /** `__getitem__`: the user filed under the id, or the error for an unknown id. */
    function Lookup(userId: string): (r: Result<User, string>)
      reads this
      ensures r.Success? <==> userId in users
      ensures r.Success? ==> r.value == users[userId]
      ensures r.Failure? ==> r.error == UnknownUser(userId)
    {
      if userId !in users then Failure(UnknownUser(userId)) else Success(users[userId])
    }

    /** `add`: a new user starts with no costs; a known id is refused and nothing
        changes. Either way the difference between all maker and all taker costs
        stays the same. */
    method Add(userId: string) returns (r: Outcome<string>)
      requires Valid()
      modifies this
      ensures Valid()
      ensures old(userId in users) ==> r == Fail(DuplicateUser(userId)) && users == old(users)
      ensures old(userId !in users) ==> r == Pass && users == old(users)[userId := User(userId, 0, 0)]
      ensures Lookup(userId).Success? && Net(users) == old(Net(users))
    {
      if userId in users {
        return Fail(DuplicateUser(userId));
      }
      NetAddUser(users, userId);
      users := users[userId := User(userId, 0, 0)];
      r := Pass;
    }

    /** `__iter__`: every user exactly once, in increasing order of id. */
    method Users() returns (us: seq<User>)
      requires Valid()
      ensures SortedById(us) && |us| == |users|
      ensures forall u :: u in us <==> u.userId in users && users[u.userId] == u
    {
      us := [];
      var rest := users;
      ghost var done: set<string> := {};
      while rest != map[]
        invariant forall k :: k in rest ==> k in users && rest[k] == users[k]
        invariant forall k :: k in users ==> (k in rest <==> k !in done)
        invariant done <= users.Keys
        invariant SortedById(us) && |us| == |done|
        invariant forall u :: u in us <==> u.userId in done && users[u.userId] == u
        decreases |rest|
      {
        var k :| k in rest;
        forall i | 0 <= i < |us| ensures us[i].userId != rest[k].userId {
          assert us[i] in us;
        }
        us := InsertById(us, rest[k]);
        done := done + {k};
        rest := rest - {k};
      }
      assert done == users.Keys;
    }
  }

  /** `OrderBook`: the bids and asks, the table of every order that ever rested,
      the index from order id to handle, and the user registry it credits. */
  class OrderBook {
    var buyHeap: seq<int>
    var buyLevels: map<int, seq<nat>>
    var sellHeap: seq<int>
    var sellLevels: map<int, seq<nat>>
    var orders: seq<Order>
    var orderIds: map<string, nat>
    const userManager: UserManager

    function LevelsOf(side: Side): Levels
      reads this
    {
      if side == Buy then Levels(buyHeap, buyLevels) else Levels(sellHeap, sellLevels)
    }

    function State(): Book
      reads this, userManager
    {
      Book(LevelsOf(Buy), LevelsOf(Sell), orders, orderIds, userManager.users)
    }

    ghost predicate Valid()
      reads this, userManager
    {
      BookOk(State())
    }

    /** A new book has no levels and no orders, and shares the given registry. */
    constructor (userManager: UserManager)
      requires userManager.Valid()
      ensures this.userManager == userManager
      ensures State() == EmptyBook.(users := userManager.users) && Valid()
    {
      buyHeap, buyLevels := [], map[];
      sellHeap, sellLevels := [], map[];
      orders, orderIds := [], map[];
      this.userManager := userManager;
    }

    /** The state of the matching loop, in terms of the book's fields. */
    function Current(side: Side, qty: int, total: int, fills: seq<Fill>): Matching
      reads this, userManager
    {
      Matching(LevelsOf(side), orders, userManager.users, qty, total, fills, None)
    }

    method SetLevels(side: Side, lv: Levels)
      modifies this
      ensures LevelsOf(side) == lv && LevelsOf(Opposite(side)) == old(LevelsOf(Opposite(side)))
      ensures orders == old(orders) && orderIds == old(orderIds)
    {
      if side == Buy {
        buyHeap, buyLevels := lv.heap, lv.queues;
      } else {
        sellHeap, sellLevels := lv.heap, lv.queues;
      }
    }

    /** `get_earliest_order` on the level at `price`: the cancelled or exhausted
        orders at the front of its queue are popped, and the new front, if any, is
        returned. */
    method EarliestOrder(side: Side, price: int) returns (r: Option<nat>)
      requires LevelsOk(side, LevelsOf(side), orders) && price in LevelsOf(side).queues
      modifies this
      ensures orders == old(orders) && orderIds == old(orderIds)
      ensures var lv := old(LevelsOf(side));
        var q := Purge(orders, lv.queues[price]);
        && LevelsOf(side) == lv.(queues := lv.queues[price := q])
        && r == if q == [] then None else Some(q[0])
      ensures LevelsOf(Opposite(side)) == old(LevelsOf(Opposite(side)))
    {
      var lv := LevelsOf(side);
      var q := lv.queues[price];
      assert lv.queues[price := q] == lv.queues;
      while q != [] && !Live(orders[q[0]])
        invariant orders == old(orders) && orderIds == old(orderIds)
        invariant Handles(orders, lv.queues[price]) && Handles(orders, q)
        invariant Purge(orders, q) == Purge(orders, lv.queues[price])
        invariant LevelsOf(side) == lv.(queues := lv.queues[price := q])
        invariant LevelsOf(Opposite(side)) == old(LevelsOf(Opposite(side)))
        decreases |q|
      {
        assert q[Dead(orders, q)..] == q[1..][Dead(orders, q[1..])..];
        q := q[1..];
        SetLevels(side, lv.(queues := lv.queues[price := q]));
      }
      assert Dead(orders, q) == 0;
      r := if q == [] then None else Some(q[0]);
    }

    /** `_maintain_orders`: while the best level has no order that can trade, its
        entry in the price map is deleted and it is popped from the heap. */
    method MaintainOrders(side: Side)
      requires LevelsOk(side, LevelsOf(side), orders)
      modifies this
      ensures orders == old(orders) && orderIds == old(orderIds)
      ensures LevelsOf(side) == Maintain(side, old(LevelsOf(side)), orders)
      ensures LevelsOf(Opposite(side)) == old(LevelsOf(Opposite(side)))
    {
      while true
        invariant orders == old(orders) && orderIds == old(orderIds)
        invariant LevelsOk(side, LevelsOf(side), orders)
        invariant Maintain(side, LevelsOf(side), orders) == Maintain(side, old(LevelsOf(side)), orders)
        invariant LevelsOf(Opposite(side)) == old(LevelsOf(Opposite(side)))
        decreases |LevelsOf(side).heap|
      {
        var lv := LevelsOf(side);
        if lv.heap == [] {
          break;
        }
        var price := lv.heap[0];
        ghost var purged := Levels(lv.heap, lv.queues[price := Purge(orders, lv.queues[price])]);
        PurgeKeepsLevels(side, lv, orders);
        MaintainAfterPurge(side, lv, orders);
        var front := EarliestOrder(side, price);
        assert LevelsOf(side) == purged;
        if front.Some? {
          MaintainTopLive(side, purged, orders);
          break;
        }
        MaintainPopsEmpty(side, purged, orders);
        var empty := LevelsOf(side);
        SetLevels(side, Levels(empty.heap[1..], empty.queues - {price}));
      }
    }

    /** `match_and_store`: an order without quantity is ignored and costs nothing;
        otherwise it is matched against the opposite side. */
    method MatchAndStore(order: Order) returns (r: Result<int, string>)
      requires Valid()
      modifies this, userManager
      ensures Valid()
      ensures Submitted(r, State()) == Submit(old(State()), order)
    {
      if order.quantity <= 0 {
        return Success(0);
      }
      r := MatchAndRest(order);
    }

    /** `_match_and_store`: match the order against the opposite side, then rest a
        limit order's remainder on its own side and file it under its id. The
        result is the total cost of the trades; an unknown user or a known order id
        ends it with an error. */
    method MatchAndRest(order: Order) returns (r: Result<int, string>)
      requires Valid() && order.quantity > 0
      modifies this, userManager
      ensures Valid()
      ensures Submitted(r, State()) == Submit(old(State()), order)
    {
      ghost var b := State();
      var qty, totalCost, fills, err := Match(order);
      ghost var m := Matched(b, order);
      ghost var s := Submit(b, order);
      assert State() == AfterMatch(b, order);
      if err.Some? {
        assert s == Submitted(Failure(err.value), State());
        return Failure(err.value);
      }
      if order.kind == Limit && qty != 0 {
        r := Store(order.(quantity := qty), totalCost);
      } else {
        r := Success(totalCost);
      }
    }

    /** The resting part of `_match_and_store`: the order joins the back of the
        level at its price, or a new level pushed on its side's heap, and is then
        filed under its id, which must not be filed yet. */
    method Store(order: Order, totalCost: int) returns (r: Result<int, string>)
      requires Valid() && order.quantity > 0
      modifies this
      ensures Submitted(r, State()) == Rest(old(State()), order, totalCost)
    {
      var h := |orders|;
      orders := orders + [order];
      var own := LevelsOf(order.side);
      if order.price in own.queues {
        SetLevels(order.side, own.(queues := own.queues[order.price := own.queues[order.price] + [h]]));
      } else {
        assert order.price !in own.heap;
        SetLevels(order.side, Levels(Push(order.side, own.heap, order.price), own.queues[order.price := [h]]));
      }
      if order.id in orderIds {
        return Failure(AssertionError);
      }
      orderIds := orderIds[order.id := h];
      r := Success(totalCost);
    }

    /** The loop of `_match_and_store`: the opposite side is maintained, then the
        order trades with the best level while it has quantity left, the side has
        a level and the level's front order crosses. */
    method Match(order: Order) returns (qty: int, totalCost: int, ghost fills: seq<Fill>, err: Option<string>)
      requires Valid() && order.quantity > 0
      modifies this, userManager
      ensures Current(Opposite(order.side), qty, totalCost, fills).(error := err) == Matched(old(State()), order)
      ensures LevelsOf(order.side) == old(LevelsOf(order.side)) && orderIds == old(orderIds)
    {
      ghost var b := State();
      var target := Opposite(order.side);
      totalCost := 0;
      MaintainOrders(target);
      qty := order.quantity;
      fills := [];
      ghost var m0 := Start(b, order);
      assert Current(target, qty, totalCost, fills) == m0;
      while true
        invariant MatchOk(target, Current(target, qty, totalCost, fills))
        invariant MatchLoop(order, target, Current(target, qty, totalCost, fills)) == MatchLoop(order, target, m0)
        invariant LevelsOf(order.side) == SideLevels(b, order.side) && orderIds == b.ids
        decreases qty
      {
        var lv := LevelsOf(target);
        if lv.heap == [] || qty == 0 {
          break;
        }
        var front := EarliestOrder(target, lv.heap[0]);
        assert lv.queues[lv.heap[0] := Purge(orders, lv.queues[lv.heap[0]])] == lv.queues;
        var h := front.value;
        var contra := orders[h];
        if !Crosses(order, contra.price) {
          break;
        }
        qty, totalCost, fills, err := Trade(order, target, h, qty, totalCost, fills);
        if err.Some? {
          return;
        }
      }
      err := None;
    }

    /** The taker is charged `cost` and then the maker; looking up an unknown
        user is an error, and a charge made before it stays made. */
    method Credit(takerId: string, makerId: string, cost: int) returns (err: Option<string>)
      modifies userManager
      ensures var users := old(userManager.users);
        var charged := if takerId in users then users[takerId := AddTaker(users[takerId], cost)] else users;
        && (takerId !in users ==> err == Some(UnknownUser(takerId)) && userManager.users == users)
        && (takerId in users && makerId !in charged ==>
              err == Some(UnknownUser(makerId)) && userManager.users == charged)
        && (takerId in users && makerId in charged ==>
              err == None && userManager.users == charged[makerId := AddMaker(charged[makerId], cost)])
    {
      var taker := userManager.Lookup(takerId);
      if taker.Failure? {
        return Some(taker.error);
      }
      userManager.users := userManager.users[takerId := AddTaker(taker.value, cost)];
      var maker := userManager.Lookup(makerId);
      if maker.Failure? {
        return Some(maker.error);
      }
      userManager.users := userManager.users[makerId := AddMaker(maker.value, cost)];
      err := None;
    }

    /** One turn of `_match_and_store`'s loop, against the front order `h` of the
        best level: the smaller of the two quantities is traded at the resting
        order's price, its cost is added to the total and credited to the taker and
        then to the maker (an unknown user is an error), both orders are reduced and
        the contra side is maintained. */
    method Trade(order: Order, target: Side, h: nat, qty: int, total: int, ghost fills: seq<Fill>)
        returns (qty': int, total': int, ghost fills': seq<Fill>, err: Option<string>)
      requires MatchOk(target, Current(target, qty, total, fills))
      requires LevelsOf(target).heap != [] && qty > 0 && h == Front(LevelsOf(target))
      modifies this, userManager
      ensures Current(target, qty', total', fills').(error := err) == MatchStep(order, target, old(Current(target, qty, total, fills)))
      ensures LevelsOf(Opposite(target)) == old(LevelsOf(Opposite(target))) && orderIds == old(orderIds)
    {
      ghost var m := Current(target, qty, total, fills);
      var contra := orders[h];
      var tradeQuantity := Min(qty, contra.quantity);
      var cost := tradeQuantity * contra.price;
      err := Credit(order.userId, contra.userId, cost);
      if err.Some? {
        return qty, total, fills, err;
      }
      qty', total' := qty - tradeQuantity, total + cost;
      orders := orders[h := contra.(quantity := contra.quantity - tradeQuantity)];
      fills' := fills + [Fill(h, tradeQuantity, contra.price)];
      assert LevelsOk(target, m.target, orders);
      MaintainOrders(target);
    }

    /** `cancel`: only the owner's known order is touched, and only its flag. */
    method Cancel(user: User, orderId: string)
      requires Valid()
      modifies this
      ensures Valid() && State() == OrderMatchingSpec.Cancel(old(State()), user, orderId)
    {
      if orderId !in orderIds || orders[orderIds[orderId]].userId != user.userId {
        return;
      }
      var h := orderIds[orderId];
      orders := orders[h := orders[h].(cancelled := true)];
    }
  }
}
