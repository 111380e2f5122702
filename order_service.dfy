/**
  The in-memory order store of the demo service.

  `orders` is the table the Kotlin class keeps in a private concurrent hash
  map; calls are modelled one at a time. The ghost field `history` records the
  argument of every `createOrder` call so far, and `Valid()` ties the table to
  it: the table is what replaying those calls on an empty store gives.
 */
module Service {
  import opened Domain
  import opened StoreSpec

  class OrderService {
    var orders: map<string, Order>
    ghost var history: seq<Order>

    /** The object invariant: every key holds an order with that id, and the table is the replayed history. */
    ghost predicate Valid()
      reads this
    {
      KeyedById(orders) && orders == Replay(history)
    }

    /** A new service holds no orders. */
    constructor ()
      ensures Valid()
      ensures orders == map[] && history == []
    {
      orders := map[];
      history := [];
    }

    /**
      `createOrder`: files `order` under its own id, replacing any order with
      that id, leaves every other key as it was, and returns `order` itself.
     */
    method CreateOrder(order: Order) returns (r: Order)
      requires Valid()
      modifies this
      ensures Valid()
      ensures r == order
      ensures history == old(history) + [order]
      ensures orders == old(orders)[order.id := order]
      ensures order.id in orders && orders[order.id] == order
      ensures forall k :: k != order.id ==> (k in orders <==> k in old(orders))
      ensures forall k :: k in old(orders) && k != order.id ==> orders[k] == old(orders)[k]
    {
      ghost var h := history + [order];
      assert h[..|h| - 1] == history;
      orders := Upsert(orders, order);
      history := h;
      r := order;
    }

    /**
      `getOrder`: the last order created with `id`, or `None` (Kotlin's
      `null`) exactly when no order with `id` was ever created.
     */
    method GetOrder(id: string) returns (r: Option<Order>)
      requires Valid()
      ensures r.None? <==> id !in IdsOf(history)
      ensures r.Some? ==> r.value.id == id && r.value in history
      ensures forall i :: IsLastWrite(history, id, i) ==> r == Some(history[i])
    {
      if id in orders {
        r := Some(orders[id]);
      } else {
        r := None;
      }
      ReplayKeys(history);
      if r.Some? {
        LastWriteExists(history, id);
      }
      forall i | IsLastWrite(history, id, i) ensures r == Some(history[i]) {
        ReplayLastWrite(history, id, i);
      }
    }

    /**
      `getAllOrders`: a snapshot list holding every stored order once, in no
      particular order, and no two orders with the same id.
     */
    method GetAllOrders() returns (r: seq<Order>)
      requires Valid()
      ensures |r| == |orders| == |IdsOf(history)|
      ensures (set o | o in r) == orders.Values
      ensures forall i, j :: 0 <= i < j < |r| ==> r[i].id != r[j].id
    {
      var m := orders;
      var keys := m.Keys;
      r := [];
      while keys != {}
        invariant keys <= m.Keys
        invariant |r| + |keys| == |m|
        invariant forall i :: 0 <= i < |r| ==> r[i].id in m && r[i].id !in keys && m[r[i].id] == r[i]
        invariant forall k :: k in m && k !in keys ==> m[k] in r
        invariant forall i, j :: 0 <= i < j < |r| ==> r[i].id != r[j].id
        decreases keys
      {
        var k :| k in keys;
        r := r + [m[k]];
        keys := keys - {k};
      }
      assert (set o | o in r) == m.Values by {
        forall o | o in m.Values ensures o in r {
          var k :| k in m && m[k] == o;
        }
      }
      ReplayKeys(history);
    }
  }

  /** The store's own unit tests, stated as a client of the contracts above. */
  method UpdateExistingOrderScenario()
  {
    var service := new OrderService();
    var original := Order("order-123", "Original description");
    var updated := Order("order-123", "Updated description");
    var created := service.CreateOrder(original);
    assert created == original;
    created := service.CreateOrder(updated);
    var found := service.GetOrder("order-123");
    assert IsLastWrite(service.history, "order-123", |service.history| - 1);
    assert found == Some(updated);
    var missing := service.GetOrder("non-existent");
    assert "non-existent" !in IdsOf(service.history) by {
      assert service.history == [original, updated];
    }
    assert missing == None;
    var all := service.GetAllOrders();
    assert |all| == 1;
  }
}
