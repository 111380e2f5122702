# Order store of the demo order service

This project models the in-memory order store `OrderService` of a small Spring
demo service, and proves what its three operations promise:

- `createOrder(order)` is an upsert. It files the order under its own id, replaces any earlier order with that id as a whole, and returns the order unchanged.
- `getOrder(id)` is a point lookup. It returns `null` for an id never created.
- `getAllOrders()` returns a snapshot list of the stored orders, in no particular order.

An `Order` is a value with two string fields, `id` and `description`, and
structural equality (`Domain.Order`). The store is a class
(`Service.OrderService`) whose field `orders: map<string, Order>` is updated
in place by `CreateOrder`. A ghost field `history` records every order passed
to `CreateOrder`. The object invariant `Valid()` says two things. Every key
maps to an order whose id is that key (`StoreSpec.KeyedById`). The map is what
replaying `history` on an empty store gives (`StoreSpec.Replay`, a fold of
`StoreSpec.Upsert`, the single write `orders[order.id] = order`). The lemmas in
`StoreSpec` describe the replayed map in terms of the history alone. That is
how `GetOrder` and `GetAllOrders` are specified against the sequence of calls
a caller made, not against the map's representation.

Files:
- `order.dfy` (module `Domain`) holds the `Order` record and `Option`, which stands for Kotlin's nullable `Order?`.
- `store_spec.dfy` (module `StoreSpec`) holds the functional meaning of the store and the lemmas about it.
- `order_service.dfy` (module `Service`) holds the `OrderService` class and a client method. The client method replays the service's own "update existing order" unit test against the contracts.

Strings are Dafny `string` values compared by equality. The empty id, long
ids and non-ASCII content need no special case: no contract restricts an id.

## Model

| member | source | states |
|---|---|---|
| Service.OrderService.constructor | src/main/kotlin/com/example/demo/OrderService.kt:8 | a new store is empty: no orders and an empty history, so every lookup is absent and the snapshot is empty |
| Service.OrderService.CreateOrder | src/main/kotlin/com/example/demo/OrderService.kt:10-13 | returns its argument unchanged; afterwards the order is stored under its id, every other key is present and mapped exactly as before, the call is appended to the history, and the key/id invariant still holds |
| Service.OrderService.GetOrder | src/main/kotlin/com/example/demo/OrderService.kt:15-17 | returns null exactly when no order with that id was ever created; otherwise returns the last order created with that id, which carries that id; reads only |
| Service.OrderService.GetAllOrders | src/main/kotlin/com/example/demo/OrderService.kt:19-21 | the snapshot holds exactly the stored orders (as a set), its length is the number of stored keys and equals the number of distinct ids ever created, and no two of its orders share an id |
| StoreSpec.Upsert | src/main/kotlin/com/example/demo/OrderService.kt:11 | the key set gains the order's id; that key maps to the whole new order; every other key keeps its order; the key/id invariant is preserved |
| StoreSpec.ReplayKeyedById | src/main/kotlin/com/example/demo/OrderService.kt:8-11 | after any sequence of createOrder calls on an empty store, every key maps to an order whose id is that key |
| StoreSpec.ReplayKeys | src/main/kotlin/com/example/demo/OrderService.kt:8-11 | the stored ids are exactly the ids of the orders ever created |
| StoreSpec.ReplayLastWrite | src/main/kotlin/com/example/demo/OrderService.kt:11 | last write wins: the order stored under an id is the last order in the history with that id |
| StoreSpec.LastWriteExists | src/main/kotlin/com/example/demo/OrderService.kt:11 | every id that was ever created has a last creating call, so a stored order always comes from the history |
| StoreSpec.AbsentWhenNeverWritten | src/main/kotlin/com/example/demo/OrderService.kt:15-17 | an id is absent from the store if and only if no order in the history carries it |
| StoreSpec.ReplayReplaces | src/main/kotlin/com/example/demo/OrderService.kt:11 | two creates with the same id leave the store as the second one alone would: whole-value replacement, no field merge, and repeating a create is idempotent |
| StoreSpec.ValuesCount | src/main/kotlin/com/example/demo/OrderService.kt:19-21 | under the key/id invariant distinct keys hold distinct orders, so the store holds as many different orders as it has keys |

## Left out

- Concurrency: the store is a `ConcurrentHashMap` shared between request threads. Calls are modelled one at a time, so per-key linearizability and the absence of torn reads under concurrent writers are not captured.
- `Order.toString`, `hashCode` and `copy` are generated by the Kotlin data class and are not part of this model. `Order` itself is not among the source files; it is modelled from its use as a two-field value with structural equality.
- Service.OrderService.GetAllOrders: the order of the returned list is left unspecified, since the hash map's iteration order is not part of the class's promise; the model picks keys in an arbitrary order.
- The HTTP controllers (both `OrderController` classes) only delegate to the three operations under framework routing, and their error responses come from the framework, so they are not part of this model.
- The Micrometer timer and counter around order creation, the JVM metrics controller and the metrics configuration read runtime introspection values and register meters. They are foreign calls with no store logic, so they are not part of this model.
- The `OrderService` of the `com.jvm.optimization.demo` package is not part of this model; its source is not available.
