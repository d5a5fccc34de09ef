# Pizza factories and the voltage adapter, in Dafny

This project models the parts of the `design-pattern` Java repository that
carry logic: the pizza factories of the factory demos and the class adapter
of the adapter demo.

- **Regional factories** (`AbsFactory`): `BJFactory` and `LDFactory` map an
  order-type token to a pizza of their own region. `"cheese"` and `"pepper"`
  give a product, any other token gives `null` (here `None`). A product is
  the value `Product(region, kind)`. The `AbsFactory` interface becomes the
  datatype `Factory`, whose `CreatePizza` dispatches to the implementing
  class. `NewPizza` is the object-level call: it returns a newly allocated
  pizza or null, through the generic `Pizza.CreatePizza`.
- **Pizzas** (`Pizza`): the `Pizza` base classes are not part of this model.
  A pizza is an object that remembers the product it was built as. It also
  records, in order, which of `prepare`, `bake`, `cut` and `box` were called on it.
- **Order loops** (`OrderSpec`, `SimpleFactoryOrder`, `FactoryMethodOrder`):
  the console becomes a finite sequence of tokens. The creation function
  (the simple factory, or a subclass's `createPizza`) becomes a parameter of
  type `string -> Option<P>`.
  - The simple-factory `OrderPizza.setSimpleFactory` stores the factory. It
    then serves orders until the first rejected token, where it leaves the
    loop (`break`). It serves exactly the longest prefix of recognised tokens
    (`OrderSpec.AcceptedPrefix`, `OrderSpec.Orders`). Because `while(true)`
    has no other exit, the model requires that some token is rejected.
  - The factory-method `OrderPizza` constructor has no exit and no null check.
    Over a finite stretch of input it serves the same prefix. It then either
    runs out of input or dereferences a `null` pizza. The second case is a
    `NullPointerException` and is reported as `LoopEnd.NullPointer(at)`.
  - Each pizza served went through prepare, bake, cut and box, in that
    order and once each. A rejected token never gets a pizza. The model's
    creation call builds a new pizza on every success, so the pizzas served
    are distinct objects (see `Pizza.CreatePizza` under "Left out").
- **Class adapter** (`ClassAdapter`): `VoltageAdapter.output5V` divides the
  source voltage by 44 with Java's truncating `/` on a 32-bit `int`.
  `Phone.charging` reads the adapter once or twice and prints one of two
  messages or nothing. The message is returned as `Option<Message>`.

The code has no stop sentinel token. The simple-factory loop stops at the
first unknown token. The factory-method loop dereferences null on one. No
stage checks the order of calls. Unrecognised tokens give `null`.

## Model

| member | source | states |
|---|---|---|
| `AbsFactory.BJCreatePizza` | src/factory/absfactory/order/BJFactory.java:10-18 | `"cheese"` gives exactly the Beijing cheese pizza, `"pepper"` exactly the Beijing pepper pizza, and every other token gives None; any product is a Beijing one |
| `AbsFactory.LDCreatePizza` | src/factory/absfactory/order/LDFactory.java:10-18 | `"cheese"` gives exactly the London cheese pizza, `"pepper"` exactly the London pepper pizza, and every other token gives None; any product is a London one |
| `AbsFactory.Factory.CreatePizza` | src/factory/absfactory/order/AbsFactory.java:7 | through the interface, a product is of the factory's own region and of the kind whose token was given; None exactly when the token names no kind |
| `AbsFactory.NewPizza` | src/factory/absfactory/order/BJFactory.java:11-17 | null exactly for an unrecognised token; otherwise a freshly allocated pizza of the factory's region and the token's kind, with no stage applied |
| `AbsFactory.TokenRoundTrip` | src/factory/absfactory/order/BJFactory.java:12-15 | every kind's token is recognised by every factory and builds that kind in that factory's region |
| `AbsFactory.SameRecognisedTokens` | src/factory/absfactory/order/LDFactory.java:12-16 | for every token, BJFactory gives None iff LDFactory does, and when both build, they build the same kind |
| `AbsFactory.RegionIsolation` | src/factory/absfactory/order/BJFactory.java:12-15 | no token makes a factory return a pizza of another region |
| `AbsFactory.ExactMatch` | src/factory/absfactory/order/BJFactory.java:12-14 | matching is exact and case-sensitive: `"Cheese"`, `"PEPPER"`, `" cheese"` and `""` are rejected |
| `Pizza.Pizza.constructor` | src/factory/absfactory/order/BJFactory.java:13 | a new pizza carries the product it was built as and has no stage applied |
| `Pizza.CreatePizza` | src/factory/simplefactory/order/OrderPizza.java:25 | a creation call gives null exactly when the creation function rejects the token; otherwise a newly allocated pizza of the product it names, with no stage applied |
| `Pizza.RunLifecycle` | src/factory/simplefactory/order/OrderPizza.java:28-31 | the four stage calls of one order append prepare, bake, cut and box, in that order, to the pizza's stage record |
| `Pizza.Pizza.Prepare` | src/factory/simplefactory/order/OrderPizza.java:28 | `prepare()` appends Prepare to the pizza's stage record and changes nothing else |
| `Pizza.Pizza.Bake` | src/factory/simplefactory/order/OrderPizza.java:29 | `bake()` appends Bake to the pizza's stage record and changes nothing else |
| `Pizza.Pizza.Cut` | src/factory/simplefactory/order/OrderPizza.java:30 | `cut()` appends Cut to the pizza's stage record and changes nothing else |
| `Pizza.Pizza.Box` | src/factory/simplefactory/order/OrderPizza.java:31 | `box()` appends Box to the pizza's stage record and changes nothing else |
| `OrderSpec.AcceptedPrefix` | src/factory/simplefactory/order/OrderPizza.java:23-36 | the number of orders served: every token before it is recognised, and the token at it (if any) is rejected |
| `OrderSpec.Orders` | src/factory/simplefactory/order/OrderPizza.java:23-36 | the products served: one per token of the accepted prefix, each the factory's product for that token, in reading order |
| `OrderSpec.StopsIffRejected` | src/factory/simplefactory/order/OrderPizza.java:23-36 | the loop stops before the end of the input exactly when some token is rejected |
| `OrderSpec.AcceptedPrefixUnique` | src/factory/simplefactory/order/OrderPizza.java:23-36 | the accepted prefix is the only length with "all earlier tokens recognised, this one rejected" |
| `OrderSpec.NothingReadAfterRejection` | src/factory/simplefactory/order/OrderPizza.java:32-35 | input after the first rejected token changes neither the number of orders nor the products |
| `OrderSpec.RegionsTakeSameOrders` | src/factory/absfactory/order/LDFactory.java:10-18 | over any input, the Beijing and London factories serve equally many orders, of the same kinds, all Beijing and all London respectively |
| `OrderSpec.BeijingStopsAtUnknownToken` | src/factory/simplefactory/order/OrderPizza.java:32-35 | with BJFactory, `cheese, bogus, pepper` serves only the cheese pizza, and `cheese, pepper, stop` serves two pizzas and stops on `stop` |
| `SimpleFactoryOrder.OrderPizza.constructor` | src/factory/simplefactory/order/OrderPizza.java:16-18 | construction stores the factory and runs the order loop, leaving `pizza` null; it records that the loop read exactly the accepted prefix plus the one rejected token, and served one distinct pizza per recognised token, each the factory's product, each with stages prepare, bake, cut, box |
| `SimpleFactoryOrder.OrderPizza.SetSimpleFactory` | src/factory/simplefactory/order/OrderPizza.java:20-37 | stores the factory; reads exactly the accepted prefix plus the one rejected token; serves one distinct pizza per recognised token, each the factory's product, each with stages prepare, bake, cut, box; ends with `pizza == null` |
| `FactoryMethodOrder.EndOf` | src/factory/factorymethod/order/OrderPizza.java:16-23 | the run dereferences null exactly when some token is rejected, and then at the first rejected token; otherwise it runs out of input |
| `FactoryMethodOrder.OrderPizza.constructor` | src/factory/factorymethod/order/OrderPizza.java:13-24 | each token read goes to `createPizza`; one distinct pizza per recognised token of the accepted prefix, each with stages prepare, bake, cut, box; the run ends as `EndOf` says |
| `ClassAdapter.Output5V` | src/adapter/classadpter/VoltageAdapter.java:6-10 | Java truncating division by 44: for a non-negative source `dst*44 <= src < (dst+1)*44` and `0 <= dst <= src`; for a negative source `(dst-1)*44 < src <= dst*44` and `src < dst <= 0` |
| `ClassAdapter.Output5VIsEuclideanOnNonNegative` | src/adapter/classadpter/VoltageAdapter.java:8 | on a non-negative source Java's `/` and Dafny's `/` give the same output |
| `ClassAdapter.Output5VTruncatesNegative` | src/adapter/classadpter/VoltageAdapter.java:8 | on negative sources they differ: -1 V gives 0, not -1 |
| `ClassAdapter.Output5VMonotone` | src/adapter/classadpter/VoltageAdapter.java:8 | a higher source voltage never gives a lower output |
| `ClassAdapter.Output5VIsFive` | src/adapter/classadpter/VoltageAdapter.java:7-9 | the output is exactly 5 for sources 220..263 and above 5 for sources of 264 or more |
| `ClassAdapter.Charging` | src/adapter/classadpter/Phone.java:5-11 | "can charge" iff the first reading is 5; "cannot charge" iff it is not and the second reading exceeds 5; no message otherwise; at most one message |
| `ClassAdapter.ChargingSteadyAdapter` | src/adapter/classadpter/Phone.java:6-10 | when both readings agree: can charge iff 5, cannot charge iff above 5, silent iff below 5 |
| `ClassAdapter.ChargingThroughAdapter` | src/adapter/classadpter/Phone.java:6-10 | on a VoltageAdapter: can charge for sources 220..263, cannot charge from 264, silent below 220 |

## Left out

- Console input (`getType` in both `OrderPizza` classes) is replaced by a finite sequence of tokens. Its I/O-failure branch returning `""` is not modelled. Neither is `readLine` returning `null` at end of input, because Dafny strings cannot be null.
- The printed prompts and messages are not modelled as strings. The failure message of the simple-factory loop is its `break`, and `Phone.charging` returns its message as a value.
- `SimpleFactory`, the factory-method subclasses and `Voltage220V` are not part of this model. Their `createPizza` and `output220V` become parameters.
- The `Pizza` base classes and the concrete pizza classes are not part of this model. A pizza only records its product and the stage calls made on it. The display name set in `LDPepperPizza.prepare` (src/factory/factorymethod/pizza/LDPepperPizza.java) is not kept, and neither is anything the stages print.
- SimpleFactoryOrder.OrderPizza.SetSimpleFactory: requires that some token is rejected. The loop only ends on a rejected token or at end of input. At end of input `readLine` returns `null`, and what `createPizza(null)` does depends on `SimpleFactory`, which is not part of this model, so that case is not modelled.
- SimpleFactoryOrder.OrderPizza.SetSimpleFactory: a `null` factory throws a `NullPointerException` at the `createPizza` call (src/factory/simplefactory/order/OrderPizza.java:25). The factory is a function value here, which cannot be null, so that case is not modelled.
- SimpleFactoryOrder.OrderPizza.constructor: has the same requirement and the same unmodelled cases as `SetSimpleFactory`, which it calls.
- Pizza.CreatePizza: the creators that are not shown (`SimpleFactory` and the factory-method subclasses) are assumed to depend only on the token and to build a new pizza on every success, as `BJFactory` and `LDFactory` do (src/factory/absfactory/order/BJFactory.java:13,15; LDFactory.java:13,15). The distinctness of the pizzas served by both order loops rests on this assumption.
- SimpleFactoryOrder.OrderPizza.SetSimpleFactory: states that the pizzas served are pairwise distinct objects, not that each was allocated during the call; `Pizza.CreatePizza` states the allocation for a single call.
- FactoryMethodOrder.OrderPizza.constructor: states that the pizzas served are pairwise distinct objects, not that each was allocated during the call.
- FactoryMethodOrder.OrderPizza.constructor: the loop has no exit. The model covers a finite stretch of input and ends with `InputExhausted` when that stretch is used up. The exception thrown on a null pizza is an ending value, not propagated to a caller.
- ClassAdapter.Charging: the adapter is read through its two readings, passed in as values, rather than by calling an object.
- The prototype deep copy (`DeepPrototype`) relies on `Object.clone` and Java serialisation, which this model does not have. The `main` demos of the prototype and builder packages have no logic, and the builder's classes are not part of this model.
