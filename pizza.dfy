/**
 * The pizza products. The Java `Pizza` base classes are not part of this
 * model, so a pizza is an object that records, in order, which lifecycle
 * stages have been called on it, together with the product it was built as.
 */
module Pizza {
  import opened Wrappers

  /** The four lifecycle calls every order makes on a pizza. */
  datatype Stage = Prepare | Bake | Cut | Box

  /** The order in which an order loop drives a pizza through its stages. */
  const Lifecycle: seq<Stage> := [Prepare, Bake, Cut, Box]

  class Pizza<P> {
    /** What the factory built (for the regional factories: region and kind). */
    const product: P
    /** The stages called so far, oldest first. */
    var stages: seq<Stage>

    /** A freshly built pizza has had no stage applied yet. */
    constructor (product: P)
      ensures this.product == product && stages == []
    {
      this.product := product;
      stages := [];
    }

    method Prepare()
      modifies this
      ensures stages == old(stages) + [Stage.Prepare]
    {
      stages := stages + [Stage.Prepare];
    }

    method Bake()
      modifies this
      ensures stages == old(stages) + [Stage.Bake]
    {
      stages := stages + [Stage.Bake];
    }

    method Cut()
      modifies this
      ensures stages == old(stages) + [Stage.Cut]
    {
      stages := stages + [Stage.Cut];
    }

    method Box()
      modifies this
      ensures stages == old(stages) + [Stage.Box]
    {
      stages := stages + [Stage.Box];
    }
  }

  /**
   * A factory's createPizza as a call: a newly allocated pizza of the product
   * `create` names for the token, with no stage applied, or null when `create`
   * does not recognise the token.
   */
  method CreatePizza<P>(create: string -> Option<P>, orderType: string) returns (pizza: Pizza?<P>)
    ensures pizza == null <==> create(orderType).None?
    ensures pizza != null ==> fresh(pizza) && Some(pizza.product) == create(orderType) && pizza.stages == []
  {
    match create(orderType)
    case None =>
      pizza := null;
    case Some(p) =>
      pizza := new Pizza(p);
  }

  /**
   * The four stage calls each order loop makes on a pizza it has created,
   * written out inline in both loops of the Java code.
   */
  method RunLifecycle<P>(pizza: Pizza<P>)
    modifies pizza
    ensures pizza.stages == old(pizza.stages) + Lifecycle
  {
    pizza.Prepare();
    pizza.Bake();
    pizza.Cut();
    pizza.Box();
  }

  /**
   * `pizzas` are distinct objects, the k-th built as `products[k]`, and each
   * has gone through the whole lifecycle exactly once, in order.
   */
  ghost predicate AllServed<P>(pizzas: seq<Pizza<P>>, products: seq<P>)
    reads pizzas
  {
    |pizzas| == |products| &&
    (forall k :: 0 <= k < |pizzas| ==> pizzas[k].product == products[k] && pizzas[k].stages == Lifecycle) &&
    (forall j, k :: 0 <= j < k < |pizzas| ==> pizzas[j] != pizzas[k])
  }

  /** Serving one more, new pizza through its lifecycle extends the record by its product. */
  lemma AllServedAppend<P>(pizzas: seq<Pizza<P>>, products: seq<P>, pizza: Pizza<P>)
    requires AllServed(pizzas, products)
    requires pizza !in pizzas && pizza.stages == Lifecycle
    ensures AllServed(pizzas + [pizza], products + [pizza.product])
  {
  }
}
