/**
 * The abstract-factory variant: two regional factories, Beijing and London,
 * each turning an order-type token into a pizza of its own region.
 */
module AbsFactory {
  import opened Wrappers
  import Pizza

  datatype Region = Beijing | London

  datatype Kind = Cheese | Pepper

  /** A concrete pizza class of the factory package, e.g. BJCheesePizza. */
  datatype Product = Product(region: Region, kind: Kind)

  /** The order-type token that asks for a given kind. */
  function Token(kind: Kind): string
  {
    match kind
    case Cheese => "cheese"
    case Pepper => "pepper"
  }

  /** BJFactory.createPizza: exact, case-sensitive match on the two tokens. */
  function BJCreatePizza(orderType: string): (r: Option<Product>)
    ensures r == Some(Product(Beijing, Cheese)) <==> orderType == "cheese"
    ensures r == Some(Product(Beijing, Pepper)) <==> orderType == "pepper"
    ensures r.None? <==> orderType != "cheese" && orderType != "pepper"
    ensures r.Some? ==> r.value.region == Beijing
  {
    if orderType == "cheese" then Some(Product(Beijing, Cheese))
    else if orderType == "pepper" then Some(Product(Beijing, Pepper))
    else None
  }

  /** LDFactory.createPizza: the same selection, building London pizzas. */
  function LDCreatePizza(orderType: string): (r: Option<Product>)
    ensures r == Some(Product(London, Cheese)) <==> orderType == "cheese"
    ensures r == Some(Product(London, Pepper)) <==> orderType == "pepper"
    ensures r.None? <==> orderType != "cheese" && orderType != "pepper"
    ensures r.Some? ==> r.value.region == London
  {
    if orderType == "cheese" then Some(Product(London, Cheese))
    else if orderType == "pepper" then Some(Product(London, Pepper))
    else None
  }

  /** The implementations of the AbsFactory interface. */
  datatype Factory = BJFactory | LDFactory
  {
    function Region(): Region
    {
      match this
      case BJFactory => Beijing
      case LDFactory => London
    }

    /** AbsFactory.createPizza, dispatched to the implementing class. */
    function CreatePizza(orderType: string): (r: Option<Product>)
      ensures r.Some? ==> r.value.region == Region() && orderType == Token(r.value.kind)
      ensures r.None? <==> forall k: Kind :: orderType != Token(k)
    {
      match this
      case BJFactory => BJCreatePizza(orderType)
      case LDFactory => LDCreatePizza(orderType)
    }
  }

  /**
   * One call of createPizza on a factory object: a fresh pizza that has not
   * been through any stage, or null for an unrecognised token.
   */
  method NewPizza(factory: Factory, orderType: string) returns (pizza: Pizza.Pizza?<Product>)
    ensures pizza == null <==> factory.CreatePizza(orderType).None?
    ensures pizza != null ==> fresh(pizza) && pizza.stages == []
    ensures pizza != null ==>
              pizza.product.region == factory.Region() && Token(pizza.product.kind) == orderType
  {
    pizza := Pizza.CreatePizza(s => factory.CreatePizza(s), orderType);
  }

  /** Every kind's token is recognised by every factory, as that kind of that region. */
  lemma TokenRoundTrip(factory: Factory, kind: Kind)
    ensures factory.CreatePizza(Token(kind)) == Some(Product(factory.Region(), kind))
  {
    match factory
    case BJFactory =>
    case LDFactory =>
  }

  /**
   * The two factories recognise exactly the same tokens and build the same
   * kind for each; only the region differs.
   */
  lemma SameRecognisedTokens(orderType: string)
    ensures BJCreatePizza(orderType).None? <==> LDCreatePizza(orderType).None?
    ensures BJCreatePizza(orderType).Some? ==>
              LDCreatePizza(orderType).value.kind == BJCreatePizza(orderType).value.kind
  {
  }

  /** Region isolation: no token makes a factory build another region's pizza. */
  lemma RegionIsolation(factory: Factory, orderType: string, other: Region)
    requires other != factory.Region()
    ensures forall k: Kind :: factory.CreatePizza(orderType) != Some(Product(other, k))
  {
  }

  /** Matching is exact: a capitalised or padded token is not recognised. */
  lemma ExactMatch(factory: Factory)
    ensures factory.CreatePizza("Cheese").None?
    ensures factory.CreatePizza("PEPPER").None?
    ensures factory.CreatePizza(" cheese").None?
    ensures factory.CreatePizza("").None?
  {
  }
}
