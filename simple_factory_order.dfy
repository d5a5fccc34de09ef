/**
 * The simple-factory variant: OrderPizza stores the factory it is given and
 * takes orders until the factory fails to build a pizza for a token.
 */
module SimpleFactoryOrder {
  import opened Wrappers
  import opened Pizza
  import opened OrderSpec

  class OrderPizza<P> {
    /** The SimpleFactory in use; its createPizza is a parameter of this model. */
    var simpleFactory: string -> Option<P>
    /** The pizza of the current order; null when the last token was rejected. */
    var pizza: Pizza?<P>
    /** The number of tokens the constructor's order loop consumed. */
    ghost var read: nat
    /** The pizzas the constructor's order loop completed, oldest first. */
    ghost var served: seq<Pizza<P>>

    /**
     * Construction runs the whole order loop. It returns only if some token
     * is rejected, because the loop has no other exit.
     */
    constructor (simpleFactory: string -> Option<P>, input: seq<string>)
      requires HasRejected(Replies(simpleFactory, input))
      ensures this.simpleFactory == simpleFactory && pizza == null
      ensures read == AcceptedPrefix(Replies(simpleFactory, input)) + 1 && read <= |input|
      ensures simpleFactory(input[read - 1]).None?
      ensures AllServed(served, Orders(Replies(simpleFactory, input)))
    {
      this.simpleFactory := simpleFactory;
      pizza := null;
      read, served := 0, [];
      new;
      var tokens, pizzas := SetSimpleFactory(simpleFactory, input);
      read, served := tokens, pizzas;
    }

    /**
     * Stores the factory, then reads tokens one at a time: a recognised token
     * yields a new pizza driven through prepare, bake, cut and box; the
     * first rejected token ends the loop. `read` counts the tokens consumed
     * and `served` lists the pizzas completed, oldest first, one distinct
     * object per accepted token.
     */
    method SetSimpleFactory(simpleFactory: string -> Option<P>, input: seq<string>)
      returns (read: nat, served: seq<Pizza<P>>)
      requires HasRejected(Replies(simpleFactory, input))
      modifies this
      ensures this.simpleFactory == simpleFactory
      ensures read == AcceptedPrefix(Replies(simpleFactory, input)) + 1 && read <= |input|
      ensures simpleFactory(input[read - 1]).None?
      ensures pizza == null
      ensures AllServed(served, Orders(Replies(simpleFactory, input)))
    {
      ghost var replies := Replies(simpleFactory, input);
      StopsIffRejected(replies);
      ghost var expected := Orders(replies);
      ghost var accepted := |expected|;
      this.simpleFactory := simpleFactory;
      read, served := 0, [];
      while true
        invariant this.simpleFactory == simpleFactory
        invariant read <= accepted
        invariant AllServed(served, expected[..read])
        decreases |input| - read
      {
        var orderType := input[read];
        read := read + 1;
        var created := CreatePizza(this.simpleFactory, orderType);
        pizza := created;
        if created != null {
          assert created !in served;
          OrdersStep(replies, read - 1);
          PrefixStep(expected, read - 1);
          RunLifecycle(created);
          AllServedAppend(served, expected[..read - 1], created);
          served := served + [created];
        } else {
          assert expected[..read - 1] == expected;
          break;
        }
      }
    }
  }
}
