/**
 * The factory-method variant: the abstract OrderPizza's constructor takes
 * orders for ever, asking the subclass's createPizza for each pizza and never
 * checking it for null.
 */
module FactoryMethodOrder {
  import opened Wrappers
  import opened Pizza
  import opened OrderSpec

  /**
   * How a run over a finite stretch of input ends: the stretch is used up
   * (the program itself would go on reading), or createPizza returned null
   * for the token at index `at` and calling prepare() on it throws a
   * NullPointerException.
   */
  datatype LoopEnd = InputExhausted | NullPointer(at: nat)

  /** What the run ends with, given what createPizza replies to each token. */
  function EndOf<P>(replies: seq<Option<P>>): (e: LoopEnd)
    ensures e.InputExhausted? <==> !HasRejected(replies)
    ensures e.NullPointer? ==> e.at < |replies| && replies[e.at].None? &&
                               forall i :: 0 <= i < e.at ==> replies[i].Some?
  {
    StopsIffRejected(replies);
    var n := AcceptedPrefix(replies);
    if n < |replies| then NullPointer(n) else InputExhausted
  }

  class OrderPizza<P> {
    /** The subclass's implementation of the abstract createPizza. */
    const createPizza: string -> Option<P>
    /** The pizzas completed by the constructor's loop, oldest first. */
    ghost var served: seq<Pizza<P>>
    /** How the constructor's loop ended. */
    ghost var ended: LoopEnd

    /**
     * The constructor's loop: each token read is passed to createPizza and the
     * result driven through prepare, bake, cut and box, with no null check.
     */
    constructor (createPizza: string -> Option<P>, input: seq<string>)
      ensures this.createPizza == createPizza
      ensures ended == EndOf(Replies(createPizza, input))
      ensures AllServed(served, Orders(Replies(createPizza, input)))
    {
      this.createPizza := createPizza;
      served := [];
      ended := InputExhausted;
      new;
      ghost var replies := Replies(createPizza, input);
      ghost var expected := Orders(replies);
      ghost var accepted := |expected|;
      var pizza: Pizza?<P> := null;
      var read: nat := 0;
      ghost var done: seq<Pizza<P>> := [];
      while true
        invariant read <= accepted
        invariant AllServed(done, expected[..read])
        decreases |input| - read
      {
        if read == |input| {
          assert expected[..read] == expected;
          ended, served := InputExhausted, done;
          break;
        }
        var orderType := input[read];
        pizza := CreatePizza(this.createPizza, orderType);
        if pizza == null {
          // the next statement, pizza.prepare(), throws a NullPointerException
          assert expected[..read] == expected;
          ended, served := NullPointer(read), done;
          break;
        }
        OrdersStep(replies, read);
        PrefixStep(expected, read);
        RunLifecycle(pizza);
        AllServedAppend(done, expected[..read], pizza);
        done := done + [pizza];
        read := read + 1;
      }
    }
  }
}
