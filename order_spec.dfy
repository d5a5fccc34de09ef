/**
 * What an order loop makes of a finite sequence of order-type tokens. The
 * loop asks a creation function (a simple factory, or a factory subclass's
 * createPizza) about each token in turn; what the function replies, token by
 * token, decides everything. Both loops serve the longest prefix of
 * recognised tokens.
 */
module OrderSpec {
  import opened Wrappers
  import AbsFactory

  /** What `create` replies to each token of `input`, in order. */
  function Replies<P>(create: string -> Option<P>, input: seq<string>): (rs: seq<Option<P>>)
    ensures |rs| == |input|
    ensures forall i :: 0 <= i < |input| ==> rs[i] == create(input[i])
  {
    seq(|input|, i requires 0 <= i < |input| => create(input[i]))
  }

  /** The length of the longest prefix of recognised tokens: the number of orders served. */
  function AcceptedPrefix<P>(replies: seq<Option<P>>): (n: nat)
    ensures n <= |replies|
    ensures forall i :: 0 <= i < n ==> replies[i].Some?
    ensures n < |replies| ==> replies[n].None?
  {
    if replies == [] || replies[0].None? then 0
    else 1 + AcceptedPrefix(replies[1..])
  }

  /** The products built for that prefix, in the order the tokens were read. */
  function Orders<P>(replies: seq<Option<P>>): (ps: seq<P>)
    ensures |ps| == AcceptedPrefix(replies)
    ensures forall i :: 0 <= i < |ps| ==> replies[i] == Some(ps[i])
  {
    if replies == [] || replies[0].None? then []
    else [replies[0].value] + Orders(replies[1..])
  }

  /** A recognised token at or before the end of the accepted prefix lies inside it. */
  lemma OrdersStep<P>(replies: seq<Option<P>>, i: nat)
    requires i <= AcceptedPrefix(replies) && i < |replies| && replies[i].Some?
    ensures i < |Orders(replies)| && replies[i] == Some(Orders(replies)[i])
  {
  }

  /** One more element of a prefix. */
  lemma PrefixStep<T>(s: seq<T>, i: nat)
    requires i < |s|
    ensures s[..i + 1] == s[..i] + [s[i]]
  {
  }

  /** Some token is rejected. */
  predicate HasRejected<P>(replies: seq<Option<P>>)
  {
    exists i :: 0 <= i < |replies| && replies[i].None?
  }

  /** The prefix falls short of the whole input exactly when a token is rejected. */
  lemma StopsIffRejected<P>(replies: seq<Option<P>>)
    ensures AcceptedPrefix(replies) < |replies| <==> HasRejected(replies)
  {
    if AcceptedPrefix(replies) < |replies| {
      assert replies[AcceptedPrefix(replies)].None?;
    }
  }

  /** AcceptedPrefix is the only length with its two defining properties. */
  lemma AcceptedPrefixUnique<P>(replies: seq<Option<P>>, n: nat)
    requires n <= |replies|
    requires forall i :: 0 <= i < n ==> replies[i].Some?
    requires n < |replies| ==> replies[n].None?
    ensures n == AcceptedPrefix(replies)
  {
  }

  /**
   * Tokens after the first rejected one are never looked at: appending more
   * input changes neither the prefix nor the orders.
   */
  lemma {:induction false} NothingReadAfterRejection<P>(replies: seq<Option<P>>, rest: seq<Option<P>>)
    requires HasRejected(replies)
    ensures AcceptedPrefix(replies + rest) == AcceptedPrefix(replies)
    ensures Orders(replies + rest) == Orders(replies)
  {
    assert replies != [];
    assert (replies + rest)[0] == replies[0];
    if replies[0].Some? {
      assert (replies + rest)[1..] == replies[1..] + rest;
      var i :| 0 <= i < |replies| && replies[i].None?;
      assert i > 0 && replies[1..][i - 1] == replies[i];
      NothingReadAfterRejection(replies[1..], rest);
    }
  }

  /**
   * Across regions the loops take the same orders: the Beijing and London
   * factories accept the same prefix of any input and build the same kinds
   * for it, each of its own region.
   */
  lemma {:induction false} RegionsTakeSameOrders(input: seq<string>)
    ensures AcceptedPrefix(Replies(AbsFactory.BJCreatePizza, input)) == AcceptedPrefix(Replies(AbsFactory.LDCreatePizza, input))
    ensures forall i :: 0 <= i < |Orders(Replies(AbsFactory.BJCreatePizza, input))| ==>
              Orders(Replies(AbsFactory.BJCreatePizza, input))[i].kind == Orders(Replies(AbsFactory.LDCreatePizza, input))[i].kind
    ensures forall p :: p in Orders(Replies(AbsFactory.BJCreatePizza, input)) ==> p.region == AbsFactory.Beijing
    ensures forall p :: p in Orders(Replies(AbsFactory.LDCreatePizza, input)) ==> p.region == AbsFactory.London
  {
    if input != [] {
      AbsFactory.SameRecognisedTokens(input[0]);
      RegionsTakeSameOrders(input[1..]);
      assert Replies(AbsFactory.BJCreatePizza, input)[1..] == Replies(AbsFactory.BJCreatePizza, input[1..]);
      assert Replies(AbsFactory.LDCreatePizza, input)[1..] == Replies(AbsFactory.LDCreatePizza, input[1..]);
    }
  }

  /**
   * With the Beijing factory the loop stops at the first unknown token:
   * "bogus" ends the run, so "pepper" after it is never ordered.
   */
  lemma BeijingStopsAtUnknownToken()
    ensures Orders(Replies(AbsFactory.BJCreatePizza, ["cheese", "bogus", "pepper"])) ==
              [AbsFactory.Product(AbsFactory.Beijing, AbsFactory.Cheese)]
    ensures Orders(Replies(AbsFactory.BJCreatePizza, ["cheese", "pepper", "stop"])) ==
              [AbsFactory.Product(AbsFactory.Beijing, AbsFactory.Cheese), AbsFactory.Product(AbsFactory.Beijing, AbsFactory.Pepper)]
  {
    var a := Replies(AbsFactory.BJCreatePizza, ["cheese", "bogus", "pepper"]);
    assert a[1..][0].None?;
    var b := Replies(AbsFactory.BJCreatePizza, ["cheese", "pepper", "stop"]);
    assert b[1..][0].Some? && b[1..][1..][0].None?;
  }
}
