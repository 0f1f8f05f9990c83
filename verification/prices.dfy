/**
 * The in-memory price store (prices.py): the latest quote per
 * (exchange, market kind, symbol), overwritten by every update.
 */
module Prices {
  import opened Options

  /** One quote: best bid, best ask and its timestamp. */
  datatype Price = Price(bid: real, ask: real, ts: int)

  /** The store's key: exchange id, market kind and normalised symbol. */
  datatype Key = Key(exchange: string, market: string, symbol: string)

  /** The abstract contents of a store. */
  type Quotes = map<Key, Price>

  /** `dict.get(key)`: the stored price, or `None` when the key was never written. */
  function Lookup(quotes: Quotes, k: Key): (r: Option<Price>)
    ensures r.Some? <==> k in quotes
    ensures r.Some? ==> r.value == quotes[k]
  {
    if k in quotes then Some(quotes[k]) else None
  }

  /** A recorded write: the arguments of one `update` call. */
  datatype Write = Write(key: Key, price: Price)

  /**
   * The contents after applying `writes` to `quotes`, in order.  Each step is
   * the map update that `PriceStore.Update` promises for its new state, so
   * `ApplyAll(store.quotes, ws)` is the store after calling `Update` with each
   * write of `ws` in turn.
   */
  function ApplyAll(quotes: Quotes, writes: seq<Write>): (r: Quotes)
    ensures forall k :: k in r <==> k in quotes || Written(writes, k)
  {
    if writes == [] then quotes
    else ApplyAll(quotes, writes[..|writes| - 1])[writes[|writes| - 1].key := writes[|writes| - 1].price]
  }

  /** Some write of `writes` is to `k`. */
  predicate Written(writes: seq<Write>, k: Key) {
    exists j :: 0 <= j < |writes| && writes[j].key == k
  }

  /** The position of the last write to `k`, if any. */
  function LastWriteTo(writes: seq<Write>, k: Key): (r: Option<nat>)
    ensures r.Some? ==> r.value < |writes| && writes[r.value].key == k
    ensures r.Some? ==> forall j :: r.value < j < |writes| ==> writes[j].key != k
    ensures r.None? ==> forall j :: 0 <= j < |writes| ==> writes[j].key != k
  {
    if writes == [] then None
    else if writes[|writes| - 1].key == k then Some(|writes| - 1)
    else LastWriteTo(writes[..|writes| - 1], k)
  }

  /**
   * Last write wins: after a series of updates, a key answers the price of
   * the last write to it, and a key never written answers what it answered before.
   */
  lemma {:induction false} LastWriteWins(quotes: Quotes, writes: seq<Write>, k: Key)
    ensures LastWriteTo(writes, k).Some? ==>
      Lookup(ApplyAll(quotes, writes), k) == Some(writes[LastWriteTo(writes, k).value].price)
    ensures LastWriteTo(writes, k).None? ==> Lookup(ApplyAll(quotes, writes), k) == Lookup(quotes, k)
  {
    if writes != [] {
      var init := writes[..|writes| - 1];
      LastWriteWins(quotes, init, k);
      if writes[|writes| - 1].key != k {
        assert LastWriteTo(writes, k) == LastWriteTo(init, k);
        if LastWriteTo(init, k).Some? {
          assert writes[LastWriteTo(init, k).value] == init[LastWriteTo(init, k).value];
        }
      }
    }
  }

  /** A key outside every write keeps its lookup. */
  lemma {:induction false} WritesElsewhere(quotes: Quotes, writes: seq<Write>, k: Key)
    requires forall j :: 0 <= j < |writes| ==> writes[j].key != k
    ensures Lookup(ApplyAll(quotes, writes), k) == Lookup(quotes, k)
  {
    LastWriteWins(quotes, writes, k);
  }

  class PriceStore {
    var quotes: Quotes

    /** A fresh store holds no price. */
    constructor ()
      ensures quotes == map[]
      ensures forall k :: Lookup(quotes, k) == None
    {
      quotes := map[];
    }

    /** Record the latest quote for (exchange, market, symbol), replacing any earlier one. */
    method Update(exchange: string, market: string, symbol: string, bid: real, ask: real, ts: int)
      modifies this
      ensures quotes == old(quotes)[Key(exchange, market, symbol) := Price(bid, ask, ts)]
      ensures Lookup(quotes, Key(exchange, market, symbol)) == Some(Price(bid, ask, ts))
      ensures forall k :: k != Key(exchange, market, symbol) ==> Lookup(quotes, k) == Lookup(old(quotes), k)
    {
      quotes := quotes[Key(exchange, market, symbol) := Price(bid, ask, ts)];
    }

    /** The latest quote for (exchange, market, symbol), or `None`; the store is left as it is. */
    method Get(exchange: string, market: string, symbol: string) returns (r: Option<Price>)
      ensures r.Some? <==> Key(exchange, market, symbol) in quotes
      ensures r.Some? ==> r.value == quotes[Key(exchange, market, symbol)]
    {
      r := Lookup(quotes, Key(exchange, market, symbol));
    }
  }
}
