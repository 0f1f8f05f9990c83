/**
 * Pair generation (symbols_universe.py, common_tradables and
 * spot_futures_pairs): the symbols listed by every spot market and every
 * futures market of the symbol map, and every (symbol, spot exchange, futures
 * exchange) triple whose two legs list the symbol.
 */
module PairGenerator {
  import opened MarketTypes
  import opened Universe

  /** A monitored pair: watch this spot leg against this futures leg for this symbol. */
  datatype Pair = Pair(symbol: string, spotExchange: string, futuresExchange: string)

  /** The exchanges whose markets have a `kind` entry. */
  ghost function VenuesWith(m: SymbolMap, kind: string): set<string> {
    set a | a in m && kind in m[a]
  }

  /** Exchange `ex` has a `kind` entry and its list holds `s`. */
  ghost predicate Listed(m: SymbolMap, ex: string, kind: string, s: string) {
    ex in m && kind in m[ex] && s in m[ex][kind]
  }

  /** Every exchange of `venues` that has a `kind` entry lists `s` there. */
  ghost predicate ListedByAll(m: SymbolMap, venues: set<string>, kind: string, s: string) {
    forall a :: a in venues && a in m && kind in m[a] ==> s in m[a][kind]
  }

  /** `s` is common: some exchange has spot, some has futures, and every such list holds `s`. */
  ghost predicate InCommon(m: SymbolMap, s: string) {
    && VenuesWith(m, SPOT) != {}
    && VenuesWith(m, FUTURES) != {}
    && ListedByAll(m, m.Keys, SPOT, s)
    && ListedByAll(m, m.Keys, FUTURES, s)
  }

  /** The set of common symbols. */
  ghost function Common(m: SymbolMap): (r: set<string>)
    ensures forall s :: s in r <==> InCommon(m, s)
  {
    if VenuesWith(m, SPOT) == {} || VenuesWith(m, FUTURES) == {} then {}
    else
      var a :| a in VenuesWith(m, SPOT);
      set s | s in m[a][SPOT] && InCommon(m, s)
  }

  /** `s` is in every set of `sets`. */
  ghost predicate InAll(s: string, sets: seq<set<string>>) {
    forall j :: 0 <= j < |sets| ==> s in sets[j]
  }

  /** Python's `set.intersection(*sets)`. */
  function IntersectAll(sets: seq<set<string>>): (r: set<string>)
    requires |sets| > 0
    ensures forall s :: s in r <==> InAll(s, sets)
  {
    if |sets| == 1 then sets[0]
    else IntersectAll(sets[..|sets| - 1]) * sets[|sets| - 1]
  }

  /** Python's `set(xs)`. */
  function ToSet(xs: seq<string>): (r: set<string>)
    ensures forall x :: x in r <==> x in xs
  {
    set x | x in xs
  }

  method CommonTradables(m: SymbolMap) returns (common: set<string>)
    ensures common == Common(m)
    ensures VenuesWith(m, SPOT) == {} || VenuesWith(m, FUTURES) == {} ==> common == {}
  {
    var spotSets: seq<set<string>> := [];
    var futuresSets: seq<set<string>> := [];
    var todo := m.Keys;
    ghost var done: set<string> := {};
    while todo != {}
      invariant todo + done == m.Keys && todo !! done
      invariant forall s :: InAll(s, spotSets) <==> ListedByAll(m, done, SPOT, s)
      invariant forall s :: InAll(s, futuresSets) <==> ListedByAll(m, done, FUTURES, s)
      invariant spotSets == [] <==> forall a :: a in done ==> SPOT !in m[a]
      invariant futuresSets == [] <==> forall a :: a in done ==> FUTURES !in m[a]
      decreases |todo|
    {
      var exchange :| exchange in todo;
      var markets := m[exchange];
      ghost var spot0, futures0 := spotSets, futuresSets;
      if SPOT in markets {
        spotSets := spotSets + [ToSet(markets[SPOT])];
      }
      if FUTURES in markets {
        futuresSets := futuresSets + [ToSet(markets[FUTURES])];
      }
      forall s
        ensures InAll(s, spotSets) <==> ListedByAll(m, done + {exchange}, SPOT, s)
        ensures InAll(s, futuresSets) <==> ListedByAll(m, done + {exchange}, FUTURES, s)
      {
        ListedByAllAdd(m, done, exchange, SPOT, s);
        ListedByAllAdd(m, done, exchange, FUTURES, s);
        if SPOT in markets {
          InAllAppend(s, spot0, ToSet(markets[SPOT]));
        }
        if FUTURES in markets {
          InAllAppend(s, futures0, ToSet(markets[FUTURES]));
        }
      }
      todo := todo - {exchange};
      done := done + {exchange};
    }
    assert done == m.Keys;
    if spotSets == [] || futuresSets == [] {
      NoVenueNoCommon(m, spotSets, futuresSets);
      return {};
    }
    common := IntersectAll(spotSets) * IntersectAll(futuresSets);
    CommonOfSets(m, spotSets, futuresSets);
  }

  lemma NoVenueNoCommon(m: SymbolMap, spotSets: seq<set<string>>, futuresSets: seq<set<string>>)
    requires spotSets == [] <==> forall a :: a in m ==> SPOT !in m[a]
    requires futuresSets == [] <==> forall a :: a in m ==> FUTURES !in m[a]
    requires spotSets == [] || futuresSets == []
    ensures Common(m) == {}
    ensures VenuesWith(m, SPOT) == {} || VenuesWith(m, FUTURES) == {}
  {
    if spotSets == [] {
      assert VenuesWith(m, SPOT) == {};
    } else {
      assert VenuesWith(m, FUTURES) == {};
    }
  }

  lemma CommonOfSets(m: SymbolMap, spotSets: seq<set<string>>, futuresSets: seq<set<string>>)
    requires spotSets != [] && futuresSets != []
    requires forall s :: InAll(s, spotSets) <==> ListedByAll(m, m.Keys, SPOT, s)
    requires forall s :: InAll(s, futuresSets) <==> ListedByAll(m, m.Keys, FUTURES, s)
    requires spotSets == [] <==> forall a :: a in m ==> SPOT !in m[a]
    requires futuresSets == [] <==> forall a :: a in m ==> FUTURES !in m[a]
    ensures IntersectAll(spotSets) * IntersectAll(futuresSets) == Common(m)
    ensures VenuesWith(m, SPOT) != {} && VenuesWith(m, FUTURES) != {}
  {
    var a :| a in m && SPOT in m[a];
    assert a in VenuesWith(m, SPOT);
    var b :| b in m && FUTURES in m[b];
    assert b in VenuesWith(m, FUTURES);
  }

  /** `p` is a triple worth monitoring: a common symbol, listed by its spot leg as spot and by its futures leg as futures. */
  ghost predicate ValidPair(m: SymbolMap, p: Pair) {
    && InCommon(m, p.symbol)
    && Listed(m, p.spotExchange, SPOT, p.symbol)
    && Listed(m, p.futuresExchange, FUTURES, p.symbol)
  }

  /** No element occurs twice. */
  ghost predicate Distinct(pairs: seq<Pair>) {
    forall i, j :: 0 <= i < j < |pairs| ==> pairs[i] != pairs[j]
  }

  /**
   * Exactly the valid triples, each once (a venue may be its own futures
   * leg), so that there are |common| * |spot venues| * |futures venues| of them.
   * The iteration order over symbols and exchanges is left open.
   */
  method SpotFuturesPairs(m: SymbolMap) returns (pairs: seq<Pair>)
    ensures forall p :: p in pairs <==> ValidPair(m, p)
    ensures Distinct(pairs)
    ensures |pairs| == |Common(m)| * |VenuesWith(m, SPOT)| * |VenuesWith(m, FUTURES)|
  {
    var symbols := CommonTradables(m);
    ghost var perSymbol := |VenuesWith(m, SPOT)| * |VenuesWith(m, FUTURES)|;
    pairs := [];
    var exchanges := m.Keys;
    var todo := symbols;
    ghost var done: set<string> := {};
    while todo != {}
      invariant todo + done == symbols && todo !! done
      invariant forall p :: p in pairs <==> ValidPair(m, p) && p.symbol in done
      invariant Distinct(pairs)
      invariant |pairs| == |done| * perSymbol
      decreases |todo|
    {
      var symbol :| symbol in todo;
      ghost var n := |done|;
      pairs := AddSymbolPairs(m, exchanges, symbol, pairs);
      MulSucc(n, perSymbol);
      todo := todo - {symbol};
      done := done + {symbol};
      assert |done| == n + 1;
    }
    MulAssoc(|done|, |VenuesWith(m, SPOT)|, |VenuesWith(m, FUTURES)|);
  }

  /** The middle loop of the enumeration: every spot leg of `symbol`, each with all its futures legs. */
  method AddSymbolPairs(m: SymbolMap, exchanges: set<string>, symbol: string, pairs0: seq<Pair>) returns (pairs: seq<Pair>)
    requires exchanges == m.Keys && InCommon(m, symbol)
    requires forall p :: p in pairs0 ==> p.symbol != symbol
    requires Distinct(pairs0)
    ensures forall p :: p in pairs <==> p in pairs0 || (p.symbol == symbol && ValidPair(m, p))
    ensures Distinct(pairs)
    ensures |pairs| == |pairs0| + |VenuesWith(m, SPOT)| * |VenuesWith(m, FUTURES)|
  {
    pairs := pairs0;
    ghost var spotDone: set<string> := {};
    var spotTodo := exchanges;
    while spotTodo != {}
      invariant spotTodo <= exchanges
      invariant forall a :: a in spotDone <==> a in exchanges - spotTodo && Listed(m, a, SPOT, symbol)
      invariant forall p :: p in pairs <==> p in pairs0 || (p.symbol == symbol && ValidPair(m, p) && p.spotExchange in spotDone)
      invariant Distinct(pairs)
      invariant |pairs| == |pairs0| + |spotDone| * |VenuesWith(m, FUTURES)|
      decreases |spotTodo|
    {
      var spotExchange :| spotExchange in spotTodo;
      assert spotExchange !in spotDone;
      spotTodo := spotTodo - {spotExchange};
      if SPOT !in m[spotExchange] || symbol !in m[spotExchange][SPOT] {
        continue;
      }
      ghost var k := |spotDone|;
      pairs := AddLegPairs(m, exchanges, symbol, spotExchange, pairs);
      MulSucc(k, |VenuesWith(m, FUTURES)|);
      spotDone := spotDone + {spotExchange};
      assert |spotDone| == k + 1;
    }
    assert spotDone == VenuesWith(m, SPOT);
  }

  /** The inner loop of the enumeration: every futures leg of `symbol` against spot leg `spotExchange`. */
  method AddLegPairs(m: SymbolMap, exchanges: set<string>, symbol: string, spotExchange: string, pairs0: seq<Pair>)
    returns (pairs: seq<Pair>)
    requires exchanges == m.Keys && InCommon(m, symbol) && Listed(m, spotExchange, SPOT, symbol)
    requires forall p :: p in pairs0 ==> p.symbol != symbol || p.spotExchange != spotExchange
    requires Distinct(pairs0)
    ensures forall p :: p in pairs <==> p in pairs0 || (p.symbol == symbol && p.spotExchange == spotExchange && ValidPair(m, p))
    ensures Distinct(pairs)
    ensures |pairs| == |pairs0| + |VenuesWith(m, FUTURES)|
  {
    pairs := pairs0;
    ghost var futuresDone: set<string> := {};
    var futuresTodo := exchanges;
    while futuresTodo != {}
      invariant futuresTodo <= exchanges
      invariant forall b :: b in futuresDone <==> b in exchanges - futuresTodo && Listed(m, b, FUTURES, symbol)
      invariant forall p :: p in pairs <==>
        p in pairs0 || (p.symbol == symbol && p.spotExchange == spotExchange && ValidPair(m, p) && p.futuresExchange in futuresDone)
      invariant Distinct(pairs)
      invariant |pairs| == |pairs0| + |futuresDone|
      decreases |futuresTodo|
    {
      var futuresExchange :| futuresExchange in futuresTodo;
      assert futuresExchange !in futuresDone;
      futuresTodo := futuresTodo - {futuresExchange};
      if FUTURES !in m[futuresExchange] || symbol !in m[futuresExchange][FUTURES] {
        continue;
      }
      var pair := Pair(symbol, spotExchange, futuresExchange);
      assert pair !in pairs;
      pairs := pairs + [pair];
      futuresDone := futuresDone + {futuresExchange};
    }
    assert futuresDone == VenuesWith(m, FUTURES);
  }

  lemma MulSucc(k: int, c: int)
    ensures (k + 1) * c == k * c + c
  {
  }

  lemma MulAssoc(a: int, b: int, c: int)
    ensures a * (b * c) == a * b * c
  {
  }

  lemma InAllAppend(s: string, sets: seq<set<string>>, t: set<string>)
    ensures InAll(s, sets + [t]) <==> InAll(s, sets) && s in t
  {
    if InAll(s, sets) && s in t {
      forall j | 0 <= j < |sets + [t]|
        ensures s in (sets + [t])[j]
      {
        if j < |sets| {
          assert (sets + [t])[j] == sets[j];
        }
      }
    }
    if InAll(s, sets + [t]) {
      assert (sets + [t])[|sets|] == t;
      forall j | 0 <= j < |sets|
        ensures s in sets[j]
      {
        assert (sets + [t])[j] == sets[j];
      }
    }
  }

  lemma ListedByAllAdd(m: SymbolMap, venues: set<string>, a: string, kind: string, s: string)
    requires a in m
    ensures ListedByAll(m, venues + {a}, kind, s)
        <==> ListedByAll(m, venues, kind, s) && (kind in m[a] ==> s in m[a][kind])
  {
  }
}
