/**
 * Spread scanning (arb_spot_futures.py): for every monitored pair, read the
 * spot ask and the futures bid from the price store, compute the percentage
 * spread and report the pair when the spread reaches the threshold.
 */
module SpreadScanner {
  import opened Options
  import opened MarketTypes
  import opened Prices
  import opened PairGenerator

  /** Percentage by which the futures price exceeds the spot price. */
  function CalcSpread(spotPrice: real, futuresPrice: real): (r: real)
    requires spotPrice != 0.0
    ensures r * spotPrice == (futuresPrice - spotPrice) * 100.0
  {
    (futuresPrice - spotPrice) / spotPrice * 100.0
  }

  /** For a positive spot price the spread is non-negative exactly when futures are at or above spot. */
  lemma SpreadSign(spotPrice: real, futuresPrice: real)
    requires spotPrice > 0.0
    ensures CalcSpread(spotPrice, futuresPrice) >= 0.0 <==> futuresPrice >= spotPrice
    ensures CalcSpread(spotPrice, futuresPrice) > 0.0 <==> futuresPrice > spotPrice
  {
    var r := CalcSpread(spotPrice, futuresPrice);
    PositiveFactor(r, spotPrice, futuresPrice - spotPrice);
  }

  /** For a positive spot price the spread grows with the futures price. */
  lemma SpreadMonotonic(spotPrice: real, f1: real, f2: real)
    requires spotPrice > 0.0 && f1 <= f2
    ensures CalcSpread(spotPrice, f1) <= CalcSpread(spotPrice, f2)
  {
    var r1, r2 := CalcSpread(spotPrice, f1), CalcSpread(spotPrice, f2);
    assert (r2 - r1) * spotPrice == (f2 - f1) * 100.0;
    PositiveFactor(r2 - r1, spotPrice, f2 - f1);
  }

  lemma PositiveFactor(r: real, s: real, d: real)
    requires s > 0.0 && r * s == d * 100.0
    ensures r >= 0.0 <==> d >= 0.0
    ensures r > 0.0 <==> d > 0.0
  {
    if r < 0.0 {
      assert r * s < 0.0;
    } else if r > 0.0 {
      assert r * s > 0.0;
    }
  }

  /** One reported opportunity: the printed line's fields. */
  datatype Match = Match(
    symbol: string,
    spotExchange: string,
    spotAsk: real,
    futuresExchange: string,
    futuresBid: real,
    spread: real)

  /** What one pair contributes to a scan. */
  datatype Step =
    | Skipped            // a leg has no quote yet
    | Quiet              // both legs quoted, spread below the threshold
    | Reported(m: Match) // both legs quoted, spread at or above the threshold
    | ZeroAsk            // the spot ask is zero: the spread divides by zero

  /** The store keys of the two legs of `p`. */
  function SpotKey(p: Pair): Key { Key(p.spotExchange, SPOT, p.symbol) }
  function FuturesKey(p: Pair): Key { Key(p.futuresExchange, FUTURES, p.symbol) }

  /** Both legs of `p` have a quote. */
  predicate Quoted(quotes: Quotes, p: Pair) {
    SpotKey(p) in quotes && FuturesKey(p) in quotes
  }

  /** The loop body for one pair. */
  function Evaluate(quotes: Quotes, p: Pair, minSpread: real): (r: Step)
    ensures r.Skipped? <==> !Quoted(quotes, p)
    ensures r.ZeroAsk? <==> Quoted(quotes, p) && quotes[SpotKey(p)].ask == 0.0
    ensures r.Reported? ==>
      && Quoted(quotes, p)
      && r.m == Match(p.symbol, p.spotExchange, quotes[SpotKey(p)].ask,
                      p.futuresExchange, quotes[FuturesKey(p)].bid, r.m.spread)
      && r.m.spread * r.m.spotAsk == (r.m.futuresBid - r.m.spotAsk) * 100.0
      && r.m.spread >= minSpread
    ensures r.Quiet? ==>
      && Quoted(quotes, p) && quotes[SpotKey(p)].ask != 0.0
      && CalcSpread(quotes[SpotKey(p)].ask, quotes[FuturesKey(p)].bid) < minSpread
  {
    var spot, futures := Lookup(quotes, SpotKey(p)), Lookup(quotes, FuturesKey(p));
    if spot.None? || futures.None? then Skipped
    else if spot.value.ask == 0.0 then ZeroAsk
    else
      var spread := CalcSpread(spot.value.ask, futures.value.bid);
      if spread >= minSpread then
        Reported(Match(p.symbol, p.spotExchange, spot.value.ask, p.futuresExchange, futures.value.bid, spread))
      else Quiet
  }

  /**
   * How a scan ends: it runs through all pairs, or it stops at the first pair
   * whose spot ask is zero (a division by zero), after reporting `reported`.
   */
  datatype ScanOutcome =
    | Completed(reported: seq<Match>)
    | DivisionByZero(reported: seq<Match>, at: Pair)

  /** The outcome of scanning `pairs` in order. */
  function Scan(quotes: Quotes, pairs: seq<Pair>, minSpread: real): (r: ScanOutcome)
    ensures |r.reported| <= |pairs|
    ensures r.DivisionByZero? ==> r.at in pairs
  {
    if pairs == [] then Completed([])
    else
      var last := pairs[|pairs| - 1];
      var prev := Scan(quotes, pairs[..|pairs| - 1], minSpread);
      if prev.DivisionByZero? then prev
      else
        match Evaluate(quotes, last, minSpread)
        case ZeroAsk => DivisionByZero(prev.reported, last)
        case Reported(m) => Completed(prev.reported + [m])
        case _ => prev
  }

  /** Walk the pairs, reading both legs from the store, and collect the lines printed. */
  method ScanSpreads(priceStore: PriceStore, pairs: seq<Pair>, minSpread: real) returns (outcome: ScanOutcome)
    ensures outcome == Scan(priceStore.quotes, pairs, minSpread)
  {
    var reported: seq<Match> := [];
    for i := 0 to |pairs|
      invariant Scan(priceStore.quotes, pairs[..i], minSpread) == Completed(reported)
    {
      var pair := pairs[i];
      assert pairs[..i + 1][..i] == pairs[..i];
      var spot := priceStore.Get(pair.spotExchange, SPOT, pair.symbol);
      var futures := priceStore.Get(pair.futuresExchange, FUTURES, pair.symbol);
      if spot.None? || futures.None? {
        continue;
      }
      if spot.value.ask == 0.0 {
        assert Scan(priceStore.quotes, pairs[..i + 1], minSpread) == DivisionByZero(reported, pair);
        ScanAppend(priceStore.quotes, pairs[..i + 1], pairs[i + 1..], minSpread);
        assert pairs[..i + 1] + pairs[i + 1..] == pairs;
        return DivisionByZero(reported, pair);
      }
      var spread := CalcSpread(spot.value.ask, futures.value.bid);
      if spread >= minSpread {
        reported := reported + [Match(pair.symbol, pair.spotExchange, spot.value.ask,
                                      pair.futuresExchange, futures.value.bid, spread)];
      }
    }
    assert pairs[..|pairs|] == pairs;
    return Completed(reported);
  }

  /** A single pair is reported exactly when it is quoted, its ask is non-zero and its spread meets the threshold. */
  lemma ScanSingle(quotes: Quotes, p: Pair, minSpread: real)
    ensures Scan(quotes, [p], minSpread) ==
      match Evaluate(quotes, p, minSpread)
      case ZeroAsk => DivisionByZero([], p)
      case Reported(m) => Completed([m])
      case _ => Completed([])
  {
    assert [p][..0] == [];
  }

  /**
   * Scanning is sequential: the scan of `a + b` is the scan of `a` followed by
   * the scan of `b`, unless `a` already stopped at a zero ask.
   */
  lemma {:induction false} ScanAppend(quotes: Quotes, a: seq<Pair>, b: seq<Pair>, minSpread: real)
    ensures Scan(quotes, a + b, minSpread) ==
      var ra := Scan(quotes, a, minSpread);
      var rb := Scan(quotes, b, minSpread);
      if ra.DivisionByZero? then ra
      else if rb.DivisionByZero? then DivisionByZero(ra.reported + rb.reported, rb.at)
      else Completed(ra.reported + rb.reported)
  {
    if b == [] {
      assert a + b == a;
    } else {
      var init := b[..|b| - 1];
      assert (a + b)[..|a + b| - 1] == a + init;
      assert (a + b)[|a + b| - 1] == b[|b| - 1];
      ScanAppend(quotes, a, init, minSpread);
    }
  }

  /** A pair with a missing leg changes nothing: it is skipped. */
  lemma SkipUnquoted(quotes: Quotes, a: seq<Pair>, p: Pair, b: seq<Pair>, minSpread: real)
    requires !Quoted(quotes, p)
    ensures Scan(quotes, a + [p] + b, minSpread) == Scan(quotes, a + b, minSpread)
  {
    ScanAppend(quotes, a + [p], b, minSpread);
    ScanAppend(quotes, a, [p], minSpread);
    ScanAppend(quotes, a, b, minSpread);
    ScanSingle(quotes, p, minSpread);
    assert Scan(quotes, a + [p], minSpread) == Scan(quotes, a, minSpread);
  }

  /** The scan stops with a division by zero exactly when some quoted pair has a zero spot ask, and it stops at the first one. */
  lemma {:induction false} ScanFaults(quotes: Quotes, pairs: seq<Pair>, minSpread: real)
    ensures Scan(quotes, pairs, minSpread).DivisionByZero? <==>
      exists i :: 0 <= i < |pairs| && HasZeroAsk(quotes, pairs, i)
    ensures Scan(quotes, pairs, minSpread).DivisionByZero? ==>
      exists i :: 0 <= i < |pairs| && HasZeroAsk(quotes, pairs, i) && pairs[i] == Scan(quotes, pairs, minSpread).at
        && forall j :: 0 <= j < i ==> !HasZeroAsk(quotes, pairs, j)
  {
    if pairs != [] {
      var n := |pairs| - 1;
      var init := pairs[..n];
      ScanFaults(quotes, init, minSpread);
      forall j | 0 <= j < n
        ensures HasZeroAsk(quotes, pairs, j) == HasZeroAsk(quotes, init, j)
      {
      }
      var prev := Scan(quotes, init, minSpread);
      if prev.DivisionByZero? {
        var i :| 0 <= i < n && HasZeroAsk(quotes, init, i) && init[i] == prev.at
          && forall j :: 0 <= j < i ==> !HasZeroAsk(quotes, init, j);
        assert HasZeroAsk(quotes, pairs, i);
      } else if HasZeroAsk(quotes, pairs, n) {
        assert forall j :: 0 <= j < n ==> !HasZeroAsk(quotes, pairs, j);
      } else {
        assert forall j :: 0 <= j < |pairs| ==> !HasZeroAsk(quotes, pairs, j);
      }
    }
  }

  /** Pair `i` is quoted with a zero spot ask. */
  predicate HasZeroAsk(quotes: Quotes, pairs: seq<Pair>, i: int)
    requires 0 <= i < |pairs|
  {
    Quoted(quotes, pairs[i]) && quotes[SpotKey(pairs[i])].ask == 0.0
  }

  /**
   * Every reported line belongs to a scanned pair, quotes its legs' current
   * prices, and its spread is the formula's value and meets the threshold.
   */
  lemma {:induction false} ReportedMeetThreshold(quotes: Quotes, pairs: seq<Pair>, minSpread: real)
    ensures forall m :: m in Scan(quotes, pairs, minSpread).reported ==> IsReport(quotes, pairs, minSpread, m)
  {
    if pairs != [] {
      var n := |pairs| - 1;
      ReportedMeetThreshold(quotes, pairs[..n], minSpread);
      forall m | m in Scan(quotes, pairs, minSpread).reported
        ensures IsReport(quotes, pairs, minSpread, m)
      {
        var prev := Scan(quotes, pairs[..n], minSpread);
        if m in prev.reported {
          var p :| p in pairs[..n] && ReportOf(quotes, p, m);
          assert p in pairs;
        } else {
          assert ReportOf(quotes, pairs[n], m);
        }
      }
    }
  }

  /** `m` is the line for pair `p` under the current quotes. */
  predicate ReportOf(quotes: Quotes, p: Pair, m: Match) {
    && Quoted(quotes, p)
    && m.symbol == p.symbol && m.spotExchange == p.spotExchange && m.futuresExchange == p.futuresExchange
    && m.spotAsk == quotes[SpotKey(p)].ask && m.futuresBid == quotes[FuturesKey(p)].bid
    && m.spotAsk != 0.0 && m.spread == CalcSpread(m.spotAsk, m.futuresBid)
  }

  /** `m` is a line some pair of `pairs` yields, and its spread meets the threshold. */
  predicate IsReport(quotes: Quotes, pairs: seq<Pair>, minSpread: real, m: Match) {
    (exists p :: p in pairs && ReportOf(quotes, p, m)) && m.spread >= minSpread
  }

  /** The threshold is inclusive: ask 100 against bid 101 is a 1% spread and is reported at a 1% threshold. */
  lemma ThresholdInclusive(quotes: Quotes, p: Pair)
    requires SpotKey(p) in quotes && quotes[SpotKey(p)].ask == 100.0
    requires FuturesKey(p) in quotes && quotes[FuturesKey(p)].bid == 101.0
    ensures Scan(quotes, [p], 1.0) == Completed([Match(p.symbol, p.spotExchange, 100.0, p.futuresExchange, 101.0, 1.0)])
  {
    ScanSingle(quotes, p, 1.0);
    assert CalcSpread(100.0, 101.0) == 1.0;
  }

  /**
   * As written, a zero spot ask ends the scan: in `[p, q]` with `p` quoted at
   * ask 0, the division by zero at `p` means `q` is never looked at, even when
   * `q` would be reported.
   */
  lemma ZeroAskStopsScan(quotes: Quotes, p: Pair, q: Pair, minSpread: real)
    requires Quoted(quotes, p) && quotes[SpotKey(p)].ask == 0.0
    requires Evaluate(quotes, q, minSpread).Reported?
    ensures Scan(quotes, [q], minSpread) == Completed([Evaluate(quotes, q, minSpread).m])
    ensures Scan(quotes, [p, q], minSpread) == DivisionByZero([], p)
  {
    ScanAppend(quotes, [p], [q], minSpread);
    ScanSingle(quotes, p, minSpread);
    ScanSingle(quotes, q, minSpread);
    assert [p] + [q] == [p, q];
  }

  /**
   * The evidently intended scan: a pair whose spot ask is zero gives no line
   * and does not stop the scan, like a pair with a missing leg.
   */
  function GuardedScan(quotes: Quotes, pairs: seq<Pair>, minSpread: real): (r: ScanOutcome)
    ensures r.Completed?
    ensures |r.reported| <= |pairs|
  {
    if pairs == [] then Completed([])
    else
      var prev := GuardedScan(quotes, pairs[..|pairs| - 1], minSpread);
      match Evaluate(quotes, pairs[|pairs| - 1], minSpread)
      case Reported(m) => Completed(prev.reported + [m])
      case _ => prev
  }

  /** The guarded scan of one pair: its line when reported, nothing otherwise, never a fault. */
  lemma GuardedScanSingle(quotes: Quotes, p: Pair, minSpread: real)
    ensures GuardedScan(quotes, [p], minSpread) ==
      match Evaluate(quotes, p, minSpread)
      case Reported(m) => Completed([m])
      case _ => Completed([])
  {
    assert [p][..0] == [];
  }

  /** The guarded scan is sequential: the lines of `a + b` are those of `a` followed by those of `b`. */
  lemma {:induction false} GuardedScanAppend(quotes: Quotes, a: seq<Pair>, b: seq<Pair>, minSpread: real)
    ensures GuardedScan(quotes, a + b, minSpread).reported ==
      GuardedScan(quotes, a, minSpread).reported + GuardedScan(quotes, b, minSpread).reported
  {
    if b == [] {
      assert a + b == a;
    } else {
      var init := b[..|b| - 1];
      assert (a + b)[..|a + b| - 1] == a + init;
      assert (a + b)[|a + b| - 1] == b[|b| - 1];
      GuardedScanAppend(quotes, a, init, minSpread);
    }
  }

  /** Under the guard a zero-ask pair is skipped: removing it does not change the outcome. */
  lemma GuardedSkipsZeroAsk(quotes: Quotes, a: seq<Pair>, p: Pair, b: seq<Pair>, minSpread: real)
    requires Quoted(quotes, p) && quotes[SpotKey(p)].ask == 0.0
    ensures GuardedScan(quotes, a + [p] + b, minSpread) == GuardedScan(quotes, a + b, minSpread)
  {
    GuardedScanAppend(quotes, a + [p], b, minSpread);
    GuardedScanAppend(quotes, a, [p], minSpread);
    GuardedScanAppend(quotes, a, b, minSpread);
    GuardedScanSingle(quotes, p, minSpread);
  }

  /**
   * The scan as written agrees with the guarded scan exactly when no quoted
   * pair has a zero spot ask; otherwise only the guarded scan completes.
   */
  lemma {:induction false} GuardedScanAgrees(quotes: Quotes, pairs: seq<Pair>, minSpread: real)
    ensures Scan(quotes, pairs, minSpread) == GuardedScan(quotes, pairs, minSpread) <==>
      forall i :: 0 <= i < |pairs| ==> !HasZeroAsk(quotes, pairs, i)
  {
    ScanFaults(quotes, pairs, minSpread);
    if pairs != [] && forall i :: 0 <= i < |pairs| ==> !HasZeroAsk(quotes, pairs, i) {
      var n := |pairs| - 1;
      forall j | 0 <= j < n
        ensures !HasZeroAsk(quotes, pairs[..n], j)
      {
        assert !HasZeroAsk(quotes, pairs, j);
      }
      GuardedScanAgrees(quotes, pairs[..n], minSpread);
      assert !HasZeroAsk(quotes, pairs, n);
    }
  }
}
