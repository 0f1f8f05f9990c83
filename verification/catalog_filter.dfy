/**
 * Catalog filtering (symbols_universe.py, _filter_symbols): keep the markets
 * of one venue catalog that are active (when asked) and quoted in the wanted
 * currency, and return their normalised names as a list, in catalog order.
 */
module CatalogFilter {
  import opened Options
  import opened Normalizer

  /** The `active` entry of a market's metadata: absent, present but null, or a flag. */
  datatype ActiveField = Missing | Null | Flag(value: bool)

  /** The metadata the filter reads; a `quote` of `None` is an absent key. */
  datatype MarketMeta = MarketMeta(active: ActiveField, quote: Option<string>)

  /** One catalog entry: the venue's raw spelling and its metadata. */
  datatype Market = Market(symbol: string, meta: MarketMeta)

  /** A venue catalog, in the insertion order of the venue's dictionary. */
  type Catalog = seq<Market>

  /** The truth value of `meta.get("active", True)`: an absent key reads as active, a null as inactive. */
  predicate IsActive(a: ActiveField): (r: bool)
    ensures !r <==> a == Null || a == Flag(false)
  {
    match a
    case Missing => true
    case Null => false
    case Flag(b) => b
  }

  /** `meta.get("quote", "")`. */
  function QuoteOf(meta: MarketMeta): (r: string)
    ensures meta.quote.Some? ==> r == meta.quote.value
    ensures meta.quote.None? ==> r == ""
  {
    match meta.quote
    case None => ""
    case Some(q) => q
  }

  /** The two guards of the filter loop: activity (only when `onlyActive`) and a case-insensitive quote match. */
  predicate Passes(m: Market, quote: string, onlyActive: bool): (r: bool)
    ensures r ==> Upper(QuoteOf(m.meta)) == Upper(quote)
    ensures onlyActive && (m.meta.active == Null || m.meta.active == Flag(false)) ==> !r
    ensures !onlyActive ==> (r <==> Upper(QuoteOf(m.meta)) == Upper(quote))
    ensures IsActive(m.meta.active) ==> (r <==> Upper(QuoteOf(m.meta)) == Upper(quote))
  {
    && (!onlyActive || IsActive(m.meta.active))
    && Upper(QuoteOf(m.meta)) == Upper(quote)
  }

  /** The list the filter builds: one normalised name per passing entry, appended in catalog order. */
  function Filtered(catalog: Catalog, quote: string, onlyActive: bool): (r: seq<string>)
    ensures |r| <= |catalog|
  {
    if catalog == [] then []
    else
      var last := catalog[|catalog| - 1];
      Filtered(catalog[..|catalog| - 1], quote, onlyActive)
        + (if Passes(last, quote, onlyActive) then [NormalizeSymbol(last.symbol)] else [])
  }

  method FilterSymbols(markets: Catalog, quote: string, onlyActive: bool) returns (symbols: seq<string>)
    ensures symbols == Filtered(markets, quote, onlyActive)
  {
    symbols := [];
    for i := 0 to |markets|
      invariant symbols == Filtered(markets[..i], quote, onlyActive)
    {
      var market := markets[i];
      assert markets[..i + 1][..i] == markets[..i];
      if onlyActive && !IsActive(market.meta.active) {
        continue;
      }
      if Upper(QuoteOf(market.meta)) != Upper(quote) {
        continue;
      }
      symbols := symbols + [NormalizeSymbol(market.symbol)];
    }
    assert markets[..|markets|] == markets;
  }

  /** A catalog of one entry yields that entry's normalised name when it passes, and nothing otherwise. */
  lemma FilteredSingle(m: Market, quote: string, onlyActive: bool)
    ensures Filtered([m], quote, onlyActive) == if Passes(m, quote, onlyActive) then [NormalizeSymbol(m.symbol)] else []
  {
    assert [m][..0] == [];
  }

  /**
   * Filtering a catalog made of two parts gives the first part's names followed
   * by the second part's: with FilteredSingle, the output holds one name per
   * passing entry, in catalog order, and keeps duplicates.
   */
  lemma {:induction false} FilteredAppend(a: Catalog, b: Catalog, quote: string, onlyActive: bool)
    ensures Filtered(a + b, quote, onlyActive) == Filtered(a, quote, onlyActive) + Filtered(b, quote, onlyActive)
  {
    if b == [] {
      assert a + b == a;
    } else {
      var n := |b| - 1;
      assert (a + b)[..|a + b| - 1] == a + b[..n];
      FilteredAppend(a, b[..n], quote, onlyActive);
    }
  }

  /** Entry `i` of `catalog` passes the filter and normalises to `s`. */
  ghost predicate Contributes(catalog: Catalog, i: int, s: string, quote: string, onlyActive: bool) {
    0 <= i < |catalog| && Passes(catalog[i], quote, onlyActive) && NormalizeSymbol(catalog[i].symbol) == s
  }

  /** A name is in the output exactly when some passing entry normalises to it. */
  lemma {:induction false} FilteredMembership(catalog: Catalog, quote: string, onlyActive: bool, s: string)
    ensures s in Filtered(catalog, quote, onlyActive) <==> exists i :: Contributes(catalog, i, s, quote, onlyActive)
  {
    if catalog != [] {
      var n := |catalog| - 1;
      var prefix := catalog[..n];
      var tail := if Passes(catalog[n], quote, onlyActive) then [NormalizeSymbol(catalog[n].symbol)] else [];
      assert Filtered(catalog, quote, onlyActive) == Filtered(prefix, quote, onlyActive) + tail;
      FilteredMembership(prefix, quote, onlyActive, s);
      if s in Filtered(catalog, quote, onlyActive) {
        if s in tail {
          assert Contributes(catalog, n, s, quote, onlyActive);
        } else {
          var i :| Contributes(prefix, i, s, quote, onlyActive);
          assert catalog[i] == prefix[i];
          assert Contributes(catalog, i, s, quote, onlyActive);
        }
      }
      if exists i :: Contributes(catalog, i, s, quote, onlyActive) {
        var i :| Contributes(catalog, i, s, quote, onlyActive);
        if i < n {
          assert prefix[i] == catalog[i];
          assert Contributes(prefix, i, s, quote, onlyActive);
        } else {
          assert i == n && Passes(catalog[n], quote, onlyActive);
          assert tail == [s];
        }
      }
    }
  }

  /**
   * Turning `onlyActive` on can only remove names; when every entry is
   * active it removes none.
   */
  lemma {:induction false} OnlyActiveNarrows(catalog: Catalog, quote: string)
    ensures multiset(Filtered(catalog, quote, true)) <= multiset(Filtered(catalog, quote, false))
    ensures (forall i :: 0 <= i < |catalog| ==> IsActive(catalog[i].meta.active))
        ==> Filtered(catalog, quote, true) == Filtered(catalog, quote, false)
  {
    if catalog != [] {
      var prefix := catalog[..|catalog| - 1];
      OnlyActiveNarrows(prefix, quote);
      assert forall i :: 0 <= i < |prefix| ==> prefix[i] == catalog[i];
    }
  }

  /**
   * Two entries that pass and share a normal form both survive the filter:
   * the output is a list, not a set.
   */
  lemma FilterKeepsDuplicates(a: Market, b: Market, quote: string, onlyActive: bool)
    requires Passes(a, quote, onlyActive) && Passes(b, quote, onlyActive)
    requires NormalizeSymbol(a.symbol) == NormalizeSymbol(b.symbol)
    ensures Filtered([a, b], quote, onlyActive) == [NormalizeSymbol(a.symbol), NormalizeSymbol(a.symbol)]
  {
    FilteredSingle(a, quote, onlyActive);
    FilteredSingle(b, quote, onlyActive);
    FilteredAppend([a], [b], quote, onlyActive);
    assert [a] + [b] == [a, b];
  }

  /**
   * `BTC/USDT` and `BTC-USDT`, quoted in `usdt` with no `active` entry, both
   * pass a `USDT` filter, and the list holds `BTCUSDT` twice.
   */
  lemma DuplicateSpellingsExample(a: Market, b: Market)
    requires a == Market("BTC/USDT", MarketMeta(Missing, Some("usdt")))
    requires b == Market("BTC-USDT", MarketMeta(Missing, Some("usdt")))
    ensures Filtered([a, b], "USDT", true) == ["BTCUSDT", "BTCUSDT"]
  {
    QuoteCaseExample();
    NormalizeExamples();
    assert Passes(a, "USDT", true) && Passes(b, "USDT", true);
    FilterKeepsDuplicates(a, b, "USDT", true);
  }

  lemma QuoteCaseExample()
    ensures Upper("usdt") == "USDT" == Upper("USDT")
  {
  }
}
