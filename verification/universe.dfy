/**
 * Universe building (symbols_universe.py, _symbols_for_exchange and
 * build_symbol_map): for every configured exchange, the filtered symbol list of
 * each enabled market kind.  The venue catalog fetch is the parameter `catalog`.
 */
module Universe {
  import opened MarketTypes
  import opened CatalogFilter

  datatype MarketToggle = MarketToggle(spot: bool, futures: bool)
  datatype ExchangeConfig = ExchangeConfig(name: string, id: string, markets: MarketToggle)
  datatype FilterConfig = FilterConfig(quote: string, onlyActive: bool)
  datatype ArbitrageConfig = ArbitrageConfig(minSpreadPercent: real)
  datatype AppConfig = AppConfig(exchanges: seq<ExchangeConfig>, filters: FilterConfig, arbitrage: ArbitrageConfig)

  /** Market kind to symbol list, for one exchange. */
  type Markets = map<string, seq<string>>

  /** Exchange id to that exchange's markets. */
  type SymbolMap = map<string, Markets>

  /** The catalog a venue client returns for (exchange id, market kind). */
  type CatalogSource = (string, string) -> Catalog

  /**
   * `r` is the universe of exchange `cfg`: a key per enabled kind and no other
   * key, each holding the filtered catalog of that kind.
   */
  ghost predicate IsExchangeUniverse(r: Markets, cfg: ExchangeConfig, filters: FilterConfig, catalog: CatalogSource) {
    && r.Keys <= {SPOT, FUTURES}
    && (SPOT in r <==> cfg.markets.spot)
    && (FUTURES in r <==> cfg.markets.futures)
    && (SPOT in r ==> r[SPOT] == Filtered(catalog(cfg.id, SPOT), filters.quote, filters.onlyActive))
    && (FUTURES in r ==> r[FUTURES] == Filtered(catalog(cfg.id, FUTURES), filters.quote, filters.onlyActive))
  }

  method SymbolsForExchange(cfg: ExchangeConfig, filters: FilterConfig, catalog: CatalogSource) returns (results: Markets)
    ensures IsExchangeUniverse(results, cfg, filters, catalog)
  {
    results := map[];
    if cfg.markets.spot {
      var spot := FilterSymbols(catalog(cfg.id, SPOT), filters.quote, filters.onlyActive);
      results := results[SPOT := spot];
    }
    if cfg.markets.futures {
      var futures := FilterSymbols(catalog(cfg.id, FUTURES), filters.quote, filters.onlyActive);
      results := results[FUTURES := futures];
    }
  }

  /** No configuration after position `k` and before `n` has the id of `exchanges[k]`. */
  ghost predicate LastWithIdBefore(exchanges: seq<ExchangeConfig>, k: int, n: int)
    requires 0 <= k < n <= |exchanges|
  {
    forall j :: k < j < n ==> exchanges[j].id != exchanges[k].id
  }

  /**
   * The symbol map has one entry per configured id; when an id is configured
   * more than once, the last configuration decides its entry.
   */
  method BuildSymbolMap(config: AppConfig, catalog: CatalogSource) returns (all: SymbolMap)
    ensures forall j :: 0 <= j < |config.exchanges| ==> config.exchanges[j].id in all
    ensures forall id :: id in all ==> exists j :: 0 <= j < |config.exchanges| && config.exchanges[j].id == id
    ensures forall k :: 0 <= k < |config.exchanges| && LastWithIdBefore(config.exchanges, k, |config.exchanges|) ==>
              IsExchangeUniverse(all[config.exchanges[k].id], config.exchanges[k], config.filters, catalog)
  {
    var exchanges := config.exchanges;
    all := map[];
    for i := 0 to |exchanges|
      invariant forall j :: 0 <= j < i ==> exchanges[j].id in all
      invariant forall id :: id in all ==> exists j :: 0 <= j < i && exchanges[j].id == id
      invariant forall k :: 0 <= k < i && LastWithIdBefore(exchanges, k, i) ==>
                  IsExchangeUniverse(all[exchanges[k].id], exchanges[k], config.filters, catalog)
    {
      var markets := SymbolsForExchange(exchanges[i], config.filters, catalog);
      ghost var prev := all;
      all := all[exchanges[i].id := markets];
      forall k | 0 <= k < i + 1 && LastWithIdBefore(exchanges, k, i + 1)
        ensures IsExchangeUniverse(all[exchanges[k].id], exchanges[k], config.filters, catalog)
      {
        if k < i {
          assert exchanges[i].id != exchanges[k].id;
          assert LastWithIdBefore(exchanges, k, i);
          assert all[exchanges[k].id] == prev[exchanges[k].id];
        } else {
          assert all[exchanges[k].id] == markets;
        }
      }
    }
  }
}
