# Spot/futures arbitrage scanner — a Dafny model

This project models the core of a scanner for crypto spot/futures arbitrage. The scanner works in stages:

- It normalises the symbols of each venue catalog, for example `BTC/USDT` and `BTC-USDT` both become `BTCUSDT`.
- It keeps the active markets quoted in the configured currency.
- It builds a symbol map: exchange id → market kind (`spot`, `futures`) → symbol list.
- It finds the symbols that every spot list and every futures list share.
- It enumerates every (symbol, spot exchange, futures exchange) triple.
- Finally it scans a price store. For each pair it computes the percentage spread `(futures bid − spot ask) / spot ask × 100` and reports the pair when the spread reaches the threshold.

The modules follow the repository's files:

| module | file | form |
|---|---|---|
| `MarketTypes` | `market_types.dfy` | constants and a pure mapping |
| `Normalizer` | `normalizer.dfy` | pure functions |
| `CatalogFilter` | `catalog_filter.dfy` | a filtering loop proved against a recursive function |
| `Universe` | `universe.dfy` | methods that fill maps step by step |
| `PairGenerator` | `pair_generator.dfy` | loops over sets proved against set definitions |
| `Prices` | `prices.dfy` | a `PriceStore` class holding a `map` |
| `SpreadScanner` | `spread_scanner.dfy` | a scanning loop proved against a recursive function |
| `Options` | `options.dfy` | the `Option` datatype |

How the model departs from, or sharpens, the source:

- **The venue catalog is a parameter.** `catalog(exchangeId, kind)` stands for creating the client and calling `load_markets`.
- **A market's `active` entry has three readings.** It may be absent (active), `null` (inactive) or a flag. This matches `meta.get("active", True)`.
- **A missing `quote` reads as the empty string.**
- **The filter returns a list, not a set.** The code appends one name per passing catalog entry. So two spellings of one market, `BTC/USDT` and `BTC-USDT`, yield `BTCUSDT` twice, and the model keeps both, as the code does.
- **The symbol map has no failure path.** `build_symbol_map` does not catch anything: a catalog that cannot be loaded aborts the whole build. The model therefore has no per-exchange skip.
- **A zero spot ask is a division by zero.** `_calc_spread` divides by the spot ask with no guard, so a zero ask raises `ZeroDivisionError` and ends the scan. The ticker loop in `main.py` drops only `None` bids and asks, so a zero ask can reach the store. `ScanSpreads` follows the code and returns `DivisionByZero(reported, at)`: the lines printed before the fault, and the pair that raised. The guarded scan that treats such a pair as skipped is modelled beside it (see Findings).
- **Python set iteration has no fixed order.** Loops over sets pick their next element with `:|`. The properties of `CommonTradables` and `SpotFuturesPairs` are stated as set, uniqueness and count facts, never as a sequence order.
- **The printed lines become data.** `scan_spreads` prints one line per reported pair. `ScanSpreads` returns those lines as `Match` values, in order.

## Model

| member | source | states |
|---|---|---|
| MarketTypes.KindsDistinct | market_types.py:1-2 | the two market kinds are `"spot"` and `"futures"` and differ |
| MarketTypes.FuturesDefaultType | market_types.py:5-10 | the result is `"swap"` or `"future"`; it is `"swap"` exactly for binance, mexc, bingx and okx |
| Normalizer.UpperChar | symbols_universe.py:13 | one character upper-cased: the result is never a lower-case ASCII letter, is an upper-case letter iff the input is a letter of either case, a lower-case letter becomes its own capital (same place in the alphabet), and any non-lower-case character is kept |
| Normalizer.Upper | symbols_universe.py:13 | upper-casing keeps the length and maps each character through ASCII upper-casing |
| Normalizer.RemoveAll | symbols_universe.py:13 | `replace(c, "")` leaves no `c`, introduces no character and never lengthens the string |
| Normalizer.NormalizeSymbol | symbols_universe.py:12-13 | the normal form contains no `/` and no `-`, is all upper case and is no longer than the input |
| Normalizer.RemoveAllAbsent | symbols_universe.py:13 | removing a character that does not occur changes nothing |
| Normalizer.RemoveAllAppend | symbols_universe.py:13 | removal distributes over concatenation |
| Normalizer.UpperAppend | symbols_universe.py:13 | upper-casing distributes over concatenation |
| Normalizer.NormalizeIdempotent | symbols_universe.py:12-13 | normalising twice equals normalising once |
| Normalizer.NormalizeAppend | symbols_universe.py:12-13 | normalisation distributes over concatenation |
| Normalizer.NormalizeIgnoresSeparator | symbols_universe.py:12-13 | inserting a `/` or `-` anywhere does not change the normal form |
| Normalizer.NormalizeFixedPoint | symbols_universe.py:12-13 | a separator-free upper-case symbol is its own normal form |
| Normalizer.NormalizeExamples | symbols_universe.py:12-13 | `BTC/USDT`, `BTC-USDT` and `BTCUSDT` all normalise to `BTCUSDT` |
| Normalizer.CapitalsOf | symbols_universe.py:13 | a word of lower-case letters upper-cases to the same letters in capitals |
| Normalizer.LowerCaseExample | symbols_universe.py:12-13 | the lower-case spelling `btc/usdt` normalises to `BTCUSDT` |
| Normalizer.SeparatedExample | symbols_universe.py:12-13 | `BTC` + separator + `USDT` normalises to `BTCUSDT` for either separator |
| CatalogFilter.IsActive | symbols_universe.py:23 | `meta.get("active", True)` is falsy exactly when the entry is `null` or `false`; an absent entry counts as active |
| CatalogFilter.QuoteOf | symbols_universe.py:25 | `meta.get("quote", "")` is the stored quote when present and the empty string when absent |
| CatalogFilter.Passes | symbols_universe.py:23-26 | an entry passes only if its upper-cased quote equals the upper-cased filter quote; with `onlyActive` a null or false `active` entry never passes; without `onlyActive`, or for an active entry (including one with no `active` key), the quote test alone decides |
| CatalogFilter.Filtered | symbols_universe.py:20-28 | the filtered list is no longer than the catalog; the per-entry fact (one name or none for each entry, in order) comes from `FilteredSingle` with `FilteredAppend` |
| CatalogFilter.FilterSymbols | symbols_universe.py:20-28 | the loop returns exactly the filtered list: the normalised names of the passing entries, in catalog order |
| CatalogFilter.FilteredSingle | symbols_universe.py:22-27 | one entry yields its normalised name when it passes the activity and quote guards, and nothing otherwise |
| CatalogFilter.FilteredAppend | symbols_universe.py:20-28 | filtering a concatenation is the concatenation of the filtered parts, so output order follows catalog order |
| CatalogFilter.FilteredMembership | symbols_universe.py:20-28 | a name is in the output iff some passing entry normalises to it |
| CatalogFilter.OnlyActiveNarrows | symbols_universe.py:23-24 | the only-active output is a sub-multiset of the unrestricted output, and equal to it when every entry is active |
| CatalogFilter.FilterKeepsDuplicates | symbols_universe.py:20-28 | two passing entries with the same normal form both appear in the list: duplicates are kept |
| CatalogFilter.DuplicateSpellingsExample | symbols_universe.py:20-28 | `BTC/USDT` and `BTC-USDT` quoted in `usdt` both pass a `USDT` filter, and the list holds `BTCUSDT` twice |
| CatalogFilter.QuoteCaseExample | symbols_universe.py:25-26 | the quote comparison is case-insensitive: `usdt` and `USDT` upper-case to the same string |
| Universe.SymbolsForExchange | symbols_universe.py:31-40 | the result has a spot key iff spot is enabled and a futures key iff futures is enabled, no other key, and each holds the filtered catalog of that kind |
| Universe.BuildSymbolMap | symbols_universe.py:43-47 | there is exactly one entry per configured id, and the last configuration with a given id decides that entry |
| PairGenerator.Common | symbols_universe.py:50-62 | a symbol is common iff some exchange has spot, some has futures, and every spot list and every futures list holds it |
| PairGenerator.IntersectAll | symbols_universe.py:60-61 | `set.intersection(*sets)` holds exactly the elements that are in every set |
| PairGenerator.ToSet | symbols_universe.py:55-57 | `set(xs)` holds exactly the elements of the list |
| PairGenerator.CommonTradables | symbols_universe.py:50-62 | the loop computes exactly the common set, and it is empty when no exchange has spot or none has futures |
| PairGenerator.NoVenueNoCommon | symbols_universe.py:58-59 | an empty list of spot sets or of futures sets means there is no common symbol |
| PairGenerator.CommonOfSets | symbols_universe.py:60-62 | with both families non-empty, the intersection of the two intersections is the common set |
| PairGenerator.SpotFuturesPairs | symbols_universe.py:65-81 | a triple is emitted iff its symbol is common, its spot leg lists it as spot and its futures leg lists it as futures (one exchange may be both legs); no triple is emitted twice; the count is common × spot venues × futures venues |
| PairGenerator.AddSymbolPairs | symbols_universe.py:70-80 | for one common symbol, the loop appends exactly its valid triples, each once, spot venues × futures venues in number |
| PairGenerator.AddLegPairs | symbols_universe.py:75-80 | for one symbol and one spot leg, the loop appends exactly one triple per futures venue listing the symbol |
| Prices.Lookup | prices.py:23-24 | a key reads as present iff it was stored, and then as the stored price; a missing key is `None`, never a made-up price |
| Prices.ApplyAll | prices.py:20-21 | a series of `update` calls, each the map update of `PriceStore.Update`: afterwards a key is present iff it was present before or some write was to it |
| Prices.LastWriteTo | prices.py:20-21 | finds the position of the last write to a key, or reports that no write touched it |
| Prices.LastWriteWins | prices.py:20-21 | after a series of updates, a key reads as the price of the last write to it, or as before when no write touched it |
| Prices.WritesElsewhere | prices.py:21 | updates to other keys leave a key's lookup unchanged |
| Prices.PriceStore.constructor | prices.py:17-18 | a fresh store is empty and every lookup answers `None` |
| Prices.PriceStore.Update | prices.py:20-21 | the updated key reads as exactly the given bid, ask and timestamp; every other key reads as before |
| Prices.PriceStore.Get | prices.py:23-24 | answers the stored price iff the key is present; the method has no `modifies` clause, so the store is not changed |
| SpreadScanner.CalcSpread | arb_spot_futures.py:7-8 | for a non-zero spot price, spread × spot = (futures − spot) × 100 |
| SpreadScanner.SpreadSign | arb_spot_futures.py:7-8 | for a positive spot price, the spread is ≥ 0 iff futures ≥ spot, and > 0 iff futures > spot |
| SpreadScanner.SpreadMonotonic | arb_spot_futures.py:7-8 | for a positive spot price, a higher futures price never gives a lower spread |
| SpreadScanner.Evaluate | arb_spot_futures.py:17-22 | a pair is skipped iff a leg has no quote; it faults iff both legs are quoted and the ask is zero; otherwise it is reported, with its ask, bid and spread, iff the spread ≥ threshold |
| SpreadScanner.Scan | arb_spot_futures.py:16-25 | a scan reports no more lines than there are pairs, and a fault names a scanned pair; the per-pair fact (one line or none for each pair, in order) comes from `ScanSingle` with `ScanAppend` |
| SpreadScanner.ScanSpreads | arb_spot_futures.py:11-25 | the loop, reading both legs through `Get`, returns exactly the scan of the pairs, including the stop at a zero ask; it has no `modifies` clause, so the store is only read |
| SpreadScanner.ScanSingle | arb_spot_futures.py:16-25 | one pair contributes its line when reported, nothing when skipped or below the threshold, and a fault when its ask is zero |
| SpreadScanner.ScanAppend | arb_spot_futures.py:16-25 | scanning is sequential: the lines of `a + b` are those of `a` followed by those of `b`, and a fault in `a` ends the scan |
| SpreadScanner.SkipUnquoted | arb_spot_futures.py:17-20 | removing a pair that has a missing leg does not change the outcome |
| SpreadScanner.ScanFaults | arb_spot_futures.py:8 | the scan faults iff some quoted pair has a zero spot ask, and it faults at the first such pair |
| SpreadScanner.ReportedMeetThreshold | arb_spot_futures.py:21-25 | every reported line belongs to a scanned pair and carries that pair's current ask and bid; its spread is the formula's value and ≥ threshold |
| SpreadScanner.ThresholdInclusive | arb_spot_futures.py:21-22 | ask 100 against bid 101 is a spread of exactly 1.0, and it is reported at threshold 1.0 |
| SpreadScanner.ZeroAskStopsScan | arb_spot_futures.py:8 | as written, a quoted pair with a zero ask placed before a pair that would be reported ends the scan with no line at all |
| SpreadScanner.GuardedScan | arb_spot_futures.py:16-25 | the scan with a zero-ask guard always completes and reports no more lines than there are pairs |
| SpreadScanner.GuardedScanSingle | arb_spot_futures.py:16-25 | under the guard one pair contributes its line when reported and nothing otherwise, never a fault |
| SpreadScanner.GuardedScanAppend | arb_spot_futures.py:16-25 | the guarded scan is sequential: the lines of `a + b` are those of `a` followed by those of `b` |
| SpreadScanner.GuardedSkipsZeroAsk | arb_spot_futures.py:21 | under the guard, removing a zero-ask pair does not change the outcome |
| SpreadScanner.GuardedScanAgrees | arb_spot_futures.py:16-25 | the scan as written equals the guarded scan exactly when no quoted pair has a zero spot ask |

## Findings

| source | as written | input that shows it | evidently intended | confidence | as-written member | corrected member |
|---|---|---|---|---|---|---|
| arb_spot_futures.py:8 | `_calc_spread` divides by the spot ask with no guard, and line 21 calls it for every pair with both quotes present, so a zero ask raises `ZeroDivisionError` and ends the scan | a store where pair `p` has spot ask 0.0 and pair `q` has ask 100, bid 101, scanned as `[p, q]` at threshold 1.0: no line at all, although `q` alone is reported | a pair whose spot ask is zero yields no line and the scan goes on | not executed | SpreadScanner.ZeroAskStopsScan | SpreadScanner.GuardedScanAgrees |

`SpreadScanner.Scan`, `SpreadScanner.ScanFaults` and `SpreadScanner.ScanSpreads` keep the code's behaviour. `SpreadScanner.GuardedScan` is the corrected scan, and `GuardedScanAgrees` shows that the two differ only when some quoted pair has a zero ask.

## Left out

- Network calls are not modelled. This covers `_load_markets` (symbols_universe.py:16-17), `create_client` and the futures client's `options` assignment (symbols_universe.py:34-38). The catalog parameter stands for all of them, and `FuturesDefaultType` is modelled on its own.
- Normalizer.Upper: models ASCII upper-casing only. Python's `str.upper` also maps non-ASCII letters, and some of those mappings change the length.
- CatalogFilter.QuoteOf: a `quote` key that is present but `null` makes the source raise `AttributeError`. The model has no such case.
- Iteration order is not modelled. Catalogs keep dictionary insertion order as a sequence. Symbol and exchange loops take elements in an unspecified order, so the order of the pair list is not stated.
- Reals stand in for floats. Floating-point rounding, `float()` conversion and the `:.4f`/`:.2f` formatting of printed lines are not modelled.
- `main.py` is not part of this model. That includes `update_prices` (ticker fetching, timestamps, exception handling) and the orchestration.
- `config_loader.py` and `exchanges_registry.py` are not part of this model. The configuration appears only as the `AppConfig` datatype.
- The `PriceStore` writes of `update_prices` are not modelled as a loop. `Prices.ApplyAll` stands for any series of `Update` calls.
- There is no concurrency in the source, and none is modelled.
