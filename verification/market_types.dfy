/** The two market kinds and the per-exchange default derivative type (market_types.py). */
module MarketTypes {

  const SPOT: string := "spot"
  const FUTURES: string := "futures"

  /** The two kinds are distinct, so a market map can hold both keys at once. */
  lemma KindsDistinct()
    ensures SPOT == "spot" && FUTURES == "futures" && SPOT != FUTURES
  {
  }

  /** The `defaultType` a futures client of exchange `exchangeId` is configured with. */
  function FuturesDefaultType(exchangeId: string): (r: string)
    ensures r == "swap" || r == "future"
    ensures r == "swap" <==> exchangeId in {"binance", "mexc", "bingx", "okx"}
  {
    if exchangeId in {"binance", "mexc", "bingx"} then "swap"
    else if exchangeId == "okx" then "swap"
    else "future"
  }
}
