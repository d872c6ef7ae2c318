/** The fixed lookup from a seat's price tier to its price. */
module PriceTiers {

  /** The tier table; every price is a whole amount. */
  const PriceTable: map<int, int> := map[1 := 50, 2 := 75, 3 := 100, 4 := 150, 5 := 200]

  /** Highest price in the table. */
  const MaxPrice := 200

  /** The price of `tier`. A tier missing from the table reads as undefined,
      which the `|| 0` default turns into 0, as it would a stored 0. */
  function PriceForTier(tier: int): (price: int)
    ensures 0 <= price <= MaxPrice
    ensures price > 0 <==> 1 <= tier <= 5
    ensures tier == 1 ==> price == 50
    ensures tier == 2 ==> price == 75
    ensures tier == 3 ==> price == 100
    ensures tier == 4 ==> price == 150
    ensures tier == 5 ==> price == 200
  {
    if tier in PriceTable && PriceTable[tier] != 0 then PriceTable[tier] else 0
  }

  /** Over the known tiers 1..5 a higher tier always costs strictly more. */
  lemma PricesIncreaseWithTier(lo: int, hi: int)
    requires 1 <= lo < hi <= 5
    ensures PriceForTier(lo) < PriceForTier(hi)
  {
  }
}
