/** Worked cases of the TypeScript pipeline on concrete inputs. */
module ScraperUtilsCases {
  import opened Optional
  import opened Text
  import opened Numbers
  import opened Listing
  import opened ScraperUtils

  /** A peso listing of 5000000 and a dollar listing of 20000 at the fallback
      rate are priced 5000000 and 23100000. */
  lemma TwoListingsPrices(a: Row, b: Row)
    requires a.bruto == 5000000 && !a.esUsd
    requires b.bruto == 20000 && b.esUsd
    ensures Convert([a, b], FallbackRate) == [PricedRow(a, 5000000.0), PricedRow(b, 23100000.0)]
  {
  }

  /** Their statistics: mean 14050000, prices from 5000000 to 23100000, and
      distances from the smaller to the larger. */
  lemma TwoListingsStats(a: Row, b: Row)
    requires a.km == 10000 && b.km == 30000
    ensures Summarise([PricedRow(a, 5000000.0), PricedRow(b, 23100000.0)])
            == Stats(14050000, 5000000.0, 23100000.0, 10000, 30000)
  {
    var d := [PricedRow(a, 5000000.0), PricedRow(b, 23100000.0)];
    var pos := [5000000.0, 23100000.0];
    assert Prices(d) == pos;
    assert Positive(pos) == pos;
    assert pos[1..] == [23100000.0];
    assert Sum([23100000.0]) == 23100000.0 + Sum([]);
    assert Sum(pos) == 28100000.0;
    assert JsRound(Sum(pos) / 2.0) == 14050000;
    assert MinOf(pos) == 5000000.0 && MaxOf(pos) == 23100000.0;
    var kms := [10000, 30000];
    assert Kms(d) == kms;
    assert kms[1..] == [30000];
    assert MinInt(kms) == 10000 && MaxInt(kms) == 30000;
  }
}
