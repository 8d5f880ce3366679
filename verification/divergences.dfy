/** How the TypeScript pipeline (lib/scraper-utils.ts) and the Python one
    (api/scraper.py) relate: the inputs on which they agree, and inputs on
    which they give different answers. */
module Divergences {
  import opened Optional
  import opened Text
  import opened Numbers
  import opened Listing
  import ScraperUtils
  import Scraper

  /** A listing priced 0 is left out of the TypeScript price figures but
      counted by Python, so the two report different minimum prices. */
  lemma ZeroPriceDivergence(free: Row, paid: Row, rate: real)
    requires free.bruto == 0 && !free.esUsd && paid.bruto == 100 && !paid.esUsd
    ensures ScraperUtils.Summarise(Convert([free, paid], rate)).priceMin == 100.0
    ensures Scraper.Summarise(Convert([free, paid], rate)).priceMin == 0.0
  {
    var d := Convert([free, paid], rate);
    var ps := Prices(d);
    assert ps == [0.0, 100.0];
    assert Positive(ps) == [100.0] by {
      assert ps[1..] == [100.0];
      assert Positive(ps[1..]) == [100.0] + Positive([]);
    }
  }

  /** A search whose first page lists no cards: both return no rows and zero
      statistics, but only Python requests the exchange rate. */
  lemma EmptySearchDivergence(version: string, year: string, rateReply: RateReply,
                              parse: string -> Option<real>)
    ensures var run := ScraperUtils.ScrapearMercadoLibre(version, year, [Reply(200, [])], rateReply, parse);
            !run.rateFetched && run.result == ScraperUtils.SearchResult([], ZeroStats)
    ensures var s := Scraper.Scrapear(version, year, [Reply(200, [])], rateReply, parse);
            s.rateFetched && s.outcome == Ok(Scraper.Report([], ZeroStats))
  {
    var replies: seq<PageReply<Scraper.Card>> := [Reply(200, [])];
    assert Scraper.Steps(replies)[0] == Scraper.StepOf(replies[0]);
  }

  /** A search whose first page request raises: the TypeScript loop stops
      with what it has (nothing), the Python search fails with the exception. */
  lemma TransportErrorDivergence(reason: string, version: string, year: string,
                                 rateReply: RateReply, parse: string -> Option<real>)
    ensures ScraperUtils.Paginate([Unreachable(reason)], 0) == ScraperUtils.Crawl([], Transport)
    ensures Scraper.Scrapear(version, year, [Unreachable(reason)], rateReply, parse).outcome
            == Err(Scraper.TransportError(reason))
  {
    var replies: seq<PageReply<Scraper.Card>> := [Unreachable(reason)];
    assert Scraper.Steps(replies)[0] == Scraper.StepOf(replies[0]);
  }

  /** A 2xx reply whose sell text is a figure with thousands dots and a
      decimal comma gives both readers the same rate: the figure read with a
      decimal point, or the fallback when it does not parse. */
  lemma RatesAgreeOnFigures(status: int, pre: string, a: string, b: string, post: string,
                            parse: string -> Option<real>)
    requires ScraperUtils.IsOk(status)
    requires AllSpace(pre, Js) && AllSpace(pre, Py) && AllSpace(post, Js) && AllSpace(post, Py)
    requires DottedDigits(a) && AllDigits(b)
    ensures var reply, text := RateReply(status, Some(pre + a + "," + b + post)), RemoveChar(a, '.') + "." + b;
            && ScraperUtils.ObtenerDolarOficial(reply, parse) == parse(text).GetOr(FallbackRate)
            && Scraper.ObtenerDolarOficial(reply, parse) == parse(text).GetOr(FallbackRate)
  {
    var tag, text := pre + a + "," + b + post, RemoveChar(a, '.') + "." + b;
    assert ScraperUtils.RateText(tag) == text && Scraper.RateText(tag) == text by {
      ScraperUtils.RateTextReadsDecimalComma(pre, a, b, post);
      Scraper.RateTextReadsDecimalComma(pre, a, b, post);
    }
    RatesFromSameText(status, tag, text, parse);
  }

  /** Two readers that turn the sell text into the same figure report the
      same rate for a 2xx reply. */
  lemma RatesFromSameText(status: int, tag: string, text: string, parse: string -> Option<real>)
    requires ScraperUtils.IsOk(status)
    requires ScraperUtils.RateText(tag) == text && Scraper.RateText(tag) == text
    ensures ScraperUtils.ObtenerDolarOficial(RateReply(status, Some(tag)), parse) == parse(text).GetOr(FallbackRate)
    ensures Scraper.ObtenerDolarOficial(RateReply(status, Some(tag)), parse) == parse(text).GetOr(FallbackRate)
  {
  }

  /** A version and year without white space or capitals give the same
      search URL in both pipelines. */
  lemma SearchUrlsAgree(version: string, year: string)
    requires forall i :: 0 <= i < |version| ==> !IsJsSpace(version[i])
    requires forall i :: 0 <= i < |year| ==> !IsJsSpace(year[i])
    requires ToLower(version) == version && ToLower(year) == year
    ensures ScraperUtils.SearchUrl(version, year) == Scraper.SearchUrl(version, year)
  {
    assert ScraperUtils.SearchUrl(version, year) == SearchHost + version + "-" + year by {
      ScraperUtils.SearchUrlPlain(version, year);
      ScraperUtils.LowerJoin(version, year);
      assert ToLower(version + "-" + year) == version + "-" + year;
      Associative(SearchHost, version + "-", year);
      Associative(SearchHost, version, "-");
    }
    NoBlank(version);
    NoBlank(year);
    Scraper.SearchUrlPlain(version, year);
  }

  /** A text without JavaScript white space has no blank. */
  lemma NoBlank(s: string)
    requires forall i :: 0 <= i < |s| ==> !IsJsSpace(s[i])
    ensures ' ' !in s
  {
  }

  /** Over rows whose converted prices are all positive, both pipelines report
      the same price and distance extremes, and their mean prices differ only
      where the rounding rules do: by one, on a half whose lower neighbour is even. */
  lemma SummariesAgree(d: seq<PricedRow>)
    requires d != []
    requires forall i :: 0 <= i < |d| ==> d[i].precioArs > 0.0
    ensures var t, p := ScraperUtils.Summarise(d), Scraper.Summarise(d);
            && t.priceMin == p.priceMin && t.priceMax == p.priceMax
            && t.kmMin == p.kmMin && t.kmMax == p.kmMax
    ensures var t, p := ScraperUtils.Summarise(d), Scraper.Summarise(d);
            var mean := Sum(Prices(d)) / |d| as real;
            t.promedio - p.promedio == if mean - mean.Floor as real == 0.5 && mean.Floor % 2 == 0 then 1 else 0
  {
    PriceExtremesAgree(d);
    KmExtremesAgree(d);
    MeansRounded(d);
    RoundingsDiffer(Sum(Prices(d)) / |d| as real);
  }

  /** With every price positive both take the extremes of the same prices. */
  lemma PriceExtremesAgree(d: seq<PricedRow>)
    requires d != []
    requires forall i :: 0 <= i < |d| ==> d[i].precioArs > 0.0
    ensures ScraperUtils.Summarise(d).priceMin == Scraper.Summarise(d).priceMin
    ensures ScraperUtils.Summarise(d).priceMax == Scraper.Summarise(d).priceMax
  {
    var ps := Prices(d);
    assert Positive(ps) == ps;
    var t, p := ScraperUtils.Summarise(d), Scraper.Summarise(d);
    assert t.priceMin <= p.priceMin && p.priceMin <= t.priceMin;
    assert t.priceMax <= p.priceMax && p.priceMax <= t.priceMax;
  }

  lemma KmExtremesAgree(d: seq<PricedRow>)
    requires d != []
    ensures ScraperUtils.Summarise(d).kmMin == Scraper.Summarise(d).kmMin
    ensures ScraperUtils.Summarise(d).kmMax == Scraper.Summarise(d).kmMax
  {
    var t, p := ScraperUtils.Summarise(d), Scraper.Summarise(d);
    assert t.kmMin <= p.kmMin && p.kmMin <= t.kmMin;
    assert t.kmMax <= p.kmMax && p.kmMax <= t.kmMax;
  }

  /** With every price positive both round the mean of all prices, each by
      its own rule. */
  lemma MeansRounded(d: seq<PricedRow>)
    requires d != []
    requires forall i :: 0 <= i < |d| ==> d[i].precioArs > 0.0
    ensures var mean := Sum(Prices(d)) / |d| as real;
            ScraperUtils.Summarise(d).promedio == JsRound(mean) && Scraper.Summarise(d).promedio == PyRound(mean)
  {
    var ps := Prices(d);
    assert Positive(ps) == ps;
    var mean := Sum(ps) / |d| as real;
    JsRoundUnique(mean, ScraperUtils.Summarise(d).promedio);
    PyRoundUnique(mean, Scraper.Summarise(d).promedio);
  }

  /** A mean of exactly 2.5 is rounded to 3 by JavaScript and to 2 by Python. */
  lemma RoundingDivergence(two: Row, three: Row, rate: real)
    requires two.bruto == 2 && !two.esUsd && three.bruto == 3 && !three.esUsd
    ensures ScraperUtils.Summarise(Convert([two, three], rate)).promedio == 3
    ensures Scraper.Summarise(Convert([two, three], rate)).promedio == 2
  {
    var d := Convert([two, three], rate);
    assert Prices(d) == [2.0, 3.0];
    assert Sum([2.0, 3.0]) == 5.0 by {
      assert [2.0, 3.0][1..] == [3.0];
    }
    var mean := Sum(Prices(d)) / |d| as real;
    assert mean == 2.5;
    MeansRounded(d);
    JsRoundUnique(mean, 3);
    PyRoundUnique(mean, 2);
  }
}
