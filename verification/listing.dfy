/** The records both pipelines produce and the inputs they consume once the
    network and the markup parser are abstracted away: listing rows, page
    replies of the marketplace, the bank's rate reply, and the statistics
    computed over converted rows. */
module Listing {
  import opened Optional
  import opened Text

  /** The value of the exchange rate used when the live rate cannot be read. */
  const FallbackRate: real := 1155.0

  /** Host and path prefix of every marketplace search URL. */
  const SearchHost: string := "https://autos.mercadolibre.com.ar/"

  /** One parsed listing card: `titulo`, `link`, `vendedor`, `bruto` (the
      price as shown), `es_usd`, `modelo` (the first attribute, the model
      year), `km` and `ubic`. */
  datatype Row = Row(
    titulo: string,
    link: string,
    vendedor: string,
    bruto: int,
    esUsd: bool,
    modelo: string,
    km: nat,
    ubic: string)

  /** A row after conversion, carrying its local-currency price `precio_ars`. */
  datatype PricedRow = PricedRow(row: Row, precioArs: real)

  /** `promedio`, `price_min`, `price_max`, `km_min`, `km_max`. */
  datatype Stats = Stats(promedio: int, priceMin: real, priceMax: real, kmMin: int, kmMax: int)

  const ZeroStats: Stats := Stats(0, 0.0, 0.0, 0, 0)

  /** The outcome of one request for a search-result page: the request failed
      before a status was received (a thrown error), or a status with the
      listing cards found on the page. */
  datatype PageReply<C> = Unreachable(reason: string) | Reply(status: int, items: seq<C>)

  /** The outcome of the request to the bank: failed, or a status and the text
      of the first `span.value.sell` element if there is one. */
  datatype RateReply = RateUnreachable | RateReply(status: int, sellTag: Option<string>)

  /** Why a pagination loop ended: a failed request, a rejected status, a page
      without items, the page cap, or the end of the supplied replies. */
  datatype Stop = Transport | BadStatus | NoItems | PageCap | Exhausted

  /** URL of the `page`-th result page (1-based) when `offset` cards were
      listed on the pages before it. */
  function PageUrl(base: string, page: nat, offset: nat): (u: string)
    ensures page == 1 ==> u == base
    ensures page != 1 ==> u == base + "_Desde_" + NatToString(offset + 1)
  {
    if page == 1 then base else base + "_Desde_" + NatToString(offset + 1)
  }

  /** Two later pages share a URL only if they share an offset. */
  lemma PageUrlInjective(base: string, p: nat, q: nat, m: nat, n: nat)
    requires p != 1 && q != 1
    requires PageUrl(base, p, m) == PageUrl(base, q, n)
    ensures m == n
  {
    var u := PageUrl(base, p, m);
    var k := |base + "_Desde_"|;
    assert u[k..] == NatToString(m + 1);
    assert u[k..] == NatToString(n + 1);
    NatToStringInjective(m + 1, n + 1);
  }

  /** The elements of the given sequences, one sequence after another. */
  function Concat<T>(xss: seq<seq<T>>): seq<T> {
    if xss == [] then [] else Concat(xss[..|xss| - 1]) + xss[|xss| - 1]
  }

  /** Number of cards listed on the given pages. */
  function CardCount<C>(pages: seq<seq<C>>): nat {
    |Concat(pages)|
  }

  /** A longer run of non-empty pages lists more cards. */
  lemma {:induction false} CardCountGrows<C>(pages: seq<seq<C>>, i: nat, j: nat)
    requires i < j <= |pages|
    requires forall k :: 0 <= k < |pages| ==> pages[k] != []
    ensures CardCount(pages[..i]) < CardCount(pages[..j])
    decreases j
  {
    assert pages[..j][..j - 1] == pages[..j - 1];
    if i < j - 1 {
      CardCountGrows(pages, i, j - 1);
    }
  }

  /** The URLs of the first `n` requests of a crawl that kept `pages`: request
      `i` asks for page `i + 1` at the offset of the cards on the pages before it. */
  function RequestUrls<C>(base: string, pages: seq<seq<C>>, n: nat): (us: seq<string>)
    requires n <= |pages| + 1
    ensures |us| == n
  {
    if n == 0 then [] else RequestUrls(base, pages, n - 1) + [PageUrl(base, n, CardCount(pages[..n - 1]))]
  }

  /** Request `i` asks for page `i + 1` at the offset of the pages before it. */
  lemma {:induction false} RequestUrlsAt<C>(base: string, pages: seq<seq<C>>, n: nat, i: nat)
    requires n <= |pages| + 1 && i < n
    ensures RequestUrls(base, pages, n)[i] == PageUrl(base, i + 1, CardCount(pages[..i]))
  {
    if i < n - 1 {
      RequestUrlsAt(base, pages, n - 1, i);
    }
  }

  /** A page kept later does not change the URLs of earlier requests. */
  lemma {:induction false} RequestUrlsExtend<C>(base: string, pages: seq<seq<C>>, page: seq<C>, n: nat)
    requires n <= |pages| + 1
    ensures RequestUrls(base, pages + [page], n) == RequestUrls(base, pages, n)
  {
    if n > 0 {
      RequestUrlsExtend(base, pages, page, n - 1);
      assert (pages + [page])[..n - 1] == pages[..n - 1];
    }
  }

  /** When every kept page lists a card, no URL is requested twice. */
  lemma RequestUrlsDistinct<C>(base: string, pages: seq<seq<C>>, n: nat)
    requires n <= |pages| + 1
    requires forall k :: 0 <= k < |pages| ==> pages[k] != []
    ensures forall i, j :: 0 <= i < j < n ==> RequestUrls(base, pages, n)[i] != RequestUrls(base, pages, n)[j]
  {
    var us := RequestUrls(base, pages, n);
    forall i, j | 0 <= i < j < n ensures us[i] != us[j] {
      CardCountGrows(pages, i, j);
      RequestUrlsAt(base, pages, n, i);
      RequestUrlsAt(base, pages, n, j);
      if i == 0 {
        assert |us[i]| < |us[j]|;
      } else if us[i] == us[j] {
        PageUrlInjective(base, i + 1, j + 1, CardCount(pages[..i]), CardCount(pages[..j]));
      }
    }
  }

  /** The local-currency price of a row: converted when quoted in dollars. */
  function LocalPrice(r: Row, rate: real): (p: real)
    ensures !r.esUsd ==> p == r.bruto as real
    ensures r.esUsd ==> p == r.bruto as real * rate
  {
    if r.esUsd then r.bruto as real * rate else r.bruto as real
  }

  /** Adds `precio_ars` to every row, keeping order and every other field. */
  function Convert(rows: seq<Row>, rate: real): (d: seq<PricedRow>)
    ensures |d| == |rows|
    ensures forall i :: 0 <= i < |d| ==> d[i].row == rows[i] && d[i].precioArs == LocalPrice(rows[i], rate)
  {
    if rows == [] then [] else [PricedRow(rows[0], LocalPrice(rows[0], rate))] + Convert(rows[1..], rate)
  }

  function Prices(d: seq<PricedRow>): (ps: seq<real>)
    ensures |ps| == |d| && forall i :: 0 <= i < |d| ==> ps[i] == d[i].precioArs
  {
    if d == [] then [] else [d[0].precioArs] + Prices(d[1..])
  }

  function Kms(d: seq<PricedRow>): (ks: seq<int>)
    ensures |ks| == |d| && forall i :: 0 <= i < |d| ==> ks[i] == d[i].row.km
    ensures forall i :: 0 <= i < |ks| ==> ks[i] >= 0
  {
    if d == [] then [] else [d[0].row.km as int] + Kms(d[1..])
  }

  /** The strictly positive values of `xs`, in order. */
  function Positive(xs: seq<real>): (ps: seq<real>)
    ensures |ps| <= |xs|
    ensures forall x :: x in ps <==> x in xs && x > 0.0
    ensures (forall i :: 0 <= i < |xs| ==> xs[i] > 0.0) ==> ps == xs
  {
    if xs == [] then []
    else (if xs[0] > 0.0 then [xs[0]] else []) + Positive(xs[1..])
  }

  /** Filtering distributes over concatenation, so every positive value is
      kept as often as it occurs and in its place. */
  lemma {:induction false} PositiveAppend(a: seq<real>, b: seq<real>)
    ensures Positive(a + b) == Positive(a) + Positive(b)
  {
    if a == [] {
      assert a + b == b;
    } else {
      assert (a + b)[0] == a[0];
      assert (a + b)[1..] == a[1..] + b;
      PositiveAppend(a[1..], b);
    }
  }

  function Sum(xs: seq<real>): real {
    if xs == [] then 0.0 else xs[0] + Sum(xs[1..])
  }

  function MinOf(xs: seq<real>): (m: real)
    requires xs != []
    ensures m in xs && forall i :: 0 <= i < |xs| ==> m <= xs[i]
  {
    if |xs| == 1 then xs[0]
    else var t := MinOf(xs[1..]); if xs[0] <= t then xs[0] else t
  }

  function MaxOf(xs: seq<real>): (m: real)
    requires xs != []
    ensures m in xs && forall i :: 0 <= i < |xs| ==> xs[i] <= m
  {
    if |xs| == 1 then xs[0]
    else var t := MaxOf(xs[1..]); if xs[0] >= t then xs[0] else t
  }

  function MinInt(xs: seq<int>): (m: int)
    requires xs != []
    ensures m in xs && forall i :: 0 <= i < |xs| ==> m <= xs[i]
  {
    if |xs| == 1 then xs[0]
    else var t := MinInt(xs[1..]); if xs[0] <= t then xs[0] else t
  }

  function MaxInt(xs: seq<int>): (m: int)
    requires xs != []
    ensures m in xs && forall i :: 0 <= i < |xs| ==> xs[i] <= m
  {
    if |xs| == 1 then xs[0]
    else var t := MaxInt(xs[1..]); if xs[0] >= t then xs[0] else t
  }

  /** A sum of values within `[lo, hi]` lies within `|xs|` times each bound. */
  lemma {:induction false} SumBounds(xs: seq<real>, lo: real, hi: real)
    requires forall i :: 0 <= i < |xs| ==> lo <= xs[i] <= hi
    ensures |xs| as real * lo <= Sum(xs) <= |xs| as real * hi
  {
    if xs != [] {
      SumBounds(xs[1..], lo, hi);
      assert |xs| as real * lo == lo + (|xs| - 1) as real * lo;
      assert |xs| as real * hi == hi + (|xs| - 1) as real * hi;
    }
  }

  /** The arithmetic mean of a non-empty sequence lies between its minimum and maximum. */
  lemma {:induction false} MeanBetween(xs: seq<real>)
    requires xs != []
    ensures MinOf(xs) <= Sum(xs) / |xs| as real <= MaxOf(xs)
  {
    MeanWithin(xs, MinOf(xs), MaxOf(xs));
  }

  /** The mean of values within `[lo, hi]` lies within `[lo, hi]`. */
  lemma MeanWithin(xs: seq<real>, lo: real, hi: real)
    requires xs != [] && forall i :: 0 <= i < |xs| ==> lo <= xs[i] <= hi
    ensures lo <= Sum(xs) / |xs| as real <= hi
  {
    SumBounds(xs, lo, hi);
    DivideBounds(Sum(xs), |xs| as real, lo, hi);
  }

  lemma DivideBounds(s: real, n: real, lo: real, hi: real)
    requires n > 0.0 && n * lo <= s <= n * hi
    ensures lo <= s / n <= hi
  {
  }
}
