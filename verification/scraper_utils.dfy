/** The TypeScript pipeline of lib/scraper-utils.ts: `obtenerDolarOficial`
    and `scrapearMercadoLibre`.  Requests are replaced by the replies they
    received, cheerio's selectors by already-decomposed cards, and
    `parseFloat` by a parameter `parse` that answers `None` for `NaN`. */
module ScraperUtils {
  import opened Optional
  import opened Text
  import opened Numbers
  import opened Listing

  /** Hard cap on page requests per search (`MAX_PAGES`). */
  const MaxPages: nat := 5

  /** Currency symbol that marks a price quoted in dollars. */
  const UsdSymbol: string := "U$S"

  const NoTitle: string := "N/D"
  const NoLink: string := "#"
  /** Seller extraction is not implemented; every row carries this placeholder. */
  const NoSeller: string := "N/A"

  /** `Response.ok`: a status in the 2xx range. */
  predicate IsOk(status: int) {
    200 <= status <= 299
  }

  // ---------------------------------------------------------------------------
  // obtenerDolarOficial

  /** The sell-rate text as handed to `parseFloat`: trimmed, every "."
      (thousands separator) removed, and only the first "," (decimal comma)
      turned into ".". */
  function RateText(tag: string): (t: string)
    ensures |t| <= |tag|
    ensures forall i, j :: 0 <= i < j < |t| && t[i] == '.' ==> t[j] != '.'
    ensures ',' !in tag ==> '.' !in t
  {
    var trimmed := Trim(tag, Js);
    var s := RemoveChar(trimmed, '.');
    ReplaceFirstSingle(s, ',', '.');
    assert ',' in s ==> ',' in tag by {
      if ',' in s {
        TrimKeeps(tag, Js, ',');
      }
    }
    ReplaceFirst(s, ',', '.')
  }

  /** A rate written with thousands dots and a decimal comma, with white
      space around it, reads as its digits with a decimal point:
      " 1.155,50 " becomes "1155.50". */
  lemma RateTextReadsDecimalComma(pre: string, a: string, b: string, post: string)
    requires AllSpace(pre, Js) && AllSpace(post, Js)
    requires DottedDigits(a) && AllDigits(b)
    ensures RateText(pre + a + "," + b + post) == RemoveChar(a, '.') + "." + b
  {
    DecimalCommaFirstReplaced(pre, a, b, post);
    FigureGrouping(pre, a, b, post);
  }

  /** The official dollar sell rate, or `FallbackRate` when the request fails,
      the status is not 2xx, the `span.value.sell` element is missing, or its
      text does not parse.  Never fails. */
  function ObtenerDolarOficial(reply: RateReply, parse: string -> Option<real>): (rate: real)
    ensures reply.RateUnreachable? ==> rate == FallbackRate
    ensures reply.RateReply? && !IsOk(reply.status) ==> rate == FallbackRate
    ensures reply.RateReply? && reply.sellTag.None? ==> rate == FallbackRate
    ensures reply.RateReply? && IsOk(reply.status) && reply.sellTag.Some?
            && parse(RateText(reply.sellTag.value)).Some?
            ==> rate == parse(RateText(reply.sellTag.value)).value
    ensures rate == FallbackRate
            || (reply.RateReply? && IsOk(reply.status) && reply.sellTag.Some?
                && parse(RateText(reply.sellTag.value)) == Some(rate))
  {
    match reply
    case RateUnreachable => FallbackRate
    case RateReply(status, sellTag) =>
      if !IsOk(status) then FallbackRate
      else
        match sellTag
        case None => FallbackRate
        case Some(text) => parse(RateText(text)).GetOr(FallbackRate)
  }

  // ---------------------------------------------------------------------------
  // Listing cards

  /** The `a.ui-search-link__title-card` anchor: its `h2` heading text and `href`. */
  datatype TitleAnchor = TitleAnchor(heading: Option<string>, href: Option<string>)

  /** The `div.ui-search-result__content-wrapper` of a card: title anchor, first
      price fraction, first currency symbol, attribute texts and location text,
      each as found in the markup (untrimmed). */
  datatype CardContent = CardContent(
    titleAnchor: Option<TitleAnchor>,
    priceFraction: Option<string>,
    currencySymbol: Option<string>,
    attributes: seq<string>,
    location: Option<string>)

  /** One `li.ui-search-layout__item`; it may lack the content wrapper. */
  datatype Card = Card(content: Option<CardContent>)

  /** cheerio's `.text()`: the empty string on an empty selection. */
  function TextOf(e: Option<string>): string {
    e.GetOr("")
  }

  /** JavaScript `s || d` on a string. */
  function OrDefault(s: string, d: string): (r: string)
    ensures s == [] ==> r == d
    ensures s != [] ==> r == s
  {
    if s == [] then d else s
  }

  /** `bruto`: `parseInt` of the price text with every "." removed, or 0 on `NaN`. */
  function ParseBruto(priceRaw: string): (b: int)
    ensures priceRaw == [] ==> b == 0
    ensures JsParseInt(RemoveChar(priceRaw, '.')).None? ==> b == 0
    ensures JsParseInt(RemoveChar(priceRaw, '.')).Some? ==> b == JsParseInt(RemoveChar(priceRaw, '.')).value
    ensures var d := RemoveChar(priceRaw, '.'); d != [] && AllDigits(d) ==> b == DigitsValue(d)
  {
    var d := RemoveChar(priceRaw, '.');
    if d != [] && AllDigits(d) then JsParseIntDigits(d); JsParseIntOrZero(d)
    else JsParseIntOrZero(d)
  }

  /** A price text without any digit gives 0. */
  lemma ParseBrutoNoDigit(priceRaw: string)
    requires forall i :: 0 <= i < |priceRaw| ==> !IsDigit(priceRaw[i])
    ensures ParseBruto(priceRaw) == 0
  {
    var d := RemoveChar(priceRaw, '.');
    forall i | 0 <= i < |d| ensures !IsDigit(d[i]) {
      assert d[i] in d;
    }
    var t := TrimStart(d, Js);
    assert forall i :: 0 <= i < |t| ==> t[i] == d[|d| - |t| + i];
  }

  /** A price text "-" followed by digits is read as a negative price:
      `parseInt` accepts the sign. */
  lemma {:induction false} ParseBrutoNegative(d: string)
    requires d != [] && AllDigits(d)
    ensures var v: int := DigitsValue(d); ParseBruto("-" + d) == -v
  {
    PrintedNegativeReadsBack(d);
  }

  lemma {:induction false} PrintedNegativeReadsBack(d: string)
    requires d != [] && AllDigits(d)
    ensures var v: int := DigitsValue(d); JsParseInt(RemoveChar("-" + d, '.')) == Some(-v)
  {
    var s := "-" + d;
    assert '.' !in s by {
      assert forall i :: 0 <= i < |s| ==> s[i] == '-' || IsDigit(s[i]);
    }
    assert "" + "-" + d + "" == s;
    JsParseIntSigned("", "-", d, "");
  }

  /** `km`: `parseInt` of the attribute text with every non-digit removed, or 0
      when no digit is left.  Never negative. */
  function ParseKm(kmAttr: string): (km: nat)
    ensures KeepDigits(kmAttr) == [] ==> km == 0
    ensures KeepDigits(kmAttr) != [] ==> km == DigitsValue(KeepDigits(kmAttr))
  {
    var d := KeepDigits(kmAttr);
    var v := JsParseIntOrZero(d);
    assert v >= 0 && (d != [] ==> v == DigitsValue(d)) by {
      if d != [] {
        JsParseIntDigits(d);
      }
    }
    v
  }

  /** A distance written as a number followed by a unit ("45.000 km" without
      its dot, say "45000 km") reads back as that number. */
  lemma ParseKmReadsBack(n: nat, unit: string)
    requires forall i :: 0 <= i < |unit| ==> !IsDigit(unit[i])
    ensures ParseKm(NatToString(n) + unit) == n
  {
    FigureDigits(n, unit);
    NatToStringRoundTrip(n);
  }

  /** `es_usd`: the trimmed symbol text is exactly "U$S". */
  function IsUsd(symbolText: string): (b: bool)
    ensures b ==> exists k :: OccursAt(symbolText, UsdSymbol, k)
                             && AllSpace(symbolText[..k], Js) && AllSpace(symbolText[k + |UsdSymbol|..], Js)
  {
    Trim(symbolText, Js) == UsdSymbol
  }

  /** Conversely, "U$S" with only white space around it marks dollars. */
  lemma PaddedSymbolIsUsd(before: string, after: string)
    requires AllSpace(before, Js) && AllSpace(after, Js)
    ensures IsUsd(before + UsdSymbol + after)
  {
    TrimPadded(before, UsdSymbol, after, Js);
  }

  /** The row built from a card's content wrapper, each missing part replaced
      by its default. */
  function ContentRow(c: CardContent): (row: Row)
    ensures row.titulo != [] && row.link != []
    ensures row.vendedor == NoSeller
    ensures row.esUsd <==> Trim(TextOf(c.currencySymbol), Js) == UsdSymbol
    ensures c.titleAnchor.None? ==> row.titulo == NoTitle && row.link == NoLink
    ensures c.priceFraction.None? ==> row.bruto == 0
    ensures c.attributes == [] ==> row.modelo == []
    ensures |c.attributes| < 2 ==> row.km == 0
    ensures c.location.None? ==> row.ubic == []
    ensures c.titleAnchor.Some? && Trim(TextOf(c.titleAnchor.value.heading), Js) != []
            ==> row.titulo == Trim(TextOf(c.titleAnchor.value.heading), Js)
    ensures c.titleAnchor.Some? && Trim(TextOf(c.titleAnchor.value.heading), Js) == [] ==> row.titulo == NoTitle
    ensures c.titleAnchor.Some? && TextOf(c.titleAnchor.value.href) != [] ==> row.link == c.titleAnchor.value.href.value
    ensures c.titleAnchor.Some? && TextOf(c.titleAnchor.value.href) == [] ==> row.link == NoLink
    ensures c.priceFraction.Some? ==> row.bruto == ParseBruto(Trim(c.priceFraction.value, Js))
    ensures |c.attributes| > 0 ==> row.modelo == Trim(c.attributes[0], Js)
    ensures |c.attributes| > 1 ==> row.km == ParseKm(Trim(c.attributes[1], Js))
    ensures c.location.Some? ==> row.ubic == Trim(c.location.value, Js)
  {
    var heading := if c.titleAnchor.Some? then TextOf(c.titleAnchor.value.heading) else "";
    var href := if c.titleAnchor.Some? then TextOf(c.titleAnchor.value.href) else "";
    var priceRaw := Trim(TextOf(c.priceFraction), Js);
    var modelo := if |c.attributes| > 0 then Trim(c.attributes[0], Js) else "";
    var kmAttr := if |c.attributes| > 1 then Trim(c.attributes[1], Js) else "";
    Row(
      titulo := OrDefault(Trim(heading, Js), NoTitle),
      link := OrDefault(href, NoLink),
      vendedor := NoSeller,
      bruto := ParseBruto(priceRaw),
      esUsd := IsUsd(TextOf(c.currencySymbol)),
      modelo := modelo,
      km := ParseKm(kmAttr),
      ubic := OrDefault(Trim(TextOf(c.location), Js), ""))
  }

  /** Decimal notation of an integer, with a leading "-" when it is negative. */
  function IntToString(n: int): (s: string)
    ensures s != [] && (s[0] == '-' || IsDigit(s[0])) && IsDigit(s[|s| - 1])
    ensures '.' !in s
  {
    if n < 0 then "-" + NatToString(-n) else NatToString(n)
  }

  /** The content wrapper a listing page shows for a row: its title and link
      in the title anchor, its price printed in the fraction, "U$S" or "$" as
      the currency symbol, the model year and the distance followed by " km"
      as the first two attributes, and its location. */
  function RenderContent(row: Row): CardContent {
    CardContent(
      titleAnchor := Some(TitleAnchor(Some(row.titulo), Some(row.link))),
      priceFraction := Some(IntToString(row.bruto)),
      currencySymbol := Some(if row.esUsd then UsdSymbol else "$"),
      attributes := [row.modelo, NatToString(row.km) + " km"],
      location := Some(row.ubic))
  }

  /** Reading a card back: a row whose texts carry no surrounding white space
      and whose title and link are not empty is recovered from the content
      the page shows for it. */
  lemma {:induction false} ContentRowReadsBack(row: Row)
    requires row.titulo != [] && Trim(row.titulo, Js) == row.titulo
    requires row.link != [] && row.vendedor == NoSeller
    requires Trim(row.modelo, Js) == row.modelo && Trim(row.ubic, Js) == row.ubic
    ensures ContentRow(RenderContent(row)) == row
  {
    PrintedFractionReadsBack(row.bruto);
    KmAttributeReadsBack(row.km);
    SymbolCases();
  }

  /** The printed price survives the trimming of the fraction text. */
  lemma {:induction false} PrintedFractionReadsBack(n: int)
    ensures ParseBruto(Trim(IntToString(n), Js)) == n
  {
    var price := IntToString(n);
    DigitNotSpace(price[|price| - 1], Js);
    TrimNoop(price, Js);
    PrintedPriceReadsBack(n);
  }

  /** "<km> km" survives trimming and reads back as the distance. */
  lemma {:induction false} KmAttributeReadsBack(n: nat)
    ensures ParseKm(Trim(NatToString(n) + " km", Js)) == n
  {
    var km := NatToString(n) + " km";
    assert km[0] == NatToString(n)[0] && km[|km| - 1] == 'm';
    DigitNotSpace(km[0], Js);
    TrimNoop(km, Js);
    ParseKmReadsBack(n, " km");
  }

  /** "U$S" marks a dollar price; "$" and an empty symbol do not. */
  lemma SymbolCases()
    ensures IsUsd(UsdSymbol) && !IsUsd("$") && !IsUsd("")
  {
    TrimNoop(UsdSymbol, Js);
    TrimNoop("$", Js);
  }

  /** A printed integer is read back by the price parser. */
  lemma {:induction false} PrintedPriceReadsBack(n: int)
    ensures ParseBruto(IntToString(n)) == n
  {
    PrintedIntegerParses(n);
    ParseBrutoReads(IntToString(n), n);
  }

  /** `parseInt` reads a printed integer, sign included. */
  lemma {:induction false} PrintedIntegerParses(n: int)
    ensures JsParseInt(RemoveChar(IntToString(n), '.')) == Some(n)
  {
    if n < 0 {
      NegativeParses(n);
    } else {
      var d := NatToString(n);
      NatToStringRoundTrip(n);
      JsParseIntDigits(d);
      assert RemoveChar(d, '.') == d;
    }
  }

  lemma {:induction false} NegativeParses(n: int)
    requires n < 0
    ensures JsParseInt(RemoveChar(IntToString(n), '.')) == Some(n)
  {
    var d := NatToString(-n);
    NatToStringRoundTrip(-n);
    PrintedNegativeReadsBack(d);
    var v: int := DigitsValue(d);
    assert v == -n;
    assert IntToString(n) == "-" + d;
  }

  /** The price is what `parseInt` reads from the dotless text. */
  lemma ParseBrutoReads(priceRaw: string, v: int)
    requires JsParseInt(RemoveChar(priceRaw, '.')) == Some(v)
    ensures ParseBruto(priceRaw) == v
  {
  }

  /** The row of one card, or `None` when the card has no content wrapper. */
  function ExtractCard(card: Card): (r: Option<Row>)
    ensures r.None? <==> card.content.None?
    ensures r.Some? ==> r.value == ContentRow(card.content.value)
  {
    if card.content.Some? then Some(ContentRow(card.content.value)) else None
  }

  /** The extraction outcome of every card, in card order. */
  function CardOutcomes(items: seq<Card>): (r: seq<Option<Row>>)
    ensures |r| == |items|
    ensures forall i :: 0 <= i < |items| ==> r[i] == ExtractCard(items[i])
  {
    seq(|items|, i requires 0 <= i < |items| => ExtractCard(items[i]))
  }

  /** The rows of one page, in card order; cards without content are skipped. */
  function ExtractPage(items: seq<Card>): (rows: seq<Row>)
    ensures |rows| <= |items|
    ensures (forall j :: 0 <= j < |items| ==> items[j].content.Some?) ==> |rows| == |items|
    ensures (forall j :: 0 <= j < |items| ==> items[j].content.None?) ==> rows == []
  {
    Present(CardOutcomes(items))
  }

  /** A single card yields its own row, or nothing when it has no content wrapper. */
  lemma ExtractPageSingle(card: Card)
    ensures ExtractPage([card]) == if card.content.Some? then [ExtractCard(card).value] else []
  {
  }

  /** Extraction runs card by card: a concatenation of cards yields the
      concatenation of their rows. */
  lemma {:induction false} ExtractPageAppend(a: seq<Card>, b: seq<Card>)
    ensures ExtractPage(a + b) == ExtractPage(a) + ExtractPage(b)
  {
    var whole, parts := CardOutcomes(a + b), CardOutcomes(a) + CardOutcomes(b);
    forall i | 0 <= i < |whole| ensures whole[i] == parts[i] {
      if i < |a| {
        assert (a + b)[i] == a[i];
      } else {
        assert (a + b)[i] == b[i - |a|];
      }
    }
    assert whole == parts;
    PresentAppend(CardOutcomes(a), CardOutcomes(b));
  }

  // ---------------------------------------------------------------------------
  // scrapearMercadoLibre: URL and pagination

  /** The search URL: "<version> <year>" with every white-space run replaced by
      "-" and the whole lower-cased, after the marketplace host. */
  function SearchUrl(version: string, year: string): (u: string)
    ensures SearchHost <= u
    ensures forall i :: |SearchHost| <= i < |u| ==> !IsJsSpace(u[i]) && !('A' <= u[i] <= 'Z')
  {
    var slug := ReplaceRuns(version + " " + year, Js, '-');
    var lowered := ToLower(slug);
    assert forall i :: 0 <= i < |lowered| ==> !IsJsSpace(lowered[i]) by {
      forall i | 0 <= i < |lowered| ensures !IsJsSpace(lowered[i]) {
        LowerKeepsSpace(slug[i]);
      }
    }
    SearchHost + lowered
  }

  /** Only the white space between version and year matters: each run
      inside either becomes one "-", the separating space becomes one "-",
      and the whole is lower-cased. */
  lemma {:induction false} SearchUrlSlug(version: string, year: string)
    requires version == [] || !IsJsSpace(version[|version| - 1])
    requires year == [] || !IsJsSpace(year[0])
    ensures SearchUrl(version, year)
            == SearchHost + ToLower(ReplaceRuns(version, Js, '-')) + "-" + ToLower(ReplaceRuns(year, Js, '-'))
  {
    var a, b := ReplaceRuns(version, Js, '-'), ReplaceRuns(year, Js, '-');
    SearchUrlUnfold(version, year);
    SlugRuns(version, year);
    LowerJoin(a, b);
    Associative(SearchHost, ToLower(a) + "-", ToLower(b));
    Associative(SearchHost, ToLower(a), "-");
  }

  lemma SearchUrlUnfold(version: string, year: string)
    ensures SearchUrl(version, year) == SearchHost + ToLower(ReplaceRuns(version + " " + year, Js, '-'))
  {
  }

  /** Lower-casing "<a>-<b>" lower-cases each side and keeps the "-". */
  lemma {:induction false} LowerJoin(a: string, b: string)
    ensures ToLower(a + "-" + b) == ToLower(a) + "-" + ToLower(b)
  {
    ToLowerAppend(a + "-", b);
    ToLowerAppend(a, "-");
    assert ToLower("-") == "-";
  }

  /** The separating space of "<version> <year>" becomes one "-". */
  lemma {:induction false} SlugRuns(version: string, year: string)
    requires version == [] || !IsJsSpace(version[|version| - 1])
    requires year == [] || !IsJsSpace(year[0])
    ensures ReplaceRuns(version + " " + year, Js, '-') == ReplaceRuns(version, Js, '-') + "-" + ReplaceRuns(year, Js, '-')
  {
    assert AllSpace(" ", Js);
    ReplaceRunsJoin(version, " ", year, Js, '-');
  }

  /** With no white space in version or year the slug is "<version>-<year>"
      lower-cased. */
  lemma {:induction false} SearchUrlPlain(version: string, year: string)
    requires forall i :: 0 <= i < |version| ==> !IsJsSpace(version[i])
    requires forall i :: 0 <= i < |year| ==> !IsJsSpace(year[i])
    ensures SearchUrl(version, year) == SearchHost + ToLower(version + "-" + year)
  {
    SearchUrlSlug(version, year);
    assert ReplaceRuns(version, Js, '-') == version && ReplaceRuns(year, Js, '-') == year;
    LowerJoin(version, year);
    Associative(SearchHost, ToLower(version) + "-", ToLower(year));
    Associative(SearchHost, ToLower(version), "-");
  }

  /** Lower-casing neither creates nor removes white space. */
  lemma LowerKeepsSpace(c: char)
    ensures IsJsSpace(LowerChar(c)) <==> IsJsSpace(c)
  {
  }

  /** What the search loop gathered: the cards of every page whose rows it
      kept, in request order, and why it stopped. */
  datatype Crawl = Crawl(pages: seq<seq<Card>>, stop: Stop)

  /** A reply after which the loop keeps the page's rows and goes on. */
  predicate Advances(r: PageReply<Card>) {
    r.Reply? && IsOk(r.status) && r.items != []
  }

  /** Why the loop stops at a reply that does not advance. */
  function StopAt(r: PageReply<Card>): Stop {
    if r.Unreachable? then Transport else if !IsOk(r.status) then BadStatus else NoItems
  }

  /** The page loop from attempt `attempt` (0-based) on.  `replies[k]` is the
      reply to the request of attempt `k`; a request beyond the supplied
      replies ends the loop as `Exhausted`. */
  function Paginate(replies: seq<PageReply<Card>>, attempt: nat): (c: Crawl)
    requires attempt <= MaxPages
    ensures |c.pages| <= MaxPages - attempt
    ensures c.stop == PageCap <==> |c.pages| == MaxPages - attempt
    decreases MaxPages - attempt
  {
    if attempt == MaxPages then Crawl([], PageCap)
    else if attempt >= |replies| then Crawl([], Exhausted)
    else if !Advances(replies[attempt]) then Crawl([], StopAt(replies[attempt]))
    else
      var rest := Paginate(replies, attempt + 1);
      Crawl([replies[attempt].items] + rest.pages, rest.stop)
  }

  /** Number of requests a crawl made: one per kept page, plus the request
      that stopped the loop unless the cap did. */
  function Requests(c: Crawl): (n: nat)
    ensures |c.pages| <= n <= |c.pages| + 1
    ensures n == |c.pages| <==> c.stop == PageCap
  {
    if c.stop == PageCap then |c.pages| else |c.pages| + 1
  }

  /** The reply (or its absence) at attempt `k` ends the loop for reason `stop`. */
  predicate EndsWith(replies: seq<PageReply<Card>>, k: nat, stop: Stop) {
    if k >= |replies| then stop == Exhausted
    else !Advances(replies[k]) && stop == StopAt(replies[k])
  }

  /** The loop keeps the cards of a run of advancing replies, in order, and
      stops at the first reply that does not advance, or at the cap. */
  lemma PaginatePages(replies: seq<PageReply<Card>>, attempt: nat)
    requires attempt <= MaxPages && attempt <= |replies|
    ensures attempt + |Paginate(replies, attempt).pages| <= |replies|
    ensures forall i :: 0 <= i < |Paginate(replies, attempt).pages| ==>
              Advances(replies[attempt + i]) && Paginate(replies, attempt).pages[i] == replies[attempt + i].items
    ensures Paginate(replies, attempt).stop != PageCap
            ==> EndsWith(replies, attempt + |Paginate(replies, attempt).pages|, Paginate(replies, attempt).stop)
  {
    var c := Paginate(replies, attempt);
    PaginateBound(replies, attempt);
    forall i | 0 <= i < |c.pages|
      ensures Advances(replies[attempt + i]) && c.pages[i] == replies[attempt + i].items
    {
      PaginateAt(replies, attempt, i);
    }
    PaginateEnd(replies, attempt);
  }

  /** The loop keeps no more pages than there are replies. */
  lemma {:induction false} PaginateBound(replies: seq<PageReply<Card>>, attempt: nat)
    requires attempt <= MaxPages && attempt <= |replies|
    ensures attempt + |Paginate(replies, attempt).pages| <= |replies|
    decreases MaxPages - attempt
  {
    if attempt < MaxPages && attempt < |replies| && Advances(replies[attempt]) {
      PaginateBound(replies, attempt + 1);
    }
  }

  /** The `i`-th kept page is the cards of the advancing reply at attempt `attempt + i`. */
  lemma {:induction false} PaginateAt(replies: seq<PageReply<Card>>, attempt: nat, i: nat)
    requires attempt <= MaxPages && i < |Paginate(replies, attempt).pages|
    ensures attempt + i < |replies| && Advances(replies[attempt + i])
    ensures Paginate(replies, attempt).pages[i] == replies[attempt + i].items
    decreases i
  {
    if i > 0 {
      PaginateAt(replies, attempt + 1, i - 1);
    }
  }

  /** Unless the cap ends the loop, it ends at the first reply after the kept pages. */
  lemma {:induction false} PaginateEnd(replies: seq<PageReply<Card>>, attempt: nat)
    requires attempt <= MaxPages && attempt <= |replies|
    ensures Paginate(replies, attempt).stop != PageCap
            ==> EndsWith(replies, attempt + |Paginate(replies, attempt).pages|, Paginate(replies, attempt).stop)
    decreases MaxPages - attempt
  {
    if attempt < MaxPages && attempt < |replies| && Advances(replies[attempt]) {
      PaginateEnd(replies, attempt + 1);
    }
  }

  /** When every page yields cards, exactly `MaxPages` pages are requested and
      all of them are kept. */
  lemma FullPagesHitCap(replies: seq<PageReply<Card>>)
    requires |replies| >= MaxPages
    requires forall j :: 0 <= j < MaxPages ==> Advances(replies[j])
    ensures var c := Paginate(replies, 0);
            c.stop == PageCap && Requests(c) == MaxPages
            && forall i :: 0 <= i < MaxPages ==> c.pages[i] == replies[i].items
  {
    PaginatePages(replies, 0);
  }

  /** A reply that does not advance at attempt `k` ends the loop there: `k + 1`
      requests, the pages before it kept, and the reason of that reply. */
  lemma EarlyStop(replies: seq<PageReply<Card>>, k: nat)
    requires k < MaxPages && k < |replies|
    requires forall j :: 0 <= j < k ==> Advances(replies[j])
    requires !Advances(replies[k])
    ensures var c := Paginate(replies, 0);
            Requests(c) == k + 1 && |c.pages| == k && c.stop == StopAt(replies[k])
  {
    PaginatePages(replies, 0);
  }

  /** The rows of the kept pages, page after page. */
  function PageRows(pages: seq<seq<Card>>): (rows: seq<Row>)
    ensures pages == [] ==> rows == []
    ensures |rows| <= CardCount(pages)
  {
    if pages == [] then [] else PageRows(pages[..|pages| - 1]) + ExtractPage(pages[|pages| - 1])
  }

  /** The rows of the kept pages are the rows of all their cards in order. */
  lemma {:induction false} PageRowsFlatten(pages: seq<seq<Card>>, cards: seq<Card>)
    requires cards == Concat(pages)
    ensures PageRows(pages) == ExtractPage(cards)
    decreases |pages|
  {
    if pages != [] {
      var init, last := pages[..|pages| - 1], pages[|pages| - 1];
      assert Concat(pages) == Concat(init) + last;
      PageRowsFlatten(init, Concat(init));
      ExtractPageAppend(Concat(init), last);
    }
  }

  /** The `for` loop of `scrapearMercadoLibre` as written: attempt counter `p`,
      page number `page`, running `offset`, the URL of each request, rows
      appended page by page, and a `break` on each failure. */
  method CrawlPages(base: string, replies: seq<PageReply<Card>>) returns (urls: seq<string>, rows: seq<Row>, stop: Stop)
    ensures var c := Paginate(replies, 0);
            urls == RequestUrls(base, c.pages, Requests(c)) && rows == PageRows(c.pages) && stop == c.stop
  {
    urls, rows, stop := [], [], PageCap;
    var offset: nat, page: nat, p: nat := 0, 1, 0;
    ghost var pages: seq<seq<Card>> := [];
    while p < MaxPages
      invariant p <= MaxPages && page == p + 1 && |pages| == p
      invariant offset == CardCount(pages) && rows == PageRows(pages)
      invariant urls == RequestUrls(base, pages, p)
      invariant Paginate(replies, 0) == Crawl(pages + Paginate(replies, p).pages, Paginate(replies, p).stop)
    {
      var url := PageUrl(base, page, offset);
      if p >= |replies| || !Advances(replies[p]) {
        stop := if p >= |replies| then Exhausted else StopAt(replies[p]);
        StopStep(base, replies, pages, p);
        urls := urls + [url];
        return;
      }
      var items := replies[p].items;
      KeepStep(base, replies, pages, p);
      urls := urls + [url];
      rows := rows + ExtractPage(items);
      offset := offset + |items|;
      page := page + 1;
      pages := pages + [items];
      p := p + 1;
    }
    assert pages + [] == pages;
  }

  /** The loop ends at attempt `p` when its reply does not advance or is missing. */
  lemma StopStep(base: string, replies: seq<PageReply<Card>>, pages: seq<seq<Card>>, p: nat)
    requires p < MaxPages && |pages| == p && (p >= |replies| || !Advances(replies[p]))
    requires Paginate(replies, 0) == Crawl(pages + Paginate(replies, p).pages, Paginate(replies, p).stop)
    ensures var c := Paginate(replies, 0);
            && c.pages == pages && Requests(c) == p + 1
            && c.stop == (if p >= |replies| then Exhausted else StopAt(replies[p]))
            && RequestUrls(base, c.pages, Requests(c))
               == RequestUrls(base, pages, p) + [PageUrl(base, p + 1, CardCount(pages))]
  {
    StopCrawl(replies, pages, p);
    StopPageUrls(base, pages);
  }

  /** What the loop gathered when it ends at attempt `p`. */
  lemma StopCrawl(replies: seq<PageReply<Card>>, pages: seq<seq<Card>>, p: nat)
    requires p < MaxPages && |pages| == p && (p >= |replies| || !Advances(replies[p]))
    requires Paginate(replies, 0) == Crawl(pages + Paginate(replies, p).pages, Paginate(replies, p).stop)
    ensures var c := Paginate(replies, 0);
            && c.pages == pages && Requests(c) == p + 1
            && c.stop == (if p >= |replies| then Exhausted else StopAt(replies[p]))
  {
    assert pages + [] == pages;
  }

  /** The request that ends the loop asks for the page after the kept ones. */
  lemma StopPageUrls(base: string, pages: seq<seq<Card>>)
    ensures RequestUrls(base, pages, |pages| + 1)
            == RequestUrls(base, pages, |pages|) + [PageUrl(base, |pages| + 1, CardCount(pages))]
  {
    assert pages[..|pages|] == pages;
  }

  /** The loop keeps the page of an advancing reply at attempt `p` and goes on. */
  lemma KeepStep(base: string, replies: seq<PageReply<Card>>, pages: seq<seq<Card>>, p: nat)
    requires p < MaxPages && p < |replies| && Advances(replies[p]) && |pages| == p
    requires Paginate(replies, 0) == Crawl(pages + Paginate(replies, p).pages, Paginate(replies, p).stop)
    ensures var items := replies[p].items;
            && Paginate(replies, 0) == Crawl((pages + [items]) + Paginate(replies, p + 1).pages, Paginate(replies, p + 1).stop)
            && CardCount(pages + [items]) == CardCount(pages) + |items|
            && PageRows(pages + [items]) == PageRows(pages) + ExtractPage(items)
            && RequestUrls(base, pages + [items], p + 1)
               == RequestUrls(base, pages, p) + [PageUrl(base, p + 1, CardCount(pages))]
  {
    var items := replies[p].items;
    KeepCrawl(replies, pages, p);
    KeepPageOffset(pages, items);
    KeepPageRows(pages, items);
    KeepPageUrls(base, pages, items);
  }

  /** What the loop gathers from attempt `p` on once it keeps that page. */
  lemma KeepCrawl(replies: seq<PageReply<Card>>, pages: seq<seq<Card>>, p: nat)
    requires p < MaxPages && p < |replies| && Advances(replies[p]) && |pages| == p
    requires Paginate(replies, 0) == Crawl(pages + Paginate(replies, p).pages, Paginate(replies, p).stop)
    ensures Paginate(replies, 0)
            == Crawl((pages + [replies[p].items]) + Paginate(replies, p + 1).pages, Paginate(replies, p + 1).stop)
  {
    var items := replies[p].items;
    var later := Paginate(replies, p + 1).pages;
    assert Paginate(replies, p).pages == [items] + later;
    assert pages + ([items] + later) == (pages + [items]) + later;
  }

  /** Keeping one more page requests the URL at the offset of the pages before it. */
  lemma KeepPageUrls(base: string, pages: seq<seq<Card>>, items: seq<Card>)
    ensures RequestUrls(base, pages + [items], |pages| + 1)
            == RequestUrls(base, pages, |pages|) + [PageUrl(base, |pages| + 1, CardCount(pages))]
  {
    assert (pages + [items])[..|pages|] == pages;
    RequestUrlsExtend(base, pages, items, |pages|);
  }

  /** Keeping one more page adds its cards to the offset. */
  lemma KeepPageOffset(pages: seq<seq<Card>>, items: seq<Card>)
    ensures CardCount(pages + [items]) == CardCount(pages) + |items|
  {
    assert (pages + [items])[..|pages|] == pages;
  }

  /** Keeping one more page appends its rows. */
  lemma KeepPageRows(pages: seq<seq<Card>>, items: seq<Card>)
    ensures PageRows(pages + [items]) == PageRows(pages) + ExtractPage(items)
  {
    assert (pages + [items])[..|pages|] == pages;
  }

  // ---------------------------------------------------------------------------
  // scrapearMercadoLibre: conversion and statistics

  /** Statistics over converted rows: price figures over the positive prices
      only (0 when there are none), the mean rounded with `Math.round`, and
      distance figures over every row (the `k >= 0` filter keeps them all). */
  function Summarise(d: seq<PricedRow>): (s: Stats)
    ensures var pos := Positive(Prices(d));
      && (pos == [] ==> s.promedio == 0 && s.priceMin == 0.0 && s.priceMax == 0.0)
      && (pos != [] ==>
            && s.priceMin in pos && s.priceMax in pos && 0.0 < s.priceMin
            && (forall x :: x in pos ==> s.priceMin <= x <= s.priceMax)
            && s.promedio as real - 0.5 <= Sum(pos) / |pos| as real < s.promedio as real + 0.5
            && JsRound(s.priceMin) <= s.promedio <= JsRound(s.priceMax))
    ensures d == [] ==> s.kmMin == 0 && s.kmMax == 0
    ensures d != [] ==> s.kmMin in Kms(d) && s.kmMax in Kms(d)
                        && forall i :: 0 <= i < |d| ==> s.kmMin <= d[i].row.km <= s.kmMax
    ensures s.priceMin <= s.priceMax && 0 <= s.kmMin <= s.kmMax
  {
    var pos := Positive(Prices(d));
    var kms := Kms(d);
    var promedio := if pos != [] then JsRound(Sum(pos) / |pos| as real) else 0;
    if pos != [] then
      MeanBetween(pos);
      RoundMonotone(MinOf(pos), Sum(pos) / |pos| as real);
      RoundMonotone(Sum(pos) / |pos| as real, MaxOf(pos));
      Stats(promedio, MinOf(pos), MaxOf(pos),
            if kms != [] then MinInt(kms) else 0, if kms != [] then MaxInt(kms) else 0)
    else
      Stats(promedio, 0.0, 0.0,
            if kms != [] then MinInt(kms) else 0, if kms != [] then MaxInt(kms) else 0)
  }

  /** The search result: `datos` and the five statistics. */
  datatype SearchResult = SearchResult(datos: seq<PricedRow>, stats: Stats)

  /** A whole search: the URLs requested, what the loop did, whether the rate
      was requested, and the result. */
  datatype Run = Run(urls: seq<string>, crawl: Crawl, rateFetched: bool, result: SearchResult)

  /** `scrapearMercadoLibre(version, year)` given the replies to its page
      requests and to the rate request. */
  function ScrapearMercadoLibre(version: string, year: string, replies: seq<PageReply<Card>>,
                                rateReply: RateReply, parse: string -> Option<real>): (run: Run)
    ensures run.crawl == Paginate(replies, 0)
    ensures run.urls == RequestUrls(SearchUrl(version, year), run.crawl.pages, Requests(run.crawl))
    ensures 1 <= |run.urls| <= MaxPages
    ensures run.rateFetched <==> PageRows(run.crawl.pages) != []
    ensures !run.rateFetched ==> run.result == SearchResult([], ZeroStats)
    ensures run.rateFetched ==>
              var rate := ObtenerDolarOficial(rateReply, parse);
              && run.result.datos == Convert(PageRows(run.crawl.pages), rate)
              && run.result.stats == Summarise(run.result.datos)
  {
    var crawl := Paginate(replies, 0);
    var urls := RequestUrls(SearchUrl(version, year), crawl.pages, Requests(crawl));
    var rows := PageRows(crawl.pages);
    if rows == [] then
      Run(urls, crawl, false, SearchResult([], ZeroStats))
    else
      var datos := Convert(rows, ObtenerDolarOficial(rateReply, parse));
      Run(urls, crawl, true, SearchResult(datos, Summarise(datos)))
  }

  /** Every kept page lists a card, so the offset grows from one request to
      the next. */
  lemma KeptPagesNonEmpty(replies: seq<PageReply<Card>>, pages: seq<seq<Card>>)
    requires pages == Paginate(replies, 0).pages
    ensures forall k :: 0 <= k < |pages| ==> pages[k] != []
  {
    PaginatePages(replies, 0);
  }

  /** `scrapearMercadoLibre` never requests the same URL twice. */
  lemma ScrapearMercadoLibreUrlsDistinct(version: string, year: string, replies: seq<PageReply<Card>>,
                                         rateReply: RateReply, parse: string -> Option<real>)
    ensures var run := ScrapearMercadoLibre(version, year, replies, rateReply, parse);
            forall i, j :: 0 <= i < j < |run.urls| ==> run.urls[i] != run.urls[j]
  {
    var c := Paginate(replies, 0);
    KeptPagesNonEmpty(replies, c.pages);
    RequestUrlsDistinct(SearchUrl(version, year), c.pages, Requests(c));
  }

  /** When the rate request fails, every dollar price is converted at the
      fallback rate and every peso price is kept. */
  lemma UnreachableRateUsesFallback(version: string, year: string, replies: seq<PageReply<Card>>,
                                    parse: string -> Option<real>)
    ensures var run := ScrapearMercadoLibre(version, year, replies, RateUnreachable, parse);
            var rows := PageRows(run.crawl.pages);
            |run.result.datos| == |rows|
            && forall i :: 0 <= i < |rows| ==>
                 run.result.datos[i].row == rows[i]
                 && run.result.datos[i].precioArs ==
                      (if rows[i].esUsd then rows[i].bruto as real * FallbackRate else rows[i].bruto as real)
  {
    var run := ScrapearMercadoLibre(version, year, replies, RateUnreachable, parse);
    var rows := PageRows(run.crawl.pages);
    var rate := ObtenerDolarOficial(RateUnreachable, parse);
    assert rate == FallbackRate;
    if rows != [] {
      assert run.result.datos == Convert(rows, rate);
    }
  }
}
