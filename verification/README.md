# Used-car listing scraper, modelled in Dafny

The repository searches a car marketplace for listings of a model and year,
turns every listing card into a fixed-schema row (`titulo`, `link`,
`vendedor`, `bruto`, `es_usd`, `modelo`, `km`, `ubic`), converts dollar
prices to pesos with the official sell rate of the national bank, and
reports the mean, minimum and maximum price and the minimum and maximum
distance. The pipeline exists twice, and the two copies follow different
rules. This project models both, side by side, without reconciling them:

- `ScraperUtils` (scraper_utils.dfy) is the TypeScript copy in
  lib/scraper-utils.ts: `obtenerDolarOficial` and `scrapearMercadoLibre`.
  It collapses white-space runs in the slug and lower-cases its ASCII and
  Latin-1 capitals. It stops after 5
  pages. It falls back to defaults for every missing part of a card. Its
  statistics use only positive prices, rounded with `Math.round`.
- `Scraper` (scraper.dfy) is the Python copy in api/scraper.py:
  `obtener_dolar_oficial`, `scrapear` and the validation and error mapping
  of `api_search`. Its loop has no page cap. It detects dollars by
  substring. It raises on a card without a price element and on a distance
  without digits, and `api_search` answers 500 with the exception's
  message. Its statistics use every price, rounded half to even.
- `Listing` holds what both share: rows, page and rate replies, page URLs,
  currency conversion, and min/max/sum.
- `Text` and `Numbers` hold the string and number primitives of the two
  runtimes. These are JavaScript's `trim`, `\s`, `parseInt` and
  `Math.round`, and Python's `strip`, `in`, `int` and `round`.
- `ScraperUtilsCases` and `ScraperCases` hold worked cases. `Divergences`
  relates the two copies: where they agree, and inputs on which they
  disagree.

The network and the HTML parser are replaced by their results:

- A page request is a `PageReply`: either `Unreachable(reason)` (the
  request threw) or `Reply(status, items)`, where the items are
  already-decomposed cards.
- A search is driven by the finite sequence of replies its requests
  receive. Running out of replies ends the loop with the extra reason
  `Exhausted`.
- The bank request is a `RateReply`. Float parsing (`parseFloat`, `float`)
  is a parameter `parse: string -> Option<real>`, where `None` stands for
  NaN or a raised `ValueError`.
- Prices and the rate are exact reals.

## Model

| member | source | states |
|---|---|---|
| ScraperUtils.RateText | lib/scraper-utils.ts:36 | The normalised rate text is no longer than the tag's text, has at most one ".", and has none when the tag had no ",". |
| ScraperUtils.RateTextReadsDecimalComma | lib/scraper-utils.ts:36-37 | A figure "a,b" written with thousands dots and a decimal comma, with any JavaScript white space before and after it, reaches the parser as the digits of `a`, then ".", then `b`: " 1.155,50 " becomes "1155.50". |
| ScraperUtils.ObtenerDolarOficial | lib/scraper-utils.ts:18-45 | The rate is 1155.0 when the request throws, the status is not 2xx or the sell element is missing. With a 2xx status and a sell text that parses, it is the parsed value. Otherwise it is 1155.0. It never fails. |
| ScraperUtils.ParseBruto | lib/scraper-utils.ts:108 | The price is what `parseInt` reads from the text with its dots removed, or 0 when that is NaN. An empty text gives 0, and a text of digits gives the number they denote. |
| ScraperUtils.ParseBrutoNoDigit | lib/scraper-utils.ts:108 | A price text without any digit gives 0. |
| ScraperUtils.ParseBrutoNegative | lib/scraper-utils.ts:108 | A price text of "-" followed by digits gives the negated number, because `parseInt` accepts the sign. |
| ScraperUtils.PrintedPriceReadsBack | lib/scraper-utils.ts:108 | Every integer, printed in decimal with its sign, is read back as itself. |
| ScraperUtils.IsUsd | lib/scraper-utils.ts:106-109 | A symbol text marks dollars only when it is "U$S" with nothing but white space around it. |
| ScraperUtils.PaddedSymbolIsUsd | lib/scraper-utils.ts:106-109 | Conversely, "U$S" with only white space around it marks dollars. |
| ScraperUtils.SymbolCases | lib/scraper-utils.ts:109 | "U$S" marks a dollar price; "$" and the empty symbol do not. |
| ScraperUtils.ParseKm | lib/scraper-utils.ts:115 | The distance is the number formed by the text's digits, or 0 when it has none. It is never negative. |
| ScraperUtils.ParseKmReadsBack | lib/scraper-utils.ts:115 | A number followed by a unit without digits (such as "45000 km") reads back as that number. |
| ScraperUtils.ContentRow | lib/scraper-utils.ts:97-129 | Title and link are never empty. The title is the trimmed heading, or "N/D" when that is empty or the anchor is missing. The link is the `href`, or "#" when it is empty or missing. The seller is always "N/A". `es_usd` holds iff the trimmed symbol is exactly "U$S". `bruto` is read from the trimmed fraction text, or is 0 without one. `modelo` is the first attribute trimmed, `km` is read from the second trimmed, and `ubic` is the location trimmed; each is empty or 0 when its part is missing. |
| ScraperUtils.ContentRowReadsBack | lib/scraper-utils.ts:97-129 | A row with a non-empty trimmed title, a non-empty link, seller "N/A", and trimmed model and location is recovered from the card a page shows for it: title and link in the anchor, the printed price, "U$S" or "$", the model, "<km> km" and the location. |
| ScraperUtils.ExtractCard | lib/scraper-utils.ts:94-95 | A card yields no row exactly when it lacks the content wrapper. |
| ScraperUtils.ExtractPage | lib/scraper-utils.ts:92-130 | A page yields at most one row per card: exactly one each when every card has content, none when no card does. |
| ScraperUtils.ExtractPageAppend | lib/scraper-utils.ts:92-130 | Extraction runs card by card: cards `a` then `b` give the rows of `a` then those of `b`. |
| ScraperUtils.PageRows | lib/scraper-utils.ts:92-132 | No kept pages give no rows, and the kept pages give at most one row per card. |
| ScraperUtils.PageRowsFlatten | lib/scraper-utils.ts:120-130 | The rows of the kept pages are the rows of all their cards, in page-then-card order. |
| ScraperUtils.SearchUrl | lib/scraper-utils.ts:59-60 | The search URL starts with the marketplace host, and no white space or ASCII capital follows it. |
| ScraperUtils.SearchUrlSlug | lib/scraper-utils.ts:59-60 | When the version does not end and the year does not start with white space, the URL is the host, then the version and the year each with its white-space runs turned into "-" and lower-cased, joined by one "-". |
| ScraperUtils.SearchUrlPlain | lib/scraper-utils.ts:59-60 | Without white space in version or year, the URL is the host followed by "version-year" lower-cased. |
| ScraperUtils.Paginate | lib/scraper-utils.ts:69-90 | At most 5 pages are kept, and the loop stops at the cap exactly when all 5 are. |
| ScraperUtils.Requests | lib/scraper-utils.ts:73-90 | A crawl made one request per kept page, plus one more exactly when the cap did not end it. |
| ScraperUtils.PaginatePages | lib/scraper-utils.ts:73-90 | Each kept page is the cards of an advancing reply, in request order. Unless the cap ends the loop, it ends at the first reply that does not advance, for that reply's reason. |
| ScraperUtils.FullPagesHitCap | lib/scraper-utils.ts:69-73 | When every page has cards, exactly 5 requests are made and all 5 pages are kept. |
| ScraperUtils.EarlyStop | lib/scraper-utils.ts:77-90 | A failed, non-2xx or empty reply at attempt `k` ends the loop there: `k + 1` requests, `k` pages kept, and that reply's reason. |
| ScraperUtils.CrawlPages | lib/scraper-utils.ts:66-141 | The `for` loop as written (attempt counter, page number, running offset, break on each failure) requests the URLs of `RequestUrls` and gathers the rows of the pages the recursive loop keeps, with the same stop reason. |
| ScraperUtils.KeptPagesNonEmpty | lib/scraper-utils.ts:86-90 | Every page the loop keeps lists at least one card. |
| ScraperUtils.ScrapearMercadoLibreUrlsDistinct | lib/scraper-utils.ts:74 | No URL is requested twice in one search. |
| ScraperUtils.Summarise | lib/scraper-utils.ts:155-162 | Price figures use positive prices only: all 0 when there are none, otherwise min and max are among them and bound them, the mean is within half a unit of the true mean, and it lies between the rounded extremes. Distance figures are among and bound all rows' distances, and are 0 for no rows. |
| ScraperUtils.ScrapearMercadoLibre | lib/scraper-utils.ts:48-174 | Between 1 and 5 URLs are requested. With no rows the rate is never fetched and every figure is 0. Otherwise every row is converted at the fetched rate, in order, and summarised. |
| ScraperUtils.UnreachableRateUsesFallback | lib/scraper-utils.ts:149-153 | When the bank is unreachable, dollar prices are converted at 1155.0 and peso prices are kept, row by row. |
| ScraperUtilsCases.TwoListingsPrices | lib/scraper-utils.ts:150-153 | Rows of 5000000 pesos and 20000 dollars at the fallback rate are priced 5000000 and 23100000. |
| ScraperUtilsCases.TwoListingsStats | lib/scraper-utils.ts:155-162 | Those two prices give mean 14050000, minimum 5000000 and maximum 23100000. |
| Scraper.RateText | api/scraper.py:21 | The normalised rate text is no longer than the tag's text and has no ",". It has no "." when the tag had no ",". |
| Scraper.RateTextReadsDecimalComma | api/scraper.py:21 | A figure "a,b" written with thousands dots and a decimal comma, with any Python white space before and after it, reaches the parser as the digits of `a`, then ".", then `b`. |
| Scraper.ObtenerDolarOficial | api/scraper.py:16-23 | The rate is 1155.0 when the request raises or the sell element is missing. Otherwise it is the parsed text, or 1155.0 when parsing raises. |
| Scraper.RateStatusIgnored | api/scraper.py:18-21 | Two rate replies that differ only in HTTP status give the same rate. |
| Scraper.PriceText | api/scraper.py:56 | The joined price text is empty iff every text node is white space. A single node gives that node stripped. |
| Scraper.PriceTextAppend | api/scraper.py:56 | The text of two runs of text nodes in sequence is the two texts joined by one space, an empty side dropped. |
| Scraper.PriceStart | api/scraper.py:57 | The search for `[\d\.,]` stops at the first character of the pattern, or at the end when there is none. |
| Scraper.PriceRun | api/scraper.py:57 | The match is the longest prefix of pattern characters. |
| Scraper.Bruto | api/scraper.py:57-59 | `bruto` is the number formed by the digits of the first run of digits, dots and commas, or 0 when there is no such run or it has no digit. |
| Scraper.BrutoNoDigit | api/scraper.py:57-59 | A price text without any digit gives 0. |
| Scraper.BrutoReadsFirstNumber | api/scraper.py:56-59 | Whatever follows, a text whose first run of digits, dots and commas holds a digit gives as `bruto` the number formed by that run's digits. |
| Scraper.SeparatorsLeaveDigits | api/scraper.py:58 | In a run of the price pattern, removing the dots and commas leaves exactly its digits. |
| Scraper.Km | api/scraper.py:65-66 | An empty distance text gives 0. A text with digits gives the number they form. A non-empty text without digits raises. |
| Scraper.KmReadsBack | api/scraper.py:66 | A number followed by a unit without digits reads back as that number. |
| Scraper.ContentRow | api/scraper.py:46-81 | The card raises the missing-price error iff it has no price element. It raises the distance error iff it has a price element and a second attribute whose stripped text is non-empty without digits. Nothing else raises, for digit strings within `int`'s length limit. A built row has the stripped anchor text and the `href` (defaults "N/D" and "#"), the stripped seller or "", `bruto` and `es_usd` from the joined price text, the first attribute stripped, `km` read from the second stripped (0 without it), and the stripped location or "". |
| Scraper.ContentRowReadsBack | api/scraper.py:46-81 | A row with a price that is not negative and stripped title, seller, model and location is recovered from the card a page shows for it: anchor, seller, "US$" or "$" and the printed price as two text nodes, the model, "<km> km" and the location. |
| Scraper.PriceReadsBack | api/scraper.py:56-60 | The price nodes "US$" or "$" and a printed number give that number, and a dollar price exactly for "US$". |
| Scraper.CardRows | api/scraper.py:41-44 | A card without a content element contributes nothing. Any other card contributes its row or raises its exception. |
| Scraper.IsUsd | api/scraper.py:60 | A price text marks dollars iff "U$S" or "US$" occurs in it at some position. |
| Scraper.ExtractPage | api/scraper.py:41-81 | A page that does not raise yields at most one row per card. A page of one card gives exactly that card's row, nothing for a card without content, or that card's exception. |
| Scraper.ExtractPageNoContent | api/scraper.py:42-44 | A page whose cards all lack content yields no rows. |
| Scraper.ExtractPageAppend | api/scraper.py:41-81 | Cards `a` then `b` give the rows of `a` then those of `b`, and an exception in `a` wins. |
| Scraper.ExtractPageRaises | api/scraper.py:41-81 | A page raises iff one of its cards does, and then with the exception of the first such card. |
| Scraper.SearchUrl | api/scraper.py:26-27 | The URL is the host followed by "version year", character by character, each space replaced by "-" and every other character kept, case included. |
| Scraper.SearchUrlPlain | api/scraper.py:26-27 | Without spaces in version or year, the URL is the host followed by "version-year". |
| Scraper.StepOf | api/scraper.py:33-81 | A reply is kept iff it is a 200 page with cards, none of which raises, and then its cards are kept. The loop raises at a reply iff the request raised, or a card of a 200 page with cards raised. |
| Scraper.Steps | api/scraper.py:31-44 | There is one step per reply, and step `j` is what the loop does with reply `j`. |
| Scraper.Paginate | api/scraper.py:31-39 | The loop started at request `k` keeps no more pages than there are replies from `k` on. |
| Scraper.PaginatePages | api/scraper.py:31-39 | Each kept page is the cards of a kept step, in request order, and the loop ends at the first step that ends it. |
| Scraper.NoPageCap | api/scraper.py:31 | However many consecutive pages are kept, the loop keeps them all; there is no cap. |
| Scraper.PageRows | api/scraper.py:41-83 | The kept pages give at most one row per card. |
| Scraper.PageRowsFlatten | api/scraper.py:41-83 | When no card of the kept pages raises, their rows are the rows of all their cards, in page-then-card order. |
| Scraper.KeptPagesAreGood | api/scraper.py:33-39 | Every kept page is a 200 reply with cards, none of which raises. |
| Scraper.Summarise | api/scraper.py:86-97 | Every figure is 0 for no rows. Otherwise min and max are among all prices and bound them, including zeros. The mean is within half a unit of the true mean, is even when the true mean lies halfway, and lies between the half-to-even-rounded extremes. Distance figures are among and bound all distances. |
| Scraper.Scrapear | api/scraper.py:25-99 | The URLs are those of the kept pages plus the one that ended the loop. The call raises iff the loop did, with the same exception; this holds for a rate that is a real number, not for the NaN or infinity `float` can return. The rate is fetched iff nothing raised, even when no row was kept. With no rows the report is empty with zero figures. |
| Scraper.ScrapearRaises | api/scraper.py:33-66 | The call raises iff the reply after the last kept page raises, and the exception is that reply's. |
| Scraper.CrawlUrlsDistinct | api/scraper.py:32 | The URLs of a crawl are pairwise distinct. |
| Scraper.ScrapearUrlsDistinct | api/scraper.py:83 | No URL is requested twice in one search, because each kept page moves the offset forward. |
| Scraper.ApiSearch | api/scraper.py:101-121 | The answer is 400 "Versión requerida" iff the version is missing or white space. Otherwise it is 500 with the exception's message iff the scrape raises, and the report iff it does not. |
| ScraperCases.UsdMarkCases | api/scraper.py:60 | "US$ 100" and "U$S 100" are dollar prices; "$ 100" is not. |
| ScraperCases.LoneSeparatorIsZero | api/scraper.py:57-59 | The price text "." gives `bruto` 0. |
| Listing.PageUrl | api/scraper.py:32 | Page 1 uses the base URL. Later pages use base + "_Desde_" + (offset + 1). |
| Listing.PageUrlInjective | api/scraper.py:32 | Two later pages share a URL only if they share an offset. |
| Listing.RequestUrls | lib/scraper-utils.ts:74 | The first `n` requests of a crawl are `n` URLs, one per request. |
| Listing.RequestUrlsAt | lib/scraper-utils.ts:74 | Request `i` asks for page `i + 1` at the offset of all cards on the pages before it, skipped cards included. |
| Listing.RequestUrlsExtend | lib/scraper-utils.ts:132-133 | Keeping another page does not change the URLs already requested. |
| Listing.RequestUrlsDistinct | lib/scraper-utils.ts:132-133 | When every kept page lists a card, the requested URLs are pairwise distinct. |
| Listing.CardCountGrows | lib/scraper-utils.ts:132 | The offset strictly grows across non-empty pages. |
| Listing.LocalPrice | api/scraper.py:88 | A dollar price is multiplied by the rate; a peso price is kept. |
| Listing.Convert | lib/scraper-utils.ts:150-153 | Conversion keeps the order and every row, and adds each row's local price. |
| Listing.Positive | lib/scraper-utils.ts:155 | Exactly the positive prices are kept, and all of them when every price is positive. |
| Listing.PositiveAppend | lib/scraper-utils.ts:155 | Filtering distributes over concatenation, so each positive price keeps its place and multiplicity. |
| Listing.MeanBetween | lib/scraper-utils.ts:158 | The mean of a non-empty sequence lies between its minimum and maximum. |
| Numbers.JsParseInt | lib/scraper-utils.ts:108 | `parseInt` gives NaN exactly when no digit follows the leading white space and optional sign. Otherwise it gives the value of the leading digits, negated after a "-". |
| Numbers.JsParseIntSigned | lib/scraper-utils.ts:108 | After white space and an optional sign, `parseInt` reads the digits up to the first non-digit, and the sign applies to them. |
| Numbers.JsParseIntDigits | lib/scraper-utils.ts:108 | A non-empty string of digits parses to the number it denotes. |
| Numbers.JsParseIntRoundTrip | lib/scraper-utils.ts:115 | `parseInt` reads back a printed natural number. |
| Numbers.JsRound | lib/scraper-utils.ts:158 | `Math.round` gives the nearest integer, with halves rounded up. |
| Numbers.PyRound | api/scraper.py:93 | `round` gives the nearest integer, with halves rounded to even. |
| Numbers.JsRoundUnique | lib/scraper-utils.ts:158 | `Math.round(x)` is the one integer `r` with `r - 0.5 <= x < r + 0.5`. |
| Numbers.PyRoundUnique | api/scraper.py:93 | `round(x)` is the one integer within 0.5 of `x` that is even when `x` lies halfway. |
| Numbers.RoundingsDiffer | api/scraper.py:93 | The two rules differ iff the value is a half whose lower neighbour is even, and then by exactly one. |
| Numbers.RoundMonotone | lib/scraper-utils.ts:158 | Both rounding rules are monotone. |
| Numbers.DecimalCommaFirstReplaced | lib/scraper-utils.ts:36 | Trimming, dropping dots and replacing the first comma turn "a,b" with thousands dots in `a` and any JavaScript white space around it into the digits of `a`, ".", `b`. |
| Numbers.DecimalCommaAllReplaced | api/scraper.py:21 | Stripping, dropping dots and replacing every comma turn "a,b" with thousands dots in `a` and any Python white space around it into the digits of `a`, ".", `b`. |
| Text.Trim | lib/scraper-utils.ts:98 | The result is empty iff the text is all white space. Otherwise it neither starts nor ends with white space. It occurs inside the text with only white space before and after it. A text without white space at either end is its own trim. |
| Text.TrimPadded | lib/scraper-utils.ts:109 | Trimming a text that neither starts nor ends with white space, with white space around it, gives the text. |
| Text.TrimIdempotent | lib/scraper-utils.ts:98 | Trimming twice is trimming once. |
| Text.TrimKeeps | api/scraper.py:21 | Trimming keeps only characters of the original. |
| Text.RemoveChar | lib/scraper-utils.ts:108 | Exactly the other characters remain. |
| Text.RemoveCharAppend | lib/scraper-utils.ts:108 | Removing a character distributes over concatenation. |
| Text.ReplaceChar | api/scraper.py:21 | Every occurrence is replaced, position by position. |
| Text.ReplaceFirst | lib/scraper-utils.ts:36 | Only the first occurrence is replaced. |
| Text.ReplaceFirstIsReplaceAll | lib/scraper-utils.ts:36 | With at most one occurrence, replacing the first is replacing all. |
| Text.Contains | api/scraper.py:60 | The substring test holds iff the pattern occurs at some position. |
| Text.ReplaceRuns | lib/scraper-utils.ts:60 | No white space is left. The result is no longer than the text, and a text without white space is unchanged. |
| Text.ReplaceRunsJoin | lib/scraper-utils.ts:60 | A white-space run between a side that ends and a side that starts with a non-space becomes one separator, and each side is processed on its own. |
| Text.LowerChar | lib/scraper-utils.ts:60 | An ASCII capital becomes the small letter at the same place of the alphabet "abcdefghijklmnopqrstuvwxyz". A Latin-1 capital from U+00C0 to U+00DE, other than U+00D7, becomes the small letter 32 code points above it. Every other character is kept. |
| Text.ToLower | lib/scraper-utils.ts:60 | Lower-casing is character by character and leaves no ASCII capital. |
| Text.AsciiAlphabetLowered | lib/scraper-utils.ts:60 | "ABCDEFGHIJKLMNOPQRSTUVWXYZ" lower-cases to "abcdefghijklmnopqrstuvwxyz". |
| Text.Latin1Lowered | lib/scraper-utils.ts:60 | The Latin-1 capitals "ÀÁÂÃÄÅÆÇÈÉÊËÌÍÎÏÐÑÒÓÔÕÖØÙÚÛÜÝÞ" lower-case to "àáâãäåæçèéêëìíîïðñòóôõöøùúûüýþ". |
| Text.ToLowerAppend | lib/scraper-utils.ts:60 | Lower-casing distributes over concatenation. |
| Text.KeepDigits | api/scraper.py:66 | Only digits remain: all of the text's digits and nothing else. |
| Text.KeepDigitsAppend | lib/scraper-utils.ts:115 | Keeping digits distributes over concatenation. |
| Text.NatToString | lib/scraper-utils.ts:74 | Printing a number gives a non-empty string of digits with no leading zero. |
| Text.NatToStringRoundTrip | api/scraper.py:32 | Reading a printed number gives the number back. |
| Divergences.ZeroPriceDivergence | lib/scraper-utils.ts:155-159 | A free listing next to one of 100 gives a TypeScript minimum of 100 and a Python minimum of 0. |
| Divergences.EmptySearchDivergence | api/scraper.py:87 | When the first page has no cards, only Python requests the rate. Both report nothing. |
| Divergences.TransportErrorDivergence | lib/scraper-utils.ts:137-140 | When the first request throws, TypeScript stops with nothing kept and Python raises the transport error. |
| Divergences.RoundingDivergence | lib/scraper-utils.ts:158 | Prices 2 and 3 give a TypeScript mean of 3 and a Python mean of 2. |
| Divergences.RatesAgreeOnFigures | api/scraper.py:21 | A 2xx reply whose sell text is a figure with thousands dots and a decimal comma, with white space around it that both languages strip, gives both copies the same rate. |
| Divergences.SearchUrlsAgree | api/scraper.py:26-27 | A version and year without white space or capitals give both copies the same URL. |
| Divergences.SummariesAgree | api/scraper.py:93-97 | When every converted price is positive, both copies report the same price and distance extremes. Their means differ by one exactly on a half whose lower neighbour is even, and are equal otherwise. |
| Divergences.MeansRounded | api/scraper.py:93 | When every converted price is positive, each copy rounds the mean of all prices by its own rule. |

## Where the Python copy departs from the TypeScript one

The model follows each copy's own code:

- **TypeScript `bruto` can be negative; Python's cannot.** `parseInt`
  accepts a leading sign, so a fraction text such as "-5" gives -5
  (lib/scraper-utils.ts:108, `ParseBrutoNegative`). The Python price
  pattern has no sign (api/scraper.py:57-59). `Row.bruto` is therefore an
  `int`.
- **Python ignores the rate reply's status.** TypeScript falls back on any
  status outside 2xx (lib/scraper-utils.ts:27-30). `obtener_dolar_oficial`
  never checks it, and reads the sell element from any page, even a 404
  (api/scraper.py:18-21, `RateStatusIgnored`).
- **A Python transport failure is fatal.** When a TypeScript page request
  throws, the loop stops with what it has (lib/scraper-utils.ts:137-140).
  In Python the exception escapes `scrapear`, and `api_search` answers 500
  (api/scraper.py:33 and 110-121, `TransportErrorDivergence`).
- **The Python copy differs in several other ways.** It has no page cap. It
  computes statistics over all prices, including zeros, and rounds the mean
  half to even. It requests the rate even when no row was kept.

## Left out

- HTTP requests, headers, the User-Agent, response caching, the 500 ms pause
  between pages and all logging. These are I/O and timing. Each request is
  replaced by the reply it received.
- HTML parsing and CSS-selector matching by cheerio and BeautifulSoup. A card
  arrives already decomposed into the parts the selectors would find.
  cheerio's `.text()` on a selection of several elements concatenates their
  texts; the model takes that concatenated text as given.
- Floating point. Prices, the rate, sums and means are exact reals.
  `parseFloat`/`float` is the parameter `parse`, so which texts parse, and to
  what, is not modelled.
- Scraper.ObtenerDolarOficial: Python's `float` also accepts "nan", "inf"
  and "infinity" and returns a NaN or an infinity without raising, so the
  rate can be one. A dollar row then has a NaN or infinite price, and the
  `round` of the mean (api/scraper.py:93) raises outside the page loop, so
  `api_search` answers 500. The model's `parse` yields only exact reals, so
  this path is not modelled: `Scrapear` raises only when the loop did.
- Scraper.ContentRow: since Python 3.11, `int` refuses a digit string longer
  than 4300 digits with a `ValueError` (api/scraper.py:59 and :66). The
  model reads digit strings of any length, so such a card does not raise in
  it.
- Scraper.Km: Python's `\d` and `int` also accept non-ASCII decimal digits.
  The model treats only "0"–"9" as digits, in `Km`, `Bruto` and the price
  pattern.
- Scraper.ApiSearch: a body that is not JSON, or a `version` that is not a
  string (such as `null`), raises before the `try` and gives Flask's own
  error page. The model takes `version` and `year` as optional strings.
- Scraper.Message: `str(e)` of a transport exception is taken to be the
  reason carried by `Unreachable`; the exact text `requests` produces is not
  modelled.
- `Exhausted` is a stop reason the source does not have. It marks a search
  that asks for more pages than the supplied replies cover.
- ScraperUtils.Paginate: the three `break`s of the TypeScript loop (thrown
  error, non-2xx status, no items) are one step in the model. Nothing in the
  card extraction throws, so the `catch` only ever sees a failed request.
- Text.ToLower: JavaScript's `toLowerCase` lower-cases every Unicode
  capital. The model lower-cases only ASCII capitals and the Latin-1
  capitals U+00C0 to U+00DE other than U+00D7. A slug with Greek, Cyrillic
  or other capitals keeps them.
- The spreadsheet export (`api_export`), the mock search route, the health
  route, the proxy server and the user interface are outside the scraping
  core. The mock route reports `promedio` 12875000 for its two prices
  5000000 and 23100000, whose mean is 14050000 (app/api/search/route.ts:38).
