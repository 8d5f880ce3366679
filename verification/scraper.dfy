/** The Python pipeline of api/scraper.py: `obtener_dolar_oficial`, `scrapear`
    and the request handling of `api_search`.  Requests are replaced by the
    replies they received, BeautifulSoup's selectors by already-decomposed
    cards, and `float` by a parameter `parse` that answers `None` where
    `float` raises. */
module Scraper {
  import opened Optional
  import opened Text
  import opened Numbers
  import opened Listing

  const NoTitle: string := "N/D"
  const NoLink: string := "#"

  /** The `year` used when a request does not give one. */
  const DefaultYear: string := "2025"

  /** The message of the 400 answer to a request without a version. */
  const VersionRequired: string := "Versi\U{00F3}n requerida"

  /** The exceptions `scrapear` can raise. */
  datatype PyError =
    | TransportError(detail: string)  // `requests.get` raised
    | MissingPrice                    // a card without `div.poly-component__price`
    | KmNotNumeric                    // a distance text without any digit

  /** `str(e)` of each exception. */
  function Message(e: PyError): string {
    match e
    case TransportError(detail) => detail
    case MissingPrice => "'NoneType' object has no attribute 'get_text'"
    case KmNotNumeric => "invalid literal for int() with base 10: ''"
  }

  // ---------------------------------------------------------------------------
  // obtener_dolar_oficial

  /** The sell-rate text as handed to `float`: stripped, every "." removed and
      every "," turned into ".". */
  function RateText(tag: string): (t: string)
    ensures |t| <= |tag|
    ensures ',' !in t
    ensures ',' !in tag ==> '.' !in t
  {
    var trimmed := Trim(tag, Py);
    var s := RemoveChar(trimmed, '.');
    assert ',' in s ==> ',' in tag by {
      if ',' in s {
        TrimKeeps(tag, Py, ',');
      }
    }
    ReplaceCharMembers(s, ',', '.');
    ReplaceChar(s, ',', '.')
  }

  /** The official dollar sell rate, or 1155.0 when the request raises, the
      `span.value.sell` element is missing or its text does not parse.  The
      status of the reply is not looked at. */
  function ObtenerDolarOficial(reply: RateReply, parse: string -> Option<real>): (rate: real)
    ensures reply.RateUnreachable? ==> rate == FallbackRate
    ensures reply.RateReply? && reply.sellTag.None? ==> rate == FallbackRate
    ensures reply.RateReply? && reply.sellTag.Some? && parse(RateText(reply.sellTag.value)).Some?
            ==> rate == parse(RateText(reply.sellTag.value)).value
    ensures rate == FallbackRate
            || (reply.RateReply? && reply.sellTag.Some? && parse(RateText(reply.sellTag.value)) == Some(rate))
  {
    match reply
    case RateUnreachable => FallbackRate
    case RateReply(_, sellTag) =>
      match sellTag
      case None => FallbackRate
      case Some(text) => parse(RateText(text)).GetOr(FallbackRate)
  }

  /** A rate written with thousands dots and a decimal comma reads as its
      digits with a decimal point, whatever white space surrounds it:
      " 1.155,50 " becomes "1155.50". */
  lemma RateTextReadsDecimalComma(pre: string, a: string, b: string, post: string)
    requires AllSpace(pre, Py) && AllSpace(post, Py)
    requires DottedDigits(a) && AllDigits(b)
    ensures RateText(pre + a + "," + b + post) == RemoveChar(a, '.') + "." + b
  {
    DecimalCommaAllReplaced(pre, a, b, post);
    FigureGrouping(pre, a, b, post);
  }

  /** Unlike the TypeScript reader, the status of the rate reply is never
      consulted: two replies that differ only in status give the same rate. */
  lemma RateStatusIgnored(s1: int, s2: int, sellTag: Option<string>, parse: string -> Option<real>)
    ensures ObtenerDolarOficial(RateReply(s1, sellTag), parse) == ObtenerDolarOficial(RateReply(s2, sellTag), parse)
  {
  }

  // ---------------------------------------------------------------------------
  // Listing cards

  /** The `h3.poly-component__title-wrapper a` anchor: its text and its `href`. */
  datatype Anchor = Anchor(text: string, href: Option<string>)

  /** The `div.poly-card__content` of a card: title anchor, seller, the text
      nodes under the price element (when there is one), attribute texts and
      location, as found in the markup (unstripped). */
  datatype Content = Content(
    anchor: Option<Anchor>,
    seller: Option<string>,
    price: Option<seq<string>>,
    attributes: seq<string>,
    location: Option<string>)

  /** One `li.ui-search-layout__item`; it may lack the content element. */
  datatype Card = Card(content: Option<Content>)

  /** `if a`: the title anchor was found (a found element is true even
      without child nodes). */
  predicate HasTitle(c: Content) {
    c.anchor.Some?
  }

  /** `if not c: continue` does not skip: the content element was found. */
  predicate HasContent(card: Card) {
    card.content.Some?
  }

  /** `get_text(" ", strip=True)`: every text node stripped, the empty ones
      dropped, the rest joined by single spaces. */
  function PriceText(pieces: seq<string>): (t: string)
    ensures t == [] <==> forall i :: 0 <= i < |pieces| ==> AllSpace(pieces[i], Py)
    ensures |pieces| == 1 ==> t == Trim(pieces[0], Py)
  {
    if pieces == [] then []
    else
      assert forall i :: 1 <= i < |pieces| ==> pieces[i] == pieces[1..][i - 1];
      JoinSpace(Trim(pieces[0], Py), PriceText(pieces[1..]))
  }

  /** Two texts joined by one space, an empty side dropped. */
  function JoinSpace(x: string, y: string): string {
    if x == [] then y else if y == [] then x else x + " " + y
  }

  /** Joining by spaces does not depend on grouping. */
  lemma JoinSpaceAssociative(x: string, y: string, z: string)
    ensures JoinSpace(x, JoinSpace(y, z)) == JoinSpace(JoinSpace(x, y), z)
  {
    if x != [] && y != [] && z != [] {
      assert x + " " + (y + " " + z) == x + " " + y + " " + z;
    }
  }

  /** The text of the pieces of `a` followed by those of `b` is the text of
      `a` and the text of `b` joined by one space. */
  lemma {:induction false} PriceTextAppend(a: seq<string>, b: seq<string>)
    ensures PriceText(a + b) == JoinSpace(PriceText(a), PriceText(b))
  {
    if a == [] {
      assert a + b == b;
    } else {
      assert (a + b)[0] == a[0];
      assert (a + b)[1..] == a[1..] + b;
      PriceTextAppend(a[1..], b);
      JoinSpaceAssociative(Trim(a[0], Py), PriceText(a[1..]), PriceText(b));
    }
  }

  /** The characters of the price pattern `[\d\.,]`. */
  predicate IsPriceChar(c: char) {
    IsDigit(c) || c == '.' || c == ','
  }

  /** The position of the first character of the price pattern, or the
      length when there is none. */
  function PriceStart(s: string): (k: nat)
    ensures k <= |s|
    ensures forall i :: 0 <= i < k ==> !IsPriceChar(s[i])
    ensures k == |s| || IsPriceChar(s[k])
  {
    if s == [] || IsPriceChar(s[0]) then 0
    else
      var k := 1 + PriceStart(s[1..]);
      assert forall i :: 1 <= i < k ==> s[i] == s[1..][i - 1];
      k
  }

  /** The longest prefix made of characters of the price pattern. */
  function PriceRun(s: string): (r: string)
    ensures r <= s
    ensures forall i :: 0 <= i < |r| ==> IsPriceChar(r[i])
    ensures |r| == |s| || !IsPriceChar(s[|r|])
  {
    if s != [] && IsPriceChar(s[0]) then [s[0]] + PriceRun(s[1..]) else []
  }

  /** The first match of `([\d\.,]+)` in the price text, empty when none. */
  function PriceMatch(raw: string): (run: string)
    ensures forall i :: 0 <= i < |run| ==> IsPriceChar(run[i])
  {
    PriceRun(raw[PriceStart(raw)..])
  }

  /** `bruto`: the first match of the price pattern with "." and "," removed,
      as an integer when something is left; 0 otherwise. */
  function Bruto(raw: string): (b: nat)
    ensures KeepDigits(PriceMatch(raw)) == [] ==> b == 0
    ensures KeepDigits(PriceMatch(raw)) != [] ==> b == DigitsValue(KeepDigits(PriceMatch(raw)))
  {
    var num := RemoveChar(RemoveChar(PriceMatch(raw), '.'), ',');
    SeparatorsLeaveDigits(PriceMatch(raw));
    if num != [] then DigitsValue(num) else 0
  }

  /** A price text without any digit gives 0. */
  lemma BrutoNoDigit(raw: string)
    requires forall i :: 0 <= i < |raw| ==> !IsDigit(raw[i])
    ensures Bruto(raw) == 0
  {
    var m := PriceMatch(raw);
    var k := PriceStart(raw);
    forall i | 0 <= i < |m| ensures !IsDigit(m[i]) {
      assert m[i] == raw[k..][i];
    }
    KeepDigitsNone(m);
  }

  /** `bruto` reads the first number of the text: after a prefix free of
      digits, dots and commas, a run of digits with thousands separators
      stands for the digits alone, whatever follows the run. */
  lemma BrutoReadsFirstNumber(prefix: string, run: string, suffix: string)
    requires forall i :: 0 <= i < |prefix| ==> !IsPriceChar(prefix[i])
    requires run != [] && forall i :: 0 <= i < |run| ==> IsPriceChar(run[i])
    requires suffix == [] || !IsPriceChar(suffix[0])
    requires KeepDigits(run) != []
    ensures Bruto(prefix + (run + suffix)) == DigitsValue(KeepDigits(run))
  {
    var rest := run + suffix;
    PriceStartAt(prefix, rest);
    assert (prefix + rest)[|prefix|..] == rest;
    PriceRunAt(run, suffix);
    SeparatorsLeaveDigits(run);
  }

  lemma {:induction false} PriceStartAt(prefix: string, rest: string)
    requires forall i :: 0 <= i < |prefix| ==> !IsPriceChar(prefix[i])
    requires rest != [] && IsPriceChar(rest[0])
    ensures PriceStart(prefix + rest) == |prefix|
  {
    if prefix != [] {
      assert (prefix + rest)[1..] == prefix[1..] + rest;
      PriceStartAt(prefix[1..], rest);
    }
  }

  lemma {:induction false} PriceRunAt(run: string, suffix: string)
    requires forall i :: 0 <= i < |run| ==> IsPriceChar(run[i])
    requires suffix == [] || !IsPriceChar(suffix[0])
    ensures PriceRun(run + suffix) == run
  {
    if run != [] {
      assert (run + suffix)[1..] == run[1..] + suffix;
      PriceRunAt(run[1..], suffix);
    } else {
      assert run + suffix == suffix;
    }
  }

  /** In a run of the price pattern, removing the separators keeps exactly
      the digits. */
  lemma {:induction false} SeparatorsLeaveDigits(run: string)
    requires forall i :: 0 <= i < |run| ==> IsPriceChar(run[i])
    ensures RemoveChar(RemoveChar(run, '.'), ',') == KeepDigits(run)
  {
    if run != [] {
      SeparatorsLeaveDigits(run[1..]);
      var c, tail := run[0], run[1..];
      var dotless := RemoveChar(tail, '.');
      if c == '.' {
        assert RemoveChar(run, '.') == dotless;
        assert KeepDigits(run) == KeepDigits(tail);
      } else {
        var once := [c] + dotless;
        assert RemoveChar(run, '.') == once;
        assert once[0] == c && once[1..] == dotless;
        if c == ',' {
          assert RemoveChar(once, ',') == RemoveChar(dotless, ',');
          assert KeepDigits(run) == KeepDigits(tail);
        } else {
          assert RemoveChar(once, ',') == [c] + RemoveChar(dotless, ',');
          assert KeepDigits(run) == [c] + KeepDigits(tail);
        }
      }
    }
  }

  /** `es_usd`: the price text contains "U$S" or "US$". */
  function IsUsd(raw: string): (b: bool)
    ensures b <==> (exists k :: OccursAt(raw, "U$S", k)) || (exists k :: OccursAt(raw, "US$", k))
  {
    Contains(raw, "U$S") || Contains(raw, "US$")
  }

  /** `kmn`: 0 for an empty distance text, otherwise `int` of its digits, which
      raises when there are none. */
  function Km(kmStr: string): (r: Result<nat, PyError>)
    ensures kmStr == [] ==> r == Ok(0)
    ensures kmStr != [] && KeepDigits(kmStr) == [] ==> r == Err(KmNotNumeric)
    ensures kmStr != [] && KeepDigits(kmStr) != [] ==> r == Ok(DigitsValue(KeepDigits(kmStr)))
  {
    if kmStr == [] then Ok(0)
    else
      var digits := KeepDigits(kmStr);
      if digits == [] then Err(KmNotNumeric) else Ok(DigitsValue(digits))
  }

  /** A distance written as a number followed by a unit ("45000 km") reads
      back as that number. */
  lemma KmReadsBack(n: nat, unit: string)
    requires forall i :: 0 <= i < |unit| ==> !IsDigit(unit[i])
    ensures Km(NatToString(n) + unit) == Ok(n)
  {
    FigureDigits(n, unit);
    NatToStringRoundTrip(n);
  }

  /** The row built from a card's content element, or the exception raised
      while building it: a missing price element is reported before a
      distance without digits. */
  function ContentRow(c: Content): (r: Result<Row, PyError>)
    ensures c.price.None? <==> r == Err(MissingPrice)
    ensures r == Err(KmNotNumeric) <==>
              && c.price.Some? && |c.attributes| > 1
              && Trim(c.attributes[1], Py) != [] && KeepDigits(Trim(c.attributes[1], Py)) == []
    ensures r.Err? ==> r.error == MissingPrice || r.error == KmNotNumeric
    ensures r.Ok? ==> && r.value.titulo == (if HasTitle(c) then Trim(c.anchor.value.text, Py) else NoTitle)
                      && r.value.link == (if HasTitle(c) && c.anchor.value.href.Some? then c.anchor.value.href.value else NoLink)
                      && r.value.vendedor == (if c.seller.Some? then Trim(c.seller.value, Py) else [])
                      && r.value.bruto == Bruto(PriceText(c.price.value))
                      && r.value.esUsd == IsUsd(PriceText(c.price.value))
                      && r.value.modelo == (if |c.attributes| > 0 then Trim(c.attributes[0], Py) else [])
                      && (|c.attributes| < 2 ==> r.value.km == 0)
                      && (|c.attributes| > 1 ==> Km(Trim(c.attributes[1], Py)) == Ok(r.value.km))
                      && r.value.ubic == (if c.location.Some? then Trim(c.location.value, Py) else [])
  {
    if c.price.None? then Err(MissingPrice)
    else
      var raw := PriceText(c.price.value);
      var kmStr := if |c.attributes| > 1 then Trim(c.attributes[1], Py) else "";
      match Km(kmStr)
      case Err(e) => Err(e)
      case Ok(km) =>
        Ok(Row(
          titulo := if HasTitle(c) then Trim(c.anchor.value.text, Py) else NoTitle,
          link := if HasTitle(c) && c.anchor.value.href.Some? then c.anchor.value.href.value else NoLink,
          vendedor := if c.seller.Some? then Trim(c.seller.value, Py) else "",
          bruto := Bruto(raw),
          esUsd := IsUsd(raw),
          modelo := if |c.attributes| > 0 then Trim(c.attributes[0], Py) else "",
          km := km,
          ubic := if c.location.Some? then Trim(c.location.value, Py) else ""))
  }

  /** The currency mark the listing pages show before a dollar price. */
  const UsdMark: string := "US$"

  /** The content element a listing page shows for a row: its title and link
      in the title anchor, its seller, the currency mark and the printed
      price as the two text nodes of the price element, the model year and
      the distance followed by " km" as the first two attributes, and its
      location. */
  function RenderContent(row: Row): Content
    requires row.bruto >= 0
  {
    Content(
      anchor := Some(Anchor(row.titulo, Some(row.link))),
      seller := Some(row.vendedor),
      price := Some([if row.esUsd then UsdMark else "$", NatToString(row.bruto)]),
      attributes := [row.modelo, NatToString(row.km) + " km"],
      location := Some(row.ubic))
  }

  /** Reading a card back: a row with a price that is not negative and texts
      without surrounding white space is recovered from the content element
      the page shows for it. */
  lemma {:induction false} ContentRowReadsBack(row: Row)
    requires row.bruto >= 0
    requires Trim(row.titulo, Py) == row.titulo && Trim(row.vendedor, Py) == row.vendedor
    requires Trim(row.modelo, Py) == row.modelo && Trim(row.ubic, Py) == row.ubic
    ensures ContentRow(RenderContent(row)) == Ok(row)
  {
    var sym := if row.esUsd then UsdMark else "$";
    PriceReadsBack(sym, row.bruto);
    KmAttributeReadsBack(row.km);
    ContentRowAssembles(RenderContent(row), row);
  }

  /** A content element whose parts read as the fields of `row` gives `row`. */
  lemma ContentRowAssembles(c: Content, row: Row)
    requires c.anchor == Some(Anchor(row.titulo, Some(row.link))) && Trim(row.titulo, Py) == row.titulo
    requires c.seller == Some(row.vendedor) && Trim(row.vendedor, Py) == row.vendedor
    requires c.price.Some? && Bruto(PriceText(c.price.value)) == row.bruto
    requires IsUsd(PriceText(c.price.value)) == row.esUsd
    requires |c.attributes| == 2 && Trim(c.attributes[0], Py) == row.modelo
    requires Km(Trim(c.attributes[1], Py)) == Ok(row.km)
    requires c.location == Some(row.ubic) && Trim(row.ubic, Py) == row.ubic
    ensures ContentRow(c) == Ok(row)
  {
  }

  /** The price element "<mark> <digits>" reads back as the number, in
      dollars exactly when the mark is "US$". */
  lemma {:induction false} PriceReadsBack(sym: string, n: nat)
    requires sym == UsdMark || sym == "$"
    ensures Bruto(PriceText([sym, NatToString(n)])) == n
    ensures sym == UsdMark ==> IsUsd(PriceText([sym, NatToString(n)]))
    ensures sym == "$" ==> !IsUsd(PriceText([sym, NatToString(n)]))
  {
    var d := NatToString(n);
    PricePieces(sym, d);
    MarkedFigureReadsBack(sym, n);
    if sym == UsdMark {
      DollarPriceIsUsd(d);
    } else {
      PesoPriceNotUsd(d);
    }
  }

  /** A dollar price "US$ <digits>" carries the dollar mark. */
  lemma DollarPriceIsUsd(d: string)
    ensures IsUsd(UsdMark + " " + d)
  {
    assert OccursAt(UsdMark + " " + d, UsdMark, 0);
  }

  /** "<mark> <digits>" gives the number the digits print. */
  lemma {:induction false} MarkedFigureReadsBack(sym: string, n: nat)
    requires sym == UsdMark || sym == "$"
    ensures Bruto(sym + " " + NatToString(n)) == n
  {
    var d := NatToString(n);
    var prefix := sym + " ";
    assert forall i :: 0 <= i < |prefix| ==> !IsPriceChar(prefix[i]);
    assert prefix + d == prefix + (d + []);
    NatToStringRoundTrip(n);
    BrutoReadsFirstNumber(prefix, d, []);
  }

  /** The text of the pieces "<mark>" and "<digits>" is the two joined by a space. */
  lemma PricePieces(sym: string, d: string)
    requires sym == UsdMark || sym == "$"
    requires d != [] && AllDigits(d)
    ensures PriceText([sym, d]) == sym + " " + d
  {
    TrimNoop(sym, Py);
    DigitNotSpace(d[0], Py);
    DigitNotSpace(d[|d| - 1], Py);
    TrimNoop(d, Py);
    assert [sym, d][1..] == [d];
  }

  /** A peso price "$ <digits>" carries neither dollar mark. */
  lemma PesoPriceNotUsd(d: string)
    requires AllDigits(d)
    ensures !IsUsd("$" + " " + d)
  {
    var raw := "$" + " " + d;
    forall i | 0 <= i < |raw| ensures raw[i] != 'U' {
      if i >= 2 {
        assert raw[i] == d[i - 2];
      }
    }
    forall i | 0 <= i <= |raw| - 3 ensures !OccursAt(raw, "U$S", i) && !OccursAt(raw, UsdMark, i) {
      assert raw[i..i + 3][0] == raw[i];
    }
  }

  /** "<km> km" survives stripping and reads back as the distance. */
  lemma {:induction false} KmAttributeReadsBack(n: nat)
    ensures Km(Trim(NatToString(n) + " km", Py)) == Ok(n)
  {
    var km := NatToString(n) + " km";
    assert km[0] == NatToString(n)[0] && km[|km| - 1] == 'm';
    DigitNotSpace(km[0], Py);
    TrimNoop(km, Py);
    KmReadsBack(n, " km");
  }

  /** Two extraction outcomes in sequence: the first exception wins, otherwise
      the rows of both. */
  function Join(a: Result<seq<Row>, PyError>, b: Result<seq<Row>, PyError>): (r: Result<seq<Row>, PyError>)
    ensures r.Ok? <==> a.Ok? && b.Ok?
    ensures r.Ok? ==> r.value == a.value + b.value
    ensures a.Err? ==> r == a
    ensures a.Ok? && b.Err? ==> r == b
  {
    if a.Err? then a else if b.Err? then b else Ok(a.value + b.value)
  }

  /** Joining outcomes is associative. */
  lemma JoinAssociative(a: Result<seq<Row>, PyError>, b: Result<seq<Row>, PyError>, c: Result<seq<Row>, PyError>)
    ensures Join(Join(a, b), c) == Join(a, Join(b, c))
  {
    if a.Ok? && b.Ok? && c.Ok? {
      assert (a.value + b.value) + c.value == a.value + (b.value + c.value);
    }
  }

  /** What one card contributes: nothing without a content element, else its row or the exception raised while building it. */
  function CardRows(card: Card): (r: Result<seq<Row>, PyError>)
    ensures r.Ok? ==> |r.value| <= 1
    ensures !HasContent(card) ==> r == Ok([])
    ensures HasContent(card) && ContentRow(card.content.value).Ok? ==> r == Ok([ContentRow(card.content.value).value])
    ensures HasContent(card) && ContentRow(card.content.value).Err? ==> r == Err(ContentRow(card.content.value).error)
  {
    if !HasContent(card) then Ok([])
    else
      match ContentRow(card.content.value)
      case Err(e) => Err(e)
      case Ok(row) => Ok([row])
  }

  /** The rows of one page in card order, cards without content skipped, or
      the exception of the first card that raises.  A page of one card gives
      exactly what that card gives. */
  function ExtractPage(items: seq<Card>): (r: Result<seq<Row>, PyError>)
    ensures r.Ok? ==> |r.value| <= |items|
    ensures |items| == 1 ==> r == CardRows(items[0])
  {
    if items == [] then Ok([])
    else
      var first := CardRows(items[0]);
      assert |items| == 1 ==> items[1..] == [];
      assert first.Ok? ==> first.value + [] == first.value;
      Join(first, ExtractPage(items[1..]))
  }

  /** A page whose cards all lack a content element yields no rows. */
  lemma {:induction false} ExtractPageNoContent(items: seq<Card>)
    requires forall j :: 0 <= j < |items| ==> !HasContent(items[j])
    ensures ExtractPage(items) == Ok([])
  {
    if items != [] {
      assert forall j :: 0 <= j < |items[1..]| ==> items[1..][j] == items[j + 1];
      ExtractPageNoContent(items[1..]);
      assert CardRows(items[0]) == Ok([]);
      var none: seq<Row> := [];
      assert none + none == none;
    }
  }

  /** Extraction runs card by card: the cards of `a` then `b` give the rows of
      `a` then those of `b`, and the first exception wins. */
  lemma {:induction false} ExtractPageAppend(a: seq<Card>, b: seq<Card>)
    ensures ExtractPage(a + b) == Join(ExtractPage(a), ExtractPage(b))
  {
    if a == [] {
      assert a + b == b;
      assert ExtractPage(b).Ok? ==> [] + ExtractPage(b).value == ExtractPage(b).value;
    } else {
      assert (a + b)[0] == a[0];
      assert (a + b)[1..] == a[1..] + b;
      ExtractPageAppend(a[1..], b);
      JoinAssociative(CardRows(a[0]), ExtractPage(a[1..]), ExtractPage(b));
    }
  }

  /** A page raises exactly when one of its cards does, and then with the
      exception of the first such card. */
  lemma ExtractPageRaises(items: seq<Card>)
    ensures ExtractPage(items).Err? <==> exists j :: 0 <= j < |items| && CardRows(items[j]).Err?
    ensures ExtractPage(items).Err? ==>
              exists j :: 0 <= j < |items| && CardRows(items[j]).Err?
                          && ExtractPage(items).error == CardRows(items[j]).error
                          && forall i :: 0 <= i < j ==> CardRows(items[i]).Ok?
  {
    ExtractPageOk(items);
    ExtractPageFirstError(items);
  }

  /** A page that does not raise has no card that raises. */
  lemma {:induction false} ExtractPageOk(items: seq<Card>)
    ensures ExtractPage(items).Ok? ==> forall j :: 0 <= j < |items| ==> CardRows(items[j]).Ok?
  {
    if items != [] && ExtractPage(items).Ok? {
      ExtractPageOk(items[1..]);
      forall j | 0 <= j < |items| ensures CardRows(items[j]).Ok? {
        if j > 0 {
          assert items[j] == items[1..][j - 1];
        }
      }
    }
  }

  /** A page that raises does so with the exception of its first card that raises. */
  lemma {:induction false} ExtractPageFirstError(items: seq<Card>)
    ensures ExtractPage(items).Err? ==>
              exists j :: 0 <= j < |items| && CardRows(items[j]).Err?
                          && ExtractPage(items).error == CardRows(items[j]).error
                          && forall i :: 0 <= i < j ==> CardRows(items[i]).Ok?
  {
    if items != [] && ExtractPage(items).Err? {
      if CardRows(items[0]).Err? {
        assert CardRows(items[0]).Err? && ExtractPage(items).error == CardRows(items[0]).error;
      } else {
        ExtractPageFirstError(items[1..]);
        var j :| 0 <= j < |items[1..]| && CardRows(items[1..][j]).Err?
                 && ExtractPage(items[1..]).error == CardRows(items[1..][j]).error
                 && forall i :: 0 <= i < j ==> CardRows(items[1..][i]).Ok?;
        assert CardRows(items[j + 1]).Err?;
        forall i | 0 <= i < j + 1 ensures CardRows(items[i]).Ok? {
          if i > 0 {
            assert items[i] == items[1..][i - 1];
          }
        }
      }
    }
  }

  // ---------------------------------------------------------------------------
  // scrapear: URL and pagination

  /** The search URL: "<version> <year>" with each single space replaced by
      "-", case kept, after the marketplace host. */
  function SearchUrl(version: string, year: string): (u: string)
    ensures SearchHost <= u && |u| == |SearchHost| + |version| + 1 + |year|
    ensures forall i :: |SearchHost| <= i < |u| ==> u[i] != ' '
    ensures var q := version + " " + year;
            forall i :: 0 <= i < |q| ==> u[|SearchHost| + i] == (if q[i] == ' ' then '-' else q[i])
  {
    var slug := ReplaceChar(version + " " + year, ' ', '-');
    assert forall i :: 0 <= i < |slug| ==> (SearchHost + slug)[|SearchHost| + i] == slug[i];
    SearchHost + slug
  }

  /** With no space in version or year the slug is "<version>-<year>". */
  lemma SearchUrlPlain(version: string, year: string)
    requires ' ' !in version && ' ' !in year
    ensures SearchUrl(version, year) == SearchHost + version + "-" + year
  {
    var u, q := SearchUrl(version, year), version + " " + year;
    var w := SearchHost + version + "-" + year;
    forall i | 0 <= i < |u| ensures u[i] == w[i] {
      if i >= |SearchHost| {
        var j := i - |SearchHost|;
        if j < |version| {
          assert q[j] == version[j] && w[i] == version[j];
        } else if j > |version| {
          assert q[j] == year[j - |version| - 1] && w[i] == year[j - |version| - 1];
        }
      }
    }
  }

  /** How the page loop ended: a `break`, or an exception that escapes it. */
  datatype Halt = Ended(stop: Stop) | Raised(error: PyError)

  /** What the loop does with one reply: keep its cards and go on, or end. */
  datatype PageStep = Keep(cards: seq<Card>) | End(halt: Halt)

  /** One loop iteration on a reply: a transport exception escapes, a status
      other than 200 or a page without cards breaks, an exception while
      reading a card escapes, and otherwise the page's cards are kept. */
  function StepOf(r: PageReply<Card>): (step: PageStep)
    ensures step.Keep? <==> r.Reply? && r.status == 200 && r.items != [] && ExtractPage(r.items).Ok?
    ensures step.Keep? ==> step.cards == r.items
    ensures step.End? && step.halt.Raised?
            <==> r.Unreachable? || (r.Reply? && r.status == 200 && r.items != [] && ExtractPage(r.items).Err?)
  {
    match r
    case Unreachable(reason) => End(Raised(TransportError(reason)))
    case Reply(status, items) =>
      if status != 200 then End(Ended(BadStatus))
      else if items == [] then End(Ended(NoItems))
      else match ExtractPage(items)
        case Err(e) => End(Raised(e))
        case Ok(_) => Keep(items)
  }

  /** The iteration of every reply, in request order. */
  function Steps(replies: seq<PageReply<Card>>): (steps: seq<PageStep>)
    ensures |steps| == |replies|
    ensures forall j :: 0 <= j < |replies| ==> steps[j] == StepOf(replies[j])
  {
    if replies == [] then [] else [StepOf(replies[0])] + Steps(replies[1..])
  }

  /** What the page loop gathered: the cards of every page whose rows it
      kept, in request order, and how it ended. */
  datatype Crawl = Crawl(pages: seq<seq<Card>>, halt: Halt)

  /** The `while True` loop from request `k` (0-based) on.  There is no page
      cap; a request beyond the supplied replies ends the loop as `Exhausted`. */
  function Paginate(steps: seq<PageStep>, k: nat): (c: Crawl)
    ensures k + |c.pages| <= |steps| || (k > |steps| && c.pages == [])
    decreases |steps| - k
  {
    if k >= |steps| then Crawl([], Ended(Exhausted))
    else match steps[k]
      case End(halt) => Crawl([], halt)
      case Keep(cards) =>
        var rest := Paginate(steps, k + 1);
        Crawl([cards] + rest.pages, rest.halt)
  }

  /** The step (or the absence of a reply) at request `k` ends the loop with `halt`. */
  predicate EndsWith(steps: seq<PageStep>, k: nat, halt: Halt) {
    if k >= |steps| then halt == Ended(Exhausted)
    else steps[k] == End(halt)
  }

  /** The loop keeps the cards of a run of kept steps, in order, and ends at
      the first step that ends it. */
  lemma PaginatePages(steps: seq<PageStep>, k: nat)
    requires k <= |steps|
    ensures k + |Paginate(steps, k).pages| <= |steps|
    ensures forall i :: 0 <= i < |Paginate(steps, k).pages| ==> steps[k + i] == Keep(Paginate(steps, k).pages[i])
    ensures EndsWith(steps, k + |Paginate(steps, k).pages|, Paginate(steps, k).halt)
  {
    forall i | 0 <= i < |Paginate(steps, k).pages|
      ensures steps[k + i] == Keep(Paginate(steps, k).pages[i])
    {
      PaginateAt(steps, k, i);
    }
    PaginateEnd(steps, k);
  }

  /** The `i`-th kept page is the cards of step `k + i`. */
  lemma {:induction false} PaginateAt(steps: seq<PageStep>, k: nat, i: nat)
    requires i < |Paginate(steps, k).pages|
    ensures k + i < |steps| && steps[k + i] == Keep(Paginate(steps, k).pages[i])
    decreases i
  {
    if i > 0 {
      PaginateAt(steps, k + 1, i - 1);
    }
  }

  /** The loop ends at the first step after the kept pages. */
  lemma {:induction false} PaginateEnd(steps: seq<PageStep>, k: nat)
    requires k <= |steps|
    ensures EndsWith(steps, k + |Paginate(steps, k).pages|, Paginate(steps, k).halt)
    decreases |steps| - k
  {
    if k < |steps| && steps[k].Keep? {
      PaginateEnd(steps, k + 1);
    }
  }

  /** Unlike the TypeScript loop, this one has no page cap: `n` kept steps
      are all kept, however many there are. */
  lemma NoPageCap(steps: seq<PageStep>, n: nat)
    requires n <= |steps|
    requires forall j :: 0 <= j < n ==> steps[j].Keep?
    ensures |Paginate(steps, 0).pages| >= n
  {
    PaginatePages(steps, 0);
  }

  /** The rows of the kept pages, page after page. */
  function PageRows(pages: seq<seq<Card>>): (rows: seq<Row>)
    ensures |rows| <= CardCount(pages)
  {
    if pages == [] then []
    else
      var last := ExtractPage(pages[|pages| - 1]);
      PageRows(pages[..|pages| - 1]) + (if last.Ok? then last.value else [])
  }

  /** When no card of the kept pages raises, their rows are the rows of all
      their cards, in page-then-card order. */
  lemma {:induction false} PageRowsFlatten(pages: seq<seq<Card>>, cards: seq<Card>)
    requires cards == Concat(pages)
    ensures ExtractPage(cards).Ok? ==> PageRows(pages) == ExtractPage(cards).value
    decreases |pages|
  {
    if pages != [] {
      var init, last := pages[..|pages| - 1], pages[|pages| - 1];
      assert Concat(pages) == Concat(init) + last;
      PageRowsFlatten(init, Concat(init));
      ExtractPageAppend(Concat(init), last);
    }
  }

  // ---------------------------------------------------------------------------
  // scrapear: conversion and statistics

  /** Statistics over converted rows: price figures over every price (0 when
      there are no rows), the mean rounded with `round` (halves to even), and
      distance figures over every row. */
  function Summarise(d: seq<PricedRow>): (s: Stats)
    ensures d == [] ==> s == ZeroStats
    ensures d != [] ==> var ps := Prices(d);
              && s.priceMin in ps && s.priceMax in ps
              && (forall i :: 0 <= i < |d| ==> s.priceMin <= d[i].precioArs <= s.priceMax)
              && s.promedio as real - 0.5 <= Sum(ps) / |ps| as real <= s.promedio as real + 0.5
              && (Sum(ps) / |ps| as real == s.promedio as real - 0.5 || Sum(ps) / |ps| as real == s.promedio as real + 0.5
                  ==> s.promedio % 2 == 0)
              && PyRound(s.priceMin) <= s.promedio <= PyRound(s.priceMax)
              && s.kmMin in Kms(d) && s.kmMax in Kms(d)
              && (forall i :: 0 <= i < |d| ==> s.kmMin <= d[i].row.km <= s.kmMax)
  {
    if d == [] then ZeroStats
    else
      var ps, kms := Prices(d), Kms(d);
      var mean := Sum(ps) / |ps| as real;
      MeanBetween(ps);
      RoundMonotone(MinOf(ps), mean);
      RoundMonotone(mean, MaxOf(ps));
      Stats(PyRound(mean), MinOf(ps), MaxOf(ps), MinInt(kms), MaxInt(kms))
  }

  /** What `scrapear` returns: `rows` (with `precio_ars`) and the five statistics. */
  datatype Report = Report(datos: seq<PricedRow>, stats: Stats)

  /** A whole `scrapear` call: the URLs requested, what the loop did, whether
      the rate was requested, and the report or the exception that escaped. */
  datatype Scrape = Scrape(urls: seq<string>, crawl: Crawl, rateFetched: bool, outcome: Result<Report, PyError>)

  /** `scrapear(version, year)` given the replies to its page requests and to
      the rate request.  The rate is requested after every loop that ends
      without an exception, even one that kept no rows. */
  function Scrapear(version: string, year: string, replies: seq<PageReply<Card>>,
                    rateReply: RateReply, parse: string -> Option<real>): (s: Scrape)
    ensures s.crawl == Paginate(Steps(replies), 0)
    ensures s.urls == RequestUrls(SearchUrl(version, year), s.crawl.pages, |s.crawl.pages| + 1)
    ensures s.crawl.halt.Raised? <==> s.outcome.Err?
    ensures s.crawl.halt.Raised? ==> s.outcome.error == s.crawl.halt.error
    ensures s.rateFetched <==> s.outcome.Ok?
    ensures s.outcome.Ok? && s.crawl.pages == [] ==> s.outcome.value == Report([], ZeroStats)
    ensures s.outcome.Ok? ==>
              && s.outcome.value.datos == Convert(PageRows(s.crawl.pages), ObtenerDolarOficial(rateReply, parse))
              && s.outcome.value.stats == Summarise(s.outcome.value.datos)
  {
    var crawl := Paginate(Steps(replies), 0);
    var urls := RequestUrls(SearchUrl(version, year), crawl.pages, |crawl.pages| + 1);
    match crawl.halt
    case Raised(e) => Scrape(urls, crawl, false, Err(e))
    case Ended(_) =>
      var datos := Convert(PageRows(crawl.pages), ObtenerDolarOficial(rateReply, parse));
      Scrape(urls, crawl, true, Ok(Report(datos, Summarise(datos))))
  }

  /** `scrapear` raises exactly when the reply to the request after the last
      kept page raises, and the exception is that reply's. */
  lemma ScrapearRaises(version: string, year: string, replies: seq<PageReply<Card>>,
                       rateReply: RateReply, parse: string -> Option<real>)
    ensures var s := Scrapear(version, year, replies, rateReply, parse);
            var n := |s.crawl.pages|;
            s.outcome.Err? <==> n < |replies| && StepOf(replies[n]).End? && StepOf(replies[n]).halt.Raised?
    ensures var s := Scrapear(version, year, replies, rateReply, parse);
            var n := |s.crawl.pages|;
            s.outcome.Err? ==> StepOf(replies[n]) == End(Raised(s.outcome.error))
  {
    var steps := Steps(replies);
    PaginatePages(steps, 0);
    var n := |Paginate(steps, 0).pages|;
  }

  /** Every kept page is a 200 reply with cards, none of which raises, and
      the kept cards are that reply's. */
  lemma KeptPagesAreGood(replies: seq<PageReply<Card>>, i: nat)
    requires i < |Paginate(Steps(replies), 0).pages|
    ensures replies[i].Reply? && replies[i].status == 200 && replies[i].items != []
    ensures ExtractPage(replies[i].items).Ok?
    ensures Paginate(Steps(replies), 0).pages[i] == replies[i].items
  {
    PaginateAt(Steps(replies), 0, i);
  }

  /** No page URL is requested twice: kept pages are never empty, so the
      offset grows from one request to the next. */
  lemma CrawlUrlsDistinct(base: string, replies: seq<PageReply<Card>>, pages: seq<seq<Card>>, us: seq<string>)
    requires pages == Paginate(Steps(replies), 0).pages
    requires us == RequestUrls(base, pages, |pages| + 1)
    ensures forall i, j :: 0 <= i < j < |us| ==> us[i] != us[j]
  {
    forall k | 0 <= k < |pages| ensures pages[k] != [] {
      KeptPagesAreGood(replies, k);
    }
    RequestUrlsDistinct(base, pages, |pages| + 1);
  }

  /** `scrapear` never requests the same URL twice. */
  lemma ScrapearUrlsDistinct(version: string, year: string, replies: seq<PageReply<Card>>,
                             rateReply: RateReply, parse: string -> Option<real>)
    ensures var s := Scrapear(version, year, replies, rateReply, parse);
            forall i, j :: 0 <= i < j < |s.urls| ==> s.urls[i] != s.urls[j]
  {
    var s := Scrapear(version, year, replies, rateReply, parse);
    var pages := Paginate(Steps(replies), 0).pages;
    var us := RequestUrls(SearchUrl(version, year), pages, |pages| + 1);
    CrawlUrlsDistinct(SearchUrl(version, year), replies, pages, us);
    assert s.urls == us;
    forall i, j | 0 <= i < j < |s.urls| ensures s.urls[i] != s.urls[j] {
      assert us[i] != us[j];
    }
  }

  // ---------------------------------------------------------------------------
  // api_search

  /** The JSON body of a search request: `version` and `year` when present. */
  datatype Request = Request(version: Option<string>, year: Option<string>)

  /** The answer: 400 with a message, 500 with the exception's message, or the report. */
  datatype Response = BadRequest(message: string) | ServerError(message: string) | Found(report: Report)

  /** `api_search` given the replies the scrape would receive. */
  function ApiSearch(req: Request, replies: seq<PageReply<Card>>, rateReply: RateReply,
                     parse: string -> Option<real>): (resp: Response)
    ensures resp.BadRequest? <==> AllSpace(req.version.GetOr(""), Py)
    ensures resp.BadRequest? ==> resp.message == VersionRequired
    ensures !resp.BadRequest? ==>
              var s := Scrapear(Trim(req.version.GetOr(""), Py), req.year.GetOr(DefaultYear), replies, rateReply, parse);
              && (resp.ServerError? <==> s.outcome.Err?)
              && (resp.ServerError? ==> resp.message == Message(s.outcome.error))
              && (resp.Found? ==> resp.report == s.outcome.value)
  {
    var version := Trim(req.version.GetOr(""), Py);
    var year := req.year.GetOr(DefaultYear);
    if version == [] then BadRequest(VersionRequired)
    else
      match Scrapear(version, year, replies, rateReply, parse).outcome
      case Err(e) => ServerError(Message(e))
      case Ok(report) => Found(report)
  }
}
