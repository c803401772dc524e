/** The Tunisair scraper of app/services/tunisair_scraper_service.py: for each
    predefined route it asks the per-day price view for four search dates, reads
    the priced cells out of the returned markup, converts TND prices to EUR with a
    rate from an exchange-rate service, tags the fares with the route and the
    airline code `TU`, and reports them all through the retrying backend client. */
module Tunisair {
  import opened Common
  import opened Fares
  import opened Text
  import opened Dates
  import Reporting
  import BackendApi

  const AIRLINE_CODE: string := "TU"
  const MONTHS_TO_SEARCH: nat := 4
  const REQUEST_RETRIES: nat := 3
  const FALLBACK_EUR_RATE: real := 0.29
  const PLACEHOLDER_API_KEY: string := "YOUR_API_KEY"

  const VALID_ROUTES_DE_TO_TN: seq<Route> := [
    Route("MUC", "TUN"), Route("MUC", "MIR"), Route("MUC", "DJE"),
    Route("FRA", "TUN"), Route("FRA", "DJE"), Route("DUS", "TUN")
  ]

  const VALID_ROUTES_TN_TO_DE: seq<Route> := [
    Route("TUN", "MUC"), Route("TUN", "FRA"), Route("TUN", "DUS"),
    Route("MIR", "MUC"), Route("DJE", "MUC"), Route("DJE", "FRA")
  ]

  // ------------------------------------------------------------ the markup

  /** A `td.available` cell of the price view: its `data-departure` attribute and
      the stripped text of its `div.val_price_offre`, each absent when missing. */
  datatype Cell = Cell(departure: Option<string>, priceText: Option<string>)

  /** The decoded JSON answer: the "view" markup as its list of available cells,
      or no markup when "view" is missing, null or empty. */
  datatype ViewBody = Markup(cells: seq<Cell>) | NoMarkup

  /** What `_extract_prices` produces for one cell. */
  datatype PriceEntry = PriceEntry(departureDate: string, price: real, priceEur: real)

  /** The currency code a price must mention: the German site quotes EUR, the
      Tunisian site TND. */
  function CurrencyToken(eurNative: bool): (t: string)
    ensures |t| == 3 && t[0] != ' ' && t[0] != ',' && t[0] != '.' && ' ' !in t && ',' !in t
  {
    if eurNative then "EUR" else "TND"
  }

  /** The text handed to `float`: spaces dropped, decimal commas turned into
      points, the currency code removed. */
  function NormalisePrice(text: string, token: string): (r: string)
    requires token != []
    ensures |r| <= |text|
    ensures ' ' !in r && ',' !in r
  {
    RemoveAll(ReplaceChar(RemoveChar(text, ' '), ',', '.'), token)
  }

  /** Dropping the spaces of `amount + " " + token` joins the two. */
  lemma DropSeparatingSpace(amount: string, token: string)
    requires ' ' !in amount && ' ' !in token
    ensures RemoveChar(amount + " " + token, ' ') == amount + token
  {
    var spaced := amount + " ";
    assert RemoveChar(spaced, ' ') == amount by {
      RemoveCharAppend(amount, " ", ' ');
      RemoveCharAbsent(amount, ' ');
      assert RemoveChar(" ", ' ') == [];
    }
    assert RemoveChar(token, ' ') == token by {
      RemoveCharAbsent(token, ' ');
    }
    RemoveCharAppend(spaced, token, ' ');
  }

  /** A decimal point or comma never starts the currency code, so the amount
      with its comma replaced holds no start of the code. */
  lemma PointedAmountAvoidsToken(amount: string, token: string)
    requires token != [] && token[0] != '.' && token[0] != ','
    requires forall i :: 0 <= i < |amount| ==> amount[i] != token[0]
    ensures forall i :: 0 <= i < |ReplaceChar(amount, ',', '.')| ==> ReplaceChar(amount, ',', '.')[i] != token[0]
  {
  }

  /** An amount written with a decimal comma, a space and the currency code
      normalises to the amount with a decimal point. */
  lemma NormaliseSpacedAmount(amount: string, token: string)
    requires token != [] && token[0] != '.' && token[0] != ','
    requires ' ' !in amount && ' ' !in token && ',' !in token
    requires forall i :: 0 <= i < |amount| ==> amount[i] != token[0]
    ensures NormalisePrice(amount + " " + token, token) == ReplaceChar(amount, ',', '.')
  {
    DropSeparatingSpace(amount, token);
    var x := ReplaceChar(amount, ',', '.');
    ReplaceCharAppend(amount, token, ',', '.');
    ReplaceCharAbsent(token, ',', '.');
    PointedAmountAvoidsToken(amount, token);
    RemoveAllAfter(x, token, token);
    RemoveAllSelf(token);
    assert x + [] == x;
  }

  /** A price as the German site prints it. */
  lemma NormaliseEurExample()
    ensures NormalisePrice("123,45 EUR", "EUR") == "123.45"
  {
    assert "123,45 EUR" == "123,45" + " " + "EUR";
    NormaliseSpacedAmount("123,45", "EUR");
    assert ReplaceChar("123,45", ',', '.') == "123.45";
  }

  /** A price as the Tunisian site prints it. */
  lemma NormaliseTndExample()
    ensures NormalisePrice("45,678 TND", "TND") == "45.678"
  {
    assert "45,678 TND" == "45,678" + " " + "TND";
    NormaliseSpacedAmount("45,678", "TND");
    assert ReplaceChar("45,678", ',', '.') == "45.678";
  }

  /** The cell has a departure date and a price text other than `-`. */
  predicate Priced(cell: Cell) {
    cell.departure.Some? && cell.departure.value != []
    && cell.priceText.Some? && cell.priceText.value != [] && cell.priceText.value != "-"
  }

  /** `round(price_tnd * conversion_rate, 2)`. */
  function ToEur(price: real, rate: real, num: Numerics): real {
    num.round(price * rate, 2)
  }

  /** One cell read as `_extract_prices` reads it: unpriced cells, dates that do
      not parse, prices without the site's currency code and amounts `float`
      rejects are skipped; a EUR price is rounded to 2 places and is its own EUR
      price, a TND price is rounded to 3 places and converted at `rate`. */
  function CellPrice(cell: Cell, eurNative: bool, rate: real, num: Numerics): (r: Option<PriceEntry>)
    ensures r.Some? ==> Priced(cell)
    ensures r.Some? && eurNative ==> r.value.price == r.value.priceEur
  {
    if !Priced(cell) then None
    else match ParseDate(cell.departure.value)
      case None => None
      case Some(d) =>
        var text := cell.priceText.value;
        var token := CurrencyToken(eurNative);
        if !Contains(text, token) then None
        else match num.parseFloat(NormalisePrice(text, token))
          case None => None
          case Some(p) =>
            if eurNative then
              var v := num.round(p, 2);
              Some(PriceEntry(IsoMidnight(d), v, v))
            else
              var t := num.round(p, 3);
              Some(PriceEntry(IsoMidnight(d), t, ToEur(t, rate, num)))
  }

  /** A cell yields a price exactly when it is priced, its date parses, its
      price names the site's currency and the normalised amount parses; the
      price is that amount rounded to 2 places on the EUR site and to 3 on the
      TND site, the fare date is the cell's date at midnight, a EUR price is its
      own EUR price, and a TND price is converted at `rate`. */
  lemma CellPriceMeaning(cell: Cell, eurNative: bool, rate: real, num: Numerics)
    ensures var r := CellPrice(cell, eurNative, rate, num);
      (r.Some? <==>
        Priced(cell) && ParseDate(cell.departure.value).Some?
        && Contains(cell.priceText.value, CurrencyToken(eurNative))
        && num.parseFloat(NormalisePrice(cell.priceText.value, CurrencyToken(eurNative))).Some?)
      && (r.Some? ==> r.value.departureDate == cell.departure.value + "T00:00:00")
      && (r.Some? ==> r.value.price == num.round(
            num.parseFloat(NormalisePrice(cell.priceText.value, CurrencyToken(eurNative))).value,
            if eurNative then 2 else 3))
      && (r.Some? && eurNative ==> r.value.price == r.value.priceEur)
      && (r.Some? && !eurNative ==> r.value.priceEur == ToEur(r.value.price, rate, num))
  {
    if Priced(cell) && ParseDate(cell.departure.value).Some? {
      FormatParse(cell.departure.value);
    }
  }

  /** `_extract_prices`: the cells' prices in document order. */
  function PricesIn(cells: seq<Cell>, eurNative: bool, rate: real, num: Numerics): (r: seq<PriceEntry>)
    ensures |r| <= |cells|
  {
    if cells == [] then []
    else PricesIn(cells[..|cells| - 1], eurNative, rate, num)
         + Listed(CellPrice(cells[|cells| - 1], eurNative, rate, num))
  }

  /** Every extracted price comes from one of the cells. */
  lemma {:induction false} PricesInSound(cells: seq<Cell>, eurNative: bool, rate: real, num: Numerics)
    ensures forall e :: e in PricesIn(cells, eurNative, rate, num) ==>
      exists i :: 0 <= i < |cells| && CellPrice(cells[i], eurNative, rate, num) == Some(e)
  {
    if cells != [] {
      var n := |cells| - 1;
      var init := cells[..n];
      PricesInSound(init, eurNative, rate, num);
      forall e | e in PricesIn(cells, eurNative, rate, num)
        ensures exists i :: 0 <= i < |cells| && CellPrice(cells[i], eurNative, rate, num) == Some(e)
      {
        if e in PricesIn(init, eurNative, rate, num) {
          var i :| 0 <= i < |init| && CellPrice(init[i], eurNative, rate, num) == Some(e);
          assert cells[i] == init[i];
        } else {
          assert CellPrice(cells[n], eurNative, rate, num) == Some(e);
        }
      }
    }
  }

  lemma {:induction false} PricesInHas(cells: seq<Cell>, i: nat, eurNative: bool, rate: real, num: Numerics)
    requires i < |cells| && CellPrice(cells[i], eurNative, rate, num).Some?
    ensures CellPrice(cells[i], eurNative, rate, num).value in PricesIn(cells, eurNative, rate, num)
  {
    var n := |cells| - 1;
    var init := cells[..n];
    var v := CellPrice(cells[i], eurNative, rate, num).value;
    var last := Listed(CellPrice(cells[n], eurNative, rate, num));
    assert PricesIn(cells, eurNative, rate, num) == PricesIn(init, eurNative, rate, num) + last;
    if i < n {
      assert v in PricesIn(init, eurNative, rate, num) by {
        assert cells[i] == init[i];
        PricesInHas(init, i, eurNative, rate, num);
      }
      InAppend(v, PricesIn(init, eurNative, rate, num), last);
    } else {
      assert i == n;
      ListedHas(CellPrice(cells[i], eurNative, rate, num));
      InAppend(v, PricesIn(init, eurNative, rate, num), last);
    }
  }

  lemma ListedHas<T>(o: Option<T>)
    requires o.Some?
    ensures o.value in Listed(o)
  {
  }

  lemma InAppend<T>(x: T, a: seq<T>, b: seq<T>)
    ensures x in a + b <==> x in a || x in b
  {
  }

  /** Every cell that yields a price has that price extracted. */
  lemma PricesInComplete(cells: seq<Cell>, eurNative: bool, rate: real, num: Numerics)
    ensures forall i :: 0 <= i < |cells| && CellPrice(cells[i], eurNative, rate, num).Some? ==>
      CellPrice(cells[i], eurNative, rate, num).value in PricesIn(cells, eurNative, rate, num)
  {
    forall i | 0 <= i < |cells| && CellPrice(cells[i], eurNative, rate, num).Some?
      ensures CellPrice(cells[i], eurNative, rate, num).value in PricesIn(cells, eurNative, rate, num)
    {
      PricesInHas(cells, i, eurNative, rate, num);
    }
  }

  /** A fare date in the form `isoformat()` gives a parsed day at midnight. */
  predicate IsoMidnightText(s: string) {
    |s| == 19 && ParseDate(s[..10]).Some? && s[10..] == "T00:00:00"
  }

  /** Every extracted price carries an ISO midnight date, and on the EUR site
      its price and EUR price agree. */
  lemma PricesInWellFormed(cells: seq<Cell>, eurNative: bool, rate: real, num: Numerics)
    ensures forall e :: e in PricesIn(cells, eurNative, rate, num) ==>
      IsoMidnightText(e.departureDate) && (eurNative ==> e.price == e.priceEur)
  {
    PricesInSound(cells, eurNative, rate, num);
    forall e | e in PricesIn(cells, eurNative, rate, num)
      ensures IsoMidnightText(e.departureDate) && (eurNative ==> e.price == e.priceEur)
    {
      var i :| 0 <= i < |cells| && CellPrice(cells[i], eurNative, rate, num) == Some(e);
      CellPriceMeaning(cells[i], eurNative, rate, num);
      var dep := cells[i].departure.value;
      assert e.departureDate == dep + "T00:00:00";
      assert e.departureDate[..10] == dep;
      assert e.departureDate[10..] == "T00:00:00";
    }
  }

  // ------------------------------------------------------- search dates

  /** A day whose four search months stay inside years 1000 to 9999. */
  predicate SearchableDay(today: Date) {
    ValidDate(today) && 1000 <= today.year
    && MonthIndex(today) + MONTHS_TO_SEARCH - 1 < 12 * 10000
  }

  /** The first of the month `k` months on is a day `date` accepts. */
  lemma FirstOfMonthAfterValid(today: Date, k: nat)
    requires SearchableDay(today) && k < MONTHS_TO_SEARCH
    ensures ValidDate(FirstOfMonthAfter(today, k))
  {
    var r := FirstOfMonthAfter(today, k);
    assert 1 <= r.year <= 9999 by {
      assert MonthIndex(r) == r.year * 12 + (r.month - 1);
    }
  }

  /** Today as `YYYY-MM-DD`, then the first of each of the next three months. */
  function SearchDates(today: Date): (r: seq<string>)
    requires SearchableDay(today)
    ensures |r| == MONTHS_TO_SEARCH
  {
    [FormatDate(today)]
    + seq(MONTHS_TO_SEARCH - 1, i requires 0 <= i < MONTHS_TO_SEARCH - 1 =>
          FirstOfMonthAfterValid(today, i + 1); FormatDate(FirstOfMonthAfter(today, i + 1)))
  }

  /** The first search date reads back as today, the others as the first day of
      each following month, so the four dates are all different. */
  lemma SearchDatesMeaning(today: Date)
    requires SearchableDay(today)
    ensures ParseDate(SearchDates(today)[0]) == Some(today)
    ensures forall k :: 1 <= k < MONTHS_TO_SEARCH ==>
      var d := ParseDate(SearchDates(today)[k]);
      d.Some? && d.value.day == 1 && MonthIndex(d.value) == MonthIndex(today) + k
    ensures forall a, b :: 0 <= a < b < MONTHS_TO_SEARCH ==> SearchDates(today)[a] != SearchDates(today)[b]
  {
    var r := SearchDates(today);
    SearchDateAt(today, 0);
    forall k | 1 <= k < MONTHS_TO_SEARCH
      ensures var d := ParseDate(r[k]); d.Some? && d.value.day == 1 && MonthIndex(d.value) == MonthIndex(today) + k
    {
      SearchDateAt(today, k);
    }
    forall a, b | 0 <= a < b < MONTHS_TO_SEARCH
      ensures r[a] != r[b]
    {
      SearchDateAt(today, a);
      SearchDateAt(today, b);
    }
  }

  /** Search date `k` reads back as a date `k` months after today's month. */
  lemma SearchDateAt(today: Date, k: nat)
    requires SearchableDay(today) && k < MONTHS_TO_SEARCH
    ensures var d := ParseDate(SearchDates(today)[k]);
      && d.Some? && MonthIndex(d.value) == MonthIndex(today) + k
      && (k == 0 ==> d.value == today)
      && (k > 0 ==> d.value.day == 1)
  {
    if k == 0 {
      assert SearchDates(today)[0] == FormatDate(today);
      ParseFormat(today);
    } else {
      FirstOfMonthAfterValid(today, k);
      var d := FirstOfMonthAfter(today, k);
      assert SearchDates(today)[k] == FormatDate(d) by {
        SearchDateLater(today, k);
      }
      ParseFormat(d);
    }
  }

  lemma SearchDateLater(today: Date, k: nat)
    requires SearchableDay(today) && 1 <= k < MONTHS_TO_SEARCH
    ensures ValidDate(FirstOfMonthAfter(today, k))
    ensures SearchDates(today)[k] == FormatDate(FirstOfMonthAfter(today, k))
  {
    FirstOfMonthAfterValid(today, k);
  }

  // ---------------------------------------------------------- the routes

  /** The reply to attempt `a` of the per-day request for route `dep -> arr`
      on a search date is `fetch(dep, arr, date)(a)`. */
  type Fetcher = (string, string, string) -> (nat -> Reply<ViewBody>)

  /** The view a search date yields: the first answered attempt's, if any. */
  function ViewOf(replies: nat -> Reply<ViewBody>): ViewBody {
    match FirstAccepted(replies, IsAnswer, 0, REQUEST_RETRIES)
    case None => NoMarkup
    case Some(k) => replies(k).body
  }

  function Tag(e: PriceEntry, route: Route): FareRecord {
    FareRecord(e.departureDate, e.price, e.priceEur, route.dep, route.arr, AIRLINE_CODE)
  }

  function Tagged(entries: seq<PriceEntry>, route: Route): seq<FareRecord> {
    seq(|entries|, i requires 0 <= i < |entries| => Tag(entries[i], route))
  }

  lemma TaggedSnoc(entries: seq<PriceEntry>, k: nat, route: Route)
    requires k < |entries|
    ensures Tagged(entries[..k + 1], route) == Tagged(entries[..k], route) + [Tag(entries[k], route)]
  {
    var a := Tagged(entries[..k + 1], route);
    var b := Tagged(entries[..k], route) + [Tag(entries[k], route)];
    assert |a| == |b|;
    forall i | 0 <= i < |a| ensures a[i] == b[i] {
      if i < k {
        assert entries[..k + 1][i] == entries[..k][i];
      }
    }
  }

  /** The fares one search date contributes. */
  function DateFares(route: Route, replies: nat -> Reply<ViewBody>, eurNative: bool, rate: real, num: Numerics): seq<FareRecord> {
    match ViewOf(replies)
    case NoMarkup => []
    case Markup(cells) => Tagged(PricesIn(cells, eurNative, rate, num), route)
  }

  /** A date whose 3 attempts all fail contributes no fares. */
  lemma DateFaresFailed(route: Route, replies: nat -> Reply<ViewBody>, eurNative: bool, rate: real, num: Numerics)
    requires forall a: nat :: a < REQUEST_RETRIES ==> replies(a).Failed?
    ensures DateFares(route, replies, eurNative, rate, num) == []
  {
    assert !IsAnswer(replies(0)) && !IsAnswer(replies(1)) && !IsAnswer(replies(2));
  }

  /** The first answer ends the retries: when it carries no markup the date
      contributes no fares, whatever later attempts would have answered. */
  lemma DateFaresNoMarkup(route: Route, replies: nat -> Reply<ViewBody>, k: nat, eurNative: bool, rate: real, num: Numerics)
    requires k < REQUEST_RETRIES && replies(k) == Answered(NoMarkup)
    requires forall a: nat :: a < k ==> replies(a).Failed?
    ensures DateFares(route, replies, eurNative, rate, num) == []
  {
    FirstAnswerAt(replies, k);
  }

  /** When the first answer carries markup, the date's fares are the prices
      extracted from its cells, tagged with the route. */
  lemma DateFaresFirstView(route: Route, replies: nat -> Reply<ViewBody>, k: nat, cells: seq<Cell>,
                           eurNative: bool, rate: real, num: Numerics)
    requires k < REQUEST_RETRIES && replies(k) == Answered(Markup(cells))
    requires forall a: nat :: a < k ==> replies(a).Failed?
    ensures DateFares(route, replies, eurNative, rate, num) == Tagged(PricesIn(cells, eurNative, rate, num), route)
  {
    FirstAnswerAt(replies, k);
  }

  lemma FirstAnswerAt(replies: nat -> Reply<ViewBody>, k: nat)
    requires k < REQUEST_RETRIES && replies(k).Answered?
    requires forall a: nat :: a < k ==> replies(a).Failed?
    ensures FirstAccepted(replies, IsAnswer, 0, REQUEST_RETRIES) == Some(k)
  {
    assert IsAnswer(replies(k));
  }

  /** `_scrape_route` over the given search dates, in order. */
  function RouteFares(route: Route, dates: seq<string>, fetch: Fetcher, eurNative: bool, rate: real, num: Numerics): seq<FareRecord> {
    if dates == [] then []
    else RouteFares(route, dates[..|dates| - 1], fetch, eurNative, rate, num)
         + DateFares(route, fetch(route.dep, route.arr, dates[|dates| - 1]), eurNative, rate, num)
  }

  lemma RouteFaresStep(route: Route, dates: seq<string>, i: nat, fetch: Fetcher, eurNative: bool, rate: real, num: Numerics)
    requires i < |dates|
    ensures RouteFares(route, dates[..i + 1], fetch, eurNative, rate, num)
         == RouteFares(route, dates[..i], fetch, eurNative, rate, num)
            + DateFares(route, fetch(route.dep, route.arr, dates[i]), eurNative, rate, num)
  {
    assert dates[..i + 1][..i] == dates[..i];
  }

  /** The day each `_scrape_route` call reads: `today(k)` is the date the `k`-th
      route of a run reads at its start, so a run crossing midnight searches its
      later routes from the new day. */
  type Clock = nat -> Date

  /** Calls `first .. first + count - 1` all read a searchable day. */
  predicate SearchableFrom(today: Clock, first: nat, count: nat) {
    forall k: nat :: first <= k < first + count ==> SearchableDay(today(k))
  }

  /** The fares of a list of routes, route after route; the `i`-th of them is
      call `first + i` of the run and searches from the day that call reads. */
  function RoutesFares(routes: seq<Route>, first: nat, today: Clock, fetch: Fetcher, eurNative: bool, rate: real, num: Numerics): seq<FareRecord>
    requires SearchableFrom(today, first, |routes|)
  {
    if routes == [] then []
    else RoutesFares(routes[..|routes| - 1], first, today, fetch, eurNative, rate, num)
         + RouteFares(routes[|routes| - 1], SearchDates(today(first + |routes| - 1)), fetch, eurNative, rate, num)
  }

  /** The calls of a prefix of the routes read searchable days too. */
  lemma SearchablePrefix(today: Clock, first: nat, count: nat, i: nat)
    requires SearchableFrom(today, first, count) && i <= count
    ensures SearchableFrom(today, first, i)
    ensures i < count ==> SearchableDay(today(first + i))
  {
  }

  lemma RoutesFaresStep(routes: seq<Route>, first: nat, i: nat, today: Clock, fetch: Fetcher, eurNative: bool, rate: real, num: Numerics)
    requires SearchableFrom(today, first, |routes|) && i < |routes|
    ensures SearchableFrom(today, first, i) && SearchableDay(today(first + i))
    ensures RoutesFares(routes[..i + 1], first, today, fetch, eurNative, rate, num)
         == RoutesFares(routes[..i], first, today, fetch, eurNative, rate, num)
            + RouteFares(routes[i], SearchDates(today(first + i)), fetch, eurNative, rate, num)
  {
    SearchablePrefix(today, first, |routes|, i);
    SearchablePrefix(today, first, |routes|, i + 1);
    assert routes[..i + 1][..i] == routes[..i];
    assert routes[..i + 1][|routes[..i + 1]| - 1] == routes[i];
    assert today(first + |routes[..i + 1]| - 1) == today(first + i);
  }

  /** A reported Tunisair fare: airline `TU`, one of the given routes, an ISO
      midnight date, and on the EUR site equal price and EUR price. */
  predicate WellFormedFare(f: FareRecord, routes: seq<Route>, eurNative: bool) {
    f.airlineCode == AIRLINE_CODE && Route(f.departureAirportCode, f.arrivalAirportCode) in routes
    && IsoMidnightText(f.departureDate) && (eurNative ==> f.price == f.priceEur)
  }

  lemma DateFaresWellFormed(route: Route, replies: nat -> Reply<ViewBody>, eurNative: bool, rate: real, num: Numerics)
    ensures forall f :: f in DateFares(route, replies, eurNative, rate, num) ==> WellFormedFare(f, [route], eurNative)
  {
    match ViewOf(replies)
    case NoMarkup =>
    case Markup(cells) =>
      PricesInWellFormed(cells, eurNative, rate, num);
      var es := PricesIn(cells, eurNative, rate, num);
      forall f | f in Tagged(es, route)
        ensures WellFormedFare(f, [route], eurNative)
      {
        var i :| 0 <= i < |es| && Tagged(es, route)[i] == f;
        assert es[i] in es;
      }
  }

  lemma {:induction false} RouteFaresWellFormed(route: Route, dates: seq<string>, fetch: Fetcher, eurNative: bool, rate: real, num: Numerics)
    ensures forall f :: f in RouteFares(route, dates, fetch, eurNative, rate, num) ==> WellFormedFare(f, [route], eurNative)
  {
    if dates != [] {
      RouteFaresWellFormed(route, dates[..|dates| - 1], fetch, eurNative, rate, num);
      DateFaresWellFormed(route, fetch(route.dep, route.arr, dates[|dates| - 1]), eurNative, rate, num);
    }
  }

  /** Every fare scraped for a list of routes is well formed for that list,
      whatever day each route's call reads. */
  lemma {:induction false} RoutesFaresWellFormed(routes: seq<Route>, first: nat, today: Clock, fetch: Fetcher, eurNative: bool, rate: real, num: Numerics)
    requires SearchableFrom(today, first, |routes|)
    ensures forall f :: f in RoutesFares(routes, first, today, fetch, eurNative, rate, num) ==> WellFormedFare(f, routes, eurNative)
  {
    if routes != [] {
      var n := |routes| - 1;
      RoutesFaresStep(routes, first, n, today, fetch, eurNative, rate, num);
      assert routes[..n + 1] == routes;
      RoutesFaresWellFormed(routes[..n], first, today, fetch, eurNative, rate, num);
      RouteFaresWellFormed(routes[n], SearchDates(today(first + n)), fetch, eurNative, rate, num);
      WellFormedJoin(RoutesFares(routes[..n], first, today, fetch, eurNative, rate, num),
                     RouteFares(routes[n], SearchDates(today(first + n)), fetch, eurNative, rate, num),
                     routes, eurNative);
    }
  }

  /** The fares of the routes before the last and those of the last route
      together are well formed for the whole list. */
  lemma WellFormedJoin(init: seq<FareRecord>, last: seq<FareRecord>, routes: seq<Route>, eurNative: bool)
    requires routes != []
    requires forall f :: f in init ==> WellFormedFare(f, routes[..|routes| - 1], eurNative)
    requires forall f :: f in last ==> WellFormedFare(f, [routes[|routes| - 1]], eurNative)
    ensures forall f :: f in init + last ==> WellFormedFare(f, routes, eurNative)
  {
    var n := |routes| - 1;
    forall f | f in init + last
      ensures WellFormedFare(f, routes, eurNative)
    {
      var r := Route(f.departureAirportCode, f.arrivalAirportCode);
      if f in init {
        assert r in routes[..n];
      } else {
        assert r == routes[n];
      }
    }
  }

  // ------------------------------------------------------ exchange rate

  /** The decoded exchange-rate answer: its "result" field, absent when
      missing, and its `conversion_rates.EUR` entry, absent when missing or
      when it is not a number. Both raise once the answer says "success": a
      missing entry at the lookup (`KeyError`), a value that is not a number
      at the `:.4f` formatting of the log line (`ValueError` or `TypeError`),
      before the rate is returned. */
  datatype RateBody = RateBody(result: Option<string>, eur: Option<real>)

  /** A rate, or the exception raised by a "success" answer without a
      numeric EUR rate; nothing in the lookup catches it. */
  datatype RateLookup = Rate(value: real) | MissingRate

  predicate IsSuccess(r: Reply<RateBody>) {
    r.Answered? && r.body.result == Some("success")
  }

  /** An exchange-rate key counts as provided unless empty or the placeholder. */
  predicate KeyProvided(key: string) {
    key != [] && key != PLACEHOLDER_API_KEY
  }

  /** The attempts from `a` on: a failure or an answer other than "success"
      moves to the next attempt, the first "success" decides, and the fallback
      rate is used once all 3 attempts are spent. */
  function RateFrom(replies: nat -> Reply<RateBody>, a: nat, fallback: real): (r: RateLookup)
    requires a <= REQUEST_RETRIES
    decreases REQUEST_RETRIES - a
    ensures r.Rate? && r.value != fallback ==>
      exists k: nat :: a <= k < REQUEST_RETRIES && IsSuccess(replies(k)) && replies(k).body.eur == Some(r.value)
    ensures r.MissingRate? ==>
      exists k: nat :: a <= k < REQUEST_RETRIES && IsSuccess(replies(k)) && replies(k).body.eur.None?
  {
    if a == REQUEST_RETRIES then Rate(fallback)
    else if !IsSuccess(replies(a)) then RateFrom(replies, a + 1, fallback)
    else if replies(a).body.eur.Some? then Rate(replies(a).body.eur.value)
    else MissingRate
  }

  /** `_get_exchange_rate`: the fallback without asking when no key was given. */
  function ExchangeRate(keyProvided: bool, replies: nat -> Reply<RateBody>, fallback: real): (r: RateLookup)
    ensures !keyProvided ==> r == Rate(fallback)
    ensures r.Rate? && r.value != fallback ==>
      keyProvided && exists k: nat :: k < REQUEST_RETRIES && IsSuccess(replies(k)) && replies(k).body.eur == Some(r.value)
  {
    if !keyProvided then Rate(fallback) else RateFrom(replies, 0, fallback)
  }

  /** The rate is read from the first "success" answer within 3 attempts; with
      none, the fallback is used. */
  lemma {:induction false} RateFromFirstSuccess(replies: nat -> Reply<RateBody>, a: nat, fallback: real)
    requires a <= REQUEST_RETRIES
    ensures RateFrom(replies, a, fallback) ==
      match FirstAccepted(replies, IsSuccess, a, REQUEST_RETRIES)
      case None => Rate(fallback)
      case Some(k) => if replies(k).body.eur.Some? then Rate(replies(k).body.eur.value) else MissingRate
    decreases REQUEST_RETRIES - a
  {
    if a < REQUEST_RETRIES && !IsSuccess(replies(a)) {
      RateFromFirstSuccess(replies, a + 1, fallback);
    }
  }

  /** Without a key, or when no attempt succeeds, the fallback 0.29 is used;
      only a "success" answer lacking the EUR rate aborts. */
  lemma ExchangeRateFallback(keyProvided: bool, replies: nat -> Reply<RateBody>)
    ensures !keyProvided ==> ExchangeRate(keyProvided, replies, FALLBACK_EUR_RATE) == Rate(FALLBACK_EUR_RATE)
    ensures (forall a: nat :: a < REQUEST_RETRIES ==> !IsSuccess(replies(a))) ==>
      ExchangeRate(keyProvided, replies, FALLBACK_EUR_RATE) == Rate(FALLBACK_EUR_RATE)
    ensures ExchangeRate(keyProvided, replies, FALLBACK_EUR_RATE) == MissingRate ==>
      keyProvided && exists a: nat :: a < REQUEST_RETRIES && IsSuccess(replies(a)) && replies(a).body.eur.None?
  {
    RateFromFirstSuccess(replies, 0, FALLBACK_EUR_RATE);
  }

  /** How many of attempts `0 .. n - 1` failed at the transport level. */
  function TransportFailures(replies: nat -> Reply<RateBody>, n: nat): nat {
    if n == 0 then 0 else TransportFailures(replies, n - 1) + (if replies(n - 1).Failed? then 1 else 0)
  }

  // ------------------------------------------------------------- the run

  /** `USE_PREDEFINED_ROUTES`, default "true", lower-cased and compared. */
  function UsePredefinedRoutes(setting: Option<string>): (r: bool)
    ensures setting.None? ==> r
    ensures r && setting.Some? ==> 1 <= |setting.value| <= 4
  {
    AsciiLowerKeeps("true");
    var v := if setting.None? then "true" else setting.value;
    AsciiLower(v) in {"true", "1", "yes"}
  }

  /** The setting defaults to on and is read case-insensitively. */
  lemma UsePredefinedRoutesExamples()
    ensures UsePredefinedRoutes(None)
    ensures UsePredefinedRoutes(Some("TRUE")) && UsePredefinedRoutes(Some("Yes"))
  {
    AsciiLowerKeeps("true");
    AsciiLowerKeeps("yes");
    assert SameUpToCase("TRUE", "true") by { CapitalsOfTrue(); }
    UsePredefinedRoutesIgnoresCase("TRUE", "true");
    assert SameUpToCase("Yes", "yes") by { CapitalOfYes(); }
    UsePredefinedRoutesIgnoresCase("Yes", "yes");
  }

  lemma CapitalsOfTrue()
    ensures SameUpToCase("TRUE", "true")
  {
    var a, b := "TRUE", "true";
    assert forall i :: 0 <= i < 4 ==> IsAsciiUpper(a[i]) && b[i] as int == a[i] as int + 32;
  }

  lemma CapitalOfYes()
    ensures SameUpToCase("Yes", "yes")
  {
    var a, b := "Yes", "yes";
    assert IsAsciiUpper(a[0]) && b[0] as int == a[0] as int + 32;
    assert a[1..] == b[1..];
  }

  /** Two settings that differ only in the case of their letters switch the
      predefined routes the same way. */
  lemma UsePredefinedRoutesIgnoresCase(a: string, b: string)
    requires SameUpToCase(a, b)
    ensures UsePredefinedRoutes(Some(a)) == UsePredefinedRoutes(Some(b))
  {
    AsciiLowerIgnoresCase(a, b);
  }

  /** A given setting switches the predefined routes on exactly when it spells
      `true`, `1` or `yes` in any mix of ASCII case. */
  lemma UsePredefinedRoutesAccepts(s: string)
    ensures UsePredefinedRoutes(Some(s)) <==>
      SameUpToCase(s, "true") || SameUpToCase(s, "1") || SameUpToCase(s, "yes")
  {
    AsciiLowerIsSameUpToCase(s, "true");
    AsciiLowerIsSameUpToCase(s, "1");
    AsciiLowerIsSameUpToCase(s, "yes");
  }

  /** Values outside `true`, `1` and `yes` switch the predefined routes off. */
  lemma UsePredefinedRoutesRejects()
    ensures !UsePredefinedRoutes(Some("false")) && !UsePredefinedRoutes(Some("0"))
  {
    AsciiLowerKeeps("false");
    AsciiLowerKeeps("0");
  }

  /** The twelve route calls of a run with the predefined routes on. */
  const ROUTE_CALLS: nat := |VALID_ROUTES_DE_TO_TN| + |VALID_ROUTES_TN_TO_DE|

  /** All fares of one run: the German routes priced in EUR (calls 0 to 5),
      then the Tunisian routes priced in TND and converted at `rate` (calls 6
      to 11). */
  function ScrapedFlights(usePredefined: bool, today: Clock, fetch: Fetcher, rate: real, num: Numerics): seq<FareRecord>
    requires usePredefined ==> SearchableFrom(today, 0, ROUTE_CALLS)
  {
    var deTn := if usePredefined then VALID_ROUTES_DE_TO_TN else [];
    var tnDe := if usePredefined then VALID_ROUTES_TN_TO_DE else [];
    RoutesFares(deTn, 0, today, fetch, true, 1.0, num) + RoutesFares(tnDe, |deTn|, today, fetch, false, rate, num)
  }

  /** Every fare of a run is a `TU` fare on a predefined route with an ISO
      midnight date, EUR-site fares have equal price and EUR price, and with the
      predefined routes switched off nothing is scraped. */
  lemma ScrapedFlightsWellFormed(usePredefined: bool, today: Clock, fetch: Fetcher, rate: real, num: Numerics)
    requires usePredefined ==> SearchableFrom(today, 0, ROUTE_CALLS)
    ensures forall f :: f in ScrapedFlights(usePredefined, today, fetch, rate, num) ==>
      f.airlineCode == AIRLINE_CODE && IsoMidnightText(f.departureDate)
      && (Route(f.departureAirportCode, f.arrivalAirportCode) in VALID_ROUTES_DE_TO_TN ==> f.price == f.priceEur)
      && Route(f.departureAirportCode, f.arrivalAirportCode) in VALID_ROUTES_DE_TO_TN + VALID_ROUTES_TN_TO_DE
    ensures !usePredefined ==> ScrapedFlights(usePredefined, today, fetch, rate, num) == []
  {
    var deTn := if usePredefined then VALID_ROUTES_DE_TO_TN else [];
    var tnDe := if usePredefined then VALID_ROUTES_TN_TO_DE else [];
    var eur := RoutesFares(deTn, 0, today, fetch, true, 1.0, num);
    var tnd := RoutesFares(tnDe, |deTn|, today, fetch, false, rate, num);
    assert ScrapedFlights(usePredefined, today, fetch, rate, num) == eur + tnd;
    RoutesFaresWellFormed(deTn, 0, today, fetch, true, 1.0, num);
    RoutesFaresWellFormed(tnDe, |deTn|, today, fetch, false, rate, num);
    forall f: FareRecord | f in eur + tnd
      ensures f.airlineCode == AIRLINE_CODE && IsoMidnightText(f.departureDate)
      ensures Route(f.departureAirportCode, f.arrivalAirportCode) in VALID_ROUTES_DE_TO_TN ==> f.price == f.priceEur
      ensures Route(f.departureAirportCode, f.arrivalAirportCode) in VALID_ROUTES_DE_TO_TN + VALID_ROUTES_TN_TO_DE
    {
      var r := Route(f.departureAirportCode, f.arrivalAirportCode);
      if f in eur {
        assert WellFormedFare(f, deTn, true);
        assert r in VALID_ROUTES_DE_TO_TN;
      } else {
        assert WellFormedFare(f, tnDe, false);
        assert r in VALID_ROUTES_TN_TO_DE;
        OppositeDirections(r);
      }
    }
  }

  /** No predefined route runs in both directions' lists. */
  lemma OppositeDirections(r: Route)
    requires r in VALID_ROUTES_TN_TO_DE
    ensures r !in VALID_ROUTES_DE_TO_TN && r in VALID_ROUTES_DE_TO_TN + VALID_ROUTES_TN_TO_DE
  {
    assert r.dep in {"TUN", "MIR", "DJE"};
  }

  /** How a run ends: aborted by the missing EUR rate before anything is
      reported, or with the scraped fares handed to the report. */
  datatype RunResult = Aborted | Finished(flights: seq<FareRecord>, report: Reporting.ReportRun)

  class TunisairScraper {
    const apiClient: BackendApi.BackendApiClient
    const apiKeyProvided: bool
    const exchangeRateApiKey: string
    const fallbackEurRate: real

    constructor (apiClient: BackendApi.BackendApiClient, exchangeRateApiKey: string)
      ensures this.apiClient == apiClient && this.exchangeRateApiKey == exchangeRateApiKey
      ensures apiKeyProvided == KeyProvided(exchangeRateApiKey)
      ensures fallbackEurRate == FALLBACK_EUR_RATE
    {
      this.apiClient := apiClient;
      this.apiKeyProvided := KeyProvided(exchangeRateApiKey);
      this.exchangeRateApiKey := exchangeRateApiKey;
      this.fallbackEurRate := FALLBACK_EUR_RATE;
    }

    /** `_get_exchange_rate`: `replies(a)` is the answer to attempt `a`. Sleeps
        1 s after a transport failure unless it was the last attempt; an answer
        other than "success" is retried at once. */
    method GetExchangeRate(replies: nat -> Reply<RateBody>) returns (rate: RateLookup, attempts: nat, delays: seq<real>)
      ensures rate == ExchangeRate(apiKeyProvided, replies, fallbackEurRate)
      ensures !apiKeyProvided ==> attempts == 0
      ensures apiKeyProvided && FirstAccepted(replies, IsSuccess, 0, REQUEST_RETRIES).Some? ==>
        attempts == FirstAccepted(replies, IsSuccess, 0, REQUEST_RETRIES).value + 1
      ensures apiKeyProvided && FirstAccepted(replies, IsSuccess, 0, REQUEST_RETRIES).None? ==>
        attempts == REQUEST_RETRIES
      ensures |delays| == TransportFailures(replies, Min(attempts, REQUEST_RETRIES - 1))
      ensures forall i :: 0 <= i < |delays| ==> delays[i] == 1.0
    {
      delays := [];
      if !apiKeyProvided {
        return Rate(fallbackEurRate), 0, delays;
      }
      var attempt := 0;
      while attempt < REQUEST_RETRIES
        invariant attempt <= REQUEST_RETRIES
        invariant RateFrom(replies, attempt, fallbackEurRate) == RateFrom(replies, 0, fallbackEurRate)
        invariant FirstAccepted(replies, IsSuccess, attempt, REQUEST_RETRIES) == FirstAccepted(replies, IsSuccess, 0, REQUEST_RETRIES)
        invariant |delays| == TransportFailures(replies, Min(attempt, REQUEST_RETRIES - 1))
        invariant forall i :: 0 <= i < |delays| ==> delays[i] == 1.0
      {
        var reply := replies(attempt);
        if reply.Answered? {
          if reply.body.result == Some("success") {
            if reply.body.eur.None? {
              return MissingRate, attempt + 1, delays;
            }
            return Rate(reply.body.eur.value), attempt + 1, delays;
          }
        } else if attempt < REQUEST_RETRIES - 1 {
          delays := delays + [1.0];
        }
        attempt := attempt + 1;
      }
      return Rate(fallbackEurRate), REQUEST_RETRIES, delays;
    }

    /** `_extract_prices` over the cells of one view. */
    method ExtractPrices(cells: seq<Cell>, eurNative: bool, rate: real, num: Numerics) returns (found: seq<PriceEntry>)
      ensures found == PricesIn(cells, eurNative, rate, num)
    {
      found := [];
      var i := 0;
      while i < |cells|
        invariant i <= |cells|
        invariant found == PricesIn(cells[..i], eurNative, rate, num)
      {
        assert cells[..i + 1][..i] == cells[..i];
        var entry := CellPrice(cells[i], eurNative, rate, num);
        if entry.Some? {
          found := found + [entry.value];
        }
        i := i + 1;
      }
      assert cells[..i] == cells;
    }

    /** The retried GET for one search date: the first answered attempt's view. */
    method FetchView(replies: nat -> Reply<ViewBody>) returns (view: ViewBody)
      ensures view == ViewOf(replies)
    {
      view := NoMarkup;
      var attempt := 0;
      while attempt < REQUEST_RETRIES
        invariant attempt <= REQUEST_RETRIES
        invariant FirstAccepted(replies, IsAnswer, attempt, REQUEST_RETRIES) == FirstAccepted(replies, IsAnswer, 0, REQUEST_RETRIES)
      {
        var reply := replies(attempt);
        if reply.Answered? {
          return reply.body;
        }
        attempt := attempt + 1;
      }
    }

    /** One pass of `_scrape_route`'s loop: fetch the view of one search
        date and append its prices, tagged with the route and `TU`. */
    method ScrapeDate(route: Route, replies: nat -> Reply<ViewBody>, eurNative: bool, rate: real, num: Numerics)
      returns (flights: seq<FareRecord>)
      ensures flights == DateFares(route, replies, eurNative, rate, num)
    {
      flights := [];
      var view := FetchView(replies);
      if view.Markup? {
        var found := ExtractPrices(view.cells, eurNative, rate, num);
        var k := 0;
        while k < |found|
          invariant k <= |found|
          invariant flights == Tagged(found[..k], route)
        {
          TaggedSnoc(found, k, route);
          flights := flights + [Tag(found[k], route)];
          k := k + 1;
        }
        assert found[..k] == found;
      }
    }

    /** `_scrape_route`: the fares of the four search dates of `route`. */
    method ScrapeRoute(route: Route, eurNative: bool, rate: real, today: Date, fetch: Fetcher, num: Numerics) returns (flights: seq<FareRecord>)
      requires SearchableDay(today)
      ensures flights == RouteFares(route, SearchDates(today), fetch, eurNative, rate, num)
    {
      var dates := SearchDates(today);
      flights := [];
      var i := 0;
      while i < |dates|
        invariant i <= |dates|
        invariant flights == RouteFares(route, dates[..i], fetch, eurNative, rate, num)
      {
        RouteFaresStep(route, dates, i, fetch, eurNative, rate, num);
        var dateFlights := ScrapeDate(route, fetch(route.dep, route.arr, dates[i]), eurNative, rate, num);
        flights := flights + dateFlights;
        i := i + 1;
      }
      assert dates[..i] == dates;
    }

    /** The routes of one direction, route after route; the `i`-th route is
        call `first + i` of the run and reads `today(first + i)` at its start. */
    method ScrapeRoutes(routes: seq<Route>, first: nat, eurNative: bool, rate: real, today: Clock, fetch: Fetcher, num: Numerics) returns (flights: seq<FareRecord>)
      requires SearchableFrom(today, first, |routes|)
      ensures flights == RoutesFares(routes, first, today, fetch, eurNative, rate, num)
    {
      flights := [];
      var i := 0;
      while i < |routes|
        invariant i <= |routes|
        invariant SearchableFrom(today, first, i)
        invariant flights == RoutesFares(routes[..i], first, today, fetch, eurNative, rate, num)
      {
        RoutesFaresStep(routes, first, i, today, fetch, eurNative, rate, num);
        var routeFlights := ScrapeRoute(routes[i], eurNative, rate, today(first + i), fetch, num);
        flights := flights + routeFlights;
        i := i + 1;
        SearchablePrefix(today, first, |routes|, i);
      }
      assert routes[..i] == routes;
    }

    /** `run`: scrape the German routes in EUR, look the rate up, scrape the
        Tunisian routes in TND, and report everything. A missing EUR rate aborts
        the run before anything is reported. `today(k)` is the day the `k`-th
        route call reads. */
    method Run(setting: Option<string>, today: Clock, fetch: Fetcher, rateReplies: nat -> Reply<RateBody>,
               post: (nat, nat) -> bool, num: Numerics) returns (result: RunResult)
      requires UsePredefinedRoutes(setting) ==> SearchableFrom(today, 0, ROUTE_CALLS)
      ensures var lookup := ExchangeRate(apiKeyProvided, rateReplies, fallbackEurRate);
        (result.Aborted? <==> lookup.MissingRate?)
        && (result.Finished? ==>
              result.flights == ScrapedFlights(UsePredefinedRoutes(setting), today, fetch, lookup.value, num)
              && result.report == Reporting.Report(result.flights, post))
    {
      var usePredefined := UsePredefinedRoutes(setting);
      var deTn := if usePredefined then VALID_ROUTES_DE_TO_TN else [];
      var tnDe := if usePredefined then VALID_ROUTES_TN_TO_DE else [];
      var all := ScrapeRoutes(deTn, 0, true, 1.0, today, fetch, num);
      var lookup, _, _ := GetExchangeRate(rateReplies);
      if lookup.MissingRate? {
        return Aborted;
      }
      var more := ScrapeRoutes(tnDe, |deTn|, false, lookup.value, today, fetch, num);
      all := all + more;
      var report := apiClient.ReportScrapedData(all, post);
      return Finished(all, report);
    }
  }
}
