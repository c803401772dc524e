/** The Nouvelair scraper of app/services/nouvelair_scraper_service.py: with an
    API key captured from the airline's site and the backend's airport list, it
    asks the availability API for every directional route between a Tunisian and
    a German airport, keeps the entries with a positive price and a valid date
    as fares of airline `BJ`, and reports them through the backend client it is
    given. The module's type hint names the single-attempt client of
    app/services/shared_services.py, but app/main.py hands it the retrying client
    of app/services/backend_api_client.py, so that is the client modelled here. */
module Nouvelair {
  import opened Common
  import opened Fares
  import opened Dates
  import Reporting
  import BackendApi

  const AIRLINE_CODE: string := "BJ"
  const TUNISIA: string := "TN"
  const GERMANY: string := "DE"

  // ---------------------------------------------------------------- routes

  /** `[a['code'] for a in airports if a.get("country") == country]`. */
  function CodesIn(airports: seq<Airport>, country: string): (r: seq<string>)
    ensures |r| <= |airports|
  {
    if airports == [] then []
    else
      (if airports[0].country == Some(country) then [airports[0].code] else [])
      + CodesIn(airports[1..], country)
  }

  /** A code is listed exactly when some airport of that country has it. */
  lemma {:induction false} CodesInMembership(airports: seq<Airport>, country: string, code: string)
    ensures code in CodesIn(airports, country) <==>
      exists i :: 0 <= i < |airports| && airports[i].code == code && airports[i].country == Some(country)
  {
    if airports != [] {
      CodesInMembership(airports[1..], country, code);
      if exists i :: 0 <= i < |airports[1..]| && airports[1..][i].code == code && airports[1..][i].country == Some(country) {
        var i :| 0 <= i < |airports[1..]| && airports[1..][i].code == code && airports[1..][i].country == Some(country);
        assert airports[i + 1] == airports[1..][i];
      }
      if exists i :: 0 <= i < |airports| && airports[i].code == code && airports[i].country == Some(country) {
        var i :| 0 <= i < |airports| && airports[i].code == code && airports[i].country == Some(country);
        if i > 0 {
          assert airports[1..][i - 1] == airports[i];
        }
      }
    }
  }

  /** The routes from `x` to each of `ys`, in order. */
  function From(x: string, ys: seq<string>): (r: seq<Route>)
    ensures |r| == |ys|
    ensures forall j :: 0 <= j < |ys| ==> r[j] == Route(x, ys[j])
  {
    seq(|ys|, j requires 0 <= j < |ys| => Route(x, ys[j]))
  }

  /** `list(product(xs, ys))`. */
  function Product(xs: seq<string>, ys: seq<string>): seq<Route> {
    if xs == [] then [] else From(xs[0], ys) + Product(xs[1..], ys)
  }

  /** `product` lists `|xs| * |ys|` pairs. */
  lemma {:induction false} ProductSize(xs: seq<string>, ys: seq<string>)
    ensures |Product(xs, ys)| == |xs| * |ys|
  {
    if xs != [] {
      ProductSize(xs[1..], ys);
      MulStep(|xs|, |ys|);
    }
  }

  lemma MulStep(i: nat, m: nat)
    requires i > 0
    ensures i * m == (i - 1) * m + m
  {
  }

  /** The `j`-th partner of `xs[i]` sits at position `i * |ys| + j`, so the
      pairs come in the order of `xs`, then of `ys`. */
  lemma {:induction false} ProductAt(xs: seq<string>, ys: seq<string>, i: nat, j: nat)
    requires i < |xs| && j < |ys|
    ensures i * |ys| + j < |Product(xs, ys)|
    ensures Product(xs, ys)[i * |ys| + j] == Route(xs[i], ys[j])
  {
    var rest := Product(xs[1..], ys);
    assert Product(xs, ys) == From(xs[0], ys) + rest;
    if i > 0 {
      ProductAt(xs[1..], ys, i - 1, j);
      MulStep(i, |ys|);
      assert xs[1..][i - 1] == xs[i];
    }
  }

  /** A pair is in the product exactly when its ends are in the two lists. */
  lemma {:induction false} ProductMembership(xs: seq<string>, ys: seq<string>, r: Route)
    ensures r in Product(xs, ys) <==> r.dep in xs && r.arr in ys
  {
    if xs != [] {
      ProductMembership(xs[1..], ys, r);
      assert xs == [xs[0]] + xs[1..];
      if r.dep == xs[0] && r.arr in ys {
        var j :| 0 <= j < |ys| && ys[j] == r.arr;
        assert From(xs[0], ys)[j] == r;
      }
    }
  }

  /** The Tunisian airports to the German ones, then back: `2 * |TN| * |DE|`
      directional routes. */
  function Routes(airports: seq<Airport>): (r: seq<Route>)
    ensures |r| == 2 * |CodesIn(airports, TUNISIA)| * |CodesIn(airports, GERMANY)|
  {
    var tn := CodesIn(airports, TUNISIA);
    var de := CodesIn(airports, GERMANY);
    ProductSize(tn, de);
    ProductSize(de, tn);
    MulDouble(|tn|, |de|);
    Product(tn, de) + Product(de, tn)
  }

  /** The routes are every Tunisian to German pair and every German to
      Tunisian pair, and nothing else. */
  lemma RoutesMembership(airports: seq<Airport>, r: Route)
    ensures var tn := CodesIn(airports, TUNISIA); var de := CodesIn(airports, GERMANY);
      r in Routes(airports) <==> (r.dep in tn && r.arr in de) || (r.dep in de && r.arr in tn)
  {
    var tn := CodesIn(airports, TUNISIA);
    var de := CodesIn(airports, GERMANY);
    ProductMembership(tn, de, r);
    ProductMembership(de, tn, r);
  }

  lemma MulDouble(a: int, b: int)
    ensures a * b + b * a == 2 * a * b
  {
  }

  /** Two German airports and one Tunisian one, with an airport of another
      country and one without a country, give four routes in this order. */
  lemma RoutesExample()
    ensures Routes([Airport("TUN", Some("TN")), Airport("CDG", Some("FR")), Airport("FRA", Some("DE")),
                    Airport("XXX", None), Airport("MUC", Some("DE"))])
         == [Route("TUN", "FRA"), Route("TUN", "MUC"), Route("FRA", "TUN"), Route("MUC", "TUN")]
  {
    var airports := [Airport("TUN", Some("TN")), Airport("CDG", Some("FR")), Airport("FRA", Some("DE")),
                     Airport("XXX", None), Airport("MUC", Some("DE"))];
    ExampleTunisian(airports);
    ExampleGerman(airports);
    RoutesOf(airports, ["TUN"], ["FRA", "MUC"]);
    ProductOneTwo("TUN", "FRA", "MUC");
    ProductPairOne("FRA", "MUC", "TUN");
    assert [Route("TUN", "FRA"), Route("TUN", "MUC")] + [Route("FRA", "TUN"), Route("MUC", "TUN")]
        == [Route("TUN", "FRA"), Route("TUN", "MUC"), Route("FRA", "TUN"), Route("MUC", "TUN")];
  }

  lemma RoutesOf(airports: seq<Airport>, tn: seq<string>, de: seq<string>)
    requires CodesIn(airports, TUNISIA) == tn && CodesIn(airports, GERMANY) == de
    ensures Routes(airports) == Product(tn, de) + Product(de, tn)
  {
  }

  lemma ProductOneTwo(x: string, y: string, z: string)
    ensures Product([x], [y, z]) == [Route(x, y), Route(x, z)]
  {
    ProductSingle(x, [y, z]);
    FromPair(x, y, z);
  }

  lemma ProductPairOne(x: string, y: string, z: string)
    ensures Product([x, y], [z]) == [Route(x, z), Route(y, z)]
  {
    assert [x, y] == [x] + [y];
    ProductCons(x, [y], [z]);
    ProductSingle(y, [z]);
    FromOne(x, z);
    FromOne(y, z);
  }

  lemma FromOne(x: string, y: string)
    ensures From(x, [y]) == [Route(x, y)]
  {
    assert From(x, [y])[0] == Route(x, y);
  }

  lemma FromPair(x: string, y: string, z: string)
    ensures From(x, [y, z]) == [Route(x, y), Route(x, z)]
  {
    assert From(x, [y, z])[0] == Route(x, y);
    assert From(x, [y, z])[1] == Route(x, z);
  }

  lemma ProductCons(x: string, xs: seq<string>, ys: seq<string>)
    ensures Product([x] + xs, ys) == From(x, ys) + Product(xs, ys)
  {
    assert ([x] + xs)[1..] == xs;
  }

  lemma ProductSingle(x: string, ys: seq<string>)
    ensures Product([x], ys) == From(x, ys)
  {
    assert [x][1..] == [];
    assert From(x, ys) + [] == From(x, ys);
  }

  lemma ExampleTunisian(airports: seq<Airport>)
    requires airports == [Airport("TUN", Some("TN")), Airport("CDG", Some("FR")), Airport("FRA", Some("DE")),
                          Airport("XXX", None), Airport("MUC", Some("DE"))]
    ensures CodesIn(airports, TUNISIA) == ["TUN"]
  {
    assert CodesIn(airports[4..], TUNISIA) == [];
    assert CodesIn(airports[3..], TUNISIA) == [];
    assert CodesIn(airports[2..], TUNISIA) == [];
    assert CodesIn(airports[1..], TUNISIA) == [];
  }

  lemma ExampleGerman(airports: seq<Airport>)
    requires airports == [Airport("TUN", Some("TN")), Airport("CDG", Some("FR")), Airport("FRA", Some("DE")),
                          Airport("XXX", None), Airport("MUC", Some("DE"))]
    ensures CodesIn(airports, GERMANY) == ["FRA", "MUC"]
  {
    assert CodesIn(airports[4..], GERMANY) == ["MUC"];
    assert CodesIn(airports[3..], GERMANY) == ["MUC"];
    assert CodesIn(airports[2..], GERMANY) == ["FRA", "MUC"];
    assert CodesIn(airports[1..], GERMANY) == ["FRA", "MUC"];
  }

  // -------------------------------------------------------- availability

  /** The "price" field of an entry as `float` sees it: a JSON number, a
      string, or something `float` refuses with a `TypeError` (null, a list,
      an object). */
  datatype PriceField = Number(value: real) | Text(text: string) | Unconvertible

  /** One entry of the "data" list: its "price" and "date" fields, each absent
      when missing; `date` is also absent when it is not a string. An entry that
      is not an object behaves as one with neither field. */
  datatype Entry = Entry(price: Option<PriceField>, date: Option<string>)

  /** The decoded answer: its "data" list, absent when the key is missing. */
  datatype AvailabilityBody = AvailabilityBody(data: Option<seq<Entry>>)

  /** `_get_nouvelair_flight_availability`: any failure gives no entries; the
      entries are the "data" list of an answer that has one. */
  function Availability(reply: Reply<AvailabilityBody>): (r: seq<Entry>)
    ensures reply.Failed? ==> r == []
    ensures r != [] ==> reply.Answered? && reply.body.data == Some(r)
    ensures reply.Answered? && reply.body.data.Some? ==> r == reply.body.data.value
  {
    match reply
    case Failed => []
    case Answered(body) => if body.data.Some? then body.data.value else []
  }

  /** `float(flight["price"])`, `None` where it raises. */
  function PriceOf(e: Entry, num: Numerics): Option<real> {
    match e.price
    case None => None
    case Some(Number(v)) => Some(v)
    case Some(Text(t)) => num.parseFloat(t)
    case Some(Unconvertible) => None
  }

  /** One entry of route `route`: no record unless the price converts, is
      positive and the date parses; the record's EUR price is its price. */
  function EntryFare(e: Entry, route: Route, num: Numerics): (r: Option<FareRecord>)
    ensures r.Some? ==> r.value.price > 0.0 && r.value.priceEur == r.value.price
    ensures r.Some? ==> r.value.departureAirportCode == route.dep && r.value.arrivalAirportCode == route.arr
  {
    match PriceOf(e, num)
    case None => None
    case Some(p) =>
      if p <= 0.0 then None
      else if e.date.None? then None
      else match ParseDate(e.date.value)
        case None => None
        case Some(d) => Some(FareRecord(IsoMidnight(d), p, p, route.dep, route.arr, AIRLINE_CODE))
  }

  /** A Nouvelair fare: airline `BJ`, a positive price equal to its EUR price,
      and a departure date that is a parsed day at midnight. */
  predicate WellFormedFare(f: FareRecord) {
    f.airlineCode == AIRLINE_CODE && f.price > 0.0 && f.price == f.priceEur
    && |f.departureDate| == 19 && ParseDate(f.departureDate[..10]).Some?
    && f.departureDate[10..] == "T00:00:00"
  }

  /** An entry yields a record exactly when its price converts to a positive
      number and its date parses; the record carries that price twice, the
      date at midnight and the route's codes. */
  lemma EntryFareMeaning(e: Entry, route: Route, num: Numerics)
    ensures var r := EntryFare(e, route, num);
      (r.Some? <==> PriceOf(e, num).Some? && PriceOf(e, num).value > 0.0
                    && e.date.Some? && ParseDate(e.date.value).Some?)
      && (r.Some? ==>
            WellFormedFare(r.value)
            && r.value.price == PriceOf(e, num).value
            && r.value.departureDate == e.date.value + "T00:00:00"
            && r.value.departureAirportCode == route.dep && r.value.arrivalAirportCode == route.arr)
  {
    var r := EntryFare(e, route, num);
    if r.Some? {
      FormatParse(e.date.value);
      assert r.value.departureDate[..10] == e.date.value;
      assert r.value.departureDate[10..] == "T00:00:00";
    }
  }

  /** A zero or negative price and a malformed entry alike give no record. */
  lemma EntryFareDropped(route: Route, num: Numerics)
    ensures EntryFare(Entry(Some(Number(0.0)), Some("2025-03-01")), route, num).None?
    ensures EntryFare(Entry(Some(Number(-5.0)), Some("2025-03-01")), route, num).None?
    ensures EntryFare(Entry(None, Some("2025-03-01")), route, num).None?
    ensures EntryFare(Entry(Some(Number(120.0)), None), route, num).None?
    ensures EntryFare(Entry(Some(Number(120.0)), Some("2025-02-30")), route, num).None?
    ensures EntryFare(Entry(Some(Unconvertible), Some("2025-03-01")), route, num).None?
  {
    assert ParseDate("2025-02-30").None? by {
      assert !ValidDate(Date(2025, 2, 30));
    }
  }

  /** The records of one route's entries, in entry order. */
  function EntriesFares(entries: seq<Entry>, route: Route, num: Numerics): seq<FareRecord> {
    if entries == [] then []
    else EntriesFares(entries[..|entries| - 1], route, num) + Listed(EntryFare(entries[|entries| - 1], route, num))
  }

  /** The records of all routes, route after route; `avail(k)` is the reply to
      the availability request for the `k`-th route. */
  function RoutesFares(routes: seq<Route>, avail: nat -> Reply<AvailabilityBody>, num: Numerics): seq<FareRecord> {
    if routes == [] then []
    else
      var k := |routes| - 1;
      RoutesFares(routes[..k], avail, num) + EntriesFares(Availability(avail(k)), routes[k], num)
  }

  lemma {:induction false} EntriesFaresWellFormed(entries: seq<Entry>, route: Route, num: Numerics)
    ensures |EntriesFares(entries, route, num)| <= |entries|
    ensures forall f :: f in EntriesFares(entries, route, num) ==>
      WellFormedFare(f) && f.departureAirportCode == route.dep && f.arrivalAirportCode == route.arr
  {
    if entries != [] {
      var n := |entries| - 1;
      EntriesFaresWellFormed(entries[..n], route, num);
      EntryFareMeaning(entries[n], route, num);
    }
  }

  /** Every reported Nouvelair fare is well formed and belongs to one of the
      routes asked about, and there are at most as many as entries received. */
  lemma {:induction false} RoutesFaresWellFormed(routes: seq<Route>, avail: nat -> Reply<AvailabilityBody>, num: Numerics)
    ensures forall f :: f in RoutesFares(routes, avail, num) ==>
      WellFormedFare(f) && Route(f.departureAirportCode, f.arrivalAirportCode) in routes
  {
    if routes != [] {
      var k := |routes| - 1;
      RoutesFaresWellFormed(routes[..k], avail, num);
      EntriesFaresWellFormed(Availability(avail(k)), routes[k], num);
      forall f | f in RoutesFares(routes, avail, num)
        ensures WellFormedFare(f) && Route(f.departureAirportCode, f.arrivalAirportCode) in routes
      {
        if f in RoutesFares(routes[..k], avail, num) {
          assert Route(f.departureAirportCode, f.arrivalAirportCode) in routes[..k];
        } else {
          assert Route(f.departureAirportCode, f.arrivalAirportCode) == routes[k];
        }
      }
    }
  }

  /** Scanning route `k` appends the records of its entries. */
  lemma RoutesFaresStep(routes: seq<Route>, k: nat, avail: nat -> Reply<AvailabilityBody>, num: Numerics)
    requires k < |routes|
    ensures RoutesFares(routes[..k + 1], avail, num)
         == RoutesFares(routes[..k], avail, num) + EntriesFares(Availability(avail(k)), routes[k], num)
  {
    assert routes[..k + 1][..k] == routes[..k];
  }

  /** Reading entry `i` appends its record, if any. */
  lemma EntriesFaresStep(entries: seq<Entry>, i: nat, route: Route, num: Numerics)
    requires i < |entries|
    ensures EntriesFares(entries[..i + 1], route, num)
         == EntriesFares(entries[..i], route, num) + Listed(EntryFare(entries[i], route, num))
  {
    assert entries[..i + 1][..i] == entries[..i];
  }

  /** A route whose request failed adds nothing to the fares of the routes
      before it. */
  lemma RoutesFaresFailedStep(routes: seq<Route>, k: nat, avail: nat -> Reply<AvailabilityBody>, num: Numerics)
    requires k < |routes| && avail(k).Failed?
    ensures RoutesFares(routes[..k + 1], avail, num) == RoutesFares(routes[..k], avail, num)
  {
    RoutesFaresStep(routes, k, avail, num);
    assert EntriesFares([], routes[k], num) == [];
    assert RoutesFares(routes[..k], avail, num) + [] == RoutesFares(routes[..k], avail, num);
  }

  /** When every availability request fails there are no fares at all. */
  lemma {:induction false} RoutesFaresAllFailed(routes: seq<Route>, avail: nat -> Reply<AvailabilityBody>, num: Numerics)
    requires forall k: nat :: k < |routes| ==> avail(k).Failed?
    ensures RoutesFares(routes, avail, num) == []
  {
    if routes != [] {
      RoutesFaresAllFailed(routes[..|routes| - 1], avail, num);
    }
  }

  // ------------------------------------------------------------- the run

  /** How a run ends: without a key, without airports (nothing reported in
      either case), or with the fares handed to the report. */
  datatype RunResult = NoApiKey | NoAirports | Reported(flights: seq<FareRecord>, report: Reporting.ReportRun)

  /** What the browser capture hands over counts only when non-empty. */
  predicate Usable(key: Option<string>) {
    key.Some? && key.value != []
  }

  class NouvelairScraper {
    const apiClient: BackendApi.BackendApiClient
    var apiKey: Option<string>

    constructor (apiClient: BackendApi.BackendApiClient)
      ensures this.apiClient == apiClient && apiKey == None
    {
      this.apiClient := apiClient;
      apiKey := None;
    }

    /** The end of `_capture_api_key`: `captured` is what the browser session
        secured; a usable key replaces the stored one, anything else keeps it. */
    method CaptureApiKey(captured: Option<string>)
      modifies this
      ensures apiKey == if Usable(captured) then captured else old(apiKey)
    {
      if Usable(captured) {
        apiKey := captured;
      }
    }

    /** The loop of `run` over the routes and their entries. */
    method ScrapeRoutes(routes: seq<Route>, avail: nat -> Reply<AvailabilityBody>, num: Numerics) returns (flights: seq<FareRecord>)
      ensures flights == RoutesFares(routes, avail, num)
    {
      flights := [];
      var k := 0;
      while k < |routes|
        invariant k <= |routes|
        invariant flights == RoutesFares(routes[..k], avail, num)
      {
        var entries := Availability(avail(k));
        ghost var before := flights;
        var i := 0;
        while i < |entries|
          invariant i <= |entries|
          invariant flights == before + EntriesFares(entries[..i], routes[k], num)
        {
          var fare := EntryFare(entries[i], routes[k], num);
          EntriesFaresStep(entries, i, routes[k], num);
          if fare.Some? {
            flights := flights + [fare.value];
          }
          i := i + 1;
        }
        assert entries[..i] == entries;
        RoutesFaresStep(routes, k, avail, num);
        k := k + 1;
      }
      assert routes[..k] == routes;
    }

    /** `run`: capture the key, fetch the airports, scan every route and report.
        `airportsReply(a)` answers attempt `a` of the airport request (the client
        makes up to 3), `avail(k)` the request for the `k`-th route.
        `airportAttempts` counts the airport requests made: none without a key,
        otherwise the failed attempts and the one that ended the fetch. */
    method Run(captured: Option<string>, airportsReply: nat -> Reply<seq<Airport>>,
               avail: nat -> Reply<AvailabilityBody>, post: (nat, nat) -> bool, num: Numerics)
      returns (result: RunResult, airportAttempts: nat)
      modifies this
      ensures apiKey == if Usable(captured) then captured else old(apiKey)
      ensures result.NoApiKey? <==> !Usable(apiKey)
      ensures result.NoApiKey? ==> airportAttempts == 0
      ensures !result.NoApiKey? ==>
        1 <= airportAttempts <= Reporting.REQUEST_RETRIES
        && (forall a :: 0 <= a < airportAttempts - 1 ==> airportsReply(a).Failed?)
        && (airportsReply(airportAttempts - 1).Failed? ==> airportAttempts == Reporting.REQUEST_RETRIES)
      ensures result.NoAirports? <==> Usable(apiKey) && AirportsWithin(airportsReply, Reporting.REQUEST_RETRIES) == []
      ensures result.Reported? ==>
        result.flights == RoutesFares(Routes(AirportsWithin(airportsReply, Reporting.REQUEST_RETRIES)), avail, num)
        && result.report == Reporting.Report(result.flights, post)
    {
      CaptureApiKey(captured);
      if !Usable(apiKey) {
        return NoApiKey, 0;
      }
      var airports, attempts, _ := apiClient.GetAirports(airportsReply);
      airportAttempts := attempts;
      if airports == [] {
        return NoAirports, airportAttempts;
      }
      var tn := CodesIn(airports, TUNISIA);
      var de := CodesIn(airports, GERMANY);
      var routes := Product(tn, de) + Product(de, tn);
      var flights := ScrapeRoutes(routes, avail, num);
      var report := apiClient.ReportScrapedData(flights, post);
      return Reported(flights, report), airportAttempts;
    }
  }
}
