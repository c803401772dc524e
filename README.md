# Tunisia flights scraper — a Dafny model of the scraping services

The scraper collects one-way fares between Germany and Tunisia from two
airlines and reports them to a flights backend. This project models its four
service files:

- **backend client** (`app/services/backend_api_client.py`). It fetches the
  airport registry with up to 3 attempts and 2 s / 4 s back-off. It reports a
  fare list in chunks of 150 records, makes up to 3 POST attempts per chunk,
  pauses 1 s between chunks and raises at the first chunk that stays failed.
- **shared backend client** (`app/services/shared_services.py`). This is the
  same client with a single-attempt airport fetch. Its reporting code is the
  same text as the backend client's. The Nouvelair scraper names this class
  in its type hint, but `app/main.py:33-34` builds one backend client and
  hands it to both scrapers, so the Nouvelair scraper runs with the retrying
  airport fetch.
- **Tunisair scraper** (`app/services/tunisair_scraper_service.py`). It:
  - picks four search dates: today, then the 1st of each of the next three
    months;
  - fetches the per-day price view for each predefined route and date, with
    up to 3 attempts;
  - reads the priced cells;
  - normalises price texts such as `"123,45 EUR"`;
  - converts TND prices to EUR at a rate from the exchange-rate service, or
    at the 0.29 fallback;
  - reports everything.
- **Nouvelair scraper** (`app/services/nouvelair_scraper_service.py`). It:
  - uses the browser-captured API key;
  - builds every Tunisia→Germany and Germany→Tunisia route from the airport
    registry;
  - reads each route's availability list;
  - keeps the entries with a positive price and a valid date;
  - reports them.

Everything the services learn from the outside world is a parameter of the
model:

- The backend's answer to POST attempt `a` of chunk `j` is `post(j, a)`.
- The `k`-th airport-registry attempt is `get(k)`.
- The `a`-th exchange-rate attempt is `replies(a)`.
- The Tunisair per-day view is `fetch(dep, arr, date)(attempt)`.
- The Nouvelair availability for the `k`-th route is `avail(k)`.
- The captured key is `captured`.
- The current date is `today`. For Tunisair, `today(k)` is the date read by
  the `k`-th route call of a run, because `_scrape_route` reads the clock
  anew for each route.

A reply is `Failed` (a transport error, a 4xx/5xx status or an undecodable
body) or `Answered(body)`. Sleeps are part of what the model computes:
- the report call returns its trace of POSTs and sleeps;
- the airport fetch and the rate lookup return the delays they wait.

Float parsing and rounding are a parameter `num: Numerics`.

The modules:

| file | module | contents |
|---|---|---|
| `common.dfy` | `Common` | `Option`, `Reply`, the "first accepted attempt" search, `Numerics` |
| `fares.dfy` | `Fares` | `Route`, `Airport`, `FareRecord`; the airport list a client ends up with |
| `text.dfy` | `Text` | Python's `in`, `replace` and `lower` on strings |
| `dates.dfy` | `Dates` | `strptime`/`strftime` for `%Y-%m-%d`, `isoformat`, month arithmetic |
| `reporting.dfy` | `Reporting` | chunked, retried reporting: specification, trace lemmas, the two loops |
| `backend_api_client.dfy` | `BackendApi` | class `BackendApiClient` (retrying airport fetch) |
| `shared_services.dfy` | `SharedServices` | class `BackendApiClient` (single-attempt airport fetch) |
| `tunisair.dfy` | `Tunisair` | class `TunisairScraper` and the functions that specify it |
| `nouvelair.dfy` | `Nouvelair` | class `NouvelairScraper` and the functions that specify it |

Each method that loops is proved against a specification function. The
properties the source promises are lemmas about those functions. The main
ones:

- **Reporting:**
  - chunks partition the list in order;
  - delivery is an in-order prefix up to the first failing chunk, which
    raises;
  - no chunk gets more than 3 POSTs;
  - every sleep is a 2 s or 4 s back-off or a 1 s inter-chunk pause, and
    every back-off and pause that is due happens.
- **Tunisair:**
  - each record's date is its cell's date at midnight;
  - EUR records have `price == priceEur`;
  - a cell yields a record exactly under the code's conditions;
  - the four search dates parse to today and the following month starts, and
    are pairwise distinct.
- **Nouvelair:** the routes are exactly the Tunisian×German pairs in both
  directions, and there are `2·|TN|·|DE|` of them; a failed availability
  request adds no fare.

### Behaviours worth noting

- The airport fetch of the backend client waits `2 * (attempt + 1)`
  seconds after a failed attempt: 2 s after the first, 4 s after the
  second, none after the third.
- The rate lookup retries with a 1 s delay only after a transport or status
  error. An answer whose `result` is not `"success"` also uses up an attempt,
  but with no delay. A `"success"` answer without an EUR rate raises
  `KeyError`; one whose EUR rate is not a number raises `ValueError` or
  `TypeError` when the log line formats it with `:.4f`. Neither is caught:
  the model returns `MissingRate` for both and the run ends as `Aborted`,
  with nothing reported.
- Price normalisation only drops spaces, turns `,` into `.` and removes the
  currency code; it does not strip thousands separators. `"1.234,56 EUR"`
  becomes `"1.234.56"`, which `float` rejects, so that cell is skipped.
- The shared client's `get_airports` makes one attempt. No running scraper
  uses it (see above); `SharedServices.SingleAttemptVersusRetry` states where
  the two airport fetches differ.
- Nouvelair availability requests are not retried. A failed route
  contributes no fares.
- Each Tunisair route reads today's date when it starts, so a run that
  crosses midnight searches later routes from the next day.

## Model

| member | source | states |
|---|---|---|
| `BackendApi.BackendApiClient.Create` | app/services/backend_api_client.py:14-18 | construction fails exactly when the base URL is empty, otherwise the client keeps the URL |
| `BackendApi.BackendApiClient.constructor` | app/services/backend_api_client.py:14-18 | a non-empty base URL is stored |
| `BackendApi.BackendApiClient.GetAirports` | app/services/backend_api_client.py:20-46 | 1 to 3 attempts; every attempt before the last one made failed; the first answered body is returned, `[]` after three failures; the waits are 2 s, 4 s, … (one fewer than the attempts); equals `AirportsWithin(get, 3)` |
| `BackendApi.BackendApiClient.ReportScrapedData` | app/services/backend_api_client.py:48-90 | the POST/sleep trace and outcome are those of the reporting specification `Report` |
| `Fares.AirportsWithin` | app/services/backend_api_client.py:25-46 | a non-empty list is the body of an answered attempt within the limit; when every attempt fails the list is empty |
| `Fares.AirportsWithinSettled` | app/services/backend_api_client.py:25-46 | once some attempt has answered, allowing more attempts does not change the airport list |
| `Fares.AirportsWithinFirstAnswer` | app/services/backend_api_client.py:25-46 | an attempt that answers after only failures decides the list; with fewer attempts the list is empty |
| `Reporting.ChunksPartition` | app/services/backend_api_client.py:56-57 | ceil(N/150) chunks, each non-empty and at most 150 long, chunk j is `s[150j : 150j+150]`, and their concatenation is the list |
| `Reporting.Chunks` | app/services/backend_api_client.py:56-57 | every chunk is non-empty and at most 150 long; a non-empty list starts with a chunk holding its first `min(150, N)` records |
| `Reporting.Report` | app/services/backend_api_client.py:48-90 | an empty list makes no request and completes; a raise names one of the chunks |
| `Reporting.ReportFrom` | app/services/backend_api_client.py:56-88 | chunks `j, j+1, …` in order, each through `ChunkAttempts`, with the 1 s pause after a delivered chunk other than the last, stopping with a raise at the first chunk no attempt delivers; `ReportFromOutcome` states the outcome and the trace lemmas below state the rest |
| `Reporting.ChunkAttempts` | app/services/backend_api_client.py:62-79 | one chunk's POSTs from attempt `a` on, ending at the first answer without a 4xx/5xx status or after attempt 3, each failed attempt but the last followed by its back-off; `ReportAttemptsPerChunk` and `ReportSleeps` state what this gives per chunk |
| `Reporting.ReportDeliversPrefix` | app/services/backend_api_client.py:48-90 | empty list: no request; normal return: every chunk delivered, in order; raise at chunk k: exactly chunks 0..k-1 delivered, chunk k never accepted, nothing after k sent; every POST carries its own chunk |
| `Reporting.ReportAttemptsPerChunk` | app/services/backend_api_client.py:62-85 | a delivered chunk has at most two failed POSTs and then one success; the raising chunk has exactly three failed POSTs; later chunks have none |
| `Reporting.ReportSleeps` | app/services/backend_api_client.py:62-88 | every sleep sits between two POSTs and is either the 2·(a+1) s back-off after failed attempt a of a chunk or the 1 s pause between a delivered chunk and the next; conversely, every failed POST with a < 2 is followed at once by its 2·(a+1) s back-off, and every accepted POST of a chunk other than the last by the 1 s pause |
| `Reporting.ReportFirstTry` | app/services/backend_api_client.py:56-72 | when every first attempt succeeds, the call returns normally after exactly ceil(N/150) POSTs |
| `Reporting.PostChunk` | app/services/backend_api_client.py:62-85 | the retry loop of one chunk yields the specified attempts; the exception remains set exactly when no attempt succeeded |
| `Reporting.SendReport` | app/services/backend_api_client.py:48-90 | the chunk loop over offsets 0, 150, 300, … produces the specified trace and outcome |
| `SharedServices.BackendApiClient.Create` | app/services/shared_services.py:13-17 | construction fails exactly when the base URL is empty |
| `SharedServices.BackendApiClient.constructor` | app/services/shared_services.py:13-17 | a non-empty base URL is stored |
| `SharedServices.BackendApiClient.GetAirports` | app/services/shared_services.py:19-27 | a single attempt: its body when answered, `[]` when it failed |
| `SharedServices.BackendApiClient.ReportScrapedData` | app/services/shared_services.py:29-69 | the same reporting specification as the retrying client |
| `SharedServices.SingleAttemptVersusRetry` | app/services/shared_services.py:19-27 | the single-attempt and three-attempt lists agree when the first attempt answers; when only the second answers, the single-attempt list is empty and the retrying one is that body |
| `Text.ContainsIffOccurs` | app/services/tunisair_scraper_service.py:98 | the substring test holds exactly when the token occurs at some position |
| `Text.Contains` | app/services/tunisair_scraper_service.py:98 | Python's `token in text`, scanning from the left; `Text.ContainsIffOccurs` states that it holds exactly when the token occurs at some position |
| `Text.RemoveChar` | app/services/tunisair_scraper_service.py:99-101 | the result contains no occurrence of the character, is no longer than the input and has only characters of the input |
| `Text.ReplaceChar` | app/services/tunisair_scraper_service.py:99-101 | same length; each position holds the replacement where the input had the replaced character and is unchanged elsewhere |
| `Text.RemoveAll` | app/services/tunisair_scraper_service.py:99-101 | the result is no longer than the input and has only characters of the input |
| `Text.RemoveAllFirst` | app/services/tunisair_scraper_service.py:99-101 | an occurrence of the token after a token-free prefix is deleted and the prefix is kept: `replace(x + tok + y) == x + replace(y)` when `x` holds no occurrence |
| `Text.RemoveAllAbsent` | app/services/tunisair_scraper_service.py:99-101 | text without the token is left unchanged |
| `Text.AsciiLower` | app/services/tunisair_scraper_service.py:179 | same length; each ASCII capital becomes its lower-case letter (code + 32) and every other character is kept; no capital remains |
| `Text.AsciiLowerIgnoresCase` | app/services/tunisair_scraper_service.py:179 | two texts that differ only in the case of ASCII letters lower-case to the same text |
| `Text.AsciiLowerIsSameUpToCase` | app/services/tunisair_scraper_service.py:179-183 | a text lower-cases to a text without capitals exactly when the two differ only in the case of ASCII letters |
| `Dates.ParseDate` | app/services/tunisair_scraper_service.py:97 | whatever is parsed is a date that exists |
| `Dates.FormatDate` | app/services/tunisair_scraper_service.py:133 | `%Y-%m-%d` is ten characters with dashes at positions 4 and 7 |
| `Dates.IsoMidnight` | app/services/tunisair_scraper_service.py:115 | `isoformat()` of a midnight datetime is nineteen characters ending in `T00:00:00` |
| `Dates.ParseFormat` | app/services/tunisair_scraper_service.py:97 | every valid date is read back from its own `%Y-%m-%d` rendering |
| `Dates.FormatParse` | app/services/tunisair_scraper_service.py:115 | a text that parses is the rendering of its date, and its `isoformat()` is the text followed by `T00:00:00` |
| `Dates.FirstOfMonthAfter` | app/services/tunisair_scraper_service.py:134 | the result is a 1st of a month, exactly k months after the given one (with year roll-over) |
| `Tunisair.CurrencyToken` | app/services/tunisair_scraper_service.py:98-106 | the currency code is three characters without space or comma, starting with neither a point nor a comma |
| `Tunisair.NormaliseSpacedAmount` | app/services/tunisair_scraper_service.py:99-101 | "amount + space + currency code" normalises to the amount with its decimal comma turned into a point |
| `Tunisair.NormaliseEurExample` | app/services/tunisair_scraper_service.py:99-103 | `"123,45 EUR"` normalises to `"123.45"` |
| `Tunisair.NormaliseTndExample` | app/services/tunisair_scraper_service.py:105-108 | `"45,678 TND"` normalises to `"45.678"` |
| `Tunisair.NormalisePrice` | app/services/tunisair_scraper_service.py:99-101 | the text handed to `float` has no space and no comma and is no longer than the cell text |
| `Tunisair.CellPrice` | app/services/tunisair_scraper_service.py:89-116 | a price comes only from a priced cell, and on the EUR site it is its own EUR price |
| `Tunisair.CellPriceMeaning` | app/services/tunisair_scraper_service.py:89-116 | a cell yields a price exactly when it has a date and a price text other than `-`, the date parses, the text mentions the site's currency and the normalised amount parses; the price is that amount rounded to 2 places on the EUR site and to 3 on the TND site; the record's date is the cell's date at midnight; EUR prices have price = priceEur; TND prices are converted at the rate |
| `Tunisair.PricesIn` | app/services/tunisair_scraper_service.py:80-121 | `CellPrice` of each cell in document order, skipped cells dropping out; no more prices than cells; `PricesInSound` and `PricesInComplete` state that these are exactly the cells' prices |
| `Tunisair.PricesInSound` | app/services/tunisair_scraper_service.py:80-121 | every extracted price comes from some cell of the view |
| `Tunisair.PricesInComplete` | app/services/tunisair_scraper_service.py:80-121 | every cell that yields a price has it among the extracted prices |
| `Tunisair.PricesInWellFormed` | app/services/tunisair_scraper_service.py:115-116 | every extracted date is an ISO midnight timestamp, and on the EUR site price = priceEur |
| `Tunisair.SearchDates` | app/services/tunisair_scraper_service.py:132-136 | exactly four search dates |
| `Tunisair.SearchDatesMeaning` | app/services/tunisair_scraper_service.py:132-136 | the first date parses to today; date k parses to the 1st of the month k months later; the four dates are pairwise distinct |
| `Tunisair.ViewOf` | app/services/tunisair_scraper_service.py:145-157 | the view of the first answered attempt among 3, no markup when all fail; `DateFaresFailed`, `DateFaresNoMarkup` and `DateFaresFirstView` state what a date then yields |
| `Tunisair.DateFares` | app/services/tunisair_scraper_service.py:145-169 | the prices of the first answered view, tagged with the route and `TU`; nothing without markup; `DateFaresWellFormed` states the tags |
| `Tunisair.DateFaresFailed` | app/services/tunisair_scraper_service.py:145-173 | a search date whose 3 attempts all fail contributes no fares |
| `Tunisair.DateFaresNoMarkup` | app/services/tunisair_scraper_service.py:146-158 | the first answer ends the retries: when its view is missing or empty, the date contributes no fares, whatever later attempts would answer |
| `Tunisair.DateFaresFirstView` | app/services/tunisair_scraper_service.py:146-169 | when the first answer carries markup, the date's fares are exactly the prices extracted from its cells, tagged with the route |
| `Tunisair.RouteFares` | app/services/tunisair_scraper_service.py:137-175 | the fares of the given search dates, date after date; `RouteFaresWellFormed` states their tags |
| `Tunisair.RoutesFares` | app/services/tunisair_scraper_service.py:189-199 | the fares of the routes, route after route, route `i` searching from `today(first + i)`; `RoutesFaresStep` and `RoutesFaresWellFormed` state the step and the tags |
| `Tunisair.DateFaresWellFormed` | app/services/tunisair_scraper_service.py:158-169 | every fare found for a date carries the route's codes and `TU`, an ISO midnight date, and price = priceEur on the EUR site |
| `Tunisair.RouteFaresWellFormed` | app/services/tunisair_scraper_service.py:137-175 | the same holds for all search dates of a route |
| `Tunisair.RoutesFaresStep` | app/services/tunisair_scraper_service.py:132-136 | route `i` of a list scanned from call `first` searches from its own day `today(first + i)` and appends its fares |
| `Tunisair.RoutesFaresWellFormed` | app/services/tunisair_scraper_service.py:189-199 | every fare of a route list, each route searching from the day it reads, names one of those routes and is well formed |
| `Tunisair.RateFromFirstSuccess` | app/services/tunisair_scraper_service.py:58-78 | the rate is taken from the first "success" answer among the remaining attempts, and is the fallback when there is none |
| `Tunisair.RateFrom` | app/services/tunisair_scraper_service.py:58-78 | a rate other than the fallback is the EUR rate of a "success" answer among the remaining attempts; a missing rate comes from a "success" answer without a numeric one |
| `Tunisair.ExchangeRate` | app/services/tunisair_scraper_service.py:51-78 | without a key the fallback is used; a rate other than the fallback is the EUR rate of a "success" answer within 3 attempts |
| `Tunisair.ExchangeRateFallback` | app/services/tunisair_scraper_service.py:51-78 | without a usable key, or when no attempt answers "success", the rate is 0.29; the rate is missing only when a "success" answer has no numeric EUR rate |
| `Tunisair.UsePredefinedRoutesExamples` | app/services/tunisair_scraper_service.py:179-183 | unset means true; `TRUE` and `Yes` mean true, case being ignored |
| `Tunisair.UsePredefinedRoutesRejects` | app/services/tunisair_scraper_service.py:179-185 | `false` and `0` switch the predefined routes off |
| `Tunisair.UsePredefinedRoutes` | app/services/tunisair_scraper_service.py:179-183 | unset means on; an accepted setting is one to four characters long |
| `Tunisair.UsePredefinedRoutesIgnoresCase` | app/services/tunisair_scraper_service.py:179-183 | two settings that differ only in ASCII case give the same decision |
| `Tunisair.UsePredefinedRoutesAccepts` | app/services/tunisair_scraper_service.py:179-183 | a given setting switches the predefined routes on exactly when it is `true`, `1` or `yes` up to ASCII case; every other value switches them off |
| `Tunisair.ScrapedFlights` | app/services/tunisair_scraper_service.py:184-199 | the German-origin routes' EUR fares, then the Tunisian-origin routes' fares at the looked-up rate, or nothing with the predefined routes off; `ScrapedFlightsWellFormed` states their properties |
| `Tunisair.ScrapedFlightsWellFormed` | app/services/tunisair_scraper_service.py:184-199 | every scraped fare, whatever day each route reads, names a predefined route, with price = priceEur on the German-origin routes; with the predefined routes switched off nothing is scraped |
| `Tunisair.TunisairScraper.constructor` | app/services/tunisair_scraper_service.py:42-49 | the key counts as provided exactly when it is non-empty and not the placeholder; the fallback rate is 0.29 |
| `Tunisair.TunisairScraper.GetExchangeRate` | app/services/tunisair_scraper_service.py:51-78 | the rate is the specified lookup; no request is made without a key; otherwise the attempts stop at the first success or after three; one 1 s delay follows each transport failure except the last attempt's |
| `Tunisair.TunisairScraper.ExtractPrices` | app/services/tunisair_scraper_service.py:80-121 | the cell loop yields the specified prices in document order |
| `Tunisair.TunisairScraper.FetchView` | app/services/tunisair_scraper_service.py:145-157 | the retry loop keeps the first answered view, none after three failures |
| `Tunisair.TunisairScraper.ScrapeDate` | app/services/tunisair_scraper_service.py:145-169 | the fares of one date: the extracted prices tagged with the route and `TU`; none without a view |
| `Tunisair.TunisairScraper.ScrapeRoute` | app/services/tunisair_scraper_service.py:123-175 | the concatenated fares of the four search dates |
| `Tunisair.TunisairScraper.ScrapeRoutes` | app/services/tunisair_scraper_service.py:189-199 | the concatenated fares of the routes, in order, route `i` searching from the day `today(first + i)` it reads at its start |
| `Tunisair.TunisairScraper.Run` | app/services/tunisair_scraper_service.py:177-209 | the run aborts exactly when the rate lookup hits a "success" answer without a numeric EUR rate; otherwise it reports the EUR-site fares followed by the TND-site fares at the looked-up rate, through the chunked reporting; the German-origin routes are calls 0, 1, … and the Tunisian-origin routes follow, each reading its own day |
| `Nouvelair.CodesIn` | app/services/nouvelair_scraper_service.py:72-73 | no more codes than airports |
| `Nouvelair.CodesInMembership` | app/services/nouvelair_scraper_service.py:72-73 | a code is listed exactly when some airport with that code has that country |
| `Nouvelair.From` | app/services/nouvelair_scraper_service.py:74 | one route per destination, in order, all from the given airport |
| `Nouvelair.Product` | app/services/nouvelair_scraper_service.py:74 | `list(product(xs, ys))`; `ProductSize`, `ProductAt` and `ProductMembership` state its size, order and members |
| `Nouvelair.ProductSize` | app/services/nouvelair_scraper_service.py:74 | the product has `|xs|·|ys|` routes |
| `Nouvelair.ProductAt` | app/services/nouvelair_scraper_service.py:74 | the pair (xs[i], ys[j]) is at position `i·|ys| + j`, as `itertools.product` orders it |
| `Nouvelair.ProductMembership` | app/services/nouvelair_scraper_service.py:74 | a route is in the product exactly when its departure is in the first list and its arrival in the second |
| `Nouvelair.Routes` | app/services/nouvelair_scraper_service.py:72-74 | there are `2·|TN|·|DE|` routes |
| `Nouvelair.RoutesMembership` | app/services/nouvelair_scraper_service.py:72-74 | a route is scanned exactly when it links a Tunisian and a German airport, in either direction |
| `Nouvelair.RoutesExample` | app/services/nouvelair_scraper_service.py:72-74 | TUN/TN, CDG/FR, FRA/DE, XXX without a country and MUC/DE give TUN→FRA, TUN→MUC, FRA→TUN, MUC→TUN |
| `Nouvelair.EntryFareMeaning` | app/services/nouvelair_scraper_service.py:79-87 | an entry yields a record exactly when its price converts to a positive number and its date parses; the record has price = priceEur = that number, the date at midnight, the route's codes and `BJ` |
| `Nouvelair.EntryFareDropped` | app/services/nouvelair_scraper_service.py:80-89 | zero or negative prices, a missing price or date, a non-existent date and an unconvertible price are skipped |
| `Nouvelair.PriceOf` | app/services/nouvelair_scraper_service.py:80 | `float(flight["price"])`: a number as is, a text through `float`, nothing when the field is missing or not convertible; `EntryFareMeaning` and `EntryFareDropped` state its use |
| `Nouvelair.EntryFare` | app/services/nouvelair_scraper_service.py:79-89 | a record has a positive price equal to its EUR price and carries the route's codes |
| `Nouvelair.Availability` | app/services/nouvelair_scraper_service.py:49-58 | a failed request gives no entries; entries come only from an answer and are its "data" list |
| `Nouvelair.EntriesFares` | app/services/nouvelair_scraper_service.py:78-89 | the records of one route's entries in entry order, one per kept entry; `EntriesFaresWellFormed` states their form |
| `Nouvelair.RoutesFares` | app/services/nouvelair_scraper_service.py:77-89 | the records of every route in route order, route `k` read from `avail(k)`; `RoutesFaresWellFormed`, `RoutesFaresFailedStep` and `RoutesFaresAllFailed` state their properties |
| `Nouvelair.EntriesFaresWellFormed` | app/services/nouvelair_scraper_service.py:77-89 | at most one fare per entry, each well formed and on the route |
| `Nouvelair.RoutesFaresWellFormed` | app/services/nouvelair_scraper_service.py:77-89 | every fare is well formed and names one of the scanned routes |
| `Nouvelair.RoutesFaresFailedStep` | app/services/nouvelair_scraper_service.py:49-58 | a route whose availability request failed adds nothing to the fares of the routes before it |
| `Nouvelair.RoutesFaresAllFailed` | app/services/nouvelair_scraper_service.py:52-58 | when every availability request fails, no fare is collected |
| `Nouvelair.NouvelairScraper.constructor` | app/services/nouvelair_scraper_service.py:20-22 | the scraper starts without a key |
| `Nouvelair.NouvelairScraper.CaptureApiKey` | app/services/nouvelair_scraper_service.py:43-47 | a captured non-empty key replaces the stored one; otherwise the stored key is kept |
| `Nouvelair.NouvelairScraper.ScrapeRoutes` | app/services/nouvelair_scraper_service.py:76-90 | the nested route/entry loop yields the specified fares in order |
| `Nouvelair.NouvelairScraper.Run` | app/services/nouvelair_scraper_service.py:60-96 | the run stops without a usable key, having made no airport request; otherwise the returned count is the airport attempts made, up to 3, all failed but the last, the last failing only when it is the third; it stops when the backend client's airport fetch, with its up to 3 attempts, yields nothing; otherwise it reports the fares of every Tunisia/Germany route through the chunked reporting |

## Left out

- HTTP details are not modelled: sessions, URLs, query parameters, headers and timeouts. A failed request, a 4xx/5xx status and an undecodable JSON body are all one `Failed` reply. For the Tunisair view, an answer whose `"view"` is missing or empty counts as "no markup".
- The Playwright browser session of `_capture_api_key` is not modelled. Only its result, the captured key or none, is an input.
- BeautifulSoup parsing is not modelled. A view is given as its list of `td.available` cells, each with its `data-departure` attribute and the stripped text of its price `div`.
- `float()` and `round()` are parameters (`Numerics`). The model states which text reaches `float` and which product reaches `round`. It does not state the resulting numbers, so, for example, that 45.678 TND becomes 13.25 EUR at the fallback rate is not derived. NaN and infinity are not modelled.
- `Dates.ParseDate` accepts only the strict `YYYY-MM-DD` form with ASCII digits. `strptime`'s leniency is not modelled: it also accepts one-digit months and days, a space-padded day and non-ASCII decimal digits.
- `Tunisair.SearchDates`: requires a valid `today` with year ≥ 1000 whose fourth search month is still before year 10000. `strftime("%Y")` does not pad years below 1000, and `relativedelta` overflows past 9999. The same requirement carries over to `Tunisair.SearchDatesMeaning` and `Tunisair.TunisairScraper.ScrapeRoute`. `Tunisair.RoutesFaresWellFormed`, `Tunisair.ScrapedFlightsWellFormed`, `Tunisair.TunisairScraper.ScrapeRoutes` and `Tunisair.TunisairScraper.Run` require it of the day each route call reads (`SearchableFrom`).
- `Tunisair.TunisairScraper.ScrapeRoute`: the 1 s sleeps between per-date attempts and the 0.5 s sleep after each date are not recorded. `Nouvelair.NouvelairScraper.ScrapeRoutes` does not record the 1 s sleep after each route. These sleeps only pace the requests.
- `Tunisair.TunisairScraper.ScrapeRoute`: the Tunisair fetch oracle is keyed by (departure, arrival, date). It is not keyed by the site (German or Tunisian), because each predefined route is scraped on one site only.
- `Tunisair.TunisairScraper.Run`: a rate lookup that ends by raising is one outcome, `MissingRate`, which leads to `Aborted`. The model does not tell the `KeyError` of a missing EUR rate from the `ValueError` or `TypeError` of a non-numeric one; either way the run ends with nothing reported.
- `Tunisair.TunisairScraper.GetExchangeRate`: a decoded rate body that is not a JSON object (an array, say) makes `.get` raise `AttributeError`, which the `except RequestException` does not catch, so the run ends. The model's rate body is always an object, so this exit is not modelled.
- `Tunisair.TunisairScraper.FetchView`: a decoded view body that is not a JSON object likewise raises `AttributeError` out of `_scrape_route` and ends the run. The model's view body is always an object, so this exit is not modelled.
- `Nouvelair.NouvelairScraper.Run`: a Tunisian or German airport without a `"code"` field makes the route building raise `KeyError`, ending the run. `Fares.Airport` always carries a code, so this exit is not modelled.
- `Nouvelair.NouvelairScraper.Run`: two cases are not modelled, and both would raise outside the per-entry `try`. One is an availability answer whose `"data"` is `null`. The other is a JSON body that is not an object. A missing `"data"` is modelled as an empty list.
- `Text.AsciiLower`: lower-casing of non-ASCII characters is not modelled; only ASCII capitals change. Python's `lower()` also maps the Kelvin sign to `k` and the dotted capital I to `i` plus a combining dot, and no accepted setting (`true`, `1`, `yes`) contains either letter, so the decision is the same.
- Logging is not modelled.
- `app/main.py` is not part of this model: scheduling and environment lookup. Its wiring, one backend client shared by both scrapers (`app/main.py:33-34`), is built into the scrapers' `apiClient` fields.
- `app/services/airport_service.py` is not part of this model: an unused asynchronous airport client.
- The report call returns its trace and outcome instead of raising. The scrapers' `run` re-raise a reporting exception, and this shows up as `Raised` in the returned report.
- The reporting code is the same text in both clients. The model specifies and implements it once (`Reporting.Report`, `Reporting.SendReport`), and both classes' `ReportScrapedData` delegate to it.
