/** The second copy of the backend client, app/services/shared_services.py: the
    same constructor and report, but a single attempt at the airport registry.
    The Nouvelair module names this class in a type hint only; app/main.py
    constructs the retrying client instead, so no running scraper uses this copy. */
module SharedServices {
  import opened Common
  import opened Fares
  import opened Reporting

  class BackendApiClient {
    const baseUrl: string

    /** Only reached through `Create`, which refuses an empty base URL. */
    constructor (baseUrl: string)
      requires baseUrl != []
      ensures this.baseUrl == baseUrl
    {
      this.baseUrl := baseUrl;
    }

    /** `BackendApiClient(base_url)`: an empty base URL raises and no client exists. */
    static method Create(baseUrl: string) returns (r: Option<BackendApiClient>)
      ensures r.None? <==> baseUrl == []
      ensures r.Some? ==> fresh(r.value) && r.value.baseUrl == baseUrl
    {
      if baseUrl == [] {
        return None;
      }
      var client := new BackendApiClient(baseUrl);
      return Some(client);
    }

    /** `get_airports`: one GET of `{base}/airports/`; any failure gives `[]`.
        `get(0)` is the reply to that single request. */
    method GetAirports(get: nat -> Reply<seq<Airport>>) returns (airports: seq<Airport>)
      ensures get(0).Answered? ==> airports == get(0).body
      ensures get(0).Failed? ==> airports == []
      ensures airports == AirportsWithin(get, 1)
    {
      var reply := get(0);
      if reply.Answered? {
        AirportsWithinFirstAnswer(get, 0, 1);
        return reply.body;
      }
      assert FirstAccepted(get, IsAnswer, 0, 1).None?;
      return [];
    }

    /** `report_scraped_data`: the same chunked, retried report as the other copy. */
    method ReportScrapedData(flights: seq<FareRecord>, post: (nat, nat) -> bool) returns (run: ReportRun)
      ensures run == Report(flights, post)
    {
      run := SendReport(flights, post);
    }
  }

  /** Where the two copies agree and differ: a first answer gives both clients
      the same list; a registry that answers only on the second attempt leaves
      this copy with no airports and the retrying copy with the answer. */
  lemma SingleAttemptVersusRetry(get: nat -> Reply<seq<Airport>>)
    ensures get(0).Answered? ==> AirportsWithin(get, 1) == AirportsWithin(get, REQUEST_RETRIES)
    ensures get(0).Failed? && get(1).Answered? ==>
      AirportsWithin(get, 1) == [] && AirportsWithin(get, REQUEST_RETRIES) == get(1).body
  {
    if get(0).Answered? {
      AirportsWithinSettled(get, 0, 1, REQUEST_RETRIES);
    }
    if get(0).Failed? && get(1).Answered? {
      AirportsWithinFirstAnswer(get, 1, REQUEST_RETRIES);
    }
  }
}
