/** The backend client of app/services/backend_api_client.py: the airport
    registry fetch with up to 3 attempts and the chunked, retried report. */
module BackendApi {
  import opened Common
  import opened Fares
  import opened Reporting

  class BackendApiClient {
    const baseUrl: string

    /** Only reached through `Create`, which refuses an empty base URL. */
    constructor (baseUrl: string)
      requires baseUrl != []
      ensures this.baseUrl == baseUrl
    {
      this.baseUrl := baseUrl;
    }

    /** `BackendApiClient(base_url)`: an empty base URL raises and no client exists. */
    static method Create(baseUrl: string) returns (r: Option<BackendApiClient>)
      ensures r.None? <==> baseUrl == []
      ensures r.Some? ==> fresh(r.value) && r.value.baseUrl == baseUrl
    {
      if baseUrl == [] {
        return None;
      }
      var client := new BackendApiClient(baseUrl);
      return Some(client);
    }

    /** `get_airports`: GET `{base}/airports/` until an attempt answers, at most 3
        times, sleeping `2 * (attempt + 1)` seconds after each failed attempt but
        the last. `get(a)` is the reply to attempt `a`. Returns the body of the
        first answer, or `[]` once all 3 attempts failed. */
    method GetAirports(get: nat -> Reply<seq<Airport>>) returns (airports: seq<Airport>, attempts: nat, delays: seq<real>)
      ensures 1 <= attempts <= REQUEST_RETRIES
      ensures forall a :: 0 <= a < attempts - 1 ==> get(a).Failed?
      ensures get(attempts - 1).Answered? ==> airports == get(attempts - 1).body
      ensures get(attempts - 1).Failed? ==> attempts == REQUEST_RETRIES && airports == []
      ensures airports == AirportsWithin(get, REQUEST_RETRIES)
      ensures |delays| == attempts - 1
      ensures forall i :: 0 <= i < |delays| ==> delays[i] == 2.0 * (i + 1) as real
    {
      var attempt := 0;
      delays := [];
      while attempt < REQUEST_RETRIES
        invariant attempt <= REQUEST_RETRIES
        invariant forall a :: 0 <= a < attempt ==> get(a).Failed?
        invariant |delays| == Min(attempt, REQUEST_RETRIES - 1)
        invariant forall i :: 0 <= i < |delays| ==> delays[i] == 2.0 * (i + 1) as real
      {
        var reply := get(attempt);
        if reply.Answered? {
          AirportsWithinFirstAnswer(get, attempt, REQUEST_RETRIES);
          return reply.body, attempt + 1, delays;
        }
        if attempt < REQUEST_RETRIES - 1 {
          delays := delays + [2.0 * (attempt + 1) as real];
        }
        attempt := attempt + 1;
      }
      assert FirstAccepted(get, IsAnswer, 0, REQUEST_RETRIES).None?;
      return [], REQUEST_RETRIES, delays;
    }

    /** `report_scraped_data`: POSTs `flights` to `{base}/flights/report-scraped-data`
        in chunks of 150 with up to 3 attempts each; the returned run records every
        POST and sleep and whether the call raised. */
    method ReportScrapedData(flights: seq<FareRecord>, post: (nat, nat) -> bool) returns (run: ReportRun)
      ensures run == Report(flights, post)
    {
      run := SendReport(flights, post);
    }
  }
}
