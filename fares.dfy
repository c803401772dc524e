/** The records the scrapers build and the backend receives. */
module Fares {
  import opened Common

  /** A directional city pair: `(A, B)` and `(B, A)` are different routes. */
  datatype Route = Route(dep: string, arr: string)

  /** An entry of the backend's airport registry. `country` is absent when the
      entry has no "country" field. */
  datatype Airport = Airport(code: string, country: Option<string>)

  /** The normalised fare record reported to the backend. */
  datatype FareRecord = FareRecord(
    departureDate: string,
    price: real,
    priceEur: real,
    departureAirportCode: string,
    arrivalAirportCode: string,
    airlineCode: string)

  /** The airport list a client ends up with when it may request the registry
      `limit` times: the body of the first answered attempt, `[]` when all fail. */
  function AirportsWithin(get: nat -> Reply<seq<Airport>>, limit: nat): (r: seq<Airport>)
    ensures r != [] ==> exists k: nat :: k < limit && get(k) == Answered(r)
    ensures (forall k: nat :: k < limit ==> get(k).Failed?) ==> r == []
  {
    match FirstAccepted(get, IsAnswer, 0, limit)
    case Some(k) => get(k).body
    case None => []
  }

  /** Extra attempts change nothing once an earlier attempt has answered. */
  lemma AirportsWithinSettled(get: nat -> Reply<seq<Airport>>, a: nat, m: nat, n: nat)
    requires a < m <= n && get(a).Answered?
    ensures AirportsWithin(get, m) == AirportsWithin(get, n)
  {
    var k := FirstAccepted(get, IsAnswer, 0, m);
    assert IsAnswer(get(a));
    var k' := FirstAccepted(get, IsAnswer, 0, n);
    assert k.Some? && k'.Some?;
    assert k == k';
  }

  /** An attempt that answers after only failures decides the list, and with
      fewer attempts than that the list is empty. */
  lemma AirportsWithinFirstAnswer(get: nat -> Reply<seq<Airport>>, a: nat, m: nat)
    requires a < m && get(a).Answered?
    requires forall b :: 0 <= b < a ==> get(b).Failed?
    ensures AirportsWithin(get, m) == get(a).body
    ensures AirportsWithin(get, a) == []
  {
    var k := FirstAccepted(get, IsAnswer, 0, m);
    assert IsAnswer(get(a));
    assert k == Some(a);
    var k' := FirstAccepted(get, IsAnswer, 0, a);
    assert k'.None?;
  }
}
