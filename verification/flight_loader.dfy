/** Construction of the in-memory flight index
    (backend/skypath_backend/utils/flight_loader.py): the airport map, the
    display list of airports, the flights kept from the dataset and the
    index of outbound flights per origin, ordered by UTC departure. */
module FlightLoader {
  import opened Wrappers
  import StableSort

  /** One entry of the dataset's `airports` list; `name` and `city` may be absent. */
  datatype AirportRecord = AirportRecord(
    code: string, name: Option<string>, city: Option<string>, country: string, timezone: string)

  /** Airport metadata kept for search. */
  datatype AirportInfo = AirportInfo(code: string, country: string, timezone: string)

  /** One entry of the display list served for dropdowns. */
  datatype AirportSummary = AirportSummary(code: string, name: string, city: string, country: string)

  /** One entry of the dataset's `flights` list. `departureTime` and `arrivalTime`
      are local wall-clock strings; `price` is in cents and may be absent. */
  datatype FlightRecord = FlightRecord(
    flightNumber: string, origin: string, destination: string,
    departureTime: string, arrivalTime: string, price: Option<int>, airline: Option<string>)

  /** A flight as the search sees it: UTC instants (seconds) for arithmetic,
      countries copied from the airports, local strings kept for display. */
  datatype Flight = Flight(
    flightNumber: string, origin: string, destination: string,
    departureUtc: int, arrivalUtc: int, price: int,
    originCountry: string, destinationCountry: string, airline: string,
    departureLocal: string, arrivalLocal: string)
  {
    /** The UTC calendar date of the departure; `utcDate` stands for
        formatting a UTC instant as YYYY-MM-DD. */
    function DepartureDate(utcDate: int -> string): string {
      utcDate(departureUtc)
    }
  }

  /** The departure date is the UTC one: it depends on the departure instant
      alone, not on the local wall-clock string or on the airports. */
  lemma DepartureDateIsUtc(f: Flight, g: Flight, utcDate: int -> string)
    requires f.departureUtc == g.departureUtc
    ensures f.DepartureDate(utcDate) == g.DepartureDate(utcDate)
  {
  }

  type AirportMap = map<string, AirportInfo>

  /** Origin code to that airport's outbound flights. */
  type FlightIndex = map<string, seq<Flight>>

  function InfoOf(a: AirportRecord): AirportInfo {
    AirportInfo(a.code, a.country, a.timezone)
  }

  function SummaryOf(a: AirportRecord): AirportSummary {
    AirportSummary(a.code, a.name.GetOr(""), a.city.GetOr(""), a.country)
  }

  /** The airport map after registering every record in order. */
  function AirportMapOf(airports: seq<AirportRecord>): AirportMap {
    if airports == [] then map[]
    else
      var last := airports[|airports| - 1];
      AirportMapOf(airports[..|airports| - 1])[last.code := InfoOf(last)]
  }

  /** A flight record whose two airports are both in the map. */
  predicate Known(airportMap: AirportMap, r: FlightRecord) {
    r.origin in airportMap && r.destination in airportMap
  }

  /** The flight built from a record. `toUtc(text, zone)` is the UTC instant of
      the local time `text`, read in `zone` when the text carries no offset. */
  function FlightOf(airportMap: AirportMap, r: FlightRecord, toUtc: (string, string) -> int): Flight
    requires Known(airportMap, r)
  {
    var from, to := airportMap[r.origin], airportMap[r.destination];
    Flight(r.flightNumber, r.origin, r.destination,
           toUtc(r.departureTime, from.timezone), toUtc(r.arrivalTime, to.timezone),
           r.price.GetOr(0), from.country, to.country, r.airline.GetOr(""),
           r.departureTime, r.arrivalTime)
  }

  /** The flights kept from the records, in dataset order. */
  function KeptFlights(airportMap: AirportMap, records: seq<FlightRecord>, toUtc: (string, string) -> int): seq<Flight> {
    if records == [] then []
    else
      var last := records[|records| - 1];
      KeptFlights(airportMap, records[..|records| - 1], toUtc)
      + (if Known(airportMap, last) then [FlightOf(airportMap, last, toUtc)] else [])
  }

  /** The origin codes of `flights`. */
  function Origins(flights: seq<Flight>): set<string> {
    if flights == [] then {} else Origins(flights[..|flights| - 1]) + {flights[|flights| - 1].origin}
  }

  /** The flights from `origin`, in the order of `flights`. */
  function Group(flights: seq<Flight>, origin: string): seq<Flight> {
    if flights == [] then []
    else
      var last := flights[|flights| - 1];
      Group(flights[..|flights| - 1], origin) + (if last.origin == origin then [last] else [])
  }

  function DepartureKey(f: Flight): int {
    f.departureUtc
  }

  /** The index the loader builds: each origin's flights, stably sorted by departure. */
  function IndexOf(flights: seq<Flight>): FlightIndex {
    map k | k in Origins(flights) :: StableSort.SortBy(Group(flights, k), DepartureKey)
  }

  /** Every list in the index holds only flights from its own key. */
  ghost predicate IndexGrouped(index: FlightIndex) {
    forall k, f :: k in index && f in index[k] ==> f.origin == k
  }

  /** Builds the airport map, the airport display list and the flight index. */
  method LoadFlightsAndAirports(airportsRaw: seq<AirportRecord>, flightsRaw: seq<FlightRecord>,
                                toUtc: (string, string) -> int)
    returns (airportMap: AirportMap, flightsFrom: FlightIndex, airportsList: seq<AirportSummary>)
    ensures airportMap == AirportMapOf(airportsRaw)
    ensures |airportsList| == |airportsRaw|
    ensures forall i :: 0 <= i < |airportsRaw| ==> airportsList[i] == SummaryOf(airportsRaw[i])
    ensures flightsFrom == IndexOf(KeptFlights(airportMap, flightsRaw, toUtc))
  {
    airportMap, airportsList := LoadAirports(airportsRaw);
    var flights := LoadFlights(airportMap, flightsRaw, toUtc);
    flightsFrom := GroupByOrigin(flights);
    flightsFrom := SortGroups(flights, flightsFrom);
  }

  /** Registers every airport record, in order, in the map and the display list. */
  method LoadAirports(airportsRaw: seq<AirportRecord>)
    returns (airportMap: AirportMap, airportsList: seq<AirportSummary>)
    ensures airportMap == AirportMapOf(airportsRaw)
    ensures |airportsList| == |airportsRaw|
    ensures forall i :: 0 <= i < |airportsRaw| ==> airportsList[i] == SummaryOf(airportsRaw[i])
  {
    airportMap, airportsList := map[], [];
    for i := 0 to |airportsRaw|
      invariant airportMap == AirportMapOf(airportsRaw[..i])
      invariant |airportsList| == i
      invariant forall j :: 0 <= j < i ==> airportsList[j] == SummaryOf(airportsRaw[j])
    {
      var a := airportsRaw[i];
      assert airportsRaw[..i + 1] == airportsRaw[..i] + [a];
      airportMap := airportMap[a.code := InfoOf(a)];
      airportsList := airportsList + [SummaryOf(a)];
    }
    assert airportsRaw[..|airportsRaw|] == airportsRaw;
  }

  /** Converts the records whose two airports are known, skipping the rest. */
  method LoadFlights(airportMap: AirportMap, flightsRaw: seq<FlightRecord>, toUtc: (string, string) -> int)
    returns (flights: seq<Flight>)
    ensures flights == KeptFlights(airportMap, flightsRaw, toUtc)
  {
    flights := [];
    for i := 0 to |flightsRaw|
      invariant flights == KeptFlights(airportMap, flightsRaw[..i], toUtc)
    {
      var f := flightsRaw[i];
      assert flightsRaw[..i + 1] == flightsRaw[..i] + [f];
      if f.origin in airportMap && f.destination in airportMap {
        flights := flights + [FlightOf(airportMap, f, toUtc)];
      }
    }
    assert flightsRaw[..|flightsRaw|] == flightsRaw;
  }

  /** Appends each flight to its origin's list, creating the list on first use. */
  method GroupByOrigin(flights: seq<Flight>) returns (flightsFrom: FlightIndex)
    ensures flightsFrom.Keys == Origins(flights)
    ensures forall k :: k in flightsFrom ==> flightsFrom[k] == Group(flights, k)
  {
    flightsFrom := map[];
    for i := 0 to |flights|
      invariant GroupedAs(flights[..i], flightsFrom)
    {
      var fl := flights[i];
      var bucket := if fl.origin in flightsFrom then flightsFrom[fl.origin] else [];
      assert GroupedAs(flights[..i + 1], flightsFrom[fl.origin := bucket + [fl]]) by {
        assert flights[..i + 1] == flights[..i] + [fl];
        GroupStep(flights[..i], fl, flightsFrom);
      }
      flightsFrom := flightsFrom[fl.origin := bucket + [fl]];
    }
    assert flights[..|flights|] == flights;
  }

  /** `grouped` maps exactly the origins of `flights` to their groups. */
  ghost predicate GroupedAs(flights: seq<Flight>, grouped: FlightIndex) {
    && grouped.Keys == Origins(flights)
    && forall k :: Group(flights, k) == if k in grouped then grouped[k] else []
  }

  /** Appending a flight to its origin's list, creating it on first use,
      keeps the lists equal to the groups. */
  lemma GroupStep(flights: seq<Flight>, fl: Flight, grouped: FlightIndex)
    requires GroupedAs(flights, grouped)
    ensures GroupedAs(flights + [fl], grouped[fl.origin := (if fl.origin in grouped then grouped[fl.origin] else []) + [fl]])
  {
    assert (flights + [fl])[..|flights|] == flights;
  }

  /** Sorts every list of a grouped index by UTC departure. */
  method SortGroups(flights: seq<Flight>, grouped: FlightIndex) returns (flightsFrom: FlightIndex)
    requires grouped.Keys == Origins(flights)
    requires forall k :: k in grouped ==> grouped[k] == Group(flights, k)
    ensures flightsFrom == IndexOf(flights)
  {
    flightsFrom := grouped;
    var pending := grouped.Keys;
    while pending != {}
      invariant pending <= flightsFrom.Keys == grouped.Keys
      invariant forall k :: k in pending ==> flightsFrom[k] == grouped[k]
      invariant forall k :: k in grouped && k !in pending ==>
        flightsFrom[k] == StableSort.SortBy(grouped[k], DepartureKey)
      decreases pending
    {
      var k :| k in pending;
      flightsFrom := flightsFrom[k := StableSort.SortBy(flightsFrom[k], DepartureKey)];
      pending := pending - {k};
    }
    SortedGroupsAreIndex(flights, grouped, flightsFrom);
  }

  /** Sorting every group of the grouped flights yields the index. */
  lemma SortedGroupsAreIndex(flights: seq<Flight>, grouped: FlightIndex, sorted: FlightIndex)
    requires grouped.Keys == Origins(flights) == sorted.Keys
    requires forall k :: k in grouped ==> grouped[k] == Group(flights, k)
    requires forall k :: k in grouped ==> sorted[k] == StableSort.SortBy(grouped[k], DepartureKey)
    ensures sorted == IndexOf(flights)
  {
  }

  /** The map's codes are exactly the records' codes. */
  lemma {:induction false} AirportMapKeys(airports: seq<AirportRecord>, code: string)
    ensures code in AirportMapOf(airports) <==> exists i :: 0 <= i < |airports| && airports[i].code == code
    decreases |airports|
  {
    if airports != [] {
      var init := airports[..|airports| - 1];
      AirportMapKeys(init, code);
      if code in AirportMapOf(init) {
        var i :| 0 <= i < |init| && init[i].code == code;
        assert airports[i].code == code;
      }
      forall i | 0 <= i < |airports| - 1 && airports[i].code == code ensures code in AirportMapOf(init) {
        assert init[i] == airports[i];
      }
    }
  }

  /** A repeated code: the last record with that code wins. */
  lemma {:induction false} AirportMapLastWins(airports: seq<AirportRecord>, i: int)
    requires 0 <= i < |airports|
    requires forall j :: i < j < |airports| ==> airports[j].code != airports[i].code
    ensures airports[i].code in AirportMapOf(airports)
    ensures AirportMapOf(airports)[airports[i].code] == InfoOf(airports[i])
    decreases |airports|
  {
    if i < |airports| - 1 {
      var init := airports[..|airports| - 1];
      assert init[i] == airports[i];
      forall j | i < j < |init| ensures init[j].code != init[i].code {
        assert init[j] == airports[j];
      }
      AirportMapLastWins(init, i);
    }
  }

  /** `f` carries record `r`'s flight number, airports and local time strings
      unchanged, the instants of those strings read in the origin's zone
      (departure) and the destination's zone (arrival), and its price, 0 when absent. */
  ghost predicate CopiedFrom(airportMap: AirportMap, r: FlightRecord, toUtc: (string, string) -> int, f: Flight)
    requires f.origin in airportMap && f.destination in airportMap
  {
    && r.flightNumber == f.flightNumber && r.origin == f.origin && r.destination == f.destination
    && r.departureTime == f.departureLocal && r.arrivalTime == f.arrivalLocal
    && f.departureUtc == toUtc(r.departureTime, airportMap[f.origin].timezone)
    && f.arrivalUtc == toUtc(r.arrivalTime, airportMap[f.destination].timezone)
    && f.price == (if r.price.Some? then r.price.value else 0)
  }

  /** Every kept flight comes from a record whose two airports are known; its
      countries are those airports' countries, its local times are the
      record's strings unchanged, its instants are read in the origin's zone
      (departure) and the destination's zone (arrival), and a missing price is 0. */
  lemma {:induction false} KeptFlightsSound(airportMap: AirportMap, records: seq<FlightRecord>,
                                             toUtc: (string, string) -> int, f: Flight)
    requires f in KeptFlights(airportMap, records, toUtc)
    ensures f.origin in airportMap && f.destination in airportMap
    ensures f.originCountry == airportMap[f.origin].country
    ensures f.destinationCountry == airportMap[f.destination].country
    ensures exists i :: 0 <= i < |records| && CopiedFrom(airportMap, records[i], toUtc, f)
    decreases |records|
  {
    var init, last := records[..|records| - 1], records[|records| - 1];
    if f in KeptFlights(airportMap, init, toUtc) {
      KeptFlightsSound(airportMap, init, toUtc, f);
      var i :| 0 <= i < |init| && CopiedFrom(airportMap, init[i], toUtc, f);
      assert records[i] == init[i];
    } else {
      assert f == FlightOf(airportMap, last, toUtc);
      assert records[|records| - 1] == last;
    }
  }

  /** Conversely, every record whose two airports are known yields a kept flight. */
  lemma {:induction false} KeptFlightsComplete(airportMap: AirportMap, records: seq<FlightRecord>,
                                                toUtc: (string, string) -> int, i: int)
    requires 0 <= i < |records| && Known(airportMap, records[i])
    ensures FlightOf(airportMap, records[i], toUtc) in KeptFlights(airportMap, records, toUtc)
    decreases |records|
  {
    if i < |records| - 1 {
      var init := records[..|records| - 1];
      assert init[i] == records[i];
      KeptFlightsComplete(airportMap, init, toUtc, i);
    }
  }

  lemma {:induction false} OriginsMembers(flights: seq<Flight>, k: string)
    ensures k in Origins(flights) <==> exists i :: 0 <= i < |flights| && flights[i].origin == k
    decreases |flights|
  {
    if flights != [] {
      var init := flights[..|flights| - 1];
      OriginsMembers(init, k);
      if k in Origins(init) {
        var i :| 0 <= i < |init| && init[i].origin == k;
        assert flights[i].origin == k;
      }
      forall i | 0 <= i < |flights| - 1 && flights[i].origin == k ensures k in Origins(init) {
        assert init[i] == flights[i];
      }
    }
  }

  /** A group holds, with multiplicity, exactly the flights from its origin. */
  lemma {:induction false} GroupCounts(flights: seq<Flight>, k: string)
    ensures forall f :: multiset(Group(flights, k))[f] == if f.origin == k then multiset(flights)[f] else 0
    ensures Group(flights, k) == [] <==> k !in Origins(flights)
    decreases |flights|
  {
    if flights != [] {
      var init, last := flights[..|flights| - 1], flights[|flights| - 1];
      assert flights == init + [last];
      GroupCounts(init, k);
    }
  }

  /** The index: its keys are the kept flights' origins; each list holds only
      flights from its key, ordered by UTC departure, with equal departures in
      dataset order; and together the lists hold every kept flight exactly as
      often as the dataset does. */
  lemma IndexOfProperties(flights: seq<Flight>)
    ensures IndexOf(flights).Keys == Origins(flights)
    ensures forall k :: k in IndexOf(flights) <==> exists i :: 0 <= i < |flights| && flights[i].origin == k
    ensures IndexGrouped(IndexOf(flights))
    ensures forall k :: k in IndexOf(flights) ==> StableSort.SortedBy(IndexOf(flights)[k], DepartureKey)
    ensures forall k, t :: k in IndexOf(flights) ==>
      StableSort.WithKey(IndexOf(flights)[k], DepartureKey, t) == StableSort.WithKey(Group(flights, k), DepartureKey, t)
    ensures forall f :: multiset(flights)[f] ==
                        if f.origin in IndexOf(flights) then multiset(IndexOf(flights)[f.origin])[f] else 0
  {
    IndexOfKeys(flights);
    IndexOfListsSorted(flights);
    IndexOfCounts(flights);
  }

  /** The index keys are exactly the origins of the flights. */
  lemma IndexOfKeys(flights: seq<Flight>)
    ensures IndexOf(flights).Keys == Origins(flights)
    ensures forall k :: k in IndexOf(flights) <==> exists i :: 0 <= i < |flights| && flights[i].origin == k
  {
    forall k ensures k in IndexOf(flights) <==> exists i :: 0 <= i < |flights| && flights[i].origin == k {
      OriginsMembers(flights, k);
    }
  }

  /** Each list of the index is its group stably sorted by departure. */
  lemma IndexOfListsSorted(flights: seq<Flight>)
    ensures forall k :: k in IndexOf(flights) ==> StableSort.SortedBy(IndexOf(flights)[k], DepartureKey)
    ensures forall k, t :: k in IndexOf(flights) ==>
      StableSort.WithKey(IndexOf(flights)[k], DepartureKey, t) == StableSort.WithKey(Group(flights, k), DepartureKey, t)
  {
    forall k | k in IndexOf(flights)
      ensures StableSort.SortedBy(IndexOf(flights)[k], DepartureKey)
      ensures forall t :: StableSort.WithKey(IndexOf(flights)[k], DepartureKey, t) == StableSort.WithKey(Group(flights, k), DepartureKey, t)
    {
      StableSort.SortByIsStableSort(Group(flights, k), DepartureKey);
    }
  }

  /** Each list of the index holds only flights from its key, and each
      flight as often as the dataset does. */
  lemma IndexOfCounts(flights: seq<Flight>)
    ensures IndexGrouped(IndexOf(flights))
    ensures forall f :: multiset(flights)[f] ==
                        if f.origin in IndexOf(flights) then multiset(IndexOf(flights)[f.origin])[f] else 0
  {
    var index := IndexOf(flights);
    forall k, f: Flight | k in index && f in index[k] ensures f.origin == k {
      GroupCounts(flights, k);
      assert f in multiset(index[k]);
    }
    forall f ensures multiset(flights)[f] == if f.origin in index then multiset(index[f.origin])[f] else 0 {
      GroupCounts(flights, f.origin);
    }
  }
}
