/** Itinerary search over the flight index
    (backend/skypath_backend/utils/search.py): the connection rule, the
    assembly of one itinerary record from a path, and the depth-bounded
    depth-first search whose results are stably ranked by total duration. */
module ItinerarySearch {
  import opened Rules
  import StableSort
  import opened FlightLoader

  // ---------------------------------------------------------------------------
  // Connection rule

  /** Whole minutes in `seconds`, truncated toward zero, as `int(seconds / 60)`. */
  function MinutesTruncated(seconds: int): (m: int)
    ensures seconds >= 0 ==> 0 <= m && m * 60 <= seconds < m * 60 + 60
    ensures seconds < 0 ==> m <= 0 && m * 60 - 60 < seconds <= m * 60
  {
    if seconds >= 0 then seconds / 60 else -((-seconds) / 60)
  }

  /** The layover between `prev`'s arrival and `next`'s departure, in truncated minutes. */
  function LayoverMinutes(prev: Flight, next: Flight): int {
    MinutesTruncated(next.departureUtc - prev.arrivalUtc)
  }

  /** A leg is domestic when it starts and ends in the same country. */
  predicate IsDomesticLeg(f: Flight) {
    f.originCountry == f.destinationCountry
  }

  /** 45 minutes when both legs are domestic, 90 otherwise. */
  function MinLayover(prev: Flight, next: Flight): int {
    if IsDomesticLeg(prev) && IsDomesticLeg(next) then MinLayoverDomestic else MinLayoverInternational
  }

  /** May a traveller arriving on `prev` connect to `next`? */
  function ValidConnection(prev: Flight, next: Flight): (ok: bool)
    ensures ok <==> prev.destination == next.origin
                    && MinLayover(prev, next) <= LayoverMinutes(prev, next) <= MaxLayover
    ensures ok ==> next.departureUtc - prev.arrivalUtc >= 60 * MinLayover(prev, next)
    ensures ok ==> next.departureUtc - prev.arrivalUtc < 60 * (MaxLayover + 1)
  {
    if prev.destination != next.origin then false
    else
      var layover := LayoverMinutes(prev, next);
      if layover > MaxLayover then false
      else
        var isDomestic := IsDomesticLeg(prev) && IsDomesticLeg(next);
        var minLayover := if isDomestic then MinLayoverDomestic else MinLayoverInternational;
        layover >= minLayover
  }

  /** The boundary cases of the rule: between two domestic legs a 40-minute
      layover is refused and a 46-minute one accepted; a 400-minute layover is
      refused whatever the countries; an international leg needs 90 minutes. */
  lemma ConnectionBoundaries(prev: Flight, next: Flight)
    requires prev.destination == next.origin
    ensures IsDomesticLeg(prev) && IsDomesticLeg(next) && next.departureUtc - prev.arrivalUtc == 40 * 60
            ==> !ValidConnection(prev, next)
    ensures IsDomesticLeg(prev) && IsDomesticLeg(next) && next.departureUtc - prev.arrivalUtc == 46 * 60
            ==> ValidConnection(prev, next)
    ensures next.departureUtc - prev.arrivalUtc == 400 * 60 ==> !ValidConnection(prev, next)
    ensures !(IsDomesticLeg(prev) && IsDomesticLeg(next)) && next.departureUtc - prev.arrivalUtc < 90 * 60
            ==> !ValidConnection(prev, next)
  {
  }

  // ---------------------------------------------------------------------------
  // Itinerary records

  datatype Segment = Segment(
    flightNumber: string, origin: string, destination: string,
    departureTime: string, arrivalTime: string, price: int)

  datatype Layover = Layover(airport: string, durationMinutes: int)

  /** One search result; `totalPrice` is in cents. */
  datatype Itinerary = Itinerary(
    segments: seq<Segment>, layovers: seq<Layover>, totalDurationMinutes: int, totalPrice: int)

  function SegmentOf(f: Flight): Segment {
    Segment(f.flightNumber, f.origin, f.destination, f.departureLocal, f.arrivalLocal, f.price)
  }

  function LayoverAt(path: seq<Flight>, i: int): Layover
    requires 0 <= i < |path| - 1
  {
    Layover(path[i].destination, LayoverMinutes(path[i], path[i + 1]))
  }

  function SumPrices(path: seq<Flight>): int {
    if path == [] then 0 else SumPrices(path[..|path| - 1]) + path[|path| - 1].price
  }

  /** The record the search reports for a path. */
  function ItineraryOf(path: seq<Flight>): Itinerary
    requires |path| >= 1
  {
    Itinerary(
      seq(|path|, i requires 0 <= i < |path| => SegmentOf(path[i])),
      seq(|path| - 1, i requires 0 <= i < |path| - 1 => LayoverAt(path, i)),
      MinutesTruncated(path[|path| - 1].arrivalUtc - path[0].departureUtc),
      SumPrices(path))
  }

  /** Assembles the record for `path` leg by leg. */
  method BuildItineraryOutput(path: seq<Flight>) returns (it: Itinerary)
    requires |path| >= 1
    ensures it == ItineraryOf(path)
  {
    var segments: seq<Segment> := [];
    var layovers: seq<Layover> := [];
    var totalPrice := 0;
    for i := 0 to |path|
      invariant |segments| == i
      invariant forall j :: 0 <= j < i ==> segments[j] == SegmentOf(path[j])
      invariant |layovers| == if i == |path| then i - 1 else i
      invariant forall j :: 0 <= j < |layovers| ==> layovers[j] == LayoverAt(path, j)
      invariant totalPrice == SumPrices(path[..i])
    {
      var fl := path[i];
      SumPricesStep(path, i);
      segments := segments + [SegmentOf(fl)];
      totalPrice := totalPrice + fl.price;
      if i + 1 < |path| {
        var nextFl := path[i + 1];
        assert LayoverAt(path, i) == Layover(fl.destination, MinutesTruncated(nextFl.departureUtc - fl.arrivalUtc));
        layovers := layovers + [Layover(fl.destination, MinutesTruncated(nextFl.departureUtc - fl.arrivalUtc))];
      }
    }
    assert path[..|path|] == path;
    var firstDep := path[0].departureUtc;
    var lastArr := path[|path| - 1].arrivalUtc;
    assert segments == ItineraryOf(path).segments;
    assert layovers == ItineraryOf(path).layovers;
    it := Itinerary(segments, layovers, MinutesTruncated(lastArr - firstDep), totalPrice);
  }

  lemma SumPricesStep(path: seq<Flight>, i: int)
    requires 0 <= i < |path|
    ensures SumPrices(path[..i + 1]) == SumPrices(path[..i]) + path[i].price
  {
    assert path[..i + 1][..i] == path[..i];
  }

  function SumSegmentPrices(segments: seq<Segment>): int {
    if segments == [] then 0 else SumSegmentPrices(segments[..|segments| - 1]) + segments[|segments| - 1].price
  }

  function SumLayoverMinutes(layovers: seq<Layover>): int {
    if layovers == [] then 0 else SumLayoverMinutes(layovers[..|layovers| - 1]) + layovers[|layovers| - 1].durationMinutes
  }

  /** Total minutes spent in the air, leg by leg. */
  function AirMinutes(path: seq<Flight>): int {
    if path == [] then 0
    else AirMinutes(path[..|path| - 1]) + MinutesTruncated(path[|path| - 1].arrivalUtc - path[|path| - 1].departureUtc)
  }

  /** Every instant of the path falls on a whole minute: the assumption under
      which `DurationIsAirPlusLayovers` holds, since each duration is truncated
      to whole minutes on its own. */
  ghost predicate OnWholeMinutes(path: seq<Flight>) {
    forall i :: 0 <= i < |path| ==> path[i].departureUtc % 60 == 0 && path[i].arrivalUtc % 60 == 0
  }

  /** The record is coherent: one segment per leg, one layover per junction,
      each layover at the airport where its inbound segment lands and the next
      one leaves, and a total price equal to the sum of the segment prices. */
  lemma {:induction false} ItineraryCoherent(path: seq<Flight>)
    requires |path| >= 1
    ensures |ItineraryOf(path).segments| == |path|
    ensures |ItineraryOf(path).layovers| == |path| - 1
    ensures forall i :: 0 <= i < |path| - 1 ==>
              ItineraryOf(path).layovers[i].airport == ItineraryOf(path).segments[i].destination
    ensures ItineraryOf(path).totalPrice == SumSegmentPrices(ItineraryOf(path).segments)
    decreases |path|
  {
    var segs := ItineraryOf(path).segments;
    if |path| == 1 {
      assert path[..0] == [] && segs[..0] == [];
      assert SumSegmentPrices(segs) == segs[0].price == path[0].price == SumPrices(path);
    } else {
      var init := path[..|path| - 1];
      ItineraryCoherent(init);
      assert segs[..|segs| - 1] == ItineraryOf(init).segments;
    }
  }

  lemma WholeMinutesBetween(a: int, b: int)
    requires a % 60 == 0 && b % 60 == 0
    ensures MinutesTruncated(b - a) == b / 60 - a / 60
  {
    var k := b / 60 - a / 60;
    assert b - a == 60 * k;
  }

  lemma {:induction false} LayoversOfLonger(path: seq<Flight>)
    requires |path| >= 2
    ensures ItineraryOf(path).layovers == ItineraryOf(path[..|path| - 1]).layovers + [LayoverAt(path, |path| - 2)]
  {
    var init := path[..|path| - 1];
    var lays, lays' := ItineraryOf(path).layovers, ItineraryOf(init).layovers;
    assert |lays| == |lays'| + 1;
    forall i | 0 <= i < |lays'| ensures lays[i] == lays'[i] {
      assert init[i] == path[i] && init[i + 1] == path[i + 1];
    }
  }

  /** With whole-minute instants, the total duration is the time in the air
      plus the layovers: the minutes telescope from first departure to last arrival. */
  lemma {:induction false} DurationIsAirPlusLayovers(path: seq<Flight>)
    requires |path| >= 1 && OnWholeMinutes(path)
    ensures ItineraryOf(path).totalDurationMinutes == AirMinutes(path) + SumLayoverMinutes(ItineraryOf(path).layovers)
    decreases |path|
  {
    var n := |path|;
    if n == 1 {
      var lays := ItineraryOf(path).layovers;
      assert lays == [] && path[..0] == [];
      assert AirMinutes(path) == MinutesTruncated(path[0].arrivalUtc - path[0].departureUtc);
    } else {
      var init := path[..n - 1];
      assert OnWholeMinutes(init) by {
        forall i | 0 <= i < |init| ensures init[i] == path[i] { }
      }
      DurationIsAirPlusLayovers(init);
      DurationStep(path);
    }
  }

  /** One more leg adds its air time and the layover before it to the duration. */
  lemma DurationStep(path: seq<Flight>)
    requires |path| >= 2 && OnWholeMinutes(path)
    requires var init := path[..|path| - 1];
             ItineraryOf(init).totalDurationMinutes == AirMinutes(init) + SumLayoverMinutes(ItineraryOf(init).layovers)
    ensures ItineraryOf(path).totalDurationMinutes == AirMinutes(path) + SumLayoverMinutes(ItineraryOf(path).layovers)
  {
    var n := |path|;
    var first, prev, last := path[0], path[n - 2], path[n - 1];
    var init := path[..n - 1];
    var lays, laysInit := ItineraryOf(path).layovers, ItineraryOf(init).layovers;
    assert ItineraryOf(path).totalDurationMinutes == last.arrivalUtc / 60 - first.departureUtc / 60 by {
      WholeMinutesBetween(first.departureUtc, last.arrivalUtc);
    }
    assert AirMinutes(path) == AirMinutes(init) + (last.arrivalUtc / 60 - last.departureUtc / 60) by {
      WholeMinutesBetween(last.departureUtc, last.arrivalUtc);
    }
    assert ItineraryOf(init).totalDurationMinutes == prev.arrivalUtc / 60 - first.departureUtc / 60 by {
      assert init[0] == first && init[n - 2] == prev;
      WholeMinutesBetween(first.departureUtc, prev.arrivalUtc);
    }
    assert SumLayoverMinutes(lays) == SumLayoverMinutes(laysInit) + (last.departureUtc / 60 - prev.arrivalUtc / 60) by {
      LayoversOfLonger(path);
      assert lays[..|lays| - 1] == laysInit;
      WholeMinutesBetween(prev.arrivalUtc, last.departureUtc);
    }
  }

  // ---------------------------------------------------------------------------
  // The depth-first search, as functions

  /** `flights_from.get(airport, [])`. */
  function Candidates(index: FlightIndex, airport: string): seq<Flight> {
    if airport in index then index[airport] else []
  }

  predicate NonEmptyPaths(paths: seq<seq<Flight>>) {
    forall i :: 0 <= i < |paths| ==> |paths[i]| >= 1
  }

  /** The paths the search records from `path`, which has `stops + 1` legs, in
      depth-first order: `path` itself once it reaches `destination`, else its
      valid extensions, none beyond `MaxStops + 1` legs. */
  function Paths(index: FlightIndex, destination: string, path: seq<Flight>, stops: nat): (ps: seq<seq<Flight>>)
    requires |path| == stops + 1 && stops <= MaxStops + 1
    ensures forall i :: 0 <= i < |ps| ==> |path| <= |ps[i]| <= MaxStops + 1
    decreases MaxStops + 1 - stops, 1, 0
  {
    if stops > MaxStops then []
    else if path[|path| - 1].destination == destination then [path]
    else PathsVia(index, destination, path, stops, Candidates(index, path[|path| - 1].destination))
  }

  /** The paths recorded through the candidates `cands` for the next leg, in order. */
  function PathsVia(index: FlightIndex, destination: string, path: seq<Flight>, stops: nat,
                    cands: seq<Flight>): (ps: seq<seq<Flight>>)
    requires |path| == stops + 1 && stops <= MaxStops
    ensures forall i :: 0 <= i < |ps| ==> |path| + 1 <= |ps[i]| <= MaxStops + 1
    decreases MaxStops + 1 - stops, 0, |cands|
  {
    if cands == [] then []
    else
      var next := cands[|cands| - 1];
      PathsVia(index, destination, path, stops, cands[..|cands| - 1])
      + (if ValidConnection(path[|path| - 1], next) then Paths(index, destination, path + [next], stops + 1) else [])
  }

  /** The paths recorded from the first legs `firsts` departing on `date`. */
  function FirstLegPaths(index: FlightIndex, destination: string, date: string, utcDate: int -> string,
                         firsts: seq<Flight>): (ps: seq<seq<Flight>>)
    ensures forall i :: 0 <= i < |ps| ==> 1 <= |ps[i]| <= MaxStops + 1
  {
    if firsts == [] then []
    else
      var fl := firsts[|firsts| - 1];
      FirstLegPaths(index, destination, date, utcDate, firsts[..|firsts| - 1])
      + (if fl.DepartureDate(utcDate) == date then Paths(index, destination, [fl], 0) else [])
  }

  /** Every path the search records, in depth-first order. */
  function AllPaths(index: FlightIndex, origin: string, destination: string, date: string,
                    utcDate: int -> string): seq<seq<Flight>>
  {
    FirstLegPaths(index, destination, date, utcDate, Candidates(index, origin))
  }

  function Outputs(paths: seq<seq<Flight>>): seq<Itinerary>
    requires NonEmptyPaths(paths)
  {
    if paths == [] then [] else Outputs(paths[..|paths| - 1]) + [ItineraryOf(paths[|paths| - 1])]
  }

  function TotalDuration(it: Itinerary): int {
    it.totalDurationMinutes
  }

  /** The search's answer: the records of all paths, stably sorted by total duration. */
  function SearchResults(index: FlightIndex, origin: string, destination: string, date: string,
                         utcDate: int -> string): seq<Itinerary>
  {
    StableSort.SortBy(Outputs(AllPaths(index, origin, destination, date, utcDate)), TotalDuration)
  }

  /** The three ways a path is handled: past the depth bound it is dropped,
      at the destination it is recorded, otherwise it is extended. */
  lemma PathsUnfold(index: FlightIndex, destination: string, path: seq<Flight>, stops: nat)
    requires |path| == stops + 1 && stops <= MaxStops + 1
    ensures stops > MaxStops ==> Outputs(Paths(index, destination, path, stops)) == []
    ensures stops <= MaxStops && path[|path| - 1].destination == destination ==>
              Outputs(Paths(index, destination, path, stops)) == [ItineraryOf(path)]
    ensures stops <= MaxStops && path[|path| - 1].destination != destination ==>
              Paths(index, destination, path, stops)
              == PathsVia(index, destination, path, stops, Candidates(index, path[|path| - 1].destination))
  {
    if stops <= MaxStops && path[|path| - 1].destination == destination {
      assert [path][..0] == [];
    }
  }

  /** An accumulated list `r0 + before` extended by `extra` is `r0 + after`
      when `after` is `before + extra`. */
  lemma AppendStep<T>(r0: seq<T>, r: seq<T>, before: seq<T>, after: seq<T>, extra: seq<T>)
    requires r == r0 + before && after == before + extra
    ensures r + extra == r0 + after
    ensures extra == [] ==> r == r0 + after
  {
    assert r + extra == r0 + (before + extra);
  }

  /** One more candidate: the records of its paths follow those of the earlier
      candidates in the accumulated list `r`. */
  lemma PathsViaStep(index: FlightIndex, destination: string, path: seq<Flight>, stops: nat,
                     cands: seq<Flight>, j: nat, r0: seq<Itinerary>, r: seq<Itinerary>)
    requires |path| == stops + 1 && stops <= MaxStops && j < |cands|
    requires r == r0 + Outputs(PathsVia(index, destination, path, stops, cands[..j]))
    ensures ValidConnection(path[|path| - 1], cands[j]) ==>
              r + Outputs(Paths(index, destination, path + [cands[j]], stops + 1))
              == r0 + Outputs(PathsVia(index, destination, path, stops, cands[..j + 1]))
    ensures !ValidConnection(path[|path| - 1], cands[j]) ==>
              r == r0 + Outputs(PathsVia(index, destination, path, stops, cands[..j + 1]))
  {
    assert cands[..j + 1][..j] == cands[..j];
    var before := PathsVia(index, destination, path, stops, cands[..j]);
    var deeper := if ValidConnection(path[|path| - 1], cands[j])
                  then Paths(index, destination, path + [cands[j]], stops + 1) else [];
    OutputsAppend(before, deeper);
    AppendStep(r0, r, Outputs(before), Outputs(PathsVia(index, destination, path, stops, cands[..j + 1])), Outputs(deeper));
  }

  /** One more first leg: the records of its paths follow those of the earlier
      first legs in the accumulated list `r`. */
  lemma FirstLegPathsStep(index: FlightIndex, destination: string, date: string, utcDate: int -> string,
                          firsts: seq<Flight>, i: nat, r: seq<Itinerary>)
    requires i < |firsts|
    requires r == Outputs(FirstLegPaths(index, destination, date, utcDate, firsts[..i]))
    ensures firsts[i].DepartureDate(utcDate) == date ==>
              r + Outputs(Paths(index, destination, [firsts[i]], 0))
              == Outputs(FirstLegPaths(index, destination, date, utcDate, firsts[..i + 1]))
    ensures firsts[i].DepartureDate(utcDate) != date ==>
              r == Outputs(FirstLegPaths(index, destination, date, utcDate, firsts[..i + 1]))
  {
    assert firsts[..i + 1][..i] == firsts[..i];
    var before := FirstLegPaths(index, destination, date, utcDate, firsts[..i]);
    var deeper := if firsts[i].DepartureDate(utcDate) == date then Paths(index, destination, [firsts[i]], 0) else [];
    OutputsAppend(before, deeper);
    AppendStep([], r, Outputs(before), Outputs(FirstLegPaths(index, destination, date, utcDate, firsts[..i + 1])),
               Outputs(deeper));
  }

  lemma {:induction false} OutputsAppend(a: seq<seq<Flight>>, b: seq<seq<Flight>>)
    requires NonEmptyPaths(a) && NonEmptyPaths(b)
    ensures NonEmptyPaths(a + b) && Outputs(a + b) == Outputs(a) + Outputs(b)
    decreases |b|
  {
    if b == [] {
      assert a + b == a;
    } else {
      var b' := b[..|b| - 1];
      assert (a + b)[..|a + b| - 1] == a + b';
      OutputsAppend(a, b');
    }
  }

  // ---------------------------------------------------------------------------
  // The depth-first search, as the source runs it

  /** The state shared by the recursive walk: the destination, the index and
      the list of records appended so far. */
  class Searcher {
    const destination: string
    const index: FlightIndex
    var results: seq<Itinerary>

    constructor (destination: string, index: FlightIndex)
      ensures this.destination == destination && this.index == index && results == []
    {
      this.destination := destination;
      this.index := index;
      results := [];
    }

    /** Appends the records of every path reachable from `path`, in depth-first order. */
    method Dfs(path: seq<Flight>, stops: nat)
      requires |path| == stops + 1 && stops <= MaxStops + 1
      modifies this
      ensures results == old(results) + Outputs(Paths(index, destination, path, stops))
      decreases MaxStops + 1 - stops
    {
      if stops > MaxStops {
        PathsUnfold(index, destination, path, stops);
        return;
      }
      var lastFlight := path[|path| - 1];
      if lastFlight.destination == destination {
        var it := BuildItineraryOutput(path);
        results := results + [it];
        PathsUnfold(index, destination, path, stops);
        return;
      }
      var candidates := Candidates(index, lastFlight.destination);
      for j := 0 to |candidates|
        invariant results == old(results) + Outputs(PathsVia(index, destination, path, stops, candidates[..j]))
      {
        var nextFlight := candidates[j];
        PathsViaStep(index, destination, path, stops, candidates, j, old(results), results);
        if ValidConnection(lastFlight, nextFlight) {
          Dfs(path + [nextFlight], stops + 1);
        }
      }
      assert candidates[..|candidates|] == candidates;
      PathsUnfold(index, destination, path, stops);
    }
  }

  /** Runs the search from every first leg departing from `origin` on
      `searchDate` (UTC), then ranks the records by total duration. */
  method SearchItineraries(origin: string, destination: string, searchDate: string, index: FlightIndex,
                           utcDate: int -> string) returns (results: seq<Itinerary>)
    ensures results == SearchResults(index, origin, destination, searchDate, utcDate)
  {
    var searcher := new Searcher(destination, index);
    var firstFlights := Candidates(index, origin);
    for i := 0 to |firstFlights|
      invariant searcher.results == Outputs(FirstLegPaths(index, destination, searchDate, utcDate, firstFlights[..i]))
    {
      var fl := firstFlights[i];
      FirstLegPathsStep(index, destination, searchDate, utcDate, firstFlights, i, searcher.results);
      if fl.DepartureDate(utcDate) == searchDate {
        searcher.Dfs([fl], 0);
      }
    }
    assert firstFlights[..|firstFlights|] == firstFlights;
    searcher.results := StableSort.SortBy(searcher.results, TotalDuration);
    results := searcher.results;
  }

  // ---------------------------------------------------------------------------
  // What the search returns

  /** Consecutive legs connect validly, each next leg taken from the index
      under the previous leg's destination. */
  ghost predicate Chained(index: FlightIndex, p: seq<Flight>) {
    forall i :: 0 <= i < |p| - 1 ==>
      p[i + 1] in Candidates(index, p[i].destination) && ValidConnection(p[i], p[i + 1])
  }

  /** The last leg lands at `destination` and no earlier leg does. */
  ghost predicate StopsAtDestination(p: seq<Flight>, destination: string) {
    && |p| >= 1
    && p[|p| - 1].destination == destination
    && forall i :: 0 <= i < |p| - 1 ==> p[i].destination != destination
  }

  /** A path the search must report: one to three legs, the first from
      `origin`'s list departing on `date`, chained, ending at `destination`. */
  ghost predicate IsResultPath(index: FlightIndex, origin: string, destination: string, date: string,
                               utcDate: int -> string, p: seq<Flight>)
  {
    && 1 <= |p| <= MaxStops + 1
    && p[0] in Candidates(index, origin)
    && p[0].DepartureDate(utcDate) == date
    && StopsAtDestination(p, destination)
    && Chained(index, p)
  }

  lemma {:induction false} PathsSound(index: FlightIndex, destination: string, path: seq<Flight>, stops: nat,
                                       p: seq<Flight>)
    requires |path| == stops + 1 && stops <= MaxStops + 1
    requires Chained(index, path)
    requires forall i :: 0 <= i < |path| - 1 ==> path[i].destination != destination
    requires p in Paths(index, destination, path, stops)
    ensures |path| <= |p| && p[..|path|] == path
    ensures Chained(index, p) && StopsAtDestination(p, destination)
    decreases MaxStops + 1 - stops, 1, 0
  {
    if path[|path| - 1].destination != destination {
      PathsViaSound(index, destination, path, stops, Candidates(index, path[|path| - 1].destination), p);
    }
  }

  lemma {:induction false} PathsViaSound(index: FlightIndex, destination: string, path: seq<Flight>, stops: nat,
                                          cands: seq<Flight>, p: seq<Flight>)
    requires |path| == stops + 1 && stops <= MaxStops
    requires Chained(index, path)
    requires forall i :: 0 <= i < |path| ==> path[i].destination != destination
    requires forall c :: c in cands ==> c in Candidates(index, path[|path| - 1].destination)
    requires p in PathsVia(index, destination, path, stops, cands)
    ensures |path| <= |p| && p[..|path|] == path
    ensures Chained(index, p) && StopsAtDestination(p, destination)
    decreases MaxStops + 1 - stops, 0, |cands|
  {
    var init, next := cands[..|cands| - 1], cands[|cands| - 1];
    if p in PathsVia(index, destination, path, stops, init) {
      assert forall c :: c in init ==> c in cands;
      PathsViaSound(index, destination, path, stops, init, p);
    } else {
      assert ValidConnection(path[|path| - 1], next);
      assert next in cands;
      var longer := path + [next];
      ChainedExtend(index, path, next);
      PathsSound(index, destination, longer, stops + 1, p);
      assert p[..|path|] == p[..|longer|][..|path|];
    }
  }

  /** A chained path followed by a valid connection from its last leg's
      candidates is chained. */
  lemma ChainedExtend(index: FlightIndex, path: seq<Flight>, next: Flight)
    requires |path| >= 1 && Chained(index, path)
    requires next in Candidates(index, path[|path| - 1].destination)
    requires ValidConnection(path[|path| - 1], next)
    ensures Chained(index, path + [next])
  {
    var longer := path + [next];
    forall i | 0 <= i < |longer| - 1
      ensures longer[i + 1] in Candidates(index, longer[i].destination) && ValidConnection(longer[i], longer[i + 1])
    {
      if i < |path| - 1 {
        assert longer[i] == path[i] && longer[i + 1] == path[i + 1];
      }
    }
  }

  lemma {:induction false} PathsViaIncludes(index: FlightIndex, destination: string, path: seq<Flight>, stops: nat,
                                             cands: seq<Flight>, k: nat, p: seq<Flight>)
    requires |path| == stops + 1 && stops <= MaxStops
    requires k < |cands| && ValidConnection(path[|path| - 1], cands[k])
    requires p in Paths(index, destination, path + [cands[k]], stops + 1)
    ensures p in PathsVia(index, destination, path, stops, cands)
    decreases |cands|
  {
    if k < |cands| - 1 {
      var init := cands[..|cands| - 1];
      assert init[k] == cands[k];
      PathsViaIncludes(index, destination, path, stops, init, k, p);
    }
  }

  lemma {:induction false} PathsComplete(index: FlightIndex, destination: string, path: seq<Flight>, stops: nat,
                                          p: seq<Flight>)
    requires |path| == stops + 1 && |path| <= |p| <= MaxStops + 1 && p[..|path|] == path
    requires Chained(index, p) && StopsAtDestination(p, destination)
    ensures p in Paths(index, destination, path, stops)
    decreases |p| - |path|
  {
    if |p| == |path| {
      assert p == p[..|path|];
    } else {
      var last := path[|path| - 1];
      assert last == p[|path| - 1];
      var next := p[|path|];
      var cands := Candidates(index, last.destination);
      assert next in cands;
      var k :| 0 <= k < |cands| && cands[k] == next;
      assert p[..|path| + 1] == path + [next];
      PathsComplete(index, destination, path + [next], stops + 1, p);
      PathsViaIncludes(index, destination, path, stops, cands, k, p);
    }
  }

  lemma {:induction false} FirstLegPathsExactly(index: FlightIndex, destination: string, date: string,
                                                 utcDate: int -> string, firsts: seq<Flight>, p: seq<Flight>)
    ensures p in FirstLegPaths(index, destination, date, utcDate, firsts) <==>
            (StopsAtDestination(p, destination) && |p| <= MaxStops + 1 && p[0] in firsts
             && p[0].DepartureDate(utcDate) == date && Chained(index, p))
    decreases |firsts|
  {
    if firsts != [] {
      var init, fl := firsts[..|firsts| - 1], firsts[|firsts| - 1];
      FirstLegPathsExactly(index, destination, date, utcDate, init, p);
      if p in FirstLegPaths(index, destination, date, utcDate, init) {
        assert p[0] in init;
      } else if p in FirstLegPaths(index, destination, date, utcDate, firsts) {
        PathsSound(index, destination, [fl], 0, p);
      }
      if StopsAtDestination(p, destination) && |p| <= MaxStops + 1 && p[0] in firsts
         && p[0].DepartureDate(utcDate) == date && Chained(index, p) && p[0] !in init {
        assert p[0] == fl;
        assert p[..1] == [fl];
        PathsComplete(index, destination, [fl], 0, p);
      }
    }
  }

  /** The search records exactly the result paths: soundness and completeness. */
  lemma AllPathsExactly(index: FlightIndex, origin: string, destination: string, date: string,
                        utcDate: int -> string)
    ensures forall p :: p in AllPaths(index, origin, destination, date, utcDate) <==>
                        IsResultPath(index, origin, destination, date, utcDate, p)
  {
    forall p ensures p in AllPaths(index, origin, destination, date, utcDate) <==>
                     IsResultPath(index, origin, destination, date, utcDate, p)
    {
      FirstLegPathsExactly(index, destination, date, utcDate, Candidates(index, origin), p);
    }
  }

  lemma {:induction false} OutputsMembers(paths: seq<seq<Flight>>, r: Itinerary)
    requires NonEmptyPaths(paths)
    ensures r in Outputs(paths) <==> exists p :: p in paths && |p| >= 1 && r == ItineraryOf(p)
    decreases |paths|
  {
    if paths != [] {
      var init, last := paths[..|paths| - 1], paths[|paths| - 1];
      assert paths == init + [last];
      assert Outputs(paths) == Outputs(init) + [ItineraryOf(last)];
      OutputsMembers(init, r);
      if r == ItineraryOf(last) {
        assert last in paths && |last| >= 1;
      } else if r in Outputs(init) {
        var p: seq<Flight> :| p in init && |p| >= 1 && r == ItineraryOf(p);
        assert p in paths;
      } else {
        forall p | p in paths && |p| >= 1 ensures r != ItineraryOf(p) {
          assert p in init || p == last;
        }
      }
    }
  }

  /** The results are ranked by total duration, ties in depth-first order, and
      they are exactly the records of the result paths. */
  lemma SearchResultsRankedAndExact(index: FlightIndex, origin: string, destination: string, date: string,
                                    utcDate: int -> string)
    ensures StableSort.SortedBy(SearchResults(index, origin, destination, date, utcDate), TotalDuration)
    ensures forall t :: StableSort.WithKey(SearchResults(index, origin, destination, date, utcDate), TotalDuration, t)
                        == StableSort.WithKey(Outputs(AllPaths(index, origin, destination, date, utcDate)), TotalDuration, t)
    ensures forall r :: r in SearchResults(index, origin, destination, date, utcDate) <==>
                        exists p :: IsResultPath(index, origin, destination, date, utcDate, p) && r == ItineraryOf(p)
  {
    StableSort.SortByIsStableSort(Outputs(AllPaths(index, origin, destination, date, utcDate)), TotalDuration);
    SearchResultsExact(index, origin, destination, date, utcDate);
  }

  /** The results are exactly the records of the result paths. */
  lemma SearchResultsExact(index: FlightIndex, origin: string, destination: string, date: string,
                           utcDate: int -> string)
    ensures forall r :: r in SearchResults(index, origin, destination, date, utcDate) <==>
                        exists p :: IsResultPath(index, origin, destination, date, utcDate, p) && r == ItineraryOf(p)
  {
    var all := AllPaths(index, origin, destination, date, utcDate);
    AllPathsExactly(index, origin, destination, date, utcDate);
    forall r ensures r in SearchResults(index, origin, destination, date, utcDate) <==>
                     exists p :: IsResultPath(index, origin, destination, date, utcDate, p) && r == ItineraryOf(p)
    {
      var results := SearchResults(index, origin, destination, date, utcDate);
      assert r in results <==> r in Outputs(all) by {
        assert r in results <==> r in multiset(results);
        assert r in Outputs(all) <==> r in multiset(Outputs(all));
      }
      OutputsMembers(all, r);
      if r in Outputs(all) {
        var p: seq<Flight> :| p in all && |p| >= 1 && r == ItineraryOf(p);
        assert IsResultPath(index, origin, destination, date, utcDate, p);
      } else {
        forall p | IsResultPath(index, origin, destination, date, utcDate, p) ensures r != ItineraryOf(p) {
          assert p in all;
        }
      }
    }
  }

  /** An origin without outbound flights yields no results. */
  lemma NoOutboundFlights(index: FlightIndex, origin: string, destination: string, date: string,
                          utcDate: int -> string)
    requires Candidates(index, origin) == []
    ensures SearchResults(index, origin, destination, date, utcDate) == []
  {
  }

  /** When no first leg departs on `date`, no path is recorded from them. */
  lemma {:induction false} FirstLegPathsOffDate(index: FlightIndex, destination: string, date: string,
                                                utcDate: int -> string, firsts: seq<Flight>)
    requires forall i :: 0 <= i < |firsts| ==> firsts[i].DepartureDate(utcDate) != date
    ensures FirstLegPaths(index, destination, date, utcDate, firsts) == []
    decreases |firsts|
  {
    if firsts != [] {
      FirstLegPathsOffDate(index, destination, date, utcDate, firsts[..|firsts| - 1]);
    }
  }

  /** A date that no departure's UTC date equals yields no results. */
  lemma SearchOffDateIsEmpty(index: FlightIndex, origin: string, destination: string, date: string,
                             utcDate: int -> string)
    requires forall f: Flight :: f.DepartureDate(utcDate) != date
    ensures SearchResults(index, origin, destination, date, utcDate) == []
  {
    FirstLegPathsOffDate(index, destination, date, utcDate, Candidates(index, origin));
  }

  /** What a caller sees in each returned record, over an index whose lists
      hold only flights from their key: one to three segments from `origin`
      to `destination`, no earlier segment ending at `destination`, each
      junction shared by consecutive segments, and every layover between the
      domestic minimum (45 minutes) and 360 minutes. The stricter 90-minute
      minimum of an international connection depends on the flights' airports,
      which a record does not carry; `SearchResultsWellFormed` states it over
      the path each record comes from. */
  ghost predicate WellFormedItinerary(r: Itinerary, origin: string, destination: string) {
    && 1 <= |r.segments| <= MaxStops + 1
    && |r.layovers| == |r.segments| - 1
    && r.segments[0].origin == origin
    && r.segments[|r.segments| - 1].destination == destination
    && (forall i :: 0 <= i < |r.segments| - 1 ==> r.segments[i].destination != destination)
    && (forall i :: 0 <= i < |r.layovers| ==>
          && r.layovers[i].airport == r.segments[i].destination == r.segments[i + 1].origin
          && MinLayoverDomestic <= r.layovers[i].durationMinutes <= MaxLayover)
  }

  lemma ResultPathWellFormed(index: FlightIndex, origin: string, destination: string, date: string,
                             utcDate: int -> string, p: seq<Flight>)
    requires IndexGrouped(index)
    requires IsResultPath(index, origin, destination, date, utcDate, p)
    ensures WellFormedItinerary(ItineraryOf(p), origin, destination)
    ensures forall i :: 0 <= i < |p| - 1 ==>
              ItineraryOf(p).layovers[i].durationMinutes >= MinLayover(p[i], p[i + 1])
  {
  }

  /** Every returned record is well formed, comes from a result path whose
      every layover meets that connection's own minimum (90 minutes when a leg
      on either side is international), and each of its segments copies a
      flight of the index. */
  lemma SearchResultsWellFormed(index: FlightIndex, origin: string, destination: string, date: string,
                                utcDate: int -> string)
    requires IndexGrouped(index)
    ensures forall r :: r in SearchResults(index, origin, destination, date, utcDate) ==>
                        WellFormedItinerary(r, origin, destination)
    ensures forall r :: r in SearchResults(index, origin, destination, date, utcDate) ==>
                        exists p :: IsResultPath(index, origin, destination, date, utcDate, p) && r == ItineraryOf(p)
                                    && forall i :: 0 <= i < |p| - 1 ==>
                                                   r.layovers[i].durationMinutes >= MinLayover(p[i], p[i + 1])
    ensures forall r, s :: r in SearchResults(index, origin, destination, date, utcDate) && s in r.segments ==>
                           exists k, f :: k in index && f in index[k] && s == SegmentOf(f)
  {
    forall r | r in SearchResults(index, origin, destination, date, utcDate)
      ensures WellFormedItinerary(r, origin, destination)
      ensures exists p :: IsResultPath(index, origin, destination, date, utcDate, p) && r == ItineraryOf(p)
                          && forall i :: 0 <= i < |p| - 1 ==>
                                         r.layovers[i].durationMinutes >= MinLayover(p[i], p[i + 1])
      ensures forall s :: s in r.segments ==> exists k, f :: k in index && f in index[k] && s == SegmentOf(f)
    {
      ResultWellFormed(index, origin, destination, date, utcDate, r);
    }
  }

  /** One returned record: the facts of `SearchResultsWellFormed` about it. */
  lemma ResultWellFormed(index: FlightIndex, origin: string, destination: string, date: string,
                         utcDate: int -> string, r: Itinerary)
    requires IndexGrouped(index)
    requires r in SearchResults(index, origin, destination, date, utcDate)
    ensures WellFormedItinerary(r, origin, destination)
    ensures exists p :: IsResultPath(index, origin, destination, date, utcDate, p) && r == ItineraryOf(p)
                        && forall i :: 0 <= i < |p| - 1 ==>
                                       r.layovers[i].durationMinutes >= MinLayover(p[i], p[i + 1])
    ensures forall s :: s in r.segments ==> exists k, f :: k in index && f in index[k] && s == SegmentOf(f)
  {
    SearchResultsExact(index, origin, destination, date, utcDate);
    var p: seq<Flight> :| IsResultPath(index, origin, destination, date, utcDate, p) && r == ItineraryOf(p);
    ResultPathWellFormed(index, origin, destination, date, utcDate, p);
    ResultPathFromIndex(index, origin, destination, date, utcDate, p);
  }

  /** Every segment of a result path's record copies a flight of the index. */
  lemma ResultPathFromIndex(index: FlightIndex, origin: string, destination: string, date: string,
                            utcDate: int -> string, p: seq<Flight>)
    requires IsResultPath(index, origin, destination, date, utcDate, p)
    ensures forall s :: s in ItineraryOf(p).segments ==> exists k, f :: k in index && f in index[k] && s == SegmentOf(f)
  {
    var segs := ItineraryOf(p).segments;
    forall s | s in segs ensures exists k, f :: k in index && f in index[k] && s == SegmentOf(f) {
      var i :| 0 <= i < |segs| && segs[i] == s;
      if i == 0 {
        assert p[0] in index[origin];
      } else {
        assert p[i] in index[p[i - 1].destination];
      }
    }
  }

}
