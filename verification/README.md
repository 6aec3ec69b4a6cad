# SkyPath flight-connection engine in Dafny

This project models the backend of SkyPath, a service that finds flight
itineraries of one to three legs between two airports on a given date.
It covers three parts:

- **Index construction** (`FlightLoader`, `flight_loader.dfy`). The dataset's
  airport records become an airport map and a display list. Flight records
  whose two airports are known become `Flight` values. These are grouped by
  origin, and each group is stably sorted by UTC departure.
- **Connection search** (`ItinerarySearch`, `search.dfy`). This holds the
  connection rule between two legs and the assembly of one itinerary record
  from a path. It also holds the depth-bounded depth-first search, which starts
  from the first legs departing on the search date, records a path as soon as
  it reaches the destination, and stably ranks the records by total duration.
- **Request decision and paging** (`SearchRoute`, `search_route.dfy`). The
  `/search` handler is modelled as a pure function. It strips and upper-cases
  the two codes. It then checks the date shape, that the codes differ, the
  origin and the destination, in that order. Finally it runs the search and
  returns one page together with the full result count. `HandleSearch`
  follows the code as written; `HandleSearchFullMatch` is the handler with
  the date check its error message describes (see Findings).

Two supporting modules:

- `Rules` (`rules.dfy`) holds the layover and stop constants.
- `StableSort` (`stable_sort.dfy`) holds the model of Python's stable
  `list.sort(key=...)`: an insertion sort, proved ordered, a permutation and
  stable.

`Wrappers` (`wrappers.dfy`) holds `Option`.

Modelling choices:

- Instants are integers: seconds since an epoch.
- Prices are integer cents, so the total price is an exact sum.
- The loader turns a local time string into an instant with `toUtc(text, zone)`,
  a parameter. The departure is read in the origin airport's zone and the
  arrival in the destination airport's zone. The conversion itself is not
  modelled.
- A UTC instant's calendar date is the parameter `utcDate`.
- The search's shared `results` list is the `results` field of the class
  `ItinerarySearch.Searcher`. Its `Dfs` method appends to that list, and the
  contract ties it to the specification function `Paths`.
- `SearchItineraries` sorts the collected list.
- Python's truncation toward zero in `int(seconds / 60)` is written out in
  `MinutesTruncated`, because Dafny's division is Euclidean.
- The page slice follows Python's slice rules for every integer bound.
  Negative bounds count from the end.

## Model

| member | source | states |
|---|---|---|
| StableSort.WithKeyAppend | backend/skypath_backend/utils/search.py:130 | the elements carrying one key value, taken from a concatenation, are those of each part in order |
| StableSort.Insert | backend/skypath_backend/utils/search.py:130 | inserting one element lengthens the list by one and adds exactly that element to the multiset |
| StableSort.InsertSorted | backend/skypath_backend/utils/search.py:130 | inserting into a list ordered by the key keeps it ordered |
| StableSort.InsertStable | backend/skypath_backend/utils/search.py:130 | the inserted element goes after every element with an equal key |
| StableSort.SortBy | backend/skypath_backend/utils/search.py:130-131 | the sort result has the input's length and is a permutation of it |
| StableSort.SortByIsStableSort | backend/skypath_backend/utils/flight_loader.py:140-141 | the sort result is ordered by the key and keeps the input order among elements with equal keys |
| FlightLoader.DepartureDateIsUtc | backend/skypath_backend/utils/flight_loader.py:40-43 | a flight's departure date is the date of its UTC departure instant: two flights leaving at the same instant share it, whatever their local times and airports |
| FlightLoader.LoadFlightsAndAirports | backend/skypath_backend/utils/flight_loader.py:60-143 | the loader returns the airport map of the records, one display entry per raw airport record in input order, and the index of the kept flights grouped by origin and sorted by departure |
| FlightLoader.LoadAirports | backend/skypath_backend/utils/flight_loader.py:83-96 | the map is the records registered in order; the list has one entry per record with name and city defaulting to "" |
| FlightLoader.LoadFlights | backend/skypath_backend/utils/flight_loader.py:98-135 | the flights are those records, in dataset order, whose origin and destination are both in the map, each converted by `FlightOf` |
| FlightLoader.GroupByOrigin | backend/skypath_backend/utils/flight_loader.py:137-139 | the keys are the flights' origins and each list holds that origin's flights in dataset order |
| FlightLoader.GroupStep | backend/skypath_backend/utils/flight_loader.py:139 | appending a flight to its origin's list, created if absent, keeps every list equal to its origin's group |
| FlightLoader.SortGroups | backend/skypath_backend/utils/flight_loader.py:140-141 | sorting every list of the grouped flights yields exactly the index |
| FlightLoader.SortedGroupsAreIndex | backend/skypath_backend/utils/flight_loader.py:140-141 | lists equal to the stably sorted groups, under exactly the origins, form the index |
| FlightLoader.AirportMapKeys | backend/skypath_backend/utils/flight_loader.py:85-90 | a code is in the airport map iff some record carries it |
| FlightLoader.AirportMapLastWins | backend/skypath_backend/utils/flight_loader.py:85-90 | for a repeated code, the map holds the metadata of the last record with that code |
| FlightLoader.KeptFlightsSound | backend/skypath_backend/utils/flight_loader.py:99-135 | every kept flight has both airports in the map and their countries; it comes from a record whose number, codes and local strings it keeps unchanged; its instants are read in the origin's and destination's zones; its price is the record's, or 0 when absent |
| FlightLoader.KeptFlightsComplete | backend/skypath_backend/utils/flight_loader.py:102-103 | every record whose two airports are known yields a kept flight |
| FlightLoader.OriginsMembers | backend/skypath_backend/utils/flight_loader.py:137-139 | a code is an origin of the flights iff some flight departs from it |
| FlightLoader.GroupCounts | backend/skypath_backend/utils/flight_loader.py:137-139 | a group holds every flight from its origin with its full multiplicity and no other flight; it is empty iff no flight has that origin |
| FlightLoader.IndexOfProperties | backend/skypath_backend/utils/flight_loader.py:137-141 | the index keys are exactly the origins; every listed flight departs from its key; each list is ordered by UTC departure, with equal departures in dataset order; the lists together hold each kept flight exactly as often as the dataset |
| ItinerarySearch.MinutesTruncated | backend/skypath_backend/utils/search.py:35 | whole minutes of a signed span of seconds, truncated toward zero |
| ItinerarySearch.ValidConnection | backend/skypath_backend/utils/search.py:17-45 | a connection is valid iff the junction airport is shared and the truncated layover lies between the minimum (45 when both legs are domestic, else 90) and 360 minutes; a valid layover lasts at least the minimum and under 361 minutes in seconds |
| ItinerarySearch.ConnectionBoundaries | backend/skypath_backend/utils/search.py:34-45 | with two domestic legs a 40-minute layover is rejected and a 46-minute one accepted; 400 minutes is always rejected; an international layover under 90 minutes is rejected |
| ItinerarySearch.BuildItineraryOutput | backend/skypath_backend/utils/search.py:48-86 | the loop builds exactly the record `ItineraryOf(path)` |
| ItinerarySearch.ItineraryCoherent | backend/skypath_backend/utils/search.py:61-85 | a path of n legs yields n segments and n-1 layovers; layover i is at the airport where segment i lands; the total price is the sum of the segment prices |
| ItinerarySearch.WholeMinutesBetween | backend/skypath_backend/utils/search.py:80 | between instants on whole minutes the truncated span is the difference of minute counts |
| ItinerarySearch.LayoversOfLonger | backend/skypath_backend/utils/search.py:71-77 | a longer path's layovers extend the shorter path's layovers by the one at the new junction |
| ItinerarySearch.DurationIsAirPlusLayovers | backend/skypath_backend/utils/search.py:71-80 | on whole-minute instants, the total duration equals the time in the air plus the sum of the layovers |
| ItinerarySearch.Paths | backend/skypath_backend/utils/search.py:112-123 | every path the walk records is at least as long as the current path and has at most three legs |
| ItinerarySearch.PathsVia | backend/skypath_backend/utils/search.py:119-123 | every path recorded through the candidates is at least one leg longer than the current path and has at most three legs |
| ItinerarySearch.FirstLegPaths | backend/skypath_backend/utils/search.py:125-128 | every path recorded from the first legs has one to three legs |
| ItinerarySearch.PathsUnfold | backend/skypath_backend/utils/search.py:112-118 | the walk records nothing past the stop limit, records the path itself once it reaches the destination, and otherwise searches the candidates |
| ItinerarySearch.PathsViaStep | backend/skypath_backend/utils/search.py:120-123 | one more candidate adds the paths through it when the connection is valid, and nothing otherwise |
| ItinerarySearch.FirstLegPathsStep | backend/skypath_backend/utils/search.py:126-128 | one more first leg adds the paths from it when it departs on the search date, and nothing otherwise |
| ItinerarySearch.OutputsAppend | backend/skypath_backend/utils/search.py:117 | the records of concatenated path lists are the concatenated records |
| ItinerarySearch.Searcher.constructor | backend/skypath_backend/utils/search.py:110 | the search starts with an empty results list |
| ItinerarySearch.Searcher.Dfs | backend/skypath_backend/utils/search.py:112-123 | the recursive walk appends to the results exactly the records of the paths the specification `Paths` records, in depth-first order |
| ItinerarySearch.SearchItineraries | backend/skypath_backend/utils/search.py:89-131 | the search returns the records of all result paths, stably sorted by total duration |
| ItinerarySearch.PathsSound | backend/skypath_backend/utils/search.py:112-123 | every path the walk records extends the current path, connects validly leg by leg through the index, and stops at its first arrival at the destination |
| ItinerarySearch.PathsViaSound | backend/skypath_backend/utils/search.py:119-123 | the same soundness for the paths recorded through a list of candidates |
| ItinerarySearch.PathsViaIncludes | backend/skypath_backend/utils/search.py:120-123 | the paths recorded after a valid candidate are among those recorded through the candidate list |
| ItinerarySearch.PathsComplete | backend/skypath_backend/utils/search.py:112-123 | every chained extension of at most three legs that first reaches the destination at its end is recorded |
| ItinerarySearch.FirstLegPathsExactly | backend/skypath_backend/utils/search.py:125-128 | a path is recorded from the first legs iff its first leg is one of them, departs on the search date, and the path is chained, stops at the destination and has at most three legs |
| ItinerarySearch.AllPathsExactly | backend/skypath_backend/utils/search.py:112-128 | the search's paths are exactly the result paths: one to three legs, first from the origin's list on the search date, chained, ending at the destination with no earlier arrival there |
| ItinerarySearch.OutputsMembers | backend/skypath_backend/utils/search.py:117 | a record is produced iff it is the record of one of the paths |
| ItinerarySearch.SearchResultsRankedAndExact | backend/skypath_backend/utils/search.py:125-131 | results are non-decreasing in total duration, keep depth-first order among equal durations, and are exactly the records of the result paths |
| ItinerarySearch.NoOutboundFlights | backend/skypath_backend/utils/search.py:125 | an origin with no outbound flights, absent from the index or with an empty list, yields no results |
| ItinerarySearch.FirstLegPathsOffDate | backend/skypath_backend/utils/search.py:125-128 | when no first leg departs on the search date, no path is recorded |
| ItinerarySearch.SearchOffDateIsEmpty | backend/skypath_backend/utils/search.py:125-131 | a search date that no departure date can equal yields no results |
| ItinerarySearch.ResultPathWellFormed | backend/skypath_backend/utils/search.py:112-128 | over a grouped index, a result path's record starts at the origin and ends at the destination, with no earlier arrival there; it has 1-3 segments, junctions shared by consecutive segments, and every layover between that connection's minimum and 360 minutes |
| ItinerarySearch.SearchResultsWellFormed | backend/skypath_backend/utils/search.py:89-131 | over a grouped index every returned record starts at the origin and ends at the destination with no earlier arrival there, has 1-3 segments with shared junctions and layovers of 45 to 360 minutes; it is the record of a result path whose every layover meets that connection's own minimum (90 minutes when either leg is international); each of its segments copies a flight of the index |
| SearchRoute.LeadingEnd | backend/skypath_backend/routes/search_routes.py:54-55 | the scan from the left skips exactly the leading whitespace |
| SearchRoute.TrailingStart | backend/skypath_backend/routes/search_routes.py:54-55 | the scan from the right drops exactly the trailing whitespace |
| SearchRoute.Strip | backend/skypath_backend/routes/search_routes.py:54-55 | the stripped code is the infix of the raw code between leading and trailing whitespace, and neither starts nor ends with whitespace |
| SearchRoute.StripUnpadded | backend/skypath_backend/routes/search_routes.py:54-55 | a code with no whitespace at its ends is unchanged by stripping |
| SearchRoute.UpperOfUpper | backend/skypath_backend/routes/search_routes.py:54-55 | a code without lower-case letters is unchanged by upper-casing |
| SearchRoute.UpperCharEqualIff | backend/skypath_backend/routes/search_routes.py:54-55 | two characters upper-case to the same one exactly when they agree up to ASCII case |
| SearchRoute.Upper | backend/skypath_backend/routes/search_routes.py:54-55 | upper-casing keeps the length, each character agrees with the input's up to ASCII case, and no lower-case ASCII letter is left |
| SearchRoute.Normalize | backend/skypath_backend/routes/search_routes.py:54-55 | the normalised code is the stripped code character by character up to ASCII case, with no lower-case ASCII letter and no whitespace at either end |
| SearchRoute.NormalizeEqualIff | backend/skypath_backend/routes/search_routes.py:54-62 | two raw codes normalise equal, and so get the "must be different" answer, exactly when their stripped forms agree position by position up to ASCII case |
| SearchRoute.UpperCharKeepsNonSpace | backend/skypath_backend/routes/search_routes.py:54-55 | upper-casing never turns a character into whitespace |
| SearchRoute.NormalizeIdempotent | backend/skypath_backend/routes/search_routes.py:54-55 | normalising a code twice gives the same as normalising it once |
| SearchRoute.MatchesDatePattern | backend/skypath_backend/routes/search_routes.py:36 | the pattern accepts exactly the strings of the shape YYYY-MM-DD (ASCII digits), alone or followed by one newline |
| SearchRoute.SliceBound | backend/skypath_backend/routes/search_routes.py:93 | a slice bound is normalised into 0..n, negative bounds counting from the end |
| SearchRoute.PySlice | backend/skypath_backend/routes/search_routes.py:93 | a slice is never longer than the list |
| SearchRoute.PageOf | backend/skypath_backend/routes/search_routes.py:90-93 | a page is never longer than the list; for a page size of at least 1 the offset is non-negative and the page is the run of the ranked list from the offset, cut at the list's end and no longer than the effective size |
| SearchRoute.HandleSearch | backend/skypath_backend/routes/search_routes.py:45-95 | every error is a 400; a page is returned iff the date matches, the normalised codes differ and both are known airports; then the count is the length of the full ranked result and the page is no longer than that count |
| SearchRoute.HandleSearchFullMatch | backend/skypath_backend/routes/search_routes.py:57-61 | with the date checked against the whole string: every answer with results has a date of exactly the shape YYYY-MM-DD, any other date is the 400 date error, and otherwise it answers as the handler does |
| SearchRoute.GuardOrder | backend/skypath_backend/routes/search_routes.py:54-81 | a bad date wins over every other error, equal codes over unknown airports, an unknown origin over an unknown destination; each airport error's detail ends with the normalised code |
| SearchRoute.AbsentStateRejectsAtOrigin | backend/skypath_backend/routes/search_routes.py:68-76 | without an airport map, a request with a good date and distinct codes fails at the origin check |
| SearchRoute.PageFrom | backend/skypath_backend/routes/search_routes.py:90-93 | page q+1 starts at rank q times the size |
| SearchRoute.EveryResultOnItsPage | backend/skypath_backend/routes/search_routes.py:90-93 | with a size of 1..100, the result at rank k is on page k/size+1 at position k%size |
| SearchRoute.FoundCountsAllAndPages | backend/skypath_backend/routes/search_routes.py:83-95 | a successful answer reports the full result length and the page cut from the full ranked result |
| SearchRoute.NormalizeUpperCode | backend/skypath_backend/routes/search_routes.py:54-55 | an upper-case code without blanks normalises to itself |
| SearchRoute.StripPaddedJfk | backend/skypath_backend/routes/search_routes.py:54 | " jfk " strips to "jfk" |
| SearchRoute.UpperJfk | backend/skypath_backend/routes/search_routes.py:55 | "jfk" upper-cases to "JFK" |
| SearchRoute.NormalizePaddedJfk | backend/skypath_backend/routes/search_routes.py:54-55 | " jfk " normalises to "JFK" |
| SearchRoute.SameAirportRejected | backend/skypath_backend/tests/test_search_routes.py:71-79 | JFK to JFK with a good date is a 400 with the same-code detail, also when one code is written " jfk " |
| SearchRoute.BadDateRejected | backend/skypath_backend/tests/test_search_routes.py:108-116 | the date "03-15-2024" is a 400 with the date detail |
| SearchRoute.TrailingNewlineDateFindsNothing | backend/skypath_backend/routes/search_routes.py:57-89 | when every UTC date is ten characters long, "2024-03-15" followed by a newline, between two known distinct airports, passes the date check and is answered with no results and a count of 0 |
| SearchRoute.TrailingNewlineDateRejected | backend/skypath_backend/routes/search_routes.py:57-61 | the full-match check answers that date with the 400 date error |
| SearchRoute.UnknownOriginRejected | backend/skypath_backend/tests/test_search_routes.py:81-90 | origin XXX, absent from the airport map, is a 400 whose detail names XXX |

## Left out

- Time-zone normalisation is not modelled. This covers `datetime.fromisoformat`,
  the `Z` suffix, offsets in the text, `ZoneInfo` and `_to_utc_naive`. It is a
  foreign library call, so `toUtc` is a parameter; the model keeps only which
  zone each instant is read in. A malformed time string, which raises in the
  source, is not modelled.
- The UTC calendar date of an instant (`strftime("%Y-%m-%d")`) is the parameter
  `utcDate`.
- Prices are integer cents. `_safe_float` (string prices) and
  `round(total_price, 2)` work on floats and are not modelled. The total price
  is the exact sum in cents.
- MinutesTruncated: computes `int(seconds / 60)` exactly. The source divides in
  floating point, which can differ only for spans far beyond any flight
  schedule.
- Instants have second precision. Sub-second parts of a time string are not
  modelled.
- Reading the JSON file, missing required fields (a `KeyError`), and a present
  but `null` name or city are not modelled. An absent name, city, airline or
  price takes its default.
- The flight's `airline` is carried but the search never uses it.
- The rest of `backend/skypath_backend/app.py` is not part of this model. That
  covers startup, the exception handler and the server, as well as
  `core/health.py`, `models/request.py` and `models/response.py`.
- The FastAPI layer is not part of this model: routing and the `Query`
  validation that answers 422 for `page_number < 1` or a `page_size` outside
  1..100 before the handler runs. `HandleSearch` is therefore defined for every
  integer page number and size.
- `list_airports` only returns the stored list. It is not modelled.
- Upper: covers ASCII letters only. Python's `str.upper` also maps other
  letters, some to several characters.
- MatchesDatePattern: `\d` is ASCII digits only. Python's `\d` also accepts
  other Unicode decimal digits. The `$` anchor's acceptance of one final
  newline is modelled (see Findings).
- All frontend code is not part of this model.

## Findings

| source | as written | input that shows it | evidently intended | confidence | as-written member | corrected member |
|---|---|---|---|---|---|---|
| backend/skypath_backend/routes/search_routes.py:57-61 | the date is checked with `re.match` against `^\d{4}-\d{2}-\d{2}$`, whose `$` also matches before a final newline, and the raw date is passed on as the search date | the date "2024-03-15" followed by a newline, with two known distinct airports: it passes the check, no departure date (always ten characters) can equal it, and the answer is a 200 with no itineraries and a total count of 0 | such a date is rejected with the 400 "date must be YYYY-MM-DD", as a full match (`re.fullmatch` or a pattern ending in `\Z`) gives | medium; not executed | SearchRoute.TrailingNewlineDateFindsNothing | SearchRoute.HandleSearchFullMatch |
