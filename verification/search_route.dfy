/** The `/search` request handler (backend/skypath_backend/routes/search_routes.py)
    as a pure decision function: it normalises the two airport codes, checks
    the date shape, the codes and the airports in a fixed order, runs the
    search and returns one page of the ranked results with the full count. */
module SearchRoute {
  import opened Wrappers
  import opened FlightLoader
  import opened ItinerarySearch

  /** The application state the handler reads. `None` stands for an attribute
      that is missing or holds `None`. */
  datatype AppState = AppState(airportMap: Option<AirportMap>, flightsFrom: Option<FlightIndex>)

  /** The handler's answer: a 400 error with its detail, or one page of results
      together with the number of results before paging. */
  datatype Response =
    | Error(status: int, detail: string)
    | Found(itineraries: seq<Itinerary>, totalCount: nat)

  const BadRequest: int := 400
  const DateDetail: string := "date must be YYYY-MM-DD"
  const SameCodeDetail: string := "origin and destination must be different"
  const OriginPrefix: string := "Invalid origin airport code: "
  const DestinationPrefix: string := "Invalid destination airport code: "
  /** The largest page the handler serves. */
  const MaxPageSize: int := 100

  // ---------------------------------------------------------------------
  // Normalising the airport codes: strip, then upper-case.
  // ---------------------------------------------------------------------

  /** The characters Python's `str.isspace` accepts, which `str.strip()` removes. */
  predicate IsSpace(c: char) {
    || c == ' '
    || '\t' <= c <= '\r'
    || '\U{1c}' <= c <= '\U{1f}'
    || c == '\U{85}' || c == '\U{a0}' || c == '\U{1680}'
    || '\U{2000}' <= c <= '\U{200a}'
    || c == '\U{2028}' || c == '\U{2029}' || c == '\U{202f}' || c == '\U{205f}' || c == '\U{3000}'
  }

  /** The index of the first non-whitespace character of `s` at or after
      `i`, or `|s|` when there is none. */
  function LeadingEnd(s: string, i: nat): (r: nat)
    requires i <= |s|
    ensures i <= r <= |s|
    ensures forall k :: i <= k < r ==> IsSpace(s[k])
    ensures r < |s| ==> !IsSpace(s[r])
    decreases |s| - i
  {
    if i < |s| && IsSpace(s[i]) then LeadingEnd(s, i + 1) else i
  }

  /** The end of `s[lo..j]` once its trailing whitespace is dropped. */
  function TrailingStart(s: string, lo: nat, j: nat): (r: nat)
    requires lo <= j <= |s|
    ensures lo <= r <= j
    ensures forall k :: r <= k < j ==> IsSpace(s[k])
    ensures r > lo ==> !IsSpace(s[r - 1])
    decreases j
  {
    if j > lo && IsSpace(s[j - 1]) then TrailingStart(s, lo, j - 1) else j
  }

  /** Python's `str.strip()`: leading whitespace is skipped first, then
      trailing whitespace of what is left. The result is the infix of `s` left
      after removing whitespace at both ends, and it neither starts nor ends
      with whitespace. */
  function Strip(s: string): (r: string)
    ensures exists i, j :: 0 <= i <= j <= |s| && r == s[i..j]
                           && (forall k :: 0 <= k < i ==> IsSpace(s[k]))
                           && (forall k :: j <= k < |s| ==> IsSpace(s[k]))
    ensures r != [] ==> !IsSpace(r[0]) && !IsSpace(r[|r| - 1])
  {
    var i := LeadingEnd(s, 0);
    var j := TrailingStart(s, i, |s|);
    assert s[i..j] != [] ==> s[i..j][0] == s[i] && s[i..j][|s[i..j]| - 1] == s[j - 1];
    s[i..j]
  }

  /** A string with no whitespace at either end is its own strip. */
  lemma StripUnpadded(s: string)
    requires s != [] ==> !IsSpace(s[0]) && !IsSpace(s[|s| - 1])
    ensures Strip(s) == s
  {
    assert LeadingEnd(s, 0) == 0;
    assert TrailingStart(s, 0, |s|) == |s|;
    assert s[0..|s|] == s;
  }

  /** A string with no ASCII lower-case letter is its own upper-case. */
  lemma UpperOfUpper(s: string)
    requires forall k :: 0 <= k < |s| ==> !IsLowerAscii(s[k])
    ensures Upper(s) == s
  {
  }

  predicate IsLowerAscii(c: char) {
    'a' <= c <= 'z'
  }

  function UpperChar(c: char): char {
    if IsLowerAscii(c) then (c as int - 32) as char else c
  }

  /** Two characters that are equal or where one is the ASCII lower-case
      letter of the other. */
  predicate SameUpToAsciiCase(c: char, d: char) {
    || c == d
    || (IsLowerAscii(c) && d == UpperChar(c))
    || (IsLowerAscii(d) && c == UpperChar(d))
  }

  /** Two characters upper-case to the same one exactly when they agree up to
      ASCII case. */
  lemma UpperCharEqualIff(c: char, d: char)
    ensures UpperChar(c) == UpperChar(d) <==> SameUpToAsciiCase(c, d)
  {
  }

  /** `str.upper()` on ASCII letters; other characters are kept. Each
      character of the result agrees with the input's up to ASCII case and is
      not lower-case, which fixes the result uniquely. */
  function Upper(s: string): (r: string)
    ensures |r| == |s|
    ensures forall k :: 0 <= k < |r| ==> !IsLowerAscii(r[k])
    ensures forall k :: 0 <= k < |s| ==> SameUpToAsciiCase(s[k], r[k])
  {
    seq(|s|, k requires 0 <= k < |s| => UpperChar(s[k]))
  }

  /** The code the handler works with: the stripped code, character by
      character up to ASCII case, with no ASCII lower-case letter anywhere and
      no whitespace at either end. */
  function Normalize(code: string): (r: string)
    ensures |r| <= |code|
    ensures |r| == |Strip(code)|
    ensures forall k :: 0 <= k < |r| ==> SameUpToAsciiCase(Strip(code)[k], r[k])
    ensures forall k :: 0 <= k < |r| ==> !IsLowerAscii(r[k])
    ensures r != [] ==> !IsSpace(r[0]) && !IsSpace(r[|r| - 1])
  {
    var s := Strip(code);
    if s != [] then
      UpperCharKeepsNonSpace(s[0]);
      UpperCharKeepsNonSpace(s[|s| - 1]);
      Upper(s)
    else
      Upper(s)
  }

  lemma UpperCharKeepsNonSpace(c: char)
    requires !IsSpace(c)
    ensures !IsSpace(UpperChar(c))
  {
  }

  /** Two raw codes normalise to the same code exactly when their stripped
      forms have the same length and agree at every position up to ASCII
      case: this is when the handler answers "must be different". */
  lemma NormalizeEqualIff(a: string, b: string)
    ensures Normalize(a) == Normalize(b) <==>
            |Strip(a)| == |Strip(b)|
            && forall k :: 0 <= k < |Strip(a)| ==> SameUpToAsciiCase(Strip(a)[k], Strip(b)[k])
  {
    var sa, sb := Strip(a), Strip(b);
    if Normalize(a) == Normalize(b) {
      forall k | 0 <= k < |sa|
        ensures SameUpToAsciiCase(sa[k], sb[k])
      {
        assert Normalize(a)[k] == UpperChar(sa[k]);
        assert Normalize(b)[k] == UpperChar(sb[k]);
        UpperCharEqualIff(sa[k], sb[k]);
      }
    }
    if |sa| == |sb| && forall k :: 0 <= k < |sa| ==> SameUpToAsciiCase(sa[k], sb[k]) {
      forall k | 0 <= k < |sa|
        ensures Normalize(a)[k] == Normalize(b)[k]
      {
        UpperCharEqualIff(sa[k], sb[k]);
      }
    }
  }

  /** Normalising twice changes nothing more: stripped codes have no
      whitespace at their ends and upper-casing keeps that. */
  lemma NormalizeIdempotent(code: string)
    ensures Normalize(Normalize(code)) == Normalize(code)
  {
    var n := Normalize(code);
    assert Strip(n) == n by {
      StripUnpadded(n);
    }
    assert Upper(n) == n by {
      UpperOfUpper(n);
    }
  }

  // ---------------------------------------------------------------------
  // The date pattern `^\d{4}-\d{2}-\d{2}$`.
  // ---------------------------------------------------------------------

  predicate IsDigit(c: char) {
    '0' <= c <= '9'
  }

  /** Exactly ten characters: four digits, a dash, two digits, a dash, two digits. */
  predicate IsDateShape(s: string) {
    && |s| == 10
    && IsDigit(s[0]) && IsDigit(s[1]) && IsDigit(s[2]) && IsDigit(s[3])
    && s[4] == '-'
    && IsDigit(s[5]) && IsDigit(s[6])
    && s[7] == '-'
    && IsDigit(s[8]) && IsDigit(s[9])
  }

  /** `re.match` of the pattern: `$` also matches before one final newline,
      so the accepted strings are the date shapes, each alone or followed by
      a newline. */
  function MatchesDatePattern(s: string): (ok: bool)
    ensures ok <==> exists d :: IsDateShape(d) && (s == d || s == d + "\n")
  {
    assert |s| == 11 ==> s == s[..10] + [s[10]];
    IsDateShape(s) || (|s| == 11 && s[10] == '\n' && IsDateShape(s[..10]))
  }

  // ---------------------------------------------------------------------
  // Paging.
  // ---------------------------------------------------------------------

  function Min(a: int, b: int): int { if a <= b then a else b }
  function Max(a: int, b: int): int { if a >= b then a else b }

  /** A slice bound as Python normalises it for a list of length `n`:
      negative bounds count from the end, and the result lies in 0..n. */
  function SliceBound(x: int, n: nat): (b: nat)
    ensures b <= n
    ensures 0 <= x <= n ==> b == x
    ensures x > n ==> b == n
    ensures x < 0 ==> b == Max(x + n, 0)
  {
    if x < 0 then (if x + n < 0 then 0 else x + n) else if x > n then n else x
  }

  /** Python's `a[start:stop]`. */
  function PySlice<T>(a: seq<T>, start: int, stop: int): (r: seq<T>)
    ensures |r| <= |a|
  {
    var i, j := SliceBound(start, |a|), SliceBound(stop, |a|);
    if i < j then a[i..j] else []
  }

  /** The page the handler cuts: the size capped at 100, the number raised to
      at least 1, and the slice from `(number - 1) * size` of length `size`.
      For a page size of at least 1 the page is the contiguous run of `all`
      starting at that offset, cut at the list's end: it keeps the order and
      has at most `size` entries. */
  function PageOf<T>(all: seq<T>, pageNumber: int, pageSize: int): (r: seq<T>)
    ensures |r| <= |all|
    ensures pageSize >= 1 ==>
              var size := Min(pageSize, MaxPageSize);
              var offset := (Max(pageNumber, 1) - 1) * size;
              && offset >= 0
              && r == all[Min(offset, |all|)..Min(offset + size, |all|)]
              && |r| <= size
  {
    var size := Min(pageSize, MaxPageSize);
    var before := Max(pageNumber, 1) - 1;
    var offset := before * size;
    assert size >= 1 ==> offset >= 0;
    PySlice(all, offset, offset + size)
  }

  // ---------------------------------------------------------------------
  // The handler.
  // ---------------------------------------------------------------------

  /** The `/search` handler. `utcDate` formats a UTC instant as its calendar date. */
  function HandleSearch(state: AppState, origin: string, destination: string, date: string,
                        pageNumber: int, pageSize: int, utcDate: int -> string): (r: Response)
    ensures r.Error? ==> r.status == BadRequest
    ensures r.Found? <==>
              && MatchesDatePattern(date)
              && Normalize(origin) != Normalize(destination)
              && Normalize(origin) in state.airportMap.GetOr(map[])
              && Normalize(destination) in state.airportMap.GetOr(map[])
    ensures r.Found? ==>
              r.totalCount == |SearchResults(state.flightsFrom.GetOr(map[]), Normalize(origin),
                                             Normalize(destination), date, utcDate)|
    ensures r.Found? ==> |r.itineraries| <= r.totalCount
  {
    var o, d := Normalize(origin), Normalize(destination);
    if !MatchesDatePattern(date) then Error(BadRequest, DateDetail)
    else if o == d then Error(BadRequest, SameCodeDetail)
    else
      var airportMap := state.airportMap.GetOr(map[]);
      var flightsFrom := state.flightsFrom.GetOr(map[]);
      if o !in airportMap then Error(BadRequest, OriginPrefix + o)
      else if d !in airportMap then Error(BadRequest, DestinationPrefix + d)
      else
        var all := SearchResults(flightsFrom, o, d, date, utcDate);
        Found(PageOf(all, pageNumber, pageSize), |all|)
  }

  /** The handler with the date check its error message describes: only a
      string of exactly the shape YYYY-MM-DD passes, as `re.fullmatch` (or a
      pattern ending in `\Z`) would give. Every request it answers with
      results has such a date, a date with a trailing newline is rejected, and
      on every other request it answers as `HandleSearch` does. */
  function HandleSearchFullMatch(state: AppState, origin: string, destination: string, date: string,
                                 pageNumber: int, pageSize: int, utcDate: int -> string): (r: Response)
    ensures r.Found? ==> IsDateShape(date)
    ensures !IsDateShape(date) ==> r == Error(BadRequest, DateDetail)
    ensures IsDateShape(date) ==> r == HandleSearch(state, origin, destination, date, pageNumber, pageSize, utcDate)
  {
    if !IsDateShape(date) then Error(BadRequest, DateDetail)
    else HandleSearch(state, origin, destination, date, pageNumber, pageSize, utcDate)
  }

  /** The checks run in order and the first failure is the answer: a bad date
      wins over everything, equal codes over unknown airports, an unknown
      origin over an unknown destination. The detail of an airport error ends
      with the normalised code. */
  lemma GuardOrder(state: AppState, origin: string, destination: string, date: string,
                   pageNumber: int, pageSize: int, utcDate: int -> string)
    ensures var r := HandleSearch(state, origin, destination, date, pageNumber, pageSize, utcDate);
            var o, d, airportMap := Normalize(origin), Normalize(destination), state.airportMap.GetOr(map[]);
            && (!MatchesDatePattern(date) ==> r == Error(400, "date must be YYYY-MM-DD"))
            && (MatchesDatePattern(date) && o == d ==>
                  r == Error(400, "origin and destination must be different"))
            && (MatchesDatePattern(date) && o != d && o !in airportMap ==>
                  r.Error? && r.detail == OriginPrefix + o && r.detail[|OriginPrefix|..] == o)
            && (MatchesDatePattern(date) && o != d && o in airportMap && d !in airportMap ==>
                  r.Error? && r.detail == DestinationPrefix + d && r.detail[|DestinationPrefix|..] == d)
  {
  }

  /** Without an airport map every well-formed request with distinct codes is
      rejected at the origin check. */
  lemma AbsentStateRejectsAtOrigin(flightsFrom: Option<FlightIndex>, origin: string, destination: string,
                                   date: string, pageNumber: int, pageSize: int, utcDate: int -> string)
    requires MatchesDatePattern(date) && Normalize(origin) != Normalize(destination)
    ensures HandleSearch(AppState(None, flightsFrom), origin, destination, date, pageNumber, pageSize, utcDate)
            == Error(400, OriginPrefix + Normalize(origin))
  {
  }

  /** Page `q + 1` of size `size` starts at `q * size`. */
  lemma PageFrom<T>(all: seq<T>, q: nat, size: int)
    requires 1 <= size <= 100 && q * size <= |all|
    ensures PageOf(all, q + 1, size) == all[q * size..Min(q * size + size, |all|)]
  {
    assert Min(size, MaxPageSize) == size;
    assert Max(q + 1, 1) - 1 == q;
  }

  /** Paging with a size between 1 and 100 loses nothing: the result at rank
      `k` is on page `k / size + 1` at position `k % size`. */
  lemma EveryResultOnItsPage<T>(all: seq<T>, pageSize: int, k: int)
    requires 1 <= pageSize <= 100 && 0 <= k < |all|
    ensures var page := PageOf(all, k / pageSize + 1, pageSize);
            k % pageSize < |page| && page[k % pageSize] == all[k]
  {
    var q, m := k / pageSize, k % pageSize;
    assert q * pageSize + m == k by {}
    assert 0 <= m < pageSize by {}
    assert q >= 0 by {}
    var offset := q * pageSize;
    assert offset + m == k;
    PageFrom(all, q, pageSize);
    var page := all[offset..Min(offset + pageSize, |all|)];
    assert page[m] == all[k];
  }

  /** The handler's answer counts every result but returns only the page. */
  lemma FoundCountsAllAndPages(state: AppState, origin: string, destination: string, date: string,
                               pageNumber: int, pageSize: int, utcDate: int -> string)
    requires HandleSearch(state, origin, destination, date, pageNumber, pageSize, utcDate).Found?
    ensures var r := HandleSearch(state, origin, destination, date, pageNumber, pageSize, utcDate);
            var all := SearchResults(state.flightsFrom.GetOr(map[]), Normalize(origin), Normalize(destination),
                                     date, utcDate);
            r.totalCount == |all| && r.itineraries == PageOf(all, pageNumber, pageSize)
  {
  }

  // ---------------------------------------------------------------------
  // Concrete requests.
  // ---------------------------------------------------------------------

  /** An upper-case code without blanks is its own normal form. */
  lemma NormalizeUpperCode(code: string)
    requires forall k :: 0 <= k < |code| ==> 'A' <= code[k] <= 'Z'
    ensures Normalize(code) == code
  {
    assert Strip(code) == code by {
      StripUnpadded(code);
    }
    assert Upper(code) == code by {
      UpperOfUpper(code);
    }
  }

  lemma StripPaddedJfk()
    ensures Strip(" jfk ") == "jfk"
  {
    var s := " jfk ";
    assert LeadingEnd(s, 0) == 1 by {
      assert IsSpace(s[0]) && !IsSpace(s[1]);
      assert LeadingEnd(s, 1) == 1;
    }
    assert TrailingStart(s, 1, 5) == 4 by {
      assert IsSpace(s[4]) && !IsSpace(s[3]);
      assert TrailingStart(s, 1, 4) == 4;
    }
    assert s[1..4] == "jfk";
  }

  lemma UpperJfk()
    ensures Upper("jfk") == "JFK"
  {
    assert UpperChar('j') == 'J' && UpperChar('f') == 'F' && UpperChar('k') == 'K';
  }

  lemma NormalizePaddedJfk()
    ensures Normalize(" jfk ") == "JFK"
  {
    StripPaddedJfk();
    UpperJfk();
  }

  /** The same airport twice, in any letter case and with surrounding blanks,
      is rejected when the date is well formed. */
  lemma SameAirportRejected(state: AppState, pageNumber: int, pageSize: int, utcDate: int -> string)
    ensures HandleSearch(state, "JFK", "JFK", "2024-03-15", pageNumber, pageSize, utcDate)
            == Error(400, "origin and destination must be different")
    ensures HandleSearch(state, " jfk ", "JFK", "2024-03-15", pageNumber, pageSize, utcDate)
            == Error(400, "origin and destination must be different")
  {
    assert IsDateShape("2024-03-15");
    NormalizePaddedJfk();
    NormalizeUpperCode("JFK");
  }

  /** A date written day-first is rejected before anything else. */
  lemma BadDateRejected(state: AppState, pageNumber: int, pageSize: int, utcDate: int -> string)
    ensures HandleSearch(state, "JFK", "LAX", "03-15-2024", pageNumber, pageSize, utcDate)
            == Error(400, "date must be YYYY-MM-DD")
  {
    assert !IsDateShape("03-15-2024");
  }

  /** A date followed by a newline passes the handler's pattern, yet no
      departure's date, always ten characters long, can equal it: for two
      known, distinct airports the handler answers with results, and there
      are none. */
  lemma TrailingNewlineDateFindsNothing(state: AppState, origin: string, destination: string,
                                        pageNumber: int, pageSize: int, utcDate: int -> string)
    requires forall t :: |utcDate(t)| == 10
    requires Normalize(origin) != Normalize(destination)
    requires Normalize(origin) in state.airportMap.GetOr(map[])
    requires Normalize(destination) in state.airportMap.GetOr(map[])
    ensures HandleSearch(state, origin, destination, "2024-03-15\n", pageNumber, pageSize, utcDate) == Found([], 0)
  {
    var date := "2024-03-15\n";
    assert MatchesDatePattern(date) by {
      assert IsDateShape("2024-03-15") && date == "2024-03-15" + "\n";
    }
    assert forall f: Flight :: f.DepartureDate(utcDate) != date by {
      forall f: Flight ensures f.DepartureDate(utcDate) != date {
        assert |f.DepartureDate(utcDate)| == 10;
      }
    }
    SearchOffDateIsEmpty(state.flightsFrom.GetOr(map[]), Normalize(origin), Normalize(destination), date, utcDate);
  }

  /** The full-match check rejects that same request as a malformed date. */
  lemma TrailingNewlineDateRejected(state: AppState, origin: string, destination: string,
                                    pageNumber: int, pageSize: int, utcDate: int -> string)
    ensures HandleSearchFullMatch(state, origin, destination, "2024-03-15\n", pageNumber, pageSize, utcDate)
            == Error(400, "date must be YYYY-MM-DD")
  {
  }

  /** An unknown origin is named in the error. */
  lemma UnknownOriginRejected(state: AppState, pageNumber: int, pageSize: int, utcDate: int -> string)
    requires "XXX" !in state.airportMap.GetOr(map[])
    ensures HandleSearch(state, "XXX", "LAX", "2024-03-15", pageNumber, pageSize, utcDate)
            == Error(400, "Invalid origin airport code: XXX")
  {
    assert IsDateShape("2024-03-15");
    NormalizeUpperCode("XXX");
    NormalizeUpperCode("LAX");
  }
}
