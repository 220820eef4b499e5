/**
 Hotel search (`get_hotels` in app/routes/hotel_routes.py): filter by city,
 keep hotels available on every date of the requested range, rank by
 editorial rating, keep the best ten and price each one for the caller.

 The SQL availability test counts available rows whose date lies in the
 requested range and compares the count with the number of days; the
 central lemma here shows that under the one-row-per-(hotel, date)
 invariant this is the same as "every date of the range is available".
 */
module Search {
  import opened Models

  /** `.limit(10)` */
  const ResultLimit := 10

  const LoginPromptMessage := "\U{00DC}ye fiyat\U{0131} i\U{00E7}in giri\U{015F} yap\U{0131}n"

  /** A date query parameter: absent or empty, not in YYYY-MM-DD form, or a day number. */
  datatype DateArg = NoDate | BadDate | Day(day: int)

  datatype Query = Query(city: Option<string>, guests: Option<int>, startDate: DateArg, endDate: DateArg)

  /** One search result: the hotel, its quoted total, the member price and the login prompt. */
  datatype Summary = Summary(hotel: Hotel, price: real, memberPrice: Option<real>, message: string)

  // ---------------------------------------------------------------------------
  // City filter: `location ILIKE '%city%'`.

  function LowerAscii(c: char): (l: char)
    ensures 'A' <= c <= 'Z' ==> 'a' <= l <= 'z' && l as int == c as int + 32
    ensures !('A' <= c <= 'Z') ==> l == c
  {
    if 'A' <= c <= 'Z' then (c as int + 32) as char else c
  }

  function Fold(s: string): (f: string)
    ensures |f| == |s|
    ensures forall i | 0 <= i < |s| :: f[i] == LowerAscii(s[i])
  {
    seq(|s|, i requires 0 <= i < |s| => LowerAscii(s[i]))
  }

  /** The location contains the city, ignoring the case of ASCII letters; a literal occurrence always matches. */
  predicate LocationMatches(location: string, city: string)
    ensures Occurs(city, location) ==> LocationMatches(location, city)
  {
    OccursFolded(city, location);
    Occurs(Fold(city), Fold(location))
  }

  /** Folding both sides keeps an occurrence. */
  lemma {:induction false} OccursFolded(p: string, s: string)
    ensures Occurs(p, s) ==> Occurs(Fold(p), Fold(s))
    decreases |s|
  {
    if IsPrefix(p, s) {
      assert Fold(s)[..|p|] == Fold(p) by {
        forall i | 0 <= i < |p| ensures Fold(s)[..|p|][i] == Fold(p)[i] {
          assert s[i] == p[i];
        }
      }
    } else if |s| > 0 {
      OccursFolded(p, s[1..]);
      assert Fold(s)[1..] == Fold(s[1..]);
    }
  }

  /** Folding is idempotent: a folded string has no capitals left. */
  lemma FoldIdempotent(s: string)
    ensures Fold(Fold(s)) == Fold(s)
  {
    forall i | 0 <= i < |s| ensures Fold(Fold(s))[i] == Fold(s)[i] {
      assert Fold(Fold(s))[i] == LowerAscii(LowerAscii(s[i]));
    }
  }

  /** Lower-casing the city and the location first leaves the outcome of the filter as it is. */
  lemma LocationMatchesFolded(location: string, city: string)
    ensures LocationMatches(Fold(location), Fold(city)) <==> LocationMatches(location, city)
  {
    FoldIdempotent(location);
    FoldIdempotent(city);
  }

  /**
   The city filter ignores ASCII case on both sides: changing the case of
   letters in the city or in the location does not change the outcome.
   */
  lemma LocationMatchesIgnoresCase(location: string, city: string, location': string, city': string)
    requires Fold(location) == Fold(location')
    requires Fold(city) == Fold(city')
    ensures LocationMatches(location, city) <==> LocationMatches(location', city')
  {
  }

  // ---------------------------------------------------------------------------
  // Date filter.

  /** The inclusive list of days `start`, `start + 1`, ..., `end`; empty when `end < start`. */
  function DateRange(start: int, end: int): (ds: seq<int>)
    ensures |ds| == if end < start then 0 else end - start + 1
    ensures forall i | 0 <= i < |ds| :: ds[i] == start + i
  {
    if end < start then [] else seq(end - start + 1, i => start + i)
  }

  /** The number of rows of hotel `hid` marked available on a date in `dates`. */
  function CountAvailable(rows: seq<Availability>, hid: int, dates: seq<int>): (n: nat)
    ensures n <= |rows|
  {
    if |rows| == 0 then 0
    else
      (if rows[0].hotelId == hid && rows[0].date in dates && rows[0].isAvailable then 1 else 0)
      + CountAvailable(rows[1..], hid, dates)
  }

  /**
   `Hotel.id IN (SELECT hotel_id ... GROUP BY hotel_id HAVING count = len(dates))`.
   GROUP BY only yields hotels with at least one matching row, so an empty
   date list (end before start) admits no hotel.
   */
  predicate PassesDateFilter(rows: seq<Availability>, hid: int, dates: seq<int>)
    ensures PassesDateFilter(rows, hid, dates) ==> 0 < |dates|
    ensures PassesDateFilter(rows, hid, dates) ==>
      exists r | r in rows :: r.hotelId == hid && r.date in dates && r.isAvailable
  {
    CountWitness(rows, hid, dates);
    0 < CountAvailable(rows, hid, dates) && CountAvailable(rows, hid, dates) == |dates|
  }

  /** A positive count has a row behind it. */
  lemma {:induction false} CountWitness(rows: seq<Availability>, hid: int, dates: seq<int>)
    ensures 0 < CountAvailable(rows, hid, dates) ==>
      exists r | r in rows :: r.hotelId == hid && r.date in dates && r.isAvailable
    ensures 0 < CountAvailable(rows, hid, dates) ==> 0 < |dates|
  {
    if |rows| > 0 {
      CountWitness(rows[1..], hid, dates);
      if 0 < CountAvailable(rows[1..], hid, dates) {
        var r :| r in rows[1..] && r.hotelId == hid && r.date in dates && r.isAvailable;
        assert r in rows;
      }
    }
  }

  /** The hotel has a row marking it available on day `d`. */
  predicate AvailableOn(rows: seq<Availability>, hid: int, d: int) {
    Availability(hid, d, true) in rows
  }

  predicate Distinct(ds: seq<int>) {
    forall i, j | 0 <= i < j < |ds| :: ds[i] != ds[j]
  }

  lemma {:induction false} CountSplit(rows: seq<Availability>, hid: int, d: int, rest: seq<int>)
    requires d !in rest
    ensures CountAvailable(rows, hid, [d] + rest) == CountAvailable(rows, hid, [d]) + CountAvailable(rows, hid, rest)
  {
    if |rows| > 0 {
      CountSplit(rows[1..], hid, d, rest);
    }
  }

  lemma {:induction false} CountOneDay(rows: seq<Availability>, hid: int, d: int)
    requires UniqueAvailabilityKeys(rows)
    ensures CountAvailable(rows, hid, [d]) <= 1
    ensures CountAvailable(rows, hid, [d]) == 1 <==> AvailableOn(rows, hid, d)
  {
    if |rows| > 0 {
      assert UniqueAvailabilityKeys(rows[1..]) by {
        forall i, j | 0 <= i < j < |rows[1..]|
          ensures rows[1..][i].hotelId != rows[1..][j].hotelId || rows[1..][i].date != rows[1..][j].date
        {
          assert rows[1..][i] == rows[i + 1] && rows[1..][j] == rows[j + 1];
        }
      }
      CountOneDay(rows[1..], hid, d);
      assert rows == [rows[0]] + rows[1..];
      if rows[0] == Availability(hid, d, true) {
        // no later row has the key (hid, d)
        forall k | 0 <= k < |rows[1..]| ensures rows[1..][k] != Availability(hid, d, true) {
          assert rows[1..][k] == rows[k + 1];
        }
      }
    }
  }

  lemma {:induction false} CountMatchesLengthIff(rows: seq<Availability>, hid: int, dates: seq<int>)
    requires UniqueAvailabilityKeys(rows)
    requires Distinct(dates)
    ensures CountAvailable(rows, hid, dates) <= |dates|
    ensures CountAvailable(rows, hid, dates) == |dates| <==>
      forall i | 0 <= i < |dates| :: AvailableOn(rows, hid, dates[i])
  {
    if |dates| == 0 {
      CountNoDates(rows, hid, dates);
    } else {
      var d, rest := dates[0], dates[1..];
      assert dates == [d] + rest;
      assert d !in rest by {
        forall k | 0 <= k < |rest| ensures rest[k] != d {
          assert rest[k] == dates[k + 1];
        }
      }
      assert Distinct(rest) by {
        forall i, j | 0 <= i < j < |rest| ensures rest[i] != rest[j] {
          assert rest[i] == dates[i + 1] && rest[j] == dates[j + 1];
        }
      }
      CountSplit(rows, hid, d, rest);
      CountOneDay(rows, hid, d);
      CountMatchesLengthIff(rows, hid, rest);
      if forall i | 0 <= i < |dates| :: AvailableOn(rows, hid, dates[i]) {
        forall i | 0 <= i < |rest| ensures AvailableOn(rows, hid, rest[i]) {
          assert rest[i] == dates[i + 1];
        }
      }
      if CountAvailable(rows, hid, dates) == |dates| {
        forall i | 0 <= i < |dates| ensures AvailableOn(rows, hid, dates[i]) {
          if i > 0 {
            assert dates[i] == rest[i - 1];
          }
        }
      }
    }
  }

  lemma {:induction false} CountNoDates(rows: seq<Availability>, hid: int, dates: seq<int>)
    requires |dates| == 0
    ensures CountAvailable(rows, hid, dates) == 0
  {
    if |rows| > 0 {
      CountNoDates(rows[1..], hid, dates);
    }
  }

  /**
   The count test of the date filter, under one row per (hotel, date), holds
   exactly when the range is non-empty and every day in it has an available
   row; a missing or unavailable day excludes the hotel.
   */
  lemma DateFilterMeansEveryDayAvailable(rows: seq<Availability>, hid: int, start: int, end: int)
    requires UniqueAvailabilityKeys(rows)
    ensures PassesDateFilter(rows, hid, DateRange(start, end)) <==>
      start <= end && forall d | start <= d <= end :: AvailableOn(rows, hid, d)
  {
    var ds := DateRange(start, end);
    assert Distinct(ds);
    CountMatchesLengthIff(rows, hid, ds);
    if start <= end && forall d | start <= d <= end :: AvailableOn(rows, hid, d) {
      assert AvailableOn(rows, hid, ds[0]);
      assert CountAvailable(rows, hid, ds) == |ds|;
    }
    if PassesDateFilter(rows, hid, ds) {
      forall d | start <= d <= end ensures AvailableOn(rows, hid, d) {
        assert ds[d - start] == d;
      }
    }
  }

  /** Without the invariant the count test is not enough: a duplicated row can stand in for a missing day. */
  lemma CountTestNeedsUniqueKeys()
    ensures var rows := [Availability(1, 0, true), Availability(1, 0, true)];
      PassesDateFilter(rows, 1, DateRange(0, 1)) && !AvailableOn(rows, 1, 1)
  {
    var rows := [Availability(1, 0, true), Availability(1, 0, true)];
    var ds := DateRange(0, 1);
    assert ds == [0, 1];
    assert rows[1..][1..] == [];
    assert CountAvailable(rows, 1, ds) == 2;
  }

  // ---------------------------------------------------------------------------
  // Selection.

  /** The date window the query asks for: only when both dates are given. */
  function Window(q: Query): (w: Option<seq<int>>)
    ensures w.Some? <==> q.startDate.Day? && q.endDate.Day?
    ensures w.Some? ==> w.value == DateRange(q.startDate.day, q.endDate.day)
  {
    if q.startDate.Day? && q.endDate.Day? then Some(DateRange(q.startDate.day, q.endDate.day)) else None
  }

  /**
   The WHERE clause of the search: the city filter when a city is given, the
   date filter when both dates are. A range that ends before it starts admits
   no hotel at all.
   */
  predicate Qualifies(h: Hotel, rows: seq<Availability>, q: Query)
    ensures Qualifies(h, rows, q) && q.startDate.Day? && q.endDate.Day? ==> q.startDate.day <= q.endDate.day
  {
    && (Present(q.city) ==> LocationMatches(h.location, q.city.value))
    && (Window(q).Some? ==> PassesDateFilter(rows, h.id, Window(q).value))
  }

  function Candidates(hotels: seq<Hotel>, rows: seq<Availability>, q: Query): (c: seq<Hotel>)
    ensures forall h :: h in c <==> h in hotels && Qualifies(h, rows, q)
    ensures multiset(c) <= multiset(hotels)
  {
    if |hotels| == 0 then []
    else
      var rest := Candidates(hotels[1..], rows, q);
      assert hotels == [hotels[0]] + hotels[1..];
      if Qualifies(hotels[0], rows, q) then [hotels[0]] + rest else rest
  }

  // ---------------------------------------------------------------------------
  // Ranking: `ORDER BY rating DESC LIMIT 10`. Ties are left in an order of
  // the model's choosing, as SQL leaves them unspecified.

  predicate SortedByRating(hs: seq<Hotel>) {
    forall i, j | 0 <= i < j < |hs| :: hs[i].rating >= hs[j].rating
  }

  function InsertByRating(h: Hotel, sorted: seq<Hotel>): (r: seq<Hotel>)
    requires SortedByRating(sorted)
    ensures multiset(r) == multiset(sorted) + multiset{h}
    ensures forall x | x in r :: x == h || x in sorted
    ensures SortedByRating(r)
  {
    if |sorted| == 0 then [h]
    else if h.rating >= sorted[0].rating then [h] + sorted
    else
      var rest := InsertByRating(h, sorted[1..]);
      InsertBehindHead(h, sorted, rest);
      [sorted[0]] + rest
  }

  /** Putting the head back in front of `h` inserted into the tail keeps the insertion's promises. */
  lemma InsertBehindHead(h: Hotel, sorted: seq<Hotel>, rest: seq<Hotel>)
    requires SortedByRating(sorted) && 0 < |sorted|
    requires h.rating < sorted[0].rating
    requires multiset(rest) == multiset(sorted[1..]) + multiset{h}
    requires forall x | x in rest :: x == h || x in sorted[1..]
    requires SortedByRating(rest)
    ensures multiset([sorted[0]] + rest) == multiset(sorted) + multiset{h}
    ensures forall x | x in [sorted[0]] + rest :: x == h || x in sorted
    ensures SortedByRating([sorted[0]] + rest)
  {
    assert sorted == [sorted[0]] + sorted[1..];
    forall x | x in rest ensures sorted[0].rating >= x.rating {
      if x != h {
        var j :| 0 <= j < |sorted[1..]| && sorted[1..][j] == x;
        assert sorted[j + 1] == x;
      }
    }
    ConsSorted(sorted[0], rest);
  }

  /** A hotel rated at least as high as every entry of a sorted list can go in front of it. */
  lemma ConsSorted(x: Hotel, rest: seq<Hotel>)
    requires SortedByRating(rest)
    requires forall y | y in rest :: x.rating >= y.rating
    ensures SortedByRating([x] + rest)
  {
    var r := [x] + rest;
    forall i, j | 0 <= i < j < |r| ensures r[i].rating >= r[j].rating {
      assert r[j] == rest[j - 1];
      if i > 0 {
        assert r[i] == rest[i - 1];
      }
    }
  }

  function SortByRating(hs: seq<Hotel>): (r: seq<Hotel>)
    ensures multiset(r) == multiset(hs)
    ensures SortedByRating(r)
  {
    if |hs| == 0 then []
    else
      assert hs == [hs[0]] + hs[1..];
      InsertByRating(hs[0], SortByRating(hs[1..]))
  }

  /** The first `k` entries of a sorted list are sorted, and no entry after them rates above one of them. */
  lemma PrefixOfSortedIsTop(sorted: seq<Hotel>, k: nat)
    requires SortedByRating(sorted)
    requires k <= |sorted|
    ensures SortedByRating(sorted[..k])
    ensures multiset(sorted[..k]) <= multiset(sorted)
    ensures forall h | multiset(sorted[..k])[h] < multiset(sorted)[h] ::
      forall i | 0 <= i < k :: h.rating <= sorted[..k][i].rating
  {
    var r := sorted[..k];
    forall i, j | 0 <= i < j < |r| ensures r[i].rating >= r[j].rating {
      assert r[i] == sorted[i] && r[j] == sorted[j];
    }
    assert sorted == r + sorted[k..];
    assert multiset(sorted) == multiset(r) + multiset(sorted[k..]);
    forall h | multiset(r)[h] < multiset(sorted)[h]
      ensures forall i | 0 <= i < k :: h.rating <= r[i].rating
    {
      assert h in multiset(sorted[k..]);
      SuffixBelowPrefix(sorted, k, h);
    }
  }

  /** An entry after position `k` of a sorted list rates no higher than any of the first `k`. */
  lemma SuffixBelowPrefix(sorted: seq<Hotel>, k: nat, h: Hotel)
    requires SortedByRating(sorted)
    requires k <= |sorted|
    requires h in sorted[k..]
    ensures forall i | 0 <= i < k :: h.rating <= sorted[..k][i].rating
  {
    var j :| 0 <= j < |sorted[k..]| && sorted[k..][j] == h;
    assert sorted[k + j] == h;
    forall i | 0 <= i < k ensures h.rating <= sorted[..k][i].rating {
      assert sorted[..k][i] == sorted[i];
    }
  }

  /**
   The `k` best-rated hotels: a sub-multiset of the input in rating order,
   as long as allowed, and no hotel left out rates above one kept.
   */
  function TopRated(hs: seq<Hotel>, k: nat): (r: seq<Hotel>)
    ensures |r| == if |hs| < k then |hs| else k
    ensures SortedByRating(r)
    ensures multiset(r) <= multiset(hs)
    ensures forall h | multiset(r)[h] < multiset(hs)[h] ::
      forall i | 0 <= i < |r| :: h.rating <= r[i].rating
  {
    var sorted := SortByRating(hs);
    var n := if |sorted| <= k then |sorted| else k;
    PrefixOfSortedIsTop(sorted, n);
    assert sorted[..|sorted|] == sorted;
    sorted[..n]
  }

  // ---------------------------------------------------------------------------
  // Pricing.

  /** The caller is identified when the token identity is present and truthy (user ids are never 0). */
  predicate Identified(caller: Option<int>) {
    caller.Some? && caller.value != 0
  }

  /**
   One result entry. The price is multiplied by the guest count only when it
   is given and non-zero (0 is falsy); the member price is offered only to
   identified callers for a hotel with a non-zero discount; flagged hotels
   ask anonymous callers to log in.
   */
  function Summarize(h: Hotel, guests: Option<int>, caller: Option<int>): (s: Summary)
    ensures s.hotel == h
    ensures guests.None? || guests.value == 0 ==> s.price == h.price
    ensures guests.Some? && guests.value != 0 ==> s.price == h.price * guests.value as real
    ensures s.memberPrice.Some? <==> Identified(caller) && h.discountPercent != 0
    ensures s.memberPrice.Some? ==>
      s.memberPrice.value == s.price - s.price * h.discountPercent as real / 100.0
    ensures s.message != "" <==> h.isFlagged && !Identified(caller)
  {
    var total := if guests.Some? && guests.value != 0 then h.price * guests.value as real else h.price;
    var member :=
      if Identified(caller) && h.discountPercent != 0
      then Some(total * (100 - h.discountPercent) as real / 100.0)
      else None;
    var message := if h.isFlagged && !Identified(caller) then LoginPromptMessage else "";
    Summary(h, total, member, message)
  }

  /** A discount between 0 and 100 never raises the price. */
  lemma MemberPriceNeverAboveTotal(h: Hotel, guests: Option<int>, caller: Option<int>)
    requires 0 <= h.discountPercent <= 100
    requires h.price >= 0.0
    requires guests.Some? ==> guests.value >= 0
    ensures var s := Summarize(h, guests, caller);
      s.memberPrice.Some? ==> 0.0 <= s.memberPrice.value <= s.price
  {
    var s := Summarize(h, guests, caller);
    assert s.price >= 0.0;
    if s.memberPrice.Some? {
      assert s.price * h.discountPercent as real / 100.0 <= s.price;
      assert s.price * h.discountPercent as real / 100.0 >= 0.0;
    }
  }

  // ---------------------------------------------------------------------------
  // The handler.

  lemma TopOfCandidates(hotels: seq<Hotel>, rows: seq<Availability>, q: Query)
    ensures var top := TopRated(Candidates(hotels, rows, q), ResultLimit);
      && (forall i | 0 <= i < |top| :: top[i] in hotels && Qualifies(top[i], rows, q))
      && (forall h | h in hotels && Qualifies(h, rows, q) && h !in top ::
            forall i | 0 <= i < |top| :: h.rating <= top[i].rating)
  {
    var candidates := Candidates(hotels, rows, q);
    var top := TopRated(candidates, ResultLimit);
    SubMultisetMembers(top, candidates);
    LeftOutBelowKept(candidates, top);
  }

  /**
   When every hotel the top list holds fewer times than the candidates rates
   no higher than the kept ones, so does every candidate missing from it.
   */
  lemma LeftOutBelowKept(candidates: seq<Hotel>, top: seq<Hotel>)
    requires forall h | multiset(top)[h] < multiset(candidates)[h] ::
      forall i | 0 <= i < |top| :: h.rating <= top[i].rating
    ensures forall h | h in candidates && h !in top ::
      forall i | 0 <= i < |top| :: h.rating <= top[i].rating
  {
    forall h | h in candidates && h !in top
      ensures forall i | 0 <= i < |top| :: h.rating <= top[i].rating
    {
      assert multiset(top)[h] < multiset(candidates)[h];
    }
  }

  /** Every entry of a sub-multiset's list is an entry of the larger list. */
  lemma SubMultisetMembers(small: seq<Hotel>, large: seq<Hotel>)
    requires multiset(small) <= multiset(large)
    ensures forall i | 0 <= i < |small| :: small[i] in large
  {
    forall i | 0 <= i < |small| ensures small[i] in large {
      assert small[i] in multiset(small);
    }
  }

  /**
   The hotels the search returns, in order: qualifying hotels of the store,
   best rated first, as many as qualify up to ten, and no qualifying hotel
   left out rates above one returned.
   */
  function Select(s: Store, q: Query): (sel: seq<Hotel>)
    ensures |sel| <= ResultLimit
    ensures multiset(sel) <= multiset(Candidates(s.hotels, s.availability, q))
    ensures |sel| == (if |Candidates(s.hotels, s.availability, q)| < ResultLimit
                      then |Candidates(s.hotels, s.availability, q)| else ResultLimit)
    ensures forall i | 0 <= i < |sel| :: sel[i] in s.hotels && Qualifies(sel[i], s.availability, q)
    ensures SortedByRating(sel)
    ensures forall h | h in s.hotels && Qualifies(h, s.availability, q) && h !in sel ::
      forall i | 0 <= i < |sel| :: h.rating <= sel[i].rating
  {
    var top := TopRated(Candidates(s.hotels, s.availability, q), ResultLimit);
    TopOfCandidates(s.hotels, s.availability, q);
    top
  }

  function SearchHotels(s: Store, q: Query, caller: Option<int>): (r: Response<seq<Summary>>)
    ensures q.startDate.BadDate? || q.endDate.BadDate? ==> r == Response(InternalErrorStatus, Error(InternalError))
    ensures !q.startDate.BadDate? && !q.endDate.BadDate? ==>
      r.status == 200 && r.body.Ok? &&
      var out := r.body.value;
      && |out| == |Select(s, q)|
      && forall i | 0 <= i < |out| :: out[i] == Summarize(Select(s, q)[i], q.guests, caller)
  {
    if q.startDate.BadDate? || q.endDate.BadDate? then
      // strptime raises ValueError, which the handler does not catch
      Response(InternalErrorStatus, Error(InternalError))
    else
      var sel := Select(s, q);
      Response(200, Ok(seq(|sel|, i requires 0 <= i < |sel| => Summarize(sel[i], q.guests, caller))))
  }

  /** The worked example of a 15% member discount on a total of 1000. */
  lemma MemberPriceExample(h: Hotel)
    requires h.price == 1000.0 && h.discountPercent == 15
    ensures Summarize(h, None, Some(7)).memberPrice == Some(850.0)
    ensures Summarize(h, None, None).memberPrice == None
  {
  }
}
