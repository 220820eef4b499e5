/**
 The two read endpoints that aggregate ratings, from app/routes/hotel_routes.py:
 the hotel detail (`get_hotel_by_id`), whose single average divides the score
 sum over rated comments by five times the number of ALL comments, and the
 comment list (`get_comments_by_hotel`), which averages each dimension over
 the rated comments only. Scores are reals; `round` is not modelled, so the
 averages are the quantities before rounding.
 */
module Ratings {
  import opened Models

  /** The body of the detail endpoint (the hotel's own columns are carried as the record). */
  datatype Detail = Detail(hotel: Hotel, ratingAverage: Option<real>, commentCount: nat, amenities: seq<string>)

  /** One entry of the comment list: author's full name, text, timestamp and the five scores. */
  datatype CommentView = CommentView(user: string, text: string, createdAt: int, ratings: Rating)

  /** The body of the comment endpoint; `averages` is `None` for the empty `{}` object. */
  datatype CommentsPage = CommentsPage(averages: Option<Rating>, comments: seq<CommentView>)

  /** `Comment.query.filter_by(hotel_id=hid).all()`, in store order. */
  function CommentsOf(comments: seq<Comment>, hid: int): (cs: seq<Comment>)
    ensures |cs| <= |comments|
    ensures forall c :: c in cs <==> c in comments && c.hotelId == hid
    ensures forall c :: multiset(cs)[c] == if c.hotelId == hid then multiset(comments)[c] else 0
  {
    if |comments| == 0 then []
    else
      var rest := CommentsOf(comments[1..], hid);
      assert comments == [comments[0]] + comments[1..];
      if comments[0].hotelId == hid then [comments[0]] + rest else rest
  }

  /** The comments that have a rating, in order. */
  function Rated(cs: seq<Comment>): (rs: seq<Comment>)
    ensures |rs| <= |cs|
    ensures forall c :: c in rs <==> c in cs && c.rating.Some?
    ensures forall c :: multiset(rs)[c] == if c.rating.Some? then multiset(cs)[c] else 0
  {
    if |cs| == 0 then []
    else
      var rest := Rated(cs[1..]);
      assert cs == [cs[0]] + cs[1..];
      if cs[0].rating.Some? then [cs[0]] + rest else rest
  }

  function ScoreSum(r: Rating): real {
    r.service + r.cleanliness + r.facilities + r.location + r.ecoFriendliness
  }

  function AddScores(a: Rating, b: Rating): Rating {
    Rating(a.cleanliness + b.cleanliness, a.service + b.service, a.facilities + b.facilities,
           a.location + b.location, a.ecoFriendliness + b.ecoFriendliness)
  }

  const ZeroScores := Rating(0.0, 0.0, 0.0, 0.0, 0.0)

  /** What a comment adds to the sums: its rating, or nothing (`if c.rating`). */
  function Contribution(c: Comment): Rating {
    if c.rating.Some? then c.rating.value else ZeroScores
  }

  /** The sum of all five scores over the rated comments (the detail endpoint's numerator). */
  function RatedScoreTotal(cs: seq<Comment>): (t: real)
    ensures (forall c | c in cs :: c.rating.None?) ==> t == 0.0
  {
    if |cs| == 0 then 0.0
    else ScoreSum(Contribution(cs[0])) + RatedScoreTotal(cs[1..])
  }

  /** Each dimension summed over the rated comments (the comment endpoint's `totals`). */
  function DimensionTotals(cs: seq<Comment>): (t: Rating)
    ensures (forall c | c in cs :: c.rating.None?) ==> t == ZeroScores
  {
    if |cs| == 0 then ZeroScores
    else AddScores(Contribution(cs[0]), DimensionTotals(cs[1..]))
  }

  /** Unrated comments contribute nothing: the totals over all comments are the totals over the rated ones. */
  lemma {:induction false} TotalsOverRated(cs: seq<Comment>)
    ensures DimensionTotals(cs) == DimensionTotals(Rated(cs))
  {
    if |cs| > 0 {
      TotalsOverRated(cs[1..]);
      var rest := Rated(cs[1..]);
      if cs[0].rating.Some? {
        var rs := [cs[0]] + rest;
        assert Rated(cs) == rs;
        assert rs[1..] == rest;
        assert DimensionTotals(rs) == AddScores(Contribution(cs[0]), DimensionTotals(rest));
      } else {
        assert Rated(cs) == rest;
        assert Contribution(cs[0]) == ZeroScores;
      }
    }
  }

  /** The same for the detail endpoint's score total. */
  lemma {:induction false} ScoreTotalOverRated(cs: seq<Comment>)
    ensures RatedScoreTotal(cs) == RatedScoreTotal(Rated(cs))
  {
    if |cs| > 0 {
      ScoreTotalOverRated(cs[1..]);
      var rest := Rated(cs[1..]);
      if cs[0].rating.Some? {
        var rs := [cs[0]] + rest;
        assert Rated(cs) == rs;
        assert rs[1..] == rest;
        assert RatedScoreTotal(rs) == ScoreSum(Contribution(cs[0])) + RatedScoreTotal(rest);
      } else {
        assert Rated(cs) == rest;
        assert Contribution(cs[0]) == ZeroScores;
      }
    }
  }

  lemma ScoreSumAdd(a: Rating, b: Rating)
    ensures ScoreSum(AddScores(a, b)) == ScoreSum(a) + ScoreSum(b)
  {
  }

  /** The blended numerator is the sum of the five per-dimension numerators. */
  lemma {:induction false} TotalIsSumOfDimensions(cs: seq<Comment>)
    ensures RatedScoreTotal(cs) == ScoreSum(DimensionTotals(cs))
  {
    if |cs| > 0 {
      TotalIsSumOfDimensions(cs[1..]);
      ScoreSumAdd(Contribution(cs[0]), DimensionTotals(cs[1..]));
    }
  }

  lemma DivThenMul(x: real, y: real)
    requires y != 0.0
    ensures (x / y) * y == x
  {
  }

  /** The names of the amenities linked to the hotel, in link order; `None` if a link names no amenity. */
  function AmenityNames(links: seq<HotelAmenity>, amenities: seq<Amenity>, hid: int): (names: Option<seq<string>>)
    ensures names.Some? ==> |names.value| <= |links|
  {
    if |links| == 0 then Some([])
    else
      var rest := AmenityNames(links[1..], amenities, hid);
      if links[0].hotelId != hid then rest
      else
        var a := FindAmenityById(amenities, links[0].amenityId);
        if a.None? || rest.None? then None else Some([a.value.name] + rest.value)
  }

  /** The links that belong to hotel `hid`. */
  function LinksOf(links: seq<HotelAmenity>, hid: int): (ls: seq<HotelAmenity>)
    ensures forall l :: l in ls <==> l in links && l.hotelId == hid
    ensures forall l :: multiset(ls)[l] == if l.hotelId == hid then multiset(links)[l] else 0
  {
    if |links| == 0 then []
    else
      var rest := LinksOf(links[1..], hid);
      assert links == [links[0]] + links[1..];
      if links[0].hotelId == hid then [links[0]] + rest else rest
  }

  /** The link points to an amenity that exists. */
  predicate Resolves(amenities: seq<Amenity>, l: HotelAmenity) {
    FindAmenityById(amenities, l.amenityId).Some?
  }

  /** Every link in `ls` resolves. */
  predicate AllResolve(amenities: seq<Amenity>, ls: seq<HotelAmenity>) {
    forall i | 0 <= i < |ls| :: Resolves(amenities, ls[i])
  }

  lemma AllResolveCons(amenities: seq<Amenity>, l: HotelAmenity, rest: seq<HotelAmenity>)
    ensures AllResolve(amenities, [l] + rest) <==> Resolves(amenities, l) && AllResolve(amenities, rest)
  {
    var ls := [l] + rest;
    if AllResolve(amenities, ls) {
      forall i | 0 <= i < |rest| ensures Resolves(amenities, rest[i]) {
        assert rest[i] == ls[i + 1];
      }
      assert Resolves(amenities, ls[0]);
    }
    if Resolves(amenities, l) && AllResolve(amenities, rest) {
      forall i | 0 <= i < |ls| ensures Resolves(amenities, ls[i]) {
        if i > 0 {
          assert ls[i] == rest[i - 1];
        }
      }
    }
  }

  /** `names` holds, position by position, the name of the amenity each link in `ls` points to. */
  predicate NamesFollow(names: seq<string>, amenities: seq<Amenity>, ls: seq<HotelAmenity>) {
    && |names| == |ls|
    && forall i | 0 <= i < |ls| ::
         FindAmenityById(amenities, ls[i].amenityId).Some? &&
         names[i] == FindAmenityById(amenities, ls[i].amenityId).value.name
  }

  lemma NamesFollowCons(amenities: seq<Amenity>, l: HotelAmenity, ls: seq<HotelAmenity>, names: seq<string>)
    requires FindAmenityById(amenities, l.amenityId).Some?
    requires NamesFollow(names, amenities, ls)
    ensures NamesFollow([FindAmenityById(amenities, l.amenityId).value.name] + names, amenities, [l] + ls)
  {
    var ns := [FindAmenityById(amenities, l.amenityId).value.name] + names;
    var ls' := [l] + ls;
    forall i | 0 < i < |ls'|
      ensures FindAmenityById(amenities, ls'[i].amenityId).Some? &&
              ns[i] == FindAmenityById(amenities, ls'[i].amenityId).value.name
    {
      assert ls'[i] == ls[i - 1] && ns[i] == names[i - 1];
    }
  }

  /** The amenity names list one name per link of the hotel, the name of the amenity that link points to. */
  lemma {:induction false} AmenityNamesFollowLinks(links: seq<HotelAmenity>, amenities: seq<Amenity>, hid: int)
    ensures var names := AmenityNames(links, amenities, hid);
      var ls := LinksOf(links, hid);
      && (names.Some? <==> AllResolve(amenities, ls))
      && (names.Some? ==> NamesFollow(names.value, amenities, ls))
  {
    if |links| > 0 {
      AmenityNamesFollowLinks(links[1..], amenities, hid);
      var ls := LinksOf(links, hid);
      var rest := LinksOf(links[1..], hid);
      var names := AmenityNames(links, amenities, hid);
      var restNames := AmenityNames(links[1..], amenities, hid);
      if links[0].hotelId == hid {
        assert ls == [links[0]] + rest;
        AllResolveCons(amenities, links[0], rest);
        if names.Some? {
          NamesFollowCons(amenities, links[0], rest, restNames.value);
        }
      } else {
        assert ls == rest;
        assert names == restNames;
      }
    }
  }

  /**
   The detail endpoint's average: the score sum over rated comments divided
   by five times the number of all comments; null without comments, and also
   when it is 0 (0.0 is falsy).
   */
  function BlendedAverage(cs: seq<Comment>): (avg: Option<real>)
    ensures avg.Some? <==> |cs| > 0 && RatedScoreTotal(cs) != 0.0
    ensures avg.Some? ==> avg.value * (5 * |cs|) as real == RatedScoreTotal(cs)
  {
    if |cs| == 0 then None
    else
      var a := RatedScoreTotal(cs) / (|cs| * 5) as real;
      DivThenMul(RatedScoreTotal(cs), (|cs| * 5) as real);
      if a != 0.0 then Some(a) else None
  }

  /**
   get_hotel_by_id: 404 for an unknown hotel; otherwise the number of all
   its comments and the blended average, which is null when there are no
   comments and also when the average is 0 (0.0 is falsy).
   */
  function HotelDetail(s: Store, hid: int): (r: Response<Detail>)
    ensures FindHotel(s.hotels, hid).None? ==> r == Response(404, Error(HotelNotFoundMessage))
    ensures r.status == 200 || r.status == 404 || r.status == InternalErrorStatus
    ensures r.status == 200 <==>
      FindHotel(s.hotels, hid).Some? && AmenityNames(s.links, s.amenities, hid).Some?
    ensures r.status == 200 ==>
      var cs := CommentsOf(s.comments, hid);
      && r.body.Ok?
      && r.body.value.hotel == FindHotel(s.hotels, hid).value
      && r.body.value.hotel.id == hid
      && r.body.value.commentCount == |cs|
      && r.body.value.ratingAverage == BlendedAverage(cs)
      && Some(r.body.value.amenities) == AmenityNames(s.links, s.amenities, hid)
    ensures r.status == InternalErrorStatus <==>
      FindHotel(s.hotels, hid).Some? && AmenityNames(s.links, s.amenities, hid).None?
  {
    var hotel := FindHotel(s.hotels, hid);
    if hotel.None? then Response(404, Error(HotelNotFoundMessage))
    else
      var cs := CommentsOf(s.comments, hid);
      var names := AmenityNames(s.links, s.amenities, hid);
      // `a.amenity.name` on a dangling link raises AttributeError
      if names.None? then Response(InternalErrorStatus, Error(InternalError))
      else Response(200, Ok(Detail(hotel.value, BlendedAverage(cs), |cs|, names.value)))
  }

  /** Every comment's author is in the user table. */
  predicate AuthorsKnown(cs: seq<Comment>, users: seq<User>) {
    forall c | c in cs :: FindUserById(users, c.userId).Some?
  }

  /** The list entry shows the comment's scores, text and time, and the full name of its author. */
  predicate ViewOf(v: CommentView, c: Comment, users: seq<User>) {
    && c.rating == Some(v.ratings)
    && v.text == c.text
    && v.createdAt == c.createdAt
    && exists u | u in users && u.id == c.userId :: v.user == u.firstName + " " + u.lastName
  }

  /** The entries of the comment list: one per rated comment; `None` if an author is missing. */
  function Views(rated: seq<Comment>, users: seq<User>): (vs: Option<seq<CommentView>>)
    requires forall c | c in rated :: c.rating.Some?
    ensures vs.Some? <==> AuthorsKnown(rated, users)
    ensures vs.Some? ==> |vs.value| == |rated|
    ensures vs.Some? ==> forall i | 0 <= i < |rated| :: ViewOf(vs.value[i], rated[i], users)
  {
    if |rated| == 0 then Some([])
    else
      var c := rated[0];
      var author := FindUserById(users, c.userId);
      var rest := Views(rated[1..], users);
      AuthorsKnownCons(rated, users);
      if author.None? || rest.None? then None
      else
        var v := CommentView(author.value.firstName + " " + author.value.lastName, c.text, c.createdAt, c.rating.value);
        assert ViewOf(v, c, users);
        var vs := [v] + rest.value;
        assert forall i | 0 < i < |rated| :: vs[i] == rest.value[i - 1] && rated[i] == rated[1..][i - 1];
        Some(vs)
  }

  /** Each entry of the list shows the ratings of the comment it stands for. */
  lemma ViewsCarryRatings(rated: seq<Comment>, users: seq<User>)
    requires forall c | c in rated :: c.rating.Some?
    ensures var vs := Views(rated, users);
      vs.Some? ==> (|vs.value| == |rated| &&
        forall i | 0 <= i < |rated| :: vs.value[i].ratings == rated[i].rating.value)
  {
    var vs := Views(rated, users);
    if vs.Some? {
      forall i | 0 <= i < |rated| ensures vs.value[i].ratings == rated[i].rating.value {
        assert ViewOf(vs.value[i], rated[i], users);
      }
    }
  }

  /** A list of comments has known authors iff its first comment has and the rest have. */
  lemma AuthorsKnownCons(cs: seq<Comment>, users: seq<User>)
    requires |cs| > 0
    ensures AuthorsKnown(cs, users) <==>
      FindUserById(users, cs[0].userId).Some? && AuthorsKnown(cs[1..], users)
  {
    assert cs == [cs[0]] + cs[1..];
  }

  /** Each dimension divided by `n`. */
  function Scale(t: Rating, n: nat): (a: Rating)
    requires n > 0
    ensures a.cleanliness * n as real == t.cleanliness
    ensures a.service * n as real == t.service
    ensures a.facilities * n as real == t.facilities
    ensures a.location * n as real == t.location
    ensures a.ecoFriendliness * n as real == t.ecoFriendliness
  {
    Rating(t.cleanliness / n as real, t.service / n as real, t.facilities / n as real,
           t.location / n as real, t.ecoFriendliness / n as real)
  }

  /**
   get_comments_by_hotel: no comments gives an empty list and `{}`;
   otherwise only rated comments are listed and every dimension is averaged
   over them alone. Comments of which none is rated divide by zero (500).
   */
  function HotelComments(s: Store, hid: int): (r: Response<CommentsPage>)
    ensures |CommentsOf(s.comments, hid)| == 0 ==> r == Response(200, Ok(CommentsPage(None, [])))
    ensures |CommentsOf(s.comments, hid)| > 0 && |Rated(CommentsOf(s.comments, hid))| == 0 ==>
      r == Response(InternalErrorStatus, Error(InternalError))
    ensures r.status == 200 || r.status == InternalErrorStatus
    ensures r.status == 200 <==>
      var cs := CommentsOf(s.comments, hid);
      |cs| == 0 || (|Rated(cs)| > 0 && AuthorsKnown(Rated(cs), s.users))
    ensures r.status == 200 && |CommentsOf(s.comments, hid)| > 0 ==>
      r.body.Ok? && r.body.value.comments == Views(Rated(CommentsOf(s.comments, hid)), s.users).value
    ensures r.status == 200 && |CommentsOf(s.comments, hid)| > 0 ==>
      var rated := Rated(CommentsOf(s.comments, hid));
      var totals := DimensionTotals(CommentsOf(s.comments, hid));
      var n := |rated| as real;
      && r.body.Ok?
      && r.body.value.averages.Some?
      && var avg := r.body.value.averages.value;
      && n > 0.0
      && avg.cleanliness == totals.cleanliness / n
      && avg.service == totals.service / n
      && avg.facilities == totals.facilities / n
      && avg.location == totals.location / n
      && avg.ecoFriendliness == totals.ecoFriendliness / n
      && |r.body.value.comments| == |rated|
      && forall i | 0 <= i < |rated| :: r.body.value.comments[i].ratings == rated[i].rating.value
  {
    var cs := CommentsOf(s.comments, hid);
    if |cs| == 0 then Response(200, Ok(CommentsPage(None, [])))
    else
      var rated := Rated(cs);
      if |rated| == 0 then
        // `v / count` with count == 0 raises ZeroDivisionError
        Response(InternalErrorStatus, Error(InternalError))
      else
        var views := Views(rated, s.users);
        // `c.user.first_name` on a comment whose author is gone raises AttributeError
        if views.None? then Response(InternalErrorStatus, Error(InternalError))
        else
          ViewsCarryRatings(rated, s.users);
          Response(200, Ok(CommentsPage(Some(Scale(DimensionTotals(cs), |rated|)), views.value)))
  }

  /** Scaling every dimension by `1/n` scales their sum alike. */
  lemma ScaleScoreSum(t: Rating, n: nat)
    requires n > 0
    ensures ScoreSum(Scale(t, n)) * n as real == ScoreSum(t)
  {
    var a := Scale(t, n);
    var m := n as real;
    DivThenMul(t.cleanliness, m);
    DivThenMul(t.service, m);
    DivThenMul(t.facilities, m);
    DivThenMul(t.location, m);
    DivThenMul(t.ecoFriendliness, m);
    calc {
      ScoreSum(a) * m;
      (a.service + a.cleanliness + a.facilities + a.location + a.ecoFriendliness) * m;
      a.service * m + a.cleanliness * m + a.facilities * m + a.location * m + a.ecoFriendliness * m;
      ScoreSum(t);
    }
  }

  /** The detail average times five times the number of comments is the sum of the dimension totals. */
  lemma BlendedNumerator(cs: seq<Comment>)
    ensures BlendedAverage(cs).Some? <==> |cs| > 0 && ScoreSum(DimensionTotals(cs)) != 0.0
    ensures BlendedAverage(cs).Some? ==>
      BlendedAverage(cs).value * (5 * |cs|) as real == ScoreSum(DimensionTotals(cs))
  {
    TotalIsSumOfDimensions(cs);
  }

  /** The mean of the per-dimension averages is zero exactly when the dimension totals sum to zero. */
  lemma MeanZeroIffTotalZero(t: Rating, k: nat)
    requires 0 < k
    ensures ScoreSum(Scale(t, k)) / 5.0 != 0.0 <==> ScoreSum(t) != 0.0
  {
    ScaleScoreSum(t, k);
  }

  /** When every comment is rated, the mean of the dimension averages is the blended quotient. */
  lemma MeanOfAllRated(t: Rating, n: nat)
    requires 0 < n
    ensures ScoreSum(Scale(t, n)) / 5.0 == ScoreSum(t) / (n * 5) as real
  {
    ScaleScoreSum(t, n);
    assert (n * 5) as real == n as real * 5.0;
  }

  /**
   The two endpoints agree on a hotel's ratings: the detail average is null
   exactly when the mean of the five comment-list averages is 0, and when
   every comment is rated the detail average is that mean. (With unrated
   comments the detail average is smaller by the factor rated/all, which
   BlendedNumerator and ScaleScoreSum state through the dimension totals.)
   */
  lemma BlendedAverageVersusDimensionAverages(s: Store, hid: int)
    ensures var cs := CommentsOf(s.comments, hid);
      var detail := HotelDetail(s, hid);
      var page := HotelComments(s, hid);
      detail.status == 200 && page.status == 200 && |cs| > 0 ==>
        var avg := page.body.value.averages.value;
        var blended := detail.body.value.ratingAverage;
        && (blended.Some? <==> ScoreSum(avg) / 5.0 != 0.0)
        && (|Rated(cs)| == |cs| ==>
              blended == if ScoreSum(avg) / 5.0 != 0.0 then Some(ScoreSum(avg) / 5.0) else None)
  {
    var cs := CommentsOf(s.comments, hid);
    if HotelDetail(s, hid).status != 200 || HotelComments(s, hid).status != 200 || |cs| == 0 {
      return;
    }
    var k := |Rated(cs)|;
    var t := DimensionTotals(cs);
    var avg := HotelComments(s, hid).body.value.averages.value;
    assert avg == Scale(t, k);
    assert HotelDetail(s, hid).body.value.ratingAverage == BlendedAverage(cs);
    BlendedNumerator(cs);
    MeanZeroIffTotalZero(t, k);
    if k == |cs| {
      MeanOfAllRated(t, k);
      TotalIsSumOfDimensions(cs);
    }
  }
}
