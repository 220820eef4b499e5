/**
 The records of the hotel backend (one datatype per table of app/models.py)
 and the store that holds them. The relational database is modelled as an
 immutable value: every table is a sequence of rows in insertion order, and a
 handler returns the new store together with its HTTP status and body.
 */
module Models {

  datatype Option<+T> = None | Some(value: T) {
    function GetOr(default: T): T {
      match this
      case Some(v) => v
      case None => default
    }
  }

  /** A row of `users`. Nullable text columns the handlers may leave unset are options. */
  datatype User = User(
    id: int,
    firstName: string,
    lastName: string,
    email: string,
    passwordHash: string,
    country: Option<string>,
    city: Option<string>,
    isGoogleUser: bool,
    isAdmin: bool)

  /** A row of `hotels`. Prices and scores are reals; Python floats and `round` are not modelled. */
  datatype Hotel = Hotel(
    id: int,
    name: string,
    location: string,
    price: real,
    rating: real,
    imageUrl: string,
    latitude: real,
    longitude: real,
    isFlagged: bool,
    discountPercent: int,
    availableOnWeekend: bool,
    country: string)

  datatype Amenity = Amenity(id: int, name: string)

  /** A row of the `hotel_amenities` join table; its own surrogate id plays no part. */
  datatype HotelAmenity = Link(hotelId: int, amenityId: int)

  /** The five scores attached 1:1 to a comment. */
  datatype Rating = Rating(
    cleanliness: real,
    service: real,
    facilities: real,
    location: real,
    ecoFriendliness: real)

  /** A comment with its optional rating; `createdAt` is a timestamp in seconds. */
  datatype Comment = Comment(
    id: int,
    userId: int,
    hotelId: int,
    text: string,
    createdAt: int,
    rating: Option<Rating>)

  /**
   A row of `hotel_availabilities`. Dates are day numbers as `date.toordinal()`
   counts them: 0001-01-01 is day 1 and `date.max`, 9999-12-31, is LastDay.
   */
  datatype Availability = Availability(hotelId: int, date: int, isAvailable: bool)

  datatype Store = Store(
    users: seq<User>,
    hotels: seq<Hotel>,
    amenities: seq<Amenity>,
    links: seq<HotelAmenity>,
    comments: seq<Comment>,
    availability: seq<Availability>)

  /** A JSON response body: the payload of a success, or an `error` message. */
  datatype Body<+P> = Ok(value: P) | Error(message: string)

  /** What a read-only handler answers. */
  datatype Response<+P> = Response(status: int, body: Body<P>)

  /** What a writing handler answers: the store after the request, status and body. */
  datatype Reply<+P> = Reply(store: Store, status: int, body: Body<P>)

  /** The status Flask gives an exception the handler does not catch. */
  const InternalErrorStatus := 500
  const InternalError := "Internal Server Error"

  /** The 404 message of the handlers that take a hotel id. */
  const HotelNotFoundMessage := "Otel bulunamad\U{0131}"

  // ---------------------------------------------------------------------------
  // Strings and request values.

  /** The day number of `date.max`; there is no later date. */
  const LastDay := 3652059

  /** The text of the `KeyError` raised for an absent key: the key in single quotes. */
  function KeyErrorText(key: string): string {
    "'" + key + "'"
  }

  /** Python truthiness of an optional string: absent and "" are both false. */
  predicate Present(o: Option<string>) {
    o.Some? && o.value != ""
  }

  predicate IsPrefix(p: string, s: string) {
    |p| <= |s| && s[..|p|] == p
  }

  /** `p` occurs somewhere in `s` as a contiguous piece. */
  predicate Occurs(p: string, s: string)
    decreases |s|
  {
    IsPrefix(p, s) || (|s| > 0 && Occurs(p, s[1..]))
  }

  // ---------------------------------------------------------------------------
  // Lookups. Each returns the first row in store order, as `.first()` and
  // `query.get` do on a table whose key is unique.

  function FindUserById(users: seq<User>, id: int): (r: Option<User>)
    ensures r.Some? ==> r.value in users && r.value.id == id
    ensures r.None? ==> forall u | u in users :: u.id != id
  {
    if |users| == 0 then None
    else if users[0].id == id then Some(users[0])
    else FindUserById(users[1..], id)
  }

  function FindUserByEmail(users: seq<User>, email: string): (r: Option<User>)
    ensures r.Some? ==> r.value in users && r.value.email == email
    ensures r.None? ==> forall u | u in users :: u.email != email
  {
    if |users| == 0 then None
    else if users[0].email == email then Some(users[0])
    else FindUserByEmail(users[1..], email)
  }

  function FindHotel(hotels: seq<Hotel>, id: int): (r: Option<Hotel>)
    ensures r.Some? ==> r.value in hotels && r.value.id == id
    ensures r.None? ==> forall h | h in hotels :: h.id != id
  {
    if |hotels| == 0 then None
    else if hotels[0].id == id then Some(hotels[0])
    else FindHotel(hotels[1..], id)
  }

  function FindAmenityByName(amenities: seq<Amenity>, name: string): (r: Option<Amenity>)
    ensures r.Some? ==> r.value in amenities && r.value.name == name
    ensures r.None? ==> forall a | a in amenities :: a.name != name
  {
    if |amenities| == 0 then None
    else if amenities[0].name == name then Some(amenities[0])
    else FindAmenityByName(amenities[1..], name)
  }

  function FindAmenityById(amenities: seq<Amenity>, id: int): (r: Option<Amenity>)
    ensures r.Some? ==> r.value in amenities && r.value.id == id
    ensures r.None? ==> forall a | a in amenities :: a.id != id
  {
    if |amenities| == 0 then None
    else if amenities[0].id == id then Some(amenities[0])
    else FindAmenityById(amenities[1..], id)
  }

  /** A lookup in a longer table still finds what the shorter table held. */
  lemma {:induction false} FindAmenityByNameExtend(amenities: seq<Amenity>, extra: seq<Amenity>, name: string)
    requires FindAmenityByName(amenities, name).Some?
    ensures FindAmenityByName(amenities + extra, name) == FindAmenityByName(amenities, name)
  {
    if amenities[0].name != name {
      assert (amenities + extra)[1..] == amenities[1..] + extra;
      FindAmenityByNameExtend(amenities[1..], extra, name);
    }
  }

  /** A name that is not in the table is found in the appended row. */
  lemma {:induction false} FindAmenityByNameAfterMiss(amenities: seq<Amenity>, a: Amenity)
    requires FindAmenityByName(amenities, a.name).None?
    ensures FindAmenityByName(amenities + [a], a.name) == Some(a)
  {
    if |amenities| > 0 {
      assert (amenities + [a])[1..] == amenities[1..] + [a];
      FindAmenityByNameAfterMiss(amenities[1..], a);
    }
  }

  lemma {:induction false} FindAmenityByIdExtend(amenities: seq<Amenity>, extra: seq<Amenity>, id: int)
    requires FindAmenityById(amenities, id).Some?
    ensures FindAmenityById(amenities + extra, id) == FindAmenityById(amenities, id)
  {
    if amenities[0].id != id {
      assert (amenities + extra)[1..] == amenities[1..] + extra;
      FindAmenityByIdExtend(amenities[1..], extra, id);
    }
  }

  // ---------------------------------------------------------------------------
  // Keys. The database hands out a fresh primary key for each insert; the
  // model uses one more than the largest key in use.

  function MaxUserId(users: seq<User>): (m: int)
    ensures m >= 0
    ensures forall u | u in users :: u.id <= m
  {
    if |users| == 0 then 0
    else
      var rest := MaxUserId(users[1..]);
      if users[0].id > rest then users[0].id else rest
  }

  function FreshUserId(users: seq<User>): (id: int)
    ensures id > 0
    ensures forall u | u in users :: u.id != id
  {
    MaxUserId(users) + 1
  }

  function MaxAmenityId(amenities: seq<Amenity>): (m: int)
    ensures m >= 0
    ensures forall a | a in amenities :: a.id <= m
  {
    if |amenities| == 0 then 0
    else
      var rest := MaxAmenityId(amenities[1..]);
      if amenities[0].id > rest then amenities[0].id else rest
  }

  function FreshAmenityId(amenities: seq<Amenity>): (id: int)
    ensures id > 0
    ensures forall a | a in amenities :: a.id != id
  {
    MaxAmenityId(amenities) + 1
  }

  // ---------------------------------------------------------------------------
  // Store invariants.

  /** `users.email` is declared unique. */
  ghost predicate UniqueEmails(users: seq<User>) {
    forall i, j | 0 <= i < j < |users| :: users[i].email != users[j].email
  }

  /** `users.id` is the primary key. */
  ghost predicate UniqueUserIds(users: seq<User>) {
    forall i, j | 0 <= i < j < |users| :: users[i].id != users[j].id
  }

  ghost predicate UniqueAmenityIds(amenities: seq<Amenity>) {
    forall i, j | 0 <= i < j < |amenities| :: amenities[i].id != amenities[j].id
  }

  ghost predicate UniqueAmenityNames(amenities: seq<Amenity>) {
    forall i, j | 0 <= i < j < |amenities| :: amenities[i].name != amenities[j].name
  }

  /** No (hotel, amenity) pair is linked twice. */
  ghost predicate UniqueLinks(links: seq<HotelAmenity>) {
    forall i, j | 0 <= i < j < |links| :: links[i] != links[j]
  }

  /** At most one availability row per (hotel, date). */
  ghost predicate UniqueAvailabilityKeys(rows: seq<Availability>) {
    forall i, j | 0 <= i < j < |rows| ::
      rows[i].hotelId != rows[j].hotelId || rows[i].date != rows[j].date
  }

  /** With unique e-mails, the user found by e-mail is the only one with that e-mail. */
  lemma {:induction false} FindUserByEmailUnique(users: seq<User>, u: User)
    requires UniqueEmails(users)
    requires u in users
    ensures FindUserByEmail(users, u.email) == Some(u)
  {
    if users[0] != u {
      assert u in users[1..];
      assert users[0].email != u.email by {
        var k :| 0 <= k < |users| && users[k] == u;
      }
      assert UniqueEmails(users[1..]) by {
        forall i, j | 0 <= i < j < |users[1..]|
          ensures users[1..][i].email != users[1..][j].email
        {
          assert users[1..][i] == users[i + 1] && users[1..][j] == users[j + 1];
        }
      }
      FindUserByEmailUnique(users[1..], u);
    }
  }

  /** With unique ids, the user found by id is the only one with that id. */
  lemma {:induction false} FindUserByIdUnique(users: seq<User>, u: User)
    requires UniqueUserIds(users)
    requires u in users
    ensures FindUserById(users, u.id) == Some(u)
  {
    if users[0] != u {
      assert u in users[1..];
      assert users[0].id != u.id by {
        var k :| 0 <= k < |users| && users[k] == u;
      }
      assert UniqueUserIds(users[1..]) by {
        forall i, j | 0 <= i < j < |users[1..]|
          ensures users[1..][i].id != users[1..][j].id
        {
          assert users[1..][i] == users[i + 1] && users[1..][j] == users[j + 1];
        }
      }
      FindUserByIdUnique(users[1..], u);
    }
  }
}
