/**
 The two writing endpoints of app/routes/hotel_routes.py that only ever add
 rows: `add_amenities_to_hotel`, which finds or creates each named amenity
 and links it to the hotel unless that link exists, and
 `add_availability_range`, which adds an availability row for each day of an
 inclusive range unless the (hotel, day) row exists. Neither overwrites a
 row, so both are idempotent.
 */
module Updates {
  import opened Models
  import Search

  const AmenitiesAddedMessage := "Olanaklar ba\U{015F}ar\U{0131}yla eklendi"
  /** The text of the `OverflowError` raised by stepping past `date.max`. */
  const DateOverflowMessage := "date value out of range"
  const RangeAddedMessage := "Uygunluk aral\U{0131}\U{011F}\U{0131} ba\U{015F}ar\U{0131}yla eklendi"

  // ---------------------------------------------------------------------------
  // Amenities.

  /** The name resolves to an amenity that is linked to the hotel. */
  predicate Linked(s: Store, hid: int, name: string) {
    var a := FindAmenityByName(s.amenities, name);
    a.Some? && Link(hid, a.value.id) in s.links
  }

  /** Only the amenity and link tables change, and only by appending rows. */
  predicate Extends(s: Store, t: Store) {
    && t == s.(amenities := t.amenities, links := t.links)
    && |s.amenities| <= |t.amenities| && t.amenities[..|s.amenities|] == s.amenities
    && |s.links| <= |t.links| && t.links[..|s.links|] == s.links
  }

  /** One pass of the loop: find or create the amenity by name, then link it unless already linked. */
  function LinkAmenity(s: Store, hid: int, name: string): (t: Store)
    ensures Extends(s, t)
    ensures Linked(t, hid, name)
    ensures |t.amenities| <= |s.amenities| + 1 && |t.links| <= |s.links| + 1
    ensures |t.amenities| > |s.amenities| ==>
      t.amenities[|s.amenities|].name == name && FindAmenityByName(s.amenities, name).None?
    ensures |t.links| > |s.links| ==> t.links[|s.links|] == Link(hid, FindAmenityByName(t.amenities, name).value.id)
    ensures Linked(s, hid, name) ==> t == s
  {
    var found := FindAmenityByName(s.amenities, name);
    if found.Some? then
      var link := Link(hid, found.value.id);
      if link in s.links then s else s.(links := s.links + [link])
    else
      var a := Amenity(FreshAmenityId(s.amenities), name);
      FindAmenityByNameAfterMiss(s.amenities, a);
      var link := Link(hid, a.id);
      var links := if link in s.links then s.links else s.links + [link];
      s.(amenities := s.amenities + [a], links := links)
  }

  /** The link joins the hotel to the amenity that one of the names resolves to. */
  predicate LinksListedName(t: Store, hid: int, names: seq<string>, l: HotelAmenity) {
    exists n | n in names :: FindAmenityByName(t.amenities, n).Some? && l == Link(hid, FindAmenityByName(t.amenities, n).value.id)
  }

  /** The loop over the names, in order; each pass sees what the earlier ones added. */
  function LinkAll(s: Store, hid: int, names: seq<string>): (t: Store)
    ensures Extends(s, t)
    ensures |names| == 0 ==> t == s
    decreases |names|
  {
    if |names| == 0 then s else LinkAll(LinkAmenity(s, hid, names[0]), hid, names[1..])
  }

  lemma ExtendsTransitive(s: Store, t: Store, u: Store)
    requires Extends(s, t) && Extends(t, u)
    ensures Extends(s, u)
  {
    assert u.amenities[..|s.amenities|] == t.amenities[..|s.amenities|];
    assert u.links[..|s.links|] == t.links[..|s.links|];
  }

  /** A name that is linked stays linked when the tables grow. */
  lemma LinkedStable(s: Store, t: Store, hid: int, name: string)
    requires Extends(s, t)
    requires Linked(s, hid, name)
    ensures Linked(t, hid, name)
  {
    assert t.amenities == s.amenities + t.amenities[|s.amenities|..];
    FindAmenityByNameExtend(s.amenities, t.amenities[|s.amenities|..], name);
    var a := FindAmenityByName(s.amenities, name).value;
    var i :| 0 <= i < |s.links| && s.links[i] == Link(hid, a.id);
    assert t.links[i] == Link(hid, a.id);
  }

  /** The loop only appends amenity and link rows, and every link it appends belongs to the hotel. */
  lemma {:induction false} LinkAllExtends(s: Store, hid: int, names: seq<string>)
    ensures var t := LinkAll(s, hid, names);
      && Extends(s, t)
      && (forall i | |s.links| <= i < |t.links| :: t.links[i].hotelId == hid)
    decreases |names|
  {
    if |names| > 0 {
      var m := LinkAmenity(s, hid, names[0]);
      var t := LinkAll(s, hid, names);
      LinkAllExtends(m, hid, names[1..]);
      ExtendsTransitive(s, m, t);
      forall i | |s.links| <= i < |t.links| ensures t.links[i].hotelId == hid {
        if i < |m.links| {
          assert t.links[i] == m.links[i];
        }
      }
    }
  }

  /** Every link the loop appends joins the hotel to the amenity of a listed name. */
  lemma {:induction false} LinkAllNewLinks(s: Store, hid: int, names: seq<string>)
    ensures var t := LinkAll(s, hid, names);
      forall i | |s.links| <= i < |t.links| :: LinksListedName(t, hid, names, t.links[i])
    decreases |names|
  {
    if |names| > 0 {
      var m := LinkAmenity(s, hid, names[0]);
      var t := LinkAll(s, hid, names);
      LinkAllNewLinks(m, hid, names[1..]);
      assert t == LinkAll(m, hid, names[1..]);
      forall i | |s.links| <= i < |t.links| ensures LinksListedName(t, hid, names, t.links[i]) {
        if i < |m.links| {
          assert t.links[i] == m.links[i];
          FirstPassLinkListed(s, t, hid, names);
        } else {
          ListedNameWiden(t, hid, names, t.links[i]);
        }
      }
    }
  }

  /** The link the first pass appends, if any, is a link for the first name. */
  lemma FirstPassLinkListed(s: Store, t: Store, hid: int, names: seq<string>)
    requires |names| > 0
    requires Extends(LinkAmenity(s, hid, names[0]), t)
    requires |s.links| < |LinkAmenity(s, hid, names[0]).links|
    ensures LinksListedName(t, hid, names, LinkAmenity(s, hid, names[0]).links[|s.links|])
  {
    var m := LinkAmenity(s, hid, names[0]);
    assert Linked(m, hid, names[0]);
    ListedLinkPersists(m, t, hid, names, names[0]);
  }

  /** A link to a listed name's amenity keeps that meaning as the tables grow. */
  lemma ListedLinkPersists(m: Store, t: Store, hid: int, names: seq<string>, name: string)
    requires Extends(m, t)
    requires name in names
    requires FindAmenityByName(m.amenities, name).Some?
    ensures LinksListedName(t, hid, names, Link(hid, FindAmenityByName(m.amenities, name).value.id))
  {
    assert t.amenities == m.amenities + t.amenities[|m.amenities|..];
    FindAmenityByNameExtend(m.amenities, t.amenities[|m.amenities|..], name);
  }

  /** A link for one of the later names is a link for one of all the names. */
  lemma ListedNameWiden(t: Store, hid: int, names: seq<string>, l: HotelAmenity)
    requires |names| > 0
    requires LinksListedName(t, hid, names[1..], l)
    ensures LinksListedName(t, hid, names, l)
  {
    var n :| n in names[1..] && FindAmenityByName(t.amenities, n).Some? &&
      l == Link(hid, FindAmenityByName(t.amenities, n).value.id);
    assert n in names;
  }

  /** After the loop every listed name is linked to the hotel. */
  lemma {:induction false} LinkAllLinksEvery(s: Store, hid: int, names: seq<string>)
    ensures forall n | n in names :: Linked(LinkAll(s, hid, names), hid, n)
    decreases |names|
  {
    if |names| > 0 {
      var m := LinkAmenity(s, hid, names[0]);
      var t := LinkAll(s, hid, names);
      LinkAllLinksEvery(m, hid, names[1..]);
      LinkAllExtends(m, hid, names[1..]);
      LinkedStable(m, t, hid, names[0]);
      forall n | n in names ensures Linked(t, hid, n) {
        if n != names[0] {
          assert n in names[1..];
        }
      }
    }
  }

  /** Every amenity the loop creates carries a listed name that was not in the table before. */
  lemma {:induction false} LinkAllNewAmenities(s: Store, hid: int, names: seq<string>)
    ensures var t := LinkAll(s, hid, names);
      forall i | |s.amenities| <= i < |t.amenities| ::
        t.amenities[i].name in names && FindAmenityByName(s.amenities, t.amenities[i].name).None?
    decreases |names|
  {
    if |names| > 0 {
      var m := LinkAmenity(s, hid, names[0]);
      var t := LinkAll(s, hid, names);
      LinkAllNewAmenities(m, hid, names[1..]);
      LinkAllExtends(m, hid, names[1..]);
      forall i | |s.amenities| <= i < |t.amenities|
        ensures t.amenities[i].name in names && FindAmenityByName(s.amenities, t.amenities[i].name).None?
      {
        if i < |m.amenities| {
          assert t.amenities[i] == m.amenities[i];
        } else {
          NewNameAbsentBefore(s.amenities, m.amenities, t.amenities[i].name);
          assert t.amenities[i].name in names[1..];
        }
      }
    }
  }

  /** A name absent from a table is absent from every prefix of it. */
  lemma NewNameAbsentBefore(before: seq<Amenity>, after: seq<Amenity>, name: string)
    requires |before| <= |after| && after[..|before|] == before
    requires FindAmenityByName(after, name).None?
    ensures FindAmenityByName(before, name).None?
  {
    forall b | b in before ensures b.name != name {
      var j :| 0 <= j < |before| && before[j] == b;
      assert after[j] == b;
    }
  }

  /** When every name is already linked, the loop changes nothing. */
  lemma {:induction false} LinkAllWhenLinked(s: Store, hid: int, names: seq<string>)
    requires forall n | n in names :: Linked(s, hid, n)
    ensures LinkAll(s, hid, names) == s
    decreases |names|
  {
    if |names| > 0 {
      assert LinkAmenity(s, hid, names[0]) == s;
      forall n | n in names[1..] ensures Linked(s, hid, n) {
        assert n in names;
      }
      LinkAllWhenLinked(s, hid, names[1..]);
    }
  }

  /** The loop keeps links unique, amenity names unique and amenity ids unique. */
  lemma {:induction false} LinkAllKeepsKeys(s: Store, hid: int, names: seq<string>)
    ensures var t := LinkAll(s, hid, names);
      && (UniqueLinks(s.links) ==> UniqueLinks(t.links))
      && (UniqueAmenityNames(s.amenities) ==> UniqueAmenityNames(t.amenities))
      && (UniqueAmenityIds(s.amenities) ==> UniqueAmenityIds(t.amenities))
    decreases |names|
  {
    if |names| > 0 {
      var m := LinkAmenity(s, hid, names[0]);
      LinkAmenityKeepsKeys(s, hid, names[0]);
      LinkAllKeepsKeys(m, hid, names[1..]);
    }
  }

  lemma LinkAmenityKeepsKeys(s: Store, hid: int, name: string)
    ensures var t := LinkAmenity(s, hid, name);
      && (UniqueLinks(s.links) ==> UniqueLinks(t.links))
      && (UniqueAmenityNames(s.amenities) ==> UniqueAmenityNames(t.amenities))
      && (UniqueAmenityIds(s.amenities) ==> UniqueAmenityIds(t.amenities))
  {
    var t := LinkAmenity(s, hid, name);
    if |t.links| > |s.links| && UniqueLinks(s.links) {
      // a link is appended only when it is absent
      var l := t.links[|s.links|];
      assert l !in s.links by {
        var found := FindAmenityByName(s.amenities, name);
        if found.Some? {
          assert l == Link(hid, found.value.id);
        } else {
          assert l == Link(hid, FreshAmenityId(s.amenities));
        }
      }
      assert t.links == s.links + [l];
      AppendAbsentLink(s.links, l);
    }
    if |t.amenities| > |s.amenities| {
      var a := t.amenities[|s.amenities|];
      assert a == Amenity(FreshAmenityId(s.amenities), name);
      assert t.amenities == s.amenities + [a];
      AppendFreshAmenity(s.amenities, a);
    }
  }

  /** Appending a link not yet present keeps the links unique. */
  lemma AppendAbsentLink(links: seq<HotelAmenity>, l: HotelAmenity)
    requires UniqueLinks(links)
    requires l !in links
    ensures UniqueLinks(links + [l])
  {
    var t := links + [l];
    forall i, j | 0 <= i < j < |t| ensures t[i] != t[j] {
      assert t[i] == links[i];
      if j < |links| {
        assert t[j] == links[j];
      }
    }
  }

  /** Appending an amenity with a fresh id and an unused name keeps ids and names unique. */
  lemma AppendFreshAmenity(amenities: seq<Amenity>, a: Amenity)
    requires forall b | b in amenities :: b.id != a.id
    requires FindAmenityByName(amenities, a.name).None?
    ensures UniqueAmenityNames(amenities) ==> UniqueAmenityNames(amenities + [a])
    ensures UniqueAmenityIds(amenities) ==> UniqueAmenityIds(amenities + [a])
  {
    var t := amenities + [a];
    forall i, j | 0 <= i < j < |t| && UniqueAmenityNames(amenities) ensures t[i].name != t[j].name {
      assert t[i] == amenities[i] && t[i] in amenities;
      if j < |amenities| {
        assert t[j] == amenities[j];
      }
    }
    forall i, j | 0 <= i < j < |t| && UniqueAmenityIds(amenities) ensures t[i].id != t[j].id {
      assert t[i] == amenities[i] && t[i] in amenities;
      if j < |amenities| {
        assert t[j] == amenities[j];
      }
    }
  }

  /**
   add_amenities_to_hotel: 404 and no change for an unknown hotel; otherwise
   201, every listed name (none when the `amenities` key is absent) is linked
   to the hotel, and the only new rows are amenities with new names and links
   of this hotel.
   */
  function AddAmenities(s: Store, hid: int, names: Option<seq<string>>): (r: Reply<string>)
    ensures FindHotel(s.hotels, hid).None? <==> r == Reply(s, 404, Error(HotelNotFoundMessage))
    ensures FindHotel(s.hotels, hid).Some? ==>
      && r.status == 201
      && r.body == Ok(AmenitiesAddedMessage)
      && Extends(s, r.store)
      && (forall n | n in names.GetOr([]) :: Linked(r.store, hid, n))
      && (forall i | |s.links| <= i < |r.store.links| :: r.store.links[i].hotelId == hid)
      && (forall i | |s.links| <= i < |r.store.links| :: LinksListedName(r.store, hid, names.GetOr([]), r.store.links[i]))
      && (forall i | |s.amenities| <= i < |r.store.amenities| ::
            r.store.amenities[i].name in names.GetOr([]) &&
            FindAmenityByName(s.amenities, r.store.amenities[i].name).None?)
    ensures UniqueLinks(s.links) ==> UniqueLinks(r.store.links)
    ensures UniqueAmenityNames(s.amenities) ==> UniqueAmenityNames(r.store.amenities)
    ensures UniqueAmenityIds(s.amenities) ==> UniqueAmenityIds(r.store.amenities)
  {
    var hotel := FindHotel(s.hotels, hid);
    if hotel.None? then Reply(s, 404, Error(HotelNotFoundMessage))
    else
      // `data.get("amenities", [])`
      var ns := names.GetOr([]);
      LinkAllExtends(s, hid, ns);
      LinkAllLinksEvery(s, hid, ns);
      LinkAllNewAmenities(s, hid, ns);
      LinkAllNewLinks(s, hid, ns);
      LinkAllKeepsKeys(s, hid, ns);
      Reply(LinkAll(s, hid, ns), 201, Ok(AmenitiesAddedMessage))
  }

  /** Repeating the request answers alike and changes nothing. */
  lemma AddAmenitiesIdempotent(s: Store, hid: int, names: Option<seq<string>>)
    ensures var first := AddAmenities(s, hid, names);
      AddAmenities(first.store, hid, names) == first
  {
    var first := AddAmenities(s, hid, names);
    if FindHotel(s.hotels, hid).Some? {
      assert first.store.hotels == s.hotels;
      LinkAllWhenLinked(first.store, hid, names.GetOr([]));
    }
  }

  /** The links of every other hotel are the same before and after. */
  lemma AddAmenitiesLeavesOtherHotels(s: Store, hid: int, names: Option<seq<string>>, other: int)
    requires other != hid
    ensures var t := AddAmenities(s, hid, names).store;
      forall l: HotelAmenity | l.hotelId == other :: l in t.links <==> l in s.links
  {
    var t := AddAmenities(s, hid, names).store;
    forall l: HotelAmenity | l.hotelId == other ensures l in t.links <==> l in s.links {
      if l in t.links {
        var i :| 0 <= i < |t.links| && t.links[i] == l;
        if i < |s.links| {
          assert s.links[i] == l;
        }
      }
      if l in s.links {
        var i :| 0 <= i < |s.links| && s.links[i] == l;
        assert t.links[i] == l;
      }
    }
  }

  /** Under unique links each listed name ends up linked to the hotel exactly once. */
  lemma AddAmenitiesLinksOnce(s: Store, hid: int, names: Option<seq<string>>, n: string)
    requires FindHotel(s.hotels, hid).Some?
    requires UniqueLinks(s.links)
    requires n in names.GetOr([])
    ensures var t := AddAmenities(s, hid, names).store;
      var l := Link(hid, FindAmenityByName(t.amenities, n).value.id);
      exists i | 0 <= i < |t.links| :: t.links[i] == l && forall j | 0 <= j < |t.links| && j != i :: t.links[j] != l
  {
    var t := AddAmenities(s, hid, names).store;
    var l := Link(hid, FindAmenityByName(t.amenities, n).value.id);
    UniqueLinkOnce(t.links, l);
  }

  /** A link present in a list of unique links occurs at exactly one index. */
  lemma UniqueLinkOnce(links: seq<HotelAmenity>, l: HotelAmenity)
    requires UniqueLinks(links)
    requires l in links
    ensures exists i | 0 <= i < |links| :: links[i] == l && forall j | 0 <= j < |links| && j != i :: links[j] != l
  {
    var i :| 0 <= i < |links| && links[i] == l;
    forall j | 0 <= j < |links| && j != i ensures links[j] != l {
      if j < i {
        assert links[j] != links[i];
      } else {
        assert links[i] != links[j];
      }
    }
  }

  // ---------------------------------------------------------------------------
  // Availability range.

  /** A date field of the request body: absent, not `YYYY-MM-DD` (with the parser's message), or a day. */
  datatype DateField = Missing | Malformed(error: string) | Date(day: int)

  /** Some row for the hotel and day exists, available or not. */
  predicate HasRow(rows: seq<Availability>, hid: int, d: int) {
    exists r | r in rows :: r.hotelId == hid && r.date == d
  }

  /** The loop over the days: add a row with `flag` for each day that has none. */
  function Fill(rows: seq<Availability>, hid: int, days: seq<int>, flag: bool): (out: seq<Availability>)
    ensures |rows| <= |out| && out[..|rows|] == rows
    decreases |days|
  {
    if |days| == 0 then rows
    else
      var next := if HasRow(rows, hid, days[0]) then rows else rows + [Availability(hid, days[0], flag)];
      var out := Fill(next, hid, days[1..], flag);
      assert out[..|rows|] == next[..|rows|];
      out
  }

  lemma HasRowGrows(rows: seq<Availability>, out: seq<Availability>, hid: int, d: int)
    requires |rows| <= |out| && out[..|rows|] == rows
    requires HasRow(rows, hid, d)
    ensures HasRow(out, hid, d)
  {
    var r :| r in rows && r.hotelId == hid && r.date == d;
    var i :| 0 <= i < |rows| && rows[i] == r;
    assert out[i] == r;
  }

  /**
   After the loop every day has a row for the hotel; the rows added are the
   hotel's, carry `flag`, and are for days of the range that had no row.
   */
  lemma {:induction false} FillEffect(rows: seq<Availability>, hid: int, days: seq<int>, flag: bool)
    ensures var out := Fill(rows, hid, days, flag);
      && (forall d | d in days :: HasRow(out, hid, d))
      && (forall i | |rows| <= i < |out| :: out[i] == Availability(hid, out[i].date, flag))
      && (forall i | |rows| <= i < |out| :: out[i].date in days)
      && (forall i | |rows| <= i < |out| :: !HasRow(rows, hid, out[i].date))
    decreases |days|
  {
    if |days| > 0 {
      var next := if HasRow(rows, hid, days[0]) then rows else rows + [Availability(hid, days[0], flag)];
      var out := Fill(rows, hid, days, flag);
      assert out == Fill(next, hid, days[1..], flag);
      FillEffect(next, hid, days[1..], flag);
      assert HasRow(next, hid, days[0]) by {
        if !HasRow(rows, hid, days[0]) {
          assert next[|rows|] == Availability(hid, days[0], flag);
        }
      }
      HasRowGrows(next, out, hid, days[0]);
      forall d | d in days ensures HasRow(out, hid, d) {
        if d != days[0] {
          assert d in days[1..];
        }
      }
      forall i | |rows| <= i < |out|
        ensures out[i] == Availability(hid, out[i].date, flag) && out[i].date in days
        ensures !HasRow(rows, hid, out[i].date)
      {
        if i < |next| {
          assert out[i] == next[i];
        } else {
          assert out[i].date in days[1..];
        }
      }
    }
  }

  /** When every day already has a row, the loop changes nothing, whatever the flag. */
  lemma {:induction false} FillWhenCovered(rows: seq<Availability>, hid: int, days: seq<int>, flag: bool)
    requires forall d | d in days :: HasRow(rows, hid, d)
    ensures Fill(rows, hid, days, flag) == rows
    decreases |days|
  {
    if |days| > 0 {
      forall d | d in days[1..] ensures HasRow(rows, hid, d) {
        assert d in days;
      }
      FillWhenCovered(rows, hid, days[1..], flag);
    }
  }

  /** The loop keeps one row per (hotel, day). */
  lemma {:induction false} FillKeepsUniqueKeys(rows: seq<Availability>, hid: int, days: seq<int>, flag: bool)
    ensures UniqueAvailabilityKeys(rows) ==> UniqueAvailabilityKeys(Fill(rows, hid, days, flag))
    decreases |days|
  {
    if |days| > 0 && UniqueAvailabilityKeys(rows) {
      if !HasRow(rows, hid, days[0]) {
        var next := rows + [Availability(hid, days[0], flag)];
        forall i, j | 0 <= i < j < |next|
          ensures next[i].hotelId != next[j].hotelId || next[i].date != next[j].date
        {
          if j == |rows| {
            assert next[i] in rows;
          } else {
            assert next[i] == rows[i] && next[j] == rows[j];
          }
        }
        FillKeepsUniqueKeys(next, hid, days[1..], flag);
      } else {
        FillKeepsUniqueKeys(rows, hid, days[1..], flag);
      }
    }
  }

  lemma DateRangeMembers(start: int, end: int, d: int)
    ensures d in Search.DateRange(start, end) <==> start <= d <= end
  {
    var ds := Search.DateRange(start, end);
    if start <= d <= end {
      assert ds[d - start] == d;
    }
  }

  /**
   `after` is `before` with rows added for the inclusive range `start..end`:
   every day of it has a row for the hotel, a day that had none got one
   with `flag`, and the added rows are the hotel's, carry `flag`, and are
   for days of the range that had no row.
   */
  ghost predicate RangeAdded(before: seq<Availability>, after: seq<Availability>, hid: int, start: int, end: int, flag: bool) {
    && |before| <= |after| && after[..|before|] == before
    && (forall d | start <= d <= end :: HasRow(after, hid, d))
    && (forall d | start <= d <= end && !HasRow(before, hid, d) :: Availability(hid, d, flag) in after)
    && (forall i | |before| <= i < |after| ::
          && after[i].hotelId == hid
          && after[i].isAvailable == flag
          && start <= after[i].date <= end
          && !HasRow(before, hid, after[i].date))
  }

  /** The loop's effect over the inclusive range `start..end`. */
  lemma FillOverRange(rows: seq<Availability>, hid: int, start: int, end: int, flag: bool)
    ensures RangeAdded(rows, Fill(rows, hid, Search.DateRange(start, end), flag), hid, start, end, flag)
  {
    var days := Search.DateRange(start, end);
    var out := Fill(rows, hid, days, flag);
    FillEffect(rows, hid, days, flag);
    assert forall i | |rows| <= i < |Fill(rows, hid, days, flag)| :: Fill(rows, hid, days, flag)[i].date in days;
    forall d | start <= d <= end ensures HasRow(out, hid, d) {
      DateRangeMembers(start, end, d);
    }
    forall i | |rows| <= i < |out| ensures start <= out[i].date <= end {
      assert out[i].date in days;
      DateRangeMembers(start, end, out[i].date);
    }
    forall d | start <= d <= end && !HasRow(rows, hid, d) ensures Availability(hid, d, flag) in out {
      DateRangeMembers(start, end, d);
      var r :| r in out && r.hotelId == hid && r.date == d;
      // `r` is not an old row, so it is one of the added rows
      assert r !in rows;
      assert out == rows + out[|rows|..];
      var j :| 0 <= j < |out| - |rows| && out[|rows|..][j] == r;
      assert out[|rows| + j] == r;
    }
  }

  /**
   The day loop steps past `date.max`: it visits LastDay, and the
   `current += timedelta(days=1)` after it raises OverflowError.
   */
  predicate WalksPastLastDay(first: int, last: int) {
    first <= LastDay <= last
  }

  /**
   add_availability_range: an absent or malformed date answers 400 with the
   exception's text and changes nothing; so does a range whose walk steps
   past `date.max`, as the rows added to the session are never committed;
   otherwise 201, and for every day of the inclusive range a row with the
   requested flag (true by default) is added exactly when the hotel had no
   row for that day. The hotel id is not checked against the hotel table.
   */
  function AddAvailabilityRange(s: Store, hid: int, start: DateField, end: DateField, flag: Option<bool>): (r: Reply<string>)
    ensures start.Missing? ==> r == Reply(s, 400, Error(KeyErrorText("start_date")))
    ensures start.Malformed? ==> r == Reply(s, 400, Error(start.error))
    ensures start.Date? && end.Missing? ==> r == Reply(s, 400, Error(KeyErrorText("end_date")))
    ensures start.Date? && end.Malformed? ==> r == Reply(s, 400, Error(end.error))
    ensures start.Date? && end.Date? && WalksPastLastDay(start.day, end.day) ==>
      r == Reply(s, 400, Error(DateOverflowMessage))
    ensures r.status == 201 <==> start.Date? && end.Date? && !WalksPastLastDay(start.day, end.day)
    ensures r.status == 201 ==>
      && r.body == Ok(RangeAddedMessage)
      && r.store == s.(availability := r.store.availability)
      && RangeAdded(s.availability, r.store.availability, hid, start.day, end.day, flag.GetOr(true))
    ensures start.Date? && end.Date? && end.day < start.day ==> r == Reply(s, 201, Ok(RangeAddedMessage))
    ensures UniqueAvailabilityKeys(s.availability) ==> UniqueAvailabilityKeys(r.store.availability)
  {
    match start
    case Missing => Reply(s, 400, Error(KeyErrorText("start_date")))
    case Malformed(e) => Reply(s, 400, Error(e))
    case Date(first) =>
      match end
      case Missing => Reply(s, 400, Error(KeyErrorText("end_date")))
      case Malformed(e) => Reply(s, 400, Error(e))
      case Date(last) =>
        if WalksPastLastDay(first, last) then
          // the loop raises before `db.session.commit()`, so nothing is stored
          Reply(s, 400, Error(DateOverflowMessage))
        else
          // `data.get("is_available", True)`
          var f := flag.GetOr(true);
          FillOverRange(s.availability, hid, first, last, f);
          FillKeepsUniqueKeys(s.availability, hid, Search.DateRange(first, last), f);
          Reply(s.(availability := Fill(s.availability, hid, Search.DateRange(first, last), f)),
                201, Ok(RangeAddedMessage))
  }

  /** A range ending on 9999-12-31 is refused with the overflow text and stores nothing, however short. */
  lemma RangeToLastDayRefused(s: Store, hid: int, first: int, flag: Option<bool>)
    requires first <= LastDay
    ensures AddAvailabilityRange(s, hid, Date(first), Date(LastDay), flag) == Reply(s, 400, Error(DateOverflowMessage))
  {
  }

  /** Repeating the request, with any flag, answers alike and changes nothing: rows are never overwritten. */
  lemma AddAvailabilityRangeIdempotent(s: Store, hid: int, start: DateField, end: DateField,
                                       flag: Option<bool>, again: Option<bool>)
    ensures var first := AddAvailabilityRange(s, hid, start, end, flag);
      AddAvailabilityRange(first.store, hid, start, end, again) == first
  {
    var first := AddAvailabilityRange(s, hid, start, end, flag);
    if start.Date? && end.Date? && !WalksPastLastDay(start.day, end.day) {
      var days := Search.DateRange(start.day, end.day);
      forall d | d in days ensures HasRow(first.store.availability, hid, d) {
        DateRangeMembers(start.day, end.day, d);
      }
      FillWhenCovered(first.store.availability, hid, days, again.GetOr(true));
    }
  }

  /**
   After adding a range with the default flag, the hotel passes the search's
   date filter over that range exactly when every day of it that already
   had a row was available: the new rows are available, the old ones stay.
   The range ends before `date.max`, as one reaching it is refused.
   */
  lemma RangeThenDateFilter(s: Store, hid: int, first: int, last: int)
    requires UniqueAvailabilityKeys(s.availability)
    requires first <= last < LastDay
    ensures var rows := AddAvailabilityRange(s, hid, Date(first), Date(last), None).store.availability;
      Search.PassesDateFilter(rows, hid, Search.DateRange(first, last)) <==>
      forall d | first <= d <= last && HasRow(s.availability, hid, d) :: Search.AvailableOn(s.availability, hid, d)
  {
    var before := s.availability;
    var rows := AddAvailabilityRange(s, hid, Date(first), Date(last), None).store.availability;
    assert RangeAdded(before, rows, hid, first, last, true);
    Search.DateFilterMeansEveryDayAvailable(rows, hid, first, last);
    forall d | first <= d <= last
      ensures Search.AvailableOn(rows, hid, d) <==> (HasRow(before, hid, d) ==> Search.AvailableOn(before, hid, d))
    {
      AvailableAfterRange(before, rows, hid, first, last, d);
    }
  }

  /** After adding a range with the default flag, a day of it is available iff it was, or it had no row. */
  lemma AvailableAfterRange(before: seq<Availability>, rows: seq<Availability>, hid: int, first: int, last: int, d: int)
    requires RangeAdded(before, rows, hid, first, last, true)
    requires first <= d <= last
    ensures Search.AvailableOn(rows, hid, d) <==> (HasRow(before, hid, d) ==> Search.AvailableOn(before, hid, d))
  {
    var row := Availability(hid, d, true);
    if row in before {
      var i :| 0 <= i < |before| && before[i] == row;
      assert rows[i] == row;
    }
    if row in rows && HasRow(before, hid, d) {
      var i :| 0 <= i < |rows| && rows[i] == row;
      if i < |before| {
        assert before[i] == row;
      }
    }
  }
}
