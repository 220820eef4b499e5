# Hotel backend: a Dafny model

This project models the core of a Flask hotel-booking backend. It covers:

- the hotel endpoints: search, detail, comments and their averages, adding amenities, adding an availability range;
- the two request guards and token issue;
- the account endpoints: register, password login and Google login.

The database is a `Store` of immutable tables. Each table is a sequence of
records (`models.dfy`). Each handler is a pure function from the store and
the request fields to a reply: the new store, an HTTP status and a payload.

Some parts of the backend cannot be computed here. They become parameters of
the functions that use them:

- token signing and decoding (HS256);
- password hashing and checking;
- Google ID-token verification;
- the clock;
- the caller identity taken from a JWT.

The modules follow the program's files:

| module | models |
|---|---|
| `Models` | the tables of `app/models.py`, the lookups, fresh keys and key invariants |
| `Auth` | `app/utils/auth.py` |
| `Accounts` | `app/routes/auth_routes.py` |
| `Search` | `get_hotels` |
| `Ratings` | `get_hotel_by_id`, `get_comments_by_hotel` |
| `Updates` | `add_amenities_to_hotel`, `add_availability_range` |

In these places the model follows the code as written:

- **A guest count of 0.** The search quotes the base price, because 0 is falsy in Python, rather than multiplying the price by zero.
- **An empty date range.** A search whose end date falls before its start date returns no hotel. The SQL `GROUP BY … HAVING count = 0` subquery yields no hotel ids.
- **Comments that have no ratings.** The comments endpoint divides by zero when a hotel has comments but none of them is rated. The model returns 500 there.
- **Dangling references.** A link to a missing amenity, or a comment by a missing user, is dereferenced as `None` and crashes the handler. The model returns 500 there too.
- **A range reaching 9999-12-31.** The day loop of `add_availability_range` adds one day after each day it visits. After visiting `date.max` that step raises `OverflowError`. The handler catches it and answers 400 "date value out of range". Nothing is stored, because `db.session.commit()` is never reached.
- **No hotel check in `add_availability_range`.** The endpoint does not look the hotel up. Rows are added for any hotel id.
- **The 400 messages of `add_availability_range`.** The message is the text of the caught exception. A missing key gives `'start_date'` or `'end_date'`, the `KeyError` text. A malformed date gives the parser's message, which the model takes as a parameter.

## Model

| member | source | states |
|---|---|---|
| Models.FindUserById | app/models.py:5 | a found user is in the table with that id; a miss means no user has it |
| Models.FindUserByEmail | app/models.py:8 | a found user is in the table with that e-mail; a miss means no user has it |
| Models.FindHotel | app/routes/hotel_routes.py:231-233 | `Hotel.query.get`: a found hotel has the id; a miss means none has it |
| Models.FindAmenityByName | app/routes/hotel_routes.py:553 | `filter_by(name=…).first()`: a found amenity has the name; a miss means none has it |
| Models.FindAmenityById | app/routes/hotel_routes.py:243 | `a.amenity` resolves a link's amenity id to the amenity carrying it, or to nothing |
| Models.FindAmenityByNameExtend | app/routes/hotel_routes.py:553-557 | appending amenities never changes which amenity an existing name resolves to |
| Models.FindAmenityByNameAfterMiss | app/routes/hotel_routes.py:553-557 | an amenity appended under a missing name is what the lookup then finds |
| Models.FindAmenityByIdExtend | app/routes/hotel_routes.py:243 | appending amenities never changes what an existing amenity id resolves to |
| Models.MaxUserId | app/models.py:5 | an upper bound of every user id |
| Models.FreshUserId | app/models.py:5 | the autoincrement key of a new user is positive and differs from every existing id |
| Models.MaxAmenityId | app/models.py:35 | an upper bound of every amenity id |
| Models.FreshAmenityId | app/routes/hotel_routes.py:555-557 | the key the flush assigns to a new amenity is positive and unused |
| Models.FindUserByEmailUnique | app/models.py:8 | under the unique e-mail constraint, looking up a stored user's e-mail finds exactly that user |
| Models.FindUserByIdUnique | app/models.py:5 | under the primary key, looking up a stored user's id finds exactly that user |
| Auth.RemoveAll | app/utils/auth.py:25 | `str.replace(p, "")` for a non-empty pattern never lengthens the text |
| Auth.RemoveAllKeepsPlain | app/utils/auth.py:25 | text without the pattern is left unchanged |
| Auth.RemoveAllAfterPattern | app/utils/auth.py:25 | the pattern followed by pattern-free text yields that text |
| Auth.NotPrefixBeforeOccurrence | app/utils/auth.py:25 | when the pattern's first character does not recur in it, non-empty pattern-free text followed by the pattern does not start with the pattern |
| Auth.RemoveAllInner | app/utils/auth.py:25 | in pattern-free text, then the pattern, then pattern-free text, the inner occurrence is deleted |
| Auth.BearerHeadIsUnique | app/utils/auth.py:25 | the 'B' of "Bearer " occurs in it only at its start |
| Auth.StripBearer | app/utils/auth.py:25 | deleting every "Bearer " never lengthens the header |
| Auth.StripBearerKeepsPlainToken | app/utils/auth.py:25 | a header with no "Bearer " in it passes through unchanged |
| Auth.StripBearerOfHeader | app/utils/auth.py:50 | "Bearer " followed by a plain token yields the token |
| Auth.StripBearerRemovesInnerOccurrence | app/utils/auth.py:50 | an occurrence after other text is deleted too: the replacement is global, not a prefix strip |
| Auth.IssueToken | app/utils/auth.py:8-15 | the claims name the user's id and e-mail and expire 10800 seconds after issue |
| Auth.PresentedToken | app/utils/auth.py:22-25 | a token is presented exactly when an Authorization header is present, and it is the header with every "Bearer " deleted |
| Auth.Identify | app/utils/auth.py:52-63 | no or empty token gives 401 "Token eksik"; an expired token gives 401 "Token süresi dolmuş"; any other decoding failure, or claims without `user_id`, give 401 "Geçersiz token"; the user lookup happens iff the token decodes to claims with a user id, and it looks up that id |
| Auth.TokenRequired | app/utils/auth.py:44-66 | no token gives 401 "Token eksik"; an expired token gives 401 "Token süresi dolmuş"; any other decoding failure or claims without `user_id` give 401 "Geçersiz token"; the handler runs iff the token names an existing user, and runs for that user; 403 "Kullanıcı bulunamadı" iff the token names a user id that is not in the table; only 401 or 403 otherwise |
| Auth.AdminRequired | app/utils/auth.py:19-41 | no token gives 401 "Token eksik"; an expired token gives 401 "Token süresi dolmuş"; any other decoding failure or claims without `user_id` give 401 "Geçersiz token"; the handler runs iff the token names an existing admin; 403 "Bu işlem sadece adminlere açıktır" iff it names a missing user or a non-admin; only 401 or 403 otherwise |
| Auth.AdminAdmittedIsTokenAdmitted | app/utils/auth.py:19-66 | the admin guard admits exactly the requests the user guard admits for an admin, and for the same user |
| Auth.DecodeAt | app/utils/auth.py:31-36 | a reference decoder: claims come back unchanged before expiry, and expiry is reported from then on |
| Auth.IssuedTokenLifetime | app/utils/auth.py:8-15 | a token issued to a stored user and sent as "Bearer <token>" admits that user for three hours, then is refused as expired |
| Accounts.AppendFreshUser | app/models.py:5-8 | appending a user whose e-mail and id are unused keeps e-mails and ids unique |
| Accounts.Register | app/routes/auth_routes.py:47-74 | a missing or empty e-mail or password gives 400; a taken e-mail gives 409; 201 iff both are given and the e-mail is new, in which case exactly one user is appended (hashed password, the defaults for absent fields, not Google, not admin, fresh id) and nothing else changes; the table stays unique |
| Accounts.Login | app/routes/auth_routes.py:104-120 | 200 iff the e-mail names a stored user whose hash accepts the password, and then the session belongs to a stored user with that e-mail; one and the same 401 otherwise |
| Accounts.GoogleLogin | app/routes/auth_routes.py:154-189 | a failed verification or a missing e-mail claim gives 401 and no change; 200 otherwise, for the existing user with that e-mail or for one new Google user with an empty hash; the table stays unique |
| Accounts.RegisterTwiceConflicts | app/routes/auth_routes.py:59-60 | registering a second time with the same e-mail answers 409 and changes nothing |
| Accounts.RegisterThenLogin | app/routes/auth_routes.py:62 | after a registration, a login with the same e-mail and password admits the new user, provided the checker accepts the hash of that password |
| Accounts.GoogleUserCannotPasswordLogin | app/routes/auth_routes.py:164-174 | an account created by Google login cannot pass a password login when the checker rejects an empty hash |
| Accounts.GoogleLoginIdempotent | app/routes/auth_routes.py:164-176 | a second Google login with the same verdict adds no user and gives the same answer |
| Search.LowerAscii | app/routes/hotel_routes.py:91 | an ASCII capital maps to the lower-case letter 32 code points above it; every other character is kept |
| Search.Fold | app/routes/hotel_routes.py:91 | case folding keeps the length and folds each character in its place |
| Search.OccursFolded | app/routes/hotel_routes.py:91 | a literal occurrence is still an occurrence once both sides are folded |
| Search.FoldIdempotent | app/routes/hotel_routes.py:91 | folding twice is folding once |
| Search.LocationMatches | app/routes/hotel_routes.py:91 | `ilike '%city%'`: a location containing the city literally always matches |
| Search.LocationMatchesFolded | app/routes/hotel_routes.py:91 | folding the location or the city first changes no match |
| Search.LocationMatchesIgnoresCase | app/routes/hotel_routes.py:91 | two (location, city) pairs that agree up to ASCII case match alike |
| Search.DateRange | app/routes/hotel_routes.py:94 | the i-th selected date is start + i; there are end - start + 1 dates, or none when end < start |
| Search.CountAvailable | app/routes/hotel_routes.py:96-100 | the count of matching availability rows never exceeds the number of rows |
| Search.CountSplit | app/routes/hotel_routes.py:97 | the count over a date list splits into its first date plus the rest when the first date is not repeated |
| Search.CountOneDay | app/routes/hotel_routes.py:96-100 | under one row per (hotel, date), a single day counts 1 iff the hotel has an available row on it, and never more |
| Search.CountMatchesLengthIff | app/routes/hotel_routes.py:96-101 | over distinct dates and one row per (hotel, date), the count reaches the number of dates iff every date has an available row |
| Search.CountWitness | app/routes/hotel_routes.py:96-100 | a positive count needs a date and an available row of the hotel on one of the dates |
| Search.CountNoDates | app/routes/hotel_routes.py:96-101 | no date counts anything |
| Search.DateFilterMeansEveryDayAvailable | app/routes/hotel_routes.py:93-103 | under one row per (hotel, date), a hotel passes the date filter iff the range is non-empty and every day in it is available |
| Search.CountTestNeedsUniqueKeys | app/routes/hotel_routes.py:96-101 | without that invariant, a duplicated row passes the count test while a day is missing |
| Search.Window | app/routes/hotel_routes.py:93-94 | dates restrict the search only when both are given, and then to the days from start to end |
| Search.PassesDateFilter | app/routes/hotel_routes.py:96-101 | a hotel passing the date filter has a non-empty range and an available row on one of its days |
| Search.Qualifies | app/routes/hotel_routes.py:90-101 | a hotel qualifying under two given dates implies the start is not after the end: an inverted range admits no hotel |
| Search.Candidates | app/routes/hotel_routes.py:88-103 | the candidates are exactly the stored hotels that match the city and date filters, with no hotel gained |
| Search.InsertByRating | app/routes/hotel_routes.py:105 | inserting into a rating-descending list keeps it descending and is a permutation plus the new hotel |
| Search.InsertBehindHead | app/routes/hotel_routes.py:105 | inserting behind a higher-rated head keeps the list descending, adds exactly the new hotel and nothing else |
| Search.ConsSorted | app/routes/hotel_routes.py:105 | a hotel rated at least as high as every hotel of a descending list may head it |
| Search.SortByRating | app/routes/hotel_routes.py:105 | `ORDER BY rating DESC` returns a permutation sorted by descending rating |
| Search.PrefixOfSortedIsTop | app/routes/hotel_routes.py:105 | the first k hotels of a sorted permutation rate at least as high as any hotel left out |
| Search.SuffixBelowPrefix | app/routes/hotel_routes.py:105 | in a descending list, a hotel after position k rates no higher than any of the first k |
| Search.TopRated | app/routes/hotel_routes.py:105 | `LIMIT k`: at most k hotels, all taken from the input, descending, none left out rating higher |
| Search.Summarize | app/routes/hotel_routes.py:109-128 | the total is the price times a given non-zero guest count, else the base price; a member price exists iff the caller is identified and the discount is non-zero, and equals the total less the discount percent; the login prompt appears iff the hotel is flagged and the caller anonymous |
| Search.MemberPriceNeverAboveTotal | app/routes/hotel_routes.py:112-114 | a discount between 0 and 100 gives a member price between 0 and the total |
| Search.TopOfCandidates | app/routes/hotel_routes.py:88-105 | the hotels returned qualify, and no qualifying hotel left out rates above one returned |
| Search.SubMultisetMembers | app/routes/hotel_routes.py:105 | every hotel of a sub-multiset is in the larger list |
| Search.LeftOutBelowKept | app/routes/hotel_routes.py:105 | a candidate missing from the top list rates no higher than any hotel kept |
| Search.Select | app/routes/hotel_routes.py:88-105 | the search returns min(10, number qualifying) qualifying hotels, a sub-multiset of the qualifying ones, best rated first, none left out rating higher |
| Search.SearchHotels | app/routes/hotel_routes.py:73-130 | a malformed date gives 500; otherwise 200 with one priced summary per selected hotel, in order |
| Search.MemberPriceExample | app/routes/hotel_routes.py:112-114 | a 15% discount on a total of 1000 is 850 for a caller who is logged in, and is not offered to an anonymous one |
| Ratings.CommentsOf | app/routes/hotel_routes.py:235 | exactly the comments of the hotel, each as many times as in the table |
| Ratings.Rated | app/routes/hotel_routes.py:382 | exactly the comments that carry a rating, each as many times as in the input |
| Ratings.RatedScoreTotal | app/routes/hotel_routes.py:238 | with no rated comment the score total is 0 |
| Ratings.ScoreTotalOverRated | app/routes/hotel_routes.py:238 | unrated comments add nothing to the score total |
| Ratings.DimensionTotals | app/routes/hotel_routes.py:371-388 | with no rated comment every dimension total is 0 |
| Ratings.TotalsOverRated | app/routes/hotel_routes.py:381-388 | unrated comments add nothing to the dimension totals |
| Ratings.TotalIsSumOfDimensions | app/routes/hotel_routes.py:238 | summing each comment's five scores equals summing the five per-dimension totals |
| Ratings.AmenityNames | app/routes/hotel_routes.py:242-243 | a successful list has no more names than there are links |
| Ratings.LinksOf | app/routes/hotel_routes.py:242 | exactly the links of the hotel, each as many times as in the table |
| Ratings.AllResolveCons | app/routes/hotel_routes.py:243 | the links all resolve iff the first does and the rest do |
| Ratings.NamesFollowCons | app/routes/hotel_routes.py:243 | a resolving link's amenity name in front of names that follow the other links follows the longer link list |
| Ratings.AmenityNamesFollowLinks | app/routes/hotel_routes.py:242-243 | the name list exists iff every link of the hotel resolves, and then it holds one name per link, in order, each being that link's amenity name |
| Ratings.BlendedAverage | app/routes/hotel_routes.py:236-240 | an average exists iff there are comments and the rated score total is non-zero; it times five per comment (rated or not) gives that total |
| Ratings.HotelDetail | app/routes/hotel_routes.py:230-259 | an unknown hotel gives 404; 200 iff the hotel exists and every link of it resolves; 500 iff the hotel exists and a link dangles; on 200 the hotel, its comment count, the blended average and the resolved amenity names |
| Ratings.Views | app/routes/hotel_routes.py:390-401 | the list exists iff every rated comment's author is a stored user; then one view per rated comment, in order, with that comment's text, time and scores and its author's first and last name |
| Ratings.AuthorsKnownCons | app/routes/hotel_routes.py:391 | every author is known iff the first comment's is and the rest's are |
| Ratings.ViewsCarryRatings | app/routes/hotel_routes.py:394-400 | each view carries the scores of the comment it stands for |
| Ratings.HotelComments | app/routes/hotel_routes.py:366-408 | no comments gives 200 with no averages; comments with none rated give 500; 200 iff there are no comments, or some are rated and every rated comment's author is stored; on 200 the list is the views of the rated comments, each dimension average is that dimension's total over the number of rated comments, and each view carries that comment's scores |
| Ratings.Scale | app/routes/hotel_routes.py:403 | each dimension average times the count is that dimension's total |
| Ratings.ScaleScoreSum | app/routes/hotel_routes.py:403 | the five averages sum to the score total divided by the count |
| Ratings.BlendedNumerator | app/routes/hotel_routes.py:238 | the detail average is the sum of the five per-dimension totals over five per comment, and exists iff that sum is non-zero |
| Ratings.MeanZeroIffTotalZero | app/routes/hotel_routes.py:403 | the mean of the five averages is zero iff the score total is zero |
| Ratings.MeanOfAllRated | app/routes/hotel_routes.py:403 | the mean of the five averages is the score total over five per rated comment |
| Ratings.BlendedAverageVersusDimensionAverages | app/routes/hotel_routes.py:238 | when both endpoints answer 200 for a hotel with comments, the detail endpoint has an average iff the mean of the comments endpoint's five averages is non-zero; when every comment is rated the two are equal |
| Updates.LinkAmenity | app/routes/hotel_routes.py:551-561 | one name: only amenities and links grow, by appending, at most one row each; afterwards the name is linked to the hotel; a new amenity carries the name, which was missing before; a new link joins the hotel to the amenity the name now resolves to; an already linked name changes nothing |
| Updates.ExtendsTransitive | app/routes/hotel_routes.py:551-561 | growing by appends composes over the loop |
| Updates.LinkedStable | app/routes/hotel_routes.py:551-561 | a linked name stays linked as the tables grow |
| Updates.LinkAll | app/routes/hotel_routes.py:551-561 | the loop only appends amenities and links; no name changes nothing |
| Updates.LinkAllExtends | app/routes/hotel_routes.py:551-561 | the loop only appends amenities and links, and every new link belongs to the hotel |
| Updates.LinkAllNewLinks | app/routes/hotel_routes.py:551-561 | every link the loop appends joins the hotel to the amenity a listed name resolves to |
| Updates.FirstPassLinkListed | app/routes/hotel_routes.py:559-561 | the link the first pass appends stays a link for the first name as the tables grow |
| Updates.ListedLinkPersists | app/routes/hotel_routes.py:553-561 | a link to a listed name's amenity stays one as the tables grow |
| Updates.ListedNameWiden | app/routes/hotel_routes.py:551 | a link for one of the later names is a link for one of all the names |
| Updates.LinkAllLinksEvery | app/routes/hotel_routes.py:551-561 | after the loop, every listed name is linked to the hotel |
| Updates.LinkAllNewAmenities | app/routes/hotel_routes.py:553-557 | every amenity the loop creates has a listed name that had no amenity before |
| Updates.NewNameAbsentBefore | app/routes/hotel_routes.py:553-557 | a name missing from the grown table was missing before |
| Updates.LinkAllWhenLinked | app/routes/hotel_routes.py:559-561 | when every name is already linked the loop changes nothing |
| Updates.LinkAllKeepsKeys | app/routes/hotel_routes.py:551-561 | the loop keeps links unique and amenity names and ids unique |
| Updates.LinkAmenityKeepsKeys | app/routes/hotel_routes.py:551-561 | one step keeps links unique and amenity names and ids unique |
| Updates.AppendAbsentLink | app/routes/hotel_routes.py:559-561 | appending a link that is not yet present keeps links unique |
| Updates.AppendFreshAmenity | app/routes/hotel_routes.py:555-557 | appending an amenity with a fresh id and an unused name keeps names and ids unique |
| Updates.AddAmenities | app/routes/hotel_routes.py:541-564 | 404 with no change iff the hotel is unknown; otherwise 201, only appends, every listed name linked to the hotel, each new link joins the hotel to the amenity a listed name resolves to, new amenities listed and previously missing; key invariants kept |
| Updates.AddAmenitiesIdempotent | app/routes/hotel_routes.py:541-564 | posting the same list twice gives the same answer and leaves the store as after the first |
| Updates.AddAmenitiesLeavesOtherHotels | app/routes/hotel_routes.py:560-561 | the links of every other hotel are unchanged |
| Updates.AddAmenitiesLinksOnce | app/routes/hotel_routes.py:560-561 | with unique links beforehand, each listed amenity is linked to the hotel by exactly one row |
| Updates.UniqueLinkOnce | app/routes/hotel_routes.py:559-561 | a link present among unique links occurs at exactly one index |
| Updates.Fill | app/routes/hotel_routes.py:608-618 | the existing rows are kept as a prefix |
| Updates.HasRowGrows | app/routes/hotel_routes.py:608-618 | a (hotel, date) that has a row keeps it as rows are appended |
| Updates.FillEffect | app/routes/hotel_routes.py:608-618 | every day gets a row; each new row is for the hotel with the flag, on a listed day that had no row before |
| Updates.FillWhenCovered | app/routes/hotel_routes.py:610-611 | when every day already has a row nothing is added |
| Updates.FillKeepsUniqueKeys | app/routes/hotel_routes.py:610-617 | one row per (hotel, date) is preserved |
| Updates.DateRangeMembers | app/routes/hotel_routes.py:608-609 | a day is walked by the loop iff it lies between start and end inclusive |
| Updates.FillOverRange | app/routes/hotel_routes.py:608-618 | over the range: the old rows kept, every day covered, each missing day given the flag, no new row outside the range or on a day that had one |
| Updates.AddAvailabilityRange | app/routes/hotel_routes.py:599-624 | a missing or malformed start, then end, gives 400 with the exception text and no change; a range whose walk reaches 9999-12-31 gives 400 "date value out of range" and no change; 201 iff both dates parse and the walk stays before that day, with only availability changed and the range filled with the given flag, default true; an inverted range changes nothing; one row per (hotel, date) kept |
| Updates.RangeToLastDayRefused | app/routes/hotel_routes.py:608-624 | a range ending on 9999-12-31 answers 400 "date value out of range" and stores nothing |
| Updates.AddAvailabilityRangeIdempotent | app/routes/hotel_routes.py:608-618 | repeating the request, with any flag, gives the same answer and changes nothing more |
| Updates.RangeThenDateFilter | app/routes/hotel_routes.py:93-103 | after adding a range that ends before 9999-12-31 with the default flag, the hotel passes the search's date filter over it iff every day that already had a row was available |
| Updates.AvailableAfterRange | app/routes/hotel_routes.py:608-618 | after adding a range with the default flag, a day of it is available iff it was, or it had no row |

Ratings.ScoreSumAdd and Ratings.DivThenMul are arithmetic helpers about sums of reals, used by the averages proofs; they model nothing of the source and have no row.

## Left out

- Floating point: prices, ratings and scores are reals. The `round(…, 2)` / `round(…, 1)` / `round(…)` of the JSON answers is not modelled (the contracts state the unrounded values).
- Search.Summarize: states the member price before `round`, so it is weaker than the integer the source returns.
- Ratings.HotelDetail: states the average before `round(…, 2)`.
- Ratings.HotelComments: states the averages before `round(…, 1)`.
- Ratings.BlendedAverageVersusDimensionAverages: relates the two endpoints' averages through the score total and gives the equality only when every comment is rated; with unrated comments it states only when each side is zero, not the product relation between them.
- `strptime` and calendar dates: days are integers, numbered as `date.toordinal()` does, and 9999-12-31 is `LastDay`. The parser never yields a day outside 1..LastDay, and the model does not constrain the `Date` fields to that range; a malformed search date is `BadDate` (500), a malformed range date carries its parser message as a parameter.
- `ilike`: only ASCII case folding is modelled; Unicode folding and the `%` / `_` wildcards a city may contain are not.
- SQL tie order among equally rated hotels is unspecified in the source; the model picks one order.
- NULL columns (a NULL rating, price or discount) and a missing JSON body are not modelled.
- Updates.AddAmenities: the input is the sequence of names the loop walks. An absent key is the empty list. A string or an object is walked by character or by key, so such a body is the sequence of its characters or keys, with one amenity found or created and linked per element. A JSON `null` (iteration raises `TypeError`, 500) and non-string elements are not modelled.
- Updates.AddAvailabilityRange: the foreign-key failure the database would raise at commit for an unknown hotel id is not modelled; rows are added for any id.
- Accounts.Login: a missing password (werkzeug raises inside the hash check) is not modelled; the password is a string.
- Accounts.Register: a JSON `null` for an optional field is not told apart from an absent key.
- HS256 signing and decoding, password hashing and checking, and Google token verification are oracles; the flask_jwt_extended identity is an `Option<int>` input.
- `post_comment`, `get_available_weekend_hotels`, `add_hotel`, `get_amenities`, the Swagger specs, CORS and the application factory are not part of this model.
- Concurrency: two simultaneous requests (a race between the existence check and the insert) are not modelled; each handler is one atomic step.
