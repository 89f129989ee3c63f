# GourmetMaps storage, HTTP and client-rule model

A Dafny model of the core of GourmetMaps, a restaurant discovery application
for one city. Users list and search restaurants, read a restaurant with its
reviews and menu, write and edit reviews keyed by an anonymous user cookie,
and bookmark restaurants. The model covers:

- **The record shapes** (`schema.dfy`): restaurants, reviews, bookmarks and menu
  items, with their nullable columns and defaults. It also covers the insert shapes
  and partial updates (patches), and the `RestaurantWithStats` /
  `RestaurantWithDetails` read shapes.
- **The relational backend** (`drizzle_storage.dfy`, `DrizzleStorage`): four tables
  plus their `serial` sequences. Each query is a pure function from the
  database to a (result, new database) pair. Reads are specified by what
  they select (multisets and membership), not by how the rows are found.
  The module covers:
  - the aggregated listing with its genre and search filters;
  - the detail read with its rounded average;
  - review update and delete keyed by id *and* owner cookie;
  - bookmarks keyed by the (restaurant, cookie) pair;
  - the popular-menu read.
- **The in-memory backend** (`mem_storage.dfy`, `MemStorage`). It has one `nextId`
  counter shared by all four lists, real restaurant create/update/delete,
  append-only creates for the other kinds, and constant stubs for everything
  else. It is modelled as its own implementation; it is not a refinement of
  the relational one.
- **The HTTP handlers** (`api.dfy`, `Api`), in three parts:
  - `Route` is the token gate and request parsing before the storage call;
  - `Finish` maps the storage result or exception to status and body;
  - `Serve` composes the two around the relational backend.
- **Client rules**:
  - the review dialog's validation and PUT/POST choice (`review_modal.dfy`);
  - the star row's full/half/empty classification (`rating_stars.dfy`);
  - the card's hour-of-day status badge and bookmark toggle (`restaurant_card.dfy`).

Shared helpers:
- `seqs.dfy`: order-preserving filter, first-match search and key uniqueness.
- `text.dfy`: substring matching, the meaning of `LIKE '%term%'`.
- `stats.dfy`: exact mean and `toFixed(1)` rounding on reals.
- `wrappers.dfy`: `Option`.

Modelling choices:
- Timestamps are an `int` supplied by the caller (the clock is a parameter).
- SQL `lower()` is an uninterpreted `lower: string -> string` parameter.
- The current hour is a parameter of the status badge.
- SQL NULL is `None`.

## Model

| member | source | states |
|---|---|---|
| Schema.RestaurantPatchLaws | shared/schema.ts:5-20 | a restaurant update never changes `id` or `createdAt`; the empty patch changes nothing; applying a patch twice equals applying it once |
| Schema.ReviewPatchLaws | shared/schema.ts:22-30 | an update by the typed `Partial<InsertReview>` keeps `id` and `createdAt`; the empty patch is the identity; patches are idempotent |
| Schema.MenuItemPatchLaws | shared/schema.ts:39-47 | a menu-item update keeps `id`; the empty patch is the identity; patches are idempotent |
| DrizzleStorage.EmptyDbValid | shared/schema.ts:5-47 | a fresh database (sequences at 1) has unique primary keys, each below its sequence's next value |
| DrizzleStorage.ValidSerialsAreFree | shared/schema.ts:22-47 | in a valid database the value each `serial` sequence hands out next is the key of no stored review, bookmark or menu item, so an insert under it passes the primary key |
| DrizzleStorage.FindRestaurant | server/DrizzleStorage.ts:66-74 | the primary-key lookup is none iff no row has the id, otherwise a stored row with that id |
| DrizzleStorage.FindRestaurantUnique | server/DrizzleStorage.ts:66-74 | with unique ids the lookup returns exactly the row carrying the id |
| DrizzleStorage.ReviewsFor | server/DrizzleStorage.ts:68-71 | the reviews loaded with a restaurant are exactly (as a multiset) the stored reviews with that restaurantId |
| DrizzleStorage.MenuItemsFor | server/DrizzleStorage.ts:68-71 | the loaded menu items are exactly the stored items with that restaurantId |
| DrizzleStorage.WithSqlStatsAll | server/DrizzleStorage.ts:23-42 | one grouped row per restaurant, in order, showing the restaurant without `isOpen` (the SELECT leaves `is_open` out); each row's `reviewCount` is its number of reviews; `avg` is NULL iff there are none, otherwise the unrounded mean; `distance`/`isBookmarked` are absent |
| DrizzleStorage.GetRestaurants | server/DrizzleStorage.ts:22-63 | the listing, with the search as written: a stored restaurant is listed (without `isOpen`) iff it passes the genre condition and the all-three-fields search condition, and every row shows such a restaurant; rows carry unrounded SQL statistics |
| DrizzleStorage.UnfilteredListsEverything | server/DrizzleStorage.ts:44-62 | with no genre (or "all") and no search, every restaurant is listed, without `isOpen`, in table order |
| DrizzleStorage.GenreFilterIsExact | server/DrizzleStorage.ts:45-47 | an active genre filter alone keeps exactly the restaurants whose genre equals it (case-sensitive) |
| DrizzleStorage.SearchNeedsAllThreeFields | server/DrizzleStorage.ts:49-55 | as written, a search keeps a restaurant iff the lower-cased term occurs in its name and its (non-null) description and its genre |
| DrizzleStorage.NullDescriptionNeverMatches | server/DrizzleStorage.ts:53 | as written, a restaurant with a NULL description never matches a non-empty search |
| DrizzleStorage.GetRestaurantsAnyField | server/DrizzleStorage.ts:22-63 | the listing with the intended search: a stored restaurant is listed iff it passes the genre condition and the term occurs in at least one field, and every row shows such a restaurant |
| DrizzleStorage.SearchMatchesAnyField | server/DrizzleStorage.ts:49-55 | with the intended search, a restaurant is listed iff the lower-cased term occurs in its name, its non-null description or its genre |
| DrizzleStorage.AllFieldsListingIsNarrower | server/DrizzleStorage.ts:49-55 | every restaurant listed by the as-written search is also listed by the intended one |
| DrizzleStorage.AllFieldsSearchMissesNameMatch | server/DrizzleStorage.ts:51-55 | a concrete restaurant matching the term in name and genre is missing from the as-written search but present in the intended one |
| DrizzleStorage.GetRestaurant | server/DrizzleStorage.ts:65-86 | none iff no restaurant has the id; otherwise that restaurant with exactly its reviews and menu items, `reviewCount` = number of reviews, and `averageRating` the mean rounded to one decimal (0 when there are none) |
| DrizzleStorage.GetRestaurantFindsTheRow | server/DrizzleStorage.ts:66-74 | in a valid database the detail read of a stored restaurant's id returns that restaurant |
| DrizzleStorage.GetRestaurantRatingWithin | server/DrizzleStorage.ts:76-83 | if every review's rating lies in [lo, hi], the rounded average also lies in [lo, hi] |
| DrizzleStorage.NoReviewsReadsAsZero | server/DrizzleStorage.ts:77-79 | a restaurant without reviews reads back with average 0 and count 0 |
| DrizzleStorage.MesoScenario | server/DrizzleStorage.ts:76-85 | ratings 5 and 4 read back as average 4.5 with count 2 |
| DrizzleStorage.CreateRestaurant | server/DrizzleStorage.ts:88-91 | the new row takes the next serial id and `createdAt` = now, stores the insert with `isOpen` defaulting to true, is appended, and keeps the database valid |
| DrizzleStorage.UpdateRestaurant | server/DrizzleStorage.ts:93-96 | none and no change iff no row has the id; otherwise only the rows with that id are patched, every other row and table is untouched, validity is kept |
| DrizzleStorage.DeleteRestaurant | server/DrizzleStorage.ts:98-101 | the NO ACTION foreign keys refuse the delete (nothing changes) iff the restaurant exists and a review, bookmark or menu item refers to it; otherwise true iff a row had the id, afterwards no row has it, every other row keeps its multiplicity, nothing cascades, and the foreign keys still hold |
| DrizzleStorage.GetReviewsByRestaurant | server/DrizzleStorage.ts:103-107 | exactly the stored reviews with that restaurantId |
| DrizzleStorage.GetReviewsByUser | server/DrizzleStorage.ts:109-113 | exactly the stored reviews with that userCookie |
| DrizzleStorage.CreateReview | server/DrizzleStorage.ts:115-118 | the stored review is the insert with the next serial id and `createdAt` = now, appended; validity is kept |
| DrizzleStorage.UpdateReview | server/DrizzleStorage.ts:120-123 | the typed update: none and no change iff no review has both the id and the cookie; only the matching review is patched, keeping its id; all others are untouched |
| DrizzleStorage.UpdateReviewColumns | server/DrizzleStorage.ts:120-123 | `.set()` with every column the body names: none and no change iff no review has both the id and the cookie; the matching review takes the patch, the body's `id` and a null `createdAt`; validity is kept when the body names no `id` |
| DrizzleStorage.UpdateByAnotherCookieFails | server/DrizzleStorage.ts:120-123 | a cookie other than the owner's can never update a stored review, and the database is unchanged |
| DrizzleStorage.DeleteReview | server/DrizzleStorage.ts:125-128 | true iff a review had both the id and the cookie; exactly the matching reviews are removed |
| DrizzleStorage.DeleteReviewWithoutMatchChangesNothing | server/DrizzleStorage.ts:125-128 | a delete that matches nothing leaves the database exactly as it was |
| DrizzleStorage.BookmarksWithPair | server/DrizzleStorage.ts:170-177 | the bookmarks selected by the (restaurantId, userCookie) pair are exactly those stored with that pair |
| DrizzleStorage.IsBookmarked | server/DrizzleStorage.ts:175-180 | true iff some stored bookmark has the pair |
| DrizzleStorage.CreateBookmark | server/DrizzleStorage.ts:165-168 | always appends a new bookmark with the next serial id, even when the pair already exists |
| DrizzleStorage.DeleteBookmark | server/DrizzleStorage.ts:170-173 | true iff the pair was bookmarked; every bookmark with the pair is removed and all other bookmarks are kept |
| DrizzleStorage.CreateThenIsBookmarked | server/DrizzleStorage.ts:165-180 | after a create the pair reads as bookmarked |
| DrizzleStorage.CreateTwiceStoresTwo | server/DrizzleStorage.ts:165-168 | creating the same pair twice stores two more bookmarks with it (no de-duplication) |
| DrizzleStorage.CreateThenDeleteRoundTrip | server/DrizzleStorage.ts:165-180 | delete after create reports true and leaves the pair not bookmarked |
| DrizzleStorage.BookmarkedIds | server/DrizzleStorage.ts:131-134 | an id is among the user's bookmarked ids iff some bookmark of that user names it |
| DrizzleStorage.GetBookmarksByUser | server/DrizzleStorage.ts:130-163 | empty when the user has no bookmarks; otherwise a stored restaurant is listed (without `isOpen`) iff some bookmark of the user names it, and every row shows such a restaurant; rows carry SQL statistics |
| DrizzleStorage.BookmarkListHasNoDuplicates | server/DrizzleStorage.ts:157-160 | each restaurant is listed once however many bookmarks name it |
| DrizzleStorage.DanglingBookmarkIsDropped | server/DrizzleStorage.ts:157-159 | a bookmark naming a missing restaurant contributes no row |
| DrizzleStorage.GetMenuItemsByRestaurant | server/DrizzleStorage.ts:182-186 | exactly the stored menu items with that restaurantId |
| DrizzleStorage.RestaurantNameFor | server/DrizzleStorage.ts:198 | the parent's name, or "Unknown Restaurant" when there is no parent (or its name is empty) |
| DrizzleStorage.PopularMenuItems | server/DrizzleStorage.ts:189-190 | exactly the items whose `isPopular` is true; a NULL flag is not popular |
| DrizzleStorage.GetPopularMenuItems | server/DrizzleStorage.ts:188-200 | the items flagged popular, each paired with its parent's name or "Unknown Restaurant" |
| DrizzleStorage.PopularItemNamesItsParent | server/DrizzleStorage.ts:198 | with unique ids, an item whose parent exists with a non-empty name carries that name |
| DrizzleStorage.CreateMenuItem | server/DrizzleStorage.ts:202-205 | the item takes the next serial id, `isPopular` defaults to false, it is appended and validity is kept |
| DrizzleStorage.CreateMenuItemWithId | api/index.ts:213-214 | an item whose values name `id` is stored under that key without drawing the sequence, and a valid database stays valid iff the key is free and below the sequence |
| DrizzleStorage.UpdateMenuItem | server/DrizzleStorage.ts:207-210 | none and no change iff no item has the id; only that item is patched |
| DrizzleStorage.DeleteMenuItem | server/DrizzleStorage.ts:212-215 | true iff an item had the id; afterwards none has it and all others keep their multiplicity |
| DrizzleStorage.CreateReviewKeepsReferences | shared/schema.ts:22-30 | a review for a stored restaurant leaves every reference pointing at a stored restaurant |
| DrizzleStorage.UpdateReviewKeepsReferences | shared/schema.ts:22-30 | an update that moves reviews only to a stored restaurant keeps the foreign keys |
| DrizzleStorage.DeleteReviewKeepsReferences | shared/schema.ts:22-30 | deleting reviews keeps the foreign keys |
| DrizzleStorage.CreateBookmarkKeepsReferences | shared/schema.ts:32-37 | a bookmark of a stored restaurant keeps the foreign keys |
| DrizzleStorage.DeleteBookmarkKeepsReferences | shared/schema.ts:32-37 | deleting bookmarks keeps the foreign keys |
| DrizzleStorage.CreateMenuItemKeepsReferences | shared/schema.ts:39-47 | a menu item of a stored restaurant keeps the foreign keys |
| MemStorage.EmptyMemValid | server/MemStorage.ts:16-20 | the initial store (empty lists, counter at 1) has unique ids, all below the counter |
| MemStorage.FreshIdKeepsValid | server/MemStorage.ts:20 | adding the counter's value as an id and advancing the counter keeps every id unique across all four lists |
| MemStorage.GetRestaurants | server/MemStorage.ts:22-25 | every restaurant, in insertion order, with average 0, count 0 and `isOpen` true |
| MemStorage.GetRestaurantsIgnoresFilters | server/MemStorage.ts:22-25 | the result does not depend on the filters |
| MemStorage.GetRestaurant | server/MemStorage.ts:27-31 | none iff the id is absent; otherwise that restaurant with `isOpen` true, no reviews, no menu items and zero statistics |
| MemStorage.CreateRestaurant | server/MemStorage.ts:33-37 | the id is the counter's value, `createdAt` = now, `hours`/`priceRange` become "" and `features` empty; appended; counter advanced; ids stay unique |
| MemStorage.UpdateRestaurant | server/MemStorage.ts:39-44 | none and no change iff the id is absent; otherwise only the first matching restaurant is merged with the patch; ids unchanged |
| MemStorage.DeleteRestaurant | server/MemStorage.ts:46-51 | false and no change iff the id is absent; otherwise exactly the first match is removed, the rest keep their order, nothing cascades |
| MemStorage.ShrinkingKeepsValid | server/MemStorage.ts:49 | removing records never breaks id uniqueness |
| MemStorage.DeleteRestaurantKeepsValid | server/MemStorage.ts:46-51 | a delete keeps ids unique and below the counter |
| MemStorage.UpdateRestaurantKeepsValid | server/MemStorage.ts:39-44 | an update keeps ids unique and below the counter |
| MemStorage.CreateReview | server/MemStorage.ts:56-60 | the review takes the counter's id and `createdAt` = now, only the review list grows, ids stay unique |
| MemStorage.CreateBookmark | server/MemStorage.ts:64-68 | the bookmark takes the counter's id with no `createdAt`, only the bookmark list grows, ids stay unique |
| MemStorage.CreateMenuItem | server/MemStorage.ts:73-77 | the item takes the counter's id, only the menu list grows, ids stay unique |
| MemStorage.SharedCounterIds | server/MemStorage.ts:20-77 | creates of different kinds draw strictly increasing ids from one counter, and no new id is already in use |
| MemStorage.CreatedReviewIsInvisible | server/MemStorage.ts:27-62 | a created review never shows in the detail read or by-restaurant list, and its owner can neither update nor delete it; state is unchanged by those stubs |
| MemStorage.CreatedBookmarkIsInvisible | server/MemStorage.ts:63-70 | a created bookmark is stored but the pair reads as not bookmarked, the user's list is empty, and delete reports false without changing state |
| Api.UserCookie | api/index.ts:45-48 | the header token counts only when present and non-empty |
| Api.Route | api/index.ts:43-237 | review and bookmark routes answer 400 "User cookie required" without a token; menu-item and restaurant creation answer 401; the header token overrides the body's `userCookie`; the path id overrides the body's `restaurantId`; restaurant creation never reaches 201 |
| Api.Finish | api/index.ts:28-221 | exceptions give 400 or 500; unknown restaurant and unmatched review update/delete give 404; review delete gives `{success: true}`; bookmark delete gives `{success}` with the storage flag; the check route gives `{isBookmarked}`; menu-item creation gives 201 |
| Api.Execute | shared/schema.ts:22-47 | a storage call throws iff its statement is refused: a value that does not bind (outside the 32-bit `integer` range, or unreadable), a `restaurant_id` naming no restaurant on a written row, an insert whose key (the body's `id` or the sequence's next value) is already stored, a PUT body with a string `createdAt` or re-keying onto a taken id, or a NULL in a NOT NULL column of a menu item; a refused call writes no row, and once its values have bound an insert that defaults its key has drawn the sequence, whether it then succeeds or fails |
| Api.ExecuteKeepsReferences | shared/schema.ts:22-47 | no storage call the database accepts leaves a review, bookmark or menu item pointing at a missing restaurant |
| Api.ServeKeepsReferences | shared/schema.ts:22-47 | if the foreign keys hold before a request they hold after it |
| Api.MissingTokenLeavesStoreAlone | api/index.ts:43-237 | without a token a gated route answers 400 (or 401) before any storage call, so the database is unchanged |
| Api.ForeignTokenCannotUpdateReview | api/index.ts:78-95 | PUT of a stored review with another user's token changes nothing and answers 404, or 400 when the body has an out-of-range integer or a string `createdAt` |
| Api.OwnerPutAppliesPatch | api/index.ts:78-95 | the owner's PUT with only insert fields, in range and naming a stored restaurant, answers 200 and updates exactly as the typed update does |
| Api.PutWithBodyIdRekeysReview | api/index.ts:86 | as written, a PUT body with `id` 2 turns review 1 into review 2, the id the sequence hands out next, so the key invariant breaks and /api/reviews/1 then answers 404 |
| Api.RekeyedIdCollidesWithNextPost | api/index.ts:50-59 | after that re-key the next POST /api/reviews draws the re-keyed id, meets the primary key and is answered 400 "Invalid review data"; the value stays drawn, so the POST after it is stored as review 3 |
| Api.MenuItemBodyIdTakesTheNextKey | api/index.ts:213-214 | as written, a menu-item body with `id` 1 is stored as item 1 without drawing the sequence, breaking the key invariant; the next POST without `id` draws 1, collides and is answered 400, and the one after it is stored as item 2 |
| Api.PostedReviewBelongsToHeaderToken | api/index.ts:43-61 | in a valid database, a parsable review for a stored restaurant with in-range integers is stored, answered 200, and owned by the header's token whatever the body claims |
| Api.PostedReviewNeedsItsRestaurant | api/index.ts:43-61 | a parsable review is answered 200 iff its integers fit 32 bits, its restaurant exists and the id the review sequence hands out is free; otherwise 400 "Invalid review data", no review is stored, and the sequence has advanced by one unless a value failed to bind |
| Api.ServeCheckBookmark | api/index.ts:168-182 | the check route answers 200 `{isBookmarked}` with the stored pair's status (500 for an id outside 32 bits) and changes nothing |
| Api.ServeDeleteBookmark | api/index.ts:152-166 | the delete route removes the pair and answers 200 `{success}` telling whether it was bookmarked; an id outside 32 bits is a 500 that removes nothing |
| Api.ServePostBookmark | api/index.ts:132-150 | a bookmark post for a stored restaurant with an in-range id, when the bookmark sequence's next id is free, stores the pair for the header's token and answers 200; otherwise 400 "Invalid bookmark data", nothing is stored, and an in-range id has still drawn the sequence |
| Api.BookmarkRoundTripOverHttp | api/index.ts:132-182 | in a valid database, for a stored restaurant: post, check (true), delete (success true), check (false) |
| Api.DeletingAbsentBookmarkIsStill200 | api/index.ts:160-161 | deleting a pair that is not bookmarked still answers 200, with `success` false (500 only for an id outside 32 bits) |
| Api.PostRestaurantNeverCreates | api/index.ts:223-237 | restaurant creation answers 401 or 400 and never changes the database |
| Api.ShowRestaurant404IffAbsent | api/index.ts:28-40 | the detail route answers 404 iff the id fits 32 bits and no restaurant has it |
| RatingStars.Classify | client/src/components/rating-stars.tsx:27-30 | star i is full iff rating ≥ i+1, half iff i+0.5 ≤ rating < i+1, otherwise empty |
| RatingStars.StarCount | client/src/components/rating-stars.tsx:13-60 | 5 stars by default, `maxRating` otherwise, none for a negative value |
| RatingStars.Render | client/src/components/rating-stars.tsx:56-60 | the row has `StarCount` stars and star i is classified against the rating |
| RatingStars.RowShape | client/src/components/rating-stars.tsx:27-31 | full stars form a prefix, at most one half star follows it directly, and the rest are empty |
| RatingStars.FullCountIsFloor | client/src/components/rating-stars.tsx:27-60 | the number of full stars is floor(rating) clamped to [0, row length] |
| RatingStars.Click | client/src/components/rating-stars.tsx:36-37 | clicking star i reports i+1, and only when the row is interactive |
| RatingStars.ClickedRatingFillsUpToStar | client/src/components/rating-stars.tsx:29-37 | after clicking star i the row shows stars 0..i full and no half star |
| ReviewModal.InitialRating | client/src/components/review-modal.tsx:45 | the starting rating is the existing review's, or 0 |
| ReviewModal.Open | client/src/components/review-modal.tsx:45-66 | the fresh dialog's rating state and form field agree; a new review starts with rating 0, outside the schema's [1, 5], and an invalid form |
| ReviewModal.RatingChanged | client/src/components/review-modal.tsx:121-124 | a star pick sets both the rating state and the form field, leaving the text fields alone |
| ReviewModal.Typed | client/src/components/review-modal.tsx:161-181 | typing sets nickname and comment and keeps state and form in agreement |
| ReviewModal.Close | client/src/components/review-modal.tsx:126-130 | closing returns the dialog to its freshly opened state |
| ReviewModal.Submit | client/src/components/review-modal.tsx:68-119 | a request is sent iff the form is valid and a cookie exists; the body's rating is the rating state; PUT to the review's path for an existing review, POST to the collection otherwise |
| ReviewModal.NewReviewNeedsAStar | client/src/components/review-modal.tsx:16-66 | whatever is typed into the nickname and comment fields, a new review is not submitted before a star is picked; with a star in [1, 5], both fields filled and a cookie it is |
| ReviewModal.SentRatingWasValidated | client/src/components/review-modal.tsx:103-119 | while state and form agree, the rating sent lies in [1, 5] |
| ReviewModal.ClickedStarSubmits | client/src/components/review-modal.tsx:113-124 | picking star i of five and filling the text fields submits rating i+1, which the server's review schema accepts |
| ReviewModal.AsRequestBody | client/src/components/review-modal.tsx:113-118 | the body `{...data, rating}` carries no `userCookie`, and under any header token the server's review schema parses it into exactly the dialog's restaurant, nickname, whole-number rating and comment |
| RestaurantCard.StatusAt | client/src/components/restaurant-card.tsx:65-77 | closed iff hour ≥ 22 or hour < 8; open iff 17 ≤ hour < 22; "opens at 17:00" iff 8 ≤ hour < 17 |
| RestaurantCard.HoursShowingFollowsBands | client/src/components/restaurant-card.tsx:65-77 | counted hour by hour over the first n hours, each badge shows exactly on its clock band: "17:00開店" on [8, 17), "営業中" on [17, 22), "閉店" on [0, 8) and [22, 24) |
| RestaurantCard.DayShowsTenNineFive | client/src/components/restaurant-card.tsx:65-77 | over a day the badge reads closed for 10 hours, open for 5 and "opens at 17:00" for 9, under three distinct labels; the badge reads only the hour |
| RestaurantCard.Mount | client/src/components/restaurant-card.tsx:21 | the heart starts filled iff the row says `isBookmarked` true |
| RestaurantCard.Toggle | client/src/components/restaurant-card.tsx:26-62 | without a cookie nothing is sent; otherwise the request asks for the negation of the current state, POST to add and DELETE to remove |
| RestaurantCard.Succeeded | client/src/components/restaurant-card.tsx:34-35 | on success the heart takes the requested value |
| RestaurantCard.Settle | client/src/components/restaurant-card.tsx:34-49 | a 2xx answer applies `onSuccess`; any other answer leaves the heart as it was |
| RestaurantCard.ToggleKeepsCardInStep | client/src/components/restaurant-card.tsx:26-62 | if the heart matched the database, after a toggle served over HTTP settles the heart matches the database again; the answer is 200 iff the id fits 32 bits and, for an add, the restaurant exists and the bookmark sequence's next id is free |
| Stats.ToFixed1 | server/DrizzleStorage.ts:83 | `Number(x.toFixed(1))` is a multiple of 0.1 within 0.05 of x, with ties rounded away from zero |
| Stats.AverageRating | server/DrizzleStorage.ts:76-83 | 0 without ratings; otherwise a multiple of 0.1 within 0.05 of the exact mean, ties rounded away from zero |
| Stats.AverageRatingWithin | server/DrizzleStorage.ts:76-83 | integer ratings in [lo, hi] give a rounded average in [lo, hi] |
| Stats.AverageOfFiveAndFour | server/DrizzleStorage.ts:76-83 | ratings 5 and 4 average to 4.5 |
| Text.ContainsAtOffset | server/DrizzleStorage.ts:50-54 | `LIKE '%term%'` matching agrees with "some offset of the text starts with the term" |

## Behaviour modelled as the code does it

The application's stated intent differs from its code in several places. The model follows the code:

- `DrizzleStorage.GetRestaurants` returns SQL's unrounded `avg` per listed restaurant, `None` (NULL) when there are no reviews; only the detail read rounds to one decimal and uses 0 (server/DrizzleStorage.ts:37, 76-83).
- `DrizzleStorage.GetBookmarksByUser` leaves `isBookmarked` unset on its rows (server/DrizzleStorage.ts:140-162).
- `DrizzleStorage.CreateBookmark` and `DrizzleStorage.CreateReview` never de-duplicate: the same pair or the same (restaurant, cookie) review can be stored twice.
- `DrizzleStorage.CreateMenuItem` has no duplicate-name check, and no restaurant duplicate check exists either.
- A review's rating is any 32-bit integer at the storage and HTTP levels; only the client dialog enforces 1 to 5 (shared/schema.ts:27). A value outside the 32-bit `integer` range makes the statement fail, which the handler answers with its error status (`Api.Execute`).
- Restaurant creation over HTTP is never atomic and never succeeds, because the compound create it calls does not exist (api/index.ts:231).
- Three places where the code evidently does not do what was meant are recorded under "## Findings". The HTTP layer models all three as written.

## Left out

- The snapshot type admits reviews, bookmarks and menu items whose restaurant is missing, and `DanglingBookmarkIsDropped` and `RestaurantNameFor` state what the reads do then. The foreign keys themselves (shared/schema.ts:24, 34 and 41) are modelled where they refuse a statement: `DrizzleStorage.DeleteRestaurant` and `Api.Execute`.
- DrizzleStorage.CreateReview: the foreign-key, primary-key and 32-bit checks are not part of this function. `Api.Execute` refuses the call instead, which is where the refusal becomes visible.
- DrizzleStorage.CreateBookmark: the foreign-key, primary-key and 32-bit checks are not part of this function; `Api.Execute` refuses the call instead.
- DrizzleStorage.CreateMenuItem: the foreign-key, primary-key and 32-bit checks are not part of this function; `Api.Execute` refuses the call instead.
- DrizzleStorage.CreateMenuItemWithId: the same checks live in `Api.Execute`.
- Api.MenuItemBody: `description`, `imageUrl` and `isPopular` are taken as values of their column types. A body value Postgres cannot read as a boolean would fail at bind, and this is not modelled. How a JSON value maps to `Given` or `Unreadable` is not modelled either; a numeric string such as "100" is `Given(100)`.
- DrizzleStorage.UpdateMenuItem: a patch naming a missing restaurant would be refused by the foreign key. This is not modelled, because no route updates menu items.
- DrizzleStorage.WithSqlStatsAll: `count()` is a Postgres `bigint` and `avg()` a `numeric`, which the node driver hands back as strings. The model gives them as numbers.
- Schema.ReviewPatchLaws: holds for the typed `Partial<InsertReview>` that `updateReview` declares. The PUT route passes the raw body, whose `id` and `createdAt` keys `Api.Execute` models through `DrizzleStorage.UpdateReviewColumns` (see "## Findings").
- The PUT body's known fields carry their column's type. A value of another JSON type (a string `rating`, say) is not modelled, and neither are keys that name no column, which Drizzle ignores.
- The `serial` sequences are unbounded integers. Past 2147483647 Postgres refuses `nextval`, and this is not modelled.
- Drizzle's relational `with:` loads need `relations(...)` declarations, and shared/schema.ts has none. They are modelled by their evident meaning: the child rows whose `restaurantId` is the parent's id.
- Row order of an SQL query without `ORDER BY` is unspecified. The model returns rows in table (insertion) order.
- LIKE wildcards (`%`, `_`) inside a search term are treated as ordinary characters. Case folding is the `lower` parameter, because Unicode case mapping is not visible in the code.
- Stats.ToFixed1: rounding is on exact reals, half away from zero. IEEE-754 doubles can round differently at ties that are not exactly representable.
- SQL `avg` is the exact mean of the ratings. The database's numeric type and text rendering of it are not modelled.
- An explicit JSON `null` versus an omitted field is not distinguished for defaulted columns. An omitted `isOpen` or `isPopular` takes the column default.
- An update with an empty patch makes Drizzle throw ("No values to set"). The model treats an empty patch as the identity and returns the row.
- `parseInt` of a non-numeric path segment (NaN) is not modelled; path ids are integers.
- `createRestaurantWithMenus` (api/index.ts:231) is defined by no storage class, so restaurant creation over HTTP always fails. The operation itself is not modelled.
- The HTTP layer is composed with the relational backend only. The backend choice in server/storage.ts is not part of this model. MemStorage's restaurant operations are modelled on their own.
- The in-memory backend's `createdAt: new Date()` is the `now` parameter. Bookmarks and menu items get no `createdAt` there (server/MemStorage.ts:65,74).
- server/routes.ts, server/index.ts, server/vite.ts, server/drizzle.ts, server/seed.ts, server/types.ts and the other React pages and components are not part of this model. This also covers map distance, cookie generation and the broken registration modal.
- `apiRequest` (client/src/lib/queryClient) is not part of this model. The cookie it is given is assumed to reach the server as the `x-user-cookie` header, and a non-2xx answer is assumed to reject the request, which runs the mutation's `onError` (`RestaurantCard.Settle`).
- ReviewModal: toasts, query-cache invalidation, and the success handler's `reset()`/`setRating(0)` are not modelled. React's capture of `useState` and `defaultValues` at first mount is also not modelled: the dialog is modelled as freshly opened with its props.
- RestaurantCard: the error toast and `onToggleBookmark` callback are not modelled, and neither is the disabled state while a mutation is pending. The badge's CSS classes are not modelled either.
- `getStatusInfo` reads the clock; the hour is a parameter.

## Findings

| source | as written | input that shows it | evidently intended | confidence | as-written member | corrected member |
|---|---|---|---|---|---|---|
| server/DrizzleStorage.ts:49-55 | the search combines the three `LIKE` conditions with `and`, so the term must occur in name, description and genre at once, and a NULL description excludes the restaurant | restaurant named "ramen ya", genre "ramen", description "pork", search "ramen": not listed | the term occurring in any one of the fields selects the restaurant | medium, not executed | DrizzleStorage.AllFieldsSearchMissesNameMatch | DrizzleStorage.SearchMatchesAnyField |
| api/index.ts:86 | PUT /api/reviews/:id hands the unvalidated body to `updateReview`, whose `.set()` writes any `id` key, so the review is re-keyed | review 1 with the review sequence at 2, PUT body `{"id": 2}`: 200, the review becomes review 2 (the next id the sequence hands out) and /api/reviews/1 answers 404; the next POST /api/reviews draws 2 and is answered 400 | only the `Partial<InsertReview>` fields are written, keeping the review's id | medium, not executed | Api.PutWithBodyIdRekeysReview | DrizzleStorage.UpdateReview |
| api/index.ts:213-214 | POST /api/restaurants/:id/menu-items hands `{...req.body, restaurantId}` to `createMenuItem` unvalidated, and `insert().values()` writes a body `id` as the primary key without drawing the sequence | menu sequence at 1, body `{"id": 1, "name": "gyoza", "price": 500}`: 201 and item 1 is stored; the next POST without `id` draws 1 and is answered 400 | the item takes the sequence's next id, keeping the key invariant | medium, not executed | Api.MenuItemBodyIdTakesTheNextKey | DrizzleStorage.CreateMenuItem |

`Api.Serve` runs all three as written: it lists restaurants with `DrizzleStorage.GetRestaurants`, updates reviews with `DrizzleStorage.UpdateReviewColumns`, and stores a menu item under a body `id` with `DrizzleStorage.CreateMenuItemWithId`. The corrected insert is the sequence-keyed `DrizzleStorage.CreateMenuItem`, which keeps the database valid. The corrected definitions are `DrizzleStorage.GetRestaurantsAnyField` and the typed `DrizzleStorage.UpdateReview`; `Api.OwnerPutAppliesPatch` shows the two updates agree on a body without `id`.
