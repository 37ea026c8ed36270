# Rubrics, posts and addresses: a Dafny model

This project models the core of a Django REST backend in which users publish
posts under rubrics, attach photos to them, and geocode addresses through
Nominatim. These parts are modelled:

- **The rubric counter ledger** (`Models`). A `Rubric` row is keyed by its
  name. Its counter starts at 0. The API raises the counter by one and lowers
  it by one, never below zero. The row is a class whose methods update
  `counter` in place. A sequence of operations is specified by the fold
  `Run`, with lemmas on its bounds.
- **The rubric serializer** (`Serializers`). A name must have 2 to 100
  characters and must not name an existing rubric, since the name is the
  primary key. The serialized form is exactly `name` and `counter`. The counter
  is read-only, so a new rubric always starts at 0.
- **The rubric endpoints** (`RubricViews`, with the generic sort in
  `Ordering`).
  - The listing is ordered by name.
  - `top` returns the five rows with the largest counters.
  - The increment and decrement actions work on one looked-up row.
- **The photo validators** (`Validators`). They check, in this order:
  - the extension, taken from a model of POSIX `os.path.splitext` and
    lower-cased;
  - the size, at most 5 MiB;
  - that the file decodes as an image;
  - the dimensions, at most 5000×5000.
- **The Nominatim helpers** (`Nominatim`, with the decoded-JSON value and its
  Python operations in `Json`).
  - The error-key rule of `_request`.
  - The reply shapes accepted by `reverse_geocode` and `search`.
  - The address string built from OSM components, both as a specification
    function and as the source's loop.
  - The fields extracted by `parse_reverse_response`.
- **The post views** (`PostViews`).
  - The rubric and address filters and the status gate of the post listing.
  - The user's-posts listing.
  - The permission rule of the post detail view.
  - The author-only rule for deleting a photo.
- **The address views** (`AddressViews`).
  - Reverse geocoding: the 502 path and the working-area decision.
  - The projection of search results.
- **The password-reset views** (`ResetViews`).
  - The status report.
  - The reply to a reset request.
  - The state change made by a confirmed reset.

Everything outside the service is an explicit parameter:

- the HTTP round trip, as a `Fetch` that carries the decoded body or the
  failure text;
- image decoding, as an `Upload` with a `decodes` flag and a `Probe`;
- the requesting principal, as a `Viewer`;
- the e-mail dispatch result, as a boolean and a message;
- the reset-code validity test, as a predicate.

Where the documented behaviour and the code differ, the model follows the
code:

- **Oversized images.** The dimension check raises its "too large" error
  inside its own catch-all handler, so an oversized image is reported as
  "could not verify the dimensions" (`DimensionsUnverified(Oversized(w, h))`).
- **Denials without a token.** A denied request that carries no token gets
  401, not 403. Both detail views authenticate by token, so DRF reports
  "not authenticated".
- **Data without an error.** `reverse_geocode` does not always return exactly
  one of data and error. A list whose first element is `null` gives neither.
  The model proves only "never both", and the view then falls back to its
  default 502 message.

## Model

| member | source | states |
|---|---|---|
| Models.Rubric.constructor | api/models.py:12-22 | a new rubric keeps its name (at most 100 characters) and its counter is 0 |
| Models.Rubric.IncrementCounter | api/models.py:32-35 | the counter rises by exactly one, the name is unchanged, and the row is saved once |
| Models.Rubric.DecrementCounter | api/models.py:37-41 | a positive counter drops by one and is saved; a counter at zero is left alone and not saved; a non-negative counter stays non-negative |
| Models.Rubric.ApplyAll | api/models.py:32-41 | after a sequence of increment/decrement calls the counter equals the fold `Run` of the operations, the name is unchanged, and a non-negative counter stays non-negative |
| Models.RunNonNegative | api/models.py:37-41 | starting from a non-negative counter, no sequence of operations makes it negative |
| Models.RunBounds | api/models.py:32-41 | the final counter lies between start + increments − decrements and start + increments (the clamp at zero only absorbs decrements) |
| Models.RunWithoutDecrements | api/models.py:32-35 | with no decrements the counter rises by exactly the number of operations |
| Serializers.ValidateName | api/serializers.py:10-16 | a name passes, unchanged, iff it has 2 to 100 characters; a shorter one is "too short", a longer one "too long" |
| Serializers.Represent | api/serializers.py:7 | the serialized rubric has exactly the keys name and counter, carrying the row's values |
| Serializers.NameText | api/serializers.py:7 | the name field takes a string as it is and a number as its decimal text; null, booleans, lists and dicts are refused |
| Serializers.CreateRubric | api/serializers.py:7-16 | creation succeeds iff the input has a name that is text (or a number), names no existing rubric, and passes validation; the new row has that name, which was not taken, and counter 0; a missing, non-text or taken name gets its own error, and an untaken name of the wrong length gets ValidateName's "too short" or "too long" |
| Serializers.NameIsIdentity | api/models.py:12-17 | a rubric's identity is its name: after a creation, a second one under the same name is refused as taken |
| Serializers.CounterIsReadOnly | api/serializers.py:8 | a client-supplied counter never changes what is created |
| Serializers.CreatedRepresentation | api/serializers.py:7-8 | a created rubric serializes to its name as text and counter 0; a string name comes back as it was sent |
| Validators.CheckSize | api/validators.py:7-18 | a file passes iff its size is at most 5 × 1024 × 1024 bytes; otherwise the error carries the size |
| Validators.SizeBoundary | api/validators.py:11-14 | exactly 5 MiB passes and one byte more fails |
| Validators.SplitExt | api/validators.py:25 | root + extension is the name; a non-empty extension is a dot followed by no further dot or slash |
| Validators.SplitExtEmptyIff | api/validators.py:25 | the extension is empty iff the last component has no dot, or only dots before its last dot |
| Validators.CheckExtension | api/validators.py:20-33 | a file passes iff its lower-cased extension is one of .jpg .jpeg .png .gif .webp .bmp |
| Validators.UpperCaseExtensionAccepted | api/validators.py:25-30 | "photo.JPG" passes because the extension is lower-cased before the lookup |
| Validators.MissingExtensionRejected | api/validators.py:25-30 | every name without a dot is rejected |
| Validators.HiddenFileRejected | api/validators.py:25-30 | ".png" has no extension and is rejected |
| Validators.LastExtensionCounts | api/validators.py:25-30 | "photo.png.exe" is rejected: only the last extension counts |
| Validators.CheckContent | api/validators.py:35-48 | a file passes iff it decodes as an image |
| Validators.CheckDimensions | api/validators.py:50-69 | an image passes iff it opens and both sides are at most 5000; every failure, oversize included, is "could not verify the dimensions" |
| Validators.DimensionBoundary | api/validators.py:50-58 | 5000×5000 passes; 5001 in either direction fails |
| Validators.ValidateImage | api/validators.py:72-79 | an upload passes iff all four checks pass; otherwise the error is that of the first failing check in the order extension, size, content, dimensions |
| Nominatim.Request | api/utils/nominatim.py:40-69 | a decoded dict with an "error" key yields (None, its value); any other decoded value is the data; a failure yields its message; never both data and error |
| Nominatim.ReverseGeocode | api/utils/nominatim.py:72-93 | a truthy error is passed on; a dict without "error" is the data; a non-empty list gives its first element; every other shape is the "empty reply" error; never both data and error |
| Nominatim.Search | api/utils/nominatim.py:96-116 | the result is the decoded list, or [] for an error or any non-list reply |
| Nominatim.ComponentsInOrder | api/utils/nominatim.py:126-130 | the components are the truthy values of house_number, road, city, state and country, each as str(), in that order |
| Nominatim.ComponentsNonEmpty | api/utils/nominatim.py:128-130 | every component is a non-empty string |
| Nominatim.ComponentsEmptyIff | api/utils/nominatim.py:126-131 | there are no components iff none of the five keys holds a truthy value |
| Nominatim.AddressFromEmpty | api/utils/nominatim.py:124-125 | an empty address dict gives "" |
| Nominatim.AddressFromOsmShape | api/utils/nominatim.py:119-131 | with components, the address is their non-empty join and starts with the first one; without, it is the dict's display_name (or "") |
| Nominatim.BuildAddress | api/utils/nominatim.py:119-131 | the loop that collects components and joins them computes exactly `AddressFromOsm` |
| Nominatim.AddressObject | api/utils/nominatim.py:151 | a falsy address gives {}; a dict is used as is; any other truthy value is a failure |
| Nominatim.CityOf | api/utils/nominatim.py:156 | city, else town, else village (Python `or`) |
| Nominatim.StateOf | api/utils/nominatim.py:159 | state, else region |
| Nominatim.ParseReverse | api/utils/nominatim.py:134-160 | falsy data gives {}; a non-dict or a bad address is a failure; otherwise each field is given by the address rules, city/state fallbacks, road, house_number, lat and lon |
| Nominatim.ParsedAddressFallback | api/utils/nominatim.py:155 | the parsed address is the non-empty join when there are components, else the address's own display_name when truthy, else the reply's display_name (or "") |
| Ordering.SortBySorted | api/models.py:27 | sorting by a total preorder gives a sequence ordered by it (`SortBy` is also a permutation of its input) |
| RubricViews.Listing | api/models.py:27 | the rubric listing is a permutation of the rows, ordered by name |
| RubricViews.TopIsTopFive | api/views.py:81-86 | top returns min(5, n) rows in non-increasing counter order, drawn from the table, and no left-out row has a larger counter than a shown one |
| RubricViews.IncrementAction | api/views.py:59-68 | an unknown name is "not found"; otherwise the counter rises by one and the reply carries the new name and counter |
| RubricViews.DecrementAction | api/views.py:70-79 | an unknown name is "not found"; otherwise the counter drops by one if positive, and the reply carries the new name and counter |
| PostViews.ByRubric | api/views.py:342-344 | with a non-empty rubric parameter, exactly the posts of that rubric remain, in order; without one, all remain |
| PostViews.ByAddress | api/views.py:347-349 | with a non-empty address parameter, exactly the posts whose lower-cased address contains the lower-cased query remain, in order |
| PostViews.StatusGate | api/views.py:351-357 | exactly the posts visible to the viewer remain, in order: published ones, plus the viewer's own when authenticated |
| PostViews.ListPostsSpec | api/views.py:335-359 | the listing is a subsequence of all posts and contains exactly those that match both filters and are visible to the viewer |
| PostViews.AnonymousSeesPublishedOnly | api/views.py:356-357 | an anonymous listing contains published posts only |
| PostViews.AuthorSeesOwnPosts | api/views.py:352-355 | an authenticated author's listing contains all of their posts, whatever their status |
| PostViews.UserPosts | api/views.py:401-428 | exactly that user's posts, all of them for the user themself and the published ones for anyone else, then filtered by address and rubric, in order |
| PostViews.DetailAccessAsWritten | api/views.py:379-389 | as written: writes are allowed iff the viewer is the author; the publication gate applies to GET only, where reads are allowed iff the post is published or the viewer is its author; every other method is allowed; a denial is 401 for anonymous viewers and 403 with the message otherwise |
| PostViews.DetailAccess | api/views.py:379-389 | writes are allowed iff the viewer is the author; reads (GET and HEAD) iff the post is published or the viewer is its author; a denial is 401 for anonymous viewers and 403 with the message otherwise |
| PostViews.HeadBypassesPublicationGate | api/views.py:385-387 | as written, a stranger's GET of a draft is refused but the HEAD of the same draft is allowed |
| PostViews.DetailAccessAgreesExceptHead | api/views.py:379-389 | the corrected rule agrees with the written one on every method except HEAD |
| PostViews.DetailReadAgreesWithListing | api/views.py:385-387 | a post can be read in detail iff the unfiltered listing shows it to the same viewer |
| PostViews.PhotoDeleteAccess | api/views.py:466-469 | deleting a photo is allowed iff the viewer is the post's author; anonymous is 401, another user 403 |
| ResetViews.FirstUnused | api/views.py:301 | the result is the first unused code of the user, or none iff the user has no unused code |
| ResetViews.ResetStatus | api/views.py:298-316 | an unknown e-mail is "user not found" (and only then); for a known user the request is active iff the user's first unused code is valid, and it then reports the expiry of that first unused code |
| ResetViews.StatusWithOneCode | api/views.py:301-303 | when the user has at most one unused code, the request is active iff that code is valid |
| ResetViews.UsedCodesAreIgnored | api/views.py:301 | a user whose codes are all used has no active request |
| ResetViews.RequestReplyFor | api/views.py:232-246 | the code is reported sent (with the e-mail and the debug code) iff dispatch succeeded; otherwise the error carries the dispatch message |
| ResetViews.ConfirmReset | api/views.py:279-284 | the account's password becomes the new one and the code is marked used, so it no longer counts as unused |
| AddressViews.AnyAreaInIff | api/views.py:500-504 | the place is in the working area iff some non-empty configured area, lower-cased, occurs in it |
| AddressViews.EmptyAreasNeverMatch | api/views.py:503 | a list made only of empty area names matches no place |
| AddressViews.TextOr | api/views.py:498-499 | a falsy value gives ""; a string is kept; any other value fails the concatenation |
| AddressViews.NoDataIsBadGateway | api/views.py:486-492 | without data the reply is 502 with the upstream error, or the default message when there is none |
| AddressViews.TransportFailureIsBadGateway | api/views.py:486-492 | a transport failure with a message reaches the client as that 502 message |
| AddressViews.ReverseViewOutcome | api/views.py:486-526 | the reply is 502 iff there is no data; it is located iff the data parses and its city and state are text or empty, and then carries the parsed address, latitude, longitude, city, street and house unchanged; otherwise it is a server error |
| AddressViews.FieldsIndependentOfAreas | api/views.py:506-526 | the working areas decide only the flag and the message; every address field of the reply is the same for any area list |
| AddressViews.LocatedFlag | api/views.py:498-509 | a located reply is in the working area iff some non-empty area occurs in the lower-cased "city state", and carries the "not served" message iff it is not |
| AddressViews.SamaraInDefaultAreas | api/views.py:495-504 | with the default working areas (Самара, Самарская область) a point in the city Самара is served |
| AddressViews.SamaraExample | api/views.py:495-526 | a reply naming the city Самара is in the area for ["Самара"] and out of it, with the "not served" message, for ["Москва"]; the city is the same either way |
| AddressViews.Project | api/views.py:544-552 | a search row projects iff it and its address are dicts; display_name, lat, lon (default 0), the city fallbacks, road and house_number are taken over |
| AddressViews.SearchView | api/views.py:535-553 | one projected row per search result, in order, or [] when the search yields nothing; a server error iff some row cannot be projected |

## Findings

| source | as written | input that shows it | evidently intended | confidence | as-written member | corrected member |
|---|---|---|---|---|---|---|
| api/views.py:385-387 | the publication gate of the post detail view applies only when the method is exactly GET | HEAD on a draft post by an authenticated non-author: Django serves HEAD with the same retrieve handler as GET, so the gate is skipped and the request is allowed | every read of an unpublished post by a non-author is refused | medium, not executed | PostViews.DetailAccessAsWritten | PostViews.DetailAccess |

## Left out

- Network I/O of `_request` (URL building, headers, timeouts, HTTP, URL and JSON decoding errors) is a parameter: `Fetch` carries the decoded body or the failure text.
- JSON numbers are integers only. Latitude and longitude are passed on as raw values, and `float()` is not modelled.
- Nominatim.ParseReverse: a non-numeric lat/lon, which makes `float()` raise, is not modelled as a failure.
- `str()` of a list or dict value is a placeholder text rather than Python's rendering.
- Text.Lower lower-cases ASCII letters and Cyrillic А–Я and Ё only. Other scripts are left unchanged; Python's full Unicode case mapping is not modelled.
- Image decoding (PIL's open, verify and size) is a parameter of `Upload`. The file-pointer rewinds are not modelled.
- The validators' error texts (including the formatted size in MB and the list of extensions) are reduced to error variants.
- The Post, PostPhoto and PasswordReset models are not part of this model. So are:
  - photo ordering and upload;
  - rubric-counter side effects of posts;
  - code generation and expiry (validity is a parameter);
  - the serializers of posts, addresses and password resets, including the e-mail and code validation before the reset views;
  - PasswordResetVerifyView.
- The `time_remaining` field of the reset status reply needs the clock; it is not modelled.
- Registration, login, logout and profile views, wait_for_db.py, email_utils.py, urls.py, admin.py and forms.py are not part of this model.
- Concurrent requests: two increments racing on the same row, which read-modify-write could lose, are not modelled; each call is atomic here.
- RubricViews.Listing: orders names by character code. The database collation is not modelled.
- RubricViews.TopIsTopFive: does not state which of several rows with equal counters are shown, because `order_by('-counter')` leaves ties to the database.
- Serializers.CreateRubric: the CharField's whitespace trimming is not modelled. Its blank and max_length checks are folded into ValidateName's "too short" and "too long", so their own error texts are not modelled. Numbers are turned into text, as the CharField does.
- Serializers.CreateRubric: the uniqueness check reads the table as a set of names. A duplicate inserted concurrently, which the database's key constraint would refuse, is not modelled.
- The `limit` parameter of the search is forwarded to Nominatim and not enforced by the view, so the model does not bound the number of results.
- Renaming a rubric through PUT/PATCH (a primary-key change that Django turns into an insert) is not modelled.
- The saves of `Rubric` are counted only as a ghost field. What the database stores is not modelled separately.
