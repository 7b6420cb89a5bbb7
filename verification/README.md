# flaskapi: users and posts over an in-memory store

A Dafny model of the core of a small Flask REST service with two resources:

- **users**: name, last name, email, role and state;
- **posts**: title, description and author, where the author is a user id.

Four handlers serve them: GET and POST on `/api/users` and `/api/posts`.

The model has seven modules:

- `Wrappers` holds `Option` and `Result`.
- `Text` covers three pieces of text handling:
  - code-point lexicographic order, which is how SQLite's BINARY collation orders `ORDER BY`;
  - substring containment;
  - decimal integers: parsing and formatting.
- `Email` models the email regular expression of `UserSchema.validate_email`. That is a `re.search`, so a match anywhere in the string is enough.
  - A declarative definition (`Matches`) is proved equivalent to a scanner (`EmailValid`).
- `Schemas` models the marshmallow schemas `UserSchema`, `PostSchema` and `ArgsSchema` as a small schema engine:
  - kinds, required flags and validators;
  - one error per offending key, including "unknown field";
  - loading a validated body into a typed record;
  - parsing the query string.
- `Models` holds the `User` and `Post` rows, the store, and id allocation (a new id is one more than the largest stored id, or 1 for an empty table).
- `Listing` covers the query shapes the handlers build:
  - WHERE as a filter;
  - ascending ORDER BY as a sort that permutes the rows;
  - OFFSET and LIMIT as a window;
  - reference definitions `Drop` and `Take` to check the window against.
- `Routes` holds the four handlers as pure functions: from the store and the request to the response, and to the new store for POST.
- `Service` dispatches requests and serves sequences of them. It proves the invariants every sequence of requests keeps.

The model follows the code in these points:

- The email pattern is `[a-zA-Z0-9._]+@+[a-zA-Z0-9]+\.[a-zA-Z]{2,4}`, so several `@` in a row are accepted (`flaskapi/schemas.py:18`).
- The `email` argument of GET `/api/users` filters by exact equality (`filter_by(email=...)`), not by substring (`flaskapi/routes.py:33-36`).
- A POST body carrying an `id` is refused: `id` is `dump_only`, and marshmallow 3 reports such keys as unknown fields.

POST `/api/posts` checks the author against the **posts** table (`flaskapi/routes.py:123-126`), not the users table. The model keeps this behaviour as written, with these consequences:

- the first post of any author is refused with 404;
- an empty posts table stays empty (`Service.RunEmptyPostsStayEmpty`);
- the set of authors with posts never grows (`Service.RunKeepsAuthors`).

## Model

| member | source | states |
|---|---|---|
| Email.EmailValidIffMatches | flaskapi/schemas.py:16-21 | The scanner accepts a string exactly when the pattern matches some substring: a run of letters, digits, `.` or `_`, one or more `@`, letters or digits, a `.`, and 2 to 4 letters |
| Email.EmailValidExtends | flaskapi/schemas.py:18-19 | The search is unanchored: text before or after an accepted address never makes it rejected |
| Email.EmailValidNeedsAtAndDot | flaskapi/schemas.py:18-21 | Every accepted email contains an `@` and a `.` |
| Email.ExampleAddressAccepted | flaskapi/schemas.py:16-21 | `john@demo.com` is accepted |
| Email.RunStart | flaskapi/schemas.py:18 | Finds the longest run of one character class that ends at a position, which the scanner needs to decide a match |
| Schemas.Deserialize | flaskapi/schemas.py:9-14 | A Str field succeeds exactly on strings and keeps the string. An Int field succeeds exactly on integers and integer numerals, with their value. Any other value gives the kind's type error |
| Schemas.Validate | flaskapi/schemas.py:5-14 | Errors appear only under declared or sent keys. Keys outside the schema are always reported as unknown. A key that was not sent can only be a required field reported as missing |
| Schemas.UserKeyError | flaskapi/schemas.py:5-31 | A key has a user error exactly when it is a user field that is missing, not a string or refused by its validator, or a key the schema does not declare (including `id`) |
| Schemas.UserErrorDomain | flaskapi/schemas.py:5-31 | The same as UserKeyError, for every key at once |
| Schemas.UserValidIff | flaskapi/schemas.py:5-31 | A body validates exactly when all five fields are accepted and no other key is present |
| Schemas.MissingUserField | flaskapi/schemas.py:10-14 | A required user field that is absent is reported as missing |
| Schemas.EnumerationsCaseSensitive | flaskapi/schemas.py:6-7 | `"Author"` and `"ACTIVE"` are refused: the role and state checks are exact membership |
| Schemas.PostKeyError | flaskapi/schemas.py:34-38 | A key has a post error exactly when it is a post field that is missing or of the wrong kind, or a key the schema does not declare |
| Schemas.PostErrorDomain | flaskapi/schemas.py:34-38 | The same as PostKeyError, for every key at once |
| Schemas.ArgKeyError | flaskapi/schemas.py:42-56 | A query argument is refused exactly when it is undeclared, or is an integer argument that does not parse, or is an order_by outside the three user columns |
| Schemas.ArgsErrorDomain | flaskapi/schemas.py:42-56 | Only supplied arguments can be refused, and all refused arguments are reported |
| Schemas.OrderByAcceptedIff | flaskapi/schemas.py:53-56 | order_by is accepted exactly for `name`, `last_name` and `email`. Post columns such as `title` and `author` are refused |
| Schemas.OrderKeyOf | flaskapi/schemas.py:43 | An ordering key exists exactly for the allowed column names and maps back to that name |
| Schemas.ColumnName | flaskapi/schemas.py:43 | Every ordering key names an allowed column |
| Schemas.LoadUser | flaskapi/routes.py:54-58 | Failure carries exactly the validation errors, and there is at least one. Success yields a user whose email, role and state pass their validators, and whose body is exactly that user's five fields |
| Schemas.LoadUserRoundTrip | flaskapi/schemas.py:5-31 | Loading the body built from a user gives that user back exactly when the user passes the validators. Otherwise loading fails |
| Schemas.LoadPost | flaskapi/routes.py:117-121 | Failure carries exactly the validation errors. Success yields a post with the title and description sent, and the author sent either as an integer or as a string that parses to it |
| Schemas.LoadPostRoundTrip | flaskapi/schemas.py:34-38 | Every post body built from a record loads back to that record |
| Schemas.ParseArgs | flaskapi/routes.py:16-19 | Fails exactly when some argument is refused, and then carries the schema's whole error map, which is non-empty and only about supplied keys. On success, every argument is read as sent: integers parsed, strings kept, and order_by mapped to the column it names |
| Text.ParseInt | flaskapi/schemas.py:45-51 | A string parses exactly when it is a numeral: an optional `+` or `-`, then one or more ASCII digits. The value is the digits' decimal value, negated after `-`. So `?offset=abc` is refused |
| Text.ParseFormatRoundTrip | flaskapi/routes.py:24-25 | Any integer written in decimal parses back to itself |
| Text.ContainsIffSplit | flaskapi/routes.py:37-40 | A name contains name_substr exactly when the name splits as some prefix, then name_substr, then some suffix: the meaning of `LIKE '%s%'` |
| Text.LexLeTotal | flaskapi/routes.py:29-32 | Any two column values are ordered one way or the other, so ORDER BY is defined on every pair |
| Text.LexLeTransitive | flaskapi/routes.py:29-32 | The column order is transitive |
| Listing.Filter | flaskapi/routes.py:33-40 | The filtered rows are exactly the rows that satisfy the clause, each kept as often as it is stored |
| Listing.FilterAgrees | flaskapi/routes.py:33-40 | Two clauses that agree on every row select the same sequence |
| Listing.SortBy | flaskapi/routes.py:29-32 | The result is in ascending order of the column and is a permutation of the input |
| Listing.InsertBy | flaskapi/routes.py:29-32 | Inserting into a sorted sequence keeps it sorted and adds exactly one occurrence of the row |
| Listing.Paginate | flaskapi/routes.py:42-47 | The window starts at the offset (a negative offset counts as 0), holds at most limit rows, and runs to the end when there is no limit or the limit reaches past the end |
| Listing.PaginateIsTakeDrop | flaskapi/routes.py:42-47 | The window equals Take(limit) of Drop(offset), two independently defined operations |
| Listing.DropIsSuffix | flaskapi/routes.py:42-44 | Drop(n) is the suffix after position n, or empty past the end |
| Listing.TakeIsPrefix | flaskapi/routes.py:45-47 | Take(n) is the first n rows, or all rows when there are fewer |
| Listing.PaginateMap | flaskapi/routes.py:105-110 | Taking the window commutes with projecting each row, so taking the Post half before or after pagination gives the same posts |
| Models.NextId | flaskapi/models.py:5 | A new id is 1 for an empty table. Otherwise it is greater than every stored id and one more than a stored id, so it is exactly the largest id plus one |
| Models.Ids | flaskapi/models.py:5 | The id column of a table has one entry per row and holds every row's id |
| Models.Authors | flaskapi/models.py:17 | The set of post authors is empty exactly when there are no posts |
| Routes.FirstWithId | flaskapi/routes.py:24-27 | None exactly when no user has the id. Otherwise the first user in the table with that id |
| Routes.UserTotal | flaskapi/routes.py:29-40 | "total_count" holds exactly the users that match the email and name filters, each as often as stored. It is sorted by order_by when that is given |
| Routes.ListUsers | flaskapi/routes.py:21-50 | Once the arguments are valid, the answer is always 200. It is a single-user answer exactly when id is given. Otherwise "total_count" is exactly the stored users that match the filters, and "items" is no longer than it |
| Routes.GetUsers | flaskapi/routes.py:14-50 | Answers 200 or 400. It answers 400 exactly when some query argument is refused, and the 400 carries the schema's error map |
| Routes.Join | flaskapi/routes.py:86-87 | The inner join holds exactly the (user, post) pairs of stored rows where the user's id is the post's author |
| Routes.RowsForCount | flaskapi/routes.py:86-87 | The join rows of one post hold each user whose id is the post's author as many times as that user is stored |
| Routes.JoinCount | flaskapi/routes.py:86-87 | The join holds each matching (user, post) pair as many times as the user's count times the post's count |
| Routes.PostRows | flaskapi/routes.py:86-96 | Exactly the joined rows that pass the author filter, sorted by the user column when order_by is given |
| Routes.PostRowsCount | flaskapi/routes.py:86-96 | Each joined row that passes the author filter occurs as many times as it does in the join; every other row is absent |
| Routes.PostsOfCount | flaskapi/routes.py:105-110 | When all joined rows of a post are the same row, the post occurs in the Post halves as many times as that row occurs |
| Routes.StoredOnce | flaskapi/models.py:5 | With unique ids, a stored user occurs exactly once |
| Routes.ListPosts | flaskapi/routes.py:81-113 | Once the arguments are valid, the answer is always 200, and "items" is no longer than "total_count" |
| Routes.GetPosts | flaskapi/routes.py:78-113 | Answers 200 or 400. It answers 400 exactly when some query argument is refused, and the 400 carries the schema's error map |
| Routes.PostUsers | flaskapi/routes.py:52-74 | Answers 400 exactly when the body does not validate, carrying the user schema's error map. Answers 409 exactly when the email is already stored. The store changes only on 200. On 200 the new user is appended with the fields sent and an id and email no stored user has |
| Routes.PostPosts | flaskapi/routes.py:115-135 | Answers 400 exactly when the body does not validate, carrying the post schema's error map. Answers 404 exactly when no stored post has that author. The store changes only on 200. On 200 the post is appended with the fields sent and a fresh id |
| Routes.UsersBadArgsIgnoreStore | flaskapi/routes.py:16-19 | A 400 carries the validation errors and does not depend on the store |
| Routes.PostsBadArgsLikeUsers | flaskapi/routes.py:80-83 | GET posts refuses exactly the arguments GET users refuses, with the same errors |
| Routes.UserByIdIgnoresRest | flaskapi/routes.py:24-27 | With id, the answer is a single user, or an empty object when no user has the id (never 404), the first user with that id. Every other argument is ignored |
| Routes.UserListingContents | flaskapi/routes.py:29-40 | Without id, "total_count" is exactly the matching users with their multiplicities, sorted by order_by when given |
| Routes.UserListingWindow | flaskapi/routes.py:42-50 | "items" is Take(limit) of Drop(offset) of "total_count" |
| Routes.UserTotalIgnoresPagination | flaskapi/routes.py:42-47 | offset and limit do not change "total_count" |
| Routes.PostListingContents | flaskapi/routes.py:86-96 | "total_count" holds exactly the posts whose author is the id of a stored user and, when author is given, equals it |
| Routes.ListedPostJoined | flaskapi/routes.py:86-96 | Every listed post is stored, its author is a stored user, and it passes the author filter |
| Routes.JoinedPostListed | flaskapi/routes.py:86-96 | Every stored post whose author is a stored user and that passes the author filter is listed |
| Routes.PostListingCounts | flaskapi/routes.py:86-96 | With unique user ids, each post whose author is a stored user and passes the author filter occurs in "total_count" as many times as it is stored. Every other post is absent |
| Routes.JoinedUserIsAuthor | flaskapi/models.py:5 | With ids unique, the user an id lookup finds is the user holding that id |
| Routes.PostListingOrdered | flaskapi/routes.py:89-92 | With order_by, posts are sorted by the chosen column of their author |
| Routes.PostListingWindow | flaskapi/routes.py:98-113 | "items" is "total_count" paginated by offset and limit |
| Routes.PostsOfPaginate | flaskapi/routes.py:98-110 | Taking the Post half of each row commutes with offset and limit |
| Routes.PostTotalIgnoresPagination | flaskapi/routes.py:98-103 | offset and limit do not change the post "total_count" |
| Routes.PostUsersPreservesWellformed | flaskapi/routes.py:60-71 | Creating a user keeps user ids, emails and post ids unique |
| Routes.PostPostsPreservesWellformed | flaskapi/routes.py:128-132 | Creating a post keeps the store well formed |
| Routes.PostPostsKeepsAuthors | flaskapi/routes.py:123-132 | Creating a post never adds a new author to the posts table |
| Routes.PostPostsOnEmptyTableFails | flaskapi/routes.py:123-126 | With no posts stored, every POST of a post fails with 400 or 404 and stores nothing |
| Routes.IdQuery | flaskapi/routes.py:24-25 | `?id=<n>` is valid and is a lookup of n with nothing else set |
| Routes.FirstWithIdAppended | flaskapi/routes.py:24-27 | A user appended with an id no stored user has is found by that id |
| Routes.PostThenGetById | flaskapi/routes.py:65-74 | A user just created is returned by GET with its id, with exactly the fields that were sent |
| Routes.DuplicateEmailConflicts | flaskapi/routes.py:60-63 | After a user is created, a second valid body with the same email gets 409 and the store is unchanged |
| Routes.FirstUserGetsIdOne | flaskapi/routes.py:65-74 | In an empty users table, an acceptable user is stored with id 1 |
| Routes.JohnDoeCreated | flaskapi/routes.py:52-74 | John Doe, `john@demo.com`, author, active is created with id 1 in an empty store |
| Routes.AdminRoleRefused | flaskapi/schemas.py:23-26 | The same body with role `admin` gets 400 with an error on role |
| Service.Handle | flaskapi/routes.py:138-139 | GET never writes, and a failed request never writes. Each request writes at most one table, and only by appending one row |
| Service.Run | flaskapi/routes.py:138-139 | Serving a sequence of requests adds at most one row per request. A sequence of GET requests leaves the store as it was |
| Service.HandlePreservesWellformed | flaskapi/routes.py:138-139 | Serving any request keeps the store well formed |
| Service.RunPreservesWellformed | flaskapi/routes.py:52-135 | Every sequence of requests keeps user ids, user emails and post ids unique |
| Service.RunKeepsAuthors | flaskapi/routes.py:123-126 | No sequence of requests changes the set of authors with posts |
| Service.RunEmptyPostsStayEmpty | flaskapi/routes.py:123-126 | A store with no posts never gets one through the API |
| Service.RunOnlyAppends | flaskapi/routes.py:70-71 | Rows are never changed or removed: the earlier users and posts stay a prefix |
| Service.RunKeepsPostsJoined | flaskapi/routes.py:86 | If every post's author is a stored user, that stays true, so no post ever drops out of the inner join |

## Left out

- HTTP, Flask-RESTful routing, JSON encoding, response message texts and the text of error messages: a response is modelled by its status, its result rows and the keys of its error map.
- Request bodies that are not JSON objects (`request.json` is None, or a list): marshmallow's schema-level "invalid input type" error is not modelled, because a body is a map from keys to values.
- JSON values other than strings and integers (floats, booleans, null, nested objects) are one `JOther` value. A Str or Int field refuses it.
- Text.ParseInt: accepts an optional sign and ASCII digits only, which is stricter than Python's `int()`: surrounding whitespace, `_` separators and non-ASCII digits are not accepted.
- Schemas.LoadPost: a JSON number with a fraction is refused as an author instead of being truncated by `int()`.
- SQLite `LIKE` folds ASCII case and treats `%` and `_` in name_substr as wildcards. The model uses plain case-sensitive containment.
- With several query arguments of the same name, only one value per name is modelled (a map).
- Sorting is stable insertion by code point. Among rows with equal keys, and without order_by, SQLite promises no order. The model's contracts claim none. They state only sortedness and the rows with their multiplicities: a permutation of the filtered rows for users, and for posts each joined post as often as stored (given unique user ids).
- The total and items queries of one listing are assumed to see the rows in the same order, since both run against the same store state.
- Negative offset and limit follow SQLite: a negative offset counts as 0, and a negative limit means no limit.
- Models.NextId: models the rowid rule (largest id plus one, 1 for an empty table). When the largest id is the 64-bit maximum, SQLite instead picks an unused id at random, and that case is not modelled.
- Integers are unbounded. An `id`, `offset` or `limit` query argument, or the `author` of a POST /api/posts body, outside the signed 64-bit range passes validation. The sqlite3 driver then raises `OverflowError` when it binds the value, and the service answers 500. The model answers as if the value were bound.
- The `author` query argument of GET /api/posts is bound as the text that was sent (flaskapi/routes.py:94-96), so it raises no `OverflowError`. Outside the 64-bit range it equals no stored author, and the service answers 200 with empty lists. The model compares the parsed integer instead. This agrees with the service whenever the stored authors are 64-bit integers, which the model does not bound.
- String column lengths (`db.String(20)` and so on) are not checked by SQLite and are not modelled.
- Concurrency: handlers are atomic here, so the race between the duplicate-email or author check and the insert is not modelled.
- The database bootstrap in `flaskapi/__init__.py` and the population script are not part of this model.
