# Shop back end and favourites client — a verified model

This project models the stateful core of a small online shop. The back end is
an Express server with a MySQL database and an Elasticsearch `products` index.
The front end is a React page with favourites and a "recently viewed" list.
Each part becomes a Dafny module:

- `RecentlyViewed`: the browser's most-recently-used list of at most ten
  products, one localStorage key per user.
- `Products`, `SearchIndex`, `IndexProducts`, `ProductController`: the
  product table, and the search documents projected from it when a product is
  created, when the sample data is synced, and by the full reindex script.
- `Favorites`, `Orders`, `Comments`, `CategoryController`, `UserService`: the
  relation tables and the operations over them, with their return-value
  conventions (booleans, insert ids, HTTP status codes, `null` on failure).
- `UserPage`: the client's favourites mirror, a list and a set of ids that
  must stay in step.
- `Auth`: the authentication middleware's whitelist, bearer-token extraction
  and outcome.

Shared pieces:

- `Js` models JavaScript values: `undefined`, `null`, booleans, integers and
  strings, with truthiness, `||`, `String(v)`, `parseInt`-style leading-digit
  parsing and `JSON.stringify` of an object.
- `Database` also says how MySQL compares an INT column with a bound value:
  as a double, reading a string's leading decimal number (after white space,
  with fraction and exponent). An INSERT into an INT column stores that
  number rounded. So `"1.5"` selects no row, `" 1"` selects id 1 and `"1e1"`
  selects id 10.
- `Database` holds all tables in one `Db` class. Each table has an
  AUTO_INCREMENT counter and a validity invariant: ids grow, the favourites
  pair is unique, and the user e-mail is unique.
- `Sorting` gives `ORDER BY` its meaning. The result is sorted and a
  permutation of the rows. The order of ties is not fixed, because SQL does
  not fix it.

Engine failures are parameters rather than hidden effects. A rejected
statement or an unreachable server is a `fault`/`connectFails`/`syncFault`
flag. Clock readings are a `now` parameter. bcrypt is a symbolic digest, and
compare succeeds when the two texts give the same key: the UTF-8 bytes and a
closing NUL, cut to 72 bytes. A JWT is its payload.
`jwt.verify` is a function parameter.

Where the code behaves in surprising ways, the model follows the code:

- `discount_percentage` is stored and indexed as the caller passed it. Nothing
  derives it from the prices, and `promotion` is not derived from it either.
- `category_id` is not required when a product is created. Only `name`,
  `brand` and `price` are checked.
- The product controller passes five positional arguments to the
  eight-parameter model function. So `image_url` is stored as
  `original_price`, and `category_id` is stored as `discount_percentage`.
- There is no sentinel category name when a product is created. The document
  gets `null` when no category matches. The reindex script writes `"Chưa có"`.
  The sample sync reads `.name` from a row whose only column is
  `category_name`, so its documents carry no category name at all.
- A failed index write during `createProduct` is not swallowed. The exception
  reaches the controller, which answers 500 after the row has been stored.
- `createProduct` returns the arguments and the new id, not a row with
  `views = 0`.
- `indexProducts.js` takes `{ pool }` from a module that exports only a
  connection function. As written, `pool` is undefined. The model's `pool: Db?`
  covers both that case and the pool the script means to use.
- The middleware calls `.query` on that same connection function. The call
  throws inside the `try`, so the request gets 401 and is never authenticated.
  `Auth.DbHandle` models both the factory and a real connection.
- The e-mail lookup binds whatever the request body holds. A number or a
  boolean is written unquoted, so MySQL reads each stored e-mail as a number
  (0 when it does not start with one) and compares the two as doubles. A
  login body with `"email": 0` therefore selects a user such as
  `alice@x.com` and logs in with that user's password, and a registration
  with `"email": 0` is refused as taken.
- bcrypt reads at most 72 bytes of a password. A login whose password agrees
  with the registered one on its first 72 UTF-8 bytes succeeds, whatever
  follows them.

## Model

| member | source | states |
|---|---|---|
| RecentlyViewed.Browser.AddToRecentlyViewed | ReactJS01/reactjs01/src/util/recentlyViewed.js:25-49 | the new storage is the old one with the current user's key set to the list filtered by id, the stamped product unshifted, and the result cut to ten; a throw leaves storage as it was |
| RecentlyViewed.Browser.ClearRecentlyViewed | ReactJS01/reactjs01/src/util/recentlyViewed.js:52-60 | the current user's key is removed and nothing else changes |
| RecentlyViewed.PushedPutsProductFirstOnce | ReactJS01/reactjs01/src/util/recentlyViewed.js:32-38 | after an add the list starts with the stamped product and holds its id exactly once |
| RecentlyViewed.PushedLength | ReactJS01/reactjs01/src/util/recentlyViewed.js:32-43 | the new length is min(1 + number of old entries with another id, 10), so never above 10 |
| RecentlyViewed.PushedKeepsOrder | ReactJS01/reactjs01/src/util/recentlyViewed.js:32-43 | behind the head come the old entries with another id in their old order, and only the tail beyond ten is dropped |
| RecentlyViewed.WithoutIdLength | ReactJS01/reactjs01/src/util/recentlyViewed.js:32 | the filter removes exactly the entries carrying the id |
| RecentlyViewed.WithoutIdDropsId | ReactJS01/reactjs01/src/util/recentlyViewed.js:32 | no entry with the id survives the filter |
| RecentlyViewed.WithoutIdKeeps | ReactJS01/reactjs01/src/util/recentlyViewed.js:32 | an entry survives iff it was there and has another id, and the survivors keep their order |
| RecentlyViewed.AddUpdatesOnlyOwnList | ReactJS01/reactjs01/src/util/recentlyViewed.js:25-45 | after an add the user's list reads back as the pushed list and every other key is unchanged |
| RecentlyViewed.AfterAddKeepsUser | ReactJS01/reactjs01/src/util/recentlyViewed.js:27-45 | an add never changes which user is current |
| RecentlyViewed.KeyForSeparatesUsers | ReactJS01/reactjs01/src/util/recentlyViewed.js:15 | two users share a list key iff their ids print the same |
| RecentlyViewed.KeyForIsNotUserKey | ReactJS01/reactjs01/src/util/recentlyViewed.js:7-15 | a list key never overwrites the stored user |
| RecentlyViewed.UserId | ReactJS01/reactjs01/src/util/recentlyViewed.js:6-9 | a stored user object gives its `id`, no stored user gives `guest`, and an empty or unparsable stored user throws |
| RecentlyViewed.GetRecentlyViewed | ReactJS01/reactjs01/src/util/recentlyViewed.js:12-22 | the result is the JSON stored under the current user's key when there is some, and `[]` otherwise |
| RecentlyViewed.GuestWhenNoUser | ReactJS01/reactjs01/src/util/recentlyViewed.js:6-9 | with no stored user the id is `guest` and the key is `recentlyViewedProducts_guest` |
| RecentlyViewed.GetIsEmptyWhenNothingParses | ReactJS01/reactjs01/src/util/recentlyViewed.js:12-22 | the read gives `[]` when the user cannot be read or the list is absent, empty or unparsable |
| RecentlyViewed.ClearThenGetIsEmpty | ReactJS01/reactjs01/src/util/recentlyViewed.js:52-57 | after a clear the read gives `[]` |
| Products.CategoryLookup | ExpressJS01/src/models/product.js:108 | the lookup finds a category whose id the bound value selects, and finds none exactly when no category matches |
| Products.CreateProduct | ExpressJS01/src/models/product.js:101-130 | a rejected insert changes nothing; otherwise the row is appended under the next id; a failed index write leaves the row and throws; otherwise the document is upserted under the new id's string and the record is returned |
| Products.CreatedRecordEchoesArgs | ExpressJS01/src/models/product.js:129 | the returned record has the new id and every argument unchanged |
| Products.CreatedDocFacts | ExpressJS01/src/models/product.js:108-127 | the document has the new id, `views = 0`, `discount_percentage` as passed or 0, `promotion` as passed or false, and the matching category's name or null when none matches |
| Products.AllProducts | ExpressJS01/src/models/product.js:92-99 | one joined row per product, with a null category name when no category matches |
| Products.AllProductsNamesMatch | ExpressJS01/src/models/product.js:93-97 | a product whose category exists gets that category's name |
| Products.NullsFirstLeFacts | ExpressJS01/src/models/product.js:138 | MySQL's ascending order with NULL first is total, transitive and antisymmetric |
| Products.ListedLeIsTotalPreorder | ExpressJS01/src/models/product.js:138 | ordering by (category name, product name) is a total preorder |
| Products.ProductsWithCategories | ExpressJS01/src/models/product.js:132-141 | the listing is sorted by (category name, product name) and is a permutation of the joined products |
| Products.SyncEntriesFacts | ExpressJS01/src/models/product.js:47-75 | every write of the sample sync is for a stored product whose category exists, and carries no category name |
| Products.SyncEntriesSkip | ExpressJS01/src/models/product.js:50-54 | rows whose category lookup finds nothing add no write |
| Products.SyncEntriesSnoc | ExpressJS01/src/models/product.js:48-75 | one more row adds exactly that row's write |
| Products.SyncFromAfterFailure | ExpressJS01/src/models/product.js:57-74 | once the index fails, the rest of the loop writes nothing |
| Products.SyncFromStart | ExpressJS01/src/models/product.js:48-75 | running the loop from the first row leaves the old documents overwritten by the writes of the rows before the failure point |
| Products.SyncRow | ExpressJS01/src/models/product.js:49-74 | one pass skips a row without a category, stops at a failing write, and otherwise writes that row's document |
| Products.SyncRows | ExpressJS01/src/models/product.js:48-75 | the index holds the old documents overwritten by the sync writes of the rows before the first failed write, and search visibility is unchanged |
| Products.InitializeSampleData | ExpressJS01/src/models/product.js:32-86 | a non-empty table or a failed insert changes nothing; an empty table gets the four sample rows, then the sync writes |
| SearchIndex.Index.Create | ExpressJS01/indexProducts.js:13-32 | creating sets the given mapping and leaves the documents alone |
| SearchIndex.Index.Upsert | ExpressJS01/indexProducts.js:47-63 | a write replaces the document under its key; a missing index is created with an inferred mapping; visibility waits for a refresh |
| SearchIndex.Index.Refresh | ExpressJS01/indexProducts.js:67 | after a refresh search sees exactly the stored documents |
| SearchIndex.UpsertAllAt | ExpressJS01/indexProducts.js:46-64 | after a run of writes a key holds its last write, or its old document when nothing wrote it |
| SearchIndex.UpsertAllIdempotent | ExpressJS01/indexProducts.js:46-64 | repeating the same writes changes nothing |
| IndexProducts.Entries | ExpressJS01/indexProducts.js:46-64 | one write per row, in row order, keyed by `product.id.toString()` |
| IndexProducts.WritesSnoc | ExpressJS01/indexProducts.js:45-63 | one more row's write puts that row's projection under its id on top of the earlier writes |
| IndexProducts.WriteRow | ExpressJS01/indexProducts.js:46-62 | one pass writes the row's projection under its id and leaves the mapping and visibility alone |
| IndexProducts.WriteAll | ExpressJS01/indexProducts.js:46-64 | the loop completes iff no write fails, and the index holds the writes made before the first failure |
| IndexProducts.Reindex | ExpressJS01/indexProducts.js:4-80 | an existing index keeps its mapping and a missing one gets the script's mapping; an undefined pool ends in an unhandled rejection; otherwise all rows are written, refresh happens only after every write, and the exit code is 0 |
| IndexProducts.EntriesKeysDistinct | ExpressJS01/indexProducts.js:49 | distinct store ids give distinct document keys |
| IndexProducts.ReindexCoversStore | ExpressJS01/indexProducts.js:46-64 | after a full run every store row's projection is under its id's key |
| IndexProducts.ReindexNeverDeletes | ExpressJS01/indexProducts.js:46-64 | no document is removed, and one whose key no row has is untouched |
| IndexProducts.Projection | ExpressJS01/indexProducts.js:50-62 | the body carries the row's id, a numeric price and a boolean promotion |
| IndexProducts.ProjectionDefaults | ExpressJS01/indexProducts.js:51-59 | a missing category gives `"Chưa có"`, missing name/brand/image_url give `""`, promotion is a boolean, and views defaults to 0 |
| IndexProducts.ProjectionHasNoUndefined | ExpressJS01/indexProducts.js:50-62 | every member of the body has a defined value, so serialisation keeps all eleven fields |
| IndexProducts.ProjectionIgnoresClock | ExpressJS01/indexProducts.js:60-61 | rows with both timestamps project the same at any time |
| IndexProducts.ReindexIdempotent | ExpressJS01/indexProducts.js:46-64 | a second run over an unchanged store with timestamps changes no document |
| Js.NatToStringInjective | ExpressJS01/indexProducts.js:49 | distinct ids print as distinct strings |
| Js.NatToStringRoundTrip | ExpressJS01/src/models/product.js:113 | reading a printed id's digits back gives the id |
| Js.ParseSkipsSpace | ExpressJS01/src/models/product.js:118 | `parseFloat(" 12")` reads 12: leading white space is skipped |
| Database.RouteParamSelectsId | ExpressJS01/src/controllers/category.controller.js:16-18 | a route parameter holding a printed id selects exactly that id |
| Database.SelectsIffWholeAndStored | ExpressJS01/src/controllers/category.controller.js:18 | a bound value selects the row holding `n` iff it reads as a whole number that an INT column stores as `n`; a value with a fraction selects no row |
| Database.SqlReadsFraction | ExpressJS01/src/controllers/category.controller.js:18-22 | `"1.5"` reads as 1.5 and selects no id, so `GET /categories/1.5` finds nothing |
| Database.SqlSkipsSpace | ExpressJS01/src/controllers/category.controller.js:18 | `" 1"` selects id 1 |
| Database.SqlReadsExponent | ExpressJS01/src/controllers/category.controller.js:18 | `"1e1"` selects id 10 and not id 1 |
| ProductController.ModelArgs | ExpressJS01/src/controllers/productController.js:20 | the five body fields land in the first five parameters: `image_url` in `original_price`, `category_id` in `discount_percentage`, and the last three are undefined |
| ProductController.CreateProduct | ExpressJS01/src/controllers/productController.js:14-26 | a body with falsy name, brand or price gets 400 and changes nothing; a rejected insert or failed index write gets 500; otherwise 201 with the model's record |
| ProductController.FalsyRequiredFieldRejected | ExpressJS01/src/controllers/productController.js:17-19 | a price of undefined, null, 0, `""` or false, or a falsy name or brand, is rejected |
| ProductController.OptionalFieldsIgnored | ExpressJS01/src/controllers/productController.js:16-20 | acceptance does not depend on `image_url` or `category_id` |
| ProductController.ForwardingMisplacesFields | ExpressJS01/src/controllers/productController.js:20 | the stored row has the image URL as original price, the category id as discount, and NULL image, category and promotion; the document has no category name and no image |
| Favorites.AddFavorite | ExpressJS01/src/models/favorite.js:26-37 | a store error or a NULL argument throws; an existing pair gives false and changes nothing; a new pair is appended and gives true |
| Favorites.RemoveFavorite | ExpressJS01/src/models/favorite.js:39-43 | the table loses exactly the matching rows, and the result is true iff a matching row existed |
| Favorites.MatchCount | ExpressJS01/src/models/favorite.js:40-42 | the affected-row count is positive iff a row matches |
| Favorites.WithoutMatches | ExpressJS01/src/models/favorite.js:40 | a row survives the DELETE iff it does not match |
| Favorites.RemovedCount | ExpressJS01/src/models/favorite.js:40-42 | the affected-row count is the number of rows the DELETE removes |
| Favorites.WithoutMatchesValid | ExpressJS01/src/models/favorite.js:6-14 | deleting keeps ids ordered and the (user, product) pair unique |
| Favorites.PairsAfterAdd | ExpressJS01/src/models/favorite.js:28-30 | an add adds exactly its pair |
| Favorites.MatchesStoredPair | ExpressJS01/src/models/favorite.js:28-40 | with whole-number ids, a row matches the DELETE iff it holds the pair the INSERT stores them as |
| Favorites.PairsAfterRemove | ExpressJS01/src/models/favorite.js:40-42 | a remove with whole-number ids takes out exactly their pair and no other user's or product's |
| Favorites.WithoutMatchesNone | ExpressJS01/src/models/favorite.js:40 | a DELETE that matches nothing changes nothing |
| Favorites.AddThenRemoveRestores | ExpressJS01/src/models/favorite.js:26-43 | adding a new pair of whole-number ids and removing it restores the table |
| Favorites.FractionRemovesNothing | ExpressJS01/src/models/favorite.js:26-43 | an id with a fraction removes nothing and counts zero rows, although `addFavorite` stores it rounded |
| Favorites.ProductsWithId | ExpressJS01/src/models/favorite.js:49 | the join picks exactly the products with that id |
| Favorites.FavoritesByUser | ExpressJS01/src/models/favorite.js:45-54 | a product is listed iff it exists and the user has a favourite row for it |
| Orders.QuantityArg | ExpressJS01/src/models/order.js:23 | an omitted quantity becomes 1 and any other value is kept |
| Orders.CreateOrder | ExpressJS01/src/models/order.js:23-35 | a store error or NULL argument throws and changes nothing; otherwise exactly one row is appended and its id returned |
| Orders.PurchaseCount | ExpressJS01/src/models/order.js:39-44 | the count is positive iff an order for the pair exists |
| Orders.HasUserPurchasedProduct | ExpressJS01/src/models/order.js:37-49 | a store error propagates; otherwise true iff an order for the pair exists |
| Orders.PurchaseCountAppend | ExpressJS01/src/models/order.js:39-44 | a new order raises the count by 1 if it matches and by 0 otherwise |
| Orders.PurchasedAfterOrder | ExpressJS01/src/models/order.js:23-44 | after ordering with whole-number ids, the user has purchased the product, and a repeat order counts again |
| Orders.FractionNeverPurchased | ExpressJS01/src/models/order.js:23-44 | an id with a fraction never counts as purchased, although `createOrder` stores it rounded |
| Orders.OtherOrdersIrrelevant | ExpressJS01/src/models/order.js:40 | an order for another user or product does not change the answer |
| Comments.CreateComment | ExpressJS01/src/models/comment.js:24-36 | a store error or NULL value throws and changes nothing; otherwise exactly one comment is appended and its id returned |
| Comments.Authored | ExpressJS01/src/models/comment.js:46 | a comment joins with exactly the users having its user id |
| Comments.Joined | ExpressJS01/src/models/comment.js:43-47 | a view is returned iff it joins a comment of this product with its author |
| Comments.NewerFirstIsTotalPreorder | ExpressJS01/src/models/comment.js:48 | newest-first by date is a total preorder |
| Comments.CommentsByProduct | ExpressJS01/src/models/comment.js:38-58 | the result has only this product's comments, sorted by date non-increasing, and is a permutation of the join |
| Comments.ProductComments | ExpressJS01/src/models/comment.js:68 | the filter keeps exactly this product's comments and never has more rows than the table |
| Comments.ProductCommentsSnoc | ExpressJS01/src/models/comment.js:68 | one more comment joins its own product's comments and no other product's |
| Comments.CommentStats | ExpressJS01/src/models/comment.js:61-76 | the distinct commenters never outnumber the product's comments, which never outnumber the table's |
| Comments.CommentersAtMostComments | ExpressJS01/src/models/comment.js:64-66 | there are no more distinct commenters than comments |
| Comments.UniqueAtMostTotal | ExpressJS01/src/models/comment.js:61-76 | `unique_commenters` never exceeds `total_comments` |
| Comments.NoCommentsZeroStats | ExpressJS01/src/models/comment.js:61-71 | a product with no comments has both stats 0 |
| Comments.StatsAfterComment | ExpressJS01/src/models/comment.js:64-66 | a new comment raises the total by 1, and the distinct count by 1 iff the author is new |
| Comments.StatsIgnoreOtherProducts | ExpressJS01/src/models/comment.js:68 | a comment on another product changes no stat |
| CategoryController.NewestFirstIsTotalPreorder | ExpressJS01/src/controllers/category.controller.js:6 | newest-first by `created_at` is a total preorder |
| CategoryController.Listing | ExpressJS01/src/controllers/category.controller.js:6 | the listing is ordered by `created_at` descending and is a permutation of the table |
| CategoryController.GetAllCategories | ExpressJS01/src/controllers/category.controller.js:3-12 | a failed connection exits the process; a query error gives 500; otherwise the listing |
| CategoryController.GetCategoryById | ExpressJS01/src/controllers/category.controller.js:14-29 | 404 iff no category has the id, otherwise the matching row |
| CategoryController.CreateCategory | ExpressJS01/src/controllers/category.controller.js:31-49 | a falsy name gives 400 and no insert; otherwise the row is appended with a null description when none is given, and 201 carries the new id |
| CategoryController.Updated | ExpressJS01/src/controllers/category.controller.js:57-60 | the UPDATE keeps every row's id and creation time |
| CategoryController.UpdateThenGet | ExpressJS01/src/controllers/category.controller.js:57-64 | after an update the id's row carries the new name and description, and other rows are unchanged |
| CategoryController.UpdatedValid | ExpressJS01/src/controllers/category.controller.js:57-60 | an update keeps the table valid |
| CategoryController.UpdateCategory | ExpressJS01/src/controllers/category.controller.js:51-71 | an undefined name gives 500; an absent id gives 404 and changes nothing; the name is not validated otherwise |
| CategoryController.Removed | ExpressJS01/src/controllers/category.controller.js:78 | a row survives iff the id does not select it |
| CategoryController.RemovedValid | ExpressJS01/src/controllers/category.controller.js:78 | a delete keeps the table valid |
| CategoryController.DeleteThenGetNotFound | ExpressJS01/src/controllers/category.controller.js:78-82 | after a delete a get of the same id finds nothing |
| CategoryController.Unlinked | ExpressJS01/src/models/product.js:20 | deleting a category sets its products' `category_id` to NULL and leaves other products alone |
| CategoryController.DeleteCategory | ExpressJS01/src/controllers/category.controller.js:73-89 | an absent id gives 404 and changes nothing; a present id is removed and its products unlinked |
| UserService.UserByEmail | ExpressJS01/src/services/userService.js:10 | the lookup finds a user the bound e-mail selects under MySQL's comparison (as text for a string, as a double for a number or boolean), or none exactly when no user is selected |
| Database.SameTextSelects | ExpressJS01/src/services/userService.js:10 | a stored e-mail with the same text as the bound value is selected by it, whether that value is a string, a number or a boolean |
| Database.TextNumberOfInt | ExpressJS01/src/services/userService.js:10 | the text of an integer reads back as that integer when MySQL compares it as a number |
| Database.NumberSelectsText | ExpressJS01/src/services/userService.js:35 | the number 0 selects `alice@x.com`, the number 5 selects `5abc`, and the string `"5"` does not select `5abc` |
| UserService.NumericEmailLogsIn | ExpressJS01/src/services/userService.js:32-66 | a login body whose e-mail is the number 0 logs in as a stored user whose e-mail has no leading number, given that user's password |
| UserService.CreateUserService | ExpressJS01/src/services/userService.js:7-30 | a taken e-mail or any error gives null and changes nothing; otherwise one user is appended with role `user` and the password's digest, and id, name, e-mail and role are returned |
| UserService.LoginService | ExpressJS01/src/services/userService.js:32-77 | a store error gives null, and so does a non-string password for a known e-mail; for a known e-mail and a string password the login succeeds iff the password matches the stored digest, with EC 0, a token and a user carrying only e-mail and name, and otherwise gives `{EC: 1, EM}`; an unknown e-mail gives that same failure answer |
| UserService.SharedKeyPrefixMatches | ExpressJS01/src/services/userService.js:17-39 | two passwords whose encodings agree on the first 72 bytes each match the other's digest |
| UserService.ShortAsciiMatchesIffEqual | ExpressJS01/src/services/userService.js:17-39 | an ASCII password under 72 characters matches a digest iff it is the hashed text |
| UserService.LoginIgnoresBytesPastKey | ExpressJS01/src/services/userService.js:32-66 | a known e-mail logs in with any password agreeing with the registered one on the first 72 encoded bytes |
| UserService.LoginFailureIsUniform | ExpressJS01/src/services/userService.js:40-72 | an unknown e-mail and a wrong password give the identical `{EC: 1, EM}` answer |
| UserService.RegisterThenLogin | ExpressJS01/src/services/userService.js:7-66 | a newly registered user logs in with the registered password |
| UserService.LookupAfterAppend | ExpressJS01/src/services/userService.js:10-23 | a registered e-mail is found as the new row |
| UserService.GetUserService | ExpressJS01/src/services/userService.js:79-87 | every user is listed without the password; a store error gives null |
| Auth.FindPrefix | ExpressJS01/src/middleware/auth.js:9 | the search returns a whitelist entry that prefixes the URL, or none iff no entry does |
| Auth.WhitelistedIffRooted | ExpressJS01/src/middleware/auth.js:6-11 | a URL is whitelisted iff it starts with `/` |
| Auth.RootedUrlsBypassAuth | ExpressJS01/src/middleware/auth.js:6-11 | every URL starting with `/` goes straight to `next()` |
| Auth.Split | ExpressJS01/src/middleware/auth.js:14 | a split has at least one field and no field contains the separator |
| Auth.JoinSplit | ExpressJS01/src/middleware/auth.js:14 | joining the fields of a split gives back the header |
| Auth.SplitJoin | ExpressJS01/src/middleware/auth.js:14 | splitting joined separator-free fields gives back the fields |
| Auth.SplitPrefix | ExpressJS01/src/middleware/auth.js:14 | a first field before the separator is split off as the first field |
| Auth.SplitNoSep | ExpressJS01/src/middleware/auth.js:14 | a header without a space is one field |
| Auth.TokenOf | ExpressJS01/src/middleware/auth.js:14 | the token is undefined or a string |
| Auth.BearerToken | ExpressJS01/src/middleware/auth.js:14 | `scheme token` yields the token, and a header without a space yields undefined |
| Auth.Decide | ExpressJS01/src/middleware/auth.js:5-50 | `next()` without authentication happens iff the URL is whitelisted; 500 comes only from a failed lookup on a real connection; authentication needs a token and a lookup that did not fail |
| Auth.RejectedTokenUnauthorized | ExpressJS01/src/middleware/auth.js:21-49 | a token that `jwt.verify` rejects gets 401 from the catch |
| Auth.LookupErrorServerError | ExpressJS01/src/middleware/auth.js:26-29 | a verified token whose user lookup fails gets 500 |
| Auth.LookupDecides | ExpressJS01/src/middleware/auth.js:26-42 | a verified token whose e-mail matches no user gets 401, and one that matches authenticates the first such user |
| Auth.NoTokenUnauthorized | ExpressJS01/src/middleware/auth.js:14-19 | a non-whitelisted request without a token gets 401 |
| Auth.FactoryNeverAuthenticates | ExpressJS01/src/middleware/auth.js:21-49 | with the connection function as `db`, no request is authenticated: the outcome is `next()` or 401 |
| Auth.AuthenticatedIsStoredUser | ExpressJS01/src/middleware/auth.js:26-42 | an authenticated request had a verified token and no lookup error, and `req.user` is exactly id, e-mail and name of a stored user with the token's e-mail |
| UserPage.Page.LoadFavorites | ReactJS01/reactjs01/src/pages/user.jsx:106-120 | without a user or on a failed request nothing changes; otherwise the list is the array response or `[]`, and the set is its ids |
| UserPage.Page.HandleToggleFavorite | ReactJS01/reactjs01/src/pages/user.jsx:135-165 | without a user nothing changes; a failed request gives false and changes nothing; otherwise true, and a favourited id leaves the list and the set, or a new id is appended to both; coherence is kept |
| UserPage.Page.HandleViewDetails | ReactJS01/reactjs01/src/pages/user.jsx:167-194 | with a product the modal opens on it, `isFavorite` is its membership in the set, and it is added to recently viewed |
| UserPage.Page.HandleModalClose | ReactJS01/reactjs01/src/pages/user.jsx:196-202 | the modal closes, the selection is null, similar products are `[]`, counts are zero and `isFavorite` is false |
| UserPage.FindOrStub | ReactJS01/reactjs01/src/pages/user.jsx:153 | the entry added has the toggled id and is a listed entry or the stub `{ id }` |
| UserPage.StubWhenAbsent | ReactJS01/reactjs01/src/pages/user.jsx:153 | an id not in the list gets the stub |
| UserPage.RemoveKeepsCoherence | ReactJS01/reactjs01/src/pages/user.jsx:145-150 | filtering the list removes exactly the id from its id set |
| UserPage.AppendKeepsCoherence | ReactJS01/reactjs01/src/pages/user.jsx:153-156 | appending adds exactly the id to the list's id set |
| UserPage.DoubleToggleRestoresMembership | ReactJS01/reactjs01/src/pages/user.jsx:142-156 | two successful toggles restore the id's membership |
| Sorting.SortBy | ExpressJS01/src/models/product.js:138 | an `ORDER BY` result is sorted by its key and a permutation of the rows |

## Left out

- MySQL column types and strict mode: values are kept as bound, except the
  INT user and product columns of favourites, orders and comments, which store
  the bound number rounded. Conversion errors, foreign-key violations and lost
  connections are the `fault` parameter.
- Database.SqlReal: decimal text is read exactly, not rounded to a double,
  and a huge exponent does not overflow; MySQL differs only on text with more
  than about fifteen significant digits or such an exponent.
- Database.SqlInt: text with trailing characters after its number is stored
  as that number, as MySQL does outside strict mode; strict mode's refusal of
  such text is not modelled.
- Collation: text comparison is by code point. MySQL's default collation is
  case- and accent-insensitive.
- DECIMAL prices and `parseFloat`: numbers are integers, and `parseFloat` of
  a string reads the integer after its leading white space.
- JSON serialisation round trips in localStorage and HTTP bodies: what is
  written is what is read. Only the dropping of `undefined` members is
  modelled.
- AUTO_INCREMENT gaps: a failed insert does not use up an id, although
  InnoDB may.
- Concurrency and `async` ordering: each operation runs alone and to
  completion.
- Elasticsearch's periodic refresh (every second by default): `visible` is
  what search sees at one instant, and it changes only on an explicit
  refresh. SearchIndex.Index.Upsert and Products.SyncRows leave it alone,
  while the real index may have refreshed by itself meanwhile.
- IndexProducts.Projection: one `now` stands for every `new Date()` call of
  the loop, though each row and field reads the clock anew; only rows
  missing a timestamp are affected (see `ProjectionIgnoresClock`).
- UserService.BcryptMatches: a JavaScript string is taken as Unicode scalar
  values; a lone surrogate, and a NUL character, which the native binding
  treats as the end of the text, are not modelled.
- `created_at`/`updated_at` maintenance by the database, including on
  cascades, and `ON DELETE CASCADE` from users and products.
- Table and index creation on module load, the connection setup in the
  config files, and the routes: no logic beyond what is modelled.
- IndexProducts.Reindex: failures of the health check, of the refresh and of
  the count are one `esDown` flag or are not modelled. A failing
  `indices.exists` or `indices.create`, and a failing `pool.query` with a
  real pool (indexProducts.js:11-41), are not modelled either: the script
  catches them, writes nothing and exits with 0, while the model always has
  the index and writes every row.
- The secret, the expiry and the signature check of JWTs: `jwt.verify` is a
  parameter.
- UserPage.Page.HandleViewDetails: the similar-products and counts requests
  are not modelled, so those fields are left as they were.
- React rendering and loading flags, and message pop-ups.
- Comments.CommentsByProduct: a total function; the store error that
  `getCommentsByProduct` logs and rethrows (comment.js:54-57) is not modelled.
- Comments.CommentStats: a total function; the store error that
  `getCommentStats` rethrows (comment.js:72-75) is not modelled.
- Products.AllProducts: a total function; the store error `getAllProducts`
  lets propagate (product.js:93) is not modelled.
- Products.ProductsWithCategories: a total function; the store error
  `getProductsWithCategories` lets propagate (product.js:133) is not modelled.
- Favorites.FavoritesByUser: a total function; the store error
  `getFavoritesByUser` lets propagate (favorite.js:52) is not modelled.
- Products.AllProducts: a SELECT without ORDER BY is modelled as returning
  the rows in table order. MySQL promises no order, so only which rows come
  back is something callers can rely on.
- UserService.GetUserService: as for `Products.AllProducts`, the unordered
  SELECT is modelled in table order.
