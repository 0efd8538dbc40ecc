# Item catalog: a verified model

This project models the in-memory grocery item catalog behind an Express
`/items` router. The catalog is an array of `{name, price}` records. The model
covers two files:

- `helpers.js`: the path-name normaliser `cleanString` and the two first-match
  lookups `retrieveItem` and `retrieveItemIndex`.
- `routes/items-routes.js`: the five handlers `GET /`, `POST /`, `GET /:name`,
  `PATCH /:name` and `DELETE /:name`.

Each handler is a pure function. It takes the store and the request inputs: the
path name, plus the body `name` and `price` fields. It returns a `Reply`, which
holds the response (a success payload with its status, or an error kind) and
the store the handler leaves behind.

Modules:

- `Wrappers` (`wrappers.dfy`): the `Option` type.
- `Text` (`text.dfy`): JavaScript's `String.prototype.trim`.
  - It is defined by a recursive strip from both ends.
  - It is characterised as the unique slice with white space on both sides
    and no white space at either end.
- `ItemStore` (`item_store.dfy`): the record, the store, and the three
  mutations the handlers apply (`push`, field assignment at an index,
  `splice(i, 1)`). Each mutation comes with a lemma that it keeps names unique.
- `Helpers` (`helpers.dfy`): `cleanString` as written, with a repeat-first-
  replacement loop, and the lookups.
  - The loop is proved equal to a single left-to-right replace-all pass.
  - The lookups are proved to agree with each other.
- `ItemsRoutes` (`items_routes.dfy`): the handlers, the error kinds and their
  statuses.
  - The PATCH handler appears twice: as written (`Update`) and with
    all-or-nothing validation (`UpdateAtomic`).
- `CatalogProperties` (`properties.dfy`): lemmas that relate several handler
  calls, and the quirks of the validation order.

Body fields are a small value type, `Absent | Str(s) | Num(n)`.

- `Present` is JavaScript truthiness: `undefined`, `""` and `0` are falsy.
- `Coerce` is unary `+` followed by `isNaN`. `None` stands for NaN.
  - A number stays itself.
  - An absent field is NaN.
  - A string goes through `parse`, a function parameter that stands for
    JavaScript's string-to-number conversion.
- A truthy non-string name makes `.trim()` throw a TypeError. The application's
  error handler answers that with status 500 (`app.js:19-25`); the model calls
  this error `NameNotText`.
- The other statuses are the ones the handlers throw: 404 for duplicate,
  not-found and name-collision errors, and 400 for everything else.

## Model

| member | source | states |
|---|---|---|
| Text.Trim | helpers.js:9 | The trimmed string is no longer than the input and has no white space at either end. |
| Text.TrimMeetsSpec | helpers.js:9 | Trim's result is a slice `s[i..j]` of the input whose cut-off prefix and suffix are entirely white space, and whose own ends are not white space. |
| Text.TrimUnique | helpers.js:9 | At most one string is a trim of a given string in that sense, so the recursive definition is the only one. |
| Text.TrimUntouched | helpers.js:9 | A string with no white space at either end is its own trim. |
| Text.TrimLeadingWs | helpers.js:9 | One leading white-space character before a trimmed, non-empty string is removed by trimming. |
| Text.TrimAllWs | routes/items-routes.js:35 | A string made only of white space trims to the empty string. |
| Text.TrimIdempotent | helpers.js:9 | Trimming twice is the same as trimming once. |
| Helpers.Search20 | helpers.js:12 | `search("%20")` returns -1 exactly when the string has no `%20`; otherwise it returns the least position where `%20` starts. |
| Helpers.ReplaceFirst20 | helpers.js:13 | `replace("%20", " ")` shortens the string by exactly 2: the text before the first match is kept, a space takes the match's place, and the text after it is kept. |
| Helpers.ReplaceLoop | helpers.js:12-14 | The loop terminates, because each round shortens the string by two. Its result has no `%20`, and a string without `%20` is returned unchanged. |
| Helpers.CleanString | helpers.js:6-18 | The output of cleanString never contains `%20`, whatever the input. |
| Helpers.CleanStringNo20IsTrim | helpers.js:9-14 | An input without `%20` comes back exactly trimmed: trimming cannot create a `%20`, so the loop never runs. |
| Helpers.ReplaceLoopIsReplaceAll | helpers.js:11-14 | Replacing the first `%20` until none is left gives the same string as one left-to-right replace-all pass: no new `%20` is ever created. |
| Helpers.ReplaceFirstKeepsReplaceAll | helpers.js:13 | A single first-match replacement does not change what the replace-all pass produces. |
| Helpers.CleanStringIsTrimThenReplaceAll | helpers.js:6-18 | cleanString is trim followed by replace-all of `%20`. |
| Helpers.CleanStringDecodesOneSpace | helpers.js:9-14 | When trimming removes nothing, a `%20` between two parts without `%20` becomes exactly one space. |
| Helpers.CleanStringNotIdempotent | helpers.js:9-14 | `"%20" + q` cleans to `" " + q`, keeping the leading space, and cleaning that again gives `q`. So cleanString is not idempotent. |
| Helpers.CleanLeadingSpace | helpers.js:9-14 | A leading space before a trimmed name without `%20` is removed by cleanString. |
| Helpers.RetrieveItemIndex | helpers.js:32-40 | `findIndex` gives -1 exactly when no record has the name; otherwise it gives the least index whose record has that name. |
| Helpers.RetrieveItem | helpers.js:21-29 | `find` gives `undefined` exactly when no record has the name; otherwise it gives a record of the store with that name. |
| Helpers.RetrieveAgrees | helpers.js:25-36 | The record `find` returns is the record at the index `findIndex` returns, so it is the first match. |
| Helpers.AppendedIsFirstMatch | routes/items-routes.js:48-50 | A record appended under a name the store lacked is that name's first match, at the old length. |
| Helpers.UniqueMatch | helpers.js:36 | In a store with unique names, the lookup finds the one record with the name. |
| ItemStore.Insert | routes/items-routes.js:50 | `push` adds the record at the end and keeps every earlier record. |
| ItemStore.RemoveAt | routes/items-routes.js:139 | `splice(i, 1)` shortens the store by one. Records before `i` stay in place; records after `i` shift down one place, in order. |
| ItemStore.SetName | routes/items-routes.js:106 | Assigning a name changes only the name of record `i`. |
| ItemStore.SetPrice | routes/items-routes.js:117 | Assigning a price changes only the price of record `i`. |
| ItemStore.InsertKeepsUnique | routes/items-routes.js:36-50 | Appending under a name the store lacks keeps names unique. |
| ItemStore.RemoveAtKeepsUnique | routes/items-routes.js:139 | Removing a record keeps names unique, and its name is then absent. |
| ItemStore.SetNameKeepsUnique | routes/items-routes.js:103-106 | Renaming to a name no record has keeps names unique. |
| ItemStore.SetPriceKeepsUnique | routes/items-routes.js:117 | Changing a price keeps names unique. |
| ItemsRoutes.ListAll | routes/items-routes.js:8-11 | GET of the collection answers 200 with every record, in store order, and leaves the store unchanged. |
| ItemsRoutes.Create | routes/items-routes.js:14-53 | POST, if-and-only-if for each outcome, in order: (1) both fields falsy, missing name, missing price, each 400; (2) a non-string name, 500; (3) the trimmed name already used, 404 naming the trimmed name and the price of the first record that has it; (4) a new name whose price is NaN, 400 naming the trimmed name and the raw price; (5) success, 201, appending exactly `{trim(name), +price}`. Every error leaves the store unchanged, and names stay unique. |
| ItemsRoutes.GetOne | routes/items-routes.js:56-69 | GET by name succeeds exactly when some record has the cleaned path name, and answers 200 with the first such record. Otherwise it answers 404 naming the cleaned name. The store never changes. |
| ItemsRoutes.Update | routes/items-routes.js:72-124 | PATCH as written, if-and-only-if for each check in order: not found (404), nothing to update (400), non-string name (500), new name already used by any record (404, naming the cleaned path name and the trimmed new name), a NaN price after those checks pass (400, naming the cleaned path name and the raw price), success (200). Only the target record can change. On success the supplied fields are set and the others kept. Every error except a bad price leaves the store unchanged; a bad price after an accepted rename leaves the rename written. Names stay unique. |
| ItemsRoutes.UpdateAtomic | routes/items-routes.js:76-77 | PATCH as the handler's comment describes it: the same checks with the same if-and-only-if conditions and error contents, the price check included, all before any write. Every error leaves the store unchanged, and success sets exactly the supplied fields of the target. |
| ItemsRoutes.Delete | routes/items-routes.js:127-142 | DELETE fails exactly when no record has the cleaned name, with 404 and the store unchanged. Otherwise it removes exactly the first match: the store is one shorter, the other records stay in order, and it answers 200 "Deleted". With unique names, the name is then gone. |
| CatalogProperties.CleanStringPlain | helpers.js:6-18 | A name without `%20` and without white space at its ends is its own trim and is unchanged by cleanString. |
| CatalogProperties.CreateThenGet | routes/items-routes.js:48-68 | After a successful POST, a GET whose path cleans to the new name returns the new record. |
| CatalogProperties.CreateTwiceRejected | routes/items-routes.js:35-39 | A second POST under the same trimmed name is refused with the first record's price, and the store stays as the first POST left it. |
| CatalogProperties.DeleteThenGet | routes/items-routes.js:132-140 | With unique names, a GET after a DELETE of the same path name answers 404. |
| CatalogProperties.UpdateAtomicAgrees | routes/items-routes.js:72-124 | The all-or-nothing update answers exactly what the router answers for every input, and leaves the same store whenever it succeeds. |
| CatalogProperties.UpdateNotAtomic | routes/items-routes.js:106-114 | An accepted rename followed by a NaN price answers 400 "not a number", yet the store now holds the renamed record. |
| CatalogProperties.RenameToSelfRejected | routes/items-routes.js:99-104 | A PATCH of an existing clean name whose body renames the item to that same name is refused as a 404 name collision, and the store is unchanged. |
| CatalogProperties.ZeroPriceIsMissing | routes/items-routes.js:21-28 | A POST with price 0 is refused as a missing price. |
| CatalogProperties.BlankNameStoredEmpty | routes/items-routes.js:21-51 | A name of white space only passes the presence check and is stored as the empty name. |
| CatalogProperties.GetDecodesSpaces | routes/items-routes.js:61-68 | Express decodes the path before the handler sees it, so this is about the decoded path parameter string: a parameter holding the literal text `p%20q` (a request for `/items/p%2520q`) answers exactly what the parameter `p q` (a request for `/items/p%20q`) answers. |
| CatalogProperties.SeededScenario | routes/items-routes.test.js:12-19 | On a store seeded with one record whose name has no white space at its ends and no `%20`: a duplicate POST is refused with the seeded price; a PATCH with blank fields changes nothing (400); a DELETE empties the store; a later GET answers 404. |
| CatalogProperties.SeededDuplicatePost | routes/items-routes.test.js:43-49 | POSTing the seeded record again is refused with its price, and the store is unchanged. |
| CatalogProperties.SeededBlankPatch | routes/items-routes.test.js:135-141 | A PATCH of the seeded record with blank name and price is refused, and nothing changes. |
| CatalogProperties.SeededDelete | routes/items-routes.test.js:205-209 | DELETE of the seeded record answers 200 and leaves an empty store. |
| CatalogProperties.HersheyBarIsClean | routes/items-routes.test.js:8 | The fixture name `giant hershey bar` has no white space at its ends and no `%20`, so it meets the seeded scenario's requirements and the tests' path names reach it. |

## Left out

- The Express application: `app.js` (JSON body parsing, router mounting, the catch-all 404 and the error mapper), `req`/`res` and JSON serialisation. Each handler is a function of the store, the path name and the two body fields. The error mapper is used only to give the TypeError its status 500.
- The `fakeDb` and `expressError` modules are not part of this model. The store is a sequence, and an error is a kind that carries its status.
- Numeric coercion (`+x`, `isNaN`) is IEEE-754 arithmetic. String-to-number parsing is the parameter `parse`. Numbers are `real`, so NaN, infinities and `-0` as body values are not modelled.
- Body values other than strings and numbers (`null`, booleans, arrays, objects) are not modelled. Their truthiness and coercion follow JavaScript rules the value type does not cover.
- The exact error message texts, which embed number-to-string formatting. Errors carry their kind and the names and price they mention instead.
- Object aliasing: the handlers return and mutate the same record objects the caller holds, as the tests' shared fixture shows. The model's records are values.
- Concurrency: requests run one at a time to completion, so each handler is one atomic transition.
- Percent-decoding of the URL path is done by Express before a handler runs. Handlers take the decoded path parameter string; the `%20` cleanString replaces is literal text in that string.
- Strings are sequences of Unicode scalar values, while JavaScript strings are UTF-16 code units. A lone surrogate cannot be represented. On well-formed text, trimming and equality agree with JavaScript's.
- CatalogProperties.DeleteThenGet: requires unique names. With duplicate names the first DELETE removes only the first match, and a GET then finds the second.
- The PATCH name-collision check counts the target record itself: renaming an item to its own name is refused (see `RenameToSelfRejected`). The model follows the code, not the narrower reading in which only another record can collide.

## Findings

| source | as written | input that shows it | evidently intended | confidence | as-written member | corrected member |
|---|---|---|---|---|---|---|
| routes/items-routes.js:106-117 | The new name is written to the record before the new price is checked, so a NaN price answers 400 while the rename stays in the store. | Store `[{name: "a", price: 1}]`, `PATCH /a` with body `{name: "b", price: "x"}`, where `"x"` coerces to NaN: the answer is 400 and the store is `[{name: "b", price: 1}]`. | The comment at lines 76-77 says an error in any value makes no update: every field is checked before any write. | high; not executed | CatalogProperties.UpdateNotAtomic | ItemsRoutes.UpdateAtomic |
