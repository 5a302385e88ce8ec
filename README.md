# next-backend-one: list, create and upload handlers in Dafny

This project models the request-handling logic of three route files of a
Next.js back end that stores "items" and "users" in MongoDB and accepts
image uploads:

- `GET /api/items` and `GET /api/users` read the `page` and `limit` query
  parameters with `parseInt`, replace bad values by safe defaults (page 1,
  limit 10, limit at most 100), compute `skip = (page - 1) * limit` and
  `totalPages = ceil(total / limit)`, and return the window of at most
  `limit` records of the collection sorted by `createdAt`, newest first.
- `POST /api/items` and `POST /api/users` run a required-field validator
  (`validateItem`, `validateUser`) that pushes one message per failing field
  onto a list; a non-empty list is answered with 400 before the database is
  touched, otherwise the body is stored with `createdAt == updatedAt == now`
  and answered with 201.
- `POST /api/upload` checks, in this order, that a file is present, that its
  MIME type is one of five image types and that it is at most 5 MiB, then
  stores it as `<token>.<extension>` (the extension being
  `name.split(".").pop()`) and answers with the file name and the URL
  `/uploads/<filename>`.

Modules:

- `Js` — JavaScript values (`undefined`, `null`, booleans, numbers as reals
  plus NaN, strings, objects), truthiness, `typeof`, the destructuring
  `const { a } = payload || {}`, `searchParams.get(k) || fallback`, and
  `parseInt(text, 10)` on strings.
- `Documents` — a stored record (body fields plus the two timestamps), the
  stamping done on create, and what "sorted by `createdAt` descending" means
  (`IsRanking`), with a stable insertion sort showing that every collection
  has such a ranking.
- `Listing` — the page/limit sanitising, `skip`, `totalPages`, the window,
  and the list handler shared by both collections.
- `Validation` — a validator as a table of rules (field, test, message) and
  the list of messages it produces (`Violations`), with its properties.
- `ItemsRoute`, `UsersRoute` — `validateItem` / `validateUser` as methods
  that append to a sequence, proved equal to `Violations` over their rule
  tables; `GET` and `POST` over a collection given as a sequence.
- `UploadRoute` — the upload handler as a pure function of the form entry
  and the random token, with the written file recorded in its result.

The database is a parameter: a collection is a `seq<Document>`; the answer
of `find({}).sort({ createdAt: -1 })` is a second sequence `ranked` that the
list handler requires to be a newest-first permutation of the collection
(the database may order records with equal `createdAt` as it likes). A record
may lack `createdAt` (a wholesale replacement by a later update drops it);
the database lists such records after every dated one, and so does the
model. The clock (`new Date()`) and the UUID generator are parameters
(`now`, `token`).

Because each page is a separate request and the database may break ties in
`createdAt` differently each time, walking the pages is guaranteed to list
every record exactly once only when all requests see the same ranking; with
two records created at the same instant and a limit of 1, pages 1 and 2 may
both return the same record (`Listing.PagesMayRepeatAcrossRequests`).

## Model

| member | source | states |
|---|---|---|
| Js.OrEmptyObject | src/app/api/items/route.js:42 | a falsy payload becomes the empty object; any other value is kept |
| Js.Field | src/app/api/items/route.js:42 | a destructured field is undefined for a non-object payload, and otherwise the payload's own property when there is one |
| Js.ParamOr | src/app/api/items/route.js:12-13 | an absent or empty query parameter is replaced by the fallback text; a non-empty one is kept |
| Js.ParseInt | src/app/api/items/route.js:12-13 | `parseInt(text, 10)` is NaN exactly when no digit follows the leading white space and optional sign; the value read otherwise is stated by `Js.ParseIntOfDigits` and `Js.ParseIntOfSignedDigits` |
| Js.ParseIntOfDigits | src/app/api/items/route.js:12-13 | white space, a run of digits (leading zeros allowed, so "02" is 2) and any text not starting with a digit parse to the value of the digits |
| Js.ParseIntOfSignedDigits | src/app/api/items/route.js:12-13 | the same after a '+' or '-' sign: the value of the digits, negated after '-' (" -5x" is -5, "+5" is 5) |
| Js.TrimStartIsSuffix | src/app/api/items/route.js:12-13 | `parseInt` drops exactly the leading white space: a suffix remains and everything dropped is white space |
| Js.DigitPrefixIsLongest | src/app/api/items/route.js:12-13 | `parseInt` reads the longest run of digits at the start of the unsigned text |
| Js.ParseIntOfDecimal | src/app/api/items/route.js:12-13 | round trip: the numeral of any natural number parses back to it, whatever white space precedes it and whatever non-digit text follows |
| Js.ParseIntOfNegative | src/app/api/items/route.js:12-13 | a minus sign followed by a numeral parses to the negated number |
| Js.ParseIntWithoutDigits | src/app/api/items/route.js:12-15 | text with no digit after the white space and optional sign parses to NaN, which the handlers then replace by the default |
| Documents.Stamp | src/app/api/items/route.js:65-66 | the stored record copies every body field except the two timestamps, and has `createdAt == updatedAt == now`, so it is dated |
| Documents.DatedBeforeUndated | src/app/api/items/route.js:23 | in a newest-first sequence `createdAt` never increases among dated records, and no dated record follows an undated one |
| Documents.InsertByCreatedAt | src/app/api/items/route.js:21-23 | inserting a record into a newest-first sequence keeps it newest first and adds exactly that record |
| Documents.SortNewestFirst | src/app/api/items/route.js:21-23 | the result is a permutation of the collection, ordered by `createdAt` descending with undated records last |
| Documents.RankingExists | src/app/api/items/route.js:21-23 | every collection has a newest-first ranking, so requiring one excludes no collection |
| Documents.RankingSize | src/app/api/items/route.js:20-23 | a ranking has as many records as `countDocuments` counts |
| Listing.SafePage | src/app/api/items/route.js:12-15 | the page is at least 1; it is the parsed page when that is a positive integer, and 1 otherwise |
| Listing.SafeLimit | src/app/api/items/route.js:13-16 | the limit lies in 1..100; it is the parsed limit when that lies in 1..100, and 10 otherwise |
| Listing.Skip | src/app/api/items/route.js:18 | `skip` is a non-negative multiple of the limit whose quotient is `page - 1`; it is 0 exactly for page 1 |
| Listing.TotalPages | src/app/api/items/route.js:33 | `totalPages` is the ceiling of `total / limit`: `(totalPages - 1) * limit < total <= totalPages * limit`, and 0 exactly when there are no records |
| Listing.Window | src/app/api/items/route.js:24-25 | for a limit of at least 1, the window has `min(limit, max(0, n - skip))` elements, the ones from position `skip` on |
| Listing.List | src/app/api/items/route.js:5-34 | the response carries the sanitised page and limit, `total` equal to the collection size, `totalPages` as above, and as `data` the window of the ranking at `skip`, of length `min(limit, max(0, total - skip))`, newest first and drawn from the collection |
| Listing.WindowOfRanking | src/app/api/items/route.js:21-26 | a window of a newest-first ranking is newest first and holds only records of the collection |
| Listing.PagesArePrefix | src/app/api/items/route.js:18-26 | pages 1..n laid end to end are the first `n * limit` records of the ranking |
| Listing.PagesCoverRanking | src/app/api/items/route.js:18-33 | when every page is cut from the same ranking, pages 1..totalPages together list every record exactly once, in ranking order |
| Listing.PagesMayRepeatAcrossRequests | src/app/api/items/route.js:21-26 | with two records created at the same instant and a limit of 1, the two page requests may be answered from opposite rankings, so both list the same record and the other is never listed |
| Listing.TiedRecordsRankEitherWay | src/app/api/items/route.js:23 | records with the same `createdAt` may be listed in either order |
| Listing.PageBeyondLastIsEmpty | src/app/api/items/route.js:18-33 | a page after the last one returns no records |
| Listing.LimitOfNumeral | src/app/api/items/route.js:13-16 | a numeral in 1..100 is taken as the limit; any other numeral gives 10 |
| Listing.PageOfNumeral | src/app/api/items/route.js:12-15 | a positive numeral is taken as the page; "0" gives page 1 |
| Listing.DefaultsWithoutParameters | src/app/api/items/route.js:12-16 | without query parameters page 1 and limit 10 are used |
| Validation.PassesMeaning | src/app/api/items/route.js:44-47 | the three field tests in plain terms: non-empty string, any number (0 and NaN included), any string ("" included) |
| Validation.ViolationsOfFour | src/app/api/items/route.js:44-47 | four guarded pushes in a row produce the messages of the failing rules, in rule order |
| Validation.MessageIndex | src/app/api/items/route.js:44-47 | the position of the rule carrying a message, and `|rules|` exactly when no rule carries it |
| Validation.ViolationsExact | src/app/api/items/route.js:44-47 | a message is reported exactly when a rule carrying it fails |
| Validation.ViolationsBounded | src/app/api/items/route.js:40-49 | at most one message per rule |
| Validation.NoViolationsIffAllPass | src/app/api/items/route.js:40-49 | the list is empty exactly when every rule passes |
| Validation.ViolationsInRuleOrder | src/app/api/items/route.js:44-47 | with distinct messages, messages appear in strictly increasing rule position: none twice, table order kept |
| Validation.NonObjectFailsEveryRule | src/app/api/items/route.js:42 | a payload that is not an object fails every rule and gets every message |
| ItemsRoute.ValidateItem | src/app/api/items/route.js:40-50 | the pushed messages are the violations of the itemName/itemCategory/itemPrice/status rules; none exactly when the item is well formed; at most four |
| ItemsRoute.ItemErrorsInFieldOrder | src/app/api/items/route.js:44-47 | messages come in the order itemName, itemCategory, itemPrice, status, each at most once |
| ItemsRoute.NonObjectItemGetsEveryMessage | src/app/api/items/route.js:42-47 | a null, absent or non-object body gets all four messages, in order |
| ItemsRoute.EmptyStatusAndZeroPriceAccepted | src/app/api/items/route.js:44-47 | `status: ""` and `itemPrice: 0` raise no message, while `itemName: ""` always does |
| ItemsRoute.Get | src/app/api/items/route.js:5-38 | the items list response: the sanitised page (at least 1) and limit (in 1..100) of the query, ceiling page count, at most `limit` records of the collection from `skip` on, newest first |
| ItemsRoute.Post | src/app/api/items/route.js:52-75 | 400 exactly for a malformed item, with exactly the validator's messages and no insert; otherwise 201 with the stamped body, appended to the collection |
| UsersRoute.ValidateUser | src/app/api/users/route.js:40-50 | the pushed messages are the violations of the name/email/role/status rules; none exactly when the user is well formed; at most four |
| UsersRoute.UserErrorsInFieldOrder | src/app/api/users/route.js:44-47 | messages come in the order name, email, role, status, each at most once |
| UsersRoute.NonObjectUserGetsEveryMessage | src/app/api/users/route.js:42-47 | a null, absent or non-object body gets all four messages, in order |
| UsersRoute.EmptyStatusAcceptedEmptyNameRejected | src/app/api/users/route.js:44-47 | `status: ""` raises no message, while `name: ""` always does |
| UsersRoute.Get | src/app/api/users/route.js:5-38 | the users list response: the sanitised page (at least 1) and limit (in 1..100) of the query, ceiling page count, at most `limit` records of the collection from `skip` on, newest first |
| UsersRoute.Post | src/app/api/users/route.js:52-75 | 400 exactly for a malformed user, with exactly the validator's messages and no insert; otherwise 201 with the stamped body, appended to the collection |
| UploadRoute.Split | src/app/api/upload/route.js:36 | `split(".")` gives at least one piece and no piece contains a dot |
| UploadRoute.JoinSplit | src/app/api/upload/route.js:36 | splitting at the dots loses nothing: joining the pieces with dots gives the name back |
| UploadRoute.Extension | src/app/api/upload/route.js:36 | `split(".").pop()` has no dot and is the whole name when the name has none; `UploadRoute.ExtensionIsTextAfterLastDot` states the rest |
| UploadRoute.SplitHasOnePieceIffNoDot | src/app/api/upload/route.js:36 | the name splits into a single piece exactly when it has no dot |
| UploadRoute.ExtensionIsTextAfterLastDot | src/app/api/upload/route.js:36 | the extension is the dot-free text after the last dot; the whole name when there is no dot; empty when the name ends in a dot |
| UploadRoute.FileName | src/app/api/upload/route.js:37 | the generated name is the token, a dot, then the extension; `UploadRoute.TokenOfFileName` reads both back |
| UploadRoute.TokenOf | src/app/api/upload/route.js:37 | the text before the first dot contains no dot |
| UploadRoute.TokenOfFileName | src/app/api/upload/route.js:37 | a dot-free token and the extension can both be read back from `token.extension` |
| UploadRoute.DistinctTokensGiveDistinctNames | src/app/api/upload/route.js:37 | two generated names are equal exactly when their dot-free tokens and their extensions are equal, so distinct tokens never collide |
| UploadRoute.Upload | src/app/api/upload/route.js:10-56 | a missing file gets "No file uploaded", then a disallowed type the type error, then an oversize file the size error; a file is written exactly on success, under `token.extension`, and the URL is `/uploads/` followed by that name |
| UploadRoute.SizeLimitIsInclusive | src/app/api/upload/route.js:8-33 | a file of exactly 5,242,880 bytes is accepted and one byte more is refused with the size error |
| UploadRoute.TypeCheckedBeforeSize | src/app/api/upload/route.js:20-33 | an oversized file of a refused type gets the type error, not the size error |

## Left out

- MongoDB is not modelled: a collection is a sequence, `countDocuments` is its length, `insertOne` appends, and the `_id` field and the `findOne` re-read after the insert are left out (the response carries the stamped record itself).
- The order in which the database lists records with equal `createdAt` is not fixed: `Listing.List` takes any newest-first permutation of the collection as a parameter.
- Listing.List: the count (`countDocuments`) and the page (`find().sort().skip().limit()`) are two separate database reads with no transaction, and handlers run concurrently without locks; the model takes both from one snapshot `stored`, so it does not capture a write landing between them, after which `total` and `totalPages` can disagree with `data` (for instance 10 records, page 2, limit 10 and an insert in between: `total` 10, `totalPages` 1, one record in `data`).
- Listing.List: a `createdAt` that a partial update sets to something other than a date (a string, a number, an object) is not represented; a record's `createdAt` is a date or missing, and the database's ordering of other value types among dates is not modelled.
- `NextResponse`, `request.json()`, `request.formData()` and the URL parsing are HTTP plumbing; responses are datatypes with a status and a body, and the upload success body's constant `success: true` is not represented.
- The `catch` blocks are left out; the model has no failing I/O. In the items and users handlers they answer 500 with the caught error's message (database and JSON-parse failures); in the upload handler the catch logs the error with `console.error` and answers 500 with the fixed text "Failed to upload file".
- `new Date()`, `uuidv4()` and `writeFile` are nondeterministic or I/O: the time and the token are parameters and the written file is returned in the outcome instead of written. `Date` values are integers (milliseconds).
- Js.ParseInt: integers are unbounded, so a digit string too long for a double (which `parseInt` turns into Infinity or rounds) and the `Number.isFinite` test that catches Infinity are not modelled; white space covers the ECMAScript white space and line terminators listed in the `Js` module.
- Listing.TotalPages: `Math.ceil(total / safeLimit)` uses floating-point division in the source; the model uses exact integer ceiling division.
- JavaScript numbers are modelled as reals plus NaN, without Infinity or negative zero; arrays are represented as objects, which `typeof` also reports as "object".
- UploadRoute.Upload: the file size is the length of its byte content, and a form field that is text rather than a file has no MIME type, so it gets the type error.
- The item UI (`src/app/items/page.jsx`), the `pages/api/test` handlers and the `[id]` and profile routes are not part of this model.
