# bookhub backend — a verified model

This project models the decision logic of the bookhub backend, a small REST
service that registers and authenticates users and stores and lists book
records. The service runs over a document store with two collections,
`users` and `books`. Here the store is a class, `Server.Store`, whose two
`seq` fields hold the collections in insertion order. Each endpoint handler
is a method of that class. Each method's ensures gives its reply and the new
collections, through a specification function of the collections and the
request where the decision branches, and the properties the service promises
are proved about those functions as lemmas.

Layout:

- `wrappers.dfy` (`Wrappers`): `Option`, for request fields and document fields that may be absent.
- `sequences.dfy` (`Sequences`): the store's two scans. `find` keeps every match in order (`Filter`, `FindAll`). `findOne` takes the first match (`FirstIndex`, `FindFirst`). Also the lemmas about both.
- `uuid.dfy` (`Uuid`): `isValidUUID`, i.e. the textual UUID layout of section 3 of RFC 4122. It is modelled group by group, as the regular expression is written, and then characterised character by character.
- `text.dfy` (`Text`): case-insensitive search of a title for a search text that has no regular-expression metacharacters.
- `records.dfy` (`Records`): the `User` and `Book` documents, the injected password `Hasher`, and the HTTP replies with their exact status codes and messages.
- `book_query.dfy` (`BookQuery`): the filter document that list-books builds from `shelf` and `search`, what it means to the store, and what the endpoint promises (`Wanted`).
- `handlers.dfy` (`Handlers`): one specification function per endpoint decision, and the lemmas about them.
- `server.dfy` (`Server`): the `Store` class with its handler methods, and two client scenarios.

Password hashing is abstract. A `Hasher` holds `hash(password, salt)` and
`compare(password, hash)`, and the one law assumed of it is
`compare(pw, hash(pw, salt))` (`Records.Sound`). The random salt is a
parameter of `Register`.

Login with a known username and no `password` field ends in 500, not the
401 a caller might expect. The code hands the missing password
to the hasher's compare, which rejects non-string arguments, and the
handler's catch turns that into 500.

## Model

| member | source | states |
|---|---|---|
| Uuid.UuidLayout | backend/server.js:150-153 | an id is valid exactly when it has 36 characters, hyphens at positions 8, 13, 18 and 23, and a hex digit of either case everywhere else; version and variant digits are not inspected |
| Uuid.MatchGroupsLayout | backend/server.js:151 | the anchored pattern of hex groups separated by single hyphens accepts exactly the strings of the matching character layout |
| Uuid.UuidRejected | backend/server.js:150-153 | "not-a-uuid" and a UUID written without hyphens are refused |
| Text.TestIgnoreCaseContains | backend/server.js:110 | the store's case-insensitive `$regex` match of a literal search text succeeds exactly when the title contains the text, ignoring case |
| Text.UnencodableRefused | backend/server.js:110-112 | a search text holding NUL, U+2028 or U+2029 is not a literal pattern, which the store refuses; a plain word is one |
| Text.SearchExamples | backend/server.js:109-110 | "ABCDE" and "xxabcxx" contain "abc" ignoring case, and "xyz" does not |
| Sequences.FirstIndex | backend/server.js:59 | `findOne` yields a position whose record matches, with no match before it, and finds nothing only when no record matches |
| Sequences.FindFirst | backend/server.js:138 | the scan from the front returns the first matching position |
| Sequences.FindAll | backend/server.js:112 | the one-pass scan returns the matching records of the collection in collection order |
| Sequences.FilterIsSubsequence | backend/server.js:112 | what `find` returns is an order-preserving subsequence of the collection |
| BookQuery.BuildQuery | backend/server.js:104-111 | the filter document has a status condition exactly for shelf `READING` and a title pattern exactly for a non-empty search, and a book satisfies it exactly when it satisfies the endpoint's promise (`Wanted`) |
| BookQuery.MatchAllMatches | backend/server.js:123 | every book satisfies the empty filter document |
| Handlers.LoginCases | backend/server.js:56-72 | 200 exactly when a user has the name and the password verifies against the first such user's hash; the same 401 when no user has the name or that password does not verify; 500 only for a known name with no password |
| Handlers.RegisterThenLogin | backend/server.js:35-67 | after registering a fresh name with a non-empty password, logging in with the same credentials succeeds |
| Handlers.LoginUsesFirstRegistration | backend/server.js:59 | names are not unique, and a later user under a taken name does not change the login outcome for that name |
| Handlers.GetBookMalformedId | backend/server.js:133-136 | a malformed id gets 400 whatever the store holds |
| Handlers.GetBookWellFormedId | backend/server.js:138-142 | for a well-formed id: 404 exactly when no stored book has the id, otherwise the first stored book with it |
| Handlers.AddThenGet | backend/server.js:89-142 | a book added under a fresh well-formed id is then fetched by that id with the same fields |
| Handlers.AddUnderTakenId | backend/server.js:138 | adding a book under an id already stored does not change what fetching that id returns |
| Handlers.ListMembership | backend/server.js:105-112 | a book is listed exactly when it is stored and satisfies every active filter |
| Handlers.ListIsSubsequence | backend/server.js:112-113 | the listing is an order-preserving subsequence of the collection |
| Handlers.ListReadingShelf | backend/server.js:106-108 | with shelf `READING` every listed book has status `CURRENTLY_READING` or `WANT_TO_READ` |
| Handlers.ListSearch | backend/server.js:109-111 | with a non-empty search every listed book has a title that contains the search text, ignoring case |
| Handlers.ListOtherShelf | backend/server.js:106 | any shelf value other than `READING`, or none, gives the same listing as no shelf |
| Handlers.ListUnfiltered | backend/server.js:105-113 | with no `READING` shelf and no non-empty search the whole collection is listed, in order |
| Server.Store.constructor | backend/server.js:17-24 | an empty store over an injected hasher that keeps its law |
| Server.Store.Register | backend/server.js:35-50 | a missing or empty password gets 400 and stores nothing; otherwise 201 and exactly one user with the hash of the password is appended, existing users and all books unchanged |
| Server.Store.Login | backend/server.js:56-72 | the reply is the login decision over the current users; nothing is stored |
| Server.Store.AddBook | backend/server.js:89-99 | 201, and the submitted record is appended verbatim (an empty document when absent); users unchanged |
| Server.Store.ListBooks | backend/server.js:102-118 | the reply lists the stored books that the request's filters admit, in store order |
| Server.Store.TopRatedBooks | backend/server.js:121-129 | the reply is the whole collection, unsorted and unfiltered |
| Server.Store.GetBookById | backend/server.js:132-147 | the reply is the get-by-id decision: 400 before any lookup, then 404, then the first match |
| Server.RegisterThenLoginClient | backend/server.js:35-72 | a client that registers a fresh name and then logs in with the same password gets 200 |
| Server.AddThenGetClient | backend/server.js:89-147 | a client that adds a book under a fresh well-formed id and then fetches it gets the record back |

## Left out

- HTTP plumbing is not modelled: Express routing, CORS, JSON body parsing and `app.listen`. Requests and replies are Dafny values.
- The MongoDB connection is not modelled. The store's "natural order" is taken to be insertion order.
- Mongoose schema casting is not modelled: type coercion, dropping of unknown fields, the generated `_id` and `__v`. A book is a record of the schema's eight optional fields.
- Request values that are not strings are not modelled. Examples: a repeated query parameter (an array), a numeric password (the hasher would reject it, giving 500), a non-object `book_details`.
- Store failures are not modelled, and neither is logging. These are the 500 replies from the `catch` blocks.
- Of the 500 replies that follow from the request alone, the model covers one: login with a known username and no password. It excludes the others: a search text that is not a valid pattern, such as `(` or `*` (`new RegExp` throws); a search text holding a NUL character, or the line or paragraph separator U+2028 or U+2029, which the store refuses in a pattern (both kinds excluded by the requires of Server.Store.ListBooks); request fields that are not strings (see above); and field values the book schema cannot cast.
- bcrypt's salting and cost factor are not modelled. The hasher is abstract, with one law: a password verifies against any hash made from it.
- The model does not prove that a stored hash differs from the plaintext password. The abstract hasher has no law from which to prove it.
- Server.Store.ListBooks: requires the search text to be free of regular-expression metacharacters, of NUL and of U+2028 and U+2029. The code passes `search` unescaped to `new RegExp` and hands the pattern to the store as `$regex`, and general regular-expression semantics are not modelled. Some of the excluded search texts are answered with 500 by the code: those that are not valid patterns, and those holding NUL, U+2028 or U+2029, which the store refuses in a pattern.
- Text.TestIgnoreCase: folds only the ASCII letters. The store's regular-expression engine also folds letters outside ASCII, and that folding is not modelled.
- Server.Store.Login: takes the username as a string. A login body without `username` is not modelled. What such a filter matches depends on how the query library casts `undefined`, and that is not in this code.
- `rating` is carried as an optional `real` and is never inspected. Floating point is not modelled.
- Concurrent requests are not modelled. Each handler runs as one atomic step on the store.
