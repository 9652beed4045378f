# egonomy: authentication, sessions and categories

A Dafny model of the core of egonomy, a personal-finance tracker written in Go.
It covers authentication and session bookkeeping (`user_handling.go`) and the
owner-scoped category table (`category_handling.go`).

The handlers talk to three database tables. The model holds them in one object,
`Storage.Database`:

- `users`: id, lower-cased email, 32-byte digest of password ++ salt, salt.
- `sessions`: token (the cookie value), owner id, ip, user agent, time initiated.
- `categories`: id, name, owner id.

Each table is the sequence of its rows in table order. `Database.Valid()` states
the table constraints: ids, emails and session tokens are unique, and ids are
positive. An id of 0 is Go's zero value. The handlers read it as "no such user"
or "anonymous".

Each HTTP handler is a method over the database. It returns the redirect target
it issues (`/login?error=2`, `/login?error=8`, `/settings?error=7`,
`/settings?success=1`, `/`, `/login`, `/settings`, `/categories`) and the cookie
it sets, if any. The SQL statements are modelled as functions in module
`Relational`:

- a single-row lookup by a unique column, which leaves the zero value on a miss;
- a `WHERE` filter, used by queries and by `DELETE`;
- an `INSERT` that fails when it would break a unique constraint.

`ORDER BY` is the stable insertion sort of module `Sorting`. Lemmas prove that it
gives a sorted permutation.

The foreign pieces are parameters:

- SHA-256 is a function `Bytes -> Digest` with a 32-byte result.
- The cookie encoder (`securecookie`'s `Encode`) is a per-call function from the
  payload `{"name": userID}` to an opaque value, or to a failure.
- `seededRand.Intn` is an oracle that gives the k-th random index.
- The database clock `NOW()` is a `Time` argument.

Go strings are byte strings, so emails, passwords, salts, ip addresses and user
agents are `Bytes`.

The model follows the code where a cleaner design would differ:

- The cookie payload carries the user id.
- The raw cookie value is stored as the session token and looked up without decoding.
- Logout only clears the cookie and leaves the session row in place.
- A termination or category deletion by a non-owner is silently ignored. There is no "forbidden" result.

## Model

| member | source | states |
|---|---|---|
| `Text.ToLower` | user_handling.go:57 | the lowered email has the same length, no upper-case ASCII letter, and only upper-case letters changed (to their lower-case letter) |
| `Text.Truncate` | user_handling.go:299-304 | the stored string is a prefix of the input of at most n bytes, equal to the input when it is already short enough and exactly n bytes otherwise |
| `Text.LexLeTotal` | category_handling.go:53 | the byte-wise name order compares any two names |
| `Text.LexLeTransitive` | category_handling.go:53 | the byte-wise name order is transitive |
| `Text.LexLeAntisymmetric` | category_handling.go:53 | two names each at most the other in byte-wise order are equal |
| `Relational.Where` | user_handling.go:263-266 | a `WHERE` filter keeps exactly the rows that satisfy the condition, and all of them when every row does |
| `Relational.WhereKeepsKeysDistinct` | user_handling.go:263-266 | deleting rows cannot break a unique constraint |
| `Relational.FindByKey` | user_handling.go:256 | a single-row lookup returns a row with the key, and finds nothing exactly when no row has it |
| `Relational.FindByKeyUnique` | user_handling.go:333 | on a unique column the lookup returns exactly the row that holds the key |
| `Relational.InsertUnique` | user_handling.go:115-118 | an insert fails exactly when the key is taken; otherwise it appends the row and keeps the column unique |
| `Sorting.SortBy` | user_handling.go:167 | `ORDER BY` returns a permutation of the selected rows |
| `Sorting.SortBySorted` | user_handling.go:167 | `ORDER BY` on a total preorder returns the rows in order |
| `Storage.UserByEmail` | user_handling.go:61-64 | the lookup by email finds the user with that email, or leaves the zero user when there is none |
| `Storage.UserById` | user_handling.go:222-225 | the lookup by id finds the user with that id, or leaves the zero user when there is none |
| `Storage.UpdateSha` | user_handling.go:235-238 | the password update replaces only the digest of the rows with that id; ids, emails, salts and all other rows stay |
| `Storage.UserIdByToken` | user_handling.go:333-336 | the owner looked up by token is 0 when no session has the token, and otherwise the owner of a session with it |
| `Storage.CategoryOwner` | category_handling.go:145-149 | the owner looked up by category id is 0 when the id is missing, and otherwise the owner of a row with that id |
| `UserHandling.Identity` | user_handling.go:330-339 | a request without a cookie, or whose cookie value is no session's token, is anonymous (0); a non-zero identity is the owner of a session whose token is the cookie value |
| `UserHandling.IdentityOfToken` | user_handling.go:330-339 | a cookie whose value is a session's token identifies that session's owner |
| `UserHandling.GetUserID` | user_handling.go:330-339 | no cookie, or no session with that token, gives 0 (anonymous); otherwise the owner of the session whose token is the cookie value; no table changes |
| `UserHandling.LoginAccepted` | user_handling.go:60-67 | the password check passes only if some stored user has the lower-cased email and a digest equal to that of password ++ salt; the zero user of a miss never passes |
| `UserHandling.LoginAcceptedIff` | user_handling.go:57-67 | login accepts exactly when a stored user has the lower-cased email and a digest equal to that of password ++ salt; an unknown email never succeeds |
| `UserHandling.SessionCookie` | user_handling.go:284-298 | the session cookie is named `cookie`, has path `/` and the encoded value; it expires 365 days after now exactly when "remember me" is set, and is a browser-session cookie otherwise |
| `UserHandling.NewSession` | user_handling.go:299-307 | the inserted row stores the ip cut to 128 bytes and the user agent cut to 256 bytes (each a prefix, unchanged when short enough), the cookie value as token, the user and the time |
| `UserHandling.SessionsAfterInsert` | user_handling.go:305-311 | the session insert appends the row when its token is free and leaves the table as it was when the token is taken; tokens stay unique |
| `UserHandling.TokenRoundTrip` | user_handling.go:305-312 | after the insert the cookie value identifies the logged-in user; if the token was taken the table is unchanged; the token stays unique |
| `UserHandling.SetCookie` | user_handling.go:276-314 | on an encoding failure, no cookie and no change; otherwise the session row is inserted and the cookie is set with the same value, even when the insert fails; the cookie lives a year only with "remember me"; other tables unchanged |
| `UserHandling.Login` | user_handling.go:50-74 | a rejected password redirects to `error=2` with no cookie and no change; an accepted one runs setCookie for the user found and redirects to `/`; users and categories unchanged |
| `UserHandling.LoginPage` | user_handling.go:75-79 | GET /login redirects home exactly when the request is identified |
| `UserHandling.SaltCharsetAlphanumeric` | user_handling.go:341-343 | the salt alphabet has 62 bytes, all letters or digits |
| `UserHandling.StringWithCharset` | user_handling.go:348-354 | the string has the requested length and byte i is the charset byte at the i-th random index, so every byte is from the charset |
| `UserHandling.Signup` | user_handling.go:103-125 | a taken email redirects to `error=8` with no change; otherwise exactly one user is appended with a fresh id, the lower-cased email, a 5-byte salt from the salt alphabet and the digest of password ++ salt; no session is created |
| `UserHandling.SignupPage` | user_handling.go:126-130 | GET /signup redirects home exactly when the request is identified |
| `UserHandling.SignupThenLogin` | user_handling.go:110-118 | a user stored by signup can log in with the same password and any casing of the email |
| `UserHandling.ClearCookie` | user_handling.go:316-324 | the clearing cookie has the session cookie's name and path `/`, an empty value and a negative max age |
| `UserHandling.Logout` | user_handling.go:140-143 | logout redirects to `/login` and only emits the clearing cookie; it has no access to any table |
| `UserHandling.ByInitiatedTotalPreorder` | user_handling.go:167 | ordering sessions by their initiation time is a total preorder |
| `UserHandling.SessionsOf` | user_handling.go:167 | the `WHERE user_id` filter keeps exactly the sessions of that user |
| `UserHandling.SettingsView` | user_handling.go:167-194 | the session list is exactly the caller's sessions (as a multiset and by membership), ordered by initiation time ascending; the current session id is the raw cookie value, or empty |
| `UserHandling.ChangePassword` | user_handling.go:210-246 | a wrong old password redirects to `error=7` with users unchanged; the right one replaces only that user's digest with the digest of the new password and the existing salt, then redirects to `success=1` |
| `UserHandling.ChangePasswordThenLogin` | user_handling.go:227-238 | after the change the new password logs in, and the old one does exactly when the two digests collide |
| `UserHandling.SessionsAfterTerminate` | user_handling.go:255-272 | termination removes only rows with the token that belong to the caller, and nothing when the owner found by token (0 if missing) is not the caller or the token is missing; tokens stay unique |
| `UserHandling.TerminateOwnSession` | user_handling.go:255-273 | after its owner terminates a session no row holds its token, so it no longer identifies anyone, and every session with another token stays |
| `UserHandling.TerminateSession` | user_handling.go:248-274 | the sessions table becomes the terminated table above and the handler redirects to `/settings`; other tables unchanged |
| `CategoryHandling.ByNameDescending` | category_handling.go:53 | in `ORDER BY name DESC` any two rows are ordered one way or the other, and both ways only when their names are equal |
| `CategoryHandling.CategoriesOf` | category_handling.go:168 | the `WHERE user_id` filter keeps exactly the categories of that user |
| `CategoryHandling.ByNameDescendingTotalPreorder` | category_handling.go:53 | name-descending order is a total preorder |
| `CategoryHandling.ScannedCategories` | category_handling.go:176-183 | scanning the query's rows gives one entry per category of the user and no other, ordered by name descending |
| `CategoryHandling.AllCategoriesOfUser` | category_handling.go:167-189 | the list has as many entries as the user has categories, contains exactly (id, name) of the user's categories, and is ordered by name descending |
| `CategoryHandling.ShowCategories` | category_handling.go:30-80 | an anonymous request is sent to `/login`; otherwise the page lists exactly the caller's categories, by name descending |
| `CategoryHandling.AddCategory` | category_handling.go:30-51 | anonymous: `/login` and no change; otherwise exactly one row is appended, with a fresh id, the given name and the caller as owner |
| `CategoryHandling.CategoriesAfterRename` | category_handling.go:99-102 | the rename changes only the name of rows whose id and owner both match the caller; ids, owners and all other rows stay |
| `CategoryHandling.RenameSparesOthers` | category_handling.go:99-102 | every row owned by someone else survives a rename unchanged |
| `CategoryHandling.EditCategory` | category_handling.go:84-107 | anonymous: `/login` and no change; otherwise the table becomes the renamed table above and the handler redirects to `/categories` |
| `CategoryHandling.CategoriesAfterDelete` | category_handling.go:144-162 | deletion removes only rows with the id that belong to the caller, and nothing when the owner found by id (0 if missing) is not the caller or the id is missing |
| `CategoryHandling.DeleteOwnCategory` | category_handling.go:144-162 | after its owner deletes a category no row has its id, and every row with another id stays |
| `CategoryHandling.DeleteCategory` | category_handling.go:135-165 | anonymous: `/login` and no change; otherwise the table becomes the deleted table above and the handler redirects to `/categories` |

## Left out

- HTTP plumbing is not modelled: form and query parsing, the dispatch on the request method, `http.Redirect`, template rendering, the `allErrors`/`allNotifications` lookups, logging and `log.Fatal`.
- `UserHandling.ChangePassword`: the `error=7` redirect after a failed `ParseForm` is not modelled (form parsing is plumbing).
- The GET branch of `editCategory` is not modelled. It only echoes query parameters into a template.
- main.go is not part of this model. It holds the router, the server bootstrap, and the transactions with their `float32` amounts and aggregated totals.
- SHA-256 and the HMAC/AES inside `securecookie` are foreign cryptography. They are parameters, not definitions.
- The seeding of `math/rand` is nondeterministic. The random draws are an input oracle.
- `UserHandling.SetCookie`: `time.Now()` for the cookie's `Expires` and the database's `NOW()` for `initiated` are one abstract `now`.
- `Text.ToLower`: only ASCII letters are lowered. `strings.ToLower` also maps non-ASCII characters, which this model leaves unchanged.
- The database schema is not part of this model. The model assumes unique emails, unique session tokens and unique positive ids.
- `UserHandling.Signup`: the user `INSERT` fails only on a duplicate email. Other database errors, which also lead to `error=8`, are not modelled.
- `UserHandling.ChangePassword`: the `UPDATE` never fails in the model. In the source, a database error also redirects to `error=7`.
- `UserHandling.SetCookie`: the session `INSERT` fails only on a duplicate token. In the source any other database error is only logged and the cookie is still set, but no row is stored, so the cookie resolves to 0 (anonymous). The model stores the row in those cases, so its round trip claims more than the source delivers there. One such error: the byte cut at 256 or 128 bytes can split a multi-byte UTF-8 character, and a database with UTF-8 text columns then rejects the row. A NUL byte in the ip or user agent is another.
- Category `INSERT`, `UPDATE` and `DELETE` never fail in the model. In the source their errors are only logged and the redirect is the same.
- The multi-row queries (the settings session list and both category listings) end the process through `log.Fatal` when they fail. This is not modelled.
- The single-row lookups (the user by email in login, the user by id in the password change, the owner by token in session termination and in `getUserID`, and the owner by category id in category deletion) only log a failure and keep Go's zero value. A database error therefore acts like a miss even when the row exists: the request is anonymous, login gives `error=2`, the password change gives `error=7`, and the termination or deletion is skipped. The handlers fail closed. The model gives the zero value only when no row matches and does not model database errors on these lookups.
- Ids are unbounded integers. New ids come from a counter that moves only on a successful insert, which abstracts the database's id sequence. Integer width is not modelled.
- `category-id` arrives as a form string that the database casts to an integer. The model takes the integer.
- `CategoryHandling.ByNameDescending`: `ORDER BY name DESC` is modelled as byte-wise (C collation) order through `Text.LexLe`. A database with another collation can order names differently, so the name order promised by `CategoryHandling.AllCategoriesOfUser` and `CategoryHandling.ShowCategories` holds for the C collation only.
- `Sorting.SortBy`: rows that tie keep table order, while SQL leaves their order unspecified.
- Concurrency between requests and transactional guarantees are not modelled. Each handler runs atomically.
