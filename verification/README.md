# Token authentication: a Dafny model of the token-session lifecycle

This project models the `token.authentication` model of an Odoo add-on. The add-on gives every user at
most one bearer token, stored as a row `(user_id, key, expiration_date)` in one table. It offers four
operations:

- `get_token` issues, returns or renews the user's token.
- `get_user` resolves the `Authorization` header to a user. It deletes an expired row when it meets one.
- `logout` revokes the token named by the header.
- `login` looks up the user, runs the credential check and, when the check passes, calls `get_token`.

Key generation (`generate_token_key`) is modelled as well: 32 characters from `[a-zA-Z0-9]`, then the
decimal Unix time.

The table is an immutable sequence of `Token` rows in id order. An ORM search with `limit=1` returns the
first matching row. Each operation is a pure function from the table, and whatever the request reads
from outside it, to an `Outcome`: the answer or the error raised, together with the table that the
executed statements leave behind. The two SQL `unique` constraints are the predicate
`TokenTable.Constraints`. `TokenTable.Wellformed` adds that every stored key is non-empty, which holds
because every key the operations write is a generated key. The database enforces the constraints, so
`create` and `write` are modelled as `TokenTable.Insert` and `TokenTable.Write`. They fail (None) when a
constraint would be violated, and that failure surfaces as `Failure.UniqueViolation`.

Inputs from outside the table are parameters, gathered in `TokenAuthentication.Env`:

- `now` and `today` are the two clocks, in integer seconds. `today` is the start of the current day.
- `pick` gives the `secrets.choice` draws, as positions in the 62-character alphabet.
- `stamp` is `int(time.time())`.
- `createdExpiration` is the value of the `expiration_date` column default.

The `Authorization` header is an `Option<string>`. The credential check is a function returning
`Raised` or `Returned(truthy)`.

Modules: `Wrappers` (Option, Result), `Rows` (first match, keep, remove, column uniqueness over a row
sequence), `KeyGen` (`generate_token_key`), `TokenTable` (rows, constraints, lookups, create/write/unlink),
`TokenAuthentication` (the four operations), and `Lifecycle` (properties relating several calls).

Behaviours of the code worth noting:

- **Credential check.** `login` issues a token only when `_check_credentials` returns a falsy value
  (lines 99-107). An exception from the check sets `check_user_password = True`, so it answers 401, and
  so does a truthy return. `TokenAuthentication.Login` states this.
- **Expiry of a new token.** A created row receives the default of the `expiration_date` column
  (lines 23-24). That default is an expression evaluated once, when the class is loaded, not when the
  row is created (see Findings).
- **Renewal.** A renewed token expires at `today + 30 days`, where `today` is midnight of the current
  day (line 54).
- **Unset expiration.** `expiration_date` is declared `required=True` (line 23), so the database
  column is NOT NULL and the ORM never stores a row without an expiration. The model deliberately
  generalises and allows such rows, so that the cleanup at line 36 and the comparison at line 79 have
  something to act on. On such a row `get_user` raises an unhandled `TypeError`, because the
  comparison `False < datetime` fails. This is `Failure.ExpirationUnset`.

## Model

| member | source | states |
|---|---|---|
| KeyGen.AlphabetShape | models/token_authentication.py:13 | the alphabet `ascii_letters + digits` has 62 characters, all letters or digits, no two equal |
| KeyGen.GenerateTokenKey | models/token_authentication.py:12-14 | a key is `length` + (digits of the timestamp) characters long, every character alphanumeric, the tail after `length` all decimal digits |
| KeyGen.KeyDecomposes | models/token_authentication.py:12-14 | position i < length of a key is the alphabet character of draw i, and the tail parses back to the timestamp |
| KeyGen.KeyInjective | models/token_authentication.py:12-14 | two keys of one length are equal only if their draws and their timestamps are equal, so regenerating in a later second always changes the key |
| KeyGen.Decimal | models/token_authentication.py:14 | `str(n)` for n >= 0: at least one digit, all digits, no leading zero unless n is 0 |
| KeyGen.DecimalRoundTrip | models/token_authentication.py:14 | parsing the numeral of n gives n back |
| KeyGen.CanonicalRoundTrip | models/token_authentication.py:14 | a digit string without a superfluous leading zero is the numeral of its value |
| KeyGen.DecimalLength | models/token_authentication.py:14 | the numeral of n has d digits with 10^(d-1) <= n < 10^d (one digit when n < 10), so the key length is 32 plus the digit count of the timestamp |
| TokenTable.RowOfUser | models/token_authentication.py:38 | the search by user finds a row of that user, or reports none exactly when no row belongs to the user |
| TokenTable.RowOfKey | models/token_authentication.py:74 | the search by key finds a row holding that key, or reports none exactly when no row holds it |
| TokenTable.RowOfUserUnique | models/token_authentication.py:26-29 | under `unique (user_id)` the search by user finds the user's only row |
| TokenTable.RowOfKeyUnique | models/token_authentication.py:26-29 | under `unique (key)` the search by key finds the key's only row |
| TokenTable.WithoutUnset | models/token_authentication.py:36 | the cleanup keeps exactly the rows whose expiration is set |
| TokenTable.WithoutUnsetKeeps | models/token_authentication.py:36 | the cleanup keeps both unique constraints and changes nothing when every expiration is set |
| TokenTable.Insert | models/token_authentication.py:42-45 | `create` succeeds exactly when no row has the new row's user or key; it then adds that one row and keeps the invariant |
| TokenTable.Write | models/token_authentication.py:52-55 | `write` succeeds exactly when no other row has the new user or key; it then replaces exactly the written row, keeps the size and keeps the invariant |
| TokenTable.RemoveAtKeeps | models/token_authentication.py:80 | `unlink` of one row removes exactly that row and keeps the invariant |
| TokenAuthentication.Response | models/token_authentication.py:76-127 | the failures raised as HTTP exceptions have an answer with status 400, 401 or 404; a constraint error and an unset expiration have none |
| TokenAuthentication.CreateToken | models/token_authentication.py:41-46 | the creation branch answers `(fresh key, True, False)` exactly when neither the user nor the key is taken, adding exactly the row (user, fresh key, column default); otherwise a constraint error with the table unchanged |
| TokenAuthentication.RenewToken | models/token_authentication.py:52-56 | the renewal branch answers `(fresh key, False, True)` exactly when no other row has the user or the fresh key; the written row then holds the fresh key and `today + 30 days`, and no other row changes |
| TokenAuthentication.GetToken | models/token_authentication.py:32-56 | afterwards no row has an unset expiration; other users' rows are exactly their rows with a set expiration; the invariant is kept; the only failure is a constraint error; a returned key is the key of the user's row |
| TokenAuthentication.GetUser | models/token_authentication.py:66-84 | no user exactly when no key or an empty one is sent; 404 exactly when no row has the key; otherwise the first row holding the key decides: an unset expiration raises, an expiration before `now` gives 400 and deletes exactly that row, else the row's user is returned; every outcome but 400 leaves the table as it was |
| TokenAuthentication.Logout | models/token_authentication.py:115-131 | no key gives 400; 404 exactly when no row has the key; success exactly when a row has it, returning the logout message and deleting exactly one row holding the key; errors leave the table as it was |
| TokenAuthentication.FindUser | models/token_authentication.py:91 | the login search finds an active user with that login, or reports none exactly when there is no such user |
| TokenAuthentication.Login | models/token_authentication.py:87-112 | 404 exactly when no active user has the login; 401 exactly when the check raised or returned a truthy value; both leave the table as it was; a token is issued only after a falsy check; otherwise the answer and the table are those of `get_token` for that user |
| Lifecycle.GetTokenCreates | models/token_authentication.py:36-46 | a user without a row with a set expiration gets `(fresh key, True, False)` exactly when the fresh key is not in use; the table is then the cleaned table plus exactly one row (user, fresh key, column default) |
| Lifecycle.GetTokenReturnsValid | models/token_authentication.py:48-50 | a user whose row is valid at `now` gets `(its key, False, False)`, and the table is left as the cleanup left it |
| Lifecycle.RenewalPath | models/token_authentication.py:36-56 | for a user whose row expired before `now`, the cleanup keeps the row, the search finds it, `get_token` takes the renewal branch and the write succeeds |
| Lifecycle.GetTokenRenewsExpired | models/token_authentication.py:52-56 | a user whose row expired before `now` gets `(fresh key, False, True)` and the size of the cleaned table is unchanged |
| Lifecycle.RenewalReplacesRow | models/token_authentication.py:52-55 | the renewal replaces the expired row by (same user, fresh key, today + 30 days), and every other row with a set expiration stays |
| Lifecycle.RenewalRetiresOldKey | models/token_authentication.py:52-56 | after a renewal no row holds the old key, provided the fresh key differs from it |
| Lifecycle.GetTokenFlagsExplained | models/token_authentication.py:41-56 | never both flags; created means the user had no row with a set expiration; no flag means the user's row was valid at `now` and only the cleanup happened; renewed means the user's row had expired and now holds the fresh key |
| Lifecycle.ValidityAgrees | models/token_authentication.py:49 | `get_token` returns a row unchanged exactly when `get_user` resolves its key, exactly when its expiration is at or after `now` (line 79 is the other half) |
| Lifecycle.ExpirySecondIsValid | models/token_authentication.py:79 | a row expiring exactly at `now` is valid for both `get_token` and `get_user` |
| Lifecycle.GetTokenStable | models/token_authentication.py:48-50 | asking `get_token` again while the issued row is valid returns the same key with no flags and changes nothing |
| Lifecycle.ExpiredThenNotFound | models/token_authentication.py:79-82 | after a 400 "Token expired", exactly the rows with that key are gone, and every later `get_user` with the key gives 404 |
| Lifecycle.LogoutThenNotFound | models/token_authentication.py:124-131 | a logout removes exactly the rows with that key; a second logout with the key gives 404, and so does `get_user` |
| Lifecycle.ResolvesWhileValid | models/token_authentication.py:74-84 | the key of a row with a set expiration resolves to the row's user exactly while the expiration is at or after the request time, and gives 400 exactly after it |
| Lifecycle.IssuedRow | models/token_authentication.py:41-56 | the issued key sits in the user's row; its expiration is the column default when created, today + 30 days when renewed, and at or after `now` when returned |
| Lifecycle.IssuedKeyResolves | models/token_authentication.py:41-56 | the issued key sits in the user's row; its expiration is the column default when created, today + 30 days when renewed, and at or after `now` when returned; `get_user` resolves the key to the user exactly while that expiration is not passed, and answers 400 after it |
| Lifecycle.LoginThenGetUser | models/token_authentication.py:109-112 | the key a successful login returns resolves to the logged-in user exactly while its row's expiration is not passed |
| Lifecycle.GetUserAnswers | models/token_authentication.py:74-82 | an unknown key answers 404 "Token not found", a key whose row has expired answers 400 "Token expired", no other HTTP answer occurs, and only an unset expiration escapes unhandled |
| Lifecycle.LogoutAnswers | models/token_authentication.py:118-127 | no key answers 400 "Token not provided", an unknown key answers 404 "Token not found", and every error of `logout` has an HTTP answer |
| Lifecycle.LoginAnswers | models/token_authentication.py:91-107 | no active user with the login answers 404 with an empty body; a check that raised or returned a truthy value answers 401 "Invalid password"; the only error without an answer is a constraint rejecting the token write |
| Lifecycle.StaleDefaultLoginUnusable | models/token_authentication.py:23-24 | with the class-load default, a first login more than 30 days after load returns a key that `get_user` rejects as expired in the same second |
| Lifecycle.IntendedDefaultLoginUsable | models/token_authentication.py:23-24 | with a default of 30 days from the creation day, every successful login returns a key that resolves to the user at once |

## Left out

- HTTP plumbing: the header is read at line 63 (`get_key`). It is replaced by the `header` parameter. `HTTPException` and `Response` objects are reduced to a status and a body (`TokenAuthentication.Response`); the content type is left out, as is the `description` that `login` passes with its 404 (an explicit `response` replaces it). The localisation `_` is left out.
- The randomness of `secrets.choice` and the clocks `time.time`, `fields.Datetime.now` and `fields.Datetime.today` are parameters. The timestamp is taken to be non-negative. Timezones and calendar arithmetic are left out: times are integer seconds and 30 days is 2592000 seconds.
- The internals of `res.users._check_credentials` are a foreign call. Only its outcome is modelled. `print(e)` is left out.
- Transactions are not modelled. The table shown is the state after the statements that ran. The model does not decide whether the framework rolls back a request that raised, which would undo the deletion before "Token expired".
- Concurrency is not modelled. That includes two simultaneous logins racing on `unique (user_id)`. The constraints are modelled as the checks `Insert` and `Write` make, and as the invariant `Wellformed`.
- The ORM's search order is taken to be row id order, the default.
- TokenAuthentication.GetToken: its contract states only invariant, frame and key ownership. The per-branch behaviour is stated by the `Lifecycle` lemmas `GetTokenCreates`, `GetTokenReturnsValid`, `GetTokenRenewsExpired`, `RenewalReplacesRow` and `GetTokenFlagsExplained`.

## Findings

| source | as written | input that shows it | evidently intended | confidence | as-written member | corrected member |
|---|---|---|---|---|---|---|
| models/token_authentication.py:23-24 | the default `fields.Datetime.today() + timedelta(days=30)` is evaluated once, when the class is defined, so every created token expires 30 days after the server loaded the module | a user without a token logs in more than 30 days after the server started: `login` returns a key, and the next `get_user` with it answers 400 "Token expired" and deletes it | a created token expires 30 days after its creation (a callable default) | high (not executed) | Lifecycle.StaleDefaultLoginUnusable | Lifecycle.IntendedDefaultLoginUsable |

The operations take the column default as the parameter `Env.createdExpiration`.
`TokenAuthentication.ClassDefault` is the value as written: the load day plus 30 days.
`TokenAuthentication.CreationDefault` is the intended value: the creation day plus 30 days.
Every lemma other than these two holds for either value.
