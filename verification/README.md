# Toonify account stores, modelled in Dafny

The application keeps user accounts in two independent ways, and this project
models both:

- **The credential store of `app.py`.** A SQLite table `users(id, email UNIQUE,
  password, images_processed DEFAULT 0)`, driven by `add_user`, `login_user`,
  `increment_image_count` and `get_image_count`. Module `UsersDb` (file
  `users_db.dfy`) models the table as a value `Db`: a map from email to the row
  with that email, plus the next AUTOINCREMENT id. Each SQL statement is a
  function on `Db`: `InsertUser`, `SelectByCredentials`, `UpdateIncrement` and
  `SelectImageCount`. The class `UsersTable` holds the table in mutable fields.
  Its methods are named after the Python functions, and each is proved equal to
  the statement it runs. The table invariant is `Valid`: rows are keyed by
  their own email, and ids are positive, distinct and below the next id.
  `HashedOnly` says every stored password came out of the hash function.
- **The registry of `auth.py`.** A saved list of `{username, email, password}`
  records, driven by `register_user` and `login_user`. Module `AuthRegistry`
  (file `registry.dfy`) holds the list in the field `users` of class
  `Registry`. Loading reads the field and saving assigns it. Both methods keep
  the source's front-to-back scan as a `while` loop. `FirstWithEmail` and
  `LoginOutcome` specify what the scan finds and what login answers.

Hashing is not modelled bit for bit. `hash_password` in `app.py` is the
function-valued constant `UsersTable.hash`. `hash_password(p).decode()` and
`check_password(p, s.encode())` in `auth.py` are `Registry.hash` and
`Registry.checkPassword`. All three are deterministic and otherwise unknown.
Nothing is assumed about how `checkPassword` relates to `hash`.

`hash_password` is unsalted SHA-256, and `login_user` compares digests with SQL
equality; the model follows the code. Both account stores are modelled.

## Model

| member | source | states |
|---|---|---|
| `UsersDb.EmptyTable` | app.py:13-25 | A freshly created table has no rows, satisfies the table invariant, and holds no unhashed password |
| `UsersDb.InsertUser` | app.py:30-42 | Succeeds iff the email is absent (UNIQUE constraint). On success it adds exactly one row (next id, the email, `hash(password)`, counter 0) and keeps every existing row. On failure the table is unchanged. It preserves the invariant |
| `UsersDb.SelectByCredentials` | app.py:44-53 | Returns a row iff some row has that email and stored hash `hash(password)`, and the row returned is such a row. Unknown email and wrong password both give `None` |
| `UsersDb.UpdateIncrement` | app.py:55-63 | Rows whose email matches gain exactly 1 on their counter. All other rows, the set of emails and the next id are unchanged. An absent email is a no-op |
| `UsersDb.SelectImageCount` | app.py:65-74 | Returns the counter of the row with that email, or 0 when no row has it |
| `UsersDb.InsertKeepsHashedOnly` | app.py:34-37 | After an insert every stored password is still the hash of some password, never a value that bypassed `hash` |
| `UsersDb.IncrementKeepsHashedOnly` | app.py:58-61 | The counter update leaves every stored password a hash |
| `UsersDb.RegisterThenLogin` | app.py:34-50 | A successful registration followed by a login with the same password fetches the new row (id, email, hash, counter 0) |
| `UsersDb.RegisterThenLoginOther` | app.py:47-50 | After registration, a login with another password succeeds exactly when the two passwords have the same hash |
| `UsersDb.RegisterTwice` | app.py:33-42 | A second registration of the same email fails and leaves the table as the first left it |
| `UsersDb.IncrementTimesCount` | app.py:58-61 | `n` increments of a present account raise its counter by exactly `n`, keep the set of emails, and leave every other account's counter unchanged |
| `UsersDb.RegisterThenCount` | app.py:55-74 | After registration and `n` increments, `get_image_count` returns `n` |
| `UsersDb.UsersTable.constructor` | app.py:13-25 | The store starts as the empty table and satisfies its invariant |
| `UsersDb.UsersTable.AddUser` | app.py:30-42 | The new table and the result are those of `InsertUser`, and the invariant is kept |
| `UsersDb.UsersTable.LoginUser` | app.py:44-53 | Returns what `SelectByCredentials` returns, and only ever a stored row with that email |
| `UsersDb.UsersTable.IncrementImageCount` | app.py:55-63 | The new table is that of `UpdateIncrement`, and the invariant is kept |
| `UsersDb.UsersTable.GetImageCount` | app.py:65-74 | Returns `SelectImageCount` of the table, and 0 for an unregistered email |
| `AuthRegistry.FirstWithEmail` | auth.py:26-27 | Finds the first record carrying the email: `None` iff no record has it, otherwise an index whose record has the email and before which no record has it |
| `AuthRegistry.LoginOutcome` | auth.py:23-30 | Login is False when no record has the email. When it is True, some record with that email passed the password check |
| `AuthRegistry.LoginChecksFirstMatch` | auth.py:26-28 | When some record has the email, login returns exactly the password check against the first such record |
| `AuthRegistry.AppendKeepsDistinct` | auth.py:7-17 | Appending a record whose email is not taken keeps all emails distinct |
| `AuthRegistry.DistinctFirstIsOnly` | auth.py:26-28 | When emails are distinct, login checks the one record carrying the email |
| `AuthRegistry.RegisterThenLogin` | auth.py:11-28 | After a successful registration, login with that email checks the password against the new record, whatever the earlier records hold |
| `AuthRegistry.Registry.constructor` | auth.py:5 | The registry starts from whatever list the store holds |
| `AuthRegistry.Registry.RegisterUser` | auth.py:4-20 | Returns True iff no record had the email. On True exactly one record `(username, email, hash(password))` is appended, so the length grows by one and earlier records are unchanged. On False the list is unchanged. Distinct emails stay distinct |
| `AuthRegistry.Registry.LoginUser` | auth.py:23-30 | Returns the password check against the first record with the email, or False if none; the list is not modified |

## Left out

- InsertUser, UpdateIncrement, RegisterThenCount: ids and counters are unbounded `nat`. SQLite's 64-bit INTEGER is not modelled: past 2^63-1 the counter update yields a REAL, and once the largest id is used AUTOINCREMENT fails with SQLITE_FULL, which `add_user` would report as False for an absent email.
- SHA-256 (app.py:27-28): `hash_password` is the uninterpreted parameter `hash`. So the model cannot show that a digest differs from its plaintext. It shows that every stored password is an output of `hash`.
- `utils.hash_password` and `utils.check_password`: that module is not part of this model. They are uninterpreted, and the `.decode()`/`.encode()` around them is folded into them.
- `database.load_users` and `database.save_users`: that module is not part of this model. The saved list is the field `Registry.users`. Records missing an `email` key, and file errors, are not modelled.
- The SQLite driver: connections, cursors, commits, and the connection left open when `add_user` fails.
- Exceptions in `add_user` other than the UNIQUE violation (the bare `except` at app.py:41 also turns I/O errors into False).
- `CREATE TABLE IF NOT EXISTS` on an existing database: `UsersTable.constructor` models only a fresh table. The table invariant is what an existing table written by this code also satisfies.
- NULL emails, which SQLite's UNIQUE constraint would admit more than once. The UI always passes a string.
- Concurrency: the model is sequential. Atomicity of the counter update across requests is not modelled.
- The Streamlit UI and session state (app.py:78-206), and the Cartoon and Sketch filters (app.py:177-200). These are OpenCV calls with floating-point kernels, outside the account stores.
