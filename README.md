# Bearer-token gate and CRUD handlers, modelled in Dafny

This project models the decision logic of a small Express/MySQL backend:

- **The authentication middleware** (`backend/auth.js`). It classifies the
  `Authorization` header: an absent or empty header gives 401
  "No token provided". A header whose `split(" ")` does not start with the
  exact piece `Bearer`, or whose second piece is empty or missing, gives 401
  "Invalid token format". A credential the JWT verifier refuses gives 401
  "Invalid token". Otherwise the request is accepted and `req.user` is the
  decoded claim set. JavaScript's `String.prototype.split` is modelled exactly
  for a one-character separator, so `"Bearer  x"` is rejected and
  `"Bearer a b"` is accepted with credential `a`. The header shape follows
  section 2.1 of RFC 6750, but the code is stricter and more literal than that
  RFC, and the model follows the code.
- **The route handlers** (`backend/index.js`): register, login, `GET`/`PUT
  /api/me` and item create/list/update/delete. They run on a `Server` class
  that holds the `users` and `items` tables as maps, plus their AUTO_INCREMENT
  counters. Its invariant holds the schema facts of `backend/db.js`: positive
  ids below the counter, unique emails, and a non-null item name (a plain
  string). Every protected handler runs the middleware first. When it
  rejects, the response is the middleware's and no table changes. The
  profile update builds its `updates`/`params` lists step by step, and the
  model proves that the resulting `UPDATE` statement writes exactly the
  intended row.

JWT signing and verification are function-typed constants of the server (a
`Signer` and a `Verifier`). A signer may throw, as `jwt.sign` does when
`JWT_SECRET` is unset; login then answers 500 for every correct password.
Round trips assume `Paired(sign, verify)`: signing never throws, and every
issued token is non-empty, has no spaces, and verifies to its own claims.
bcrypt records the cost factor 10 and the key its key schedule consumes. That
key is the password's UTF-8 bytes plus a terminating zero byte, repeated
cyclically to 72 bytes. `Matches(p, h)` holds exactly when `p` has the key
recorded in `h`. So bytes past the 72nd are ignored: 73 `a`s log in against
the hash of 72 `a`s followed by `b`.

Modules: `Js` (undefined-or-string fields, truthiness, `split`/`join`), `Jwt`,
`Auth`, `Passwords`, `Tables` (rows, schema facts, upload paths,
`ORDER BY id DESC`), `ProfileUpdate` (the SET-list builder and its meaning),
`Http` (responses and messages), `Backend` (the `Server` class) and
`Scenarios` (flows across several requests).

In several places the code is more literal than a reader might expect, and
the model follows the code:
- Login has no field validation. An absent email matches no row, so the
  answer is 400 "Invalid credentials". An absent password for a known email
  makes `bcrypt.compare` throw, and the catch answers 500.
- `GET /api/me` for an id with no row answers 200 with an empty body. There
  is no 404.
- The duplicate-email messages differ: "Email already exists" on register,
  "Email already used" on profile update.
- Pieces after the credential are ignored. The header is not required to
  have exactly two pieces.
- Item update always writes `name`. An absent name on an existing row is
  NULL for a NOT NULL column, so the answer is 500. This assumes MySQL's
  strict SQL mode, the server default; without it MySQL stores `''` with a
  warning and answers 200.
- There is no start-up check for a missing signing secret. Without one,
  `jwt.sign` throws, so every login with a correct password answers 500,
  while every well-formed bearer header is refused with 401 "Invalid token".

## Model

| member | source | states |
|---|---|---|
| `Js.Split` | backend/auth.js:8 | `split(" ")` always yields at least one piece, and no piece contains the separator |
| `Js.JoinSplit` | backend/auth.js:8 | joining the pieces of a split with the separator gives back the header: splitting loses nothing |
| `Js.SplitWithoutSeparator` | backend/auth.js:8 | a string without a space splits into itself alone |
| `Js.SplitAround` | backend/auth.js:8 | the pieces of `a + " " + b` are the pieces of `a` followed by those of `b` |
| `Js.SplitJoin` | backend/auth.js:8 | splitting undoes the join of space-free pieces |
| `Auth.ParseBearer` | backend/auth.js:8-9 | a credential that passes the format test is non-empty and has no space |
| `Auth.Authenticate` | backend/auth.js:4-16 | every rejection has status 401; "No token provided" is given exactly when the header is absent or empty |
| `Auth.NoHeaderNoToken` | backend/auth.js:5-6 | an absent or empty header is rejected with "No token provided" whatever the verifier would say |
| `Auth.ParsedCredentialShape` | backend/auth.js:8-9 | a passing header is `Bearer`, one space, the credential, then the end or another space |
| `Auth.CredentialParsed` | backend/auth.js:8-9 | every header of that shape passes, with exactly that credential |
| `Auth.MissingCredentialRejected` | backend/auth.js:8-9 | `"Bearer"`, `"Bearer "` and `"Bearer "` followed by a space-led rest (such as `"Bearer  x"`) are "Invalid token format" for every verifier |
| `Auth.SchemeMustBeBearer` | backend/auth.js:8-9 | a non-empty header whose first piece is not exactly `Bearer` is "Invalid token format" for every verifier |
| `Auth.LowerCaseSchemeRejected` | backend/auth.js:8-9 | the comparison is case-sensitive: `"bearer <t>"` is "Invalid token format" |
| `Auth.ExtraPiecesIgnored` | backend/auth.js:8-14 | `"Bearer t rest"` behaves as `"Bearer t"`, and that outcome is decided by the verifier's answer for `t` alone |
| `Auth.OnlyCredentialIsVerified` | backend/auth.js:4-16 | the outcome depends only on the header and the verifier's answer for the parsed credential; no other state is read |
| `Auth.UniformVerifierFailure` | backend/auth.js:11-12 | every verifier failure, whatever its cause, gives the same 401 "Invalid token" |
| `Auth.AcceptExactlyWhenVerified` | backend/auth.js:11-14 | the request is accepted with user `c` exactly when the header passes and the verifier decodes the credential to `c` |
| `Auth.IssuedTokenAccepted` | backend/auth.js:11-14 | a token from a paired signer, sent as `Bearer <token>`, is accepted with the claims it was issued for |
| `Passwords.Key` | backend/index.js:106 | bcrypt's key is always exactly 72 bytes long |
| `Passwords.Encode` | backend/index.js:78 | a password without a NUL character encodes to bytes without a zero |
| `Passwords.MatchesOwnHashOnly` | backend/index.js:106-108 | a password matches a hash made from it, and a hash made from another password exactly when the two share their bcrypt key |
| `Passwords.KeyPrefix` | backend/index.js:150 | up to and including its terminating zero byte, the key is the password's UTF-8 encoding |
| `Passwords.EncodeAppend` | backend/index.js:78 | the encoding of a concatenation is the concatenation of the encodings |
| `Passwords.LongPasswordsShareKey` | backend/index.js:106-108 | once a password's encoding reaches 72 bytes, anything appended to it leaves its key, and so its logins, unchanged |
| `Passwords.SeventyThirdByteIgnored` | backend/index.js:106-108 | 73 `a`s match the hash of 72 `a`s followed by `b` |
| `Passwords.ShortPasswordsDistinguished` | backend/index.js:106-108 | two NUL-free passwords whose encodings differ and are shorter than 72 bytes never match each other's hash |
| `Tables.InsertKeepsEmailsUnique` | backend/db.js:40 | inserting a row whose email is not in use keeps emails unique |
| `Tables.ReplaceKeepsEmailsUnique` | backend/db.js:40 | rewriting a row with an email no other row holds keeps emails unique |
| `Tables.UploadPathInjective` | backend/index.js:156 | an upload path lies under `/uploads/`, and distinct file names give distinct paths |
| `Tables.NewestFirst` | backend/index.js:202 | the listing holds exactly the stored rows, with their stored values, each once, in strictly descending id order |
| `Tables.CreatedItemListedFirst` | backend/index.js:202 | an item inserted above every existing id is listed first, followed by the previous listing unchanged |
| `ProfileUpdate.BuildProfileSet` | backend/index.js:144-159 | one clause per present field and no other, in the order name, email, password, profile_image; `params[i]` is the value of `updates[i]`, the password hashed; the list is empty exactly when no field is present |
| `ProfileUpdate.EmptyExactlyWithoutFields` | backend/index.js:161-162 | lined-up lists are empty exactly when no field of the form is present |
| `ProfileUpdate.ApplySetFields` | backend/index.js:166 | applying a SET list with distinct columns gives each listed column the form's value and leaves every other column as it was |
| `ProfileUpdate.BuiltSetPatches` | backend/index.js:144-166 | whatever lists line up with the form, the UPDATE they drive produces the patched row: present fields replaced, password re-hashed, everything else kept |
| `Backend.Server.constructor` | backend/db.js:36-54 | both tables start empty and the counters start at 1 |
| `Backend.Server.Register` | backend/index.js:67-89 | a falsy field gives 400 "All fields required" and an email in use gives 400 "Email already exists", both with the store unchanged; otherwise exactly one new user is added under a fresh id, with the hashed password and no profile image; items never change |
| `Backend.Server.Login` | backend/index.js:92-119 | an unknown or absent email and a wrong password give the same 400 "Invalid credentials"; an absent password for a known email gives 500; a match gives 200 with a token signed for that user's id, or 500 when signing throws (no secret) |
| `Backend.Server.GetMe` | backend/index.js:126-137 | a rejected header gets the middleware's 401; otherwise 200 with the caller's row minus the password, or an empty body when no row has that id |
| `Backend.Server.RunProfileUpdate` | backend/index.js:164-172 | the UPDATE writes the SET list to row `id` only; no matching row changes nothing; an email held by another row is a duplicate and changes nothing |
| `Backend.Server.UpdateMe` | backend/index.js:140-176 | after the middleware: no present field gives 400 "No fields to update" and no write; an email colliding with another user gives 400 "Email already used" and no change; otherwise only the caller's row becomes the patched row; items never change |
| `Backend.Server.CreateItem` | backend/index.js:183-197 | the new item gets a fresh id, the given name, and image `/uploads/<file>` or none without a file; an absent name gives 500 and no insert; users never change |
| `Backend.Server.ListItems` | backend/index.js:200-208 | after the middleware, 200 with every stored item exactly once, ordered by id descending |
| `Backend.Server.UpdateItem` | backend/index.js:211-233 | without a file only the name changes; with a file both name and image change; other items are untouched; a missing row changes nothing |
| `Backend.Server.DeleteItem` | backend/index.js:236-244 | after the middleware, exactly the row with the given id is removed |
| `Scenarios.RegisterThenLogin` | backend/index.js:67-137 | register, then login, yields a token for the new id that the middleware accepts; `/api/me` with it returns the registered name and email and no image |
| `Scenarios.RegisterTwice` | backend/index.js:74-76 | registering the same email a second time gives 400 "Email already exists" |
| `Scenarios.ChangePassword` | backend/index.js:149-153 | after a password-only profile update, login with the new password succeeds and, when the two passwords' bcrypt keys differ, login with the old one fails |

## Left out

- JWT internals: the signature algorithm, `exp` checking and the 7-day lifetime are inside the abstract `Signer`/`Verifier`. Expiry shows up only as one cause of a verifier failure.
- bcrypt internals: salts, the Blowfish cipher and the one-way property. The hash is a symbolic value that records the cost and the 72-byte key.
- `Passwords.Encode`: a Dafny `char` is a Unicode scalar value, so JavaScript strings holding a lone UTF-16 surrogate (which bcryptjs encodes as three bytes) are not modelled.
- The MySQL pool, table creation and `backend/setup-db.js`. Only the schema facts are kept.
- MySQL SQL modes other than the default strict mode: the item-update 500 for an absent name relies on strict mode.
- MySQL column collation: emails are compared exactly, while a case-insensitive collation would also treat `A@x` and `a@x` as equal.
- `VARCHAR` length limits. A too-long value makes MySQL fail with a 500, which is not modelled.
- Backend.Server.Register, Backend.Server.CreateItem: both `id` columns are 32-bit signed `INT` (`backend/db.js`), so once AUTO_INCREMENT has handed out 2147483647 every further insert fails and the handler answers 500. `nextUserId` and `nextItemId` are unbounded, and the model always inserts.
- `created_at` timestamps.
- AUTO_INCREMENT gaps: in the model a failed insert (a 500 on item create) does not advance `nextItemId`, while InnoDB may consume the id and leave a gap. Ids are visible: the listing returns each item's `id`, and clients send it back to update or delete. So after a failed create, the ids the model assigns can be lower than MySQL's. The contents and the order of the listing are otherwise the same.
- Multer storage and the `Date.now()`/`Math.random()` file-name generator. The stored file name is an input, and files on disk (including orphans left by a failed insert) are not modelled.
- Upload-directory creation, static serving, CORS, `dotenv`, `app.listen`, console logging and the constant `/health` route. They are environment plumbing with no decision logic.
- 500 answers caused by driver or network failures. The ones the code itself causes are modelled: NOT NULL item names, `bcrypt.compare` on an absent password, and the `ER_DUP_ENTRY` translation.
- Concurrency: two registrations racing between the email check and the insert would hit the UNIQUE constraint and get a generic 500.
- Request values of other JSON types (numbers, objects). A field is either absent or a string.
- The string `:id` route parameter and MySQL's string-to-number coercion. The id is an integer.
- The frontend (React views and browser storage).
