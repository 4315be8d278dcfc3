# Notes service: sessions, ownership and the error taxonomy, in Dafny

This project models the core of a Kotlin/Spring notes service. The core has three parts:

- **`AuthService`**: `register`, `login` and single-use refresh-token rotation. It works over a
  user store and a ledger of refresh-token digests.
- **`NoteService`**: create, update, delete, read and list notes. Each note is guarded by
  its owner: a missing note is *not found*, and a note owned by someone else is *forbidden*.
- **`BaseException`**: the sealed error hierarchy. Each kind fixes an HTTP status and a
  default message. The services return these errors through a `Result`.

Files:

- `shared.dfy` (module `Shared`): the taxonomy, `Option` and `Result`.
- `auth_service.dfy` (module `Auth`): users, the ledger, Kotlin's `trim()`, and the class
  `AuthService`. It ends with methods that prove properties of call sequences: replay
  rejection, and login followed by refresh.
- `note_service.dfy` (module `Notes`): notes, the ownership guard, and the class `NoteService`.

Both services are classes whose methods reassign their store fields. `AuthService` holds
`users` (documents keyed by id plus the unique email index) and `refreshTokens` (the ledger,
a sequence of rows). `NoteService` holds `notes`, the repository's documents in repository
order with unique ids. Each method says what it returns and what the new state is. Its
`modifies` clause names only the field it writes. For example, `Register` cannot touch the
ledger, and `Login`/`Refresh` cannot touch the users.

Collaborators are function-valued fields fixed when the service is constructed, as Spring
injects them. These are the password encoder (`encode`, `matches`), the JWT service and
`hashToken`. `hashToken` is SHA-256 (FIPS 180-4) followed by Base64 (section 4 of RFC 4648).
They are modelled as deterministic functions: the same arguments always give the same
result (see "## Left out"). Beyond that, nothing is assumed about them except where a method
or lemma states an assumption in its `requires`:

- `DigestInjective`: distinct tokens have distinct digests.
- `EncoderSound`: `matches(p, encode(p))` holds.
- `SubjectRoundTrip`: the subject of a refresh token is the user it was issued for.

The clock (`now`) and freshly generated ids are parameters.

The model follows the code in these details, some of which a reader might expect otherwise:

- The duplicate-email check only trims the email. It does not fold case, so `A@x.com` and
  `a@x.com` are different users.
- `login` looks up the email exactly as given. Because `register` trims, an email registered
  with surrounding whitespace cannot log in with the same string (`UntrimmedEmailNotFound`).
- `register` returns the saved `User`, including its password hash.
- The ledger lookup ignores `expiresAt`.
- The three `refresh` failures carry three different messages.

## Model

| member | source | states |
|---|---|---|
| `Shared.BaseException.Status` | src/main/kotlin/com/km9/notes/shared/BaseException.kt:5-33 | every concrete kind's status is a 4xx client error, never the base class's default 500 |
| `Shared.StatusIdentifiesKind` | src/main/kotlin/com/km9/notes/shared/BaseException.kt:5-33 | two exceptions have the same status exactly when they have the same kind: the status ignores the message, and no two kinds share a status |
| `Shared.StatusTable` | src/main/kotlin/com/km9/notes/shared/BaseException.kt:10-33 | for any message: not found 404, bad request 400, unauthorized 401, forbidden 403, conflict 409, validation 422 |
| `Shared.Raise` | src/main/kotlin/com/km9/notes/shared/BaseException.kt:10-33 | building an exception keeps the requested kind; a given message is used and a missing one becomes the kind's default; a validation exception built this way has no field errors |
| `Shared.DefaultMessage` | src/main/kotlin/com/km9/notes/shared/BaseException.kt:11-31 | each kind's default constructor argument is a non-empty message ("Resource not found", "Bad request", "Unauthorized access", "Access forbidden", "Resource conflict", "Validation failed") |
| `Shared.DefaultMessagesDistinct` | src/main/kotlin/com/km9/notes/shared/BaseException.kt:11-31 | no two kinds share a default message |
| `Auth.IsWhitespace` | src/main/kotlin/com/km9/notes/service/AuthService.kt:28 | the characters `trim()` removes (Kotlin's `Char.isWhitespace` on the JVM: Java whitespace or a Unicode space separator) are never letters or digits and lie at or below U+3000 |
| `Auth.NoBreakSpacesAreBlank` | src/main/kotlin/com/km9/notes/service/AuthService.kt:28 | `trim()` removes the no-break spaces and the ASCII separators, and keeps the zero-width space, the byte-order mark and NEL |
| `Auth.SkipBlanks` | src/main/kotlin/com/km9/notes/service/AuthService.kt:28 | the index where `trim()` starts: everything before it is whitespace and the character at it is not |
| `Auth.DropTrailingBlanks` | src/main/kotlin/com/km9/notes/service/AuthService.kt:28 | the index where `trim()` ends: everything after it is whitespace and the character before it (if inside the range) is not |
| `Auth.Trim` | src/main/kotlin/com/km9/notes/service/AuthService.kt:28-34 | `email.trim()` is an infix of the email with only whitespace cut off either side, and it neither starts nor ends with whitespace |
| `Auth.TrimIdempotent` | src/main/kotlin/com/km9/notes/service/AuthService.kt:28-34 | trimming twice is trimming once, so every email `register` stores is already trimmed |
| `Auth.UserStore.FindByEmail` | src/main/kotlin/com/km9/notes/repository/UserRepository.kt:8 | `findByEmail` finds a user exactly when some stored user's email equals the argument character for character, and returns that stored user |
| `Auth.UserStore.Save` | src/main/kotlin/com/km9/notes/service/AuthService.kt:32-37 | saving a user with a fresh id and an unused email keeps the store consistent, makes both lookups find the new user, answers every other lookup as before, and adds exactly one user |
| `Auth.UserStore.FindById` | src/main/kotlin/com/km9/notes/service/AuthService.kt:65-68 | `findById` finds a user exactly when one is filed under that id, returns that user, and in a consistent store the user's own id is that id |
| `Auth.UntrimmedEmailNotFound` | src/main/kotlin/com/km9/notes/service/AuthService.kt:41 | when the stored emails are trimmed, a login email with surrounding whitespace finds nobody |
| `Auth.FindRow` | src/main/kotlin/com/km9/notes/service/AuthService.kt:70-72 | the ledger lookup returns a row of that user and digest if there is one, and reports absence only when no row matches; the expiry plays no part |
| `Auth.ExpiredRowStillFound` | src/main/kotlin/com/km9/notes/service/AuthService.kt:71 | a row whose `expiresAt` has passed is still found by the lookup |
| `Auth.DeleteMatching` | src/main/kotlin/com/km9/notes/service/AuthService.kt:74 | every row of that user and digest is deleted; every other row stays with its multiplicity |
| `Auth.DeleteMatchingAppend` | src/main/kotlin/com/km9/notes/service/AuthService.kt:74 | deletion works row by row and keeps the order of the remaining rows |
| `Auth.RotationRetiresDigest` | src/main/kotlin/com/km9/notes/service/AuthService.kt:70-79 | after deleting the spent digest and storing a different new one, the spent digest is no longer found and the new one is |
| `Auth.AuthService.constructor` | src/main/kotlin/com/km9/notes/service/AuthService.kt:19-25 | the service starts with the injected collaborators and the given consistent stores |
| `Auth.AuthService.Register` | src/main/kotlin/com/km9/notes/service/AuthService.kt:27-38 | if a user exists under the trimmed email: Conflict "A user with that email already exists.", and neither store changes; otherwise exactly one user is saved and returned, with the trimmed email and `encode(password)`; the ledger is never written |
| `Auth.AuthService.Login` | src/main/kotlin/com/km9/notes/service/AuthService.kt:40-57 | fails exactly when the untrimmed email is unknown or `matches` fails, with the same Unauthorized "Invalid credentials." in both cases and no change; on success returns the generated pair, leaves the users unchanged and appends exactly one row (user id, digest of the new refresh token, now + validity) |
| `Auth.AuthService.Refresh` | src/main/kotlin/com/km9/notes/service/AuthService.kt:59-85 | the checks run in order (token validation, then user by id, then a ledger row for the user and the digest), each with its own Unauthorized message; it succeeds exactly when all three pass, with no expiry check on the row; a failure changes nothing; success deletes every matching row, then appends one row for the new refresh token and returns the new pair; users unchanged |
| `Auth.AuthService.StoreRefreshToken` | src/main/kotlin/com/km9/notes/service/AuthService.kt:87-99 | appends exactly one row: the user, the digest of the raw token, and now plus the refresh validity |
| `Auth.RefreshTwice` | src/main/kotlin/com/km9/notes/service/AuthService.kt:60-79 | replay: after a successful refresh whose new token has a different digest, presenting the old token again fails, with "Refresh token not recognized..." whenever it still validates |
| `Auth.RefreshTwiceInjective` | src/main/kotlin/com/km9/notes/service/AuthService.kt:70-79 | the same replay rejection, assuming only that distinct tokens have distinct digests: the replay fails, with "Refresh token not recognized..." whenever the old token still validates |
| `Auth.LoginThenRefresh` | src/main/kotlin/com/km9/notes/service/AuthService.kt:40-85 | the refresh token a successful login returns is accepted by `refresh` while it still validates |
| `Auth.RegisterThenLogin` | src/main/kotlin/com/km9/notes/service/AuthService.kt:27-46 | with a sound encoder, a successful registration under an already trimmed email lets the same credentials log in |
| `Notes.ToResponse` | src/main/kotlin/com/km9/notes/service/NoteService.kt:29-34 | the response copies the saved note's id, title, description and creation time |
| `Notes.ResponseOmitsOnlyOwner` | src/main/kotlin/com/km9/notes/service/NoteService.kt:29-34 | two notes give the same response exactly when they differ at most in their owner |
| `Notes.IndexOf` | src/main/kotlin/com/km9/notes/service/NoteService.kt:41-43 | `findById` locates a note with that id, or reports that no stored note has it |
| `Notes.Guard` | src/main/kotlin/com/km9/notes/service/NoteService.kt:41-47 | existence before ownership: an absent id gives not found "Note not found with id: …"; a stored note of another owner gives forbidden "You don't have permission to … this note"; the caller's own note is located |
| `Notes.OwnedResponses` | src/main/kotlin/com/km9/notes/service/NoteService.kt:64-72 | listing by owner yields a response for every note of that owner and only for notes of that owner, with the id, title, description and creation time copied |
| `Notes.OwnedResponsesAppend` | src/main/kotlin/com/km9/notes/service/NoteService.kt:64-72 | the listing keeps repository order: it distributes over concatenation of the repository |
| `Notes.RemoveId` | src/main/kotlin/com/km9/notes/service/NoteService.kt:84 | `deleteById` keeps exactly the notes whose id differs |
| `Notes.RemoveIdAt` | src/main/kotlin/com/km9/notes/service/NoteService.kt:76-84 | in a repository keyed by id, deleting a present id removes exactly that one note and keeps the rest in order |
| `Notes.NoteService.constructor` | src/main/kotlin/com/km9/notes/service/NoteService.kt:13-16 | the service starts over a given repository with unique ids |
| `Notes.NoteService.CreateNote` | src/main/kotlin/com/km9/notes/service/NoteService.kt:18-35 | exactly one note is appended, owned by the caller, with the request's title and description, the fresh id and the creation time; the request's id is ignored; the response repeats the saved fields |
| `Notes.NoteService.UpdateNote` | src/main/kotlin/com/km9/notes/service/NoteService.kt:37-62 | a request without an id gives not found before any lookup; then the guard's not found or forbidden; it succeeds exactly when the id is present and the guard passes; every failure leaves the store unchanged; success rewrites only the title and description of that note (id, owner and creation time kept, other notes untouched) and returns the saved fields |
| `Notes.NoteService.FindNotesByOwnerId` | src/main/kotlin/com/km9/notes/service/NoteService.kt:64-73 | returns a response for each of the caller's notes and nothing built from any other owner's note |
| `Notes.NoteService.DeleteNote` | src/main/kotlin/com/km9/notes/service/NoteService.kt:75-85 | fails exactly as the guard does, leaving the store unchanged; success removes exactly the note with that id, one note fewer, others kept in order |
| `Notes.NoteService.FindNoteById` | src/main/kotlin/com/km9/notes/service/NoteService.kt:87-102 | read-only; absent id is not found, another owner's note is forbidden ("view"), the caller's note is returned with its stored fields |

## Left out

- JWT signing and validation (RFC 7519) and adaptive password hashing: the JWT service and
  the password encoder are not part of this model. They are abstract function fields.
  Token expiry and the access/refresh kind check live inside `validateRefreshToken`.
- The bits of SHA-256 and Base64 inside `hashToken`. It is an abstract function. Replay
  rejection assumes only that the new digest differs from the old one, or, in
  `RefreshTwiceInjective`, that distinct tokens have distinct digests.
- Concurrency and `@Transactional`. The model is sequential, so the race between the ledger
  find (AuthService.kt:71) and the delete (AuthService.kt:74) is not represented.
- The clocks. `Instant.now()` and the time the JWT service reads are one `now` parameter per
  call. In the source, the token's own expiry and the ledger row's `expiresAt` come from two
  separate clock reads.
- `Instant.plusMillis` overflow, which throws in the source. Time is an unbounded integer.
- `ObjectId.get()` and `ObjectId(hex)`. Fresh ids are parameters, required to be unused.
  Ids are opaque strings compared for equality. The `IllegalArgumentException` that
  malformed hex raises (from the token subject or from a note id) is not modelled, and
  neither is the lowercase form `toHexString()` produces.
- Store semantics beyond what the services use. A user is always saved under a fresh id, so
  saving a user over an existing id never happens. `updateNote` does save over an existing id;
  the model renders that save as replacing the stored note in place. A store holding two users
  with the same email (where `findByEmail` would throw) is excluded by the unique-email
  invariant of `UserStore.Valid`.
- Auth.FindRow: when several ledger rows match the user and digest, the model returns the
  first of them. The repository's single-result query (the repository is not part of this
  model) would instead fail on several matches. Two logins of one user at the same `now`
  can create such duplicate rows in the model, and a later `Refresh` then succeeds and
  deletes them all.
- Determinism of the collaborators. `encode`, `generateAccessToken`, `generateRefreshToken`
  and `hashToken` are functions, so equal arguments give equal results. A salted adaptive
  password encoder gives a different hash on each call, so `Register` lets a caller conclude
  that two users with the same password store the same hash, which the source does not
  promise. Likewise two tokens issued for one user at the same `now` are equal in the model.
- The entity classes `User`, `RefreshToken` and `AuthResponse` are not part of this model.
  Their fields are taken from how AuthService.kt builds and reads them.
- Controllers, `GlobalExceptionHandler` and `ApiResponse`: routing, mapping an exception to a
  response, and logging. The principal is passed explicitly rather than read from the
  security context.
- Bean Validation on `NoteRequest` (title and description lengths, not blank) and on
  `RefreshRequest` (not blank). The framework enforces these before the services run, and the
  services do not rely on them.
