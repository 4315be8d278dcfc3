/**
 * The session lifecycle of the notes service: registration, login and
 * single-use refresh-token rotation over a user store and a refresh-token
 * ledger.
 *
 * The service's collaborators (the password encoder, the JWT service and the
 * token digest, which is SHA-256 as in FIPS 180-4 followed by the Base64
 * encoding of section 4 of RFC 4648) are function-valued fields fixed at
 * construction, so the model assumes nothing about them beyond what a lemma
 * states explicitly. The clock and freshly generated ids are parameters.
 */
module Auth {
  import opened Shared

  datatype User = User(id: UserId, email: string, hashedPassword: string)

  /** One outstanding refresh token: the digest of the raw token, never the token itself. */
  datatype RefreshToken = RefreshToken(userId: UserId, hashedToken: string, expiresAt: Instant)
  {
    /** The ledger's lookup key is the user and the digest; the expiry plays no part. */
    predicate Matches(user: UserId, hashed: string) {
      userId == user && hashedToken == hashed
    }
  }

  datatype AuthResponse = AuthResponse(accessToken: string, refreshToken: string)

  /** The adaptive password hash: `encode` and the verification `matches(raw, encoded)`. */
  datatype HashEncoder = HashEncoder(encode: string -> string, matches: (string, string) -> bool)

  /** The signed-token service, each operation taking the clock it reads as a parameter. */
  datatype JwtService = JwtService(
    generateAccessToken: (UserId, Instant) -> string,
    generateRefreshToken: (UserId, Instant) -> string,
    validateRefreshToken: (string, Instant) -> bool,
    getUserIdFromToken: string -> UserId,
    refreshTokenValidityMs: int)

  const DuplicateEmail := "A user with that email already exists."
  const InvalidCredentials := "Invalid credentials."
  const InvalidRefreshToken := "Invalid or expired refresh token."
  const UnknownTokenUser := "User not found for the provided token."
  const TokenNotRecognized := "Refresh token not recognized. It may have been used or expired."

  // ---------------------------------------------------------------------------
  // Email normalisation: Kotlin's String.trim()
  // ---------------------------------------------------------------------------

  /**
   * Kotlin's Char.isWhitespace on the JVM: a Java whitespace character or a
   * Unicode space separator (which adds the no-break spaces).
   */
  function IsWhitespace(c: char): (b: bool)
    ensures b ==> c <= '\U{3000}'
    ensures b ==> !('0' <= c <= '9' || 'A' <= c <= 'Z' || 'a' <= c <= 'z')
  {
    || ('\t' <= c <= '\r')
    || ('\U{1C}' <= c <= ' ')
    || c == '\U{A0}'
    || c == '\U{1680}'
    || ('\U{2000}' <= c <= '\U{200A}')
    || c == '\U{2028}' || c == '\U{2029}'
    || c == '\U{202F}' || c == '\U{205F}' || c == '\U{3000}'
  }

  /**
   * Kotlin's set is wider than Java's Character.isWhitespace: the no-break
   * spaces are trimmed too, while format characters such as the zero-width
   * space and the byte-order mark are kept.
   */
  lemma NoBreakSpacesAreBlank()
    ensures IsWhitespace('\U{A0}') && IsWhitespace('\U{2007}') && IsWhitespace('\U{202F}')
    ensures IsWhitespace('\U{1C}') && IsWhitespace('\U{3000}') && IsWhitespace('\U{2028}')
    ensures !IsWhitespace('\U{200B}') && !IsWhitespace('\U{FEFF}') && !IsWhitespace('\U{85}')
  {
  }

  /** The index of the first non-blank character at or after `i`, or |s| if there is none. */
  function SkipBlanks(s: string, i: nat): (n: nat)
    requires i <= |s|
    ensures i <= n <= |s|
    ensures forall k :: i <= k < n ==> IsWhitespace(s[k])
    ensures n < |s| ==> !IsWhitespace(s[n])
    decreases |s| - i
  {
    if i < |s| && IsWhitespace(s[i]) then SkipBlanks(s, i + 1) else i
  }

  /** The end of `s[lo..hi]` once its trailing blank characters are dropped. */
  function DropTrailingBlanks(s: string, lo: nat, hi: nat): (n: nat)
    requires lo <= hi <= |s|
    ensures lo <= n <= hi
    ensures forall k :: n <= k < hi ==> IsWhitespace(s[k])
    ensures lo < n ==> !IsWhitespace(s[n - 1])
    decreases hi
  {
    if lo < hi && IsWhitespace(s[hi - 1]) then DropTrailingBlanks(s, lo, hi - 1) else hi
  }

  /**
   * String.trim(): the infix of `s` left once the whitespace at both ends is
   * removed; it neither starts nor ends with whitespace.
   */
  function Trim(s: string): (r: string)
    ensures exists i, j :: 0 <= i <= j <= |s| && r == s[i..j]
                           && (forall k :: 0 <= k < i ==> IsWhitespace(s[k]))
                           && (forall k :: j <= k < |s| ==> IsWhitespace(s[k]))
    ensures r != [] ==> !IsWhitespace(r[0]) && !IsWhitespace(r[|r| - 1])
  {
    var i := SkipBlanks(s, 0);
    var j := DropTrailingBlanks(s, i, |s|);
    s[i..j]
  }

  /** Trimming an already trimmed email changes nothing. */
  lemma TrimIdempotent(s: string)
    ensures Trim(Trim(s)) == Trim(s)
  {
    var r := Trim(s);
    if r != [] {
      assert SkipBlanks(r, 0) == 0;
      assert DropTrailingBlanks(r, 0, |r|) == |r|;
      assert r[0..|r|] == r;
    }
  }

  // ---------------------------------------------------------------------------
  // The user store
  // ---------------------------------------------------------------------------

  /**
   * The user collection: documents keyed by id, and the unique index on the
   * email. Both lookups are exact matches: no trimming, no case folding.
   */
  datatype UserStore = UserStore(byId: map<UserId, User>, byEmail: map<string, UserId>)
  {
    /** Every user is filed under its own id, and the email index names each user exactly once. */
    ghost predicate Valid() {
      && (forall id :: id in byId ==>
            byId[id].id == id && byId[id].email in byEmail && byEmail[byId[id].email] == id)
      && (forall email :: email in byEmail ==>
            byEmail[email] in byId && byId[byEmail[email]].email == email)
    }

    /** findByEmail: the one user whose email equals `email` exactly, if any. */
    function FindByEmail(email: string): (r: Option<User>)
      requires Valid()
      ensures r.Some? <==> exists id :: id in byId && byId[id].email == email
      ensures r.Some? ==> r.value.email == email && r.value.id in byId && byId[r.value.id] == r.value
    {
      if email in byEmail then Some(byId[byEmail[email]]) else None
    }

    /** findById: the user filed under `id`, if any. */
    function FindById(id: UserId): (r: Option<User>)
      ensures r.Some? <==> id in byId
      ensures r.Some? ==> r.value == byId[id]
      ensures r.Some? && Valid() ==> r.value.id == id
    {
      if id in byId then Some(byId[id]) else None
    }

    /**
     * save of a user with a fresh id and an email nobody has: afterwards both
     * lookups find it, and every other lookup answers as before.
     */
    function Save(u: User): (r: UserStore)
      requires Valid()
      requires u.id !in byId && FindByEmail(u.email).None?
      ensures r.Valid()
      ensures r.FindById(u.id) == Some(u) && r.FindByEmail(u.email) == Some(u)
      ensures forall id :: id != u.id ==> r.FindById(id) == FindById(id)
      ensures forall email :: email != u.email ==> r.FindByEmail(email) == FindByEmail(email)
      ensures |r.byId| == |byId| + 1
    {
      UserStore(byId[u.id := u], byEmail[u.email := u.id])
    }
  }

  /**
   * Login looks the email up untrimmed: when every stored email is trimmed, as
   * register leaves them, an email with surrounding whitespace finds nobody.
   */
  lemma UntrimmedEmailNotFound(store: UserStore, email: string)
    requires store.Valid()
    requires forall id :: id in store.byId ==> Trim(store.byId[id].email) == store.byId[id].email
    requires Trim(email) != email
    ensures store.FindByEmail(email).None?
  {
  }

  // ---------------------------------------------------------------------------
  // The refresh-token ledger
  // ---------------------------------------------------------------------------

  /** findByUserIdAndHashedToken: the first row for that user and digest, whatever its expiry. */
  function FindRow(ledger: seq<RefreshToken>, user: UserId, hashed: string): (r: Option<RefreshToken>)
    ensures r.Some? ==> r.value in ledger && r.value.Matches(user, hashed)
    ensures r.None? ==> forall row :: row in ledger ==> !row.Matches(user, hashed)
  {
    if ledger == [] then None
    else if ledger[0].Matches(user, hashed) then Some(ledger[0])
    else FindRow(ledger[1..], user, hashed)
  }

  /**
   * deleteByUserIdAndHashedToken: every row for that user and digest goes,
   * every other row stays, as often as it was there and in the same order.
   */
  function DeleteMatching(ledger: seq<RefreshToken>, user: UserId, hashed: string): (r: seq<RefreshToken>)
    ensures forall row :: row in r <==> row in ledger && !row.Matches(user, hashed)
    ensures forall row: RefreshToken :: !row.Matches(user, hashed) ==> multiset(r)[row] == multiset(ledger)[row]
  {
    if ledger == [] then []
    else
      assert ledger == [ledger[0]] + ledger[1..];
      if ledger[0].Matches(user, hashed) then DeleteMatching(ledger[1..], user, hashed)
      else [ledger[0]] + DeleteMatching(ledger[1..], user, hashed)
  }

  /** Deleting is applied row by row, so it distributes over the concatenation of two ledgers. */
  lemma {:induction false} DeleteMatchingAppend(a: seq<RefreshToken>, b: seq<RefreshToken>, user: UserId, hashed: string)
    ensures DeleteMatching(a + b, user, hashed) == DeleteMatching(a, user, hashed) + DeleteMatching(b, user, hashed)
  {
    if a == [] {
      assert a + b == b;
    } else {
      assert (a + b)[0] == a[0];
      assert (a + b)[1..] == a[1..] + b;
      DeleteMatchingAppend(a[1..], b, user, hashed);
    }
  }

  /**
   * Rotation at the level of the ledger: once the rows of the spent digest are
   * deleted and a row for a different digest is added, the spent digest is no
   * longer recognised and the new one is.
   */
  lemma RotationRetiresDigest(ledger: seq<RefreshToken>, user: UserId, spent: string, issued: string, expiresAt: Instant)
    requires spent != issued
    ensures FindRow(DeleteMatching(ledger, user, spent) + [RefreshToken(user, issued, expiresAt)], user, spent).None?
    ensures FindRow(DeleteMatching(ledger, user, spent) + [RefreshToken(user, issued, expiresAt)], user, issued).Some?
  {
    var after := DeleteMatching(ledger, user, spent) + [RefreshToken(user, issued, expiresAt)];
    assert RefreshToken(user, issued, expiresAt) in after;
  }

  /**
   * The ledger lookup does not look at the expiry: a row whose expiresAt has
   * passed is still found, so expiry is enforced by token validation alone.
   */
  lemma ExpiredRowStillFound(ledger: seq<RefreshToken>, user: UserId, hashed: string, expiresAt: Instant, now: Instant)
    requires RefreshToken(user, hashed, expiresAt) in ledger && expiresAt < now
    ensures FindRow(ledger, user, hashed).Some?
  {
  }

  /** The assumption under which distinct raw tokens never share a ledger digest. */
  ghost predicate DigestInjective(hashToken: string -> string) {
    forall a: string, b: string :: a != b ==> hashToken(a) != hashToken(b)
  }

  /** The assumption that a password always matches its own encoding. */
  ghost predicate EncoderSound(encoder: HashEncoder) {
    forall p: string :: encoder.matches(p, encoder.encode(p))
  }

  // ---------------------------------------------------------------------------
  // The service
  // ---------------------------------------------------------------------------

  class AuthService {
    const jwtService: JwtService
    const hashEncoder: HashEncoder
    /** hashToken: SHA-256 of the token's bytes, Base64-encoded. */
    const hashToken: string -> string

    var users: UserStore
    var refreshTokens: seq<RefreshToken>

    ghost predicate Valid()
      reads this
    {
      users.Valid()
    }

    constructor (jwtService: JwtService, hashEncoder: HashEncoder, hashToken: string -> string,
                 users: UserStore, refreshTokens: seq<RefreshToken>)
      requires users.Valid()
      ensures Valid()
      ensures this.jwtService == jwtService && this.hashEncoder == hashEncoder && this.hashToken == hashToken
      ensures this.users == users && this.refreshTokens == refreshTokens
    {
      this.jwtService := jwtService;
      this.hashEncoder := hashEncoder;
      this.hashToken := hashToken;
      this.users := users;
      this.refreshTokens := refreshTokens;
    }

    /**
     * register: a taken (trimmed) email is a conflict and changes nothing;
     * otherwise exactly one user is added, under the trimmed email with the
     * encoded password, and returned. The ledger is never touched.
     */
    method Register(email: string, password: string, newId: UserId) returns (r: Result<User>)
      requires Valid()
      requires newId !in users.byId  // ObjectId.get() yields an id no stored user has
      modifies this`users
      ensures Valid()
      ensures old(users.FindByEmail(Trim(email))).Some? ==>
                r == Err(ConflictException(DuplicateEmail)) && users == old(users)
      ensures old(users.FindByEmail(Trim(email))).None? ==>
                && r == Ok(User(newId, Trim(email), hashEncoder.encode(password)))
                && users == old(users).Save(r.value)
    {
      var normalized := Trim(email);
      if users.FindByEmail(normalized).Some? {
        return Err(ConflictException(DuplicateEmail));
      }
      var user := User(newId, normalized, hashEncoder.encode(password));
      users := users.Save(user);
      r := Ok(user);
    }

    /**
     * login: an unknown email (looked up exactly as given) and a wrong password
     * fail with the same message and change nothing; success issues a token
     * pair and appends exactly one ledger row for the refresh token.
     */
    method Login(email: string, password: string, now: Instant) returns (r: Result<AuthResponse>)
      requires Valid()
      modifies this`refreshTokens
      ensures Valid()
      ensures r.Err? <==> users.FindByEmail(email).None?
                          || !hashEncoder.matches(password, users.FindByEmail(email).value.hashedPassword)
      ensures r.Err? ==> r.error == UnauthorizedException(InvalidCredentials) && refreshTokens == old(refreshTokens)
      ensures r.Ok? ==>
                var user := users.FindByEmail(email).value;
                && r.value == AuthResponse(jwtService.generateAccessToken(user.id, now),
                                           jwtService.generateRefreshToken(user.id, now))
                && refreshTokens == old(refreshTokens) + [RefreshToken(user.id, hashToken(r.value.refreshToken),
                                                                       now + jwtService.refreshTokenValidityMs)]
    {
      var found := users.FindByEmail(email);
      if found.None? {
        return Err(UnauthorizedException(InvalidCredentials));
      }
      var user := found.value;
      if !hashEncoder.matches(password, user.hashedPassword) {
        return Err(UnauthorizedException(InvalidCredentials));
      }
      var newAccessToken := jwtService.generateAccessToken(user.id, now);
      var newRefreshToken := jwtService.generateRefreshToken(user.id, now);
      StoreRefreshToken(user.id, newRefreshToken, now);
      r := Ok(AuthResponse(newAccessToken, newRefreshToken));
    }

    /**
     * refresh: three checks in order (the token's signature and expiry, its
     * user, its ledger row), each failing with its own message and changing
     * nothing. On success every row for that user and digest is deleted, then
     * one row for the newly issued refresh token is appended.
     */
    method Refresh(refreshToken: string, now: Instant) returns (r: Result<AuthResponse>)
      requires Valid()
      modifies this`refreshTokens
      ensures Valid()
      ensures !jwtService.validateRefreshToken(refreshToken, now) ==>
                r == Err(UnauthorizedException(InvalidRefreshToken))
      ensures jwtService.validateRefreshToken(refreshToken, now)
              && users.FindById(jwtService.getUserIdFromToken(refreshToken)).None? ==>
                r == Err(UnauthorizedException(UnknownTokenUser))
      ensures jwtService.validateRefreshToken(refreshToken, now)
              && users.FindById(jwtService.getUserIdFromToken(refreshToken)).Some?
              && FindRow(old(refreshTokens), jwtService.getUserIdFromToken(refreshToken), hashToken(refreshToken)).None? ==>
                r == Err(UnauthorizedException(TokenNotRecognized))
      ensures r.Ok? <==> && jwtService.validateRefreshToken(refreshToken, now)
                         && users.FindById(jwtService.getUserIdFromToken(refreshToken)).Some?
                         && FindRow(old(refreshTokens), jwtService.getUserIdFromToken(refreshToken),
                                    hashToken(refreshToken)).Some?
      ensures r.Err? ==> refreshTokens == old(refreshTokens)
      ensures r.Ok? ==>
                var userId := jwtService.getUserIdFromToken(refreshToken);
                && r.value == AuthResponse(jwtService.generateAccessToken(userId, now),
                                           jwtService.generateRefreshToken(userId, now))
                && refreshTokens == DeleteMatching(old(refreshTokens), userId, hashToken(refreshToken))
                                    + [RefreshToken(userId, hashToken(r.value.refreshToken),
                                                    now + jwtService.refreshTokenValidityMs)]
    {
      if !jwtService.validateRefreshToken(refreshToken, now) {
        return Err(UnauthorizedException(InvalidRefreshToken));
      }
      var userId := jwtService.getUserIdFromToken(refreshToken);
      var found := users.FindById(userId);
      if found.None? {
        return Err(UnauthorizedException(UnknownTokenUser));
      }
      var user := found.value;
      var hashed := hashToken(refreshToken);
      if FindRow(refreshTokens, user.id, hashed).None? {
        return Err(UnauthorizedException(TokenNotRecognized));
      }
      refreshTokens := DeleteMatching(refreshTokens, user.id, hashed);
      var newAccessToken := jwtService.generateAccessToken(userId, now);
      var newRefreshToken := jwtService.generateRefreshToken(userId, now);
      StoreRefreshToken(user.id, newRefreshToken, now);
      r := Ok(AuthResponse(newAccessToken, newRefreshToken));
    }

    /** storeRefreshToken: appends the digest of the raw token, expiring one validity period from now. */
    method StoreRefreshToken(userId: UserId, rawRefreshToken: string, now: Instant)
      modifies this`refreshTokens
      ensures Valid() == old(Valid())
      ensures refreshTokens == old(refreshTokens)
                               + [RefreshToken(userId, hashToken(rawRefreshToken), now + jwtService.refreshTokenValidityMs)]
    {
      var hashed := hashToken(rawRefreshToken);
      var expiresAt := now + jwtService.refreshTokenValidityMs;
      refreshTokens := refreshTokens + [RefreshToken(userId, hashed, expiresAt)];
    }
  }

  // ---------------------------------------------------------------------------
  // Properties of sequences of calls
  // ---------------------------------------------------------------------------

  /**
   * Replay: once a refresh with a token succeeds, presenting the same token
   * again fails, and fails at the ledger check whenever the token still
   * validates, provided the newly issued token has a different digest.
   */
  method RefreshTwice(service: AuthService, token: string, now: Instant, later: Instant)
    returns (first: Result<AuthResponse>, second: Result<AuthResponse>)
    requires service.Valid()
    modifies service
    ensures service.Valid()
    ensures first.Ok? && service.hashToken(first.value.refreshToken) != service.hashToken(token) ==>
              && second.Err?
              && (service.jwtService.validateRefreshToken(token, later) ==>
                    second == Err(UnauthorizedException(TokenNotRecognized)))
  {
    ghost var ledger := service.refreshTokens;
    first := service.Refresh(token, now);
    if first.Ok? && service.hashToken(first.value.refreshToken) != service.hashToken(token) {
      RotationRetiresDigest(ledger, service.jwtService.getUserIdFromToken(token),
                            service.hashToken(token), service.hashToken(first.value.refreshToken),
                            now + service.jwtService.refreshTokenValidityMs);
    }
    second := service.Refresh(token, later);
  }

  /** The same replay rejection, when digests of distinct tokens are assumed to differ. */
  method RefreshTwiceInjective(service: AuthService, token: string, now: Instant, later: Instant)
    returns (first: Result<AuthResponse>, second: Result<AuthResponse>)
    requires service.Valid()
    requires DigestInjective(service.hashToken)
    modifies service
    ensures service.Valid()
    ensures first.Ok? && first.value.refreshToken != token ==> second.Err?
    ensures first.Ok? && first.value.refreshToken != token && service.jwtService.validateRefreshToken(token, later) ==>
              second == Err(UnauthorizedException(TokenNotRecognized))
  {
    first, second := RefreshTwice(service, token, now, later);
  }

  /** The assumption that a refresh token names, as its subject, the user it was issued for. */
  ghost predicate SubjectRoundTrip(jwtService: JwtService) {
    forall id: UserId, t: Instant :: jwtService.getUserIdFromToken(jwtService.generateRefreshToken(id, t)) == id
  }

  /**
   * Rotation from a fresh login: the refresh token a successful login returns
   * is accepted by refresh as long as it still validates.
   */
  method LoginThenRefresh(service: AuthService, email: string, password: string, now: Instant, later: Instant)
    returns (login: Result<AuthResponse>, refresh: Result<AuthResponse>)
    requires service.Valid()
    requires SubjectRoundTrip(service.jwtService)
    modifies service
    ensures service.Valid()
    ensures login.Ok? && service.jwtService.validateRefreshToken(login.value.refreshToken, later) ==> refresh.Ok?
  {
    login := service.Login(email, password, now);
    if login.Err? {
      return login, login;
    }
    var user := service.users.FindByEmail(email).value;
    var token := login.value.refreshToken;
    var row := RefreshToken(user.id, service.hashToken(token), now + service.jwtService.refreshTokenValidityMs);
    assert row in service.refreshTokens;
    assert service.jwtService.getUserIdFromToken(token) == user.id;
    assert service.users.FindById(user.id).Some?;
    assert FindRow(service.refreshTokens, user.id, service.hashToken(token)).Some?;
    refresh := service.Refresh(token, later);
  }

  /**
   * A registration followed by a login with the same, already trimmed,
   * credentials succeeds when the password encoder is sound.
   */
  method RegisterThenLogin(service: AuthService, email: string, password: string, newId: UserId, now: Instant)
    returns (register: Result<User>, login: Result<AuthResponse>)
    requires service.Valid()
    requires newId !in service.users.byId
    requires EncoderSound(service.hashEncoder)
    modifies service
    ensures register.Ok? && Trim(email) == email ==> login.Ok?
  {
    register := service.Register(email, password, newId);
    login := service.Login(email, password, now);
  }
}
