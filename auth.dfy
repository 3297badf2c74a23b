/** The authentication core of auth.js: issuing, validating and revoking
    bearer tokens over the `users` and `auth_tokens` tables, with the
    database as the fields of one object. */
module Auth {
  import opened Results
  import opened JsString
  import opened AuthErrors
  import opened AuthHeader
  import opened AuthTables

  /** What `createHash("sha256").update(x)` is given: a byte buffer (the
      random bytes) or a string. */
  datatype HashInput = Bytes(bytes: seq<bv8>) | Text(text: string)

  /** The cryptographic primitives auth.js calls, taken as parameters:
      `createHash("sha256").update(x).digest("base64")`,
      `bcrypt.hashSync(password, salt)` and `bcrypt.compareSync(password, hash)`. */
  datatype Crypto = Crypto(
    sha256Base64: HashInput -> string,
    bcryptHash: (string, string) -> string,
    bcryptCompare: (string, string) -> bool)

  predicate IsBase64Char(c: char)
  {
    'A' <= c <= 'Z' || 'a' <= c <= 'z' || '0' <= c <= '9' || c == '+' || c == '/' || c == '='
  }

  /** The base64 text of a 32-byte SHA-256 digest: 43 characters and one `=`. */
  predicate IsBase64Sha256(s: string)
  {
    |s| == 44 && s[43] == '=' && forall i :: 0 <= i < |s| ==> IsBase64Char(s[i])
  }

  /** What the model assumes of the primitives: a password verifies against
      its own hash whatever the salt, and a SHA-256 digest in base64 has the
      shape of one. */
  ghost predicate Sound(c: Crypto)
  {
    (forall password, salt :: c.bcryptCompare(password, c.bcryptHash(password, salt)))
    && (forall x :: IsBase64Sha256(c.sha256Base64(x)))
  }

  /** The lookup key stored for, and computed from, a raw token. */
  function Digest(c: Crypto, token: string): string
  {
    c.sha256Base64(Text(token))
  }

  function Digests(c: Crypto, raw: set<string>): set<string>
  {
    set t | t in raw :: Digest(c, t)
  }

  /** Only digests are stored: every token row holds the digest of a raw
      token that was handed out. */
  predicate OnlyDigestsStored(c: Crypto, tokens: seq<AuthToken>, issued: set<string>)
  {
    forall t :: t in tokens ==> t.token in Digests(c, issued)
  }

  /** Deleting rows keeps only digests stored. */
  lemma DeleteKeepsOnlyDigests(c: Crypto, tokens: seq<AuthToken>, issued: set<string>, digest: string)
    requires OnlyDigestsStored(c, tokens, issued)
    ensures OnlyDigestsStored(c, TokensWithout(tokens, digest), issued)
  {
  }

  /** Storing the digest of a newly issued token keeps only digests stored. */
  lemma IssueKeepsOnlyDigests(c: Crypto, tokens: seq<AuthToken>, issued: set<string>, userId: int, raw: string)
    requires OnlyDigestsStored(c, tokens, issued)
    ensures OnlyDigestsStored(c, tokens + [AuthToken(userId, Digest(c, raw))], issued + {raw})
  {
    assert raw in issued + {raw};
    forall t | t in tokens ensures t.token in Digests(c, issued + {raw}) {
      var w :| w in issued && t.token == Digest(c, w);
      assert w in issued + {raw};
    }
  }

  /** A user with this name exists and the password verifies against its hash. */
  predicate CredentialsAccepted(c: Crypto, users: seq<User>, username: string, password: string)
  {
    username != [] && password != []
    && exists u :: u in users && u.username == username && c.bcryptCompare(password, u.passwordHash)
  }

  /** The outcome of `require_auth`: the next handler runs, or 401. */
  datatype Admission = CallNext | Unauthorized(error: AuthError)

  /** The database as seen by auth.js. `issued` records every raw token ever
      handed out; it is never stored. */
  class AuthStore {
    const crypto: Crypto
    var users: seq<User>
    var authTokens: seq<AuthToken>
    var nextId: int
    ghost var issued: set<string>

    /** The tables are valid, and every stored token value is the digest of
        an issued raw token. */
    ghost predicate Valid()
      reads this
    {
      Sound(crypto) && TablesValid(users, authTokens, nextId)
      && OnlyDigestsStored(crypto, authTokens, issued)
    }

    constructor (crypto: Crypto)
      requires Sound(crypto)
      ensures Valid() && this.crypto == crypto
      ensures users == [] && authTokens == [] && nextId == 1 && issued == {}
    {
      this.crypto := crypto;
      users, authTokens, nextId := [], [], 1;
      issued := {};
    }

    /** `getUserByUsername`: the user with that name, rejected for an empty
        name and when there is none. */
    method GetUserByUsername(username: string) returns (r: Result<User, AuthError>)
      requires Valid()
      ensures username == [] ==> r == Err(MissingUsername)
      ensures r.Ok? <==> username != [] && exists u :: u in users && u.username == username
      ensures r.Err? && username != [] ==> r.error == UserNotFound
      ensures r.Ok? ==> r.value in users && r.value.username == username
                        && forall u :: u in users && u.username == username ==> u == r.value
    {
      if username == [] {
        return Err(MissingUsername);
      }
      var rows := Limit1(UsersNamed(users, username));
      if |rows| != 1 {
        return Err(UserNotFound);
      }
      UniqueNameSelectsOne(users, authTokens, nextId, rows[0]);
      r := Ok(rows[0]);
    }

    /** `createAuthToken`: derives a raw token from the random bytes, stores
        only its digest for the user and returns the raw token. */
    method CreateAuthToken(userId: int, entropy: seq<bv8>) returns (r: Result<string, AuthError>)
      requires Valid()
      modifies this
      ensures Valid()
      ensures users == old(users) && nextId == old(nextId)
      ensures userId == 0 ==> r == Err(MissingUserId)
      ensures r.Ok? <==> userId != 0 && exists u :: u in users && u.id == userId
      ensures r.Err? && userId != 0 ==> r.error == UserNotFound
      ensures r.Err? ==> authTokens == old(authTokens) && issued == old(issued)
      ensures r.Ok? ==> r.value == crypto.sha256Base64(Bytes(entropy))
                        && authTokens == old(authTokens) + [AuthToken(userId, Digest(crypto, r.value))]
                        && issued == old(issued) + {r.value}
    {
      if userId == 0 {
        return Err(MissingUserId);
      }
      var rows := Limit1(UsersWithId(users, userId));
      if |rows| != 1 {
        return Err(UserNotFound);
      }
      var token := crypto.sha256Base64(Bytes(entropy));
      var hashedToken := Digest(crypto, token);
      var row := AuthToken(userId, hashedToken);
      AppendTokenKeepsValid(users, authTokens, nextId, row);
      IssueKeepsOnlyDigests(crypto, authTokens, issued, userId, token);
      authTokens := authTokens + [row];
      issued := issued + {token};
      r := Ok(token);
    }

    /** `login`: the same rejection for an unknown user and a wrong password;
        on success a new token is issued and earlier ones are kept. */
    method Login(username: string, password: string, entropy: seq<bv8>) returns (r: Result<string, AuthError>)
      requires Valid()
      modifies this
      ensures Valid()
      ensures users == old(users) && nextId == old(nextId)
      ensures r.Ok? <==> CredentialsAccepted(crypto, users, username, password)
      ensures r.Err? ==> r.error == if username == [] || password == [] then MissingCredentials
                                   else InvalidCredentials
      ensures r.Err? ==> authTokens == old(authTokens) && issued == old(issued)
      ensures r.Ok? ==> exists u :: u in users && u.username == username
                          && authTokens == old(authTokens) + [AuthToken(u.id, Digest(crypto, r.value))]
      ensures r.Ok? ==> r.value == crypto.sha256Base64(Bytes(entropy))
                        && issued == old(issued) + {r.value}
    {
      if username == [] || password == [] {
        return Err(MissingCredentials);
      }
      var found := GetUserByUsername(username);
      if found.Err? {
        return Err(InvalidCredentials);
      }
      var user := found.value;
      if !crypto.bcryptCompare(password, user.passwordHash) {
        return Err(InvalidCredentials);
      }
      r := CreateAuthToken(user.id, entropy);
    }

    /** `register`: rejects empty fields and a taken name without changing
        anything; otherwise adds one user whose hash verifies against the
        password, then returns what `login` returns. */
    method Register(username: string, password: string, salt: string, now: string, entropy: seq<bv8>)
      returns (r: Result<string, AuthError>)
      requires Valid()
      modifies this
      ensures Valid()
      ensures (username == [] || password == []) ==> r == Err(MissingCredentials)
      ensures r.Ok? <==> username != [] && password != [] && forall u :: u in old(users) ==> u.username != username
      ensures r.Err? && username != [] && password != [] ==> r.error == UsernameTaken
      ensures r.Err? ==> users == old(users) && authTokens == old(authTokens)
                         && nextId == old(nextId) && issued == old(issued)
      ensures r.Ok? ==> users == old(users) + [User(old(nextId), username, crypto.bcryptHash(password, salt), now)]
                        && nextId == old(nextId) + 1
                        && authTokens == old(authTokens) + [AuthToken(old(nextId), Digest(crypto, r.value))]
                        && CredentialsAccepted(crypto, users, username, password)
      ensures r.Ok? ==> r.value == crypto.sha256Base64(Bytes(entropy))
                        && issued == old(issued) + {r.value}
    {
      if username == [] || password == [] {
        return Err(MissingCredentials);
      }
      var existing := Limit1(UsersNamed(users, username));
      if |existing| != 0 {
        return Err(UsernameTaken);
      }
      var hashedPassword := crypto.bcryptHash(password, salt);
      var user := User(nextId, username, hashedPassword, now);
      InsertUserKeepsValid(users, authTokens, nextId, user);
      users := users + [user];
      nextId := nextId + 1;
      assert crypto.bcryptCompare(password, user.passwordHash);
      assert user in users;
      r := Login(username, password, entropy);
    }

    /** `revokeToken`: deletes every row holding the token's digest and
        succeeds only if that was exactly one row; afterwards the token
        authenticates nobody. */
    method RevokeToken(token: string) returns (r: Result<(), AuthError>)
      requires Valid()
      modifies this
      ensures Valid()
      ensures users == old(users) && nextId == old(nextId) && issued == old(issued)
      ensures token == [] ==> r == Err(MissingToken) && authTokens == old(authTokens)
      ensures token != [] ==> authTokens == TokensWithout(old(authTokens), Digest(crypto, token))
      ensures r.Ok? <==> token != [] && CountToken(old(authTokens), Digest(crypto, token)) == 1
      ensures r.Err? && token != [] ==> r.error == InvalidToken
      ensures token != [] ==> CountToken(authTokens, Digest(crypto, token)) == 0
                              && !Authenticates(users, authTokens, Digest(crypto, token))
    {
      if token == [] {
        return Err(MissingToken);
      }
      var hashedToken := Digest(crypto, token);
      var kept := TokensWithout(authTokens, hashedToken);
      var rowCount := |authTokens| - |kept|;
      DeleteKeepsValid(users, authTokens, nextId, hashedToken);
      RevokedTokenIsDead(users, authTokens, hashedToken);
      DeleteKeepsOnlyDigests(crypto, authTokens, issued, hashedToken);
      authTokens := kept;
      if rowCount != 1 {
        return Err(InvalidToken);
      }
      r := Ok(());
    }

    /** `getUserFromRequest`: the header's token must be stored, as its
        digest, for an existing user; that user is returned. Reads only. */
    method GetUserFromRequest(req: Option<Request>) returns (r: Result<User, AuthError>)
      requires Valid()
      ensures GetTokenFromRequest(req).Err? ==> r == Err(GetTokenFromRequest(req).error)
      ensures GetTokenFromRequest(req).Ok? ==>
                (r.Ok? <==> Authenticates(users, authTokens, Digest(crypto, GetTokenFromRequest(req).value)))
      ensures r.Err? && GetTokenFromRequest(req).Ok? ==> r.error == InvalidAuthorizationToken
      ensures r.Ok? ==> GetTokenFromRequest(req).Ok? && r.value in users
                        && AuthToken(r.value.id, Digest(crypto, GetTokenFromRequest(req).value)) in authTokens
    {
      var token := GetTokenFromRequest(req);
      if token.Err? {
        return Err(token.error);
      }
      var hashedToken := Digest(crypto, token.value);
      var rows := Limit1(UsersHoldingToken(users, authTokens, hashedToken));
      if |rows| != 1 {
        return Err(InvalidAuthorizationToken);
      }
      assert rows[0] in UsersHoldingToken(users, authTokens, hashedToken);
      r := Ok(rows[0]);
    }

    /** `require_auth`: the next handler runs exactly when the request's
        user can be resolved; otherwise the answer is 401 with the reason:
        the header's rejection, or an unknown token. */
    method RequireAuth(req: Option<Request>) returns (a: Admission)
      requires Valid()
      ensures a == CallNext <==> GetTokenFromRequest(req).Ok?
                                 && Authenticates(users, authTokens, Digest(crypto, GetTokenFromRequest(req).value))
      ensures a.Unauthorized? ==> a.error == if GetTokenFromRequest(req).Err? then GetTokenFromRequest(req).error
                                             else InvalidAuthorizationToken
    {
      var user := GetUserFromRequest(req);
      if user.Err? {
        return Unauthorized(user.error);
      }
      a := CallNext;
    }
  }

  /** Every token the store hands out has the shape of a base64 SHA-256
      digest, so sent as `Bearer <token>` it is extracted unchanged. */
  lemma IssuedTokenAccepted(token: string)
    requires IsBase64Sha256(token)
    ensures GetTokenFromRequest(HeaderRequest("Bearer " + token)) == Ok(token)
  {
    assert ' ' !in token by {
      forall i | 0 <= i < |token| ensures token[i] != ' ' {
        assert IsBase64Char(token[i]);
      }
    }
    var h := "Bearer " + token;
    assert h == "Bearer" + [' '] + token;
    assert LowerAscii("Bearer") == "bearer";
    BearerFormOf("Bearer", token);
    assert h[0] == 'B' && h[|h| - 1] == token[43] == '=';
    TrimOfTrimmed(h);
    GetTokenFromRequestIff(HeaderRequest(h), token);
  }

  /** The random bytes give a token whose digest no stored row holds yet. */
  predicate FreshEntropy(c: Crypto, tokens: seq<AuthToken>, entropy: seq<bv8>)
  {
    forall t :: t in tokens ==> t.token != Digest(c, c.sha256Base64(Bytes(entropy)))
  }

  /** Only one user holds rows with this digest, so only that user is found
      for it. */
  lemma OnlyHolderFound(users: seq<User>, tokens: seq<AuthToken>, nextId: int, u: User, digest: string)
    requires TablesValid(users, tokens, nextId) && u in users
    requires forall t :: t in tokens && t.token == digest ==> t.userId == u.id
    ensures forall v :: v in users && AuthToken(v.id, digest) in tokens ==> v == u
  {
    UniqueIdSelectsOne(users, tokens, nextId, u);
    forall v | v in users && AuthToken(v.id, digest) in tokens ensures v == u {
      assert v in UsersWithId(users, u.id);
    }
  }

  /** A stored row for an existing user lets its digest through. */
  lemma RowAuthenticates(users: seq<User>, tokens: seq<AuthToken>, u: User, digest: string)
    requires u in users && AuthToken(u.id, digest) in tokens
    ensures Authenticates(users, tokens, digest)
  {
    var i :| 0 <= i < |tokens| && tokens[i] == AuthToken(u.id, digest);
    assert u in UsersHoldingToken(users, tokens, digest);
  }

  /** `register` of a new user followed by `login`: two tokens, each stored
      once as a digest for the new user. */
  method RegisterAndLogin(store: AuthStore, username: string, password: string, salt: string, now: string,
                          e1: seq<bv8>, e2: seq<bv8>)
    returns (registered: Result<string, AuthError>, loggedIn: Result<string, AuthError>, user: User)
    requires store.Valid()
    requires username != [] && password != [] && forall u :: u in store.users ==> u.username != username
    modifies store
    ensures store.Valid()
    ensures registered == Ok(store.crypto.sha256Base64(Bytes(e1)))
    ensures loggedIn == Ok(store.crypto.sha256Base64(Bytes(e2)))
    ensures user in store.users && user.username == username
    ensures store.authTokens == old(store.authTokens)
                                + [AuthToken(user.id, Digest(store.crypto, registered.value))]
                                + [AuthToken(user.id, Digest(store.crypto, loggedIn.value))]
  {
    var tokens0 := store.authTokens;
    var id := store.nextId;
    registered := store.Register(username, password, salt, now, e1);
    user := User(id, username, store.crypto.bcryptHash(password, salt), now);
    assert user in store.users;
    var tokens1 := store.authTokens;
    loggedIn := store.Login(username, password, e2);
    var owner :| owner in store.users && owner.username == username
                 && store.authTokens == tokens1 + [AuthToken(owner.id, Digest(store.crypto, loggedIn.value))];
    UniqueNameSelectsOne(store.users, tokens1, id + 1, user);
    assert owner in UsersNamed(store.users, username);
    assert owner == user;
  }

  /** A request bearing an issued token whose digest only `user` holds is
      resolved to `user`. */
  method ValidateIssued(store: AuthStore, token: string, user: User) returns (r: Result<User, AuthError>)
    requires store.Valid() && user in store.users && IsBase64Sha256(token)
    requires AuthToken(user.id, Digest(store.crypto, token)) in store.authTokens
    requires forall t :: t in store.authTokens && t.token == Digest(store.crypto, token) ==> t.userId == user.id
    ensures r == Ok(user)
  {
    var d := Digest(store.crypto, token);
    IssuedTokenAccepted(token);
    RowAuthenticates(store.users, store.authTokens, user, d);
    OnlyHolderFound(store.users, store.authTokens, store.nextId, user, d);
    r := store.GetUserFromRequest(HeaderRequest("Bearer " + token));
  }

  /** Appending two rows of one user to a table whose rows hold neither
      row's digest: both rows are stored, each digest is held by that user
      only, and the first digest is held once, or twice when the second row
      holds it too. */
  lemma FreshRowsOwned(tokens: seq<AuthToken>, userId: int, d1: string, d2: string)
    requires forall t :: t in tokens ==> t.token != d1 && t.token != d2
    ensures AuthToken(userId, d1) in tokens + [AuthToken(userId, d1)] + [AuthToken(userId, d2)]
    ensures AuthToken(userId, d2) in tokens + [AuthToken(userId, d1)] + [AuthToken(userId, d2)]
    ensures forall t :: t in tokens + [AuthToken(userId, d1)] + [AuthToken(userId, d2)] && (t.token == d1 || t.token == d2)
                        ==> t.userId == userId
    ensures CountToken(tokens + [AuthToken(userId, d1)] + [AuthToken(userId, d2)], d1) == if d1 == d2 then 2 else 1
  {
    var row1, row2 := AuthToken(userId, d1), AuthToken(userId, d2);
    var all := tokens + [row1] + [row2];
    assert all[|tokens|] == row1 && all[|tokens| + 1] == row2;
    forall t | t in all && (t.token == d1 || t.token == d2) ensures t.userId == userId {
      assert t in tokens || t == row1 || t == row2;
    }
    CountZeroIff(tokens, d1);
    CountAfterAppend(tokens, row1, d1);
    CountAfterAppend(tokens + [row1], row2, d1);
  }

  /** Tokens issued by `register` and by `login` each let a request
      through for the new user; neither digest was stored before. */
  method IssueAndValidate(store: AuthStore, username: string, password: string, salt: string, now: string,
                          e1: seq<bv8>, e2: seq<bv8>)
    returns (registered: Result<string, AuthError>, loggedIn: Result<string, AuthError>,
             first: Result<User, AuthError>, second: Result<User, AuthError>, user: User)
    requires store.Valid()
    requires username != [] && password != [] && forall u :: u in store.users ==> u.username != username
    requires FreshEntropy(store.crypto, store.authTokens, e1) && FreshEntropy(store.crypto, store.authTokens, e2)
    modifies store
    ensures store.Valid()
    ensures registered == Ok(store.crypto.sha256Base64(Bytes(e1)))
    ensures loggedIn == Ok(store.crypto.sha256Base64(Bytes(e2)))
    ensures user in store.users && user.username == username
    ensures first == Ok(user) && second == Ok(user)
    ensures CountToken(store.authTokens, Digest(store.crypto, registered.value))
            == if Digest(store.crypto, registered.value) == Digest(store.crypto, loggedIn.value) then 2 else 1
    ensures AuthToken(user.id, Digest(store.crypto, loggedIn.value)) in store.authTokens
    ensures forall t :: t in store.authTokens && t.token == Digest(store.crypto, loggedIn.value) ==> t.userId == user.id
  {
    var c := store.crypto;
    var tokens0 := store.authTokens;
    registered, loggedIn, user := RegisterAndLogin(store, username, password, salt, now, e1, e2);
    var d1 := Digest(c, registered.value);
    var d2 := Digest(c, loggedIn.value);
    FreshRowsOwned(tokens0, user.id, d1, d2);
    first := ValidateIssued(store, registered.value, user);
    second := ValidateIssued(store, loggedIn.value, user);
  }

  /** Revoking a token held by exactly one row twice: the first call
      succeeds, the second finds nothing, the token no longer lets a
      request through, and a second token held only by the same user still
      resolves to that user. */
  method RevokeTwice(store: AuthStore, token: string, other: string, user: User)
    returns (revoked: Result<(), AuthError>, revokedAgain: Result<(), AuthError>,
             afterRevoke: Result<User, AuthError>, otherAfterRevoke: Result<User, AuthError>)
    requires store.Valid() && user in store.users
    requires IsBase64Sha256(token) && IsBase64Sha256(other)
    requires Digest(store.crypto, token) != Digest(store.crypto, other)
    requires CountToken(store.authTokens, Digest(store.crypto, token)) == 1
    requires AuthToken(user.id, Digest(store.crypto, other)) in store.authTokens
    requires forall t :: t in store.authTokens && t.token == Digest(store.crypto, other) ==> t.userId == user.id
    modifies store
    ensures store.Valid()
    ensures revoked.Ok? && revokedAgain == Err(InvalidToken)
    ensures afterRevoke == Err(InvalidAuthorizationToken) && otherAfterRevoke == Ok(user)
  {
    var d1, d2 := Digest(store.crypto, token), Digest(store.crypto, other);
    assert token != [];
    revoked := store.RevokeToken(token);
    assert revoked.Ok?;
    revokedAgain := store.RevokeToken(token);
    assert revokedAgain == Err(InvalidToken);
    IssuedTokenAccepted(token);
    afterRevoke := store.GetUserFromRequest(HeaderRequest("Bearer " + token));
    assert AuthToken(user.id, d2) in store.authTokens;
    otherAfterRevoke := ValidateIssued(store, other, user);
  }

  /** A new user registers and logs in, both tokens let a request through for
      that user, and the registration token is revoked twice: the first
      revocation succeeds, the second finds nothing, and afterwards only the
      login token still lets a request through. Randomness is fresh: neither
      token's digest is stored yet, and the two differ. */
  method TokenLifecycle(store: AuthStore, username: string, password: string, salt: string, now: string,
                        e1: seq<bv8>, e2: seq<bv8>)
    returns (registered: Result<string, AuthError>, loggedIn: Result<string, AuthError>,
             first: Result<User, AuthError>, second: Result<User, AuthError>,
             revoked: Result<(), AuthError>, revokedAgain: Result<(), AuthError>,
             afterRevoke: Result<User, AuthError>, loginAfterRevoke: Result<User, AuthError>)
    requires store.Valid()
    requires username != [] && password != [] && forall u :: u in store.users ==> u.username != username
    requires FreshEntropy(store.crypto, store.authTokens, e1) && FreshEntropy(store.crypto, store.authTokens, e2)
    requires Digest(store.crypto, store.crypto.sha256Base64(Bytes(e1)))
             != Digest(store.crypto, store.crypto.sha256Base64(Bytes(e2)))
    modifies store
    ensures store.Valid()
    ensures registered.Ok? && loggedIn.Ok?
    ensures first.Ok? && first.value.username == username && second == first
    ensures revoked.Ok? && revokedAgain == Err(InvalidToken)
    ensures afterRevoke == Err(InvalidAuthorizationToken) && loginAfterRevoke == first
  {
    var user;
    registered, loggedIn, first, second, user := IssueAndValidate(store, username, password, salt, now, e1, e2);
    revoked, revokedAgain, afterRevoke, loginAfterRevoke := RevokeTwice(store, registered.value, loggedIn.value, user);
  }
}
