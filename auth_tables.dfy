/** The two tables behind auth.js, `users` and `auth_tokens`, as sequences
    of rows, and the SQL statements the module runs against them as
    functions of those sequences. */
module AuthTables {

  /** A row of `users`. */
  datatype User = User(id: int, username: string, passwordHash: string, createdAt: string)

  /** A row of `auth_tokens`; the `token` column holds the digest of the
      raw token, never the raw token. */
  datatype AuthToken = AuthToken(userId: int, token: string)

  /** `SELECT * FROM users WHERE username = $1`, in table order. */
  function UsersNamed(users: seq<User>, name: string): (r: seq<User>)
    ensures forall u :: u in r <==> u in users && u.username == name
    ensures r == [] <==> forall u :: u in users ==> u.username != name
  {
    if users == [] then []
    else (if users[0].username == name then [users[0]] else []) + UsersNamed(users[1..], name)
  }

  /** `SELECT * FROM users WHERE id = $1`, in table order. */
  function UsersWithId(users: seq<User>, id: int): (r: seq<User>)
    ensures forall u :: u in r <==> u in users && u.id == id
    ensures r == [] <==> forall u :: u in users ==> u.id != id
  {
    if users == [] then []
    else (if users[0].id == id then [users[0]] else []) + UsersWithId(users[1..], id)
  }

  /** `SELECT users.* FROM users JOIN auth_tokens ON auth_tokens.user_id =
      users.id WHERE auth_tokens.token = $1`, in the order of the token rows. */
  function UsersHoldingToken(users: seq<User>, tokens: seq<AuthToken>, digest: string): (r: seq<User>)
    ensures forall u :: u in r <==> u in users && exists i :: 0 <= i < |tokens| && tokens[i] == AuthToken(u.id, digest)
  {
    if tokens == [] then []
    else
      var rest := UsersHoldingToken(users, tokens[1..], digest);
      assert forall i :: 0 <= i < |tokens| - 1 ==> tokens[1..][i] == tokens[i + 1];
      (if tokens[0].token == digest then UsersWithId(users, tokens[0].userId) else []) + rest
  }

  /** The number of `auth_tokens` rows holding `digest`. */
  function CountToken(tokens: seq<AuthToken>, digest: string): (n: nat)
    ensures n <= |tokens|
  {
    if tokens == [] then 0 else (if tokens[0].token == digest then 1 else 0) + CountToken(tokens[1..], digest)
  }

  /** The rows left by `DELETE FROM auth_tokens WHERE token = $1`; the
      statement's `rowCount` is the difference in length. */
  function TokensWithout(tokens: seq<AuthToken>, digest: string): (r: seq<AuthToken>)
    ensures forall t :: t in r <==> t in tokens && t.token != digest
    ensures |r| == |tokens| - CountToken(tokens, digest)
  {
    if tokens == [] then []
    else (if tokens[0].token != digest then [tokens[0]] else []) + TokensWithout(tokens[1..], digest)
  }

  /** The delete keeps every other row as often as it was stored: a row
      holding the digest is gone, any other row keeps its multiplicity. */
  lemma {:induction false} TokensWithoutMultiplicity(tokens: seq<AuthToken>, digest: string)
    ensures forall t :: multiset(TokensWithout(tokens, digest))[t]
                        == if t.token == digest then 0 else multiset(tokens)[t]
    decreases |tokens|
  {
    if tokens != [] {
      TokensWithoutMultiplicity(tokens[1..], digest);
      var head := if tokens[0].token != digest then [tokens[0]] else [];
      var rest := TokensWithout(tokens[1..], digest);
      assert tokens == [tokens[0]] + tokens[1..];
      assert multiset(tokens) == multiset([tokens[0]]) + multiset(tokens[1..]);
      assert multiset(head + rest) == multiset(head) + multiset(rest);
    }
  }

  /** `LIMIT 1`. */
  function Limit1<T>(rows: seq<T>): (r: seq<T>)
    ensures |r| <= 1 && (r == [] <==> rows == []) && (r != [] ==> r[0] == rows[0])
  {
    if rows == [] then [] else rows[..1]
  }

  /** Some stored token row with this digest belongs to an existing user. */
  predicate Authenticates(users: seq<User>, tokens: seq<AuthToken>, digest: string)
  {
    UsersHoldingToken(users, tokens, digest) != []
  }

  /** The invariant the operations of auth.js keep: ids are positive, below
      the next serial id and unique; usernames are non-empty and unique;
      every token row refers to an existing user. */
  predicate TablesValid(users: seq<User>, tokens: seq<AuthToken>, nextId: int)
  {
    nextId >= 1
    && (forall i :: 0 <= i < |users| ==> 0 < users[i].id < nextId && users[i].username != [])
    && (forall i, j :: 0 <= i < j < |users| ==> users[i].id != users[j].id && users[i].username != users[j].username)
    && (forall t :: t in tokens ==> UsersWithId(users, t.userId) != [])
  }

  /** With unique ids a user is the only row with its id. */
  lemma {:induction false} UniqueIdSelectsOne(users: seq<User>, tokens: seq<AuthToken>, nextId: int, u: User)
    requires TablesValid(users, tokens, nextId) && u in users
    ensures UsersWithId(users, u.id) == [u]
    decreases |users|
  {
    if users[0] == u {
      assert forall v :: v in users[1..] ==> v.id != u.id;
    } else {
      assert users[0].id != u.id;
      assert TablesValid(users[1..], [], nextId);
      UniqueIdSelectsOne(users[1..], [], nextId, u);
    }
  }

  /** With unique usernames a user is the only row with its username. */
  lemma {:induction false} UniqueNameSelectsOne(users: seq<User>, tokens: seq<AuthToken>, nextId: int, u: User)
    requires TablesValid(users, tokens, nextId) && u in users
    ensures UsersNamed(users, u.username) == [u]
    decreases |users|
  {
    if users[0] == u {
      assert forall v :: v in users[1..] ==> v.username != u.username;
    } else {
      assert users[0].username != u.username;
      assert TablesValid(users[1..], [], nextId);
      UniqueNameSelectsOne(users[1..], [], nextId, u);
    }
  }

  /** No row holds the digest exactly when the count is zero. */
  lemma {:induction false} CountZeroIff(tokens: seq<AuthToken>, digest: string)
    ensures CountToken(tokens, digest) == 0 <==> forall t :: t in tokens ==> t.token != digest
    decreases |tokens|
  {
    if tokens != [] {
      CountZeroIff(tokens[1..], digest);
      assert forall t :: t in tokens ==> t == tokens[0] || t in tokens[1..];
    }
  }

  /** Nobody is found for a digest no row holds. */
  lemma {:induction false} NoHoldersWithoutToken(users: seq<User>, tokens: seq<AuthToken>, digest: string)
    requires CountToken(tokens, digest) == 0
    ensures UsersHoldingToken(users, tokens, digest) == []
    decreases |tokens|
  {
    if tokens != [] {
      NoHoldersWithoutToken(users, tokens[1..], digest);
    }
  }

  /** Deleting a digest no row holds deletes nothing. */
  lemma {:induction false} DeleteAbsentToken(tokens: seq<AuthToken>, digest: string)
    requires CountToken(tokens, digest) == 0
    ensures TokensWithout(tokens, digest) == tokens
    decreases |tokens|
  {
    if tokens != [] {
      DeleteAbsentToken(tokens[1..], digest);
      assert [tokens[0]] + tokens[1..] == tokens;
    }
  }

  /** Appending a row and then deleting its digest is deleting the digest. */
  lemma {:induction false} DeleteAfterAppend(tokens: seq<AuthToken>, row: AuthToken)
    ensures TokensWithout(tokens + [row], row.token) == TokensWithout(tokens, row.token)
    ensures CountToken(tokens + [row], row.token) == CountToken(tokens, row.token) + 1
    decreases |tokens|
  {
    if tokens == [] {
      assert [] + [row] == [row];
    } else {
      assert (tokens + [row])[1..] == tokens[1..] + [row];
      DeleteAfterAppend(tokens[1..], row);
    }
  }

  /** Appending a row adds one to the count of its digest and leaves every
      other count as it was. */
  lemma {:induction false} CountAfterAppend(tokens: seq<AuthToken>, row: AuthToken, digest: string)
    ensures CountToken(tokens + [row], digest) == CountToken(tokens, digest) + (if row.token == digest then 1 else 0)
    decreases |tokens|
  {
    if tokens == [] {
      assert [] + [row] == [row];
    } else {
      assert (tokens + [row])[1..] == tokens[1..] + [row];
      CountAfterAppend(tokens[1..], row, digest);
    }
  }

  /** Deleting the rows of one digest leaves the count of every other
      digest as it was. */
  lemma {:induction false} DeleteKeepsOtherCounts(tokens: seq<AuthToken>, digest: string, other: string)
    requires other != digest
    ensures CountToken(TokensWithout(tokens, digest), other) == CountToken(tokens, other)
    decreases |tokens|
  {
    if tokens != [] {
      DeleteKeepsOtherCounts(tokens[1..], digest, other);
      var rest := TokensWithout(tokens[1..], digest);
      if tokens[0].token != digest {
        assert ([tokens[0]] + rest)[1..] == rest;
      } else {
        assert [] + rest == rest;
      }
    }
  }

  /** The users found for a digest after appending a row: those found before,
      then the row's user if the row holds the digest. */
  lemma {:induction false} HoldersAfterAppend(users: seq<User>, tokens: seq<AuthToken>, row: AuthToken, digest: string)
    ensures UsersHoldingToken(users, tokens + [row], digest)
            == UsersHoldingToken(users, tokens, digest)
               + (if row.token == digest then UsersWithId(users, row.userId) else [])
    decreases |tokens|
  {
    if tokens == [] {
      assert [] + [row] == [row];
    } else {
      assert (tokens + [row])[1..] == tokens[1..] + [row];
      HoldersAfterAppend(users, tokens[1..], row, digest);
    }
  }

  /** Revoking a digest removes every row holding it: afterwards no row holds
      it, nothing is found for it and a second revocation deletes nothing. */
  lemma RevokedTokenIsDead(users: seq<User>, tokens: seq<AuthToken>, digest: string)
    ensures CountToken(TokensWithout(tokens, digest), digest) == 0
    ensures !Authenticates(users, TokensWithout(tokens, digest), digest)
  {
    var kept := TokensWithout(tokens, digest);
    CountZeroIff(kept, digest);
    NoHoldersWithoutToken(users, kept, digest);
  }

  /** A freshly stored digest is held by exactly one row, its revocation
      deletes exactly that row, and it identifies exactly its owner. */
  lemma FreshTokenLifecycle(users: seq<User>, tokens: seq<AuthToken>, nextId: int, u: User, digest: string)
    requires TablesValid(users, tokens, nextId) && u in users
    requires CountToken(tokens, digest) == 0
    ensures CountToken(tokens + [AuthToken(u.id, digest)], digest) == 1
    ensures TokensWithout(tokens + [AuthToken(u.id, digest)], digest) == tokens
    ensures UsersHoldingToken(users, tokens + [AuthToken(u.id, digest)], digest) == [u]
  {
    var row := AuthToken(u.id, digest);
    DeleteAfterAppend(tokens, row);
    DeleteAbsentToken(tokens, digest);
    HoldersAfterAppend(users, tokens, row, digest);
    UniqueIdSelectsOne(users, tokens, nextId, u);
    CountZeroIff(tokens, digest);
    NoHoldersWithoutToken(users, tokens, digest);
  }

  /** Inserting a user with a fresh, non-empty username under the next serial
      id keeps the tables valid. */
  lemma InsertUserKeepsValid(users: seq<User>, tokens: seq<AuthToken>, nextId: int, u: User)
    requires TablesValid(users, tokens, nextId)
    requires u.id == nextId && u.username != [] && UsersNamed(users, u.username) == []
    ensures TablesValid(users + [u], tokens, nextId + 1)
  {
    var users' := users + [u];
    assert forall i :: 0 <= i < |users| ==> users'[i] == users[i];
    assert forall i :: 0 <= i < |users'| ==> 0 < users'[i].id < nextId + 1 && users'[i].username != [];
    forall i, j | 0 <= i < j < |users'|
      ensures users'[i].id != users'[j].id && users'[i].username != users'[j].username
    {
      if j == |users| {
        assert users[i] in users;
      }
    }
    forall t | t in tokens ensures UsersWithId(users', t.userId) != [] {
      var v := UsersWithId(users, t.userId)[0];
      assert v in UsersWithId(users, t.userId);
      assert v in UsersWithId(users', t.userId);
    }
  }

  /** Storing a token row for an existing user keeps the tables valid. */
  lemma AppendTokenKeepsValid(users: seq<User>, tokens: seq<AuthToken>, nextId: int, row: AuthToken)
    requires TablesValid(users, tokens, nextId) && UsersWithId(users, row.userId) != []
    ensures TablesValid(users, tokens + [row], nextId)
  {
  }

  /** Deleting token rows keeps the tables valid. */
  lemma DeleteKeepsValid(users: seq<User>, tokens: seq<AuthToken>, nextId: int, digest: string)
    requires TablesValid(users, tokens, nextId)
    ensures TablesValid(users, TokensWithout(tokens, digest), nextId)
  {
  }
}
