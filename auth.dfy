/** The authentication and authorization middleware
    (`middleware/auth.js`): bearer-token extraction and the guard chain of
    `protect`, the role-name allow list of `authorize` and the direct
    permission check of `checkPermission`. Token verification is a
    parameter: the tokens that verify, with the claims they decode to. */
module Auth {
  import opened Common
  import opened Hierarchy
  import opened RoleModel
  import opened UserModel

  // ---------------------------------------------------------------------
  // Splitting the Authorization header

  /** `s.split(' ')`: the fields between single spaces, empty ones included. */
  function Split(s: string): (fields: seq<string>)
    ensures |fields| >= 1
    decreases |s|
  {
    if |s| == 0 then [""]
    else
      var rest := Split(s[1..]);
      if s[0] == ' ' then [""] + rest else [[s[0]] + rest[0]] + rest[1..]
  }

  /** `fields.join(' ')`. */
  function Join(fields: seq<string>): string
    requires |fields| >= 1
    decreases |fields|
  {
    if |fields| == 1 then fields[0] else fields[0] + " " + Join(fields[1..])
  }

  /** No field holds a space. */
  predicate SpaceFree(fields: seq<string>)
  {
    forall i :: 0 <= i < |fields| ==> ' ' !in fields[i]
  }

  /** Split fields hold no space. */
  lemma {:induction false} SplitSpaceFree(s: string)
    ensures SpaceFree(Split(s))
    decreases |s|
  {
    if |s| > 0 {
      SplitSpaceFree(s[1..]);
      var rest := Split(s[1..]);
      if s[0] != ' ' {
        assert ' ' !in rest[0];
        assert ' ' !in [s[0]] + rest[0];
      }
    }
  }

  /** Joining the fields of a string gives the string back. */
  lemma {:induction false} JoinSplit(s: string)
    ensures Join(Split(s)) == s
    decreases |s|
  {
    if |s| > 0 {
      JoinSplit(s[1..]);
      var rest := Split(s[1..]);
      if s[0] == ' ' {
        assert Split(s) == [""] + rest;
        assert Split(s)[1..] == rest;
      } else {
        var fs := Split(s);
        assert fs[0] == [s[0]] + rest[0];
        if |rest| == 1 {
          assert fs == [[s[0]] + rest[0]];
        } else {
          assert fs[1..] == rest[1..];
          assert Join(rest) == rest[0] + " " + Join(rest[1..]);
        }
      }
    }
  }

  /** Splitting joined space-free fields gives the fields back. */
  lemma {:induction false} SplitJoin(fields: seq<string>)
    requires |fields| >= 1 && SpaceFree(fields)
    ensures Split(Join(fields)) == fields
    decreases |fields|, |fields[0]|
  {
    var f := fields[0];
    if |f| == 0 {
      if |fields| > 1 {
        SplitJoin(fields[1..]);
        var s := Join(fields);
        assert s == " " + Join(fields[1..]);
        assert s[1..] == Join(fields[1..]);
        assert fields == [""] + fields[1..];
      }
    } else {
      assert f[0] in f;
      var shorter := fields[0 := f[1..]];
      assert forall c :: c in f[1..] ==> c in f;
      assert SpaceFree(shorter) by {
        forall i | 0 <= i < |shorter|
          ensures ' ' !in shorter[i]
        {
          if i > 0 {
            assert shorter[i] == fields[i];
          }
        }
      }
      SplitJoin(shorter);
      var s := Join(fields);
      assert shorter[1..] == fields[1..];
      assert s == [f[0]] + Join(shorter) by {
        if |fields| == 1 {
          assert s == f;
        } else {
          assert s == f + " " + Join(fields[1..]);
          assert Join(shorter) == f[1..] + " " + Join(fields[1..]);
        }
      }
      assert s[1..] == Join(shorter);
      assert [f[0]] + f[1..] == f;
    }
  }

  // ---------------------------------------------------------------------
  // protect

  /** The token `protect` takes from the `Authorization` header: the second
      space-separated field when the header starts with `Bearer`; nothing
      when that field is missing or empty. */
  function BearerToken(header: Option<string>): (token: Option<string>)
    ensures token.Some? ==>
      header.Some? && StartsWith(header.value, "Bearer")
      && token.value != "" && ' ' !in token.value
      && |Split(header.value)| >= 2 && token.value == Split(header.value)[1]
    ensures (header.Some? && StartsWith(header.value, "Bearer")
             && |Split(header.value)| >= 2 && Split(header.value)[1] != "") ==> token.Some?
  {
    if header.None? || !StartsWith(header.value, "Bearer") then None
    else
      var fields := Split(header.value);
      SplitSpaceFree(header.value);
      if |fields| < 2 || fields[1] == "" then None else Some(fields[1])
  }

  /** The header a client sends for a token is `Bearer <token>`; `protect`
      takes exactly that token back out of it, whatever follows it after a
      further space. The scheme is only checked for its first six letters,
      so `Bearerish <token>` is accepted as well. */
  lemma BearerRoundTrip(scheme: string, token: string, rest: seq<string>)
    requires StartsWith(scheme, "Bearer") && ' ' !in scheme
    requires token != "" && ' ' !in token && SpaceFree(rest)
    ensures BearerToken(Some(Join([scheme, token] + rest))) == Some(token)
  {
    var fields := [scheme, token] + rest;
    assert SpaceFree(fields) by {
      forall i | 0 <= i < |fields|
        ensures ' ' !in fields[i]
      {
        if i >= 2 {
          assert fields[i] == rest[i - 2];
        }
      }
    }
    SplitJoin(fields);
    var h := Join(fields);
    assert h == scheme + " " + Join(fields[1..]);
    assert h[..6] == scheme[..6];
  }

  /** What a token that verifies decodes to: the user id and the issue time
      in seconds. */
  datatype Claims = Claims(id: UserId, iat: int)

  /** The reasons `protect` refuses a request; each is answered with 401. */
  datatype AuthError = NoToken | InvalidToken | UserNotFound | PasswordChanged

  /** `protect`: the authenticated user, or why the request is refused.
      `verified` holds the tokens `jwt.verify` accepts with their claims; a
      token outside it throws and is refused like a missing one. */
  function Protect(header: Option<string>, verified: map<string, Claims>, users: map<UserId, User>): (result: Result<UserId, AuthError>)
    ensures result == Err(NoToken) <==> BearerToken(header).None?
    ensures result == Err(InvalidToken) <==> BearerToken(header).Some? && BearerToken(header).value !in verified
    ensures result == Err(UserNotFound) <==>
      BearerToken(header).Some? && BearerToken(header).value in verified
      && verified[BearerToken(header).value].id !in users
    ensures result.Ok? <==>
      BearerToken(header).Some? && BearerToken(header).value in verified
      && verified[BearerToken(header).value].id in users
      && !ChangedPasswordAfter(users[verified[BearerToken(header).value].id], verified[BearerToken(header).value].iat)
    ensures result.Ok? ==> result.value == verified[BearerToken(header).value].id
  {
    var token := BearerToken(header);
    if token.None? then Err(NoToken)
    else if token.value !in verified then Err(InvalidToken)
    else
      var claims := verified[token.value];
      if claims.id !in users then Err(UserNotFound)
      else if ChangedPasswordAfter(users[claims.id], claims.iat) then Err(PasswordChanged)
      else Ok(claims.id)
  }

  /** After a password change saved at `now`, a token signed two or more
      seconds earlier no longer authenticates its user, while one signed
      from `now - 1000` on still does. */
  lemma PasswordChangeLocksOutOldTokens(header: Option<string>, verified: map<string, Claims>, users: map<UserId, User>, now: Millis, signed: Millis)
    requires now >= 1000 && signed >= 0
    requires BearerToken(header).Some? && BearerToken(header).value in verified
    requires verified[BearerToken(header).value].iat == IssuedAt(signed)
    requires verified[BearerToken(header).value].id in users
    requires users[verified[BearerToken(header).value].id].passwordChangedAt == Some(now - 1000)
    ensures signed + 2000 <= now ==> Protect(header, verified, users) == Err(PasswordChanged)
    ensures signed >= now - 1000 ==> Protect(header, verified, users).Ok?
  {
    PasswordChangeRevokesOlderTokens(users[verified[BearerToken(header).value].id], now, signed);
  }

  // ---------------------------------------------------------------------
  // authorize and checkPermission

  /** The outcome of a guard: the request goes on (`next()`), is refused
      with 403, or fails with a thrown error handed to `next(err)`. */
  datatype Decision = Pass | Forbidden | Failure

  /** The role document a user's populated `role` refers to, when stored. */
  predicate HasStoredRole(users: map<UserId, User>, store: Store, uid: UserId)
  {
    uid in users && users[uid].role in store
  }

  /** `authorize(...allowed)`: the user's role name must be in the list.
      A user or role that is no longer stored makes `user.role.name` throw. */
  function Authorize(allowed: seq<string>, users: map<UserId, User>, store: Store, uid: UserId): (d: Decision)
    ensures d == Failure <==> !HasStoredRole(users, store, uid)
    ensures d == Pass <==> HasStoredRole(users, store, uid) && store[users[uid].role].name in allowed
  {
    if !HasStoredRole(users, store, uid) then Failure
    else if store[users[uid].role].name in allowed then Pass
    else Forbidden
  }

  /** `checkPermission(required)`: some permission listed directly on the
      user's role, as populated, has the required name. */
  function CheckPermission(required: string, users: map<UserId, User>, store: Store, catalog: Catalog, uid: UserId): (d: Decision)
    ensures d == Failure <==> !HasStoredRole(users, store, uid)
    ensures d == Pass <==>
      (HasStoredRole(users, store, uid)
       && exists p :: p in store[users[uid].role].perms && p in catalog && catalog[p] == required)
  {
    if !HasStoredRole(users, store, uid) then Failure
    else if exists p :: p in Populated(store[users[uid].role].perms, catalog) && catalog[p] == required then Pass
    else Forbidden
  }

  /** `checkPermission` ignores inheritance: a user whose role inherits the
      required permission from its parent, but does not list it, is refused. */
  lemma InheritedPermissionRefused()
    ensures
      var store := map[0 := Role("editor", "", [7], None, 0), 1 := Role("author", "", [], Some(0), 1)];
      var catalog := map[7 := "publish"];
      var users := map[5 := User("a@example.com", "A", 1, None)];
      Inherits(store, catalog, store[1].parent, 7)
      && CheckPermission("publish", users, store, catalog, 5) == Forbidden
  {
    var store := map[0 := Role("editor", "", [7], None, 0), 1 := Role("author", "", [], Some(0), 1)];
    var links := ParentLinks(store);
    assert Up(links, Some(0), 0) == Some(0);
  }
}
