/**
 * The authorization and user-lookup helpers of the file-backed HTTP server,
 * and the decision the `/auth/login` handler takes. The user list the
 * server keeps in memory is an explicit parameter here.
 */
module Server {
  import opened Wrappers
  import opened Json
  import Seqs

  /** A user record of the server's user list (fields the helpers read). */
  datatype User = User(
    id: string,
    name: string,
    email: string,
    role: string,
    managerId: Option<string>,  // None for `null`
    pass: Value)

  /** No two users share an id. */
  ghost predicate UniqueIds(users: seq<User>) {
    forall i, j :: 0 <= i < j < |users| ==> users[i].id != users[j].id
  }

  // ---------------------------------------------------------------------
  // Role gate

  /** What a middleware does with a request: hand it on, or answer it with an error. */
  datatype Gate = Next | Deny(status: int, error: string)

  /** Roles that pass every role gate. */
  const PrivilegedRoles: seq<string> := ["admin", "hr"]

  /**
   * The middleware built by `allow(...roles)`, applied to a caller with `role`:
   * `admin` and `hr` always pass, any other role passes only when listed,
   * and everybody else is refused with 403 `forbidden`.
   */
  function Allow(roles: seq<string>, role: string): (g: Gate)
    ensures role == "admin" || role == "hr" ==> g == Next
    ensures role != "admin" && role != "hr" ==> (g == Next <==> role in roles)
    ensures g != Next ==> g == Deny(403, "forbidden")
  {
    if role in PrivilegedRoles then Next
    else if role in roles then Next
    else Deny(403, "forbidden")
  }

  /** Listing more roles never refuses a caller that a shorter list admitted. */
  lemma AllowMonotone(roles: seq<string>, more: seq<string>, role: string)
    requires forall r :: r in roles ==> r in more
    requires Allow(roles, role) == Next
    ensures Allow(more, role) == Next
  {
  }

  // ---------------------------------------------------------------------
  // User lookup

  /** `getUser(id)`: the first user with that id, or nothing. */
  function GetUser(users: seq<User>, id: string): (r: Option<User>)
    ensures r.None? <==> forall i :: 0 <= i < |users| ==> users[i].id != id
    ensures r.Some? ==> exists i :: 0 <= i < |users| && users[i] == r.value && users[i].id == id
                                    && forall j :: 0 <= j < i ==> users[j].id != id
  {
    Seqs.Find(users, (u: User) => u.id == id)
  }

  /** With unique ids, `getUser` returns the one user carrying the id. */
  lemma GetUserUnique(users: seq<User>, i: nat)
    requires UniqueIds(users)
    requires i < |users|
    ensures GetUser(users, users[i].id) == Some(users[i])
  {
    var r := GetUser(users, users[i].id);
    var k :| 0 <= k < |users| && users[k] == r.value && users[k].id == users[i].id
             && forall j :: 0 <= j < k ==> users[j].id != users[i].id;
    assert k == i;
  }

  /**
   * `isManagerOf(managerId, userId)`: the user with id `userId` exists and
   * its manager is `managerId`.
   */
  function IsManagerOf(users: seq<User>, managerId: string, userId: string): (r: bool)
    ensures (forall i :: 0 <= i < |users| ==> users[i].id != userId) ==> !r
    ensures r <==> exists i :: 0 <= i < |users| && users[i].id == userId
                              && users[i].managerId == Some(managerId)
                              && forall j :: 0 <= j < i ==> users[j].id != userId
  {
    match GetUser(users, userId)
    case None => false
    case Some(u) => u.managerId == Some(managerId)
  }

  /** With unique ids, being a manager of a user is a plain membership test. */
  lemma IsManagerOfUnique(users: seq<User>, managerId: string, userId: string)
    requires UniqueIds(users)
    ensures IsManagerOf(users, managerId, userId)
        <==> exists i :: 0 <= i < |users| && users[i].id == userId && users[i].managerId == Some(managerId)
  {
    if exists i :: 0 <= i < |users| && users[i].id == userId && users[i].managerId == Some(managerId) {
      var i :| 0 <= i < |users| && users[i].id == userId && users[i].managerId == Some(managerId);
      GetUserUnique(users, i);
    }
  }

  // ---------------------------------------------------------------------
  // Record filters

  /** `stripPass(u)`: the record without its `pass` field. */
  function StripPass(u: Record): (r: Record)
    ensures "pass" !in r
    ensures r.Keys == u.Keys - {"pass"}
    ensures forall k :: k in r ==> r[k] == u[k]
  {
    u - {"pass"}
  }

  /** The fields of `obj` whose value is not `undefined`. */
  function DefinedPart(obj: Record): Record {
    map k | k in obj && obj[k] != Undefined :: obj[k]
  }

  /**
   * `cleanUndefined(obj)`: copies, key by key, every field whose value is
   * not `undefined` into a fresh object.
   */
  method CleanUndefined(obj: Record) returns (out: Record)
    ensures forall k :: k in out <==> k in obj && obj[k] != Undefined
    ensures forall k :: k in out ==> out[k] == obj[k]
    ensures out == DefinedPart(obj)
  {
    out := map[];
    var todo := obj.Keys;
    while todo != {}
      invariant todo <= obj.Keys
      invariant forall k :: k in out ==> k in obj && k !in todo && obj[k] != Undefined && out[k] == obj[k]
      invariant forall k :: k in obj && k !in todo && obj[k] != Undefined ==> k in out
      decreases todo
    {
      var k :| k in todo;
      if obj[k] != Undefined {
        out := out[k := obj[k]];
      }
      todo := todo - {k};
    }
  }

  /** Cleaning an already clean record changes nothing. */
  lemma DefinedPartIdempotent(obj: Record)
    ensures DefinedPart(DefinedPart(obj)) == DefinedPart(obj)
    ensures forall k :: k in DefinedPart(obj) ==> DefinedPart(obj)[k] != Undefined
  {
  }

  // ---------------------------------------------------------------------
  // Login

  /** The answer of `/auth/login`: the signed-in user's public profile, or an error. */
  datatype LoginReply = LoggedIn(user: Record) | LoginError(status: int, error: string)

  /** The profile the login answer carries: id, name, email and role. */
  function PublicProfile(u: User): Record {
    map["id" := Str(u.id), "name" := Str(u.name), "email" := Str(u.email), "role" := Str(u.role)]
  }

  /** Case-insensitive comparison of a stored email with the submitted one. */
  predicate EmailMatches(u: User, email: Value) {
    Lower(u.email) == Lower(ToJsString(email))
  }

  /** `users[i]` is the first user whose email matches `email`, the one `find` returns. */
  predicate FirstMatch(users: seq<User>, email: Value, i: int) {
    0 <= i < |users| && EmailMatches(users[i], email)
    && forall j :: 0 <= j < i ==> !EmailMatches(users[j], email)
  }

  /** There is at most one first match. */
  lemma FirstMatchUnique(users: seq<User>, email: Value, i: int, k: int)
    requires FirstMatch(users, email, i) && FirstMatch(users, email, k)
    ensures i == k
  {
  }

  /**
   * The decision of `/auth/login` on request body `body`: a missing email
   * or password is a 400, and is decided before any lookup; otherwise the
   * first user whose email matches case-insensitively must exist and have
   * exactly that password, else 401.
   */
  function Login(users: seq<User>, body: Record): (r: LoginReply)
    ensures !Truthy(Field(body, "email")) || !Truthy(Field(body, "pass"))
            ==> r == LoginError(400, "missing_fields")
    ensures r.LoginError? ==> r == LoginError(400, "missing_fields") || r == LoginError(401, "bad_credentials")
    ensures Truthy(Field(body, "email")) && Truthy(Field(body, "pass")) && r.LoginError?
            ==> r == LoginError(401, "bad_credentials")
    ensures r.LoggedIn? <==>
              Truthy(Field(body, "email")) && Truthy(Field(body, "pass"))
              && exists i :: FirstMatch(users, Field(body, "email"), i) && users[i].pass == Field(body, "pass")
    ensures r.LoggedIn? ==> "pass" !in r.user && r.user.Keys == {"id", "name", "email", "role"}
    ensures r.LoggedIn? ==> exists i :: FirstMatch(users, Field(body, "email"), i)
                                       && users[i].pass == Field(body, "pass")
                                       && r.user == PublicProfile(users[i])
  {
    var email, pass := Field(body, "email"), Field(body, "pass");
    if !Truthy(email) || !Truthy(pass) then LoginError(400, "missing_fields")
    else
      match Seqs.FirstIndex(users, (x: User) => EmailMatches(x, email))
      case None =>
        assert forall i :: !FirstMatch(users, email, i);
        LoginError(401, "bad_credentials")
      case Some(i) =>
        assert FirstMatch(users, email, i);
        if users[i].pass != pass then
          assert forall k :: FirstMatch(users, email, k) ==> k == i by {
            forall k | FirstMatch(users, email, k) ensures k == i {
              FirstMatchUnique(users, email, i, k);
            }
          }
          LoginError(401, "bad_credentials")
        else LoggedIn(PublicProfile(users[i]))
  }

  /**
   * `/me`: the caller's public profile; nothing when the id is unknown,
   * where the handler dereferences the missing user and fails.
   */
  function Me(users: seq<User>, id: string): (r: Option<Record>)
    ensures r.None? <==> forall i :: 0 <= i < |users| ==> users[i].id != id
    ensures r.Some? ==> "pass" !in r.value
    ensures r.Some? ==> exists i :: 0 <= i < |users| && users[i].id == id && r.value == PublicProfile(users[i])
                                    && forall j :: 0 <= j < i ==> users[j].id != id
  {
    match GetUser(users, id)
    case None => None
    case Some(u) => Some(PublicProfile(u))
  }

  /** Two bodies with the same password whose emails match the same users get the same decision. */
  lemma LoginSameMatches(users: seq<User>, b: Record, c: Record)
    requires Field(b, "pass") == Field(c, "pass")
    requires Truthy(Field(b, "email")) <==> Truthy(Field(c, "email"))
    requires forall u :: EmailMatches(u, Field(b, "email")) <==> EmailMatches(u, Field(c, "email"))
    ensures Login(users, b) == Login(users, c)
  {
    var eb, ec := Field(b, "email"), Field(c, "email");
    if Truthy(eb) && Truthy(Field(b, "pass")) {
      var pb := (x: User) => EmailMatches(x, eb);
      var pc := (x: User) => EmailMatches(x, ec);
      Seqs.FirstIndexSame(users, pb, pc);
    }
  }

  /** The login decision depends on the email only up to letter case. */
  lemma LoginCaseInsensitive(users: seq<User>, body: Record, s: string, t: string)
    requires Lower(s) == Lower(t)
    ensures Login(users, body["email" := Str(s)]) == Login(users, body["email" := Str(t)])
  {
    var bs, bt := body["email" := Str(s)], body["email" := Str(t)];
    assert Field(bs, "email") == Str(s) && Field(bt, "email") == Str(t);
    assert Field(bs, "pass") == Field(bt, "pass");
    LoginSameMatches(users, bs, bt);
  }

  /**
   * Only the first user whose email matches is tried: when it has another
   * password, a later user with the same email and the submitted password
   * is refused too.
   */
  lemma LoginTriesFirstMatchOnly(users: seq<User>, body: Record, i: nat, j: nat)
    requires i < j < |users|
    requires Truthy(Field(body, "email")) && Truthy(Field(body, "pass"))
    requires forall k :: 0 <= k < i ==> !EmailMatches(users[k], Field(body, "email"))
    requires EmailMatches(users[i], Field(body, "email")) && EmailMatches(users[j], Field(body, "email"))
    requires users[i].pass != Field(body, "pass") && users[j].pass == Field(body, "pass")
    ensures Login(users, body) == LoginError(401, "bad_credentials")
  {
    var email := Field(body, "email");
    var p := (x: User) => EmailMatches(x, email);
    var r := Seqs.FirstIndex(users, p);
    assert p(users[i]);
    assert r == Some(i);
  }
}
