/**
 The authentication layer: credentials are extracted, then authenticated, then checked for
 every permission the handler demands; each refusal is rendered by the extractor.
 */
module AuthLayer {
  import opened AuthStack
  import opened Sequences
  import opened Wrappers

  /** A stored password. How a hash answers an attempt is up to its algorithm. */
  datatype UserPassword = Plaintext(text: string) | Hashed(verifies: string -> bool) {
    predicate Matches(attempt: string) {
      match this
      case Plaintext(text) => attempt == text
      case Hashed(verifies) => verifies(attempt)
    }
  }

  datatype User = User(password: Option<UserPassword>, roles: seq<string>)

  datatype Role = Role(permissions: set<string>, superUser: bool)

  datatype Provider = NoOpProvider | ConfigProvider(users: map<string, User>, roles: map<string, Role>) {
    /** `AuthConfig::user` */
    function Find(user: Option<string>): Option<User>
      requires ConfigProvider?
    {
      if user.Some? && user.value in users then Some(users[user.value]) else None
    }
  }

  // ---------- The provider ----------

  /** `authenticate`: no error if the credentials are accepted. */
  function Authenticate(p: Provider, auth: Auth): Option<AuthError> {
    if p.NoOpProvider? then None
    else
      match auth.token
      case Absent => Some(AuthFailed)
      case ExternallyVerified => None
      case PlainPassword(attempt) =>
        match p.Find(auth.user)
        case None => Some(UserNotFound)
        case Some(user) =>
          if user.password.Some? && user.password.value.Matches(attempt) then None else Some(AuthFailed)
  }

  /** Role `name` of the configuration grants `permission`. */
  predicate Grants(roles: map<string, Role>, name: string, permission: string) {
    name in roles && (roles[name].superUser || permission in roles[name].permissions)
  }

  /** Some role of the user grants the permission. */
  ghost predicate Allowed(p: Provider, user: Option<string>, permission: string) {
    p.NoOpProvider? ||
    (p.Find(user).Some? && exists role :: role in p.Find(user).value.roles && Grants(p.roles, role, permission))
  }

  /** `authorize` */
  method Authorize(p: Provider, user: Option<string>, permission: string) returns (err: Option<AuthError>)
    ensures err == Refusal(p, user, permission)
  {
    if p.NoOpProvider? {
      return None;
    }
    var found := p.Find(user);
    if found.None? {
      return Some(UserNotFound);
    }
    var roles := found.value.roles;
    for i := 0 to |roles|
      invariant forall role | role in roles[..i] :: !Grants(p.roles, role, permission)
    {
      if Grants(p.roles, roles[i], permission) {
        assert roles[i] in roles;
        return None;
      }
      PrefixSnoc(roles, i);
    }
    WholePrefix(roles);
    return Some(NoPermission(permission));
  }

  ghost function Refusal(p: Provider, user: Option<string>, permission: string): Option<AuthError> {
    if Allowed(p, user, permission) then None
    else if p.Find(user).None? then Some(UserNotFound)
    else Some(NoPermission(permission))
  }

  // ---------- The layer ----------

  /** The first refusal among the permissions demanded. */
  ghost function FirstRefusal(p: Provider, user: Option<string>, permissions: seq<string>): Option<AuthError> {
    if permissions == [] then None
    else
      var n := |permissions| - 1;
      var earlier := FirstRefusal(p, user, permissions[..n]);
      if earlier.Some? then earlier else Refusal(p, user, permissions[n])
  }

  /** What is held against credentials that have been extracted. */
  ghost function Objection(p: Provider, permissions: seq<string>, auth: Auth): Option<AuthError> {
    var refused := Authenticate(p, auth);
    if refused.Some? then refused else FirstRefusal(p, auth.user, permissions)
  }

  /** The user the inner service is called for, or the response that is sent instead. */
  ghost function Answer(leaves: seq<Leaf>, p: Provider, permissions: seq<string>, req: Request)
    : Result<Option<string>, Response>
    requires leaves != []
  {
    match FirstSuccess(leaves, req)
    case Err(error) => Err(leaves[0].render(error))
    case Ok(auth) =>
      match Objection(p, permissions, auth)
      case None => Ok(auth.user)
      case Some(error) => Err(leaves[0].render(error))
  }

  /** `AuthService::call` */
  method Call(e: Extractor, p: Provider, permissions: seq<string>, req: Request)
    returns (r: Result<Option<string>, Response>)
    requires e.WellFormed()
    ensures Leaves(e) != [] && r == Answer(Leaves(e), p, permissions, req)
  {
    var extracted := ExtractAuth(e, req);
    if extracted.Err? {
      var response := ErrorResponse(e, extracted.error);
      return Err(response);
    }
    var auth := extracted.value;
    var refused := Authenticate(p, auth);
    if refused.Some? {
      var response := ErrorResponse(e, refused.value);
      return Err(response);
    }
    for i := 0 to |permissions|
      invariant FirstRefusal(p, auth.user, permissions[..i]).None?
    {
      var denied := Authorize(p, auth.user, permissions[i]);
      RefusalStep(p, auth.user, permissions, i);
      if denied.Some? {
        RefusalStays(p, auth.user, permissions, i + 1);
        var response := ErrorResponse(e, denied.value);
        return Err(response);
      }
    }
    WholePrefix(permissions);
    return Ok(auth.user);
  }

  lemma RefusalStep(p: Provider, user: Option<string>, permissions: seq<string>, i: nat)
    requires i < |permissions|
    ensures FirstRefusal(p, user, permissions[..i + 1]) ==
            var earlier := FirstRefusal(p, user, permissions[..i]);
            if earlier.Some? then earlier else Refusal(p, user, permissions[i])
  {
    PrefixSnoc(permissions, i);
  }

  lemma {:induction false} RefusalStays(p: Provider, user: Option<string>, permissions: seq<string>, i: nat)
    requires i <= |permissions| && FirstRefusal(p, user, permissions[..i]).Some?
    ensures FirstRefusal(p, user, permissions) == FirstRefusal(p, user, permissions[..i])
    decreases |permissions| - i
  {
    if i == |permissions| {
      WholePrefix(permissions);
    } else {
      RefusalStep(p, user, permissions, i);
      RefusalStays(p, user, permissions, i + 1);
    }
  }

  // ---------- Who is let through ----------

  /** The provider vouches for these credentials. */
  predicate Vouches(p: Provider, auth: Auth) {
    || p.NoOpProvider?
    || auth.token.ExternallyVerified?
    || (&& auth.token.PlainPassword?
        && auth.user.Some? && auth.user.value in p.users
        && p.users[auth.user.value].password.Some?
        && p.users[auth.user.value].password.value.Matches(auth.token.password))
  }

  lemma {:induction false} AllAllowed(p: Provider, user: Option<string>, permissions: seq<string>)
    ensures FirstRefusal(p, user, permissions).None? <==>
            forall permission | permission in permissions :: Allowed(p, user, permission)
  {
    if permissions != [] {
      var n := |permissions| - 1;
      AllAllowed(p, user, permissions[..n]);
      Snoc(permissions);
      assert forall permission ::
          permission in permissions <==> permission in permissions[..n] || permission == permissions[n];
    }
  }

  /** Leaf `i` is the first to succeed, and what it extracted is good for all permissions. */
  ghost predicate LetThroughBy(leaves: seq<Leaf>, p: Provider, permissions: seq<string>, req: Request, i: int) {
    && FirstToSucceed(leaves, req, i)
    && var auth := leaves[i].extract(req).value;
    && Vouches(p, auth)
    && forall permission | permission in permissions :: Allowed(p, auth.user, permission)
  }

  /**
   A request gets through exactly when some leaf extracts credentials from it, the provider
   vouches for those of the first such leaf, and their user has every permission demanded.
   Credentials of later leaves are of no help.
   */
  lemma LetThroughIff(leaves: seq<Leaf>, p: Provider, permissions: seq<string>, req: Request)
    requires leaves != []
    ensures var answer := Answer(leaves, p, permissions, req);
            && (answer.Ok? <==> exists i :: LetThroughBy(leaves, p, permissions, req, i))
            && (forall i :: LetThroughBy(leaves, p, permissions, req, i) ==>
                  answer == Ok(leaves[i].extract(req).value.user))
  {
    var k := FirstSuccessMeans(leaves, req);
    if !AllFail(leaves, req) {
      AllAllowed(p, leaves[k].extract(req).value.user, permissions);
    }
    forall i
      ensures FirstToSucceed(leaves, req, i) ==> i == k && !AllFail(leaves, req)
    {
      OnlyOneFirst(leaves, req, i, k);
    }
    assert LetThroughBy(leaves, p, permissions, req, k) || forall i :: !LetThroughBy(leaves, p, permissions, req, i);
  }

  lemma OnlyOneFirst(leaves: seq<Leaf>, req: Request, i: int, k: int)
    ensures FirstToSucceed(leaves, req, i) ==> !AllFail(leaves, req)
    ensures FirstToSucceed(leaves, req, i) && FirstToSucceed(leaves, req, k) ==> k == i
  {}

  // ---------- Which error is rendered ----------

  /** When no leaf extracts anything, the leftmost leaf renders the error it failed with itself. */
  lemma FailedExtractionIsRendered(leaves: seq<Leaf>, p: Provider, permissions: seq<string>, req: Request)
    requires leaves != [] && AllFail(leaves, req)
    ensures Answer(leaves, p, permissions, req) == Err(leaves[0].render(leaves[0].extract(req).error))
  {
    var _ := FirstSuccessMeans(leaves, req);
  }

  /** The password a user of the configuration has, if the user exists and has one. */
  function PasswordOf(p: Provider, user: Option<string>): Option<UserPassword>
    requires p.ConfigProvider?
  {
    if user.Some? && user.value in p.users then p.users[user.value].password else None
  }

  /**
   Authentication, field by field. Without a configuration everyone is who they say they are;
   otherwise whoever has been verified elsewhere is accepted, whoever shows nothing fails, a
   password for a user who does not exist is answered as such, and any other has to match: the
   same text, or one that the stored hash verifies.
   */
  lemma AuthenticationMeans(p: Provider, auth: Auth)
    ensures p.NoOpProvider? || auth.token.ExternallyVerified? ==> Authenticate(p, auth).None?
    ensures p.ConfigProvider? && auth.token.Absent? ==> Authenticate(p, auth) == Some(AuthFailed)
    ensures p.ConfigProvider? && auth.token.PlainPassword? ==>
              var attempt := auth.token.password;
              if auth.user.None? || auth.user.value !in p.users then Authenticate(p, auth) == Some(UserNotFound)
              else
                var matches := match PasswordOf(p, auth.user)
                               case None => false
                               case Some(Plaintext(text)) => attempt == text
                               case Some(Hashed(verifies)) => verifies(attempt);
                Authenticate(p, auth) == if matches then None else Some(AuthFailed)
  {}

  /** Authorization, field by field: some role of the user is a super user's or has the permission. */
  lemma AllowedIff(p: Provider, user: Option<string>, permission: string)
    ensures Allowed(p, user, permission) <==>
            || p.NoOpProvider?
            || (&& user.Some? && user.value in p.users
                && exists role :: role in p.users[user.value].roles && role in p.roles
                               && (p.roles[role].superUser || permission in p.roles[role].permissions))
  {
    if p.ConfigProvider? && user.Some? && user.value in p.users {
      forall role
        ensures Grants(p.roles, role, permission) <==>
                role in p.roles && (p.roles[role].superUser || permission in p.roles[role].permissions)
      {
      }
    }
  }

  /** When authentication refuses what was extracted, the leftmost leaf renders its error. */
  lemma RefusalIsRendered(leaves: seq<Leaf>, p: Provider, permissions: seq<string>, req: Request, i: nat)
    requires FirstToSucceed(leaves, req, i) && Authenticate(p, leaves[i].extract(req).value).Some?
    ensures Answer(leaves, p, permissions, req)
         == Err(leaves[0].render(Authenticate(p, leaves[i].extract(req).value).value))
  {
    var k := FirstSuccessMeans(leaves, req);
    OnlyOneFirst(leaves, req, i, k);
  }

  /**
   When it does not, the leftmost leaf renders the error for the first permission that is
   missing: an unknown user if the user is not in the configuration, else that permission.
   */
  lemma MissingPermissionIsRendered(
    leaves: seq<Leaf>, p: Provider, permissions: seq<string>, req: Request, i: nat, j: nat)
    requires FirstToSucceed(leaves, req, i) && Authenticate(p, leaves[i].extract(req).value).None?
    requires j < |permissions| && !Allowed(p, leaves[i].extract(req).value.user, permissions[j])
    requires forall k | 0 <= k < j :: Allowed(p, leaves[i].extract(req).value.user, permissions[k])
    ensures var user := leaves[i].extract(req).value.user;
            var known := p.ConfigProvider? && user.Some? && user.value in p.users;
            Answer(leaves, p, permissions, req)
            == Err(leaves[0].render(if known then NoPermission(permissions[j]) else UserNotFound))
  {
    var user := leaves[i].extract(req).value.user;
    var k := FirstSuccessMeans(leaves, req);
    OnlyOneFirst(leaves, req, i, k);
    AllAllowed(p, user, permissions[..j]);
    RefusalStep(p, user, permissions, j);
    RefusalStays(p, user, permissions, j + 1);
  }

  // ---------- What a refusal gives away ----------

  ghost predicate RenderedAs(leaf: Leaf, kind: BuiltIn) {
    forall err :: leaf.render(err) == Render(kind, err)
  }

  /**
   Refused credentials get one and the same response, whatever the users, roles and
   permissions are, whichever user is named and whichever password is tried. So it does not
   show whether the user exists.
   */
  lemma RefusedCredentialsLookAlike(
    leaves: seq<Leaf>, kind: BuiltIn, p: Provider, permissions: seq<string>, req: Request, auth: Auth)
    requires leaves != [] && RenderedAs(leaves[0], kind)
    requires FirstSuccess(leaves, req) == Ok(auth) && !Vouches(p, auth)
    ensures Answer(leaves, p, permissions, req) == Err(Render(kind, AuthFailed))
  {
    var error := Authenticate(p, auth);
    SameResponseIff(kind, error.value, AuthFailed);
  }

  /**
   Once vouched for, a user who is not in the configuration gets that same response if any
   permission is demanded, and one who is gets a 403 that names the first missing permission.
   */
  lemma MissingPermissionIsNamed(
    leaves: seq<Leaf>, kind: BuiltIn, p: Provider, permissions: seq<string>, req: Request, auth: Auth, i: nat)
    requires leaves != [] && RenderedAs(leaves[0], kind)
    requires FirstSuccess(leaves, req) == Ok(auth) && Vouches(p, auth)
    requires i < |permissions| && !Allowed(p, auth.user, permissions[i])
    requires forall j | 0 <= j < i :: Allowed(p, auth.user, permissions[j])
    ensures Answer(leaves, p, permissions, req) ==
            Err(Render(kind, if p.Find(auth.user).Some? then NoPermission(permissions[i]) else AuthFailed))
  {
    AllAllowed(p, auth.user, permissions[..i]);
    RefusalStep(p, auth.user, permissions, i);
    RefusalStays(p, auth.user, permissions, i + 1);
    SameResponseIff(kind, UserNotFound, AuthFailed);
  }

  /**
   The no-op extractor is expected never to render an error. It does so for every request
   exactly when users are looked up in the configuration.
   */
  lemma NoOpRendersIff(p: Provider, permissions: seq<string>, req: Request)
    ensures Answer([NO_OP], p, permissions, req).Err? <==> p.ConfigProvider?
    ensures p.ConfigProvider? ==> Answer([NO_OP], p, permissions, req).error.status == 500
  {
    AllAllowed(p, None, permissions);
  }
}
