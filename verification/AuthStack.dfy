/** Stacked authentication extractors, nested to any depth, and how configuration builds them. */
module AuthStack {
  import opened Sequences
  import opened Wrappers

  datatype AuthError =
    | NoAuthProvided | InvalidAuthHeader | UnknownAuthScheme(scheme: string) | PayloadDecode(cause: string)
    | NonPrintablePayload(cause: string) | InvalidAuthPayload | UserNotFound | AuthFailed
    | NoPermission(permission: string)

  datatype AuthToken = Absent | ExternallyVerified | PlainPassword(password: string)

  datatype Auth = Auth(user: Option<string>, token: AuthToken)

  datatype Request = Request(headers: map<string, string>, peer: Option<string>)

  /** A problem report; its type is the same tag in every response of this layer. */
  datatype Response = Response(status: nat, title: string, detail: Option<string>, challenge: Option<string>)

  /** An extractor that is not a stack, as the record of its four behaviours. */
  datatype Leaf = Leaf(
    extract: Request -> Result<Auth, AuthError>,
    render: AuthError -> Response,
    schemes: map<string, string>,
    headers: seq<string>)

  const UNKNOWN_SCHEME: string := "Unknown authentication scheme: "
  const PAYLOAD_DECODE: string := "Authentication payload decoding error: "
  const NON_PRINTABLE: string := "Authentication payload is not printable: "
  const NO_PERMISSION: string := "User does not have permission: "

  function Title(err: AuthError): string {
    match err
    case NoAuthProvided => "No authentication data provided"
    case InvalidAuthHeader => "Invalid format for Authorization header"
    case UnknownAuthScheme(scheme) => UNKNOWN_SCHEME + scheme
    case PayloadDecode(cause) => PAYLOAD_DECODE + cause
    case NonPrintablePayload(cause) => NON_PRINTABLE + cause
    case InvalidAuthPayload => "Invalid authentication payload"
    case UserNotFound => "Authentication failed"
    case AuthFailed => "Authentication failed"
    case NoPermission(permission) => NO_PERMISSION + permission
  }

  /**
   How the built-in leaves render errors: the no-op one, those with a `WWW-Authenticate`
   challenge (Basic and Bearer), and the others. A challenge comes with the outcome of making
   a header value of it.
   */
  datatype BuiltIn = Silent | Challenging(wwwAuth: Result<string, string>) | Forbidding

  function Status(kind: BuiltIn, err: AuthError): nat {
    if kind.Silent? then 500
    else if err.NoPermission? then 403
    else if err.NoAuthProvided? || err.UserNotFound? || err.AuthFailed? then
      if kind.Challenging? then 401 else 403
    else 400
  }

  function Report(kind: BuiltIn, status: nat, title: string): Response {
    if !kind.Challenging? || status != 401 then Response(status, title, None, None)
    else match kind.wwwAuth
      case Ok(challenge) => Response(status, title, None, Some(challenge))
      case Err(cause) => Response(500, "Invalid HTTP Basic realm value", Some(cause), None)
  }

  function Render(kind: BuiltIn, err: AuthError): Response {
    Report(kind, Status(kind, err), Title(err))
  }

  /** `NoOpAuthExtractor`: always succeeds, with nothing. */
  const NO_OP: Leaf := Leaf(
    (req: Request) => Ok(Auth(None, Absent)),
    (err: AuthError) => Render(Silent, err),
    map[], [])

  datatype Extractor = Single(leaf: Leaf) | Stacked(extractors: seq<Extractor>) {
    /** `StackedAuthExtractor::new` makes sure that no stack is empty. */
    ghost predicate WellFormed() {
      Stacked? ==> extractors != [] && forall e | e in extractors :: e.WellFormed()
    }
  }

  /** `StackedAuthExtractor::new` */
  function NewStack(extractors: seq<Extractor>): (r: Extractor)
    ensures (forall e | e in extractors :: e.WellFormed()) ==> r.WellFormed()
  {
    Stacked(if extractors == [] then [Single(NO_OP)] else extractors)
  }

  // ---------- The flat form ----------

  /** The leaves of an extractor from left to right. */
  function Leaves(e: Extractor): seq<Leaf>
    decreases e, 1
  {
    match e
    case Single(leaf) => [leaf]
    case Stacked(extractors) => LeavesOfAll(extractors)
  }

  function LeavesOfAll(es: seq<Extractor>): seq<Leaf>
    decreases es, 0
  {
    if es == [] then [] else LeavesOfAll(es[..|es| - 1]) + Leaves(es[|es| - 1])
  }

  /** Try a flat list in order: the first success, or else the first error. */
  function FirstSuccess(leaves: seq<Leaf>, req: Request): Result<Auth, AuthError>
    requires leaves != []
  {
    var head := leaves[0].extract(req);
    if head.Ok? || |leaves| == 1 then head
    else
      var tail := FirstSuccess(leaves[1..], req);
      if tail.Ok? then tail else head
  }

  function MergeSchemes(leaves: seq<Leaf>): map<string, string> {
    if leaves == [] then map[]
    else MergeSchemes(leaves[..|leaves| - 1]) + leaves[|leaves| - 1].schemes
  }

  function ConcatHeaders(leaves: seq<Leaf>): seq<string> {
    if leaves == [] then []
    else ConcatHeaders(leaves[..|leaves| - 1]) + leaves[|leaves| - 1].headers
  }

  ghost predicate AllFail(leaves: seq<Leaf>, req: Request) {
    forall i | 0 <= i < |leaves| :: leaves[i].extract(req).Err?
  }

  /** Leaf `i` succeeds and all before it fail. */
  ghost predicate FirstToSucceed(leaves: seq<Leaf>, req: Request, i: int) {
    0 <= i < |leaves| && leaves[i].extract(req).Ok? && AllFail(leaves[..i], req)
  }

  /** The flat form, said without recursion. */
  lemma {:induction false} FirstSuccessMeans(leaves: seq<Leaf>, req: Request) returns (i: int)
    requires leaves != []
    ensures if AllFail(leaves, req) then FirstSuccess(leaves, req) == leaves[0].extract(req)
            else FirstToSucceed(leaves, req, i) && FirstSuccess(leaves, req) == leaves[i].extract(req)
  {
    i := 0;
    if leaves[0].extract(req).Err? && |leaves| > 1 {
      var tail := leaves[1..];
      var k := FirstSuccessMeans(tail, req);
      assert forall j | 1 <= j < |leaves| :: leaves[j] == tail[j - 1];
      if AllFail(tail, req) {
        assert AllFail(leaves, req);
      } else {
        i := k + 1;
        forall j | 0 <= j < i
          ensures leaves[..i][j].extract(req).Err?
        {
          assert j > 0 ==> leaves[..i][j] == tail[..k][j - 1];
        }
        var j :| 0 <= j < |tail| && tail[j].extract(req).Ok?;
        assert leaves[j + 1] == tail[j];
      }
    }
  }

  lemma {:induction false} FirstSuccessAppend(a: seq<Leaf>, b: seq<Leaf>, req: Request)
    requires a != [] && b != []
    ensures FirstSuccess(a + b, req) ==
            if FirstSuccess(a, req).Err? && FirstSuccess(b, req).Ok? then FirstSuccess(b, req)
            else FirstSuccess(a, req)
  {
    assert (a + b)[1..] == a[1..] + b;
    if |a| > 1 {
      FirstSuccessAppend(a[1..], b, req);
    } else {
      assert a[1..] + b == b;
    }
  }

  lemma {:induction false} MergeAppend(a: seq<Leaf>, b: seq<Leaf>)
    ensures MergeSchemes(a + b) == MergeSchemes(a) + MergeSchemes(b)
  {
    if b == [] {
      assert a + b == a;
    } else {
      MergeAppend(a, b[..|b| - 1]);
      assert (a + b)[..|a + b| - 1] == a + b[..|b| - 1];
      MergeAssociates(MergeSchemes(a), MergeSchemes(b[..|b| - 1]), b[|b| - 1].schemes);
    }
  }

  lemma MergeAssociates(x: map<string, string>, y: map<string, string>, z: map<string, string>)
    ensures (x + y) + z == x + (y + z)
  {}

  lemma {:induction false} ConcatAppend(a: seq<Leaf>, b: seq<Leaf>)
    ensures ConcatHeaders(a + b) == ConcatHeaders(a) + ConcatHeaders(b)
  {
    if b == [] {
      assert a + b == a;
    } else {
      ConcatAppend(a, b[..|b| - 1]);
      InitLast(a, b);
      Assoc(ConcatHeaders(a), ConcatHeaders(b[..|b| - 1]), b[|b| - 1].headers);
    }
  }

  lemma OneExtractor(e: Extractor)
    ensures LeavesOfAll([e]) == Leaves(e)
  {
    assert [e][..0] == [];
    assert [] + Leaves(e) == Leaves(e);
  }

  lemma {:induction false} HasLeaves(e: Extractor)
    requires e.WellFormed()
    ensures Leaves(e) != []
    decreases e
  {
    if e.Stacked? {
      assert e.extractors[|e.extractors| - 1] in e.extractors;
      HasLeaves(e.extractors[|e.extractors| - 1]);
    }
  }

  /** The leaves of a stack are those of its extractors, from left to right. */
  lemma LeavesMean(leaf: Leaf, e: Extractor, a: seq<Extractor>, b: seq<Extractor>)
    ensures Leaves(Single(leaf)) == [leaf]
    ensures Leaves(Stacked([])) == [] && Leaves(Stacked([e])) == Leaves(e)
    ensures Leaves(Stacked(a + b)) == Leaves(Stacked(a)) + Leaves(Stacked(b))
  {
    OneExtractor(e);
    LeavesAppend(a, b);
  }

  /** A scheme is offered if some leaf has one of that name, and then as the last such leaf has it. */
  lemma {:induction false} MergedSchemesMean(leaves: seq<Leaf>, name: string)
    ensures name in MergeSchemes(leaves) <==> exists i :: 0 <= i < |leaves| && name in leaves[i].schemes
    ensures forall i | 0 <= i < |leaves| && name in leaves[i].schemes ::
              (forall j | i < j < |leaves| :: name !in leaves[j].schemes) ==>
                MergeSchemes(leaves)[name] == leaves[i].schemes[name]
  {
    if leaves != [] {
      MergedSchemesMean(leaves[..|leaves| - 1], name);
    }
  }

  /** The sensitive headers of one leaf, and of several lists of leaves. */
  lemma ConcatHeadersMeans(leaf: Leaf, a: seq<Leaf>, b: seq<Leaf>)
    ensures ConcatHeaders([]) == [] && ConcatHeaders([leaf]) == leaf.headers
    ensures ConcatHeaders(a + b) == ConcatHeaders(a) + ConcatHeaders(b)
  {
    assert [leaf][..0] == [];
    ConcatAppend(a, b);
  }

  // ---------- The extractors as written ----------

  /** `extract_auth` of any extractor is that of its flattening. */
  method ExtractAuth(e: Extractor, req: Request) returns (r: Result<Auth, AuthError>)
    requires e.WellFormed()
    ensures Leaves(e) != [] && r == FirstSuccess(Leaves(e), req)
    decreases e
  {
    HasLeaves(e);
    if e.Single? {
      return e.leaf.extract(req);
    }
    var firstError := None;
    for i := 0 to |e.extractors|
      invariant LeavesOfAll(e.extractors[..i]) == [] <==> i == 0
      invariant i == 0 <==> firstError.None?
      invariant i > 0 ==> FirstSuccess(LeavesOfAll(e.extractors[..i]), req) == Err(firstError.value)
    {
      var ex := e.extractors[i];
      PrefixSnoc(e.extractors, i);
      var result := ExtractAuth(ex, req);
      if i > 0 {
        FirstSuccessAppend(LeavesOfAll(e.extractors[..i]), Leaves(ex), req);
      } else {
        assert LeavesOfAll(e.extractors[..i]) + Leaves(ex) == Leaves(ex);
      }
      if result.Ok? {
        StopsAt(e.extractors, i, req);
        return result;
      }
      if firstError.None? {
        firstError := Some(result.error);
      }
    }
    WholePrefix(e.extractors);
    return Err(firstError.value);
  }

  lemma {:induction false} LeavesAppend(a: seq<Extractor>, b: seq<Extractor>)
    ensures LeavesOfAll(a + b) == LeavesOfAll(a) + LeavesOfAll(b)
  {
    if b == [] {
      assert a + b == a;
    } else {
      LeavesAppend(a, b[..|b| - 1]);
      InitLast(a, b);
      Assoc(LeavesOfAll(a), LeavesOfAll(b[..|b| - 1]), Leaves(b[|b| - 1]));
    }
  }

  /** What comes after a success is never asked. */
  lemma StopsAt(es: seq<Extractor>, i: nat, req: Request)
    requires i < |es| && LeavesOfAll(es[..i + 1]) != [] && FirstSuccess(LeavesOfAll(es[..i + 1]), req).Ok?
    ensures LeavesOfAll(es) != [] && FirstSuccess(LeavesOfAll(es), req) == FirstSuccess(LeavesOfAll(es[..i + 1]), req)
  {
    LeavesAppend(es[..i + 1], es[i + 1..]);
    assert es[..i + 1] + es[i + 1..] == es;
    var a, b := LeavesOfAll(es[..i + 1]), LeavesOfAll(es[i + 1..]);
    if b == [] {
      assert a + b == a;
    } else {
      FirstSuccessAppend(a, b, req);
    }
  }

  /** `error_response` of any extractor is that of its leftmost leaf. */
  method ErrorResponse(e: Extractor, err: AuthError) returns (r: Response)
    requires e.WellFormed()
    ensures Leaves(e) != [] && r == Leaves(e)[0].render(err)
    decreases e
  {
    HasLeaves(e);
    if e.Single? {
      return e.leaf.render(err);
    }
    r := ErrorResponse(e.extractors[0], err);
    LeavesAppend(e.extractors[..1], e.extractors[1..]);
    assert e.extractors[..1] + e.extractors[1..] == e.extractors;
    assert e.extractors[..1] == [e.extractors[0]];
    OneExtractor(e.extractors[0]);
  }

  method SecuritySchemes(e: Extractor) returns (r: map<string, string>)
    ensures r == MergeSchemes(Leaves(e))
    decreases e
  {
    if e.Single? {
      assert [e.leaf][..0] == [];
      return e.leaf.schemes;
    }
    r := map[];
    for i := 0 to |e.extractors|
      invariant r == MergeSchemes(LeavesOfAll(e.extractors[..i]))
    {
      PrefixSnoc(e.extractors, i);
      MergeAppend(LeavesOfAll(e.extractors[..i]), Leaves(e.extractors[i]));
      var more := SecuritySchemes(e.extractors[i]);
      r := r + more;
    }
    WholePrefix(e.extractors);
  }

  method SensitiveHeaders(e: Extractor) returns (r: seq<string>)
    ensures r == ConcatHeaders(Leaves(e))
    decreases e
  {
    if e.Single? {
      assert [e.leaf][..0] == [];
      return e.leaf.headers;
    }
    r := [];
    for i := 0 to |e.extractors|
      invariant r == ConcatHeaders(LeavesOfAll(e.extractors[..i]))
    {
      PrefixSnoc(e.extractors, i);
      ConcatAppend(LeavesOfAll(e.extractors[..i]), Leaves(e.extractors[i]));
      var more := SensitiveHeaders(e.extractors[i]);
      r := r + more;
    }
    WholePrefix(e.extractors);
  }

  /**
   Extraction followed by error rendering, as the authentication layer does it: when every
   leaf fails, the leftmost leaf both supplies the error and renders it.
   */
  method ExtractOrRender(e: Extractor, req: Request) returns (r: Result<Auth, Response>)
    requires e.WellFormed()
    ensures Leaves(e) != []
    ensures r.Ok? <==> exists i :: 0 <= i < |Leaves(e)| && Leaves(e)[i].extract(req).Ok?
    ensures r.Err? ==> var first := Leaves(e)[0];
                       first.extract(req).Err? && r.error == first.render(first.extract(req).error)
  {
    var extracted := ExtractAuth(e, req);
    ghost var i := FirstSuccessMeans(Leaves(e), req);
    if extracted.Ok? {
      return Ok(extracted.value);
    }
    var response := ErrorResponse(e, extracted.error);
    return Err(response);
  }

  // ---------- What a rendered error gives away ----------

  /**
   The responses of the built-in leaves. A challenge goes with 401 and nothing else, and only to
   callers who have not authenticated; if it is not a valid header value, they get a 500 instead.
   */
  lemma RenderMeans(kind: BuiltIn, err: AuthError)
    ensures var r := Render(kind, err);
            var unauthenticated := err.NoAuthProvided? || err.UserNotFound? || err.AuthFailed?;
            var challenged := kind.Challenging? && unauthenticated;
            && (r.challenge.Some? <==> r.status == 401)
            && (r.status == 401 <==> challenged && kind.wwwAuth.Ok?)
            && (r.status == 401 ==> r.challenge.value == kind.wwwAuth.value)
            && (r.status == 403 <==> !kind.Silent? && (err.NoPermission? || (unauthenticated && !kind.Challenging?)))
            && (r.status == 500 <==> kind.Silent? || (challenged && kind.wwwAuth.Err?))
            && (r.status == 400 <==> !kind.Silent? && !err.NoPermission? && !unauthenticated)
            && (r.detail.Some? <==> challenged && kind.wwwAuth.Err?)
            && (r.detail.None? ==> r.title == Title(err))
  {}

  /** The two errors that must not be told apart: an unknown user and a failed authentication. */
  predicate RefusedCredentials(err: AuthError) {
    err.UserNotFound? || err.AuthFailed?
  }

  /** What follows `opening` in a title, if the title begins with it. */
  ghost function Argument(title: string, opening: string): Option<string> {
    if opening <= title then Some(title[|opening|..]) else None
  }

  lemma ArgumentFollows(opening: string, argument: string)
    ensures Argument(opening + argument, opening) == Some(argument)
  {
    LeftIsPrefix(opening, argument);
    DropLeft(opening, argument);
  }

  /** A text that differs from an opening at position `i` does not begin with it. */
  lemma OtherOpening(title: string, opening: string, i: nat)
    requires i < |title| && i < |opening| && title[i] != opening[i]
    ensures Argument(title, opening) == None && title != opening
  {}

  /** Reading an error off its title. */
  ghost function ErrorOf(title: string): AuthError {
    if Argument(title, UNKNOWN_SCHEME).Some? then UnknownAuthScheme(Argument(title, UNKNOWN_SCHEME).value)
    else if Argument(title, NO_PERMISSION).Some? then NoPermission(Argument(title, NO_PERMISSION).value)
    else if Argument(title, PAYLOAD_DECODE).Some? then PayloadDecode(Argument(title, PAYLOAD_DECODE).value)
    else if Argument(title, NON_PRINTABLE).Some? then NonPrintablePayload(Argument(title, NON_PRINTABLE).value)
    else if title == "No authentication data provided" then NoAuthProvided
    else if title == "Invalid format for Authorization header" then InvalidAuthHeader
    else if title == "Invalid authentication payload" then InvalidAuthPayload
    else AuthFailed
  }

  /** A title identifies its error, but for the two ways of refusing credentials. */
  lemma TitleReadsBack(err: AuthError)
    ensures ErrorOf(Title(err)) == if err.UserNotFound? then AuthFailed else err
  {
    match err
    case UnknownAuthScheme(scheme) => ArgumentFollows(UNKNOWN_SCHEME, scheme);
    case NoPermission(permission) => PermissionTitleReadsBack(permission);
    case PayloadDecode(cause) => DecodeTitleReadsBack(cause);
    case NonPrintablePayload(cause) => PrintableTitleReadsBack(cause);
    case _ => PlainTitleReadsBack(err);
  }

  lemma PermissionTitleReadsBack(permission: string)
    ensures ErrorOf(NO_PERMISSION + permission) == NoPermission(permission)
  {
    ArgumentFollows(NO_PERMISSION, permission);
    OtherOpening(NO_PERMISSION + permission, UNKNOWN_SCHEME, 1);
  }

  lemma DecodeTitleReadsBack(cause: string)
    ensures ErrorOf(PAYLOAD_DECODE + cause) == PayloadDecode(cause)
  {
    ArgumentFollows(PAYLOAD_DECODE, cause);
    OtherOpening(PAYLOAD_DECODE + cause, UNKNOWN_SCHEME, 0);
    OtherOpening(PAYLOAD_DECODE + cause, NO_PERMISSION, 0);
  }

  lemma PrintableTitleReadsBack(cause: string)
    ensures ErrorOf(NON_PRINTABLE + cause) == NonPrintablePayload(cause)
  {
    ArgumentFollows(NON_PRINTABLE, cause);
    OtherOpening(NON_PRINTABLE + cause, UNKNOWN_SCHEME, 0);
    OtherOpening(NON_PRINTABLE + cause, NO_PERMISSION, 0);
    OtherOpening(NON_PRINTABLE + cause, PAYLOAD_DECODE, 23);
  }

  lemma PlainTitleReadsBack(err: AuthError)
    requires err.NoAuthProvided? || err.InvalidAuthHeader? || err.InvalidAuthPayload? || RefusedCredentials(err)
    ensures ErrorOf(Title(err)) == if err.UserNotFound? then AuthFailed else err
  {
    NoOpening(Title(err));
  }

  lemma NoOpening(title: string)
    requires |title| > 20 && title[0] != 'U' && title[15] != 'p'
    ensures Argument(title, UNKNOWN_SCHEME) == None && Argument(title, NO_PERMISSION) == None
    ensures Argument(title, PAYLOAD_DECODE) == None && Argument(title, NON_PRINTABLE) == None
  {
    OtherOpening(title, UNKNOWN_SCHEME, 0);
    OtherOpening(title, NO_PERMISSION, 0);
    OtherOpening(title, PAYLOAD_DECODE, 15);
    OtherOpening(title, NON_PRINTABLE, 15);
  }

  lemma SameTitleIff(a: AuthError, b: AuthError)
    ensures Title(a) == Title(b) <==> a == b || (RefusedCredentials(a) && RefusedCredentials(b))
  {
    TitleReadsBack(a);
    TitleReadsBack(b);
  }

  lemma SameReportIff(kind: BuiltIn, a: AuthError, b: AuthError, t: string, u: string)
    requires t == u <==> a == b || (RefusedCredentials(a) && RefusedCredentials(b))
    ensures Report(kind, Status(kind, a), t) == Report(kind, Status(kind, b), u) <==> Indistinct(kind, a, b)
  {}

  /** Errors that a leaf renders alike, said without looking at a response. */
  predicate Indistinct(kind: BuiltIn, a: AuthError, b: AuthError) {
    || a == b
    || (RefusedCredentials(a) && RefusedCredentials(b))
    || (kind.Challenging? && kind.wwwAuth.Err? && Status(kind, a) == Status(kind, b) == 401)
  }

  /**
   Exactly when two errors get the same response from a built-in leaf: the two ways of refusing
   credentials always do, as documented, and no other two do, unless the leaf has a challenge
   that is not a valid header value, which hides what kind of challenged error it was.
   */
  lemma SameResponseIff(kind: BuiltIn, a: AuthError, b: AuthError)
    ensures Render(kind, a) == Render(kind, b) <==> Indistinct(kind, a, b)
  {
    SameTitleIff(a, b);
    SameReportIff(kind, a, b, Title(a), Title(b));
  }

  // ---------- Construction from configuration ----------

  /** A leaf config comes with the outcome of setting that leaf up: keys may fail to load. */
  datatype Config = Plain(made: Result<Leaf, string>) | StackedConfig(extractors: seq<Config>)

  function MakeExtractor(c: Config): Result<Extractor, string>
    decreases c, 1
  {
    match c
    case Plain(made) => if made.Ok? then Ok(Single(made.value)) else Err(made.error)
    case StackedConfig(extractors) =>
      var all := MakeAll(extractors);
      if all.Ok? then Ok(NewStack(all.value)) else Err(all.error)
  }

  /** `map(make_extractor).collect::<Result<_, _>>()` */
  function MakeAll(cs: seq<Config>): Result<seq<Extractor>, string>
    decreases cs, 0
  {
    if cs == [] then Ok([])
    else
      var init := MakeAll(cs[..|cs| - 1]);
      if init.Err? then init
      else
        var last := MakeExtractor(cs[|cs| - 1]);
        if last.Err? then Err(last.error) else Ok(init.value + [last.value])
  }

  /** The leaf configs from left to right; an empty stack stands for one no-op leaf. */
  function LeafConfigs(c: Config): seq<Result<Leaf, string>>
    decreases c, 1
  {
    match c
    case Plain(made) => [made]
    case StackedConfig(extractors) =>
      if extractors == [] then [Ok(NO_OP)] else LeafConfigsOfAll(extractors)
  }

  function LeafConfigsOfAll(cs: seq<Config>): seq<Result<Leaf, string>>
    decreases cs, 0
  {
    if cs == [] then [] else LeafConfigsOfAll(cs[..|cs| - 1]) + LeafConfigs(cs[|cs| - 1])
  }

  /** All leaves, or the leftmost setup error. */
  function Collect(made: seq<Result<Leaf, string>>): Result<seq<Leaf>, string> {
    if made == [] then Ok([])
    else if made[0].Err? then Err(made[0].error)
    else
      var rest := Collect(made[1..]);
      if rest.Err? then rest else Ok([made[0].value] + rest.value)
  }

  lemma {:induction false} CollectAppend(a: seq<Result<Leaf, string>>, b: seq<Result<Leaf, string>>)
    ensures Collect(a + b) ==
            if Collect(a).Err? then Collect(a)
            else if Collect(b).Err? then Collect(b)
            else Ok(Collect(a).value + Collect(b).value)
  {
    if a == [] {
      assert a + b == b;
      assert Collect(b).Ok? ==> [] + Collect(b).value == Collect(b).value;
    } else {
      CollectAppend(a[1..], b);
      assert (a + b)[1..] == a[1..] + b;
      if a[0].Ok? && Collect(a[1..]).Ok? && Collect(b).Ok? {
        var x, y, z := [a[0].value], Collect(a[1..]).value, Collect(b).value;
        assert x + (y + z) == (x + y) + z;
      }
    }
  }

  lemma CollectOne(made: Result<Leaf, string>)
    ensures Collect([made]) == if made.Ok? then Ok([made.value]) else Err(made.error)
  {
    assert [made][1..] == [];
    if made.Ok? {
      assert [made.value] + [] == [made.value];
    }
  }

  /** All values, or the leftmost error, read off the list itself. */
  lemma {:induction false} CollectMeans(made: seq<Result<Leaf, string>>, i: nat)
    requires i <= |made| && forall j | 0 <= j < i :: made[j].Ok?
    ensures i < |made| && made[i].Err? ==> Collect(made) == Err(made[i].error)
    ensures i == |made| ==> Collect(made).Ok? && |Collect(made).value| == i
    ensures i == |made| ==> forall j | 0 <= j < i :: Collect(made).value[j] == made[j].value
  {
    if i > 0 {
      CollectMeans(made[1..], i - 1);
    }
  }

  /** The leaf configs of a config; a stack without extractors stands for a leaf that does nothing. */
  lemma LeafConfigsMean(made: Result<Leaf, string>, c: Config, a: seq<Config>, b: seq<Config>)
    ensures LeafConfigs(Plain(made)) == [made]
    ensures LeafConfigs(StackedConfig([])) == [Ok(NO_OP)] && LeafConfigs(StackedConfig([c])) == LeafConfigs(c)
    ensures a != [] && b != [] ==>
              LeafConfigs(StackedConfig(a + b)) == LeafConfigs(StackedConfig(a)) + LeafConfigs(StackedConfig(b))
    ensures forall req :: NO_OP.extract(req) == Ok(Auth(None, Absent))
  {
    assert LeafConfigsOfAll([c]) == LeafConfigsOfAll([c][..0]) + LeafConfigs(c);
    LeafConfigsAppend(a, b);
  }

  lemma {:induction false} LeafConfigsAppend(a: seq<Config>, b: seq<Config>)
    ensures LeafConfigsOfAll(a + b) == LeafConfigsOfAll(a) + LeafConfigsOfAll(b)
    decreases |b|
  {
    if b == [] {
      assert a + b == a;
    } else {
      InitLast(a, b);
      LeafConfigsAppend(a, b[..|b| - 1]);
      Assoc(LeafConfigsOfAll(a), LeafConfigsOfAll(b[..|b| - 1]), LeafConfigs(b[|b| - 1]));
    }
  }

  ghost predicate Flattens(made: Result<Extractor, string>, leaves: Result<seq<Leaf>, string>) {
    if made.Ok? then made.value.WellFormed() && leaves == Ok(Leaves(made.value))
    else leaves == Err(made.error)
  }

  /**
   Building a nested configuration is building its leaves from left to right: it fails with
   the leftmost setup error if any leaf fails, and otherwise yields exactly those leaves.
   */
  lemma {:induction false} MakeFlattens(c: Config)
    ensures Flattens(MakeExtractor(c), Collect(LeafConfigs(c)))
    decreases c, 1
  {
    match c
    case Plain(made) =>
      CollectOne(made);
    case StackedConfig(extractors) =>
      MakeAllFlattens(extractors);
      if extractors == [] {
        OneExtractor(Single(NO_OP));
        CollectOne(Ok(NO_OP));
      } else if MakeAll(extractors).Ok? {
        assert MakeAll(extractors).value != [];
      }
  }

  lemma {:induction false} MakeAllFlattens(cs: seq<Config>)
    ensures var all, leaves := MakeAll(cs), Collect(LeafConfigsOfAll(cs));
            if all.Ok? then
              && |all.value| == |cs|
              && (forall e | e in all.value :: e.WellFormed())
              && leaves == Ok(LeavesOfAll(all.value))
            else leaves == Err(all.error)
    decreases cs, 0
  {
    if cs != [] {
      var init, last := cs[..|cs| - 1], cs[|cs| - 1];
      MakeAllFlattens(init);
      MakeFlattens(last);
      CollectAppend(LeafConfigsOfAll(init), LeafConfigs(last));
      if MakeAll(cs).Ok? {
        assert MakeAll(cs).value[..|init|] == MakeAll(init).value;
      }
    }
  }

  /** How an extractor behaves on every request, error and query. */
  ghost predicate SameBehaviour(e: Extractor, f: Extractor)
    requires e.WellFormed() && f.WellFormed()
  {
    HasLeaves(e);
    HasLeaves(f);
    && (forall req :: FirstSuccess(Leaves(e), req) == FirstSuccess(Leaves(f), req))
    && (forall err :: Leaves(e)[0].render(err) == Leaves(f)[0].render(err))
    && MergeSchemes(Leaves(e)) == MergeSchemes(Leaves(f))
    && ConcatHeaders(Leaves(e)) == ConcatHeaders(Leaves(f))
  }

  /** Nesting is unobservable: any config behaves as the flat stack of its leaf configs. */
  lemma NestingIsUnobservable(c: Config, flat: Config)
    requires flat == StackedConfig(AsPlain(LeafConfigs(c)))
    ensures MakeExtractor(c).Ok? <==> MakeExtractor(flat).Ok?
    ensures MakeExtractor(c).Err? ==> MakeExtractor(flat) == MakeExtractor(c)
    ensures MakeExtractor(c).Ok? ==>
              && MakeExtractor(c).value.WellFormed() && MakeExtractor(flat).value.WellFormed()
              && SameBehaviour(MakeExtractor(c).value, MakeExtractor(flat).value)
  {
    MakeFlattens(c);
    MakeFlattens(flat);
    PlainLeaves(LeafConfigs(c));
    LeafConfigsNotEmpty(c);
  }

  function AsPlain(made: seq<Result<Leaf, string>>): (r: seq<Config>)
    ensures |r| == |made|
  {
    if made == [] then [] else AsPlain(made[..|made| - 1]) + [Plain(made[|made| - 1])]
  }

  lemma {:induction false} PlainLeaves(made: seq<Result<Leaf, string>>)
    ensures LeafConfigsOfAll(AsPlain(made)) == made
  {
    if made != [] {
      var init := made[..|made| - 1];
      PlainLeaves(init);
      assert AsPlain(made)[..|init|] == AsPlain(init);
      assert made == init + [made[|made| - 1]];
    }
  }

  lemma {:induction false} LeafConfigsNotEmpty(c: Config)
    ensures LeafConfigs(c) != []
    decreases c
  {
    if c.StackedConfig? && c.extractors != [] {
      LeafConfigsNotEmpty(c.extractors[|c.extractors| - 1]);
    }
  }
}
