/**
 Handlers grouped into routes twice over: once by the router builder and once by the OpenAPI
 document builder. Both walk the same list of registered handlers.
 */
module Routes {
  import opened Sequences
  import opened Wrappers

  datatype Method = GET | HEAD | POST | PUT | DELETE | OPTIONS | TRACE | PATCH | Other(name: string)

  datatype Handler = Handler(name: string, path: string, specPath: string, verb: Method)

  /** The path a builder groups by: the router uses `path`, the document `spec_path`. */
  datatype Grouping = ByPath | BySpecPath {
    function Of(h: Handler): string {
      if ByPath? then h.path else h.specPath
    }
  }

  type MethodTable = map<Method, Handler>

  /** Per-handler configuration: whether each configured handler is disabled. */
  type HandlerConfigs = map<string, bool>

  datatype RouterOutcome = Router(routes: map<string, MethodTable>) | DuplicateHandlerName(name: string) | Panic

  datatype SpecOutcome = Spec(paths: map<string, MethodTable>) | UnsupportedMethod(verb: Method)

  // ---------- What both builders are meant to compute ----------

  predicate IsDisabled(cfg: HandlerConfigs, name: string) {
    name in cfg && cfg[name]
  }

  /** The set handed to the document builder. */
  function DisabledNames(cfg: HandlerConfigs): set<string> {
    set name | name in cfg && cfg[name]
  }

  function Enabled(hs: seq<Handler>, disabled: set<string>): seq<Handler> {
    if hs == [] then []
    else
      var init, last := Enabled(hs[..|hs| - 1], disabled), hs[|hs| - 1];
      if last.name in disabled then init else init + [last]
  }

  /** The handlers at one path, in registration order. */
  function At(hs: seq<Handler>, grouping: Grouping, path: string): seq<Handler> {
    if hs == [] then []
    else
      var init, last := At(hs[..|hs| - 1], grouping, path), hs[|hs| - 1];
      if grouping.Of(last) == path then init + [last] else init
  }

  function TableOf(hs: seq<Handler>): MethodTable {
    if hs == [] then map[]
    else TableOf(hs[..|hs| - 1])[hs[|hs| - 1].verb := hs[|hs| - 1]]
  }

  /** The table of enabled handlers: per path, per method; no path without handlers. */
  function RouteTable(hs: seq<Handler>, grouping: Grouping, disabled: set<string>): map<string, MethodTable> {
    map path | path in PathsOf(hs, grouping) && Enabled(At(hs, grouping, path), disabled) != []
      :: TableOf(Enabled(At(hs, grouping, path), disabled))
  }

  function PathsOf(hs: seq<Handler>, grouping: Grouping): set<string> {
    set h | h in hs :: grouping.Of(h)
  }

  ghost predicate UniqueNames(hs: seq<Handler>) {
    forall i, j | 0 <= i < j < |hs| :: hs[i].name != hs[j].name
  }

  /** What `MethodRouter` demands of the handlers of one path: known methods, none twice. */
  ghost predicate Registrable(hs: seq<Handler>) {
    && (forall i | 0 <= i < |hs| :: !hs[i].verb.Other?)
    && (forall i, j | 0 <= i < j < |hs| :: hs[i].verb != hs[j].verb)
  }

  ghost predicate AllRegistrable(hs: seq<Handler>, disabled: set<string>) {
    forall path | path in PathsOf(hs, ByPath) :: Registrable(Enabled(At(hs, ByPath, path), disabled))
  }

  ghost predicate AllSupported(hs: seq<Handler>, disabled: set<string>) {
    forall h | h in hs && h.name !in disabled :: !h.verb.Other?
  }

  /** Handlers `i` and `j` are both enabled and claim the same path and method. */
  ghost predicate Clash(hs: seq<Handler>, disabled: set<string>, i: nat, j: nat)
    requires i < |hs| && j < |hs|
  {
    && hs[i].name !in disabled && hs[j].name !in disabled
    && hs[i].path == hs[j].path && hs[i].verb == hs[j].verb
  }

  /** No two enabled handlers claim the same path and method. */
  ghost predicate NoConflict(hs: seq<Handler>, disabled: set<string>) {
    forall i, j | 0 <= i < j < |hs| :: !Clash(hs, disabled, i, j)
  }

  /** `verb` is the unsupported method of the first enabled handler that has one. */
  ghost predicate FirstUnsupported(hs: seq<Handler>, disabled: set<string>, verb: Method) {
    exists i :: 0 <= i < |hs| && FirstUnsupportedAt(hs, disabled, i) && hs[i].verb == verb
  }

  ghost predicate FirstUnsupportedAt(hs: seq<Handler>, disabled: set<string>, i: nat)
    requires i < |hs|
  {
    hs[i].name !in disabled && hs[i].verb.Other? && AllSupported(hs[..i], disabled)
  }

  lemma FirstUnsupportedMeans(hs: seq<Handler>, disabled: set<string>, verb: Method)
    ensures FirstUnsupported(hs, disabled, verb) <==>
            exists i :: 0 <= i < |hs| && hs[i].verb == verb && IsUnsupported(hs[i], disabled)
                     && forall j | 0 <= j < i :: !IsUnsupported(hs[j], disabled)
  {
    forall i | 0 <= i < |hs|
      ensures AllSupported(hs[..i], disabled) <==> forall j | 0 <= j < i :: !IsUnsupported(hs[j], disabled)
    {
      if AllSupported(hs[..i], disabled) {
        assert forall j | 0 <= j < i :: hs[j] in hs[..i];
      }
    }
  }

  predicate IsUnsupported(h: Handler, disabled: set<string>) {
    h.name !in disabled && h.verb.Other?
  }

  // ---------- The order of paths ----------

  /** Paths are visited in lexicographic order. */
  predicate AtMost(a: string, b: string) {
    a == [] || (b != [] && (a[0] < b[0] || (a[0] == b[0] && AtMost(a[1..], b[1..]))))
  }

  lemma {:induction false} AtMostIsOrder(a: string, b: string)
    ensures AtMost(a, b) || AtMost(b, a)
    ensures AtMost(a, b) && AtMost(b, a) ==> a == b
  {
    if a != [] && b != [] && a[0] == b[0] {
      AtMostIsOrder(a[1..], b[1..]);
      ConsTail(a);
      ConsTail(b);
    }
  }

  /** Lexicographic order: a prefix comes first, and otherwise the first difference decides. */
  lemma {:induction false} AtMostMeans(a: string, b: string)
    ensures AtMost(a, b) <==> a <= b || exists n :: FirstDifference(a, b, n) && a[n] < b[n]
  {
    if a != [] && b != [] && a[0] == b[0] {
      AtMostMeans(a[1..], b[1..]);
      if n :| FirstDifference(a[1..], b[1..], n) && a[1..][n] < b[1..][n] {
        assert a[..n + 1] == [a[0]] + a[1..][..n] && b[..n + 1] == [b[0]] + b[1..][..n];
        assert FirstDifference(a, b, n + 1);
      }
      if n :| FirstDifference(a, b, n) && a[n] < b[n] {
        assert n > 0;
        assert a[1..][..n - 1] == a[..n][1..] && b[1..][..n - 1] == b[..n][1..];
        assert FirstDifference(a[1..], b[1..], n - 1);
      }
      ConsTail(a);
      ConsTail(b);
    } else if a != [] && b != [] {
      assert FirstDifference(a, b, 0);
      forall n | FirstDifference(a, b, n)
        ensures n == 0
      {
        DifferentHeads(a, b, n);
      }
    }
  }

  lemma DifferentHeads(a: string, b: string, n: nat)
    requires a != [] && b != [] && a[0] != b[0] && n <= |a| && n <= |b|
    ensures a[..n] == b[..n] ==> n == 0
  {
    if n > 0 {
      assert a[..n][0] == a[0] && b[..n][0] == b[0];
    }
  }

  ghost predicate FirstDifference(a: string, b: string, n: int) {
    0 <= n < |a| && n < |b| && a[..n] == b[..n] && a[n] != b[n]
  }

  lemma {:induction false} AtMostTrans(a: string, b: string, c: string)
    requires AtMost(a, b) && AtMost(b, c)
    ensures AtMost(a, c)
  {
    if a != [] && b[0] == a[0] == c[0] {
      AtMostTrans(a[1..], b[1..], c[1..]);
    }
  }

  predicate IsLeast(paths: set<string>, path: string) {
    path in paths && forall other | other in paths :: AtMost(path, other)
  }

  lemma {:induction false} LeastExists(paths: set<string>) returns (path: string)
    requires paths != {}
    ensures IsLeast(paths, path)
  {
    path :| path in paths;
    var rest := paths - {path};
    AtMostIsOrder(path, path);
    assert forall other | other in paths :: other == path || other in rest;
    if rest != {} {
      var least := LeastExists(rest);
      AtMostIsOrder(path, least);
      if AtMost(path, least) {
        forall other | other in paths
          ensures AtMost(path, other)
        {
          if other != path {
            AtMostTrans(path, least, other);
          }
        }
      } else {
        path := least;
      }
    }
  }

  // ---------- The two builders ----------

  /** `register_path`: None if every handler is disabled; a repeated or unknown method panics. */
  method RegisterPath(cfg: HandlerConfigs, handlers: seq<Handler>) returns (panics: bool, table: Option<MethodTable>)
    ensures panics <==> !Registrable(Enabled(handlers, DisabledNames(cfg)))
    ensures !panics ==>
              var enabled := Enabled(handlers, DisabledNames(cfg));
              table == if enabled == [] then None else Some(TableOf(enabled))
  {
    ghost var disabled := DisabledNames(cfg);
    var pathHasHandlers := false;
    var rtr: MethodTable := map[];
    for i := 0 to |handlers|
      invariant pathHasHandlers == (Enabled(handlers[..i], disabled) != [])
      invariant rtr == TableOf(Enabled(handlers[..i], disabled))
      invariant Registrable(Enabled(handlers[..i], disabled))
    {
      var h := handlers[i];
      EnabledStep(handlers, i, disabled);
      if IsDisabled(cfg, h.name) {
        continue;
      }
      RegisterOne(Enabled(handlers[..i], disabled), h);
      TableStep(Enabled(handlers[..i], disabled), h);
      if h.verb.Other? || h.verb in rtr {
        EnabledGrows(handlers, i + 1, disabled);
        return true, None;
      }
      rtr := rtr[h.verb := h];
      pathHasHandlers := true;
    }
    WholePrefix(handlers);
    return false, if pathHasHandlers then Some(rtr) else None;
  }

  /** `AppBuilder::build`, as far as it registers handlers. */
  method BuildRouter(cfg: HandlerConfigs, handlers: seq<Handler>) returns (r: RouterOutcome)
    ensures r.DuplicateHandlerName? <==> !UniqueNames(handlers)
    ensures r.DuplicateHandlerName? ==>
              exists i :: 0 <= i < |handlers| && handlers[i].name == r.name
                       && r.name in NamesOf(handlers[..i]) && UniqueNames(handlers[..i])
    ensures r.Panic? <==> UniqueNames(handlers) && !AllRegistrable(handlers, DisabledNames(cfg))
    ensures r.Router? ==> r.routes == RouteTable(handlers, ByPath, DisabledNames(cfg))
  {
    var duplicate, grouped := GroupByPath(handlers);
    if duplicate.Some? {
      return DuplicateHandlerName(duplicate.value);
    }
    ghost var table := RouteTable(handlers, ByPath, DisabledNames(cfg));
    GroupsTabulate(grouped, handlers, ByPath, DisabledNames(cfg));
    r := RegisterPaths(cfg, grouped, table);
  }

  /** The first loop of `build`: stops at the first repeated name. */
  method GroupByPath(handlers: seq<Handler>) returns (duplicate: Option<string>, grouped: map<string, seq<Handler>>)
    ensures duplicate.Some? <==> !UniqueNames(handlers)
    ensures duplicate.Some? ==>
              exists i :: 0 <= i < |handlers| && handlers[i].name == duplicate.value
                       && duplicate.value in NamesOf(handlers[..i]) && UniqueNames(handlers[..i])
    ensures duplicate.None? ==> IsGrouped(grouped, handlers, ByPath)
  {
    var names: set<string> := {};
    grouped := map[];
    for i := 0 to |handlers|
      invariant names == NamesOf(handlers[..i])
      invariant UniqueNames(handlers[..i])
      invariant IsGrouped(grouped, handlers[..i], ByPath)
    {
      var h := handlers[i];
      PrefixSnoc(handlers, i);
      if h.name in names {
        RepeatedName(handlers, i);
        return Some(h.name), grouped;
      }
      NewName(handlers, i);
      names := names + {h.name};
      GroupOne(grouped, handlers[..i], ByPath, h);
      grouped := grouped[h.path := if h.path in grouped then grouped[h.path] + [h] else [h]];
    }
    WholePrefix(handlers);
    duplicate := None;
  }

  lemma GroupsTabulate(
    grouped: map<string, seq<Handler>>, hs: seq<Handler>, grouping: Grouping, disabled: set<string>)
    requires IsGrouped(grouped, hs, grouping)
    ensures Tabulates(RouteTable(hs, grouping, disabled), grouped, disabled)
  {}

  /** `table` is what the groups amount to. */
  ghost predicate Tabulates(table: map<string, MethodTable>, grouped: map<string, seq<Handler>>, disabled: set<string>) {
    && table.Keys <= grouped.Keys
    && forall path | path in grouped ::
         if Enabled(grouped[path], disabled) == [] then path !in table
         else path in table && table[path] == TableOf(Enabled(grouped[path], disabled))
  }

  /** The second loop of `build`, in any order of the paths. */
  method RegisterPaths(cfg: HandlerConfigs, grouped: map<string, seq<Handler>>, ghost table: map<string, MethodTable>)
    returns (r: RouterOutcome)
    requires Tabulates(table, grouped, DisabledNames(cfg))
    ensures !r.DuplicateHandlerName?
    ensures r.Panic? <==> exists path :: path in grouped && !Registrable(Enabled(grouped[path], DisabledNames(cfg)))
    ensures r.Router? ==> r.routes == table
  {
    var routes: map<string, MethodTable> := map[];
    var left := grouped.Keys;
    ghost var done: set<string> := {};
    while left != {}
      invariant left + done == grouped.Keys
      invariant forall path | path in done ::
                  Registrable(Enabled(grouped[path], DisabledNames(cfg)))
      invariant routes == Part(table, done)
      decreases left
    {
      var path :| path in left;
      var panics, item := RegisterPath(cfg, grouped[path]);
      if panics {
        return Panic;
      }
      PartGrows(table, done, path);
      left, done := left - {path}, done + {path};
      if item.Some? {
        routes := routes[path := item.value];
      }
    }
    return Router(routes);
  }

  /** `ApiDocBuilder::build_spec`, as far as it fills the paths. */
  method BuildSpec(disabled: set<string>, handlers: seq<Handler>) returns (r: SpecOutcome)
    ensures r.UnsupportedMethod? <==> !AllSupported(handlers, disabled)
    ensures r.UnsupportedMethod? ==> FirstUnsupportedByPath(handlers, disabled, r.verb)
    ensures r.Spec? ==> r.paths == RouteTable(handlers, BySpecPath, disabled)
  {
    var grouped := GroupBySpecPath(handlers);
    GroupsTabulate(grouped, handlers, BySpecPath, disabled);
    ghost var table := RouteTable(handlers, BySpecPath, disabled);
    r := FillPaths(disabled, grouped, table);
    if r.UnsupportedMethod? {
      ghost var path :| path in grouped && FirstOffender(grouped, disabled, path, r.verb);
      OffenderIsFirst(grouped, handlers, disabled, path, r.verb);
    } else {
      SupportedByPaths(handlers, BySpecPath, disabled);
    }
  }

  /** Among the groups, `path` is the least with an unsupported method, and `verb` its first. */
  ghost predicate FirstOffender(grouped: map<string, seq<Handler>>, disabled: set<string>, path: string, verb: Method)
    requires path in grouped
  {
    && FirstUnsupported(grouped[path], disabled, verb)
    && forall other | other in grouped && other != path && AtMost(other, path) ::
         AllSupported(grouped[other], disabled)
  }

  /** The same, said of the registered handlers: this is the error that is reported. */
  ghost predicate FirstUnsupportedByPath(hs: seq<Handler>, disabled: set<string>, verb: Method) {
    exists path :: path in PathsOf(hs, BySpecPath) && FirstOffenderAt(hs, disabled, path, verb)
  }

  ghost predicate FirstOffenderAt(hs: seq<Handler>, disabled: set<string>, path: string, verb: Method) {
    && FirstUnsupported(At(hs, BySpecPath, path), disabled, verb)
    && forall h | h in hs && h.name !in disabled && h.verb.Other? :: AtMost(path, h.specPath)
  }

  lemma OffenderIsFirst(
    grouped: map<string, seq<Handler>>, hs: seq<Handler>, disabled: set<string>, path: string, verb: Method)
    requires IsGrouped(grouped, hs, BySpecPath) && path in grouped && FirstOffender(grouped, disabled, path, verb)
    ensures FirstUnsupportedByPath(hs, disabled, verb) && !AllSupported(hs, disabled)
  {
    forall h | h in hs && h.name !in disabled && h.verb.Other?
      ensures AtMost(path, h.specPath)
    {
      var other := h.specPath;
      AtMembers(hs, BySpecPath, other);
      assert BySpecPath.Of(h) in PathsOf(hs, BySpecPath);
      assert h in grouped[other];
      AtMostIsOrder(path, other);
    }
    AtMembers(hs, BySpecPath, path);
    var i :| 0 <= i < |grouped[path]| && FirstUnsupportedAt(grouped[path], disabled, i) && grouped[path][i].verb == verb;
    assert grouped[path][i] in hs;
  }

  /** The first loop of `build_spec`. */
  method GroupBySpecPath(handlers: seq<Handler>) returns (grouped: map<string, seq<Handler>>)
    ensures IsGrouped(grouped, handlers, BySpecPath)
  {
    grouped := map[];
    for i := 0 to |handlers|
      invariant IsGrouped(grouped, handlers[..i], BySpecPath)
    {
      var h := handlers[i];
      GroupOne(grouped, handlers[..i], BySpecPath, h);
      PrefixSnoc(handlers, i);
      grouped := grouped[h.specPath := if h.specPath in grouped then grouped[h.specPath] + [h] else [h]];
    }
    WholePrefix(handlers);
  }

  /** The second loop of `build_spec`, least path first. */
  method FillPaths(disabled: set<string>, grouped: map<string, seq<Handler>>, ghost table: map<string, MethodTable>)
    returns (r: SpecOutcome)
    requires Tabulates(table, grouped, disabled)
    ensures r.Spec? ==> r.paths == table && forall path | path in grouped :: AllSupported(grouped[path], disabled)
    ensures r.UnsupportedMethod? ==> exists path :: path in grouped && FirstOffender(grouped, disabled, path, r.verb)
  {
    var paths: map<string, MethodTable> := map[];
    var left := grouped.Keys;
    ghost var done: set<string> := {};
    while left != {}
      invariant left + done == grouped.Keys
      invariant forall path | path in done :: AllSupported(grouped[path], disabled)
      invariant paths == Part(table, done)
      decreases left
    {
      ghost var least := LeastExists(left);
      var path :| path in left && IsLeast(left, path);
      var unsupported, item := PathItem(disabled, grouped[path]);
      if unsupported.Some? {
        EarlierAreDone(left, done, path);
        return UnsupportedMethod(unsupported.value);
      }
      PartGrows(table, done, path);
      left, done := left - {path}, done + {path};
      if item != map[] {
        paths := paths[path := item];
      }
    }
    return Spec(paths);
  }

  lemma EarlierAreDone(left: set<string>, done: set<string>, path: string)
    requires IsLeast(left, path)
    ensures forall other | other in left + done && other != path && AtMost(other, path) :: other in done
  {
    forall other | other in left && other != path
      ensures !AtMost(other, path)
    {
      AtMostIsOrder(path, other);
    }
  }

  lemma SupportedByPaths(hs: seq<Handler>, grouping: Grouping, disabled: set<string>)
    requires forall path | path in PathsOf(hs, grouping) :: AllSupported(At(hs, grouping, path), disabled)
    ensures AllSupported(hs, disabled)
  {
    forall h | h in hs && h.name !in disabled
      ensures !h.verb.Other?
    {
      AtMembers(hs, grouping, grouping.Of(h));
      assert grouping.Of(h) in PathsOf(hs, grouping);
    }
  }

  /** A table cut down to some paths. */
  ghost function Part(table: map<string, MethodTable>, paths: set<string>): map<string, MethodTable> {
    map path | path in table && path in paths :: table[path]
  }

  lemma PartGrows(table: map<string, MethodTable>, paths: set<string>, path: string)
    ensures Part(table, paths + {path}) ==
            if path in table then Part(table, paths)[path := table[path]] else Part(table, paths)
  {}

  function NamesOf(hs: seq<Handler>): set<string> {
    set h | h in hs :: h.name
  }

  lemma NewName(hs: seq<Handler>, i: nat)
    requires i < |hs| && UniqueNames(hs[..i]) && hs[i].name !in NamesOf(hs[..i])
    ensures UniqueNames(hs[..i + 1])
    ensures NamesOf(hs[..i + 1]) == NamesOf(hs[..i]) + {hs[i].name}
  {
    var before, after := hs[..i], hs[..i + 1];
    assert after == before + [hs[i]];
    assert forall j | 0 <= j < i :: before[j] in before;
    assert forall h | h in before :: h in after;
    assert hs[i] in after;
  }

  lemma RepeatedName(hs: seq<Handler>, i: nat)
    requires i < |hs| && hs[i].name in NamesOf(hs[..i])
    ensures !UniqueNames(hs)
  {
    var h :| h in hs[..i] && h.name == hs[i].name;
    var j :| 0 <= j < i && hs[..i][j] == h;
    assert hs[j].name == hs[i].name;
  }

  /** The inner loop of `build_spec`: a repeated method overwrites, an unknown one is an error. */
  method PathItem(disabled: set<string>, handlers: seq<Handler>) returns (unsupported: Option<Method>, item: MethodTable)
    ensures unsupported.Some? <==> !AllSupported(handlers, disabled)
    ensures unsupported.Some? ==> FirstUnsupported(handlers, disabled, unsupported.value)
    ensures unsupported.None? ==> item == TableOf(Enabled(handlers, disabled))
    ensures unsupported.None? ==> (item == map[] <==> Enabled(handlers, disabled) == [])
  {
    item := map[];
    for i := 0 to |handlers|
      invariant AllSupported(handlers[..i], disabled)
      invariant item == TableOf(Enabled(handlers[..i], disabled))
      invariant item == map[] <==> Enabled(handlers[..i], disabled) == []
    {
      var h := handlers[i];
      PrefixSnoc(handlers, i);
      if h.name !in disabled {
        if h.verb.Other? {
          assert FirstUnsupportedAt(handlers, disabled, i);
          return Some(h.verb), item;
        }
        item := item[h.verb := h];
        assert h.verb in item;
      }
    }
    WholePrefix(handlers);
    return None, item;
  }

  // ---------- Supporting facts ----------

  ghost predicate IsGrouped(grouped: map<string, seq<Handler>>, hs: seq<Handler>, grouping: Grouping) {
    && grouped.Keys == PathsOf(hs, grouping)
    && forall path | path in grouped :: grouped[path] == At(hs, grouping, path)
  }

  lemma {:induction false} NothingAt(hs: seq<Handler>, grouping: Grouping, path: string)
    requires path !in PathsOf(hs, grouping)
    ensures At(hs, grouping, path) == []
  {
    if hs != [] {
      assert forall h | h in hs[..|hs| - 1] :: h in hs;
      NothingAt(hs[..|hs| - 1], grouping, path);
      assert hs[|hs| - 1] in hs;
    }
  }

  lemma PathsAppend(hs: seq<Handler>, grouping: Grouping, h: Handler)
    ensures PathsOf(hs + [h], grouping) == PathsOf(hs, grouping) + {grouping.Of(h)}
  {
    assert forall x | x in hs + [h] :: x in hs || x == h;
    assert forall x | x in hs :: x in hs + [h];
    assert h in hs + [h];
  }

  lemma AtAppend(hs: seq<Handler>, grouping: Grouping, path: string, h: Handler)
    ensures At(hs + [h], grouping, path) ==
            if grouping.Of(h) == path then At(hs, grouping, path) + [h] else At(hs, grouping, path)
  {
    assert (hs + [h])[..|hs|] == hs;
  }

  lemma GroupAt(hs: seq<Handler>, grouping: Grouping, h: Handler, path: string)
    ensures At(hs + [h], grouping, path) ==
            if grouping.Of(h) != path then At(hs, grouping, path)
            else if path in PathsOf(hs, grouping) then At(hs, grouping, path) + [h]
            else [h]
  {
    AtAppend(hs, grouping, path, h);
    if path !in PathsOf(hs, grouping) {
      NothingAt(hs, grouping, path);
    }
  }

  lemma GroupOne(grouped: map<string, seq<Handler>>, hs: seq<Handler>, grouping: Grouping, h: Handler)
    requires IsGrouped(grouped, hs, grouping)
    ensures var path := grouping.Of(h);
            IsGrouped(grouped[path := if path in grouped then grouped[path] + [h] else [h]], hs + [h], grouping)
  {
    var path := grouping.Of(h);
    var after := grouped[path := if path in grouped then grouped[path] + [h] else [h]];
    PathsAppend(hs, grouping, h);
    forall p | p in after
      ensures after[p] == At(hs + [h], grouping, p)
    {
      GroupAt(hs, grouping, h, p);
    }
  }

  lemma {:induction false} AtMembers(hs: seq<Handler>, grouping: Grouping, path: string)
    ensures forall h :: h in At(hs, grouping, path) <==> h in hs && grouping.Of(h) == path
  {
    if hs != [] {
      AtMembers(hs[..|hs| - 1], grouping, path);
      assert hs == hs[..|hs| - 1] + [hs[|hs| - 1]];
    }
  }

  lemma {:induction false} EnabledMembers(hs: seq<Handler>, disabled: set<string>)
    ensures forall h :: h in Enabled(hs, disabled) <==> h in hs && h.name !in disabled
  {
    if hs != [] {
      EnabledMembers(hs[..|hs| - 1], disabled);
      assert hs == hs[..|hs| - 1] + [hs[|hs| - 1]];
    }
  }

  lemma {:induction false} TableKeys(hs: seq<Handler>)
    ensures forall m :: m in TableOf(hs) <==> exists i :: 0 <= i < |hs| && hs[i].verb == m
    ensures forall m | m in TableOf(hs) :: TableOf(hs)[m] in hs && TableOf(hs)[m].verb == m
  {
    if hs != [] {
      var init := hs[..|hs| - 1];
      TableKeys(init);
      forall m
        ensures m in TableOf(hs) <==> exists i :: 0 <= i < |hs| && hs[i].verb == m
      {
        if i :| 0 <= i < |init| && init[i].verb == m {
          assert hs[i].verb == m;
        }
        if i :| 0 <= i < |hs| && hs[i].verb == m {
          assert i < |init| ==> init[i].verb == m;
        }
      }
    }
  }

  lemma EnabledStep(hs: seq<Handler>, i: nat, disabled: set<string>)
    requires i < |hs|
    ensures var before := Enabled(hs[..i], disabled);
            Enabled(hs[..i + 1], disabled) == if hs[i].name in disabled then before else before + [hs[i]]
  {
    assert hs[..i + 1][..i] == hs[..i];
  }

  /** One more handler can be registered exactly when its method is known and not yet taken. */
  lemma RegisterOne(hs: seq<Handler>, h: Handler)
    requires Registrable(hs)
    ensures Registrable(hs + [h]) <==> !h.verb.Other? && h.verb !in TableOf(hs)
  {
    var all := hs + [h];
    TableKeys(hs);
    assert forall i | 0 <= i < |hs| :: all[i] == hs[i];
    assert all[|hs|] == h;
  }

  lemma TableStep(hs: seq<Handler>, h: Handler)
    ensures TableOf(hs + [h]) == TableOf(hs)[h.verb := h]
  {
    assert (hs + [h])[..|hs|] == hs;
  }

  /** What is enabled in the first `n` handlers stays first among all that is enabled. */
  lemma {:induction false} EnabledGrows(hs: seq<Handler>, n: nat, disabled: set<string>)
    requires n <= |hs|
    ensures Enabled(hs[..n], disabled) <= Enabled(hs, disabled)
    ensures !Registrable(Enabled(hs[..n], disabled)) ==> !Registrable(Enabled(hs, disabled))
    decreases |hs|
  {
    if n < |hs| {
      EnabledGrows(hs[..|hs| - 1], n, disabled);
      assert hs[..|hs| - 1][..n] == hs[..n];
    } else {
      assert hs[..n] == hs;
    }
  }

  // ---------- Agreement ----------

  /** Some enabled handler serves this method at this path. */
  ghost predicate Served(hs: seq<Handler>, grouping: Grouping, disabled: set<string>, path: string, verb: Method) {
    exists h :: h in hs && h.name !in disabled && grouping.Of(h) == path && h.verb == verb
  }

  lemma EntryMeans(hs: seq<Handler>, grouping: Grouping, disabled: set<string>, path: string, verb: Method)
    ensures var t := RouteTable(hs, grouping, disabled);
            path in t && verb in t[path] <==> Served(hs, grouping, disabled, path, verb)
  {
    var t := RouteTable(hs, grouping, disabled);
    var enabled := Enabled(At(hs, grouping, path), disabled);
    AtMembers(hs, grouping, path);
    EnabledMembers(At(hs, grouping, path), disabled);
    TableKeys(enabled);
    if Served(hs, grouping, disabled, path, verb) {
      var h :| h in hs && h.name !in disabled && grouping.Of(h) == path && h.verb == verb;
      assert h in enabled;
      assert path in PathsOf(hs, grouping);
    }
    if path in t && verb in t[path] {
      assert t[path][verb] in enabled;
    }
  }

  /** What a route table says: exactly the enabled handlers, under their paths and methods. */
  lemma RouteTableMeans(hs: seq<Handler>, grouping: Grouping, disabled: set<string>)
    ensures var t := RouteTable(hs, grouping, disabled);
            && (forall path, verb :: path in t && verb in t[path] <==> Served(hs, grouping, disabled, path, verb))
            && (forall path | path in t :: t[path] != map[])
  {
    var t := RouteTable(hs, grouping, disabled);
    forall path, verb
      ensures path in t && verb in t[path] <==> Served(hs, grouping, disabled, path, verb)
    {
      EntryMeans(hs, grouping, disabled, path, verb);
    }
    forall path | path in t
      ensures t[path] != map[]
    {
      var enabled := Enabled(At(hs, grouping, path), disabled);
      TableKeys(enabled);
      assert enabled[0].verb in TableOf(enabled);
    }
  }

  lemma {:induction false} SamePathsSameGroups(hs: seq<Handler>, path: string)
    requires forall h | h in hs :: h.specPath == h.path
    ensures At(hs, ByPath, path) == At(hs, BySpecPath, path)
  {
    if hs != [] {
      assert forall h | h in hs[..|hs| - 1] :: h in hs;
      assert hs[|hs| - 1] in hs;
      SamePathsSameGroups(hs[..|hs| - 1], path);
    }
  }

  /**
   The two tables are equal when every handler has one path for both, which is how the
   handler macro generates them.
   */
  lemma TablesAgree(hs: seq<Handler>, cfg: HandlerConfigs)
    requires forall h | h in hs :: h.specPath == h.path
    ensures RouteTable(hs, ByPath, DisabledNames(cfg)) == RouteTable(hs, BySpecPath, DisabledNames(cfg))
    ensures AllRegistrable(hs, DisabledNames(cfg)) ==> AllSupported(hs, DisabledNames(cfg))
  {
    var disabled := DisabledNames(cfg);
    forall path
      ensures At(hs, ByPath, path) == At(hs, BySpecPath, path)
    {
      SamePathsSameGroups(hs, path);
    }
    assert PathsOf(hs, ByPath) == PathsOf(hs, BySpecPath);
    if AllRegistrable(hs, disabled) {
      forall h | h in hs && h.name !in disabled
        ensures !h.verb.Other?
      {
        AtMembers(hs, ByPath, h.path);
        EnabledMembers(At(hs, ByPath, h.path), disabled);
        var enabled := Enabled(At(hs, ByPath, h.path), disabled);
        assert h in enabled;
        assert h.path in PathsOf(hs, ByPath);
      }
    }
  }

  /** The config disables a handler exactly if it maps its name to true. */
  lemma BuiltRoutesMean(hs: seq<Handler>, cfg: HandlerConfigs, path: string, verb: Method)
    ensures var t := RouteTable(hs, ByPath, DisabledNames(cfg));
            path in t && verb in t[path] <==>
            exists h :: h in hs && h.path == path && h.verb == verb && !(h.name in cfg && cfg[h.name])
    ensures var t := RouteTable(hs, BySpecPath, DisabledNames(cfg));
            path in t && verb in t[path] <==>
            exists h :: h in hs && h.specPath == path && h.verb == verb && !(h.name in cfg && cfg[h.name])
  {
    var disabled := DisabledNames(cfg);
    EntryMeans(hs, ByPath, disabled, path, verb);
    EntryMeans(hs, BySpecPath, disabled, path, verb);
    forall h: Handler
      ensures h.name in disabled <==> h.name in cfg && cfg[h.name]
      ensures ByPath.Of(h) == h.path && BySpecPath.Of(h) == h.specPath
    {
    }
  }

  // ---------- When the two disagree ----------

  /** Some enabled handler among `hs` serves `verb` at `path`, found in the table of the path. */
  lemma TakenIff(hs: seq<Handler>, disabled: set<string>, path: string, verb: Method)
    ensures verb in TableOf(Enabled(At(hs, ByPath, path), disabled)) <==> Served(hs, ByPath, disabled, path, verb)
  {
    var enabled := Enabled(At(hs, ByPath, path), disabled);
    AtMembers(hs, ByPath, path);
    EnabledMembers(At(hs, ByPath, path), disabled);
    TableKeys(enabled);
    if Served(hs, ByPath, disabled, path, verb) {
      var h :| h in hs && h.name !in disabled && ByPath.Of(h) == path && h.verb == verb;
      assert h in enabled;
    }
  }

  /** The enabled handlers at a path, one registered handler later. */
  lemma EnabledAtStep(hs: seq<Handler>, h: Handler, disabled: set<string>, path: string)
    ensures var before := Enabled(At(hs, ByPath, path), disabled);
            Enabled(At(hs + [h], ByPath, path), disabled) ==
            if h.path == path && h.name !in disabled then before + [h] else before
  {
    AtAppend(hs, ByPath, path, h);
    if h.path == path {
      DropLeft(At(hs, ByPath, path), [h]);
    }
  }

  /** What a path needs to be registrable, said about the registered handlers themselves. */
  ghost predicate Sound(hs: seq<Handler>, disabled: set<string>, path: string) {
    && (forall i | 0 <= i < |hs| && hs[i].path == path && hs[i].name !in disabled :: !hs[i].verb.Other?)
    && (forall i, j | 0 <= i < j < |hs| && hs[i].path == path :: !Clash(hs, disabled, i, j))
  }

  lemma SoundStep(hs: seq<Handler>, h: Handler, disabled: set<string>, path: string)
    ensures Sound(hs + [h], disabled, path) <==>
            && Sound(hs, disabled, path)
            && (h.path == path && h.name !in disabled ==>
                  !h.verb.Other? && !Served(hs, ByPath, disabled, path, h.verb))
  {
    var all, n := hs + [h], |hs|;
    assert all[n] == h && forall i | 0 <= i < n :: all[i] == hs[i];
    assert forall i, j | 0 <= i < j < n :: Clash(all, disabled, i, j) == Clash(hs, disabled, i, j);
    if h.path == path && h.name !in disabled {
      if Served(hs, ByPath, disabled, path, h.verb) {
        var x :| x in hs && x.name !in disabled && ByPath.Of(x) == path && x.verb == h.verb;
        var i :| 0 <= i < n && hs[i] == x;
        assert Clash(all, disabled, i, n);
      } else {
        forall i | 0 <= i < n && all[i].path == path
          ensures !Clash(all, disabled, i, n)
        {
          assert hs[i] in hs;
        }
      }
    }
    if Sound(all, disabled, path) {
      assert Sound(hs, disabled, path) by {
        forall i, j | 0 <= i < j < n && hs[i].path == path
          ensures !Clash(hs, disabled, i, j)
        {
          assert !Clash(all, disabled, i, j);
        }
        forall i | 0 <= i < n && hs[i].path == path && hs[i].name !in disabled
          ensures !hs[i].verb.Other?
        {
          assert !all[i].verb.Other?;
        }
      }
    }
  }

  lemma RegistrableInit(hs: seq<Handler>, h: Handler)
    ensures Registrable(hs + [h]) ==> Registrable(hs)
  {
    assert forall i | 0 <= i < |hs| :: (hs + [h])[i] == hs[i];
  }

  lemma {:induction false} RegistrableIffSound(hs: seq<Handler>, disabled: set<string>, path: string)
    ensures Registrable(Enabled(At(hs, ByPath, path), disabled)) <==> Sound(hs, disabled, path)
  {
    if hs != [] {
      var init, last := hs[..|hs| - 1], hs[|hs| - 1];
      var before := Enabled(At(init, ByPath, path), disabled);
      Snoc(hs);
      RegistrableIffSound(init, disabled, path);
      EnabledAtStep(init, last, disabled, path);
      SoundStep(init, last, disabled, path);
      RegistrableInit(before, last);
      TakenIff(init, disabled, path, last.verb);
      if Registrable(before) {
        RegisterOne(before, last);
      }
    }
  }

  /**
   The router accepts the handlers of an application exactly when every enabled method is
   supported, which is all the document asks for, and no two enabled handlers conflict.
   */
  lemma RegistrableIff(hs: seq<Handler>, disabled: set<string>)
    ensures AllRegistrable(hs, disabled) <==> AllSupported(hs, disabled) && NoConflict(hs, disabled)
  {
    forall path
      ensures Registrable(Enabled(At(hs, ByPath, path), disabled)) <==> Sound(hs, disabled, path)
    {
      RegistrableIffSound(hs, disabled, path);
    }
    AllSoundIff(hs, disabled);
  }

  lemma AllSoundIff(hs: seq<Handler>, disabled: set<string>)
    ensures (forall path | path in PathsOf(hs, ByPath) :: Sound(hs, disabled, path)) <==>
            AllSupported(hs, disabled) && NoConflict(hs, disabled)
  {
    if forall path | path in PathsOf(hs, ByPath) :: Sound(hs, disabled, path) {
      forall h | h in hs && h.name !in disabled
        ensures !h.verb.Other?
      {
        var i :| 0 <= i < |hs| && hs[i] == h;
        assert h.path in PathsOf(hs, ByPath) && Sound(hs, disabled, h.path);
      }
      forall i, j | 0 <= i < j < |hs|
        ensures !Clash(hs, disabled, i, j)
      {
        assert hs[i] in hs && hs[i].path in PathsOf(hs, ByPath);
      }
    }
    if AllSupported(hs, disabled) && NoConflict(hs, disabled) {
      forall path | path in PathsOf(hs, ByPath)
        ensures Sound(hs, disabled, path)
      {
        assert forall i | 0 <= i < |hs| :: hs[i] in hs;
      }
    }
  }

  /** A later enabled handler claims the path and method of handler `i` in the document. */
  ghost predicate Overwritten(hs: seq<Handler>, grouping: Grouping, disabled: set<string>, i: nat)
    requires i < |hs|
  {
    exists j :: i < j < |hs| && SameRoute(hs, grouping, disabled, i, j)
  }

  ghost predicate SameRoute(hs: seq<Handler>, grouping: Grouping, disabled: set<string>, i: nat, j: nat)
    requires i < |hs| && j < |hs|
  {
    hs[j].name !in disabled && grouping.Of(hs[j]) == grouping.Of(hs[i]) && hs[j].verb == hs[i].verb
  }

  lemma TableAtStep(hs: seq<Handler>, h: Handler, grouping: Grouping, disabled: set<string>, path: string)
    ensures var before := TableOf(Enabled(At(hs, grouping, path), disabled));
            TableOf(Enabled(At(hs + [h], grouping, path), disabled)) ==
            if grouping.Of(h) == path && h.name !in disabled then before[h.verb := h] else before
  {
    AtAppend(hs, grouping, path, h);
    if grouping.Of(h) == path {
      DropLeft(At(hs, grouping, path), [h]);
      if h.name !in disabled {
        TableStep(Enabled(At(hs, grouping, path), disabled), h);
      }
    }
  }

  /** The last enabled handler for a path and method is the one in the table. */
  lemma {:induction false} LastHandlerStays(hs: seq<Handler>, grouping: Grouping, disabled: set<string>, i: nat)
    requires i < |hs| && hs[i].name !in disabled && !Overwritten(hs, grouping, disabled, i)
    ensures var table := TableOf(Enabled(At(hs, grouping, grouping.Of(hs[i])), disabled));
            hs[i].verb in table && table[hs[i].verb] == hs[i]
  {
    var n, path := |hs| - 1, grouping.Of(hs[i]);
    Snoc(hs);
    TableAtStep(hs[..n], hs[n], grouping, disabled, path);
    if i < n {
      forall j | i < j < n
        ensures !SameRoute(hs[..n], grouping, disabled, i, j)
      {
        assert !SameRoute(hs, grouping, disabled, i, j);
      }
      LastHandlerStays(hs[..n], grouping, disabled, i);
      assert !SameRoute(hs, grouping, disabled, i, n);
    }
  }

  /** Following overwriting to its end. */
  lemma LastOfRoute(hs: seq<Handler>, grouping: Grouping, disabled: set<string>, i: nat) returns (k: nat)
    requires i < |hs| && hs[i].name !in disabled
    ensures i <= k < |hs| && SameRoute(hs, grouping, disabled, i, k) && !Overwritten(hs, grouping, disabled, k)
    ensures k > i <==> Overwritten(hs, grouping, disabled, i)
    decreases |hs| - i
  {
    k := i;
    if Overwritten(hs, grouping, disabled, i) {
      var j :| i < j < |hs| && SameRoute(hs, grouping, disabled, i, j);
      k := LastOfRoute(hs, grouping, disabled, j);
    }
  }

  /**
   The enabled handlers a document loses are exactly those followed by a later enabled handler
   with the same path and method; all others are in it under their path and method.
   */
  lemma DocumentKeepsIff(hs: seq<Handler>, grouping: Grouping, disabled: set<string>, i: nat)
    requires UniqueNames(hs) && i < |hs| && hs[i].name !in disabled
    ensures var t := RouteTable(hs, grouping, disabled);
            var path := grouping.Of(hs[i]);
            && path in t && hs[i].verb in t[path]
            && (t[path][hs[i].verb] == hs[i] <==> !Overwritten(hs, grouping, disabled, i))
  {
    var k := LastOfRoute(hs, grouping, disabled, i);
    LastHandlerStays(hs, grouping, disabled, k);
    assert hs[i] in hs && Served(hs, grouping, disabled, grouping.Of(hs[i]), hs[i].verb);
    EntryMeans(hs, grouping, disabled, grouping.Of(hs[i]), hs[i].verb);
    assert k > i ==> hs[k].name != hs[i].name;
  }

  /**
   Both builders on the same application. The document is built iff every enabled method is
   supported, the router iff in addition names are unique and no two enabled handlers conflict.
   So with unique names the document exists without a router exactly when there is a conflict,
   and whenever the router exists the two have the same entries.
   */
  method BuildBoth(cfg: HandlerConfigs, handlers: seq<Handler>) returns (router: RouterOutcome, spec: SpecOutcome)
    requires forall h | h in handlers :: h.specPath == h.path
    ensures spec.Spec? <==> AllSupported(handlers, DisabledNames(cfg))
    ensures router.Router? <==>
            UniqueNames(handlers) && AllSupported(handlers, DisabledNames(cfg)) && NoConflict(handlers, DisabledNames(cfg))
    ensures UniqueNames(handlers) ==>
              (spec.Spec? && !router.Router? <==> spec.Spec? && !NoConflict(handlers, DisabledNames(cfg)))
    ensures router.Router? ==> spec.Spec? && spec.paths == router.routes
    ensures router.Router? ==> forall path | path in router.routes :: router.routes[path] != map[]
  {
    router := BuildRouter(cfg, handlers);
    spec := BuildSpec(DisabledNames(cfg), handlers);
    TablesAgree(handlers, cfg);
    RegistrableIff(handlers, DisabledNames(cfg));
    RouteTableMeans(handlers, ByPath, DisabledNames(cfg));
  }

  /**
   The smallest application with a conflict: one path with two GET handlers makes the router
   panic, while the document silently keeps the later of the two.
   */
  lemma DocumentHidesConflict()
    ensures var a, b := Handler("a", "/", "/", GET), Handler("b", "/", "/", GET);
            && !AllRegistrable([a, b], {})
            && AllSupported([a, b], {})
            && Overwritten([a, b], BySpecPath, {}, 0) && !Overwritten([a, b], BySpecPath, {}, 1)
  {
    var a, b := Handler("a", "/", "/", GET), Handler("b", "/", "/", GET);
    var hs := [a, b];
    assert Clash(hs, {}, 0, 1);
    assert SameRoute(hs, BySpecPath, {}, 0, 1);
    RegistrableIff(hs, {});
  }
}
