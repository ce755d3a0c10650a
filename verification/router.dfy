/** The route table and resolver of class `Router` and the value class `RouterResponse`
    (lib/Core/Router.php).

    The router object's `$routes` array becomes an explicit `Table` value: `Add` returns the
    table after a registration and `Get` reads one. The singleton, the application object and
    the file system are not part of the model; what `add` reads from them is passed in as an
    `Env`. */
module Router {
  import opened Results
  import opened Strings
  import OrderedMap
  import opened RoutePattern
  import opened RequestType
  import Http
  import Url

  /** One `$this->routes[$pattern][$method]` record. */
  datatype Record = Record(callback: string, moduleName: string, params: seq<string>)

  /** Method name => record, in registration order. */
  type Methods = seq<(string, Record)>

  /** Compiled pattern => methods, in the order the patterns were first registered. */
  type Table = seq<(Pattern, Methods)>

  /** What `add` reads outside the router: the configured base path and modules folder, the
      module being loaded, and `realpath`, which gives null for a path that does not exist. */
  datatype Env = Env(
    basePath: string,
    modulesFolder: string,
    currentModule: string,
    realpath: string -> Option<string>)

  /** `$type->name` of some case of `Type`. */
  predicate IsTypeName(s: string)
  {
    TryFrom(s).Some?
  }

  /** The shape of every table `add` builds: each pattern once, each with at least one method,
      each method once and named after a `Type` case, and no record with parameters. */
  predicate Invariant(table: Table)
  {
    && OrderedMap.Valid(table)
    && forall i :: 0 <= i < |table| ==> WellFormedMethods(table[i].1)
  }

  predicate WellFormedMethods(ms: Methods)
  {
    && |ms| > 0
    && OrderedMap.Valid(ms)
    && forall j :: 0 <= j < |ms| ==> IsTypeName(ms[j].0) && ms[j].1.params == []
  }

  /** `parse($route)` as a segment list: decode, then compile. */
  function Parse(route: string): Pattern
  {
    Compile(Url.RawUrlDecode(route))
  }

  /** `parse($route)` as the regex text `add` uses as the table key. */
  function ParseRegex(route: string): string
  {
    CompileRegex(Url.RawUrlDecode(route))
  }

  /** PHP's `!` on a `?string`: null, `""` and `"0"` are false. */
  predicate Falsy(v: Option<string>)
  {
    v.None? || v.value == "" || v.value == "0"
  }

  /** The handler file `add` checks: `{basePath}/{modulesFolder}/{module}/{handler}`. */
  function FullPath(env: Env, handler: string): string
  {
    env.basePath + "/" + env.modulesFolder + "/" + env.currentModule + "/" + handler
  }

  /** `$this->routes[$pattern]`, with an absent pattern read as an empty array. */
  function MethodsOf(table: Table, p: Pattern): Methods
  {
    match OrderedMap.Get(table, p)
    case Some(ms) => ms
    case None => []
  }

  /** `$this->routes[$pattern][$method]`, or null. */
  function Lookup(table: Table, p: Pattern, name: string): Option<Record>
  {
    OrderedMap.Get(MethodsOf(table, p), name)
  }

  /** `add($type, $route, $handler, $function)`: throws, leaving the table as it was, when the
      handler file does not resolve; otherwise writes one record under the compiled route and
      the method's name. `func` is accepted and ignored. */
  function Add(table: Table, t: Type, route: string, handler: string, func: string, env: Env): (r: Result<Table>)
    ensures r.Throws? <==> Falsy(env.realpath(FullPath(env, handler)))
    ensures r.Throws? ==> r.message == "Path to module not found... " + FullPath(env, handler)
    ensures r.Ok? ==>
      Lookup(r.value, Parse(route), Name(t))
        == Some(Record(env.realpath(FullPath(env, handler)).value, env.currentModule, []))
    ensures r.Ok? ==> forall p, m :: p != Parse(route) || m != Name(t) ==>
      Lookup(r.value, p, m) == Lookup(table, p, m)
    ensures r.Ok? ==> OrderedMap.Keys(r.value) ==
                      if Parse(route) in OrderedMap.Keys(table) then OrderedMap.Keys(table)
                      else OrderedMap.Keys(table) + [Parse(route)]
    ensures r.Ok? ==> forall p :: p != Parse(route) ==> MethodsOf(r.value, p) == MethodsOf(table, p)
    ensures r.Ok? ==>
      var before := OrderedMap.Keys(MethodsOf(table, Parse(route)));
      OrderedMap.Keys(MethodsOf(r.value, Parse(route))) ==
        if Name(t) in before then before else before + [Name(t)]
  {
    var fullPath := FullPath(env, handler);
    var callbackPath := env.realpath(fullPath);
    if Falsy(callbackPath) then
      Throws("Path to module not found... " + fullPath)
    else
      var pattern := Parse(route);
      var methods := MethodsOf(table, pattern);
      var record := Record(callbackPath.value, env.currentModule, []);
      PutSlot(table, pattern, Name(t), record);
      Ok(OrderedMap.Put(table, pattern, OrderedMap.Put(methods, Name(t), record)))
  }

  /** Writing one (pattern, method) slot: that slot reads the record, every other slot and
      every other pattern's methods read as before, and both key orders follow PHP's array
      writes. */
  lemma PutSlot(table: Table, p: Pattern, name: string, record: Record)
    ensures var r := OrderedMap.Put(table, p, OrderedMap.Put(MethodsOf(table, p), name, record));
      && Lookup(r, p, name) == Some(record)
      && (forall p', m :: p' != p || m != name ==> Lookup(r, p', m) == Lookup(table, p', m))
      && OrderedMap.Keys(r) == (if p in OrderedMap.Keys(table) then OrderedMap.Keys(table)
                                else OrderedMap.Keys(table) + [p])
      && (forall p' :: p' != p ==> MethodsOf(r, p') == MethodsOf(table, p'))
      && var before := OrderedMap.Keys(MethodsOf(table, p));
         OrderedMap.Keys(MethodsOf(r, p)) == if name in before then before else before + [name]
  {
    var methods := MethodsOf(table, p);
    var written := OrderedMap.Put(methods, name, record);
    var r := OrderedMap.Put(table, p, written);
    assert MethodsOf(r, p) == written;
    forall p', m | p' != p || m != name
      ensures Lookup(r, p', m) == Lookup(table, p', m)
    {
      if p' != p {
        assert MethodsOf(r, p') == MethodsOf(table, p');
      }
    }
  }

  /** Entry `i` is the earliest one whose pattern accepts `path`. */
  predicate IsFirstMatch(table: Table, path: string, i: int)
  {
    && 0 <= i < |table|
    && Matches(table[i].0, path)
    && forall j :: 0 <= j < i ==> !Matches(table[j].0, path)
  }

  /** The position `resolve`'s `foreach` stops at. */
  function FirstMatch(table: Table, path: string): (r: Option<nat>)
    ensures r.None? <==> forall i :: 0 <= i < |table| ==> !Matches(table[i].0, path)
    ensures r.Some? ==> IsFirstMatch(table, path, r.value)
  {
    if |table| == 0 then None
    else if Matches(table[0].0, path) then Some(0)
    else
      match FirstMatch(table[1..], path)
      case None => None
      case Some(i) => Some(i + 1)
  }

  /** `resolve($route)`: the first registered pattern that accepts the path, or null. */
  function Resolve(table: Table, path: string): (r: Option<Pattern>)
    ensures r.None? <==> forall i :: 0 <= i < |table| ==> !Matches(table[i].0, path)
    ensures r.Some? ==> exists i :: IsFirstMatch(table, path, i) && table[i].0 == r.value
  {
    match FirstMatch(table, path)
    case None => None
    case Some(i) => Some(table[i].0)
  }

  /** `resolveType`: answers `'GET'` whatever it is asked. The answer is never falsy, so the
      `405` branch of `get` is never taken, and it names the `GET` case. */
  function ResolveType(t: Type, route: string): (r: Option<string>)
    ensures !Falsy(r) && TryFrom(r.value) == Some(GET)
  {
    Some("GET")
  }

  /** `getAllowHeaders($route)`: one header, `Allowed`, listing the registered method names
      comma-separated in registration order. */
  function AllowHeaders(methods: Methods): (r: seq<(string, string)>)
    ensures |r| == 1 && r[0].0 == "Allowed"
    ensures |methods| > 0 && (forall i :: 0 <= i < |methods| ==> ',' !in methods[i].0) ==>
      Split(r[0].1, ',') == OrderedMap.Keys(methods)
  {
    var names := OrderedMap.Keys(methods);
    SplitJoinWhenFree(names, ',');
    [("Allowed", Join(names, ','))]
  }

  /** The value `RouterResponse::new` returns. */
  datatype RouterResponse = RouterResponse(
    success: bool,
    handler: Option<string>,
    moduleName: Option<string>,
    params: Option<seq<string>>,
    response: Option<Http.Response>)

  /** What `RouterResponse::new` insists on: a success names its handler and module, a
      failure carries a response. */
  predicate WellFormed(r: RouterResponse)
  {
    && (r.success ==> r.handler.Some? && r.moduleName.Some?)
    && (!r.success ==> r.response.Some?)
  }

  /** `RouterResponse::new`: builds the value when it is well formed and throws otherwise. */
  function NewRouterResponse(
    success: bool,
    handler: Option<string>,
    moduleName: Option<string>,
    params: Option<seq<string>>,
    response: Option<Http.Response>): (r: Result<RouterResponse>)
    ensures r.Ok? <==> WellFormed(RouterResponse(success, handler, moduleName, params, response))
    ensures r.Ok? ==> r.value == RouterResponse(success, handler, moduleName, params, response)
    ensures r.Throws? ==>
              r.message == if success then "Handler not set on route success"
                           else "Response not set on route fail"
  {
    if success && (handler.None? || moduleName.None?) then
      Throws("Handler not set on route success")
    else if !success && response.None? then
      Throws("Response not set on route fail")
    else
      Ok(RouterResponse(success, handler, moduleName, params, response))
  }

  /** `$this->routes[$route]` read with the raw request path, as the 405 branch does: the
      methods of the first pattern whose key text is that path, or none. */
  function RawMethods(table: Table, route: string): Methods
  {
    if |table| == 0 then []
    else if KeyText(table[0].0) == route then table[0].1
    else RawMethods(table[1..], route)
  }

  /** The response for a path no pattern accepts. */
  const NotFound: Http.Response := Http.Response("404 Not Found", 404, [])

  /** `get($type, $route, $params)`. `resolveType` never fails, so the `405` branch is never
      taken; a path no pattern accepts gives the `404` failure; otherwise the matched
      pattern's `GET` record is returned, whatever the requested method, and a pattern with
      no `GET` record makes `RouterResponse::new` throw. `params` is not read. */
  function Get(table: Table, t: Type, route: string, params: map<string, string>): (r: Result<RouterResponse>)
    ensures r.Ok? ==> WellFormed(r.value)
    ensures r.Ok? ==> (r.value.success <==> r.value.response.None?)
    ensures r.Ok? && !r.value.success ==> r.value.response == Some(NotFound)
    ensures r.Throws? ==> r.message == "Handler not set on route success"
  {
    var resolvedType := ResolveType(t, route);
    if Falsy(resolvedType) then
      var headers := AllowHeaders(RawMethods(table, route));
      NewRouterResponse(false, None, None, None,
        Some(Http.Response("Method Not Allowed", 405, headers)))
    else
      match Resolve(table, route)
      case None =>
        // `$this->routes[null]` is undefined, so handler, module and params are null.
        NewRouterResponse(false, None, None, None, Some(NotFound))
      case Some(pattern) =>
        match Lookup(table, pattern, resolvedType.value)
        case None =>
          NewRouterResponse(true, None, None, None, None)
        case Some(record) =>
          NewRouterResponse(true, Some(record.callback), Some(record.moduleName), Some(record.params), None)
  }
}
