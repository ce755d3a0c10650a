# Route table and matcher of a small PHP framework, in Dafny

This project models the HTTP router of the framework: class `Router` and the value class
`RouterResponse` in lib/Core/Router.php, and the `Type` enum and the `register` function in
globals/router.php.

- A route file declares a route with `register(Type::GET, '/users/:id', 'show.php')`.
- `register` hands the call to `Router::add`. It resolves the handler file under the current
  module's folder, throwing when the file does not exist. It compiles the declaration with
  `parse` into an anchored regular expression such as `/^\/users\/[a-zA-Z0-9-_]+$/`. It then
  stores a record (callback path, module, empty parameter list) under that regex and the
  method's name.
- `Router::get` looks a request path up:
  - `resolve` walks the table in registration order and returns the first regex that
    `preg_match` accepts.
  - The `GET` record of that entry becomes a successful `RouterResponse`.
  - A path no entry accepts becomes a `404 Not Found` failure.
  - `RouterResponse::new` throws when a success has no handler or no module, or a failure has no response.

The modules follow the program's structure:

| module | file | what it holds |
|---|---|---|
| `Results` | results.dfy | `Option` (PHP null) and `Result` (a value or a thrown exception) |
| `Strings` | strings.dfy | `explode` / `implode` on one character, with their round trips |
| `OrderedMap` | ordered_map.dfy | a PHP array as an insertion-ordered association list |
| `Url` | url.dfy | `rawurldecode` |
| `RoutePattern` | route_pattern.dfy | `parse` as regex text (`CompileRegex`) and as a segment list (`Compile`), and `preg_match` on the result (`Matches`) |
| `RequestType` | request_type.dfy | the `Type` enum, `->name`, `->value`, `tryFrom` |
| `Http` | http.dfy | the `Http\Response` record |
| `Router` | router.dfy | `add`, `resolve`, `resolveType`, `getAllowHeaders`, `get`, `RouterResponse::new` |
| `RouterProperties` | router_properties.dfy | properties that relate several calls of the router |
| `Registration` | registration.dfy | `register` |
| `RouteExamples` | route_examples.dfy | worked examples: one declaration from parse to response |

Modelling choices:

- **The table is a value.** The singleton's `$routes` array is an explicit `Router.Table`: a
  sequence of (pattern, methods) pairs in first-registration order. `Router.Add` returns the
  new table.
- **Array writes follow PHP.** `OrderedMap.Put` overwrites an existing key in place and
  appends a new key at the end, as a PHP array write does.
- **Two views of `parse`.** The table is keyed by the compiled segment list (`Router.Parse`)
  rather than by the regex text (`Router.ParseRegex`). `RoutePattern.SameKeyIffSamePattern`
  proves this keeps the same entries: for declarations over the alphabet `[a-zA-Z0-9-_:/]`,
  two declarations share a regex text exactly when they share a segment list.
  Outside that alphabet the two keys can differ; "## Left out" gives two examples.
- **`preg_match` is a predicate.** `RoutePattern.Matches` holds when the path is `/` followed
  by one `/`-separated piece per segment, each piece equal to its literal or made of one or
  more route characters for a parameter. Because the regex has no `D` modifier, `$` also
  matches just before a final newline, and the model keeps that case.
- **Outside input is a parameter.** The configuration, the current module and `realpath` come
  in through `Router.Env`. `realpath` is a function that returns `None` for a missing file.

The model follows the code, including these behaviours:

- The root declaration `/` compiles to `/^$/`. That pattern accepts the empty path (and a lone
  newline) but not the path `/` (`RoutePattern.RootMatches`, `RouteExamples.RootRoute`).
- `resolveType` always answers `'GET'`, so `get` never produces a 405 response. Every
  request is served by the matched pattern's `GET` record, whatever its method
  (`RouterProperties.GetIgnoresMethodAndParams`). When that pattern has no `GET` record,
  `RouterResponse::new` throws (`RouterProperties.GetWithoutGetRecord`).
- No path parameters are extracted. Every record carries an empty parameter list
  (`RouterProperties.SuccessCarriesNoParams`).
- `parse` validates nothing: the validation branches in the code have empty bodies. Text
  before the first `/` is dropped (`RoutePattern.LeadingTextIgnored`). A piece counts as a
  parameter when it holds `:` followed by a route character anywhere in it, not only at its
  start.
- The header of the (unreachable) 405 response is named `Allowed`.
- A trailing `/` in a declaration is trimmed (`RoutePattern.TrailingSlashTrimmed`). A trailing
  `/` in a request path is not (`RoutePattern.TrailingSlashIsDistinct`).

## Model

| member | source | states |
|---|---|---|
| Strings.Split | lib/Core/Router.php:176 | `explode` gives one more piece than there are separators; no piece holds the separator, and every character of a piece comes from the input |
| Strings.JoinSplit | lib/Core/Router.php:176 | imploding the pieces of an explode gives the input back |
| Strings.SplitJoin | lib/Core/Router.php:211 | exploding an implode of separator-free pieces gives the pieces back |
| Strings.Join | lib/Core/Router.php:211 | `implode` on one character (no ensures): the pieces in order with the separator between neighbours, and the empty string for no pieces |
| Strings.SplitJoinWhenFree | lib/Core/Router.php:211 | the same round trip stated as an implication, for callers that cannot assume its premise |
| Url.RawUrlDecode | lib/Core/Router.php:169 | decoding never lengthens the declaration |
| Url.DecodeWithoutPercent | lib/Core/Router.php:169 | a declaration without `%` is left unchanged by `rawurldecode` |
| Url.DecodeAppend | lib/Core/Router.php:169 | appending a non-hex character (such as `/`) to a declaration appends it to the decoded text and changes nothing before it |
| RoutePattern.RTrim | lib/Core/Router.php:196 | `rtrim(…, '\/')` keeps a prefix, removes only `\` and `/`, and leaves a result that does not end in either |
| RoutePattern.IsParamSegment | lib/Core/Router.php:191 | the unanchored `preg_match(REGEX_VALID_PARAM, $segment)` test (no ensures): some `:` in the piece is directly followed by a character of `[a-zA-Z0-9-_]` |
| RoutePattern.Pieces | lib/Core/Router.php:176-186 | the pieces the loop visits (no ensures): `explode('/')` of the declaration without its first element, or no pieces when the split has exactly two elements and the second is empty |
| RoutePattern.Classify | lib/Core/Router.php:191-193 | the replacement in the loop (no ensures): a piece that passes `IsParamSegment` becomes `Param`, whose text is the class `[a-zA-Z0-9-_]+`; any other piece stays a literal with its own text |
| RoutePattern.Accumulate | lib/Core/Router.php:188-195 | the text the `foreach` appends after the initial `\/` (no ensures): for each piece in order, the parameter class when the piece is a parameter and the piece itself otherwise, each followed by `\/` |
| RoutePattern.CompileRegex | lib/Core/Router.php:176-197 | the regex text is anchored: it starts with `/^`, ends with `$/`, and its body is empty or ends in neither `\` nor `/`; its relation to the segments is `CompileRegexIsKeyText` |
| RoutePattern.Compile | lib/Core/Router.php:181-197 | the segment list keeps the visited pieces in order; a segment is a parameter exactly when its piece matches `:[a-zA-Z0-9-_]` somewhere; a literal is its piece; only empty pieces at the end are dropped; no literal holds `/` |
| RoutePattern.PiecesHaveNoSlash | lib/Core/Router.php:176-186 | no piece the loop visits holds `/` |
| RoutePattern.ClassifyTrimmed | lib/Core/Router.php:189-196 | each kept piece is classified in place and only empty pieces at the end are dropped |
| RoutePattern.CompileRegexIsKeyText | lib/Core/Router.php:188-197 | for a declaration without `\`, the regex text the loop and `rtrim` build is `/^` + `\/` before each segment's text + `$/` |
| RoutePattern.SpecialCaseRedundant | lib/Core/Router.php:181-186 | the two-piece special case gives the same regex and segments as dropping the first piece alone |
| RoutePattern.TrailingSlashTrimmed | lib/Core/Router.php:194-196 | a declaration with an extra trailing `/` has the same regex text and the same segments |
| RoutePattern.OnlySlashesCompileToRoot | lib/Core/Router.php:181-197 | a declaration made only of `/` characters (the root `/` and the empty string included) compiles to no segments and to `/^$/` |
| RoutePattern.LeadingTextIgnored | lib/Core/Router.php:185 | text before the first `/` has no effect on the pieces, the segments or the regex |
| RoutePattern.CompilePlain | lib/Core/Router.php:18 | a declaration over `[a-zA-Z0-9-_:/]` compiles to literals over `[a-zA-Z0-9-_:]` |
| RoutePattern.RenderInjective | lib/Core/Router.php:188-197 | two segment lists of plain literals with the same regex body are equal |
| RoutePattern.SameKeyIffSamePattern | lib/Core/Router.php:73-75 | for declarations over `[a-zA-Z0-9-_:/]`, same regex key ⇔ same segment list, in both directions |
| RoutePattern.MatchSlashCount | lib/Core/Router.php:153 | a path the anchored regex accepts holds exactly one `/` per segment |
| RoutePattern.TrailingSlashIsDistinct | lib/Core/Router.php:153 | a path and the same path plus `/` are never both accepted by one pattern |
| RoutePattern.MatchesJoin | lib/Core/Router.php:153 | `/` + pieces joined by `/` is accepted ⇔ every piece is accepted by its segment |
| RoutePattern.MatchedPathIsJoin | lib/Core/Router.php:153 | conversely to `MatchesJoin`: every path a non-empty pattern fully accepts is `/` followed by some `/`-free pieces joined with `/`, one piece per segment, each accepted by its segment |
| RoutePattern.MatchesWhole | lib/Core/Router.php:153 | `preg_match` of the anchored regex on a whole path (no ensures): the empty pattern accepts only `""`; otherwise the path is `/` and exactly one `/`-separated piece per segment, each equal to its literal or made of one or more route characters for a parameter |
| RoutePattern.Matches | lib/Core/Router.php:153 | the same (no ensures), widened by the `$` rule: a path ending in one newline is also accepted when the path without it is |
| RoutePattern.RootMatches | lib/Core/Router.php:197 | the empty pattern `/^$/` accepts exactly the empty path and a lone newline |
| RequestType.Name | lib/Core/Router.php:75 | `$type->name`, the inner key of the table write (no ensures): the case's identifier, `GET` … `PATCH` |
| RequestType.Value | globals/router.php:14-18 | the backing value of each case (no ensures): the strings `'GET'`, `'POST'`, `'DELETE'`, `'PUT'` and `'PATCH'` |
| RequestType.TryFrom | globals/router.php:12-19 | `tryFrom(s)` is case `t` ⇔ `s` is `t`'s backing value; null otherwise |
| RequestType.CasesAreTheFiveMethods | globals/router.php:12-19 | the enum has exactly five cases, all distinct, covering every value |
| RequestType.NameIsBackingValue | globals/router.php:12-19 | each case's name equals its backing value and `tryFrom` maps it back to the case |
| RequestType.TryFromDomain | globals/router.php:12-19 | `tryFrom` succeeds exactly on GET, POST, DELETE, PUT and PATCH |
| OrderedMap.Keys | lib/Core/Router.php:210 | `array_keys` lists every entry's key in order |
| OrderedMap.Get | lib/Core/Router.php:137 | a lookup gives an entry of the array under that key, or null when no entry has the key |
| OrderedMap.Put | lib/Core/Router.php:75 | after an array write the key reads the new value, every other key reads as before, and an existing key keeps its position while a new one goes last |
| OrderedMap.PutConsGet | lib/Core/Router.php:75 | past a first entry with another key, lookups after a write to the rest carry over to the whole array |
| OrderedMap.PutConsKeys | lib/Core/Router.php:75 | past a first entry with another key, the key order after a write to the rest carries over, the first key staying in front |
| OrderedMap.PutValid | lib/Core/Router.php:75 | an array write keeps keys unique |
| OrderedMap.PutEntries | lib/Core/Router.php:75 | an array write adds no entry other than the written one |
| OrderedMap.GetFirst | lib/Core/Router.php:152 | the entry at the first position holding a key is the one a lookup of that key gives |
| OrderedMap.PutPut | lib/Core/Router.php:75 | two writes to one key equal the last write alone |
| Router.Add | lib/Core/Router.php:60-80 | throws "Path to module not found... {fullPath}" exactly when `realpath` of the handler path is falsy; otherwise the (compiled route, method name) slot holds the resolved path, the current module and no params, every other slot is unchanged, a new pattern goes last, every other pattern keeps its method list, and within the pattern an existing method keeps its position while a new method goes last |
| Router.FullPath | lib/Core/Router.php:68 | the handler path `add` checks (no ensures): base path, modules folder, current module and handler file joined by `/` |
| Router.Falsy | lib/Core/Router.php:69 | PHP's `!` on what `realpath` returns (no ensures): true for null (PHP's `false`), `""` and `"0"` |
| Router.MethodsOf | lib/Core/Router.php:75 | `$this->routes[$pattern]` (no ensures): the methods stored under the pattern, or an empty array when the pattern is absent |
| Router.Lookup | lib/Core/Router.php:137 | `$this->routes[$pattern][$method]` (no ensures): the record stored under the method name in that pattern's methods, or null |
| Router.PutSlot | lib/Core/Router.php:75-79 | the nested array write of `add`: the written slot reads the record, every other slot and every other pattern's methods read as before, a new pattern goes last and, within the pattern, a new method goes last |
| Router.Parse | lib/Core/Router.php:167-200 | `parse` as the table key (no ensures): `rawurldecode`, then the segment list of `Compile` |
| Router.ParseRegex | lib/Core/Router.php:167-200 | `parse` as PHP returns it (no ensures): `rawurldecode`, then the regex text of `CompileRegex`; `SameKeyIffSamePattern` ties the two keys together |
| Router.ResolveType | lib/Core/Router.php:214-217 | the answer is never falsy and names `GET`, so the 405 branch of `get` is never taken |
| Router.FirstMatch | lib/Core/Router.php:150-159 | no position ⇔ no entry accepts the path; a position is the earliest accepting entry |
| Router.Resolve | lib/Core/Router.php:150-159 | null ⇔ no pattern accepts the path; otherwise the pattern of the earliest accepting entry |
| Router.RawMethods | lib/Core/Router.php:131 | `$this->routes[$route]` read with the raw request path in the 405 branch (no ensures): the methods of the first entry whose regex text equals the path, or an empty list |
| Router.AllowHeaders | lib/Core/Router.php:208-212 | a single `Allowed` header; for a non-empty method list whose names hold no `,`, its value splits on `,` back into the method names in registration order (an empty list gives `""`, which splits to `[""]`) |
| Router.WellFormed | lib/Core/Router.php:250-255 | the condition `RouterResponse::new` enforces (no ensures): a success has a handler and a module, and a failure has a response |
| Router.NotFound | lib/Core/Router.php:125-132 | the failure response `get` builds for an unmatched path (no ensures): body `404 Not Found`, status 404, no headers |
| Router.NewRouterResponse | lib/Core/Router.php:243-258 | builds the response exactly when a success names handler and module and a failure carries a response; otherwise throws the matching message |
| Router.Get | lib/Core/Router.php:115-141 | an outcome is always well formed; it is a success ⇔ it carries no response; a failure carries the 404 response; the only exception is "Handler not set on route success" |
| RouterProperties.TypeNameHasNoComma | lib/Core/Router.php:211 | a method name holds no `,`, so the joined header value is unambiguous |
| RouterProperties.MethodsOfWellFormed | lib/Core/Router.php:75 | on a table `add` built, a pattern's methods are either absent or well formed |
| RouterProperties.PutMethodWellFormed | lib/Core/Router.php:75-79 | writing a record without params under a method name keeps a pattern's methods well formed |
| RouterProperties.PutPatternInvariant | lib/Core/Router.php:75 | writing well-formed methods under a pattern keeps the table's shape |
| RouterProperties.AddKeepsInvariant | lib/Core/Router.php:60-80 | `add` keeps every pattern unique, each with at least one method, methods unique and named after a `Type`, and no record with params |
| RouterProperties.LastRegistrationWins | lib/Core/Router.php:75-79 | registering the same method and route twice gives the table of the second registration alone |
| RouterProperties.ParseTrailingSlash | lib/Core/Router.php:169-197 | a declaration with a trailing `/` decodes and compiles to the same segments and regex |
| RouterProperties.TrailingSlashSharesEntry | lib/Core/Router.php:73-79 | `add` of a declaration with a trailing `/` writes exactly what `add` without it writes |
| RouterProperties.FirstMatchUnique | lib/Core/Router.php:152-155 | there is only one earliest accepting entry |
| RouterProperties.ResolveAfterRejectingPrefix | lib/Core/Router.php:152-155 | when entries that reject the path are followed by one that accepts it, `resolve` returns that one |
| RouterProperties.FirstRegisteredWins | lib/Core/Router.php:150-159 | on a table where no earlier route accepts the path, of two routes that both accept it and are registered in turn, the first registered is the one `resolve` returns |
| RouterProperties.MethodsAtFirstMatch | lib/Core/Router.php:137 | the matched pattern's methods are those stored at its entry |
| RouterProperties.GetNotFound | lib/Core/Router.php:124-132 | a path no pattern accepts gives the failure with the `404 Not Found` response and no headers |
| RouterProperties.GetFound | lib/Core/Router.php:135-141 | a path whose first accepting pattern has a `GET` record gives the success carrying that record's callback, module and params |
| RouterProperties.GetWithoutGetRecord | lib/Core/Router.php:135-141 | a path whose first accepting pattern has no `GET` record throws "Handler not set on route success" |
| RouterProperties.GetIgnoresMethodAndParams | lib/Core/Router.php:214-217 | the outcome of `get` does not depend on the requested method or the request params |
| RouterProperties.SuccessCarriesNoParams | lib/Core/Router.php:78 | on a table `add` built, every success carries an empty parameter list |
| RouterProperties.AllowHeadersListsMethods | lib/Core/Router.php:208-212 | for a registered pattern, the `Allowed` value splits back into its method names in registration order |
| Registration.Register | globals/router.php:30-33 | `register` gives what `add` gives, whatever controller function name is passed |
| RouteExamples.PiecesLitParam | lib/Core/Router.php:176-186 | `/lit/name` visits exactly the pieces `lit` and `name` |
| RouteExamples.CompileLitParam | lib/Core/Router.php:181-197 | `/lit/:param` compiles to a literal followed by a parameter |
| RouteExamples.KeyTextLitParam | lib/Core/Router.php:188-197 | the key of a literal followed by a parameter is `/^\/lit\/[a-zA-Z0-9-_]+$/` |
| RouteExamples.UsersPattern | lib/Core/Router.php:167-197 | `/users/:id` parses to the literal `users` followed by one parameter |
| RouteExamples.RegexOfParsed | lib/Core/Router.php:169-197 | a declaration without `%` or `\` is keyed by the text of its segment list |
| RouteExamples.UsersRegex | lib/Core/Router.php:167-200 | the key of `/users/:id` is `/^\/users\/[a-zA-Z0-9-_]+$/` |
| RouteExamples.LitParamMatches | lib/Core/Router.php:153 | a literal followed by a parameter accepts `/lit/value` for every parameter value |
| RouteExamples.UsersMatchesValue | lib/Core/Router.php:153 | that pattern accepts `/users/42` |
| RouteExamples.UsersRejectsTrailingSlash | lib/Core/Router.php:153 | that pattern rejects `/users/42/` |
| RouteExamples.UsersRejectsPrefix | lib/Core/Router.php:153 | that pattern rejects `/users` |
| RouteExamples.RootRoute | lib/Core/Router.php:181-197 | the root declaration compiles to `/^$/`, which rejects `/` |
| RouteExamples.OnePiece | lib/Core/Router.php:176-186 | `/piece` with a non-empty `/`-free piece visits that piece alone |
| RouteExamples.OneLiteral | lib/Core/Router.php:176-197 | such a declaration with a literal piece compiles to that one literal, and its key is `/^` + the trimmed `\/piece` + `$/` |
| RouteExamples.RTrimBackslash | lib/Core/Router.php:196 | `rtrim(…, '\/')` gives the same result with or without one more trailing `\` |
| RouteExamples.BackslashStaysLiteral | lib/Core/Router.php:191 | appending `\` to a `/`-free piece that is not a parameter leaves it `/`-free and not a parameter |
| RouteExamples.TrailingBackslashSharesKey | lib/Core/Router.php:196 | `/lit\` and `/lit` share their regex key while their segment lists are `[lit\]` and `[lit]` |
| RouteExamples.BackslashExample | lib/Core/Router.php:196 | `/a\` and `/a` have the same key and different segment lists |
| RouteExamples.OneParam | lib/Core/Router.php:176-197 | a declaration `/piece` whose piece is a parameter compiles to one `Param`, and its key is `/^` + the trimmed `\/[a-zA-Z0-9-_]+` + `$/` |
| RouteExamples.ParamClassIsLiteral | lib/Core/Router.php:20 | the parameter class `[a-zA-Z0-9-_]+`, read as a piece, is non-empty, holds no `/` and is not a parameter |
| RouteExamples.ParamClassSharesKey | lib/Core/Router.php:188-197 | the declaration `/[a-zA-Z0-9-_]+` and any one-parameter declaration share their regex key while their segment lists are `[Lit("[a-zA-Z0-9-_]+")]` and `[Param]` |
| RouteExamples.ParamClassExample | lib/Core/Router.php:188-197 | `/[a-zA-Z0-9-_]+` and `/:id` have the same key and different segment lists |
| RouteExamples.RegisterUsers | lib/Core/Router.php:60-80 | registering `GET /users/:id` on an empty table stores one record under one entry |
| RouteExamples.ServeUsers | lib/Core/Router.php:115-141 | on that table a `DELETE /users/42` is served by the `GET` record |
| RouteExamples.UsersNotFound | lib/Core/Router.php:124-132 | on that table `/users` is not found |

## Left out

- `Router::getInstance` (the singleton) is left out: the table is passed and returned as a value.
- `Application::getInstance`, its configuration, and the current module are not modelled; `add` reads them from `Router.Env`.
- `realpath` and the file system are left out: `realpath` is a parameter of `Router.Env`.
- `Router::handle` is left out: it `require`s the handler file and calls the handler, which is file I/O and foreign code. On an unknown request method `Type::tryFrom` returns null, and passing that null to the typed parameter of `get(Type $type, …)` (lib/Core/Router.php:91, 96, 115) raises a `TypeError`; that path is not modelled either.
- The validation in `parse` is not modelled because its branches have empty bodies. No declaration is ever rejected, and `REGEX_VALID_SEGMENTS` appears only as the alphabet of `RoutePattern.Plain`.
- PCRE itself is not modelled. `RoutePattern.Matches` is exact only for literals without regex metacharacters, which holds for declarations over `[a-zA-Z0-9-_:/]` (`RoutePattern.CompilePlain`). A literal holding `.`, `+`, `(`, `\` or a similar character would be read by `preg_match` as regex syntax.
- Router.Get: the unreachable 405 branch reads `$this->routes[$route]` with the raw path (lib/Core/Router.php:131). For a path that is not a key, PHP warns about the undefined index and then passes null to `getAllowHeaders(array $route)` (lib/Core/Router.php:208), which raises a `TypeError`. The model reads the entry through `Router.RawMethods` and uses an empty list there instead; the branch cannot be reached because `resolveType` always answers `'GET'`.
- Router.Get: the 404 branch reads `$this->routes[null]`, an undefined index (a warning, then null), which the model gives directly as null handler, module and params.
- RoutePattern.Compile: the table is keyed by segment list, and that agrees with PHP's regex-text key only for declarations over `[a-zA-Z0-9-_:/]` (`RoutePattern.SameKeyIffSamePattern`). Outside that alphabet two declarations can share PHP's key while their segment lists differ, and the model then keeps two entries where PHP writes both declarations into one. Two examples: the final `rtrim` strips a trailing `\` as well as `/`, so `/a\` and `/a` are both keyed `/^\/a$/` (`RouteExamples.TrailingBackslashSharesKey`); and a literal spelled like the parameter class renders the same text as a parameter, so `/[a-zA-Z0-9-_]+` and `/:id` are both keyed `/^\/[a-zA-Z0-9-_]+$/` (`RouteExamples.ParamClassSharesKey`).
- Strings are sequences of characters, with one character per byte. Multi-byte encodings are not modelled.
- Url.RawUrlDecode: its contract states only the length bound; the decoding rule (`%` and two hex digits) is given by its definition and the two lemmas about it.
- Router.Add: the controller `$function` argument is accepted and ignored, as in the source, where it is only a TODO.
- `Http\Response::new`, lib/Http/Request.php, bootstrap.php and globals/tools.php are not part of this model. `Http.Response` keeps only the record's three fields.
