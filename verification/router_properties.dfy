/** Properties of the route table and resolver that relate several calls. */
module RouterProperties {
  import opened Results
  import opened Strings
  import OrderedMap
  import opened RoutePattern
  import opened RequestType
  import Url
  import opened Router

  /** A method name holds no comma, so the `Allowed` header can be split back into names. */
  lemma TypeNameHasNoComma(s: string)
    requires IsTypeName(s)
    ensures ',' !in s
  {
    var t := TryFrom(s).value;
    assert s == Value(t);
  }

  lemma MethodsOfWellFormed(table: Table, p: Pattern)
    requires Invariant(table)
    ensures MethodsOf(table, p) == [] || WellFormedMethods(MethodsOf(table, p))
  {
    match OrderedMap.Get(table, p)
    case None =>
    case Some(ms) =>
      var i :| 0 <= i < |table| && table[i] == (p, ms);
      assert WellFormedMethods(table[i].1);
  }

  lemma PutMethodWellFormed(ms: Methods, name: string, record: Record)
    requires ms == [] || WellFormedMethods(ms)
    requires IsTypeName(name) && record.params == []
    ensures WellFormedMethods(OrderedMap.Put(ms, name, record))
  {
    OrderedMap.PutEntries(ms, name, record);
    if ms != [] {
      OrderedMap.PutValid(ms, name, record);
    }
  }

  lemma PutPatternInvariant(table: Table, p: Pattern, ms: Methods)
    requires Invariant(table) && WellFormedMethods(ms)
    ensures Invariant(OrderedMap.Put(table, p, ms))
  {
    OrderedMap.PutValid(table, p, ms);
    OrderedMap.PutEntries(table, p, ms);
    var r := OrderedMap.Put(table, p, ms);
    forall i | 0 <= i < |r|
      ensures WellFormedMethods(r[i].1)
    {
      if r[i] != (p, ms) {
        var j :| 0 <= j < |table| && table[j] == r[i];
      }
    }
  }

  /** Every registration keeps the table's shape: patterns and methods stay unique, every
      pattern keeps at least one method, and no record gains parameters. */
  lemma AddKeepsInvariant(table: Table, t: Type, route: string, handler: string, func: string, env: Env)
    requires Invariant(table)
    requires Add(table, t, route, handler, func, env).Ok?
    ensures Invariant(Add(table, t, route, handler, func, env).value)
  {
    var pattern := Parse(route);
    var methods := MethodsOf(table, pattern);
    var record := Record(env.realpath(FullPath(env, handler)).value, env.currentModule, []);
    MethodsOfWellFormed(table, pattern);
    NameIsBackingValue(t);
    PutMethodWellFormed(methods, Name(t), record);
    PutPatternInvariant(table, pattern, OrderedMap.Put(methods, Name(t), record));
  }

  /** Registering the same method for the same route twice leaves the table exactly as the
      second registration alone would: the last registration wins and the first leaves no
      trace, not even in the order of the entries. */
  lemma LastRegistrationWins(table: Table, t: Type, route: string, h1: string, f1: string,
                             h2: string, f2: string, env: Env)
    requires Add(table, t, route, h1, f1, env).Ok?
    requires Add(table, t, route, h2, f2, env).Ok?
    ensures Add(Add(table, t, route, h1, f1, env).value, t, route, h2, f2, env)
         == Add(table, t, route, h2, f2, env)
  {
    var pattern := Parse(route);
    var methods := MethodsOf(table, pattern);
    var rec1 := Record(env.realpath(FullPath(env, h1)).value, env.currentModule, []);
    var rec2 := Record(env.realpath(FullPath(env, h2)).value, env.currentModule, []);
    var m1 := OrderedMap.Put(methods, Name(t), rec1);
    var t1 := OrderedMap.Put(table, pattern, m1);
    assert Add(table, t, route, h1, f1, env).value == t1;
    assert MethodsOf(t1, pattern) == m1;
    OrderedMap.PutPut(methods, Name(t), rec1, rec2);
    OrderedMap.PutPut(table, pattern, m1, OrderedMap.Put(methods, Name(t), rec2));
  }

  /** A declaration and the same declaration with a trailing `/` compile alike. */
  lemma ParseTrailingSlash(route: string)
    ensures Parse(route + "/") == Parse(route)
    ensures ParseRegex(route + "/") == ParseRegex(route)
  {
    Url.DecodeAppend(route, '/');
    TrailingSlashTrimmed(Url.RawUrlDecode(route));
  }

  /** `/users` and `/users/` share one table entry: registering either has the same effect. */
  lemma TrailingSlashSharesEntry(table: Table, t: Type, route: string, handler: string, func: string, env: Env)
    ensures Add(table, t, route + "/", handler, func, env) == Add(table, t, route, handler, func, env)
  {
    ParseTrailingSlash(route);
  }

  /** The first match is unique. */
  lemma FirstMatchUnique(table: Table, path: string, i: int, j: int)
    requires IsFirstMatch(table, path, i) && IsFirstMatch(table, path, j)
    ensures i == j
  {
  }

  /** A table whose keys start with patterns that reject the path and then one that accepts
      it resolves the path to that one. */
  lemma ResolveAfterRejectingPrefix(table: Table, ks: seq<Pattern>, p: Pattern, path: string)
    requires |ks| < |table| && OrderedMap.Keys(table)[..|ks| + 1] == ks + [p]
    requires forall j :: 0 <= j < |ks| ==> !Matches(ks[j], path)
    requires Matches(p, path)
    ensures Resolve(table, path) == Some(p)
  {
    var n := |ks|;
    var keys := OrderedMap.Keys(table);
    forall j | 0 <= j < n
      ensures !Matches(table[j].0, path)
    {
      assert table[j].0 == keys[j] == keys[..n + 1][j] == ks[j];
    }
    assert table[n].0 == keys[..n + 1][n] == p;
    assert IsFirstMatch(table, path, n);
    var r := Resolve(table, path);
    var i :| IsFirstMatch(table, path, i) && table[i].0 == r.value;
    FirstMatchUnique(table, path, i, n);
  }

  /** A pattern that accepts a path the table does not resolve is not yet in the table. */
  lemma UnresolvedPatternIsNew(table: Table, p: Pattern, path: string)
    requires Resolve(table, path).None? && Matches(p, path)
    ensures p !in OrderedMap.Keys(table)
    ensures forall j :: 0 <= j < |table| ==> !Matches(OrderedMap.Keys(table)[j], path)
  {
  }

  lemma KeysPrefix(ks: seq<Pattern>, p1: Pattern, ks2: seq<Pattern>, p2: Pattern)
    requires ks2 == ks + [p1] || ks2 == ks + [p1] + [p2]
    ensures |ks| < |ks2| && ks2[..|ks| + 1] == ks + [p1]
  {
    if ks2 == ks + [p1] + [p2] {
      assert ks2[..|ks| + 1] == ks + [p1];
    }
  }

  /** Of two routes registered one after the other that both accept a path nothing registered
      before accepts, the first one registered is the one `resolve` returns. */
  lemma FirstRegisteredWins(table: Table, path: string,
                            t1: Type, r1: string, h1: string, f1: string,
                            t2: Type, r2: string, h2: string, f2: string, env: Env)
    requires Resolve(table, path).None?
    requires Matches(Parse(r1), path) && Matches(Parse(r2), path)
    requires Add(table, t1, r1, h1, f1, env).Ok?
    requires Add(Add(table, t1, r1, h1, f1, env).value, t2, r2, h2, f2, env).Ok?
    ensures Resolve(Add(Add(table, t1, r1, h1, f1, env).value, t2, r2, h2, f2, env).value, path)
         == Some(Parse(r1))
  {
    var p1, p2 := Parse(r1), Parse(r2);
    var table1 := Add(table, t1, r1, h1, f1, env).value;
    var table2 := Add(table1, t2, r2, h2, f2, env).value;
    var ks := OrderedMap.Keys(table);
    UnresolvedPatternIsNew(table, p1, path);
    UnresolvedPatternIsNew(table, p2, path);
    var ks1 := OrderedMap.Keys(table1);
    assert ks1 == ks + [p1];
    var ks2 := OrderedMap.Keys(table2);
    assert ks2 == ks1 || ks2 == ks1 + [p2];
    KeysPrefix(ks, p1, ks2, p2);
    ResolveAfterRejectingPrefix(table2, ks, p1, path);
  }

  /** The pattern at a first-match position is found again by a lookup of that pattern. */
  lemma MethodsAtFirstMatch(table: Table, path: string, i: int)
    requires IsFirstMatch(table, path, i)
    ensures Resolve(table, path) == Some(table[i].0)
    ensures MethodsOf(table, table[i].0) == table[i].1
  {
    var r := Resolve(table, path);
    var k :| IsFirstMatch(table, path, k) && table[k].0 == r.value;
    FirstMatchUnique(table, path, i, k);
    OrderedMap.GetFirst(table, i);
  }

  /** A path no pattern accepts gives the `404 Not Found` failure with no headers. */
  lemma GetNotFound(table: Table, t: Type, route: string, params: map<string, string>)
    requires forall i :: 0 <= i < |table| ==> !Matches(table[i].0, route)
    ensures Get(table, t, route, params) == Ok(RouterResponse(false, None, None, None, Some(NotFound)))
  {
  }

  /** A path whose first accepting pattern has a `GET` record succeeds with that record,
      whatever method was requested. */
  lemma GetFound(table: Table, t: Type, route: string, params: map<string, string>, i: int, record: Record)
    requires IsFirstMatch(table, route, i)
    requires OrderedMap.Get(table[i].1, "GET") == Some(record)
    ensures Get(table, t, route, params)
         == Ok(RouterResponse(true, Some(record.callback), Some(record.moduleName), Some(record.params), None))
  {
    MethodsAtFirstMatch(table, route, i);
  }

  /** A path whose first accepting pattern has no `GET` record makes `RouterResponse::new`
      throw, even when a later pattern would have one. */
  lemma GetWithoutGetRecord(table: Table, t: Type, route: string, params: map<string, string>, i: int)
    requires IsFirstMatch(table, route, i)
    requires OrderedMap.Get(table[i].1, "GET").None?
    ensures Get(table, t, route, params) == Throws("Handler not set on route success")
  {
    MethodsAtFirstMatch(table, route, i);
  }

  /** The requested method and the request parameters never change the outcome. */
  lemma GetIgnoresMethodAndParams(table: Table, route: string, t1: Type, p1: map<string, string>,
                                  t2: Type, p2: map<string, string>)
    ensures Get(table, t1, route, p1) == Get(table, t2, route, p2)
  {
  }

  /** On a table built by `add`, a successful outcome carries an empty parameter list. */
  lemma SuccessCarriesNoParams(table: Table, t: Type, route: string, params: map<string, string>)
    requires Invariant(table)
    requires Get(table, t, route, params).Ok? && Get(table, t, route, params).value.success
    ensures Get(table, t, route, params).value.params == Some([])
  {
    var i := FirstMatch(table, route).value;
    MethodsAtFirstMatch(table, route, i);
    var record := OrderedMap.Get(table[i].1, "GET").value;
    var j :| 0 <= j < |table[i].1| && table[i].1[j] == ("GET", record);
    assert WellFormedMethods(table[i].1);
  }

  /** The `Allowed` header of a registered pattern splits back into its method names in
      registration order. */
  lemma AllowHeadersListsMethods(table: Table, i: int)
    requires Invariant(table) && 0 <= i < |table|
    ensures Split(AllowHeaders(table[i].1)[0].1, ',') == OrderedMap.Keys(table[i].1)
  {
    var ms := table[i].1;
    assert WellFormedMethods(ms);
    forall j | 0 <= j < |ms|
      ensures ',' !in ms[j].0
    {
      TypeNameHasNoComma(ms[j].0);
    }
  }
}
