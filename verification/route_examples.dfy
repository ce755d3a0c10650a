/** Worked examples: a parameterised declaration, its table key, the paths it accepts. */
module RouteExamples {
  import opened Strings
  import opened RoutePattern
  import Url
  import opened Results
  import opened RequestType
  import OrderedMap
  import Router
  import RouterProperties

  /** The example declaration: one literal piece, one parameter piece. */
  const UsersRoute: string := "/users/:id"

  /** Its table key. */
  const UsersKey: string := "/^\\/users\\/[a-zA-Z0-9-_]+$/"

  lemma PiecesLitParam(route: string, lit: string, name: string)
    requires route == "/" + lit + "/" + name
    requires '/' !in lit && '/' !in name
    ensures Pieces(route) == [lit, name]
  {
    var xs := ["", lit, name];
    assert Join(xs[2..], '/') == name;
    assert Join(xs[1..], '/') == lit + "/" + name;
    assert Join(xs, '/') == route;
    SplitJoin(xs, '/');
  }

  /** A literal piece followed by a parameter piece compiles to a literal and a parameter. */
  lemma CompileLitParam(route: string, lit: string, name: string)
    requires route == "/" + lit + "/" + name
    requires '/' !in lit && lit != "" && !IsParamSegment(lit)
    requires '/' !in name && IsParamSegment(name)
    ensures Compile(route) == [Lit(lit), Param]
  {
    PiecesLitParam(route, lit, name);
    var c := ClassifyAll([lit, name]);
    assert c == [Lit(lit), Param];
    assert TrimEmpty(c) == c;
  }

  /** The key text of a literal followed by a parameter. */
  lemma KeyTextLitParam(lit: string)
    ensures KeyText([Lit(lit), Param]) == "/^" + Sep + lit + Sep + ParamClass + "$/"
  {
    assert Render([Param]) == Sep + ParamClass;
    assert Render([Lit(lit), Param]) == Sep + lit + Render([Param]);
  }

  lemma UsersPieces()
    ensures UsersRoute == "/" + "users" + "/" + ":id"
    ensures '/' !in "users" && "users" != "" && !IsParamSegment("users")
    ensures '/' !in ":id" && IsParamSegment(":id")
  {
    var id := ":id";
    assert id[0] == ':' && IsRouteChar(id[1]);
    var users := "users";
    assert !IsParamSegment(users) by {
      forall i | 0 <= i < |users| - 1 ensures users[i] != ':' {
      }
    }
  }

  /** Without `%` and `\` the table key is the rendering of the parsed pattern. */
  lemma RegexOfParsed(route: string)
    requires '%' !in route && '\\' !in route
    ensures Router.ParseRegex(route) == KeyText(Router.Parse(route))
  {
    Url.DecodeWithoutPercent(route);
    CompileRegexIsKeyText(route);
  }

  /** A declaration with one literal and one parameter compiles to those two segments. */
  lemma UsersPattern()
    ensures Router.Parse(UsersRoute) == [Lit("users"), Param]
  {
    UsersPieces();
    assert '%' !in UsersRoute;
    Url.DecodeWithoutPercent(UsersRoute);
    CompileLitParam(UsersRoute, "users", ":id");
  }

  /** The same declaration as the table key: `\/` before each segment, anchored. */
  lemma UsersRegex()
    ensures Router.ParseRegex(UsersRoute) == UsersKey
  {
    UsersRouteIsPlain();
    RegexOfParsed(UsersRoute);
    UsersPattern();
    UsersKeyText();
  }

  lemma UsersRouteIsPlain()
    ensures '%' !in UsersRoute && '\\' !in UsersRoute
  {
  }

  lemma UsersKeyText()
    ensures KeyText([Lit("users"), Param]) == UsersKey
  {
    KeyTextLitParam("users");
  }

  /** A literal followed by a parameter accepts `/`, the literal, `/` and a parameter value. */
  lemma LitParamMatches(lit: string, value: string)
    requires '/' !in lit && ParamValue(value)
    ensures Matches([Lit(lit), Param], "/" + lit + "/" + value)
  {
    var p := [Lit(lit), Param];
    var parts := [lit, value];
    assert '/' !in value by {
      forall i | 0 <= i < |value| ensures value[i] != '/' {
        assert IsRouteChar(value[i]);
      }
    }
    MatchesJoin(p, parts);
    assert Join(parts, '/') == lit + "/" + value;
    assert Accepts(p[0], parts[0]) && Accepts(p[1], parts[1]);
    assert "/" + lit + "/" + value == "/" + Join(parts, '/');
  }

  /** The pattern of `/users/:id` accepts `/users/42`, a value for its parameter. */
  lemma UsersMatchesValue()
    ensures Matches([Lit("users"), Param], "/users/42")
  {
    assert ParamValue("42");
    LitParamMatches("users", "42");
    assert "/" + "users" + "/" + "42" == "/users/42";
  }

  /** The same pattern rejects `/users/42/`, the accepted path with a trailing `/`. */
  lemma UsersRejectsTrailingSlash()
    ensures !Matches([Lit("users"), Param], "/users/42/")
  {
    UsersMatchesValue();
    TrailingSlashIsDistinct([Lit("users"), Param], "/users/42");
    assert "/users/42" + "/" == "/users/42/";
  }

  /** The same pattern rejects `/users`, the literal without a value for the parameter. */
  lemma UsersRejectsPrefix()
    ensures !Matches([Lit("users"), Param], "/users")
  {
    var users := "users";
    assert Count(users, '/') == 0 by {
      assert '/' !in users;
      SplitNoSep(users, '/');
    }
    CountAppend("/", users, '/');
    assert "/" + users == "/users";
    if Matches([Lit("users"), Param], "/users") {
      MatchSlashCount([Lit("users"), Param], "/users");
    }
  }

  /** The root declaration compiles to the empty pattern, which rejects the path `/`. */
  lemma RootRoute()
    ensures Router.Parse("/") == []
    ensures Router.ParseRegex("/") == "/^$/"
    ensures !Matches(Router.Parse("/"), "/")
  {
    Url.DecodeWithoutPercent("/");
    OnlySlashesCompileToRoot("/");
    RootMatches("/");
  }

  /** An application whose every path resolves to itself. */
  const Blog: Router.Env := Router.Env("/app", "modules", "blog", p => Some(p))

  /** The record `show.php` of module `blog` is stored as. */
  const ShowRecord: Router.Record := Router.Record(Router.FullPath(Blog, "show.php"), "blog", [])

  /** A registration on the empty table makes the table of one entry holding one record. */
  lemma AddToEmpty(t: Type, route: string, handler: string, env: Router.Env)
    requires !Router.Falsy(env.realpath(Router.FullPath(env, handler)))
    ensures Router.Add([], t, route, handler, "", env)
         == Ok([(Router.Parse(route), [(Name(t), Router.Record(env.realpath(Router.FullPath(env, handler)).value, env.currentModule, []))])])
  {
  }

  /** Registering `GET /users/:id` on an empty table gives one entry with one record. */
  lemma RegisterUsers()
    ensures Router.Add([], GET, UsersRoute, "show.php", "", Blog) == Ok(UsersTable)
  {
    AddToEmpty(GET, UsersRoute, "show.php", Blog);
    UsersPattern();
  }

  /** The table `RegisterUsers` builds. */
  const UsersTable: Router.Table := [([Lit("users"), Param], [("GET", ShowRecord)])]

  /** On that table a request for `/users/42` is served by the record, whatever its method... */
  lemma ServeUsers()
    ensures Router.Get(UsersTable, DELETE, "/users/42", map[])
         == Ok(Router.RouterResponse(true, Some(ShowRecord.callback), Some("blog"), Some([]), None))
  {
    UsersMatchesValue();
    assert Router.IsFirstMatch(UsersTable, "/users/42", 0);
    assert OrderedMap.Get(UsersTable[0].1, "GET") == Some(ShowRecord);
    RouterProperties.GetFound(UsersTable, DELETE, "/users/42", map[], 0, ShowRecord);
  }

  /** ...and `/users` is not found. */
  lemma UsersNotFound()
    ensures Router.Get(UsersTable, GET, "/users", map[])
         == Ok(Router.RouterResponse(false, None, None, None, Some(Router.NotFound)))
  {
    UsersRejectsPrefix();
    RouterProperties.GetNotFound(UsersTable, GET, "/users", map[]);
  }

  /** `/piece` with a non-empty slash-free piece visits that piece alone. */
  lemma OnePiece(route: string, piece: string)
    requires route == "/" + piece && piece != "" && '/' !in piece
    ensures Pieces(route) == [piece]
  {
    var xs := ["", piece];
    assert Join(xs[1..], '/') == piece;
    assert Join(xs, '/') == route;
    SplitJoin(xs, '/');
  }

  /** A declaration of one literal piece: its key body is `\/` and the piece, trimmed. */
  lemma OneLiteral(route: string, piece: string)
    requires route == "/" + piece && piece != "" && '/' !in piece && !IsParamSegment(piece)
    ensures CompileRegex(route) == "/^" + RTrim(Sep + piece) + "$/"
    ensures Compile(route) == [Lit(piece)]
  {
    OnePiece(route, piece);
    assert Accumulate([piece]) == piece + Sep;
    assert Sep + Accumulate([piece]) == (Sep + piece) + Sep;
    RTrimSep(Sep + piece);
    assert ClassifyAll([piece]) == [Lit(piece)];
    assert TrimEmpty([Lit(piece)]) == [Lit(piece)];
  }

  /** `rtrim` drops one more `\` at the end. */
  lemma RTrimBackslash(x: string)
    ensures RTrim(x + "\\") == RTrim(x)
  {
    assert (x + "\\")[..|x|] == x;
  }

  /** Appending `\` to a plain literal piece keeps it a plain literal piece. */
  lemma BackslashStaysLiteral(lit: string)
    requires '/' !in lit && !IsParamSegment(lit)
    ensures '/' !in lit + "\\" && !IsParamSegment(lit + "\\")
  {
    var b := lit + "\\";
    forall i | 0 <= i < |b| ensures b[i] != '/' {
      if i < |lit| { assert b[i] == lit[i]; }
    }
    forall i | 0 <= i < |b| - 1 ensures !(b[i] == ':' && IsRouteChar(b[i + 1])) {
      assert b[i] == lit[i];
      if i + 1 < |lit| { assert b[i + 1] == lit[i + 1]; }
    }
  }

  /** `rtrim` also removes a `\` that ends the last piece: `/lit\` and `/lit` share their
      regex key, while their segment lists differ in that one character. */
  lemma TrailingBackslashSharesKey(lit: string, withBackslash: string, plain: string)
    requires lit != "" && '/' !in lit && !IsParamSegment(lit)
    requires plain == "/" + lit && withBackslash == plain + "\\"
    ensures CompileRegex(withBackslash) == CompileRegex(plain)
    ensures Compile(withBackslash) == [Lit(lit + "\\")]
    ensures Compile(plain) == [Lit(lit)]
  {
    var b := lit + "\\";
    var x := Sep + lit;
    assert withBackslash == "/" + b;
    assert Sep + b == x + "\\";
    BackslashStaysLiteral(lit);
    OneLiteral(withBackslash, b);
    OneLiteral(plain, lit);
    RTrimBackslash(x);
    assert RTrim(Sep + b) == RTrim(x);
  }

  /** For instance `/a\` and `/a` are both keyed `/^\/a$/`. */
  lemma BackslashExample()
    ensures CompileRegex("/a\\") == CompileRegex("/a")
    ensures Compile("/a\\") != Compile("/a")
  {
    var a := "a";
    assert !IsParamSegment(a);
    TrailingBackslashSharesKey(a, "/a\\", "/a");
    assert Lit(a + "\\") != Lit(a) by { assert |a + "\\"| != |a|; }
  }

  /** A declaration of one parameter piece: one `Param` segment, keyed by the class. */
  lemma OneParam(route: string, piece: string)
    requires route == "/" + piece && '/' !in piece && IsParamSegment(piece)
    ensures CompileRegex(route) == "/^" + RTrim(Sep + ParamClass) + "$/"
    ensures Compile(route) == [Param]
  {
    OnePiece(route, piece);
    assert Accumulate([piece]) == ParamClass + Sep;
    assert Sep + Accumulate([piece]) == (Sep + ParamClass) + Sep;
    RTrimSep(Sep + ParamClass);
    assert ClassifyAll([piece]) == [Param];
    assert TrimEmpty([Param]) == [Param];
  }

  /** The parameter class, read as a literal, is a plain literal piece. */
  lemma ParamClassIsLiteral()
    ensures ParamClass != "" && '/' !in ParamClass && !IsParamSegment(ParamClass)
  {
    assert forall i :: 0 <= i < |ParamClass| ==> ParamClass[i] != ':' && ParamClass[i] != '/';
  }

  /** A literal piece spelled like the parameter class gets the same regex key as any
      parameter piece, while the segment lists are `[Lit(ParamClass)]` and `[Param]`. */
  lemma ParamClassSharesKey(piece: string, literal: string, param: string)
    requires '/' !in piece && IsParamSegment(piece)
    requires literal == "/" + ParamClass && param == "/" + piece
    ensures CompileRegex(literal) == CompileRegex(param)
    ensures Compile(literal) == [Lit(ParamClass)]
    ensures Compile(param) == [Param]
  {
    ParamClassIsLiteral();
    OneLiteral(literal, ParamClass);
    OneParam(param, piece);
  }

  /** For instance `/[a-zA-Z0-9-_]+` and `/:id` are both keyed `/^\/[a-zA-Z0-9-_]+$/`. */
  lemma ParamClassExample()
    ensures CompileRegex("/[a-zA-Z0-9-_]+") == CompileRegex("/:id")
    ensures Compile("/[a-zA-Z0-9-_]+") != Compile("/:id")
  {
    var id := ":id";
    assert id[0] == ':' && IsRouteChar(id[1]);
    ParamClassSharesKey(id, "/[a-zA-Z0-9-_]+", "/:id");
  }
}
