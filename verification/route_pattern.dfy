/** The route compiler of `Router::parse` (lib/Core/Router.php) and the matcher that
    `preg_match` applies to its output.

    A declaration such as `/users/:id` is split on `/`; its first piece is dropped; every
    piece that holds a `:` directly followed by a route character becomes the one-segment
    class `[a-zA-Z0-9-_]+` and every other piece stays literal. The pieces are joined with
    the escaped separator `\/`, trailing `\` and `/` characters are trimmed, and the result
    is anchored as `/^...$/`.

    Two views are given. `CompileRegex` builds the regex text exactly as the loop does; it is
    the key of the route table. `Compile` gives the same route as a list of segments, which
    `Matches` interprets. `CompileRegexIsKeyText` and `SameKeyIffSamePattern` connect them. */
module RoutePattern {
  import opened Strings

  /** REGEX_ROUTE_PARAM: the text a parameter piece is replaced with. */
  const ParamClass: string := "[a-zA-Z0-9-_]+"

  /** The escaped separator `\/` that the compiled text puts between pieces. */
  const Sep: string := "\\/"

  /** A member of the character class `[a-zA-Z0-9-_]`. */
  predicate IsRouteChar(ch: char)
  {
    'a' <= ch <= 'z' || 'A' <= ch <= 'Z' || '0' <= ch <= '9' || ch == '-' || ch == '_'
  }

  /** REGEX_VALID_PARAM `/:[a-zA-Z0-9-_]+/` is not anchored: a piece is a parameter as soon
      as it holds a `:` directly followed by a route character, anywhere in it. */
  predicate IsParamSegment(piece: string)
  {
    exists i :: 0 <= i < |piece| - 1 && piece[i] == ':' && IsRouteChar(piece[i + 1])
  }

  datatype Segment = Lit(text: string) | Param

  /** A compiled route: its segments in declaration order. */
  type Pattern = seq<Segment>

  function Classify(piece: string): Segment
  {
    if IsParamSegment(piece) then Param else Lit(piece)
  }

  function ClassifyAll(pieces: seq<string>): (r: Pattern)
    ensures |r| == |pieces|
    ensures forall i :: 0 <= i < |pieces| ==> r[i] == Classify(pieces[i])
  {
    if |pieces| == 0 then [] else [Classify(pieces[0])] + ClassifyAll(pieces[1..])
  }

  /** The pieces the loop of `parse` visits: `explode('/', route)` without its first element,
      or none at all when the split has two elements and the second is empty. */
  function Pieces(route: string): seq<string>
  {
    var segments := Split(route, '/');
    if |segments| == 2 && segments[1] == "" then [] else segments[1..]
  }

  /** The regex text a segment contributes. */
  function SegmentText(s: Segment): string
  {
    match s
    case Lit(t) => t
    case Param => ParamClass
  }

  /** What the loop appends after the initial `\/`: each piece's text followed by `\/`. */
  function Accumulate(pieces: seq<string>): string
  {
    if |pieces| == 0 then ""
    else SegmentText(Classify(pieces[0])) + Sep + Accumulate(pieces[1..])
  }

  /** A member of the character list `'\/'` given to `rtrim`. */
  predicate IsTrimmed(ch: char)
  {
    ch == '\\' || ch == '/'
  }

  /** `rtrim(s, '\/')`: the longest prefix of `s` that does not end in `\` or `/`. */
  function RTrim(s: string): (r: string)
    ensures r <= s
    ensures |r| == 0 || !IsTrimmed(r[|r| - 1])
    ensures forall i :: |r| <= i < |s| ==> IsTrimmed(s[i])
  {
    if |s| > 0 && IsTrimmed(s[|s| - 1]) then RTrim(s[..|s| - 1]) else s
  }

  /** The regex text `parse` returns for an already decoded declaration: anchored by `/^`
      and `$/`, with a body that ends in neither `\` nor `/`. */
  function CompileRegex(route: string): (r: string)
    ensures |r| >= 4 && r[..2] == "/^" && r[|r| - 2..] == "$/"
    ensures |r| == 4 || !IsTrimmed(r[|r| - 3])
  {
    var body := RTrim(Sep + Accumulate(Pieces(route)));
    var key := "/^" + body + "$/";
    assert |key| == |body| + 4 && key[..2] == "/^" && key[|key| - 2..] == "$/";
    assert |body| == 0 || key[|key| - 3] == body[|body| - 1];
    key
  }

  /** Drops every empty literal at the end of a pattern. */
  function TrimEmpty(p: Pattern): (r: Pattern)
    ensures |r| <= |p| && r == p[..|r|]
    ensures forall i :: |r| <= i < |p| ==> p[i] == Lit("")
    ensures |r| == 0 || r[|r| - 1] != Lit("")
    decreases |p|
  {
    if |p| > 0 && p[|p| - 1] == Lit("") then TrimEmpty(p[..|p| - 1]) else p
  }

  /** The segment list of an already decoded declaration: the visited pieces in order, each
      classified, with the empty pieces at the end dropped (the trailing separators that
      `rtrim` removes). */
  function Compile(route: string): (r: Pattern)
    ensures |r| <= |Pieces(route)|
    ensures forall i :: 0 <= i < |r| ==> (r[i] == Param <==> IsParamSegment(Pieces(route)[i]))
    ensures forall i :: 0 <= i < |r| && r[i].Lit? ==> r[i].text == Pieces(route)[i]
    ensures forall i :: |r| <= i < |Pieces(route)| ==> Pieces(route)[i] == ""
    ensures |r| == 0 || r[|r| - 1] != Lit("")
    ensures forall i :: 0 <= i < |r| && r[i].Lit? ==> '/' !in r[i].text
  {
    var pieces := Pieces(route);
    PiecesHaveNoSlash(route);
    ClassifyTrimmed(pieces)
  }

  /** No visited piece holds the separator. */
  lemma PiecesHaveNoSlash(route: string)
    ensures forall i :: 0 <= i < |Pieces(route)| ==> '/' !in Pieces(route)[i]
  {
    var segments := Split(route, '/');
    if !(|segments| == 2 && segments[1] == "") {
      assert forall i :: 0 <= i < |segments| - 1 ==> segments[1..][i] == segments[i + 1];
    }
  }

  /** The visited pieces classified, with the empty literals at the end dropped. */
  function ClassifyTrimmed(pieces: seq<string>): (r: Pattern)
    ensures |r| <= |pieces|
    ensures forall i :: 0 <= i < |r| ==> r[i] == Classify(pieces[i])
    ensures forall i :: |r| <= i < |pieces| ==> pieces[i] == ""
    ensures |r| == 0 || r[|r| - 1] != Lit("")
  {
    var c := ClassifyAll(pieces);
    var r := TrimEmpty(c);
    assert forall i :: |r| <= i < |c| ==> Classify(pieces[i]) == Lit("");
    r
  }

  /** The regex text of a pattern: `\/` before each segment's text. */
  function Render(p: Pattern): string
  {
    if |p| == 0 then "" else Sep + SegmentText(p[0]) + Render(p[1..])
  }

  /** The table key of a pattern: its text between the anchors and delimiters. */
  function KeyText(p: Pattern): string
  {
    "/^" + Render(p) + "$/"
  }

  // ----- the regex text and the segment list describe the same route -----

  lemma {:induction false} AccumulateRender(pieces: seq<string>)
    ensures Sep + Accumulate(pieces) == Render(ClassifyAll(pieces)) + Sep
    decreases |pieces|
  {
    if |pieces| > 0 {
      var rest := pieces[1..];
      var t := SegmentText(Classify(pieces[0]));
      AccumulateRender(rest);
      var c := ClassifyAll(pieces);
      assert c[1..] == ClassifyAll(rest);
      assert Render(c) == Sep + t + Render(ClassifyAll(rest));
      calc {
        Sep + Accumulate(pieces);
        Sep + ((t + Sep) + Accumulate(rest));
        { AppendAssoc(t, Sep, Accumulate(rest)); }
        Sep + (t + (Sep + Accumulate(rest)));
        { AppendAssoc(Sep, t, Sep + Accumulate(rest)); }
        (Sep + t) + (Sep + Accumulate(rest));
        (Sep + t) + (Render(ClassifyAll(rest)) + Sep);
        { AppendAssoc(Sep + t, Render(ClassifyAll(rest)), Sep); }
        Render(c) + Sep;
      }
    }
  }

  lemma RTrimSep(s: string)
    ensures RTrim(s + Sep) == RTrim(s)
  {
    assert (s + Sep)[..|s| + 1] == s + "\\";
    assert (s + "\\")[..|s|] == s;
  }

  lemma {:induction false} RenderSnoc(p: Pattern, x: Segment)
    ensures Render(p + [x]) == Render(p) + Sep + SegmentText(x)
    decreases |p|
  {
    if |p| > 0 {
      assert (p + [x])[1..] == p[1..] + [x];
      RenderSnoc(p[1..], x);
    } else {
      assert p + [x] == [x];
    }
  }

  /** No literal holds a character that `rtrim` removes. */
  predicate LitsUntrimmed(p: Pattern)
  {
    forall i :: 0 <= i < |p| && p[i].Lit? ==> '\\' !in p[i].text && '/' !in p[i].text
  }

  /** A segment whose text is non-empty and does not end in a trimmed character. */
  lemma UntrimmedEnd(x: Segment)
    requires x != Lit("")
    requires x.Lit? ==> '\\' !in x.text && '/' !in x.text
    ensures |SegmentText(x)| > 0 && !IsTrimmed(SegmentText(x)[|SegmentText(x)| - 1])
  {
    if x.Lit? {
      var t := x.text;
      assert t[|t| - 1] in t;
    }
  }

  lemma {:induction false} RTrimRender(p: Pattern)
    requires LitsUntrimmed(p)
    ensures RTrim(Render(p)) == Render(TrimEmpty(p))
    decreases |p|
  {
    if |p| > 0 {
      var init, last := p[..|p| - 1], p[|p| - 1];
      assert p == init + [last];
      RenderSnoc(init, last);
      if last == Lit("") {
        assert Render(p) == Render(init) + Sep;
        RTrimSep(Render(init));
        assert LitsUntrimmed(init) by {
          forall i | 0 <= i < |init| && init[i].Lit?
            ensures '\\' !in init[i].text && '/' !in init[i].text
          {
            assert init[i] == p[i];
          }
        }
        RTrimRender(init);
        assert TrimEmpty(p) == TrimEmpty(init);
      } else {
        var t := SegmentText(last);
        UntrimmedEnd(last);
        var x := Render(p);
        assert x == Render(init) + Sep + t;
        assert x[|x| - 1] == t[|t| - 1];
        assert RTrim(x) == x;
        assert TrimEmpty(p) == p;
      }
    }
  }

  /** For a declaration without backslashes, the regex text `parse` builds is the key text
      of the compiled segment list. */
  lemma CompileRegexIsKeyText(route: string)
    requires '\\' !in route
    ensures CompileRegex(route) == KeyText(Compile(route))
  {
    var pieces := Pieces(route);
    var segments := Split(route, '/');
    assert forall i :: 0 <= i < |pieces| ==> '\\' !in pieces[i] by {
      forall i | 0 <= i < |pieces|
        ensures '\\' !in pieces[i]
      {
        var k := if |segments| == 2 && segments[1] == "" then 0 else i + 1;
        assert pieces[i] == segments[k];
        forall j | 0 <= j < |pieces[i]|
          ensures pieces[i][j] != '\\'
        {
          assert segments[k][j] in route;
        }
      }
    }
    var c := ClassifyAll(pieces);
    assert LitsUntrimmed(c);
    AccumulateRender(pieces);
    RTrimSep(Render(c));
    RTrimRender(c);
  }

  /** The special case at the split (two pieces, the second empty) changes nothing: dropping
      the first piece alone gives the same text and the same segments. */
  lemma SpecialCaseRedundant(route: string)
    ensures CompileRegex(route) == "/^" + RTrim(Sep + Accumulate(Split(route, '/')[1..])) + "$/"
    ensures Compile(route) == TrimEmpty(ClassifyAll(Split(route, '/')[1..]))
  {
    var segments := Split(route, '/');
    if |segments| == 2 && segments[1] == "" {
      var xs := segments[1..];
      assert xs == [""];
      assert !IsParamSegment("");
      assert Accumulate(xs) == "" + Sep + Accumulate([]);
      RTrimSep(Sep);
      assert RTrim(Sep) == RTrim("") by { RTrimSep(""); assert "" + Sep == Sep; }
      assert ClassifyAll(xs) == [Lit("")];
      assert TrimEmpty([Lit("")]) == TrimEmpty([]);
    }
  }

  /** Splitting a declaration with one more trailing `/` gives one more empty piece. */
  lemma PiecesAppendSlash(route: string)
    ensures Split(route + "/", '/')[1..] == Split(route, '/')[1..] + [""]
  {
    SplitAppendSep(route, '/');
    assert route + "/" == route + ['/'];
  }

  lemma RegexBodyAppendEmpty(xs: seq<string>)
    ensures RTrim(Sep + Accumulate(xs + [""])) == RTrim(Sep + Accumulate(xs))
  {
    var c := ClassifyAll(xs);
    assert !IsParamSegment("");
    assert ClassifyAll(xs + [""]) == c + [Lit("")];
    AccumulateRender(xs);
    AccumulateRender(xs + [""]);
    RenderSnoc(c, Lit(""));
    assert Render(c + [Lit("")]) == Render(c) + Sep;
    RTrimSep(Render(c));
    RTrimSep(Render(c) + Sep);
  }

  lemma SegmentsAppendEmpty(xs: seq<string>)
    ensures TrimEmpty(ClassifyAll(xs + [""])) == TrimEmpty(ClassifyAll(xs))
  {
    var c := ClassifyAll(xs);
    assert !IsParamSegment("");
    assert ClassifyAll(xs + [""]) == c + [Lit("")];
    assert (c + [Lit("")])[..|c|] == c;
  }

  lemma TrailingSlashRegex(route: string)
    ensures CompileRegex(route + "/") == CompileRegex(route)
  {
    SpecialCaseRedundant(route);
    SpecialCaseRedundant(route + "/");
    PiecesAppendSlash(route);
    RegexBodyAppendEmpty(Split(route, '/')[1..]);
  }

  lemma TrailingSlashSegments(route: string)
    ensures Compile(route + "/") == Compile(route)
  {
    SpecialCaseRedundant(route);
    SpecialCaseRedundant(route + "/");
    PiecesAppendSlash(route);
    SegmentsAppendEmpty(Split(route, '/')[1..]);
  }

  /** A trailing `/` in a declaration is trimmed away: both spellings give the same regex
      text and the same segments. */
  lemma TrailingSlashTrimmed(route: string)
    ensures CompileRegex(route + "/") == CompileRegex(route)
    ensures Compile(route + "/") == Compile(route)
  {
    TrailingSlashRegex(route);
    TrailingSlashSegments(route);
  }

  /** A declaration made of slashes only, the root `/` and the empty string included,
      compiles to no segments and to the regex `/^$/`. */
  lemma {:induction false} OnlySlashesCompileToRoot(route: string)
    requires forall i :: 0 <= i < |route| ==> route[i] == '/'
    ensures Compile(route) == []
    ensures CompileRegex(route) == "/^$/"
    decreases |route|
  {
    if |route| == 0 {
      assert Split(route, '/') == [""];
      assert Pieces(route) == [];
      assert Accumulate([]) == "";
      assert Sep + "" == Sep;
      RTrimSep("");
      assert "" + Sep == Sep;
    } else {
      var init := route[..|route| - 1];
      assert route == init + "/";
      OnlySlashesCompileToRoot(init);
      TrailingSlashTrimmed(init);
    }
  }

  /** Whatever precedes the first `/` of a declaration is discarded with the first piece. */
  lemma LeadingTextIgnored(h: string, route: string)
    requires '/' !in h
    requires |route| == 0 || route[0] == '/'
    ensures Pieces(h + route) == Pieces(route)
    ensures Compile(h + route) == Compile(route)
    ensures CompileRegex(h + route) == CompileRegex(route)
  {
    SplitPrepend(h, route, '/');
    var segments := Split(route, '/');
    if |route| > 0 {
      assert route == "/" + route[1..];
      SplitPrefix("", route[1..], '/');
      assert "" + ['/'] + route[1..] == route;
    }
    assert segments[0] == "";
    assert Split(h + route, '/')[1..] == segments[1..];
  }

  // ----- declarations over the valid-segments alphabet -----

  /** A declaration over REGEX_VALID_SEGMENTS' alphabet `[a-zA-Z0-9-_:/]`; its literals hold no
      regex metacharacter, so `Matches` is exactly what `preg_match` does with its key. */
  predicate Plain(route: string)
  {
    forall i :: 0 <= i < |route| ==> IsRouteChar(route[i]) || route[i] == ':' || route[i] == '/'
  }

  /** A literal over `[a-zA-Z0-9-_:]`, or a parameter. */
  predicate PlainSegment(x: Segment)
  {
    x.Lit? ==> forall j :: 0 <= j < |x.text| ==> IsRouteChar(x.text[j]) || x.text[j] == ':'
  }

  predicate PlainLits(p: Pattern)
  {
    forall i :: 0 <= i < |p| ==> PlainSegment(p[i])
  }

  lemma CompilePlain(route: string)
    requires Plain(route)
    ensures PlainLits(Compile(route))
  {
    var r := Compile(route);
    var segments := Split(route, '/');
    forall i | 0 <= i < |r|
      ensures PlainSegment(r[i])
    {
      if r[i].Lit? {
        var k := if |segments| == 2 && segments[1] == "" then 0 else i + 1;
        assert r[i].text == segments[k];
        forall j | 0 <= j < |r[i].text|
          ensures IsRouteChar(r[i].text[j]) || r[i].text[j] == ':'
        {
          assert segments[k][j] in route;
          assert segments[k][j] != '/';
        }
      }
    }
  }

  /** Two texts that each end at a backslash or at their end split at the same place. */
  lemma SplitAtBackslash(a: string, b: string, a': string, b': string)
    requires '\\' !in a && '\\' !in a'
    requires |b| == 0 || b[0] == '\\'
    requires |b'| == 0 || b'[0] == '\\'
    requires a + b == a' + b'
    ensures a == a' && b == b'
  {
    var s := a + b;
    assert forall k :: 0 <= k < |a| ==> s[k] != '\\' by {
      forall k | 0 <= k < |a| ensures s[k] != '\\' { assert s[k] == a[k]; }
    }
    assert forall k :: 0 <= k < |a'| ==> s[k] != '\\' by {
      forall k | 0 <= k < |a'| ensures s[k] != '\\' { assert s[k] == (a' + b')[k] == a'[k]; }
    }
    assert |a| == |s| || s[|a|] == '\\';
    assert |a'| == |s| || s[|a'|] == '\\' by {
      if |a'| < |s| { assert s[|a'|] == (a' + b')[|a'|] == b'[0]; }
    }
    assert |a| == |a'|;
    assert a == s[..|a|] == (a' + b')[..|a'|] == a';
    assert b == s[|a|..] == (a' + b')[|a'|..] == b';
  }

  lemma RenderCons(p: Pattern)
    requires |p| > 0
    ensures Render(p) == "\\" + (("/" + SegmentText(p[0])) + Render(p[1..]))
  {
    var t, r := SegmentText(p[0]), Render(p[1..]);
    assert Sep == "\\" + "/";
    assert Render(p) == ("\\" + "/") + t + r;
    AppendAssoc("\\", "/", t);
    AppendAssoc("\\", "/" + t, r);
  }

  lemma RenderStart(p: Pattern)
    ensures |Render(p)| == 0 || Render(p)[0] == '\\'
  {
  }

  /** A plain segment's text holds no backslash, and determines the segment. */
  lemma PlainText(x: Segment, y: Segment)
    requires PlainSegment(x) && PlainSegment(y)
    ensures '\\' !in SegmentText(x)
    ensures SegmentText(x) == SegmentText(y) ==> x == y
  {
    if x.Lit? {
      assert forall j :: 0 <= j < |x.text| ==> x.text[j] != '\\';
    }
    assert ParamClass[0] == '[';
    assert x.Lit? ==> x.text != ParamClass by {
      if x.Lit? && |x.text| > 0 {
        assert x.text[0] != '[';
      }
    }
    assert y.Lit? ==> y.text != ParamClass by {
      if y.Lit? && |y.text| > 0 {
        assert y.text[0] != '[';
      }
    }
  }

  lemma {:induction false} RenderInjective(p: Pattern, q: Pattern)
    requires PlainLits(p) && PlainLits(q)
    requires Render(p) == Render(q)
    ensures p == q
    decreases |p|
  {
    if |p| == 0 || |q| == 0 {
      if |p| > 0 { RenderCons(p); }
      if |q| > 0 { RenderCons(q); }
    } else {
      var a, b := "/" + SegmentText(p[0]), Render(p[1..]);
      var a', b' := "/" + SegmentText(q[0]), Render(q[1..]);
      RenderCons(p);
      RenderCons(q);
      assert a + b == a' + b' by {
        assert ("\\" + (a + b))[1..] == a + b;
        assert ("\\" + (a' + b'))[1..] == a' + b';
      }
      PlainText(p[0], q[0]);
      PlainText(q[0], p[0]);
      RenderStart(p[1..]);
      RenderStart(q[1..]);
      SplitAtBackslash(a, b, a', b');
      assert SegmentText(p[0]) == a[1..] == a'[1..] == SegmentText(q[0]);
      RenderInjective(p[1..], q[1..]);
      assert p == [p[0]] + p[1..] && q == [q[0]] + q[1..];
    }
  }

  /** For declarations over the valid-segments alphabet, two declarations share a table key
      exactly when they compile to the same segment list. */
  lemma SameKeyIffSamePattern(r1: string, r2: string)
    requires Plain(r1) && Plain(r2)
    ensures CompileRegex(r1) == CompileRegex(r2) <==> Compile(r1) == Compile(r2)
  {
    assert '\\' !in r1 by { forall i | 0 <= i < |r1| ensures r1[i] != '\\' { } }
    assert '\\' !in r2 by { forall i | 0 <= i < |r2| ensures r2[i] != '\\' { } }
    CompileRegexIsKeyText(r1);
    CompileRegexIsKeyText(r2);
    var p, q := Compile(r1), Compile(r2);
    if KeyText(p) == KeyText(q) {
      assert Render(p) == KeyText(p)[2..|KeyText(p)| - 2];
      assert Render(q) == KeyText(q)[2..|KeyText(q)| - 2];
      CompilePlain(r1);
      CompilePlain(r2);
      RenderInjective(p, q);
    }
  }

  // ----- matching -----

  /** A string `[a-zA-Z0-9-_]+` accepts: one or more route characters. */
  predicate ParamValue(s: string)
  {
    |s| > 0 && forall i :: 0 <= i < |s| ==> IsRouteChar(s[i])
  }

  predicate Accepts(seg: Segment, piece: string)
  {
    match seg
    case Lit(t) => piece == t
    case Param => ParamValue(piece)
  }

  /** The path is `/` followed by one piece per segment, separated by `/`, each accepted by
      its segment; the pattern with no segment accepts only the empty path. */
  predicate MatchesWhole(p: Pattern, path: string)
  {
    if |p| == 0 then path == ""
    else
      && |path| > 0 && path[0] == '/'
      && var parts := Split(path[1..], '/');
      && |parts| == |p|
      && forall i :: 0 <= i < |p| ==> Accepts(p[i], parts[i])
  }

  /** `preg_match(KeyText(p), path)`: without the D modifier, `$` also matches just before a
      newline that ends the subject. */
  predicate Matches(p: Pattern, path: string)
  {
    || MatchesWhole(p, path)
    || (|path| > 0 && path[|path| - 1] == '\n' && MatchesWhole(p, path[..|path| - 1]))
  }

  /** A matched path holds exactly one `/` per segment: a parameter never spans a `/` and
      the anchors leave nothing unmatched. */
  lemma MatchSlashCount(p: Pattern, path: string)
    requires Matches(p, path)
    ensures Count(path, '/') == |p|
  {
    if MatchesWhole(p, path) {
      if |p| > 0 {
        assert Count(path, '/') == 1 + Count(path[1..], '/');
      }
    } else {
      var q := path[..|path| - 1];
      assert path == q + "\n";
      CountAppend(q, "\n", '/');
      if |p| > 0 {
        assert Count(q, '/') == 1 + Count(q[1..], '/');
      }
    }
  }

  /** A path and the same path with a `/` appended are never both accepted. */
  lemma TrailingSlashIsDistinct(p: Pattern, path: string)
    ensures !(Matches(p, path) && Matches(p, path + "/"))
  {
    if Matches(p, path) && Matches(p, path + "/") {
      MatchSlashCount(p, path);
      MatchSlashCount(p, path + "/");
      CountAppend(path, "/", '/');
    }
  }

  /** `/` followed by slash-free pieces joined with `/` matches exactly when each piece is
      accepted by its segment. */
  lemma MatchesJoin(p: Pattern, parts: seq<string>)
    requires |parts| == |p| >= 1
    requires forall i :: 0 <= i < |parts| ==> '/' !in parts[i]
    ensures MatchesWhole(p, "/" + Join(parts, '/')) <==>
            forall i :: 0 <= i < |p| ==> Accepts(p[i], parts[i])
  {
    var path := "/" + Join(parts, '/');
    assert path[1..] == Join(parts, '/');
    SplitJoin(parts, '/');
  }

  /** Conversely, every path the pattern accepts in full is `/` followed by slash-free pieces,
      one per segment and each accepted by its segment, joined with `/`. */
  lemma MatchedPathIsJoin(p: Pattern, path: string)
    requires |p| > 0 && MatchesWhole(p, path)
    ensures exists parts :: && |parts| == |p|
                            && path == "/" + Join(parts, '/')
                            && (forall i :: 0 <= i < |parts| ==> '/' !in parts[i])
                            && (forall i :: 0 <= i < |p| ==> Accepts(p[i], parts[i]))
  {
    var parts := Split(path[1..], '/');
    JoinSplit(path[1..], '/');
    assert path == [path[0]] + path[1..];
    assert path == "/" + Join(parts, '/');
  }

  /** The pattern of the root declaration accepts the empty path, and also a lone newline
      through `$`, but not `/`. */
  lemma RootMatches(path: string)
    ensures Matches([], path) <==> path == "" || path == "\n"
  {
    if |path| > 0 && path[|path| - 1] == '\n' && path[..|path| - 1] == "" {
      assert path == "\n";
    }
  }
}
