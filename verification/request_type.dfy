/** The `Type` enum of globals/router.php: the closed set of request methods a route can be
    registered for. It is a string-backed enum whose backing values equal the case names. */
module RequestType {
  import opened Results

  datatype Type = GET | POST | DELETE | PUT | PATCH

  /** The cases in declaration order (`Type::cases()`). */
  const Cases: seq<Type> := [GET, POST, DELETE, PUT, PATCH]

  /** `$type->name`: the case name, which the route table uses as its inner key. */
  function Name(t: Type): string
  {
    match t
    case GET => "GET"
    case POST => "POST"
    case DELETE => "DELETE"
    case PUT => "PUT"
    case PATCH => "PATCH"
  }

  /** `$type->value`: the backing string of the case. */
  function Value(t: Type): string
  {
    match t
    case GET => "GET"
    case POST => "POST"
    case DELETE => "DELETE"
    case PUT => "PUT"
    case PATCH => "PATCH"
  }

  /** `Type::tryFrom($s)`: the case whose backing value is exactly `s`, or null. */
  function TryFrom(s: string): (r: Option<Type>)
    ensures forall t :: r == Some(t) <==> s == Value(t)
  {
    if s == "GET" then Some(GET)
    else if s == "POST" then Some(POST)
    else if s == "DELETE" then Some(DELETE)
    else if s == "PUT" then Some(PUT)
    else if s == "PATCH" then Some(PATCH)
    else None
  }

  /** The enum has exactly the five cases, each listed once. */
  lemma CasesAreTheFiveMethods()
    ensures |Cases| == 5
    ensures forall t :: t in Cases
    ensures forall i, j :: 0 <= i < j < |Cases| ==> Cases[i] != Cases[j]
  {
    forall t ensures t in Cases {
      match t
      case GET => assert Cases[0] == t;
      case POST => assert Cases[1] == t;
      case DELETE => assert Cases[2] == t;
      case PUT => assert Cases[3] == t;
      case PATCH => assert Cases[4] == t;
    }
  }

  /** Each case's backing value is its name, so the table key `$type->name` equals the string
      `tryFrom` reads. */
  lemma NameIsBackingValue(t: Type)
    ensures Name(t) == Value(t)
    ensures TryFrom(Name(t)) == Some(t)
  {
  }

  /** `tryFrom` is defined exactly on the five upper-case method names. */
  lemma TryFromDomain(s: string)
    ensures TryFrom(s).Some? <==> s in {"GET", "POST", "DELETE", "PUT", "PATCH"}
  {
    if s in {"GET", "POST", "DELETE", "PUT", "PATCH"} {
      assert s == Value(GET) || s == Value(POST) || s == Value(DELETE) || s == Value(PUT) || s == Value(PATCH);
    }
  }
}
