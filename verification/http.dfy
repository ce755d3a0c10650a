/** The value `Http\Response::new` builds (lib/Http/Response.php): a body, a status code and
    the response headers in insertion order. */
module Http {

  datatype Response = Response(body: string, status: int, headers: seq<(string, string)>)
}
