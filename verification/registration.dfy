/** `register` of globals/router.php: the function route files call to declare a route on
    the shared router. */
module Registration {
  import opened Results
  import opened RequestType
  import Router

  /** `register($type, $route, $callback, $function = '')`: hands its arguments unchanged to
      `add` on the shared router, whose table is passed in and returned here. The controller
      function name has no effect: the result is the one `add` gives with the default `''`. */
  function Register(table: Router.Table, t: Type, route: string, callback: string, func: string,
                    env: Router.Env): (r: Result<Router.Table>)
    ensures r == Router.Add(table, t, route, callback, "", env)
  {
    Router.Add(table, t, route, callback, func, env)
  }
}
