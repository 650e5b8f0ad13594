/**
 * Model of the route table of app.js: the observable status and body of each
 * request, as a pure function of the request line and the clock reading.
 */
module Routes {
  import opened EmailValidation

  /**
   * The request methods. `Get` is the only one the route table binds; the
   * framework itself answers `Options` on a bound path.
   */
  datatype Method = Get | Post | Put | Patch | Delete | Options

  /** One record of the in-memory user list. */
  datatype User = User(id: int, name: string, email: string)

  /** What a response carries, standing for the JSON or file the framework writes. */
  datatype Body =
    | Page                                                        // the static entry page
    | Health(status: string, timestamp: string, version: string)  // the health report
    | Users(users: seq<User>)                                     // the user list, in order
    | Allowed(methods: string)                                    // the framework's OPTIONS answer
    | NotFound                                                    // the framework's fall-through

  datatype Response = Response(status: nat, body: Body)

  /** The users the `/api/users` handler builds on every request, in this order. */
  const UserList: seq<User> := [
    User(1, "João Silva", "joao@exemplo.com"),
    User(2, "Maria Santos", "maria@exemplo.com"),
    User(3, "Pedro Costa", "pedro@exemplo.com")
  ]

  /** The paths the table binds for `GET`. */
  const RoutePaths: set<string> := {"/", "/api/health", "/api/users"}

  /** The methods the framework lists for a path bound only for `GET`. */
  const GetRouteMethods: string := "GET,HEAD"

  /**
   * The response to `method path`, where `now` is the ISO 8601 reading of the
   * clock taken when the health report is built.
   */
  function Dispatch(m: Method, path: string, now: string): (r: Response)
    ensures r.status == 200 || r.status == 404
    ensures r.status == 404 <==> r.body == NotFound
    ensures r.body.Health? ==> r.body.timestamp == now
    ensures r.body.Allowed? <==> m == Options && path in RoutePaths
  {
    if m == Options && path in RoutePaths then Response(200, Allowed(GetRouteMethods))
    else if m != Get then Response(404, NotFound)
    else if path == "/" then Response(200, Page)
    else if path == "/api/health" then Response(200, Health("OK", now, "1.0.0"))
    else if path == "/api/users" then Response(200, Users(UserList))
    else Response(404, NotFound)
  }

  /** `GET /` answers 200 with the entry page. */
  lemma RootServesPage(now: string)
    ensures Dispatch(Get, "/", now) == Response(200, Page)
  {
  }

  /** `GET /api/health` answers 200 with status "OK", version "1.0.0" and the clock reading. */
  lemma HealthReport(now: string)
    ensures Dispatch(Get, "/api/health", now).status == 200
    ensures Dispatch(Get, "/api/health", now).body == Health("OK", now, "1.0.0")
  {
  }

  /**
   * `GET /api/users` answers 200 with exactly three users, ids 1, 2, 3 in that
   * order, ids pairwise distinct, every name and email non-empty.
   */
  lemma UsersListing(now: string)
    ensures Dispatch(Get, "/api/users", now).status == 200
    ensures Dispatch(Get, "/api/users", now).body.Users?
    ensures var us := Dispatch(Get, "/api/users", now).body.users;
      |us| == 3 && us[0].id == 1 && us[1].id == 2 && us[2].id == 3
      && (forall i, j :: 0 <= i < j < |us| ==> us[i].id != us[j].id)
      && (forall i :: 0 <= i < |us| ==> |us[i].name| > 0 && |us[i].email| > 0)
  {
  }

  /** Every listed email passes `validarEmail`. */
  lemma UserEmailsValid()
    ensures forall u :: u in UserList ==> ValidarEmail(u.email)
  {
    {
      var s := "joao@exemplo.com";
      assert Scan(Domain, s, 12) == Complete;
      assert Scan(Domain, s, 6) == Scan(Domain, s, 12);
      assert Scan(Start, s, 0) == Scan(Domain, s, 6);
    }
    {
      var s := "maria@exemplo.com";
      assert Scan(Domain, s, 12) == Complete;
      assert Scan(AfterAt, s, 6) == Scan(Domain, s, 12);
      assert Scan(Start, s, 0) == Scan(AfterAt, s, 6);
    }
    {
      var s := "pedro@exemplo.com";
      assert Scan(Domain, s, 12) == Complete;
      assert Scan(AfterAt, s, 6) == Scan(Domain, s, 12);
      assert Scan(Start, s, 0) == Scan(AfterAt, s, 6);
    }
  }

  /**
   * Exactly `GET` and `OPTIONS` of the three bound paths answer 200; every
   * other request falls through to 404.
   */
  lemma NotFoundIffUnrouted(m: Method, path: string, now: string)
    ensures Dispatch(m, path, now).status == 404 <==> !((m == Get || m == Options) && path in RoutePaths)
    ensures Dispatch(m, path, now).status == 200 <==> (m == Get || m == Options) && path in RoutePaths
  {
  }

  /** `OPTIONS` of a bound path answers 200 listing `GET` and `HEAD`, whatever the clock reads. */
  lemma OptionsListsGetAndHead(path: string, now: string)
    requires path in RoutePaths
    ensures Dispatch(Options, path, now) == Response(200, Allowed("GET,HEAD"))
  {
  }

  /** The request the unit tests send to an unbound path. */
  lemma UnknownRouteNotFound(now: string)
    ensures Dispatch(Get, "/api/rota-inexistente", now) == Response(404, NotFound)
  {
  }

  /** The response with the clock reading blanked out. */
  function WithoutTimestamp(r: Response): (erased: Response) {
    match r.body
    case Health(status, _, version) => Response(r.status, Health(status, "", version))
    case _ => r
  }

  /**
   * Repeating a request gives the same response up to the health report's
   * timestamp, and only the health route reads the clock at all.
   */
  lemma ClockOnlyInTimestamp(m: Method, path: string, now1: string, now2: string)
    ensures WithoutTimestamp(Dispatch(m, path, now1)) == WithoutTimestamp(Dispatch(m, path, now2))
    ensures !(m == Get && path == "/api/health") ==> Dispatch(m, path, now1) == Dispatch(m, path, now2)
  {
  }
}
