/**
 * `SXRouter`: a table from request paths to API handlers, filled by
 * `register` and consulted by `ApiLookup`.
 */
module Router {
  import opened Wrappers
  import Request
  import Response

  /** The connection a request arrived on; the socket library's connection type is not part of this model. */
  type Connection = nat

  /** An API handler: it may answer the request with a response, or with nil. */
  type Handler = (Request.HTTPRequest, Connection) -> Option<Response.HTTPResponse>

  /** The path a request is routed by: its uri, compared as exact text. */
  function PathOf(rq: Request.HTTPRequest): string
  {
    rq.uri
  }

  /** What a lookup over table `dict` returns: the handler's answer for the request's path, or nil without calling anything. */
  function Dispatch(dict: map<string, Handler>, rq: Request.HTTPRequest, connection: Connection): Option<Response.HTTPResponse>
  {
    if PathOf(rq) in dict then dict[PathOf(rq)](rq, connection) else None
  }

  class SXRouter {
    var dict: map<string, Handler>

    /** A router with no routes. */
    constructor ()
      ensures dict == map[]
    {
      dict := map[];
    }

    /** `register(path:for:)`: the path now leads to `handler`, replacing any earlier one; no other entry changes. */
    method Register(path: string, handler: Handler)
      modifies this
      ensures dict == old(dict)[path := handler]
      ensures path in dict && dict[path] == handler
      ensures forall p :: p != path ==> (p in dict <==> p in old(dict)) && (p in dict ==> dict[p] == old(dict)[p])
    {
      dict := dict[path := handler];
    }

    /** `ApiLookup(rq:connection:)` */
    method ApiLookup(rq: Request.HTTPRequest, connection: Connection) returns (r: Option<Response.HTTPResponse>)
      ensures r == Dispatch(dict, rq, connection)
    {
      if PathOf(rq) !in dict {
        return None;
      }
      var api := dict[PathOf(rq)];
      r := api(rq, connection);
    }
  }

  /** After registering `path`, a request for exactly that path gets the new handler's answer. */
  lemma DispatchRegistered(dict: map<string, Handler>, path: string, handler: Handler,
                           rq: Request.HTTPRequest, connection: Connection)
    requires PathOf(rq) == path
    ensures Dispatch(dict[path := handler], rq, connection) == handler(rq, connection)
  {
  }

  /** Registering `path` does not change what a request for any other path gets. */
  lemma DispatchOthers(dict: map<string, Handler>, path: string, handler: Handler,
                       rq: Request.HTTPRequest, connection: Connection)
    requires PathOf(rq) != path
    ensures Dispatch(dict[path := handler], rq, connection) == Dispatch(dict, rq, connection)
  {
  }

  /** Registering a path twice keeps only the second handler. */
  lemma RegisterReplaces(dict: map<string, Handler>, path: string, first: Handler, second: Handler)
    ensures dict[path := first][path := second] == dict[path := second]
  {
  }

  /** A path with no entry gets nil. */
  lemma DispatchMissing(dict: map<string, Handler>, rq: Request.HTTPRequest, connection: Connection)
    requires PathOf(rq) !in dict
    ensures Dispatch(dict, rq, connection) == None
  {
  }

  /** Paths are matched as exact text: a route for `/a` does not answer `/a/`. */
  lemma ExactMatch(handler: Handler, rq: Request.HTTPRequest, connection: Connection)
    requires rq.uri == "/a/"
    ensures Dispatch(map["/a" := handler], rq, connection) == None
  {
    assert "/a/" != "/a" by {
      assert |"/a/"| != |"/a"|;
    }
  }

  /** Registering a route and looking it up, in place on one router. */
  method RegisterThenLookup(router: SXRouter, rq: Request.HTTPRequest, connection: Connection, handler: Handler)
    returns (r: Option<Response.HTTPResponse>)
    modifies router
    ensures r == handler(rq, connection)
    ensures router.dict == old(router.dict)[PathOf(rq) := handler]
  {
    router.Register(PathOf(rq), handler);
    r := router.ApiLookup(rq, connection);
  }
}
