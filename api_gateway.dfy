/**
 * The routing and throttling logic of src/core/api_gateway.py: the per-client request
 * counter of `RateLimiter`, the route table of `APIGateway` and the headers it
 * forwards to a backend.
 *
 * The key-value store is a map held by the limiter; key expiry after the window is
 * not modelled. The HTTP framework, the middleware stack, JWT checking and the
 * forwarding call itself are not modelled.
 */
module ApiGateway {
  import opened Wrappers

  // ---------------------------------------------------------------------------
  // RateLimiter.check_limit
  // ---------------------------------------------------------------------------

  const KeyPrefix: string := "rate_limit:"

  /** The store key of a client. */
  function CounterKey(clientId: string): string
  {
    KeyPrefix + clientId
  }

  /** Distinct clients never share a counter. */
  lemma CounterKeyInjective(a: string, b: string)
    ensures CounterKey(a) == CounterKey(b) ==> a == b
  {
    if CounterKey(a) == CounterKey(b) {
      assert a == CounterKey(a)[|KeyPrefix|..];
    }
  }

  /** One `check_limit` call on a store: whether the request is allowed, and the new store. */
  datatype Decision = Decision(allowed: bool, store: map<string, int>)

  function Check(store: map<string, int>, rateLimit: int, clientId: string): Decision
  {
    var key := CounterKey(clientId);
    if key !in store then Decision(true, store[key := rateLimit - 1])
    else if store[key] > 0 then Decision(true, store[key := store[key] - 1])
    else Decision(false, store)
  }

  /**
   * A client with no counter is allowed and gets `rate_limit - 1`; a positive counter
   * allows and is decremented by one; otherwise the request is refused and nothing
   * changes. No other key is touched.
   */
  lemma CheckCases(store: map<string, int>, rateLimit: int, clientId: string)
    ensures var d := Check(store, rateLimit, clientId); var key := CounterKey(clientId);
      && key in d.store
      && (key !in store ==> d.allowed && d.store[key] == rateLimit - 1)
      && (key in store && store[key] > 0 ==> d.allowed && d.store[key] == store[key] - 1)
      && (key in store && store[key] <= 0 ==> !d.allowed && d.store == store)
      && d.allowed == (key !in store || store[key] > 0)
      && forall k | k != key :: (k in d.store <==> k in store) && (k in store ==> d.store[k] == store[k])
  {
  }

  /** `n` calls in a row from one client: the answers and the final store. */
  function Calls(store: map<string, int>, rateLimit: int, clientId: string, n: nat): (r: (seq<bool>, map<string, int>))
    ensures |r.0| == n
  {
    if n == 0 then ([], store)
    else
      var before := Calls(store, rateLimit, clientId, n - 1);
      var d := Check(before.1, rateLimit, clientId);
      (before.0 + [d.allowed], d.store)
  }

  function Min(a: int, b: int): int
  {
    if a <= b then a else b
  }

  function Max(a: int, b: int): int
  {
    if a >= b then a else b
  }

  /**
   * Starting with no counter, exactly the first `max(rate_limit, 1)` calls are allowed
   * (the first call always is, even with a limit of zero or below), and the counter
   * ends at `rate_limit` minus the number allowed.
   */
  lemma {:induction false} CallsFromFresh(store: map<string, int>, rateLimit: int, clientId: string, n: nat)
    requires CounterKey(clientId) !in store && n >= 1
    ensures var r := Calls(store, rateLimit, clientId, n);
      && (forall i | 0 <= i < n :: r.0[i] <==> i < Max(rateLimit, 1))
      && CounterKey(clientId) in r.1
      && r.1[CounterKey(clientId)] == rateLimit - Min(n, Max(rateLimit, 1))
  {
    if n > 1 {
      CallsFromFresh(store, rateLimit, clientId, n - 1);
    }
  }

  /** However many calls a client makes, other clients' counters are unchanged. */
  lemma {:induction false} CallsFrame(store: map<string, int>, rateLimit: int, clientId: string, n: nat, other: string)
    requires other != clientId
    ensures var s := Calls(store, rateLimit, clientId, n).1;
      && (CounterKey(other) in s <==> CounterKey(other) in store)
      && (CounterKey(other) in store ==> s[CounterKey(other)] == store[CounterKey(other)])
  {
    CounterKeyInjective(clientId, other);
    if n > 0 {
      CallsFrame(store, rateLimit, clientId, n - 1, other);
    }
  }

  /** `RateLimiter`: the store it talks to and its limit. */
  class RateLimiter {
    var store: map<string, int>
    const rateLimit: int
    const window: int

    constructor (store: map<string, int>, rateLimit: int, window: int)
      ensures this.store == store && this.rateLimit == rateLimit && this.window == window
    {
      this.store := store;
      this.rateLimit := rateLimit;
      this.window := window;
    }

    /** `check_limit`: read the counter, then create, decrement or refuse. */
    method CheckLimit(clientId: string) returns (allowed: bool)
      modifies this
      ensures Decision(allowed, store) == Check(old(store), rateLimit, clientId)
    {
      var key := KeyPrefix + clientId;
      if key !in store {
        store := store[key := rateLimit - 1];
        return true;
      }
      var current := store[key];
      if current > 0 {
        store := store[key := current - 1];
        return true;
      }
      return false;
    }
  }

  // ---------------------------------------------------------------------------
  // APIGateway: routes and forwarded headers
  // ---------------------------------------------------------------------------

  /** The parts of the gateway configuration this logic reads. */
  datatype GatewayConfig = GatewayConfig(services: map<string, string>, version: Option<string>)

  /** A route table entry. */
  datatype Route = Route(service: string, methods: seq<string>, upstream: string)

  datatype Request = Request(path: string, headers: map<string, string>, clientHost: string)

  datatype GatewayError =
    | KeyError(key: string)    // a configuration key that is absent
    | HttpError(status: int)   // an `HTTPException`

  /** The request's headers as forwarded: credentials and host dropped, forwarding headers set. */
  function ForwardHeaders(headers: map<string, string>, clientHost: string, version: string): (h: map<string, string>)
    ensures "host" !in h && "authorization" !in h
    ensures "x-forwarded-for" in h && h["x-forwarded-for"] == clientHost
    ensures "x-api-version" in h && h["x-api-version"] == version
    ensures forall k | k !in {"host", "authorization", "x-forwarded-for", "x-api-version"} ::
      (k in h <==> k in headers) && (k in h ==> h[k] == headers[k])
  {
    (headers - {"host", "authorization"})["x-forwarded-for" := clientHost]["x-api-version" := version]
  }

  /** Preparing the headers of already-prepared headers changes nothing. */
  lemma ForwardHeadersIdempotent(headers: map<string, string>, clientHost: string, version: string)
    ensures var h := ForwardHeaders(headers, clientHost, version);
      ForwardHeaders(h, clientHost, version) == h
  {
    var h := ForwardHeaders(headers, clientHost, version);
    var h2 := ForwardHeaders(h, clientHost, version);
    assert forall k :: k in h2 <==> k in h;
  }

  class APIGateway {
    const config: GatewayConfig
    var routes: map<string, Route>

    constructor (config: GatewayConfig)
      ensures this.config == config && routes == map[]
    {
      this.config := config;
      routes := map[];
    }

    /**
     * `register_route`: the entry is built before it is stored, so an unknown service
     * raises and leaves the table as it was.
     */
    method RegisterRoute(path: string, service: string, methods: seq<string>) returns (r: Result<(), GatewayError>)
      modifies this
      ensures service in config.services <==> r.Ok?
      ensures r.Ok? ==> routes == old(routes)[path := Route(service, methods, config.services[service])]
      ensures r.Err? ==> r.error == KeyError(service) && routes == old(routes)
    {
      if service !in config.services {
        return Err(KeyError(service));
      }
      routes := routes[path := Route(service, methods, config.services[service])];
      return Ok(());
    }

    /** The lookup of `route_handler`: the upstream of a registered path, or 404. */
    function RouteHandler(path: string): (r: Result<string, GatewayError>)
      reads this
      ensures r.Ok? <==> path in routes
      ensures r.Ok? ==> r.value == routes[path].upstream
      ensures r.Err? ==> r.error == HttpError(404)
    {
      if path in routes then Ok(routes[path].upstream) else Err(HttpError(404))
    }

    /** `_prepare_forward_headers`: fails when the configuration has no version. */
    method PrepareForwardHeaders(request: Request) returns (r: Result<map<string, string>, GatewayError>)
      ensures config.version.None? ==> r == Err(KeyError("version"))
      ensures config.version.Some? ==> r == Ok(ForwardHeaders(request.headers, request.clientHost, config.version.value))
    {
      var headers := request.headers;
      headers := headers - {"host"};
      headers := headers - {"authorization"};
      headers := headers["x-forwarded-for" := request.clientHost];
      if config.version.None? {
        return Err(KeyError("version"));
      }
      headers := headers["x-api-version" := config.version.value];
      assert request.headers - {"host"} - {"authorization"} == request.headers - {"host", "authorization"};
      return Ok(headers);
    }
  }
}
