/** The request cache of the desktop app's service worker: the gate that decides which
    requests it proxies, the proxy that serves them from the `v1` cache store or the network,
    the offline fallback, and the message channel that clears the store or delivers the
    configuration. Network results are given to the proxy as a parameter. */
module ServiceWorker {
  import opened Strings

  /** The response classes of the Fetch standard (`Response.type`). */
  datatype ResponseType = Basic | Cors | Default | Error | Opaque | OpaqueRedirect

  /** A response, taken as an immutable value (its body is never consumed here). */
  datatype Response = Response(
    status: int,
    statusText: string,
    kind: ResponseType,
    headers: map<string, string>,
    body: string)

  /** The parts of an outgoing request the worker looks at; `origin` is the origin of the
      request's URL. */
  datatype Request = Request(verb: string, url: string, mode: string, origin: string)

  /** The identity under which the cache store files a request. */
  datatype RequestKey = RequestKey(verb: string, url: string)

  /** What the network gives back for a fetch: a response, or a failure to obtain one
      (the promise returned by `fetch` rejects). */
  datatype NetworkResult = Delivered(response: Response) | TransportFailure

  /** The settings value posted by the host; the worker never looks inside it. */
  datatype Config = Config(settings: string)

  /** A message posted to the worker: its `type` tag and its `config` field, if any. */
  datatype Message = Message(tag: string, config: Option<Config>)

  function KeyOf(req: Request): RequestKey {
    RequestKey(req.verb, req.url)
  }

  /** `Response.ok`: the status is in the range 200-299. */
  predicate IsOk(r: Response) {
    200 <= r.status <= 299
  }

  /** Responses the proxy stores: ok ones, and opaque ones (no-cors, status 0). */
  predicate Cacheable(r: Response) {
    IsOk(r) || r.kind == Opaque
  }

  /** Whether the worker takes over a request: only GET requests that are not navigations
      and go to an origin other than the worker's own. */
  predicate Intercepts(req: Request, workerOrigin: string) {
    !(req.verb != "GET" || req.mode == "navigate" || req.origin == workerOrigin)
  }

  /** The response the proxy substitutes when no network response could be obtained. */
  function Offline(): (r: Response)
    ensures r.status == 503 && r.statusText == "Service Unavailable" && !IsOk(r)
    ensures r.body == "Offline or network error occurred."
    ensures r.headers == map["Content-Type" := "text/plain"]
  {
    Response(503, "Service Unavailable", Default, map["Content-Type" := "text/plain"],
             "Offline or network error occurred.")
  }

  /** The outcome of one proxied request: the response handed to the page, the store
      afterwards, and whether the network was asked. */
  datatype FetchOutcome = FetchOutcome(response: Response, store: map<RequestKey, Response>, fetched: bool)

  /** The cache proxy on a store, a request key, what the network would deliver, and whether
      the store would reject the write (`cache.put` rejects, for instance, a partial response
      or a write over quota). */
  function FetchStep(store: map<RequestKey, Response>, key: RequestKey, net: NetworkResult,
                     putRejects: bool): (r: FetchOutcome)
    // a hit serves the stored response, without the network and without a write
    ensures key in store ==> r.response == store[key] && r.store == store && !r.fetched
    // a miss always goes to the network
    ensures key !in store ==> r.fetched
    // a delivered response is handed on as it is unless storing it fails
    ensures key !in store && net.Delivered? && (!Cacheable(net.response) || !putRejects) ==>
      r.response == net.response
    // it is stored exactly when cacheable and the write succeeds
    ensures key !in store && net.Delivered? && Cacheable(net.response) && !putRejects ==>
      key in r.store && r.store[key] == net.response
    ensures key !in store && net.Delivered? && (!Cacheable(net.response) || putRejects) ==>
      r.store == store
    // a transport failure or a rejected write yields the fixed 503 and writes nothing
    ensures key !in store && (net.TransportFailure? || (Cacheable(net.response) && putRejects)) ==>
      r.response == Offline() && r.store == store
    // every other entry is left as it was
    ensures forall k :: k != key ==> (k in r.store <==> k in store)
    ensures forall k :: k != key && k in store ==> r.store[k] == store[k]
  {
    if key in store then FetchOutcome(store[key], store, false)
    else match net
      case TransportFailure => FetchOutcome(Offline(), store, true)
      case Delivered(resp) =>
        if !Cacheable(resp) then FetchOutcome(resp, store, true)
        else if putRejects then FetchOutcome(Offline(), store, true)
        else FetchOutcome(resp, store[key := resp], true)
  }

  /** The store invariant: only cacheable responses are ever filed. */
  ghost predicate OnlyCacheable(store: map<RequestKey, Response>) {
    forall k :: k in store ==> Cacheable(store[k])
  }

  /** The proxy keeps the store invariant. */
  lemma FetchStepKeepsOnlyCacheable(store: map<RequestKey, Response>, key: RequestKey, net: NetworkResult,
                                    putRejects: bool)
    requires OnlyCacheable(store)
    ensures OnlyCacheable(FetchStep(store, key, net, putRejects).store)
  {
  }

  /** A request answered from the network and stored is then answered from the store, with the
      same response and no second fetch. */
  lemma MissThenHit(store: map<RequestKey, Response>, key: RequestKey, net: NetworkResult, net2: NetworkResult,
                    putRejects2: bool)
    requires key !in store && net.Delivered? && Cacheable(net.response)
    ensures var first := FetchStep(store, key, net, false);
      var second := FetchStep(first.store, key, net2, putRejects2);
      second.response == first.response && !second.fetched && second.store == first.store
  {
  }

  /** A response that is not cacheable, or whose write was rejected, is never served from the
      store: asking again goes to the network again. */
  lemma NotCacheableRefetched(store: map<RequestKey, Response>, key: RequestKey, net: NetworkResult,
                              putRejects: bool, net2: NetworkResult, putRejects2: bool)
    requires key !in store && (net.TransportFailure? || !Cacheable(net.response) || putRejects)
    ensures FetchStep(FetchStep(store, key, net, putRejects).store, key, net2, putRejects2).fetched
  {
  }

  /** After the store is emptied, every request goes to the network again. */
  lemma ClearedStoreMisses(key: RequestKey, net: NetworkResult, putRejects: bool)
    ensures FetchStep(map[], key, net, putRejects).fetched
    ensures net.Delivered? && !putRejects ==> FetchStep(map[], key, net, putRejects).response == net.response
  {
  }

  /** The service worker's state: the `v1` cache store and the configuration cell
      (`deferredConfig`, whose promise is taken as resolved once `configResolved` holds). */
  class CacheWorker {
    const origin: string
    var store: map<RequestKey, Response>
    var configResolved: bool
    var configValue: Option<Config>

    ghost predicate Valid()
      reads this
    {
      OnlyCacheable(store)
    }

    /** A started worker: the `v1` store as it persists from earlier runs of the worker (empty
        on a first install), and a configuration that has not arrived (`value: null`). */
    constructor (origin: string, store: map<RequestKey, Response>)
      requires OnlyCacheable(store)
      ensures Valid()
      ensures this.origin == origin && this.store == store && !configResolved && configValue == None
    {
      this.origin := origin;
      this.store := store;
      configResolved := false;
      configValue := None;
    }

    /** `clearCache`: delete every key of the store, one at a time. */
    method ClearCache()
      requires Valid()
      modifies this
      ensures Valid()
      ensures store == map[]
      ensures configResolved == old(configResolved) && configValue == old(configValue)
    {
      var keys := store.Keys;
      while keys != {}
        invariant store.Keys == keys
        invariant Valid()
        invariant configResolved == old(configResolved) && configValue == old(configValue)
        decreases keys
      {
        var k :| k in keys;
        store := map k' | k' in store && k' != k :: store[k'];
        keys := keys - {k};
      }
    }

    /** `handleFetch`: the cache proxy. It waits for the configuration, so it is only
        entered once the configuration has resolved. The write to the store and the fetch sit
        in one `try`, so a rejected write ends in the 503 as a failed fetch does. */
    method HandleFetch(req: Request, net: NetworkResult, putRejects: bool) returns (resp: Response, fetched: bool)
      requires Valid() && configResolved
      modifies this
      ensures Valid()
      ensures FetchOutcome(resp, store, fetched) == FetchStep(old(store), KeyOf(req), net, putRejects)
      ensures configResolved == old(configResolved) && configValue == old(configValue)
    {
      var key := KeyOf(req);
      if key in store {
        return store[key], false;
      }
      fetched := true;
      match net {
        case TransportFailure =>
          resp := Offline();
        case Delivered(networkResponse) =>
          if IsOk(networkResponse) || networkResponse.kind == Opaque {
            if putRejects {
              return Offline(), true;
            }
            store := store[key := networkResponse];
          }
          resp := networkResponse;
      }
    }

    /** The `fetch` event listener: `None` leaves the request to the browser's default
        handling; otherwise the proxy's response is the answer. */
    method OnFetch(req: Request, net: NetworkResult, putRejects: bool) returns (answer: Option<Response>, fetched: bool)
      requires Valid()
      requires Intercepts(req, origin) ==> configResolved
      modifies this
      ensures Valid()
      ensures !Intercepts(req, origin) ==> answer == None && !fetched && store == old(store)
      ensures Intercepts(req, origin) ==>
        var r := FetchStep(old(store), KeyOf(req), net, putRejects);
        answer == Some(r.response) && fetched == r.fetched && store == r.store
      ensures configResolved == old(configResolved) && configValue == old(configValue)
    {
      if req.verb != "GET" || req.mode == "navigate" || req.origin == origin {
        return None, false;
      }
      var resp;
      resp, fetched := HandleFetch(req, net, putRejects);
      answer := Some(resp);
    }

    /** The `message` event listener. */
    method OnMessage(msg: Message)
      requires Valid()
      modifies this
      ensures Valid()
      ensures msg.tag == "CLEAR_CACHE" ==>
        store == map[] && configResolved == old(configResolved) && configValue == old(configValue)
      ensures msg.tag == "SET_CONFIG" ==>
        store == old(store) && configResolved && configValue == msg.config
      ensures msg.tag != "CLEAR_CACHE" && msg.tag != "SET_CONFIG" ==>
        store == old(store) && configResolved == old(configResolved) && configValue == old(configValue)
    {
      if msg.tag == "CLEAR_CACHE" {
        ClearCache();
      } else if msg.tag == "SET_CONFIG" {
        configValue := msg.config;
        configResolved := true;
      }
    }
  }

  /** A client run: the store is populated by an ok response, served from the store without
      the network, emptied by `CLEAR_CACHE`, and the network is asked again afterwards. */
  method ClearCacheScenario(w: CacheWorker, req: Request, resp: Response, net: NetworkResult)
    requires w.Valid() && Intercepts(req, w.origin) && KeyOf(req) !in w.store
    requires IsOk(resp)
    modifies w
  {
    w.OnMessage(Message("SET_CONFIG", Some(Config("{}"))));
    var answer, fetched := w.OnFetch(req, Delivered(resp), false);
    assert answer == Some(resp) && fetched && w.store[KeyOf(req)] == resp;
    answer, fetched := w.OnFetch(req, net, false);
    assert answer == Some(resp) && !fetched;
    w.OnMessage(Message("CLEAR_CACHE", None));
    answer, fetched := w.OnFetch(req, net, false);
    assert fetched;
  }
}
