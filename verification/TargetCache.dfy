/** The agent's cache of its target list (internal/agent/targets.go) and the
    part of the client that feeds it (internal/agent/client.go). */
module TargetCache {
  import opened Clock
  import opened Wire
  import opened Client

  /** Target addresses by target id. */
  type Targets = map<string, string>

  /** lastFetched is None for Go's zero time. */
  datatype Cache = Cache(targets: Targets, knownVersion: int, lastFetched: Option<int>, expectedNotice: int)

  const EMPTY_CACHE: Cache := Cache(map[], 0, None, 0)

  predicate NeedsRefresh(c: Cache, maxAge: int, now: int) {
    || c.lastFetched.None?
    || (c.expectedNotice != 0 && c.expectedNotice != c.knownVersion)
    || (maxAge > 0 && now - c.lastFetched.value >= maxAge)
  }

  function Noticed(c: Cache, v: int): Cache {
    if v <= 0 then c else c.(expectedNotice := v)
  }

  function Refreshed(c: Cache, targets: Targets, version: int, now: int): Cache {
    Cache(targets, version, Some(now), version)
  }

  datatype Fetch = Fetched(targets: Targets, version: int, at: int) | FetchFailed

  class TargetCache {
    const maxAge: int
    var cache: Cache

    constructor (maxAge: int)
      ensures this.maxAge == maxAge && cache == EMPTY_CACHE
    {
      this.maxAge := maxAge;
      cache := EMPTY_CACHE;
    }

    method NoticeVersion(v: int)
      modifies this
      ensures cache == Noticed(old(cache), v)
      ensures cache == if v > 0 then old(cache).(expectedNotice := v) else old(cache)
    {
      if v <= 0 {
        return;
      }
      cache := cache.(expectedNotice := v);
    }

    /** `fetch` is what a fetch would bring, if this call makes one. */
    method Targets(now: int, fetch: Fetch) returns (targets: Targets, version: int, ok: bool)
      modifies this
      ensures ok == (!NeedsRefresh(old(cache), maxAge, now) || fetch.Fetched?)
      ensures cache == if NeedsRefresh(old(cache), maxAge, now) && fetch.Fetched?
                       then Refreshed(old(cache), fetch.targets, fetch.version, fetch.at)
                       else old(cache)
      // also after an error the list is the cached one
      ensures targets == cache.targets && version == cache.knownVersion
    {
      var needRefresh := cache.lastFetched.None?
        || (cache.expectedNotice != 0 && cache.expectedNotice != cache.knownVersion)
        || (maxAge > 0 && now - cache.lastFetched.value >= maxAge);
      if !needRefresh {
        return cache.targets, cache.knownVersion, true;
      }
      if fetch.FetchFailed? {
        return cache.targets, cache.knownVersion, false;
      }
      cache := Cache(fetch.targets, fetch.version, Some(fetch.at), fetch.version);
      return fetch.targets, fetch.version, true;
    }
  }

  /** What httpClient.Do brings back: a status and the targets_version of the
      body, or an error. A request that cannot be built is not sent. */
  datatype Response = Response(status: int, version: Option<int>) | NetworkError | BadRequest

  /** What the sender makes of it. */
  function Reading(resp: Response): Outcome {
    match resp
    case BadRequest => PermanentFail
    case NetworkError => TransientFail
    case Response(status, _) => OutcomeOf(status)
  }

  method Send(resp: Response, notifier: TargetCache) returns (o: Outcome)
    modifies notifier
    ensures o == Reading(resp)
    ensures resp.BadRequest? ==> o == PermanentFail
    ensures resp.NetworkError? ==> o == TransientFail
    ensures resp.Response? ==> o == OutcomeOf(resp.status)
    ensures notifier.cache == if o.Accepted? && resp.version.Some?
                              then Noticed(old(notifier.cache), resp.version.value)
                              else old(notifier.cache)
  {
    if resp.BadRequest? {
      return PermanentFail;
    }
    if resp.NetworkError? {
      return TransientFail;
    }
    if 200 <= resp.status < 300 || resp.status == CONFLICT {
      if resp.version.Some? && resp.version.value > 0 {
        notifier.NoticeVersion(resp.version.value);
      }
      return Accepted;
    }
    if 400 <= resp.status < 500 {
      return PermanentFail;
    }
    return TransientFail;
  }
}
