/** The request-bin store of the example service (example/modules/store.ts).

    A store maps a request path to a bin; a bin holds the requests recorded
    for that path, oldest first. `RecordRequest` appends a request to the bin
    of its path, creating the bin when the path is new. `ReapStore` drops the
    requests that have outlived the time-to-live and deletes the bins left
    empty. Timestamps are integers (milliseconds) and the clock reading is a
    parameter `now`. */
module RequestStore {

  /** One recorded HTTP request. */
  datatype RequestData = RequestData(
    pathname: string,
    query: string,
    headers: map<string, string>,
    httpMethod: string,
    body: string,
    createdAt: int)

  /** The largest magnitude of an ECMAScript time value in milliseconds:
      100,000,000 days either side of the epoch. */
  const MaxTimeValue: int := 8_640_000_000_000_000

  /** `new Date(t)` is a valid date, so `toISOString()` does not throw. */
  predicate InDateRange(t: int)
  {
    -MaxTimeValue <= t <= MaxTimeValue
  }

  /** A request is kept by a reap whose expiry time lies strictly before its creation. */
  predicate Alive(r: RequestData, expireTime: int)
  {
    expireTime < r.createdAt
  }

  /** `requests.filter(request => expireTime < request.created_at)`. */
  function Unexpired(rs: seq<RequestData>, expireTime: int): (kept: seq<RequestData>)
    ensures |kept| <= |rs|
    ensures forall r :: r in kept <==> r in rs && Alive(r, expireTime)
    decreases |rs|
  {
    if rs == [] then []
    else
      var n := |rs| - 1;
      Unexpired(rs[..n], expireTime) + if Alive(rs[n], expireTime) then [rs[n]] else []
  }

  /** The filter keeps relative order: filtering a concatenation filters each part. */
  lemma {:induction false} UnexpiredAppend(a: seq<RequestData>, b: seq<RequestData>, expireTime: int)
    ensures Unexpired(a + b, expireTime) == Unexpired(a, expireTime) + Unexpired(b, expireTime)
    decreases |b|
  {
    if b == [] {
      assert a + b == a;
    } else {
      var n := |b| - 1;
      assert (a + b)[..|a + b| - 1] == a + b[..n];
      UnexpiredAppend(a, b[..n], expireTime);
    }
  }

  /** The filter leaves a list unchanged exactly when every request in it is alive. */
  lemma {:induction false} UnexpiredKeepsAll(rs: seq<RequestData>, expireTime: int)
    ensures Unexpired(rs, expireTime) == rs <==> forall r :: r in rs ==> Alive(r, expireTime)
    decreases |rs|
  {
    if rs != [] {
      var n := |rs| - 1;
      var init, last := rs[..n], rs[n];
      assert rs == init + [last];
      assert forall r :: r in rs ==> r in init || r == last;
      UnexpiredKeepsAll(init, expireTime);
      var kept := Unexpired(init, expireTime);
      if Unexpired(rs, expireTime) == rs {
        assert |kept| <= n;
        assert Alive(last, expireTime);
        assert kept + [last] == init + [last];
        assert kept == (kept + [last])[..n];
      }
    }
  }

  /** Filtering twice with the same expiry time is filtering once. */
  lemma UnexpiredIdempotent(rs: seq<RequestData>, expireTime: int)
    ensures Unexpired(Unexpired(rs, expireTime), expireTime) == Unexpired(rs, expireTime)
  {
    UnexpiredKeepsAll(Unexpired(rs, expireTime), expireTime);
  }

  /** The store's contents after `recordRequest(store, r)`, as a map from path to requests. */
  function Recorded(m: map<string, seq<RequestData>>, r: RequestData): map<string, seq<RequestData>>
  {
    m[r.pathname := (if r.pathname in m then m[r.pathname] else []) + [r]]
  }

  /** The store's contents after a reap with the given expiry time: each bin's
      unexpired requests, and no bin whose requests all expired. */
  function Reaped(m: map<string, seq<RequestData>>, expireTime: int): map<string, seq<RequestData>>
  {
    map p | p in m && |Unexpired(m[p], expireTime)| > 0 :: Unexpired(m[p], expireTime)
  }

  /** Recording a request: its path is present, its list ends with it and
      otherwise keeps its previous requests in order, and no other path changes. */
  lemma RecordedAppends(m: map<string, seq<RequestData>>, r: RequestData)
    ensures var m' := Recorded(m, r);
            && m'.Keys == m.Keys + {r.pathname}
            && |m'[r.pathname]| >= 1 && m'[r.pathname][|m'[r.pathname]| - 1] == r
            && m'[r.pathname][..|m'[r.pathname]| - 1] == (if r.pathname in m then m[r.pathname] else [])
            && forall p :: p in m && p != r.pathname ==> m'[p] == m[p]
  {
  }

  /** After a reap every remaining request is alive, no bin is empty, and no
      path appears that was not there before. */
  lemma ReapedIsClean(m: map<string, seq<RequestData>>, expireTime: int)
    ensures var m' := Reaped(m, expireTime);
            && m'.Keys <= m.Keys
            && (forall p :: p in m' ==> m'[p] != [])
            && (forall p, r :: p in m' && r in m'[p] ==> Alive(r, expireTime))
  {
  }

  /** A reap keeps exactly the paths that still hold an unexpired request,
      and for each exactly its unexpired requests, in their original order. */
  lemma ReapedKeepsAlive(m: map<string, seq<RequestData>>, expireTime: int)
    ensures var m' := Reaped(m, expireTime);
            && (forall p :: p in m' <==> p in m && exists r :: r in m[p] && Alive(r, expireTime))
            && (forall p :: p in m' ==> m'[p] == Unexpired(m[p], expireTime))
  {
    var m' := Reaped(m, expireTime);
    forall p | p in m && (exists r :: r in m[p] && Alive(r, expireTime)) ensures p in m' {
      var r :| r in m[p] && Alive(r, expireTime);
      assert r in Unexpired(m[p], expireTime);
    }
    forall p | p in m' ensures exists r :: r in m[p] && Alive(r, expireTime) {
      assert Unexpired(m[p], expireTime)[0] in Unexpired(m[p], expireTime);
    }
  }

  /** Reaping twice with the same clock reading and time-to-live is reaping once. */
  lemma ReapIdempotent(m: map<string, seq<RequestData>>, expireTime: int)
    ensures Reaped(Reaped(m, expireTime), expireTime) == Reaped(m, expireTime)
  {
    var once := Reaped(m, expireTime);
    forall p | p in once ensures Unexpired(once[p], expireTime) == once[p] {
      UnexpiredIdempotent(m[p], expireTime);
    }
    assert Reaped(once, expireTime) == once;
  }

  /** A request recorded while still alive survives the next reap, at the end
      of its path's list. */
  lemma RecordedAliveSurvivesReap(m: map<string, seq<RequestData>>, r: RequestData, expireTime: int)
    requires Alive(r, expireTime)
    ensures var m' := Reaped(Recorded(m, r), expireTime);
            var before := if r.pathname in m then m[r.pathname] else [];
            r.pathname in m' && m'[r.pathname] == Unexpired(before, expireTime) + [r]
  {
  }

  /** A bin: the requests recorded for one path, oldest first. */
  class RequestBin {
    const url: string
    var requests: seq<RequestData>
    const updatedAt: int  // set when the bin is created, never updated

    constructor (url: string, updatedAt: int)
      ensures this.url == url && this.updatedAt == updatedAt && requests == []
    {
      this.url := url;
      this.updatedAt := updatedAt;
      requests := [];
    }
  }

  class Store {
    var bins: map<string, RequestBin>

    /** Every bin sits under its own url (which also makes the bins distinct). */
    ghost predicate Valid()
      reads this
    {
      forall p :: p in bins ==> bins[p].url == p
    }

    /** The requests of each path. */
    ghost function Contents(): map<string, seq<RequestData>>
      reads this, bins.Values
    {
      RequestsOf(bins)
    }

    /** The empty store the `store` state starts with. */
    constructor ()
      ensures Valid() && bins == map[] && Contents() == map[]
    {
      bins := map[];
    }

    /** `recordRequest`: create the bin of the request's path if it is missing
        (its url the path, stamped `now`), then append the request to it. */
    method RecordRequest(request: RequestData, now: int)
      requires Valid()
      modifies this, if request.pathname in bins then {bins[request.pathname]} else {}
      ensures Valid()
      ensures request.pathname in bins
      ensures var bin := bins[request.pathname];
              if request.pathname in old(bins) then
                && bins == old(bins)
                && bin.requests == old(bin.requests) + [request]
              else
                && fresh(bin)
                && bins == old(bins)[request.pathname := bin]
                && bin.url == request.pathname && bin.updatedAt == now && bin.requests == [request]
      ensures Contents() == Recorded(old(Contents()), request)
    {
      var path := request.pathname;
      if path !in bins {
        var bin := new RequestBin(path, now);
        bins := bins[path := bin];
      }
      var bin := bins[path];
      bin.requests := bin.requests + [request];
      assert Contents() == Recorded(old(Contents()), request) by {
        forall p | p in bins && p != path ensures bins[p].requests == old(bins[p].requests) {
          assert bins[p] != bin;
        }
      }
    }

    /** `reapStore`: with expiry time `now - timeToLive`, visit every path of
        the store, keep the unexpired requests of its bin and delete the bin
        if none is left. An expiry time outside the `Date` range makes the
        log message's `toISOString()` throw a `RangeError` (`ok` false)
        before any bin is visited, and the store stays as it was. */
    method ReapStore(timeToLive: int, now: int) returns (ok: bool)
      requires Valid()
      modifies this, bins.Values
      ensures Valid()
      ensures ok <==> InDateRange(now - timeToLive)
      ensures forall p :: p in bins ==> p in old(bins) && bins[p] == old(bins[p])
      ensures !ok ==> bins == old(bins) && Contents() == old(Contents())
      ensures ok ==> Contents() == Reaped(old(Contents()), now - timeToLive)
    {
      if !InDateRange(now - timeToLive) {
        return false;
      }
      ghost var original := bins;
      ghost var before := Contents();
      var pending := bins.Keys;
      while pending != {}
        invariant forall p :: p in bins ==> p in original && bins[p] == original[p]
        invariant Reaping(before, pending, RequestsOf(original), bins.Keys, now - timeToLive)
        decreases |pending|
      {
        var path :| path in pending;
        ghost var view, present := RequestsOf(original), bins.Keys;
        ReapBin(path, timeToLive, now, original);
        ReapingStep(before, pending, view, present, path, timeToLive, now);
        pending := pending - {path};
      }
      ReapingDone(this, original, before, timeToLive, now);
      ok := true;
    }

    /** One iteration of `reapStore`: filter the bin of `path` and delete it if
        it became empty. */
    method ReapBin(path: string, timeToLive: int, now: int, ghost original: map<string, RequestBin>)
      requires path in bins && forall p :: p in bins ==> p in original && bins[p] == original[p]
      requires forall p :: p in original ==> original[p].url == p
      modifies this, original[path]
      ensures forall p :: p in bins ==> p in original && bins[p] == original[p]
      ensures var kept := Unexpired(old(original[path].requests), now - timeToLive);
              && RequestsOf(original) == old(RequestsOf(original))[path := kept]
              && bins.Keys == if |kept| == 0 then old(bins.Keys) - {path} else old(bins.Keys)
    {
      var bin := bins[path];
      bin.requests := Unexpired(bin.requests, now - timeToLive);
      if |bin.requests| == 0 {
        bins := bins - {path};
      }
      forall p | p in original && p != path
        ensures original[p].requests == old(original[p].requests)
      {
        assert original[p].url != bin.url;
      }
    }
  }

  /** The requests held by each bin of `bins`. */
  ghost function RequestsOf(bins: map<string, RequestBin>): map<string, seq<RequestData>>
    reads bins.Values
  {
    map p | p in bins :: bins[p].requests
  }

  /** The state of the loop of `reapStore`, over the contents `before` it
      started from, the requests `view` the bins now hold and the paths
      `present` in the store: a pending path still holds its requests; any
      other path holds its unexpired requests and remains exactly when some
      are left. */
  ghost predicate Reaping(before: map<string, seq<RequestData>>, pending: set<string>,
                          view: map<string, seq<RequestData>>, present: set<string>, expireTime: int)
  {
    && pending <= before.Keys
    && view.Keys == before.Keys
    && present <= before.Keys
    && (forall p :: p in before ==>
          && (p in pending ==> p in present && view[p] == before[p])
          && (p !in pending ==> (p in present <==> |Unexpired(before[p], expireTime)| > 0)
                                && view[p] == Unexpired(before[p], expireTime)))
  }

  /** Reaping one pending path keeps the loop state. */
  lemma ReapingStep(before: map<string, seq<RequestData>>, pending: set<string>,
                    view: map<string, seq<RequestData>>, present: set<string>,
                    path: string, timeToLive: int, now: int)
    requires Reaping(before, pending, view, present, now - timeToLive) && path in pending
    ensures var kept := Unexpired(view[path], now - timeToLive);
            Reaping(before, pending - {path}, view[path := kept],
                    if |kept| == 0 then present - {path} else present, now - timeToLive)
  {
  }

  /** When no path is pending, the store holds the reaped contents. */
  lemma ReapingDone(store: Store, original: map<string, RequestBin>,
                    before: map<string, seq<RequestData>>, timeToLive: int, now: int)
    requires forall p :: p in store.bins ==> p in original && store.bins[p] == original[p]
    requires forall p :: p in original ==> original[p].url == p
    requires Reaping(before, {}, RequestsOf(original), store.bins.Keys, now - timeToLive)
    ensures store.Valid()
    ensures store.Contents() == Reaped(before, now - timeToLive)
  {
  }
}
