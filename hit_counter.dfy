/**
 * src/hit_counter.js: per-path hit and visitor counters kept in Redis
 * hashes, and the in-memory table of when each visitor last came, which
 * decides whether a hit is a new visitor.
 *
 * The Redis server's hashes are the `hashes` field; the clock is the
 * `now` parameter of `Count`; whether the client is connected is a field
 * the Redis client sets, here given to the constructor.
 */
module HitCounting {
  import opened Wrappers

  /** The parts of an HTTP request the counter reads: the `x-forwarded-for` header and the socket's address. */
  datatype Request = Request(forwardedFor: Option<string>, remoteAddress: string)

  /** `req.headers['x-forwarded-for'] || req.connection.remoteAddress`: an empty header does not count. */
  function ClientIp(req: Request): (ip: string)
    ensures req.forwardedFor.Some? && req.forwardedFor.value != [] ==> ip == req.forwardedFor.value
    ensures req.forwardedFor.None? || req.forwardedFor.value == [] ==> ip == req.remoteAddress
  {
    match req.forwardedFor
    case Some(header) => if header != [] then header else req.remoteAddress
    case None => req.remoteAddress
  }

  /** `path + ':' + ip`. */
  function VisitorKey(path: string, req: Request): string {
    path + ":" + ClientIp(req)
  }

  /** `visitors[key] || 0`: when the visitor was last seen, 0 for never. */
  function LastSeen(visitors: map<string, int>, key: string): int {
    if key in visitors then visitors[key] else 0
  }

  /** `(now - (visitors[key] || 0)) > unique_visitor_timeout`. */
  predicate IsNewVisitor(visitors: map<string, int>, key: string, now: int, timeout: int) {
    now - LastSeen(visitors, key) > timeout
  }

  /** A Redis hash field, as `hgetall` then `value.f || 0` reads it: 0 when the hash or the field is missing. */
  function Field(hashes: map<string, map<string, int>>, path: string, field: string): int {
    if path in hashes && field in hashes[path] then hashes[path][field] else 0
  }

  /** `hincrby(path, field, n)`: a missing hash or field starts at 0. */
  function HIncrBy(hashes: map<string, map<string, int>>, path: string, field: string, n: int): (r: map<string, map<string, int>>)
    ensures Field(r, path, field) == Field(hashes, path, field) + n
    ensures forall p, f :: (p != path || f != field) ==> Field(r, p, f) == Field(hashes, p, f)
    ensures r.Keys == hashes.Keys + {path}
  {
    var h := if path in hashes then hashes[path] else map[];
    hashes[path := h[field := Field(hashes, path, field) + n]]
  }

  /** The `multi()` transaction of one counted request: `h` by 1, `v` by 1 for a new visitor and by 0 otherwise. */
  function Counted(hashes: map<string, map<string, int>>, path: string, newVisitor: bool): map<string, map<string, int>> {
    HIncrBy(HIncrBy(hashes, path, "h", 1), path, "v", if newVisitor then 1 else 0)
  }

  /** Every counted request adds a hit; it adds a visitor exactly when it is a new one; nothing else moves. */
  lemma {:induction false} CountedIncrements(hashes: map<string, map<string, int>>, path: string, newVisitor: bool)
    ensures Field(Counted(hashes, path, newVisitor), path, "h") == Field(hashes, path, "h") + 1
    ensures Field(Counted(hashes, path, newVisitor), path, "v") == Field(hashes, path, "v") + (if newVisitor then 1 else 0)
    ensures forall p, f :: (p != path || (f != "h" && f != "v")) ==> Field(Counted(hashes, path, newVisitor), p, f) == Field(hashes, p, f)
  {
    var once := HIncrBy(hashes, path, "h", 1);
    assert "h" != "v" by {
      assert "h"[0] != "v"[0];
    }
    assert Field(once, path, "v") == Field(hashes, path, "v");
  }

  /** A visitor never seen is new exactly when the clock is past the timeout. */
  lemma {:induction false} FirstVisit(visitors: map<string, int>, key: string, now: int, timeout: int)
    requires key !in visitors
    ensures IsNewVisitor(visitors, key, now, timeout) <==> now > timeout
  {
  }

  /** After a visit at `at`, the same visitor is new again exactly when more than `timeout` has passed. */
  lemma {:induction false} RepeatVisit(visitors: map<string, int>, key: string, at: int, now: int, timeout: int)
    ensures IsNewVisitor(visitors[key := at], key, now, timeout) <==> now - at > timeout
  {
  }

  /** Another visitor's, or another path's, visit does not change whether this one is new. */
  lemma {:induction false} OtherVisitor(visitors: map<string, int>, key: string, other: string, at: int, now: int, timeout: int)
    requires other != key
    ensures IsNewVisitor(visitors[other := at], key, now, timeout) == IsNewVisitor(visitors, key, now, timeout)
  {
  }

  /** A key starts with its path, up to the first `:` when the path has none. */
  lemma {:induction false} KeyStartsWithPath(path: string, req: Request)
    requires ':' !in path
    ensures var key := VisitorKey(path, req);
      |path| < |key| && key[|path|] == ':' && key[..|path|] == path
      && forall i :: 0 <= i < |path| ==> key[i] != ':'
  {
    var key := VisitorKey(path, req);
    assert key == path + (":" + ClientIp(req));
    forall i | 0 <= i < |path| ensures key[i] != ':' {
      assert key[i] == path[i];
    }
  }

  /** The same address on two paths is two visitors. */
  lemma {:induction false} KeysPerPath(p: string, q: string, req: Request)
    requires p != q && ':' !in p && ':' !in q
    ensures VisitorKey(p, req) != VisitorKey(q, req)
  {
    KeyStartsWithPath(p, req);
    KeyStartsWithPath(q, req);
  }

  class HitCounter {
    /** `hit_counter.unique_visitor_timeout`, in milliseconds. */
    const timeout: int
    /** `client.connected`. */
    var connected: bool
    /** `visitors`: when each `path:ip` was last counted. */
    var visitors: map<string, int>
    /** The Redis hashes, by path, of fields `h` and `v`. */
    var hashes: map<string, map<string, int>>

    constructor(timeout: int, connected: bool)
      ensures this.timeout == timeout && this.connected == connected
      ensures visitors == map[] && hashes == map[]
    {
      this.timeout := timeout;
      this.connected := connected;
      visitors := map[];
      hashes := map[];
    }

    /** `count(req, path, cb)` at time `now`: nothing happens without a connection. */
    method Count(req: Request, path: string, now: int)
      modifies this
      ensures connected == old(connected)
      ensures !old(connected) ==> visitors == old(visitors) && hashes == old(hashes)
      ensures old(connected) ==>
        var key := VisitorKey(path, req);
        && visitors == old(visitors)[key := now]
        && hashes == Counted(old(hashes), path, IsNewVisitor(old(visitors), key, now, timeout))
    {
      if connected {
        var key := path + ":" + ClientIp(req);
        var isNew := now - LastSeen(visitors, key) > timeout;
        visitors := visitors[key := now];
        hashes := HIncrBy(hashes, path, "h", 1);
        hashes := HIncrBy(hashes, path, "v", if isNew then 1 else 0);
      }
    }

    /** `read(path, cb)`: the path's hits and visitors, 0 for each without a connection or a stored value. */
    method Read(path: string) returns (hits: int, visitorCount: int)
      ensures !connected ==> hits == 0 && visitorCount == 0
      ensures connected ==> hits == Field(hashes, path, "h") && visitorCount == Field(hashes, path, "v")
      ensures connected && path !in hashes ==> hits == 0 && visitorCount == 0
    {
      if !connected {
        return 0, 0;
      }
      if path in hashes {
        var value := hashes[path];
        hits := if "h" in value then value["h"] else 0;
        visitorCount := if "v" in value then value["v"] else 0;
      } else {
        hits, visitorCount := 0, 0;
      }
    }
  }

  /** Two quick visits from one address count two hits and one visitor. */
  method TwoQuickVisits(counter: HitCounter, req: Request, path: string, now: int)
    requires counter.connected && counter.timeout >= 0
    requires VisitorKey(path, req) !in counter.visitors && now > counter.timeout
    modifies counter
    ensures Field(counter.hashes, path, "h") == Field(old(counter.hashes), path, "h") + 2
    ensures Field(counter.hashes, path, "v") == Field(old(counter.hashes), path, "v") + 1
  {
    var key := VisitorKey(path, req);
    ghost var before := counter.hashes;
    ghost var seen := counter.visitors;
    counter.Count(req, path, now);
    FirstVisit(seen, key, now, counter.timeout);
    CountedIncrements(before, path, true);
    ghost var middle := counter.hashes;
    counter.Count(req, path, now);
    RepeatVisit(seen, key, now, now, counter.timeout);
    CountedIncrements(middle, path, false);
  }
}
