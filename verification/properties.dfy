/** What a client can rely on across calls of the handler: the status of every
    reply, the read-after-write and read-after-delete round trips, the strict
    boundary at the expiry instant, lazy deletion being invisible to the
    cooldown flag, and independence of requests that address different keys. */
module Properties {
  import opened Js
  import opened Types
  import opened Keys
  import opened Handler

  /** The environment seen by the next call: same secret, updated namespace. */
  function Next(env: Environment, out: Outcome): Environment
  {
    env.(cooldowns := out.cooldowns)
  }

  /** Two requests carry the same `env`, `user` and `command` parameters. */
  predicate SameTarget(a: Request, b: Request)
  {
    a.env == b.env && a.user == b.user && a.command == b.command
  }

  /** The cooldown stored under `key` is still running at time `t`. */
  predicate Active(store: Store, key: string, t: Millis)
  {
    key in store && t < store[key]
  }

  /** The status of every reply: 401 for a failed secret check whatever else
      the request holds, 500 for bad parameters or a rejected `expireAt`, 200
      for a served GET, POST or DELETE, and nothing for any other method.
      Every reply other than 200 leaves the namespace as it was. */
  lemma FetchStatus(env: Environment, now: Millis, req: Request)
    ensures var s := Fetch(env, now, req).response.Status();
      && (s == Some(401) <==> !Authorized(env.apiKey, req.apiKeyHeader))
      && (s == Some(500) <==>
            Authorized(env.apiKey, req.apiKeyHeader) &&
            (!ValidParams(req) ||
             (req.verb == "POST" &&
              (req.expireAt.None? || req.expireAt.value == 0 || req.expireAt.value < now))))
      && (s == Some(200) <==>
            Authorized(env.apiKey, req.apiKeyHeader) && ValidParams(req) &&
            (req.verb == "GET" || req.verb == "DELETE" ||
             (req.verb == "POST" && req.expireAt.Some? &&
              req.expireAt.value != 0 && now <= req.expireAt.value)))
      && (s.None? <==>
            Authorized(env.apiKey, req.apiKeyHeader) && ValidParams(req) &&
            req.verb != "GET" && req.verb != "POST" && req.verb != "DELETE")
      && (s != Some(200) ==> Fetch(env, now, req).cooldowns == env.cooldowns)
  {
  }

  /** A GET addressing a valid triple answers from the entry under its key. */
  lemma GetReports(env: Environment, now: Millis, get: Request)
    requires Authorized(env.apiKey, get.apiKeyHeader) && ValidParams(get) && get.verb == "GET"
    ensures var key := Key(RequestId(get));
      var out := Fetch(env, now, get);
      && out.response == Json(Active(env.cooldowns, key, now), Lookup(env.cooldowns, key))
      && (key in env.cooldowns && env.cooldowns[key] < now ==> out.cooldowns == env.cooldowns - {key})
      && (!(key in env.cooldowns && env.cooldowns[key] < now) ==> out.cooldowns == env.cooldowns)
  {
  }

  /** Read after write: once a POST is accepted, a GET on the same triple at
      any time `t` echoes the stored timestamp and reports a running cooldown
      exactly while `t` is before it; the entry is dropped only once `t` is
      strictly past it. */
  lemma PostThenGet(env: Environment, now: Millis, t: Millis, post: Request, get: Request)
    requires Authorized(env.apiKey, post.apiKeyHeader) && Authorized(env.apiKey, get.apiKeyHeader)
    requires ValidParams(post) && SameTarget(post, get)
    requires post.verb == "POST" && get.verb == "GET"
    requires post.expireAt.Some? && post.expireAt.value != 0 && now <= post.expireAt.value
    ensures var p := Fetch(env, now, post);
      var g := Fetch(Next(env, p), t, get);
      var key := Key(RequestId(post));
      && p.response == Json(true, post.expireAt)
      && g.response == Json(t < post.expireAt.value, post.expireAt)
      && (post.expireAt.value < t ==> key !in g.cooldowns)
      && (t <= post.expireAt.value ==> g.cooldowns == p.cooldowns)
  {
  }

  /** The boundary: a POST whose `expireAt` is exactly `now` is accepted and
      answers `cooldown: true`, yet a GET at that same instant answers
      `cooldown: false` and keeps the entry, since both comparisons are strict. */
  lemma PostAtNowBoundary(env: Environment, now: Millis, post: Request, get: Request)
    requires Authorized(env.apiKey, post.apiKeyHeader) && Authorized(env.apiKey, get.apiKeyHeader)
    requires ValidParams(post) && SameTarget(post, get)
    requires post.verb == "POST" && get.verb == "GET"
    requires now != 0 && post.expireAt == Some(now)
    ensures var p := Fetch(env, now, post);
      var g := Fetch(Next(env, p), now, get);
      && p.response == Json(true, Some(now))
      && g.response == Json(false, Some(now))
      && g.cooldowns == p.cooldowns
      && Key(RequestId(post)) in g.cooldowns
  {
  }

  /** Read after delete: after a DELETE, a GET on the same triple at any time
      reports no cooldown and no timestamp, and changes nothing. */
  lemma DeleteThenGet(env: Environment, now: Millis, t: Millis, del: Request, get: Request)
    requires Authorized(env.apiKey, del.apiKeyHeader) && Authorized(env.apiKey, get.apiKeyHeader)
    requires ValidParams(del) && SameTarget(del, get)
    requires del.verb == "DELETE" && get.verb == "GET"
    ensures var d := Fetch(env, now, del);
      var g := Fetch(Next(env, d), t, get);
      && d.response == Json(false, None)
      && Key(RequestId(del)) !in d.cooldowns
      && g.response == Json(false, None)
      && g.cooldowns == d.cooldowns
  {
  }

  /** A second identical DELETE changes nothing and gives the same reply. */
  lemma DeleteIdempotent(env: Environment, now: Millis, t: Millis, del: Request)
    requires Authorized(env.apiKey, del.apiKeyHeader) && ValidParams(del) && del.verb == "DELETE"
    ensures var d := Fetch(env, now, del);
      var d2 := Fetch(Next(env, d), t, del);
      d2 == d
  {
  }

  /** Lazy deletion is invisible to the cooldown flag: for every key and every
      time from `now` on, a GET leaves whether a cooldown is running unchanged. */
  lemma GetKeepsActivity(env: Environment, now: Millis, get: Request, k: string, t: Millis)
    requires get.verb == "GET"
    requires now <= t
    ensures Active(Fetch(env, now, get).cooldowns, k, t) == Active(env.cooldowns, k, t)
  {
  }

  /** Lazy deletion is visible in the echoed timestamp: a second GET at the
      same instant gives the same flag and changes nothing, and it loses the
      timestamp exactly when the first GET found the entry already expired. */
  lemma GetTwice(env: Environment, now: Millis, get: Request)
    requires Authorized(env.apiKey, get.apiKeyHeader) && ValidParams(get) && get.verb == "GET"
    ensures var g1 := Fetch(env, now, get);
      var g2 := Fetch(Next(env, g1), now, get);
      var key := Key(RequestId(get));
      && g2.cooldowns == g1.cooldowns
      && g2.response.cooldown == g1.response.cooldown
      && (g2.response.cooldownExpiresTimestamp == g1.response.cooldownExpiresTimestamp <==>
            !(key in env.cooldowns && env.cooldowns[key] < now))
  {
  }

  /** The handler reads only the derived key: two namespaces that agree on it
      give the same reply and agree on it afterwards. */
  lemma FetchReadsOnlyItsKey(e1: Environment, e2: Environment, now: Millis, req: Request)
    requires e1.apiKey == e2.apiKey && ValidParams(req)
    requires Lookup(e1.cooldowns, Key(RequestId(req))) == Lookup(e2.cooldowns, Key(RequestId(req)))
    ensures Fetch(e1, now, req).response == Fetch(e2, now, req).response
    ensures var key := Key(RequestId(req));
      Lookup(Fetch(e1, now, req).cooldowns, key) == Lookup(Fetch(e2, now, req).cooldowns, key)
  {
  }

  /** Requests addressing different triples are independent: issuing them in
      either order, each at its own clock reading, gives the same replies and
      the same namespace. */
  lemma DistinctTargetsCommute(env: Environment, ta: Millis, tb: Millis, a: Request, b: Request)
    requires ValidParams(a) && ValidParams(b) && RequestId(a) != RequestId(b)
    ensures var a1 := Fetch(env, ta, a);
      var b2 := Fetch(Next(env, a1), tb, b);
      var b1 := Fetch(env, tb, b);
      var a2 := Fetch(Next(env, b1), ta, a);
      && a1.response == a2.response
      && b1.response == b2.response
      && b2.cooldowns == a2.cooldowns
  {
    var ka, kb := Key(RequestId(a)), Key(RequestId(b));
    KeyInjective(RequestId(a), RequestId(b));
    var a1 := Fetch(env, ta, a);
    var b1 := Fetch(env, tb, b);
    FetchReadsOnlyItsKey(env, Next(env, b1), ta, a);
    FetchReadsOnlyItsKey(env, Next(env, a1), tb, b);
    var b2 := Fetch(Next(env, a1), tb, b);
    var a2 := Fetch(Next(env, b1), ta, a);
    forall k
      ensures Lookup(b2.cooldowns, k) == Lookup(a2.cooldowns, k)
    {
      if k == ka {
        assert Lookup(b2.cooldowns, k) == Lookup(a1.cooldowns, k);
      } else if k == kb {
        assert Lookup(a2.cooldowns, k) == Lookup(b1.cooldowns, k);
      } else {
        assert Lookup(b2.cooldowns, k) == Lookup(env.cooldowns, k);
      }
    }
    LookupExtensional(b2.cooldowns, a2.cooldowns);
  }

  /** Two namespaces with the same lookups are equal. */
  lemma LookupExtensional(s1: Store, s2: Store)
    requires forall k :: Lookup(s1, k) == Lookup(s2, k)
    ensures s1 == s2
  {
    assert s1.Keys == s2.Keys by {
      forall k | k in s1 ensures k in s2 {
        assert Lookup(s1, k).Some?;
      }
      forall k | k in s2 ensures k in s1 {
        assert Lookup(s2, k).Some?;
      }
    }
    forall k | k in s1 ensures s1[k] == s2[k] {
      assert Lookup(s1, k) == Lookup(s2, k);
    }
  }
}
