/** Running the handler over a sequence of timed requests against one
    environment, and what stays true along the way. */
module Trace {
  import opened Js
  import opened Types
  import opened Keys
  import opened Handler

  /** One invocation: the clock reading and the request. */
  datatype Call = Call(now: Millis, request: Request)

  /** The replies to a run of calls and the namespace at its end. */
  datatype Run = Run(responses: seq<Response>, cooldowns: Store)

  /** Handles the calls in order, each seeing the namespace the previous left. */
  function Execute(env: Environment, calls: seq<Call>): (r: Run)
    ensures |r.responses| == |calls|
    decreases |calls|
  {
    if |calls| == 0 then Run([], env.cooldowns)
    else
      var out := Fetch(env, calls[0].now, calls[0].request);
      var rest := Execute(env.(cooldowns := out.cooldowns), calls[1..]);
      Run([out.response] + rest.responses, rest.cooldowns)
  }

  /** Every key in the namespace is the derived key of a valid triple. */
  ghost predicate WellKeyed(store: Store)
  {
    forall k :: k in store ==> ParseKey(k).Some?
  }

  /** The handler writes only derived keys of valid triples, so a namespace
      holding nothing else keeps holding nothing else. */
  lemma {:induction false} ExecuteKeepsWellKeyed(env: Environment, calls: seq<Call>)
    requires WellKeyed(env.cooldowns)
    ensures WellKeyed(Execute(env, calls).cooldowns)
    decreases |calls|
  {
    if |calls| > 0 {
      var req := calls[0].request;
      var out := Fetch(env, calls[0].now, req);
      forall k | k in out.cooldowns
        ensures ParseKey(k).Some?
      {
        if Authorized(env.apiKey, req.apiKeyHeader) && ValidParams(req) && k == Key(RequestId(req)) {
          KeyRoundTrip(RequestId(req));
        } else {
          assert Lookup(env.cooldowns, k) == Lookup(out.cooldowns, k);
        }
      }
      ExecuteKeepsWellKeyed(env.(cooldowns := out.cooldowns), calls[1..]);
    }
  }

  /** Without a configured secret every call is refused with 401 and the
      namespace never changes. */
  lemma {:induction false} ExecuteWithoutApiKey(env: Environment, calls: seq<Call>)
    requires !StringTruthy(env.apiKey)
    ensures Execute(env, calls).cooldowns == env.cooldowns
    ensures forall i :: 0 <= i < |calls| ==> Execute(env, calls).responses[i] == Unauthorized()
    decreases |calls|
  {
    if |calls| > 0 {
      ExecuteWithoutApiKey(env, calls[1..]);
    }
  }

  /** The call would pass both gates and address `key`. */
  predicate Targets(apiKey: Option<string>, req: Request, key: string)
  {
    Authorized(apiKey, req.apiKeyHeader) && ValidParams(req) && Key(RequestId(req)) == key
  }

  /** A key no call of the run addresses ends the run as it started. */
  lemma {:induction false} ExecuteLeavesOtherKeys(env: Environment, calls: seq<Call>, key: string)
    requires forall i :: 0 <= i < |calls| ==> !Targets(env.apiKey, calls[i].request, key)
    ensures Lookup(Execute(env, calls).cooldowns, key) == Lookup(env.cooldowns, key)
    decreases |calls|
  {
    if |calls| > 0 {
      var out := Fetch(env, calls[0].now, calls[0].request);
      assert !Targets(env.apiKey, calls[0].request, key);
      assert Lookup(out.cooldowns, key) == Lookup(env.cooldowns, key);
      var env' := env.(cooldowns := out.cooldowns);
      assert forall i :: 0 <= i < |calls[1..]| ==> !Targets(env'.apiKey, calls[1..][i].request, key) by {
        forall i | 0 <= i < |calls[1..]|
          ensures !Targets(env'.apiKey, calls[1..][i].request, key)
        {
          assert calls[1..][i] == calls[i + 1];
        }
      }
      ExecuteLeavesOtherKeys(env', calls[1..], key);
    }
  }

  /** A session on `live`/`123`/`when` at one instant: a POST setting a cooldown
      one minute ahead, a GET that reads it back as running, a DELETE, and a
      GET that finds nothing. */
  lemma SetGetDeleteGetSession(secret: string, store: Store, now: Millis)
    requires secret != "" && now >= 0
    ensures
      var req := (verb: string, expireAt: Option<int>) =>
        Request(verb, Some(secret), Some("live"), Some("123"), Some("when"), expireAt);
      var calls := [
        Call(now, req("POST", Some(now + 60000))),
        Call(now, req("GET", None)),
        Call(now, req("DELETE", None)),
        Call(now, req("GET", None))];
      var r := Execute(Environment(Some(secret), store), calls);
      && r.responses == [
        Json(true, Some(now + 60000)),
        Json(true, Some(now + 60000)),
        Json(false, None),
        Json(false, None)]
      && r.cooldowns == store - {"live-123-when"}
  {
    var req := (verb: string, expireAt: Option<int>) =>
      Request(verb, Some(secret), Some("live"), Some("123"), Some("when"), expireAt);
    var env := Environment(Some(secret), store);
    var key := "live-123-when";
    assert Includes(Environments, Some("live")) by { assert Environments[1] == "live"; }
    assert Includes(Commands, Some("when")) by { assert Commands[2] == "when"; }
    assert Key(CooldownId("live", "123", "when")) == key;
    var calls := [
      Call(now, req("POST", Some(now + 60000))),
      Call(now, req("GET", None)),
      Call(now, req("DELETE", None)),
      Call(now, req("GET", None))];
    var o1 := Fetch(env, now, calls[0].request);
    assert o1.cooldowns == store[key := now + 60000];
    var e1 := env.(cooldowns := o1.cooldowns);
    var o2 := Fetch(e1, now, calls[1].request);
    assert o2.cooldowns == o1.cooldowns;
    var o3 := Fetch(e1, now, calls[2].request);
    assert o3.cooldowns == store - {key};
    var e3 := env.(cooldowns := o3.cooldowns);
    var o4 := Fetch(e3, now, calls[3].request);
    assert calls[1..][1..][1..][1..] == [];
    assert Execute(e3, calls[3..]) == Run([o4.response], o4.cooldowns);
    assert Execute(e1, calls[2..]) == Run([o3.response, o4.response], o4.cooldowns);
    assert Execute(e1, calls[1..]) == Run([o2.response, o3.response, o4.response], o4.cooldowns);
  }
}
