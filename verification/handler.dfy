/** The worker's `fetch` handler: authentication, parameter validation, key
    derivation, and dispatch on GET (read, lazily dropping an expired entry),
    POST (write) and DELETE (remove). The current time is a parameter and the
    namespace is an explicit value threaded through each call. */
module Handler {
  import opened Js
  import opened Types
  import opened Keys

  /** The 401 response. */
  function Unauthorized(): (r: Response)
    ensures r.Status() == Some(401) && r.PlainText? && r.message == Unathorized
  {
    PlainText(401, Unathorized)
  }

  /** The 500 response carrying an explanatory message. */
  function NotOk(message: Message): (r: Response)
    ensures r.Status() == Some(500) && r.PlainText? && r.message == message
  {
    PlainText(500, message)
  }

  /** The shared-secret check: a configured, non-empty key that the `API-KEY`
      header matches exactly. */
  predicate Authorized(apiKey: Option<string>, header: Option<string>): (r: bool)
    ensures r <==> apiKey.Some? && apiKey.value != "" && header == Some(apiKey.value)
  {
    !(!StringTruthy(apiKey) || header != apiKey)
  }

  /** `env` and `command` are among the allowed values and `user` is non-empty. */
  predicate ValidParams(req: Request): (r: bool)
    ensures r <==>
      req.env.Some? && req.user.Some? && req.command.Some? &&
      ValidId(CooldownId(req.env.value, req.user.value, req.command.value))
  {
    Includes(Environments, req.env) && StringTruthy(req.user) && Includes(Commands, req.command)
  }

  /** The triple a request with valid parameters addresses. */
  function RequestId(req: Request): (id: CooldownId)
    requires ValidParams(req)
    ensures ValidId(id)
    ensures id.env == req.env.value && id.user == req.user.value && id.command == req.command.value
  {
    CooldownId(req.env.value, req.user.value, req.command.value)
  }

  /** GET: report whether the cooldown is still running and echo the stored
      timestamp; an entry whose timestamp is already past is deleted. */
  function GetCooldown(store: Store, key: string, now: Millis): (out: Outcome)
    ensures out.response.Json?
    ensures out.response.cooldown <==> key in store && now < store[key]
    ensures out.response.cooldownExpiresTimestamp.Some? <==> key in store
    ensures key in store ==> out.response.cooldownExpiresTimestamp.value == store[key]
    ensures key in store && store[key] < now ==> key !in out.cooldowns
    ensures out.cooldowns.Keys == store.Keys || out.cooldowns.Keys == store.Keys - {key}
    ensures forall k :: k in out.cooldowns ==> k in store && out.cooldowns[k] == store[k]
    ensures !(key in store && store[key] < now) ==> out.cooldowns == store
  {
    var stored := Lookup(store, key);
    var cooldowns := if Less(stored, Some(now)) then store - {key} else store;
    Outcome(Json(Less(Some(now), stored), stored), cooldowns)
  }

  /** POST: store `expireAt` under the key unless it is missing, zero or
      before `now`. */
  function SetCooldown(store: Store, key: string, now: Millis, expireAt: Option<int>): (out: Outcome)
    ensures out.response == NotOk(BadExpireAt) <==>
      expireAt.None? || expireAt.value == 0 || expireAt.value < now
    ensures out.response == NotOk(BadExpireAt) ==> out.cooldowns == store
    ensures out.response != NotOk(BadExpireAt) ==>
      && expireAt.Some? && now <= expireAt.value
      && out.response == Json(true, expireAt)
      && key in out.cooldowns && out.cooldowns[key] == expireAt.value
      && out.cooldowns.Keys == store.Keys + {key}
      && ChangesOnly(store, out.cooldowns, key)
  {
    if !NumberTruthy(expireAt) || Less(expireAt, Some(now)) then
      Outcome(NotOk(BadExpireAt), store)
    else
      Outcome(Json(true, expireAt), store[key := expireAt.value])
  }

  /** DELETE: remove the key, a no-op when it is absent. */
  function DeleteCooldown(store: Store, key: string): (out: Outcome)
    ensures out.response == Json(false, None)
    ensures out.cooldowns.Keys == store.Keys - {key}
    ensures ChangesOnly(store, out.cooldowns, key)
    ensures key !in store ==> out.cooldowns == store
  {
    Outcome(Json(false, None), store - {key})
  }

  /** The whole handler. Authentication and validation gate every change to
      the namespace, only the derived key is ever touched, and a method other
      than GET, POST or DELETE produces no response. */
  function Fetch(env: Environment, now: Millis, req: Request): (out: Outcome)
    ensures out.response == Unauthorized() <==> !Authorized(env.apiKey, req.apiKeyHeader)
    ensures out.response == NotOk(ParamsNeeded) <==>
      Authorized(env.apiKey, req.apiKeyHeader) && !ValidParams(req)
    ensures !Authorized(env.apiKey, req.apiKeyHeader) || !ValidParams(req) ==>
      out.cooldowns == env.cooldowns
    ensures Authorized(env.apiKey, req.apiKeyHeader) && ValidParams(req) ==>
      ChangesOnly(env.cooldowns, out.cooldowns, Key(RequestId(req)))
    ensures out.response == NoResponse <==>
      Authorized(env.apiKey, req.apiKeyHeader) && ValidParams(req) &&
      req.verb != "GET" && req.verb != "POST" && req.verb != "DELETE"
    ensures out.response == NoResponse ==> out.cooldowns == env.cooldowns
  {
    if !Authorized(env.apiKey, req.apiKeyHeader) then
      Outcome(Unauthorized(), env.cooldowns)
    else if !ValidParams(req) then
      Outcome(NotOk(ParamsNeeded), env.cooldowns)
    else
      var key := Key(RequestId(req));
      if req.verb == "GET" then GetCooldown(env.cooldowns, key, now)
      else if req.verb == "POST" then SetCooldown(env.cooldowns, key, now, req.expireAt)
      else if req.verb == "DELETE" then DeleteCooldown(env.cooldowns, key)
      else Outcome(NoResponse, env.cooldowns)
  }
}
