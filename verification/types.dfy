/** The worker's bindings (`Environment`), the stored cooldown entry, and the
    abstract request and response the handler works on. */
module Types {
  import opened Js

  /** Milliseconds since the Unix epoch. */
  type Millis = int

  /** The KV namespace `COOLDOWNS`: key to the entry's `cooldownExpiresTimestamp`. */
  type Store = map<string, Millis>

  /** The bindings the runtime hands to `fetch`: the shared secret (None when
      the binding is missing) and the cooldown namespace. */
  datatype Environment = Environment(apiKey: Option<string>, cooldowns: Store)

  /** A request after URL and header lookup: the method name (`verb`), the `API-KEY`
      header, the `env`, `user` and `command` query parameters (None when
      absent), and `parseInt` of the `expireAt` parameter (None for `NaN`). */
  datatype Request = Request(
    verb: string,
    apiKeyHeader: Option<string>,
    env: Option<string>,
    user: Option<string>,
    command: Option<string>,
    expireAt: Option<int>)

  /** Which plain-text error a failure response carries. */
  datatype Message = Unathorized | ParamsNeeded | BadExpireAt

  /** A plain-text response with its status, a 200 JSON body
      `{ cooldown, cooldownExpiresTimestamp }` (an absent timestamp is dropped
      by JSON serialisation), or no response at all. */
  datatype Response =
    | PlainText(status: int, message: Message)
    | Json(cooldown: bool, cooldownExpiresTimestamp: Option<Millis>)
    | NoResponse
  {
    /** The HTTP status, None when the handler returns nothing. */
    function Status(): Option<int>
    {
      match this
      case PlainText(status, _) => Some(status)
      case Json(_, _) => Some(200)
      case NoResponse => None
    }
  }

  /** What one call of the handler produces: its response and the namespace afterwards. */
  datatype Outcome = Outcome(response: Response, cooldowns: Store)

  /** `get(key, { type: "json" })` on the namespace: the stored timestamp, or None. */
  function Lookup(store: Store, key: string): (r: Option<Millis>)
    ensures r.Some? <==> key in store
    ensures r.Some? ==> r.value == store[key]
  {
    if key in store then Some(store[key]) else None
  }

  /** `after` agrees with `before` on every key other than `key`. */
  ghost predicate ChangesOnly(before: Store, after: Store, key: string)
  {
    forall k :: k != key ==> Lookup(before, k) == Lookup(after, k)
  }
}
