# Cooldown tracker worker, modelled in Dafny

The system is a Cloudflare worker that records, reads and clears one
timestamp per (environment, user, command) triple: the instant a cooldown
ends. Its single `fetch` handler checks a shared secret from the `API-KEY`
header, validates the `env`, `user` and `command` query parameters, derives
the key `${env}-${user}-${command}`, and dispatches on the HTTP method:

- GET reads the entry and replies `{ cooldown, cooldownExpiresTimestamp }`,
  where `cooldown` holds while the current time is strictly before the stored
  timestamp. An entry whose timestamp is strictly in the past is deleted in
  the background.
- POST stores `expireAt`, unless it is missing, `NaN`, zero or before now.
- DELETE removes the entry.
- Any other method gets no response.

The model makes time and storage explicit. The KV namespace `COOLDOWNS` is a
`map<string, int>` from key to expiry in milliseconds. The clock reading is a
parameter. `Handler.Fetch(env, now, request)` is a pure function that returns
the reply together with the namespace after the call.

Modules, one file each:

- `js.dfy` (`Js`): the JavaScript semantics the handler leans on. It has
  nullish values as `Option`, the truthiness of strings and of `parseInt`
  results, `<` where `undefined` compares false, and `includes`.
- `types.dfy` (`Types`): the bindings (`Environment`: secret and namespace),
  the abstract `Request`, `Response` and `Outcome`, and namespace lookup.
- `keys.dfy` (`Keys`): the allowed parameter values, the key derivation, and
  its inverse `ParseKey`. The inverse shows that distinct valid triples get
  distinct keys, even though `user` may itself contain `-`.
- `handler.dfy` (`Handler`): the handler and its GET, POST and DELETE branches.
- `properties.dfy` (`Properties`): lemmas about consecutive calls.
- `trace.dfy` (`Trace`): running the handler over a sequence of timed requests.

Behaviours of the code worth noting:

- A `user` parameter that is present but empty is rejected with 500, because
  the code tests `!userId`.
- POST rejects `expireAt == 0` even when `0` is not before now, because the
  code tests `!cooldownExpiresTimestamp`.
- POST accepts `expireAt == now` and replies `cooldown: true`. A GET at that
  same instant replies `cooldown: false` and keeps the entry, because both
  comparisons in the GET branch are strict (`Properties.PostAtNowBoundary`).
- A GET with no entry and a DELETE both serialise to `{"cooldown":false}`:
  `JSON.stringify` drops an `undefined` field. Both are modelled as
  `Json(false, None)`.

## Model

| member | source | states |
|---|---|---|
| Handler.Fetch | index.ts:4-40 | A failed secret check yields exactly the 401 reply. Bad parameters behind a good secret yield exactly the 500 "params" reply. Either failure leaves the namespace unchanged. Otherwise only the derived key may change. No response is given exactly for a passing request whose method is not GET, POST or DELETE, and then nothing changes. |
| Handler.GetCooldown | index.ts:19-24 | The flag holds iff an entry exists and now is strictly before it. The timestamp is echoed iff an entry exists. The entry is removed when strictly expired. In every other case the namespace is unchanged, and no key other than this one is ever touched. |
| Handler.SetCooldown | index.ts:27-33 | Rejects with 500 iff `expireAt` is NaN, 0 or before now, and then changes nothing. Otherwise it replies `{cooldown: true, expireAt}` and stores `expireAt` under the key, overwriting any earlier value and leaving other keys as they were. |
| Handler.DeleteCooldown | index.ts:36-39 | Replies `{cooldown: false}`. Afterwards exactly the key is absent and the other entries are kept. When the key was absent this is a no-op. |
| Handler.RequestId | index.ts:9-16 | The triple read from the parameters of a request that passed validation is a valid triple. |
| Handler.ValidParams | index.ts:13 | Validation passes iff all three parameters are present, `env` is dev or live, `user` is non-empty, and `command` is one of the three allowed values. |
| Handler.Authorized | index.ts:5 | The secret check passes iff a key is configured, it is non-empty, and the header equals it exactly. |
| Handler.Unauthorized | index.ts:45 | `Unauthorized()` is the 401 plain-text reply with the "unauthorised" message tag. |
| Handler.NotOk | index.ts:44 | `NotOk(m)` is the 500 plain-text reply with message tag `m`. |
| Types.Lookup | index.ts:20 | Reading a key gives a timestamp iff the key is stored, and then exactly the stored one; otherwise it gives nothing (`null`). |
| Properties.FetchStatus | index.ts:4-45 | The status is 401 iff the secret check fails, whatever the method or parameters. It is 500 iff the secret passes and then either the parameters are bad or a POST has a NaN, zero or past `expireAt`. It is 200 iff a GET, DELETE or acceptable POST is served. There is no response iff the method is not one of the three. Every reply other than 200, including a rejected `expireAt`, leaves the namespace unchanged. |
| Properties.GetReports | index.ts:19-24 | A served GET replies with the entry's running flag and stored timestamp. It removes the entry iff it is strictly expired. |
| Properties.PostThenGet | index.ts:19-33 | After an accepted POST, a GET on the same triple at any time t echoes `expireAt` and reports a running cooldown iff t < `expireAt`. The entry is dropped iff t > `expireAt`. |
| Properties.PostAtNowBoundary | index.ts:19-33 | A POST with `expireAt == now` is accepted with `cooldown: true`. A GET at the same instant reports `cooldown: false` with that timestamp and keeps the entry. |
| Properties.DeleteThenGet | index.ts:19-39 | After a DELETE, a GET on the same triple at any time reports no cooldown and no timestamp, and changes nothing. |
| Properties.DeleteIdempotent | index.ts:36-39 | A repeated DELETE gives the same reply and namespace as the first. |
| Properties.GetKeepsActivity | index.ts:22-23 | For every key and every time from now on, a GET does not change whether a cooldown is running. Lazy deletion only drops entries that are already inactive. |
| Properties.GetTwice | index.ts:19-24 | A second GET at the same instant keeps the flag and changes nothing. It loses the echoed timestamp iff the first GET found the entry strictly expired. |
| Properties.FetchReadsOnlyItsKey | index.ts:16-39 | Two namespaces that agree on the derived key give the same reply. They still agree on that key afterwards. |
| Properties.DistinctTargetsCommute | index.ts:16-39 | Two requests on different valid triples, each at its own clock reading, give the same replies and the same final namespace in either order. |
| Keys.ParseKey | index.ts:16 | A key that parses is the derived key of the valid triple it parses to. |
| Keys.KeyRoundTrip | index.ts:16 | Parsing the derived key of a valid triple returns that triple. |
| Keys.KeyInjective | index.ts:16 | For valid triples, equal keys iff equal triples. |
| Keys.AllowedValuesHaveNoDash | index.ts:13 | No allowed `env` or `command` value contains the `-` separator. |
| Trace.ExecuteKeepsWellKeyed | index.ts:16-39 | Over any run of calls, a namespace holding only derived keys of valid triples keeps holding only such keys. |
| Trace.ExecuteWithoutApiKey | index.ts:5 | With no secret configured, or an empty one, every call of a run gets 401 and the namespace never changes. |
| Trace.ExecuteLeavesOtherKeys | index.ts:16-39 | A key that no call of a run addresses after passing both checks ends the run with the value it started with. |
| Trace.SetGetDeleteGetSession | index.ts:19-39 | A POST one minute ahead, then GET, DELETE and GET on live/123/when, reply in turn with true plus the timestamp, true plus the timestamp, false, and false without a timestamp. The entry is gone at the end. |

## Left out

- The KV service itself is not modelled: its asynchronous I/O, eventual
  consistency, and errors propagating out of `get`, `put` or `delete`. The
  namespace is an in-memory map and every operation succeeds.
- `context.waitUntil` scheduling is not modelled. The background delete of an
  expired entry shows up as immediate removal in the namespace after the call.
  Concurrent requests are out of scope.
- `new Date().getTime()` is not modelled. The clock reading is the `now`
  parameter.
- The full `parseInt` semantics are not modelled: `0x` prefixes, trailing
  characters, precision beyond 2^53, and values beyond the double range.
  For those `parseInt` gives `Infinity`, which JSON stores and replies as
  `null`, so a later GET deletes the entry and replies `cooldown: false`;
  the model instead stores the integer. `expireAt` is an optional integer,
  with None standing for `NaN`, including when the parameter is absent.
- URL and query-string decoding, case-insensitive header lookup, and the
  normalisation of method names are not modelled. The request arrives already
  decoded, and the method name is compared exactly, as `===` does.
- `Response` objects, JSON bodies and the exact text of the error messages
  are not modelled. A reply is a status with a message tag, a JSON reply with
  its two fields, or no response.
- Stored values that are not finite numbers are not modelled. These are
  entries written by other code, or the `null` left by an `Infinity` POST as
  described above. Every stored value is an integer.
- The `ok` helper (index.ts:43) is never called, so it is not modelled.
- `types.ts` holds only declarations. They appear as `Types.Environment` and
  as the integer value of `Types.Store`.
