# Bybit perpetual-futures request signing, in Dafny

This project models `BybitPerpetualAuth`, the component of the Hummingbot
connector for Bybit perpetual futures that authenticates requests. It covers
three things:

- the **expiration timestamp**: one second after the rounded current time, in
  milliseconds, rendered as a decimal string;
- the **WebSocket auth payload** `[api_key, expires, signature]`, where the
  signature is the HMAC-SHA256, under the secret, of the literal `GET/realtime`
  followed by the expiration;
- the **REST parameter extension**, which works in place on the caller's
  dictionary. It writes `timestamp` and `api_key`. It then signs the
  dictionary's canonical string: the entries sorted by key, rendered as
  `key=value` and joined with `&`. Finally it writes the signature under
  `sign` and returns the same dictionary.

Files:

- `wrappers.dfy`: the `Option` type.
- `decimal.dfy`: Python's `str()` of an integer, plus an independent decimal parser.
- `lex_order.dfy`: Python's `<` on strings (code-point lexicographic), proved to be a strict total order.
- `canonical.dfy`: the signing string. It holds the key sort, the `key=value` rendering and the `&` join. It also holds the reverse direction, which splits the string on `&` and cuts each piece at its first `=`. The lemmas relate the two directions.
- `bybit_perpetual_auth.dfy`: the auth object and its four operations. It also defines what the exchange checks of a signed request. It proves that the signed output passes that check when the caller supplied no `sign` parameter, and that it fails the check when the caller did, for any HMAC without collisions.

Where each source line is defined (these definitions carry no contract of their own; the lemmas listed under "## Model" state their properties):

- line 17, `str` of the expiration: `Decimal.IntToDecimal`, with `Decimal.NatToDecimal` for the digits;
- line 46, the comparison behind `sorted`: `LexOrder.Less`;
- line 46, the signing string: `Canonical.CanonicalString`, which is `Canonical.Join` with `&` over `Canonical.CanonicalEntries` (the `key=value` entries in `Canonical.SortedKeys` order);
- lines 43-51, the dictionary after signing: `BybitPerpetual.AuthenticatedParams`, built from `BybitPerpetual.ParamsToSign` (lines 44-45) and `BybitPerpetual.Sign` (lines 46-48).

Design decisions:

- HMAC-SHA256 with hex encoding is a function-typed parameter `hmac(secret, message)` that the model never looks inside. Dafny functions are deterministic, so that property comes for free.
- The clock is a parameter `nowSeconds`, the value of `round(time.time())`.
- The auth object never writes its two fields after construction. It is therefore the datatype `BybitPerpetualAuth(apiKey, secretKey)`, and its constructor stands for `__init__` (bybit_perpetual_auth.py:12-14). Being a value, it cannot change, so the credentials stay fixed by construction.
- The parameter dictionary is changed in place and returned by reference. It is therefore the class `ParamDict`, whose `map` field the method reassigns.

## Model

| member | source | states |
|---|---|---|
| `BybitPerpetual.ExpirationTimestamp` | hummingbot/connector/derivative/bybit_perpetual/bybit_perpetual_auth.py:16-17 | the expiration string parses back as the integer `(nowSeconds + 1) * 1000` |
| `BybitPerpetual.ExpirationArithmetic` | hummingbot/connector/derivative/bybit_perpetual/bybit_perpetual_auth.py:17 | the expiration is a multiple of 1000 and lies in `(now*1000, now*1000 + 1000]`; for a time after the epoch it is the digits of the next second followed by `000` |
| `BybitPerpetual.ExpirationMonotone` | hummingbot/connector/derivative/bybit_perpetual/bybit_perpetual_auth.py:17 | a later second gives a strictly larger expiration |
| `Decimal.ParseIntToDecimal` | hummingbot/connector/derivative/bybit_perpetual/bybit_perpetual_auth.py:17 | parsing `IntToDecimal(n)`, the rendering of line 17, gives `n` back for every integer |
| `Decimal.IntToDecimalInjective` | hummingbot/connector/derivative/bybit_perpetual/bybit_perpetual_auth.py:17 | two integers have the same decimal rendering exactly when they are equal |
| `Decimal.NatToDecimal` | hummingbot/connector/derivative/bybit_perpetual/bybit_perpetual_auth.py:17 | `str` of a non-negative integer is a non-empty string of digits with no leading zero unless the value is zero |
| `Decimal.NatToDecimalTimesThousand` | hummingbot/connector/derivative/bybit_perpetual/bybit_perpetual_auth.py:17 | multiplying a positive number by 1000 appends `000` to its decimal rendering |
| `BybitPerpetual.WsSignatureMessage` | hummingbot/connector/derivative/bybit_perpetual/bybit_perpetual_auth.py:25 | the WebSocket message is the literal `GET/realtime` immediately followed by the expiration, with no separator |
| `BybitPerpetual.GetWsAuthPayload` | hummingbot/connector/derivative/bybit_perpetual/bybit_perpetual_auth.py:19-31 | the payload has exactly three elements: the api key, the expiration string (which parses as `(now + 1) * 1000`), and the HMAC under the secret of `GET/realtime` followed by that same expiration string |
| `BybitPerpetual.WsPayloadIsAccepted` | hummingbot/connector/derivative/bybit_perpetual/bybit_perpetual_auth.py:24-31 | the exchange accepts the payload exactly while its clock reads less than the expiration, one second after `now`. Its check: the key matches, the expiration is a number that has not yet passed, and the signature matches the HMAC it recomputes from the prefix and that number |
| `BybitPerpetual.WsPayloadDeterministic` | hummingbot/connector/derivative/bybit_perpetual/bybit_perpetual_auth.py:24-31 | for fixed credentials, two payloads are equal exactly when they were made at the same second |
| `BybitPerpetual.GetHeaders` | hummingbot/connector/derivative/bybit_perpetual/bybit_perpetual_auth.py:33-41 | the headers are the single entry `Content-Type: application/json` |
| `LexOrder.Irreflexive` | hummingbot/connector/derivative/bybit_perpetual/bybit_perpetual_auth.py:46 | `Less`, the string `<` that `sorted` uses, is irreflexive: no key sorts before itself |
| `LexOrder.Asymmetric` | hummingbot/connector/derivative/bybit_perpetual/bybit_perpetual_auth.py:46 | two keys never sort before each other |
| `LexOrder.Transitive` | hummingbot/connector/derivative/bybit_perpetual/bybit_perpetual_auth.py:46 | the key order is transitive |
| `LexOrder.Total` | hummingbot/connector/derivative/bybit_perpetual/bybit_perpetual_auth.py:46 | any two distinct keys are ordered one way or the other |
| `Canonical.LeastExists` | hummingbot/connector/derivative/bybit_perpetual/bybit_perpetual_auth.py:46 | every non-empty key set has a key that sorts before all the others |
| `Canonical.MinKey` | hummingbot/connector/derivative/bybit_perpetual/bybit_perpetual_auth.py:46 | the chosen key belongs to the set and sorts strictly before every other key in it |
| `Canonical.SortedKeys` | hummingbot/connector/derivative/bybit_perpetual/bybit_perpetual_auth.py:46 | `sorted` lists every key exactly once, in strictly ascending `LexOrder.Less` order |
| `Canonical.SortedKeysUnique` | hummingbot/connector/derivative/bybit_perpetual/bybit_perpetual_auth.py:46 | a strictly ascending listing of a key set is unique, so the signing order does not depend on the order in which the caller inserted the parameters |
| `Canonical.Entries` | hummingbot/connector/derivative/bybit_perpetual/bybit_perpetual_auth.py:46 | entry `i` is `key + "=" + value` for the `i`-th key |
| `Canonical.EntryInCanonical` | hummingbot/connector/derivative/bybit_perpetual/bybit_perpetual_auth.py:46 | every parameter appears as its `key=value` entry in the signing string's entries |
| `Canonical.SplitJoin` | hummingbot/connector/derivative/bybit_perpetual/bybit_perpetual_auth.py:46 | splitting the `&`-joined string gives back the joined parts when no part holds `&` |
| `Canonical.JoinSeparatorCount` | hummingbot/connector/derivative/bybit_perpetual/bybit_perpetual_auth.py:46 | joining `n` parts that hold no `&` puts exactly `n - 1` separators in the result |
| `Canonical.JoinEnds` | hummingbot/connector/derivative/bybit_perpetual/bybit_perpetual_auth.py:46 | the joined string starts with the first part and ends with the last |
| `Canonical.PartitionEntry` | hummingbot/connector/derivative/bybit_perpetual/bybit_perpetual_auth.py:46 | cutting an entry at its first `=` recovers the key and the value when the key holds no `=` |
| `Canonical.CanonicalStringShape` | hummingbot/connector/derivative/bybit_perpetual/bybit_perpetual_auth.py:46 | for `n >= 1` parameters whose keys and values hold no `&` (keys may hold `=`), `CanonicalString` has `n - 1` separators and none at either end, and splitting it on `&` yields the sorted entries |
| `Canonical.ParseCanonicalString` | hummingbot/connector/derivative/bybit_perpetual/bybit_perpetual_auth.py:46 | reading `CanonicalString(m)` back recovers exactly `m` when `m` is non-empty, its keys hold no `&` or `=`, and its values hold no `&` |
| `Canonical.CanonicalStringInjective` | hummingbot/connector/derivative/bybit_perpetual/bybit_perpetual_auth.py:46 | under that condition, different parameter maps have different signing strings |
| `Canonical.AmbiguousWithoutEscaping` | hummingbot/connector/derivative/bybit_perpetual/bybit_perpetual_auth.py:46 | without that condition the rendering collides: `{a: "1&b=2"}` and `{a: "1", b: "2"}` are signed over the same string |
| `BybitPerpetual.WriteAuthKeys` | hummingbot/connector/derivative/bybit_perpetual/bybit_perpetual_auth.py:44-49 | writing `timestamp`, `api_key` and `sign` adds exactly those keys, stores the given values and leaves every other entry alone |
| `BybitPerpetual.AuthenticatedParamsContents` | hummingbot/connector/derivative/bybit_perpetual/bybit_perpetual_auth.py:43-51 | `AuthenticatedParams`, the dictionary after signing: its key set is the old one plus `timestamp`, `api_key` and `sign`; `api_key` is the stored key; `timestamp` is the expiration; `sign` is the HMAC of the canonical string of the map before `sign` was written; every other key keeps its value |
| `BybitPerpetual.SignedStringEntries` | hummingbot/connector/derivative/bybit_perpetual/bybit_perpetual_auth.py:44-46 | the signed string carries the `api_key=` and `timestamp=` entries and every other caller parameter. It also carries a `sign` entry the caller had already supplied |
| `BybitPerpetual.AuthenticatedParamsAccepted` | hummingbot/connector/derivative/bybit_perpetual/bybit_perpetual_auth.py:44-49 | when the caller supplied no `sign`, the result passes the exchange's check: `sign` equals the HMAC of the canonical string of all the other parameters |
| `Canonical.JoinLength` | hummingbot/connector/derivative/bybit_perpetual/bybit_perpetual_auth.py:46 | joining `n` parts with `&` gives the parts' total length plus `n - 1` |
| `Canonical.SortedKeysWithout` | hummingbot/connector/derivative/bybit_perpetual/bybit_perpetual_auth.py:46 | removing one key from the set removes it from the sorted listing and leaves the order of the other keys unchanged |
| `Canonical.CanonicalStringWithoutKey` | hummingbot/connector/derivative/bybit_perpetual/bybit_perpetual_auth.py:46 | removing any one parameter shortens the signing string by exactly its `key=value` entry, plus one `&` when another entry remains |
| `Canonical.JoinDiffersAt` | hummingbot/connector/derivative/bybit_perpetual/bybit_perpetual_auth.py:46 | two `&`-joins of equally many parts that differ only in one part, of the same length, are different strings |
| `Canonical.CanonicalEntriesUpdate` | hummingbot/connector/derivative/bybit_perpetual/bybit_perpetual_auth.py:46 | giving one parameter a new value changes its own `key=value` entry and leaves every other entry, and the number of entries, as they were |
| `Canonical.ValueChangeChangesString` | hummingbot/connector/derivative/bybit_perpetual/bybit_perpetual_auth.py:46 | changing the value of any one parameter changes the signing string, for every map, whatever characters the keys and values hold |
| `BybitPerpetual.SigningStringSeesSign` | hummingbot/connector/derivative/bybit_perpetual/bybit_perpetual_auth.py:46 | removing `sign` from any parameter map makes its signing string strictly shorter |
| `BybitPerpetual.StaleSignRejected` | hummingbot/connector/derivative/bybit_perpetual/bybit_perpetual_auth.py:44-49 | when the caller already supplied `sign`, the old `sign` entry is signed along with the rest and then overwritten. The exchange then rejects the result, whatever the parameters, for any HMAC without collisions |
| `BybitPerpetual.ValueChangeChangesSign` | hummingbot/connector/derivative/bybit_perpetual/bybit_perpetual_auth.py:44-49 | for an HMAC without collisions, changing the value of any caller parameter other than `timestamp` and `api_key` (which the signer overwrites) changes the `sign` written into the result |
| `BybitPerpetual.ResigningReproducesSignature` | hummingbot/connector/derivative/bybit_perpetual/bybit_perpetual_auth.py:43-51 | when the caller supplied no `sign`, signing the result again with `sign` stripped and the same clock reproduces the same map and the same signature |
| `BybitPerpetual.ExtendParamsWithAuthenticationInfo` | hummingbot/connector/derivative/bybit_perpetual/bybit_perpetual_auth.py:43-51 | the dictionary is updated in place and the same object is returned. Its new contents are the authenticated parameters: the old keys plus the three auth keys, with the values stated above, and every other entry unchanged. No other object is modified |

## Left out

- HMAC-SHA256 and `.hexdigest()` are an uninterpreted parameter. So the model neither states nor proves that `sign` is 64 lowercase hex characters. What it proves about changes goes through an HMAC without collisions. Changing the value of any parameter other than `timestamp` and `api_key` changes `sign`, whatever characters the keys and values hold (`BybitPerpetual.ValueChangeChangesSign`). Removing a key always changes the signing string (`Canonical.CanonicalStringWithoutKey`). Only the general statement that different maps have different signing strings is restricted, to maps whose keys hold no `&` or `=` and whose values hold no `&` (`Canonical.CanonicalStringInjective`). Without that restriction it is false (`Canonical.AmbiguousWithoutEscaping`).
- `time.time()` is read outside the model. So are the float `round` (half to even), the `* 1e3` and the `int()` on line 17. The model's input is the already rounded whole second, so the bound relative to the real time, which is at most 1.5 s ahead, is not stated.
- The UTF-8 encoding of the secret and the message before hashing is left out. Messages are strings of Unicode scalar values, so Python strings with lone surrogates are not covered.
- `str()` of non-string keys and values on line 46 is left out. Keys and values are strings, so the sort by a non-string key's own ordering is not modelled.
- The insertion order of the Python dictionary is not modelled, because a `map` has no order. The caller sees that order: an existing `timestamp`, `api_key` or `sign` keeps its old position, and a new one is appended at the end. The signature does not depend on it, because line 46 sorts the entries before joining them.
