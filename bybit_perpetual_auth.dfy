/**
 * Request signing for the Bybit perpetual-futures API.
 *
 * The auth object holds an API key and a secret and never changes them; it is
 * a value here. The REST parameter dictionary it extends is changed in place
 * by the caller's reference, so it is an object (ParamDict).
 *
 * HMAC-SHA256 with hex encoding is a parameter `hmac(secret, message)`, and the
 * clock is a parameter `nowSeconds`, the already rounded Unix time in seconds.
 */
module BybitPerpetual {
  import opened Wrappers
  import opened Decimal
  import opened Canonical

  /** HMAC-SHA256 of the message under the secret, hex-encoded; left uninterpreted. */
  type Hmac = (string, string) -> string

  /** The credentials, stored unchanged by the constructor and never written again. */
  datatype BybitPerpetualAuth = BybitPerpetualAuth(apiKey: string, secretKey: string)

  /** The literal that prefixes the expiration in the WebSocket signing message. */
  const WsPrefix: string := "GET/realtime"

  /** One second after now, in milliseconds, as a decimal string. */
  function ExpirationTimestamp(nowSeconds: int): (expires: string)
    ensures ParseInt(expires) == Some((nowSeconds + 1) * 1000)
  {
    ParseIntToDecimal((nowSeconds + 1) * 1000);
    IntToDecimal((nowSeconds + 1) * 1000)
  }

  /**
   * The expiration is a whole number of seconds in milliseconds, lies in the
   * second after now, and (for a time after the epoch) is the digits of the
   * next second followed by `000`.
   */
  lemma ExpirationArithmetic(nowSeconds: int)
    ensures ParseInt(ExpirationTimestamp(nowSeconds)).value % 1000 == 0
    ensures nowSeconds * 1000 < ParseInt(ExpirationTimestamp(nowSeconds)).value <= nowSeconds * 1000 + 1000
    ensures nowSeconds >= 0 ==> ExpirationTimestamp(nowSeconds) == NatToDecimal(nowSeconds + 1) + "000"
  {
    if nowSeconds >= 0 {
      NatToDecimalTimesThousand(nowSeconds + 1);
      assert (nowSeconds + 1) * 1000 == 1000 * (nowSeconds + 1);
    }
  }

  /** A later second gives a strictly larger expiration. */
  lemma ExpirationMonotone(nowSeconds: int, laterSeconds: int)
    requires nowSeconds < laterSeconds
    ensures ParseInt(ExpirationTimestamp(nowSeconds)).value < ParseInt(ExpirationTimestamp(laterSeconds)).value
  {
  }

  /** The WebSocket signing message: the prefix, then the expiration, with nothing between. */
  function WsSignatureMessage(expires: string): (message: string)
    ensures |message| == |WsPrefix| + |expires|
    ensures message[..|WsPrefix|] == WsPrefix && message[|WsPrefix|..] == expires
  {
    WsPrefix + expires
  }

  /** `get_ws_auth_payload`: `[api_key, expires, signature]`. */
  function GetWsAuthPayload(auth: BybitPerpetualAuth, hmac: Hmac, nowSeconds: int): (payload: seq<string>)
    ensures |payload| == 3
    ensures payload[0] == auth.apiKey
    ensures payload[1] == ExpirationTimestamp(nowSeconds)
    ensures ParseInt(payload[1]) == Some((nowSeconds + 1) * 1000)
    ensures payload[2] == hmac(auth.secretKey, WsSignatureMessage(payload[1]))
  {
    var expires := ExpirationTimestamp(nowSeconds);
    var signature := hmac(auth.secretKey, WsSignatureMessage(expires));
    [auth.apiKey, expires, signature]
  }

  /**
   * What the exchange checks of a WebSocket auth payload at its own clock
   * reading `serverNowMillis`, knowing the key's secret: the expiration is a
   * number that has not yet passed, and the signature is the HMAC of the
   * prefix followed by that number written out again.
   */
  predicate WsPayloadAccepted(apiKey: string, secretKey: string, hmac: Hmac, serverNowMillis: int, payload: seq<string>) {
    && |payload| == 3
    && payload[0] == apiKey
    && ParseInt(payload[1]).Some?
    && serverNowMillis < ParseInt(payload[1]).value
    && payload[2] == hmac(secretKey, WsPrefix + IntToDecimal(ParseInt(payload[1]).value))
  }

  /** The exchange accepts the payload exactly while its clock is short of the expiration, one second after `nowSeconds`. */
  lemma WsPayloadIsAccepted(auth: BybitPerpetualAuth, hmac: Hmac, nowSeconds: int, serverNowMillis: int)
    ensures WsPayloadAccepted(auth.apiKey, auth.secretKey, hmac, serverNowMillis, GetWsAuthPayload(auth, hmac, nowSeconds))
        <==> serverNowMillis < (nowSeconds + 1) * 1000
  {
    var payload := GetWsAuthPayload(auth, hmac, nowSeconds);
    assert IntToDecimal(ParseInt(payload[1]).value) == payload[1];
  }

  /** The payload is a function of the credentials and the second, and different seconds give different payloads. */
  lemma WsPayloadDeterministic(auth: BybitPerpetualAuth, hmac: Hmac, s1: int, s2: int)
    ensures GetWsAuthPayload(auth, hmac, s1) == GetWsAuthPayload(auth, hmac, s2) <==> s1 == s2
  {
    var p1, p2 := GetWsAuthPayload(auth, hmac, s1), GetWsAuthPayload(auth, hmac, s2);
    if p1 == p2 {
      assert (s1 + 1) * 1000 == (s2 + 1) * 1000 by {
        assert ParseInt(p1[1]) == ParseInt(p2[1]);
      }
    }
  }

  /** `get_headers`: the single constant header the REST client sends. */
  function GetHeaders(): (headers: map<string, string>)
    ensures headers.Keys == {"Content-Type"}
    ensures headers["Content-Type"] == "application/json"
  {
    map["Content-Type" := "application/json"]
  }

  /** The three keys the signer writes are distinct. */
  lemma AuthKeysDistinct()
    ensures "timestamp" != "api_key" && "timestamp" != "sign" && "api_key" != "sign"
  {
    assert "timestamp"[0] != "api_key"[0] && "timestamp"[0] != "sign"[0] && "api_key"[0] != "sign"[0];
  }

  /** The parameters as they stand when they are signed: `timestamp` then `api_key` written over the caller's. */
  function ParamsToSign(auth: BybitPerpetualAuth, nowSeconds: int, params: map<string, string>): map<string, string> {
    params["timestamp" := ExpirationTimestamp(nowSeconds)]["api_key" := auth.apiKey]
  }

  /** The signature of a parameter map: the HMAC of its canonical string. */
  function Sign(auth: BybitPerpetualAuth, hmac: Hmac, params: map<string, string>): string {
    hmac(auth.secretKey, CanonicalString(params))
  }

  /** The parameters after `extend_params_with_authentication_info`. */
  function AuthenticatedParams(auth: BybitPerpetualAuth, hmac: Hmac, nowSeconds: int, params: map<string, string>): map<string, string> {
    var toSign := ParamsToSign(auth, nowSeconds, params);
    toSign["sign" := Sign(auth, hmac, toSign)]
  }

  /** Writing `timestamp`, `api_key` and `sign` adds exactly those keys and leaves every other entry alone. */
  lemma WriteAuthKeys(params: map<string, string>, timestamp: string, apiKey: string, sign: string)
    ensures var r := params["timestamp" := timestamp]["api_key" := apiKey]["sign" := sign];
      && r.Keys == params.Keys + {"timestamp", "api_key", "sign"}
      && r["timestamp"] == timestamp && r["api_key"] == apiKey && r["sign"] == sign
      && (forall k :: k in params && k !in {"timestamp", "api_key", "sign"} ==> r[k] == params[k])
  {
    AuthKeysDistinct();
  }

  /**
   * The three authentication keys are added (or overwritten), `api_key` holds
   * the key, `timestamp` the expiration, `sign` the signature of the map
   * before `sign` was written, and every other parameter keeps its value.
   */
  lemma AuthenticatedParamsContents(auth: BybitPerpetualAuth, hmac: Hmac, nowSeconds: int, params: map<string, string>)
    ensures var r := AuthenticatedParams(auth, hmac, nowSeconds, params);
      && r.Keys == params.Keys + {"timestamp", "api_key", "sign"}
      && r["api_key"] == auth.apiKey
      && r["timestamp"] == ExpirationTimestamp(nowSeconds)
      && r["sign"] == hmac(auth.secretKey, CanonicalString(ParamsToSign(auth, nowSeconds, params)))
      && (forall k :: k in params && k !in {"timestamp", "api_key", "sign"} ==> r[k] == params[k])
  {
    var timestamp := ExpirationTimestamp(nowSeconds);
    var sign := Sign(auth, hmac, ParamsToSign(auth, nowSeconds, params));
    WriteAuthKeys(params, timestamp, auth.apiKey, sign);
  }

  /**
   * The signed string always carries the `api_key=` and `timestamp=` entries,
   * every caller parameter, and, if the caller had already put a `sign`
   * parameter in, that old `sign` entry as well.
   */
  lemma SignedStringEntries(auth: BybitPerpetualAuth, nowSeconds: int, params: map<string, string>)
    ensures var toSign := ParamsToSign(auth, nowSeconds, params);
      && Entry("api_key", auth.apiKey) in CanonicalEntries(toSign)
      && Entry("timestamp", ExpirationTimestamp(nowSeconds)) in CanonicalEntries(toSign)
      && (forall k :: k in params && k !in {"timestamp", "api_key"} ==> Entry(k, params[k]) in CanonicalEntries(toSign))
      && ("sign" in params ==> Entry("sign", params["sign"]) in CanonicalEntries(toSign))
  {
    AuthKeysDistinct();
    EntriesAfterWrites(params, ExpirationTimestamp(nowSeconds), auth.apiKey);
  }

  lemma EntriesAfterWrites(params: map<string, string>, timestamp: string, apiKey: string)
    ensures var toSign := params["timestamp" := timestamp]["api_key" := apiKey];
      && Entry("api_key", apiKey) in CanonicalEntries(toSign)
      && Entry("timestamp", timestamp) in CanonicalEntries(toSign)
      && (forall k :: k in params && k !in {"timestamp", "api_key"} ==> Entry(k, params[k]) in CanonicalEntries(toSign))
      && ("sign" in params ==> Entry("sign", params["sign"]) in CanonicalEntries(toSign))
  {
    AuthKeysDistinct();
    var toSign := params["timestamp" := timestamp]["api_key" := apiKey];
    EntryInCanonical(toSign, "api_key");
    EntryInCanonical(toSign, "timestamp");
    forall k | k in params && k !in {"timestamp", "api_key"}
      ensures Entry(k, params[k]) in CanonicalEntries(toSign)
    {
      EntryInCanonical(toSign, k);
    }
  }

  /** What the exchange checks of signed REST parameters: `sign` is the HMAC of the canonical string of the others. */
  predicate RestSignatureAccepted(secretKey: string, hmac: Hmac, params: map<string, string>) {
    "sign" in params && params["sign"] == hmac(secretKey, CanonicalString(params - {"sign"}))
  }

  /** Parameters without a `sign` of their own come out signed so that the exchange accepts them. */
  lemma AuthenticatedParamsAccepted(auth: BybitPerpetualAuth, hmac: Hmac, nowSeconds: int, params: map<string, string>)
    requires "sign" !in params
    ensures RestSignatureAccepted(auth.secretKey, hmac, AuthenticatedParams(auth, hmac, nowSeconds, params))
  {
    AuthKeysDistinct();
    var toSign := ParamsToSign(auth, nowSeconds, params);
    assert "sign" !in toSign;
    UpdateThenRemove(toSign, "sign", Sign(auth, hmac, toSign));
  }

  /** Adding a fresh key and then removing it gives the map back. */
  lemma UpdateThenRemove(m: map<string, string>, k: string, v: string)
    requires k !in m
    ensures m[k := v] - {k} == m
  {
  }

  /** The HMAC never maps two different messages under one secret to the same tag. */
  ghost predicate InjectiveInMessage(hmac: Hmac) {
    forall secret, m1, m2 :: hmac(secret, m1) == hmac(secret, m2) ==> m1 == m2
  }

  /**
   * A `sign` the caller left in the dictionary is signed along with the rest
   * and only then overwritten, so the exchange, which signs everything but
   * `sign`, rejects the result whenever the HMAC has no collisions.
   */
  lemma StaleSignRejected(auth: BybitPerpetualAuth, hmac: Hmac, nowSeconds: int, params: map<string, string>)
    requires "sign" in params
    requires InjectiveInMessage(hmac)
    ensures !RestSignatureAccepted(auth.secretKey, hmac, AuthenticatedParams(auth, hmac, nowSeconds, params))
  {
    AuthKeysDistinct();
    var toSign := ParamsToSign(auth, nowSeconds, params);
    var r := toSign["sign" := Sign(auth, hmac, toSign)];
    assert r - {"sign"} == toSign - {"sign"};
    SigningStringSeesSign(toSign);
  }

  /**
   * Changing the value of any parameter the signer does not overwrite changes
   * `sign`, whatever characters the parameters hold, for an HMAC without
   * collisions.
   */
  lemma ValueChangeChangesSign(auth: BybitPerpetualAuth, hmac: Hmac, nowSeconds: int, params: map<string, string>, x: string, v: string)
    requires x in params && params[x] != v && x != "timestamp" && x != "api_key"
    requires InjectiveInMessage(hmac)
    ensures AuthenticatedParams(auth, hmac, nowSeconds, params)["sign"]
         != AuthenticatedParams(auth, hmac, nowSeconds, params[x := v])["sign"]
  {
    var toSign := ParamsToSign(auth, nowSeconds, params);
    UpdateCommutes(params, x, v, ExpirationTimestamp(nowSeconds), auth.apiKey);
    ValueChangeChangesString(toSign, x, v);
  }

  /** Updating a caller key other than `timestamp` and `api_key` commutes with writing those two. */
  lemma UpdateCommutes(params: map<string, string>, x: string, v: string, timestamp: string, apiKey: string)
    requires x != "timestamp" && x != "api_key"
    ensures var toSign := params["timestamp" := timestamp]["api_key" := apiKey];
      && (x in params ==> x in toSign && toSign[x] == params[x])
      && params[x := v]["timestamp" := timestamp]["api_key" := apiKey] == toSign[x := v]
  {
  }

  /** Dropping `sign` from any parameter map changes its signing string: it gets shorter. */
  lemma SigningStringSeesSign(m: map<string, string>)
    requires "sign" in m
    ensures |CanonicalString(m - {"sign"})| < |CanonicalString(m)|
  {
    CanonicalStringWithoutKey(m, "sign");
  }

  /**
   * Signing again, with `sign` stripped and the same clock, reproduces the
   * same parameters and the same signature.
   */
  lemma ResigningReproducesSignature(auth: BybitPerpetualAuth, hmac: Hmac, nowSeconds: int, params: map<string, string>)
    requires "sign" !in params
    ensures var r := AuthenticatedParams(auth, hmac, nowSeconds, params);
      AuthenticatedParams(auth, hmac, nowSeconds, r - {"sign"}) == r
  {
    AuthKeysDistinct();
    var toSign := ParamsToSign(auth, nowSeconds, params);
    RewriteIsStable(params, ExpirationTimestamp(nowSeconds), auth.apiKey, Sign(auth, hmac, toSign));
  }

  /** Stripping a fresh `sign` and writing `timestamp` and `api_key` again with the same values changes nothing. */
  lemma RewriteIsStable(params: map<string, string>, timestamp: string, apiKey: string, sign: string)
    requires "sign" !in params
    ensures var toSign := params["timestamp" := timestamp]["api_key" := apiKey];
      && toSign["sign" := sign] - {"sign"} == toSign
      && toSign["timestamp" := timestamp]["api_key" := apiKey] == toSign
  {
    AuthKeysDistinct();
  }

  /** The caller's parameter dictionary, which the signer extends in place. */
  class ParamDict {
    var entries: map<string, string>

    constructor (entries: map<string, string>)
      ensures this.entries == entries
    {
      this.entries := entries;
    }
  }

  /**
   * `extend_params_with_authentication_info`: writes `timestamp` and
   * `api_key`, signs the dictionary as it then stands, writes `sign`, and
   * returns the same dictionary.
   */
  method ExtendParamsWithAuthenticationInfo(auth: BybitPerpetualAuth, hmac: Hmac, nowSeconds: int, params: ParamDict)
    returns (result: ParamDict)
    modifies params
    ensures result == params
    ensures params.entries == AuthenticatedParams(auth, hmac, nowSeconds, old(params.entries))
    ensures params.entries.Keys == old(params.entries.Keys) + {"timestamp", "api_key", "sign"}
    ensures params.entries["timestamp"] == ExpirationTimestamp(nowSeconds)
    ensures params.entries["api_key"] == auth.apiKey
    ensures params.entries["sign"] == Sign(auth, hmac, ParamsToSign(auth, nowSeconds, old(params.entries)))
    ensures forall k :: k in old(params.entries) && k !in {"timestamp", "api_key", "sign"} ==>
              params.entries[k] == old(params.entries)[k]
  {
    ghost var original := params.entries;
    params.entries := params.entries["timestamp" := ExpirationTimestamp(nowSeconds)];
    params.entries := params.entries["api_key" := auth.apiKey];
    var rawSignature := CanonicalString(params.entries);
    var signature := hmac(auth.secretKey, rawSignature);
    params.entries := params.entries["sign" := signature];
    assert params.entries == AuthenticatedParams(auth, hmac, nowSeconds, original);
    AuthenticatedParamsContents(auth, hmac, nowSeconds, original);
    result := params;
  }
}
