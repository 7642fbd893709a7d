/** BingX request signing (`BingXAuth`): a REST request gets a millisecond `timestamp`
    and an HMAC-SHA256 `signature` over its key-sorted, url-encoded parameters, plus the
    identification headers; streaming requests pass through, and a streaming session
    authenticates once with an `auth` handshake message.

    The clock is a parameter (`nowMs`, milliseconds since the epoch). HMAC-SHA256 is an
    opaque primitive held by the authenticator (`hmacSha256(key, message)`), because the
    hash itself is library code. */
module BingX {
  import opened Wrappers
  import opened Text
  import opened Encoding
  import opened Params

  /** HMAC-SHA256 as a function of the key bytes and the message bytes. */
  type Mac = (seq<byte>, seq<byte>) -> seq<byte>

  /** An HMAC-SHA256 primitive yields 32-byte digests. */
  ghost predicate Sha256Sized(mac: Mac)
  {
    forall key, msg :: |mac(key, msg)| == 32
  }

  const ApiKeyHeader := "X-BX-APIKEY"
  const SourceKeyHeader := "X-SOURCE-KEY"
  const ReferralHeader := "referer"
  const TimestampKey := "timestamp"
  const SignatureKey := "signature"
  const WsSignPrefix := "GET/realtime"
  /** The handshake expiry lies this many milliseconds after the clock reading. */
  const WsExpiryWindowMs := 10000

  /** One element of the handshake's `args` list. */
  datatype WsArg = StrArg(s: string) | IntArg(n: int)

  /** `{"op": ..., "args": [...]}`. */
  datatype WsAuthMessage = WsAuthMessage(op: string, args: seq<WsArg>)

  /** The entries of a dict that may be `None`, which reads as empty (`params or {}`). */
  ghost function EntriesOf(d: Dict?): seq<Entry>
    reads d
  {
    if d == null then [] else d.entries
  }

  /** The fields of a REST request the authenticator touches; either may be None. */
  class RestRequest {
    var params: Dict?
    var headers: Dict?

    constructor (params: Dict?, headers: Dict?)
      ensures this.params == params && this.headers == headers
    {
      this.params := params;
      this.headers := headers;
    }
  }

  class BingXAuth {
    const apiKey: string
    const secretKey: string
    /** The venue's source identifier (`SOURCE_KEY` of the BingX constants module). */
    const sourceKey: string
    /** The broker identifier (`HBOT_BROKER_ID` of the BingX constants module). */
    const brokerId: string
    const hmacSha256: Mac

    constructor (apiKey: string, secretKey: string, sourceKey: string, brokerId: string, hmacSha256: Mac)
      ensures this.apiKey == apiKey && this.secretKey == secretKey
      ensures this.sourceKey == sourceKey && this.brokerId == brokerId
      ensures this.hmacSha256 == hmacSha256
    {
      this.apiKey := apiKey;
      this.secretKey := secretKey;
      this.sourceKey := sourceKey;
      this.brokerId := brokerId;
      this.hmacSha256 := hmacSha256;
    }

    // -------------------------------------------------------------------------
    // Headers

    /** `header_for_authentication()`. */
    function HeaderForAuthentication(): (h: seq<Entry>)
      ensures DistinctKeys(h)
      ensures KeySet(h) == {ApiKeyHeader, SourceKeyHeader}
      ensures Get(h, ApiKeyHeader) == Some(apiKey)
      ensures Get(h, SourceKeyHeader) == Some(sourceKey)
    {
      [(ApiKeyHeader, apiKey), (SourceKeyHeader, sourceKey)]
    }

    /** `get_referral_code_headers()`. */
    function ReferralCodeHeaders(): (h: seq<Entry>)
      ensures KeySet(h) == {ReferralHeader}
      ensures Get(h, ReferralHeader) == Some(brokerId)
    {
      [(ReferralHeader, brokerId)]
    }

    /** The headers `rest_authenticate` leaves: the generated ones, updated with the caller's. */
    function MergedHeaders(caller: seq<Entry>): seq<Entry>
    {
      PutAll(HeaderForAuthentication(), caller)
    }

    /** Caller-supplied headers win over the generated ones; every other generated header stays. */
    lemma CallerHeadersWin(caller: seq<Entry>, k: string)
      requires DistinctKeys(caller)
      ensures DistinctKeys(MergedHeaders(caller))
      ensures KeySet(MergedHeaders(caller)) == {ApiKeyHeader, SourceKeyHeader} + KeySet(caller)
      ensures Get(MergedHeaders(caller), k) ==
        if k in KeySet(caller) then Get(caller, k) else Get(HeaderForAuthentication(), k)
    {
      PutAllDistinct(HeaderForAuthentication(), caller);
      PutAllKeys(HeaderForAuthentication(), caller);
      PutAllGet(HeaderForAuthentication(), caller, k);
    }

    /** A caller's own `X-BX-APIKEY` header is kept, not replaced by the generated one. */
    lemma CustomApiKeyHeaderKept()
      ensures Get(MergedHeaders([(ApiKeyHeader, "custom")]), ApiKeyHeader) == Some("custom")
      ensures Get(MergedHeaders([(ApiKeyHeader, "custom")]), SourceKeyHeader) == Some(sourceKey)
    {
      CallerHeadersWin([(ApiKeyHeader, "custom")], ApiKeyHeader);
      CallerHeadersWin([(ApiKeyHeader, "custom")], SourceKeyHeader);
    }

    // -------------------------------------------------------------------------
    // Parameters and signature

    /** `_generate_signature(params)`: HMAC-SHA256 keyed by the UTF-8 secret over the UTF-8 of
        `urlencode(params)`, as lowercase hex. */
    function GenerateSignature(params: seq<Entry>): (sig: string)
      ensures HexDecode(sig) == Some(hmacSha256(Utf8(secretKey), Utf8(UrlEncode(params))))
      ensures forall i :: 0 <= i < |sig| ==> IsLowerHex(sig[i])
    {
      HexDecodeDigest(hmacSha256(Utf8(secretKey), Utf8(UrlEncode(params))));
      HexDigest(hmacSha256(Utf8(secretKey), Utf8(UrlEncode(params))))
    }

    /** With a 32-byte digest the signature is 64 lowercase hex characters. */
    lemma SignatureIs64Hex(params: seq<Entry>)
      requires Sha256Sized(hmacSha256)
      ensures |GenerateSignature(params)| == 64
    {
      var digest := hmacSha256(Utf8(secretKey), Utf8(UrlEncode(params)));
      assert |digest| == 32;
    }

    /** The caller's map after `request_params["timestamp"] = timestamp`. */
    function WithTimestamp(params: seq<Entry>, nowMs: nat): seq<Entry>
    {
      Put(params, TimestampKey, NatToString(nowMs))
    }

    /** The map that is signed: the parameters with the timestamp, key-sorted. */
    function SignedParams(params: seq<Entry>, nowMs: nat): seq<Entry>
    {
      KeySort(WithTimestamp(params, nowMs))
    }

    /** The string the HMAC is computed over. */
    function SignedString(params: seq<Entry>, nowMs: nat): string
    {
      UrlEncode(SignedParams(params, nowMs))
    }

    /** The map `add_auth_to_params` returns: the signed map with `signature` assigned. */
    function AuthParams(params: seq<Entry>, nowMs: nat): seq<Entry>
    {
      var signed := SignedParams(params, nowMs);
      Put(signed, SignatureKey, GenerateSignature(signed))
    }

    /** What gets signed: every parameter plus the timestamp, keys strictly ascending. */
    lemma {:induction false} SignedParamsContents(params: seq<Entry>, nowMs: nat, k: string)
      requires DistinctKeys(params)
      ensures Sorted(SignedParams(params, nowMs))
      ensures KeySet(SignedParams(params, nowMs)) == KeySet(params) + {TimestampKey}
      ensures Get(SignedParams(params, nowMs), k) ==
        if k == TimestampKey then Some(NatToString(nowMs)) else Get(params, k)
    {
      var w := WithTimestamp(params, nowMs);
      PutDistinct(params, TimestampKey, NatToString(nowMs));
      PutKeys(params, TimestampKey, NatToString(nowMs));
      PutGet(params, TimestampKey, NatToString(nowMs), k);
      KeySortSorted(w);
      KeySortGet(w, k);
    }

    /** After `add_auth_to_params` the map holds every original key with its value except
        `timestamp` and `signature`, the fresh timestamp, the signature over the sorted map, and
        nothing else; keys stay unique. */
    lemma {:induction false} AuthParamsContents(params: seq<Entry>, nowMs: nat, k: string)
      requires DistinctKeys(params)
      ensures DistinctKeys(AuthParams(params, nowMs))
      ensures KeySet(AuthParams(params, nowMs)) == KeySet(params) + {TimestampKey, SignatureKey}
      ensures Get(AuthParams(params, nowMs), k) ==
        if k == SignatureKey then Some(GenerateSignature(SignedParams(params, nowMs)))
        else if k == TimestampKey then Some(NatToString(nowMs))
        else Get(params, k)
    {
      var signed := SignedParams(params, nowMs);
      var sig := GenerateSignature(signed);
      SignedParamsContents(params, nowMs, k);
      SortedDistinct(signed);
      PutDistinct(signed, SignatureKey, sig);
      PutKeys(signed, SignatureKey, sig);
      PutGet(signed, SignatureKey, sig, k);
    }

    /** On a map without a `signature` key, the signature is appended last and is not itself
        part of the signed string. */
    lemma FreshSignatureLastAndUnsigned(params: seq<Entry>, nowMs: nat)
      requires DistinctKeys(params)
      requires SignatureKey !in KeySet(params)
      ensures SignatureKey !in KeySet(SignedParams(params, nowMs))
      ensures AuthParams(params, nowMs) ==
        SignedParams(params, nowMs) + [(SignatureKey, GenerateSignature(SignedParams(params, nowMs)))]
    {
      SignedParamsContents(params, nowMs, SignatureKey);
      PutNew(SignedParams(params, nowMs), SignatureKey, GenerateSignature(SignedParams(params, nowMs)));
    }

    /** Authenticating an already authenticated map overwrites `timestamp` and `signature` in
        place: same keys, same length, new values. The stale signature sorts before `timestamp`
        and is part of what the second signature covers. */
    lemma ReauthenticationOverwrites(params: seq<Entry>, t1: nat, t2: nat)
      requires DistinctKeys(params)
      ensures var once := AuthParams(params, t1);
        var twice := AuthParams(once, t2);
        && |twice| == |once|
        && KeySet(twice) == KeySet(once)
        && Get(twice, TimestampKey) == Some(NatToString(t2))
        && Get(SignedParams(once, t2), SignatureKey) == Get(once, SignatureKey)
    {
      var once := AuthParams(params, t1);
      AuthParamsContents(params, t1, SignatureKey);
      AuthParamsContents(once, t2, TimestampKey);
      SignedParamsContents(once, t2, SignatureKey);
      var w := WithTimestamp(once, t2);
      PutExisting(once, TimestampKey, NatToString(t2));
      PutKeys(once, TimestampKey, NatToString(t2));
      var signed := SignedParams(once, t2);
      PutExisting(signed, SignatureKey, GenerateSignature(signed));
    }

    /** The API key is not part of what is signed: two authenticators that share the secret and
        the primitive produce the same signed parameters whatever their API keys. */
    lemma ParamsIndependentOfApiKey(other: BingXAuth, params: seq<Entry>, nowMs: nat)
      requires other.secretKey == secretKey && other.hmacSha256 == hmacSha256
      ensures other.AuthParams(params, nowMs) == AuthParams(params, nowMs)
    {
    }

    /** The pinned vector: `{"symbol": "BTC-USDT"}` at 1700000000000 ms signs
        `symbol=BTC-USDT&timestamp=1700000000000`. */
    lemma SignedStringExample()
      ensures SignedString([("symbol", "BTC-USDT")], 1700000000000) ==
        "symbol=BTC-USDT&timestamp=1700000000000"
    {
      var ts := "1700000000000";
      ExampleTimestamp();
      var p := [("symbol", "BTC-USDT")];
      var w := [("symbol", "BTC-USDT"), (TimestampKey, ts)];
      assert KeySet(p) == {"symbol"};
      PutNew(p, TimestampKey, ts);
      assert WithTimestamp(p, 1700000000000) == w;
      assert Sorted(w) by {
        assert Less("symbol", TimestampKey);
      }
      KeySortOfSorted(w);
      ExampleEncoding(w);
    }

    lemma ExampleTimestamp()
      ensures NatToString(1700000000000) == "1700000000000"
    {
      NatToStringStep(1, 7);
      NatToStringStep(17, 0);
      NatToStringStep(170, 0);
      NatToStringStep(1700, 0);
      NatToStringStep(17000, 0);
      NatToStringStep(170000, 0);
      NatToStringStep(1700000, 0);
      NatToStringStep(17000000, 0);
      NatToStringStep(170000000, 0);
      NatToStringStep(1700000000, 0);
      NatToStringStep(17000000000, 0);
      NatToStringStep(170000000000, 0);
    }

    lemma ExampleEncoding(w: seq<Entry>)
      requires w == [("symbol", "BTC-USDT"), (TimestampKey, "1700000000000")]
      ensures UrlEncode(w) == "symbol=BTC-USDT&timestamp=1700000000000"
    {
      ExampleUnreserved(w);
      UrlEncodeTwoUnreserved(w);
      ExampleText(w);
    }

    lemma ExampleUnreserved(w: seq<Entry>)
      requires w == [("symbol", "BTC-USDT"), (TimestampKey, "1700000000000")]
      ensures AllUnreserved(w[0].0) && AllUnreserved(w[0].1)
      ensures AllUnreserved(w[1].0) && AllUnreserved(w[1].1)
    {
    }

    lemma ExampleText(w: seq<Entry>)
      requires w == [("symbol", "BTC-USDT"), (TimestampKey, "1700000000000")]
      ensures w[0].0 + "=" + w[0].1 + "&" + w[1].0 + "=" + w[1].1 ==
        "symbol=BTC-USDT&timestamp=1700000000000"
    {
    }

    /** `add_auth_to_params(params)`: `None` and `{}` are replaced by a fresh dict; a non-empty
        dict gets `timestamp` written into it (the caller sees that), then a new key-sorted dict
        is signed and returned with `signature` assigned. */
    method AddAuthToParams(params: Dict?, nowMs: nat) returns (r: Dict)
      requires params != null ==> params.Valid()
      modifies params
      ensures fresh(r) && r.Valid()
      ensures r.entries == AuthParams(old(EntriesOf(params)), nowMs)
      ensures params != null ==>
        params.entries == if old(params.entries) == [] then [] else WithTimestamp(old(params.entries), nowMs)
    {
      var timestamp := NatToString(nowMs);
      var requestParams: Dict;
      if params != null && params.entries != [] {
        requestParams := params;
      } else {
        requestParams := new Dict([]);
      }
      requestParams.Set(TimestampKey, timestamp);
      KeySortSorted(requestParams.entries);
      SortedDistinct(KeySort(requestParams.entries));
      var sorted := new Dict(KeySort(requestParams.entries));
      var signature := GenerateSignature(sorted.entries);
      sorted.Set(SignatureKey, signature);
      r := sorted;
    }

    /** `rest_authenticate(request)`: replaces the parameters by the authenticated ones and the
        headers by the generated headers updated with the request's own. */
    method RestAuthenticate(request: RestRequest, nowMs: nat)
      requires request.params != null ==> request.params.Valid()
      requires request.headers != null ==> request.headers.Valid()
      requires request.params == null || request.params != request.headers
      modifies request, request.params
      ensures request.params != null && fresh(request.params) && request.params.Valid()
      ensures request.params.entries ==
        AuthParams(old(EntriesOf(request.params)), nowMs)
      // the caller's own dict: a non-empty one gets the timestamp, an empty one stays empty
      ensures old(request.params) != null ==> (old(request.params).entries ==
        if old(request.params.entries) == [] then [] else WithTimestamp(old(request.params.entries), nowMs))
      ensures request.headers != null && fresh(request.headers) && request.headers.Valid()
      ensures request.headers.entries ==
        MergedHeaders(old(EntriesOf(request.headers)))
    {
      var headers := AuthenticatedHeaders(request.headers);
      var params := AddAuthToParams(request.params, nowMs);
      request.params := params;
      request.headers := headers;
    }

    /** The header half of `rest_authenticate`: a new dict holding the generated headers,
        updated with the caller's. */
    method AuthenticatedHeaders(caller: Dict?) returns (headers: Dict)
      requires caller != null ==> caller.Valid()
      ensures fresh(headers) && headers.Valid()
      ensures headers.entries == MergedHeaders(EntriesOf(caller))
    {
      headers := new Dict(HeaderForAuthentication());
      if caller != null {
        headers.Update(caller);
      }
    }

    /** `ws_authenticate(request)`: BingX does not authenticate individual streaming requests. */
    function WsAuthenticate<R>(request: R): (r: R)
      ensures r == request
    {
      request
    }

    /** The string signed for the handshake: the fixed prefix followed by the decimal expiry. */
    function WsSignedString(expires: nat): (s: string)
      ensures StartsWith(s, WsSignPrefix)
      ensures AllDigits(s[|WsSignPrefix|..])
    {
      assert (WsSignPrefix + NatToString(expires))[|WsSignPrefix|..] == NatToString(expires);
      NatToStringRoundTrip(expires);
      WsSignPrefix + NatToString(expires)
    }

    /** `generate_ws_authentication_message()`: `{op: "auth", args: [api_key, expires, signature]}`
        with `expires` ten seconds after the clock reading. */
    function GenerateWsAuthenticationMessage(nowMs: nat): (m: WsAuthMessage)
      ensures m.op == "auth" && |m.args| == 3
      ensures m.args[0] == StrArg(apiKey)
      ensures m.args[1] == IntArg(nowMs + WsExpiryWindowMs)
      ensures m.args[2].StrArg?
      ensures HexDecode(m.args[2].s) ==
        Some(hmacSha256(Utf8(secretKey), Utf8(WsSignedString(m.args[1].n))))
    {
      var expires := nowMs + WsExpiryWindowMs;
      var digest := hmacSha256(Utf8(secretKey), Utf8(WsSignedString(expires)));
      HexDecodeDigest(digest);
      WsAuthMessage("auth", [StrArg(apiKey), IntArg(expires), StrArg(HexDigest(digest))])
    }

    /** With a 32-byte digest the handshake signature is 64 lowercase hex characters. */
    lemma WsSignatureIs64Hex(nowMs: nat)
      requires Sha256Sized(hmacSha256)
      ensures |GenerateWsAuthenticationMessage(nowMs).args[2].s| == 64
      ensures forall i :: 0 <= i < |GenerateWsAuthenticationMessage(nowMs).args[2].s| ==>
        IsLowerHex(GenerateWsAuthenticationMessage(nowMs).args[2].s[i])
    {
      var digest := hmacSha256(Utf8(secretKey), Utf8(WsSignedString(nowMs + WsExpiryWindowMs)));
      assert |digest| == 32;
    }

    /** The handshake's signed string is `GET/realtime` followed by exactly the digits of the
        expiry that travels in `args[1]`, so the server can rebuild it from the message. */
    lemma WsSignedStringCarriesExpiry(expires: nat)
      ensures StartsWith(WsSignedString(expires), WsSignPrefix)
      ensures AllDigits(WsSignedString(expires)[|WsSignPrefix|..])
      ensures ParseNat(WsSignedString(expires)[|WsSignPrefix|..]) == expires
    {
      assert WsSignedString(expires)[|WsSignPrefix|..] == NatToString(expires);
      NatToStringRoundTrip(expires);
    }
  }
}
