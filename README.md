# BingX request signing and Derive connector rules, in Dafny

This project models two pieces of the hummingbot trading client.

**BingX request signing** (`BingXAuth`) is the main part. An outgoing REST request gets a
millisecond `timestamp` written into its parameter dict. The dict is then re-ordered by key and
serialised with `urlencode` (`quote_plus` quoting). The result is signed with HMAC-SHA256, keyed
by the UTF-8 secret. The lowercase hex digest goes under `signature`. The request's headers
become `X-BX-APIKEY` and `X-SOURCE-KEY`, updated with whatever headers the caller already set.
Streaming requests pass through unchanged. A streaming session authenticates with the message
`{op: "auth", args: [api_key, expires, signature]}`, signed over `GET/realtime<expires>`.

**The Derive spot connector** (`DeriveExchange`) is the second part. It contributes its
self-contained bookkeeping and decision rules:

- balance reconciliation;
- the exchange-symbol bidict;
- the order payload of `_place_order`, including the first-match instrument lookup and the
  time-in-force table;
- cancel-result classification;
- user-stream channel routing;
- the supported order types;
- the order-not-found tests.

Every network call is replaced by its decoded response, passed in as a value.

Files:

- `wrappers.dfy`: `Option` and `Result`.
- `text.dfy`: Python's `str` ordering, `str(n)` for naturals, substring `in`, and
  `str.split` / `str.join` on one character.
- `encoding.dfy`: UTF-8, `hexdigest()`, `quote_plus` and `urlencode`, each with an inverse
  and a round-trip lemma.
  - UTF-8 has a strict decoder.
  - `hexdigest()` has hex decoding.
  - `quote_plus` has percent-decoding to bytes.
  - `urlencode` has a query parser: it splits, percent-decodes and UTF-8-decodes the pairs.
- `params.dfy`: Python's insertion-ordered `dict[str, str]` as a sequence of entries.
  - Functions: assignment (`Put`), `update` (`PutAll`) and `keysort` (`KeySort`).
  - A `Dict` class for the dicts the source mutates in place.
- `bingx_auth.dfy`: the `BingXAuth` class.
  - HMAC-SHA256 is a function-valued constant of the authenticator.
  - The clock is a `nowMs` parameter.
- `derive.dfy`: the `DeriveExchange` rules, with the connector state as a class.

The modelled code is `hummingbot/connector/exchange/bing_x/bing_x_auth.py` and
`hummingbot/connector/exchange/derive/derive_exchange.py`. Paths below are relative to the
repository root.

## Model

| member | source | states |
|---|---|---|
| Params.Get | hummingbot/connector/exchange/bing_x/bing_x_auth.py:57 | A lookup succeeds iff the key is present, and then returns a stored pair's value |
| Params.GetIn | hummingbot/connector/exchange/bing_x/bing_x_auth.py:57 | With unique keys, looking `k` up gives `v` iff the pair `(k, v)` is in the dict |
| Params.Put | hummingbot/connector/exchange/bing_x/bing_x_auth.py:57 | `d[k] = v` either keeps the length (overwrite in place) or appends `(k, v)` at the end |
| Params.PutKeys | hummingbot/connector/exchange/bing_x/bing_x_auth.py:57 | After `d[k] = v` the keys are the old keys plus `k` |
| Params.PutGet | hummingbot/connector/exchange/bing_x/bing_x_auth.py:57 | After `d[k] = v`, `k` reads `v` and every other key reads what it read before |
| Params.PutNew | hummingbot/connector/exchange/bing_x/bing_x_auth.py:61 | Assigning a new key appends it last |
| Params.PutExisting | hummingbot/connector/exchange/bing_x/bing_x_auth.py:57 | Assigning an existing key keeps every key at its position |
| Params.PutDistinct | hummingbot/connector/exchange/bing_x/bing_x_auth.py:57 | Assignment never duplicates a key |
| Params.PutAll | hummingbot/connector/exchange/bing_x/bing_x_auth.py:32 | `update` removes nothing, and each entry of the other dict adds at most one key (contents: `PutAllKeys`, `PutAllGet`) |
| Params.PutAllKeys | hummingbot/connector/exchange/bing_x/bing_x_auth.py:32 | After `update` the keys are the union of both key sets |
| Params.PutAllDistinct | hummingbot/connector/exchange/bing_x/bing_x_auth.py:32 | `update` never duplicates a key |
| Params.PutAllGet | hummingbot/connector/exchange/bing_x/bing_x_auth.py:32 | After `update`, keys of `other` read `other`'s values and the rest keep theirs |
| Params.SortedDistinct | hummingbot/connector/exchange/bing_x/bing_x_auth.py:20-21 | A strictly ascending dict has unique keys |
| Params.Insert | hummingbot/connector/exchange/bing_x/bing_x_auth.py:21 | One insertion step adds exactly the entry (multiset) |
| Params.KeySort | hummingbot/connector/exchange/bing_x/bing_x_auth.py:19-21 | `keysort` returns a permutation of the input's pairs |
| Params.InsertSorted | hummingbot/connector/exchange/bing_x/bing_x_auth.py:21 | Inserting a new key into a sorted dict keeps it sorted |
| Params.KeySortSorted | hummingbot/connector/exchange/bing_x/bing_x_auth.py:20-21 | With unique keys, `keysort` yields keys in strictly ascending code-point order |
| Params.SortedHead | hummingbot/connector/exchange/bing_x/bing_x_auth.py:20-21 | In a sorted dict, the first key is below every other key |
| Params.SortedUnique | hummingbot/connector/exchange/bing_x/bing_x_auth.py:20-21 | Two sorted dicts with the same pairs are equal |
| Params.KeySortOfSorted | hummingbot/connector/exchange/bing_x/bing_x_auth.py:20-21 | `keysort` leaves an already sorted dict as it is |
| Params.KeySortIdempotent | hummingbot/connector/exchange/bing_x/bing_x_auth.py:20-21 | Sorting twice is sorting once |
| Params.KeySortOrderIndependent | hummingbot/connector/exchange/bing_x/bing_x_auth.py:20-21 | The result depends only on the pairs, not on their insertion order |
| Params.KeySortGet | hummingbot/connector/exchange/bing_x/bing_x_auth.py:20-21 | `keysort` keeps exactly the keys, each with its value |
| Params.Dict.constructor | hummingbot/connector/exchange/bing_x/bing_x_auth.py:56 | A new dict holds the given entries |
| Params.Dict.Set | hummingbot/connector/exchange/bing_x/bing_x_auth.py:57 | In-place assignment; the entries become `Put` of the old entries, keys stay unique |
| Params.Dict.Update | hummingbot/connector/exchange/bing_x/bing_x_auth.py:32 | In-place `update`; the entries become `PutAll` of the old entries and the other dict's entries |
| Text.Less | hummingbot/connector/exchange/bing_x/bing_x_auth.py:21 | A proper prefix sorts first, and nothing sorts before itself (order laws: the four lemmas below) |
| Text.LessIrreflexive | hummingbot/connector/exchange/bing_x/bing_x_auth.py:21 | No string sorts before itself |
| Text.LessTransitive | hummingbot/connector/exchange/bing_x/bing_x_auth.py:21 | The key order is transitive |
| Text.LessTotal | hummingbot/connector/exchange/bing_x/bing_x_auth.py:21 | Distinct keys are always ordered one way or the other |
| Text.LessAsymmetric | hummingbot/connector/exchange/bing_x/bing_x_auth.py:21 | The key order is asymmetric |
| Text.DigitChar | hummingbot/connector/exchange/bing_x/bing_x_auth.py:55 | A digit value maps to the decimal digit character of that value |
| Text.NatToString | hummingbot/connector/exchange/bing_x/bing_x_auth.py:55 | `str(n)`; its meaning is stated by `NatToStringRoundTrip` (digits, no leading zero, parses back to `n`) and `NatToStringInjective` |
| Text.NatToStringStep | hummingbot/connector/exchange/bing_x/bing_x_auth.py:55 | Appending a digit to a positive number appends its character to `str(n)` |
| Text.NatToStringRoundTrip | hummingbot/connector/exchange/bing_x/bing_x_auth.py:55 | `str(n)` is non-empty and all digits, has no leading zero, and parses back to `n` |
| Text.NatToStringInjective | hummingbot/connector/exchange/bing_x/bing_x_auth.py:55 | Different timestamps render differently |
| Text.Contains | hummingbot/connector/exchange/derive/derive_exchange.py:165-169 | The empty string is in every string, and a contained string is no longer than the text (position form: `ContainsIff`) |
| Text.OccursAtContains | hummingbot/connector/exchange/derive/derive_exchange.py:165-169 | An occurrence at any position makes `sub in s` true |
| Text.ContainsOccursAt | hummingbot/connector/exchange/derive/derive_exchange.py:165-169 | `sub in s` yields a position where `sub` occurs |
| Text.ContainsIff | hummingbot/connector/exchange/derive/derive_exchange.py:165-169 | `sub in s` iff `sub` occurs at some position |
| Text.IndexOf | hummingbot/connector/exchange/derive/derive_exchange.py:592 | Finds the first occurrence of the separator |
| Text.Split | hummingbot/connector/exchange/derive/derive_exchange.py:592 | `str.split` yields at least one part |
| Text.SplitJoin | hummingbot/connector/exchange/derive/derive_exchange.py:592 | Splitting undoes joining when no part holds the separator |
| Text.JoinSplit | hummingbot/connector/exchange/derive/derive_exchange.py:592 | Joining the parts of a split gives the string back, and no part holds the separator |
| Text.SplitTwo | hummingbot/connector/exchange/derive/derive_exchange.py:592 | Two parts iff exactly one separator, and the parts are what lies before and after it |
| Encoding.Utf8Char | hummingbot/connector/exchange/bing_x/bing_x_auth.py:66 | A character encodes to 1-4 bytes; the lead byte announces the length and the rest are continuation bytes |
| Encoding.Utf8CharValue | hummingbot/connector/exchange/bing_x/bing_x_auth.py:66 | The bytes of a character decode back to its code point |
| Encoding.Utf8 | hummingbot/connector/exchange/bing_x/bing_x_auth.py:66 | `encode("utf8")`; its meaning is stated by `Utf8DecodeEncode` (it decodes back), `Utf8Append` and `Utf8Ascii` |
| Encoding.LeadLength | hummingbot/connector/exchange/bing_x/bing_x_auth.py:66 | A lead byte announces at most four bytes |
| Encoding.Utf8DecodeEncode | hummingbot/connector/exchange/bing_x/bing_x_auth.py:66 | Strict UTF-8 decoding of the encoding of any string gives the string back |
| Encoding.Utf8Injective | hummingbot/connector/exchange/bing_x/bing_x_auth.py:66 | Different strings have different UTF-8 encodings |
| Encoding.Utf8Ascii | hummingbot/connector/exchange/bing_x/bing_x_auth.py:66 | ASCII text encodes byte for byte |
| Encoding.Utf8Append | hummingbot/connector/exchange/bing_x/bing_x_auth.py:66 | Encoding distributes over concatenation |
| Encoding.LowerHexChar | hummingbot/connector/exchange/bing_x/bing_x_auth.py:66 | A nibble renders as a lowercase hex digit |
| Encoding.UpperHexValueChar | hummingbot/connector/exchange/bing_x/bing_x_auth.py:65 | A `%XX` digit reads back as its nibble |
| Encoding.HexDigest | hummingbot/connector/exchange/bing_x/bing_x_auth.py:66 | `hexdigest()` is two lowercase hex digits per byte |
| Encoding.HexDecodeDigest | hummingbot/connector/exchange/bing_x/bing_x_auth.py:66 | Decoding the hex digest gives the digest bytes back |
| Encoding.HexDigestInjective | hummingbot/connector/exchange/bing_x/bing_x_auth.py:66 | Different digests render differently |
| Encoding.PercentEncode | hummingbot/connector/exchange/bing_x/bing_x_auth.py:65 | Each byte becomes three query-safe characters |
| Encoding.QuoteChar | hummingbot/connector/exchange/bing_x/bing_x_auth.py:65 | Quoting one character yields only query-safe characters |
| Encoding.QuotePlus | hummingbot/connector/exchange/bing_x/bing_x_auth.py:65 | `quote_plus` output holds no `&`, `=` or other reserved character |
| Encoding.QuotePlusUnreserved | hummingbot/connector/exchange/bing_x/bing_x_auth.py:65 | Unreserved text (`A-Za-z0-9_.-~`) is left as it is |
| Encoding.UnquotePercent | hummingbot/connector/exchange/bing_x/bing_x_auth.py:65 | Unquoting a percent-encoded prefix yields its bytes |
| Encoding.UnquoteChar | hummingbot/connector/exchange/bing_x/bing_x_auth.py:65 | Unquoting a quoted character yields its UTF-8 bytes |
| Encoding.UnquoteQuotePlus | hummingbot/connector/exchange/bing_x/bing_x_auth.py:65 | Unquoting `quote_plus(s)` gives the UTF-8 bytes of `s` |
| Encoding.UrlEncode | hummingbot/connector/exchange/bing_x/bing_x_auth.py:65 | `urlencode(params)`; its meaning is stated by `UrlEncodeChars`, `ParseUrlEncode`, `ParseUrlEncodeText` and `UrlEncodeInjective` |
| Encoding.UrlEncodeChars | hummingbot/connector/exchange/bing_x/bing_x_auth.py:65 | The signed string holds only query-safe characters, `=` and `&` |
| Encoding.EncodedPairs | hummingbot/connector/exchange/bing_x/bing_x_auth.py:65 | One `k=v` segment per pair, in the dict's order |
| Encoding.PairBytes | hummingbot/connector/exchange/bing_x/bing_x_auth.py:65 | One byte pair per entry |
| Encoding.NoDelimiter | hummingbot/connector/exchange/bing_x/bing_x_auth.py:65 | Quoted text never contains a delimiter |
| Encoding.DecodeEncodedPair | hummingbot/connector/exchange/bing_x/bing_x_auth.py:65 | A `k=v` segment decodes to the UTF-8 of the key and of the value |
| Encoding.DecodeEncodedPairs | hummingbot/connector/exchange/bing_x/bing_x_auth.py:65 | All segments decode to their pairs |
| Encoding.ParseUrlEncode | hummingbot/connector/exchange/bing_x/bing_x_auth.py:65 | Splitting `urlencode(pairs)` at `&` and `=` and percent-decoding gives each key's and value's UTF-8 bytes back, in order |
| Encoding.DecodePairBytes | hummingbot/connector/exchange/bing_x/bing_x_auth.py:65-66 | UTF-8-decoding the byte pairs of a map gives its text pairs back |
| Encoding.ParseUrlEncodeText | hummingbot/connector/exchange/bing_x/bing_x_auth.py:65-66 | Splitting, percent-decoding and UTF-8-decoding `urlencode(pairs)` gives the text pairs back, in order |
| Encoding.UrlEncodeInjective | hummingbot/connector/exchange/bing_x/bing_x_auth.py:65 | Two different parameter maps never give the same signed string: the signed string determines the signed map |
| Encoding.UrlEncodeUnreserved | hummingbot/connector/exchange/bing_x/bing_x_auth.py:65 | With unreserved keys and values, the signed string is the plain `k=v&k=v` text |
| Encoding.PlainPairs | hummingbot/connector/exchange/bing_x/bing_x_auth.py:65 | The plain `k=v` segments |
| Encoding.UrlEncodeTwoUnreserved | hummingbot/connector/exchange/bing_x/bing_x_auth.py:65 | Two unreserved pairs encode as `k=v&k=v` |
| BingX.RestRequest.constructor | hummingbot/connector/exchange/bing_x/bing_x_auth.py:29-33 | A request holds its params and headers, either possibly None |
| BingX.BingXAuth.constructor | hummingbot/connector/exchange/bing_x/bing_x_auth.py:15-17 | The authenticator holds its API key and secret |
| BingX.BingXAuth.HeaderForAuthentication | hummingbot/connector/exchange/bing_x/bing_x_auth.py:87-91 | Exactly the two keys `X-BX-APIKEY` (API key) and `X-SOURCE-KEY` (source key) |
| BingX.BingXAuth.ReferralCodeHeaders | hummingbot/connector/exchange/bing_x/bing_x_auth.py:43-51 | Exactly `referer`, carrying the broker id |
| BingX.BingXAuth.MergedHeaders | hummingbot/connector/exchange/bing_x/bing_x_auth.py:30-33 | The headers left by `rest_authenticate`; their contents are stated by `CallerHeadersWin` |
| BingX.BingXAuth.CallerHeadersWin | hummingbot/connector/exchange/bing_x/bing_x_auth.py:29-33 | Merged headers: the generated keys plus the caller's, unique; a caller key reads the caller's value, others the generated one |
| BingX.BingXAuth.CustomApiKeyHeaderKept | hummingbot/connector/exchange/bing_x/bing_x_auth.py:29-33 | A caller's own `X-BX-APIKEY` survives; `X-SOURCE-KEY` is still added |
| BingX.BingXAuth.GenerateSignature | hummingbot/connector/exchange/bing_x/bing_x_auth.py:64-67 | The signature is lowercase hex and decodes to HMAC(UTF-8 secret, UTF-8 of `urlencode(params)`) |
| BingX.BingXAuth.SignatureIs64Hex | hummingbot/connector/exchange/bing_x/bing_x_auth.py:66 | With a 32-byte SHA-256 HMAC, the signature has 64 characters |
| BingX.BingXAuth.WithTimestamp | hummingbot/connector/exchange/bing_x/bing_x_auth.py:56-57 | The caller's map after the timestamp is written; its contents are stated by `SignedParamsContents` |
| BingX.BingXAuth.SignedParams | hummingbot/connector/exchange/bing_x/bing_x_auth.py:55-59 | The map that is signed; its contents and order are stated by `SignedParamsContents` |
| BingX.BingXAuth.AuthParams | hummingbot/connector/exchange/bing_x/bing_x_auth.py:53-62 | The map `add_auth_to_params` returns; its contents are stated by `AuthParamsContents` |
| BingX.BingXAuth.SignedString | hummingbot/connector/exchange/bing_x/bing_x_auth.py:65 | `encoded_params_str`, the `urlencode` of the signed map; `SignedStringExample` pins it on an example, and `UrlEncodeInjective` shows it determines the signed map |
| BingX.BingXAuth.SignedParamsContents | hummingbot/connector/exchange/bing_x/bing_x_auth.py:55-59 | What is signed: every parameter plus `timestamp` (the decimal clock), strictly ascending keys, nothing else |
| BingX.BingXAuth.AuthParamsContents | hummingbot/connector/exchange/bing_x/bing_x_auth.py:53-62 | The result holds the original pairs except `timestamp`/`signature`, the fresh timestamp, and the signature over the sorted map; keys unique |
| BingX.BingXAuth.FreshSignatureLastAndUnsigned | hummingbot/connector/exchange/bing_x/bing_x_auth.py:59-61 | On a map without `signature`, the signature is appended last and is not part of what it signs |
| BingX.BingXAuth.ReauthenticationOverwrites | hummingbot/connector/exchange/bing_x/bing_x_auth.py:53-62 | Re-authenticating keeps the same keys and length and overwrites `timestamp`; the stale signature is part of the newly signed map |
| BingX.BingXAuth.ParamsIndependentOfApiKey | hummingbot/connector/exchange/bing_x/bing_x_auth.py:58 | The API key never enters the signed parameters |
| BingX.BingXAuth.SignedStringExample | hummingbot/connector/exchange/bing_x/bing_x_auth.py:55-65 | `{"symbol": "BTC-USDT"}` at 1700000000000 ms signs exactly `symbol=BTC-USDT&timestamp=1700000000000` |
| BingX.BingXAuth.ExampleTimestamp | hummingbot/connector/exchange/bing_x/bing_x_auth.py:55 | `str(1700000000000)` is `"1700000000000"` |
| BingX.BingXAuth.ExampleEncoding | hummingbot/connector/exchange/bing_x/bing_x_auth.py:65 | The sorted example map url-encodes to the expected text |
| BingX.BingXAuth.AddAuthToParams | hummingbot/connector/exchange/bing_x/bing_x_auth.py:53-62 | Returns a fresh dict equal to the authenticated map; None and `{}` start empty; a non-empty caller dict gets `timestamp` written into it |
| BingX.BingXAuth.RestAuthenticate | hummingbot/connector/exchange/bing_x/bing_x_auth.py:23-34 | `request.params` becomes the authenticated map. The caller's own dict gets `timestamp` written into it when non-empty, and an empty one stays `{}`. `request.headers` becomes the generated headers updated with the old ones (just the two generated ones when there were none) |
| BingX.BingXAuth.AuthenticatedHeaders | hummingbot/connector/exchange/bing_x/bing_x_auth.py:30-33 | A fresh dict holding the generated headers updated with the caller's |
| BingX.BingXAuth.WsAuthenticate | hummingbot/connector/exchange/bing_x/bing_x_auth.py:36-41 | Streaming requests pass through unchanged |
| BingX.BingXAuth.GenerateWsAuthenticationMessage | hummingbot/connector/exchange/bing_x/bing_x_auth.py:69-82 | `op` is `auth`; `args` is API key, clock + 10000 ms, and a signature decoding to HMAC(secret, `GET/realtime` + expiry) |
| BingX.BingXAuth.WsSignedString | hummingbot/connector/exchange/bing_x/bing_x_auth.py:75 | `GET/realtime` followed by digits only |
| BingX.BingXAuth.WsSignatureIs64Hex | hummingbot/connector/exchange/bing_x/bing_x_auth.py:76-77 | With a 32-byte SHA-256 HMAC, the handshake signature is 64 lowercase hex characters |
| BingX.BingXAuth.WsSignedStringCarriesExpiry | hummingbot/connector/exchange/bing_x/bing_x_auth.py:75 | The handshake string is `GET/realtime` followed by exactly the digits of the expiry sent in `args[1]` |
| Derive.OrderTypeName | hummingbot/connector/exchange/derive/derive_exchange.py:373 | `order_type.name` is a non-empty upper-case identifier |
| Derive.OrderTypeNameInjective | hummingbot/connector/exchange/derive/derive_exchange.py:373 | Different order types are sent under different names |
| Derive.SupportedOrderTypes | hummingbot/connector/exchange/derive/derive_exchange.py:121-125 | LIMIT, LIMIT_MAKER and MARKET, each once, and not AMM_SWAP |
| Derive.TimeInForce | hummingbot/connector/exchange/derive/derive_exchange.py:356-360 | `fok` iff LIMIT_MAKER, `ioc` iff MARKET, `Gtc` iff LIMIT or any other type |
| Derive.TimeInForceDistinguishesSupported | hummingbot/connector/exchange/derive/derive_exchange.py:356-360 | The supported order types get pairwise different time-in-force values |
| Derive.Direction | hummingbot/connector/exchange/derive/derive_exchange.py:372 | `direction` is `"buy"` iff the trade type is BUY, `"sell"` otherwise |
| Derive.IsBidAsWritten | hummingbot/connector/exchange/derive/derive_exchange.py:371 | As written, `is_bid` is true for every trade type |
| Derive.SellOrderSentAsBid | hummingbot/connector/exchange/derive/derive_exchange.py:371-372 | As written, a SELL order is sent with `is_bid` true and `direction` `"sell"` |
| Derive.IsBid | hummingbot/connector/exchange/derive/derive_exchange.py:371-372 | Corrected `is_bid`: true iff the direction is `"buy"` |
| Derive.LastAmounts | hummingbot/connector/exchange/derive/derive_exchange.py:610-616 | Every balance written is the amount of some response entry of that asset |
| Derive.LastAmountsKeys | hummingbot/connector/exchange/derive/derive_exchange.py:609-621 | The reconciled balances hold exactly the assets named in the response |
| Derive.LastAmountsValue | hummingbot/connector/exchange/derive/derive_exchange.py:610-616 | Each asset's balance is the amount of its last entry; later entries overwrite earlier ones |
| Derive.CombineToHbTradingPair | hummingbot/connector/exchange/derive/derive_exchange.py:594 | Hyphen-free halves are recovered by splitting the joined pair at its hyphen |
| Derive.AddSymbol | hummingbot/connector/exchange/derive/derive_exchange.py:593-595 | Fails with the unsplittable-name error iff the name does not have exactly one hyphen, and any error names the entry. On success the keys gain the name, other keys keep their pairs, and an injective bidict stays injective |
| Derive.CombineSplit | hummingbot/connector/exchange/derive/derive_exchange.py:592-593 | Rejoining the two halves of a single-hyphen name gives the name back |
| Derive.AddSymbolToIdentity | hummingbot/connector/exchange/derive/derive_exchange.py:592-594 | On an identity bidict, a single-hyphen name is added mapped to itself, without a duplication error |
| Derive.SymbolMap | hummingbot/connector/exchange/derive/derive_exchange.py:587-596 | Any error names a valid entry of the response |
| Derive.SymbolMapIdentity | hummingbot/connector/exchange/derive/derive_exchange.py:587-596 | The map is built iff every valid name has exactly one hyphen; it then maps exactly the valid names, each to itself |
| Derive.SymbolMapErrorSticks | hummingbot/connector/exchange/derive/derive_exchange.py:590-594 | The first error aborts the construction: a failing prefix decides the result |
| Derive.FirstStatus | hummingbot/connector/exchange/derive/derive_exchange.py:249-256 | `statuses[0]`: `KeyError` iff the path is missing, `IndexError` iff the list is empty, otherwise the first entry |
| Derive.ClassifyCancel | hummingbot/connector/exchange/derive/derive_exchange.py:249-256 | Marked not-found iff the status is `err` or `statuses[0]` has `error`, and then it raises; returns True iff there is no error and `success` is present, False otherwise; KeyError/IndexError for a malformed response |
| Derive.Tag | hummingbot/connector/exchange/derive/derive_exchange.py:476-481 | One dispatch per data element, in order |
| Derive.DeriveExchange.constructor | hummingbot/connector/exchange/derive/derive_exchange.py:39-57 | A new connector has no instruments, no symbol map and empty balances |
| Derive.DeriveExchange.IsOrderNotFoundDuringStatusUpdateError | hummingbot/connector/exchange/derive/derive_exchange.py:165-166 | True iff the error text contains the order-not-exist message at some position |
| Derive.DeriveExchange.IsOrderNotFoundDuringCancelationError | hummingbot/connector/exchange/derive/derive_exchange.py:168-169 | True iff the error text contains the unknown-order message at some position |
| Derive.DeriveExchange.UpdateBalances | hummingbot/connector/exchange/derive/derive_exchange.py:598-621 | Both balance dicts become exactly the response's assets at their last amounts; stale assets are deleted; both dicts keep the same keys |
| Derive.DeriveExchange.WriteBalances | hummingbot/connector/exchange/derive/derive_exchange.py:610-616 | The first loop: both dicts become the old ones overlaid with the response's last amounts, and the names collected are exactly the response's assets |
| Derive.DeriveExchange.PruneBalances | hummingbot/connector/exchange/derive/derive_exchange.py:618-621 | The second loop: each stale name is deleted from both dicts, and nothing else changes |
| Derive.DeriveExchange.InitializeTradingPairSymbols | hummingbot/connector/exchange/derive/derive_exchange.py:587-596 | On success the symbol map is the bidict of the valid entries; on a split or duplication error nothing is stored |
| Derive.DeriveExchange.FindInstrument | hummingbot/connector/exchange/derive/derive_exchange.py:350-355 | Returns the first ticker entry named `symbol`, or nothing iff there is none |
| Derive.DeriveExchange.PlaceOrderParams | hummingbot/connector/exchange/derive/derive_exchange.py:349-377 | Fails iff no instrument matches. Otherwise the payload has the first match's asset address and sub id, the order type's time-in-force and name, `direction` `"buy"` iff BUY, and the fixed fields. `is_bid` is true for every order as written, so it agrees with the corrected `IsBid` iff the order is BUY |
| Derive.DeriveExchange.OrdersChannel | hummingbot/connector/exchange/derive/derive_exchange.py:464 | `<sub_id>.` followed by exactly the orders endpoint name |
| Derive.DeriveExchange.EventsChannel | hummingbot/connector/exchange/derive/derive_exchange.py:465 | `<sub_id>.` followed by exactly the user-event endpoint name |
| Derive.DeriveExchange.ChannelsDiffer | hummingbot/connector/exchange/derive/derive_exchange.py:463-466 | The two channels differ iff their endpoint names do |
| Derive.DeriveExchange.EventDispatches | hummingbot/connector/exchange/derive/derive_exchange.py:476-485 | Every call carries an element of the message's data. Orders come exactly from the orders channel, and trades only from the events channel |
| Derive.DeriveExchange.Route | hummingbot/connector/exchange/derive/derive_exchange.py:467-485 | The listener stops only on a cancellation |
| Derive.DeriveExchange.RouteUserStream | hummingbot/connector/exchange/derive/derive_exchange.py:458-485 | The dispatches and the stop flag are those of `Route` |
| Derive.DeriveExchange.HandleEvent | hummingbot/connector/exchange/derive/derive_exchange.py:466-481 | One non-cancel message: the order channel's data go to order processing and the event channel's data to trade processing, in order; anything else causes nothing |
| Derive.DeriveExchange.SkipAfterCancel | hummingbot/connector/exchange/derive/derive_exchange.py:468-469 | Once the cancellation is seen, later events change nothing |
| Derive.DeriveExchange.CancelStops | hummingbot/connector/exchange/derive/derive_exchange.py:468-469 | A cancellation ends routing: nothing after it is dispatched |
| Derive.DeriveExchange.ForeignEventSkipped | hummingbot/connector/exchange/derive/derive_exchange.py:465-475 | An event on another channel, without a channel, or not a dict is skipped |
| Derive.DeriveExchange.DispatchSources | hummingbot/connector/exchange/derive/derive_exchange.py:476-481 | Each processed order comes from an order-channel message's data, each trade from an event-channel message's data |
| Derive.DeriveExchange.OrdersAllProcessed | hummingbot/connector/exchange/derive/derive_exchange.py:476-478 | Without a cancellation, every element of every order-channel message is processed |
| Derive.DeriveExchange.TradesAllProcessed | hummingbot/connector/exchange/derive/derive_exchange.py:483-485 | With distinct endpoints and no cancellation, every element of every events-channel message is processed as a trade |
| Derive.DeriveExchange.NoCancelNotStopped | hummingbot/connector/exchange/derive/derive_exchange.py:463-485 | A stream without a cancellation is routed to its end |

## Left out

- The clock. `time.time()` (bing_x_auth.py:55) and `self.time_provider.time()` (bing_x_auth.py:74) become the `nowMs` parameter, in whole milliseconds.
  - The expiry is `nowMs + 10000`. The float product `int((t + 10) * 1e3)` and its rounding are not modelled.
  - `time_provider` is not assigned anywhere in `BingXAuth`. The model assumes the caller supplies it.
- Encoding.Utf8: strings are sequences of Unicode scalar values. A Python `str` may hold a lone surrogate (`"\udc80"`), and then `encode("utf8")` raises `UnicodeEncodeError` under strict errors (bing_x_auth.py:66, :76). That error is not modelled, so a secret key with a lone surrogate cannot be stated.
- Encoding.QuotePlus: for the same reason, the `UnicodeEncodeError` that `quote_plus` raises on a key or value holding a lone surrogate is not modelled.
- Encoding.UrlEncode: the `UnicodeEncodeError` that `urlencode` raises through `quote_plus` (bing_x_auth.py:65) is not modelled. So `add_auth_to_params` and the streaming handshake never fail in the model.
- HMAC-SHA256 and SHA-256 internals are not modelled. The authenticator holds an opaque `Mac` function. `SignatureIs64Hex` assumes only that it returns 32 bytes.
- The MD5 client-order-id hashing of `buy`/`sell` is not modelled.
- Constants from modules that are not part of this model are constructor parameters:
  - `SOURCE_KEY` and `HBOT_BROKER_ID` of the BingX constants;
  - the Derive channel endpoint names and the two not-found messages.
- The `OrderType` and `TradeType` enums come from hummingbot's core. They are not part of this model and are given their known members.
- `combine_to_hb_trading_pair` is not part of this model. It is given its known hyphen-joining definition.
- `web_utils.is_exchange_information_valid` is not part of this model. It is a predicate parameter.
- Derive.DeriveExchange.UpdateBalances: requires the two balance dicts to share keys (a class invariant the connector keeps). Otherwise the source's `del` raises `KeyError`; that path is not modelled.
- Derive.DeriveExchange.UpdateBalances: amounts are the already parsed `Decimal` values (as reals). Parsing, and `InvalidOperation` on malformed text, are not modelled.
- Derive.DeriveExchange.PlaceOrderParams: the `str(price)` and `str(amount)` renderings of `Decimal` are taken as given text.
  - The exchange symbol comes from the base class's async lookup and is a parameter.
  - The post of the payload and the parsing of the response are not modelled.
- Derive.DeriveExchange.RouteUserStream: only the routing is modelled.
  - `_process_order_message` and `_process_trade_message` are assumed not to raise. Each call is recorded as a dispatch.
  - The 5-second sleep after a caught error is left out. Such an event is simply skipped.
  - A missing `data` raises `TypeError` in the source, which is caught. The model skips such an event.
  - A non-list `data` is treated as absent. Iterable non-lists (a string, a dict) are iterated by the source and are not modelled.
- Derive.DeriveExchange.OrdersChannel: the sub-account id is a natural number. A missing (`None`) or negative id is not modelled.
- Derive.ClassifyCancel: the `process_order_not_found` call is a flag in the result. The tracker's reaction is not modelled.
  - The response fields are decoded into a status text and a list of status dicts. Missing `response`/`data`/`statuses` levels all count as one `KeyError`.
- All other async network work in `derive_exchange.py` is out of scope: requests, retries, `safe_gather`, polling, the order tracker, fees and events.
- Float numerics in `derive_exchange.py` are not modelled: `quantize_order_price`, the `* 1e-3` conversions and the slippage computation.
- `_update_order_fills_from_trades` (derive_exchange.py:642-742) is left out. It indexes the list returned by `safe_gather` as a dict, so its behaviour is not well defined.
- Parameter and header values are their `str()` renderings. The model's dicts are `dict[str, str]`. `urlencode` signs a non-string value (an int, a bool) by its `str()` text, and the caller is taken to supply that text.
- BingX.RestRequest: the request's params and headers must be different dict objects when params are present. The source never aliases them.

## Findings

| source | as written | input that shows it | evidently intended | confidence | as-written member | corrected member |
|---|---|---|---|---|---|---|
| hummingbot/connector/exchange/derive/derive_exchange.py:371 | `"is_bid": True if TradeType.BUY else False` tests the enum member `BUY`, which is always truthy, so `is_bid` is always `True` | a SELL order: `is_bid` is `True` while `direction` is `"sell"` (lemma `SellOrderSentAsBid`) | `True if trade_type is TradeType.BUY else False`, matching `direction` on the next line | high (not executed) | Derive.DeriveExchange.PlaceOrderParams | Derive.IsBid |
