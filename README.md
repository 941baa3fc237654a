# btc_sdk request signing and wire mapping, in Dafny

This project models the core of `btc_sdk`, a Rust client for a spot-exchange REST API. The core turns domain values into exchange requests, in four parts:

- **Coins, symbols, sides and order types, and their wire strings.** A `Coin` prints through a fixed table. Any other code passes through as `Unknown`. A `Symbol` is two coin codes run together. `Side` and `Type` each have one wire string per variant.
- **The canonical message and its signature.** The message is `method ++ timestamp ++ path_with_query ++ body`. The `Authorization` value is `"HS256 " ++ base64(public_key ++ ":" ++ timestamp ++ ":" ++ hex(HMAC-SHA256(private_key, message)))`.
- **URL assembly.** Each getter clones the base URL and pushes fixed path segments onto it. It then appends optional query pairs, and only the ones the caller supplied.
- **The `process` pipeline** of the authenticated client. It decodes the body as UTF-8, takes one timestamp, signs with it and builds the request. The request it builds always has an empty body.

The typed order builders, the order-book page selector and the `CreateOrder` field set of `src/models.rs` are modelled too.

## Module layout

Each module follows one source file:

| Module | Source file |
|---|---|
| `Coins` | `coin.rs` |
| `Base` | `base.rs` |
| `Context` | `context.rs` |
| `Client` | `client.rs` |
| `PublicClient` | `public_client.rs` |
| `Lib` | `lib.rs` |
| `Models` | `models.rs` |

The library behaviour the source relies on is written out as modules of its own. Each of the four byte and text codecs (`Utf8`, `Hex`, `Base64`, `Decimal`) is exact and comes with a decoder proved to invert it. `Urls` and `Http` keep only what the getters use, and their omissions are listed under "Left out":

| Module | What it models |
|---|---|
| `Utf8` | `as_bytes` and `String::from_utf8` |
| `Hex` | `hex::encode`, lower-case |
| `Base64` | `base64::encode`, RFC 4648 section 4, with padding |
| `Decimal` | `to_string` of `i64` and `u64` |
| `Urls` | the parts of `url::Url` the getters touch |
| `Http` | the method tokens and the request builder |

Three things the source gets from outside become parameters:

- HMAC-SHA256 is `mac`: any function from key bytes and message bytes to a 32-byte digest.
- The clock is `now: i64`.
- `f64` formatting and parsing are the functions `format` and `parse`. An `f64` is its 64-bit pattern.

A panic the modelled code can reach on its inputs becomes a `Failure` carrying an `Errors.Error`. The caller can see which one it was. There are four: the path push on a cannot-be-a-base URL, the UTF-8 decode of the body, the request builder and a float that does not parse. Three other panic sites fall outside the model, each listed under "Left out": the `expect(BAD_BODY)` on the body stream, the `unwrap` of the transport's answer and the `expect` on the HMAC key.

The getters change a URL in place, so they are methods working on an instance of the class `Urls.Url` through `Push` and `AppendPair`. The comma-join of `get_orderbook` folds over the list, so `PublicClient.JoinSymbols` is a method with a loop, proved equal to the function `CommaJoin`. Everything else is a function.

### Behaviour worth knowing

- **Query order.** `get_orderbook` appends `limit` before `symbols` (`src/public_client.rs:54-71`). `PublicClient.OrderbookQueryExample` shows the resulting pairs.
- **The sent body.** `process` signs the body it is given, but always sends an empty body (`src/client.rs:100`).
- **Content-Type.** No request sets a `Content-Type` header.
- **The USDT code.** The coin table prints USDT as `USDT20`, so BTC/USDT goes on the wire as `BTCUSDT20`.

## Model

| member | source | states |
|---|---|---|
| Coins.CoinString | src/coin.rs:11-18 | A listed coin prints as one of the three table codes, and an `Unknown` prints its own name. `Coins.ParsePrint` proves that parsing undoes this printing. |
| Coins.ParseCoin | src/coin.rs:21-29 | Printing the parsed coin gives the input string back. The result is `Unknown` exactly when the string is not `TON`, `BTC` or `USDT20`. It is never an `Unknown` that shadows a known code. |
| Coins.ParsePrint | src/coin.rs:11-29 | Parsing the printed form of `c` gives `c` back if and only if `c` is not an `Unknown` named after a known code. |
| Coins.BareUsdtIsUnknown | src/coin.rs:15-27 | `"USDT"` parses to `Unknown("USDT")`, whose wire string is not USDT's `"USDT20"`. |
| Coins.Reversed | src/coin.rs:45-50 | The reversed symbol has the old right coin on the left and the old left coin on the right. |
| Coins.ReversedTwice | src/coin.rs:45-50 | Reversing twice gives the symbol back. A symbol equals its reverse exactly when both coins are the same. |
| Coins.SymbolString | src/coin.rs:52-54 | The wire string is the left code followed by the right code, with no delimiter. Its length is the sum of the two code lengths. |
| Coins.ReversedString | src/coin.rs:45-54 | The reversed symbol prints the right code first, then the left code. |
| Coins.SplitAtBoundary | src/coin.rs:11-54 | Cutting the wire string where the left code ends and parsing both halves gives back a symbol of two canonical coins. |
| Coins.WireFormAmbiguous | src/coin.rs:52-54 | Without that cut point the wire form is ambiguous: TON/BTC and `Unknown("TONB")`/`Unknown("TC")` print alike. |
| Base.SideString | src/base.rs:8-13 | Every side's wire string is non-empty. |
| Base.TypeString | src/base.rs:25-32 | Every order type's wire string is non-empty. |
| Base.ParseSide | src/base.rs:8-13 | The inverse table: it returns `Some(s)` exactly when `s` prints as the input (`sell`, `buy`). |
| Base.ParseType | src/base.rs:25-32 | The inverse table: it returns `Some(t)` exactly when `t` prints as the input (`limit`, `market`, `stopLimit`, `stopMarket`). |
| Base.SideInjective | src/base.rs:8-13 | Distinct sides have distinct wire strings. |
| Base.TypeInjective | src/base.rs:25-32 | Distinct order types have distinct wire strings. |
| Context.Composite | src/context.rs:29-33 | The composite is as long as the public key plus the timestamp plus 66: two colons and 64 hex digits. |
| Context.Sign | src/context.rs:23-35 | The output starts with `HS256 ` and is printable ASCII. Reading it back gives the composite: strip the prefix, decode the base64, then decode the UTF-8. That composite is the public key, the timestamp, and the MAC of the private key's bytes over the message's bytes. |
| Context.Armor | src/context.rs:29-34 | `HS256 ` followed by the base64 of the UTF-8 of the composite is printable ASCII, and reads back as exactly that composite. |
| Context.SplitCompositeOf | src/context.rs:29-33 | With a colon-free timestamp, the composite splits back into public key, timestamp and hex digest. |
| Context.CompositeInjective | src/context.rs:29-33 | Two composites with one public key and colon-free timestamps are equal only when their timestamps and digests are equal. |
| Context.DigestHex | src/context.rs:33 | The hex part of a 32-byte digest is 64 lower-case hex digits. |
| Context.SignSeparates | src/context.rs:23-35 | Two signatures with the same keys and colon-free timestamps are equal if and only if the timestamps are equal and the two messages have the same MAC. The message reaches the output only through its digest. |
| Http.MethodString | src/lib.rs:19 | Each method's token is a non-empty run of capital letters. `Http.ParseMethod` is its inverse. |
| Http.ParseMethod | src/lib.rs:19 | The inverse of the method token table. |
| Http.MethodInjective | src/lib.rs:19 | Distinct methods print as distinct tokens. |
| Http.Build | src/client.rs:95-101 | The builder succeeds exactly when every header value is valid, and then holds the given method, URL, headers and body. Otherwise it fails with `BuildFailed`. |
| Http.PrintableIsHeaderValue | src/client.rs:97 | A printable-ASCII string is a valid header value. |
| Urls.PathWithQuery | src/client.rs:92 | The path string, then `?` and the `k=v` pairs joined by `&` when there are any. An empty query adds nothing. |
| Urls.Serialize | src/client.rs:98 | Cutting the serialized URL after the origin leaves the path-with-query. |
| Urls.PushedSegments | src/client.rs:34-37 | After a push, the last segment is the pushed one. |
| Urls.PushedPath | src/client.rs:34-37 | Pushing `s` makes the path string end in `/s`. It follows the old path, or replaces it when the old path was the root `/`. |
| Urls.PushedTwo | src/client.rs:34-37 | Pushing `a` (non-empty) and then `b` appends `/a/b` to the path string, or replaces a root `/` with it. |
| Urls.WithPairs | src/client.rs:53-56 | Appending pairs keeps the origin and the path, and extends the query by exactly those pairs, in order. |
| Urls.Url.constructor | src/client.rs:33 | The clone holds the base URL's value. |
| Urls.Url.Push | src/client.rs:34-37 | The path becomes the pushed segment list. Origin and query are unchanged. |
| Urls.Url.AppendPair | src/client.rs:54-55 | The query grows by one pair at the end. Origin and path are unchanged. |
| Client.GetMessage | src/client.rs:70-77 | The message is as long as its four parts together. It starts with the method token and ends with the body. |
| Client.MessageFields | src/client.rs:70-77 | When both paths start with `/`, equal messages have equal methods and equal timestamps. The method is the run of capitals, and the timestamp is the decimal run after it. |
| Client.MessagePathBodyAmbiguous | src/client.rs:76 | The message does not mark where the path ends and the body begins. |
| Client.MessageBytes | src/client.rs:89-94 | The UTF-8 of the message built from the decoded body is the UTF-8 of method, timestamp and path, followed by the raw body bytes. |
| Client.Process | src/client.rs:79-103 | Fails, with `BodyNotUtf8`, exactly when the body is not UTF-8. On success it keeps the method and the URL and sends an empty body. The headers are `Accept: application/json`, then `Authorization`. That header's value is `sign` of the message under the same timestamp, and it reads back as the composite whose MAC covers the signed bytes. |
| Client.BuildSigned | src/client.rs:95-101 | With the signature as `Authorization`, the request builder cannot fail. |
| Client.GetBalance | src/client.rs:32-48 | Fails with `BadUrl` exactly when the base URL cannot be a base. Otherwise the URL is the base with `account` then `balance` pushed, and the request is `process` of GET over an empty body on that URL. |
| Client.BalancePath | src/client.rs:33-37 | The balance path is the base path (nothing for the root) followed by `/account/balance`. Origin and query are the base's. |
| Client.GetAllOrders | src/client.rs:50-67 | Fails with `BadUrl` exactly when the base URL cannot be a base. Otherwise `order` is pushed, and the query gains the pair (`symbol`, wire string) if and only if a symbol is given. The request is `process` of GET over an empty body on that same URL. |
| PublicClient.JoinSymbols | src/public_client.rs:58-70 | The fold followed by the pop yields the symbols' wire strings joined by commas, in order. The popped character is always a comma, so the source's `assert_eq!` holds. |
| PublicClient.TrailingIsJoinComma | src/public_client.rs:62-69 | For a non-empty list, the fold's string is the join plus one trailing comma. |
| PublicClient.JoinLength | src/public_client.rs:58-70 | For n ≥ 1 strings, the join is as long as the strings together plus n − 1. |
| PublicClient.JoinEmpty | src/public_client.rs:67-70 | An empty list folds and joins to the empty string, so no pop happens. |
| PublicClient.SplitJoin | src/public_client.rs:58-70 | Cutting the join at its commas gives the list back when no wire string contains a comma. |
| PublicClient.OrderbookQueryExample | src/public_client.rs:54-71 | Limit 10 with [BTC/USDT, TON/USDT] appends `limit=10`, then `symbols=BTCUSDT20,TONUSDT20`. |
| PublicClient.BuildPublic | src/public_client.rs:32-37 | The public request (GET, `Accept` only, empty body) always builds. |
| PublicClient.GetAllSymbols | src/public_client.rs:26-42 | Fails with `BadUrl` exactly when the base URL cannot be a base. Otherwise it is GET on the base with `public` and `symbol` pushed. It carries only `Accept`, an empty body and no `Authorization` header. |
| PublicClient.GetOrderbook | src/public_client.rs:44-82 | Pushes `public` then `orderbook`. The query gains a `limit` pair exactly when a limit is given, and after it a `symbols` pair holding the comma-join exactly when a list is given. `Accept` only, empty body. |
| PublicClient.GetSymbolFromOrderbook | src/public_client.rs:84-112 | Pushes `public`, `orderbook` and the symbol's wire string. The query gains a `volume` pair when a volume is given, otherwise a `limit` pair when a limit is given. At most one pair is added. |
| Lib.Authenticate | src/lib.rs:9-31 | Fails with `BodyNotUtf8` exactly when the body is not UTF-8. Otherwise it equals `AuthContext::sign` of `get_message` under the same timestamp. |
| Lib.AuthenticateIsSign | src/lib.rs:9-31 | The inline composition agrees with `AuthContext::sign`, whatever base URL the context holds. |
| Lib.GetBalance | src/lib.rs:33-57 | Fails with `BadUrl` exactly when the base URL cannot be a base. Otherwise the result is always `Some`: a request on the base with `account`, `balance` pushed, identical to what `process` builds for GET over an empty body with the same keys. |
| Models.ParseF64 | src/models.rs:176 | Succeeds exactly when the parser accepts the text. Otherwise it fails with `FloatParse` naming that text. |
| Models.CurrencyFrom | src/models.rs:172-180 | Keeps the currency name and parses `available` and `reserved`. It fails exactly when one of them does not parse, and names `available` first. |
| Models.PriceFrom | src/models.rs:286-293 | The amount comes from `size` and the rate from `price`. It fails exactly when one does not parse, and names `size` first. |
| Models.ConvertPrices | src/models.rs:268-270 | Succeeds exactly when every entry converts. Then the result has the same length and order. Otherwise the error is the first failing entry's. |
| Models.NewOrderBookPage | src/models.rs:255-279 | `None` exactly when the book has no key equal to the symbol's wire string. Otherwise the page holds the input symbol and the converted bids for Buy or asks for Sell, same length and order. A failure comes from an entry of that list. |
| Models.Selected | src/models.rs:264-267 | A buyer reads the bids and a seller the asks. |
| Models.MarketToModel | src/models.rs:204-215 | The model has the symbol's wire string, a side that reads back as the input side, the formatted quantity, and a type that reads back as `market`. |
| Models.LimitToModel | src/models.rs:240-247 | The model has the symbol's wire string, a side that reads back as the input side, and quantity and price from one formatter. |
| Models.MarketToModelRecovers | src/models.rs:204-215 | With canonical coins and left codes of equal length, equal models come from orders with the same symbol, the same side and quantities that print alike. The quantity itself is not recovered, since every NaN prints as `NaN`. |
| Models.PresentKeys | src/models.rs:58-84 | A key is written exactly when it is declared with a value. |
| Models.LookupPresent | src/models.rs:58-84 | With distinct keys, a declared key looks up to its value in the written object, or to nothing when it is skipped. |
| Models.CreateOrderFacts | src/models.rs:58-84 | This lemma gives `Models.CreateOrderFields`, the object serde writes, its meaning. The written keys are distinct serde names. `clientOrderId`, `type`, `timeInForce`, `price`, `stopPrice` and `expireTime` are present exactly when set. `symbol`, `side`, `quantity`, `strictValidate` and `postOnly` are always present, each with its own value. |
| Utf8.Encode | src/context.rs:25-27 | At least one byte per character. `Utf8.DecodeEncode` proves it inverted by `Utf8.Decode`. |
| Utf8.Decode | src/client.rs:90 | A decoded string has no more characters than the input has bytes. `Utf8.EncodeDecode` proves that what it accepts is exactly the encoding of its result. |
| Utf8.DecodeEncode | src/client.rs:90 | `from_utf8` accepts the bytes of every string and returns that string. |
| Utf8.EncodeDecode | src/client.rs:90 | `from_utf8` accepts only byte strings that are the bytes of the string it returns. |
| Utf8.EncodeConcat | src/client.rs:93 | The bytes of a concatenation are the concatenation of the bytes. |
| Hex.Encode | src/context.rs:33 | Two lower-case hex digits per byte. |
| Hex.DecodeEncode | src/context.rs:33 | Decoding the hex of `b` gives `b` back. |
| Hex.EncodeDecode | src/context.rs:33 | The decoder accepts only what the encoder produces. |
| Base64.Encode | src/context.rs:29-33 | Four characters for each started group of three bytes, each in the alphabet or the padding. |
| Base64.DecodeEncode | src/context.rs:29-34 | Decoding the padded base64 of `b` gives `b` back. |
| Base64.EncodeInjective | src/context.rs:29-33 | Different byte strings have different encodings. |
| Decimal.NatToString | src/public_client.rs:56 | One or more decimal digits with no leading zero. |
| Decimal.IntToString | src/client.rs:91 | Decimal digits with a leading `-` exactly for negative values. |
| Decimal.ParseIntToString | src/client.rs:91 | The printed timestamp parses back to the same integer. |
| Decimal.IntToStringInjective | src/client.rs:91 | Different integers print differently. |

## Left out

- **HTTP transport and async plumbing.** This covers `hyper::Client::request`, the `.await` points and `into_parts`. The getters end with the request they would send. Responses and their headers are not modelled.
- **Reading the body stream.** `hyper::body::to_bytes` and its `expect(BAD_BODY)` panic (`src/client.rs:89`) are not modelled. `process` receives the body as a byte sequence.
- **The transport's answer.** `client.request(request).await.unwrap()` (`src/client.rs:102`, `src/public_client.rs:38,79,109`) is not modelled. The getters end with the request they build.
- **The HMAC key check.** `new_varkey(..).expect(..)` (`src/context.rs:24-26`) never fires, since HMAC takes a key of any length. The model applies `mac` without modelling that `expect`.
- **Clients as values.** `PublicClient::new` (`src/public_client.rs:19-24`) stores an `Arc` handle to the hyper client and an owned base URL. `BTCClient::new` (`src/client.rs:22-30`) borrows the hyper client and the `AuthContext`, which owns the base URL. The model has no client values. The base URL and the auth context are parameters of the getters, and the hyper client is transport.
- **`src/extractor.rs`, `src/error.rs` and `src/time_in_force.rs`.** They are JSON decoding through serde, with no logic of their own. They are not part of this model.
- **serde `Deserialize`.** The untagged `Coin` and the response structs `Order`, `Symbol`, `PublicCurrency`, `OrderbookExactSymbol` and `TradingCommission` are decoded by serde, not by code in the core. Only the explicit table of `From<&str>` is modelled.
- **HMAC-SHA256 (RFC 2104 over SHA-256).** It is the parameter `mac`.
- Context.SignSeparates: states that the message enters the signature only through its digest. It does not state that changing any byte changes the signature, because that rests on HMAC collision resistance.
- **The clock** is the parameter `now`.
- **Floating point.** `format!("{}", f64)` and `f64::from_str` are parameters, so nothing is proved about the digits they produce.
- **URL percent-encoding.** The url crate's percent-encoding of segments and query values is not modelled. Segments and query values are kept as given.
- **Dot segments.** Skipping `.` and `..` on push is not modelled.
- **Fragments.** URL fragments are not modelled.
- **Raw queries.** A URL's query is a list of `key=value` pairs. A query the url crate would keep verbatim, such as a bare `?` or a key without `=`, cannot be written, so `Urls.PathWithQuery` covers only queries made of pairs.
- **Extension methods.** `Http.Method` has the nine standard methods only. `authentificate` (`src/lib.rs:14`) and `process` also accept `http::Method` extension tokens, which the model cannot express.
- Http.Build: checks header values only. It does not model the URI re-parse in `.uri(url.to_string())`, which hyper could reject. Header names are fixed constants and are always valid. For the same reason `Client.Process`, `Client.GetBalance`, `Client.GetAllOrders`, `PublicClient.GetAllSymbols`, `PublicClient.GetOrderbook`, `PublicClient.GetSymbolFromOrderbook` and `Lib.GetBalance` never fail with `BuildFailed` when their header values are valid.
- Lib.GetBalance: is always `Some`, because a URI rejection, the one way `.ok()` can give `None` here, is not modelled.
- **Logging and tests.** `log::info!` and the print-only test in `src/lib.rs:59-73` are not modelled.
