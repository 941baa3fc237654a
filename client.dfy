/**
 * The authenticated client (`src/client.rs`): the canonical message, the `process`
 * pipeline that signs it, and the two getters that build their URL in place before
 * handing it to `process`. The transport and the response extractors are not modelled;
 * a getter ends with the request `process` would send.
 */
module Client {
  import opened Wrappers
  import opened Bytes
  import opened Errors
  import opened Urls
  import opened Http
  import Utf8
  import Decimal
  import Coins
  import Context

  const ACCOUNT := "account"
  const BALANCE := "balance"
  const ORDER := "order"

  /** `get_message`: the four parts run together with no separator. */
  function GetMessage(m: Method, timestamp: string, pathWithQuery: string, body: string): (r: string)
    ensures |r| == |MethodString(m)| + |timestamp| + |pathWithQuery| + |body|
    ensures r[..|MethodString(m)|] == MethodString(m)
    ensures r[|r| - |body|..] == body
  {
    var r := MethodString(m) + timestamp + pathWithQuery + body;
    assert r[|r| - |body|..] == body;
    r
  }

  /**
   * The method and the timestamp can be read back from a message whose path starts with a
   * slash: the method is the run of capitals, the timestamp the decimal run after it.
   */
  lemma MessageFields(m1: Method, m2: Method, t1: Decimal.i64, t2: Decimal.i64, p1: string, p2: string, b1: string, b2: string)
    requires |p1| > 0 && p1[0] == '/' && |p2| > 0 && p2[0] == '/'
    requires GetMessage(m1, Decimal.IntToString(t1), p1, b1) == GetMessage(m2, Decimal.IntToString(t2), p2, b2)
    ensures m1 == m2 && t1 == t2
  {
    var M1, M2 := MethodString(m1), MethodString(m2);
    var T1, T2 := Decimal.IntToString(t1), Decimal.IntToString(t2);
    var s1, s2 := T1 + (p1 + b1), T2 + (p2 + b2);
    Regroup(M1, T1, p1, b1);
    Regroup(M2, T2, p2, b2);
    assert M1 + s1 == M2 + s2;
    MethodBoundary(M1, s1, M2, s2);
    SplitEqual(M1, s1, M2, s2);
    MethodInjective(m1, m2);
    TimestampBoundary(T1, p1 + b1, T2, p2 + b2);
    SplitEqual(T1, p1 + b1, T2, p2 + b2);
    Decimal.IntToStringInjective(t1, t2);
  }

  lemma Regroup(a: string, b: string, c: string, d: string)
    ensures a + b + c + d == a + (b + (c + d))
  {
  }

  lemma SplitEqual(a1: string, r1: string, a2: string, r2: string)
    requires a1 + r1 == a2 + r2 && |a1| == |a2|
    ensures a1 == a2 && r1 == r2
  {
    assert a1 == (a1 + r1)[..|a1|];
    assert a2 == (a2 + r2)[..|a2|];
    assert r1 == (a1 + r1)[|a1|..];
    assert r2 == (a2 + r2)[|a2|..];
  }

  /** The length of the longest prefix of `s` whose characters all satisfy `p`. */
  function Run(s: string, p: char -> bool): (n: nat)
    ensures n <= |s|
  {
    if s == [] || !p(s[0]) then 0 else 1 + Run(s[1..], p)
  }

  lemma {:induction false} RunOf(a: string, r: string, p: char -> bool)
    requires forall i | 0 <= i < |a| :: p(a[i])
    requires |r| > 0 && !p(r[0])
    ensures Run(a + r, p) == |a|
  {
    if a != [] {
      assert (a + r)[1..] == a[1..] + r;
      RunOf(a[1..], r, p);
    }
  }

  predicate IsCapital(c: char) { 'A' <= c <= 'Z' }

  predicate IsDecimalChar(c: char) { Decimal.IsDigit(c) || c == '-' }

  /** Two capital runs followed by a non-capital end at the same place. */
  lemma MethodBoundary(a1: string, r1: string, a2: string, r2: string)
    requires forall i | 0 <= i < |a1| :: IsCapital(a1[i])
    requires forall i | 0 <= i < |a2| :: IsCapital(a2[i])
    requires |r1| > 0 && !IsCapital(r1[0]) && |r2| > 0 && !IsCapital(r2[0])
    requires a1 + r1 == a2 + r2
    ensures |a1| == |a2|
  {
    RunOf(a1, r1, IsCapital);
    RunOf(a2, r2, IsCapital);
  }

  /** Two decimal forms followed by a slash end at the same place. */
  lemma TimestampBoundary(a1: string, r1: string, a2: string, r2: string)
    requires forall i | 0 <= i < |a1| :: IsDecimalChar(a1[i])
    requires forall i | 0 <= i < |a2| :: IsDecimalChar(a2[i])
    requires |r1| > 0 && r1[0] == '/' && |r2| > 0 && r2[0] == '/'
    requires a1 + r1 == a2 + r2
    ensures |a1| == |a2|
  {
    RunOf(a1, r1, IsDecimalChar);
    RunOf(a2, r2, IsDecimalChar);
  }

  /** The boundary between path and body is not recoverable: the message does not say where the path ends. */
  lemma MessagePathBodyAmbiguous()
    ensures GetMessage(Get, "0", "/order", "x") == GetMessage(Get, "0", "/orderx", "")
  {
  }

  /** What the HMAC is computed over: the UTF-8 of method, timestamp and path, then the body's own bytes. */
  function SignedBytes(m: Method, timestamp: string, url: UrlValue, body: seq<byte>): seq<byte> {
    Utf8.Encode(MethodString(m) + timestamp + PathWithQuery(url)) + body
  }

  lemma MessageBytes(m: Method, timestamp: string, url: UrlValue, body: seq<byte>)
    requires Utf8.Decode(body).Some?
    ensures Utf8.Encode(GetMessage(m, timestamp, PathWithQuery(url), Utf8.Decode(body).value)) == SignedBytes(m, timestamp, url, body)
  {
    var text := Utf8.Decode(body).value;
    Utf8.EncodeConcat(MethodString(m) + timestamp + PathWithQuery(url), text);
    Utf8.EncodeDecode(body);
  }

  /**
   * `process`: decode the body as UTF-8, take one timestamp, sign method, timestamp,
   * path-with-query and body with it, and build a GET-or-other request carrying
   * `Accept` and `Authorization`, whose own body is empty whatever was signed.
   */
  function Process(ctx: Context.AuthContext, mac: Context.Mac, url: UrlValue, m: Method, body: seq<byte>, now: Decimal.i64): (r: Result<Request, Error>)
    ensures r.Failure? <==> Utf8.Decode(body).None?
    ensures r.Failure? ==> r.error == BodyNotUtf8
    ensures r.Success? ==> r.value.httpMethod == m && r.value.url == url && r.value.body == []
    ensures r.Success? ==>
      |r.value.headers| == 2 && r.value.headers[0] == ACCEPT_JSON && r.value.headers[1].0 == "Authorization"
    ensures r.Success? ==> var ts := Decimal.IntToString(now);
      r.value.headers[1].1 == Context.Sign(ctx, mac, GetMessage(m, ts, PathWithQuery(url), Utf8.Decode(body).value), ts)
    ensures r.Success? ==> var ts := Decimal.IntToString(now);
      Context.ReadAuthorization(r.value.headers[1].1) ==
        Some(Context.Composite(ctx.publicKey, ts, mac(Utf8.Encode(ctx.privateKey), SignedBytes(m, ts, url, body))))
  {
    match Utf8.Decode(body)
    case None => Failure(BodyNotUtf8)
    case Some(text) =>
      var ts := Decimal.IntToString(now);
      var message := GetMessage(m, ts, PathWithQuery(url), text);
      var jwt := Context.Sign(ctx, mac, message, ts);
      MessageBytes(m, ts, url, body);
      BuildSigned(m, url, jwt);
      Build(m, url, [ACCEPT_JSON, ("Authorization", jwt)], [])
  }

  lemma BuildSigned(m: Method, url: UrlValue, jwt: string)
    requires forall i | 0 <= i < |jwt| :: 0x20 <= jwt[i] as int < 0x7F
    ensures Build(m, url, [ACCEPT_JSON, ("Authorization", jwt)], []).Success?
  {
    PrintableIsHeaderValue(jwt);
    PrintableIsHeaderValue(ACCEPT_JSON.1);
    var headers := [ACCEPT_JSON, ("Authorization", jwt)];
    assert forall i | 0 <= i < |headers| :: IsHeaderValue(headers[i].1);
  }

  /** `BTCClient::get_balance` up to the send: push `account` then `balance`, no query, GET over an empty body. */
  method GetBalance(ctx: Context.AuthContext, mac: Context.Mac, now: Decimal.i64) returns (r: Result<Request, Error>)
    ensures r.Success? <==> ctx.baseUrl.path.Segments?
    ensures ctx.baseUrl.path.Opaque? ==> r == Failure(BadUrl)
    ensures r.Success? ==> r.value.url == WithSegments(ctx.baseUrl, [ACCOUNT, BALANCE])
    ensures r.Success? ==> r == Process(ctx, mac, r.value.url, Get, [], now)
  {
    var url := new Url(ctx.baseUrl);
    if url.CannotBeABase() {
      return Failure(BadUrl);
    }
    url.Push(ACCOUNT);
    url.Push(BALANCE);
    assert url.Value() == WithSegments(ctx.baseUrl, [ACCOUNT, BALANCE]) by {
      var ss := ctx.baseUrl.path.segments;
      assert PushedAll(ss, [ACCOUNT, BALANCE]) == PushedAll(PushedSegments(ss, ACCOUNT), [BALANCE]);
      assert PushedAll(PushedSegments(ss, ACCOUNT), [BALANCE]) == PushedSegments(PushedSegments(ss, ACCOUNT), BALANCE);
    }
    assert Utf8.Decode([]) == Some([]);
    r := Process(ctx, mac, url.Value(), Get, [], now);
  }

  /** The balance path is the base path (or nothing, for the root) followed by `/account/balance`; the query is the base's. */
  lemma BalancePath(base: UrlValue)
    requires WellFormed(base) && base.path.Segments?
    ensures var u := WithSegments(base, [ACCOUNT, BALANCE]);
      u.origin == base.origin && u.query == base.query &&
      PathString(u.path) == (if base.path.segments == [""] then "" else PathString(base.path)) + "/" + ACCOUNT + "/" + BALANCE
  {
    PushedTwo(base.path.segments, ACCOUNT, BALANCE);
  }

  /** `BTCClient::get_all_orders` up to the send: push `order`, then a `symbol` pair exactly when a symbol is given. */
  method GetAllOrders(ctx: Context.AuthContext, mac: Context.Mac, coins: Option<Coins.Symbol>, now: Decimal.i64)
    returns (r: Result<Request, Error>)
    ensures r.Success? <==> ctx.baseUrl.path.Segments?
    ensures ctx.baseUrl.path.Opaque? ==> r == Failure(BadUrl)
    ensures r.Success? ==> r.value.url.origin == ctx.baseUrl.origin
    ensures r.Success? ==> r.value.url.path == Segments(PushedSegments(ctx.baseUrl.path.segments, ORDER))
    ensures r.Success? ==>
      r.value.url.query == ctx.baseUrl.query + (if coins.Some? then [("symbol", Coins.SymbolString(coins.value))] else [])
    ensures r.Success? ==> r == Process(ctx, mac, r.value.url, Get, [], now)
  {
    var url := new Url(ctx.baseUrl);
    if url.CannotBeABase() {
      return Failure(BadUrl);
    }
    url.Push(ORDER);
    if coins.Some? {
      url.AppendPair("symbol", Coins.SymbolString(coins.value));
    }
    assert Utf8.Decode([]) == Some([]);
    r := Process(ctx, mac, url.Value(), Get, [], now);
  }
}
