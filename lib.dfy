/**
 * The crate-level helpers (`src/lib.rs`): `authentificate`, which repeats the message and
 * signature composition of the client and of `AuthContext::sign` inline, and `get_balance`,
 * which builds a signed balance request without sending it.
 */
module Lib {
  import opened Wrappers
  import opened Bytes
  import opened Errors
  import opened Urls
  import opened Http
  import Utf8
  import Hex
  import Base64
  import Decimal
  import Context
  import Client

  /** `authentificate`, written out as the source writes it, with its own copy of the composition. */
  function Authenticate(publicKey: string, secretKey: string, url: UrlValue, body: seq<byte>, m: Method,
                        mac: Context.Mac, now: Decimal.i64): (r: Result<string, Error>)
    ensures r.Failure? <==> Utf8.Decode(body).None?
    ensures r.Failure? ==> r.error == BodyNotUtf8
    ensures r.Success? ==> var ts := Decimal.IntToString(now);
      r.value == Context.Sign(Context.AuthContext(publicKey, secretKey, url), mac,
                              Client.GetMessage(m, ts, PathWithQuery(url), Utf8.Decode(body).value), ts)
  {
    var timestamp := Decimal.IntToString(now);
    var pathWithQuery := PathWithQuery(url);
    match Utf8.Decode(body)
    case None => Failure(BodyNotUtf8)
    case Some(text) =>
      var message := MethodString(m) + timestamp + pathWithQuery + text;
      var digest := mac(Utf8.Encode(secretKey), Utf8.Encode(message));
      Success("HS256 " + Base64.Encode(Utf8.Encode(publicKey + ":" + timestamp + ":" + Hex.Encode(digest))))
  }

  /** The two copies of the composition agree for every key pair, whatever the base URL of the context. */
  lemma AuthenticateIsSign(publicKey: string, secretKey: string, base: UrlValue, url: UrlValue, body: seq<byte>,
                           m: Method, mac: Context.Mac, now: Decimal.i64)
    requires Utf8.Decode(body).Some?
    ensures var ts := Decimal.IntToString(now);
      Authenticate(publicKey, secretKey, url, body, m, mac, now) ==
      Success(Context.Sign(Context.AuthContext(publicKey, secretKey, base), mac,
                           Client.GetMessage(m, ts, PathWithQuery(url), Utf8.Decode(body).value), ts))
  {
  }

  /**
   * `get_balance` in the crate root: push `account` then `balance` (an `unwrap` where the
   * client has `expect`), sign GET over an empty body against that same URL, and build the
   * request; `.ok()` makes a build failure `None`, which the valid headers rule out.
   */
  method GetBalance(base: UrlValue, publicKey: string, privateKey: string, mac: Context.Mac, now: Decimal.i64)
    returns (r: Result<Option<Request>, Error>)
    ensures r.Success? <==> base.path.Segments?
    ensures base.path.Opaque? ==> r == Failure(BadUrl)
    ensures r.Success? ==> r.value.Some?
    ensures r.Success? ==> var req := r.value.value;
      req.url == WithSegments(base, [Client.ACCOUNT, Client.BALANCE]) &&
      Success(req) == Client.Process(Context.AuthContext(publicKey, privateKey, base), mac, req.url, Get, [], now)
  {
    var url := new Url(base);
    if url.CannotBeABase() {
      return Failure(BadUrl);
    }
    url.Push("account");
    url.Push("balance");
    assert url.Value() == WithSegments(base, [Client.ACCOUNT, Client.BALANCE]) by {
      var ss := base.path.segments;
      assert PushedAll(ss, [Client.ACCOUNT, Client.BALANCE]) == PushedAll(PushedSegments(ss, Client.ACCOUNT), [Client.BALANCE]);
      assert PushedAll(PushedSegments(ss, Client.ACCOUNT), [Client.BALANCE])
          == PushedSegments(PushedSegments(ss, Client.ACCOUNT), Client.BALANCE);
    }
    assert Utf8.Decode([]) == Some([]);
    var signed := Authenticate(publicKey, privateKey, url.Value(), [], Get, mac, now);
    var jwt := signed.value;
    Client.BuildSigned(Get, url.Value(), jwt);
    var built := Build(Get, url.Value(), [ACCEPT_JSON, ("Authorization", jwt)], []);
    r := Success(if built.Success? then Some(built.value) else None);
  }
}
