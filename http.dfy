/**
 * The request the client hands to the transport: method, URL, headers and body, as
 * `hyper::Request::builder()` assembles them. Sending it is outside the model.
 */
module Http {
  import opened Wrappers
  import opened Bytes
  import opened Errors
  import opened Urls

  /** The standard methods of `http::Method`. */
  datatype Method = Options | Get | Post | Put | Delete | Head | Trace | Connect | Patch

  /** `method.to_string()`: the upper-case method token. */
  function MethodString(m: Method): (r: string)
    ensures |r| > 0 && forall i | 0 <= i < |r| :: 'A' <= r[i] <= 'Z'
  {
    match m
    case Options => "OPTIONS"
    case Get => "GET"
    case Post => "POST"
    case Put => "PUT"
    case Delete => "DELETE"
    case Head => "HEAD"
    case Trace => "TRACE"
    case Connect => "CONNECT"
    case Patch => "PATCH"
  }

  /** The inverse of the method table: exactly the method whose token `w` is. */
  function ParseMethod(w: string): (r: Option<Method>)
    ensures forall m: Method :: r == Some(m) <==> MethodString(m) == w
  {
    if w == "OPTIONS" then Some(Options)
    else if w == "GET" then Some(Get)
    else if w == "POST" then Some(Post)
    else if w == "PUT" then Some(Put)
    else if w == "DELETE" then Some(Delete)
    else if w == "HEAD" then Some(Head)
    else if w == "TRACE" then Some(Trace)
    else if w == "CONNECT" then Some(Connect)
    else if w == "PATCH" then Some(Patch)
    else None
  }

  type Header = (string, string)

  const ACCEPT_JSON: Header := ("Accept", "application/json")

  datatype Request = Request(httpMethod: Method, url: UrlValue, headers: seq<Header>, body: seq<byte>)

  /** A character `http::HeaderValue` accepts: anything but a control character, horizontal tab excepted. */
  predicate IsHeaderValueChar(c: char) {
    c == '\t' || (c as int >= 0x20 && c as int != 0x7F)
  }

  predicate IsHeaderValue(v: string) {
    forall i | 0 <= i < |v| :: IsHeaderValueChar(v[i])
  }

  /** The builder's `.header(..)`, `.uri(..)`, `.method(..)` and `.body(..)`: it fails when a header value is invalid. */
  function Build(httpMethod: Method, url: UrlValue, headers: seq<Header>, body: seq<byte>): (r: Result<Request, Error>)
    ensures r.Success? <==> forall i | 0 <= i < |headers| :: IsHeaderValue(headers[i].1)
    ensures r.Success? ==> r.value == Request(httpMethod, url, headers, body)
    ensures r.Failure? ==> r.error == BuildFailed
  {
    if forall i | 0 <= i < |headers| :: IsHeaderValue(headers[i].1)
    then Success(Request(httpMethod, url, headers, body))
    else Failure(BuildFailed)
  }

  /** Printable ASCII is a valid header value. */
  lemma PrintableIsHeaderValue(v: string)
    requires forall i | 0 <= i < |v| :: 0x20 <= v[i] as int < 0x7F
    ensures IsHeaderValue(v)
  {
  }

  /** Different method tokens for different methods. */
  lemma MethodInjective(a: Method, b: Method)
    requires MethodString(a) == MethodString(b)
    ensures a == b
  {
    var r := ParseMethod(MethodString(a));
    assert r == Some(a) && r == Some(b);
  }
}
