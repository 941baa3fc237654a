/**
 * Credentials and the Authorization value (`src/context.rs`):
 *   "HS256 " ++ base64(public_key ++ ":" ++ timestamp ++ ":" ++ hex(HMAC-SHA256(private_key, message)))
 * HMAC-SHA256 (RFC 2104 over SHA-256) is not computed here: it is the parameter `mac`, any
 * function from (key bytes, message bytes) to a 32-byte digest. Everything around it is exact.
 */
module Context {
  import opened Wrappers
  import opened Bytes
  import Utf8
  import Hex
  import Base64
  import Urls

  type Digest = d: seq<byte> | |d| == 32 witness seq(32, i => 0)

  /** HMAC-SHA256 keyed by the first argument, over the second. */
  type Mac = (seq<byte>, seq<byte>) -> Digest

  /** `AuthContext::new` is the constructor: both keys are kept verbatim, an empty one included. */
  datatype AuthContext = AuthContext(publicKey: string, privateKey: string, baseUrl: Urls.UrlValue)

  const SCHEME := "HS256 "

  /** The string that is base64-encoded: `format!("{}:{}:{}", public_key, timestamp, hex)`. */
  function Composite(publicKey: string, timestamp: string, digest: Digest): (c: string)
    ensures |c| == |publicKey| + |timestamp| + 66
  {
    publicKey + ":" + timestamp + ":" + Hex.Encode(digest)
  }

  /** `AuthContext::sign(message, timestamp)`. */
  function Sign(ctx: AuthContext, mac: Mac, message: string, timestamp: string): (r: string)
    ensures |r| >= |SCHEME| && r[..|SCHEME|] == SCHEME
    ensures ReadAuthorization(r) ==
      Some(Composite(ctx.publicKey, timestamp, mac(Utf8.Encode(ctx.privateKey), Utf8.Encode(message))))
    ensures forall i | 0 <= i < |r| :: 0x20 <= r[i] as int < 0x7F
  {
    Armor(Composite(ctx.publicKey, timestamp, mac(Utf8.Encode(ctx.privateKey), Utf8.Encode(message))))
  }

  /** The scheme followed by the base64 of the UTF-8 bytes: printable ASCII that reads back as `composite`. */
  function Armor(composite: string): (r: string)
    ensures |r| >= |SCHEME| && r[..|SCHEME|] == SCHEME
    ensures ReadAuthorization(r) == Some(composite)
    ensures forall i | 0 <= i < |r| :: 0x20 <= r[i] as int < 0x7F
  {
    var e := Base64.Encode(Utf8.Encode(composite));
    ReadArmor(composite);
    PrintableAfterScheme(e);
    SCHEME + e
  }

  lemma PrintableAfterScheme(e: string)
    requires forall i | 0 <= i < |e| :: Base64.IsAlphabetChar(e[i]) || e[i] == Base64.PAD
    ensures forall i | 0 <= i < |SCHEME + e| :: 0x20 <= (SCHEME + e)[i] as int < 0x7F
  {
    forall i | 0 <= i < |SCHEME + e| ensures 0x20 <= (SCHEME + e)[i] as int < 0x7F {
      if i >= |SCHEME| {
        assert (SCHEME + e)[i] == e[i - |SCHEME|];
      }
    }
  }

  lemma ReadArmor(composite: string)
    ensures ReadAuthorization(SCHEME + Base64.Encode(Utf8.Encode(composite))) == Some(composite)
  {
    var e := Base64.Encode(Utf8.Encode(composite));
    assert (SCHEME + e)[..|SCHEME|] == SCHEME;
    assert (SCHEME + e)[|SCHEME|..] == e;
    Base64.DecodeEncode(Utf8.Encode(composite));
    Utf8.DecodeEncode(composite);
  }

  /** What the exchange reads back from an Authorization value: strip the scheme, decode base64, decode UTF-8. */
  function ReadAuthorization(v: string): Option<string> {
    if |v| < |SCHEME| || v[..|SCHEME|] != SCHEME then None
    else match Base64.Decode(v[|SCHEME|..])
      case None => None
      case Some(bytes) => Utf8.Decode(bytes)
  }

  /** The position of the last `ch` in `s`. */
  function LastIndex(s: string, ch: char): (r: Option<nat>)
    ensures r.Some? ==> r.value < |s| && s[r.value] == ch && forall j | r.value < j < |s| :: s[j] != ch
    ensures r.None? ==> forall j | 0 <= j < |s| :: s[j] != ch
  {
    if s == [] then None
    else if s[|s| - 1] == ch then Some(|s| - 1)
    else LastIndex(s[..|s| - 1], ch)
  }

  /**
   * The partner of `Composite`: reads (public key, timestamp, hex digest) back, taking the
   * 64 hex digits from the end and the timestamp up to the colon before them.
   */
  function SplitComposite(c: string): Option<(string, string, string)> {
    if |c| < 66 || c[|c| - 65] != ':' then None
    else
      var head := c[..|c| - 65];
      match LastIndex(head, ':')
      case None => None
      case Some(i) => Some((head[..i], head[i + 1..], c[|c| - 64..]))
  }

  /** A composite splits back into its parts whenever the timestamp holds no colon (a decimal one never does). */
  lemma SplitCompositeOf(publicKey: string, timestamp: string, digest: Digest)
    requires forall j | 0 <= j < |timestamp| :: timestamp[j] != ':'
    ensures SplitComposite(Composite(publicKey, timestamp, digest)) == Some((publicKey, timestamp, Hex.Encode(digest)))
  {
    var c := Composite(publicKey, timestamp, digest);
    var head := publicKey + ":" + timestamp;
    assert c == head + ":" + Hex.Encode(digest);
    assert c[..|c| - 65] == head && c[|c| - 64..] == Hex.Encode(digest);
    assert head[|publicKey|] == ':';
    var i := LastIndex(head, ':').value;
    assert i == |publicKey|;
    assert head[..i] == publicKey && head[i + 1..] == timestamp;
  }

  /** Equal composites with equal public keys have equal timestamps and equal digests. */
  lemma CompositeInjective(p: string, t1: string, t2: string, d1: Digest, d2: Digest)
    requires forall j | 0 <= j < |t1| :: t1[j] != ':'
    requires forall j | 0 <= j < |t2| :: t2[j] != ':'
    requires Composite(p, t1, d1) == Composite(p, t2, d2)
    ensures t1 == t2 && d1 == d2
  {
    SplitCompositeOf(p, t1, d1);
    SplitCompositeOf(p, t2, d2);
    Hex.EncodeInjective(d1, d2);
  }

  /** The hex part is 64 lower-case digits for the 32-byte digest. */
  lemma DigestHex(d: Digest)
    ensures |Hex.Encode(d)| == 64 && forall i | 0 <= i < 64 :: Hex.IsLowerHexDigit(Hex.Encode(d)[i])
  {
  }

  /**
   * The message reaches the signature only through its digest: two messages with one digest
   * sign alike, and two signatures with one public key and colon-free timestamps are equal
   * only when timestamps and digests are.
   */
  lemma SignSeparates(ctx: AuthContext, mac: Mac, m1: string, m2: string, t1: string, t2: string)
    requires forall j | 0 <= j < |t1| :: t1[j] != ':'
    requires forall j | 0 <= j < |t2| :: t2[j] != ':'
    ensures var k := Utf8.Encode(ctx.privateKey);
      Sign(ctx, mac, m1, t1) == Sign(ctx, mac, m2, t2) <==>
      t1 == t2 && mac(k, Utf8.Encode(m1)) == mac(k, Utf8.Encode(m2))
  {
    var k := Utf8.Encode(ctx.privateKey);
    if Sign(ctx, mac, m1, t1) == Sign(ctx, mac, m2, t2) {
      var d1, d2 := mac(k, Utf8.Encode(m1)), mac(k, Utf8.Encode(m2));
      assert Some(Composite(ctx.publicKey, t1, d1)) == Some(Composite(ctx.publicKey, t2, d2));
      CompositeInjective(ctx.publicKey, t1, t2, d1, d2);
    }
  }
}
