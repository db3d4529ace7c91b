/** The closed enumerations of the decoder: its error type, the request
    method and the protocol version, with their case-insensitive parsers. */
module Http {
  import opened Text

  /** `HttpRequestValidationErr`. `ResourceMalformed` is declared but never
      produced. */
  datatype ValidationErr =
    | Headline
    | MethodMissing
    | MethodMalformed
    | ResourceMissing
    | ResourceMalformed
    | HttpVersionMissing
    | HttpVersionMalformed
    | HeadersMalformed
    | BodyMalformed

  datatype Result<+T> = Ok(value: T) | Err(error: ValidationErr)

  /** The outcome of one decoding stage and where it left the shared
      reader. */
  datatype Parsed<+T> = Parsed(result: Result<T>, next: nat)

  datatype Method = GET | PUT | PATCH | POST | DELETE

  datatype Version = Http1_1 | Http2

  /** The canonical (upper-case) token of each method. */
  function MethodName(m: Method): Bytes {
    match m
    case GET => Ascii("GET")
    case PUT => Ascii("PUT")
    case PATCH => Ascii("PATCH")
    case POST => Ascii("POST")
    case DELETE => Ascii("DELETE")
  }

  /** The canonical token of each version. */
  function VersionName(v: Version): Bytes {
    match v
    case Http1_1 => Ascii("HTTP/1.1")
    case Http2 => Ascii("HTTP/2")
  }

  /** `HttpMethod::parse`: the token is upper-cased and compared with the
      five method names. */
  function ParseMethod(token: Bytes): (r: Result<Method>)
    ensures r.Ok? ==> Upper(token) == MethodName(r.value)
    ensures r.Err? ==> r.error == MethodMalformed
  {
    var u := Upper(token);
    if u == Ascii("GET") then Ok(GET)
    else if u == Ascii("PUT") then Ok(PUT)
    else if u == Ascii("POST") then Ok(POST)
    else if u == Ascii("PATCH") then Ok(PATCH)
    else if u == Ascii("DELETE") then Ok(DELETE)
    else Err(MethodMalformed)
  }

  /** `HttpVersion::parse`: the token is upper-cased and compared with the
      two version names. */
  function ParseVersion(token: Bytes): (r: Result<Version>)
    ensures r.Ok? ==> Upper(token) == VersionName(r.value)
    ensures r.Err? ==> r.error == HttpVersionMalformed
  {
    var u := Upper(token);
    if u == Ascii("HTTP/1.1") then Ok(Http1_1)
    else if u == Ascii("HTTP/2") then Ok(Http2)
    else Err(HttpVersionMalformed)
  }

  /** Upper-casing does not depend on the case the token was written in. */
  lemma UpperOfLower(s: Bytes)
    ensures Upper(Lower(s)) == Upper(s)
  {
    forall i | 0 <= i < |s| ensures Upper(Lower(s))[i] == Upper(s)[i] {
      assert Lower(s)[i] == LowerByte(s[i]);
    }
  }

  lemma NamesAreUpper(m: Method, v: Version)
    ensures Upper(MethodName(m)) == MethodName(m)
    ensures Upper(VersionName(v)) == VersionName(v)
  {
    UpperName(MethodName(m));
    UpperName(VersionName(v));
  }

  /** A token without lower-case letters is its own upper-casing. */
  lemma UpperName(n: Bytes)
    requires forall i :: 0 <= i < |n| ==> !('a' as int <= n[i] as int <= 'z' as int)
    ensures Upper(n) == n
  {
    forall i | 0 <= i < |n| ensures Upper(n)[i] == n[i] {
      assert Upper(n)[i] == UpperByte(n[i]);
    }
  }

  /** A token names method `m` exactly when it spells `m`'s name in some
      mix of ASCII letter cases; every other token is `MethodMalformed`. */
  lemma ParseMethodExactly(token: Bytes, m: Method)
    ensures ParseMethod(token) == Ok(m) <==> Upper(token) == MethodName(m)
    ensures ParseMethod(token).Err? <==>
      forall m' :: Upper(token) != MethodName(m')
  {
    var u := Upper(token);
    assert Ascii("GET") == [0x47, 0x45, 0x54];
    assert Ascii("PUT") == [0x50, 0x55, 0x54];
    assert Ascii("POST") == [0x50, 0x4F, 0x53, 0x54];
    assert Ascii("PATCH") == [0x50, 0x41, 0x54, 0x43, 0x48];
    assert Ascii("DELETE") == [0x44, 0x45, 0x4C, 0x45, 0x54, 0x45];
    if ParseMethod(token).Err? {
      forall m' ensures u != MethodName(m') {
        match m'
        case GET => case PUT => case PATCH => case POST => case DELETE =>
      }
    }
  }

  /** A token names version `v` exactly when it spells `v`'s name in some
      mix of ASCII letter cases; every other token is `HttpVersionMalformed`. */
  lemma ParseVersionExactly(token: Bytes, v: Version)
    ensures ParseVersion(token) == Ok(v) <==> Upper(token) == VersionName(v)
    ensures ParseVersion(token).Err? <==>
      forall v' :: Upper(token) != VersionName(v')
  {
    var u := Upper(token);
    assert Ascii("HTTP/1.1") == [0x48, 0x54, 0x54, 0x50, 0x2F, 0x31, 0x2E, 0x31];
    assert Ascii("HTTP/2") == [0x48, 0x54, 0x54, 0x50, 0x2F, 0x32];
    if ParseVersion(token).Err? {
      forall v' ensures u != VersionName(v') {
        match v'
        case Http1_1 => case Http2 =>
      }
    }
  }

  /** The canonical name parses back to its method or version, and so does
      its lower-case spelling. */
  lemma NamesRoundTrip(m: Method, v: Version)
    ensures ParseMethod(MethodName(m)) == Ok(m)
    ensures ParseMethod(Lower(MethodName(m))) == Ok(m)
    ensures ParseVersion(VersionName(v)) == Ok(v)
    ensures ParseVersion(Lower(VersionName(v))) == Ok(v)
  {
    NamesAreUpper(m, v);
    UpperOfLower(MethodName(m));
    UpperOfLower(VersionName(v));
    ParseMethodExactly(MethodName(m), m);
    ParseMethodExactly(Lower(MethodName(m)), m);
    ParseVersionExactly(VersionName(v), v);
    ParseVersionExactly(Lower(VersionName(v)), v);
  }
}
