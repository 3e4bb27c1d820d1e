/** `EntraSignInUrlTool.GetEntraSignInUrl`: the authorization request of the OAuth
    2.0 authorization-code grant (section 4.1.1 of RFC 6749) against the Microsoft
    identity platform, with `Uri.EscapeDataString` for the escaped parameters. */
module SignIn {
  import opened Wrappers
  import opened Text
  import opened AppConfig
  import Utf8

  // ---------------------------------------------------------------------------
  // Uri.EscapeDataString: every character outside the unreserved set of section
  // 2.3 of RFC 3986 becomes `%XX` for each byte of its UTF-8 encoding.

  predicate IsUnreserved(c: char) {
    'A' <= c <= 'Z' || 'a' <= c <= 'z' || '0' <= c <= '9' || c == '-' || c == '.' || c == '_' || c == '~'
  }

  predicate IsHexDigit(c: char) {
    '0' <= c <= '9' || 'A' <= c <= 'F'
  }

  function HexValue(c: char): (v: int)
    requires IsHexDigit(c)
    ensures 0 <= v < 16
  {
    if c <= '9' then c as int - '0' as int else c as int - 'A' as int + 10
  }

  /** The upper-case hexadecimal digit of `n`, the inverse of `HexValue`. */
  function HexDigit(n: int): (c: char)
    requires 0 <= n < 16
    ensures IsHexDigit(c) && HexValue(c) == n
  {
    if n < 10 then ('0' as int + n) as char else ('A' as int + n - 10) as char
  }

  /** `%XX` for one byte. */
  function PercentByte(b: Utf8.byte): (t: string)
    ensures |t| == 3 && t[0] == '%' && IsHexDigit(t[1]) && IsHexDigit(t[2])
    ensures HexValue(t[1]) * 16 + HexValue(t[2]) == b as int
  {
    ['%', HexDigit(b as int / 16), HexDigit(b as int % 16)]
  }

  function PercentEncode(bs: seq<Utf8.byte>): (t: string)
    ensures |t| == 3 * |bs|
  {
    if bs == [] then [] else PercentByte(bs[0]) + PercentEncode(bs[1..])
  }

  lemma {:induction false} PercentEncodeAlphabet(bs: seq<Utf8.byte>)
    ensures forall i :: 0 <= i < |PercentEncode(bs)| ==> PercentEncode(bs)[i] == '%' || IsHexDigit(PercentEncode(bs)[i])
  {
    if bs != [] {
      PercentEncodeAlphabet(bs[1..]);
      var t := PercentEncode(bs);
      forall i | 0 <= i < |t| ensures t[i] == '%' || IsHexDigit(t[i]) {
        if i >= 3 { assert t[i] == PercentEncode(bs[1..])[i - 3]; }
      }
    }
  }

  function EscapeChar(c: char): (t: string)
    ensures forall i :: 0 <= i < |t| ==> IsUnreserved(t[i]) || t[i] == '%'
  {
    if IsUnreserved(c) then [c]
    else
      PercentEncodeAlphabet(Utf8.EncodeChar(c));
      PercentEncode(Utf8.EncodeChar(c))
  }

  /** `Uri.EscapeDataString`: the result has only unreserved characters and `%`, so
      it never contains a URL delimiter such as `&`, `=`, `?` or `#`. */
  function EscapeDataString(s: string): (t: string)
    ensures forall i :: 0 <= i < |t| ==> IsUnreserved(t[i]) || t[i] == '%'
  {
    if s == [] then [] else EscapeChar(s[0]) + EscapeDataString(s[1..])
  }

  /** Reference inverse of the escaping: the bytes a percent-encoded string stands
      for, or `None` for a malformed escape or a character that must be escaped. */
  function PercentDecode(t: string): Option<seq<Utf8.byte>> {
    if t == [] then Some([])
    else if t[0] == '%' then
      if |t| >= 3 && IsHexDigit(t[1]) && IsHexDigit(t[2]) then
        match PercentDecode(t[3..])
        case None => None
        case Some(rest) => Some([(HexValue(t[1]) * 16 + HexValue(t[2])) as Utf8.byte] + rest)
      else None
    else if IsUnreserved(t[0]) then
      match PercentDecode(t[1..])
      case None => None
      case Some(rest) => Some([t[0] as int as Utf8.byte] + rest)
    else None
  }

  /** `Uri.UnescapeDataString` on a well-formed escaped string. */
  function UnescapeDataString(t: string): Option<string> {
    match PercentDecode(t)
    case None => None
    case Some(bs) => Utf8.Decode(bs)
  }

  /** One `%XX` escape decodes to its byte. */
  lemma PercentDecodeOne(b: Utf8.byte, rest: string)
    requires PercentDecode(rest).Some?
    ensures PercentDecode(PercentByte(b) + rest) == Some([b] + PercentDecode(rest).value)
  {
    var t := PercentByte(b) + rest;
    assert t[0] == '%' && t[1] == PercentByte(b)[1] && t[2] == PercentByte(b)[2] && t[3..] == rest;
  }

  lemma {:induction false} PercentDecodeEncode(bs: seq<Utf8.byte>, rest: string)
    requires PercentDecode(rest).Some?
    ensures PercentDecode(PercentEncode(bs) + rest) == Some(bs + PercentDecode(rest).value)
  {
    var tail := PercentDecode(rest).value;
    if bs == [] {
      assert PercentEncode(bs) + rest == rest && bs + tail == tail;
    } else {
      var u := PercentEncode(bs[1..]) + rest;
      PercentDecodeEncode(bs[1..], rest);
      assert PercentEncode(bs) + rest == PercentByte(bs[0]) + u;
      PercentDecodeOne(bs[0], u);
      assert [bs[0]] + (bs[1..] + tail) == bs + tail;
    }
  }

  lemma PercentDecodeEscapeChar(c: char, rest: string)
    requires PercentDecode(rest).Some?
    ensures PercentDecode(EscapeChar(c) + rest) == Some(Utf8.EncodeChar(c) + PercentDecode(rest).value)
  {
    if IsUnreserved(c) {
      assert (EscapeChar(c) + rest)[1..] == rest;
    } else {
      PercentDecodeEncode(Utf8.EncodeChar(c), rest);
    }
  }

  /** Percent-decoding an escaped string gives exactly the UTF-8 bytes of the
      original. */
  lemma {:induction false} PercentDecodeEscape(s: string)
    ensures PercentDecode(EscapeDataString(s)) == Some(Utf8.Encode(s))
  {
    if s != [] {
      PercentDecodeEscape(s[1..]);
      PercentDecodeEscapeChar(s[0], EscapeDataString(s[1..]));
    }
  }

  /** Round trip: unescaping an escaped string gives the string back. */
  lemma UnescapeEscape(s: string)
    ensures UnescapeDataString(EscapeDataString(s)) == Some(s)
  {
    PercentDecodeEscape(s);
    Utf8.DecodeEncode(s);
  }

  /** A string of unreserved characters is left as it is. */
  lemma {:induction false} EscapeUnreservedIsIdentity(s: string)
    requires forall i :: 0 <= i < |s| ==> IsUnreserved(s[i])
    ensures EscapeDataString(s) == s
  {
    if s != [] {
      EscapeUnreservedIsIdentity(s[1..]);
      assert [s[0]] + s[1..] == s;
    }
  }

  lemma {:induction false} EscapeAppend(a: string, b: string)
    ensures EscapeDataString(a + b) == EscapeDataString(a) + EscapeDataString(b)
  {
    if a != [] {
      assert (a + b)[0] == a[0] && (a + b)[1..] == a[1..] + b;
      EscapeAppend(a[1..], b);
    } else {
      assert a + b == b;
    }
  }

  // ---------------------------------------------------------------------------
  // The sign-in URL.

  const DefaultInstance := "https://login.microsoftonline.com/"
  const AuthorizePath := "/oauth2/v2.0/authorize"
  const RedirectUri := "http://localhost:3001/callback"
  const Scope := "openid profile email offline_access"

  /** One `name=value` query parameter. */
  function Parameter(name: string, value: string): string {
    name + "=" + value
  }

  /** The query of the authorization request, its values already escaped where
      the source escapes them. */
  function AuthorizeQuery(clientId: string, redirectUri: string, scope: string): string {
    Parameter("client_id", clientId)
      + "&" + Parameter("response_type", "code")
      + "&" + Parameter("redirect_uri", redirectUri)
      + "&" + Parameter("response_mode", "query")
      + "&" + Parameter("scope", scope)
  }

  /** The authorization request of an authority (instance and tenant). */
  function AuthorizeUrl(authority: string, clientId: string, redirectUri: string, scope: string): string {
    authority + AuthorizePath + "?" + AuthorizeQuery(clientId, redirectUri, scope)
  }

  /** The URL a user opens to sign in.  A missing tenant or client id is
      interpolated as the empty string; a missing instance falls back to the
      public cloud. */
  function GetEntraSignInUrl(config: Configuration): (url: string)
  {
    var tenantId := Setting(config, TenantIdKey).GetOr("");
    var clientId := Setting(config, ClientIdKey).GetOr("");
    var instance := Setting(config, InstanceKey).GetOr(DefaultInstance);
    AuthorizeUrl(instance + tenantId, clientId, EscapeDataString(RedirectUri), EscapeDataString(Scope))
  }

  /** Whatever the authority, client id, redirect URI and scope, the request
      starts with the authority's authorize endpoint and then the client id,
      unescaped, as the first query parameter. */
  lemma AuthorizeUrlStarts(authority: string, clientId: string, redirectUri: string, scope: string)
    ensures authority + AuthorizePath + "?" + Parameter("client_id", clientId)
      <= AuthorizeUrl(authority, clientId, redirectUri, scope)
  {
    QueryStarts(authority + AuthorizePath + "?", Parameter("client_id", clientId), Parameter("response_type", "code"),
                Parameter("redirect_uri", redirectUri), Parameter("response_mode", "query"),
                Parameter("scope", scope));
  }

  /** A five-parameter query is its first parameter followed by the rest. */
  lemma QueryStarts(prefix: string, p0: string, p1: string, p2: string, p3: string, p4: string)
    ensures var rest := "&" + p1 + "&" + p2 + "&" + p3 + "&" + p4;
      && prefix + (p0 + "&" + p1 + "&" + p2 + "&" + p3 + "&" + p4) == (prefix + p0) + rest
      && ((prefix + p0) + rest)[..|prefix + p0|] == prefix + p0
  {
  }

  /** A request URL read back: the endpoint and the query parameters in order. */
  datatype RequestUrl = RequestUrl(endpoint: string, parameters: seq<(string, string)>)

  function ParseParameter(p: string): (string, string) {
    match SplitAtFirst(p, '=')
    case None => (p, "")
    case Some((name, value)) => (name, value)
  }

  function ParseParameters(parts: seq<string>): (r: seq<(string, string)>)
    ensures |r| == |parts|
    ensures forall i :: 0 <= i < |parts| ==> r[i] == ParseParameter(parts[i])
  {
    if parts == [] then [] else [ParseParameter(parts[0])] + ParseParameters(parts[1..])
  }

  /** Reference reading of a URL: the endpoint before the first `?`, then the
      `&`-separated `name=value` pairs. */
  function ParseRequestUrl(url: string): Option<RequestUrl> {
    match SplitAtFirst(url, '?')
    case None => None
    case Some((endpoint, query)) => Some(RequestUrl(endpoint, ParseParameters(SplitAll(query, '&'))))
  }

  lemma ParameterRoundTrip(name: string, value: string)
    requires '=' !in name
    ensures ParseParameter(Parameter(name, value)) == (name, value)
  {
    SplitAtFirstOfJoin(name, '=', value);
  }

  lemma EscapedHasNoDelimiter(s: string)
    ensures '&' !in EscapeDataString(s) && '?' !in EscapeDataString(s) && '=' !in EscapeDataString(s)
  {
    var t := EscapeDataString(s);
    assert forall i :: 0 <= i < |t| ==> t[i] != '&' && t[i] != '?' && t[i] != '=';
  }

  /** Five `&`-free pieces joined by `&` split back into themselves. */
  lemma SplitFive(p0: string, p1: string, p2: string, p3: string, p4: string)
    requires '&' !in p0 && '&' !in p1 && '&' !in p2 && '&' !in p3 && '&' !in p4
    ensures SplitAll(p0 + "&" + (p1 + "&" + (p2 + "&" + (p3 + "&" + p4))), '&') == [p0, p1, p2, p3, p4]
  {
    SplitWithoutSeparator(p4, '&');
    SplitAllCons(p3, '&', p4);
    SplitAllCons(p2, '&', p3 + "&" + p4);
    SplitAllCons(p1, '&', p2 + "&" + (p3 + "&" + p4));
    SplitAllCons(p0, '&', p1 + "&" + (p2 + "&" + (p3 + "&" + p4)));
  }

  lemma ParseFive(p0: string, p1: string, p2: string, p3: string, p4: string)
    ensures ParseParameters([p0, p1, p2, p3, p4])
            == [ParseParameter(p0), ParseParameter(p1), ParseParameter(p2), ParseParameter(p3), ParseParameter(p4)]
  {
  }

  lemma AuthorizeQueryPieces(clientId: string, redirectUri: string, scope: string)
    requires '&' !in clientId && '&' !in redirectUri && '&' !in scope
    ensures SplitAll(AuthorizeQuery(clientId, redirectUri, scope), '&') == [
              Parameter("client_id", clientId), Parameter("response_type", "code"),
              Parameter("redirect_uri", redirectUri), Parameter("response_mode", "query"),
              Parameter("scope", scope)]
  {
    var p0, p1, p2 := Parameter("client_id", clientId), Parameter("response_type", "code"),
      Parameter("redirect_uri", redirectUri);
    var p3, p4 := Parameter("response_mode", "query"), Parameter("scope", scope);
    assert AuthorizeQuery(clientId, redirectUri, scope) == p0 + "&" + (p1 + "&" + (p2 + "&" + (p3 + "&" + p4)));
    assert '&' !in p0 && '&' !in p1 && '&' !in p2 && '&' !in p3 && '&' !in p4;
    SplitFive(p0, p1, p2, p3, p4);
  }

  lemma AuthorizeParametersParse(clientId: string, redirectUri: string, scope: string)
    ensures ParseParameter(Parameter("client_id", clientId)) == ("client_id", clientId)
    ensures ParseParameter(Parameter("response_type", "code")) == ("response_type", "code")
    ensures ParseParameter(Parameter("redirect_uri", redirectUri)) == ("redirect_uri", redirectUri)
    ensures ParseParameter(Parameter("response_mode", "query")) == ("response_mode", "query")
    ensures ParseParameter(Parameter("scope", scope)) == ("scope", scope)
  {
    ParameterRoundTrip("client_id", clientId);
    ParameterRoundTrip("response_type", "code");
    ParameterRoundTrip("redirect_uri", redirectUri);
    ParameterRoundTrip("response_mode", "query");
    ParameterRoundTrip("scope", scope);
  }

  /** The authorization query reads back as its five parameters, in order,
      whenever the values contain no `&`. */
  lemma AuthorizeQueryRoundTrip(clientId: string, redirectUri: string, scope: string)
    requires '&' !in clientId && '&' !in redirectUri && '&' !in scope
    ensures ParseParameters(SplitAll(AuthorizeQuery(clientId, redirectUri, scope), '&')) == [
              ("client_id", clientId),
              ("response_type", "code"),
              ("redirect_uri", redirectUri),
              ("response_mode", "query"),
              ("scope", scope)]
  {
    AuthorizeQueryPieces(clientId, redirectUri, scope);
    ParseFive(Parameter("client_id", clientId), Parameter("response_type", "code"),
              Parameter("redirect_uri", redirectUri), Parameter("response_mode", "query"),
              Parameter("scope", scope));
    AuthorizeParametersParse(clientId, redirectUri, scope);
  }

  /** A request URL built from an endpoint free of `?` and the authorization
      query reads back as that endpoint and the five parameters. */
  lemma RequestUrlRoundTrip(endpoint: string, clientId: string, redirectUri: string, scope: string)
    requires '?' !in endpoint
    requires '&' !in clientId && '&' !in redirectUri && '&' !in scope
    ensures ParseRequestUrl(endpoint + "?" + AuthorizeQuery(clientId, redirectUri, scope))
            == Some(RequestUrl(endpoint, [
                 ("client_id", clientId),
                 ("response_type", "code"),
                 ("redirect_uri", redirectUri),
                 ("response_mode", "query"),
                 ("scope", scope)]))
  {
    SplitAtFirstOfJoin(endpoint, '?', AuthorizeQuery(clientId, redirectUri, scope));
    AuthorizeQueryRoundTrip(clientId, redirectUri, scope);
  }

  /** The sign-in URL is the authorize endpoint of the tenant followed by exactly
      the five parameters of the authorization request, in the order
      `client_id`, `response_type=code`, `redirect_uri`, `response_mode=query`,
      `scope`, the redirect URI and the scope reading back unescaped.  The client
      id is not escaped, so this holds when it contains no `&`, and the endpoint
      is recovered when the instance and tenant contain no `?`. */
  lemma SignInUrlRoundTrip(config: Configuration)
    requires '?' !in Setting(config, InstanceKey).GetOr(DefaultInstance) + Setting(config, TenantIdKey).GetOr("")
    requires '&' !in Setting(config, ClientIdKey).GetOr("")
    ensures var endpoint := Setting(config, InstanceKey).GetOr(DefaultInstance)
                            + Setting(config, TenantIdKey).GetOr("") + AuthorizePath;
            ParseRequestUrl(GetEntraSignInUrl(config)) == Some(RequestUrl(endpoint, [
              ("client_id", Setting(config, ClientIdKey).GetOr("")),
              ("response_type", "code"),
              ("redirect_uri", EscapeDataString(RedirectUri)),
              ("response_mode", "query"),
              ("scope", EscapeDataString(Scope))]))
    ensures UnescapeDataString(EscapeDataString(RedirectUri)) == Some(RedirectUri)
    ensures UnescapeDataString(EscapeDataString(Scope)) == Some(Scope)
  {
    var endpoint := Setting(config, InstanceKey).GetOr(DefaultInstance)
                    + Setting(config, TenantIdKey).GetOr("") + AuthorizePath;
    assert '?' !in endpoint;
    EscapedHasNoDelimiter(RedirectUri);
    EscapedHasNoDelimiter(Scope);
    RequestUrlRoundTrip(endpoint, Setting(config, ClientIdKey).GetOr(""),
                        EscapeDataString(RedirectUri), EscapeDataString(Scope));
    UnescapeEscape(RedirectUri);
    UnescapeEscape(Scope);
  }
}
