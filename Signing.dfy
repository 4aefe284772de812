// The OAuth 1.0 / xAuth signing rules of XAuth: the normalised URL, the
// protocol parameters added to the caller's, the signature base string, the
// signing key, and the request that is finally sent.
module Signing {
  import opened Wrappers
  import opened JavaString
  import opened Percent
  import opened Parameters
  import opened ParameterSort

  const OAuthVersion: string := "1.0"
  const OAuthConsumerKeyKey: string := "oauth_consumer_key"
  const OAuthVersionKey: string := "oauth_version"
  const OAuthSignatureMethodKey: string := "oauth_signature_method"
  const OAuthSignatureKey: string := "oauth_signature"
  const OAuthTimestampKey: string := "oauth_timestamp"
  const OAuthNonceKey: string := "oauth_nonce"
  const OAuthTokenKey: string := "oauth_token"
  const OAuthVerifierKey: string := "oauth_verifier"
  const XAuthUsernameKey: string := "x_auth_username"
  const XAuthPasswordKey: string := "x_auth_password"
  const XAuthModeKey: string := "x_auth_mode"
  const XAuthClientAuth: string := "client_auth"

  /** The application's consumer key and secret, as shipped. */
  const ConsumerToken: string := "xxx"
  const ConsumerSecret: string := "xxx"
  const HmacSha1SignatureType: string := "HMAC-SHA1"

  /** The user's side of the signature: what an XAuth object holds. A null
      string and an empty one are treated alike everywhere. */
  datatype Credentials = Credentials(
    token: Option<string>,
    tokenSecret: Option<string>,
    verifier: Option<string>,
    username: Option<string>,
    password: Option<string>)

  predicate Present(s: Option<string>) {
    s.GetOr("") != ""
  }

  // ---------------------------------------------------------------------
  // getSchemeAndHost and getAbsolutePath

  /** The first '/' at or after two characters past the first "//" (past
      index 1 when there is no "//"), or -1. */
  function HostEnd(url: string): int {
    IndexOfFrom(url, '/', IndexOfString(url, "//") + 2)
  }

  /** XAuth.getSchemeAndHost: everything before HostEnd. */
  function SchemeAndHost(url: string): Result<string, Exception> {
    Substring(url, 0, HostEnd(url))
  }

  /** XAuth.getAbsolutePath: from HostEnd up to the first '?' when that is
      past index 0, else to the end. */
  function AbsolutePath(url: string): Result<string, Exception> {
    var endIndex := HostEnd(url);
    var questionMark := IndexOf(url, '?');
    if questionMark > 0 then Substring(url, endIndex, questionMark) else Substring(url, endIndex, |url|)
  }

  /** The normalised URL: scheme and host followed by the path. */
  function NormalizedUrl(url: string): Result<string, Exception> {
    var schemeAndHost :- SchemeAndHost(url);
    var path :- AbsolutePath(url);
    Ok(schemeAndHost + path)
  }

  /** The normalised URL exists exactly when there is a '/' after the host that
      does not come after the query, and then it is the URL without its query;
      its path starts with that '/'. */
  lemma NormalizedUrlShape(url: string)
    ensures NormalizedUrl(url).Ok? <==>
      HostEnd(url) >= 0 && (IndexOf(url, '?') > 0 ==> HostEnd(url) <= IndexOf(url, '?'))
    ensures NormalizedUrl(url).Ok? ==>
      NormalizedUrl(url).value == (if IndexOf(url, '?') > 0 then url[..IndexOf(url, '?')] else url)
    ensures NormalizedUrl(url).Ok? ==> AbsolutePath(url).value != [] && AbsolutePath(url).value[0] == '/'
    ensures NormalizedUrl(url).Ok? && IndexOf(url, '?') != 0 ==> '?' !in NormalizedUrl(url).value
  {
    var e, q := HostEnd(url), IndexOf(url, '?');
    if NormalizedUrl(url).Ok? {
      if q > 0 {
        SlicesJoin(url, e, q);
      } else {
        SlicesJoin(url, e, |url|);
        assert url[..|url|] == url;
      }
    }
  }

  lemma SlicesJoin(s: string, i: int, j: int)
    requires 0 <= i <= j <= |s|
    ensures s[..i] + s[i..j] == s[..j]
  {
  }

  // ---------------------------------------------------------------------
  // The parameters that are signed

  /** The protocol parameters generateSignatureBase appends to the caller's,
      in this order: version, nonce, timestamp, signature method and consumer
      key; then the identity; then the verifier. */
  function ProtocolParameters(consumerKey: string, c: Credentials, timeStamp: string, nonce: string, signatureType: string): seq<QueryParameter> {
    FixedParameters(consumerKey, timeStamp, nonce, signatureType) + IdentityParameters(c) + VerifierParameters(c)
  }

  function FixedParameters(consumerKey: string, timeStamp: string, nonce: string, signatureType: string): seq<QueryParameter> {
    [QueryParameter(OAuthVersionKey, OAuthVersion),
     QueryParameter(OAuthNonceKey, nonce),
     QueryParameter(OAuthTimestampKey, timeStamp),
     QueryParameter(OAuthSignatureMethodKey, signatureType),
     QueryParameter(OAuthConsumerKeyKey, consumerKey)]
  }

  /** The token when one is set; otherwise the xAuth user name when set, and
      the xAuth password with the "client_auth" mode when set. */
  function IdentityParameters(c: Credentials): seq<QueryParameter> {
    if Present(c.token) then [QueryParameter(OAuthTokenKey, c.token.value)]
    else
      (if Present(c.username) then [QueryParameter(XAuthUsernameKey, c.username.value)] else [])
      + (if Present(c.password) then [QueryParameter(XAuthPasswordKey, c.password.value), QueryParameter(XAuthModeKey, XAuthClientAuth)] else [])
  }

  function VerifierParameters(c: Credentials): seq<QueryParameter> {
    if Present(c.verifier) then [QueryParameter(OAuthVerifierKey, c.verifier.value)] else []
  }

  /** The caller's parameters from the URL and the protocol parameters, sorted by name. */
  function SignedParameters(url: string, consumerKey: string, c: Credentials, timeStamp: string, nonce: string, signatureType: string): Result<seq<QueryParameter>, Exception> {
    var callers :- QueryParametersOf(url);
    Ok(SortByName(callers + ProtocolParameters(consumerKey, c, timeStamp, nonce, signatureType)))
  }

  /** What generateSignatureBase returns, with the two strings it leaves in
      the normalizedUrl and normalizedRequestParameters fields. */
  datatype SignatureBase = SignatureBase(text: string, normalizedUrl: string, normalizedParameters: string)

  /** The signature base string: the method, the encoded normalised URL and
      the encoded normalised parameters, separated by '&'. */
  function SignatureBaseOf(url: string, consumerKey: string, c: Credentials, httpMethod: string, timeStamp: string, nonce: string, signatureType: string): Result<SignatureBase, Exception> {
    var ps :- SignedParameters(url, consumerKey, c, timeStamp, nonce, signatureType);
    var normalizedUrl :- NormalizedUrl(url);
    var normalizedParameters := Normalized(ps);
    Ok(SignatureBase(httpMethod + "&" + Encoded(normalizedUrl) + "&" + Encoded(normalizedParameters), normalizedUrl, normalizedParameters))
  }

  /** A piece of the URL's query never yields a parameter named "oauth_...". */
  lemma {:induction false} CallerParametersNotOAuth(pieces: seq<string>, ps: seq<QueryParameter>)
    requires CallerParameters(pieces) == Ok(ps)
    ensures forall k :: 0 <= k < |ps| ==> !StartsWith(ps[k].name, OAuthParameterPrefix)
    decreases |pieces|
  {
    if pieces != [] {
      var init := CallerParameters(pieces[..|pieces| - 1]).value;
      CallerParametersNotOAuth(pieces[..|pieces| - 1], init);
      var piece := pieces[|pieces| - 1];
      var p := PieceParameter(piece).value;
      if p.Some? {
        var i := IndexOf(piece, '=');
        assert p.value.name == piece[..i];
        assert !StartsWith(piece, OAuthParameterPrefix);
        assert |OAuthParameterPrefix| <= i ==> piece[..i][..|OAuthParameterPrefix|] == piece[..|OAuthParameterPrefix|];
      }
    }
  }

  /** Every name keeps its entries in the signed list: the caller's first, in
      URL order, then the protocol's; and no caller entry is named "oauth_...". */
  lemma SignedParametersNamed(url: string, consumerKey: string, c: Credentials, timeStamp: string, nonce: string, signatureType: string,
                              callers: seq<QueryParameter>, ps: seq<QueryParameter>, nm: string)
    requires QueryParametersOf(url) == Ok(callers)
    requires SignedParameters(url, consumerKey, c, timeStamp, nonce, signatureType) == Ok(ps)
    ensures Named(ps, nm) == Named(callers, nm) + Named(ProtocolParameters(consumerKey, c, timeStamp, nonce, signatureType), nm)
    ensures StartsWith(nm, OAuthParameterPrefix) ==> Named(callers, nm) == []
    ensures SortedByName(ps)
  {
    var protocol := ProtocolParameters(consumerKey, c, timeStamp, nonce, signatureType);
    assert ps == SortByName(callers + protocol);
    SortByNameCorrect(callers + protocol);
    NamedAppend(callers, protocol, nm);
    if StartsWith(nm, OAuthParameterPrefix) {
      QueryParametersNotOAuth(url, callers);
      NamedNone(callers, nm);
    }
  }

  lemma QueryParametersNotOAuth(url: string, callers: seq<QueryParameter>)
    requires QueryParametersOf(url) == Ok(callers)
    ensures forall k :: 0 <= k < |callers| ==> !StartsWith(callers[k].name, OAuthParameterPrefix)
  {
    var q := IndexOf(url, '?');
    if q >= 0 {
      CallerParametersNotOAuth(Split(url[q + 1..], '&'), callers);
    }
  }

  /** The entry p contributes to the entries named nm. */
  function Only(p: QueryParameter, nm: string): seq<QueryParameter> {
    if p.name == nm then [p] else []
  }

  lemma NamedCons(p: QueryParameter, s: seq<QueryParameter>, nm: string)
    ensures Named([p] + s, nm) == Only(p, nm) + Named(s, nm)
  {
    assert ([p] + s)[1..] == s;
  }

  lemma FixedNamed(consumerKey: string, timeStamp: string, nonce: string, signatureType: string, nm: string)
    ensures Named(FixedParameters(consumerKey, timeStamp, nonce, signatureType), nm)
      == Only(QueryParameter(OAuthVersionKey, OAuthVersion), nm)
       + Only(QueryParameter(OAuthNonceKey, nonce), nm)
       + Only(QueryParameter(OAuthTimestampKey, timeStamp), nm)
       + Only(QueryParameter(OAuthSignatureMethodKey, signatureType), nm)
       + Only(QueryParameter(OAuthConsumerKeyKey, consumerKey), nm)
  {
    var p0, p1, p2 := QueryParameter(OAuthVersionKey, OAuthVersion), QueryParameter(OAuthNonceKey, nonce), QueryParameter(OAuthTimestampKey, timeStamp);
    var p3, p4 := QueryParameter(OAuthSignatureMethodKey, signatureType), QueryParameter(OAuthConsumerKeyKey, consumerKey);
    assert FixedParameters(consumerKey, timeStamp, nonce, signatureType) == [p0] + [p1] + [p2] + [p3] + [p4];
    NamedSnoc([p0] + [p1] + [p2] + [p3], p4, nm);
    NamedSnoc([p0] + [p1] + [p2], p3, nm);
    NamedSnoc([p0] + [p1], p2, nm);
    NamedSnoc([p0], p1, nm);
    NamedCons(p0, [], nm);
  }

  lemma NamedSnoc(s: seq<QueryParameter>, p: QueryParameter, nm: string)
    ensures Named(s + [p], nm) == Named(s, nm) + Only(p, nm)
  {
    NamedAppend(s, [p], nm);
    NamedCons(p, [], nm);
    assert [p] + [] == [p];
  }

  lemma IdentityNamed(c: Credentials, nm: string)
    ensures Named(IdentityParameters(c), nm) ==
      if Present(c.token) then Only(QueryParameter(OAuthTokenKey, c.token.value), nm)
      else
        (if Present(c.username) then Only(QueryParameter(XAuthUsernameKey, c.username.value), nm) else [])
        + (if Present(c.password) then Only(QueryParameter(XAuthPasswordKey, c.password.value), nm) + Only(QueryParameter(XAuthModeKey, XAuthClientAuth), nm) else [])
  {
    if Present(c.token) {
      NamedCons(QueryParameter(OAuthTokenKey, c.token.value), [], nm);
    } else {
      var user := if Present(c.username) then [QueryParameter(XAuthUsernameKey, c.username.value)] else [];
      var password := if Present(c.password) then [QueryParameter(XAuthPasswordKey, c.password.value), QueryParameter(XAuthModeKey, XAuthClientAuth)] else [];
      NamedAppend(user, password, nm);
      if Present(c.username) {
        NamedCons(QueryParameter(XAuthUsernameKey, c.username.value), [], nm);
      }
      if Present(c.password) {
        NamedCons(QueryParameter(XAuthModeKey, XAuthClientAuth), [], nm);
        NamedCons(QueryParameter(XAuthPasswordKey, c.password.value), [QueryParameter(XAuthModeKey, XAuthClientAuth)], nm);
      }
    }
  }

  lemma VerifierNamed(c: Credentials, nm: string)
    ensures Named(VerifierParameters(c), nm) ==
      if Present(c.verifier) then Only(QueryParameter(OAuthVerifierKey, c.verifier.value), nm) else []
  {
    if Present(c.verifier) {
      NamedCons(QueryParameter(OAuthVerifierKey, c.verifier.value), [], nm);
    }
  }

  lemma ProtocolNamed(consumerKey: string, c: Credentials, timeStamp: string, nonce: string, signatureType: string, nm: string)
    ensures Named(ProtocolParameters(consumerKey, c, timeStamp, nonce, signatureType), nm)
      == Named(FixedParameters(consumerKey, timeStamp, nonce, signatureType), nm) + Named(IdentityParameters(c), nm) + Named(VerifierParameters(c), nm)
  {
    var f := FixedParameters(consumerKey, timeStamp, nonce, signatureType);
    NamedAppend(f + IdentityParameters(c), VerifierParameters(c), nm);
    NamedAppend(f, IdentityParameters(c), nm);
  }

  /** Parameter names of equal length are still different (names of
      different lengths differ trivially). */
  lemma KeysDistinct()
    ensures OAuthNonceKey != OAuthTokenKey && OAuthNonceKey != XAuthModeKey && OAuthTokenKey != XAuthModeKey
    ensures OAuthTimestampKey != XAuthUsernameKey && OAuthTimestampKey != XAuthPasswordKey && XAuthUsernameKey != XAuthPasswordKey
  {
    assert OAuthNonceKey[6] == 'n' && OAuthTokenKey[6] == 't';
    assert OAuthTimestampKey[0] == 'o' && XAuthUsernameKey[0] == 'x' && XAuthPasswordKey[0] == 'x';
    assert XAuthUsernameKey[7] == 'u' && XAuthPasswordKey[7] == 'p';
    assert OAuthNonceKey[0] == 'o' && OAuthTokenKey[0] == 'o' && XAuthModeKey[0] == 'x';
  }

  /** For a name starting with "oauth_", the signed entries are the protocol's. */
  lemma SignedOAuthNamed(url: string, consumerKey: string, c: Credentials, timeStamp: string, nonce: string, signatureType: string,
                         ps: seq<QueryParameter>, nm: string)
    requires SignedParameters(url, consumerKey, c, timeStamp, nonce, signatureType) == Ok(ps)
    requires StartsWith(nm, OAuthParameterPrefix)
    ensures Named(ps, nm) ==
      Only(QueryParameter(OAuthVersionKey, OAuthVersion), nm)
      + Only(QueryParameter(OAuthNonceKey, nonce), nm)
      + Only(QueryParameter(OAuthTimestampKey, timeStamp), nm)
      + Only(QueryParameter(OAuthSignatureMethodKey, signatureType), nm)
      + Only(QueryParameter(OAuthConsumerKeyKey, consumerKey), nm)
      + (if Present(c.token) then Only(QueryParameter(OAuthTokenKey, c.token.value), nm) else [])
      + (if Present(c.verifier) then Only(QueryParameter(OAuthVerifierKey, c.verifier.value), nm) else [])
  {
    SignedParametersNamed(url, consumerKey, c, timeStamp, nonce, signatureType, QueryParametersOf(url).value, ps, nm);
    ProtocolNamed(consumerKey, c, timeStamp, nonce, signatureType, nm);
    FixedNamed(consumerKey, timeStamp, nonce, signatureType, nm);
    IdentityNamed(c, nm);
    VerifierNamed(c, nm);
    assert nm[0] == 'o' && XAuthUsernameKey[0] == 'x' && XAuthPasswordKey[0] == 'x' && XAuthModeKey[0] == 'x';
  }

  lemma OAuthKeysPrefixed()
    ensures StartsWith(OAuthVersionKey, OAuthParameterPrefix) && StartsWith(OAuthNonceKey, OAuthParameterPrefix)
    ensures StartsWith(OAuthTimestampKey, OAuthParameterPrefix) && StartsWith(OAuthSignatureMethodKey, OAuthParameterPrefix)
    ensures StartsWith(OAuthConsumerKeyKey, OAuthParameterPrefix) && StartsWith(OAuthTokenKey, OAuthParameterPrefix)
    ensures StartsWith(OAuthVerifierKey, OAuthParameterPrefix) && StartsWith(OAuthSignatureKey, OAuthParameterPrefix)
  {
  }

  lemma SignedVersion(url: string, consumerKey: string, c: Credentials, timeStamp: string, nonce: string, signatureType: string, ps: seq<QueryParameter>)
    requires SignedParameters(url, consumerKey, c, timeStamp, nonce, signatureType) == Ok(ps)
    ensures Named(ps, OAuthVersionKey) == [QueryParameter(OAuthVersionKey, OAuthVersion)]
  {
    OAuthKeysPrefixed();
    KeysDistinct();
    SignedOAuthNamed(url, consumerKey, c, timeStamp, nonce, signatureType, ps, OAuthVersionKey);
  }

  lemma SignedNonce(url: string, consumerKey: string, c: Credentials, timeStamp: string, nonce: string, signatureType: string, ps: seq<QueryParameter>)
    requires SignedParameters(url, consumerKey, c, timeStamp, nonce, signatureType) == Ok(ps)
    ensures Named(ps, OAuthNonceKey) == [QueryParameter(OAuthNonceKey, nonce)]
  {
    OAuthKeysPrefixed();
    KeysDistinct();
    SignedOAuthNamed(url, consumerKey, c, timeStamp, nonce, signatureType, ps, OAuthNonceKey);
  }

  lemma SignedTimestamp(url: string, consumerKey: string, c: Credentials, timeStamp: string, nonce: string, signatureType: string, ps: seq<QueryParameter>)
    requires SignedParameters(url, consumerKey, c, timeStamp, nonce, signatureType) == Ok(ps)
    ensures Named(ps, OAuthTimestampKey) == [QueryParameter(OAuthTimestampKey, timeStamp)]
  {
    OAuthKeysPrefixed();
    KeysDistinct();
    SignedOAuthNamed(url, consumerKey, c, timeStamp, nonce, signatureType, ps, OAuthTimestampKey);
  }

  lemma SignedSignatureMethod(url: string, consumerKey: string, c: Credentials, timeStamp: string, nonce: string, signatureType: string, ps: seq<QueryParameter>)
    requires SignedParameters(url, consumerKey, c, timeStamp, nonce, signatureType) == Ok(ps)
    ensures Named(ps, OAuthSignatureMethodKey) == [QueryParameter(OAuthSignatureMethodKey, signatureType)]
  {
    OAuthKeysPrefixed();
    KeysDistinct();
    SignedOAuthNamed(url, consumerKey, c, timeStamp, nonce, signatureType, ps, OAuthSignatureMethodKey);
  }

  lemma SignedConsumerKey(url: string, consumerKey: string, c: Credentials, timeStamp: string, nonce: string, signatureType: string, ps: seq<QueryParameter>)
    requires SignedParameters(url, consumerKey, c, timeStamp, nonce, signatureType) == Ok(ps)
    ensures Named(ps, OAuthConsumerKeyKey) == [QueryParameter(OAuthConsumerKeyKey, consumerKey)]
  {
    OAuthKeysPrefixed();
    KeysDistinct();
    SignedOAuthNamed(url, consumerKey, c, timeStamp, nonce, signatureType, ps, OAuthConsumerKeyKey);
  }

  lemma SignedToken(url: string, consumerKey: string, c: Credentials, timeStamp: string, nonce: string, signatureType: string, ps: seq<QueryParameter>)
    requires SignedParameters(url, consumerKey, c, timeStamp, nonce, signatureType) == Ok(ps)
    ensures Named(ps, OAuthTokenKey) == (if Present(c.token) then [QueryParameter(OAuthTokenKey, c.token.value)] else [])
  {
    OAuthKeysPrefixed();
    KeysDistinct();
    SignedOAuthNamed(url, consumerKey, c, timeStamp, nonce, signatureType, ps, OAuthTokenKey);
  }

  lemma SignedVerifier(url: string, consumerKey: string, c: Credentials, timeStamp: string, nonce: string, signatureType: string, ps: seq<QueryParameter>)
    requires SignedParameters(url, consumerKey, c, timeStamp, nonce, signatureType) == Ok(ps)
    ensures Named(ps, OAuthVerifierKey) == (if Present(c.verifier) then [QueryParameter(OAuthVerifierKey, c.verifier.value)] else [])
  {
    OAuthKeysPrefixed();
    KeysDistinct();
    SignedOAuthNamed(url, consumerKey, c, timeStamp, nonce, signatureType, ps, OAuthVerifierKey);
  }

  /** The signed list is sorted by name and carries exactly one version,
      nonce, timestamp, signature method and consumer key, whatever the URL's
      query holds. */
  lemma SignedFixedParameters(url: string, consumerKey: string, c: Credentials, timeStamp: string, nonce: string, signatureType: string, ps: seq<QueryParameter>)
    requires SignedParameters(url, consumerKey, c, timeStamp, nonce, signatureType) == Ok(ps)
    ensures SortedByName(ps)
    ensures Named(ps, OAuthVersionKey) == [QueryParameter(OAuthVersionKey, OAuthVersion)]
    ensures Named(ps, OAuthNonceKey) == [QueryParameter(OAuthNonceKey, nonce)]
    ensures Named(ps, OAuthTimestampKey) == [QueryParameter(OAuthTimestampKey, timeStamp)]
    ensures Named(ps, OAuthSignatureMethodKey) == [QueryParameter(OAuthSignatureMethodKey, signatureType)]
    ensures Named(ps, OAuthConsumerKeyKey) == [QueryParameter(OAuthConsumerKeyKey, consumerKey)]
  {
    SignedParametersNamed(url, consumerKey, c, timeStamp, nonce, signatureType, QueryParametersOf(url).value, ps, OAuthVersionKey);
    SignedVersion(url, consumerKey, c, timeStamp, nonce, signatureType, ps);
    SignedNonce(url, consumerKey, c, timeStamp, nonce, signatureType, ps);
    SignedTimestamp(url, consumerKey, c, timeStamp, nonce, signatureType, ps);
    SignedSignatureMethod(url, consumerKey, c, timeStamp, nonce, signatureType, ps);
    SignedConsumerKey(url, consumerKey, c, timeStamp, nonce, signatureType, ps);
  }

  /** The token is signed exactly when one is set, and the verifier exactly
      when one is set; a token or verifier in the URL's query is never signed. */
  lemma SignedTokenAndVerifier(url: string, consumerKey: string, c: Credentials, timeStamp: string, nonce: string, signatureType: string, ps: seq<QueryParameter>)
    requires SignedParameters(url, consumerKey, c, timeStamp, nonce, signatureType) == Ok(ps)
    ensures Named(ps, OAuthTokenKey) == (if Present(c.token) then [QueryParameter(OAuthTokenKey, c.token.value)] else [])
    ensures Named(ps, OAuthVerifierKey) == (if Present(c.verifier) then [QueryParameter(OAuthVerifierKey, c.verifier.value)] else [])
  {
    SignedToken(url, consumerKey, c, timeStamp, nonce, signatureType, ps);
    SignedVerifier(url, consumerKey, c, timeStamp, nonce, signatureType, ps);
  }

  /** The xAuth credentials are signed only when there is no token: the user
      name when one is set, and the password with the "client_auth" mode when
      one is set; entries of these names in the URL's query come first. */
  lemma SignedXAuthParameters(url: string, consumerKey: string, c: Credentials, timeStamp: string, nonce: string, signatureType: string,
                              callers: seq<QueryParameter>, ps: seq<QueryParameter>)
    requires QueryParametersOf(url) == Ok(callers)
    requires SignedParameters(url, consumerKey, c, timeStamp, nonce, signatureType) == Ok(ps)
    ensures Named(ps, XAuthUsernameKey) == Named(callers, XAuthUsernameKey)
      + (if !Present(c.token) && Present(c.username) then [QueryParameter(XAuthUsernameKey, c.username.value)] else [])
    ensures Named(ps, XAuthPasswordKey) == Named(callers, XAuthPasswordKey)
      + (if !Present(c.token) && Present(c.password) then [QueryParameter(XAuthPasswordKey, c.password.value)] else [])
    ensures Named(ps, XAuthModeKey) == Named(callers, XAuthModeKey)
      + (if !Present(c.token) && Present(c.password) then [QueryParameter(XAuthModeKey, XAuthClientAuth)] else [])
  {
    SignedXAuthUsername(url, consumerKey, c, timeStamp, nonce, signatureType, callers, ps);
    SignedXAuthPassword(url, consumerKey, c, timeStamp, nonce, signatureType, callers, ps);
    SignedXAuthMode(url, consumerKey, c, timeStamp, nonce, signatureType, callers, ps);
  }

  lemma SignedXAuthUsername(url: string, consumerKey: string, c: Credentials, timeStamp: string, nonce: string, signatureType: string,
                            callers: seq<QueryParameter>, ps: seq<QueryParameter>)
    requires QueryParametersOf(url) == Ok(callers)
    requires SignedParameters(url, consumerKey, c, timeStamp, nonce, signatureType) == Ok(ps)
    ensures Named(ps, XAuthUsernameKey) == Named(callers, XAuthUsernameKey)
      + (if !Present(c.token) && Present(c.username) then [QueryParameter(XAuthUsernameKey, c.username.value)] else [])
  {
    KeysDistinct();
    assert XAuthUsernameKey != XAuthModeKey;
    XAuthNamed(url, consumerKey, c, timeStamp, nonce, signatureType, callers, ps, XAuthUsernameKey);
  }

  lemma SignedXAuthPassword(url: string, consumerKey: string, c: Credentials, timeStamp: string, nonce: string, signatureType: string,
                            callers: seq<QueryParameter>, ps: seq<QueryParameter>)
    requires QueryParametersOf(url) == Ok(callers)
    requires SignedParameters(url, consumerKey, c, timeStamp, nonce, signatureType) == Ok(ps)
    ensures Named(ps, XAuthPasswordKey) == Named(callers, XAuthPasswordKey)
      + (if !Present(c.token) && Present(c.password) then [QueryParameter(XAuthPasswordKey, c.password.value)] else [])
  {
    KeysDistinct();
    assert XAuthPasswordKey != XAuthModeKey;
    XAuthNamed(url, consumerKey, c, timeStamp, nonce, signatureType, callers, ps, XAuthPasswordKey);
  }

  lemma SignedXAuthMode(url: string, consumerKey: string, c: Credentials, timeStamp: string, nonce: string, signatureType: string,
                        callers: seq<QueryParameter>, ps: seq<QueryParameter>)
    requires QueryParametersOf(url) == Ok(callers)
    requires SignedParameters(url, consumerKey, c, timeStamp, nonce, signatureType) == Ok(ps)
    ensures Named(ps, XAuthModeKey) == Named(callers, XAuthModeKey)
      + (if !Present(c.token) && Present(c.password) then [QueryParameter(XAuthModeKey, XAuthClientAuth)] else [])
  {
    assert XAuthUsernameKey != XAuthModeKey && XAuthPasswordKey != XAuthModeKey;
    XAuthNamed(url, consumerKey, c, timeStamp, nonce, signatureType, callers, ps, XAuthModeKey);
  }

  /** For a name starting with "x_auth_", the signed entries are the caller's
      followed by the identity's. */
  lemma XAuthNamed(url: string, consumerKey: string, c: Credentials, timeStamp: string, nonce: string, signatureType: string,
                   callers: seq<QueryParameter>, ps: seq<QueryParameter>, nm: string)
    requires QueryParametersOf(url) == Ok(callers)
    requires SignedParameters(url, consumerKey, c, timeStamp, nonce, signatureType) == Ok(ps)
    requires |nm| > 0 && nm[0] == 'x'
    ensures Named(ps, nm) == Named(callers, nm)
      + (if Present(c.token) then []
         else
           (if Present(c.username) then Only(QueryParameter(XAuthUsernameKey, c.username.value), nm) else [])
           + (if Present(c.password) then Only(QueryParameter(XAuthPasswordKey, c.password.value), nm) + Only(QueryParameter(XAuthModeKey, XAuthClientAuth), nm) else []))
  {
    SignedParametersNamed(url, consumerKey, c, timeStamp, nonce, signatureType, callers, ps, nm);
    ProtocolXNamed(consumerKey, c, timeStamp, nonce, signatureType, nm);
    IdentityXNamed(c, nm);
  }

  /** For a name starting with 'x', only the identity parameters can match. */
  lemma ProtocolXNamed(consumerKey: string, c: Credentials, timeStamp: string, nonce: string, signatureType: string, nm: string)
    requires |nm| > 0 && nm[0] == 'x'
    ensures Named(ProtocolParameters(consumerKey, c, timeStamp, nonce, signatureType), nm) == Named(IdentityParameters(c), nm)
  {
    ProtocolNamed(consumerKey, c, timeStamp, nonce, signatureType, nm);
    OAuthOnlyNamed(consumerKey, c, timeStamp, nonce, signatureType, nm);
    var named := Named(IdentityParameters(c), nm);
    EmptyAround(named);
  }

  lemma EmptyAround<T>(s: seq<T>)
    ensures [] + s + [] == s
  {
  }

  /** For a name starting with 'x', the token never matches. */
  lemma IdentityXNamed(c: Credentials, nm: string)
    requires |nm| > 0 && nm[0] == 'x'
    ensures Named(IdentityParameters(c), nm) ==
      if Present(c.token) then []
      else
        (if Present(c.username) then Only(QueryParameter(XAuthUsernameKey, c.username.value), nm) else [])
        + (if Present(c.password) then Only(QueryParameter(XAuthPasswordKey, c.password.value), nm) + Only(QueryParameter(XAuthModeKey, XAuthClientAuth), nm) else [])
  {
    IdentityNamed(c, nm);
    assert OAuthTokenKey[0] == 'o';
  }

  /** The fixed and verifier parameters carry no name starting with 'x'. */
  lemma OAuthOnlyNamed(consumerKey: string, c: Credentials, timeStamp: string, nonce: string, signatureType: string, nm: string)
    requires |nm| > 0 && nm[0] == 'x'
    ensures Named(FixedParameters(consumerKey, timeStamp, nonce, signatureType), nm) == []
    ensures Named(VerifierParameters(c), nm) == []
  {
    FixedNamed(consumerKey, timeStamp, nonce, signatureType, nm);
    VerifierNamed(c, nm);
    assert OAuthVersionKey[0] == 'o' && OAuthNonceKey[0] == 'o' && OAuthTimestampKey[0] == 'o' && OAuthSignatureMethodKey[0] == 'o';
    assert OAuthConsumerKeyKey[0] == 'o' && OAuthVerifierKey[0] == 'o';
  }

  /** The normalised parameters are never empty: at least five are signed. */
  lemma SignedParametersNonEmpty(url: string, consumerKey: string, c: Credentials, timeStamp: string, nonce: string, signatureType: string, ps: seq<QueryParameter>)
    requires SignedParameters(url, consumerKey, c, timeStamp, nonce, signatureType) == Ok(ps)
    ensures |ps| >= 5
    ensures Normalized(ps) != ""
  {
    var pairs := Pairs(ps);
    var init := pairs[..|pairs| - 1];
    assert Normalized(ps) == Join(init, '&') + "&" + pairs[|pairs| - 1];
  }

  /** A successful signature base always has a non-empty parameter string,
      since the five fixed protocol parameters are always signed. */
  lemma SignatureBaseNonEmpty(url: string, consumerKey: string, c: Credentials, httpMethod: string, timeStamp: string, nonce: string, signatureType: string)
    requires SignatureBaseOf(url, consumerKey, c, httpMethod, timeStamp, nonce, signatureType).Ok?
    ensures SignatureBaseOf(url, consumerKey, c, httpMethod, timeStamp, nonce, signatureType).value.normalizedParameters != ""
  {
    var ps := SignedParameters(url, consumerKey, c, timeStamp, nonce, signatureType).value;
    SignedParametersNonEmpty(url, consumerKey, c, timeStamp, nonce, signatureType, ps);
  }

  /** The base string of a method without '&' splits at '&' into the method
      and the two encoded parts, each of which decodes back to what was encoded. */
  lemma BaseStringParts(httpMethod: string, normalizedUrl: string, normalizedParameters: string)
    requires '&' !in httpMethod
    ensures Split(httpMethod + "&" + Encoded(normalizedUrl) + "&" + Encoded(normalizedParameters), '&')
         == [httpMethod, Encoded(normalizedUrl), Encoded(normalizedParameters)]
    ensures PercentDecode(Encoded(normalizedUrl)) == Some(normalizedUrl)
    ensures PercentDecode(Encoded(normalizedParameters)) == Some(normalizedParameters)
  {
    EncodedHasNo(normalizedUrl, '&');
    EncodedHasNo(normalizedParameters, '&');
    SplitThree(httpMethod, Encoded(normalizedUrl), Encoded(normalizedParameters), '&');
    DecodeEncoded(normalizedUrl);
    DecodeEncoded(normalizedParameters);
  }

  /** generateSignatureBase's result: the base string carries the normalised
      URL and the normalised signed parameters, which are never empty. */
  lemma SignatureBaseParts(url: string, consumerKey: string, c: Credentials, httpMethod: string, timeStamp: string, nonce: string, signatureType: string,
                           ps: seq<QueryParameter>, sb: SignatureBase)
    requires '&' !in httpMethod
    requires SignedParameters(url, consumerKey, c, timeStamp, nonce, signatureType) == Ok(ps)
    requires SignatureBaseOf(url, consumerKey, c, httpMethod, timeStamp, nonce, signatureType) == Ok(sb)
    ensures NormalizedUrl(url) == Ok(sb.normalizedUrl)
    ensures sb.normalizedParameters == Normalized(ps) != ""
    ensures Split(sb.text, '&') == [httpMethod, Encoded(sb.normalizedUrl), Encoded(sb.normalizedParameters)]
    ensures PercentDecode(Encoded(sb.normalizedUrl)) == Some(sb.normalizedUrl)
    ensures PercentDecode(Encoded(sb.normalizedParameters)) == Some(sb.normalizedParameters)
  {
    BaseStringParts(httpMethod, sb.normalizedUrl, sb.normalizedParameters);
    SignedParametersNonEmpty(url, consumerKey, c, timeStamp, nonce, signatureType, ps);
  }
  // ---------------------------------------------------------------------
  // generateSignature's key

  /** The HMAC key: the encoded consumer secret and the encoded token secret
      (empty when there is none), joined by '&'. */
  function SigningKey(consumerSecret: string, tokenSecret: Option<string>): string {
    Encoded(consumerSecret) + "&" + Encoded(tokenSecret.GetOr(""))
  }

  /** The key splits back into its two encoded secrets, each of which decodes
      to the secret; no token secret and an empty one give the same key. */
  lemma SigningKeyParts(consumerSecret: string, tokenSecret: Option<string>)
    ensures Split(SigningKey(consumerSecret, tokenSecret), '&') == [Encoded(consumerSecret), Encoded(tokenSecret.GetOr(""))]
    ensures PercentDecode(Encoded(consumerSecret)) == Some(consumerSecret)
    ensures PercentDecode(Encoded(tokenSecret.GetOr(""))) == Some(tokenSecret.GetOr(""))
    ensures SigningKey(consumerSecret, None) == SigningKey(consumerSecret, Some(""))
  {
    var parts := [Encoded(consumerSecret), Encoded(tokenSecret.GetOr(""))];
    EncodedHasNo(consumerSecret, '&');
    EncodedHasNo(tokenSecret.GetOr(""), '&');
    JoinSplit(parts, '&');
    assert parts[..1] == [Encoded(consumerSecret)];
    DecodeEncoded(consumerSecret);
    DecodeEncoded(tokenSecret.GetOr(""));
  }

  // ---------------------------------------------------------------------
  // xAuthWebRequest

  /** The request handed to webRequest: method, full URL and post data. */
  datatype WebRequest = WebRequest(httpMethod: string, url: string, postData: string)

  /** The parameters with every value percent-encoded (names are kept). */
  function ValuesEncoded(ps: seq<QueryParameter>): (r: seq<QueryParameter>)
    ensures |r| == |ps|
    ensures forall k :: 0 <= k < |ps| ==> r[k] == QueryParameter(ps[k].name, Encoded(ps[k].value))
  {
    seq(|ps|, k requires 0 <= k < |ps| => QueryParameter(ps[k].name, Encoded(ps[k].value)))
  }

  /** The post data of a POST with parameters: "name=encoded value" pairs
      joined by '&'. */
  function PostData(isPost: bool, parameters: Option<seq<QueryParameter>>): string {
    if isPost && parameters.Some? && |parameters.value| > 0 then Normalized(ValuesEncoded(parameters.value)) else ""
  }

  /** The URL that is signed: a POST with parameters appends its post data to
      the query (after '&' when the URL has a '?' past index 0, else after '?'). */
  function SignedUrl(url: string, isPost: bool, parameters: Option<seq<QueryParameter>>): string {
    if isPost && parameters.Some? && |parameters.value| > 0 then
      url + (if IndexOf(url, '?') > 0 then "&" else "?") + PostData(isPost, parameters)
    else url
  }

  function HttpMethod(isPost: bool): string {
    if isPost then "POST" else "GET"
  }

  /** The parameter that carries the signature; a null signature is sent empty. */
  function SignatureParameter(signature: Option<string>): QueryParameter {
    QueryParameter(OAuthSignatureKey, Encoded(signature.GetOr("")))
  }

  /** The request xAuthWebRequest sends: the normalised URL, then the signed
      parameters and the encoded signature as its query. `mac` computes
      HMAC-SHA1 of a message under a key, in Base64 (None when the platform
      lacks UTF-8). */
  function RequestOf(c: Credentials, isPost: bool, url: string, parameters: Option<seq<QueryParameter>>,
                     timeStamp: string, nonce: string, mac: (string, string) -> Option<string>): Result<WebRequest, Exception>
  {
    var httpMethod := HttpMethod(isPost);
    var sb :- SignatureBaseOf(SignedUrl(url, isPost, parameters), ConsumerToken, c, httpMethod, timeStamp, nonce, HmacSha1SignatureType);
    var signature := mac(sb.text, SigningKey(ConsumerSecret, c.tokenSecret));
    var query := sb.normalizedParameters + "&" + Pair(SignatureParameter(signature));
    Ok(WebRequest(httpMethod, sb.normalizedUrl + "?" + query, PostData(isPost, parameters)))
  }

  /** RequestOf unfolded on a successful signature base: the request whose
      URL is the normalised URL, '?', the signed parameters, '&' and the
      signature parameter. */
  lemma RequestFromBase(c: Credentials, isPost: bool, url: string, parameters: Option<seq<QueryParameter>>,
                        timeStamp: string, nonce: string, mac: (string, string) -> Option<string>, sb: SignatureBase)
    requires SignatureBaseOf(SignedUrl(url, isPost, parameters), ConsumerToken, c, HttpMethod(isPost), timeStamp, nonce, HmacSha1SignatureType) == Ok(sb)
    ensures RequestOf(c, isPost, url, parameters, timeStamp, nonce, mac) ==
      Ok(WebRequest(HttpMethod(isPost),
                    sb.normalizedUrl + "?" + sb.normalizedParameters + "&" + OAuthSignatureKey + "="
                      + Encoded(mac(sb.text, SigningKey(ConsumerSecret, c.tokenSecret)).GetOr("")),
                    PostData(isPost, parameters)))
  {
    var signature := mac(sb.text, SigningKey(ConsumerSecret, c.tokenSecret));
    var query := sb.normalizedParameters + "&" + Pair(SignatureParameter(signature));
    assert RequestOf(c, isPost, url, parameters, timeStamp, nonce, mac)
        == Ok(WebRequest(HttpMethod(isPost), sb.normalizedUrl + "?" + query, PostData(isPost, parameters)));
    QueryRegrouped(sb.normalizedUrl, sb.normalizedParameters, Encoded(signature.GetOr("")));
  }

  lemma QueryRegrouped(normalizedUrl: string, normalizedParameters: string, sig: string)
    ensures normalizedUrl + "?" + (normalizedParameters + "&" + Pair(QueryParameter(OAuthSignatureKey, sig)))
         == normalizedUrl + "?" + normalizedParameters + "&" + OAuthSignatureKey + "=" + sig
  {
    var key := OAuthSignatureKey;
    assert normalizedUrl + "?" + (normalizedParameters + "&" + (key + "=" + sig))
        == normalizedUrl + "?" + normalizedParameters + "&" + key + "=" + sig;
  }

  /** A request whose signature base cannot be built fails with its error. */
  lemma RequestFails(c: Credentials, isPost: bool, url: string, parameters: Option<seq<QueryParameter>>,
                     timeStamp: string, nonce: string, mac: (string, string) -> Option<string>, error: Exception)
    requires SignatureBaseOf(SignedUrl(url, isPost, parameters), ConsumerToken, c, HttpMethod(isPost), timeStamp, nonce, HmacSha1SignatureType) == Err(error)
    ensures RequestOf(c, isPost, url, parameters, timeStamp, nonce, mac) == Err(error)
  {
  }

  /** Appending a parameter appends '&' and its pair. */
  lemma NormalizedSnoc(ps: seq<QueryParameter>, p: QueryParameter)
    requires ps != []
    ensures Normalized(ps + [p]) == Normalized(ps) + "&" + Pair(p)
  {
    var all := ps + [p];
    assert Pairs(all)[..|ps|] == Pairs(ps);
    assert Pairs(all)[|ps|] == Pair(p);
  }

  /** The query of the request is exactly the signed parameters followed by
      the signature parameter. */
  lemma RequestQuery(c: Credentials, isPost: bool, url: string, parameters: Option<seq<QueryParameter>>,
                     timeStamp: string, nonce: string, mac: (string, string) -> Option<string>,
                     ps: seq<QueryParameter>, sb: SignatureBase, request: WebRequest)
    requires SignedParameters(SignedUrl(url, isPost, parameters), ConsumerToken, c, timeStamp, nonce, HmacSha1SignatureType) == Ok(ps)
    requires SignatureBaseOf(SignedUrl(url, isPost, parameters), ConsumerToken, c, HttpMethod(isPost), timeStamp, nonce, HmacSha1SignatureType) == Ok(sb)
    requires RequestOf(c, isPost, url, parameters, timeStamp, nonce, mac) == Ok(request)
    ensures request.httpMethod == HttpMethod(isPost)
    ensures request.postData == PostData(isPost, parameters)
    ensures request.url == sb.normalizedUrl + "?" + Normalized(ps + [SignatureParameter(mac(sb.text, SigningKey(ConsumerSecret, c.tokenSecret)))])
  {
    SignedParametersNonEmpty(SignedUrl(url, isPost, parameters), ConsumerToken, c, timeStamp, nonce, HmacSha1SignatureType, ps);
    NormalizedSnoc(ps, SignatureParameter(mac(sb.text, SigningKey(ConsumerSecret, c.tokenSecret))));
  }

  /** Reading the request's query back yields the signed parameters not named
      "oauth_...", in signed order, as long as no signed name or value holds
      '&' or '=' and the signed URL does not start with '?'. */
  lemma RequestCarriesSignedParameters(c: Credentials, isPost: bool, url: string, parameters: Option<seq<QueryParameter>>,
                                       timeStamp: string, nonce: string, mac: (string, string) -> Option<string>,
                                       ps: seq<QueryParameter>, sb: SignatureBase, request: WebRequest)
    requires SignedParameters(SignedUrl(url, isPost, parameters), ConsumerToken, c, timeStamp, nonce, HmacSha1SignatureType) == Ok(ps)
    requires SignatureBaseOf(SignedUrl(url, isPost, parameters), ConsumerToken, c, HttpMethod(isPost), timeStamp, nonce, HmacSha1SignatureType) == Ok(sb)
    requires RequestOf(c, isPost, url, parameters, timeStamp, nonce, mac) == Ok(request)
    requires IndexOf(SignedUrl(url, isPost, parameters), '?') != 0
    requires forall p :: p in ps ==> Plain(p)
    ensures QueryParametersOf(request.url) == Ok(WithoutOAuth(ps))
  {
    var target := SignedUrl(url, isPost, parameters);
    RequestQuery(c, isPost, url, parameters, timeStamp, nonce, mac, ps, sb, request);
    NormalizedUrlShape(target);
    assert NormalizedUrl(target) == Ok(sb.normalizedUrl);
    SignedParametersNonEmpty(target, ConsumerToken, c, timeStamp, nonce, HmacSha1SignatureType, ps);
    SignedQueryReadBack(sb.normalizedUrl, ps, mac(sb.text, SigningKey(ConsumerSecret, c.tokenSecret)));
  }

  lemma SignedQueryReadBack(normalizedUrl: string, ps: seq<QueryParameter>, signature: Option<string>)
    requires '?' !in normalizedUrl && ps != []
    requires forall p :: p in ps ==> Plain(p)
    ensures QueryParametersOf(normalizedUrl + "?" + Normalized(ps + [SignatureParameter(signature)])) == Ok(WithoutOAuth(ps))
  {
    SignatureParameterPlain(ps, signature);
    QueryParametersRoundTrip(normalizedUrl, ps + [SignatureParameter(signature)]);
    WithoutSignature(ps, signature);
  }

  lemma SignatureParameterPlain(ps: seq<QueryParameter>, signature: Option<string>)
    requires forall p :: p in ps ==> Plain(p)
    ensures forall p :: p in ps + [SignatureParameter(signature)] ==> Plain(p)
  {
    EncodedHasNo(signature.GetOr(""), '&');
    EncodedHasNo(signature.GetOr(""), '=');
    SignatureKeyPlain();
  }

  lemma WithoutSignature(ps: seq<QueryParameter>, signature: Option<string>)
    ensures WithoutOAuth(ps + [SignatureParameter(signature)]) == WithoutOAuth(ps)
  {
    var all := ps + [SignatureParameter(signature)];
    OAuthKeysPrefixed();
    assert all[..|all| - 1] == ps;
  }

  lemma SignatureKeyPlain()
    ensures '&' !in OAuthSignatureKey && '=' !in OAuthSignatureKey
  {
    forall k | 0 <= k < |OAuthSignatureKey|
      ensures 'a' <= OAuthSignatureKey[k] <= 'z' || OAuthSignatureKey[k] == '_'
    {
    }
  }

  /** A POST's parameters are signed with their values encoded: the signed
      URL's query reads back as the encoded post parameters. */
  lemma PostParametersSigned(url: string, ps: seq<QueryParameter>)
    requires '?' !in url && ps != []
    requires forall p :: p in ps ==> '&' !in p.name && '=' !in p.name
    ensures QueryParametersOf(SignedUrl(url, true, Some(ps))) == Ok(WithoutOAuth(ValuesEncoded(ps)))
  {
    var es := ValuesEncoded(ps);
    forall p | p in es
      ensures Plain(p)
    {
      var k :| 0 <= k < |es| && es[k] == p;
      assert ps[k] in ps;
      EncodedHasNo(ps[k].value, '&');
      EncodedHasNo(ps[k].value, '=');
    }
    QueryParametersRoundTrip(url, es);
  }
}
