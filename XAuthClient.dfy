// The XAuth class: the user's credentials and the token it is given, the
// normalised URL and parameters left behind by the last signature, and the
// signing and sending of a request.
module XAuthClient {
  import opened Wrappers
  import opened JavaString
  import opened Percent
  import opened Parameters
  import opened ParameterSort
  import opened Signing

  /** XAuth.generateSignatureBase, lines that append the protocol
      parameters after the URL's own: the fixed five, then the token or
      else the xAuth credentials, then the verifier. */
  method AppendProtocol(parameters: seq<QueryParameter>, consumerKey: string, c: Credentials,
                        timeStamp: string, nonce: string, signatureType: string)
    returns (r: seq<QueryParameter>)
    ensures r == parameters + ProtocolParameters(consumerKey, c, timeStamp, nonce, signatureType)
  {
    var tok := c.token.GetOr("");
    r := parameters + [QueryParameter(OAuthVersionKey, OAuthVersion)];
    r := r + [QueryParameter(OAuthNonceKey, nonce)];
    r := r + [QueryParameter(OAuthTimestampKey, timeStamp)];
    r := r + [QueryParameter(OAuthSignatureMethodKey, signatureType)];
    r := r + [QueryParameter(OAuthConsumerKeyKey, consumerKey)];
    assert r == parameters + FixedParameters(consumerKey, timeStamp, nonce, signatureType);
    ghost var fixed := r;
    if tok != "" {
      r := r + [QueryParameter(OAuthTokenKey, tok)];
    } else {
      if c.username.Some? && |c.username.value| != 0 {
        r := r + [QueryParameter(XAuthUsernameKey, c.username.value)];
      }
      if c.password.Some? && |c.password.value| != 0 {
        r := r + [QueryParameter(XAuthPasswordKey, c.password.value)];
        r := r + [QueryParameter(XAuthModeKey, XAuthClientAuth)];
      }
    }
    assert r == fixed + IdentityParameters(c);
    ghost var identified := r;
    if c.verifier.Some? && |c.verifier.value| != 0 {
      r := r + [QueryParameter(OAuthVerifierKey, c.verifier.value)];
    }
    assert r == identified + VerifierParameters(c);
  }

  /** The first half of XAuth.generateSignatureBase: the URL's parameters,
      the protocol parameters appended in order, and the bubble sort. */
  method CollectParameters(url: string, consumerKey: string, c: Credentials, timeStamp: string, nonce: string, signatureType: string)
    returns (r: Result<seq<QueryParameter>, Exception>)
    ensures r == SignedParameters(url, consumerKey, c, timeStamp, nonce, signatureType)
  {
    var parameters :- GetQueryParameters(url);
    parameters := AppendProtocol(parameters, consumerKey, c, timeStamp, nonce, signatureType);
    var items := new QueryParameter[|parameters|](i requires 0 <= i < |parameters| => parameters[i]);
    assert items[..] == parameters;
    SortParameters(items);
    r := Ok(items[..]);
  }

  /** XAuth.xAuthWebRequest, the post data loop: each parameter as
      "name=encoded value", joined by '&'. */
  method EncodePostData(ps: seq<QueryParameter>) returns (postData: string)
    requires |ps| > 0
    ensures postData == Normalized(ValuesEncoded(ps))
  {
    postData := "";
    for i := 0 to |ps|
      invariant i == 0 ==> postData == ""
      invariant i > 0 ==> postData == Normalized(ValuesEncoded(ps[..i])) && |postData| > 0
    {
      var q := ps[i];
      PostDataStep(ps, i);
      if |postData| > 0 {
        postData := postData + "&";
      }
      var value := Encode(Some(q.value));
      postData := postData + (q.name + "=" + value);
    }
    assert ps[..|ps|] == ps;
  }

  /** One more parameter extends the post data by '&' (unless it is the
      first) and its "name=encoded value". */
  lemma PostDataStep(ps: seq<QueryParameter>, i: int)
    requires 0 <= i < |ps|
    ensures Normalized(ValuesEncoded(ps[..i + 1]))
         == (if i == 0 then "" else Normalized(ValuesEncoded(ps[..i])) + "&") + Pair(QueryParameter(ps[i].name, Encoded(ps[i].value)))
  {
    var encoded := QueryParameter(ps[i].name, Encoded(ps[i].value));
    ValuesEncodedSnoc(ps, i);
    if i > 0 {
      NormalizedSnoc(ValuesEncoded(ps[..i]), encoded);
    } else {
      assert Pairs([encoded]) == [Pair(encoded)];
    }
  }

  lemma ValuesEncodedSnoc(ps: seq<QueryParameter>, i: int)
    requires 0 <= i < |ps|
    ensures ValuesEncoded(ps[..i + 1]) == ValuesEncoded(ps[..i]) + [QueryParameter(ps[i].name, Encoded(ps[i].value))]
  {
  }

  /** XAuth.xAuthWebRequest, before signing: the method, and for a POST with
      parameters the post data, also appended to the URL that is signed. */
  method PrepareRequest(isPost: bool, url: string, parameters: Option<seq<QueryParameter>>)
    returns (httpMethod: string, target: string, postData: string)
    ensures httpMethod == HttpMethod(isPost)
    ensures target == SignedUrl(url, isPost, parameters)
    ensures postData == PostData(isPost, parameters)
  {
    httpMethod := "GET";
    target := url;
    postData := "";
    if isPost {
      httpMethod := "POST";
      if parameters.Some? && |parameters.value| > 0 {
        postData := EncodePostData(parameters.value);
        if IndexOf(target, '?') > 0 {
          target := target + "&";
        } else {
          target := target + "?";
        }
        target := target + postData;
      }
    }
  }

  /** XAuth.xAuthWebRequest, after signing: the normalised URL, '?', the
      normalised parameters, '&' and the encoded signature. */
  method AssembleRequest(httpMethod: string, normalizedUrl: string, normalizedParameters: string,
                         signature: Option<string>, postData: string)
    returns (request: WebRequest)
    requires normalizedParameters != ""
    ensures request == WebRequest(httpMethod, normalizedUrl + "?" + normalizedParameters + "&" + OAuthSignatureKey + "="
                                    + Encoded(signature.GetOr("")), postData)
  {
    var outUrl := normalizedUrl;
    var querystring := normalizedParameters;
    if |querystring| > 0 {
      querystring := querystring + "&";
    }
    var encodedSignature := Encode(signature);
    querystring := querystring + OAuthSignatureKey + "=" + encodedSignature;
    if |querystring| > 0 {
      outUrl := outUrl + "?";
    }
    assert outUrl + querystring == normalizedUrl + "?" + normalizedParameters + "&" + OAuthSignatureKey + "=" + encodedSignature;
    request := WebRequest(httpMethod, outUrl + querystring, postData);
  }

  class XAuth {
    var xauthUsername: Option<string>
    var xauthPassword: Option<string>
    var token: Option<string>
    var tokenSecret: Option<string>
    var verifier: Option<string>
    var normalizedUrl: string
    var normalizedRequestParameters: string

    /** The credentials this object signs with. */
    function Held(): Credentials
      reads this
    {
      Credentials(token, tokenSecret, verifier, xauthUsername, xauthPassword)
    }

    /** XAuth(username, password): no token yet, no verifier ever. */
    constructor (username: Option<string>, password: Option<string>)
      ensures Held() == Credentials(None, None, None, username, password)
      ensures normalizedUrl == "" && normalizedRequestParameters == ""
    {
      xauthUsername := username;
      xauthPassword := password;
      token := None;
      tokenSecret := None;
      verifier := None;
      normalizedUrl := "";
      normalizedRequestParameters := "";
    }

    /** XAuth.setTokenAndSecret: replaces the token and its secret, nothing else. */
    method SetTokenAndSecret(token: Option<string>, secret: Option<string>)
      modifies this
      ensures Held() == old(Held()).(token := token, tokenSecret := secret)
      ensures normalizedUrl == old(normalizedUrl) && normalizedRequestParameters == old(normalizedRequestParameters)
    {
      this.token := token;
      this.tokenSecret := secret;
    }

    /** XAuth.generateSignatureBase. On success the normalised URL and
        parameters are left in the fields. On failure nothing is changed,
        except that a URL whose path cannot be cut out leaves its scheme and
        host in normalizedUrl. */
    method GenerateSignatureBase(url: string, consumerKey: string, token: Option<string>, tokenSecret: Option<string>,
                                 verifier: Option<string>, xAuthUsername: Option<string>, xAuthPassword: Option<string>,
                                 httpMethod: string, timeStamp: string, nonce: string, signatureType: string)
      returns (r: Result<string, Exception>)
      modifies this
      ensures Held() == old(Held())
      ensures var expected := SignatureBaseOf(url, consumerKey, Credentials(token, tokenSecret, verifier, xAuthUsername, xAuthPassword),
                                              httpMethod, timeStamp, nonce, signatureType);
        && (expected.Ok? ==>
              r == Ok(expected.value.text)
              && normalizedUrl == expected.value.normalizedUrl
              && normalizedRequestParameters == expected.value.normalizedParameters)
        && (expected.Err? ==>
              r == Err(expected.error)
              && normalizedRequestParameters == old(normalizedRequestParameters)
              && normalizedUrl == (if QueryParametersOf(url).Ok? && SchemeAndHost(url).Ok? then SchemeAndHost(url).value else old(normalizedUrl)))
    {
      var sorted :- CollectParameters(url, consumerKey, Credentials(token, tokenSecret, verifier, xAuthUsername, xAuthPassword),
                                      timeStamp, nonce, signatureType);
      var schemeAndHost :- SchemeAndHost(url);
      normalizedUrl := schemeAndHost;
      var path :- AbsolutePath(url);
      normalizedUrl := normalizedUrl + path;
      normalizedRequestParameters := NormalizeRequestParameters(sorted);

      var encodedUrl := Encode(Some(normalizedUrl));
      var encodedParameters := Encode(Some(normalizedRequestParameters));
      r := Ok(httpMethod + "&" + encodedUrl + "&" + encodedParameters);
    }

    /** XAuth.generateSignature: signs the base string under the key made of
        the consumer secret and the token secret. */
    method GenerateSignature(url: string, consumerKey: string, consumerSecret: string, token: Option<string>,
                             tokenSecret: Option<string>, verifier: Option<string>, xAuthUsername: Option<string>,
                             xAuthPassword: Option<string>, httpMethod: string, timeStamp: string, nonce: string,
                             mac: (string, string) -> Option<string>)
      returns (r: Result<Option<string>, Exception>)
      modifies this
      ensures Held() == old(Held())
      ensures var expected := SignatureBaseOf(url, consumerKey, Credentials(token, tokenSecret, verifier, xAuthUsername, xAuthPassword),
                                              httpMethod, timeStamp, nonce, HmacSha1SignatureType);
        && (expected.Ok? ==>
              r == Ok(mac(expected.value.text, SigningKey(consumerSecret, tokenSecret)))
              && normalizedUrl == expected.value.normalizedUrl
              && normalizedRequestParameters == expected.value.normalizedParameters)
        && (expected.Err? ==> r == Err(expected.error))
    {
      var signatureBase :- GenerateSignatureBase(url, consumerKey, token, tokenSecret, verifier, xAuthUsername, xAuthPassword,
                                                 httpMethod, timeStamp, nonce, HmacSha1SignatureType);
      var tokenSec := "";
      if tokenSecret.Some? {
        tokenSec := tokenSecret.value;
      }
      var encodedConsumerSecret := Encode(Some(consumerSecret));
      var encodedTokenSecret := Encode(Some(tokenSec));
      var key := encodedConsumerSecret + "&" + encodedTokenSecret;
      r := Ok(mac(signatureBase, key));
    }

    /** XAuth.xAuthWebRequest: signs the request with this object's
        credentials and hands it to `send` (HttpUtil's GET or POST), whose
        answer is returned. */
    method XAuthWebRequest(isPost: bool, url: string, parameters: Option<seq<QueryParameter>>,
                           timeStamp: string, nonce: string, mac: (string, string) -> Option<string>,
                           send: WebRequest -> Result<string, Exception>)
      returns (r: Result<string, Exception>)
      modifies this
      ensures Held() == old(Held())
      ensures r == (var request :- RequestOf(old(Held()), isPost, url, parameters, timeStamp, nonce, mac); send(request))
      ensures var expected := SignatureBaseOf(SignedUrl(url, isPost, parameters), ConsumerToken, old(Held()), HttpMethod(isPost),
                                              timeStamp, nonce, HmacSha1SignatureType);
        expected.Ok? ==>
          normalizedUrl == expected.value.normalizedUrl && normalizedRequestParameters == expected.value.normalizedParameters
    {
      var httpMethod, target, postData := PrepareRequest(isPost, url, parameters);
      ghost var c := Held();
      ghost var expected := SignatureBaseOf(target, ConsumerToken, c, httpMethod, timeStamp, nonce, HmacSha1SignatureType);
      var signed := GenerateSignature(target, ConsumerToken, ConsumerSecret, token, tokenSecret, verifier,
                                      xauthUsername, xauthPassword, httpMethod, timeStamp, nonce, mac);
      if signed.Err? {
        RequestFails(c, isPost, url, parameters, timeStamp, nonce, mac, expected.error);
        return Err(signed.error);
      }
      SignatureBaseNonEmpty(target, ConsumerToken, c, httpMethod, timeStamp, nonce, HmacSha1SignatureType);
      RequestFromBase(c, isPost, url, parameters, timeStamp, nonce, mac, expected.value);
      var request := AssembleRequest(httpMethod, normalizedUrl, normalizedRequestParameters, signed.value, postData);
      r := send(request);
    }
  }
}
