// TwitterApi: the authorisation state (is the user authenticated, why not,
// which XAuth object holds the token), the paged timeline URLs, and the
// timeline request with its authorisation guard and retry loop. The network,
// the clock and the feed parser are parameters of the methods that use them.
module Twitter {
  import opened Wrappers
  import opened JavaString
  import opened Parameters
  import opened Signing
  import opened XAuthClient

  const HomeTimelineUrl := "http://api.twitter.com/1/statuses/home_timeline.xml"
  const DirectTimelineUrl := "http://api.twitter.com/1/direct_messages.xml"
  const RetweetsOfMeUrl := "http://api.twitter.com/1/statuses/retweets_of_me.xml"
  const OAuthAccessTokenUrl := "https://api.twitter.com/oauth/access_token"

  /** The parameter whose presence in the handshake answer means success. */
  const TokenSecretMarker := "oauth_token_secret"

  /** A status (tweet) as far as this class builds them: the screen name, the
      text, the creation time (null for the authorisation error) and the id. */
  datatype Status = Status(screenName: string, text: string, date: Option<int>, id: string)

  /** What StatusFeedParser made of one answer: the statuses, whether the
      answer was a well-formed empty feed, and the raw text it read. */
  datatype Feed = Feed(statuses: seq<Status>, reallyEmpty: bool, rawData: string)

  /** Everything outside this class: HttpUtil (the body of the answer to the
      n-th request of a call, its response code and headers, parseParameter),
      StatusFeedParser (on a body, for the direct-message feed or not),
      HMAC-SHA1 with Base64, XAuth's clock and random nonce for the n-th
      request, Throwable.getMessage (None for a null message), the name of
      the exception's runtime class, and the current time. Within one call the
      access-token handshake is request 0 and the timeline requests are 1 and
      2, so each request draws its own timestamp and nonce. */
  datatype Environment = Environment(
    send: (nat, WebRequest) -> Result<string, Exception>,
    responseCode: nat -> int,
    headers: nat -> string,
    parseFeed: (string, bool) -> Feed,
    parseParameter: (string, string) -> Option<string>,
    mac: (string, string) -> Option<string>,
    timeStamp: nat -> string,
    nonce: nat -> string,
    getMessage: Exception -> Option<string>,
    className: Exception -> string,
    now: int)

  /** String concatenation with a possibly null string: null reads "null". */
  function ValueOf(s: Option<string>): (r: string)
    ensures s.Some? ==> r == s.value
    ensures s.None? ==> r == "null"
  {
    match s
    case Some(v) => v
    case None => "null"
  }

  /** Throwable.toString: the runtime class name, followed by ": " and the
      message only when there is one. */
  function Describe(e: Exception, env: Environment): (r: string)
    ensures env.getMessage(e).None? ==> r == env.className(e)
    ensures env.getMessage(e).Some? ==> r == env.className(e) + ": " + env.getMessage(e).value
  {
    match env.getMessage(e)
    case None => env.className(e)
    case Some(m) => env.className(e) + ": " + m
  }

  // ---------------------------------------------------------------- handshake

  /** What the access-token handshake yields: the token pair, or the status
      that explains the refusal. */
  datatype Handshake = Granted(token: Option<string>, secret: Option<string>) | Refused(status: Status)

  /** The answer to the xAuth access-token request, signed with `c`. */
  function AccessResponse(c: Credentials, env: Environment): Result<string, Exception> {
    var request :- RequestOf(c, false, OAuthAccessTokenUrl, None, env.timeStamp(0), env.nonce(0), env.mac);
    env.send(0, request)
  }

  /** TwitterApi.authorize on the handshake's answer: the marker must sit past
      index 0; an exception is reported with its message. */
  function HandshakeOutcome(response: Result<string, Exception>, env: Environment): Handshake {
    match response
    case Err(e) =>
      Refused(Status("Twitter", "Couldn't authenticate. Exception: " + ValueOf(env.getMessage(e)), None, ""))
    case Ok(token) =>
      if IndexOfString(token, TokenSecretMarker) > 0 then
        Granted(env.parseParameter(token, OAuthTokenKey), env.parseParameter(token, TokenSecretMarker))
      else
        Refused(Status("Twitter", "Couldn't find OAuth token from response: " + token, None, ""))
  }

  /** The handshake succeeds exactly when an answer came back that holds the
      marker somewhere after its first character and does not begin with it. */
  lemma HandshakeGranted(response: Result<string, Exception>, env: Environment)
    ensures HandshakeOutcome(response, env).Granted? <==>
      && response.Ok?
      && !StartsWith(response.value, TokenSecretMarker)
      && exists k :: 0 < k <= |response.value| && StartsWith(response.value[k..], TokenSecretMarker)
  {
    if response.Ok? {
      var t := response.value;
      IndexOfStringFirst(t, TokenSecretMarker);
      assert t[0..] == t;
    }
  }

  /** An answer that begins with the marker is still a refusal. */
  lemma MarkerFirstIsRefused(token: string, env: Environment)
    requires StartsWith(token, TokenSecretMarker)
    ensures HandshakeOutcome(Ok(token), env).Refused?
    ensures HandshakeOutcome(Ok(token), env).status.text == "Couldn't find OAuth token from response: " + token
  {
    IndexOfStringFirst(token, TokenSecretMarker);
    assert token[0..] == token;
  }

  // ----------------------------------------------------------------- paging

  /** The URL of a timeline page: pages after the first are asked for with
      "?page=n"; the first page (and any page below it) is the plain URL. */
  function PageUrl(base: string, page: int): string {
    if page > 1 then base + "?page=" + NatToString(page) else base
  }

  /** The page parameter as a query parameter. */
  lemma PageParameterPlain(page: nat)
    ensures Plain(QueryParameter("page", NatToString(page)))
    ensures !StartsWith("page", OAuthParameterPrefix)
  {
    var digits := NatToString(page);
    NatToStringRoundTrip(page);
    assert forall k :: 0 <= k < |digits| ==> digits[k] != '&' && digits[k] != '=';
    assert "page"[0] == 'p' && "page"[1] == 'a' && "page"[2] == 'g' && "page"[3] == 'e';
  }

  /** "?page=n" is the normalised form of the one parameter page=n. */
  lemma PageQueryNormalized(base: string, digits: string)
    ensures base + "?page=" + digits == base + "?" + Normalized([QueryParameter("page", digits)])
  {
    assert Normalized([QueryParameter("page", digits)]) == "page=" + digits;
    assert "?page=" == "?" + "page" + "=";
  }

  /** The page number travels as the one query parameter of the URL, in
      decimal, and reads back as itself. */
  lemma PageUrlQuery(base: string, page: int)
    requires '?' !in base
    ensures page <= 1 ==> PageUrl(base, page) == base && QueryParametersOf(PageUrl(base, page)) == Ok([])
    ensures page > 1 ==>
      && QueryParametersOf(PageUrl(base, page)) == Ok([QueryParameter("page", NatToString(page))])
      && AllDigits(NatToString(page)) && DecimalValue(NatToString(page)) == page
  {
    if page > 1 {
      var p := QueryParameter("page", NatToString(page));
      NatToStringRoundTrip(page);
      PageParameterPlain(page);
      PageQueryNormalized(base, p.value);
      QueryParametersRoundTrip(base, [p]);
      assert WithoutOAuth([p]) == [p];
    } else {
      assert IndexOf(base, '?') < 0;
    }
  }

  // --------------------------------------------------------------- timeline

  /** The answer to the n-th timeline request of a call, parsed. */
  function Exchange(c: Credentials, url: string, attempt: nat, env: Environment): Result<Feed, Exception> {
    var request :- RequestOf(c, false, url, None, env.timeStamp(attempt), env.nonce(attempt), env.mac);
    var body :- env.send(attempt, request);
    Ok(env.parseFeed(body, url == DirectTimelineUrl))
  }

  /** The entries one answer leaves: its statuses, or a single explanatory
      status when it has none. */
  function Shown(feed: Feed, url: string, attempt: nat, env: Environment): (entries: seq<Status>)
    ensures feed.statuses != [] ==> entries == feed.statuses
    ensures feed.statuses == [] ==> |entries| == 1 && entries[0].screenName == "Twitter"
  {
    if feed.statuses == [] && !feed.reallyEmpty then
      [Status("Twitter", "No statuses. API response from " + url + " (" + IntToString(env.responseCode(attempt)) + "): "
                         + env.headers(attempt) + " " + feed.rawData, Some(env.now), "")]
    else if feed.statuses == [] then
      [Status("Twitter", "No Tweets found.", Some(env.now), "")]
    else feed.statuses
  }

  /** The statuses an exception appends: two for a network error, one otherwise. */
  function Failure(e: Exception, env: Environment): (entries: seq<Status>)
    ensures |entries| == (if e.IOError? then 2 else 1)
  {
    if e.IOError? then
      [Status("Twitter", "Error occured. Please check your connection or username and password.", Some(env.now), ""),
       Status("Twitter", "StackTrace: " + Describe(e, env), Some(env.now), "")]
    else
      [Status("Twitter", "API exception: " + Describe(e, env), Some(env.now), "")]
  }

  /** The retry flag after one answer, as requestTimeline evidently intends:
      an answer that is empty but not a well-formed empty feed toggles it,
      any other answer clears it. */
  function RetryAfter(retry: bool, feed: Feed): bool {
    if feed.statuses == [] && !feed.reallyEmpty then !retry else false
  }

  /** The retry flag after one answer as requestTimeline is written: a
      well-formed empty feed leaves the flag as it was. */
  function RetryAfterAsWritten(retry: bool, feed: Feed): bool {
    if feed.statuses == [] && !feed.reallyEmpty then !retry
    else if feed.statuses == [] && feed.reallyEmpty then retry
    else false
  }

  /** Whether the written loop asks again after each of the answers in turn. */
  function AsksAgainAsWritten(retry: bool, feeds: seq<Feed>): bool
    decreases |feeds|
  {
    if feeds == [] then retry else AsksAgainAsWritten(RetryAfterAsWritten(retry, feeds[0]), feeds[1..])
  }

  /** Once one answer is empty but not well-formed, every later well-formed
      empty feed still leaves the written loop asking again, so a server that
      keeps answering with no tweets keeps the loop going for ever. */
  lemma {:induction false} AsWrittenKeepsRetrying(n: nat)
    ensures AsksAgainAsWritten(false, [Feed([], false, "")] + seq(n, _ => Feed([], true, "")))
  {
    EmptyFeedsKeepRetry(n);
    var rest := seq(n, _ => Feed([], true, ""));
    assert ([Feed([], false, "")] + rest)[1..] == rest;
  }

  lemma {:induction false} EmptyFeedsKeepRetry(n: nat)
    ensures AsksAgainAsWritten(true, seq(n, _ => Feed([], true, "")))
  {
    if n > 0 {
      EmptyFeedsKeepRetry(n - 1);
      assert seq(n, _ => Feed([], true, ""))[1..] == seq(n - 1, _ => Feed([], true, ""));
    }
  }

  /** The entries requestTimeline returns for an authorised user with
      credentials `c`, under the intended retry flag: at most two requests,
      numbered 1 and 2 after the handshake's 0. */
  function Timeline(c: Credentials, url: string, env: Environment): seq<Status> {
    match Exchange(c, url, 1, env)
    case Err(e) => Failure(e, env)
    case Ok(first) =>
      if !RetryAfter(false, first) then Shown(first, url, 1, env)
      else
        match Exchange(c, url, 2, env)
        case Err(e) => Shown(first, url, 1, env) + Failure(e, env)
        case Ok(second) => Shown(second, url, 2, env)
  }

  /** A timeline never comes back empty: there is always a status or a
      message explaining why there is none. */
  lemma TimelineNonEmpty(c: Credentials, url: string, env: Environment)
    ensures Timeline(c, url, env) != []
  {
    match Exchange(c, url, 1, env)
    case Err(e) =>
    case Ok(first) =>
      if RetryAfter(false, first) {
        match Exchange(c, url, 2, env)
        case Err(e) =>
        case Ok(second) => assert Shown(second, url, 2, env) != [];
      } else {
        assert Shown(first, url, 1, env) != [];
      }
  }

  /** The handshake request of TwitterApi.authorize, made through XAuth. */
  method AccessTokenRequest(x: XAuth, env: Environment) returns (answer: Result<string, Exception>)
    modifies x
    ensures x.Held() == old(x.Held())
    ensures answer == AccessResponse(old(x.Held()), env)
  {
    answer := x.XAuthWebRequest(false, OAuthAccessTokenUrl, None, env.timeStamp(0), env.nonce(0), env.mac,
                                request => env.send(0, request));
  }

  /** The n-th request of TwitterApi.requestTimeline, made through XAuth and
      handed to StatusFeedParser (in direct-message mode for the direct
      timeline). */
  method TimelineRequest(x: XAuth, url: string, n: nat, env: Environment) returns (answer: Result<Feed, Exception>)
    modifies x
    ensures x.Held() == old(x.Held())
    ensures answer == Exchange(old(x.Held()), url, n, env)
  {
    var direct := url == DirectTimelineUrl;
    var body :- x.XAuthWebRequest(false, url, None, env.timeStamp(n), env.nonce(n), env.mac,
                                  request => env.send(n, request));
    answer := Ok(env.parseFeed(body, direct));
  }

  /** One pass of the do-while loop of TwitterApi.requestTimeline on a parsed
      answer: the entries it leaves and the new retry flag. */
  method TakeFeed(feed: Feed, retry: bool, url: string, n: nat, env: Environment) returns (entries: seq<Status>, retryAgain: bool)
    ensures entries == Shown(feed, url, n, env)
    ensures retryAgain == RetryAfter(retry, feed)
  {
    entries := feed.statuses;
    retryAgain := retry;
    if entries == [] && !feed.reallyEmpty {
      entries := entries + [Status("Twitter", "No statuses. API response from " + url + " ("
                                              + IntToString(env.responseCode(n)) + "): " + env.headers(n) + " "
                                              + feed.rawData, Some(env.now), "")];
      retryAgain := !retryAgain;
    } else if entries == [] && feed.reallyEmpty {
      entries := entries + [Status("Twitter", "No Tweets found.", Some(env.now), "")];
      retryAgain := false;
    } else {
      retryAgain := false;
    }
  }

  /** The do-while loop of TwitterApi.requestTimeline for an authorised
      user, with the retry flag cleared by a well-formed empty feed: one
      request, and a second only after an empty answer that was not a
      well-formed empty feed. */
  method FetchTimeline(x: XAuth, url: string, env: Environment) returns (entries: seq<Status>)
    modifies x
    ensures x.Held() == old(x.Held())
    ensures entries == Timeline(old(x.Held()), url, env)
  {
    ghost var c := x.Held();
    entries := [];
    var retry := false;
    var attempt: nat := 0;
    while attempt == 0 || retry
      invariant x.Held() == c
      invariant attempt <= 2 && (retry ==> attempt == 1)
      invariant attempt == 0 ==> entries == []
      invariant attempt >= 1 ==> Exchange(c, url, 1, env).Ok?
      invariant attempt == 1 ==>
        entries == Shown(Exchange(c, url, 1, env).value, url, 1, env) && retry == RetryAfter(false, Exchange(c, url, 1, env).value)
      invariant attempt == 2 ==> entries == Timeline(c, url, env)
      invariant attempt >= 1 && !retry ==> entries == Timeline(c, url, env)
      decreases 2 - attempt
    {
      var n := attempt + 1;
      var answer := TimelineRequest(x, url, n, env);
      if answer.Err? {
        entries := entries + Failure(answer.error, env);
        return;
      }
      entries, retry := TakeFeed(answer.value, retry, url, n, env);
      attempt := attempt + 1;
    }
  }

  // -------------------------------------------------------------- the class

  class TwitterApi {
    var username: Option<string>
    var password: Option<string>
    var isAuthenticated: bool
    var authErrStatus: Option<Status>
    var xauth: XAuth?

    /** An authenticated API always has the XAuth object that holds its token. */
    ghost predicate Valid()
      reads this
    {
      isAuthenticated ==> xauth != null
    }

    /** new TwitterApi(): no user, not authenticated, no error, no XAuth. */
    constructor ()
      ensures Valid()
      ensures username == None && password == None
      ensures !isAuthenticated && authErrStatus == None && xauth == null
    {
      username := None;
      password := None;
      isAuthenticated := false;
      authErrStatus := None;
      xauth := null;
    }

    method SetUsername(username: Option<string>)
      modifies this
      ensures this.username == username
      ensures password == old(password) && isAuthenticated == old(isAuthenticated)
      ensures authErrStatus == old(authErrStatus) && xauth == old(xauth)
    {
      this.username := username;
    }

    method SetPassword(password: Option<string>)
      modifies this
      ensures this.password == password
      ensures username == old(username) && isAuthenticated == old(isAuthenticated)
      ensures authErrStatus == old(authErrStatus) && xauth == old(xauth)
    {
      this.password := password;
    }

    /** TwitterApi.bypassAuthorization: a stored, non-empty token is installed
        in a new XAuth without any handshake; anything else only clears the
        authenticated flag. */
    method BypassAuthorization(token: Option<string>, tokenSecret: Option<string>)
      modifies this
      ensures Valid()
      ensures username == old(username) && password == old(password) && authErrStatus == old(authErrStatus)
      ensures token.Some? && |token.value| > 0 ==>
        && isAuthenticated && xauth != null && fresh(xauth)
        && xauth.Held() == Credentials(token, tokenSecret, None, username, password)
      ensures !(token.Some? && |token.value| > 0) ==> !isAuthenticated && xauth == old(xauth)
    {
      if token.Some? && |token.value| > 0 {
        var x := new XAuth(username, password);
        x.SetTokenAndSecret(token, tokenSecret);
        xauth := x;
        isAuthenticated := true;
      } else {
        isAuthenticated := false;
      }
    }

    /** TwitterApi.authorize. Already authenticated: true, with nothing
        changed. Otherwise a new tokenless XAuth makes the access-token
        request; the outcome decides the flag, the error status and the token
        pair, and the result is always the new flag. */
    method Authorize(env: Environment) returns (authorized: bool)
      requires Valid()
      modifies this
      ensures Valid()
      ensures authorized == isAuthenticated
      ensures username == old(username) && password == old(password)
      ensures old(isAuthenticated) ==>
        authorized && xauth == old(xauth) && authErrStatus == old(authErrStatus)
      ensures !old(isAuthenticated) ==>
        var tokenless := Credentials(None, None, None, username, password);
        var outcome := HandshakeOutcome(AccessResponse(tokenless, env), env);
        && xauth != null && fresh(xauth)
        && authorized == outcome.Granted?
        && authErrStatus == (if outcome.Granted? then None else Some(outcome.status))
        && xauth.Held() == (if outcome.Granted? then tokenless.(token := outcome.token, tokenSecret := outcome.secret)
                            else tokenless)
    {
      if isAuthenticated {
        return true;
      }
      var x := new XAuth(username, password);
      xauth := x;
      var answer := AccessTokenRequest(x, env);
      authorized := Settle(answer, env);
    }

    /** The rest of TwitterApi.authorize, once the handshake has answered. */
    method Settle(answer: Result<string, Exception>, env: Environment) returns (authorized: bool)
      requires xauth != null
      modifies this, xauth
      ensures Valid()
      ensures authorized == isAuthenticated
      ensures username == old(username) && password == old(password) && xauth == old(xauth)
      ensures var outcome := HandshakeOutcome(answer, env);
        && authorized == outcome.Granted?
        && authErrStatus == (if outcome.Granted? then None else Some(outcome.status))
        && xauth.Held() == (if outcome.Granted? then old(xauth.Held()).(token := outcome.token, tokenSecret := outcome.secret)
                            else old(xauth.Held()))
    {
      if answer.Err? {
        authErrStatus := Some(Status("Twitter", "Couldn't authenticate. Exception: " + ValueOf(env.getMessage(answer.error)), None, ""));
        isAuthenticated := false;
        return false;
      }
      var token := answer.value;
      if IndexOfString(token, TokenSecretMarker) > 0 {
        var oauthToken := env.parseParameter(token, OAuthTokenKey);
        var oauthTokenSecret := env.parseParameter(token, TokenSecretMarker);
        xauth.SetTokenAndSecret(oauthToken, oauthTokenSecret);
        isAuthenticated := true;
        authErrStatus := None;
        return true;
      } else {
        authErrStatus := Some(Status("Twitter", "Couldn't find OAuth token from response: " + token, None, ""));
        isAuthenticated := false;
        return false;
      }
    }

    /** TwitterApi.resetToken: the token pair becomes empty and the next
        authorize starts a new handshake. */
    method ResetToken()
      requires xauth != null
      modifies this, xauth
      ensures Valid()
      ensures !isAuthenticated && xauth == old(xauth)
      ensures xauth.Held() == old(xauth.Held()).(token := Some(""), tokenSecret := Some(""))
      ensures username == old(username) && password == old(password) && authErrStatus == old(authErrStatus)
    {
      xauth.SetTokenAndSecret(Some(""), Some(""));
      isAuthenticated := false;
    }

    /** TwitterApi.requestTimeline. An unauthorised user gets the one status
        explaining why; an authorised one gets the timeline, with the retry
        flag cleared by a well-formed empty feed. */
    method RequestTimeline(url: string, env: Environment) returns (entries: seq<Status>)
      requires Valid()
      modifies this, xauth
      ensures Valid()
      ensures username == old(username) && password == old(password)
      ensures isAuthenticated == (old(isAuthenticated) ||
                                  HandshakeOutcome(AccessResponse(Credentials(None, None, None, username, password), env), env).Granted?)
      ensures !isAuthenticated ==> authErrStatus.Some? && entries == [authErrStatus.value]
      ensures isAuthenticated ==> xauth != null && entries == Timeline(xauth.Held(), url, env)
      ensures old(isAuthenticated) ==>
        && xauth == old(xauth) && xauth.Held() == old(xauth.Held()) && authErrStatus == old(authErrStatus)
        && entries == Timeline(old(xauth.Held()), url, env)
      ensures !old(isAuthenticated) ==>
        var tokenless := Credentials(None, None, None, username, password);
        var outcome := HandshakeOutcome(AccessResponse(tokenless, env), env);
        && xauth != null && fresh(xauth)
        && authErrStatus == (if outcome.Granted? then None else Some(outcome.status))
        && (outcome.Granted? ==>
              var granted := tokenless.(token := outcome.token, tokenSecret := outcome.secret);
              xauth.Held() == granted && entries == Timeline(granted, url, env))
        && (outcome.Refused? ==> xauth.Held() == tokenless && entries == [outcome.status])
    {
      entries := [];
      var authorized := Authorize(env);
      if !authorized {
        if authErrStatus.Some? {
          return [authErrStatus.value];
        }
      }
      entries := FetchTimeline(xauth, url, env);
    }

    /** TwitterApi.requestHomeTimeline. */
    method RequestHomeTimeline(page: int, env: Environment) returns (entries: seq<Status>)
      requires Valid()
      modifies this, xauth
      ensures Valid()
      ensures username == old(username) && password == old(password)
      ensures isAuthenticated == (old(isAuthenticated) ||
                                  HandshakeOutcome(AccessResponse(Credentials(None, None, None, username, password), env), env).Granted?)
      ensures !isAuthenticated ==> authErrStatus.Some? && entries == [authErrStatus.value]
      ensures isAuthenticated ==> xauth != null && entries == Timeline(xauth.Held(), PageUrl(HomeTimelineUrl, page), env)
      ensures old(isAuthenticated) ==>
        && xauth == old(xauth) && xauth.Held() == old(xauth.Held()) && authErrStatus == old(authErrStatus)
        && entries == Timeline(old(xauth.Held()), PageUrl(HomeTimelineUrl, page), env)
      ensures !old(isAuthenticated) ==>
        var tokenless := Credentials(None, None, None, username, password);
        var outcome := HandshakeOutcome(AccessResponse(tokenless, env), env);
        && xauth != null && fresh(xauth)
        && authErrStatus == (if outcome.Granted? then None else Some(outcome.status))
        && (outcome.Granted? ==>
              var granted := tokenless.(token := outcome.token, tokenSecret := outcome.secret);
              xauth.Held() == granted && entries == Timeline(granted, PageUrl(HomeTimelineUrl, page), env))
        && (outcome.Refused? ==> xauth.Held() == tokenless && entries == [outcome.status])
    {
      var url := HomeTimelineUrl;
      if page > 1 {
        url := url + "?page=" + NatToString(page);
      }
      entries := RequestTimeline(url, env);
    }

    /** TwitterApi.requestRetweetsOfMe. */
    method RequestRetweetsOfMe(page: int, env: Environment) returns (entries: seq<Status>)
      requires Valid()
      modifies this, xauth
      ensures Valid()
      ensures username == old(username) && password == old(password)
      ensures isAuthenticated == (old(isAuthenticated) ||
                                  HandshakeOutcome(AccessResponse(Credentials(None, None, None, username, password), env), env).Granted?)
      ensures !isAuthenticated ==> authErrStatus.Some? && entries == [authErrStatus.value]
      ensures isAuthenticated ==> xauth != null && entries == Timeline(xauth.Held(), PageUrl(RetweetsOfMeUrl, page), env)
      ensures old(isAuthenticated) ==>
        && xauth == old(xauth) && xauth.Held() == old(xauth.Held()) && authErrStatus == old(authErrStatus)
        && entries == Timeline(old(xauth.Held()), PageUrl(RetweetsOfMeUrl, page), env)
      ensures !old(isAuthenticated) ==>
        var tokenless := Credentials(None, None, None, username, password);
        var outcome := HandshakeOutcome(AccessResponse(tokenless, env), env);
        && xauth != null && fresh(xauth)
        && authErrStatus == (if outcome.Granted? then None else Some(outcome.status))
        && (outcome.Granted? ==>
              var granted := tokenless.(token := outcome.token, tokenSecret := outcome.secret);
              xauth.Held() == granted && entries == Timeline(granted, PageUrl(RetweetsOfMeUrl, page), env))
        && (outcome.Refused? ==> xauth.Held() == tokenless && entries == [outcome.status])
    {
      var url := RetweetsOfMeUrl;
      if page > 1 {
        url := url + "?page=" + NatToString(page);
      }
      entries := RequestTimeline(url, env);
    }
  }
}
