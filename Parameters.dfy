// Query parameters: XAuth.getQueryParameters, which reads the caller's
// parameters out of a URL, and XAuth.normalizeRequestParameters, which joins
// a parameter list into the string that is signed and sent.
module Parameters {
  import opened Wrappers
  import opened JavaString

  /** QueryParameter: a name and a value, both strings. */
  datatype QueryParameter = QueryParameter(name: string, value: string)

  const OAuthParameterPrefix: string := "oauth_"

  /** "name=value". */
  function Pair(p: QueryParameter): string {
    p.name + "=" + p.value
  }

  function Pairs(ps: seq<QueryParameter>): (r: seq<string>)
    ensures |r| == |ps| && forall k :: 0 <= k < |ps| ==> r[k] == Pair(ps[k])
  {
    seq(|ps|, k requires 0 <= k < |ps| => Pair(ps[k]))
  }

  /** The normalised parameter string: the pairs in list order, separated by '&'. */
  function Normalized(ps: seq<QueryParameter>): string {
    Join(Pairs(ps), '&')
  }

  /** XAuth.normalizeRequestParameters: walks the list, writing '&' after every pair but the last. */
  method NormalizeRequestParameters(parameters: seq<QueryParameter>) returns (r: string)
    ensures r == Normalized(parameters)
  {
    var sb := "";
    var n := |parameters|;
    for k := 0 to n
      invariant k == 0 ==> sb == ""
      invariant 0 < k < n ==> sb == Normalized(parameters[..k]) + "&"
      invariant k == n ==> sb == Normalized(parameters[..k])
    {
      var p := parameters[k];
      assert Pairs(parameters[..k + 1]) == Pairs(parameters[..k]) + [Pair(p)];
      sb := sb + p.name + "=" + p.value;
      if k + 1 < n {
        sb := sb + "&";
      }
    }
    assert parameters[..n] == parameters;
    return sb;
  }

  /** Splitting the normalised string at '&' gives the pairs back, one per parameter. */
  lemma NormalizedPieces(ps: seq<QueryParameter>)
    requires forall p :: p in ps ==> '&' !in p.name && '&' !in p.value
    ensures ps == [] ==> Normalized(ps) == ""
    ensures ps != [] ==> Split(Normalized(ps), '&') == Pairs(ps)
  {
    if ps != [] {
      forall s | s in Pairs(ps)
        ensures '&' !in s
      {
        var k :| 0 <= k < |ps| && Pairs(ps)[k] == s;
        assert ps[k] in ps;
      }
      JoinSplit(Pairs(ps), '&');
    }
  }

  // ---------------------------------------------------------------------
  // getQueryParameters

  /** What one '&'-separated piece of the query contributes: nothing for a piece
      starting with "oauth_"; otherwise the text before its first '=' as the name
      and the text between that '=' and the next one as the value. A piece with
      no '=' makes `nameValue[1]` throw. */
  function PieceParameter(piece: string): Result<Option<QueryParameter>, Exception> {
    if StartsWith(piece, OAuthParameterPrefix) then Ok(None)
    else
      var nameValue := Split(piece, '=');
      if |nameValue| < 2 then Err(ArrayIndexOutOfBounds)
      else Ok(Some(QueryParameter(nameValue[0], nameValue[1])))
  }

  function CallerParameters(pieces: seq<string>): Result<seq<QueryParameter>, Exception> {
    if pieces == [] then Ok([])
    else
      var init :- CallerParameters(pieces[..|pieces| - 1]);
      var p :- PieceParameter(pieces[|pieces| - 1]);
      Ok(init + (if p.Some? then [p.value] else []))
  }

  /** The caller parameters XAuth.getQueryParameters reads from a URL. */
  function QueryParametersOf(url: string): Result<seq<QueryParameter>, Exception> {
    var questionMark := IndexOf(url, '?');
    if questionMark < 0 then Ok([]) else CallerParameters(Split(url[questionMark + 1..], '&'))
  }

  /** Once a prefix of the pieces has thrown, the whole list throws the same way. */
  lemma {:induction false} CallerParametersFailFast(pieces: seq<string>, k: nat)
    requires k <= |pieces|
    requires CallerParameters(pieces[..k]).Err?
    ensures CallerParameters(pieces) == CallerParameters(pieces[..k])
    decreases |pieces| - k
  {
    if k < |pieces| {
      assert pieces[..k + 1][..k] == pieces[..k];
      CallerParametersFailFast(pieces, k + 1);
    } else {
      assert pieces[..k] == pieces;
    }
  }

  /** Reading one more piece: its parameter (if any) is appended, or its error is the result. */
  lemma CallerParametersStep(pieces: seq<string>, i: int, init: seq<QueryParameter>)
    requires 0 <= i < |pieces| && CallerParameters(pieces[..i]) == Ok(init)
    ensures CallerParameters(pieces[..i + 1]) ==
      (var p :- PieceParameter(pieces[i]); Ok(init + (if p.Some? then [p.value] else [])))
  {
    assert pieces[..i + 1][..i] == pieces[..i];
    assert pieces[..i + 1][i] == pieces[i];
  }

  /** XAuth.getQueryParameters. */
  method GetQueryParameters(url: string) returns (r: Result<seq<QueryParameter>, Exception>)
    ensures r == QueryParametersOf(url)
  {
    var questionMarkIndex := IndexOf(url, '?');
    if questionMarkIndex < 0 {
      return Ok([]);
    }
    var parameters := url[questionMarkIndex + 1..];
    var params: seq<QueryParameter> := [];
    var para := Split(parameters, '&');
    for i := 0 to |para|
      invariant CallerParameters(para[..i]) == Ok(params)
    {
      CallerParametersStep(para, i, params);
      if !StartsWith(para[i], OAuthParameterPrefix) {
        var nameValue := Split(para[i], '=');
        if |nameValue| < 2 {
          CallerParametersFailFast(para, i + 1);
          return Err(ArrayIndexOutOfBounds);
        }
        params := params + [QueryParameter(nameValue[0], nameValue[1])];
      } else {
        assert params + [] == params;
      }
    }
    assert para[..|para|] == para;
    return Ok(params);
  }

  /** A parameter that survives being written into a query and read back. */
  predicate Plain(p: QueryParameter) {
    '&' !in p.name && '=' !in p.name && '&' !in p.value && '=' !in p.value
  }

  /** The parameters whose names do not start with "oauth_", in order. */
  function WithoutOAuth(ps: seq<QueryParameter>): seq<QueryParameter> {
    if ps == [] then []
    else
      var last := ps[|ps| - 1];
      WithoutOAuth(ps[..|ps| - 1]) + (if StartsWith(last.name, OAuthParameterPrefix) then [] else [last])
  }

  lemma PairPrefix(p: QueryParameter)
    requires '=' !in p.name
    ensures StartsWith(Pair(p), OAuthParameterPrefix) <==> StartsWith(p.name, OAuthParameterPrefix)
  {
    var s := Pair(p);
    if |p.name| < |OAuthParameterPrefix| {
      assert s[|p.name|] == '=' != OAuthParameterPrefix[|p.name|];
      assert |OAuthParameterPrefix| <= |s| ==> s[..|OAuthParameterPrefix|][|p.name|] != OAuthParameterPrefix[|p.name|];
    } else {
      assert s[..|OAuthParameterPrefix|] == p.name[..|OAuthParameterPrefix|];
    }
  }

  lemma PieceParameterOfPair(p: QueryParameter)
    requires Plain(p)
    ensures PieceParameter(Pair(p)) ==
      if StartsWith(p.name, OAuthParameterPrefix) then Ok(None) else Ok(Some(p))
  {
    PairPrefix(p);
    JoinSplit([p.name, p.value], '=');
    assert Join([p.name, p.value], '=') == Pair(p) by {
      assert [p.name, p.value][..1] == [p.name];
    }
  }

  lemma {:induction false} CallerParametersOfPairs(ps: seq<QueryParameter>)
    requires forall p :: p in ps ==> Plain(p)
    ensures CallerParameters(Pairs(ps)) == Ok(WithoutOAuth(ps))
    decreases |ps|
  {
    if ps != [] {
      var init := ps[..|ps| - 1];
      assert Pairs(ps)[..|ps| - 1] == Pairs(init);
      assert forall p :: p in init ==> p in ps;
      CallerParametersOfPairs(init);
      assert ps[|ps| - 1] in ps;
      PieceParameterOfPair(ps[|ps| - 1]);
    }
  }

  /** Reading back the parameters written after a '?' gives those not named
      "oauth_..." in their original order. */
  lemma QueryParametersRoundTrip(base: string, ps: seq<QueryParameter>)
    requires '?' !in base
    requires ps != []
    requires forall p :: p in ps ==> Plain(p)
    ensures QueryParametersOf(base + "?" + Normalized(ps)) == Ok(WithoutOAuth(ps))
  {
    var url := base + "?" + Normalized(ps);
    assert url[|base|] == '?' && url[..|base|] == base;
    assert IndexOf(url, '?') == |base|;
    assert url[|base| + 1..] == Normalized(ps);
    NormalizedPieces(ps);
    CallerParametersOfPairs(ps);
  }
}
