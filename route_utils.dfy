/** The two middlewares every router uses: the JSON content-type gate and the bearer-token
    authentication. The JWT library is a parameter: `verify` maps a token to its payload or to
    an error (bad signature, expired, malformed). */
module RouteUtils {
  import opened Common
  import Email

  const JsonOnly := "This resource only has an application/json representation"
  const MissingHeader := "Authorization header is missing"
  const NotBearer := "Authorization header is not a bearer token"
  const BadToken := "Your token is invalid or has expired"
  const BearerPrefix := "Bearer "

  /** What a middleware does: call `next()` and let the request through, or end it. */
  datatype Gate = Continue | Fail(err: Error)

  /** `requireJson`: `next()` for a JSON request, otherwise `next(err)` with status 415. */
  function RequireJson(isJson: bool): (g: Gate)
    ensures g.Continue? <==> isJson
    ensures g.Fail? ==> g.err.HttpError? && g.err.status == 415 && g.err.message == JsonOnly
  {
    if isJson then Continue else Fail(HttpError(415, JsonOnly))
  }

  predicate NoLineTerminator(s: string) {
    forall i :: 0 <= i < |s| ==> !Email.IsLineTerminator(s[i])
  }

  /** `authorization.match(/^Bearer (.+)$/)`, then `match[1]`: the prefix is case-sensitive, and
      the token is everything after it, at least one character, with no line terminator (`.`
      refuses them, and `$` without the `m` flag is the end of the text). */
  function ParseBearer(h: string): (t: Option<string>)
    ensures t.Some? ==> h == BearerPrefix + t.value && |t.value| >= 1 && NoLineTerminator(t.value)
  {
    if |h| > |BearerPrefix| && h[..|BearerPrefix|] == BearerPrefix && NoLineTerminator(h[|BearerPrefix|..])
    then Some(h[|BearerPrefix|..])
    else None
  }

  /** Any non-empty token without line terminators survives the trip through the header. */
  lemma BearerRoundTrip(token: string)
    requires |token| >= 1 && NoLineTerminator(token)
    ensures ParseBearer(BearerPrefix + token) == Some(token)
  {
    var h := BearerPrefix + token;
    assert h[..|BearerPrefix|] == BearerPrefix && h[|BearerPrefix|..] == token;
  }

  /** The scheme name must be spelled `Bearer`; a token followed by a line break is refused. */
  lemma BearerStrict(token: string)
    ensures ParseBearer("bearer " + token) == None
    ensures ParseBearer("BEARER " + token) == None
    ensures ParseBearer(BearerPrefix + token + "\n") == None
  {
    var h := BearerPrefix + token + "\n";
    if |h| > |BearerPrefix| && h[..|BearerPrefix|] == BearerPrefix {
      assert h[|BearerPrefix|..][|h| - 1 - |BearerPrefix|] == '\n';
    }
    assert ("bearer " + token)[0] == 'b';
    assert ("BEARER " + token)[1] == 'E';
  }

  /** The JWT library's answer for a token. */
  datatype VerifyResult = Invalid | Payload(sub: int)

  /** How `authenticate` ends: a 401 with a text, or `next()` with the authenticated user. */
  datatype AuthOutcome = Halt(status: int, text: string) | Next(sub: int)

  /** `authenticate`, as a decision on the header and the verifier's answer. */
  function AuthDecision(header: Option<string>, verify: string -> VerifyResult): (r: AuthOutcome)
    ensures r.Halt? ==> r.status == 401
    ensures r.Next? <==>
      && header.Some? && header.value != "" && ParseBearer(header.value).Some?
      && verify(ParseBearer(header.value).value).Payload?
    ensures r.Next? ==> r.sub == verify(ParseBearer(header.value).value).sub
  {
    if header.None? || header.value == "" then Halt(401, MissingHeader)
    else match ParseBearer(header.value)
      case None => Halt(401, NotBearer)
      case Some(token) =>
        match verify(token)
        case Invalid => Halt(401, BadToken)
        case Payload(sub) => Next(sub)
  }

  /** The three refusals, each with its own text. */
  lemma AuthRefusals(header: Option<string>, verify: string -> VerifyResult)
    ensures (header.None? || header == Some("")) ==>
      AuthDecision(header, verify) == Halt(401, MissingHeader)
    ensures (header.Some? && header.value != "" && ParseBearer(header.value).None?) ==>
      AuthDecision(header, verify) == Halt(401, NotBearer)
    ensures (header.Some? && ParseBearer(header.value).Some?
             && verify(ParseBearer(header.value).value).Invalid?) ==>
      AuthDecision(header, verify) == Halt(401, BadToken)
  {
  }

  /** `Bearer <token>` with a token the verifier accepts lets the request through as the
      token's subject. */
  lemma AuthAccepts(token: string, verify: string -> VerifyResult)
    requires |token| >= 1 && NoLineTerminator(token) && verify(token).Payload?
    ensures AuthDecision(Some(BearerPrefix + token), verify) == Next(verify(token).sub)
  {
    BearerRoundTrip(token);
  }

  /** The verifier is only asked about the token in the header: two verifiers that agree on it
      give the same decision. */
  lemma AuthAsksOnlyTheToken(header: Option<string>, v1: string -> VerifyResult, v2: string -> VerifyResult)
    requires header.Some? && ParseBearer(header.value).Some? ==>
      v1(ParseBearer(header.value).value) == v2(ParseBearer(header.value).value)
    ensures AuthDecision(header, v1) == AuthDecision(header, v2)
  {
  }

  /** The request as the middlewares see it: the `Authorization` header, and the field
      `authenticate` sets on success. */
  class Request {
    const authorization: Option<string>
    var currentUserid: Option<int>

    constructor (authorization: Option<string>)
      ensures this.authorization == authorization && currentUserid == None
    {
      this.authorization := authorization;
      currentUserid := None;
    }

    /** `authenticate(req, res, next)`: ends in one of the decision's outcomes; on success it
        records the token's subject in `currentUserid` before `next()`, on a 401 it leaves the
        request as it was. */
    method Authenticate(verify: string -> VerifyResult) returns (outcome: AuthOutcome)
      modifies this
      ensures outcome == AuthDecision(authorization, verify)
      ensures outcome.Next? ==> currentUserid == Some(outcome.sub)
      ensures outcome.Halt? ==> currentUserid == old(currentUserid)
    {
      outcome := AuthDecision(authorization, verify);
      if outcome.Next? {
        currentUserid := Some(outcome.sub);
      }
    }
  }
}
