/** The `authenticate` middleware: take the token from the second
    space-separated word of the Authorization header, answer 401 when there is
    none, 403 when verification fails, and otherwise store the decoded claims
    on the request and call `next`. `jwt.verify` (signature and expiry checks
    with the process secret) is an opaque function passed in. */
module Middleware {
  import opened Http
  import Login
  import opened Text

  const MSG_NO_TOKEN := "Unauthorized (No token provided)"
  const MSG_BAD_TOKEN := "Invalid or expired token"

  /** `authHeader && authHeader.split(' ')[1]`, kept only when truthy. */
  function BearerToken(header: Option<string>): (r: Option<string>)
    ensures !Present(header) ==> r.None?
    ensures r.Some? ==> r.value != "" && ' ' !in r.value
  {
    if !Present(header) then None
    else
      var parts := Split(header.value, ' ');
      if |parts| < 2 || parts[1] == "" then None else Some(parts[1])
  }

  /** The token is the second word, whatever the first word (the scheme) is,
      and whatever words follow it. */
  lemma TokenIsSecondWord(scheme: string, token: string, more: seq<string>)
    requires ' ' !in scheme && ' ' !in token && token != ""
    requires Free(more, ' ')
    ensures BearerToken(Some(Join([scheme, token] + more, ' '))) == Some(token)
  {
    var parts := [scheme, token] + more;
    forall i | 0 <= i < |parts| ensures ' ' !in parts[i] {
      if i >= 2 {
        assert parts[i] == more[i - 2];
      }
    }
    SecondPartIsToken(parts);
  }

  lemma SecondPartIsToken(parts: seq<string>)
    requires |parts| >= 2 && parts[1] != "" && Free(parts, ' ')
    ensures BearerToken(Some(Join(parts, ' '))) == Some(parts[1])
  {
    SplitJoin(parts, ' ');
    assert Join(parts, ' ') == parts[0] + " " + Join(parts[1..], ' ');
  }

  /** A header without a space has no token. */
  lemma NoSpaceNoToken(header: string)
    requires ' ' !in header
    ensures BearerToken(Some(header)) == None
  {
    SplitJoin([header], ' ');
  }

  /** With the first space at `i`, there is a token exactly when a character
      other than a space follows it, and the token is then the word that
      starts there. */
  lemma TokenAfterFirstSpace(header: string, i: nat)
    requires i < |header| && header[i] == ' ' && ' ' !in header[..i]
    ensures BearerToken(Some(header)).None? <==> i + 1 == |header| || header[i + 1] == ' '
    ensures BearerToken(Some(header)).Some? ==>
      var token := BearerToken(Some(header)).value;
      && token != "" && ' ' !in token
      && i + 1 + |token| <= |header|
      && header[i + 1..i + 1 + |token|] == token
      && (i + 1 + |token| == |header| || header[i + 1 + |token|] == ' ')
  {
    var rest := Split(header[i + 1..], ' ');
    var parts := [header[..i]] + rest;
    assert Free(parts, ' ') by {
      forall k | 0 <= k < |parts| ensures ' ' !in parts[k] {
        if k >= 1 {
          assert parts[k] == rest[k - 1];
        }
      }
    }
    assert Join(parts, ' ') == header by {
      assert header == header[..i] + " " + header[i + 1..];
    }
    SplitJoin(parts, ' ');
    assert Split(header, ' ') == parts;
    var word := rest[0];
    if |rest| > 1 {
      assert header[i + 1..] == word + " " + Join(rest[1..], ' ');
    } else {
      assert header[i + 1..] == word;
    }
  }

  /** What the middleware does with a request. */
  datatype Outcome = Reject(status: int, message: string) | Pass(user: Login.Claims)

  function Decide(header: Option<string>, verify: string -> Option<Login.Claims>): (o: Outcome)
    ensures o.Reject? ==> o == Reject(UNAUTHORIZED, MSG_NO_TOKEN) || o == Reject(FORBIDDEN, MSG_BAD_TOKEN)
    ensures o.Pass? ==> BearerToken(header).Some? && verify(BearerToken(header).value) == Some(o.user)
  {
    match BearerToken(header)
    case None => Reject(UNAUTHORIZED, MSG_NO_TOKEN)
    case Some(token) =>
      match verify(token)
      case None => Reject(FORBIDDEN, MSG_BAD_TOKEN)
      case Some(claims) => Pass(claims)
  }

  /** 401 exactly when there is no token, 403 exactly when there is one that
      does not verify, and otherwise the claims `verify` decoded. */
  lemma DecideOutcomes(header: Option<string>, verify: string -> Option<Login.Claims>)
    ensures Decide(header, verify) == Reject(UNAUTHORIZED, MSG_NO_TOKEN) <==> BearerToken(header).None?
    ensures Decide(header, verify) == Reject(FORBIDDEN, MSG_BAD_TOKEN) <==>
      BearerToken(header).Some? && verify(BearerToken(header).value).None?
    ensures Decide(header, verify).Pass? ==>
      BearerToken(header).Some? && verify(BearerToken(header).value) == Some(Decide(header, verify).user)
  {
  }

  /** The request as the middleware sees it: the header it reads, the `user`
      field it writes, how often `next` has been called, and the error
      response it has sent, if any. */
  class AuthRequest {
    const authorization: Option<string>
    var user: Option<Login.Claims>
    var nextCalls: nat
    var sent: Option<(int, string)>

    constructor (authorization: Option<string>)
      ensures this.authorization == authorization
      ensures user == None && nextCalls == 0 && sent == None
    {
      this.authorization := authorization;
      user := None;
      nextCalls := 0;
      sent := None;
    }
  }

  /** `authenticate`: on success writes `req.user` and calls `next` exactly
      once; otherwise sends 401 or 403 and neither writes `req.user` nor
      calls `next`. */
  method Authenticate(req: AuthRequest, verify: string -> Option<Login.Claims>)
    modifies req
    ensures Decide(req.authorization, verify).Pass? ==>
      && req.user == Some(Decide(req.authorization, verify).user)
      && req.nextCalls == old(req.nextCalls) + 1
      && req.sent == old(req.sent)
    ensures Decide(req.authorization, verify).Reject? ==>
      && req.user == old(req.user)
      && req.nextCalls == old(req.nextCalls)
      && req.sent == Some((Decide(req.authorization, verify).status, Decide(req.authorization, verify).message))
  {
    var token := BearerToken(req.authorization);
    if token.None? {
      req.sent := Some((UNAUTHORIZED, MSG_NO_TOKEN));
      return;
    }
    var decoded := verify(token.value);
    if decoded.None? {
      req.sent := Some((FORBIDDEN, MSG_BAD_TOKEN));
      return;
    }
    req.user := decoded;
    req.nextCalls := req.nextCalls + 1;
  }

  /** `getMe` behind `authenticate`: the handler runs only when `next` was
      called, and then answers with exactly the claims decoded from the
      bearer token. */
  method AuthenticatedMe(req: AuthRequest, verify: string -> Option<Login.Claims>)
    returns (r: Option<Response<Option<Login.Claims>>>)
    requires req.nextCalls == 0 && req.sent == None
    modifies req
    ensures r.Some? <==> BearerToken(req.authorization).Some? && verify(BearerToken(req.authorization).value).Some?
    ensures r.Some? ==> r.value == Success(OK, verify(BearerToken(req.authorization).value))
    ensures r.None? ==> req.sent.Some? && req.nextCalls == 0
  {
    Authenticate(req, verify);
    if req.nextCalls == 0 {
      return None;
    }
    r := Some(Login.GetMe(req.user));
  }
}
