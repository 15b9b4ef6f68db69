/** middlewares/checkToken.js: the gate in front of the protected routes. The token is the
    second space-separated field of the `authorization` header; no token is answered 401, a
    token that does not verify 400, and a verified token binds `req.userId` to the subject
    of its claims before `next()` is called. */
module CheckToken {
  import opened Js
  import opened Crypto
  import opened Http

  /** The parts of the Express request object the gate reads and writes. */
  class Request {
    /** `req.headers['authorization']`. */
    var authorization: Option<string>
    /** `req.userId`, unset until the gate binds it. */
    var userId: Option<int>

    constructor (authorization: Option<string>)
      ensures this.authorization == authorization && userId == None
    {
      this.authorization := authorization;
      userId := None;
    }
  }

  /** `authHeader && authHeader.split(" ")[1]`, kept only when truthy: `None` for a missing or
      empty header, a header without a space, or an empty second field. What it gives is a
      space-free, non-empty word that follows the first space of the header. */
  function ExtractToken(header: Option<string>): (r: Option<string>)
    ensures r.Some? ==> IsTokenText(r.value)
    ensures r.Some? ==> header.Some? && SecondWordOf(header.value, r.value)
  {
    match header
    case None => None
    case Some(h) =>
      if h == "" then None
      else match SecondField(h)
        case None => None
        case Some(t) =>
          if t == "" then None
          else
            SecondFieldShape(h);
            Some(t)
  }

  /** `t` stands right after the first space of `h` and runs to the next space or the end. */
  predicate SecondWordOf(h: string, t: string)
  {
    exists k :: 0 <= k < |h| && h[k] == ' ' && ' ' !in h[..k] && OccursAt(h, t, k + 1)
      && (k + 1 + |t| == |h| || h[k + 1 + |t|] == ' ')
  }

  lemma SecondFieldShape(h: string)
    requires SecondField(h).Some?
    ensures SecondWordOf(h, SecondField(h).value)
  {
    var k := |FirstWord(h)|;
    var s2 := h[k + 1..];
    var t := FirstWord(s2);
    assert h[k + 1..k + 1 + |t|] == s2[..|t|];
    assert k + 1 + |t| < |h| ==> h[k + 1 + |t|] == s2[|t|];
    assert OccursAt(h, t, k + 1);
  }

  /** What the gate decides about a header. */
  datatype Verdict =
    | Denied            // no token: 401 `acesso negado`
    | Invalid           // `jwt.verify` throws: 400 `Token invalido`
    | Authenticated(id: int)

  function Decide(header: Option<string>, j: Jwt): (r: Verdict)
    ensures r == Denied <==> ExtractToken(header).None?
    ensures r == Invalid <==> ExtractToken(header).Some? && j.verify(ExtractToken(header).value).None?
    ensures r.Authenticated? ==>
      ExtractToken(header).Some? && j.verify(ExtractToken(header).value).Some?
      && j.verify(ExtractToken(header).value).value.id == r.id
  {
    match ExtractToken(header)
    case None => Denied
    case Some(t) =>
      match j.verify(t)
      case None => Invalid
      case Some(c) => Authenticated(c.id)
  }

  const DeniedMessage := "acesso negado"
  const InvalidTokenMessage := "Token invalido"

  /** `checkToken(req, res, next)`: `Next` is the call of `next()`. */
  method CheckToken(req: Request, j: Jwt) returns (g: Gate)
    modifies req
    ensures Decide(old(req.authorization), j) == Denied ==> g == Halt(401, Msg("msg", DeniedMessage))
    ensures Decide(old(req.authorization), j) == Invalid ==> g == Halt(400, Msg("msg", InvalidTokenMessage))
    ensures g == Next <==> Decide(old(req.authorization), j).Authenticated?
    ensures req.userId == if g == Next then Some(Decide(old(req.authorization), j).id) else old(req.userId)
    ensures req.authorization == old(req.authorization)
  {
    var token := ExtractToken(req.authorization);
    if token.None? {
      return Halt(401, Msg("msg", DeniedMessage));
    }
    var decoded := j.verify(token.value);
    if decoded.None? {
      return Halt(400, Msg("msg", InvalidTokenMessage));
    }
    req.userId := Some(decoded.value.id);
    g := Next;
  }

  /** Any scheme word is accepted: `<scheme> <token>` presents `token`. */
  lemma AnySchemePresentsToken(scheme: string, token: string)
    requires ' ' !in scheme && IsTokenText(token)
    ensures ExtractToken(Some(scheme + " " + token)) == Some(token)
  {
    SecondFieldOfSchemeAndToken(scheme, token);
  }

  /** A freshly signed token sent as a bearer token authenticates its own subject. */
  lemma SignedTokenAuthenticates(j: Jwt, c: Claims, expiresIn: Option<nat>)
    requires JwtSound(j)
    ensures Decide(Some("Bearer " + j.sign(c, expiresIn)), j) == Authenticated(c.id)
  {
    AnySchemePresentsToken("Bearer", j.sign(c, expiresIn));
  }

  /** A header without a space carries no token and is denied, whatever it holds. */
  lemma NoSpaceDenied(h: string, j: Jwt)
    requires ' ' !in h
    ensures Decide(Some(h), j) == Denied
  {
  }

  /** A header whose second field is empty (`"Bearer "`, or two spaces after the scheme) is
      denied even when a token follows further on. */
  lemma EmptySecondFieldDenied(scheme: string, rest: string, j: Jwt)
    requires ' ' !in scheme
    ensures Decide(Some(scheme + " " + " " + rest), j) == Denied
    ensures Decide(Some(scheme + " "), j) == Denied
  {
    var h := scheme + " " + " " + rest;
    FirstWordOfPrefix(scheme, " " + " " + rest);
    assert h == scheme + (" " + " " + rest);
    assert h[|scheme| + 1..] == " " + rest;
    FirstWordOfPrefix(scheme, " ");
  }
}
