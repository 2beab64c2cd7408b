/** The `auth` middleware: it reads the `Authorization` header, takes the
    token after the "Bearer " prefix, and lets the handler run only when the
    token verifies. A passing gate hands the handler the verified claims. */
module Auth {
  import opened Wrappers
  import opened Crypto

  const Prefix: string := "Bearer "
  const MissingToken: string := "Missing token"
  const InvalidToken: string := "Invalid token"

  /** `h.startsWith('Bearer ') ? h.slice(7) : null` on `authorization || ''`,
      with an empty remainder treated as missing (`!token`). The token, when
      there is one, is exactly what follows the prefix. */
  function ExtractToken(header: Option<string>): (r: Option<string>)
    ensures r.Some? <==>
      header.Some? && |header.value| > |Prefix| && header.value[..|Prefix|] == Prefix
    ensures r.Some? ==> header == Some(Prefix + r.value) && r.value != ""
  {
    var h := if header.Some? then header.value else "";
    if |h| >= 7 && h[..7] == Prefix && h[7..] != "" then
      assert h == h[..7] + h[7..];
      Some(h[7..])
    else
      None
  }

  /** The outcome of the gate: the handler runs with `caller`, or the request
      is answered 401 with `message`. */
  datatype Gate = Pass(caller: Claims) | Deny(message: string)

  /** No usable token gives "Missing token"; a token `verify` rejects gives
      "Invalid token"; otherwise the caller is exactly the verified claims. */
  function Authenticate(verify: string -> Option<Claims>, header: Option<string>): (g: Gate)
    ensures ExtractToken(header).None? ==> g == Deny(MissingToken)
    ensures ExtractToken(header).Some? && verify(ExtractToken(header).value).None? ==>
      g == Deny(InvalidToken)
    ensures g.Pass? <==>
      ExtractToken(header).Some? && verify(ExtractToken(header).value).Some?
    ensures g.Pass? ==> verify(ExtractToken(header).value) == Some(g.caller)
  {
    match ExtractToken(header)
    case None => Deny(MissingToken)
    case Some(token) =>
      match verify(token)
      case None => Deny(InvalidToken)
      case Some(c) => Pass(c)
  }

  /** The header a client builds from a token (`Bearer ${token}`) yields that
      token back. */
  lemma BearerRoundTrip(token: string)
    requires token != ""
    ensures ExtractToken(Some(Prefix + token)) == Some(token)
  {
    assert (Prefix + token)[..7] == Prefix;
    assert (Prefix + token)[7..] == token;
  }

  /** A token the server issued for `c` passes the gate as `c`. */
  lemma IssuedTokenPasses(p: Primitives, c: Claims)
    requires Lawful(p)
    ensures Authenticate(p.verify, Some(Prefix + p.sign(c))) == Pass(c)
  {
    BearerRoundTrip(p.sign(c));
  }
}
