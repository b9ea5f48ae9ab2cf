/**
 * The `authenticateToken` middleware of backend/server.js: the bearer token is
 * the second space-separated field of the `Authorization` header, and the
 * outcome of JWT verification (an oracle here) decides between 401, 403 and
 * admitting the request with the token's subject as the caller.
 */
module AuthGate {
  import opened Wrappers
  import opened JsText

  /** What `jwt.verify` reports for a token. */
  datatype Verification =
    | Verified(userId: nat)  // signature and expiry check out; the payload's `id`
    | Expired                // a `TokenExpiredError`
    | Rejected               // any other verification error

  /** The middleware's decision: reach the route handler, or answer with an error. */
  datatype Gate = Admit(userId: nat) | Deny(status: nat, message: string)

  /**
   * `authHeader && authHeader.split(" ")[1]`: the second field, or `None` when
   * the header is absent or has no space (for an empty header JavaScript yields
   * "" rather than `undefined`; both are falsy and lead to the same 401).
   */
  function TokenOf(header: Option<string>): (t: Option<string>)
    ensures t.Some? ==> ' ' !in t.value
  {
    match header
    case None => None
    case Some(h) =>
      var fields := Split(h, ' ');
      if |fields| > 1 then Some(fields[1]) else None
  }

  /** The token is usable (truthy): present and not empty. */
  predicate HasToken(header: Option<string>) {
    TokenOf(header).Some? && TokenOf(header).value != ""
  }

  /**
   * `authenticateToken`: no token is a 401 before verification is consulted;
   * an expired token is a 401; any other verification error is a 403; only a
   * verified token admits the request, as the token's subject.
   */
  function Authenticate(header: Option<string>, verify: string -> Verification): (g: Gate)
    ensures g.Admit? <==> HasToken(header) && verify(TokenOf(header).value).Verified?
    ensures g.Admit? ==> g.userId == verify(TokenOf(header).value).userId
    ensures g.Deny? ==> g.status == 401 || g.status == 403
    ensures g.Deny? && g.status == 403 <==> HasToken(header) && verify(TokenOf(header).value).Rejected?
    ensures !HasToken(header) ==> g == Deny(401, "No token provided")
  {
    var token := TokenOf(header);
    if token.None? || token.value == "" then Deny(401, "No token provided")
    else match verify(token.value)
      case Expired => Deny(401, "Token expired")
      case Rejected => Deny(403, "Invalid token")
      case Verified(id) => Admit(id)
  }

  /** Without a token the decision does not depend on the verifier at all. */
  lemma NoTokenIgnoresVerifier(header: Option<string>, v1: string -> Verification, v2: string -> Verification)
    requires !HasToken(header)
    ensures Authenticate(header, v1) == Authenticate(header, v2)
  {
  }

  /**
   * The header `"Bearer " + t` carries exactly the token `t` whenever `t` has
   * no space in it: building the header and extracting the token round-trip.
   */
  lemma {:induction false} BearerRoundTrip(t: string)
    requires ' ' !in t
    ensures TokenOf(Some("Bearer " + t)) == Some(t)
  {
    var h := "Bearer " + t;
    assert IndexOf(h, ' ') == 6 by {
      assert h[6] == ' ';
      forall k | 0 <= k < 6 ensures h[k] != ' ' { }
      assert IndexOf(h, ' ') >= 0 && IndexOf(h, ' ') <= 6;
    }
    assert h[7..] == t;
    var rest := Split(t, ' ');
    assert IndexOf(t, ' ') < 0;
    assert rest == [t];
    assert Split(h, ' ') == [h[..6]] + rest;
  }

  /** A present header yields some token exactly when it contains a space. */
  lemma TokenPresentIffSpace(h: string)
    ensures TokenOf(Some(h)).Some? <==> ' ' in h
  {
    SplitSingle(h, ' ');
  }
}
