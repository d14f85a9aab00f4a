/** Request authentication: pulling the token out of the Authorization
    header, mapping a verified token's payload to the request user, and the
    role gate. Signature and expiry checks belong to the JWT library and are
    not modelled. */
module Auth {
  import opened Wrappers
  import opened Entities
  import opened Text

  const BearerPrefix := "Bearer "

  /** The header of a request whose client put `Bearer ` in front of the token. */
  function BearerHeader(token: string): (h: string)
    ensures StartsWith(h, BearerPrefix) && h[|BearerPrefix|..] == token
  {
    StripPrefix(BearerPrefix, token);
    BearerPrefix + token
  }

  /** The token in an Authorization header. A missing or empty header gives
      none; a header without the prefix is the token itself; otherwise the
      prefix is dropped, and dropped once more if it appears twice (some
      clients add it again). */
  function ExtractToken(header: Option<string>): (token: Option<string>)
    ensures token.None? <==> !Truthy(header)
    ensures token.Some? ==>
      var h := header.value;
      && |h| - |token.value| in {0, 7, 14}
      && token.value == h[|h| - |token.value|..]
    ensures Truthy(header) && !StartsWith(header.value, BearerPrefix) ==> token == header
  {
    if !Truthy(header) then None
    else
      var h := header.value;
      if StartsWith(h, BearerPrefix) then
        var once := h[7..];
        if StartsWith(once, BearerPrefix) then
          assert once[7..] == h[14..];
          Some(once[7..])
        else Some(once)
      else Some(h)
  }

  /** One prefix is dropped from a prefixed token that has no second one. */
  lemma BearerRoundTrip(t: string)
    requires !StartsWith(t, BearerPrefix)
    ensures ExtractToken(Some(BearerHeader(t))) == Some(t)
  {
  }

  /** A doubled prefix is dropped whole, whatever follows it. */
  lemma DoubleBearerRoundTrip(t: string)
    ensures ExtractToken(Some(BearerHeader(BearerHeader(t)))) == Some(t)
  {
    var h := BearerHeader(BearerHeader(t));
    assert h[7..] == BearerHeader(t);
  }

  /** No more than two prefixes come off: a tripled one leaves one in place. */
  lemma ThirdBearerStays(t: string)
    ensures ExtractToken(Some(BearerHeader(BearerHeader(BearerHeader(t))))) == Some(BearerHeader(t))
  {
    var h := BearerHeader(BearerHeader(BearerHeader(t)));
    assert h[7..] == BearerHeader(BearerHeader(t));
    assert h[7..][7..] == BearerHeader(t);
  }

  /** The claims of a verified token. The role claim may be missing. */
  datatype JwtPayload = JwtPayload(sub: int, role: Option<Role>, email: string)

  /** What authenticated handlers find as `req.user`. */
  datatype RequestUser = RequestUser(id: int, role: Option<Role>, email: string)

  /** The request user for a verified token: the subject becomes the id and
      the role and address are copied. */
  function Validate(payload: JwtPayload): (u: RequestUser)
    ensures u.id == payload.sub && u.role == payload.role && u.email == payload.email
  {
    RequestUser(payload.sub, payload.role, payload.email)
  }

  function RoleName(role: Role): string {
    match role
      case STUDENT => "STUDENT"
      case LECTURER => "LECTURER"
  }

  const MsgNoRole := "User not authenticated or role missing"

  /** The role gate. An endpoint without a role list admits everyone; one with
      a list requires an authenticated user whose role is on it. The gate
      never answers false: it admits or throws. An empty list admits nobody. */
  function CanActivate(required: Option<seq<Role>>, user: Option<RequestUser>): (r: Result<bool>)
    ensures r.Ok? ==> r.value
    ensures r.Ok? <==> required.None? || (user.Some? && user.value.role.Some? && user.value.role.value in required.value)
    ensures r.Err? ==> r.kind == Unauthorized
    ensures required.Some? && (user.None? || user.value.role.None?) ==> r == Err(Unauthorized, MsgNoRole)
  {
    if required.None? then Ok(true)
    else if user.None? || user.value.role.None? then Err(Unauthorized, MsgNoRole)
    else if user.value.role.value !in required.value then
      Err(Unauthorized, "User role '" + RoleName(user.value.role.value) + "' is not authorized for this endpoint")
    else Ok(true)
  }

  /** An empty role list shuts the endpoint for every user. */
  lemma EmptyRoleListDeniesAll(user: Option<RequestUser>)
    ensures CanActivate(Some([]), user).Err?
  {
  }

  /** For a request carrying a verified token, the gate's decision depends on
      the token's role claim alone. */
  lemma GateDecidesOnTokenRole(required: seq<Role>, payload: JwtPayload)
    ensures CanActivate(Some(required), Some(Validate(payload))).Ok?
      <==> payload.role.Some? && payload.role.value in required
  {
  }
}
