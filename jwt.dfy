/** Reading the access token out of an `Authorization` header (the Bearer
    scheme of section 2.1 of RFC 6750). Verifying the token against the
    identity provider's key set is a network call outside this model; it
    enters `Context.CreateContext` as a function parameter. */
module Jwt {

  import opened Common

  const BearerPrefix := "Bearer "

  /** The claims of a verified token that the service reads. */
  datatype TokenPayload = TokenPayload(
    sub: string,
    email: Option<string>,
    name: Option<string>,
    picture: Option<string>,
    iat: int,
    exp: int)

  /** `extractBearerToken`: the header without its case-sensitive `"Bearer "`
      prefix, or nothing when the header is missing or has another scheme. */
  function ExtractBearerToken(authHeader: Option<string>): (token: Option<string>)
    ensures token.Some? <==> authHeader.Some? && BearerPrefix <= authHeader.value
    ensures token.Some? ==> BearerPrefix + token.value == authHeader.value
  {
    if authHeader.Some? && BearerPrefix <= authHeader.value
    then Some(authHeader.value[|BearerPrefix|..])
    else None
  }

  /** The bare prefix gives the empty token, not a missing one; the prefix is
      matched case-sensitively. */
  lemma BearerEdgeCases()
    ensures ExtractBearerToken(Some("Bearer ")) == Some("")
    ensures ExtractBearerToken(Some("bearer abc")) == None
    ensures ExtractBearerToken(Some("Bearer")) == None
    ensures ExtractBearerToken(None) == None
  {
    assert !("Bearer " <= "bearer abc") by { assert "bearer abc"[0] != 'B'; }
  }
}
