/** Access tokens. A token is modelled by the claims it carries; signing
    and verifying them is the JSON Web Token library's business, so the
    encoded form and the secret do not appear. Times are whole seconds
    since the epoch, as the `exp` claim is encoded. */
module Tokens {
  import opened Records

  /** A claim value: a string (the subject) or a point in time (`exp`). */
  datatype Claim = Text(text: string) | Instant(seconds: int)

  type Claims = map<string, Claim>

  const SecondsPerMinute := 60
  /** The lifetime `create_access_token` falls back on. */
  const DefaultExpireMinutes := 15
  /** `ACCESS_TOKEN_EXPIRE_MINUTES`, the lifetime `login` asks for. */
  const AccessTokenExpireMinutes := 60

  /** `create_access_token`: copy the claims and set `exp`. The lifetime is
      `expiresDelta` in seconds, unless it is missing or zero (a zero
      `timedelta` is false in Python, so `expires_delta or ...` skips it),
      in which case it is fifteen minutes. */
  function CreateAccessToken(data: Claims, expiresDelta: Option<int>, now: int): (token: Claims)
    ensures token.Keys == data.Keys + {"exp"}
    ensures forall k :: k in data && k != "exp" ==> token[k] == data[k]
    ensures expiresDelta.Some? && expiresDelta.value != 0 ==>
              token["exp"] == Instant(now + expiresDelta.value)
    ensures expiresDelta.None? || expiresDelta == Some(0) ==>
              token["exp"] == Instant(now + DefaultExpireMinutes * SecondsPerMinute)
  {
    var delta :=
      if expiresDelta.Some? && expiresDelta.value != 0 then expiresDelta.value
      else DefaultExpireMinutes * SecondsPerMinute;
    data["exp" := Instant(now + delta)]
  }
}
