/** The logout endpoint: a refresh token must be supplied before the token
    library is asked to blacklist it. */
module Logout {
  import opened Users

  const REFRESH_REQUIRED_ERROR: string := "Refresh token is required."
  const TOKEN_INVALID_ERROR: string := "Invalid or expired token."
  const LOGOUT_FAILED_ERROR: string := "Logout failed. Please try again."
  const LOGOUT_MESSAGE: string := "Successfully logged out."

  /** What the token library does with `RefreshToken(t).blacklist()`:
      blacklists it, raises its token error, or raises something else. */
  datatype BlacklistOutcome = Blacklisted | TokenError | OtherError

  /** The response, and the token handed to the token library, if any. */
  datatype LogoutResult = LogoutResult(response: Response, blacklistRequest: Option<string>)

  /** The refresh value is falsy: absent or the empty string. */
  predicate RefreshMissing(refresh: Option<string>) {
    refresh.None? || refresh.value == ""
  }

  /** `LogoutView.post`, given the `refresh` field of the request body and
      what the token library would do with it. */
  function Post(refresh: Option<string>, outcome: BlacklistOutcome): (r: LogoutResult)
    // no refresh value: 400 before any token work
    ensures RefreshMissing(refresh) ==>
      r == LogoutResult(Response(HTTP_400_BAD_REQUEST, Error(REFRESH_REQUIRED_ERROR)), None)
    // the "required" error is given exactly for a missing value
    ensures r.response.body == Error(REFRESH_REQUIRED_ERROR) <==> RefreshMissing(refresh)
    // a supplied value is the one handed to the token library
    ensures !RefreshMissing(refresh) ==> r.blacklistRequest == refresh
    ensures r.blacklistRequest.Some? <==> !RefreshMissing(refresh)
    // success exactly when a value is supplied and blacklisting works
    ensures r.response.status == HTTP_200_OK <==> !RefreshMissing(refresh) && outcome == Blacklisted
    ensures r.response.status in {HTTP_200_OK, HTTP_400_BAD_REQUEST}
  {
    if RefreshMissing(refresh) then
      LogoutResult(Response(HTTP_400_BAD_REQUEST, Error(REFRESH_REQUIRED_ERROR)), None)
    else
      var response := match outcome
        case Blacklisted => Response(HTTP_200_OK, Message(LOGOUT_MESSAGE))
        case TokenError => Response(HTTP_400_BAD_REQUEST, Error(TOKEN_INVALID_ERROR))
        case OtherError => Response(HTTP_400_BAD_REQUEST, Error(LOGOUT_FAILED_ERROR));
      LogoutResult(response, refresh)
  }

  /** With no refresh value the outcome of the token library is irrelevant:
      it is never consulted. */
  lemma MissingRefreshIgnoresTokenLibrary(refresh: Option<string>, a: BlacklistOutcome, b: BlacklistOutcome)
    requires RefreshMissing(refresh)
    ensures Post(refresh, a) == Post(refresh, b)
  {
  }
}
