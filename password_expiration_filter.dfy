/** `PasswordExpirationFilter` (auth/PasswordExpirationFilter.java): sends a
    logged-in user whose password has expired to the change-password page. */
module ExpirationFilter {
  import opened Wrappers
  import opened UserModel
  import opened Strings

  /** `isUrlExcluded`: static resources and the change-password page itself. */
  predicate IsUrlExcluded(url: string) {
    EndsWith(url, ".css") || EndsWith(url, ".png") || EndsWith(url, ".js")
      || EndsWith(url, "/change_password")
  }

  /** What the security context holds: nothing, a principal of another type, or
      a `MyUserDetails` wrapping a user. */
  datatype Principal = NoAuthentication | OtherPrincipal | UserDetails(user: UserRow)

  /** `getLoggedInUser`: the user only when the principal is a `MyUserDetails`. */
  function LoggedInUser(p: Principal): Option<UserRow> {
    match p
    case UserDetails(u) => Some(u)
    case _ => None
  }

  /** `doFilter` either continues the chain or sends a redirect (and does not continue). */
  datatype FilterAction = ContinueChain | SendRedirect(location: string)

  /** `showChangePasswordPage`: the redirect target. */
  function ChangePasswordLocation(contextPath: string): string {
    contextPath + "/change_password"
  }

  /** `doFilter` for a request with the given URL and context path.
      `isPasswordExpired` stands for `User.isPasswordExpired()`, whose definition
      is not part of this model. */
  function DoFilter(url: string, contextPath: string, principal: Principal, now: Time,
                    isPasswordExpired: (UserRow, Time) -> bool): FilterAction
  {
    if IsUrlExcluded(url) then ContinueChain
    else match LoggedInUser(principal)
      case Some(u) =>
        if isPasswordExpired(u, now) then SendRedirect(ChangePasswordLocation(contextPath))
        else ContinueChain
      case None => ContinueChain
  }

  /** Every URL with one of the four suffixes is excluded, whatever precedes it. */
  lemma ExcludedSuffixes(prefix: string)
    ensures IsUrlExcluded(prefix + ".css")
    ensures IsUrlExcluded(prefix + ".png")
    ensures IsUrlExcluded(prefix + ".js")
    ensures IsUrlExcluded(prefix + "/change_password")
  {
    EndsWithConcat(prefix, ".css");
    EndsWithConcat(prefix, ".png");
    EndsWithConcat(prefix, ".js");
    EndsWithConcat(prefix, "/change_password");
  }

  /** A URL that ends in '/' is never excluded: none of the suffixes ends in '/'.
      So "/change_password/" and "/change_password/x" style paths are filtered. */
  lemma TrailingSlashNotExcluded(url: string)
    requires |url| > 0 && url[|url| - 1] == '/'
    ensures !IsUrlExcluded(url)
  {
    // Each suffix ends in a character other than '/', which the URL ends in.
    assert url[|url| - 1..] == "/";
  }

  /** Near misses are not excluded: the match is on whole suffixes, case-sensitively. */
  lemma NearMissesNotExcluded()
    ensures !IsUrlExcluded("/a.jsp")
    ensures !IsUrlExcluded("/change_password/x")
    ensures !IsUrlExcluded("/style.CSS")
    ensures !IsUrlExcluded("/app.js.map")
  {
  }

  /** An excluded URL always passes through, whoever is logged in. */
  lemma ExcludedPassesThrough(url: string, contextPath: string, principal: Principal, now: Time,
                              isPasswordExpired: (UserRow, Time) -> bool)
    requires IsUrlExcluded(url)
    ensures DoFilter(url, contextPath, principal, now, isPasswordExpired) == ContinueChain
  {
  }

  /** A redirect happens exactly for a non-excluded URL requested by a logged-in
      user whose password has expired, and it goes to contextPath + "/change_password". */
  lemma RedirectExactlyWhenExpired(url: string, contextPath: string, principal: Principal, now: Time,
                                   isPasswordExpired: (UserRow, Time) -> bool)
    ensures DoFilter(url, contextPath, principal, now, isPasswordExpired).SendRedirect? <==>
              && !IsUrlExcluded(url)
              && principal.UserDetails?
              && isPasswordExpired(principal.user, now)
    ensures DoFilter(url, contextPath, principal, now, isPasswordExpired).SendRedirect? ==>
              DoFilter(url, contextPath, principal, now, isPasswordExpired).location == contextPath + "/change_password"
  {
  }

  /** No logged-in `MyUserDetails` (no authentication, or another principal type),
      or a password that has not expired: the request passes through. */
  lemma NoExpiredUserPassesThrough(url: string, contextPath: string, principal: Principal, now: Time,
                                   isPasswordExpired: (UserRow, Time) -> bool)
    requires !principal.UserDetails? || !isPasswordExpired(principal.user, now)
    ensures DoFilter(url, contextPath, principal, now, isPasswordExpired) == ContinueChain
  {
  }

  /** The request that follows a redirect goes to a URL ending in the redirect
      location, whatever scheme and host precede it; that URL is excluded, so the
      filter lets it through and cannot redirect again. */
  lemma RedirectTargetPassesThrough(url: string, contextPath: string, principal: Principal, now: Time,
                                    isPasswordExpired: (UserRow, Time) -> bool,
                                    origin: string, principal': Principal, later: Time)
    requires DoFilter(url, contextPath, principal, now, isPasswordExpired) == SendRedirect(ChangePasswordLocation(contextPath))
    ensures var next := origin + DoFilter(url, contextPath, principal, now, isPasswordExpired).location;
            IsUrlExcluded(next) && DoFilter(next, contextPath, principal', later, isPasswordExpired) == ContinueChain
  {
    assert origin + (contextPath + "/change_password") == (origin + contextPath) + "/change_password";
    ExcludedSuffixes(origin + contextPath);
  }
}
