# Spring Boot authentication core, modelled in Dafny

This project models the authentication logic of a Spring Boot tutorial application (`com.densoft.springbootbasicauth`). It covers:

- the `User` entity and its role set;
- the `UserService` bookkeeping: one-time passwords (OTP), reset tokens and password updates, each followed by `save`;
- the `BeforeAuthenticationFilter` OTP step-up decision;
- the `LoginSuccessHandler` OTP clearing;
- the change-password handler of `PasswordController`;
- the `PasswordExpirationFilter` gate;
- the ordered URL authorisation table of `WebSecurityConfig`;
- `Utility.getStaticSiteUrl`.

Modules, one per source file plus four supporting ones:

| file | module | models |
|---|---|---|
| `strings.dfy` | `Strings` | `String.endsWith` |
| `wrappers.dfy` | `Wrappers` | nullable values, and find-or-fail results carrying `UsernameNotFoundException` |
| `user.dfy` | `UserModel` | `User` as a class with Lombok setters as field assignments; `UserRow` as a snapshot of its fields; `Role` with `@Data` value equality |
| `crypto.dfy` | `Crypto` | an abstract salted `PasswordEncoder`; the only property assumed is `matches(x, encode(x))` |
| `persistence.dfy` | `Persistence` | the `users` table as a sequence of rows, `save` (overwrite by id or append), the rollback of a transaction, `findByEmail`, `findByResetPasswordToken` |
| `user_service.dfy` | `Service` | `UserService`, plus a mail sender whose every send may fail |
| `before_authentication_filter.dfy` | `LoginFilter` | `attemptAuthentication` and the reCAPTCHA score |
| `login_success_handler.dfy` | `SuccessHandler` | `onAuthenticationSuccess` |
| `password_controller.dfy` | `PasswordChange` | `processChangePassword` |
| `password_expiration_filter.dfy` | `ExpirationFilter` | `isUrlExcluded`, `getLoggedInUser`, `doFilter`, `showChangePasswordPage` |
| `web_security_config.dfy` | `Authorization` | the rule chain of `configure(HttpSecurity)` as a first-match decision |
| `utility.dfy` | `Utility` | `getStaticSiteUrl` as Java `String.replace(path, "")` |

Code that changes state is modelled imperatively:
- The entity is a Dafny `class`.
- The table is a `seq` field of the repository that `Save` reassigns.
- Every service method states the entity's whole new state and the table's new state.

The login filter and the success handler are methods over the same objects. The authorisation table, the expiry decision and the URL helper are functions, with lemmas about them.

The model takes parameters for what the repository's code does not determine:
- the current time;
- the 8-character random code, drawn nondeterministically and returned as a ghost value;
- the encoder's salt;
- whether building and sending each e-mail succeeds;
- `User.isOTPRequired()` and `User.isPasswordExpired()`, whose definitions are not part of this model. Each is a parameter of type `(UserRow, Time) -> bool`.

Behaviour of the code that the model keeps as written:
- There is no lockout: no failed-attempt counting, no lock or unlock, and no credential check inside the filter.
- An unknown e-mail fails at once with `UsernameNotFoundException("user not found")`. It is not reported as a bad credential.
- The constant score 0.43 makes the filter issue an OTP whenever none is already required.
- A checked exception while the OTP e-mail is built becomes `AuthenticationServiceException`, and the stored OTP stays.
- An unchecked `MailException` from the transport is not caught by the filter. It leaves `attemptAuthentication`, and the transaction of `generateOneTimePassword` rolls the save back.
- `processChangePassword` rejects an unchanged password before it checks the old password.
- No password-changed timestamp is set by `processChangePassword`. That would be the job of `changePassword`, which is not part of this model.

## Model

All source paths start with `src/main/java/com/densoft/springbootbasicauth/`.

| member | source | states |
|---|---|---|
| UserModel.User.constructor | src/main/java/com/densoft/springbootbasicauth/model/User.java:31 | a new user has an empty role set and no OTP or reset token |
| UserModel.User.AddRole | src/main/java/com/densoft/springbootbasicauth/model/User.java:33-35 | the role is in the set afterwards; every earlier role is kept; a role equal by id and name to one present leaves the set unchanged; only `roles` may change |
| Crypto.Encode | src/main/java/com/densoft/springbootbasicauth/service/UserService.java:35 | the hash is the encoding of the raw text under some salt, and `matches` accepts it for the raw text |
| Persistence.IndexWhere | src/main/java/com/densoft/springbootbasicauth/repository/UserRepository.java:14-16 | a derived query returns the first row that satisfies its condition, and no row before it does; or it reports that no row satisfies it |
| Persistence.IndexByEmail | src/main/java/com/densoft/springbootbasicauth/repository/UserRepository.java:14 | `IndexWhere` on the e-mail: the first row with that e-mail, or none |
| Persistence.IndexByToken | src/main/java/com/densoft/springbootbasicauth/repository/UserRepository.java:16 | `IndexWhere` on the reset token: the first row holding that token, or none |
| Persistence.IndexById | src/main/java/com/densoft/springbootbasicauth/service/UserService.java:40 | `IndexWhere` on the id: how `save` tells an update of an existing row from an insert |
| Persistence.Saved | src/main/java/com/densoft/springbootbasicauth/service/UserService.java:40 | the table after `save`: the row with the same id is overwritten, or the row is appended; `SavedSpec` and `SavedAt` characterise it |
| Persistence.IndexByIdOfRow | src/main/java/com/densoft/springbootbasicauth/service/UserService.java:40 | with unique ids, every stored row is found by its own id |
| Persistence.SavedSpec | src/main/java/com/densoft/springbootbasicauth/service/UserService.java:40 | saving keeps ids unique; the saved row is found under its id; rows with other ids are unchanged; the table grows by at most one row |
| Persistence.SavedAt | src/main/java/com/densoft/springbootbasicauth/service/UserService.java:76-77 | saving an entity loaded from row `i` overwrites exactly row `i` |
| Persistence.TokenLookupMissesClearedRow | src/main/java/com/densoft/springbootbasicauth/service/UserService.java:87-88 | after a row is saved with no reset token, no token lookup finds a row with its id |
| Persistence.UserRepository.Save | src/main/java/com/densoft/springbootbasicauth/service/UserService.java:40 | the table becomes the old table with the entity's fields saved, and ids stay unique |
| Persistence.UserRepository.RollBack | src/main/java/com/densoft/springbootbasicauth/service/UserService.java:20 | the rollback of the `@Transactional` service method: the table returns to what it was when the transaction began, and ids stay unique |
| Persistence.UserRepository.FindByEmail | src/main/java/com/densoft/springbootbasicauth/repository/UserRepository.java:14 | a user is found exactly when some row has the e-mail; it is a fresh entity holding that first row's fields |
| Persistence.UserRepository.FindByResetPasswordToken | src/main/java/com/densoft/springbootbasicauth/repository/UserRepository.java:16 | a user is found exactly when some row holds the token; it is a fresh entity holding that first row's fields |
| Service.MailSender.Send | src/main/java/com/densoft/springbootbasicauth/service/UserService.java:65 | a send may fail; only a delivered message is recorded |
| Service.UserService.GenerateOneTimePassword | src/main/java/com/densoft/springbootbasicauth/service/UserService.java:33-43 | an 8-character code is drawn, and only an encoding of it is stored, so `matches(code, stored)` holds; the request time is now; no other field changes; the user is saved before the e-mail is sent, and the save stays when building the message fails but is rolled back when the transport fails; the e-mail carries that same code |
| Service.UserService.SendOtpEmail | src/main/java/com/densoft/springbootbasicauth/service/UserService.java:45-66 | building the message may fail, and so may the transport; the OTP e-mail for the user and code is recorded exactly when it is delivered |
| Service.UserService.ClearOtp | src/main/java/com/densoft/springbootbasicauth/service/UserService.java:68-72 | both OTP fields become null and the user is saved; no other field changes |
| Service.UserService.UpdateResetPasswordToken | src/main/java/com/densoft/springbootbasicauth/service/UserService.java:74-78 | an unknown e-mail fails with "no user found" and leaves the table unchanged; otherwise only that user's reset token is set |
| Service.UserService.GetByResetPasswordToken | src/main/java/com/densoft/springbootbasicauth/service/UserService.java:80-82 | succeeds exactly when some row holds the token, with a user whose token is that token; otherwise fails with "no user found"; never null |
| Service.UserService.UpdatePassword | src/main/java/com/densoft/springbootbasicauth/service/UserService.java:84-89 | the password becomes an encoding that matches the new password; the reset token is cleared and saved, so no token lookup finds this user any more; no other field changes |
| Service.UserService.GetCustomerByEmail | src/main/java/com/densoft/springbootbasicauth/service/UserService.java:91-93 | succeeds exactly when some row has the e-mail, with a user whose e-mail is that e-mail; otherwise fails with "user not found"; never null |
| LoginFilter.OtpStep | src/main/java/com/densoft/springbootbasicauth/config/BeforeAuthenticationFilter.java:60-67 | an OTP is issued exactly when none is already required and the score is below 0.5 |
| LoginFilter.GoogleRecaptchaScore | src/main/java/com/densoft/springbootbasicauth/config/BeforeAuthenticationFilter.java:82-85 | the constant 0.43, in hundredths; `ConstantScoreAlwaysChallenges` states what it implies |
| LoginFilter.ConstantScoreAlwaysChallenges | src/main/java/com/densoft/springbootbasicauth/config/BeforeAuthenticationFilter.java:65-67 | with the constant score 0.43, every user without a required OTP is challenged |
| LoginFilter.AttemptAuthentication | src/main/java/com/densoft/springbootbasicauth/config/BeforeAuthenticationFilter.java:54-80 | covers every attempt: (1) an unknown e-mail fails with "user not found" and nothing changes; (2) a required OTP, or a score of at least 0.5, delegates to password authentication and nothing changes; (3) otherwise exactly that user's OTP fields are set and saved; the OTP exception is raised only when the e-mail with the matching code was delivered; a failure while building the e-mail gives the service error with the OTP still stored; a transport failure leaves the method with the save rolled back and nothing delivered |
| SuccessHandler.OnAuthenticationSuccess | src/main/java/com/densoft/springbootbasicauth/config/LoginSuccessHandler.java:23-30 | when an OTP is required, both OTP fields are cleared and saved before the default handling; otherwise the user and the table are unchanged; the default handling runs exactly once and last |
| PasswordChange.ProcessChangePassword | src/main/java/com/densoft/springbootbasicauth/controller/PasswordController.java:35-66 | exactly one of three outcomes: (1) same password gives `change_password` with the "must be different" message, whatever the old password; (2) otherwise, a wrong old password gives `change_password` with "incorrect"; (3) otherwise one `changePassword(newPassword)`, then logout and the flash message, then `redirect:/login`; `pageTitle` is set on every path; the password changes and the session ends exactly on the redirect |
| ExpirationFilter.IsUrlExcluded | src/main/java/com/densoft/springbootbasicauth/auth/PasswordExpirationFilter.java:48-58 | a URL is excluded if and only if it ends with ".css", ".png", ".js" or "/change_password"; `ExcludedSuffixes`, `TrailingSlashNotExcluded` and `NearMissesNotExcluded` characterise it |
| ExpirationFilter.LoggedInUser | src/main/java/com/densoft/springbootbasicauth/auth/PasswordExpirationFilter.java:34-46 | the user only when the principal is a `MyUserDetails`; otherwise no user |
| ExpirationFilter.ChangePasswordLocation | src/main/java/com/densoft/springbootbasicauth/auth/PasswordExpirationFilter.java:60-69 | the redirect target, contextPath + "/change_password" |
| ExpirationFilter.DoFilter | src/main/java/com/densoft/springbootbasicauth/auth/PasswordExpirationFilter.java:17-32 | continue the chain or redirect; `ExcludedPassesThrough`, `RedirectExactlyWhenExpired`, `NoExpiredUserPassesThrough` and `RedirectTargetPassesThrough` characterise it |
| ExpirationFilter.ExcludedSuffixes | src/main/java/com/densoft/springbootbasicauth/auth/PasswordExpirationFilter.java:52-57 | any URL ending in ".css", ".png", ".js" or "/change_password" is excluded |
| ExpirationFilter.TrailingSlashNotExcluded | src/main/java/com/densoft/springbootbasicauth/auth/PasswordExpirationFilter.java:52-57 | a URL ending in '/' is never excluded |
| ExpirationFilter.NearMissesNotExcluded | src/main/java/com/densoft/springbootbasicauth/auth/PasswordExpirationFilter.java:52-57 | "/a.jsp", "/change_password/x", "/style.CSS" and "/app.js.map" are not excluded |
| ExpirationFilter.ExcludedPassesThrough | src/main/java/com/densoft/springbootbasicauth/auth/PasswordExpirationFilter.java:19-22 | an excluded URL continues the chain whatever the principal |
| ExpirationFilter.RedirectExactlyWhenExpired | src/main/java/com/densoft/springbootbasicauth/auth/PasswordExpirationFilter.java:17-32 | a redirect happens if and only if the URL is not excluded and a `MyUserDetails` user with an expired password is logged in; it goes to contextPath + "/change_password" |
| ExpirationFilter.NoExpiredUserPassesThrough | src/main/java/com/densoft/springbootbasicauth/auth/PasswordExpirationFilter.java:24-45 | no authentication, a principal of another type, or an unexpired password continues the chain |
| ExpirationFilter.RedirectTargetPassesThrough | src/main/java/com/densoft/springbootbasicauth/auth/PasswordExpirationFilter.java:53-67 | the URL the redirect leads to is excluded, so following it cannot redirect again |
| Authorization.Decide | src/main/java/com/densoft/springbootbasicauth/config/WebSecurityConfig.java:62-67 | the access of the first matching rule decides; a path no rule matches is permitted; `FirstMatchDecides` and `Monotonic` characterise it |
| Authorization.Authorize | src/main/java/com/densoft/springbootbasicauth/config/WebSecurityConfig.java:61-67 | the decision of the table `Rules`, which lists the five rules of lines 63-67 in order; the lemmas below characterise it path by path |
| Authorization.FirstMatch | src/main/java/com/densoft/springbootbasicauth/config/WebSecurityConfig.java:62-67 | rules are tried in declared order: the result is the first rule that matches, or none matches |
| Authorization.ExactlyOneGoverningRule | src/main/java/com/densoft/springbootbasicauth/config/WebSecurityConfig.java:62-67 | every path is governed by exactly one rule of the table |
| Authorization.FirstMatchDecides | src/main/java/com/densoft/springbootbasicauth/config/WebSecurityConfig.java:62-67 | the decision is the access of the first matching rule |
| Authorization.Monotonic | src/main/java/com/densoft/springbootbasicauth/config/WebSecurityConfig.java:63-67 | for any rule table, more authorities, or authenticating at all, never turns a permit into a deny |
| Authorization.PublicPathsPermitted | src/main/java/com/densoft/springbootbasicauth/config/WebSecurityConfig.java:63 | "/", "/forgot_password", "/reset_password" and "/login" plus any characters other than '/' are permitted, anonymous requests included |
| Authorization.NotPublic | src/main/java/com/densoft/springbootbasicauth/config/WebSecurityConfig.java:63 | a path whose second character is not 'f', 'r' or 'l' escapes the public rule |
| Authorization.NewNeedsAdminOrCreator | src/main/java/com/densoft/springbootbasicauth/config/WebSecurityConfig.java:64 | "/new" is permitted if and only if the principal is authenticated with ADMIN or CREATOR |
| Authorization.EditNeedsAdminOrEditor | src/main/java/com/densoft/springbootbasicauth/config/WebSecurityConfig.java:65 | "/edit" and "/edit/..." are permitted if and only if the principal holds ADMIN or EDITOR |
| Authorization.DeleteNeedsAdmin | src/main/java/com/densoft/springbootbasicauth/config/WebSecurityConfig.java:66 | "/delete" and "/delete/..." are permitted if and only if the principal's authorities include ADMIN; EDITOR with CREATOR is denied |
| Authorization.GovernedByLastRule | src/main/java/com/densoft/springbootbasicauth/config/WebSecurityConfig.java:67 | a path that no earlier rule matches needs authentication only |
| Authorization.OtherPathsNeedAuthentication | src/main/java/com/densoft/springbootbasicauth/config/WebSecurityConfig.java:67 | "/editor", "/users/edit/5", "/products" and "/new/" are permitted if and only if the principal is authenticated |
| Utility.RemoveAll | src/main/java/com/densoft/springbootbasicauth/util/Utility.java:9 | Java `String.replace(target, "")`: a left-to-right scan dropping every non-overlapping occurrence; the `Utility` lemmas below characterise it |
| Utility.GetStaticSiteUrl | src/main/java/com/densoft/springbootbasicauth/util/Utility.java:7-10 | the request URL with the servlet path removed by `RemoveAll` |
| Utility.RemoveAllLength | src/main/java/com/densoft/springbootbasicauth/util/Utility.java:9 | the result is the input length minus k times the path length, where k is the number of removed occurrences; it is never longer |
| Utility.NothingRemovedIffAbsent | src/main/java/com/densoft/springbootbasicauth/util/Utility.java:9 | for a non-empty path, nothing is removed if and only if the path does not occur |
| Utility.AbsentTargetUnchanged | src/main/java/com/densoft/springbootbasicauth/util/Utility.java:9 | a URL not containing the path is returned unchanged |
| Utility.EmptyTargetUnchanged | src/main/java/com/densoft/springbootbasicauth/util/Utility.java:9 | an empty servlet path returns the URL unchanged |
| Utility.RemovesEveryCopy | src/main/java/com/densoft/springbootbasicauth/util/Utility.java:9 | k back-to-back copies of the path are all removed and all counted, not just the first |
| Utility.SkipPrefix | src/main/java/com/densoft/springbootbasicauth/util/Utility.java:9 | a prefix in which no occurrence starts is kept as it is |
| Utility.CleanPrefixThenTarget | src/main/java/com/densoft/springbootbasicauth/util/Utility.java:9 | a prefix lacking the path's second character is kept, and the copy of the path after it is removed |
| Utility.TrailingServletPathRemoved | src/main/java/com/densoft/springbootbasicauth/util/Utility.java:8-9 | a site URL followed by the servlet path gives back the site URL, when the site URL lacks the path's second character |
| Utility.TypicalSiteUrl | src/main/java/com/densoft/springbootbasicauth/util/Utility.java:8-9 | "http://h/app/forgot_password" with "/forgot_password" gives "http://h/app" |
| Utility.NotIdempotent | src/main/java/com/densoft/springbootbasicauth/util/Utility.java:9 | "aabb" without "ab" is "ab", and removing again gives "": the result may still contain the path |
| Utility.InteriorCopyRemoved | src/main/java/com/densoft/springbootbasicauth/util/Utility.java:9 | a copy of the servlet path inside the URL is cut out as well as the trailing one |
| Utility.InteriorServletPathAlsoRemoved | src/main/java/com/densoft/springbootbasicauth/util/Utility.java:7-10 | as written, "http://h/login-demo/login" with "/login" gives "http://h-demo" |
| Utility.SiteUrl | src/main/java/com/densoft/springbootbasicauth/util/Utility.java:7-10 | the intended site URL: a prefix of the request URL, which is the URL less the servlet path when the URL ends with it, and the URL itself otherwise |
| Utility.SiteUrlRecoversPrefix | src/main/java/com/densoft/springbootbasicauth/util/Utility.java:7-10 | for every site URL and servlet path, the intended function recovers the site URL from their concatenation |
| Utility.SiteUrlKeepsContextPath | src/main/java/com/densoft/springbootbasicauth/util/Utility.java:7-10 | the intended function gives "http://h/login-demo" on the input the as-written code mangles |

## Left out

- Mail: the HTML body, `MimeMessage` and `JavaMailSender` are I/O. Building the message and sending it are modelled as steps that may each fail; only sender, recipient, subject, greeting name and code are kept.
- BCrypt and `PasswordEncoderGen` are foreign cryptography. The encoder is abstract, with `matches(x, encode(x))` as its only property.
- `RandomString.make` is foreign randomness. The code is an arbitrary string of 8 characters, with no statement about its alphabet.
- The reCAPTCHA score is a float. It is kept in hundredths (0.43 as 43, the 0.5 threshold as 50).
- `isOTPRequired()`, `isPasswordExpired()`, the OTP lifetime and the password maximum age are not part of this model. The two methods are uninterpreted parameters; no expiry window is modelled.
- `userService.changePassword` is not declared in `UserService.java` and is not part of this model. `ProcessChangePassword` records the call and its argument but does not apply it to the table.
- `getUserByEmail` is not declared in `UserRepository.java`. It is given the semantics of `findByEmail`.
- Duplicate e-mails or tokens: Spring Data would throw on a non-unique result. The model resolves a lookup to the first matching row instead.
- Null request parameters, a null principal and the resulting `NullPointerException`s are not modelled. Strings are never null.
- `new User()` leaves strings null and the id unset. The constructor models them as "" and 0.
- Lockout: the `updateFailedAttempts` query, thresholds and unlock timing have no logic in the modelled files.
- Framework plumbing is not modelled:
  - `SecurityContextHolder` and principal casting: the principal is passed explicitly;
  - filter chaining and `sendRedirect`: these are the `FilterAction` result;
  - DI wiring: `@Autowired` setters, `authenticationManagerBean`, `daoAuthenticationProvider`, `userDetailsService`;
  - `addFilterBefore` and the `/login` POST matcher of the filter's constructor;
  - the `formLogin` and `logout` settings of `configure(HttpSecurity)`.
- Path normalisation: the authorisation table is applied to the path as given. Paths such as "//new" or "/new;x" are rejected earlier by the framework's firewall.
- Authorization.Decide: a path that no rule matches is permitted, as the framework does for public invocations. The application's table always matches through `anyRequest()`.
- Transactions and concurrency: the only transaction effect modelled is the rollback of `generateOneTimePassword` on the transport's unchecked `MailException`. Concurrent logins are not modelled; each method runs alone.
- LoginFilter.AttemptAuthentication: only a failure while the message is built becomes `ServiceError`. A transport failure is `MailTransportError`; how the framework then reports that escaping `MailException` to the client is not modelled.
- `showChangePasswordForm` (the GET of /change_password) only sets the page title and is not modelled.
- Other parts of the application are not part of this model:
  - the remaining controllers and services, `UserDetailsServiceImpl`, `Role` beyond its value equality;
  - `AuthController` and JWT issuance;
  - `CustomBeforeAuthenticationFilter`, which only logs;
  - `MvcConfig`.
- Console output (`System.out.println`) is left out.

## Findings

| source | as written | input that shows it | evidently intended | confidence | as-written member | corrected member |
|---|---|---|---|---|---|---|
| src/main/java/com/densoft/springbootbasicauth/util/Utility.java:9 | `siteUrl.replace(servletPath, "")` removes the servlet path wherever it occurs in the request URL | request URL "http://h/login-demo/login" with servlet path "/login" gives "http://h-demo" | strip the servlet path from the end of the URL only, giving "http://h/login-demo" | low: depends on a context path that contains the servlet path; not executed | Utility.InteriorServletPathAlsoRemoved | Utility.SiteUrlRecoversPrefix |
