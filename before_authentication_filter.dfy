/** `BeforeAuthenticationFilter.attemptAuthentication`
    (config/BeforeAuthenticationFilter.java): the OTP step-up decision taken
    before the normal e-mail/password authentication. */
module LoginFilter {
  import opened Wrappers
  import opened UserModel
  import opened Persistence
  import opened Service

  /** How an attempt ends. `DelegateToPasswordAuth` is `super.attemptAuthentication`;
      `OtpChallengeRaised` is `InsufficientAuthenticationException("OTP")`;
      `ServiceError` is `AuthenticationServiceException("Error while sending OTP
      email.")`, thrown for the checked exceptions of building the message;
      `MailTransportError` is the unchecked `MailException` of the transport,
      which the catch clause does not cover and so leaves the method;
      `UserNotFound` is the `UsernameNotFoundException` of the lookup. */
  datatype LoginOutcome =
    | DelegateToPasswordAuth
    | OtpChallengeRaised
    | ServiceError
    | MailTransportError
    | UserNotFound(error: NotFound)

  /** Scores are kept in hundredths: a score below 0.5 is suspicious. */
  const SuspicionThreshold: int := 50

  /** `getGoogleRecaptchaScore()`: the constant 0.43 in hundredths; no call is made. */
  function GoogleRecaptchaScore(): int {
    43
  }

  /** What the filter does once the user is known. */
  datatype Step = Delegate | IssueOtp

  /** The branch at lines 60-76: a user with an OTP already required goes to
      password authentication; otherwise a suspicious score issues an OTP. */
  function OtpStep(otpRequired: bool, score: int): (s: Step)
    ensures s == IssueOtp <==> !otpRequired && score < SuspicionThreshold
  {
    if otpRequired then Delegate
    else if score < SuspicionThreshold then IssueOtp
    else Delegate
  }

  /** Because the score is the constant 0.43, every user without a pending OTP
      is challenged; the not-suspicious branch is unreachable as written. */
  lemma ConstantScoreAlwaysChallenges(otpRequired: bool)
    ensures OtpStep(otpRequired, GoogleRecaptchaScore()) == (if otpRequired then Delegate else IssueOtp)
  {
  }

  /** `attemptAuthentication` for the submitted e-mail at time `now`.
      `isOtpRequired` stands for `User.isOTPRequired()`, whose definition is not
      part of this model. `otp` is the code drawn when one is issued. */
  method AttemptAuthentication(userService: UserService, email: string, now: Time,
                               isOtpRequired: (UserRow, Time) -> bool)
    returns (outcome: LoginOutcome, ghost otp: string)
    requires userService.Valid()
    modifies userService.repo, userService.mailSender
    ensures userService.Valid()
    ensures |userService.repo.rows| == |old(userService.repo.rows)|
    // An unknown e-mail fails before any OTP or credential work.
    ensures IndexByEmail(old(userService.repo.rows), email).None? ==>
              && outcome == UserNotFound(UsernameNotFound("user not found"))
              && userService.repo.rows == old(userService.repo.rows)
              && userService.mailSender.sent == old(userService.mailSender.sent)
    // A known user.
    ensures IndexByEmail(old(userService.repo.rows), email).Some? ==>
              var i := IndexByEmail(old(userService.repo.rows), email).value;
              var before := old(userService.repo.rows)[i];
              var step := OtpStep(isOtpRequired(before, now), GoogleRecaptchaScore());
              && (step == Delegate ==>
                    && outcome == DelegateToPasswordAuth
                    && userService.repo.rows == old(userService.repo.rows)
                    && userService.mailSender.sent == old(userService.mailSender.sent))
              && (step == IssueOtp ==>
                    && (outcome == OtpChallengeRaised || outcome == ServiceError || outcome == MailTransportError)
                    && |otp| == OtpLength)
              // The OTP is stored, and stays stored unless the transport failed.
              && (step == IssueOtp && outcome != MailTransportError ==>
                    var after := userService.repo.rows[i];
                    && after.oneTimePassword.Some?
                    && userService.passwordEncoder.matches(otp, after.oneTimePassword.value)
                    && userService.repo.rows == old(userService.repo.rows)[i :=
                         before.(oneTimePassword := after.oneTimePassword, otpRequestedTime := Some(now))]
                    && userService.mailSender.sent ==
                         if outcome == OtpChallengeRaised
                         then old(userService.mailSender.sent) + [OtpMailFor(after, otp)]
                         else old(userService.mailSender.sent))
              // A transport failure rolls the save back and delivers nothing.
              && (step == IssueOtp && outcome == MailTransportError ==>
                    && userService.repo.rows == old(userService.repo.rows)
                    && userService.mailSender.sent == old(userService.mailSender.sent))
  {
    var customer := userService.GetCustomerByEmail(email);
    // The lookup throws instead of returning null, so the source's
    // `customer != null` test always holds once it returns.
    if customer.Failure? {
      return UserNotFound(customer.error), "";
    }
    var user := customer.value;
    ghost var i := IndexByEmail(userService.repo.rows, email).value;
    var step := OtpStep(isOtpRequired(user.Row(), now), GoogleRecaptchaScore());
    if step == Delegate {
      return DelegateToPasswordAuth, "";
    }
    ghost var rowsBefore := userService.repo.rows;
    ghost var rowBefore := user.Row();
    var status;
    status, otp := userService.GenerateOneTimePassword(user, now);
    SavedAt(rowsBefore, i, user.Row());
    match status
    case Delivered => outcome := OtpChallengeRaised;
    case BuildFailed => outcome := ServiceError;
    case TransportFailed => outcome := MailTransportError;
  }
}
