/** `LoginSuccessHandler.onAuthenticationSuccess`
    (config/LoginSuccessHandler.java): clears a pending OTP after a successful
    login, then runs the framework's default success handling. */
module SuccessHandler {
  import opened Wrappers
  import opened UserModel
  import opened Persistence
  import opened Service

  /** The effects of the handler, in the order they happen. */
  datatype Effect = OtpCleared | DefaultSuccessHandling

  /** `onAuthenticationSuccess` for the principal's user at time `now`;
      `isOtpRequired` stands for `User.isOTPRequired()`. The trace shows that
      the default handling runs exactly once, after any clearing. */
  method OnAuthenticationSuccess(userService: UserService, user: User, now: Time,
                                 isOtpRequired: (UserRow, Time) -> bool)
    returns (trace: seq<Effect>)
    requires userService.Valid()
    modifies user`oneTimePassword, user`otpRequestedTime, userService.repo
    ensures userService.Valid()
    ensures isOtpRequired(old(user.Row()), now) ==>
              && user.Row() == old(user.Row()).(oneTimePassword := None, otpRequestedTime := None)
              && userService.repo.rows == Saved(old(userService.repo.rows), user.Row())
              && trace == [OtpCleared, DefaultSuccessHandling]
    ensures !isOtpRequired(old(user.Row()), now) ==>
              && user.Row() == old(user.Row())
              && userService.repo.rows == old(userService.repo.rows)
              && trace == [DefaultSuccessHandling]
  {
    trace := [];
    if isOtpRequired(user.Row(), now) {
      userService.ClearOtp(user);
      trace := trace + [OtpCleared];
    }
    trace := trace + [DefaultSuccessHandling];
  }
}
