/** `PasswordController.processChangePassword`
    (controller/PasswordController.java): the POST of the change-password form. */
module PasswordChange {
  import opened UserModel
  import Crypto

  const ChangePasswordView := "change_password"
  const LoginRedirect := "redirect:/login"
  const PageTitle := "Change Expired Password"
  const SamePasswordMessage := "Your new password must be different than the old one."
  const WrongOldPasswordMessage := "Your old password is incorrect."
  const ChangedMessage := "You have changed your password successfully. Please login again."

  /** What the handler leaves behind: the view name it returns, the `Model`
      attributes, the flash attributes, the arguments of each call to
      `userService.changePassword`, and whether `request.logout()` ran. */
  datatype Response = Response(
    view: string,
    model: map<string, string>,
    flash: map<string, string>,
    changePasswordCalls: seq<string>,
    loggedOut: bool)

  /** `processChangePassword` for the principal's user, starting from the
      request's `model` and flash attributes. The same-password check comes
      first, so its outcome does not depend on whether the old password matches. */
  method ProcessChangePassword(user: User, passwordEncoder: Crypto.PasswordEncoder,
                               oldPassword: string, newPassword: string,
                               model: map<string, string>, flash: map<string, string>)
    returns (r: Response)
    ensures "pageTitle" in r.model && r.model["pageTitle"] == PageTitle
    ensures oldPassword == newPassword ==>
              r == Response(ChangePasswordView,
                            model["pageTitle" := PageTitle]["message" := SamePasswordMessage],
                            flash, [], false)
    ensures oldPassword != newPassword && !passwordEncoder.matches(oldPassword, user.password) ==>
              r == Response(ChangePasswordView,
                            model["pageTitle" := PageTitle]["message" := WrongOldPasswordMessage],
                            flash, [], false)
    ensures oldPassword != newPassword && passwordEncoder.matches(oldPassword, user.password) ==>
              r == Response(LoginRedirect, model["pageTitle" := PageTitle],
                            flash["message" := ChangedMessage], [newPassword], true)
    // The password is changed, and the session ended, exactly on the redirect.
    ensures r.changePasswordCalls != [] <==> r.view == LoginRedirect
    ensures r.loggedOut <==> r.view == LoginRedirect
  {
    var attributes := model["pageTitle" := PageTitle];
    if oldPassword == newPassword {
      attributes := attributes["message" := SamePasswordMessage];
      return Response(ChangePasswordView, attributes, flash, [], false);
    }
    if !passwordEncoder.matches(oldPassword, user.password) {
      attributes := attributes["message" := WrongOldPasswordMessage];
      return Response(ChangePasswordView, attributes, flash, [], false);
    } else {
      var calls := [newPassword];
      var loggedOut := true;
      var redirectAttributes := flash["message" := ChangedMessage];
      return Response(LoginRedirect, attributes, redirectAttributes, calls, loggedOut);
    }
  }
}
