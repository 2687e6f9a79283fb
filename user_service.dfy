/** `UserService` (service/UserService.java): one-time passwords, reset tokens
    and password updates on the `User` entity, each followed by `save`. */
module Service {
  import opened Wrappers
  import opened UserModel
  import opened Persistence
  import Crypto

  /** `RandomString.make(8)`. */
  const OtpLength: nat := 8
  const MailFrom := "contact@shopme.com"
  const MailFromName := "Shopme Support"
  /** The subject line; it is the only statement of the OTP lifetime (5 minutes). */
  const OtpSubject := "Here's your One Time Password (OTP) - Expire in 5 minutes!"

  /** The parts of the OTP e-mail that the model keeps; the HTML around the
      greeting and the code is left out. */
  datatype OtpMail = OtpMail(
    fromAddress: string, fromName: string, to: string, subject: string,
    greetingName: string, otp: string)

  /** The e-mail `sendOTPEmail` builds for a user and a plaintext code. */
  function OtpMailFor(u: UserRow, otp: string): OtpMail {
    OtpMail(MailFrom, MailFromName, u.email, OtpSubject, u.name, otp)
  }

  /** How `sendOTPEmail` ends. `BuildFailed` is a checked `MessagingException` or
      `UnsupportedEncodingException` from `MimeMessageHelper` while the message
      is built; `TransportFailed` is the unchecked `MailException` of
      `mailSender.send`. */
  datatype MailStatus = Delivered | BuildFailed | TransportFailed

  /** The mail transport: every send may succeed or fail, and only delivered
      messages are recorded. */
  class MailSender {
    var sent: seq<OtpMail>

    constructor ()
      ensures sent == []
    {
      sent := [];
    }

    method Send(m: OtpMail) returns (ok: bool)
      modifies this
      ensures sent == if ok then old(sent) + [m] else old(sent)
    {
      ok := *;
      if ok {
        sent := sent + [m];
      }
    }
  }

  class UserService {
    const repo: UserRepository
    const mailSender: MailSender
    const passwordEncoder: Crypto.PasswordEncoder

    ghost predicate Valid()
      reads this, repo
    {
      repo.Valid() && Crypto.Sound(passwordEncoder)
    }

    constructor (repo: UserRepository, mailSender: MailSender, passwordEncoder: Crypto.PasswordEncoder)
      requires repo.Valid() && Crypto.Sound(passwordEncoder)
      ensures Valid()
      ensures this.repo == repo && this.mailSender == mailSender && this.passwordEncoder == passwordEncoder
    {
      this.repo := repo;
      this.mailSender := mailSender;
      this.passwordEncoder := passwordEncoder;
    }

    /** `generateOneTimePassword(user)`: draws an 8-character code, stores only its
        encoding and the request time on the user, saves the user, and then
        e-mails the plaintext code. `otp` is the code that was drawn. The method
        runs in a transaction (the class is `@Transactional`): a checked exception
        from building the message leaves the save committed, while the unchecked
        `MailException` of the transport rolls the save back. The entity keeps
        its new field values in both cases. */
    method GenerateOneTimePassword(user: User, now: Time) returns (status: MailStatus, ghost otp: string)
      requires Valid()
      modifies user`oneTimePassword, user`otpRequestedTime, repo, mailSender
      ensures Valid()
      ensures |otp| == OtpLength
      ensures user.oneTimePassword.Some?
      ensures exists salt: nat :: user.oneTimePassword.value == passwordEncoder.encodeWith(otp, salt)
      ensures passwordEncoder.matches(otp, user.oneTimePassword.value)
      ensures user.otpRequestedTime == Some(now)
      ensures user.Row() == old(user.Row()).(oneTimePassword := user.oneTimePassword, otpRequestedTime := Some(now))
      ensures status != TransportFailed ==> repo.rows == Saved(old(repo.rows), user.Row())
      ensures status == TransportFailed ==> repo.rows == old(repo.rows)
      ensures mailSender.sent == if status == Delivered then old(mailSender.sent) + [OtpMailFor(user.Row(), otp)]
                                 else old(mailSender.sent)
    {
      // The transaction begins.
      var committed := repo.rows;
      assert |"00000000"| == OtpLength;
      var code: string :| |code| == OtpLength;
      otp := code;
      var encodedOtp := Crypto.Encode(passwordEncoder, code);
      user.oneTimePassword := Some(encodedOtp);
      user.otpRequestedTime := Some(now);
      repo.Save(user);
      status := SendOtpEmail(user, code);
      if status == TransportFailed {
        repo.RollBack(committed);
      }
    }

    /** `sendOTPEmail(user, otp)`: builds the message, which may fail, and hands
        it to the mail sender, which may fail too. Only a delivered message is
        recorded. */
    method SendOtpEmail(user: User, otp: string) returns (status: MailStatus)
      modifies mailSender
      ensures mailSender.sent == if status == Delivered then old(mailSender.sent) + [OtpMailFor(user.Row(), otp)]
                                 else old(mailSender.sent)
    {
      var built: bool := *;
      if !built {
        return BuildFailed;
      }
      var ok := mailSender.Send(OtpMailFor(user.Row(), otp));
      status := if ok then Delivered else TransportFailed;
    }

    /** `clearOTP(user)`: nulls both OTP fields and saves; nothing else changes. */
    method ClearOtp(user: User)
      requires Valid()
      modifies user`oneTimePassword, user`otpRequestedTime, repo
      ensures Valid()
      ensures user.oneTimePassword == None && user.otpRequestedTime == None
      ensures user.Row() == old(user.Row()).(oneTimePassword := None, otpRequestedTime := None)
      ensures repo.rows == Saved(old(repo.rows), user.Row())
    {
      user.oneTimePassword := None;
      user.otpRequestedTime := None;
      repo.Save(user);
    }

    /** `updateResetPasswordToken(token, email)`: fails with "no user found" and
        leaves the table alone when no user has the e-mail; otherwise sets that
        user's reset token and nothing else. */
    method UpdateResetPasswordToken(token: string, email: string) returns (r: Outcome)
      requires Valid()
      modifies repo
      ensures Valid()
      ensures IndexByEmail(old(repo.rows), email).None? ==>
                r == Fail(UsernameNotFound("no user found")) && repo.rows == old(repo.rows)
      ensures IndexByEmail(old(repo.rows), email).Some? ==>
                var i := IndexByEmail(old(repo.rows), email).value;
                r == Pass && repo.rows == old(repo.rows)[i := old(repo.rows)[i].(resetPasswordToken := Some(token))]
    {
      var found := repo.FindByEmail(email);
      if found.None? {
        return Fail(UsernameNotFound("no user found"));
      }
      var user := found.value;
      ghost var i := IndexByEmail(repo.rows, email).value;
      user.resetPasswordToken := Some(token);
      SavedAt(repo.rows, i, user.Row());
      repo.Save(user);
      r := Pass;
    }

    /** `getByResetPasswordToken(token)`: the user holding that reset token, or
        "no user found"; never null. */
    method GetByResetPasswordToken(token: string) returns (r: Result<User>)
      ensures r.Ok? <==> IndexByToken(repo.rows, token).Some?
      ensures r.Ok? ==> fresh(r.value) && r.value.resetPasswordToken == Some(token)
      ensures r.Ok? ==> r.value.Row() == repo.rows[IndexByToken(repo.rows, token).value]
      ensures r.Failure? ==> r.error == UsernameNotFound("no user found")
    {
      var found := repo.FindByResetPasswordToken(token);
      if found.None? {
        return Failure(UsernameNotFound("no user found"));
      }
      r := Ok(found.value);
    }

    /** `updatePassword(user, newPassword)`: stores an encoding of the new password
        and clears the reset token, so the consumed token no longer finds the user. */
    method UpdatePassword(user: User, newPassword: string)
      requires Valid()
      modifies user`password, user`resetPasswordToken, repo
      ensures Valid()
      ensures passwordEncoder.matches(newPassword, user.password)
      ensures exists salt: nat :: user.password == passwordEncoder.encodeWith(newPassword, salt)
      ensures user.resetPasswordToken == None
      ensures user.Row() == old(user.Row()).(password := user.password, resetPasswordToken := None)
      ensures repo.rows == Saved(old(repo.rows), user.Row())
      ensures forall token :: IndexByToken(repo.rows, token).Some? ==>
                repo.rows[IndexByToken(repo.rows, token).value].id != user.id
    {
      var encodedPassword := Crypto.Encode(passwordEncoder, newPassword);
      user.password := encodedPassword;
      user.resetPasswordToken := None;
      ghost var before := repo.rows;
      repo.Save(user);
      forall token | IndexByToken(repo.rows, token).Some?
        ensures repo.rows[IndexByToken(repo.rows, token).value].id != user.id
      {
        TokenLookupMissesClearedRow(before, user.Row(), token);
      }
    }

    /** `getCustomerByEmail(email)`: the user with that e-mail, or "user not
        found"; never null. */
    method GetCustomerByEmail(email: string) returns (r: Result<User>)
      ensures r.Ok? <==> IndexByEmail(repo.rows, email).Some?
      ensures r.Ok? ==> fresh(r.value) && r.value.email == email
      ensures r.Ok? ==> r.value.Row() == repo.rows[IndexByEmail(repo.rows, email).value]
      ensures r.Failure? ==> r.error == UsernameNotFound("user not found")
    {
      var found := repo.FindByEmail(email);
      if found.None? {
        return Failure(UsernameNotFound("user not found"));
      }
      r := Ok(found.value);
    }
  }
}
