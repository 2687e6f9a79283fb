/** The `User` JPA entity (model/User.java) and the `Role` it refers to. */
module UserModel {
  import opened Wrappers

  /** `java.util.Date`, as milliseconds since the epoch. */
  type Time = int

  /** `Role` is a Lombok `@Data` class, so two roles are equal exactly when
      their id and name are equal: value equality of a datatype. */
  datatype Role = Role(id: int, name: string)

  /** A snapshot of every field of a `User`: what a row of the `users` table holds.
      `oneTimePassword`, `otpRequestedTime` and `resetPasswordToken` are set by the
      service although `User.java` does not declare them. */
  datatype UserRow = UserRow(
    id: int,
    email: string,
    name: string,
    password: string,            // the encoded (hashed) password
    enabled: bool,
    roles: set<Role>,
    oneTimePassword: Option<string>,   // the encoded one-time password, or null
    otpRequestedTime: Option<Time>,
    resetPasswordToken: Option<string>)

  /** The mutable entity; Lombok's setters are plain field assignments. */
  class User {
    var id: int
    var email: string
    var name: string
    var password: string
    var enabled: bool
    var roles: set<Role>
    var oneTimePassword: Option<string>
    var otpRequestedTime: Option<Time>
    var resetPasswordToken: Option<string>

    /** The current values of all fields. */
    function Row(): UserRow
      reads this
    {
      UserRow(id, email, name, password, enabled, roles,
              oneTimePassword, otpRequestedTime, resetPasswordToken)
    }

    /** `new User()`: the role set starts empty and no OTP or reset token is set. */
    constructor ()
      ensures roles == {}
      ensures oneTimePassword == None && otpRequestedTime == None
      ensures resetPasswordToken == None
      ensures !enabled
    {
      id, email, name, password := 0, "", "", "";
      enabled := false;
      roles := {};
      oneTimePassword, otpRequestedTime, resetPasswordToken := None, None, None;
    }

    /** Builds the entity that holds the values of a stored row, as the
        persistence layer does when a query returns a user. */
    constructor FromRow(r: UserRow)
      ensures Row() == r
    {
      id, email, name, password, enabled, roles := r.id, r.email, r.name, r.password, r.enabled, r.roles;
      oneTimePassword, otpRequestedTime, resetPasswordToken := r.oneTimePassword, r.otpRequestedTime, r.resetPasswordToken;
    }

    /** `addRole`: `HashSet.add`, in place. Only `roles` may change. */
    method AddRole(role: Role)
      modifies this`roles
      ensures roles == old(roles) + {role}
      ensures role in roles
      ensures old(roles) <= roles
      ensures role in old(roles) ==> roles == old(roles)
    {
      roles := roles + {role};
    }
  }
}
