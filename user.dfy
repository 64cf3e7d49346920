/** The user document (`models/User.js`): the password-change timestamp that
    revokes older tokens, and the pre-save hook that hashes a new password
    and stamps the change. Hashing itself is a parameter. */
module UserModel {
  import opened Common

  /** The fields of a user document the model reads. `role` is the stored
      role reference, which may name no stored role. */
  datatype User = User(email: string, name: string, role: RoleId, passwordChangedAt: Option<Millis>)

  /** `parseInt(ms / 1000, 10)`: whole seconds, truncated toward zero. */
  function Seconds(ms: Millis): (s: int)
    ensures ms >= 0 ==> 0 <= s && s * 1000 <= ms < s * 1000 + 1000
    ensures ms < 0 ==> s <= 0 && s * 1000 - 1000 < ms <= s * 1000
  {
    if ms >= 0 then ms / 1000 else -((-ms) / 1000)
  }

  /** `changedPasswordAfter(iat)`: the password was changed in a later whole
      second than the token's issue time `iat` (in seconds). */
  function ChangedPasswordAfter(user: User, iat: int): (changed: bool)
    ensures user.passwordChangedAt.None? ==> !changed
    ensures user.passwordChangedAt.Some? && user.passwordChangedAt.value >= 0 ==>
      (changed <==> iat * 1000 + 1000 <= user.passwordChangedAt.value)
    ensures user.passwordChangedAt.Some? && user.passwordChangedAt.value < 0 ==>
      (changed <==> iat * 1000 < user.passwordChangedAt.value)
  {
    match user.passwordChangedAt
    case None => false
    case Some(ms) => iat < Seconds(ms)
  }

  /** The issue time a JSON Web Token records for a token signed at `ms`:
      whole seconds since the epoch, rounded down. */
  function IssuedAt(ms: Millis): (iat: int)
    requires ms >= 0
    ensures iat * 1000 <= ms < iat * 1000 + 1000
  {
    ms / 1000
  }

  /** The state of a user document that the pre-save hook reads and writes. */
  class UserDocument {
    var password: string
    var passwordChangedAt: Option<Millis>
    var isNew: bool
    var passwordModified: bool

    constructor (password: string, passwordChangedAt: Option<Millis>, isNew: bool, passwordModified: bool)
      ensures this.password == password && this.passwordChangedAt == passwordChangedAt
      ensures this.isNew == isNew && this.passwordModified == passwordModified
    {
      this.password := password;
      this.passwordChangedAt := passwordChangedAt;
      this.isNew := isNew;
      this.passwordModified := passwordModified;
    }

    /** The pre-save hook. `hashed` is what the hashing library returns for
        the current password; `now` is the clock reading. */
    method PreSave(now: Millis, hashed: string)
      modifies this`password, this`passwordChangedAt
      ensures !passwordModified || StartsWith(old(password), "$2a$") ==>
        password == old(password) && passwordChangedAt == old(passwordChangedAt)
      ensures passwordModified && !StartsWith(old(password), "$2a$") ==>
        password == hashed
        && passwordChangedAt == (if isNew then old(passwordChangedAt) else Some(now - 1000))
    {
      if !passwordModified {
        return;
      }
      if StartsWith(password, "$2a$") {
        return;
      }
      password := hashed;
      if passwordModified && !isNew {
        passwordChangedAt := Some(now - 1000);
      }
    }
  }

  /** A password change saved at `now` stamps `now - 1000`: it revokes every
      token signed two or more seconds before the save and keeps every token
      signed from the stamp on. */
  lemma PasswordChangeRevokesOlderTokens(user: User, now: Millis, signed: Millis)
    requires now >= 1000 && signed >= 0
    requires user.passwordChangedAt == Some(now - 1000)
    ensures signed + 2000 <= now ==> ChangedPasswordAfter(user, IssuedAt(signed))
    ensures signed >= now - 1000 ==> !ChangedPasswordAfter(user, IssuedAt(signed))
  {
  }
}
