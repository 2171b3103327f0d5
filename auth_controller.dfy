/** The account handlers over the account store. Each handler loads the
    one account the request names (by e-mail, lower-cased as the schema's
    setter does, or by id), edits that copy and saves it back. The store
    keeps every account schema-valid, with a lower-case e-mail, and no two
    accounts share an e-mail (the unique index). */
module AuthControllerImpl {
  import opened Common
  import opened EmailFormats
  import opened UserModel

  type Accounts = map<AccountId, User>

  datatype AuthError =
    | MissingFields       // a required body field is absent or empty
    | EmailTaken          // another account already has the e-mail
    | SchemaRejected      // a schema validator refused the account or update
    | UserNotFound
    | AlreadyVerified
    | InvalidOtp          // wrong or expired code
    | NotVerified         // login before verification
    | InvalidCredentials  // unknown e-mail or wrong password at login
    | PasswordTooShort
    | EmailNotSent        // the mail transport reported failure

  /** What registration reports: the new id, and whether the code went out. */
  datatype Registered = Registered(id: AccountId, emailSent: bool)

  predicate HasEmail(users: Accounts, email: string) {
    exists id :: id in users && users[id].email == email
  }

  /** The account keyed `id` is the one whose e-mail is `email`. */
  predicate Owns(users: Accounts, id: AccountId, email: string) {
    id in users && users[id].email == email
  }

  ghost predicate StoreValid(users: Accounts) {
    (forall id :: id in users ==> AccountComplete(users[id]) && IsLowerCase(users[id].email))
    && forall i, j :: i in users && j in users && i != j ==> users[i].email != users[j].email
  }

  /** With unique e-mails an e-mail names at most one account. */
  lemma OwnerUnique(users: Accounts, i: AccountId, j: AccountId, email: string)
    requires StoreValid(users) && Owns(users, i, email) && Owns(users, j, email)
    ensures i == j
  {
  }

  /** Replacing one account by a valid one holding its own e-mail, or one no
      other account holds, keeps the store valid. */
  lemma ReplaceKeepsValid(users: Accounts, id: AccountId, u: User)
    requires StoreValid(users)
    requires AccountComplete(u) && IsLowerCase(u.email)
    requires forall k :: k in users && k != id ==> users[k].email != u.email
    ensures StoreValid(users[id := u])
  {
    var after := users[id := u];
    forall k | k in after ensures AccountComplete(after[k]) && IsLowerCase(after[k].email) {
      if k != id {
        assert after[k] == users[k];
      }
    }
    forall i, j | i in after && j in after && i != j ensures after[i].email != after[j].email {
      if i != id && j != id {
        assert after[i] == users[i] && after[j] == users[j];
      }
    }
  }

  class AccountStore {
    var users: Accounts

    constructor(users0: Accounts)
      requires StoreValid(users0)
      ensures users == users0 && Valid()
    {
      users := users0;
    }

    ghost predicate Valid()
      reads this
    {
      StoreValid(users)
    }

    /** `registerUser`: required fields, the e-mail not in use, the schema
        (role `user` unless one is given), then the new account saved with a
        fresh verification code. A failed mail still reports success. */
    method RegisterUser(name: Option<string>, email: Option<string>, password: Option<string>,
                        role: Option<string>, newId: AccountId, draw: OtpDraw, now: Time, emailSent: bool)
      returns (r: Result<Registered, AuthError>)
      requires Valid()
      modifies this
      ensures Valid()
      ensures r.Err? ==> users == old(users)
      ensures r == Err(MissingFields) <==> !Present(name) || !Present(email) || !Present(password)
      ensures r == Err(EmailTaken) <==>
        (Present(name) && Present(email) && Present(password)
         && (HasEmail(old(users), ToLower(email.value))
             || (ParseRole(StringOr(role, "user")).Some?
                 && AccountValid(NewUser(name.value, email.value, password.value, ParseRole(StringOr(role, "user"))))
                 && newId in old(users))))
      ensures Present(password) && |password.value| < MinPasswordLength ==> r.Err?
      ensures r.Ok? ==> r.value == Registered(newId, emailSent) && newId !in old(users)
      ensures r.Ok? ==> ParseRole(StringOr(role, "user")).Some?
      ensures r.Ok? ==> users == old(users)[newId := WithOtp(NewUser(name.value, email.value, password.value,
                                                                     ParseRole(StringOr(role, "user"))),
                                                             OtpCode(draw), now)]
      ensures r.Ok? ==> !users[newId].isVerified && AccountValid(users[newId])
      ensures r.Ok? ==> users[newId].role == (if Present(role) && role.value == "admin" then AdminRole else UserRole)
      ensures r.Ok? <==>
        (Present(name) && Present(email) && Present(password) && !HasEmail(old(users), ToLower(email.value))
         && ParseRole(StringOr(role, "user")).Some?
         && AccountValid(NewUser(name.value, email.value, password.value, ParseRole(StringOr(role, "user"))))
         && newId !in old(users))
    {
      if !Present(name) || !Present(email) || !Present(password) {
        return Err(MissingFields);
      }
      var key := ToLower(email.value);
      if HasEmail(users, key) {
        return Err(EmailTaken);
      }
      var parsedRole := ParseRole(StringOr(role, "user"));
      var u := NewUser(name.value, email.value, password.value, parsedRole);
      if parsedRole.None? || !AccountValid(u) {
        return Err(SchemaRejected);
      }
      if newId in users {
        return Err(EmailTaken);
      }
      ToLowerIsLowerCase(email.value);
      Admit(newId, u, draw, now);
      return Ok(Registered(newId, emailSent));
    }

    /** The two saves of registration: the new account, then the same
        account carrying its first code. */
    method Admit(newId: AccountId, u: User, draw: OtpDraw, now: Time)
      requires Valid() && newId !in users
      requires AccountComplete(u) && IsLowerCase(u.email) && !HasEmail(users, u.email)
      modifies this
      ensures Valid()
      ensures users == old(users)[newId := WithOtp(u, OtpCode(draw), now)]
    {
      ReplaceKeepsValid(users, newId, u);
      users := users[newId := u];
      var v, code := GenerateOtp(u, draw, now);
      ReplaceKeepsValid(users, newId, v);
      users := users[newId := v];
    }

    /** `verifyOTP`: an unverified account with a valid code becomes verified
        and its code is used up; token issuing is not part of this model. */
    method VerifyOtp(email: Option<string>, otp: Option<string>, now: Time) returns (r: Result<AccountId, AuthError>)
      requires Valid()
      modifies this
      ensures Valid()
      ensures r.Err? ==> users == old(users)
      ensures r == Err(MissingFields) <==> !Present(email) || !Present(otp)
      ensures r == Err(UserNotFound) <==> Present(email) && Present(otp) && !HasEmail(old(users), ToLower(email.value))
      ensures r == Err(AlreadyVerified) <==>
        (Present(email) && Present(otp)
         && exists id :: Owns(old(users), id, ToLower(email.value)) && old(users)[id].isVerified)
      ensures r == Err(InvalidOtp) <==>
        (Present(email) && Present(otp)
         && exists id :: Owns(old(users), id, ToLower(email.value))
              && !old(users)[id].isVerified && !IsValidOtp(old(users)[id], otp.value, now))
      ensures r.Ok? <==>
        (Present(email) && Present(otp)
         && exists id :: Owns(old(users), id, ToLower(email.value))
              && !old(users)[id].isVerified && IsValidOtp(old(users)[id], otp.value, now))
      ensures r.Ok? ==> Owns(old(users), r.value, ToLower(email.value)) && !old(users)[r.value].isVerified
      ensures r.Ok? ==> IsValidOtp(old(users)[r.value], otp.value, now)
      ensures r.Ok? ==> users == old(users)[r.value := WithoutOtp(old(users)[r.value]).(isVerified := true)]
    {
      if !Present(email) || !Present(otp) {
        return Err(MissingFields);
      }
      var key := ToLower(email.value);
      if !HasEmail(users, key) {
        return Err(UserNotFound);
      }
      var id :| id in users && users[id].email == key;
      forall k | Owns(users, k, key) ensures k == id {
        OwnerUnique(users, k, id, key);
      }
      var u := users[id];
      if u.isVerified {
        return Err(AlreadyVerified);
      }
      if !IsValidOtp(u, otp.value, now) {
        return Err(InvalidOtp);
      }
      u := u.(isVerified := true);
      u := u.(otp := None);
      u := u.(otpExpires := None);
      ReplaceKeepsValid(users, id, u);
      users := users[id := u];
      return Ok(id);
    }

    /** `loginUser`: an unverified account is refused before its password is
        compared. `matchPassword` is the stored-hash comparison, taken as
        given. */
    method LoginUser(email: Option<string>, password: Option<string>, matchPassword: (string, string) -> bool)
      returns (r: Result<AccountId, AuthError>)
      requires Valid()
      ensures r == Err(MissingFields) <==> !Present(email) || !Present(password)
      ensures r == Err(NotVerified) <==>
        (Present(email) && Present(password)
         && exists id :: Owns(users, id, ToLower(email.value)) && !users[id].isVerified)
      ensures r == Err(InvalidCredentials) <==>
        (Present(email) && Present(password)
         && (!HasEmail(users, ToLower(email.value))
             || exists id :: (Owns(users, id, ToLower(email.value)) && users[id].isVerified
                              && !matchPassword(password.value, users[id].password))))
      ensures r.Ok? ==> Owns(users, r.value, ToLower(email.value)) && users[r.value].isVerified
      ensures r.Ok? ==> matchPassword(password.value, users[r.value].password)
      ensures r.Ok? <==>
        (Present(email) && Present(password)
         && exists id :: Owns(users, id, ToLower(email.value)) && users[id].isVerified
              && matchPassword(password.value, users[id].password))
    {
      if !Present(email) || !Present(password) {
        return Err(MissingFields);
      }
      var key := ToLower(email.value);
      if !HasEmail(users, key) {
        return Err(InvalidCredentials);
      }
      var id :| id in users && users[id].email == key;
      forall k | Owns(users, k, key) ensures k == id {
        OwnerUnique(users, k, id, key);
      }
      var u := users[id];
      if !u.isVerified {
        return Err(NotVerified);
      }
      if !matchPassword(password.value, u.password) {
        return Err(InvalidCredentials);
      }
      return Ok(id);
    }

    /** `forgotPassword`: an unknown e-mail reports success and changes
        nothing; a known one gets a fresh code, verified or not, which stays
        stored even when the mail then fails. */
    method ForgotPassword(email: Option<string>, draw: OtpDraw, now: Time, emailSent: bool)
      returns (r: Result<(), AuthError>)
      requires Valid()
      modifies this
      ensures Valid()
      ensures r == Err(MissingFields) <==> !Present(email)
      ensures !Present(email) ==> users == old(users)
      ensures Present(email) && !HasEmail(old(users), ToLower(email.value)) ==> r == Ok(()) && users == old(users)
      ensures Present(email) && HasEmail(old(users), ToLower(email.value)) ==>
        r == (if emailSent then Ok(()) else Err(EmailNotSent))
      ensures Present(email) && HasEmail(old(users), ToLower(email.value)) ==>
        (exists id :: (Owns(old(users), id, ToLower(email.value))
                       && users == old(users)[id := WithOtp(old(users)[id], OtpCode(draw), now)]))
    {
      if !Present(email) {
        return Err(MissingFields);
      }
      var key := ToLower(email.value);
      if !HasEmail(users, key) {
        return Ok(());
      }
      var id :| id in users && users[id].email == key;
      var u, code := GenerateOtp(users[id], draw, now);
      ReplaceKeepsValid(users, id, u);
      users := users[id := u];
      if !emailSent {
        return Err(EmailNotSent);
      }
      return Ok(());
    }

    /** `resetPassword`: a new password of at least six characters and a
        valid code replace the password and use the code up. */
    method ResetPassword(email: Option<string>, otp: Option<string>, newPassword: Option<string>, now: Time)
      returns (r: Result<AccountId, AuthError>)
      requires Valid()
      modifies this
      ensures Valid()
      ensures r.Err? ==> users == old(users)
      ensures r == Err(MissingFields) <==> !Present(email) || !Present(otp) || !Present(newPassword)
      ensures r == Err(PasswordTooShort) <==>
        (Present(email) && Present(otp) && Present(newPassword) && |newPassword.value| < MinPasswordLength)
      ensures r == Err(UserNotFound) <==>
        (Present(email) && Present(otp) && Present(newPassword) && |newPassword.value| >= MinPasswordLength
         && !HasEmail(old(users), ToLower(email.value)))
      ensures r == Err(InvalidOtp) <==>
        (Present(email) && Present(otp) && Present(newPassword) && |newPassword.value| >= MinPasswordLength
         && exists id :: Owns(old(users), id, ToLower(email.value)) && !IsValidOtp(old(users)[id], otp.value, now))
      ensures r.Ok? <==>
        (Present(email) && Present(otp) && Present(newPassword) && |newPassword.value| >= MinPasswordLength
         && exists id :: Owns(old(users), id, ToLower(email.value)) && IsValidOtp(old(users)[id], otp.value, now))
      ensures r.Ok? ==> Owns(old(users), r.value, ToLower(email.value)) && |newPassword.value| >= MinPasswordLength
      ensures r.Ok? ==> IsValidOtp(old(users)[r.value], otp.value, now)
      ensures r.Ok? ==> users == old(users)[r.value := WithoutOtp(old(users)[r.value]).(password := newPassword.value)]
    {
      if !Present(email) || !Present(otp) || !Present(newPassword) {
        return Err(MissingFields);
      }
      if |newPassword.value| < MinPasswordLength {
        return Err(PasswordTooShort);
      }
      var key := ToLower(email.value);
      if !HasEmail(users, key) {
        return Err(UserNotFound);
      }
      var id :| id in users && users[id].email == key;
      forall k | Owns(users, k, key) ensures k == id {
        OwnerUnique(users, k, id, key);
      }
      var u := users[id];
      if !IsValidOtp(u, otp.value, now) {
        return Err(InvalidOtp);
      }
      u := u.(password := newPassword.value);
      u := u.(otp := None);
      u := u.(otpExpires := None);
      ReplaceKeepsValid(users, id, u);
      users := users[id := u];
      return Ok(id);
    }

    /** `resendOTP`: an unverified account's code and expiry are overwritten
        by fresh ones, which stay stored even when the mail then fails. */
    method ResendOtp(email: Option<string>, draw: OtpDraw, now: Time, emailSent: bool)
      returns (r: Result<AccountId, AuthError>)
      requires Valid()
      modifies this
      ensures Valid()
      ensures r == Err(MissingFields) <==> !Present(email)
      ensures r == Err(UserNotFound) <==> Present(email) && !HasEmail(old(users), ToLower(email.value))
      ensures r == Err(AlreadyVerified) <==>
        (Present(email) && exists id :: Owns(old(users), id, ToLower(email.value)) && old(users)[id].isVerified)
      ensures r == Err(MissingFields) || r == Err(UserNotFound) || r == Err(AlreadyVerified) ==> users == old(users)
      ensures r.Ok? || r == Err(EmailNotSent) ==>
        (exists id :: (Owns(old(users), id, ToLower(email.value)) && !old(users)[id].isVerified
                       && users == old(users)[id := WithOtp(old(users)[id], OtpCode(draw), now)]))
      ensures r.Ok? <==>
        (Present(email) && emailSent
         && exists id :: Owns(old(users), id, ToLower(email.value)) && !old(users)[id].isVerified)
    {
      if !Present(email) {
        return Err(MissingFields);
      }
      var key := ToLower(email.value);
      if !HasEmail(users, key) {
        return Err(UserNotFound);
      }
      var id :| id in users && users[id].email == key;
      forall k | Owns(users, k, key) ensures k == id {
        OwnerUnique(users, k, id, key);
      }
      var u := users[id];
      if u.isVerified {
        return Err(AlreadyVerified);
      }
      var code;
      u, code := GenerateOtp(u, draw, now);
      ReplaceKeepsValid(users, id, u);
      users := users[id := u];
      if !emailSent {
        return Err(EmailNotSent);
      }
      return Ok(id);
    }

    /** `updateProfile`: an e-mail held by another account is refused; the
        given fields are then written under the schema's validators (an
        empty name or e-mail fails `required`); absent fields are left as
        they are. */
    method UpdateProfile(caller: AccountId, name: Option<string>, email: Option<string>)
      returns (r: Result<User, AuthError>)
      requires Valid()
      modifies this
      ensures Valid()
      ensures r.Err? ==> users == old(users)
      ensures r == Err(EmailTaken) <==>
        (Present(email) && exists id :: Owns(old(users), id, ToLower(email.value)) && id != caller)
      ensures r == Err(UserNotFound) <==>
        (!(Present(email) && exists id :: Owns(old(users), id, ToLower(email.value)) && id != caller)
         && (name.Some? ==> name.value != "")
         && (email.Some? ==> email.value != "" && AccountEmailOk(ToLower(email.value)))
         && caller !in old(users))
      ensures r.Ok? <==>
        (!(Present(email) && exists id :: Owns(old(users), id, ToLower(email.value)) && id != caller)
         && (name.Some? ==> name.value != "")
         && (email.Some? ==> email.value != "" && AccountEmailOk(ToLower(email.value)))
         && caller in old(users))
      ensures r.Ok? ==> caller in old(users) && users == old(users)[caller := r.value]
      ensures r.Ok? ==>
        r.value == old(users)[caller].(name := if name.Some? then name.value else old(users)[caller].name,
                                       email := if email.Some? then ToLower(email.value) else old(users)[caller].email)
      ensures r.Ok? ==> (name.Some? ==> name.value != "") && (email.Some? ==> AccountEmailOk(ToLower(email.value)))
    {
      if Present(email) {
        var key := ToLower(email.value);
        if exists id :: id in users && users[id].email == key && id != caller {
          var other :| other in users && users[other].email == key && other != caller;
          assert Owns(users, other, key);
          assert exists id :: Owns(old(users), id, ToLower(email.value)) && id != caller;
          return Err(EmailTaken);
        }
      }
      if name.Some? && name.value == "" {
        return Err(SchemaRejected);
      }
      if email.Some? && (email.value == "" || !AccountEmailOk(ToLower(email.value))) {
        return Err(SchemaRejected);
      }
      if caller !in users {
        return Err(UserNotFound);
      }
      var u := users[caller];
      if name.Some? {
        u := u.(name := name.value);
      }
      if email.Some? {
        u := u.(email := ToLower(email.value));
        ToLowerIsLowerCase(email.value);
      }
      ReplaceKeepsValid(users, caller, u);
      users := users[caller := u];
      return Ok(u);
    }
  }
}
