/** The account record: its schema defaults and validators, and the
    one-time code the account carries between issuing and use. */
module UserModel {
  import opened Common
  import opened EmailFormats

  /** The store's own document key of an account (`_id`). */
  type AccountId = string

  datatype AccountRole = UserRole | AdminRole

  function RoleName(r: AccountRole): string {
    match r
    case UserRole => "user"
    case AdminRole => "admin"
  }

  /** The role enumeration: exactly `user` and `admin`. */
  function ParseRole(name: string): (r: Option<AccountRole>)
    ensures r.Some? <==> name == "user" || name == "admin"
    ensures r.Some? ==> RoleName(r.value) == name
  {
    if name == "user" then Some(UserRole)
    else if name == "admin" then Some(AdminRole)
    else None
  }

  const MinPasswordLength: int := 6

  /** The lowest code and the number of codes: codes run from 100000 to 999999. */
  const OtpBase: int := 100000
  const OtpSpan: int := 900000

  /** The stored password is kept as given; the hashing hook is not part of
      this model. */
  datatype User = User(
    name: string,
    email: string,
    password: string,
    role: AccountRole,
    isVerified: bool,
    otp: Option<string>,
    otpExpires: Option<Time>)

  /** A new account as the schema builds it: the e-mail lower-cased by its
      setter, the role `user` unless given, not verified, no code. */
  function NewUser(name: string, email: string, password: string, role: Option<AccountRole>): (u: User)
    ensures u.email == ToLower(email)
    ensures role.None? ==> u.role == UserRole
    ensures role.Some? ==> u.role == role.value
    ensures !u.isVerified && u.otp.None? && u.otpExpires.None?
    ensures u.name == name && u.password == password
  {
    User(name, ToLower(email), password, if role.Some? then role.value else UserRole, false, None, None)
  }

  /** The schema's presence and length rules: name, e-mail and password
      required, the password at least six characters. */
  predicate AccountComplete(u: User) {
    u.name != "" && u.email != "" && |u.password| >= MinPasswordLength
  }

  /** All the schema's validators: the presence and length rules and the
      e-mail in the account format. */
  predicate AccountValid(u: User) {
    AccountComplete(u) && AccountEmailOk(u.email)
  }

  /** A password shorter than six characters fails the schema whatever the
      other fields hold. */
  lemma ShortPasswordInvalid(u: User)
    requires |u.password| < MinPasswordLength
    ensures !AccountValid(u)
  {
  }

  /** `Math.floor(Math.random() * 900000)`: the random part of a code. */
  type OtpDraw = d: int | 0 <= d < 900000

  /** The code `generateOTP` renders from a draw: six decimal digits
      denoting 100000 + draw. */
  function OtpCode(d: OtpDraw): (code: string)
    ensures |code| == 6 && AllDigits(code)
    ensures DecimalValue(code) == OtpBase + d
    ensures OtpBase <= DecimalValue(code) < OtpBase + OtpSpan
  {
    var n := OtpBase + d;
    assert Pow10(5) == 100000 && Pow10(6) == 1000000;
    DecimalWidth(n, 6);
    DecimalRoundTrip(n);
    NatToDecimal(n)
  }

  /** Distinct draws give distinct codes. */
  lemma OtpCodeInjective(d1: OtpDraw, d2: OtpDraw)
    requires OtpCode(d1) == OtpCode(d2)
    ensures d1 == d2
  {
    assert DecimalValue(OtpCode(d1)) == DecimalValue(OtpCode(d2));
  }

  /** The account carrying a code that expires ten minutes after `now`. */
  function WithOtp(u: User, code: string, now: Time): (v: User)
    ensures v.otp == Some(code) && v.otpExpires == Some(now + OtpLifetimeMs)
    ensures v.(otp := u.otp, otpExpires := u.otpExpires) == u
  {
    u.(otp := Some(code), otpExpires := Some(now + OtpLifetimeMs))
  }

  /** The account with its code used up. */
  function WithoutOtp(u: User): (v: User)
    ensures v.otp.None? && v.otpExpires.None?
    ensures v.(otp := u.otp, otpExpires := u.otpExpires) == u
  {
    u.(otp := None, otpExpires := None)
  }

  /** `generateOTP`: draws a code, stores it with its expiry, returns it. */
  method GenerateOtp(u: User, draw: OtpDraw, now: Time) returns (v: User, code: string)
    ensures code == OtpCode(draw) && |code| == 6
    ensures v == WithOtp(u, code, now)
  {
    code := OtpCode(draw);
    v := u.(otp := Some(code));
    v := v.(otpExpires := Some(now + OtpLifetimeMs));
  }

  /** `isValidOTP`: the code matches the stored one and its expiry is still
      strictly in the future. */
  predicate IsValidOtp(u: User, code: string, now: Time) {
    u.otp == Some(code) && u.otpExpires.Some? && u.otpExpires.value > now
  }

  /** A code accepted at one instant is the stored code; it stays accepted
      at every earlier instant and is refused from its expiry on. */
  lemma ValidOtpWindow(u: User, code: string, t: Time, t2: Time)
    requires IsValidOtp(u, code, t)
    ensures u.otp == Some(code)
    ensures t2 <= t ==> IsValidOtp(u, code, t2)
    ensures t2 >= u.otpExpires.value ==> !IsValidOtp(u, code, t2)
  {
  }

  /** A freshly issued code is accepted exactly until its expiry: at any
      instant strictly before issue time plus ten minutes, and not at or
      after it; no other string is accepted. */
  lemma FreshOtpWindow(u: User, d: OtpDraw, now: Time, code: string, t: Time)
    ensures IsValidOtp(WithOtp(u, OtpCode(d), now), code, t) <==> code == OtpCode(d) && t < now + OtpLifetimeMs
  {
  }

  /** A used-up code accepts nothing, and a new code replaces the old one,
      which is then refused unless the two happen to coincide. */
  lemma OtpSingleUse(u: User, code: string, t: Time, d: OtpDraw, now: Time)
    ensures !IsValidOtp(WithoutOtp(u), code, t)
    ensures u.otp.Some? && u.otp.value != OtpCode(d) ==> !IsValidOtp(WithOtp(u, OtpCode(d), now), u.otp.value, t)
  {
  }
}
