/** The bodies of the login and signup requests and the Bean Validation constraints on
    their fields. Each field is `None` when the JSON leaves it null. Validation runs
    before the controller; a request that breaks a constraint never reaches the
    service, and every broken constraint yields one field error. */
module Requests {
  import opened Wrappers
  import Text
  import opened ErrorHandling

  const PhoneField: string := "phone_number"
  const PasswordField: string := "password"

  const PhoneRequired: string := "Phone number is required"
  const PhoneFormatInvalid: string := "Phone number format is invalid"
  const PasswordRequired: string := "Password is required"
  const PasswordTooShort: string := "Password must be at least 6 characters"

  const MinPasswordLength: nat := 6

  /** `LoginRequest`. A body that omits `user_type` gets "customer"; one that sends
      null for it leaves it `None`. */
  datatype LoginRequest = LoginRequest(
    phoneNumber: Option<string>,
    password: Option<string>,
    deviceInfo: Option<string>,
    userType: Option<string>)

  /** `RegisterRequest`: the same fields, with a length bound on the password. */
  datatype RegisterRequest = RegisterRequest(
    phoneNumber: Option<string>,
    password: Option<string>,
    deviceInfo: Option<string>,
    userType: Option<string>)

  /** `@NotBlank`: present, and something is left after `trim()`. */
  predicate NotBlank(s: Option<string>) {
    s.Some? && !Text.IsBlank(s.value)
  }

  /** The regular expression `^[0-9]{10,11}$`: ten or eleven ASCII digits. */
  predicate PhonePattern(s: string) {
    10 <= |s| <= 11 && forall k :: 0 <= k < |s| ==> Text.IsAsciiDigit(s[k])
  }

  /** `@Pattern` accepts a null value. */
  predicate MatchesPhonePattern(s: Option<string>) {
    s.None? || PhonePattern(s.value)
  }

  /** `@Size(min = 6)` accepts a null value. */
  predicate LongEnough(s: Option<string>) {
    s.None? || |s.value| >= MinPasswordLength
  }

  /** The errors of the phone number field, one per broken constraint. */
  function PhoneErrors(phone: Option<string>): (r: seq<FieldError>)
    ensures forall k :: 0 <= k < |r| ==> r[k].field == PhoneField
    ensures FieldError(PhoneField, PhoneRequired) in r <==> !NotBlank(phone)
    ensures FieldError(PhoneField, PhoneFormatInvalid) in r <==> !MatchesPhonePattern(phone)
    ensures forall k :: 0 <= k < |r| ==> r[k].message in {PhoneRequired, PhoneFormatInvalid}
  {
    (if NotBlank(phone) then [] else [FieldError(PhoneField, PhoneRequired)])
    + (if MatchesPhonePattern(phone) then [] else [FieldError(PhoneField, PhoneFormatInvalid)])
  }

  /** The errors of a login password: only `@NotBlank`. */
  function LoginPasswordErrors(password: Option<string>): (r: seq<FieldError>)
    ensures r == [] <==> NotBlank(password)
    ensures forall k :: 0 <= k < |r| ==> r[k] == FieldError(PasswordField, PasswordRequired)
  {
    if NotBlank(password) then [] else [FieldError(PasswordField, PasswordRequired)]
  }

  /** The errors of a signup password: `@NotBlank` and `@Size(min = 6)`. */
  function RegisterPasswordErrors(password: Option<string>): (r: seq<FieldError>)
    ensures forall k :: 0 <= k < |r| ==> r[k].field == PasswordField
    ensures FieldError(PasswordField, PasswordRequired) in r <==> !NotBlank(password)
    ensures FieldError(PasswordField, PasswordTooShort) in r <==> !LongEnough(password)
    ensures forall k :: 0 <= k < |r| ==> r[k].message in {PasswordRequired, PasswordTooShort}
  {
    (if NotBlank(password) then [] else [FieldError(PasswordField, PasswordRequired)])
    + (if LongEnough(password) then [] else [FieldError(PasswordField, PasswordTooShort)])
  }

  /** Bean validation of a login body: every broken constraint of either field is
      reported, and nothing else. */
  function ValidateLogin(req: LoginRequest): (r: seq<FieldError>)
    ensures FieldError(PhoneField, PhoneRequired) in r <==> !NotBlank(req.phoneNumber)
    ensures FieldError(PhoneField, PhoneFormatInvalid) in r <==> !MatchesPhonePattern(req.phoneNumber)
    ensures FieldError(PasswordField, PasswordRequired) in r <==> !NotBlank(req.password)
    ensures forall k :: 0 <= k < |r| ==> r[k].field in {PhoneField, PasswordField}
  {
    PhoneErrors(req.phoneNumber) + LoginPasswordErrors(req.password)
  }

  /** Bean validation of a signup body, with the password's length rule besides. */
  function ValidateRegister(req: RegisterRequest): (r: seq<FieldError>)
    ensures FieldError(PhoneField, PhoneRequired) in r <==> !NotBlank(req.phoneNumber)
    ensures FieldError(PhoneField, PhoneFormatInvalid) in r <==> !MatchesPhonePattern(req.phoneNumber)
    ensures FieldError(PasswordField, PasswordRequired) in r <==> !NotBlank(req.password)
    ensures FieldError(PasswordField, PasswordTooShort) in r <==> !LongEnough(req.password)
    ensures forall k :: 0 <= k < |r| ==> r[k].field in {PhoneField, PasswordField}
  {
    PhoneErrors(req.phoneNumber) + RegisterPasswordErrors(req.password)
  }

  /** A login request as the service needs it: a well-formed phone number and a
      password with some text. */
  predicate LoginAcceptable(req: LoginRequest) {
    && req.phoneNumber.Some? && PhonePattern(req.phoneNumber.value)
    && req.password.Some? && !Text.IsBlank(req.password.value)
  }

  /** A signup request as the service needs it: additionally, six characters of
      password at least. */
  predicate RegisterAcceptable(req: RegisterRequest) {
    && req.phoneNumber.Some? && PhonePattern(req.phoneNumber.value)
    && req.password.Some? && !Text.IsBlank(req.password.value)
    && |req.password.value| >= MinPasswordLength
  }

  /** A phone number of the right pattern is never blank, since digits survive
      trimming: the pattern alone decides a present phone number. */
  lemma PatternedPhoneNotBlank(s: string)
    requires PhonePattern(s)
    ensures !Text.IsBlank(s)
  {
    assert !Text.IsTrimmable(s[0]);
  }

  /** The phone number field passes exactly when it is present and of the pattern. */
  lemma PhoneErrorsEmptyIff(phone: Option<string>)
    ensures PhoneErrors(phone) == [] <==> phone.Some? && PhonePattern(phone.value)
  {
    if phone.Some? && PhonePattern(phone.value) {
      PatternedPhoneNotBlank(phone.value);
    }
    if PhoneErrors(phone) == [] {
      assert FieldError(PhoneField, PhoneFormatInvalid) !in PhoneErrors(phone);
      assert FieldError(PhoneField, PhoneRequired) !in PhoneErrors(phone);
    }
  }

  /** A login request passes validation exactly when it is acceptable to the service. */
  lemma LoginValidIff(req: LoginRequest)
    ensures ValidateLogin(req) == [] <==> LoginAcceptable(req)
  {
    PhoneErrorsEmptyIff(req.phoneNumber);
  }

  /** A signup request passes validation exactly when it is acceptable to the service. */
  lemma RegisterValidIff(req: RegisterRequest)
    ensures ValidateRegister(req) == [] <==> RegisterAcceptable(req)
  {
    PhoneErrorsEmptyIff(req.phoneNumber);
    if RegisterPasswordErrors(req.password) == [] {
      assert FieldError(PasswordField, PasswordRequired) !in RegisterPasswordErrors(req.password);
      assert FieldError(PasswordField, PasswordTooShort) !in RegisterPasswordErrors(req.password);
    }
  }

  function AsLogin(req: RegisterRequest): LoginRequest {
    LoginRequest(req.phoneNumber, req.password, req.deviceInfo, req.userType)
  }

  /** Signing up asks more of a request than logging in: every valid signup body is a
      valid login body. */
  lemma RegisterStricterThanLogin(req: RegisterRequest)
    ensures ValidateRegister(req) == [] ==> ValidateLogin(AsLogin(req)) == []
  {
    RegisterValidIff(req);
    LoginValidIff(AsLogin(req));
  }

  /** The converse fails: a five-character password may log in but not sign up. */
  lemma ShortPasswordOnlyLogsIn()
    ensures var short := RegisterRequest(Some("0912345678"), Some("abcde"), None, None);
            ValidateLogin(AsLogin(short)) == [] && ValidateRegister(short) != []
  {
    var short := RegisterRequest(Some("0912345678"), Some("abcde"), None, None);
    PatternedPhoneNotBlank("0912345678");
    assert !Text.IsTrimmable("abcde"[0]);
    LoginValidIff(AsLogin(short));
    assert FieldError(PasswordField, PasswordTooShort) in RegisterPasswordErrors(short.password);
  }

  /** A null field breaks only `@NotBlank`; a blank but present phone number breaks
      the pattern as well, so it is reported under two messages. */
  lemma NullAndBlankPhone()
    ensures PhoneErrors(None) == [FieldError(PhoneField, PhoneRequired)]
    ensures PhoneErrors(Some("")) == [FieldError(PhoneField, PhoneRequired), FieldError(PhoneField, PhoneFormatInvalid)]
  {
  }
}
