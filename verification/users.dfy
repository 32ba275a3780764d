/** The user service: password authentication, the phone-number existence check, user
    creation and the user view returned to clients. */
module Users {
  import opened Wrappers
  import opened Ids
  import opened Entities
  import Text

  /** The password encoder (BCrypt): `encode` hashes a raw password with a fresh salt,
      `matches(raw, hash)` checks a raw password against a stored hash. */
  datatype Hasher = Hasher(encode: string -> string, matches: (string, string) -> bool)

  /** What the encoder guarantees and the model relies on: an encoded password matches
      itself and is never empty. */
  ghost predicate SoundHasher(h: Hasher) {
    && (forall p :: h.matches(p, h.encode(p)))
    && (forall p :: h.encode(p) != "")
  }

  /** A stored hash the encoder can check against: present and non-empty. For any other
      stored value the encoder rejects every password without comparing. */
  predicate HashUsable(hash: Option<string>) {
    hash.Some? && hash.value != ""
  }

  /** `passwordEncoder.matches(raw, user.getPassword())`. */
  predicate Accepts(h: Hasher, u: User, raw: string) {
    HashUsable(u.password) && h.matches(raw, u.password.value)
  }

  /** `authenticate`: the user with the phone number, if their stored hash is usable
      and matches the password; empty in every other case. */
  function Authenticate(h: Hasher, users: seq<User>, phone: string, password: string): (r: Option<User>)
    ensures r.Some? ==> r.value in users && r.value.phoneNumber == phone && Accepts(h, r.value, password)
    ensures (forall j :: 0 <= j < |users| ==> users[j].phoneNumber != phone) ==> r.None?
  {
    match UserIndexByPhone(users, phone)
    case None => None
    case Some(i) =>
      var user := users[i];
      if user.password.None? || user.password.value == "" then None
      else if h.matches(password, user.password.value) then Some(user)
      else None
  }

  /** With phone numbers unique, `authenticate` yields a user exactly when that user has
      the phone number and the encoder accepts the password. */
  lemma AuthenticateIff(h: Hasher, users: seq<User>, phone: string, password: string, u: User)
    requires UniquePhones(users)
    ensures Authenticate(h, users, phone, password) == Some(u)
            <==> u in users && u.phoneNumber == phone && Accepts(h, u, password)
  {
    if u in users && u.phoneNumber == phone && Accepts(h, u, password) {
      var k :| 0 <= k < |users| && users[k] == u;
      var i := UserIndexByPhone(users, phone).value;
      assert i == k;
    }
  }

  /** An unusable stored hash fails authentication whatever the password and whatever
      the encoder: the matcher is never consulted. */
  lemma EmptyHashNeverAuthenticates(h1: Hasher, h2: Hasher, users: seq<User>, phone: string, p1: string, p2: string)
    requires UserIndexByPhone(users, phone).Some?
    requires !HashUsable(users[UserIndexByPhone(users, phone).value].password)
    ensures Authenticate(h1, users, phone, p1) == Authenticate(h2, users, phone, p2) == None
  {
  }

  /** Unknown phone number and wrong password are indistinguishable: both are `None`. */
  lemma FailuresIndistinguishable(h: Hasher, users: seq<User>, unknown: string, known: string, wrong: string)
    requires forall j :: 0 <= j < |users| ==> users[j].phoneNumber != unknown
    requires UniquePhones(users)
    requires forall j :: 0 <= j < |users| && users[j].phoneNumber == known ==> !Accepts(h, users[j], wrong)
    ensures Authenticate(h, users, unknown, wrong) == Authenticate(h, users, known, wrong) == None
  {
  }

  /** `existsByPhoneNumber`. */
  predicate ExistsByPhoneNumber(users: seq<User>, phone: string) {
    UserIndexByPhone(users, phone).Some?
  }

  /** `existsByPhoneNumber(p)` holds exactly when some user has phone number `p`. */
  lemma ExistsByPhoneNumberIff(users: seq<User>, phone: string)
    ensures ExistsByPhoneNumber(users, phone) <==> exists j :: 0 <= j < |users| && users[j].phoneNumber == phone
  {
    if ExistsByPhoneNumber(users, phone) {
      assert users[UserIndexByPhone(users, phone).value].phoneNumber == phone;
    }
  }

  datatype UserError = PhoneNumberTaken

  const DefaultUserType: string := "customer"

  /** `createUser`: refuses a phone number already taken; otherwise appends a user with
      a fresh id, the encoded password, the given user type (default "customer"), no
      partner profile and every profile field empty. */
  function CreateUser(h: Hasher, users: seq<User>, phone: string, password: string, userType: Option<string>)
    : (r: Result<(seq<User>, User), UserError>)
    ensures r.Failure? <==> exists j :: 0 <= j < |users| && users[j].phoneNumber == phone
    ensures r.Success? ==>
      var (users', u) := r.value;
      && users' == users + [u]
      && !HasUser(users, u.id)
      && u.phoneNumber == phone
      && u.password == Some(h.encode(password))
      && u.userType == Some(userType.GetOr(DefaultUserType))
      && !u.hasPartnerProfile
      && u.fullName.None? && u.gender.None? && u.email.None? && u.birthday.None?
      && u.address.None? && u.avatarUrl.None?
  {
    if UserIndexByPhone(users, phone).Some? then
      assert users[UserIndexByPhone(users, phone).value].phoneNumber == phone;
      Failure(PhoneNumberTaken)
    else
      var u := User(Fresh(users, (x: User) => x.id), phone, Some(h.encode(password)),
                    None, None, None, None, None, None, false, Some(userType.GetOr(DefaultUserType)));
      Success((users + [u], u))
  }

  /** A user just created authenticates with the password they registered. */
  lemma CreatedUserAuthenticates(h: Hasher, users: seq<User>, phone: string, password: string, userType: Option<string>)
    requires SoundHasher(h)
    requires CreateUser(h, users, phone, password, userType).Success?
    ensures
      var (users', u) := CreateUser(h, users, phone, password, userType).value;
      Authenticate(h, users', phone, password) == Some(u)
  {
    var (users', u) := CreateUser(h, users, phone, password, userType).value;
    assert users'[|users|] == u;
    assert h.matches(password, h.encode(password));
    assert forall j :: 0 <= j < |users| ==> users'[j] == users[j];
  }

  /** Creating a user keeps ids, phone numbers and emails unique. */
  lemma CreateUserPreservesUniqueness(h: Hasher, users: seq<User>, phone: string, password: string, userType: Option<string>)
    requires UniqueIds(users) && UniquePhones(users) && UniqueEmails(users)
    requires CreateUser(h, users, phone, password, userType).Success?
    ensures
      var users' := CreateUser(h, users, phone, password, userType).value.0;
      UniqueIds(users') && UniquePhones(users') && UniqueEmails(users')
  {
  }

  /** The `partner_profile` part of the user view. */
  datatype PartnerProfileView = PartnerProfileView(profileStatus: string)

  /** `UserResponse`. */
  datatype UserResponse = UserResponse(
    id: Uuid,
    fullName: Option<string>,
    gender: Option<string>,
    email: Option<string>,
    birthday: Option<Date>,
    address: Option<string>,
    phone: string,
    avatarUrl: Option<string>,
    hasPartnerProfile: bool,
    partnerProfile: Option<PartnerProfileView>)

  /** The enum constant's name, `ProfileStatus.name()`. */
  function StatusConstant(s: ProfileStatus): string {
    match s
    case Pending => "PENDING"
    case Verified => "VERIFIED"
    case Rejected => "REJECTED"
  }

  function LowerAsciiString(s: string): (r: string)
    ensures |r| == |s|
    ensures forall k :: 0 <= k < |s| ==> r[k] == Text.LowerAscii(s[k])
  {
    if |s| == 0 then [] else [Text.LowerAscii(s[0])] + LowerAsciiString(s[1..])
  }

  /** The status as the view spells it. */
  function StatusName(s: ProfileStatus): (r: string)
    ensures r == LowerAsciiString(StatusConstant(s))
  {
    match s
    case Pending => "pending"
    case Verified => "verified"
    case Rejected => "rejected"
  }

  /** `mapToUserResponse`: the user's fields copied, and the partner profile's status
      only when the user's flag is set and a profile row exists. */
  function MapToUserResponse(user: User, partners: seq<PartnerProfile>): (r: UserResponse)
    ensures r.id == user.id && r.phone == user.phoneNumber
    ensures r.fullName == user.fullName && r.gender == user.gender && r.email == user.email
    ensures r.birthday == user.birthday && r.address == user.address && r.avatarUrl == user.avatarUrl
    ensures r.hasPartnerProfile == user.hasPartnerProfile
    ensures r.partnerProfile.Some? <==> user.hasPartnerProfile && HasProfile(partners, user.id)
    ensures r.partnerProfile.Some? ==>
      exists k :: 0 <= k < |partners| && partners[k].userId == user.id
        && r.partnerProfile.value.profileStatus == StatusName(partners[k].profileStatus)
  {
    var view :=
      if !user.hasPartnerProfile then None
      else match ProfileIndexOf(partners, user.id)
        case None => None
        case Some(k) => Some(PartnerProfileView(StatusName(partners[k].profileStatus)));
    UserResponse(user.id, user.fullName, user.gender, user.email, user.birthday, user.address,
                 user.phoneNumber, user.avatarUrl, user.hasPartnerProfile, view)
  }

  /** Distinct statuses have distinct names in the view. */
  lemma StatusNameInjective(a: ProfileStatus, b: ProfileStatus)
    requires a != b
    ensures StatusName(a) != StatusName(b)
  {
  }
}
