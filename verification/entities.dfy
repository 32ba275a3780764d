/** The persisted records (users, sessions, partner profiles) and the database that
    holds them, with the integrity constraints the operations keep. */
module Entities {
  import opened Wrappers
  import opened Ids
  import Seqs

  /** A `LocalDate`. */
  datatype Date = Date(year: int, month: int, day: int)

  /** A row of `users`. Every nullable column is an `Option`; `password` holds the
      password hash. */
  datatype User = User(
    id: Uuid,
    phoneNumber: string,
    password: Option<string>,
    fullName: Option<string>,
    gender: Option<string>,
    email: Option<string>,
    birthday: Option<Date>,
    address: Option<string>,
    avatarUrl: Option<string>,
    hasPartnerProfile: bool,
    userType: Option<string>)

  datatype ProfileStatus = Pending | Verified | Rejected

  /** A row of `partner_profiles`, keyed by its owner. The health-certificate URLs are
      the list the JSON column encodes. */
  datatype PartnerProfile = PartnerProfile(
    userId: Uuid,
    fullName: Option<string>,
    gender: Option<string>,
    birthday: Date,
    address: Option<string>,
    cccd: Option<string>,
    yearsOfExperience: Option<int>,
    cccdFrontImageUrl: Option<string>,
    cccdBackImageUrl: Option<string>,
    healthCertificatesUrls: Option<seq<string>>,
    profileStatus: ProfileStatus)

  /** A login session: the tokens last issued to one device and their expiry instants,
      in epoch seconds. */
  datatype Session = Session(
    sessionId: Uuid,
    owner: Uuid,
    deviceInfo: Option<string>,
    accessToken: string,
    refreshToken: string,
    accessTokenExpiresAt: int,
    refreshTokenExpiresAt: int,
    isActive: bool)

  datatype Db = Db(users: seq<User>, sessions: seq<Session>, partners: seq<PartnerProfile>)

  // Lookups. Each is a repository query; the invariants below keep the searched
  // column unique, so the first match is the only one.

  function UserIndexById(users: seq<User>, id: Uuid): (r: Option<nat>)
    ensures r.Some? ==> r.value < |users| && users[r.value].id == id
    ensures r.None? <==> forall j :: 0 <= j < |users| ==> users[j].id != id
  {
    Seqs.FindIndex(users, (u: User) => u.id == id)
  }

  /** `findByPhoneNumber`. */
  function UserIndexByPhone(users: seq<User>, phone: string): (r: Option<nat>)
    ensures r.Some? ==> r.value < |users| && users[r.value].phoneNumber == phone
    ensures r.Some? ==> forall j :: 0 <= j < r.value ==> users[j].phoneNumber != phone
    ensures r.None? <==> forall j :: 0 <= j < |users| ==> users[j].phoneNumber != phone
  {
    Seqs.FindIndex(users, (u: User) => u.phoneNumber == phone)
  }

  /** `findByEmail`. */
  function UserIndexByEmail(users: seq<User>, email: string): (r: Option<nat>)
    ensures r.Some? ==> r.value < |users| && users[r.value].email == Some(email)
    ensures r.None? <==> forall j :: 0 <= j < |users| ==> users[j].email != Some(email)
  {
    Seqs.FindIndex(users, (u: User) => u.email == Some(email))
  }

  /** `partnerProfileRepository.findByUser`. */
  function ProfileIndexOf(partners: seq<PartnerProfile>, userId: Uuid): (r: Option<nat>)
    ensures r.Some? ==> r.value < |partners| && partners[r.value].userId == userId
    ensures r.None? <==> forall j :: 0 <= j < |partners| ==> partners[j].userId != userId
  {
    Seqs.FindIndex(partners, (p: PartnerProfile) => p.userId == userId)
  }

  predicate HasUser(users: seq<User>, id: Uuid) {
    exists i :: 0 <= i < |users| && users[i].id == id
  }

  predicate HasProfile(partners: seq<PartnerProfile>, userId: Uuid) {
    exists i :: 0 <= i < |partners| && partners[i].userId == userId
  }

  /** `save(user)` for a user already stored: the row with the same id is replaced. */
  function SaveUser(users: seq<User>, u: User): (r: seq<User>)
    ensures |r| == |users|
    ensures forall k :: 0 <= k < |users| && users[k].id != u.id ==> r[k] == users[k]
    ensures forall k :: 0 <= k < |users| ==> r[k].id == users[k].id
    ensures HasUser(users, u.id) ==> u in r
  {
    match UserIndexById(users, u.id)
    case None => users
    case Some(i) => users[i := u]
  }

  // Integrity constraints.

  predicate UniqueIds(users: seq<User>) {
    forall i, j :: 0 <= i < j < |users| ==> users[i].id != users[j].id
  }

  /** The `UNIQUE` constraint on `phone_number`. */
  predicate UniquePhones(users: seq<User>) {
    forall i, j :: 0 <= i < j < |users| ==> users[i].phoneNumber != users[j].phoneNumber
  }

  /** No two users share a (non-null) email: the rule `updateProfile` enforces. */
  predicate UniqueEmails(users: seq<User>) {
    forall i, j :: 0 <= i < j < |users| && users[i].email.Some? ==> users[i].email != users[j].email
  }

  predicate UniqueSessionIds(sessions: seq<Session>) {
    forall i, j :: 0 <= i < j < |sessions| ==> sessions[i].sessionId != sessions[j].sessionId
  }

  /** The foreign key from `sessions` to `users`. */
  predicate SessionsOwned(db: Db) {
    forall k :: 0 <= k < |db.sessions| ==> HasUser(db.users, db.sessions[k].owner)
  }

  /** The foreign key from `partner_profiles` to `users`. */
  predicate ProfilesOwned(db: Db) {
    forall k :: 0 <= k < |db.partners| ==> HasUser(db.users, db.partners[k].userId)
  }

  /** The one-to-one relation between users and partner profiles. */
  predicate OneProfilePerUser(partners: seq<PartnerProfile>) {
    forall i, j :: 0 <= i < j < |partners| ==> partners[i].userId != partners[j].userId
  }

  /** A user's `hasPartnerProfile` flag says whether a partner profile row exists. */
  predicate FlagsConsistent(db: Db) {
    forall i :: 0 <= i < |db.users| ==> (db.users[i].hasPartnerProfile <==> HasProfile(db.partners, db.users[i].id))
  }

  predicate Wf(db: Db) {
    && UniqueIds(db.users)
    && UniquePhones(db.users)
    && UniqueEmails(db.users)
    && UniqueSessionIds(db.sessions)
    && SessionsOwned(db)
    && ProfilesOwned(db)
    && OneProfilePerUser(db.partners)
    && FlagsConsistent(db)
  }

  /** Under unique ids, the row found for an id is the only row with that id. */
  lemma UserIndexByIdUnique(users: seq<User>, id: Uuid, k: nat)
    requires UniqueIds(users)
    requires k < |users| && users[k].id == id
    ensures UserIndexById(users, id) == Some(k)
  {
  }

  /** With unique ids, saving a row rewrites the row holding its id and only it. */
  lemma SaveUserAt(users: seq<User>, k: nat, u: User)
    requires UniqueIds(users) && k < |users| && users[k].id == u.id
    ensures SaveUser(users, u) == users[k := u]
  {
    UserIndexByIdUnique(users, u.id, k);
  }

  /** Rows rewritten in place with their ids kept: the same ids are present. */
  lemma SameIdsSameUsers(users: seq<User>, users': seq<User>)
    requires |users'| == |users| && forall k :: 0 <= k < |users| ==> users'[k].id == users[k].id
    ensures forall x :: HasUser(users', x) <==> HasUser(users, x)
  {
    forall x ensures HasUser(users', x) <==> HasUser(users, x) {
      if HasUser(users', x) {
        var j :| 0 <= j < |users'| && users'[j].id == x;
        assert users[j].id == x;
      }
      if HasUser(users, x) {
        var j :| 0 <= j < |users| && users[j].id == x;
        assert users'[j].id == x;
      }
    }
  }

  /** Rewriting a row with its id and phone number kept, and an email no other row
      holds, keeps the user table's three unique columns unique. */
  lemma ReplaceKeepsUniqueness(users: seq<User>, i: nat, v: User)
    requires UniqueIds(users) && UniquePhones(users) && UniqueEmails(users) && i < |users|
    requires v.id == users[i].id && v.phoneNumber == users[i].phoneNumber
    requires v.email.Some? ==> forall j :: 0 <= j < |users| && users[j].id != v.id ==> users[j].email != v.email
    ensures var users' := users[i := v];
            UniqueIds(users') && UniquePhones(users') && UniqueEmails(users')
  {
    var users' := users[i := v];
    forall a, b | 0 <= a < b < |users'| && users'[a].email.Some? ensures users'[a].email != users'[b].email {
      if a == i {
        assert users[b].id != v.id;
      } else if b == i {
        assert users[a].id != v.id;
      }
    }
  }
}
