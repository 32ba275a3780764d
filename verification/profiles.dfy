/** The profile service: the signed-in user's own profile, password, partner profile
    and account deletion. Every operation acts on the principal the token filter
    attached to the request. */
module Profiles {
  import opened Wrappers
  import opened Ids
  import opened Entities
  import opened Users
  import opened Files
  import Seqs

  datatype ProfileError =
    | NotAuthenticated
    | EmailTaken
    | InvalidBirthday
    | WrongCurrentPassword
    | AlreadyPartner
    | ProfileNotFound
    | RegistrationFailed(cause: string)
    | UpdateFailed(cause: string)
      /** `updateAvatar`'s wrapper around the failure inside it, with the cause's
          message as string concatenation renders it. */
    | AvatarUpdateFailed(reason: string)
      /** `deleteFile(null)`: resolving a null path throws a null-pointer exception,
          whose text is the runtime's own. */
    | NullPointer

  const RegistrationFailedPrefix: string := "Failed to register partner profile: "
  const UpdateFailedPrefix: string := "Failed to update partner profile: "
  const AvatarFailedPrefix: string := "Failed to update avatar: "

  /** How a null-pointer exception's message appears after the avatar prefix. The
      runtime's own text is not known here; "null" is what concatenation gives when
      the exception carries none. */
  const NullPointerText: string := "null"

  /** The exception message each error carries; none only for an unwrapped
      null-pointer exception, whose text is the runtime's own. A wrapped avatar failure
      always has a message, starting with the avatar prefix. */
  function Message(e: ProfileError): (m: Option<string>)
    ensures m.None? <==> e.NullPointer?
    ensures e.AvatarUpdateFailed? ==> m == Some(AvatarFailedPrefix + e.reason)
  {
    match e
    case NotAuthenticated => Some("User not authenticated")
    case EmailTaken => Some("Email already exists")
    case InvalidBirthday => Some("Invalid birthday format. Expected: yyyy/MM/dd")
    case WrongCurrentPassword => Some("Current password is incorrect")
    case AlreadyPartner => Some("User already has a partner profile")
    case ProfileNotFound => Some("Partner profile not found")
    case RegistrationFailed(cause) => Some(RegistrationFailedPrefix + cause)
    case UpdateFailed(cause) => Some(UpdateFailedPrefix + cause)
    case AvatarUpdateFailed(reason) => Some(AvatarFailedPrefix + reason)
    case NullPointer => None
  }

  /** The two wrapped failures keep their cause: the message determines the error. */
  lemma WrappedCausesRecoverable(e1: ProfileError, e2: ProfileError)
    requires (e1.RegistrationFailed? || e1.UpdateFailed?) && (e2.RegistrationFailed? || e2.UpdateFailed?)
    ensures Message(e1) == Message(e2) ==> e1 == e2
  {
    if Message(e1) == Message(e2) {
      var m := Message(e1).value;
      if e1.RegistrationFailed? && e2.RegistrationFailed? {
        assert m == RegistrationFailedPrefix + e1.cause == RegistrationFailedPrefix + e2.cause;
        assert e1.cause == m[|RegistrationFailedPrefix|..] == e2.cause;
      } else if e1.UpdateFailed? && e2.UpdateFailed? {
        assert m == UpdateFailedPrefix + e1.cause == UpdateFailedPrefix + e2.cause;
        assert e1.cause == m[|UpdateFailedPrefix|..] == e2.cause;
      } else if e1.RegistrationFailed? {
        WrappedKindsDiffer(e1.cause, e2.cause);
      } else {
        WrappedKindsDiffer(e2.cause, e1.cause);
      }
    }
  }

  lemma WrappedKindsDiffer(c1: string, c2: string)
    ensures Message(RegistrationFailed(c1)) != Message(UpdateFailed(c2))
  {
    assert Message(RegistrationFailed(c1)).value[10] == 'r';
    assert Message(UpdateFailed(c2)).value[10] == 'u';
  }

  /** `LocalDate.parse(text, "yyyy/MM/dd")`: a date, or the parse exception's message. */
  type DateParser = string -> Result<Date, string>

  /** The message of the null-pointer exception the parser throws for a null text. */
  const NullTextMessage: string := "text"

  function ParseBirthday(parse: DateParser, text: Option<string>): Result<Date, string> {
    if text.None? then Failure(NullTextMessage) else parse(text.value)
  }

  /** A nullable request field: a given value replaces the stored one, null keeps it. */
  function Override<T>(current: Option<T>, given: Option<T>): (r: Option<T>)
    ensures given.Some? ==> r == given
    ensures given.None? ==> r == current
  {
    if given.Some? then given else current
  }

  /** `getCurrentUser`: the principal, or an error when the request carries none. */
  function GetCurrentUser(principal: Option<User>): (r: Result<User, ProfileError>)
    ensures r.Failure? <==> principal.None?
    ensures r.Failure? ==> r.error == NotAuthenticated
    ensures r.Success? ==> r.value == principal.value
  {
    if principal.Some? then Success(principal.value) else Failure(NotAuthenticated)
  }

  /** `getProfile`: the principal's view. */
  function GetProfile(db: Db, principal: Option<User>): (r: Result<UserResponse, ProfileError>)
    ensures r.Failure? <==> principal.None?
    ensures r.Success? ==> r.value.id == principal.value.id && r.value.phone == principal.value.phoneNumber
  {
    match GetCurrentUser(principal)
    case Failure(e) => Failure(e)
    case Success(u) => Success(MapToUserResponse(u, db.partners))
  }

  /** `UpdateProfileRequest`: every field nullable. */
  datatype ProfileUpdate = ProfileUpdate(
    fullName: Option<string>,
    email: Option<string>,
    gender: Option<string>,
    birthday: Option<string>,
    address: Option<string>)

  /** The email lookup finds a user other than `id`. */
  predicate EmailTakenByOther(users: seq<User>, email: Option<string>, id: Uuid) {
    email.Some? && UserIndexByEmail(users, email.value).Some? && users[UserIndexByEmail(users, email.value).value].id != id
  }

  /** `v` is `u` with the request applied: each given field replaces the stored one,
      and nothing else differs. */
  predicate ProfileApplied(u: User, v: User, req: ProfileUpdate, birthday: Option<Date>) {
    && v.id == u.id && v.phoneNumber == u.phoneNumber && v.password == u.password
    && v.fullName == Override(u.fullName, req.fullName)
    && v.email == Override(u.email, req.email)
    && v.gender == Override(u.gender, req.gender)
    && v.birthday == Override(u.birthday, birthday)
    && v.address == Override(u.address, req.address)
    && v.avatarUrl == u.avatarUrl && v.hasPartnerProfile == u.hasPartnerProfile && v.userType == u.userType
  }

  /** The row with the request applied. */
  function Applied(u: User, req: ProfileUpdate, birthday: Option<Date>): (v: User)
    ensures ProfileApplied(u, v, req, birthday)
  {
    u.(fullName := Override(u.fullName, req.fullName),
       email := Override(u.email, req.email),
       gender := Override(u.gender, req.gender),
       birthday := Override(u.birthday, birthday),
       address := Override(u.address, req.address))
  }

  /** Applying a request to the row it produced changes nothing. */
  lemma AppliedTwice(u: User, req: ProfileUpdate, birthday: Option<Date>)
    ensures Applied(Applied(u, req, birthday), req, birthday) == Applied(u, req, birthday)
  {
  }

  /** `users'` is `users` with the row of `v.id` replaced by `v`. */
  predicate RowReplaced(users: seq<User>, users': seq<User>, v: User) {
    && |users'| == |users|
    && (forall k :: 0 <= k < |users| && users[k].id != v.id ==> users'[k] == users[k])
    && (forall k :: 0 <= k < |users| ==> users'[k].id == users[k].id)
    && v in users'
  }

  /** `updateProfile`: the email, when given, must not belong to another user; the
      birthday, when given, must parse; then each given field replaces the stored one
      and the row is saved. The email check comes first. */
  function UpdateProfile(db: Db, principal: Option<User>, req: ProfileUpdate, parse: DateParser)
    : (r: Result<(Db, UserResponse), ProfileError>)
    requires principal.Some? ==> principal.value in db.users
    ensures principal.None? ==> r == Failure(NotAuthenticated)
    ensures principal.Some? ==>
      (r == Failure(EmailTaken) <==> EmailTakenByOther(db.users, req.email, principal.value.id))
    ensures principal.Some? ==>
      (r == Failure(InvalidBirthday) <==>
         !EmailTakenByOther(db.users, req.email, principal.value.id)
         && req.birthday.Some? && parse(req.birthday.value).Failure?)
    ensures r.Success? ==>
      var u := principal.value;
      var (db', resp) := r.value;
      var birthday := if req.birthday.Some? then Some(parse(req.birthday.value).value) else None;
      && db'.sessions == db.sessions && db'.partners == db.partners
      && exists v :: ProfileApplied(u, v, req, birthday) && RowReplaced(db.users, db'.users, v)
                     && resp == MapToUserResponse(v, db.partners)
  {
    match GetCurrentUser(principal)
    case Failure(e) => Failure(e)
    case Success(u) =>
      if EmailTakenByOther(db.users, req.email, u.id) then Failure(EmailTaken)
      else if req.birthday.Some? && parse(req.birthday.value).Failure? then Failure(InvalidBirthday)
      else
        var birthday := if req.birthday.Some? then Some(parse(req.birthday.value).value) else None;
        var v := Applied(u, req, birthday);
        assert HasUser(db.users, v.id) by {
          var k :| 0 <= k < |db.users| && db.users[k] == u;
        }
        var db' := db.(users := SaveUser(db.users, v));
        Success((db', MapToUserResponse(v, db.partners)))
  }

  /** With emails unique, the update is refused exactly when another user has the email. */
  lemma UpdateProfileEmailIff(db: Db, u: User, req: ProfileUpdate, parse: DateParser)
    requires UniqueEmails(db.users) && u in db.users
    ensures UpdateProfile(db, Some(u), req, parse) == Failure(EmailTaken)
            <==> req.email.Some? && exists j :: 0 <= j < |db.users| && db.users[j].email == req.email && db.users[j].id != u.id
  {
    if req.email.Some? && exists j :: 0 <= j < |db.users| && db.users[j].email == req.email && db.users[j].id != u.id {
      var j :| 0 <= j < |db.users| && db.users[j].email == req.email && db.users[j].id != u.id;
      var i := UserIndexByEmail(db.users, req.email.value).value;
      assert i == j;
    }
  }

  /** Saving a row that keeps its id, phone number and partner flag, and whose email is
      not used by any other row, keeps the store well formed. */
  lemma {:induction false} SaveUserPreservesWf(db: Db, u: User, v: User)
    requires Wf(db) && u in db.users
    requires v.id == u.id && v.phoneNumber == u.phoneNumber && v.hasPartnerProfile == u.hasPartnerProfile
    requires v.email.Some? ==> forall j :: 0 <= j < |db.users| && db.users[j].id != u.id ==> db.users[j].email != v.email
    ensures Wf(db.(users := SaveUser(db.users, v)))
  {
    var users' := SaveUser(db.users, v);
    var i :| 0 <= i < |db.users| && db.users[i] == u;
    SaveUserAt(db.users, i, v);
    ReplaceKeepsUniqueness(db.users, i, v);
    var db' := db.(users := users');
    forall k | 0 <= k < |db.sessions| ensures HasUser(users', db.sessions[k].owner) {
      var j :| 0 <= j < |db.users| && db.users[j].id == db.sessions[k].owner;
      assert users'[j].id == db.users[j].id;
    }
    forall k | 0 <= k < |db.partners| ensures HasUser(users', db.partners[k].userId) {
      var j :| 0 <= j < |db.users| && db.users[j].id == db.partners[k].userId;
      assert users'[j].id == db.users[j].id;
    }
    forall k | 0 <= k < |users'|
      ensures users'[k].hasPartnerProfile <==> HasProfile(db.partners, users'[k].id)
    {
      if k == i {
        assert users'[k].id == db.users[k].id && users'[k].hasPartnerProfile == db.users[k].hasPartnerProfile;
      }
    }
  }

  /** An update keeps the store well formed; in particular no two users end up with the
      same email. */
  lemma UpdateProfilePreservesWf(db: Db, u: User, req: ProfileUpdate, parse: DateParser)
    requires Wf(db) && u in db.users
    requires UpdateProfile(db, Some(u), req, parse).Success?
    ensures Wf(UpdateProfile(db, Some(u), req, parse).value.0)
  {
    var birthday := if req.birthday.Some? then Some(parse(req.birthday.value).value) else None;
    var v := Applied(u, req, birthday);
    UpdatedEmailFree(db, u, req.email);
    SaveUserPreservesWf(db, u, v);
  }

  /** An email the update may set is held by no other row: either the request's, which
      passed the check, or the row's own, which was unique already. */
  lemma UpdatedEmailFree(db: Db, u: User, email: Option<string>)
    requires Wf(db) && u in db.users && !EmailTakenByOther(db.users, email, u.id)
    ensures Override(u.email, email).Some? ==>
              forall j :: 0 <= j < |db.users| && db.users[j].id != u.id ==> db.users[j].email != Override(u.email, email)
  {
    var e := Override(u.email, email);
    if e.Some? {
      forall j | 0 <= j < |db.users| && db.users[j].id != u.id ensures db.users[j].email != e {
        if email.None? {
          var i :| 0 <= i < |db.users| && db.users[i] == u;
          assert i != j;
        }
      }
    }
  }

  /** With emails unique, the email a row already holds is not held by another. */
  lemma OwnEmailNotTaken(users: seq<User>, i: nat, email: Option<string>)
    requires UniqueEmails(users) && i < |users|
    requires email.Some? ==> users[i].email == email
    ensures !EmailTakenByOther(users, email, users[i].id)
  {
    if email.Some? {
      var m := UserIndexByEmail(users, email.value).value;
      assert m == i;
    }
  }

  /** Sending the same update again, as the updated user, changes nothing further. */
  lemma UpdateProfileIdempotent(db: Db, u: User, req: ProfileUpdate, parse: DateParser)
    requires Wf(db) && u in db.users
    requires UpdateProfile(db, Some(u), req, parse).Success?
    ensures var (db', resp) := UpdateProfile(db, Some(u), req, parse).value;
            exists v :: v in db'.users && v.id == u.id
                        && UpdateProfile(db', Some(v), req, parse) == Success((db', resp))
  {
    var (db', resp) := UpdateProfile(db, Some(u), req, parse).value;
    var birthday := if req.birthday.Some? then Some(parse(req.birthday.value).value) else None;
    var v := Applied(u, req, birthday);
    UpdateProfileSaves(db, u, req, parse);
    UpdateProfilePreservesWf(db, u, req, parse);
    var i :| 0 <= i < |db.users| && db.users[i] == u;
    SaveUserAt(db.users, i, v);
    assert db'.users[i] == v;
    AppliedTwice(u, req, birthday);
    ReapplyChangesNothing(db', i, req, parse);
  }

  /** A request whose fields the row already holds saves the row as it is. */
  lemma ReapplyChangesNothing(db: Db, i: nat, req: ProfileUpdate, parse: DateParser)
    requires Wf(db) && i < |db.users|
    requires req.birthday.Some? ==> parse(req.birthday.value).Success?
    requires var birthday := if req.birthday.Some? then Some(parse(req.birthday.value).value) else None;
             Applied(db.users[i], req, birthday) == db.users[i]
    ensures UpdateProfile(db, Some(db.users[i]), req, parse) == Success((db, MapToUserResponse(db.users[i], db.partners)))
  {
    var v := db.users[i];
    OwnEmailNotTaken(db.users, i, req.email);
    UpdateProfileSaves(db, v, req, parse);
    SaveUserAt(db.users, i, v);
    assert db.users[i := v] == db.users;
  }

  /** An update that passes both checks saves the row with the request applied. */
  lemma UpdateProfileSaves(db: Db, u: User, req: ProfileUpdate, parse: DateParser)
    requires u in db.users && !EmailTakenByOther(db.users, req.email, u.id)
    requires req.birthday.Some? ==> parse(req.birthday.value).Success?
    ensures var birthday := if req.birthday.Some? then Some(parse(req.birthday.value).value) else None;
            var v := Applied(u, req, birthday);
            UpdateProfile(db, Some(u), req, parse)
              == Success((db.(users := SaveUser(db.users, v)), MapToUserResponse(v, db.partners)))
  {
  }

  /** An update with every field null saves the row unchanged. */
  lemma EmptyUpdateChangesNothing(db: Db, u: User, parse: DateParser)
    requires UniqueIds(db.users) && u in db.users
    ensures UpdateProfile(db, Some(u), ProfileUpdate(None, None, None, None, None), parse)
            == Success((db, MapToUserResponse(u, db.partners)))
  {
    var i :| 0 <= i < |db.users| && db.users[i] == u;
    UserIndexByIdUnique(db.users, u.id, i);
    assert db.users[i := u] == db.users;
  }

  /** `changePassword`: the current password must be accepted against the stored hash;
      then the new one is encoded and saved. Sessions are left as they are. */
  function ChangePassword(db: Db, principal: Option<User>, h: Hasher, current: string, replacement: string)
    : (r: Result<Db, ProfileError>)
    requires principal.Some? ==> principal.value in db.users
    ensures principal.None? ==> r == Failure(NotAuthenticated)
    ensures principal.Some? ==> (r == Failure(WrongCurrentPassword) <==> !Accepts(h, principal.value, current))
    ensures r.Success? ==>
      && r.value.sessions == db.sessions && r.value.partners == db.partners
      && RowReplaced(db.users, r.value.users, principal.value.(password := Some(h.encode(replacement))))
  {
    match GetCurrentUser(principal)
    case Failure(e) => Failure(e)
    case Success(u) =>
      if !Accepts(h, u, current) then Failure(WrongCurrentPassword)
      else
        var v := u.(password := Some(h.encode(replacement)));
        assert HasUser(db.users, v.id) by {
          var k :| 0 <= k < |db.users| && db.users[k] == u;
        }
        Success(db.(users := SaveUser(db.users, v)))
  }

  /** After a password change the new password signs the user in, and the store stays
      well formed. */
  lemma ChangePasswordThenLogin(db: Db, u: User, h: Hasher, current: string, replacement: string)
    requires SoundHasher(h) && Wf(db) && u in db.users
    requires ChangePassword(db, Some(u), h, current, replacement).Success?
    ensures var db' := ChangePassword(db, Some(u), h, current, replacement).value;
            && Wf(db')
            && Authenticate(h, db'.users, u.phoneNumber, replacement) == Some(u.(password := Some(h.encode(replacement))))
  {
    var v := u.(password := Some(h.encode(replacement)));
    var db' := ChangePassword(db, Some(u), h, current, replacement).value;
    if u.email.Some? {
      var i :| 0 <= i < |db.users| && db.users[i] == u;
      forall j | 0 <= j < |db.users| && db.users[j].id != u.id ensures db.users[j].email != v.email {
      }
    }
    SaveUserPreservesWf(db, u, v);
    assert h.matches(replacement, h.encode(replacement)) && h.encode(replacement) != "";
    AuthenticateIff(h, db'.users, u.phoneNumber, replacement, v);
  }

  // Avatars.

  const AvatarDirectory: string := "avatars"

  /** `updateAvatar`: inside the wrapping handler, the file behind the old avatar URL is
      deleted when there is a URL, the upload is stored under "avatars", and the row is
      saved with the new file's URL. A present but empty URL names a null path, whose
      deletion throws. Every failure inside the handler is wrapped; a file already
      deleted stays deleted, while the row is left untouched. */
  function UpdateAvatar(db: Db, files: set<string>, principal: Option<User>, image: Option<Upload>, uuid: string)
    : (r: Effect<(Db, UserResponse), ProfileError>)
    requires principal.Some? ==> principal.value in db.users
    ensures principal.None? ==> r == Effect(files, Failure(NotAuthenticated))
    ensures principal.Some? && principal.value.avatarUrl == Some("") ==>
      r == Effect(files, Failure(AvatarUpdateFailed(NullPointerText)))
    ensures principal.Some? && principal.value.avatarUrl != Some("") && !IsPresent(image) ==>
      r == Effect(DeleteByUrl(files, principal.value.avatarUrl), Failure(AvatarUpdateFailed(FileEmptyMessage)))
    ensures r.result.Success? <==> principal.Some? && principal.value.avatarUrl != Some("") && IsPresent(image)
    ensures r.result.Success? ==>
      var u := principal.value;
      var path := StoredPath(AvatarDirectory, uuid, image.value.originalName);
      var v := u.(avatarUrl := GetFileUrl(Some(path)));
      var (db', resp) := r.result.value;
      && r.files == DeleteByUrl(files, u.avatarUrl) + {path}
      && db'.sessions == db.sessions && db'.partners == db.partners
      && RowReplaced(db.users, db'.users, v)
      && resp == MapToUserResponse(v, db.partners)
  {
    match GetCurrentUser(principal)
    case Failure(e) => Effect(files, Failure(e))
    case Success(u) =>
      var cleared := if u.avatarUrl.None? then Success((files, false)) else DeleteFile(files, ExtractPathFromUrl(u.avatarUrl));
      if cleared.Failure? then Effect(files, Failure(AvatarUpdateFailed(NullPointerText)))
      else
        match StoreFile(cleared.value.0, image, AvatarDirectory, uuid)
        case Failure(_) => Effect(cleared.value.0, Failure(AvatarUpdateFailed(FileEmptyMessage)))
        case Success((files', path)) =>
          var v := u.(avatarUrl := GetFileUrl(Some(path)));
          assert HasUser(db.users, v.id) by {
            var k :| 0 <= k < |db.users| && db.users[k] == u;
          }
          Effect(files', Success((db.(users := SaveUser(db.users, v)), MapToUserResponse(v, db.partners))))
  }

  /** `deleteAvatar`: when the row has an avatar URL, the file behind it is deleted and
      the row is saved without a URL; without one nothing happens. A present but empty
      URL names a null path, whose deletion throws before anything changes. */
  function DeleteAvatar(db: Db, files: set<string>, principal: Option<User>): (r: Effect<Db, ProfileError>)
    requires principal.Some? ==> principal.value in db.users
    ensures principal.None? ==> r == Effect(files, Failure(NotAuthenticated))
    ensures principal.Some? && principal.value.avatarUrl == Some("") ==> r == Effect(files, Failure(NullPointer))
    ensures principal.Some? && principal.value.avatarUrl.None? ==> r == Effect(files, Success(db))
    ensures r.result.Success? <==> principal.Some? && principal.value.avatarUrl != Some("")
    ensures r.result.Success? && principal.value.avatarUrl.Some? ==>
      var u := principal.value;
      && r.files == files - {ExtractPathFromUrl(u.avatarUrl).value}
      && r.result.value.sessions == db.sessions && r.result.value.partners == db.partners
      && RowReplaced(db.users, r.result.value.users, u.(avatarUrl := None))
  {
    match GetCurrentUser(principal)
    case Failure(e) => Effect(files, Failure(e))
    case Success(u) =>
      if u.avatarUrl.None? then Effect(files, Success(db))
      else
        match DeleteFile(files, ExtractPathFromUrl(u.avatarUrl))
        case Failure(_) => Effect(files, Failure(NullPointer))
        case Success((files', _)) =>
          var v := u.(avatarUrl := None);
          assert HasUser(db.users, v.id) by {
            var k :| 0 <= k < |db.users| && db.users[k] == u;
          }
          Effect(files', Success(db.(users := SaveUser(db.users, v))))
  }

  /** A new avatar keeps the store well formed, and the saved row's URL, which the
      answer shows, names the stored file. */
  lemma UpdateAvatarPreservesWf(db: Db, files: set<string>, u: User, image: Option<Upload>, uuid: string)
    requires Wf(db) && u in db.users
    requires UpdateAvatar(db, files, Some(u), image, uuid).result.Success?
    ensures var r := UpdateAvatar(db, files, Some(u), image, uuid);
            var v := u.(avatarUrl := GetFileUrl(Some(StoredPath(AvatarDirectory, uuid, image.value.originalName))));
            && Wf(r.result.value.0)
            && v in r.result.value.0.users
            && r.result.value.1.avatarUrl == v.avatarUrl
            && Served(v.avatarUrl, r.files)
  {
    var path := StoredPath(AvatarDirectory, uuid, image.value.originalName);
    var v := u.(avatarUrl := GetFileUrl(Some(path)));
    UpdatedEmailFree(db, u, None);
    SaveUserPreservesWf(db, u, v);
    StoredPathNonEmpty(AvatarDirectory, uuid, image.value.originalName);
    PathUrlRoundTrip(path);
  }

  /** Removing the avatar keeps the store well formed, and the file its URL named is
      gone. */
  lemma DeleteAvatarPreservesWf(db: Db, files: set<string>, u: User)
    requires Wf(db) && u in db.users
    requires DeleteAvatar(db, files, Some(u)).result.Success?
    ensures var r := DeleteAvatar(db, files, Some(u));
            && Wf(r.result.value)
            && HasUser(r.result.value.users, u.id)
            && (ExtractPathFromUrl(u.avatarUrl).Some? ==> ExtractPathFromUrl(u.avatarUrl).value !in r.files)
  {
    if u.avatarUrl.Some? {
      var v := u.(avatarUrl := None);
      UpdatedEmailFree(db, u, None);
      SaveUserPreservesWf(db, u, v);
      var users' := DeleteAvatar(db, files, Some(u)).result.value.users;
      var k :| 0 <= k < |users'| && users'[k] == v;
    } else {
      var k :| 0 <= k < |db.users| && db.users[k] == u;
    }
  }

  /** Removing the avatar of the row the removal saved changes nothing. */
  lemma DeleteAvatarTwice(db: Db, files: set<string>, u: User)
    requires u in db.users && u.avatarUrl != Some("")
    ensures var r := DeleteAvatar(db, files, Some(u));
            var v := u.(avatarUrl := None);
            && v in r.result.value.users
            && DeleteAvatar(r.result.value, r.files, Some(v)) == r
  {
    if u.avatarUrl.None? {
      assert u.(avatarUrl := None) == u;
    }
  }

  /** Removing an avatar right after setting it leaves the store as removing the old
      avatar would have, except that the new file is deleted too. */
  lemma UpdateThenDeleteAvatar(db: Db, files: set<string>, u: User, image: Option<Upload>, uuid: string)
    requires Wf(db) && u in db.users
    requires UpdateAvatar(db, files, Some(u), image, uuid).result.Success?
    ensures var r := UpdateAvatar(db, files, Some(u), image, uuid);
            var path := StoredPath(AvatarDirectory, uuid, image.value.originalName);
            var v := u.(avatarUrl := GetFileUrl(Some(path)));
            var d := DeleteAvatar(db, files, Some(u));
            && v in r.result.value.0.users
            && DeleteAvatar(r.result.value.0, r.files, Some(v)) == Effect(DeleteByUrl(files, u.avatarUrl) - {path}, d.result)
  {
    var i :| 0 <= i < |db.users| && db.users[i] == u;
    UpdateAvatarAt(db, files, i, image, uuid);
    DeleteAfterUpdateAt(db, files, i, StoredPath(AvatarDirectory, uuid, image.value.originalName));
  }

  /** Removing the avatar of the row at `i` once `path` has been stored as its avatar. */
  lemma DeleteAfterUpdateAt(db: Db, files: set<string>, i: nat, path: string)
    requires Wf(db) && i < |db.users| && db.users[i].avatarUrl != Some("") && path != ""
    ensures var v := db.users[i].(avatarUrl := GetFileUrl(Some(path)));
            db.users[i := v][i] == v
    ensures var u := db.users[i];
            var v := u.(avatarUrl := GetFileUrl(Some(path)));
            DeleteAvatar(db.(users := db.users[i := v]), DeleteByUrl(files, u.avatarUrl) + {path}, Some(v))
              == Effect(DeleteByUrl(files, u.avatarUrl) - {path}, DeleteAvatar(db, files, Some(u)).result)
  {
    var u := db.users[i];
    var v := u.(avatarUrl := GetFileUrl(Some(path)));
    var w := u.(avatarUrl := None);
    UpdatedEmailFree(db, u, None);
    ReplaceKeepsUniqueness(db.users, i, v);
    PathUrlRoundTrip(path);
    DeleteAvatarAt(db.(users := db.users[i := v]), DeleteByUrl(files, u.avatarUrl) + {path}, i);
    Seqs.UpdateTwice(db.users, i, v, w);
    if u.avatarUrl.Some? {
      DeleteAvatarAt(db, files, i);
    } else {
      assert w == db.users[i];
      Seqs.UpdateSame(db.users, i);
    }
  }

  /** A successful `updateAvatar` of the row at `i`, spelled out. */
  lemma UpdateAvatarAt(db: Db, files: set<string>, i: nat, image: Option<Upload>, uuid: string)
    requires UniqueIds(db.users) && i < |db.users|
    requires db.users[i].avatarUrl != Some("") && IsPresent(image)
    ensures var u := db.users[i];
            var path := StoredPath(AvatarDirectory, uuid, image.value.originalName);
            var v := u.(avatarUrl := GetFileUrl(Some(path)));
            UpdateAvatar(db, files, Some(u), image, uuid)
              == Effect(DeleteByUrl(files, u.avatarUrl) + {path},
                        Success((db.(users := db.users[i := v]), MapToUserResponse(v, db.partners))))
  {
    var u := db.users[i];
    SaveUserAt(db.users, i, u.(avatarUrl := GetFileUrl(Some(StoredPath(AvatarDirectory, uuid, image.value.originalName)))));
  }

  /** A successful `deleteAvatar` of the row at `i`, which has an avatar, spelled out. */
  lemma DeleteAvatarAt(db: Db, files: set<string>, i: nat)
    requires UniqueIds(db.users) && i < |db.users|
    requires db.users[i].avatarUrl.Some? && db.users[i].avatarUrl != Some("")
    ensures var u := db.users[i];
            DeleteAvatar(db, files, Some(u))
              == Effect(files - {ExtractPathFromUrl(u.avatarUrl).value},
                        Success(db.(users := db.users[i := u.(avatarUrl := None)])))
  {
    SaveUserAt(db.users, i, db.users[i].(avatarUrl := None));
  }

  // Partner profiles.

  const DocumentsDirectory: string := "documents/cccd"
  const HealthDirectory: string := "documents/health"

  /** The multipart form of the partner endpoints: every field nullable. */
  datatype PartnerForm = PartnerForm(
    fullName: Option<string>,
    gender: Option<string>,
    birthday: Option<string>,
    address: Option<string>,
    cccd: Option<string>,
    yearsOfExperience: Option<int>,
    cccdFrontImage: Option<Upload>,
    cccdBackImage: Option<Upload>,
    healthCertificates: Option<seq<Option<Upload>>>)

  /** Each URL's file removed in turn: a stored file survives exactly when no URL names it. */
  function DeleteUrls(files: set<string>, urls: seq<string>): (r: set<string>)
    ensures r <= files
    ensures forall p :: p in files ==>
      (p in r <==> forall k :: 0 <= k < |urls| ==> ExtractPathFromUrl(Some(urls[k])) != Some(p))
    decreases |urls|
  {
    if |urls| == 0 then files
    else
      var rest := DeleteUrls(DeleteByUrl(files, Some(urls[0])), urls[1..]);
      assert forall k :: 1 <= k < |urls| ==> urls[k] == urls[1..][k - 1];
      assert forall p :: p in files ==>
        ((forall k :: 0 <= k < |urls| ==> ExtractPathFromUrl(Some(urls[k])) != Some(p)) <==>
         ExtractPathFromUrl(Some(urls[0])) != Some(p) &&
         (forall k :: 0 <= k < |urls[1..]| ==> ExtractPathFromUrl(Some(urls[1..][k])) != Some(p))) by {
        forall p | p in files
          ensures (forall k :: 0 <= k < |urls| ==> ExtractPathFromUrl(Some(urls[k])) != Some(p)) <==>
                  ExtractPathFromUrl(Some(urls[0])) != Some(p) &&
                  (forall k :: 0 <= k < |urls[1..]| ==> ExtractPathFromUrl(Some(urls[1..][k])) != Some(p))
        {
          if forall k :: 0 <= k < |urls[1..]| ==> ExtractPathFromUrl(Some(urls[1..][k])) != Some(p) {
            forall k | 1 <= k < |urls| ensures ExtractPathFromUrl(Some(urls[k])) != Some(p) {
              assert urls[k] == urls[1..][k - 1];
            }
          }
        }
      }
      rest
  }

  /** A partner image replaced: the file behind the old URL is deleted, the upload is
      stored, and its URL returned. */
  function ReplaceImage(files: set<string>, oldUrl: Option<string>, upload: Option<Upload>, uuid: string)
    : (r: (set<string>, Option<string>))
    requires IsPresent(upload)
    ensures var path := StoredPath(DocumentsDirectory, uuid, upload.value.originalName);
            && r.0 == DeleteByUrl(files, oldUrl) + {path}
            && r.1.Some? && ExtractPathFromUrl(r.1) == Some(path)
  {
    var (files', path) := StoreFile(DeleteByUrl(files, oldUrl), upload, DocumentsDirectory, uuid).value;
    StoredPathNonEmpty(DocumentsDirectory, uuid, upload.value.originalName);
    PathUrlRoundTrip(path);
    (files', GetFileUrl(Some(path)))
  }

  /** After a replacement the new image is stored, and the old one is gone unless the
      new file took the very same path. */
  lemma ReplacedImageRemoved(files: set<string>, oldUrl: Option<string>, upload: Option<Upload>, uuid: string)
    requires IsPresent(upload)
    requires ExtractPathFromUrl(oldUrl).Some?
    ensures var (files', url) := ReplaceImage(files, oldUrl, upload, uuid);
            var previous := ExtractPathFromUrl(oldUrl).value;
            && ExtractPathFromUrl(url).value in files'
            && (previous in files' <==> previous == ExtractPathFromUrl(url).value)
  {
  }

  /** The profile a registration builds: the form's fields as given, the stored images'
      URLs, the certificate URLs, and state PENDING. */
  function NewPartnerProfile(u: User, form: PartnerForm, birthday: Date, front: string, back: string,
                             health: seq<string>): (p: PartnerProfile)
    ensures p.userId == u.id && p.profileStatus == Pending && p.birthday == birthday
    ensures p.fullName == form.fullName && p.gender == form.gender && p.address == form.address
    ensures p.cccd == form.cccd && p.yearsOfExperience == form.yearsOfExperience
    ensures p.cccdFrontImageUrl == GetFileUrl(Some(front)) && p.cccdBackImageUrl == GetFileUrl(Some(back))
    ensures p.healthCertificatesUrls == Some(health)
  {
    PartnerProfile(u.id, form.fullName, form.gender, birthday, form.address, form.cccd,
                   form.yearsOfExperience, GetFileUrl(Some(front)), GetFileUrl(Some(back)), Some(health), Pending)
  }

  /** The two saves of a registration: the profile row appended and the user's flag set. */
  function AddPartner(db: Db, u: User, profile: PartnerProfile): (db': Db)
    requires u in db.users
    ensures db'.sessions == db.sessions && db'.partners == db.partners + [profile]
    ensures RowReplaced(db.users, db'.users, u.(hasPartnerProfile := true))
  {
    var v := u.(hasPartnerProfile := true);
    assert HasUser(db.users, v.id) by {
      var k :| 0 <= k < |db.users| && db.users[k] == u;
    }
    db.(users := SaveUser(db.users, v), partners := db.partners + [profile])
  }

  /** Adding the profile of a user who had none keeps the store well formed, and the
      user's view then shows that profile's state. */
  lemma AddPartnerPreservesWf(db: Db, u: User, profile: PartnerProfile)
    requires Wf(db) && u in db.users && !u.hasPartnerProfile && profile.userId == u.id
    ensures Wf(AddPartner(db, u, profile))
    ensures MapToUserResponse(u.(hasPartnerProfile := true), AddPartner(db, u, profile).partners).partnerProfile
            == Some(PartnerProfileView(StatusName(profile.profileStatus)))
  {
    var db' := AddPartner(db, u, profile);
    var v := u.(hasPartnerProfile := true);
    var i :| 0 <= i < |db.users| && db.users[i] == u;
    UserIndexByIdUnique(db.users, u.id, i);
    assert db'.users == db.users[i := v];
    assert !HasProfile(db.partners, u.id);
    ReplaceKeepsUniqueness(db.users, i, v);
    SameIdsSameUsers(db.users, db'.users);
    AddPartnerKeepsFlags(db, i, v, profile);
    AddPartnerKeepsLinks(db, db'.users, profile);
    AppendedProfileFound(db.partners, profile);
  }

  /** The foreign keys and the one-to-one relation survive the appended profile of a
      user who had none, over a user table with the same ids. */
  lemma AddPartnerKeepsLinks(db: Db, users': seq<User>, profile: PartnerProfile)
    requires SessionsOwned(db) && ProfilesOwned(db) && OneProfilePerUser(db.partners)
    requires HasUser(db.users, profile.userId) && !HasProfile(db.partners, profile.userId)
    requires forall x :: HasUser(users', x) <==> HasUser(db.users, x)
    ensures var db' := Db(users', db.sessions, db.partners + [profile]);
            SessionsOwned(db') && ProfilesOwned(db') && OneProfilePerUser(db'.partners)
  {
    var partners' := db.partners + [profile];
    forall k | 0 <= k < |partners'| ensures HasUser(users', partners'[k].userId) {
      if k < |db.partners| {
        assert partners'[k] == db.partners[k];
      }
    }
    forall i, j | 0 <= i < j < |partners'| ensures partners'[i].userId != partners'[j].userId {
      assert partners'[i] == db.partners[i];
      if j < |db.partners| {
        assert partners'[j] == db.partners[j];
      }
    }
  }

  /** The profile appended for a user without one is the one found for them. */
  lemma AppendedProfileFound(partners: seq<PartnerProfile>, profile: PartnerProfile)
    requires !HasProfile(partners, profile.userId)
    ensures ProfileIndexOf(partners + [profile], profile.userId) == Some(|partners|)
  {
    var partners' := partners + [profile];
    assert partners'[|partners|].userId == profile.userId;
  }

  lemma AddPartnerKeepsFlags(db: Db, i: nat, v: User, profile: PartnerProfile)
    requires FlagsConsistent(db) && UniqueIds(db.users)
    requires i < |db.users| && v == db.users[i].(hasPartnerProfile := true) && profile.userId == v.id
    ensures FlagsConsistent(Db(db.users[i := v], db.sessions, db.partners + [profile]))
  {
    var users' := db.users[i := v];
    var partners' := db.partners + [profile];
    forall k | 0 <= k < |users'|
      ensures users'[k].hasPartnerProfile <==> HasProfile(partners', users'[k].id)
    {
      if k == i {
        assert partners'[|db.partners|].userId == users'[k].id;
      } else {
        var w := db.users[k];
        assert users'[k] == w && w.id != v.id;
        if HasProfile(partners', w.id) {
          var j :| 0 <= j < |partners'| && partners'[j].userId == w.id;
          assert j < |db.partners| && db.partners[j].userId == w.id;
        }
        if HasProfile(db.partners, w.id) {
          var j :| 0 <= j < |db.partners| && db.partners[j].userId == w.id;
          assert partners'[j].userId == w.id;
        }
      }
    }
  }

  /** `registerAsPartner`: refused when the user already has a partner profile; then,
      inside the wrapping handler, the birthday is parsed, the front and back identity
      images are stored, and the health certificates are stored. A profile in state
      PENDING is saved and the user's flag is set. Files already written stay on disk
      when a later step fails, while the database is left untouched. */
  function RegisterAsPartner(db: Db, files: set<string>, principal: Option<User>, form: PartnerForm,
                             parse: DateParser, uuids: UuidSupply)
    : (r: Effect<(Db, UserResponse), ProfileError>)
    requires principal.Some? ==> principal.value in db.users
    ensures principal.None? ==> r == Effect(files, Failure(NotAuthenticated))
    ensures principal.Some? && principal.value.hasPartnerProfile ==> r == Effect(files, Failure(AlreadyPartner))
    ensures principal.Some? && !principal.value.hasPartnerProfile && ParseBirthday(parse, form.birthday).Failure? ==>
      r == Effect(files, Failure(RegistrationFailed(ParseBirthday(parse, form.birthday).error)))
    ensures principal.Some? && !principal.value.hasPartnerProfile && ParseBirthday(parse, form.birthday).Success? ==>
      && (!IsPresent(form.cccdFrontImage) ==> r == Effect(files, Failure(RegistrationFailed(FileEmptyMessage))))
      && (IsPresent(form.cccdFrontImage) && !IsPresent(form.cccdBackImage) ==>
            r == Effect(files + {StoredPath(DocumentsDirectory, uuids(0), form.cccdFrontImage.value.originalName)},
                        Failure(RegistrationFailed(FileEmptyMessage))))
    ensures r.result.Success? <==>
      principal.Some? && !principal.value.hasPartnerProfile && ParseBirthday(parse, form.birthday).Success?
      && IsPresent(form.cccdFrontImage) && IsPresent(form.cccdBackImage)
    ensures r.result.Success? ==>
      var u := principal.value;
      var front := StoredPath(DocumentsDirectory, uuids(0), form.cccdFrontImage.value.originalName);
      var back := StoredPath(DocumentsDirectory, uuids(1), form.cccdBackImage.value.originalName);
      var (files', health) := StoreMultipleFiles(files + {front, back}, form.healthCertificates, HealthDirectory, uuids, 2);
      var profile := NewPartnerProfile(u, form, ParseBirthday(parse, form.birthday).value, front, back, health);
      && r.files == files'
      && r.result.value.0 == AddPartner(db, u, profile)
      && r.result.value.1 == MapToUserResponse(u.(hasPartnerProfile := true), r.result.value.0.partners)
  {
    match GetCurrentUser(principal)
    case Failure(e) => Effect(files, Failure(e))
    case Success(u) =>
      if u.hasPartnerProfile then Effect(files, Failure(AlreadyPartner))
      else
        match ParseBirthday(parse, form.birthday)
        case Failure(cause) => Effect(files, Failure(RegistrationFailed(cause)))
        case Success(birthday) =>
          match StoreFile(files, form.cccdFrontImage, DocumentsDirectory, uuids(0))
          case Failure(_) => Effect(files, Failure(RegistrationFailed(FileEmptyMessage)))
          case Success((files1, front)) =>
            match StoreFile(files1, form.cccdBackImage, DocumentsDirectory, uuids(1))
            case Failure(_) => Effect(files1, Failure(RegistrationFailed(FileEmptyMessage)))
            case Success((files2, back)) =>
              var (files3, health) := StoreMultipleFiles(files2, form.healthCertificates, HealthDirectory, uuids, 2);
              var db' := AddPartner(db, u, NewPartnerProfile(u, form, birthday, front, back, health));
              assert files2 == files + {front, back};
              Effect(files3, Success((db', MapToUserResponse(u.(hasPartnerProfile := true), db'.partners))))
  }

  /** What a registration by `u` needs to succeed: no partner profile yet, a birthday
      that parses, and both identity images present. */
  predicate RegistrationAccepted(u: User, form: PartnerForm, parse: DateParser) {
    && !u.hasPartnerProfile && ParseBirthday(parse, form.birthday).Success?
    && IsPresent(form.cccdFrontImage) && IsPresent(form.cccdBackImage)
  }

  /** A registration keeps the store well formed and answers with the new profile in
      state "pending". */
  lemma RegisterAsPartnerPreservesWf(db: Db, files: set<string>, u: User, form: PartnerForm,
                                     parse: DateParser, uuids: UuidSupply)
    requires Wf(db) && u in db.users
    requires RegistrationAccepted(u, form, parse)
    ensures var (db', resp) := RegisterAsPartner(db, files, Some(u), form, parse, uuids).result.value;
            && Wf(db')
            && resp.hasPartnerProfile && resp.partnerProfile == Some(PartnerProfileView("pending"))
  {
    var front := StoredPath(DocumentsDirectory, uuids(0), form.cccdFrontImage.value.originalName);
    var back := StoredPath(DocumentsDirectory, uuids(1), form.cccdBackImage.value.originalName);
    var health := StoreMultipleFiles(files + {front, back}, form.healthCertificates, HealthDirectory, uuids, 2).1;
    var profile := NewPartnerProfile(u, form, ParseBirthday(parse, form.birthday).value, front, back, health);
    AddPartnerPreservesWf(db, u, profile);
  }

  /** A second registration, as the user the first one saved, is refused and changes
      nothing. */
  lemma RegisterAsPartnerTwice(db: Db, files: set<string>, u: User, form: PartnerForm, form2: PartnerForm,
                               parse: DateParser, uuids: UuidSupply, uuids2: UuidSupply)
    requires u in db.users
    requires RegistrationAccepted(u, form, parse)
    ensures var r := RegisterAsPartner(db, files, Some(u), form, parse, uuids);
            var v := u.(hasPartnerProfile := true);
            && v in r.result.value.0.users
            && RegisterAsPartner(r.result.value.0, r.files, Some(v), form2, parse, uuids2)
               == Effect(r.files, Failure(AlreadyPartner))
  {
  }

  /** The URL names a stored file. */
  predicate Served(url: Option<string>, files: set<string>) {
    ExtractPathFromUrl(url).Some? && ExtractPathFromUrl(url).value in files
  }

  /** Both identity images and every health certificate of the profile name stored
      files. */
  predicate DocumentsServed(profile: PartnerProfile, files: set<string>) {
    && Served(profile.cccdFrontImageUrl, files)
    && Served(profile.cccdBackImageUrl, files)
    && profile.healthCertificatesUrls.Some?
    && forall k :: 0 <= k < |profile.healthCertificatesUrls.value| ==>
         Served(Some(profile.healthCertificatesUrls.value[k]), files)
  }

  /** The stored identity images and certificates are behind the URLs the new profile
      holds. */
  lemma RegisteredFilesServed(db: Db, files: set<string>, u: User, form: PartnerForm,
                              parse: DateParser, uuids: UuidSupply)
    requires u in db.users
    requires RegistrationAccepted(u, form, parse)
    ensures var r := RegisterAsPartner(db, files, Some(u), form, parse, uuids);
            && |r.result.value.0.partners| == |db.partners| + 1
            && DocumentsServed(r.result.value.0.partners[|db.partners|], r.files)
            && files <= r.files
  {
    NewProfileServed(u, form, ParseBirthday(parse, form.birthday).value, files, uuids);
  }

  /** The profile built from stored documents names only stored files, and storing
      loses none of the files already there. */
  lemma NewProfileServed(u: User, form: PartnerForm, birthday: Date, files: set<string>, uuids: UuidSupply)
    requires IsPresent(form.cccdFrontImage) && IsPresent(form.cccdBackImage)
    ensures var front := StoredPath(DocumentsDirectory, uuids(0), form.cccdFrontImage.value.originalName);
            var back := StoredPath(DocumentsDirectory, uuids(1), form.cccdBackImage.value.originalName);
            var (files', health) := StoreMultipleFiles(files + {front, back}, form.healthCertificates, HealthDirectory, uuids, 2);
            && DocumentsServed(NewPartnerProfile(u, form, birthday, front, back, health), files')
            && files <= files'
  {
    var front := StoredPath(DocumentsDirectory, uuids(0), form.cccdFrontImage.value.originalName);
    var back := StoredPath(DocumentsDirectory, uuids(1), form.cccdBackImage.value.originalName);
    StoredPathNonEmpty(DocumentsDirectory, uuids(0), form.cccdFrontImage.value.originalName);
    StoredPathNonEmpty(DocumentsDirectory, uuids(1), form.cccdBackImage.value.originalName);
    PathUrlRoundTrip(front);
    PathUrlRoundTrip(back);
    var base := files + {front, back};
    var stored := StoreMultipleFiles(base, form.healthCertificates, HealthDirectory, uuids, 2);
    if form.healthCertificates.Some? {
      StoredFilesMatchUrls(base, form.healthCertificates.value, HealthDirectory, uuids, 2);
    }
    assert base <= stored.0 by {
      if form.healthCertificates.Some? {
        var paths := StoredPaths(Uploads(Seqs.Filter(form.healthCertificates.value, IsPresent)), HealthDirectory, uuids, 2);
        assert stored.0 == base + (set p | p in paths);
      }
    }
  }


  /** An identity image: replaced when an upload is present, kept otherwise. */
  function MaybeReplaceImage(files: set<string>, oldUrl: Option<string>, upload: Option<Upload>, uuid: string)
    : (r: (set<string>, Option<string>))
    ensures !IsPresent(upload) ==> r == (files, oldUrl)
    ensures IsPresent(upload) ==> r == ReplaceImage(files, oldUrl, upload, uuid)
  {
    if IsPresent(upload) then ReplaceImage(files, oldUrl, upload, uuid) else (files, oldUrl)
  }

  /** The health-certificate step of an update runs when the array is given and not empty. */
  predicate ReplacesCertificates(uploads: Option<seq<Option<Upload>>>) {
    uploads.Some? && |uploads.value| > 0
  }

  /** Health certificates: when the array is given and not empty, the old certificates'
      files are deleted and the URLs of the newly stored ones replace the list, even if
      none of the new entries holds a file. */
  function MaybeReplaceCertificates(files: set<string>, oldUrls: Option<seq<string>>,
                                    uploads: Option<seq<Option<Upload>>>, uuids: UuidSupply)
    : (r: (set<string>, Option<seq<string>>))
    ensures !ReplacesCertificates(uploads) ==> r == (files, oldUrls)
    ensures ReplacesCertificates(uploads) ==>
      var stored := StoreMultipleFiles(DeleteUrls(files, oldUrls.GetOr([])), uploads, HealthDirectory, uuids, 2);
      r == (stored.0, Some(stored.1))
  {
    if ReplacesCertificates(uploads) then
      var (files', urls) := StoreMultipleFiles(DeleteUrls(files, oldUrls.GetOr([])), uploads, HealthDirectory, uuids, 2);
      (files', Some(urls))
    else (files, oldUrls)
  }

  /** A certificate array whose entries are all absent or empty still clears the old
      certificates: their files are deleted and the list becomes empty. */
  lemma EmptyCertificateUploadsClear(files: set<string>, oldUrls: seq<string>, uploads: seq<Option<Upload>>,
                                     uuids: UuidSupply)
    requires |uploads| > 0 && forall k :: 0 <= k < |uploads| ==> !IsPresent(uploads[k])
    ensures var (files', urls) := MaybeReplaceCertificates(files, Some(oldUrls), Some(uploads), uuids);
            && urls == Some([])
            && files' <= files
            && forall k :: 0 <= k < |oldUrls| && ExtractPathFromUrl(Some(oldUrls[k])).Some? ==>
                 ExtractPathFromUrl(Some(oldUrls[k])).value !in files'
  {
    NoPresentUploadStoresNothing(DeleteUrls(files, oldUrls), uploads, HealthDirectory, uuids, 2);
  }

  /** The profile an update leaves: each given field replaces the stored one, the
      birthday is always replaced, the images and certificates are the ones computed,
      and the state returns to PENDING whatever it was. */
  function UpdatedPartnerProfile(p: PartnerProfile, form: PartnerForm, birthday: Date, front: Option<string>,
                                 back: Option<string>, health: Option<seq<string>>): (q: PartnerProfile)
    ensures q.userId == p.userId && q.profileStatus == Pending && q.birthday == birthday
    ensures q.fullName == Override(p.fullName, form.fullName) && q.gender == Override(p.gender, form.gender)
    ensures q.address == Override(p.address, form.address) && q.cccd == Override(p.cccd, form.cccd)
    ensures q.yearsOfExperience == Override(p.yearsOfExperience, form.yearsOfExperience)
    ensures q.cccdFrontImageUrl == front && q.cccdBackImageUrl == back && q.healthCertificatesUrls == health
  {
    PartnerProfile(p.userId, Override(p.fullName, form.fullName), Override(p.gender, form.gender), birthday,
                   Override(p.address, form.address), Override(p.cccd, form.cccd),
                   Override(p.yearsOfExperience, form.yearsOfExperience), front, back, health, Pending)
  }

  /** `updatePartnerProfile`: the user's profile must exist; the birthday is always
      parsed (a missing one fails); then the fields are overridden, each present image
      replaces the old one, a non-empty certificate array replaces the certificates, the
      state is reset to PENDING, and the profile is saved. */
  function UpdatePartnerProfile(db: Db, files: set<string>, principal: Option<User>, form: PartnerForm,
                                parse: DateParser, uuids: UuidSupply)
    : (r: Effect<(Db, UserResponse), ProfileError>)
    requires principal.Some? ==> principal.value in db.users
    ensures principal.None? ==> r == Effect(files, Failure(NotAuthenticated))
    ensures principal.Some? && !HasProfile(db.partners, principal.value.id) ==> r == Effect(files, Failure(ProfileNotFound))
    ensures principal.Some? && HasProfile(db.partners, principal.value.id) && ParseBirthday(parse, form.birthday).Failure? ==>
      r == Effect(files, Failure(UpdateFailed(ParseBirthday(parse, form.birthday).error)))
    ensures r.result.Success? <==>
      principal.Some? && HasProfile(db.partners, principal.value.id) && ParseBirthday(parse, form.birthday).Success?
    ensures r.result.Success? ==>
      var u := principal.value;
      var k := ProfileIndexOf(db.partners, u.id).value;
      var p := db.partners[k];
      var (files1, front) := MaybeReplaceImage(files, p.cccdFrontImageUrl, form.cccdFrontImage, uuids(0));
      var (files2, back) := MaybeReplaceImage(files1, p.cccdBackImageUrl, form.cccdBackImage, uuids(1));
      var (files3, health) := MaybeReplaceCertificates(files2, p.healthCertificatesUrls, form.healthCertificates, uuids);
      var (db', resp) := r.result.value;
      && r.files == files3
      && db'.users == db.users && db'.sessions == db.sessions
      && db'.partners == db.partners[k := UpdatedPartnerProfile(p, form, ParseBirthday(parse, form.birthday).value, front, back, health)]
      && resp == MapToUserResponse(u, db'.partners)
  {
    match GetCurrentUser(principal)
    case Failure(e) => Effect(files, Failure(e))
    case Success(u) =>
      match ProfileIndexOf(db.partners, u.id)
      case None => Effect(files, Failure(ProfileNotFound))
      case Some(k) =>
        match ParseBirthday(parse, form.birthday)
        case Failure(cause) => Effect(files, Failure(UpdateFailed(cause)))
        case Success(birthday) =>
          var p := db.partners[k];
          var (files1, front) := MaybeReplaceImage(files, p.cccdFrontImageUrl, form.cccdFrontImage, uuids(0));
          var (files2, back) := MaybeReplaceImage(files1, p.cccdBackImageUrl, form.cccdBackImage, uuids(1));
          var (files3, health) := MaybeReplaceCertificates(files2, p.healthCertificatesUrls, form.healthCertificates, uuids);
          var db' := db.(partners := db.partners[k := UpdatedPartnerProfile(p, form, birthday, front, back, health)]);
          Effect(files3, Success((db', MapToUserResponse(u, db'.partners))))
  }

  /** An update keeps the store well formed and answers with the profile in state
      "pending", whatever its state was. */
  lemma UpdatePartnerProfilePreservesWf(db: Db, files: set<string>, u: User, form: PartnerForm,
                                        parse: DateParser, uuids: UuidSupply)
    requires Wf(db) && u in db.users
    requires UpdatePartnerProfile(db, files, Some(u), form, parse, uuids).result.Success?
    ensures var (db', resp) := UpdatePartnerProfile(db, files, Some(u), form, parse, uuids).result.value;
            && Wf(db')
            && resp.partnerProfile == Some(PartnerProfileView("pending"))
  {
    var (db', resp) := UpdatePartnerProfile(db, files, Some(u), form, parse, uuids).result.value;
    var k := ProfileIndexOf(db.partners, u.id).value;
    ProfileRewriteKeepsWf(db, k, db'.partners[k]);
    assert db'.partners[k].profileStatus == Pending;
  }

  /** Rewriting a profile row in place, owner kept, keeps the store well formed, and
      the row is still the one found for its owner. */
  lemma ProfileRewriteKeepsWf(db: Db, k: nat, q: PartnerProfile)
    requires Wf(db) && k < |db.partners| && q.userId == db.partners[k].userId
    requires ProfileIndexOf(db.partners, q.userId) == Some(k)
    ensures var db' := db.(partners := db.partners[k := q]);
            Wf(db') && ProfileIndexOf(db'.partners, q.userId) == Some(k)
  {
    var partners' := db.partners[k := q];
    assert forall j :: 0 <= j < |db.partners| ==> partners'[j].userId == db.partners[j].userId;
    assert forall x :: HasProfile(partners', x) <==> HasProfile(db.partners, x) by {
      forall x ensures HasProfile(partners', x) <==> HasProfile(db.partners, x) {
        if HasProfile(partners', x) {
          var j :| 0 <= j < |partners'| && partners'[j].userId == x;
          assert db.partners[j].userId == x;
        }
        if HasProfile(db.partners, x) {
          var j :| 0 <= j < |db.partners| && db.partners[j].userId == x;
          assert partners'[j].userId == x;
        }
      }
    }
  }

  /** An update with no file in it touches no file. */
  lemma UpdateWithoutUploadsKeepsFiles(db: Db, files: set<string>, u: User, form: PartnerForm,
                                       parse: DateParser, uuids: UuidSupply)
    requires u in db.users
    requires !IsPresent(form.cccdFrontImage) && !IsPresent(form.cccdBackImage)
    requires !ReplacesCertificates(form.healthCertificates)
    ensures UpdatePartnerProfile(db, files, Some(u), form, parse, uuids).files == files
  {
  }

  // Account deletion.

  /** `sessionRepository.deleteByUserId`: the sessions of other users. */
  function SessionsNotOwnedBy(sessions: seq<Session>, id: Uuid): (r: seq<Session>)
    ensures forall x :: x in r <==> x in sessions && x.owner != id
    ensures UniqueSessionIds(sessions) ==> UniqueSessionIds(r)
  {
    var keep := (x: Session) => x.owner != id;
    FilterMembershipAll(sessions, keep);
    if UniqueSessionIds(sessions) then
      Seqs.FilterPairwise(sessions, keep, (a: Session, b: Session) => a.sessionId != b.sessionId);
      Seqs.Filter(sessions, keep)
    else Seqs.Filter(sessions, keep)
  }

  lemma FilterMembershipAll<T>(s: seq<T>, keep: T -> bool)
    ensures forall x :: x in Seqs.Filter(s, keep) <==> x in s && keep(x)
  {
    forall x ensures x in Seqs.Filter(s, keep) <==> x in s && keep(x) {
      Seqs.FilterMembership(s, keep, x);
    }
  }

  /** `userRepository.deleteByPhoneNumber`: the users with another phone number. */
  function UsersWithoutPhone(users: seq<User>, phone: string): (r: seq<User>)
    ensures forall x :: x in r <==> x in users && x.phoneNumber != phone
    ensures UniqueIds(users) ==> UniqueIds(r)
    ensures UniquePhones(users) ==> UniquePhones(r)
    ensures UniqueEmails(users) ==> UniqueEmails(r)
  {
    var keep := (x: User) => x.phoneNumber != phone;
    FilterMembershipAll(users, keep);
    FilterKeepsUserUniqueness(users, keep);
    Seqs.Filter(users, keep)
  }

  lemma FilterKeepsUserUniqueness(users: seq<User>, keep: User -> bool)
    ensures UniqueIds(users) ==> UniqueIds(Seqs.Filter(users, keep))
    ensures UniquePhones(users) ==> UniquePhones(Seqs.Filter(users, keep))
    ensures UniqueEmails(users) ==> UniqueEmails(Seqs.Filter(users, keep))
  {
    if UniqueIds(users) {
      Seqs.FilterPairwise(users, keep, (a: User, b: User) => a.id != b.id);
    }
    if UniquePhones(users) {
      Seqs.FilterPairwise(users, keep, (a: User, b: User) => a.phoneNumber != b.phoneNumber);
    }
    if UniqueEmails(users) {
      Seqs.FilterPairwise(users, keep, (a: User, b: User) => a.email.Some? ==> a.email != b.email);
    }
  }

  /** `partnerProfileRepository.delete` of the user's profile: the profiles of other users. */
  function ProfilesNotOwnedBy(partners: seq<PartnerProfile>, id: Uuid): (r: seq<PartnerProfile>)
    ensures forall x :: x in r <==> x in partners && x.userId != id
    ensures OneProfilePerUser(partners) ==> OneProfilePerUser(r)
  {
    var keep := (x: PartnerProfile) => x.userId != id;
    FilterMembershipAll(partners, keep);
    if OneProfilePerUser(partners) then
      Seqs.FilterPairwise(partners, keep, (a: PartnerProfile, b: PartnerProfile) => a.userId != b.userId);
      Seqs.Filter(partners, keep)
    else Seqs.Filter(partners, keep)
  }

  /** The stored file a profile's URLs name. */
  predicate NamedByProfile(p: PartnerProfile, path: string) {
    || ExtractPathFromUrl(p.cccdFrontImageUrl) == Some(path)
    || ExtractPathFromUrl(p.cccdBackImageUrl) == Some(path)
    || (p.healthCertificatesUrls.Some? &&
        exists k :: 0 <= k < |p.healthCertificatesUrls.value| &&
          ExtractPathFromUrl(Some(p.healthCertificatesUrls.value[k])) == Some(path))
  }

  /** `deletePartnerProfileFiles`: the files behind the identity images and every
      certificate URL are deleted; URLs that name no path are skipped. */
  function DeletePartnerProfileFiles(files: set<string>, p: PartnerProfile): (r: set<string>)
    ensures r <= files
    ensures forall path :: path in files ==> (path in r <==> !NamedByProfile(p, path))
  {
    DeleteUrls(DeleteByUrl(DeleteByUrl(files, p.cccdFrontImageUrl), p.cccdBackImageUrl),
               p.healthCertificatesUrls.GetOr([]))
  }

  /** `deleteProfile`: the user's sessions are deleted, then the avatar file, then the
      partner profile's files and the profile, then the user row by phone number. An
      avatar URL that is present but empty names a null path, and deleting it throws:
      the whole deletion is then rolled back before any file is touched. */
  function DeleteProfile(db: Db, files: set<string>, principal: Option<User>): (r: Effect<Db, ProfileError>)
    requires principal.Some? ==> principal.value in db.users
    ensures principal.None? ==> r == Effect(files, Failure(NotAuthenticated))
    ensures principal.Some? && principal.value.avatarUrl == Some("") ==> r == Effect(files, Failure(NullPointer))
    ensures r.result.Success? <==> principal.Some? && principal.value.avatarUrl != Some("")
    ensures r.result.Success? ==>
      var u := principal.value;
      var db' := r.result.value;
      && (forall x :: x in db'.users <==> x in db.users && x.phoneNumber != u.phoneNumber)
      && (forall x :: x in db'.sessions <==> x in db.sessions && x.owner != u.id)
      && (forall x :: x in db'.partners <==> x in db.partners && x.userId != u.id)
      && r.files <= files
      && (ExtractPathFromUrl(u.avatarUrl).Some? ==> ExtractPathFromUrl(u.avatarUrl).value !in r.files)
      && (ProfileIndexOf(db.partners, u.id).Some? ==>
            var p := db.partners[ProfileIndexOf(db.partners, u.id).value];
            forall path :: path in files && NamedByProfile(p, path) ==> path !in r.files)
  {
    match GetCurrentUser(principal)
    case Failure(e) => Effect(files, Failure(e))
    case Success(u) =>
      var sessions' := SessionsNotOwnedBy(db.sessions, u.id);
      var avatar := if u.avatarUrl.None? then Success((files, false)) else DeleteFile(files, ExtractPathFromUrl(u.avatarUrl));
      if avatar.Failure? then Effect(files, Failure(NullPointer))
      else
        var files1 := avatar.value.0;
        var users' := UsersWithoutPhone(db.users, u.phoneNumber);
        match ProfileIndexOf(db.partners, u.id)
        case None =>
          assert forall x :: x in db.partners ==> x.userId != u.id;
          Effect(files1, Success(Db(users', sessions', db.partners)))
        case Some(k) =>
          var files2 := DeletePartnerProfileFiles(files1, db.partners[k]);
          Effect(files2, Success(Db(users', sessions', ProfilesNotOwnedBy(db.partners, u.id))))
  }

  /** With ids and phone numbers unique, removing the rows with `u`'s phone number
      removes `u` and keeps every other user. */
  lemma UsersWithoutPhoneRemovesOnlyU(users: seq<User>, u: User)
    requires UniqueIds(users) && UniquePhones(users) && u in users
    ensures forall x :: HasUser(UsersWithoutPhone(users, u.phoneNumber), x) <==> HasUser(users, x) && x != u.id
  {
    var users' := UsersWithoutPhone(users, u.phoneNumber);
    forall x ensures HasUser(users', x) <==> HasUser(users, x) && x != u.id {
      if HasUser(users', x) {
        var j :| 0 <= j < |users'| && users'[j].id == x;
        var w := users'[j];
        assert w in users && w.phoneNumber != u.phoneNumber;
        SameRowIfSameKey(users, u, w);
        var m :| 0 <= m < |users| && users[m] == w;
      }
      if HasUser(users, x) && x != u.id {
        var j :| 0 <= j < |users| && users[j].id == x;
        SameRowIfSameKey(users, u, users[j]);
        assert users[j] in users';
        var m :| 0 <= m < |users'| && users'[m] == users[j];
      }
    }
  }

  /** With ids and phone numbers unique, two rows of the table that share either are
      the same row. */
  lemma SameRowIfSameKey(users: seq<User>, u: User, w: User)
    requires UniqueIds(users) && UniquePhones(users) && u in users && w in users
    ensures w.id == u.id <==> w == u
    ensures w.phoneNumber == u.phoneNumber <==> w == u
  {
    var i :| 0 <= i < |users| && users[i] == u;
    var j :| 0 <= j < |users| && users[j] == w;
  }


  lemma HasProfileIff(partners: seq<PartnerProfile>, id: Uuid)
    ensures HasProfile(partners, id) <==> exists x :: x in partners && x.userId == id
  {
    if exists x :: x in partners && x.userId == id {
      var x :| x in partners && x.userId == id;
      var j :| 0 <= j < |partners| && partners[j] == x;
    }
  }

  /** An account deletion keeps the store well formed and leaves nothing of the user:
      no row, no session, no partner profile. */
  lemma DeleteProfilePreservesWf(db: Db, files: set<string>, u: User)
    requires Wf(db) && u in db.users
    requires DeleteProfile(db, files, Some(u)).result.Success?
    ensures var db' := DeleteProfile(db, files, Some(u)).result.value;
            && Wf(db')
            && !HasUser(db'.users, u.id)
            && (forall k :: 0 <= k < |db'.sessions| ==> db'.sessions[k].owner != u.id)
            && !HasProfile(db'.partners, u.id)
  {
    var db' := DeleteProfile(db, files, Some(u)).result.value;
    UsersWithoutPhoneRemovesOnlyU(db.users, u);
    assert db'.users == UsersWithoutPhone(db.users, u.phoneNumber);
    assert db'.sessions == SessionsNotOwnedBy(db.sessions, u.id);
    assert OneProfilePerUser(db'.partners);
    RemovalKeepsSessionsOwned(db, db', u.id);
    RemovalKeepsProfilesOwned(db, db', u.id);
    HasProfileIff(db'.partners, u.id);
    RemovalKeepsFlags(db, db', u.id);
  }

  /** The sessions kept, all of users other than `id`, still have their owners. */
  lemma RemovalKeepsSessionsOwned(db: Db, db': Db, id: Uuid)
    requires SessionsOwned(db)
    requires forall x :: x in db'.sessions <==> x in db.sessions && x.owner != id
    requires forall x :: HasUser(db'.users, x) <==> HasUser(db.users, x) && x != id
    ensures SessionsOwned(db') && forall k :: 0 <= k < |db'.sessions| ==> db'.sessions[k].owner != id
  {
    forall k | 0 <= k < |db'.sessions|
      ensures HasUser(db'.users, db'.sessions[k].owner) && db'.sessions[k].owner != id
    {
      var x := db'.sessions[k];
      assert x in db.sessions;
      var j :| 0 <= j < |db.sessions| && db.sessions[j] == x;
    }
  }

  /** The profiles kept, all of users other than `id`, still have their owners. */
  lemma RemovalKeepsProfilesOwned(db: Db, db': Db, id: Uuid)
    requires ProfilesOwned(db)
    requires forall x :: x in db'.partners <==> x in db.partners && x.userId != id
    requires forall x :: HasUser(db'.users, x) <==> HasUser(db.users, x) && x != id
    ensures ProfilesOwned(db')
  {
    forall k | 0 <= k < |db'.partners|
      ensures HasUser(db'.users, db'.partners[k].userId)
    {
      var x := db'.partners[k];
      assert x in db.partners && x.userId != id;
      var j :| 0 <= j < |db.partners| && db.partners[j] == x;
    }
  }

  /** The users kept, all but `id`, keep flags that agree with the profiles kept. */
  lemma RemovalKeepsFlags(db: Db, db': Db, id: Uuid)
    requires FlagsConsistent(db)
    requires forall x :: x in db'.users ==> x in db.users
    requires forall x :: x in db'.partners <==> x in db.partners && x.userId != id
    requires forall x :: HasUser(db'.users, x) <==> HasUser(db.users, x) && x != id
    ensures FlagsConsistent(db')
  {
    forall k | 0 <= k < |db'.users|
      ensures db'.users[k].hasPartnerProfile <==> HasProfile(db'.partners, db'.users[k].id)
    {
      var w := db'.users[k];
      assert w in db.users;
      var j :| 0 <= j < |db.users| && db.users[j] == w;
      assert HasUser(db'.users, w.id);
      assert w.id != id;
      HasProfileIff(db.partners, w.id);
      HasProfileIff(db'.partners, w.id);
    }
  }
}
