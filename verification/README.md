# Giupviecnhanh backend: a Dafny model of its core

This project models the core of the giupviecnhanh backend, a Spring Boot service for
a home-cleaning marketplace. Customers and partners sign up with a phone number and
password. They log in for a pair of JWTs, an access token and a refresh token, and
then keep a profile, an avatar and, for partners, an identity dossier with health
certificates. Administrators maintain the service catalogue and the home-screen
banners.

The model is written as pure functions over immutable tables:

- **Tables.** Users, sessions, partner profiles, categories, services,
  partner-service rows and banners are sequences of rows. A repository lookup is a
  search for the first matching row. The invariants of the tables are stated as
  predicates (`Entities.Wf`, `Catalogue.Wf`, `Banners.UniqueIds`) that every write
  is proved to preserve. Most are column constraints the database keeps; unique
  emails are kept by the application only, as "## Left out" notes.
- **Uploads.** The upload directory is a set of relative paths. Operations whose
  file work survives a later failure, because deleted and written files are not
  rolled back with the transaction, return an `Effect`: the new file set together
  with the result.
- **Errors.** Failures are `Result` values carrying an error datatype. Each error
  has the exception message the source raises. The one exception is an unwrapped
  null-pointer exception, whose text belongs to the runtime. `ErrorHandling` maps those messages
  to HTTP status codes in the same way the global exception handler does.
- **Tokens and hashing.** JWT signing and BCrypt are abstract function values (a
  `Codec` and a `Hasher`). Lemmas take their soundness as a precondition: signed
  claims parse back until they expire, and an encoded password matches itself.
- **Identifiers and time.** Fresh identifiers are one above every identifier in
  use. UUID text for file names is a supplied sequence. Each operation reads the
  clock once, as a parameter `now` in epoch seconds.

The modules follow the source's structure:

| module | source component |
|---|---|
| `Jwt` | `JwtService` |
| `Users` | `UserService` |
| `Auth` | `AuthService` |
| `RequestIdentity` | `JwtAuthenticationFilter` |
| `Security` | `SecurityConfig` |
| `Files` | `FileStorageService` |
| `Profiles` | `UserProfileService` |
| `Catalogue` | `ServiceService` reads |
| `CatalogueEdits` | `ServiceService` writes |
| `Banners` | `BannerService` |
| `ErrorHandling` | `GlobalExceptionHandler` |
| `AuthEndpoints` | `AuthController` |
| `Responses` | `ApiResponse` |
| `Requests` | `LoginRequest`, `RegisterRequest` |

`Entities`, `Seqs`, `Text`, `Wrappers` and `Ids` hold the shared rows and helpers.

## Model

| member | source | states |
|---|---|---|
| Jwt.ExtractUserId | src/main/java/com/gvn/service/JwtService.java:61-72 | A user id is extracted exactly when the token verifies at the current second, and it is the subject of the verified claims. |
| Jwt.GetExpirationTimestamp | src/main/java/com/gvn/service/JwtService.java:100-102 | The expiry is the given number of seconds after now. |
| Jwt.GenerateAccessToken | src/main/java/com/gvn/service/JwtService.java:33-45 | Under a sound codec and a non-negative lifetime, the token parses at its issue second to the user's id and phone, class "access", and an expiry one access lifetime later. |
| Jwt.GenerateRefreshToken | src/main/java/com/gvn/service/JwtService.java:47-59 | The same for a refresh token, with class "refresh" and the refresh lifetime. |
| Jwt.IsTokenExpired | src/main/java/com/gvn/service/JwtService.java:74-81 | A token that is not expired always yields a user id. |
| Jwt.IsRefreshToken | src/main/java/com/gvn/service/JwtService.java:83-90 | A token counted as a refresh token yields a user id and is not of the access class. |
| Jwt.SignInjective | src/main/java/com/gvn/service/JwtService.java:33-59 | Under a sound codec, distinct claims are signed into distinct tokens. |
| Jwt.AccessTokenClaims | src/main/java/com/gvn/service/JwtService.java:33-45 | Until it expires, an access token parses to the user's id and phone, type "access", and an expiry one access lifetime after issue. |
| Jwt.RefreshTokenClaims | src/main/java/com/gvn/service/JwtService.java:47-59 | A refresh token carries the same claims, with type "refresh" and the refresh lifetime. |
| Jwt.ExtractUserIdRoundTrip | src/main/java/com/gvn/service/JwtService.java:69-72 | An unexpired token of either kind gives back the id it was generated for. |
| Jwt.UnparsableTokenRejected | src/main/java/com/gvn/service/JwtService.java:74-90 | A token that does not parse counts as expired and as not a refresh token, at any clock reading. |
| Jwt.EmptyTokenRejected | src/main/java/com/gvn/service/JwtService.java:74-90 | The empty token, which the bare "Bearer " header yields, is expired and not a refresh token. |
| Jwt.TokenLifetime | src/main/java/com/gvn/service/JwtService.java:74-81 | A generated token is unexpired exactly up to and including its expiry second. |
| Jwt.TokenClasses | src/main/java/com/gvn/service/JwtService.java:83-90 | An access token is never a refresh token, and a refresh token counts as one exactly while it is unexpired. |
| Jwt.RefreshTokenDeterminism | src/main/java/com/gvn/service/JwtService.java:47-59 | The same user in the same second always gets the same token text; tokens from different seconds differ. |
| Users.Authenticate | src/main/java/com/gvn/service/UserService.java:27-52 | The result is the user holding the phone number, and only when the stored hash is usable and matches the password; otherwise there is none. |
| Users.AuthenticateIff | src/main/java/com/gvn/service/UserService.java:27-52 | With unique phone numbers, a user is returned exactly when they hold the phone number and the encoder accepts the password. |
| Users.EmptyHashNeverAuthenticates | src/main/java/com/gvn/service/UserService.java:34-37 | An unusable stored hash fails for every password and every encoder. |
| Users.FailuresIndistinguishable | src/main/java/com/gvn/service/UserService.java:27-52 | An unknown phone number and a wrong password give the same outcome. |
| Users.ExistsByPhoneNumberIff | src/main/java/com/gvn/service/UserService.java:79-90 | The check holds exactly when some user has the phone number. |
| Users.CreateUser | src/main/java/com/gvn/service/UserService.java:93-114 | A taken phone number is refused. Otherwise one user is appended: a fresh id, the encoded password, the given type (default "customer"), no partner flag, empty profile fields. |
| Users.CreatedUserAuthenticates | src/main/java/com/gvn/service/UserService.java:93-114 | Under a sound hasher, a user just created authenticates with the registered password. |
| Users.CreateUserPreservesUniqueness | src/main/java/com/gvn/service/UserService.java:93-114 | Creating a user keeps ids, phone numbers and emails unique. |
| Users.StatusName | src/main/java/com/gvn/dto/response/UserResponse.java:36-43 | A profile status is shown as its lower-case name. |
| Users.StatusNameInjective | src/main/java/com/gvn/dto/response/UserResponse.java:36-43 | Distinct statuses are shown as distinct names. |
| Users.MapToUserResponse | src/main/java/com/gvn/service/UserService.java:54-73 | The view copies the user's fields. It shows a partner status only when the flag is set and a profile row exists, and then that row's status. |
| Entities.UserIndexById | src/main/java/com/gvn/config/JwtAuthenticationFilter.java:37-43 | A row is found exactly when some row has the id, and the row found has it. |
| Entities.UserIndexByPhone | src/main/java/com/gvn/repository/UserRepository.java:24 | A row is found exactly when some row has the phone number, and the row found has it. |
| Entities.UserIndexByEmail | src/main/java/com/gvn/repository/UserRepository.java:40 | A row is found exactly when some row has the email, and the row found has it. |
| Entities.ProfileIndexOf | src/main/java/com/gvn/repository/PartnerProfileRepository.java:13 | A profile is found exactly when some profile belongs to the user, and the one found does. |
| Entities.SaveUser | src/main/java/com/gvn/service/UserProfileService.java:92 | Saving keeps the table's length and every row's id, leaves rows with other ids untouched, and the saved row is present when its id was. |
| Entities.UserIndexByIdUnique | src/main/java/com/gvn/entity/User.java:21 | With unique ids, the row found for a row's id is that row. |
| Entities.SaveUserAt | src/main/java/com/gvn/service/UserProfileService.java:92 | With unique ids, saving rewrites exactly the row holding the id. |
| Entities.SameIdsSameUsers | src/main/java/com/gvn/service/UserProfileService.java:92 | Rewriting rows in place with their ids kept leaves the same ids present. |
| Entities.ReplaceKeepsUniqueness | src/main/java/com/gvn/entity/User.java:25 | A rewrite that keeps the id and phone and takes an email no other row holds keeps all three columns unique. |
| Auth.Message | src/main/java/com/gvn/service/AuthService.java:39-164 | Every authentication failure is raised with a non-empty text, so the exception handler reports it unchanged. |
| Auth.OpenSession | src/main/java/com/gvn/service/AuthService.java:45-88 | Exactly one active session is appended for the user. Its tokens are the access and refresh tokens signed now, with expiries one lifetime ahead, and the response carries the same tokens and expiries. |
| Auth.Login | src/main/java/com/gvn/service/AuthService.java:31-89 | Login fails with "Invalid credentials" exactly when authentication fails. Otherwise it opens one session for the authenticated user and leaves the users untouched. |
| Auth.SessionByRefreshToken | src/main/java/com/gvn/repository/SessionRepository.java:18 | No match exactly when no session holds the token, and a duplicate exactly when two sessions hold it. A unique match is the one session holding it. |
| Auth.SoleHolder | src/main/java/com/gvn/repository/SessionRepository.java:18 | A session holding the token alone is the only holder. |
| Auth.NoSoleHolder | src/main/java/com/gvn/repository/SessionRepository.java:18 | When no session, or two sessions, hold the token, the lookup finds none. |
| Auth.Rotate | src/main/java/com/gvn/service/AuthService.java:121-144 | Rotation gives the session the owner's new tokens and expiries, and keeps its id, owner, device and activity. |
| Auth.OwnerOf | src/main/java/com/gvn/service/AuthService.java:118 | The owner loaded for a session is the user whose id the session names. |
| Auth.RefreshSession | src/main/java/com/gvn/service/AuthService.java:109-157 | An inactive session fails first, then an expired one. Otherwise only that row is rotated. |
| Auth.Refresh | src/main/java/com/gvn/service/AuthService.java:92-158 | Refresh fails in the source's order: invalid token, no sole session holding it, inactive session, stored expiry passed. On success it rewrites one session in place and leaves users and profiles unchanged. |
| Auth.RefreshedRow | src/main/java/com/gvn/service/AuthService.java:101-144 | A successful refresh rewrote the row that held the token alone. |
| Auth.RefreshSucceeds | src/main/java/com/gvn/service/AuthService.java:92-158 | A usable token held alone by an active session whose stored expiry has not passed refreshes. |
| Auth.Register | src/main/java/com/gvn/service/AuthService.java:161-219 | A taken phone number fails with "Phone number already exists". Otherwise the created user gets exactly the session login would open. |
| Auth.OpenedPreservesWf | src/main/java/com/gvn/service/AuthService.java:58-75 | Appending a session for a stored user keeps the database well formed. |
| Auth.LoginPreservesWf | src/main/java/com/gvn/service/AuthService.java:31-89 | Login keeps the database well formed. |
| Auth.RefreshPreservesWf | src/main/java/com/gvn/service/AuthService.java:92-158 | Refresh keeps the database well formed. |
| Auth.RegisterPreservesWf | src/main/java/com/gvn/service/AuthService.java:161-219 | Registration keeps the database well formed. |
| Auth.OldRefreshTokenRetired | src/main/java/com/gvn/service/AuthService.java:121-144 | After a refresh the old refresh token finds no session, unless the regenerated token is the same string. |
| Auth.IssuedRefreshTokenUsable | src/main/java/com/gvn/service/AuthService.java:96-98 | An issued refresh token passes the token check up to and including its expiry second. |
| Auth.LoginThenRefresh | src/main/java/com/gvn/service/AuthService.java:31-158 | A refresh token fresh from login refreshes until it expires, when no earlier session holds the same text. The refreshed row is the one login opened. |
| Auth.SameSecondRefreshKeepsToken | src/main/java/com/gvn/service/AuthService.java:121-144 | A refresh in the same second as the login that issued the token hands back the identical refresh token. |
| Auth.SameSecondLoginsBlockRefresh | src/main/java/com/gvn/service/AuthService.java:101-104 | Two logins of one account in the same second store one token twice, and refreshing with it then fails at the lookup. |
| Auth.RegisterThenLogin | src/main/java/com/gvn/service/AuthService.java:161-219 | A freshly registered account logs in with the password it registered. |
| Auth.RegisterTwice | src/main/java/com/gvn/service/AuthService.java:163-165 | Registering a phone number again is refused. |
| Auth.StoredExpiryCheckUnreachable | src/main/java/com/gvn/service/AuthService.java:114-116 | While stored expiries agree with the tokens, a token past its stored expiry is already refused as invalid, so the stored-expiry check never fires. |
| Auth.IssuedSessionAgrees | src/main/java/com/gvn/service/AuthService.java:50-55 | A session opened or rotated stores the expiry its refresh token was signed with. |
| Auth.OpenedKeepsExpiriesAgreeing | src/main/java/com/gvn/service/AuthService.java:58-75 | Opening a session keeps every stored expiry in agreement with its token. |
| Auth.LoginKeepsExpiriesAgreeing | src/main/java/com/gvn/service/AuthService.java:31-89 | Login keeps the stored expiries in agreement. |
| Auth.RegisterKeepsExpiriesAgreeing | src/main/java/com/gvn/service/AuthService.java:161-219 | Registration keeps the stored expiries in agreement. |
| Auth.RefreshKeepsExpiriesAgreeing | src/main/java/com/gvn/service/AuthService.java:121-144 | Refresh keeps the stored expiries in agreement. |
| RequestIdentity.ExtractToken | src/main/java/com/gvn/config/JwtAuthenticationFilter.java:52-58 | A header with text that starts with "Bearer " yields the rest after seven characters; any other header yields no token. |
| RequestIdentity.BearerRoundTrip | src/main/java/com/gvn/config/JwtAuthenticationFilter.java:52-58 | Whatever follows "Bearer " is the token extracted. |
| RequestIdentity.ExtractTokenIff | src/main/java/com/gvn/config/JwtAuthenticationFilter.java:52-58 | A header gives a token exactly when it is "Bearer " followed by something, possibly nothing. |
| RequestIdentity.NonBearerHeadersIgnored | src/main/java/com/gvn/config/JwtAuthenticationFilter.java:54 | A missing header and a lower-case scheme give no token. |
| RequestIdentity.ResolveIdentity | src/main/java/com/gvn/config/JwtAuthenticationFilter.java:30-50 | A principal is attached only for an unexpired access token whose subject is a stored user, and it is that user; no session row is consulted. |
| RequestIdentity.AccessTokenResolves | src/main/java/com/gvn/config/JwtAuthenticationFilter.java:35-43 | A live access token of a stored user resolves to that user from its issue second to its expiry second. |
| RequestIdentity.RejectedTokensAnonymous | src/main/java/com/gvn/config/JwtAuthenticationFilter.java:35 | An expired access token, a refresh token and the bare "Bearer " header attach nothing. |
| RequestIdentity.MissingUserAnonymous | src/main/java/com/gvn/config/JwtAuthenticationFilter.java:38 | A token whose subject has no stored user attaches nothing. |
| Security.Authorize | src/main/java/com/gvn/config/SecurityConfig.java:29-32 | Public paths are served unconditionally, and any other path only with a principal. |
| Security.HandleRequest | src/main/java/com/gvn/config/SecurityConfig.java:29-36 | A protected path is served only to a request whose header carries an unexpired bearer token of the access class, naming a stored user. |
| Security.PublicPathsOpen | src/main/java/com/gvn/config/SecurityConfig.java:30 | A public path is served whatever the header carries. |
| Security.ProtectedPathsNeedIdentity | src/main/java/com/gvn/config/SecurityConfig.java:31 | A non-public path is served exactly when the filter attached a principal. |
| Security.PublicPathExamples | src/main/java/com/gvn/config/SecurityConfig.java:30 | The login endpoint and file URLs are public. A path that only shares a prefix with a public base is not, and neither is the profile endpoint. |
| Security.RefreshTokenCannotAuthorize | src/main/java/com/gvn/config/SecurityConfig.java:31-36 | A refresh token sent as a bearer token never opens a protected path. |
| Files.GetFileUrl | src/main/java/com/gvn/service/FileStorageService.java:177-184 | A missing or empty path has no URL; any other path gets the files prefix. |
| Files.ExtractPathFromUrl | src/main/java/com/gvn/service/UserProfileService.java:396-404 | A missing or empty URL has no path. A URL with the files prefix loses it, and any other URL is kept as it is. |
| Files.PathUrlRoundTrip | src/main/java/com/gvn/service/FileStorageService.java:177-184 | The URL of a non-empty path gives the path back. |
| Files.UrlPathRoundTrip | src/main/java/com/gvn/service/BannerService.java:210-220 | A served URL with text after the prefix is the URL of the path extracted from it. |
| Files.ExtractPathExamples | src/main/java/com/gvn/service/ServiceService.java:536-546 | A banner image URL gives its path below the upload directory, and other strings are left alone. |
| Files.Extension | src/main/java/com/gvn/service/FileStorageService.java:69-73 | The extension is the suffix of the original name from its last '.', or empty when there is no name or no '.'. |
| Files.StoredPathNonEmpty | src/main/java/com/gvn/service/FileStorageService.java:74-100 | A stored file's path is never empty. |
| Files.StoredPathKeepsExtension | src/main/java/com/gvn/service/FileStorageService.java:69-100 | A stored path keeps the original name's extension when the directory and UUID text have no '.'. |
| Files.StoreFile | src/main/java/com/gvn/service/FileStorageService.java:49-105 | It fails exactly when the upload is missing or empty. Otherwise exactly the stored path (directory, UUID, original extension) is added, and that path is returned. |
| Files.StoredFileServed | src/main/java/com/gvn/service/FileStorageService.java:49-105 | A stored path starts with its directory, and its URL leads back to it. |
| Files.StoredPaths | src/main/java/com/gvn/service/FileStorageService.java:125-151 | The uploads get one path each, in order, the k-th taking the k-th UUID, under the directory. |
| Files.Uploads | src/main/java/com/gvn/service/FileStorageService.java:113-118 | Each present entry's upload, one per entry, in order. |
| Files.StoreMultipleFiles | src/main/java/com/gvn/service/FileStorageService.java:107-153 | Each present upload is stored in input order and gets one URL. A missing array, or one with nothing present, stores nothing and gives no URLs. |
| Files.StoredFilesMatchUrls | src/main/java/com/gvn/service/FileStorageService.java:107-153 | Every returned URL leads to a stored file, every newly stored file is behind a URL, and there is one URL per present upload. |
| Files.StoredPathsNonEmpty | src/main/java/com/gvn/service/FileStorageService.java:125-151 | No path of a batch is empty. |
| Files.UrlsLeadToPaths | src/main/java/com/gvn/service/FileStorageService.java:177-184 | URLs made from non-empty paths lead back to them. |
| Files.NoPresentUploadStoresNothing | src/main/java/com/gvn/service/FileStorageService.java:120-122 | When no entry is present, nothing is stored. |
| Files.DeleteFile | src/main/java/com/gvn/service/FileStorageService.java:155-175 | A missing path fails as a null-pointer error. Otherwise the file is removed, and the result says whether it existed. |
| Files.DeleteStoredFile | src/main/java/com/gvn/service/FileStorageService.java:155-175 | Deleting the file behind a stored file's URL removes exactly that file. |
| Files.DeleteByUrl | src/main/java/com/gvn/service/UserProfileService.java:103-106 | The file named by the URL's path is removed when there is one; a missing or empty URL removes nothing. |
| Profiles.Message | src/main/java/com/gvn/service/UserProfileService.java:47-253 | Every error but an unwrapped null-pointer exception has a message. A wrapped avatar failure always has one, the avatar prefix followed by its cause. |
| Profiles.WrappedCausesRecoverable | src/main/java/com/gvn/service/UserProfileService.java:249-252 | The wrapped registration and update failures keep their cause: the message determines the error. |
| Profiles.WrappedKindsDiffer | src/main/java/com/gvn/service/UserProfileService.java:249-252 | A wrapped registration failure never reads as a wrapped update failure. |
| Profiles.Override | src/main/java/com/gvn/service/UserProfileService.java:278-283 | A given field replaces the stored one, and null keeps it. |
| Profiles.GetCurrentUser | src/main/java/com/gvn/service/UserProfileService.java:47-53 | Without a principal the call fails as not authenticated; otherwise it returns the principal. |
| Profiles.GetProfile | src/main/java/com/gvn/service/UserProfileService.java:55-58 | It fails exactly without a principal; otherwise the view has the principal's id and phone number. |
| Profiles.Applied | src/main/java/com/gvn/service/UserProfileService.java:78-90 | Each given field of the request replaces the row's, and id, phone, password and flags are kept. |
| Profiles.AppliedTwice | src/main/java/com/gvn/service/UserProfileService.java:78-90 | Applying a request to the row it produced changes nothing. |
| Profiles.UpdateProfile | src/main/java/com/gvn/service/UserProfileService.java:61-95 | An email held by another user fails first, then an unparsable birthday. Otherwise the row is saved with the request applied, and sessions and profiles are unchanged. |
| Profiles.UpdateProfileEmailIff | src/main/java/com/gvn/service/UserProfileService.java:67-76 | With unique emails, the update is refused for the email exactly when another user has it. |
| Profiles.SaveUserPreservesWf | src/main/java/com/gvn/service/UserProfileService.java:92 | Saving a row that keeps id, phone and flag, with an email no other row holds, keeps the store well formed. |
| Profiles.UpdateProfilePreservesWf | src/main/java/com/gvn/service/UserProfileService.java:61-95 | An update keeps the store well formed, so no two users share an email. |
| Profiles.UpdatedEmailFree | src/main/java/com/gvn/service/UserProfileService.java:67-76 | The email an update can set is held by no other row. |
| Profiles.OwnEmailNotTaken | src/main/java/com/gvn/service/UserProfileService.java:70-72 | With unique emails, the row's own email is held by no other row. |
| Profiles.UpdateProfileIdempotent | src/main/java/com/gvn/service/UserProfileService.java:61-95 | Sending the same update again as the updated user changes nothing further. |
| Profiles.ReapplyChangesNothing | src/main/java/com/gvn/service/UserProfileService.java:78-92 | A request whose fields the row already holds saves the row as it is. |
| Profiles.UpdateProfileSaves | src/main/java/com/gvn/service/UserProfileService.java:61-95 | An update that passes both checks saves the row with the request applied. |
| Profiles.EmptyUpdateChangesNothing | src/main/java/com/gvn/service/UserProfileService.java:61-95 | An update with every field null saves the row unchanged. |
| Profiles.ChangePassword | src/main/java/com/gvn/service/UserProfileService.java:180-193 | A current password the hash rejects fails. Otherwise only the row's hash changes, to the encoding of the new password, and sessions are kept. |
| Profiles.ChangePasswordThenLogin | src/main/java/com/gvn/service/UserProfileService.java:180-193 | After a change the new password authenticates, and the store stays well formed. |
| Profiles.UpdateAvatar | src/main/java/com/gvn/service/UserProfileService.java:98-120 | A present but empty URL fails as a wrapped null-pointer error. A missing or empty image fails as a wrapped "File is empty or null", after the old file was already deleted and with the row unchanged. Otherwise the old file is replaced by the upload under "avatars", and the row is saved with its URL. |
| Profiles.DeleteAvatar | src/main/java/com/gvn/service/UserProfileService.java:123-133 | Without a URL nothing changes. A present but empty URL fails before anything changes. Otherwise the file is deleted and the row is saved without a URL. |
| Profiles.UpdateAvatarPreservesWf | src/main/java/com/gvn/service/UserProfileService.java:98-120 | A new avatar keeps the store well formed, and the saved row's URL, which the answer shows, names a stored file. |
| Profiles.DeleteAvatarPreservesWf | src/main/java/com/gvn/service/UserProfileService.java:123-133 | Removing the avatar keeps the store well formed, and the file it named is gone. |
| Profiles.DeleteAvatarTwice | src/main/java/com/gvn/service/UserProfileService.java:123-133 | Removing the avatar again, as the saved row, changes nothing. |
| Profiles.UpdateThenDeleteAvatar | src/main/java/com/gvn/service/UserProfileService.java:98-133 | Setting then removing an avatar leaves the store as removing the old one would, except that the new file is gone too. |
| Profiles.DeleteAfterUpdateAt | src/main/java/com/gvn/service/UserProfileService.java:123-133 | Removing the avatar of a row whose avatar is a stored path deletes that path and clears the URL. |
| Profiles.UpdateAvatarAt | src/main/java/com/gvn/service/UserProfileService.java:98-120 | A successful avatar update of a given row replaces only that row. |
| Profiles.DeleteAvatarAt | src/main/java/com/gvn/service/UserProfileService.java:123-133 | A successful avatar removal of a given row replaces only that row. |
| Profiles.DeleteUrls | src/main/java/com/gvn/service/UserProfileService.java:378-390 | After each URL's file is removed in turn, a stored file survives exactly when no URL names it. |
| Profiles.ReplaceImage | src/main/java/com/gvn/service/UserProfileService.java:286-295 | The old URL's file is deleted, the upload is stored, and its URL is returned. |
| Profiles.ReplacedImageRemoved | src/main/java/com/gvn/service/UserProfileService.java:286-306 | After a replacement the new image is stored, and the old one is gone unless the new file took the same path. |
| Profiles.NewPartnerProfile | src/main/java/com/gvn/service/UserProfileService.java:227-241 | The new profile holds the form's fields, the stored images' URLs and the certificate URLs, in state PENDING. |
| Profiles.AddPartner | src/main/java/com/gvn/service/UserProfileService.java:241-245 | The profile row is appended, and only the user's flag changes. |
| Profiles.AddPartnerPreservesWf | src/main/java/com/gvn/service/UserProfileService.java:241-245 | Adding a profile for a user who had none keeps the store well formed, and the user's view shows its state. |
| Profiles.AddPartnerKeepsLinks | src/main/java/com/gvn/service/UserProfileService.java:241 | Foreign keys and the one-to-one relation survive an appended profile for a user who had none. |
| Profiles.AppendedProfileFound | src/main/java/com/gvn/service/UserProfileService.java:241 | The profile appended for a user without one is the one found for them. |
| Profiles.AddPartnerKeepsFlags | src/main/java/com/gvn/service/UserProfileService.java:244-245 | Setting the flag while appending the profile keeps flags in agreement with profile rows. |
| Profiles.RegisterAsPartner | src/main/java/com/gvn/service/UserProfileService.java:196-253 | An existing profile is refused. Then an unparsable birthday, a missing front image and a missing back image each fail wrapped, with the database untouched. A front image already stored stays. Success stores the certificates, appends a PENDING profile and sets the flag. |
| Profiles.RegisterAsPartnerPreservesWf | src/main/java/com/gvn/service/UserProfileService.java:196-253 | A registration keeps the store well formed and answers with state "pending". |
| Profiles.RegisterAsPartnerTwice | src/main/java/com/gvn/service/UserProfileService.java:209-211 | A second registration by the saved user is refused and changes nothing. |
| Profiles.RegisteredFilesServed | src/main/java/com/gvn/service/UserProfileService.java:219-221 | The stored images and certificates are behind the URLs the new profile holds. |
| Profiles.NewProfileServed | src/main/java/com/gvn/service/UserProfileService.java:219-241 | The new profile names only stored files, and storing loses none of the files already there. |
| Profiles.MaybeReplaceImage | src/main/java/com/gvn/service/UserProfileService.java:286-306 | A present upload replaces the image, and its absence keeps image and files. |
| Profiles.MaybeReplaceCertificates | src/main/java/com/gvn/service/UserProfileService.java:308-330 | A given non-empty array deletes the old certificates' files and replaces the list with the new URLs; otherwise nothing changes. |
| Profiles.EmptyCertificateUploadsClear | src/main/java/com/gvn/service/UserProfileService.java:308-330 | An array of only absent or empty entries still deletes the old certificates and empties the list. |
| Profiles.UpdatedPartnerProfile | src/main/java/com/gvn/service/UserProfileService.java:278-333 | Given fields replace stored ones, the birthday is always replaced, the images and certificates are the computed ones, and the state is PENDING. |
| Profiles.UpdatePartnerProfile | src/main/java/com/gvn/service/UserProfileService.java:256-343 | A missing profile fails first, then an unparsable birthday, wrapped, with the files untouched. Success replaces present images and a non-empty certificate array, saves the updated profile in place, and keeps users and sessions. |
| Profiles.UpdatePartnerProfilePreservesWf | src/main/java/com/gvn/service/UserProfileService.java:256-343 | An update keeps the store well formed and answers with state "pending", whatever the state was. |
| Profiles.ProfileRewriteKeepsWf | src/main/java/com/gvn/service/UserProfileService.java:333-336 | Rewriting a profile in place with its owner kept keeps the store well formed, and it is still the one found for the owner. |
| Profiles.UpdateWithoutUploadsKeepsFiles | src/main/java/com/gvn/service/UserProfileService.java:286-330 | An update with no file in it touches no file. |
| Profiles.SessionsNotOwnedBy | src/main/java/com/gvn/repository/SessionRepository.java:23 | The sessions kept are exactly those of other users, in order. |
| Profiles.UsersWithoutPhone | src/main/java/com/gvn/repository/UserRepository.java:38 | The users kept are exactly those with another phone number. |
| Profiles.ProfilesNotOwnedBy | src/main/java/com/gvn/service/UserProfileService.java:156-160 | The profiles kept are exactly those of other users. |
| Profiles.DeletePartnerProfileFiles | src/main/java/com/gvn/service/UserProfileService.java:365-394 | The files behind the images and every certificate URL are removed; URLs with no path are skipped. |
| Profiles.DeleteProfile | src/main/java/com/gvn/service/UserProfileService.java:136-177 | A present but empty avatar URL fails with nothing changed. Otherwise the sessions, avatar file, profile files and profile are removed, then the rows with the user's phone number. |
| Profiles.UsersWithoutPhoneRemovesOnlyU | src/main/java/com/gvn/service/UserProfileService.java:164 | With unique ids and phones, removing by phone removes the user and keeps every other. |
| Profiles.SameRowIfSameKey | src/main/java/com/gvn/entity/User.java:21-25 | With unique ids and phones, two rows sharing either are the same row. |
| Profiles.HasProfileIff | src/main/java/com/gvn/repository/PartnerProfileRepository.java:13 | A user has a profile exactly when some profile row is theirs. |
| Profiles.DeleteProfilePreservesWf | src/main/java/com/gvn/service/UserProfileService.java:136-177 | Deletion keeps the store well formed and leaves no row, session or profile of the user. |
| Profiles.RemovalKeepsSessionsOwned | src/main/java/com/gvn/service/UserProfileService.java:144-145 | The sessions kept still have their owners. |
| Profiles.RemovalKeepsProfilesOwned | src/main/java/com/gvn/service/UserProfileService.java:156-160 | The profiles kept still have their owners. |
| Profiles.RemovalKeepsFlags | src/main/java/com/gvn/service/UserProfileService.java:156-164 | The users kept have flags that agree with the profiles kept. |
| Catalogue.Message | src/main/java/com/gvn/service/ServiceService.java:61-511 | Every catalogue failure is raised with a non-empty text, so the exception handler reports it unchanged. |
| Catalogue.NotFoundPhrase | src/main/java/com/gvn/service/ServiceService.java:152-163 | Lookup failures say "not found". |
| Catalogue.AlreadyExistsPhrase | src/main/java/com/gvn/service/ServiceService.java:180-182 | Uniqueness failures say "already exists". |
| Catalogue.CategoryIndex | src/main/java/com/gvn/service/ServiceService.java:228-229 | A category is found exactly when one has the id, and the one found has it. |
| Catalogue.ServiceIndex | src/main/java/com/gvn/service/ServiceService.java:335-336 | A service is found exactly when one has the id, and the one found has it. |
| Catalogue.ActiveCategories | src/main/java/com/gvn/repository/CategoryRepository.java:15 | The result is the active categories, as a permutation, in ascending display order. |
| Catalogue.ActiveCategoriesIff | src/main/java/com/gvn/repository/CategoryRepository.java:15 | A category is listed exactly when it is stored and active. |
| Catalogue.GetAllCategories | src/main/java/com/gvn/service/ServiceService.java:41-55 | One response per active category row. |
| Catalogue.GetAllCategoriesListsActive | src/main/java/com/gvn/service/ServiceService.java:41-51 | The listing holds exactly the active categories, in ascending display order. |
| Catalogue.GetCategoryById | src/main/java/com/gvn/service/ServiceService.java:152-163 | An unknown id fails with "Category not found"; otherwise the result is the response of a category with the id. |
| Catalogue.GetServiceById | src/main/java/com/gvn/service/ServiceService.java:333-344 | An unknown id fails with "Service not found"; otherwise the result is the response of a service with the id. |
| Catalogue.GetCategoryByIdFinds | src/main/java/com/gvn/service/ServiceService.java:152-163 | With unique ids, reading a stored category's id gives its own response. |
| Catalogue.GetServiceByIdFinds | src/main/java/com/gvn/service/ServiceService.java:333-344 | With unique ids, reading a stored service's id gives its own response. |
| Catalogue.ActiveServicesOf | src/main/java/com/gvn/repository/ServiceRepository.java:16 | The result is exactly the category's active services. |
| Catalogue.GetServicesByCategory | src/main/java/com/gvn/service/ServiceService.java:57-73 | An unknown category fails; otherwise the result lists its active services. |
| Catalogue.ActiveServicesListed | src/main/java/com/gvn/service/ServiceService.java:57-73 | Every active service of the category is listed, and nothing else is. |
| Catalogue.InactiveServicesHidden | src/main/java/com/gvn/service/ServiceService.java:57-73 | An inactive service is never listed. |
| Catalogue.RepeatAfter | src/main/java/com/gvn/service/ServiceService.java:86-90 | The key reported repeats an earlier one, and none is reported exactly when the keys are distinct. |
| Catalogue.FirstRepeat | src/main/java/com/gvn/service/ServiceService.java:86-90 | A list has a repeated key exactly when two positions share one. |
| Catalogue.OfferedServiceIds | src/main/java/com/gvn/repository/PartnerServiceRepository.java:17 | The ids are exactly those of the partner's active partner-service rows. |
| Catalogue.OfferedSet | src/main/java/com/gvn/service/ServiceService.java:86-90 | The set the filter tests holds exactly the offered ids. |
| Catalogue.GroupOf | src/main/java/com/gvn/service/ServiceService.java:94-109 | A group carries its category's id and name and exactly the active services in it that the partner offers. |
| Catalogue.AllGroups | src/main/java/com/gvn/service/ServiceService.java:93-109 | There is one group per active category, in display order. |
| Catalogue.GroupsOfActiveCategories | src/main/java/com/gvn/service/ServiceService.java:93-109 | Every group belongs to an active stored category. |
| Catalogue.GetAvailableServicesForPartner | src/main/java/com/gvn/service/ServiceService.java:79-116 | It fails with a duplicate-key message exactly when the partner's offered service ids repeat. Otherwise every group listed is non-empty and belongs to an active category. |
| Catalogue.AvailableServiceListed | src/main/java/com/gvn/service/ServiceService.java:79-116 | An active, offered service in an active category is listed under that category. |
| Catalogue.ListedServiceAvailable | src/main/java/com/gvn/service/ServiceService.java:79-116 | Whatever is listed is an active service of the group's category that the partner offers. |
| Catalogue.DisplayOrderOfStored | src/main/java/com/gvn/service/ServiceService.java:82 | With unique ids, a stored category's display order is the one its id finds. |
| Catalogue.AvailableGroupsOrdered | src/main/java/com/gvn/service/ServiceService.java:93-111 | The groups keep the categories' display order. |
| CatalogueEdits.NewIcon | src/main/java/com/gvn/service/ServiceService.java:186-199 | An oversized upload fails. A present upload is stored and its URL used; otherwise a trimmed icon URL with text is used; otherwise there is no icon. |
| CatalogueEdits.UploadedIconServed | src/main/java/com/gvn/service/ServiceService.java:195-196 | An uploaded icon's URL leads to a stored file. |
| CatalogueEdits.DropOldIcon | src/main/java/com/gvn/service/ServiceService.java:252-269 | No icon deletes nothing. Where only served icons count, a non-served icon deletes nothing. |
| CatalogueEdits.UpdatedIcon | src/main/java/com/gvn/service/ServiceService.java:244-271 | An upload replaces the icon after the size check and the old file's deletion. Otherwise a given URL replaces it, blank meaning none, and a served old icon's file is deleted. Otherwise it stays. |
| CatalogueEdits.SwitchToUrlDropsServedIcon | src/main/java/com/gvn/service/ServiceService.java:262-271 | Switching a served icon to a URL deletes the old file, and the new icon is the URL's text or none. |
| CatalogueEdits.CreateCategory | src/main/java/com/gvn/service/ServiceService.java:169-219 | A blank name fails, then a case-insensitive duplicate, then an oversized icon. Otherwise one row is appended: fresh id, trimmed name, order 0 and active unless given. |
| CatalogueEdits.AppendKeepsCategories | src/main/java/com/gvn/service/ServiceService.java:209 | Appending keeps every earlier category lookup. |
| CatalogueEdits.CreateCategoryPreservesWf | src/main/java/com/gvn/service/ServiceService.java:169-219 | Creation keeps ids unique, names distinct ignoring case, and services attached to categories. |
| CatalogueEdits.CreatedCategoryReadable | src/main/java/com/gvn/service/ServiceService.java:169-219 | A created category reads back by id as the response returned. |
| CatalogueEdits.CreateCategoryTwice | src/main/java/com/gvn/service/ServiceService.java:178-183 | Once a name is used, another category with that name up to case is refused. |
| CatalogueEdits.UpdateCategory | src/main/java/com/gvn/service/ServiceService.java:225-293 | An unknown id fails, then a name another category holds ignoring case, then an oversized icon. Otherwise the row is rewritten in place, null fields keeping their column. |
| CatalogueEdits.ReplaceKeepsCategories | src/main/java/com/gvn/service/ServiceService.java:283 | Replacing a category by one with the same id keeps every lookup. |
| CatalogueEdits.UpdateCategoryPreservesWf | src/main/java/com/gvn/service/ServiceService.java:225-293 | An update keeps the catalogue's constraints. |
| CatalogueEdits.UpdatedCategoryReadable | src/main/java/com/gvn/service/ServiceService.java:225-293 | An updated category reads back as the response returned. |
| CatalogueEdits.EmptyCategoryFormChangesNothing | src/main/java/com/gvn/service/ServiceService.java:225-293 | A form with every field null changes nothing. |
| CatalogueEdits.RenameToOwnNameAllowed | src/main/java/com/gvn/service/ServiceService.java:236 | Renaming a category to its own name, in any case, is never refused. |
| CatalogueEdits.DeleteCategory | src/main/java/com/gvn/service/ServiceService.java:299-327 | An unknown id fails, then a category with active services, and the message counts them. Otherwise its served icon's file and its row go. |
| CatalogueEdits.DeleteCategoryRemovesOnlyIt | src/main/java/com/gvn/service/ServiceService.java:319 | After the delete no category has the id, and every other one remains. |
| CatalogueEdits.DeleteCategoryKeepsConstraints | src/main/java/com/gvn/service/ServiceService.java:299-327 | Ids stay unique, names stay distinct, and every active service keeps its category. |
| CatalogueEdits.ActiveServiceKeepsCategory | src/main/java/com/gvn/service/ServiceService.java:305-308 | An active service's category survives a permitted delete. |
| CatalogueEdits.InactiveServicesDoNotBlock | src/main/java/com/gvn/service/ServiceService.java:305-308 | Inactive services never block deleting their category. |
| CatalogueEdits.TrimmedOrNull | src/main/java/com/gvn/service/ServiceService.java:394 | A given description is trimmed, a blank one kept as empty text, and a missing one stays null. |
| CatalogueEdits.CreateServiceCheck | src/main/java/com/gvn/service/ServiceService.java:355-372 | The checks run in order: code, name, category id, code uniqueness, category existence. |
| CatalogueEdits.CreateService | src/main/java/com/gvn/service/ServiceService.java:350-410 | The checks, then the icon size. Otherwise one row is appended: fresh id, trimmed code and name, the category, active unless given. |
| CatalogueEdits.CreateServicePreservesWf | src/main/java/com/gvn/service/ServiceService.java:350-410 | Creation keeps ids and codes unique, and the new service's category exists. |
| CatalogueEdits.AppendedServiceKeepsWf | src/main/java/com/gvn/service/ServiceService.java:400 | Appending a service with a fresh id, a free code and an existing category keeps the constraints. |
| CatalogueEdits.CreatedServiceReadable | src/main/java/com/gvn/service/ServiceService.java:350-410 | A created service reads back by id as the response returned. |
| CatalogueEdits.UpdateServiceCheck | src/main/java/com/gvn/service/ServiceService.java:420-433 | An unknown id fails first, then a given code held by another service. |
| CatalogueEdits.UpdatedService | src/main/java/com/gvn/service/ServiceService.java:432-485 | Given fields replace stored ones: trimmed code and name, a trimmed description or none when blank, and the given icon and category. |
| CatalogueEdits.UpdateService | src/main/java/com/gvn/service/ServiceService.java:416-497 | The checks, then the icon size, then the icon's file work, and only then the category. A missing category fails after the file work, with the row kept. |
| CatalogueEdits.ReplaceKeepsServices | src/main/java/com/gvn/service/ServiceService.java:487 | Replacing a service by one with the same id keeps every lookup. |
| CatalogueEdits.UpdateServicePreservesWf | src/main/java/com/gvn/service/ServiceService.java:416-497 | A successful update keeps ids and codes unique, and the category exists. |
| CatalogueEdits.UpdatedServiceReadable | src/main/java/com/gvn/service/ServiceService.java:416-497 | An updated service reads back as the response returned. |
| CatalogueEdits.OwnCodeAllowed | src/main/java/com/gvn/service/ServiceService.java:426-431 | Resubmitting a service's own code is never refused. |
| CatalogueEdits.UpdateServiceLosesIconOnBadCategory | src/main/java/com/gvn/service/ServiceService.java:446-480 | An upload naming a missing category fails, yet the served icon's file is gone while the kept row still names it. |
| CatalogueEdits.UpdateServiceValidated | src/main/java/com/gvn/service/ServiceService.java:416-497 | With the category checked before any file work, every failure leaves the files as they were. |
| CatalogueEdits.ValidatedAgreesWhenCategoryExists | src/main/java/com/gvn/service/ServiceService.java:476-480 | Wherever the category is valid or not given, the corrected order computes what the source does. |
| CatalogueEdits.UpdateServiceValidatedKeepsWf | src/main/java/com/gvn/service/ServiceService.java:416-497 | With a valid or absent category and an accepted form, the corrected update succeeds, keeps the catalogue's constraints, and the service then reads back exactly as the returned response. |
| CatalogueEdits.DeleteService | src/main/java/com/gvn/service/ServiceService.java:503-531 | An unknown id fails, then a service named by any partner-service row, and the message counts them. Otherwise its served icon's file and its row go. |
| CatalogueEdits.DeleteServicePreservesWf | src/main/java/com/gvn/service/ServiceService.java:503-531 | A delete keeps the constraints, removes the id and keeps every other service. |
| CatalogueEdits.DeleteServiceKeepsOffersResolved | src/main/java/com/gvn/service/ServiceService.java:509-512 | No partner-service row is left naming a deleted service. |
| CatalogueEdits.KeptServiceFound | src/main/java/com/gvn/service/ServiceService.java:523 | Any other service is still found after the delete. |
| Banners.Message | src/main/java/com/gvn/service/BannerService.java:112-201 | A rethrown failure's text is longer than its cause, and the cause is never empty. |
| Banners.NotFoundPhrase | src/main/java/com/gvn/service/BannerService.java:66-70 | A missing banner's message says "not found", wrapped or not. |
| Banners.BannerIndex | src/main/java/com/gvn/service/BannerService.java:67-68 | A banner is found exactly when one has the id, and the one found has it. |
| Banners.BannerIndexUnique | src/main/java/com/gvn/entity/Banner.java:20 | With unique ids, a stored banner's id finds that banner. |
| Banners.BannersByDisplayOrder | src/main/java/com/gvn/repository/BannerRepository.java:21 | The result is all banners, as a permutation, in ascending display order. |
| Banners.ActiveBannersByDisplayOrder | src/main/java/com/gvn/repository/BannerRepository.java:16 | The result is the active banners, as a permutation, in ascending display order. |
| Banners.GetActiveBanners | src/main/java/com/gvn/service/BannerService.java:29-46 | One response per active banner row, in ascending display order. |
| Banners.GetAllBanners | src/main/java/com/gvn/service/BannerService.java:48-58 | One response per banner row, inactive ones included, in ascending display order. |
| Banners.MappedAscending | src/main/java/com/gvn/service/BannerService.java:34-36 | Responses of a display-ordered list are in display order. |
| Banners.RearrangedListing | src/main/java/com/gvn/service/BannerService.java:34-36 | The responses of a permutation show every row of the pool and nothing else. |
| Banners.ActiveBannersListed | src/main/java/com/gvn/service/BannerService.java:29-41 | The active listing shows every active banner and only active ones, in display order. |
| Banners.AllBannersListed | src/main/java/com/gvn/service/BannerService.java:48-58 | The full listing shows every banner and nothing else, in display order. |
| Banners.GetBannerById | src/main/java/com/gvn/service/BannerService.java:66-70 | An unknown id fails, unwrapped; otherwise the result is the response of a banner with the id. |
| Banners.GetBannerByIdFinds | src/main/java/com/gvn/service/BannerService.java:66-70 | With unique ids, a stored banner reads back as its own response. |
| Banners.CreateBanner | src/main/java/com/gvn/service/BannerService.java:82-114 | A blank title fails first, then a missing image. Otherwise the image is stored and one banner appended: fresh id, trimmed title, the image URL, link trimmed or none, order 0 and active unless given. |
| Banners.CreateBannerMessages | src/main/java/com/gvn/service/BannerService.java:86-112 | The validation failures reach the caller with the "Failed to create banner: " prefix. |
| Banners.CreatedBannerReadable | src/main/java/com/gvn/service/BannerService.java:82-114 | A created banner keeps ids unique and reads back as the response, and its URL leads to the stored image. |
| Banners.UpdatedBanner | src/main/java/com/gvn/service/BannerService.java:134-166 | A title with text replaces the old one trimmed, a given link replaces it (blank meaning none), and a given order or flag replaces it. |
| Banners.UpdateBanner | src/main/java/com/gvn/service/BannerService.java:127-176 | An unknown id fails. Otherwise a present image deletes the old file and stores the new one, and the row is rewritten in place. |
| Banners.EmptyBannerFormChangesNothing | src/main/java/com/gvn/service/BannerService.java:127-176 | An update with no field given changes nothing and returns the stored banner. |
| Banners.BlankFieldsOnUpdate | src/main/java/com/gvn/service/BannerService.java:134-156 | A blank link clears the link, and a blank title keeps the old title. |
| Banners.UpdateBannerReplacesImage | src/main/java/com/gvn/service/BannerService.java:139-151 | A new image removes the old served file, and the banner carries the new file's URL. |
| Banners.UpdatedBannerReadable | src/main/java/com/gvn/service/BannerService.java:127-176 | An update keeps ids unique, the banner reads back as the response, and every other banner is untouched. |
| Banners.DeleteBanner | src/main/java/com/gvn/service/BannerService.java:183-203 | An unknown id fails. Otherwise the image's file and the row are removed. |
| Banners.DeletedBannerGone | src/main/java/com/gvn/service/BannerService.java:183-203 | After a delete the banner reads as not found, its image file is gone, and every other banner remains. |
| Banners.DeleteBannerKeepsUniqueIds | src/main/java/com/gvn/service/BannerService.java:197 | Deleting keeps ids unique. |
| ErrorHandling.RuntimeText | src/main/java/com/gvn/exception/GlobalExceptionHandler.java:82-85 | A null or empty message becomes "An error occurred"; any other is kept. |
| ErrorHandling.HandleRuntimeException | src/main/java/com/gvn/exception/GlobalExceptionHandler.java:77-104 | 401 for an authentication phrase, else 404 for "not found", else 409 for "already exists" or "duplicate", else 400. An authentication failure saying "already exists" is reported as "Authentication failed". |
| ErrorHandling.RuntimeReplyShape | src/main/java/com/gvn/exception/GlobalExceptionHandler.java:88-103 | The reply is a failure envelope with a message, a client status, and the status as its return code. The only replaced message is an authentication failure saying "already exists". |
| ErrorHandling.NotFoundReply | src/main/java/com/gvn/exception/GlobalExceptionHandler.java:96-97 | A message naming a missing resource and no authentication failure is 404 with its own text. |
| ErrorHandling.CatalogueLookupsAreNotFound | src/main/java/com/gvn/exception/GlobalExceptionHandler.java:96-97 | The catalogue's lookup failures reach the client as 404 with their message. |
| ErrorHandling.BannerLookupsAreNotFound | src/main/java/com/gvn/exception/GlobalExceptionHandler.java:96-97 | A missing banner in an update or delete reaches the client as 404. |
| ErrorHandling.DuplicateNameMentioningAuth | src/main/java/com/gvn/exception/GlobalExceptionHandler.java:89-95 | A duplicate category whose name carries an authentication phrase is reported as an authentication failure. |
| ErrorHandling.PlainReply | src/main/java/com/gvn/exception/GlobalExceptionHandler.java:88 | A message naming none of the phrases is 400 with its own text. |
| ErrorHandling.EmptyMessageIsGeneric | src/main/java/com/gvn/exception/GlobalExceptionHandler.java:82-85 | A null or empty message is 400 "An error occurred". |
| ErrorHandling.HandleValidationErrors | src/main/java/com/gvn/exception/GlobalExceptionHandler.java:22-40 | 400 with the message of one of the field errors, or "Validation error" when there are none. |
| ErrorHandling.AnyFieldMessageMayBeReported | src/main/java/com/gvn/exception/GlobalExceptionHandler.java:26-36 | Every field error's message can be the one reported. |
| ErrorHandling.HandleUnreadableBody | src/main/java/com/gvn/exception/GlobalExceptionHandler.java:52-67 | A 400 `ApiResponse.error` envelope. A cause mentioning "LocalDate" or "date" is a date-format error, any other cause message is appended, and no cause gives the generic text. |
| ErrorHandling.HandleJsonProcessing | src/main/java/com/gvn/exception/GlobalExceptionHandler.java:69-75 | A 400 `ApiResponse.error` envelope saying "Invalid JSON format" with the parser's message. |
| ErrorHandling.HandleOtherException | src/main/java/com/gvn/exception/GlobalExceptionHandler.java:106-114 | Any other exception is a 500 `ApiResponse.error` envelope with a fixed message. |
| ErrorHandling.FailureReplyShape | src/main/java/com/gvn/exception/GlobalExceptionHandler.java:65-66 | An `ApiResponse.error` reply has no payload, is flagged as a failure, and its error detail repeats the message with the HTTP status as the return code. |
| ErrorHandling.EveryHandlerRepliesWithFailure | src/main/java/com/gvn/exception/GlobalExceptionHandler.java:52-114 | The validation, unreadable-body, JSON and fallback handlers all reply with a failure envelope whose message is present and whose return code is the HTTP status; only the fallback answers 500. |
| AuthEndpoints.LoginReply | src/main/java/com/gvn/controller/AuthController.java:29-71 | 200 exactly on success. 401 with the fixed text exactly for a runtime failure naming invalid credentials. 500 with the generic text exactly for a non-runtime failure. Anything else is 400: "Login failed. Please check your credentials." when the message says "already exists", otherwise the exception's own message, or "Login failed" when it has none. |
| AuthEndpoints.ExactCredentialsTestRedundant | src/main/java/com/gvn/controller/AuthController.java:39-40 | The exact-message test is subsumed by the phrase test after it. |
| AuthEndpoints.LoginNeverSaysAlreadyExists | src/main/java/com/gvn/controller/AuthController.java:50-57 | Whatever the service fails with, the login endpoint never answers "already exists". |
| AuthEndpoints.RefreshReply | src/main/java/com/gvn/controller/AuthController.java:75-98 | 200 on success, and any runtime failure is 401 with its own message. |
| AuthEndpoints.SignupReply | src/main/java/com/gvn/controller/AuthController.java:101-132 | 200 on success. The exact duplicate-phone message is 409 with the friendlier text, and any other failure is 400 with its own message. |
| AuthEndpoints.Login | src/main/java/com/gvn/controller/AuthController.java:25-72 | An invalid body is 400. A valid one is 200 exactly when the credentials authenticate and 401 otherwise, and only a 200 changes the database. |
| AuthEndpoints.Refresh | src/main/java/com/gvn/controller/AuthController.java:75-98 | Every refresh failure is 401 with the service's message and leaves the database unchanged. |
| AuthEndpoints.Signup | src/main/java/com/gvn/controller/AuthController.java:101-132 | An invalid body is 400. A valid one is 409 exactly when the phone is taken and 200 otherwise, and only a 200 changes the database. |
| AuthEndpoints.SignupThenLogin | src/main/java/com/gvn/controller/AuthController.java:25-132 | A signup answered 200 opens an account that logs in with the same phone number and password. |
| AuthEndpoints.SignupTwiceConflicts | src/main/java/com/gvn/controller/AuthController.java:112-118 | Signing up the same body twice is refused the second time with 409. |
| Responses.Succeeded | src/main/java/com/gvn/dto/response/ApiResponse.java:27-33 | A success envelope is consistent and flagged successful, and it carries the given data and message. |
| Responses.Failed | src/main/java/com/gvn/dto/response/ApiResponse.java:35-44 | An error envelope is consistent and flagged failed, with the given message and return code. |
| Responses.ConsistentIsConstructed | src/main/java/com/gvn/dto/response/ApiResponse.java:27-44 | Every consistent envelope comes from one of the two constructors, chosen by its flag. |
| Requests.PhoneErrors | src/main/java/com/gvn/dto/request/RegisterRequest.java:15-16 | "Phone number is required" appears exactly when the phone is null or blank, and the format error exactly when a present phone breaks the pattern. |
| Requests.LoginPasswordErrors | src/main/java/com/gvn/dto/request/LoginRequest.java:18 | A login password has an error exactly when it is null or blank. |
| Requests.RegisterPasswordErrors | src/main/java/com/gvn/dto/request/RegisterRequest.java:19-20 | "Password is required" appears exactly when the password is blank, and the length error exactly when a present one is under six characters. |
| Requests.ValidateLogin | src/main/java/com/gvn/dto/request/LoginRequest.java:14-18 | A missing or blank phone, a phone off the pattern and a missing or blank password are each reported exactly when they occur, and every error names one of the two fields. |
| Requests.ValidateRegister | src/main/java/com/gvn/dto/request/RegisterRequest.java:15-20 | The same for signup, with the under-six-characters error reported exactly when a present password is too short. |
| Requests.PatternedPhoneNotBlank | src/main/java/com/gvn/dto/request/LoginRequest.java:14-15 | A phone number matching the pattern is never blank. |
| Requests.PhoneErrorsEmptyIff | src/main/java/com/gvn/dto/request/LoginRequest.java:14-15 | The phone field passes exactly when it is present and matches the pattern. |
| Requests.LoginValidIff | src/main/java/com/gvn/dto/request/LoginRequest.java:14-18 | A login body passes validation exactly when it is acceptable to the service. |
| Requests.RegisterValidIff | src/main/java/com/gvn/dto/request/RegisterRequest.java:15-20 | A signup body passes validation exactly when it is acceptable to the service. |
| Requests.RegisterStricterThanLogin | src/main/java/com/gvn/dto/request/RegisterRequest.java:19-20 | Every valid signup body is a valid login body. |
| Requests.ShortPasswordOnlyLogsIn | src/main/java/com/gvn/dto/request/RegisterRequest.java:19-20 | A five-character password passes login validation but not signup validation. |
| Requests.NullAndBlankPhone | src/main/java/com/gvn/dto/request/RegisterRequest.java:15-16 | A null phone breaks only the required rule, while a present empty one breaks the pattern too. |
| Text.GivenText | src/main/java/com/gvn/service/BannerService.java:101 | A text is given exactly when it is present and non-blank, and then it is taken trimmed. |
| Text.Trim | src/main/java/com/gvn/service/BannerService.java:99 | `String.trim`: the result is empty exactly when every character is at most a space; otherwise it is the slice of the input that starts at the first and ends at the last character above a space. |

## Left out

- JWT signing and parsing are abstract. The HMAC-SHA key, the JSON claim encoding and jjwt's error cases are not modelled. A `Codec` supplies signing and verifying, and lemmas assume its soundness: claims round-trip until expiry, and the empty string never parses.
- BCrypt is abstract. A `Hasher` supplies encoding and matching, and lemmas assume a password matches its own encoding.
- Disk I/O is not modelled. `Files.StoreFile` never fails for I/O reasons, `Files.Extension` works on the original name's text only, and the directory creation and the byte copy are left out. The executor-based parallel upload of `storeMultipleFiles` is modelled as storage in input order.
- Files.DeleteByUrl: a URL that is exactly the files prefix yields the empty path. The source's `deleteFile("")` resolves that to the upload directory itself. The model removes `""` from the store, which changes nothing, because no stored path is empty.
- Transactions are assumed to roll back the database on any failure and never the files. JPA flushing, lazy loading and `deleteProfile`'s post-deletion consistency check are not modelled.
- The clock is read once per operation, as epoch seconds; the source's separate readings and their skew are left out. `LocalDateTime`, time zones and the millisecond precision of JWT dates are not modelled.
- The JSON text of the health-certificate list is modelled as a list of URLs. Its parse failure in the source is swallowed, and no list the service writes can fail to parse.
- UUIDs are natural numbers. Generated keys are one above every key in use, and the UUID text in file names is a supplied sequence.
- Case-insensitive name comparison folds ASCII letters only.
- Catalogue.ActiveServicesOf: the services come in table order rather than `ORDER BY name`, so the listing states membership, not name order.
- `getOptionsBySource` and the `ServiceOption` table are not part of this model; only service categories, services and partner-service rows are.
- CatalogueEdits.DeleteCategory: the database's foreign key from inactive services to their category is not enforced, so a category whose only services are inactive is deleted and those services keep a dangling category id, as `DeleteCategoryKeepsConstraints` states.
- `findByCode` over rows with a repeated code would throw in the source; code uniqueness is an invariant of the model instead.
- Auth.Message: the text for two sessions holding one refresh token, "Query did not return a unique result", approximates the persistence library's exception message, which also states the number of rows returned. The refresh endpoint passes this text on as its 401 message.
- Auth.SameSecondLoginsBlockRefresh: the model assumes `sessions.refresh_token` carries no unique constraint, so two logins in one second can both store their identical refresh token. The `Session` entity is not part of this model; with such a constraint the second login would fail instead.
- Entities.UniqueEmails: no database constraint keeps emails unique. Only `updateProfile`'s `findByEmail` check keeps them apart, and that lookup would throw on rows that already share an email. Email uniqueness is therefore an application invariant assumed of the initial store and preserved by every write.
- `RefreshTokenRequest` is not part of this model. The refresh endpoint takes the token text directly.
- Banners.CreateBanner: a storage failure of the image is not modelled, because `Files.StoreFile` cannot fail once the image is present.
- Requests.RegisterPasswordErrors: `@Size` counts UTF-16 code units; the model counts characters.
- ErrorHandling.HandleValidationErrors: which field's message wins depends on `HashMap` iteration order, so the model takes the choice as a parameter `pick` and states only that the message is one of the errors'.
- Profiles.Message: the text of a null-pointer exception is not known. An unwrapped `NullPointer` therefore carries no message. When `updateAvatar` wraps one, the text after "Failed to update avatar: " is taken to be "null", which is what concatenation renders for an exception without a message.
- Logging, the `X-Platform` header, CORS and CSRF, `handleMethodNotSupported`, `WebConfig`, and the controllers other than `AuthController` are not part of this model.
- Partner profile rows are keyed by their owner's id. The profile's own UUID is not modelled.
- AuthEndpoints.Login: the 500 branches of the controller are unreachable, because every service failure is a runtime exception. Each endpoint states the runtime handling only.
- Profiles.DeleteProfile: rows of other tables that reference the user are not modelled. A partner's `partner_services` rows are not in the profile store, so the model does not show the native user delete failing on their foreign key after the avatar and dossier files are gone. The `PartnerService` entity is not part of this model.
- Profiles.DeleteProfile: concurrent changes between the filter loading the principal and the service reading it are left out; the principal is a row of the store.

## Findings

| source | as written | input that shows it | evidently intended | confidence | as-written member | corrected member |
|---|---|---|---|---|---|---|
| src/main/java/com/gvn/service/ServiceService.java:446-480 | `updateService` deletes the old icon file and stores the new upload before it looks up the category. A missing category then throws, the transaction rolls the row back to its old icon URL, and the file that URL names is already deleted. | A service whose icon is a served URL `/api/v1/files/services/a.png`, updated with a non-empty icon upload and a `categoryId` that names no category. | Validate the category before any file work, so that a failed update leaves the files as they were. | not executed | CatalogueEdits.UpdateServiceLosesIconOnBadCategory | CatalogueEdits.UpdateServiceValidated |
