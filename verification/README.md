# RBAC service core in Dafny

This project models the core of the Bones RBAC service. It is a role-based access control layer for PHP APIs: users,
tenants, tenant memberships, roles, teams, permissions, user keys, tokens, one-time passwords and invitations. The
model is made of immutable tables (`seq` of rows, in storage listing order) and pure functions over them:

- **Permission resolver** (`Resolver`, `User.php`). A signed-in user's tenants, roles, teams, permissions,
  invitations and meta, with the session cache the class keeps.
  - The list queries are proved equal to relational definitions over the join tables. `PermissionGranted` is the
    decision table: disabled, admin, tenant owner, role member.
- **Protected prefix** (`ProtectedPrefix`, `HasProtectedPrefix.php`). The read, write and delete filters on
  prefixed meta keys, and the with/only/reset modes.
- **One-time passwords** (`UserMeta`, `Totp`). Creating one with a throttle, reading it (an invalid one is deleted),
  deleting it, purging expired ones, and the `Totp` value object.
- **Token stores** (`UserMeta` and `UserTokens`). JWT issue, record keeping, revocation and expiry purges. The
  `TokenAuth` module models `TokenAuthenticator`.
- **Credential authenticators** (`Authenticators`): password, email, user id, user key and OTP.
- **User keys** (`UserKeys`). Key generation without hash collisions, the expiry policy, the raw key shown once,
  lookup by raw key, and `last_used`.
- **Tenancy** (`Store`, `Users`, `Tenants`, `TenantUsers`, `Invitations`). The ORM hooks that keep the ownership
  invariant "a tenant's owner is a member of the tenant": `Store.Valid`, together with the keys and unique
  constraints. Each operation is proved to preserve `Store.Valid`.
- **Service** (`RbacService`). Configuration defaults, the table prefix and hashing.

Some operations in the source depend on things outside the model. These become parameters:

- Identifiers the source generates (UUIDs, random raw keys) are passed in (`freshId`, `candidates`).
- The clock is `now`.
- The keyed hash of `RbacService::createHash` is `H`. The SHA-256 key hash of user keys is a separate parameter `KH`,
  and `PH` is the salted password hash.
- The validator's `email` test is the predicate parameter `IsEmail`. The length rules are modelled (`Rules`).
- A storage fault is an `up: bool` flag. When it is false, the call takes the source's `UnexpectedException` path.
- A JWT as the library decodes it is `Jwt.Token`: its claims and whether its signature verifies.
- The configuration `RbacService.Config` is the flattened map from dotted paths (`user.token.revocable`) to values,
  which is how `Arr::get` resolves a dotted key through the nested configuration arrays.
- The tenant slug transform is the function parameter `Slug`.

The tables follow the schema of `CreateRbacServiceSchema.php`. Invitations keep their `deleted_at` column and are
soft-deleted, as `TenantInvitationsModel` reads that column in its own queries. Migration v1.1 later drops the column
from `user_meta` and `tenant_invitations`; the model does not follow that migration.

## Model

| member | source | states |
|---|---|---|
| RbacService.GetConfig | src/RbacService.php:80-83 | a configured dotted key yields its value, a missing one the default |
| RbacService.RequireVerification | src/Authenticators/PasswordAuthenticator.php:77-80 | verification is required unless `user.require_verification` is set to something other than `true` (default `true`, strict comparison) |
| RbacService.VerificationSwitchedOff | src/Models/UsersModel.php:512 | switched off only by an explicit `false`; switched off implies not required |
| RbacService.Revocable | src/Models/UserMetaModel.php:433 | access tokens are revocable only when `user.token.revocable` is exactly `true` |
| RbacService.AccessDuration | src/Models/UserMetaModel.php:430 | access tokens default to 5 minutes; a configured integer wins |
| RbacService.RefreshDuration | src/Models/UserMetaModel.php:457 | refresh tokens default to 10080 minutes; a configured integer wins |
| RbacService.KeyMaxMins | src/Models/UserKeysModel.php:195-202 | the user-key lifetime bound defaults to 0 (no bound) |
| RbacService.InvitationDuration | src/Models/TenantInvitationsModel.php:182 | invitations default to a lifetime of 0 minutes |
| RbacService.ProtectedPrefix | src/Traits/HasProtectedPrefix.php:77-80 | the protected prefix defaults to `_app-` |
| RbacService.TableName | src/RbacService.php:91-94 | a table name is the configured prefix followed by the table, or the bare table |
| RbacService.HashMatches | src/RbacService.php:114-117 | a hash matches exactly when it equals the hash of the raw value |
| RbacService.HashRoundTrip | src/RbacService.php:102-117 | the hash created from a value matches that value |
| RbacService.OtpAlphabet.Name | src/RbacService.php:120-123 | the OTP alphabet names are the four constants |
| RbacService.AlphabetNamesDistinct | src/RbacService.php:120-123 | distinct alphabets have distinct names |
| Totp.Totp.GetCreatedAt | src/Totp.php:32-35 | `created_at` of the array, 0 when absent |
| Totp.Totp.GetExpiresAt | src/Totp.php:42-45 | `expires_at` of the array, 0 when absent |
| Totp.Totp.GetValue | src/Totp.php:52-55 | `value` of the array, empty when absent |
| Totp.Totp.GetTotp | src/Totp.php:22-25 | the array read back rebuilds the same OTP |
| Totp.Make | src/Totp.php:12-55 | an OTP built from three values reads them back through the getters |
| ProtectedPrefix.WithProtectedPrefix | src/Traits/HasProtectedPrefix.php:55-59 | sets the "with" flag and keeps the "only" flag |
| ProtectedPrefix.OnlyProtectedPrefix | src/Traits/HasProtectedPrefix.php:66-70 | sets the "only" flag and keeps the "with" flag |
| ProtectedPrefix.Reset | src/Traits/HasProtectedPrefix.php:169-173 | both flags cleared |
| ProtectedPrefix.ReadVisible | src/Traits/HasProtectedPrefix.php:90-113 | only-mode shows exactly the prefixed keys (case-insensitive); with-mode shows all; by default prefixed keys are hidden |
| ProtectedPrefix.SensitiveImpliesInsensitive | src/Traits/HasProtectedPrefix.php:90-134 | a key the write filter sees as prefixed is also prefixed for the read filter |
| ProtectedPrefix.OnlyModeWriteRejectsEverything | src/Traits/HasProtectedPrefix.php:123-134 | with only the "only" flag set, the write filter as written rejects every key |
| ProtectedPrefix.OnlyModeWriteCounterexample | src/Traits/HasProtectedPrefix.php:126-129 | `_app-tfa` in only-mode: rejected as written, admitted by the corrected filter |
| ProtectedPrefix.WriteCheck | src/Traits/HasProtectedPrefix.php:123-134 | only-mode admits exactly the prefixed keys; with-mode admits all; by default prefixed keys are refused (`InvalidField`) |
| ProtectedPrefix.WriteCheckAgreesOutsideOnlyMode | src/Traits/HasProtectedPrefix.php:123-134 | the corrected write filter agrees with the code in every other mode |
| ProtectedPrefix.DeleteCheck | src/Traits/HasProtectedPrefix.php:144-161 | the delete filter refuses exactly the keys the corrected write filter refuses |
| ProtectedPrefix.WriteCheckIsCaseSensitive | src/Traits/HasProtectedPrefix.php:90-161 | `_APP-x` is hidden from reads but may be written and deleted by default |
| Jwt.ParseKind | src/Models/UserMetaModel.php:428-476 | the type string selects access or refresh exactly by name; anything else selects neither |
| Jwt.CreateJwt | src/Models/UserMetaModel.php:392-412 | the issued token carries `sub`, `iat` = `nbf` = now, `exp`, a `jti` only when non-empty, and the filtered payload with `type` set last |
| Jwt.DefaultPolicy | src/Models/UserMetaModel.php:428-476 | unconfigured: access tokens live 300 s and are not recorded, refresh tokens live 604800 s and are recorded |
| Json.IntOr | src/Authenticators/TokenAuthenticator.php:115-117 | `Arr::get` with a default: the member when present, the default when absent |
| Json.StrOr | src/Totp.php:52-55 | `Arr::get` with a default for strings |
| Store.UserById | src/Models/UsersModel.php:440-453 | the user with the primary key, none exactly when no row has it |
| Store.TenantById | src/Models/TenantsModel.php:438-451 | the tenant with the primary key, none exactly when no row has it |
| Store.GetOwnerId | src/Models/TenantsModel.php:438-451 | the owner column, or `DoesNotExist` exactly when the tenant is missing or its owner is null or falsy |
| Store.UserInTenant | src/Models/TenantUsersModel.php:392-400 | true exactly when a membership row links the user to the tenant |
| Store.FindByUserId | src/Models/TenantUsersModel.php:369-383 | the membership row, or `DoesNotExist` exactly when there is none |
| Store.RemoveTenantUsers | src/Migrations/CreateRbacServiceSchema.php:165-196 | deleting memberships cascades to their role and team links; nothing else changes |
| Store.RemoveKeepsValid | src/Models/TenantUsersModel.php:297-313 | removing memberships that are no tenant's owner row keeps the invariant |
| Users.FindByEmail | src/Models/UsersModel.php:440-453 | the user with the email, or `DoesNotExist` exactly when none has it |
| Users.Create | src/Models/UsersModel.php:89-201 | an email failing the `email` or `maxLength:255` rule or a password over 255 characters is `InvalidField`, exactly; then a used email is `AlreadyExists`; a new user has the fresh id, the salted hash of the password, no verification and no update stamp; the invariant holds |
| Users.UpdatePassword | src/Models/UsersModel.php:89-278 | a password over 255 characters breaks its write rule (`InvalidField`); otherwise the new password is hashed under the existing salt and a missing salt is `DoesNotExist`; nothing else changes |
| Users.Verify | src/Models/UsersModel.php:480-495 | every row with the email gets `verified_at` = now; other rows unchanged |
| Users.Unverify | src/Models/UsersModel.php:463-472 | every row with the email loses `verified_at`; other rows unchanged |
| Users.VerifyThenUnverify | src/Models/UsersModel.php:463-495 | verifying then unverifying restores each row except its update stamp |
| Users.Delete | src/Models/UsersModel.php:341-358 | a tenant owner cannot be deleted (`InvalidRequest`); otherwise the user and its memberships go and the invariant holds |
| Users.DeleteEachUsers | src/Models/UsersModel.php:509-537 | deleting in turn never adds users, and a finished run removed exactly the listed ids |
| Users.DeleteEachStops | src/Models/UsersModel.php:509-537 | a run stops only on a missing user or a tenant owner, and a finished run met no owner |
| Users.DeleteUnverified | src/Models/UsersModel.php:509-537 | a no-op when verification is switched off; otherwise a finished run leaves exactly the users not selected; a refusal names a selected owner |
| Users.SelectedIds | src/Models/UsersModel.php:509-537 | under unique ids, a user's id is selected exactly when the user is |
| Tenants.FindByDomain | src/Models/TenantsModel.php:416-429 | the tenant with the domain, or `DoesNotExist` exactly when none has it |
| Tenants.Create | src/Models/TenantsModel.php:88-325 | fields breaking their write rules (owner 36 characters, domain at most 63, name at most 255, `enabled` a boolean when given) are `InvalidField`; a missing owner is `DoesNotExist`; the domain is stored slugged and a used slug is `AlreadyExists`; a new tenant also adds the owner as a member, which needs the new tenant id to pass the membership's UUID rule; a failed membership insert leaves no tenant behind; the invariant holds |
| Tenants.CreateKeepsValid | src/Models/TenantsModel.php:199-221 | adding the tenant with its owner's membership keeps the invariant |
| Tenants.UpdateOwner | src/Models/TenantsModel.php:269-294 | the new owner must be a 36-character id and already a member (`InvalidField` otherwise); the invariant holds |
| Tenants.OwnerChangeKeepsValid | src/Models/TenantsModel.php:269-294 | moving ownership to a member keeps the invariant |
| Tenants.CreateThenFind | src/Models/TenantsModel.php:318-426 | after a create, the slugged domain finds the tenant and the raw domain, when it differs, finds nothing; the owner id reads back and the owner is in the tenant |
| TenantUsers.Create | src/Models/TenantUsersModel.php:85-174 | a tenant or user id that is not 36 characters is `InvalidField`, exactly; then a new membership needs an existing tenant and user and no existing membership of the pair |
| TenantUsers.UpdateGuard | src/Models/TenantUsersModel.php:220-250 | the owner's membership cannot move to another tenant or user (`InvalidField`); an unreadable owner is `Unexpected` |
| TenantUsers.Update | src/Models/TenantUsersModel.php:85-250 | a supplied tenant or user id that is not 36 characters is `InvalidField`; then the guard's refusals are returned; an update rewrites only the one row and keeps the invariant |
| TenantUsers.GuardProtectsOwnerRow | src/Models/TenantUsersModel.php:220-250 | whatever passes the guard leaves an owner row's tenant and user in place |
| TenantUsers.Delete | src/Models/TenantUsersModel.php:297-313 | the owner's membership cannot be deleted (`InvalidRequest`); an unreadable owner is `Unexpected`; the invariant holds |
| TenantUsers.DeleteSparesOwners | src/Models/TenantUsersModel.php:297-313 | deleting a non-owner membership keeps the invariant |
| TenantUsers.OwnerMembershipCannotBeDeleted | src/Models/TenantUsersModel.php:297-313 | every owner has a membership row, and deleting it is refused with nothing changed |
| Invitations.Create | src/Models/TenantInvitationsModel.php:89-184 | an email failing the `email` or `maxLength:255` rule, or a tenant or role id that is not 36 characters, is `InvalidField`, exactly; then tenant and role must exist; one invitation per email and tenant; success exactly when all hold and the id is fresh; it expires `invitation_duration` minutes after now |
| Invitations.SoftDelete | src/Models/TenantInvitationsModel.php:387-391 | the delete of an expired invitation marks the row deleted (the model has a `deleted_at` field) and keeps it |
| Invitations.HardDelete | src/Models/TenantInvitationsModel.php:434 | a hard delete removes exactly the row with the id |
| Invitations.GrantRole | src/Models/TenantInvitationsModel.php:417-430 | the role is held afterwards whether it was granted now or already held |
| Invitations.Join | src/Models/TenantInvitationsModel.php:400-415 | ids failing the membership's UUID rule are `InvalidField`; otherwise an existing membership is found instead of created |
| Invitations.Accept | src/Models/TenantInvitationsModel.php:382-438 | an expired invitation is soft-deleted and refused; an unknown email is refused; success leaves the user a member with the role and the invitation removed |
| Invitations.AcceptFromId | src/Models/TenantInvitationsModel.php:452-469 | only a non-deleted invitation with the id is accepted |
| Invitations.AcceptFromEmail | src/Models/TenantInvitationsModel.php:484-502 | only a non-deleted invitation for the email and tenant is accepted |
| Invitations.AcceptWhenAlreadyGranted | src/Models/TenantInvitationsModel.php:400-430 | an invitation for a membership and role already held still succeeds and changes only the invitations (the ids being UUIDs, so the membership create reaches its `AlreadyExists`) |
| Invitations.ExpiredGrantsNothing | src/Models/TenantInvitationsModel.php:386-391 | an expired invitation adds no membership or role and is marked deleted |
| Resolver.Memberships | src/User.php:238-272 | the user's memberships are exactly the joins of their membership rows with existing tenants |
| Resolver.RolesFor | src/User.php:416-447 | a membership's roles are exactly the roles its role links name |
| Resolver.TeamsFor | src/User.php:521-552 | a membership's teams are exactly the teams its team links name |
| Resolver.OwnerPermissions | src/User.php:653-720 | an owner's permissions are exactly those activated for the tenant |
| Resolver.RolePermissions | src/User.php:653-720 | the permissions reachable from the listed roles through role and tenant permissions |
| Resolver.LoadTenants | src/User.php:238-272 | memberships load once per session and are reused afterwards |
| Resolver.GetTenants | src/User.php:280-290 | the tenants of every loaded membership are listed |
| Resolver.InTenant | src/User.php:299-302 | true exactly when a listed tenant has the id |
| Resolver.TenantIsEnabled | src/User.php:627-645 | true exactly when the membership's tenant has `enabled` = `true` |
| Resolver.InEnabledTenant | src/User.php:311-326 | the answer of the enabled check |
| Resolver.GetOwnedTenants | src/User.php:334-349 | exactly the listed tenants the user owns |
| Resolver.OwnsTenant | src/User.php:358-361 | true exactly when a listed tenant with the id is owned by the user |
| Resolver.TenantUserId | src/User.php:388-400 | the membership id for the tenant, none exactly when the user is not a member |
| Resolver.GetRoles | src/User.php:456-466 | cached per tenant; a non-member has no roles; the rest of the session is untouched |
| Resolver.GetTeams | src/User.php:561-571 | cached per tenant; a non-member has no teams |
| Resolver.HasRole | src/User.php:502-505 | true exactly when a role with the id is among the roles |
| Resolver.HasAllRoles | src/User.php:476-479 | every listed id is a held role |
| Resolver.HasAnyRoles | src/User.php:489-492 | some listed id is a held role |
| Resolver.InTeam | src/User.php:607-610 | true exactly when a team with the id is among the teams |
| Resolver.InAllTeams | src/User.php:581-584 | every listed id is a team of the user |
| Resolver.InAnyTeams | src/User.php:594-597 | some listed id is a team of the user |
| Resolver.DefinePermissions | src/User.php:653-720 | a disabled user has none; an admin has every permission |
| Resolver.GetPermissions | src/User.php:732-742 | cached per tenant; a disabled user has none; an admin has all |
| Resolver.HasAllPermissions | src/User.php:752-755 | every listed id is a held permission |
| Resolver.HasAnyPermissions | src/User.php:765-768 | some listed id is a held permission |
| Resolver.CanDoAll | src/User.php:778-781 | every listed name is a held permission |
| Resolver.CanDoAny | src/User.php:791-794 | some listed name is a held permission |
| Resolver.GetTenantInvitations | src/User.php:166-209 | the non-deleted invitations to the user's email, cached |
| Resolver.HasTenantInvitation | src/User.php:218-221 | true exactly when a listed invitation has the id |
| Resolver.GetUserMeta | src/User.php:810-846 | the cached value, else the user's meta value when the key is not protected (case-insensitive) |
| Resolver.MembershipsOfTenant | src/User.php:238-272 | a membership of a tenant exists exactly when the user belongs to it |
| Resolver.InTenantQuery | src/User.php:299-302 | membership answers "the user has a row in the existing tenant" |
| Resolver.EnabledQuery | src/User.php:311-326 | enabled-membership answers "belongs and the tenant is enabled" |
| Resolver.OwnsQuery | src/User.php:358-361 | ownership answers "belongs and is the tenant's owner" |
| Resolver.TenantUserIdQuery | src/User.php:388-400 | the id is the user's own membership row in the tenant |
| Resolver.RolesQuery | src/User.php:416-466 | the roles are exactly those the user holds in the tenant |
| Resolver.TeamsQuery | src/User.php:521-571 | the teams are exactly those the user is in, in the tenant |
| Resolver.RolePermissionsOfRoles | src/User.php:690-715 | a permission is listed exactly when some role of the list reaches it |
| Resolver.PermissionsQuery | src/User.php:653-742 | the permissions are exactly those the decision table grants: none when disabled, all for an admin, none outside an enabled membership, the activated ones for the owner, the role-reachable ones otherwise |
| Resolver.InvitationQuery | src/User.php:166-221 | an invitation is found exactly when a non-deleted row with the id is addressed to the user's email |
| Resolver.PermissionsNotDeduplicated | src/User.php:690-715 | two roles granting one permission list it twice |
| UserMeta.ListVisible | src/Traits/HasProtectedPrefix.php:90-113 | a listing shows exactly the rows the read filter admits and resets the mode |
| UserMeta.FindById | src/Traits/HasProtectedPrefix.php:90-113 | a row by id, found exactly when it is visible in the mode |
| UserMeta.FindByKey | src/Models/UserMetaModel.php:361-375 | the user's row with the key, found exactly when it exists and is visible |
| UserMeta.Upsert | src/Models/UserMetaModel.php:95-261 | `InvalidField` exactly when the user id is not 36 characters, the key is over 255 characters or the write filter refuses; otherwise a missing user is `DoesNotExist` and an insert under a used fresh id is `Unexpected`; replaces the user's row with the key or adds one, and keeps the key unique |
| UserMeta.DeleteById | src/Traits/HasProtectedPrefix.php:144-161 | deletes the row exactly when it is visible and the delete filter admits its key |
| UserMeta.TokenKey | src/Models/UserMetaModel.php:436-466 | token records live under protected keys |
| UserMeta.TokenKeysDistinct | src/Models/UserMetaModel.php:436-466 | access and refresh records have different keys |
| UserMeta.ExpRecord | src/Models/UserMetaModel.php:439-441 | the record value is JSON holding `exp` |
| UserMeta.CreateToken | src/Models/UserMetaModel.php:423-479 | an unknown type is `Unexpected`; the token expires after the configured lifetime; a recorded type stores one record per user and type whose id is the `jti`; an unrecorded one writes nothing and has no `jti` |
| UserMeta.TokenWriteAllowed | src/Models/UserMetaModel.php:437 | the token write under "with" mode passes the write filter |
| UserMeta.DeleteToken | src/Models/UserMetaModel.php:510-533 | deletes the user's record of a known type, exactly that row; an unknown type changes nothing |
| UserMeta.DeleteAllTokens | src/Models/UserMetaModel.php:541-552 | deletes exactly the user's access and refresh records |
| UserMeta.DeleteList | src/Models/UserMetaModel.php:559-591 | a token record decoding to a JSON scalar makes `Arr::get` raise, exactly then no list is built; otherwise the list names exactly the expired or unreadable token records, bare for the ones that are not JSON |
| UserMeta.DeleteExpiredTokensAsWritten | src/Models/UserMetaModel.php:559-596 | as written, the purge raises exactly when some token record is a JSON scalar (type error) or not JSON (malformed `DELETE`); otherwise it removes exactly the expired token records |
| UserMeta.DeleteExpiredTokens | src/Models/UserMetaModel.php:559-596 | a purge keeps exactly the rows that are not expired or unreadable token records, and agrees with the code as written whenever that does not raise |
| UserMeta.DeleteExpiredTokensCounterexample | src/Models/UserMetaModel.php:579 | a record whose value is not JSON makes the as-written purge fail and is removed by the corrected one |
| UserMeta.ScalarRecordAbortsPurge | src/Models/UserMetaModel.php:586 | a record holding the JSON number `5` makes the as-written purge raise, keeping an expired record beside it; the corrected one removes both |
| UserMeta.TotpFromMetaValue | src/Traits/HasProtectedPrefix.php:188-215 | an OTP comes back exactly when the value has the three fields and has not expired (0 never expires) |
| UserMeta.DeleteTotp | src/Traits/HasProtectedPrefix.php:320-326 | removes exactly the user's row under the key |
| UserMeta.GetTotp | src/Traits/HasProtectedPrefix.php:292-311 | found exactly when a valid OTP is stored; an invalid stored one that is not falsy is deleted |
| UserMeta.CreateTotp | src/Traits/HasProtectedPrefix.php:225-280 | refused (`AlreadyExists`) exactly while a valid OTP younger than `wait` minutes exists; otherwise a missing user is `DoesNotExist`, and the call succeeds exactly when the user exists, the fields pass the upsert's write rules and filter, and the row is there to update or the fresh id is free; it stores the hash of the raw value with its expiry and returns the raw OTP |
| UserMeta.DeleteExpiredTotps | src/Traits/HasProtectedPrefix.php:334-359 | keeps exactly the rows not holding an invalid OTP under the key |
| UserMeta.OtpKey | src/Models/UserMetaModel.php:36-38 | the OTP keys are protected |
| UserMeta.ReservedKeys | src/Models/UserMetaModel.php:36-38 | OTP and token keys are hidden from default reads, writes and deletes and never coincide |
| UserMeta.CreateThenGetTotp | src/Traits/HasProtectedPrefix.php:233-311 | an OTP created and read before expiry matches the raw value and keeps its times |
| UserMeta.CreateTotpThrottles | src/Traits/HasProtectedPrefix.php:238-248 | a second OTP inside the wait window is refused |
| UserTokens.Create | src/Models/UserTokensModel.php:92-189 | a user id that is not 36 characters, or a type or IP over 255 characters, is `InvalidField`; otherwise a row needs an existing user and a fresh id |
| UserTokens.CreateToken | src/Models/UserTokensModel.php:450-507 | like the meta store, but each token adds its own row of the given type with the `jti` as id; a recorded token succeeds exactly when its row passes the write rules, the user exists and the id is fresh, and every failure is `Unexpected` |
| UserTokens.ReadByType | src/Models/UserTokensModel.php:380-401 | exactly the user's rows of the type |
| UserTokens.DeleteToken | src/Models/UserTokensModel.php:538-561 | deletes exactly the user's rows of a known type; an unknown type changes nothing |
| UserTokens.DeleteAllTokens | src/Models/UserTokensModel.php:569-578 | deletes exactly the user's rows |
| UserTokens.DeleteExpiredTokens | src/Models/UserTokensModel.php:585-595 | keeps exactly the rows not yet expired |
| UserTokens.CreatedTokenIsListed | src/Models/UserTokensModel.php:380-507 | a recorded token is listed with its expiry until it expires |
| UserTokens.TokensAccumulate | src/Models/UserTokensModel.php:450-507 | two tokens of a type are both kept |
| UserKeys.FirstFreeKey | src/Models/UserKeysModel.php:404-417 | the first draw whose hash is not stored, none exactly when every draw collides |
| UserKeys.CreateNewKey | src/Models/UserKeysModel.php:404-417 | the loop returns the first free draw and its hash |
| UserKeys.ExpiryOf | src/Models/UserKeysModel.php:193-195 | a missing expiry becomes now plus the maximum |
| UserKeys.CreateKeyAsWritten | src/Models/UserKeysModel.php:89-210 | a user id that is not 36 characters or a name over 255 characters is `InvalidField` with nothing stashed; past the rules, the raw key is stashed even when the create fails later; success holds exactly as for `CreateKey` |
| UserKeys.Insert | src/Models/UserKeysModel.php:186-210 | a key row needs an existing user, a free name for the user and a fresh id |
| UserKeys.CreateKey | src/Models/UserKeysModel.php:89-210 | the write rules first (`InvalidField`); refused for an expiry outside the configured window; a new key stores only the key hash of a fresh raw key; keys stay unique |
| UserKeys.Read | src/Models/UserKeysModel.php:117-256 | `key_value` is not readable: a read shows the stashed raw key as the key value once, then clears the stash; otherwise the read has no key value |
| UserKeys.FindByKey | src/Models/UserKeysModel.php:442-455 | the key whose key hash is the raw key's, read without its key value; `DoesNotExist` exactly when none |
| UserKeys.UpdateKey | src/Models/UserKeysModel.php:89-276 | a new name over 255 characters is `InvalidField` and so is any new expiry; the given name, domains and ips are written; id, user, hash and expiry never change |
| UserKeys.TouchLastUsed | src/Authenticators/UserKeyAuthenticator.php:137-143 | only the key's `last_used` becomes now |
| UserKeys.RawKeyShownOnce | src/Models/UserKeysModel.php:117-256 | the first read after create shows the raw key, the second no key value at all; the stored row holds the key hash of the raw key |
| UserKeys.DefaultExpiryIsNow | src/Models/UserKeysModel.php:193-195 | without a maximum, a key with no expiry expires at creation |
| UserKeys.UnboundedExpiryAccepted | src/Models/UserKeysModel.php:197 | without a maximum, any expiry is accepted |
| UserKeys.FailedCreateLeaksRawKey | src/Models/UserKeysModel.php:186-256 | a refused create leaves its raw key to be shown as another key's value |
| Authenticators.AccountCheck | src/Authenticators/PasswordAuthenticator.php:71-80 | disabled is refused first, then unverified when verification is required |
| Authenticators.Password | src/Authenticators/PasswordAuthenticator.php:38-84 | unknown email, then wrong password; after a correct password a storage fault or an unreadable user is `UnexpectedAuthentication`, otherwise the outcome is the account checks of the user; success is the admitted user of the email |
| Authenticators.EmailFindsUser | src/Models/UsersModel.php:440-453 | under unique emails, the lookup finds the user with the email |
| Authenticators.IdFindsUser | src/Models/UsersModel.php:440-453 | under unique ids, the lookup finds the user with the id |
| Authenticators.PasswordAcceptsExactly | src/Authenticators/PasswordAuthenticator.php:38-84 | a password sign-in succeeds exactly for the admitted user with the email whose hash matches |
| Authenticators.CreatedUserSignsIn | src/Authenticators/PasswordAuthenticator.php:38-84 | a new enabled user signs in with their password, or is refused as unverified when verification is required |
| Authenticators.Email | src/Authenticators/EmailAuthenticator.php:40-74 | unknown email is refused; otherwise the account checks decide |
| Authenticators.EmailAcceptsExactly | src/Authenticators/EmailAuthenticator.php:40-74 | succeeds exactly for the admitted user with the email |
| Authenticators.UserId | src/Authenticators/UserIdAuthenticator.php:39-73 | unknown id is refused; otherwise the account checks decide, verification only when asked |
| Authenticators.UserIdAcceptsExactly | src/Authenticators/UserIdAuthenticator.php:39-73 | succeeds exactly for the admitted user with the id |
| Authenticators.UserIdSkipsVerification | src/Authenticators/UserIdAuthenticator.php:64 | an unverified user passes only when verification is not checked |
| Authenticators.UserKey | src/Authenticators/UserKeyAuthenticator.php:48-145 | an unknown key is `InvalidUserKey`; success is the admitted owner of a usable key with that hash, and only its `last_used` moves |
| Authenticators.CheckKey | src/Authenticators/UserKeyAuthenticator.php:74-143 | expired, then domain, then IP refusals; for a usable key a storage fault is `UnexpectedAuthentication`, a missing owner `UserDoesNotExist`, otherwise the outcome is the owner's account checks; only success stamps `last_used` |
| Authenticators.KeyRefusals | src/Authenticators/UserKeyAuthenticator.php:74-100 | the expired, domain and IP refusals leave the keys unchanged |
| Authenticators.KeyOfHash | src/Models/UserKeysModel.php:442-455 | under unique hashes, the found key is the only one with the hash |
| Authenticators.UserKeyAcceptsExactly | src/Authenticators/UserKeyAuthenticator.php:48-145 | succeeds exactly for the admitted owner of a usable key with the hash |
| Authenticators.CreatedKeyAuthenticates | src/Authenticators/UserKeyAuthenticator.php:48-145 | the raw key shown at creation signs its admitted owner in until it expires |
| Authenticators.DefaultKeyExpiresAtOnce | src/Authenticators/UserKeyAuthenticator.php:74-76 | without a maximum, a key created without an expiry is refused as expired afterwards |
| Authenticators.Totp | src/Authenticators/TotpAuthenticator.php:39-97 | email checks first; a missing or wrong OTP is `TotpDoesNotExist`; success holds a valid OTP and deletes it |
| Authenticators.TotpAcceptsExactly | src/Authenticators/TotpAuthenticator.php:39-97 | succeeds exactly for the admitted user with a valid OTP whose hash matches |
| Authenticators.TotpSingleUse | src/Authenticators/TotpAuthenticator.php:91-95 | an OTP that signed in is refused the second time |
| Authenticators.WrongValueKeepsOtp | src/Authenticators/TotpAuthenticator.php:84-87 | a wrong value is refused and keeps the OTP |
| Authenticators.CreatedOtpSignsIn | src/Authenticators/TotpAuthenticator.php:39-97 | a created OTP signs its admitted user in until it expires |
| TokenAuth.AuthenticateToken | src/Authenticators/TokenAuthenticator.php:53-201 | bad signature and wrong type are `InvalidToken`; a token that does not decode or fails its time claims is `UnexpectedAuthentication` with no write; a token past the configured lifetime revokes its record; at the record stage a storage fault is `UnexpectedAuthentication`, a missing `jti` row `TokenDoesNotExist`, a foreign key or user `UnexpectedAuthentication`, all three with no write; a record that is not JSON is `UnexpectedAuthentication` and an expiry mismatch `TokenDoesNotExist`, both revoking the record; success needs the record with the token's id, key, user and expiry |
| TokenAuth.RecordVisible | src/Authenticators/TokenAuthenticator.php:150 | the record lookup under "with" mode sees token keys |
| TokenAuth.TokenAcceptsExactly | src/Authenticators/TokenAuthenticator.php:53-201 | a token is accepted exactly when the reference acceptance condition holds |
| TokenAuth.AuthenticateUser | src/Authenticators/TokenAuthenticator.php:214-247 | a missing, disabled or unverified user is refused and all their tokens are deleted |
| TokenAuth.Authenticate | src/Authenticators/TokenAuthenticator.php:263-267 | a refused token passes its error and its writes through; an accepted one then needs its user: a storage fault writes nothing, a missing or refused user loses every token record; success is an accepted token of an admitted user, with no write |
| TokenAuth.IssuedTokenAccepted | src/Authenticators/TokenAuthenticator.php:53-201 | an issued token meets the acceptance condition within its lifetime |
| TokenAuth.IssuedTokenAuthenticates | src/Authenticators/TokenAuthenticator.php:53-201 | an issued token authenticates its user within its lifetime |
| TokenAuth.IssuedTokenSignsIn | src/Authenticators/TokenAuthenticator.php:263-267 | an issued token signs its admitted user in |
| TokenAuth.ShortenedLifetimeRevokes | src/Authenticators/TokenAuthenticator.php:112-129 | a refresh token older than a shortened configured lifetime is refused and its record deleted |
| TokenAuth.RevokedTokenRefused | src/Authenticators/TokenAuthenticator.php:133-160 | a recorded token whose record was deleted is refused |
| TokenAuth.DisabledUserLosesTokens | src/Authenticators/TokenAuthenticator.php:214-247 | a disabled user's valid token is refused and both their records go |

## Left out

- JWT encoding, signing and decoding (`createJwt`'s library call, `readToken`) are left out. The model takes a token
  as decoded claims plus a signature flag.
- Jwt.TemporalClaimsValid: the library's `validateClaims` is taken to mean `iat` and `nbf` are not in the future and
  `exp` is ahead. The library is not part of this model.
- TokenAuth.AuthenticateToken: the source compares the record's `exp` with a loose `!=`. The model requires the
  stored value to be a JSON object whose `exp` is exactly the token's integer expiry.
  - Loose matches such as `"123"` against `123` are not modelled.
  - Types other than `access` and `refresh` check the refresh record key, as the source's `else` branch does.
- Authenticators.Totp: the authenticator's `getUserTotp`/`deleteUserTotp` helpers are not part of this model. They
  are taken to be `GetTotp`/`DeleteTotp` of one fixed meta key, passed as `key`.
- UserKeys.CreateNewKey: the source draws random keys forever until one is free. The model draws from a finite list
  of candidates, and `None` (every draw collides) becomes `Unexpected`.
- `Time::inPast` is taken as "strictly before now". Dates are integer seconds.
- Storage faults are `up` flags on the authenticators. The resolver and the models assume the database answers.
- Events (`doEvent`) and filters are left out. The payload filter of `createJwt` is the `filtered` parameter.
- Tenant deletion, tenant meta, roles, teams and permissions CRUD, `getTenantUserMeta` and `TenantUserMetaModel` are
  left out. They are outside the ownership and authentication core.
- Deleting a user cascades in the schema to meta, keys and tokens. The model cascades only memberships and their
  role and team links, because the other tables are separate values here.
- Foreign-key violations of the database are modelled as `DoesNotExist`. A colliding generated id is modelled as
  `Unexpected`.
- The ORM hook order (the write rules of `allowed_fields_write` before `onCreating`, `onCreating` before insert,
  `onCreated` after, the protected-prefix mode reset after every operation whatever its outcome) is assumed. The ORM
  and its validator are not part of this model. The rules are checked on create and on update (an update checks
  only the fields it supplies, after the row is found); lengths are counted in characters, a null field (a token's
  `ip`, a tenant's `enabled`) is taken to pass its rules, and the `email` test is the parameter `IsEmail`. The
  `isString`, `isArray` and `isInteger` rules hold by the model's types, and so does `isBoolean` everywhere except
  a tenant's `enabled`, which is a JSON-like value checked by `Tenants.FieldsValid`. `UserKeys.UpdateKey` checks its
  rules before looking the key up.
- Concurrency is left out: two writers racing on `last_used`, on an upsert, or on `createTotp`'s throttle.
- `verify`'s boolean return is left out; the model returns the new store.
- Hiding `password` and `salt` of users from read results (`getOmittedFields`) is left out. User reads return whole
  rows here, and only the authenticators and `UpdatePassword` use those columns. The omitted `key_value` of user keys
  is modelled (`UserKeys.Read`).
- Role ids are joined with commas into an SQL `IN` list in `definePermissions`. The model uses set membership.
- Every table uses the collation `utf8mb4_unicode_ci`, so the SQL `=` on emails, domains, meta keys and hashed keys,
  and the unique checks, ignore case and accents. The model compares strings exactly: it does not model that
  `A@x.com` finds the user stored as `a@x.com`. Only the protected-prefix read filter folds ASCII case.
- UserMeta.DeleteById: `UserMetaModel` uses the `SoftDeletes` trait, whose delete only sets `deleted_at`; the
  model removes the row. A trashed row would still hold its `(user, meta_key)` slot and be seen by the raw lookups
  (`getTotp`, `findByKey`'s id lookup, `deleteExpiredTokens`), and what the ORM's upsert does with a trashed row is
  not visible here, so trashed meta rows are not modelled.
- UserMeta.Upsert: the write filter is the corrected `WriteCheck` of the findings, not the code as written. Only in
  "only" mode without "with" do they differ: there the source refuses every key, prefixed ones included
  (`WriteCheckAsWritten`, `OnlyModeWriteRejectsEverything`). The library's own writes all use "with" mode.
- UserMeta.DeleteExpiredTokens: an `exp` member that is not an integer reads as 0, so the record counts as expired.
  PHP would compare a numeric string by value and a non-numeric one as a string.
- Json.IntOr and Json.StrOr read a member of another type as the default. PHP's `Arr::get` returns the member as it
  is and PHP arithmetic then coerces a numeric string, so a token whose `payload.iat` is the string `"100"` has an
  expiry computed from 100 in the source (src/Authenticators/TokenAuthenticator.php:115) and from 0 here.
- UserTokens.ReadByType: listings are taken as unpaginated. The ORM's `list` applies a default query limit when a
  query gives none (`default_limit` and `max_limit`, src/Models/UserTokensModel.php:150-163), and the ORM is not
  part of this model, so here `ReadByType` and the resolver's lists of invitations, tenants, roles, teams and
  permissions (src/User.php:175-188, 247-261, 432-445, 537-550, 674-716) return every matching row.
- TokenAuth.AuthenticateToken: the library's default `decode` is taken to validate the time claims as well as the
  signature, as the `decode($token, false)` of `readToken` and its "does not perform any validation" note suggest.
  A token failing `iat`, `nbf` or `exp` is therefore refused as undecodable and its record is kept; the
  `validateClaims` branch after it cannot fail. The library is not part of this model.
- TokenAuth.AuthenticateToken: a record whose value decodes to a JSON scalar makes `Arr::get` raise a type error in
  the source; the model answers `TokenDoesNotExist` and revokes the record, as for a mismatched `exp`.
- Tenants.Create: field lengths are counted in characters. The write rules are checked first, then the owner's
  existence, then the uniqueness of the slugged domain; the ORM that orders them is not part of this model. The
  slug transform itself is the parameter `Slug`.

## Findings

| source | as written | input that shows it | evidently intended | confidence | as-written member | corrected member |
|---|---|---|---|---|---|---|
| src/Traits/HasProtectedPrefix.php:126-129 | with only `onlyProtectedPrefix()` set, the second branch of the write filter also rejects prefixed keys, so every write is refused | mode "only", key `_app-tfa`, prefix `_app-` | only-mode admits exactly the prefixed keys, like the delete filter (147-159) | not executed | ProtectedPrefix.OnlyModeWriteCounterexample | ProtectedPrefix.WriteCheck |
| src/Models/UserMetaModel.php:579 | a token record whose value is not JSON has its id appended to the `IN` list without quotes (line 587 quotes the others), so the `DELETE` statement is malformed and the purge raises | one refresh record with value `{` and a UUID id | the record is deleted with the other expired ones | not executed | UserMeta.DeleteExpiredTokensCounterexample | UserMeta.DeleteExpiredTokens |
| src/Models/UserMetaModel.php:586 | a token record that is valid JSON but not an object or list (`5`, `"x"`, `null`) decodes to a PHP scalar, and `Arr::get`, which takes an array, raises a type error; the "quiet" purge stops and removes nothing | a refresh record with value `5` beside an expired access record | the unreadable record is deleted like one that is not JSON, and the expired one with it | medium (rests on `Arr::get` declaring an `array` parameter, which is not part of this model); not executed | UserMeta.ScalarRecordAbortsPurge | UserMeta.DeleteExpiredTokens |
| src/Models/UserKeysModel.php:186-210 | `onCreating` generates the key, which stores the raw key in the model, before it checks the expiry; a refused create leaves the raw key behind and the next read of any key shows it as that key's value | `max_mins` = 10, a key `k1` stored, create with `expires_at` in the past, then read `k1` | the raw key is kept only for a key that was stored | not executed | UserKeys.FailedCreateLeaksRawKey | UserKeys.CreateKey |
