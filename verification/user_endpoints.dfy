/** `UserController`: the signed-in user's profile with its lazy ban
    expiry, the settings update that also rewrites every token row of the
    user, token registration, device logout, account deletion and the
    e-mailed deletion request. */
module UserEndpoints {
  import opened Base
  import opened Text
  import opened Seqs
  import opened Users
  import opened Fcm
  import opened Accounts
  import opened AdminUsers
  import opened Likes

  const HTTP_OK: int := 200
  const HTTP_BAD_REQUEST: int := 400
  const HTTP_UNAUTHORIZED: int := 401
  const HTTP_FORBIDDEN: int := 403
  const HTTP_NOT_FOUND: int := 404

  /** The user table together with the token rows. */
  datatype Tables = Tables(users: seq<User>, rows: seq<FcmTokenRow>)

  /** A status code and the tables after the call. */
  datatype Reply = Reply(status: int, tables: Tables)

  // ---------------------------------------------------------------------
  // /me
  // ---------------------------------------------------------------------

  /** The profile map `/me` answers with. */
  datatype Profile = Profile(id: int, name: string, email: string, role: string, picture: string,
                             allergies: seq<string>, favoriteMenus: seq<string>, allowNotifications: bool,
                             allowAllergyNotifications: bool, allowFavoriteNotifications: bool)

  /** The status, the profile for a 200, and the user table after the call. */
  datatype MeReply = MeReply(status: int, profile: Option<Profile>, users: seq<User>)

  /** `Map.of` refuses null values, so a user without a name or with a null
      notifications switch cannot be rendered; a missing picture shows as "". */
  function ProfileOf(u: User): (r: Result<Profile>)
    ensures r.Err? <==> u.name.None? || u.allowNotifications.None?
    ensures r.Err? ==> r.failure == NullPointer
    ensures r.Ok? ==> r.value.id == u.id && r.value.email == u.email && Some(r.value.name) == u.name
                      && r.value.picture == u.picture.GetOr("") && r.value.role == u.role
                      && (r.value.allowNotifications <==> IsAllowNotifications(u))
  {
    if u.name.None? || u.allowNotifications.None? then Err(NullPointer)
    else Ok(Profile(u.id, u.name.value, u.email, u.role, u.picture.GetOr(""), u.allergies, u.favoriteMenus,
                    u.allowNotifications.value, u.allowAllergyNotifications, u.allowFavoriteNotifications))
  }

  /** A ban that `/me` still enforces at `now`: one without an expiry, or
      one whose expiry is `now` or later. */
  predicate BanHolds(u: User, now: Instant) {
    u.isBanned && (u.banExpiresAt.None? || now <= u.banExpiresAt.value)
  }

  /** `/me` (`getCurrentUser`): 401 without authentication; an unknown email
      is refused. A ban with no expiry, or whose expiry is not yet strictly
      in the past, answers 403. A ban whose expiry is past is lifted on the
      loaded user and the profile is returned; the handler runs in a
      read-only transaction, so the lifted ban is never written back and the
      user table is unchanged by every call. `auth` is the authenticated
      e-mail. */
  function Me(users: seq<User>, auth: Option<string>, now: Instant): (r: Result<MeReply>)
    ensures r.Ok? ==> r.value.users == users
    ensures auth.None? ==> r == Ok(MeReply(HTTP_UNAUTHORIZED, None, users))
    ensures auth.Some? && FindByEmail(users, auth.value).None? ==> r == Err(IllegalArgument)
    ensures auth.Some? && FindByEmail(users, auth.value).Some? ==>
              var u := FindByEmail(users, auth.value).value;
              && (BanHolds(u, now) ==> r == Ok(MeReply(HTTP_FORBIDDEN, None, users)))
              && (!BanHolds(u, now) ==>
                    && (r.Ok? <==> ProfileOf(u).Ok?)
                    && (r.Ok? ==> r.value.status == HTTP_OK && r.value.profile == Some(ProfileOf(u).value)))
  {
    if auth.None? then Ok(MeReply(HTTP_UNAUTHORIZED, None, users))
    else
      var found := FindByEmail(users, auth.value);
      if found.None? then Err(IllegalArgument)
      else
        var u := found.value;
        if u.isBanned && u.banExpiresAt.None? then Ok(MeReply(HTTP_FORBIDDEN, None, users))
        else if u.isBanned && !(now > u.banExpiresAt.value) then Ok(MeReply(HTTP_FORBIDDEN, None, users))
        else
          var v := if u.isBanned then UpdateBannedStatus(u, false, None, None) else u;
          match ProfileOf(v)
          case Err(f) => Err(f)
          case Ok(p) => Ok(MeReply(HTTP_OK, Some(p), users))
  }

  /** A ban of `min > 0` minutes set at `t` keeps `/me` answering 403 up to
      and including its expiry, and lets the user in after it. `/me` does
      not clear the ban from the table: it stays stored until the minute
      job lifts it. */
  lemma TimedBanLifecycle(users: seq<User>, email: string, reason: Option<string>, min: int, t: Instant,
                          later: Instant)
    requires WellKeyed(users) && FindByEmail(users, email).Some? && min > 0
    ensures var banned := UpdateUserBannedStatus(users, email, true, reason, Some(min), t).value;
            var r := Me(banned, Some(email), later);
            && (later <= t + MINUTE * min ==> r == Ok(MeReply(HTTP_FORBIDDEN, None, banned)))
            && (later > t + MINUTE * min && r.Ok? ==>
                  && r.value.status == HTTP_OK && FindByEmail(r.value.users, email).Some?
                  && FindByEmail(r.value.users, email).value.isBanned
                  && !FindByEmail(AutoUnban(r.value.users, later), email).value.isBanned)
  {
    var i := FindByEmailIndex(users, email);
    var u := users[i];
    var b := UpdateBannedStatus(u, true, reason, BanExpiry(Some(min), t));
    StoreSameKeys(users, i, b);
    var banned := Store(users, b);
    if later > t + MINUTE * min {
      assert banned[i] == b;
      var after := AutoUnban(banned, later);
      assert forall k :: 0 <= k < |after| ==> after[k].id == banned[k].id && after[k].email == banned[k].email;
      FindByEmailAt(after, i);
    }
  }

  /** A permanent ban keeps `/me` at 403 for ever. */
  lemma PermanentBanHolds(users: seq<User>, email: string, reason: Option<string>, t: Instant, later: Instant)
    requires WellKeyed(users) && FindByEmail(users, email).Some?
    ensures var banned := UpdateUserBannedStatus(users, email, true, reason, None, t).value;
            Me(banned, Some(email), later) == Ok(MeReply(HTTP_FORBIDDEN, None, banned))
  {
    var i := FindByEmailIndex(users, email);
    StoreSameKeys(users, i, UpdateBannedStatus(users[i], true, reason, None));
  }

  /** The two ways a ban ends agree on the ban and its expiry but not on the
      reason: the minute job keeps it, the lift `/me` computes (and never
      stores) clears it. Both act only on a ban whose expiry is strictly
      past. */
  lemma LiftedBansDifferInReason(u: User, now: Instant)
    requires u.isBanned && u.banExpiresAt.Some? && u.banExpiresAt.value < now
    ensures !BanHolds(u, now)
    ensures var byJob := Unbanned(u, now);
            var byMe := UpdateBannedStatus(u, false, None, None);
            && byJob.(banReason := None) == byMe
            && byJob.banReason == u.banReason
  {
  }

  /** After the minute job has run at `now`, `/me` at `now` sees no expired
      ban, so it lifts nothing itself: the user is either still banned for
      good reason or was never banned. */
  lemma JobLeavesNothingForMe(users: seq<User>, email: string, now: Instant)
    requires FindByEmail(AutoUnban(users, now), email).Some?
    ensures var u := FindByEmail(AutoUnban(users, now), email).value;
            u.isBanned ==> BanHolds(u, now)
  {
  }

  // ---------------------------------------------------------------------
  // /update-info
  // ---------------------------------------------------------------------

  /** Every token row of the user takes the requested switch value; other
      rows stay. */
  function SyncRows(rows: seq<FcmTokenRow>, userId: int, allow: bool): (r: seq<FcmTokenRow>)
    ensures |r| == |rows|
    ensures forall i :: 0 <= i < |rows| && rows[i].userId == Some(userId) ==>
              r[i] == rows[i].(allowNotifications := allow)
    ensures forall i :: 0 <= i < |rows| && rows[i].userId != Some(userId) ==> r[i] == rows[i]
  {
    Map(rows, (w: FcmTokenRow) => if w.userId == Some(userId) then w.(allowNotifications := allow) else w)
  }

  /** `/update-info`: 401 without authentication; an unknown email is
      refused. Otherwise the user gets `updateInfo` with the requested lists
      and switches (primitive booleans, so never null), and every token row
      of the user takes the requested notifications switch. */
  function UpdateInfoEndpoint(t: Tables, auth: Option<string>, allergies: Option<seq<string>>,
                              favoriteMenus: Option<seq<string>>, allow: bool, allowAllergy: bool,
                              allowFavorite: bool): (r: Result<Reply>)
    ensures auth.None? ==> r == Ok(Reply(HTTP_UNAUTHORIZED, t))
    ensures auth.Some? ==> (FindByEmail(t.users, auth.value).None? <==> r == Err(IllegalArgument))
    ensures auth.Some? && r.Ok? ==>
              var u := FindByEmail(t.users, auth.value).value;
              && r.value.status == HTTP_OK
              && r.value.tables.users
                 == UpdateUserInfo(t.users, auth.value, allergies, favoriteMenus, Some(allow), Some(allowAllergy),
                                   Some(allowFavorite)).value
              && r.value.tables.rows == SyncRows(t.rows, u.id, allow)
  {
    if auth.None? then Ok(Reply(HTTP_UNAUTHORIZED, t))
    else
      match UpdateUserInfo(t.users, auth.value, allergies, favoriteMenus, Some(allow), Some(allowAllergy),
                           Some(allowFavorite))
      case Err(f) => Err(f)
      case Ok(users) =>
        var u := FindByEmail(t.users, auth.value).value;
        Ok(Reply(HTTP_OK, Tables(users, SyncRows(t.rows, u.id, allow))))
  }

  /** After `/update-info` every token row of the user agrees with the
      user's own switch, and the rows of other users are untouched. */
  lemma RowsFollowUser(t: Tables, email: string, allergies: Option<seq<string>>, favoriteMenus: Option<seq<string>>,
                       allow: bool, allowAllergy: bool, allowFavorite: bool)
    requires WellKeyed(t.users) && FindByEmail(t.users, email).Some?
    ensures var r := UpdateInfoEndpoint(t, Some(email), allergies, favoriteMenus, allow, allowAllergy, allowFavorite);
            var v := FindByEmail(r.value.tables.users, email);
            && r.Ok? && v.Some?
            && (forall w :: w in r.value.tables.rows && w.userId == Some(v.value.id) ==>
                  (w.allowNotifications <==> IsAllowNotifications(v.value)))
            && (forall w :: w in t.rows && w.userId != Some(v.value.id) ==> w in r.value.tables.rows)
  {
    var i := FindByEmailIndex(t.users, email);
    var u := t.users[i];
    var v := UpdateInfo(u, allergies, favoriteMenus, Some(allow), Some(allowAllergy), Some(allowFavorite));
    StoreSameKeys(t.users, i, v);
    UpdateUserInfoThenFind(t.users, email, allergies, favoriteMenus, Some(allow), Some(allowAllergy), Some(allowFavorite));
    var rows := SyncRows(t.rows, u.id, allow);
    forall w | w in rows && w.userId == Some(u.id) ensures w.allowNotifications == allow {
      var k :| 0 <= k < |rows| && rows[k] == w;
    }
    forall w | w in t.rows && w.userId != Some(u.id) ensures w in rows {
      var k :| 0 <= k < |t.rows| && t.rows[k] == w;
      assert rows[k] == w;
    }
  }

  // ---------------------------------------------------------------------
  // /fcm/token
  // ---------------------------------------------------------------------

  /** `request.getOrDefault("deviceType", "WEB")`: the outer `None` is a
      missing key, which becomes "WEB"; a key present with a null value
      stays null. */
  function DeviceTypeOrWeb(deviceType: Option<Option<string>>): (r: Option<string>)
    ensures deviceType.None? ==> r == Some(DEVICE_WEB)
    ensures deviceType.Some? ==> r == deviceType.value
  {
    if deviceType.None? then Some(DEVICE_WEB) else deviceType.value
  }

  /** What `findByToken`, a query for at most one row, meets: no row
      holding the token, exactly one (at its position), or several. The
      token column has no unique constraint, and with several rows the
      query throws `IncorrectResultSizeDataAccessException`. */
  datatype TokenLookup = NoRow | OneRow(at: nat) | ManyRows

  /** `findByToken`. */
  function FindTokenRow(rows: seq<FcmTokenRow>, token: Option<string>): (r: TokenLookup)
    ensures r.NoRow? <==> forall k :: 0 <= k < |rows| ==> Some(rows[k].token) != token
    ensures r.OneRow? ==> r.at < |rows| && Some(rows[r.at].token) == token
                          && forall k :: 0 <= k < |rows| && k != r.at ==> Some(rows[k].token) != token
    ensures r.ManyRows? <==> exists j, k :: 0 <= j < k < |rows| && Some(rows[j].token) == token
                                                               && Some(rows[k].token) == token
  {
    if |rows| == 0 then NoRow
    else
      var rest := FindTokenRow(rows[1..], token);
      assert forall k :: 1 <= k < |rows| ==> rows[k] == rows[1..][k - 1];
      if Some(rows[0].token) != token then
        assert rest.ManyRows? ==> exists j, k :: 0 <= j < k < |rows| && Some(rows[j].token) == token
                                                                   && Some(rows[k].token) == token by {
          if rest.ManyRows? {
            var j, k :| 0 <= j < k < |rows[1..]| && Some(rows[1..][j].token) == token && Some(rows[1..][k].token) == token;
            assert Some(rows[j + 1].token) == token && Some(rows[k + 1].token) == token;
          }
        }
        if rest.OneRow? then OneRow(rest.at + 1) else rest
      else if rest.NoRow? then OneRow(0)
      else
        var k :| 0 <= k < |rows[1..]| && Some(rows[1..][k].token) == token;
        assert Some(rows[0].token) == token && Some(rows[k + 1].token) == token;
        ManyRows
  }

  /** `/fcm/token`, in one transaction: 401 without authentication, and
      nothing happens (still 200) when the email is unknown. Otherwise the
      token goes into the user's slot through `saveToken`, which also
      switches the user's notifications on, and the token row holding that
      token, if any, takes the user's switch. When several rows hold the
      token, `findByToken` throws and the rollback discards the user's
      change too. */
  function RegisterToken(t: Tables, auth: Option<string>, token: Option<string>,
                         deviceType: Option<Option<string>>): (r: Result<Reply>)
    ensures auth.None? ==> r == Ok(Reply(HTTP_UNAUTHORIZED, t))
    ensures auth.Some? && FindByEmail(t.users, auth.value).None? ==> r == Ok(Reply(HTTP_OK, t))
    ensures auth.Some? && FindByEmail(t.users, auth.value).Some? ==>
              var u := FindByEmail(t.users, auth.value).value;
              var users := SaveToken(t.users, u.id, token, DeviceTypeOrWeb(deviceType)).value;
              var at := FindTokenRow(t.rows, token);
              && (r.Err? <==> at.ManyRows?)
              && (at.ManyRows? ==> r == Err(IncorrectResultSize))
              && (r.Ok? ==>
                    && r.value.status == HTTP_OK && r.value.tables.users == users
                    && |r.value.tables.rows| == |t.rows|
                    && (at.NoRow? ==> r.value.tables.rows == t.rows)
                    && (at.OneRow? ==> r.value.tables.rows == t.rows[at.at := t.rows[at.at].(allowNotifications := true)]))
  {
    if auth.None? then Ok(Reply(HTTP_UNAUTHORIZED, t))
    else
      var found := FindByEmail(t.users, auth.value);
      if found.None? then Ok(Reply(HTTP_OK, t))
      else
        var u := found.value;
        match SaveToken(t.users, u.id, token, DeviceTypeOrWeb(deviceType))
        case Err(f) => Err(f)
        case Ok(users) =>
          var v := SetAllowNotifications(UpdateFcmToken(u, token, DeviceTypeOrWeb(deviceType)), Some(true));
          match FindTokenRow(t.rows, token)
          case ManyRows => Err(IncorrectResultSize)
          case NoRow => Ok(Reply(HTTP_OK, Tables(users, t.rows)))
          case OneRow(at) =>
            Ok(Reply(HTTP_OK, Tables(users, t.rows[at := t.rows[at].(allowNotifications := IsAllowNotifications(v))])))
  }

  /** Two rows holding the registered token make a found user's
      registration fail, leaving every table as it was. */
  lemma DuplicateTokenRowsFail(t: Tables, email: string, token: string, deviceType: Option<Option<string>>,
                               j: int, k: int)
    requires FindByEmail(t.users, email).Some?
    requires 0 <= j < k < |t.rows| && t.rows[j].token == token && t.rows[k].token == token
    ensures RegisterToken(t, Some(email), Some(token), deviceType) == Err(IncorrectResultSize)
  {
    assert FindTokenRow(t.rows, Some(token)).ManyRows?;
  }

  /** After a registration the user is found with notifications on and the
      new token among those pushed, and `findByToken` finds the same row as
      before, now switched on. The registration fails exactly when several
      rows already hold the token. */
  lemma RegistrationEnablesPush(t: Tables, email: string, token: string, deviceType: Option<Option<string>>)
    requires WellKeyed(t.users) && FindByEmail(t.users, email).Some?
    requires !IsBlank(token)
    requires EqualsIgnoreCase(DEVICE_MOBILE, DeviceTypeOrWeb(deviceType))
             || EqualsIgnoreCase(DEVICE_WEB, DeviceTypeOrWeb(deviceType))
    ensures var r := RegisterToken(t, Some(email), Some(token), deviceType);
            var before := FindTokenRow(t.rows, Some(token));
            && (r.Err? <==> before.ManyRows?)
            && (r.Ok? ==>
                  var after := r.value.tables;
                  var at := FindTokenRow(after.rows, Some(token));
                  && FindByEmail(after.users, email).Some?
                  && IsAllowNotifications(FindByEmail(after.users, email).value)
                  && token in FcmTokens(FindByEmail(after.users, email).value)
                  && at == before
                  && (at.OneRow? ==> after.rows[at.at].allowNotifications))
  {
    var r := RegisterToken(t, Some(email), Some(token), deviceType);
    var u := FindByEmail(t.users, email).value;
    var saved := SaveToken(t.users, u.id, Some(token), DeviceTypeOrWeb(deviceType));
    SavedTokenFound(t.users, email, token, DeviceTypeOrWeb(deviceType));
    var at0 := FindTokenRow(t.rows, Some(token));
    if !at0.ManyRows? {
      var rows := if at0.NoRow? then t.rows else t.rows[at0.at := t.rows[at0.at].(allowNotifications := true)];
      assert r == Ok(Reply(HTTP_OK, Tables(saved.value, rows)));
      assert forall k :: 0 <= k < |t.rows| ==> rows[k].token == t.rows[k].token;
      SameTokensSameRow(t.rows, rows, Some(token));
    }
  }

  /** `saveToken` on a found user: the user is found again by email, with
      notifications on and the token among those pushed. */
  lemma SavedTokenFound(users: seq<User>, email: string, token: string, deviceType: Option<string>)
    requires WellKeyed(users) && FindByEmail(users, email).Some?
    requires !IsBlank(token)
    requires EqualsIgnoreCase(DEVICE_MOBILE, deviceType) || EqualsIgnoreCase(DEVICE_WEB, deviceType)
    ensures var saved := SaveToken(users, FindByEmail(users, email).value.id, Some(token), deviceType);
            && saved.Ok?
            && FindByEmail(saved.value, email).Some?
            && IsAllowNotifications(FindByEmail(saved.value, email).value)
            && token in FcmTokens(FindByEmail(saved.value, email).value)
  {
    var i := FindByEmailIndex(users, email);
    var u := users[i];
    var w := FindById(users, u.id).value;
    var a :| 0 <= a < |users| && users[a] == w;
    assert a == i;
    var x := UpdateFcmToken(u, Some(token), deviceType);
    var v := SetAllowNotifications(x, Some(true));
    RegisteredTokenIsDelivered(u, token, deviceType);
    assert FcmTokens(v) == FcmTokens(x);
    StoreSameKeys(users, i, v);
  }

  /** `findByToken` looks only at the token column. */
  lemma SameTokensSameRow(rows: seq<FcmTokenRow>, rows2: seq<FcmTokenRow>, token: Option<string>)
    requires |rows2| == |rows| && forall k :: 0 <= k < |rows| ==> rows2[k].token == rows[k].token
    ensures FindTokenRow(rows2, token) == FindTokenRow(rows, token)
  {
    var r, r2 := FindTokenRow(rows, token), FindTokenRow(rows2, token);
    if r.ManyRows? {
      var j, k :| 0 <= j < k < |rows| && Some(rows[j].token) == token && Some(rows[k].token) == token;
      assert Some(rows2[j].token) == token && Some(rows2[k].token) == token;
    } else if r.OneRow? {
      assert Some(rows2[r.at].token) == token;
    }
  }

  // ---------------------------------------------------------------------
  // /logout-device
  // ---------------------------------------------------------------------

  /** `/logout-device`: always 200; `deleteToken` runs only for a non-null,
      non-empty token (and itself ignores a blank one). */
  function LogoutDevice(users: seq<User>, token: Option<string>): (r: (int, seq<User>))
    ensures r.0 == HTTP_OK
    ensures token.None? || token.value == [] ==> r.1 == users
    ensures token.Some? && token.value != [] ==> r.1 == DeleteToken(users, token)
  {
    if token.Some? && token.value != [] then (HTTP_OK, DeleteToken(users, token)) else (HTTP_OK, users)
  }

  /** After logging a device out, no user is pushed on that token, and
      every other token stays where it was. */
  lemma LoggedOutTokenIsGone(users: seq<User>, token: string)
    requires !IsBlank(token)
    ensures var after := LogoutDevice(users, Some(token)).1;
            && |after| == |users|
            && forall i :: 0 <= i < |users| ==>
                 token !in FcmTokens(after[i])
                 && forall s :: s in FcmTokens(users[i]) && s != token ==> s in FcmTokens(after[i])
  {
    assert token != [];
    forall i | 0 <= i < |users|
      ensures token !in FcmTokens(DeleteToken(users, Some(token))[i])
      ensures forall s :: s in FcmTokens(users[i]) && s != token ==> s in FcmTokens(DeleteToken(users, Some(token))[i])
    {
      DeleteTokenRemovesIt(users, token, i);
    }
  }

  // ---------------------------------------------------------------------
  // /delete and /delete-request
  // ---------------------------------------------------------------------

  /** `/delete`: 401 without authentication, 404 and no change for an
      unknown email, otherwise 200 after `deleteUserAndAllData` as written
      has removed the account, its likes and every comment under its
      name. */
  function DeleteAccount(db: Db, auth: Option<string>): (r: (int, Db))
    ensures auth.None? ==> r == (HTTP_UNAUTHORIZED, db)
    ensures auth.Some? && FindByEmail(db.users, auth.value).None? ==> r == (HTTP_NOT_FOUND, db)
    ensures auth.Some? && FindByEmail(db.users, auth.value).Some? ==>
              var u := FindByEmail(db.users, auth.value).value;
              && r.0 == HTTP_OK
              && r.1.users == Remove(db.users, u.id)
              && r.1.likes == DeleteByUserId(db.likes, IntToString(u.id))
              && r.1.comments == CommentsWithoutName(db.comments, u.name)
              && r.1.requests == db.requests
  {
    if auth.None? then (HTTP_UNAUTHORIZED, db)
    else
      match DeleteUserAndAllDataByName(db, auth.value)
      case Err(_) => (HTTP_NOT_FOUND, db)
      case Ok(after) => (HTTP_OK, after)
  }

  /** A deleted account cannot sign in to `/me` any more. */
  lemma DeletedAccountIsGone(db: Db, email: string)
    requires WellKeyed(db.users) && FindByEmail(db.users, email).Some?
    ensures Me(DeleteAccount(db, Some(email)).1.users, Some(email), 0) == Err(IllegalArgument)
  {
    DeletionKeepsOthers(db, email);
    assert DeleteAccount(db, Some(email)).1.users == DeleteUserAndAllData(db, email).value.users;
  }

  /** `/delete-request`: an e-mail that is null or trims to nothing gets 400
      and stores nothing; otherwise a PENDING request is stored. */
  function RequestDeletion(requests: seq<RequestRow>, email: Option<string>, reason: Option<string>,
                           now: Instant): (r: (int, seq<RequestRow>))
    ensures email.None? || IsBlank(email.value) <==> r == (HTTP_BAD_REQUEST, requests)
    ensures !(email.None? || IsBlank(email.value)) ==>
              r == (HTTP_OK, CreateDeleteRequest(requests, email.value, reason, now))
  {
    if email.None? || IsBlank(email.value) then (HTTP_BAD_REQUEST, requests)
    else (HTTP_OK, CreateDeleteRequest(requests, email.value, reason, now))
  }

  /** An accepted request is the one new entry of the pending queue. */
  lemma RequestJoinsPending(requests: seq<RequestRow>, email: string, reason: Option<string>, now: Instant)
    requires !IsBlank(email)
    ensures var after := RequestDeletion(requests, Some(email), reason, now).1;
            && |after| == |requests| + 1
            && after[|requests|] in PendingDeleteRequests(after)
            && after[|requests|].request.email == email
            && forall q :: q in PendingDeleteRequests(after) ==> q in PendingDeleteRequests(requests) || q == after[|requests|]
  {
    var after := RequestDeletion(requests, Some(email), reason, now).1;
    forall q | q in PendingDeleteRequests(after)
      ensures q in PendingDeleteRequests(requests) || q == after[|requests|]
    {
      var k :| 0 <= k < |after| && after[k] == q;
      if k < |requests| {
        assert after[k] == requests[k];
      }
    }
  }
}
