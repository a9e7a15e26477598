/** `AdminService` (user search, bans, reports, forced logout) and
    `BanSchedulerService`, the minute job that lifts bans whose time is up. */
module AdminUsers {
  import opened Base
  import opened Text
  import opened Seqs
  import opened Users
  import opened Fcm
  import opened Accounts
  import opened Alarm

  const BY_USERNAME := "username"
  const BY_EMAIL := "email"

  /** Seconds in a minute: ban lengths are given in minutes. */
  const MINUTE: int := 60

  // ---------------------------------------------------------------------
  // User listing and search
  // ---------------------------------------------------------------------

  /** The admin page's view of a user; the id is sent as text. */
  datatype UserDetail = UserDetail(
    id: string,
    email: string,
    userName: Option<string>,
    googleId: Option<string>,
    picture: Option<string>,
    banned: bool,
    banReason: Option<string>,
    banExpiresAt: Option<Instant>,
    allergies: seq<string>,
    favoriteMenus: seq<string>)

  /** `convertToDetailResponse`. */
  function ToDetail(u: User): (d: UserDetail)
    ensures d.id == IntToString(u.id) && d.email == u.email && d.userName == u.name
    ensures d.banned == u.isBanned && d.banReason == u.banReason && d.banExpiresAt == u.banExpiresAt
    ensures d.allergies == u.allergies && d.favoriteMenus == u.favoriteMenus
  {
    UserDetail(IntToString(u.id), u.email, u.name, u.googleId, u.picture, u.isBanned, u.banReason,
               u.banExpiresAt, u.allergies, u.favoriteMenus)
  }

  /** The text id of a detail reads back as the user's 64-bit id. */
  lemma DetailIdReadsBack(u: User)
    requires LONG_MIN <= u.id <= LONG_MAX
    ensures ParseLong(ToDetail(u).id) == Ok(u.id)
  {
    ParseLongOfIntToString(u.id);
  }

  /** `getAllUsersForAdmin`: every user, in table order. */
  function AllUsersForAdmin(users: seq<User>): (r: seq<UserDetail>)
    ensures |r| == |users| && forall i :: 0 <= i < |users| ==> r[i] == ToDetail(users[i])
  {
    Map(users, ToDetail)
  }

  /** `findUsersByFilter`: `(:name IS NULL OR u.name LIKE %:name%) AND
      (:email IS NULL OR u.email LIKE %:email%)`; a null name matches no
      pattern. */
  predicate UserMatches(name: Option<string>, email: Option<string>, u: User) {
    (name.None? || (u.name.Some? && Contains(u.name.value, name.value)))
    && (email.None? || Contains(u.email, email.value))
  }

  /** The query `getUsersByFilter` runs for a keyword with text. */
  function FilteredUsers(users: seq<User>, name: Option<string>, email: Option<string>): (r: seq<UserDetail>)
    ensures |r| <= |users|
    ensures forall d :: d in r ==> exists i :: 0 <= i < |users| && d == ToDetail(users[i]) && UserMatches(name, email, users[i])
    ensures forall i :: 0 <= i < |users| && UserMatches(name, email, users[i]) ==> ToDetail(users[i]) in r
  {
    var hits := Filter(users, (u: User) => UserMatches(name, email, u));
    var r := Map(hits, ToDetail);
    FilteredUsersShape(users, name, email, hits, r);
    r
  }

  /** The details of the matching users `hits` are those of exactly the
      users that match. */
  lemma FilteredUsersShape(users: seq<User>, name: Option<string>, email: Option<string>, hits: seq<User>,
                           r: seq<UserDetail>)
    requires forall k :: 0 <= k < |hits| ==> hits[k] in users && UserMatches(name, email, hits[k])
    requires forall i :: 0 <= i < |users| && UserMatches(name, email, users[i]) ==> users[i] in hits
    requires |r| == |hits| && forall k :: 0 <= k < |hits| ==> r[k] == ToDetail(hits[k])
    ensures forall d :: d in r ==> exists i :: 0 <= i < |users| && d == ToDetail(users[i]) && UserMatches(name, email, users[i])
    ensures forall i :: 0 <= i < |users| && UserMatches(name, email, users[i]) ==> ToDetail(users[i]) in r
  {
    forall d | d in r
      ensures exists i :: 0 <= i < |users| && d == ToDetail(users[i]) && UserMatches(name, email, users[i])
    {
      var k :| 0 <= k < |r| && r[k] == d;
      var i :| 0 <= i < |users| && users[i] == hits[k];
    }
    forall i | 0 <= i < |users| && UserMatches(name, email, users[i]) ensures ToDetail(users[i]) in r {
      var k :| 0 <= k < |hits| && hits[k] == users[i];
      assert r[k] == ToDetail(users[i]);
    }
  }

  /** `getUsersByFilter`: a null or blank keyword lists everyone; otherwise
      the keyword goes to the name filter for type "username", to the email
      filter for type "email", and nowhere for any other type. */
  function UsersByFilter(users: seq<User>, searchType: Option<string>, keyword: Option<string>): (r: seq<UserDetail>)
    ensures keyword.None? || IsBlank(keyword.value) ==> r == AllUsersForAdmin(users)
    ensures searchType != Some(BY_USERNAME) && searchType != Some(BY_EMAIL) ==> r == AllUsersForAdmin(users)
    ensures keyword.Some? && !IsBlank(keyword.value) && searchType == Some(BY_USERNAME) ==>
              (forall d :: d in r ==> exists i :: 0 <= i < |users| && d == ToDetail(users[i])
                                       && users[i].name.Some? && Contains(users[i].name.value, keyword.value))
              && (forall i :: 0 <= i < |users| && users[i].name.Some? && Contains(users[i].name.value, keyword.value)
                    ==> ToDetail(users[i]) in r)
    ensures keyword.Some? && !IsBlank(keyword.value) && searchType == Some(BY_EMAIL) ==>
              (forall d :: d in r ==> exists i :: 0 <= i < |users| && d == ToDetail(users[i])
                                       && Contains(users[i].email, keyword.value))
              && (forall i :: 0 <= i < |users| && Contains(users[i].email, keyword.value) ==> ToDetail(users[i]) in r)
  {
    if keyword.None? || IsBlank(keyword.value) then AllUsersForAdmin(users)
    else
      var name := if searchType == Some(BY_USERNAME) then keyword else None;
      var email := if searchType == Some(BY_EMAIL) then keyword else None;
      if name.None? && email.None? then
        UnfilteredQuery(users);
        FilteredUsers(users, name, email)
      else FilteredUsers(users, name, email)
  }

  /** With both parameters null the query returns the whole table. */
  lemma UnfilteredQuery(users: seq<User>)
    ensures FilteredUsers(users, None, None) == AllUsersForAdmin(users)
  {
    FilterAll(users, (u: User) => UserMatches(None, None, u));
  }

  // ---------------------------------------------------------------------
  // Bans
  // ---------------------------------------------------------------------

  /** The expiry of a ban of `min` minutes: a positive length ends that
      many minutes after `now`; a null or non-positive one never ends. */
  function BanExpiry(min: Option<int>, now: Instant): (r: Option<Instant>)
    ensures r.Some? <==> min.Some? && min.value > 0
    ensures r.Some? ==> r.value > now && r.value - now == MINUTE * min.value
  {
    if min.Some? && min.value > 0 then Some(now + MINUTE * min.value) else None
  }

  /** `updateUserBannedStatus`: an unknown email is refused. A ban stores
      the reason and the expiry; an unban clears both. The notification
      mail is sent and its failure swallowed, so it never blocks the
      change. */
  function UpdateUserBannedStatus(users: seq<User>, email: string, status: bool, reason: Option<string>,
                                  min: Option<int>, now: Instant): (r: Result<seq<User>>)
    ensures FindByEmail(users, email).None? <==> r == Err(IllegalArgument)
    ensures r.Ok? ==>
              var u := FindByEmail(users, email).value;
              var v := if status then UpdateBannedStatus(u, true, reason, BanExpiry(min, now))
                       else UpdateBannedStatus(u, false, None, None);
              && v.isBanned == status
              && (status ==> v.banReason == reason && v.banExpiresAt == BanExpiry(min, now))
              && (!status ==> v.banReason.None? && v.banExpiresAt.None?)
              && r.value == Store(users, v)
  {
    var found := FindByEmail(users, email);
    if found.None? then Err(IllegalArgument)
    else
      var u := found.value;
      if status then Ok(Store(users, UpdateBannedStatus(u, true, reason, BanExpiry(min, now))))
      else Ok(Store(users, UpdateBannedStatus(u, false, None, None)))
  }

  /** A ban then an unban gives back the account as it was before, apart
      from whatever ban state it had: the three ban fields are cleared. */
  lemma BanThenUnban(users: seq<User>, email: string, reason: Option<string>, min: Option<int>, t1: Instant,
                     t2: Instant)
    requires WellKeyed(users) && FindByEmail(users, email).Some?
    ensures var banned := UpdateUserBannedStatus(users, email, true, reason, min, t1).value;
            var lifted := UpdateUserBannedStatus(banned, email, false, None, None, t2).value;
            var u := FindByEmail(users, email).value;
            lifted == Store(users, u.(isBanned := false, banReason := None, banExpiresAt := None))
  {
    var i := FindByEmailIndex(users, email);
    var u := users[i];
    var b := UpdateBannedStatus(u, true, reason, BanExpiry(min, t1));
    StoreSameKeys(users, i, b);
  }

  // ---------------------------------------------------------------------
  // BanSchedulerService
  // ---------------------------------------------------------------------

  /** `findAllByIsBannedTrueAndBanExpiresAtBefore(now)`: banned, with an
      expiry strictly before `now`. */
  predicate IsExpiredBan(u: User, now: Instant) {
    u.isBanned && u.banExpiresAt.Some? && u.banExpiresAt.value < now
  }

  /** One user as the job leaves it: an expired ban is lifted and its
      expiry cleared, the reason stays. */
  function Unbanned(u: User, now: Instant): (v: User)
    ensures IsExpiredBan(u, now) ==> !v.isBanned && v.banExpiresAt.None? && v.banReason == u.banReason
    ensures IsExpiredBan(u, now) ==> v.(isBanned := u.isBanned, banExpiresAt := u.banExpiresAt) == u
    ensures !IsExpiredBan(u, now) ==> v == u
    ensures !IsExpiredBan(v, now)
  {
    if IsExpiredBan(u, now) then u.(isBanned := false, banExpiresAt := None) else u
  }

  /** `runAutoUnbanAndNotify`: every user the query returns is unbanned; a
      failing mail only reaches the log, so it cannot stop the next user. */
  function AutoUnban(users: seq<User>, now: Instant): (r: seq<User>)
    ensures |r| == |users|
    ensures forall i :: 0 <= i < |users| ==> r[i] == Unbanned(users[i], now)
    ensures forall i :: 0 <= i < |r| ==> !IsExpiredBan(r[i], now)
  {
    Map(users, (u: User) => Unbanned(u, now))
  }

  /** A second run at the same instant finds nothing left to do. */
  lemma AutoUnbanIdempotent(users: seq<User>, now: Instant)
    ensures AutoUnban(AutoUnban(users, now), now) == AutoUnban(users, now)
  {
    var once := AutoUnban(users, now);
    assert forall i :: 0 <= i < |once| ==> Unbanned(once[i], now) == once[i];
  }

  /** Bans with no expiry, and those whose expiry has not passed, survive
      the job. */
  lemma AutoUnbanKeepsLiveBans(users: seq<User>, now: Instant, i: int)
    requires 0 <= i < |users| && users[i].isBanned
    requires users[i].banExpiresAt.None? || users[i].banExpiresAt.value >= now
    ensures AutoUnban(users, now)[i] == users[i]
  {
  }

  // ---------------------------------------------------------------------
  // Reports
  // ---------------------------------------------------------------------

  /** A report row; `isReported` keeps it on the admin page. */
  datatype Report = Report(id: int, reason: string, content: Option<string>, reporterId: Option<int>,
                           isReported: bool)

  function FindReport(reports: seq<Report>, id: int): (r: Option<Report>)
    ensures r.Some? ==> r.value in reports && r.value.id == id
    ensures r.None? ==> forall i :: 0 <= i < |reports| ==> reports[i].id != id
  {
    if |reports| == 0 then None
    else if reports[0].id == id then Some(reports[0])
    else FindReport(reports[1..], id)
  }

  /** `findByIsReportedTrue`: the reports still shown. */
  function ReportedQueue(reports: seq<Report>): (r: seq<Report>)
    ensures IsSubseq(r, reports)
    ensures forall q :: q in r <==> q in reports && q.isReported
  {
    Filter(reports, (q: Report) => q.isReported)
  }

  /** `processReport`: an unknown id is refused; otherwise the report is
      dismissed and every other row stays. */
  function ProcessReport(reports: seq<Report>, id: int): (r: Result<seq<Report>>)
    ensures FindReport(reports, id).None? <==> r == Err(IllegalArgument)
    ensures r.Ok? ==> |r.value| == |reports|
                      && forall i :: 0 <= i < |reports| ==>
                           r.value[i] == if reports[i].id == id then reports[i].(isReported := false) else reports[i]
  {
    if FindReport(reports, id).None? then Err(IllegalArgument)
    else Ok(Map(reports, (q: Report) => if q.id == id then q.(isReported := false) else q))
  }

  /** A dismissed report leaves the queue; every other queued report stays. */
  lemma DismissedLeavesQueue(reports: seq<Report>, id: int)
    requires ProcessReport(reports, id).Ok?
    ensures var queue := ReportedQueue(ProcessReport(reports, id).value);
            && (forall q :: q in queue ==> q.id != id)
            && (forall q :: q in ReportedQueue(reports) && q.id != id ==> q in queue)
  {
    var after := ProcessReport(reports, id).value;
    forall q | q in ReportedQueue(reports) && q.id != id ensures q in ReportedQueue(after) {
      var i :| 0 <= i < |reports| && reports[i] == q;
      assert after[i] == q;
    }
    forall q | q in ReportedQueue(after) ensures q.id != id {
      var i :| 0 <= i < |after| && after[i] == q;
    }
  }

  /** `deleteReport`: an unknown id is refused; otherwise the row goes and
      every other row stays. */
  function DeleteReport(reports: seq<Report>, id: int): (r: Result<seq<Report>>)
    ensures FindReport(reports, id).None? <==> r == Err(IllegalArgument)
    ensures r.Ok? ==> FindReport(r.value, id).None?
    ensures r.Ok? ==> forall q :: q in reports && q.id != id ==> q in r.value
    ensures r.Ok? ==> forall q :: q in r.value ==> q in reports
  {
    if FindReport(reports, id).None? then Err(IllegalArgument)
    else Ok(Filter(reports, (q: Report) => q.id != id))
  }

  // ---------------------------------------------------------------------
  // forceLogoutUser
  // ---------------------------------------------------------------------

  /** `forceLogoutUser`: an unknown user is refused; otherwise every token
      row of the user is deleted. The user row, including both token
      slots, is not touched. */
  function ForceLogoutUser(users: seq<User>, rows: seq<FcmTokenRow>, userId: int): (r: Result<seq<FcmTokenRow>>)
    ensures FindById(users, userId).None? <==> r == Err(IllegalArgument)
    ensures r.Ok? ==> forall i :: 0 <= i < |r.value| ==> r.value[i].userId != Some(userId)
    ensures r.Ok? ==> forall w :: w in rows && w.userId != Some(userId) ==> w in r.value
    ensures r.Ok? ==> IsSubseq(r.value, rows)
  {
    if FindById(users, userId).None? then Err(IllegalArgument)
    else Ok(Filter(rows, (w: FcmTokenRow) => w.userId != Some(userId)))
  }

  /** After a forced logout the fixed-time alarms, which walk the token
      rows, no longer reach the user; but a push addressed to the user,
      which reads the two slots on the user row, still goes out exactly as
      before. */
  lemma ForcedLogoutHalfDone(users: seq<User>, rows: seq<FcmTokenRow>, userId: int, title: string, body: string,
                             today: string, provider: Provider, now: Instant)
    requires ForceLogoutUser(users, rows, userId).Ok?
    ensures userId !in PushTargets(ForceLogoutUser(users, rows, userId).value)
    ensures var u := FindById(users, userId).value;
            IsAllowNotifications(u) && FcmTokens(u) != [] ==>
              SendPushToUser(users, userId, title, body, today, provider, now).multicasts
              == [Multicast(UsableTokens(FcmTokens(u)), title, body, today)]
  {
    var u := FindById(users, userId).value;
    if IsAllowNotifications(u) && FcmTokens(u) != [] {
      UserTokensUsable(u);
      assert FcmTokens(u) != [];
    }
  }
}
