/** `MealNotificationService`: the admin campaign entry point with its
    immediate and reserved paths, the reserved-campaign minute poll, and the
    per-meal alert that matches each user's terms against the day's cleaned
    menu string. */
module MealNotifications {
  import opened Base
  import opened Text
  import opened Seqs
  import opened Users
  import opened Entities
  import opened Fcm
  import opened Dates
  import opened Menu
  import opened MealText

  // ---------------------------------------------------------------------
  // Whole-day matching
  // ---------------------------------------------------------------------

  /** The terms that occur in the day's menu string, in the user's order.
      Unlike the per-dish matcher of `NotificationFilterService`, blank terms
      are not skipped. */
  function MealMatch(terms: seq<string>, menu: string): (r: seq<string>)
    ensures IsSubseq(r, terms)
    ensures forall i :: 0 <= i < |r| ==> Contains(menu, r[i])
    ensures forall i :: 0 <= i < |terms| && Contains(menu, terms[i]) ==> terms[i] in r
  {
    Filter(terms, (t: string) => Contains(menu, t))
  }

  /** The empty term occurs in every menu, so it is always reported. */
  lemma EmptyTermAlwaysMatches(terms: seq<string>, menu: string)
    requires "" in terms
    ensures "" in MealMatch(terms, menu)
  {
    assert MatchAt(menu, "", 0);
    var i :| 0 <= i < |terms| && terms[i] == "";
  }

  /** Every part of a join sits in it at some offset. */
  lemma {:induction false} JoinPartAt(ps: seq<string>, sep: string, i: nat) returns (x: nat)
    requires i < |ps|
    ensures x + |ps[i]| <= |Join(ps, sep)|
    ensures Join(ps, sep)[x..x + |ps[i]|] == ps[i]
  {
    if |ps| == 1 {
      x := 0;
    } else {
      var rest := Join(ps[1..], sep);
      var j := ps[0] + sep + rest;
      assert Join(ps, sep) == j;
      if i == 0 {
        x := 0;
        assert j[..|ps[0]|] == ps[0];
      } else {
        var y := JoinPartAt(ps[1..], sep, i - 1);
        x := |ps[0]| + |sep| + y;
        var part, want := j[x..x + |ps[i]|], rest[y..y + |ps[i]|];
        forall k | 0 <= k < |ps[i]| ensures part[k] == want[k] {
          assert j[x + k] == rest[y + k];
        }
      }
    }
  }

  /** A term the per-dish matcher finds in one of the dishes is also found
      by the whole-day matcher in those dishes joined by spaces. */
  lemma PerDishMatchIsWholeDayMatch(terms: seq<string>, menus: seq<string>)
    ensures forall i :: 0 <= i < |FindMatchedItems(terms, menus)| ==>
              FindMatchedItems(terms, menus)[i] in MealMatch(terms, Join(menus, " "))
  {
    var found := FindMatchedItems(terms, menus);
    forall i | 0 <= i < |found| ensures found[i] in MealMatch(terms, Join(menus, " ")) {
      var t := found[i];
      assert Matches(t, menus);
      var m :| m in menus && Contains(m, t);
      var d :| 0 <= d < |menus| && menus[d] == m;
      var x := JoinPartAt(menus, " ", d);
      ContainsSlice(Join(menus, " "), x, x + |m|, t);
      SubseqMembers(found, terms);
      var k :| 0 <= k < |terms| && terms[k] == t;
    }
  }

  // ---------------------------------------------------------------------
  // The per-meal alert
  // ---------------------------------------------------------------------

  /** One row of the day's NEIS response: meal type and raw dish string. */
  datatype MealRow = MealRow(mealType: string, rawDishes: string)

  const MEAL_ALERT := "MEAL_ALERT"
  const FAVOURITE_LABEL := "⭐즐겨찾기: "
  const ALLERGY_LABEL := "⚠️알레르기 주의: "
  const LIST_SEP := ", "

  /** `StringBuilder.length()`: UTF-16 code units, two for a supplementary
      character. */
  function Utf16Length(s: string): (n: nat)
    ensures |s| <= n <= 2 * |s|
  {
    Utf16Units(s, 0)
  }

  /** The UTF-16 units of `s` from index `i` on. */
  function Utf16Units(s: string, i: nat): (n: nat)
    requires i <= |s|
    ensures |s| - i <= n <= 2 * (|s| - i)
    decreases |s| - i
  {
    if i == |s| then 0 else (if s[i] as int > 0xFFFF then 2 else 1) + Utf16Units(s, i + 1)
  }

  function MealAlertHeader(mealType: string): string {
    "[" + mealType + "] "
  }

  /** The alert text up to, not including, the allergy part. */
  function FavouriteLine(mealType: string, favs: seq<string>): (r: string)
    ensures StartsWith(r, MealAlertHeader(mealType))
  {
    var h := MealAlertHeader(mealType);
    var r := if favs == [] then h else h + FAVOURITE_LABEL + Join(favs, LIST_SEP);
    assert r[..|h|] == h;
    r
  }

  /** The alert body: the header, the favourite list if any, then the
      allergy list if any, put on a new line only when the text before it is
      longer than 15 UTF-16 units. */
  function MealAlertBody(mealType: string, favs: seq<string>, allergies: seq<string>): (r: string)
    ensures StartsWith(r, MealAlertHeader(mealType))
    ensures favs != [] ==> MatchAt(r, FAVOURITE_LABEL + Join(favs, LIST_SEP), |MealAlertHeader(mealType)|)
    ensures allergies != [] ==>
              var line := FavouriteLine(mealType, favs);
              var tail := ALLERGY_LABEL + Join(allergies, LIST_SEP);
              && |r| == |line| + 1 + |tail| && r[..|line|] == line && r[|line| + 1..] == tail
              && (r[|line|] == '\n' <==> Utf16Length(line) > 15)
    ensures favs == [] && allergies == [] ==> r == MealAlertHeader(mealType)
  {
    var line := FavouriteLine(mealType, favs);
    var x := FAVOURITE_LABEL + Join(favs, LIST_SEP);
    FavouriteListAt(mealType, favs);
    if allergies == [] then line
    else
      var sep := if Utf16Length(line) > 15 then "\n" else " ";
      var tail := ALLERGY_LABEL + Join(allergies, LIST_SEP);
      MatchExtends(line, sep + tail, x, |MealAlertHeader(mealType)|);
      StartsExtends(line, sep + tail, MealAlertHeader(mealType));
      AfterSeparator(line, sep, tail);
      line + (sep + tail)
  }

  /** The favourite list sits right after the header. */
  lemma FavouriteListAt(mealType: string, favs: seq<string>)
    ensures favs != [] ==>
              MatchAt(FavouriteLine(mealType, favs), FAVOURITE_LABEL + Join(favs, LIST_SEP), |MealAlertHeader(mealType)|)
  {
    if favs != [] {
      var h, x := MealAlertHeader(mealType), FAVOURITE_LABEL + Join(favs, LIST_SEP);
      assert FavouriteLine(mealType, favs) == h + x;
      MatchAfter(h, x);
    }
  }

  lemma MatchAfter(h: string, x: string)
    ensures MatchAt(h + x, x, |h|)
  {
    assert (h + x)[|h|..|h| + |x|] == x;
  }

  lemma MatchExtends(s: string, t: string, key: string, i: int)
    ensures MatchAt(s, key, i) ==> MatchAt(s + t, key, i)
  {
    if MatchAt(s, key, i) {
      assert (s + t)[i..i + |key|] == s[i..i + |key|];
    }
  }

  lemma StartsExtends(s: string, t: string, p: string)
    ensures StartsWith(s, p) ==> StartsWith(s + t, p)
  {
    if StartsWith(s, p) {
      assert (s + t)[..|p|] == s[..|p|];
    }
  }

  /** A one-character separator and the tail after `line`. */
  lemma AfterSeparator(line: string, sep: string, tail: string)
    requires |sep| == 1
    ensures var r := line + (sep + tail);
            && |r| == |line| + 1 + |tail| && r[..|line|] == line && r[|line|] == sep[0] && r[|line| + 1..] == tail
  {
    var r := line + (sep + tail);
    assert r[|line| + 1..] == tail;
  }

  function MealAlertTitle(mealType: string): string {
    "🍱 " + mealType + " 급식 체크"
  }

  /** The push one user gets for a meal, if any: only a user with
      notifications on, with at least one token, and with a favourite or an
      allergy term found in the day's menu. */
  function MealRequestFor(u: User, mealType: string, menu: string, date: string): (r: Option<PushRequest>)
    ensures r.Some? <==>
              IsAllowNotifications(u) && FcmTokens(u) != []
              && (MealMatch(u.favoriteMenus, menu) != [] || MealMatch(u.allergies, menu) != [])
    ensures r.Some? ==>
              && r.value.tokens == FcmTokens(u)
              && r.value.title == MealAlertTitle(mealType)
              && r.value.body == MealAlertBody(mealType, MealMatch(u.favoriteMenus, menu), MealMatch(u.allergies, menu))
              && r.value.targetDate == date && r.value.pushType == MEAL_ALERT && r.value.sender == SYSTEM
  {
    var favs := MealMatch(u.favoriteMenus, menu);
    var allergies := MealMatch(u.allergies, menu);
    if !IsAllowNotifications(u) || FcmTokens(u) == [] || (favs == [] && allergies == []) then None
    else Some(PushRequest(FcmTokens(u), MealAlertTitle(mealType), MealAlertBody(mealType, favs, allergies),
                          date, MEAL_ALERT, SYSTEM))
  }

  /** The pushes for every user, in user order. */
  function MealRequests(users: seq<User>, mealType: string, menu: string, date: string): (r: seq<PushRequest>)
    ensures |r| <= |users|
    ensures forall q :: q in r ==>
              q.tokens != [] && q.title == MealAlertTitle(mealType) && q.targetDate == date
              && q.pushType == MEAL_ALERT && q.sender == SYSTEM
    ensures forall i :: 0 <= i < |users| && MealRequestFor(users[i], mealType, menu, date).Some? ==>
              MealRequestFor(users[i], mealType, menu, date).value in r
    ensures forall q :: q in r ==> exists i :: 0 <= i < |users| && MealRequestFor(users[i], mealType, menu, date) == Some(q)
  {
    var r := Collect(users, (u: User) => MealRequestFor(u, mealType, menu, date));
    MealRequestsShape(users, mealType, menu, date, r);
    r
  }

  lemma MealRequestsShape(users: seq<User>, mealType: string, menu: string, date: string, r: seq<PushRequest>)
    requires forall q :: q in r ==> exists i :: 0 <= i < |users| && MealRequestFor(users[i], mealType, menu, date) == Some(q)
    ensures forall q :: q in r ==>
              q.tokens != [] && q.title == MealAlertTitle(mealType) && q.targetDate == date
              && q.pushType == MEAL_ALERT && q.sender == SYSTEM
  {
    forall q | q in r
      ensures q.tokens != [] && q.title == MealAlertTitle(mealType) && q.targetDate == date
              && q.pushType == MEAL_ALERT && q.sender == SYSTEM
    {
      var i :| 0 <= i < |users| && MealRequestFor(users[i], mealType, menu, date) == Some(q);
    }
  }

  /** The first row of that meal type, as `findFirst` picks it. */
  function FirstOfType(rows: seq<MealRow>, mealType: string): (r: Option<MealRow>)
    ensures r.None? <==> forall i :: 0 <= i < |rows| ==> rows[i].mealType != mealType
    ensures r.Some? ==> r.value in rows && r.value.mealType == mealType
  {
    if |rows| == 0 then None
    else if rows[0].mealType == mealType then Some(rows[0])
    else FirstOfType(rows[1..], mealType)
  }

  /** `processMealSpecificNotification`: nothing when the day has no row of
      that meal type; otherwise one dispatch per user who gets a push, each
      recorded as a "MEAL_ALERT" from "SYSTEM" dated today (yyyy-MM-dd). */
  function ProcessMealSpecific(rows: seq<MealRow>, mealType: string, users: seq<User>, today: Day,
                               provider: Provider, now: Instant): (e: Effects)
    ensures FirstOfType(rows, mealType).None? ==> e == NO_EFFECTS
    ensures FirstOfType(rows, mealType).Some? ==>
              var menu := CleanMenuText(FirstOfType(rows, mealType).value.rawDishes);
              |e.history| == |MealRequests(users, mealType, menu, Iso(today))|
    ensures |e.history| <= |users|
    ensures forall h :: h in e.history ==>
              h.targetType == Some(MEAL_ALERT) && h.senderEmail == SYSTEM && h.title == MealAlertTitle(mealType)
    ensures forall m :: m in e.multicasts ==> m.targetDate == Iso(today)
    ensures FirstOfType(rows, mealType).Some? ==>
              var menu := CleanMenuText(FirstOfType(rows, mealType).value.rawDishes);
              && (forall h :: h in e.history ==> exists i :: 0 <= i < |users| && MealPushed(users[i], mealType, menu, Iso(today))
                                                  && Records(h, MealRequestFor(users[i], mealType, menu, Iso(today)).value))
              && (forall m :: m in e.multicasts ==> exists i :: 0 <= i < |users| && MealPushed(users[i], mealType, menu, Iso(today))
                                                     && Carries(m, MealRequestFor(users[i], mealType, menu, Iso(today)).value))
              && (forall i :: 0 <= i < |users| && MealPushed(users[i], mealType, menu, Iso(today)) ==>
                    && UsableTokens(FcmTokens(users[i])) != []
                    && Delivery(MealRequestFor(users[i], mealType, menu, Iso(today)).value) in e.multicasts)
  {
    var row := FirstOfType(rows, mealType);
    if row.None? then NO_EFFECTS
    else
      var menu := CleanMenuText(row.value.rawDishes);
      var reqs := MealRequests(users, mealType, menu, Iso(today));
      var e := DispatchAll(reqs, provider, now);
      DispatchAllCounts(reqs, provider, now);
      MealEffectsShape(reqs, e, mealType, Iso(today));
      MealPushesQualify(users, mealType, menu, Iso(today), reqs, e);
      MealPushesDelivered(users, mealType, menu, Iso(today), reqs, e);
      e
  }

  /** The user gets a meal alert: notifications on, a token, and a
      favourite or an allergy found in the menu. */
  predicate MealPushed(u: User, mealType: string, menu: string, date: string) {
    MealRequestFor(u, mealType, menu, date).Some?
  }

  /** Every user who gets a meal alert is sent it, on the user's usable
      tokens. */
  lemma MealPushesDelivered(users: seq<User>, mealType: string, menu: string, date: string,
                            reqs: seq<PushRequest>, e: Effects)
    requires forall i :: 0 <= i < |users| && MealRequestFor(users[i], mealType, menu, date).Some? ==>
               MealRequestFor(users[i], mealType, menu, date).value in reqs
    requires forall q :: q in reqs && UsableTokens(q.tokens) != [] ==> Delivery(q) in e.multicasts
    ensures forall i :: 0 <= i < |users| && MealPushed(users[i], mealType, menu, date) ==>
              && UsableTokens(FcmTokens(users[i])) != []
              && Delivery(MealRequestFor(users[i], mealType, menu, date).value) in e.multicasts
  {
    forall i | 0 <= i < |users| && MealPushed(users[i], mealType, menu, date)
      ensures UsableTokens(FcmTokens(users[i])) != []
              && Delivery(MealRequestFor(users[i], mealType, menu, date).value) in e.multicasts
    {
      SomeTokenUsable(users[i]);
    }
  }

  /** Every row saved and every message sent belongs to a user who gets a
      meal alert. */
  lemma MealPushesQualify(users: seq<User>, mealType: string, menu: string, date: string,
                          reqs: seq<PushRequest>, e: Effects)
    requires forall q :: q in reqs ==> exists i :: 0 <= i < |users| && MealRequestFor(users[i], mealType, menu, date) == Some(q)
    requires forall h :: h in e.history ==> exists q :: q in reqs && Records(h, q)
    requires forall m :: m in e.multicasts ==> exists q :: q in reqs && Carries(m, q)
    ensures forall h :: h in e.history ==> exists i :: 0 <= i < |users| && MealPushed(users[i], mealType, menu, date)
                                             && Records(h, MealRequestFor(users[i], mealType, menu, date).value)
    ensures forall m :: m in e.multicasts ==> exists i :: 0 <= i < |users| && MealPushed(users[i], mealType, menu, date)
                                                && Carries(m, MealRequestFor(users[i], mealType, menu, date).value)
  {
    forall h | h in e.history
      ensures exists i :: 0 <= i < |users| && MealPushed(users[i], mealType, menu, date)
                          && Records(h, MealRequestFor(users[i], mealType, menu, date).value)
    {
      var q :| q in reqs && Records(h, q);
      var i :| 0 <= i < |users| && MealRequestFor(users[i], mealType, menu, date) == Some(q);
    }
    forall m | m in e.multicasts
      ensures exists i :: 0 <= i < |users| && MealPushed(users[i], mealType, menu, date)
                          && Carries(m, MealRequestFor(users[i], mealType, menu, date).value)
    {
      var q :| q in reqs && Carries(m, q);
      var i :| 0 <= i < |users| && MealRequestFor(users[i], mealType, menu, date) == Some(q);
    }
  }

  /** Dispatching meal alerts leaves only meal-alert rows and messages. */
  lemma MealEffectsShape(reqs: seq<PushRequest>, e: Effects, mealType: string, date: string)
    requires forall q :: q in reqs ==>
               q.title == MealAlertTitle(mealType) && q.targetDate == date && q.pushType == MEAL_ALERT && q.sender == SYSTEM
    requires forall h :: h in e.history ==> exists q :: q in reqs && Records(h, q)
    requires forall m :: m in e.multicasts ==> exists q :: q in reqs && Carries(m, q)
    ensures forall h :: h in e.history ==>
              h.targetType == Some(MEAL_ALERT) && h.senderEmail == SYSTEM && h.title == MealAlertTitle(mealType)
    ensures forall m :: m in e.multicasts ==> m.targetDate == date
  {
    forall h | h in e.history
      ensures h.targetType == Some(MEAL_ALERT) && h.senderEmail == SYSTEM && h.title == MealAlertTitle(mealType)
    {
      var q :| q in reqs && Records(h, q);
    }
    forall m | m in e.multicasts ensures m.targetDate == date {
      var q :| q in reqs && Carries(m, q);
    }
  }

  // ---------------------------------------------------------------------
  // Admin campaigns
  // ---------------------------------------------------------------------

  /** The body of an admin campaign request. */
  datatype NotificationRequest = NotificationRequest(
    title: string,
    body: string,
    targetType: Option<string>,
    targetEmails: Option<seq<string>>,
    targetDate: Option<string>,
    scheduledTime: Option<Instant>)

  const ADMIN_FALLBACK := "관리자"
  const SYSTEM_RESERVED := "SYSTEM_RESERVED"
  const EMAIL_SEP := ","

  /** Reserved: a scheduled time strictly after now. */
  predicate IsReserved(req: NotificationRequest, now: Instant) {
    req.scheduledTime.Some? && req.scheduledTime.value > now
  }

  /** The admin's display name: the name of the user with that email, or
      "관리자" when there is no such user or the name is null. */
  function SenderDisplayName(users: seq<User>, adminEmail: string): (r: string)
    ensures FindByEmail(users, adminEmail).Some? && FindByEmail(users, adminEmail).value.name.Some? ==>
              r == FindByEmail(users, adminEmail).value.name.value
    ensures FindByEmail(users, adminEmail).None? || FindByEmail(users, adminEmail).value.name.None? ==>
              r == ADMIN_FALLBACK
  {
    var found := FindByEmail(users, adminEmail);
    if found.Some? && found.value.name.Some? then found.value.name.value else ADMIN_FALLBACK
  }

  /** `String.join(",", emails)`, null staying null. */
  function JoinEmails(emails: Option<seq<string>>): (r: Option<string>)
    ensures r.None? <==> emails.None?
  {
    if emails.None? then None else Some(Join(emails.value, EMAIL_SEP))
  }

  /** The poll's reading of a stored list: null or empty is null, otherwise
      the pieces between commas (trailing empty pieces dropped). */
  function SplitEmails(stored: Option<string>): (r: Option<seq<string>>)
    ensures stored.None? || stored.value == [] ==> r.None?
    ensures r.Some? ==> forall k :: 0 <= k < |r.value| ==> !Contains(r.value[k], EMAIL_SEP)
  {
    if stored.None? || stored.value == [] then None else Some(JavaSplit(stored.value, EMAIL_SEP))
  }

  /** A comma-free address list with a non-empty first and last address
      survives being stored and read back by the poll. */
  lemma SplitJoinEmails(emails: seq<string>)
    requires emails != [] && emails[0] != [] && emails[|emails| - 1] != []
    requires forall k :: 0 <= k < |emails| ==> ',' !in emails[k]
    ensures SplitEmails(JoinEmails(Some(emails))) == Some(emails)
  {
    forall k | 0 <= k < |emails| ensures !Contains(emails[k], EMAIL_SEP) {
      NotContainsFirstChar(emails[k], EMAIL_SEP);
    }
    SingleCharBorderFree(',');
    SplitJoin(emails, EMAIL_SEP);
    var j := Join(emails, EMAIL_SEP);
    assert j != [] by {
      if |emails| > 1 {
        assert j == emails[0] + EMAIL_SEP + Join(emails[1..], EMAIL_SEP);
      }
    }
  }

  datatype Outcome = Outcome(store: seq<AdminNotification>, effects: Effects)

  /** `processAdminNotification`: exactly one campaign row is appended,
      stamped by `onCreate`; an immediate request is pushed at once through
      `sendAdminPush` and stored as sent, a reserved one is stored unsent and
      pushes nothing. */
  function ProcessAdminNotification(store: seq<AdminNotification>, req: NotificationRequest, adminEmail: string,
                                    users: seq<User>, today: Day, provider: Provider, now: Instant): (o: Outcome)
    ensures |o.store| == |store| + 1 && o.store[..|store|] == store
    ensures var n := o.store[|store|];
            && (n.sent <==> !IsReserved(req, now))
            && n.title == req.title && n.body == req.body && n.targetType == req.targetType
            && n.targetDate == req.targetDate && n.scheduledTime == req.scheduledTime
            && n.targetEmails == JoinEmails(req.targetEmails)
            && n.createdBy == Some(SenderDisplayName(users, adminEmail))
            && n.createdAt == Some(now) && n.totalCount == 0 && n.successCount == 0 && n.failureCount == 0
    ensures IsReserved(req, now) ==> o.effects == NO_EFFECTS
    ensures !IsReserved(req, now) ==>
              o.effects == SendAdminPush(users, req.targetType, req.targetEmails, req.title, req.body, req.targetDate,
                                         SenderDisplayName(users, adminEmail), Iso(today), provider, now)
              && |o.effects.history| == 1
  {
    var sender := SenderDisplayName(users, adminEmail);
    var n := BuildAdminNotification(req.title, req.body, req.targetDate, req.targetType, JoinEmails(req.targetEmails),
                                    req.scheduledTime, Some(sender), Some(false));
    var reserved := IsReserved(req, now);
    var effects := if reserved then NO_EFFECTS
                   else SendAdminPush(users, req.targetType, req.targetEmails, req.title, req.body, req.targetDate,
                                      sender, Iso(today), provider, now);
    var saved := AdminNotificationOnCreate(if reserved then n else n.(sent := true), now);
    assert (store + [saved])[..|store|] == store;
    Outcome(store + [saved], effects)
  }

  /** Picked by `findBySentFalseAndScheduledTimeBefore(now)`. */
  predicate IsDue(n: AdminNotification, now: Instant) {
    !n.sent && n.scheduledTime.Some? && n.scheduledTime.value < now
  }

  /** The poll's push for one due row. */
  function ReservedDispatch(n: AdminNotification, users: seq<User>, today: Day, provider: Provider,
                            now: Instant): (e: Effects)
    ensures |e.history| == 1 && e.history[0].senderEmail == SYSTEM_RESERVED
    ensures e.history[0].targetType == n.targetType && e.history[0].title == n.title
  {
    SendAdminPush(users, n.targetType, SplitEmails(n.targetEmails), n.title, n.body, n.targetDate,
                  SYSTEM_RESERVED, Iso(today), provider, now)
  }

  /** A due row marked sent; any other row as it is. */
  function MarkIfDue(n: AdminNotification, now: Instant): (m: AdminNotification)
    ensures !IsDue(m, now)
    ensures m.(sent := n.sent) == n
  {
    if IsDue(n, now) then n.(sent := true) else n
  }

  /** The pushes of the poll: one per due row, in table order. */
  function ReservedEffects(store: seq<AdminNotification>, users: seq<User>, today: Day,
                           provider: Provider, now: Instant): (e: Effects)
    ensures |e.history| <= |store|
    ensures (forall i :: 0 <= i < |store| ==> !IsDue(store[i], now)) ==> e == NO_EFFECTS
    ensures forall h :: h in e.history ==> h.senderEmail == SYSTEM_RESERVED
  {
    if |store| == 0 then NO_EFFECTS
    else
      var rest := ReservedEffects(store[1..], users, today, provider, now);
      if IsDue(store[0], now) then Then(ReservedDispatch(store[0], users, today, provider, now), rest)
      else
        assert forall i :: 1 <= i < |store| ==> store[i] == store[1..][i - 1];
        rest
  }

  /** `checkAdminReservedNotifications`: every due row, in table order, is
      pushed once from "SYSTEM_RESERVED" and marked sent; other rows stay as
      they are. */
  function CheckAdminReserved(store: seq<AdminNotification>, users: seq<User>, today: Day,
                              provider: Provider, now: Instant): (o: Outcome)
    ensures |o.store| == |store|
    ensures forall i :: 0 <= i < |store| ==> o.store[i] == MarkIfDue(store[i], now)
    ensures forall i :: 0 <= i < |store| ==> !IsDue(o.store[i], now)
    ensures |o.effects.history| <= |store|
    ensures (forall i :: 0 <= i < |store| ==> !IsDue(store[i], now)) ==> o.effects == NO_EFFECTS
    ensures forall h :: h in o.effects.history ==> h.senderEmail == SYSTEM_RESERVED
  {
    Outcome(Map(store, (n: AdminNotification) => MarkIfDue(n, now)),
            ReservedEffects(store, users, today, provider, now))
  }

  /** A second poll at the same instant finds nothing left to do. */
  lemma CheckAdminReservedSettles(store: seq<AdminNotification>, users: seq<User>, today: Day,
                                  provider: Provider, now: Instant)
    ensures var o := CheckAdminReserved(store, users, today, provider, now);
            CheckAdminReserved(o.store, users, today, provider, now) == Outcome(o.store, NO_EFFECTS)
  {
    var o := CheckAdminReserved(store, users, today, provider, now);
    var p := CheckAdminReserved(o.store, users, today, provider, now);
    assert forall i :: 0 <= i < |o.store| ==> p.store[i] == o.store[i];
  }

  /** An immediate campaign is never picked up again by the poll, and a
      reserved one is picked up by the first poll after its time, with the
      same address list when that list is comma-free. */
  lemma CampaignLifecycle(store: seq<AdminNotification>, req: NotificationRequest, adminEmail: string,
                          users: seq<User>, today: Day, provider: Provider, created: Instant, later: Instant)
    ensures var o := ProcessAdminNotification(store, req, adminEmail, users, today, provider, created);
            var n := o.store[|store|];
            && (!IsReserved(req, created) ==> !IsDue(n, later))
            && (IsReserved(req, created) && later > req.scheduledTime.value ==> IsDue(n, later))
    ensures req.targetEmails.Some? && req.targetEmails.value != [] ==>
              var es := req.targetEmails.value;
              es[0] != [] && es[|es| - 1] != [] && (forall k :: 0 <= k < |es| ==> ',' !in es[k]) ==>
              SplitEmails(JoinEmails(req.targetEmails)) == req.targetEmails
  {
    if req.targetEmails.Some? && req.targetEmails.value != [] {
      var es := req.targetEmails.value;
      if es[0] != [] && es[|es| - 1] != [] && (forall k :: 0 <= k < |es| ==> ',' !in es[k]) {
        SplitJoinEmails(es);
      }
    }
  }
}
