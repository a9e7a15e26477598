/** `NotificationFilterService.sendFilteredNotifications` and the weekday
    `MealNotificationScheduler` that feeds it: the day's dishes are cleaned,
    and each user with notifications on and a token gets one push naming the
    allergy and favourite terms found in some dish, for each category the
    user has switched on. */
module FilteredAlerts {
  import opened Base
  import opened Text
  import opened Seqs
  import opened Users
  import opened Fcm
  import opened Dates
  import opened Menu

  const FILTERED := "FILTERED"
  const FILTERED_TITLE := "🍱 오늘의 맞춤 급식 알림"
  const LINE := "\n"

  /** The two categories a filtered push can report. */
  datatype Category = Allergy | Favourite

  /** The phrases around a category's list of matched terms. */
  function Opening(c: Category): string {
    match c
    case Allergy => "⚠️ 못 드시는 ["
    case Favourite => "⭐ 좋아하는 ["
  }

  function Closing(c: Category): string {
    match c
    case Allergy => "] 성분이 포함되어 있어요."
    case Favourite => "] 메뉴가 오늘 나와요!"
  }

  /** A category's sentence listing `items`; neither end is white space, so
      trimming never eats into it. */
  function Sentence(c: Category, items: seq<string>): (r: string)
    ensures r != [] && !IsTrimmed(r[0]) && !IsTrimmed(r[|r| - 1])
  {
    var opening, closing := Opening(c), Closing(c);
    var r := opening + Join(items, ", ") + closing;
    assert r[0] == opening[0] && r[|r| - 1] == closing[|closing| - 1];
    r
  }

  /** The allergy terms found, when that category is switched on. */
  function AllergyHits(u: User, menus: seq<string>): (r: seq<string>)
    ensures !u.allowAllergyNotifications ==> r == []
    ensures u.allowAllergyNotifications ==> r == FindMatchedItems(u.allergies, menus)
  {
    if u.allowAllergyNotifications then FindMatchedItems(u.allergies, menus) else []
  }

  /** The favourite terms found, when that category is switched on. */
  function FavouriteHits(u: User, menus: seq<string>): (r: seq<string>)
    ensures !u.allowFavoriteNotifications ==> r == []
    ensures u.allowFavoriteNotifications ==> r == FindMatchedItems(u.favoriteMenus, menus)
  {
    if u.allowFavoriteNotifications then FindMatchedItems(u.favoriteMenus, menus) else []
  }

  /** The sentences of a body, allergy first. */
  function Sentences(allergies: seq<string>, favourites: seq<string>): seq<string> {
    (if allergies != [] then [Sentence(Allergy, allergies)] else [])
    + (if favourites != [] then [Sentence(Favourite, favourites)] else [])
  }

  /** The `StringBuilder` contents: each present sentence followed by a
      line feed, allergy first. */
  function RawBody(allergies: seq<string>, favourites: seq<string>): string {
    (if allergies != [] then Sentence(Allergy, allergies) + LINE else "")
    + (if favourites != [] then Sentence(Favourite, favourites) + LINE else "")
  }

  /** The trimmed body that is pushed: the present sentences, allergy
      first, one per line, with no trailing line feed. */
  function FilteredBody(allergies: seq<string>, favourites: seq<string>): (r: string)
    ensures r == Join(Sentences(allergies, favourites), LINE)
    ensures Trim(r) == r
  {
    var raw := RawBody(allergies, favourites);
    FilteredBodyShape(allergies, favourites);
    TrimIdempotent(raw);
    Trim(raw)
  }

  /** Trimming the builder contents drops exactly the final line feed. */
  lemma FilteredBodyShape(allergies: seq<string>, favourites: seq<string>)
    ensures Trim(RawBody(allergies, favourites)) == Join(Sentences(allergies, favourites), LINE)
  {
    var ss := Sentences(allergies, favourites);
    var j := Join(ss, LINE);
    var raw := RawBody(allergies, favourites);
    if ss == [] {
      assert raw == [];
    } else {
      if |ss| == 2 {
        assert Join(ss[1..], LINE) == ss[1];
        assert j == ss[0] + LINE + ss[1];
        assert raw == j + LINE;
        assert j[|j| - 1] == ss[1][|ss[1]| - 1];
      } else {
        assert raw == j + LINE;
      }
      TrimLineFeed(j);
    }
  }

  /** A line feed after a string with untrimmable ends is all `trim` removes. */
  lemma TrimLineFeed(j: string)
    requires j != [] && !IsTrimmed(j[0]) && !IsTrimmed(j[|j| - 1])
    ensures Trim(j + LINE) == j
  {
    var s := j + LINE;
    assert TrimStart(s) == s;
    assert s[..|s| - 1] == j;
    assert TrimEnd(s) == TrimEnd(j);
  }

  /** The push one user gets, if any: notifications on, a token, and at
      least one enabled category with a match. */
  function FilteredRequestFor(u: User, menus: seq<string>, mealDate: string): (r: Option<PushRequest>)
    ensures r.Some? <==>
              IsAllowNotifications(u) && FcmTokens(u) != []
              && ((u.allowAllergyNotifications && FindMatchedItems(u.allergies, menus) != [])
                  || (u.allowFavoriteNotifications && FindMatchedItems(u.favoriteMenus, menus) != []))
    ensures r.Some? ==>
              && r.value.tokens == FcmTokens(u) && r.value.title == FILTERED_TITLE
              && r.value.body == FilteredBody(AllergyHits(u, menus), FavouriteHits(u, menus))
              && r.value.targetDate == mealDate && r.value.pushType == FILTERED && r.value.sender == SYSTEM
  {
    var a := AllergyHits(u, menus);
    var f := FavouriteHits(u, menus);
    if !IsAllowNotifications(u) || FcmTokens(u) == [] || (a == [] && f == []) then None
    else Some(PushRequest(FcmTokens(u), FILTERED_TITLE, FilteredBody(a, f), mealDate, FILTERED, SYSTEM))
  }

  /** The pushes for every user, in user order. */
  function FilteredRequests(users: seq<User>, menus: seq<string>, mealDate: string): (r: seq<PushRequest>)
    ensures |r| <= |users|
    ensures forall q :: q in r ==>
              q.tokens != [] && q.title == FILTERED_TITLE && q.targetDate == mealDate
              && q.pushType == FILTERED && q.sender == SYSTEM
    ensures forall i :: 0 <= i < |users| && FilteredRequestFor(users[i], menus, mealDate).Some? ==>
              FilteredRequestFor(users[i], menus, mealDate).value in r
    ensures forall q :: q in r ==> exists i :: 0 <= i < |users| && FilteredRequestFor(users[i], menus, mealDate) == Some(q)
  {
    var r := Collect(users, (u: User) => FilteredRequestFor(u, menus, mealDate));
    FilteredRequestsShape(users, menus, mealDate, r);
    r
  }

  /** Every push collected is one a user gets, so it has the shape of one. */
  lemma FilteredRequestsShape(users: seq<User>, menus: seq<string>, mealDate: string, r: seq<PushRequest>)
    requires forall q :: q in r ==> exists i :: 0 <= i < |users| && FilteredRequestFor(users[i], menus, mealDate) == Some(q)
    ensures forall q :: q in r ==>
              q.tokens != [] && q.title == FILTERED_TITLE && q.targetDate == mealDate
              && q.pushType == FILTERED && q.sender == SYSTEM
  {
    forall q | q in r
      ensures q.tokens != [] && q.title == FILTERED_TITLE && q.targetDate == mealDate
              && q.pushType == FILTERED && q.sender == SYSTEM
    {
      var i :| 0 <= i < |users| && FilteredRequestFor(users[i], menus, mealDate) == Some(q);
    }
  }

  /** `sendFilteredNotifications`: nothing at all when no dish survives
      cleaning; otherwise one "FILTERED" dispatch from "SYSTEM" per user
      who gets a push, dated `mealDate`. */
  function SendFiltered(mealDate: string, rawMenus: seq<string>, users: seq<User>,
                        provider: Provider, now: Instant): (e: Effects)
    ensures CleanMenus(rawMenus) == [] ==> e == NO_EFFECTS
    ensures CleanMenus(rawMenus) != [] ==> |e.history| == |FilteredRequests(users, CleanMenus(rawMenus), mealDate)|
    ensures |e.history| <= |users|
    ensures forall h :: h in e.history ==>
              h.targetType == Some(FILTERED) && h.senderEmail == SYSTEM && h.title == FILTERED_TITLE
    ensures forall m :: m in e.multicasts ==> m.targetDate == mealDate && m.title == FILTERED_TITLE
    ensures CleanMenus(rawMenus) != [] ==>
              var menus := CleanMenus(rawMenus);
              && (forall h :: h in e.history ==> exists i :: 0 <= i < |users| && FilteredPushed(users[i], menus, mealDate)
                                                  && Records(h, FilteredRequestFor(users[i], menus, mealDate).value))
              && (forall m :: m in e.multicasts ==> exists i :: 0 <= i < |users| && FilteredPushed(users[i], menus, mealDate)
                                                     && Carries(m, FilteredRequestFor(users[i], menus, mealDate).value))
              && (forall i :: 0 <= i < |users| && FilteredPushed(users[i], menus, mealDate) ==>
                    && UsableTokens(FcmTokens(users[i])) != []
                    && Delivery(FilteredRequestFor(users[i], menus, mealDate).value) in e.multicasts)
  {
    var menus := CleanMenus(rawMenus);
    if menus == [] then NO_EFFECTS
    else
      var reqs := FilteredRequests(users, menus, mealDate);
      var e := DispatchAll(reqs, provider, now);
      DispatchAllCounts(reqs, provider, now);
      FilteredEffectsShape(reqs, e, mealDate);
      FilteredPushesQualify(users, menus, mealDate, reqs, e);
      FilteredPushesDelivered(users, menus, mealDate, reqs, e);
      e
  }

  /** The user gets a filtered push: notifications on, a token, and an
      enabled category with a match. */
  predicate FilteredPushed(u: User, menus: seq<string>, mealDate: string) {
    FilteredRequestFor(u, menus, mealDate).Some?
  }

  /** Every row saved and every message sent belongs to a user who gets a
      filtered push. */
  lemma FilteredPushesQualify(users: seq<User>, menus: seq<string>, mealDate: string,
                              reqs: seq<PushRequest>, e: Effects)
    requires forall q :: q in reqs ==> exists i :: 0 <= i < |users| && FilteredRequestFor(users[i], menus, mealDate) == Some(q)
    requires forall h :: h in e.history ==> exists q :: q in reqs && Records(h, q)
    requires forall m :: m in e.multicasts ==> exists q :: q in reqs && Carries(m, q)
    ensures forall h :: h in e.history ==> exists i :: 0 <= i < |users| && FilteredPushed(users[i], menus, mealDate)
                                             && Records(h, FilteredRequestFor(users[i], menus, mealDate).value)
    ensures forall m :: m in e.multicasts ==> exists i :: 0 <= i < |users| && FilteredPushed(users[i], menus, mealDate)
                                                && Carries(m, FilteredRequestFor(users[i], menus, mealDate).value)
  {
    forall h | h in e.history
      ensures exists i :: 0 <= i < |users| && FilteredPushed(users[i], menus, mealDate)
                          && Records(h, FilteredRequestFor(users[i], menus, mealDate).value)
    {
      var q :| q in reqs && Records(h, q);
      var i :| 0 <= i < |users| && FilteredRequestFor(users[i], menus, mealDate) == Some(q);
    }
    forall m | m in e.multicasts
      ensures exists i :: 0 <= i < |users| && FilteredPushed(users[i], menus, mealDate)
                          && Carries(m, FilteredRequestFor(users[i], menus, mealDate).value)
    {
      var q :| q in reqs && Carries(m, q);
      var i :| 0 <= i < |users| && FilteredRequestFor(users[i], menus, mealDate) == Some(q);
    }
  }

  /** Every user who gets a filtered push is sent it, on the user's usable
      tokens. */
  lemma FilteredPushesDelivered(users: seq<User>, menus: seq<string>, mealDate: string,
                                reqs: seq<PushRequest>, e: Effects)
    requires forall i :: 0 <= i < |users| && FilteredRequestFor(users[i], menus, mealDate).Some? ==>
               FilteredRequestFor(users[i], menus, mealDate).value in reqs
    requires forall q :: q in reqs && UsableTokens(q.tokens) != [] ==> Delivery(q) in e.multicasts
    ensures forall i :: 0 <= i < |users| && FilteredPushed(users[i], menus, mealDate) ==>
              && UsableTokens(FcmTokens(users[i])) != []
              && Delivery(FilteredRequestFor(users[i], menus, mealDate).value) in e.multicasts
  {
    forall i | 0 <= i < |users| && FilteredPushed(users[i], menus, mealDate)
      ensures UsableTokens(FcmTokens(users[i])) != []
              && Delivery(FilteredRequestFor(users[i], menus, mealDate).value) in e.multicasts
    {
      SomeTokenUsable(users[i]);
    }
  }

  /** Dispatching filtered pushes leaves only filtered rows and messages. */
  lemma FilteredEffectsShape(reqs: seq<PushRequest>, e: Effects, mealDate: string)
    requires forall q :: q in reqs ==>
               q.title == FILTERED_TITLE && q.targetDate == mealDate && q.pushType == FILTERED && q.sender == SYSTEM
    requires forall h :: h in e.history ==> exists q :: q in reqs && Records(h, q)
    requires forall m :: m in e.multicasts ==> exists q :: q in reqs && Carries(m, q)
    ensures forall h :: h in e.history ==>
              h.targetType == Some(FILTERED) && h.senderEmail == SYSTEM && h.title == FILTERED_TITLE
    ensures forall m :: m in e.multicasts ==> m.targetDate == mealDate && m.title == FILTERED_TITLE
  {
    forall h | h in e.history
      ensures h.targetType == Some(FILTERED) && h.senderEmail == SYSTEM && h.title == FILTERED_TITLE
    {
      var q :| q in reqs && Records(h, q);
    }
    forall m | m in e.multicasts ensures m.targetDate == mealDate && m.title == FILTERED_TITLE {
      var q :| q in reqs && Carries(m, q);
    }
  }

  /** A user with both categories matched gets the allergy line first and
      the favourite line second. */
  lemma AllergyLineFirst(u: User, menus: seq<string>, mealDate: string)
    requires FilteredRequestFor(u, menus, mealDate).Some?
    requires AllergyHits(u, menus) != [] && FavouriteHits(u, menus) != []
    ensures var body := FilteredRequestFor(u, menus, mealDate).value.body;
            body == Sentence(Allergy, AllergyHits(u, menus)) + LINE + Sentence(Favourite, FavouriteHits(u, menus))
  {
    var ss := Sentences(AllergyHits(u, menus), FavouriteHits(u, menus));
    assert Join(ss[1..], LINE) == ss[1];
    assert Join(ss, LINE) == ss[0] + LINE + ss[1];
  }

  // ---------------------------------------------------------------------
  // MealNotificationScheduler
  // ---------------------------------------------------------------------

  /** The arguments of one `sendFilteredNotifications` call. */
  datatype FilterCall = FilterCall(mealDate: string, menus: seq<string>)

  /** The calls one weekday trigger makes, given the dish list the menu
      lookup returned for today (`None` for null): none for a missing or
      empty list, otherwise exactly one, with today as yyyyMMdd and the list
      unchanged. The trigger's label only reaches the log. */
  function SchedulerCalls(todayMenus: Option<seq<string>>, today: Day): (calls: seq<FilterCall>)
    ensures todayMenus.None? || todayMenus.value == [] <==> calls == []
    ensures calls != [] ==> calls == [FilterCall(Basic(today), todayMenus.value)]
  {
    if todayMenus.Some? && todayMenus.value != [] then [FilterCall(Basic(today), todayMenus.value)] else []
  }

  /** A trigger: each call handed to the filter service. */
  function SendMealNotification(todayMenus: Option<seq<string>>, today: Day, users: seq<User>,
                                provider: Provider, now: Instant): (e: Effects)
    ensures todayMenus.None? || todayMenus.value == [] ==> e == NO_EFFECTS
    ensures forall h :: h in e.history ==> h.targetType == Some(FILTERED)
  {
    var calls := SchedulerCalls(todayMenus, today);
    if calls == [] then NO_EFFECTS
    else SendFiltered(calls[0].mealDate, calls[0].menus, users, provider, now)
  }

  /** The yyyyMMdd date handed on reads back as today. */
  lemma SchedulerDateIsToday(todayMenus: Option<seq<string>>, today: Day)
    requires SchedulerCalls(todayMenus, today) != []
    ensures ParseBasic(SchedulerCalls(todayMenus, today)[0].mealDate) == today
  {
    ParseBasicOfBasic(today);
  }
}
