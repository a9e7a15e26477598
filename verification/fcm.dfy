/** `FcmService`: device-token registration and removal, audience collection,
    and the single multicast per dispatch with its history row. Firebase is
    a parameter: a provider maps one multicast to the success and failure
    counts of its batch response, or to `None` when the call throws. */
module Fcm {
  import opened Base
  import opened Text
  import opened Seqs
  import opened Users
  import opened Entities

  /** A row of the separate `fcm_tokens` table, which the alarm scheduler,
      the admin force-logout and the settings sync read or write: its token,
      its owner if any, and its own notification flag. */
  datatype FcmTokenRow = FcmTokenRow(id: int, token: string, userId: Option<int>, allowNotifications: bool)

  /** One `sendEachForMulticast` request: the data fields the code sets. */
  datatype Multicast = Multicast(tokens: seq<string>, title: string, body: string, targetDate: string)

  datatype BatchCounts = BatchCounts(success: int, failure: int)

  type Provider = Multicast -> Option<BatchCounts>

  /** What a service call leaves behind: the multicasts handed to Firebase
      and the history rows saved, each in order. */
  datatype Effects = Effects(multicasts: seq<Multicast>, history: seq<HistoryRow>)

  const NO_EFFECTS := Effects([], [])

  function Then(a: Effects, b: Effects): Effects {
    Effects(a.multicasts + b.multicasts, a.history + b.history)
  }

  /** Firebase's own promise about a batch response, which the code does not
      check: the counts are non-negative and cover at most the tokens sent. */
  ghost predicate HonestProvider(provider: Provider) {
    forall m :: provider(m).Some? ==>
      0 <= provider(m).value.success && 0 <= provider(m).value.failure
      && provider(m).value.success + provider(m).value.failure <= |m.tokens|
  }

  predicate NonBlank(t: string) {
    !IsBlank(t)
  }

  /** The tokens `sendPushToTokens` actually sends to: blank ones dropped,
      duplicates dropped, first occurrences kept in order. */
  function UsableTokens(tokens: seq<string>): (r: seq<string>)
    ensures NoDuplicates(r)
    ensures forall i :: 0 <= i < |r| ==> !IsBlank(r[i]) && r[i] in tokens
    ensures forall i :: 0 <= i < |tokens| && !IsBlank(tokens[i]) ==> tokens[i] in r
    ensures InFirstOccurrenceOrder(r, tokens)
  {
    var kept := Filter(tokens, NonBlank);
    var r := Distinct(kept);
    assert forall i :: 0 <= i < |r| ==> r[i] in kept;
    DistinctOrder(kept);
    KeptInOrder(tokens, r);
    r
  }

  /** First-occurrence order among the non-blank tokens is their order in
      the whole list. */
  lemma KeptInOrder(tokens: seq<string>, r: seq<string>)
    requires forall i :: 0 <= i < |r| ==> !IsBlank(r[i])
    requires InFirstOccurrenceOrder(r, Filter(tokens, NonBlank))
    ensures InFirstOccurrenceOrder(r, tokens)
  {
    forall i, j | 0 <= i < j < |r| ensures FirstIndex(tokens, r[i]) < FirstIndex(tokens, r[j]) {
      FilterFirstOrder(tokens, NonBlank, r[i], r[j]);
    }
  }

  /** `sendPushToTokens`: nothing at all for a null or empty list; otherwise
      one multicast to the usable tokens (none when no token is usable) and
      exactly one history row whose total is the number of usable tokens and
      whose counts are the provider's, or 0 when it failed or was not called. */
  function SendPushToTokens(tokens: Option<seq<string>>, title: string, body: string, targetDate: string,
                            pushType: Option<string>, sender: string, provider: Provider,
                            now: Instant): (e: Effects)
    ensures tokens.None? || tokens.value == [] ==> e == NO_EFFECTS
    ensures tokens.Some? && tokens.value != [] ==>
              var usable := UsableTokens(tokens.value);
              && |e.history| == 1
              && e.history[0].totalCount == |usable|
              && e.history[0].title == title && e.history[0].body == body
              && e.history[0].senderEmail == sender && e.history[0].targetType == pushType
              && (usable == [] ==> e.multicasts == [])
              && (usable != [] ==> e.multicasts == [Multicast(usable, title, body, targetDate)])
    ensures |e.multicasts| == 1 ==>
              var counts := provider(e.multicasts[0]);
              && e.history[0].successCount == (if counts.Some? then counts.value.success else 0)
              && e.history[0].failureCount == (if counts.Some? then counts.value.failure else 0)
    ensures |e.multicasts| == 0 && |e.history| == 1 ==>
              e.history[0].successCount == 0 && e.history[0].failureCount == 0
  {
    if tokens.None? || tokens.value == [] then NO_EFFECTS
    else
      var usable := UsableTokens(tokens.value);
      var calls := if usable == [] then [] else [Multicast(usable, title, body, targetDate)];
      var counts := if usable == [] then None else provider(calls[0]);
      var row := BuildHistory(title, body, sender, pushType, Some(|usable|),
                              Some(if counts.Some? then counts.value.success else 0),
                              Some(if counts.Some? then counts.value.failure else 0), now);
      Effects(calls, [row])
  }

  /** With an honest provider every history row's counts are non-negative
      and add up to at most its total. */
  lemma SendPushToTokensCounts(tokens: Option<seq<string>>, title: string, body: string, targetDate: string,
                               pushType: Option<string>, sender: string, provider: Provider, now: Instant)
    requires HonestProvider(provider)
    ensures var e := SendPushToTokens(tokens, title, body, targetDate, pushType, sender, provider, now);
            forall h :: h in e.history ==>
              0 <= h.successCount && 0 <= h.failureCount && h.successCount + h.failureCount <= h.totalCount
  {
    var e := SendPushToTokens(tokens, title, body, targetDate, pushType, sender, provider, now);
    if |e.multicasts| == 1 {
      var m := e.multicasts[0];
      assert provider(m).Some? ==> provider(m).value.success + provider(m).value.failure <= |m.tokens|;
    }
  }

  /** The arguments of one `sendPushToTokens` call made by a service. */
  datatype PushRequest = PushRequest(tokens: seq<string>, title: string, body: string, targetDate: string,
                                     pushType: string, sender: string)

  function Dispatch(r: PushRequest, provider: Provider, now: Instant): Effects {
    SendPushToTokens(Some(r.tokens), r.title, r.body, r.targetDate, Some(r.pushType), r.sender, provider, now)
  }

  /** The requests carried out one after another. */
  function DispatchAll(reqs: seq<PushRequest>, provider: Provider, now: Instant): (e: Effects)
    ensures |e.history| <= |reqs| && |e.multicasts| <= |reqs|
    ensures forall h :: h in e.history ==> exists q :: q in reqs && Records(h, q)
    ensures forall m :: m in e.multicasts ==> exists q :: q in reqs && Carries(m, q)
    ensures forall q :: q in reqs && UsableTokens(q.tokens) != [] ==> Delivery(q) in e.multicasts
  {
    if |reqs| == 0 then NO_EFFECTS
    else
      var first, rest := Dispatch(reqs[0], provider, now), DispatchAll(reqs[1..], provider, now);
      assert forall q :: q in reqs[1..] ==> q in reqs;
      assert forall q :: q in reqs ==> q == reqs[0] || q in reqs[1..];
      assert UsableTokens(reqs[0].tokens) != [] ==> first.multicasts == [Delivery(reqs[0])];
      assert forall h :: h in first.history ==> Records(h, reqs[0]);
      assert forall m :: m in first.multicasts ==> Carries(m, reqs[0]);
      Then(first, rest)
  }

  /** The multicast that carries request `q` when it has a usable token. */
  function Delivery(q: PushRequest): Multicast {
    Multicast(UsableTokens(q.tokens), q.title, q.body, q.targetDate)
  }

  /** Requests that all carry tokens leave one history row each. */
  lemma {:induction false} DispatchAllCounts(reqs: seq<PushRequest>, provider: Provider, now: Instant)
    requires forall i :: 0 <= i < |reqs| ==> reqs[i].tokens != []
    ensures |DispatchAll(reqs, provider, now).history| == |reqs|
  {
    if |reqs| > 0 {
      assert forall i :: 0 <= i < |reqs| - 1 ==> reqs[1..][i] == reqs[i + 1];
      DispatchAllCounts(reqs[1..], provider, now);
    }
  }

  /** A history row records request `q`: same texts, sender and type. */
  predicate Records(h: HistoryRow, q: PushRequest) {
    h.title == q.title && h.body == q.body && h.senderEmail == q.sender && h.targetType == Some(q.pushType)
  }

  /** A multicast carries request `q`: same texts and date, and only tokens `q` listed. */
  predicate Carries(m: Multicast, q: PushRequest) {
    m.title == q.title && m.body == q.body && m.targetDate == q.targetDate
    && forall k :: 0 <= k < |m.tokens| ==> m.tokens[k] in q.tokens
  }

  // ---------------------------------------------------------------------
  // Audiences
  // ---------------------------------------------------------------------

  /** The tokens of every user with notifications on, in user order. */
  function AudienceTokens(users: seq<User>): (r: seq<string>)
    ensures forall t :: t in r ==> exists u :: u in users && IsAllowNotifications(u) && t in FcmTokens(u)
    ensures forall u, t :: u in users && IsAllowNotifications(u) && t in FcmTokens(u) ==> t in r
  {
    if |users| == 0 then []
    else
      var u := users[0];
      var rest := AudienceTokens(users[1..]);
      assert forall w :: w in users[1..] ==> w in users;
      assert forall w :: w in users ==> w == u || w in users[1..];
      (if IsAllowNotifications(u) then FcmTokens(u) else []) + rest
  }

  const ALL := "ALL"

  /** `findByEmailIn`: the users whose email is in the list, in table order. */
  function FindByEmailIn(users: seq<User>, emails: seq<string>): (r: seq<User>)
    ensures forall u :: u in r <==> u in users && u.email in emails
  {
    if |users| == 0 then []
    else
      var rest := FindByEmailIn(users[1..], emails);
      assert forall w :: w in users <==> w == users[0] || w in users[1..];
      if users[0].email in emails then [users[0]] + rest else rest
  }

  /** The token list `sendAdminPush` builds: for "ALL" (any case) the
      audience is every user, for another type with a non-empty email list it
      is the users with those emails, and otherwise it is empty; only users
      with notifications on contribute. */
  function CollectTokens(users: seq<User>, targetType: Option<string>, targetEmails: Option<seq<string>>): (r: seq<string>)
    ensures EqualsIgnoreCase(ALL, targetType) ==> r == AudienceTokens(users)
    ensures !EqualsIgnoreCase(ALL, targetType) && targetEmails.Some? && targetEmails.value != [] ==>
              r == AudienceTokens(FindByEmailIn(users, targetEmails.value))
    ensures !EqualsIgnoreCase(ALL, targetType) && (targetEmails.None? || targetEmails.value == []) ==> r == []
  {
    if EqualsIgnoreCase(ALL, targetType) then AudienceTokens(users)
    else if targetEmails.Some? && targetEmails.value != [] then AudienceTokens(FindByEmailIn(users, targetEmails.value))
    else []
  }

  /** A collected token belongs to a user with notifications on who is in
      the audience; and every such user's tokens are collected. */
  lemma CollectTokensAudience(users: seq<User>, targetType: Option<string>, targetEmails: Option<seq<string>>, t: string)
    requires !EqualsIgnoreCase(ALL, targetType) && targetEmails.Some?
    ensures t in CollectTokens(users, targetType, targetEmails) <==>
              exists u :: u in users && u.email in targetEmails.value && IsAllowNotifications(u) && t in FcmTokens(u)
  {
    if targetEmails.value != [] {
      var aud := FindByEmailIn(users, targetEmails.value);
      if t in CollectTokens(users, targetType, targetEmails) {
        var u :| u in aud && IsAllowNotifications(u) && t in FcmTokens(u);
        assert u in users && u.email in targetEmails.value;
      }
    }
  }

  /** `sendAdminPush`: with no collected token, one 0/0/0 history row and no
      multicast; otherwise `sendPushToTokens` on the collected tokens, dated
      `targetDate` or, when that is null or empty, today. Either way exactly
      one history row, carrying the target type. `today` is the caller's
      `yyyy-MM-dd` rendering of the date of the clock whose instant is
      `now`. */
  function SendAdminPush(users: seq<User>, targetType: Option<string>, targetEmails: Option<seq<string>>,
                         title: string, body: string, targetDate: Option<string>, sender: string,
                         today: string, provider: Provider, now: Instant): (e: Effects)
    ensures |e.history| == 1 && |e.multicasts| <= 1
    ensures e.history[0].targetType == targetType && e.history[0].senderEmail == sender
    ensures e.history[0].title == title && e.history[0].body == body
    ensures CollectTokens(users, targetType, targetEmails) == [] ==>
              e.multicasts == [] && e.history[0].totalCount == 0
              && e.history[0].successCount == 0 && e.history[0].failureCount == 0
    ensures e.multicasts != [] ==>
              e.multicasts[0].targetDate == (if targetDate.None? || targetDate.value == [] then today else targetDate.value)
              && forall i :: 0 <= i < |e.multicasts[0].tokens| ==>
                   e.multicasts[0].tokens[i] in CollectTokens(users, targetType, targetEmails)
  {
    var tokens := CollectTokens(users, targetType, targetEmails);
    if tokens == [] then
      Effects([], [BuildHistory(title, body, sender, targetType, Some(0), Some(0), Some(0), now)])
    else
      var date := if targetDate.None? || targetDate.value == [] then today else targetDate.value;
      SendPushToTokens(Some(tokens), title, body, date, targetType, sender, provider, now)
  }

  /** Every collected token is usable, so a non-empty audience always gets
      its multicast. */
  lemma AudienceTokensUsable(users: seq<User>)
    ensures forall i :: 0 <= i < |AudienceTokens(users)| ==> !IsBlank(AudienceTokens(users)[i])
  {
    forall i | 0 <= i < |AudienceTokens(users)| ensures !IsBlank(AudienceTokens(users)[i]) {
      var t := AudienceTokens(users)[i];
      assert t in AudienceTokens(users);
      var u :| u in users && IsAllowNotifications(u) && t in FcmTokens(u);
    }
  }

  // ---------------------------------------------------------------------
  // Single-user push and token registry
  // ---------------------------------------------------------------------

  const TARGET := "TARGET"
  const SYSTEM := "SYSTEM"

  /** `sendPushToUser`: nothing for an unknown user, a user with
      notifications off or one without tokens; otherwise a "TARGET" dispatch
      from "SYSTEM" to that user's tokens, dated today. `today` is the
      caller's `yyyy-MM-dd` rendering of the clock's date, the same clock
      whose instant `now` stamps the history row. */
  function SendPushToUser(users: seq<User>, userId: int, title: string, body: string, today: string,
                          provider: Provider, now: Instant): (e: Effects)
    ensures FindById(users, userId).None? ==> e == NO_EFFECTS
    ensures FindById(users, userId).Some? && !IsAllowNotifications(FindById(users, userId).value) ==> e == NO_EFFECTS
    ensures FindById(users, userId).Some? && FcmTokens(FindById(users, userId).value) == [] ==> e == NO_EFFECTS
    ensures FindById(users, userId).Some? && IsAllowNotifications(FindById(users, userId).value)
            && FcmTokens(FindById(users, userId).value) != [] ==>
              var u := FindById(users, userId).value;
              && UsableTokens(FcmTokens(u)) != []
              && e.multicasts == [Multicast(UsableTokens(FcmTokens(u)), title, body, today)]
              && |e.history| == 1 && e.history[0].targetType == Some(TARGET) && e.history[0].senderEmail == SYSTEM
              && e.history[0].title == title && e.history[0].body == body
              && e.history[0].totalCount == |UsableTokens(FcmTokens(u))|
    ensures e != NO_EFFECTS ==>
              var u := FindById(users, userId).value;
              && IsAllowNotifications(u) && |e.history| == 1
              && e.history[0].targetType == Some(TARGET) && e.history[0].senderEmail == SYSTEM
              && e.multicasts == [Multicast(UsableTokens(FcmTokens(u)), title, body, today)]
  {
    var found := FindById(users, userId);
    if found.None? || !IsAllowNotifications(found.value) || FcmTokens(found.value) == [] then NO_EFFECTS
    else
      var tokens := FcmTokens(found.value);
      assert tokens[0] in UsableTokens(tokens);
      SendPushToTokens(Some(tokens), title, body, today, Some(TARGET), SYSTEM, provider, now)
  }

  /** A user's own token list is sent as it is, except that a token held in
      both slots is sent once. */
  lemma UserTokensUsable(u: User)
    ensures u.fcmTokenMobile != u.fcmTokenWeb ==> UsableTokens(FcmTokens(u)) == FcmTokens(u)
    ensures u.fcmTokenMobile == u.fcmTokenWeb && !IsBlankSlot(u.fcmTokenMobile) ==>
              UsableTokens(FcmTokens(u)) == [u.fcmTokenMobile.value]
  {
    var ts := FcmTokens(u);
    FilterAll(ts, NonBlank);
    if |ts| == 2 && ts[0] == ts[1] {
      assert ts == [ts[0], ts[0]];
      DistinctPair(ts[0]);
    } else {
      DistinctNoDuplicates(ts);
    }
  }

  /** A user with a token in either slot has a usable one. */
  lemma SomeTokenUsable(u: User)
    ensures FcmTokens(u) != [] ==> UsableTokens(FcmTokens(u)) != []
  {
    UserTokensUsable(u);
  }

  /** `saveToken`: an unknown user is an error; otherwise the slot is
      updated as `updateFcmToken` does and notifications are switched on. */
  function SaveToken(users: seq<User>, userId: int, token: Option<string>, deviceType: Option<string>): (r: Result<seq<User>>)
    ensures FindById(users, userId).None? <==> r == Err(IllegalArgument)
    ensures r.Ok? ==>
              var u := FindById(users, userId).value;
              var v := SetAllowNotifications(UpdateFcmToken(u, token, deviceType), Some(true));
              r.value == Store(users, v) && IsAllowNotifications(v)
  {
    var found := FindById(users, userId);
    if found.None? then Err(IllegalArgument)
    else
      var u := UpdateFcmToken(found.value, token, deviceType);
      var v := if u.allowNotifications.None? || !u.allowNotifications.value then SetAllowNotifications(u, Some(true)) else u;
      assert v == SetAllowNotifications(u, Some(true));
      Ok(Store(users, v))
  }

  /** One user with every slot holding `token` emptied. */
  function ClearSlots(u: User, token: string): (v: User)
    ensures v.fcmTokenMobile == (if u.fcmTokenMobile == Some(token) then None else u.fcmTokenMobile)
    ensures v.fcmTokenWeb == (if u.fcmTokenWeb == Some(token) then None else u.fcmTokenWeb)
    ensures v.(fcmTokenMobile := u.fcmTokenMobile, fcmTokenWeb := u.fcmTokenWeb) == u
  {
    u.(fcmTokenMobile := if u.fcmTokenMobile == Some(token) then None else u.fcmTokenMobile,
       fcmTokenWeb := if u.fcmTokenWeb == Some(token) then None else u.fcmTokenWeb)
  }

  /** `deleteToken`: a blank token changes nothing; otherwise every slot of
      every user that equals the token is emptied and nothing else moves. */
  function DeleteToken(users: seq<User>, token: Option<string>): (r: seq<User>)
    ensures IsBlankSlot(token) ==> r == users
    ensures |r| == |users|
    ensures !IsBlankSlot(token) ==> forall i :: 0 <= i < |users| ==> r[i] == ClearSlots(users[i], token.value)
  {
    if IsBlankSlot(token) then users
    else Map(users, (u: User) => ClearSlots(u, token.value))
  }

  /** After `deleteToken` no user is pushed on that token any more, and every
      other token a user had is still there. */
  lemma DeleteTokenRemovesIt(users: seq<User>, token: string, i: int)
    requires !IsBlank(token) && 0 <= i < |users|
    ensures token !in FcmTokens(DeleteToken(users, Some(token))[i])
    ensures forall t :: t in FcmTokens(users[i]) && t != token ==> t in FcmTokens(DeleteToken(users, Some(token))[i])
  {
  }
}
