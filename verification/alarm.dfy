/** `MealAlarmScheduler`: three fixed-time pushes to every registered
    device, sent only when the day has a menu, each followed by one campaign
    row; and its own minute poll of reserved campaigns, which, unlike the one
    in `MealNotificationService`, keeps a campaign's author as sender. Both
    catch a failing push's exception and go on, but each runs in one
    transaction that the failure still rolls back. */
module Alarm {
  import opened Base
  import opened Text
  import opened Seqs
  import opened Users
  import opened Entities
  import opened Fcm
  import opened Dates
  import opened MealNotifications

  const SYSTEM_SCHEDULER := "SYSTEM_SCHEDULER"

  /** The three triggers, each with its own title and body. */
  datatype Slot = Breakfast | Lunch | Dinner

  function SlotTitle(s: Slot): string {
    match s
    case Breakfast => "[BSSM급식알리미]오늘의 조식 메뉴 🍱"
    case Lunch => "[BSSM급식알리미]오늘의 중식 메뉴 🍛"
    case Dinner => "[BSSM급식알리미]오늘의 석식 메뉴 🍕"
  }

  function SlotBody(s: Slot): string {
    match s
    case Breakfast => "오늘 아침, 힘차게 시작해봐요!"
    case Lunch => "기다리던 점심 시간입니다. 맛있게 드세요!"
    case Dinner => "오늘 하루도 고생 많았어요. 즐거운 저녁 되세요!"
  }

  /** `isMealPresentToday`, given what the menu lookup gave back (`None`
      when it threw or returned null). */
  predicate IsMealPresent(lookup: Option<seq<string>>) {
    lookup.Some? && lookup.value != []
  }

  /** The users `sendUniversalPush` calls `sendPushToUser` for: one call per
      token row that has an owner, in row order, so an owner of two rows is
      called twice. */
  function PushTargets(rows: seq<FcmTokenRow>): (r: seq<int>)
    ensures |r| <= |rows|
    ensures r == Collect(rows, (row: FcmTokenRow) => row.userId)
    ensures forall k :: 0 <= k < |r| ==> exists i :: 0 <= i < |rows| && rows[i].userId == Some(r[k])
    ensures forall i :: 0 <= i < |rows| && rows[i].userId.Some? ==> rows[i].userId.value in r
  {
    if |rows| == 0 then []
    else
      var rest := PushTargets(rows[1..]);
      assert forall i :: 1 <= i < |rows| ==> rows[i] == rows[1..][i - 1];
      if rows[0].userId.Some? then [rows[0].userId.value] + rest else rest
  }

  /** How one `FcmService` call inside a scheduler loop ends. The batch
      send swallows Firebase's own errors, so a call throws either in its
      repository reads, before anything is sent, or in a save after its
      multicast went out: its history row, or in the reserved poll the row
      marking the campaign sent. Either way the call is transactional and
      joins the scheduler's transaction, which the throw leaves
      rollback-only although the loop catches it. */
  datatype CallEnd = Completes | ThrowsBeforeSend | ThrowsAfterSend

  /** The pushes of the loop. A row whose call throws before sending
      contributes nothing, one that throws after sending keeps its
      multicast, and the loop goes on with the next row. */
  function UniversalEffects(rows: seq<FcmTokenRow>, users: seq<User>, title: string, body: string, today: Day,
                            provider: Provider, ends: FcmTokenRow -> CallEnd, now: Instant): (e: Effects)
    ensures |e.history| <= |rows|
    ensures forall h :: h in e.history ==> h.title == title && h.targetType == Some(TARGET)
  {
    if |rows| == 0 then NO_EFFECTS
    else
      var rest := UniversalEffects(rows[1..], users, title, body, today, provider, ends, now);
      var row := rows[0];
      if row.userId.None? || ends(row) == ThrowsBeforeSend then rest
      else Then(SendPushToUser(users, row.userId.value, title, body, Iso(today), provider, now), rest)
  }

  /** Some owned token row's call throws during the loop. */
  predicate AnyRowThrows(rows: seq<FcmTokenRow>, ends: FcmTokenRow -> CallEnd) {
    exists i :: 0 <= i < |rows| && rows[i].userId.Some? && ends(rows[i]) != Completes
  }

  /** The campaign row written after the loop. */
  function UniversalRecord(title: string, body: string, today: Day, now: Instant): (n: AdminNotification)
    ensures n.title == title && n.body == body && n.sent
    ensures n.targetType == Some(ALL) && n.createdBy == Some(SYSTEM_SCHEDULER)
    ensures n.targetDate == Some(Iso(today)) && n.scheduledTime == Some(now) && n.createdAt == Some(now)
    ensures n.totalCount == 0 && n.successCount == 0 && n.failureCount == 0
  {
    var n := BuildAdminNotification(title, body, Some(Iso(today)), Some(ALL), None, Some(now),
                                    Some(SYSTEM_SCHEDULER), Some(true));
    AdminNotificationOnCreate(n.(createdAt := Some(now)), now)
  }

  /** One trigger, run in one transaction: with no menu today nothing is
      sent and nothing is written; otherwise the loop runs over every token
      row. When every call completes, exactly one campaign row is appended.
      When one throws, the commit discards every write of the trigger: no
      campaign row and no history row is kept, while the multicasts already
      handed to Firebase stay sent. */
  function MealAlarm(slot: Slot, lookup: Option<seq<string>>, rows: seq<FcmTokenRow>, users: seq<User>,
                     store: seq<AdminNotification>, today: Day, provider: Provider,
                     ends: FcmTokenRow -> CallEnd, now: Instant): (o: Outcome)
    ensures !IsMealPresent(lookup) ==> o == Outcome(store, NO_EFFECTS)
    ensures IsMealPresent(lookup) ==>
              o.effects.multicasts
              == UniversalEffects(rows, users, SlotTitle(slot), SlotBody(slot), today, provider, ends, now).multicasts
    ensures IsMealPresent(lookup) && !AnyRowThrows(rows, ends) ==>
              && o.store == store + [UniversalRecord(SlotTitle(slot), SlotBody(slot), today, now)]
              && o.effects == UniversalEffects(rows, users, SlotTitle(slot), SlotBody(slot), today, provider, ends, now)
    ensures AnyRowThrows(rows, ends) ==> o.store == store && o.effects.history == []
  {
    if !IsMealPresent(lookup) then Outcome(store, NO_EFFECTS)
    else
      var title, body := SlotTitle(slot), SlotBody(slot);
      var effects := UniversalEffects(rows, users, title, body, today, provider, ends, now);
      if AnyRowThrows(rows, ends) then Outcome(store, Effects(effects.multicasts, []))
      else Outcome(store + [UniversalRecord(title, body, today, now)], effects)
  }

  /** An owned row whose call gets as far as sending has its user's
      multicasts among the loop's multicasts. */
  lemma {:induction false} RowPushSent(rows: seq<FcmTokenRow>, users: seq<User>, title: string, body: string,
                                       today: Day, provider: Provider, ends: FcmTokenRow -> CallEnd, now: Instant,
                                       j: int)
    requires 0 <= j < |rows| && rows[j].userId.Some? && ends(rows[j]) != ThrowsBeforeSend
    ensures forall m :: m in SendPushToUser(users, rows[j].userId.value, title, body, Iso(today), provider, now).multicasts ==>
              m in UniversalEffects(rows, users, title, body, today, provider, ends, now).multicasts
  {
    if j > 0 {
      assert rows[1..][j - 1] == rows[j];
      RowPushSent(rows[1..], users, title, body, today, provider, ends, now, j - 1);
    }
  }

  /** A trigger in which one call throws after its send: the user was
      pushed, yet the trigger leaves no campaign row and no history, so the
      table does not show that the alarm went out. */
  lemma FailedAlarmStillPushes(slot: Slot, lookup: Option<seq<string>>, rows: seq<FcmTokenRow>, users: seq<User>,
                               store: seq<AdminNotification>, today: Day, provider: Provider,
                               ends: FcmTokenRow -> CallEnd, now: Instant, j: int)
    requires IsMealPresent(lookup)
    requires 0 <= j < |rows| && rows[j].userId.Some? && ends(rows[j]) == ThrowsAfterSend
    ensures var o := MealAlarm(slot, lookup, rows, users, store, today, provider, ends, now);
            var pushed := SendPushToUser(users, rows[j].userId.value, SlotTitle(slot), SlotBody(slot),
                                         Iso(today), provider, now);
            && o.store == store && o.effects.history == []
            && (forall m :: m in pushed.multicasts ==> m in o.effects.multicasts)
  {
    RowPushSent(rows, users, SlotTitle(slot), SlotBody(slot), today, provider, ends, now, j);
  }

  /** With no failing row, the loop pushes each owner once per row: its
      effects are exactly `sendPushToUser` for `PushTargets`, in order. */
  lemma {:induction false} UniversalEffectsPerTarget(rows: seq<FcmTokenRow>, users: seq<User>, title: string,
                                                     body: string, today: Day, provider: Provider,
                                                     ends: FcmTokenRow -> CallEnd, now: Instant)
    requires forall i :: 0 <= i < |rows| ==> ends(rows[i]) == Completes
    ensures UniversalEffects(rows, users, title, body, today, provider, ends, now)
            == PushAll(PushTargets(rows), users, title, body, today, provider, now)
  {
    if |rows| > 0 {
      assert forall i :: 1 <= i < |rows| ==> rows[i] == rows[1..][i - 1];
      UniversalEffectsPerTarget(rows[1..], users, title, body, today, provider, ends, now);
    }
  }

  /** `sendPushToUser` for each id in turn. */
  function PushAll(ids: seq<int>, users: seq<User>, title: string, body: string, today: Day,
                   provider: Provider, now: Instant): (e: Effects)
    ensures |e.history| <= |ids|
  {
    if |ids| == 0 then NO_EFFECTS
    else Then(SendPushToUser(users, ids[0], title, body, Iso(today), provider, now),
              PushAll(ids[1..], users, title, body, today, provider, now))
  }

  // ---------------------------------------------------------------------
  // The scheduler's reserved poll
  // ---------------------------------------------------------------------

  /** The sender this poll uses: the campaign's author, or "SYSTEM_RESERVED". */
  function AlarmSender(n: AdminNotification): (r: string)
    ensures n.createdBy.Some? ==> r == n.createdBy.value
    ensures n.createdBy.None? ==> r == SYSTEM_RESERVED
  {
    n.createdBy.GetOr(SYSTEM_RESERVED)
  }

  /** This poll's address list: the stored string split on commas, even
      when it is empty; null stays null. */
  function AlarmEmails(n: AdminNotification): (r: Option<seq<string>>)
    ensures n.targetEmails.None? <==> r.None?
    ensures n.targetEmails == Some("") ==> r == Some([""])
  {
    if n.targetEmails.None? then None else Some(JavaSplit(n.targetEmails.value, EMAIL_SEP))
  }

  function AlarmDispatch(n: AdminNotification, users: seq<User>, today: Day, provider: Provider,
                         now: Instant): (e: Effects)
    ensures |e.history| == 1 && e.history[0].senderEmail == AlarmSender(n)
  {
    SendAdminPush(users, n.targetType, AlarmEmails(n), n.title, n.body, n.targetDate,
                  AlarmSender(n), Iso(today), provider, now)
  }

  function AlarmReservedEffects(store: seq<AdminNotification>, users: seq<User>, today: Day, provider: Provider,
                                ends: AdminNotification -> CallEnd, now: Instant): (e: Effects)
    ensures |e.history| <= |store|
    ensures forall h :: h in e.history ==> exists i :: 0 <= i < |store| && h.senderEmail == AlarmSender(store[i])
  {
    if |store| == 0 then NO_EFFECTS
    else
      var rest := AlarmReservedEffects(store[1..], users, today, provider, ends, now);
      assert forall i :: 1 <= i < |store| ==> store[i] == store[1..][i - 1];
      if IsDue(store[0], now) && ends(store[0]) != ThrowsBeforeSend then
        Then(AlarmDispatch(store[0], users, today, provider, now), rest)
      else rest
  }

  /** With nothing due, the poll pushes and records nothing. */
  lemma {:induction false} NothingDueNoPushes(store: seq<AdminNotification>, users: seq<User>, today: Day, provider: Provider,
                                              ends: AdminNotification -> CallEnd, now: Instant)
    requires forall i :: 0 <= i < |store| ==> !IsDue(store[i], now)
    ensures AlarmReservedEffects(store, users, today, provider, ends, now) == NO_EFFECTS
  {
    if |store| > 0 {
      assert forall i :: 0 <= i < |store| - 1 ==> store[1..][i] == store[i + 1];
      NothingDueNoPushes(store[1..], users, today, provider, ends, now);
    }
  }

  /** Some due campaign's dispatch, or the save marking it sent, throws
      during the poll. */
  predicate AnyDueThrows(store: seq<AdminNotification>, ends: AdminNotification -> CallEnd, now: Instant) {
    exists i :: 0 <= i < |store| && IsDue(store[i], now) && ends(store[i]) != Completes
  }

  /** `sendReservedAdminNotifications`: every due row is tried in table
      order, all in one transaction. When every dispatch goes through, each
      due row is pushed once and marked sent. A campaign whose dispatch or
      mark-sent save throws leaves that transaction rollback-only, because
      `sendAdminPush` and the repository are transactional too and the catch
      does not clear the mark; so the commit discards every write of the
      poll. No row is marked sent and no history row is kept, while the
      multicasts already handed to Firebase stay sent, the failing
      campaign's own among them when it failed after its send. */
  function AlarmReservedPoll(store: seq<AdminNotification>, users: seq<User>, today: Day, provider: Provider,
                             ends: AdminNotification -> CallEnd, now: Instant): (o: Outcome)
    ensures |o.store| == |store|
    ensures o.effects.multicasts == AlarmReservedEffects(store, users, today, provider, ends, now).multicasts
    ensures !AnyDueThrows(store, ends, now) ==>
              && (forall i :: 0 <= i < |store| ==> o.store[i] == MarkIfDue(store[i], now) && !IsDue(o.store[i], now))
              && o.effects.history == AlarmReservedEffects(store, users, today, provider, ends, now).history
    ensures AnyDueThrows(store, ends, now) ==> o.store == store && o.effects.history == []
    ensures |o.effects.history| <= |store|
  {
    var effects := AlarmReservedEffects(store, users, today, provider, ends, now);
    if AnyDueThrows(store, ends, now) then Outcome(store, Effects(effects.multicasts, []))
    else Outcome(Map(store, (n: AdminNotification) => MarkIfDue(n, now)), effects)
  }

  /** A due campaign whose dispatch gets as far as sending is among the
      poll's multicasts, whether or not it throws afterwards. */
  lemma {:induction false} DueDispatchSent(store: seq<AdminNotification>, users: seq<User>, today: Day,
                                           provider: Provider, ends: AdminNotification -> CallEnd, now: Instant, j: int)
    requires 0 <= j < |store| && IsDue(store[j], now) && ends(store[j]) != ThrowsBeforeSend
    ensures forall m :: m in AlarmDispatch(store[j], users, today, provider, now).multicasts ==>
              m in AlarmReservedEffects(store, users, today, provider, ends, now).multicasts
  {
    var e := AlarmReservedEffects(store, users, today, provider, ends, now);
    var rest := AlarmReservedEffects(store[1..], users, today, provider, ends, now);
    var d := AlarmDispatch(store[0], users, today, provider, now);
    var dj := AlarmDispatch(store[j], users, today, provider, now);
    if IsDue(store[0], now) && ends(store[0]) != ThrowsBeforeSend {
      assert e == Then(d, rest);
    } else {
      assert e == rest;
    }
    if j == 0 {
      assert e.multicasts == d.multicasts + rest.multicasts;
    } else {
      assert store[1..][j - 1] == store[j];
      DueDispatchSent(store[1..], users, today, provider, ends, now, j - 1);
      assert forall m :: m in rest.multicasts ==> m in e.multicasts;
    }
  }

  /** One failing campaign makes the poll forget every campaign it pushed,
      itself included when it failed after its send: a campaign that went
      out is still due afterwards, so the next poll, a minute later, pushes
      it again. */
  lemma FailureResendsOthers(store: seq<AdminNotification>, users: seq<User>, today: Day, provider: Provider,
                             ends: AdminNotification -> CallEnd, now: Instant, i: int, j: int,
                             endsNext: AdminNotification -> CallEnd, later: Instant)
    requires 0 <= i < |store| && IsDue(store[i], now) && ends(store[i]) != Completes
    requires 0 <= j < |store| && IsDue(store[j], now) && ends(store[j]) != ThrowsBeforeSend
    requires later >= now && endsNext(store[j]) != ThrowsBeforeSend
    ensures var o := AlarmReservedPoll(store, users, today, provider, ends, now);
            var again := AlarmReservedPoll(o.store, users, today, provider, endsNext, later);
            && o.store[j] == store[j] && IsDue(o.store[j], later)
            && (forall m :: m in AlarmDispatch(store[j], users, today, provider, now).multicasts ==> m in o.effects.multicasts)
            && (forall m :: m in AlarmDispatch(store[j], users, today, provider, later).multicasts ==> m in again.effects.multicasts)
  {
    var o := AlarmReservedPoll(store, users, today, provider, ends, now);
    DueDispatchSent(store, users, today, provider, ends, now, j);
    DueDispatchSent(o.store, users, today, provider, endsNext, later, j);
  }

  /** Where no dispatch fails, the scheduler's poll leaves the table as the
      service's poll does: the two differ only in sender and address list. */
  lemma PollsAgreeOnTable(store: seq<AdminNotification>, users: seq<User>, today: Day, provider: Provider,
                          ends: AdminNotification -> CallEnd, now: Instant)
    requires forall i :: 0 <= i < |store| ==> ends(store[i]) == Completes
    ensures AlarmReservedPoll(store, users, today, provider, ends, now).store
            == CheckAdminReserved(store, users, today, provider, now).store
  {
    var a := AlarmReservedPoll(store, users, today, provider, ends, now).store;
    var b := CheckAdminReserved(store, users, today, provider, now).store;
    forall i | 0 <= i < |store| ensures a[i] == b[i] {
    }
  }
}
