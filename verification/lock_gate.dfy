/** `favorite/service/NotificationService.sendNotification`: an admin push
    that first refuses a body announcing no meal, then takes a 30-second
    Redis lock named after the target type and the title, so that a second
    identical request inside that window is dropped. The lock is released
    only when the dispatch or the save of the gate's record throws. */
module LockGate {
  import opened Base
  import opened Text
  import opened Users
  import opened Entities
  import opened Fcm

  const LOCK_PREFIX := "notif_lock:"
  const LOCK_TTL: int := 30
  const TEST_MARK := "테스트"
  const NO_MEAL := "급식이없습니다"
  const NO_INFO := "정보가없습니다"

  /** The request body as the controller binds it; every field may be null. */
  datatype PushDto = PushDto(title: Option<string>, body: Option<string>, targetDate: Option<string>,
                             targetType: Option<string>, targetEmails: Option<seq<string>>)

  /** Redis as a table from key to the instant its time-to-live runs out. */
  type LockTable = map<string, Instant>

  /** A key is held while its expiry lies in the future. */
  predicate Held(locks: LockTable, key: string, now: Instant) {
    key in locks && now < locks[key]
  }

  /** `setIfAbsent(key, "LOCKED", 30 s)`: takes the key and reports true
      exactly when nobody holds it. */
  function SetIfAbsent(locks: LockTable, key: string, now: Instant): (r: (bool, LockTable))
    ensures r.0 <==> !Held(locks, key, now)
    ensures r.0 ==> Held(r.1, key, now) && r.1[key] == now + LOCK_TTL
                    && forall k :: k in locks && k != key ==> k in r.1 && r.1[k] == locks[k]
    ensures !r.0 ==> r.1 == locks
  {
    if Held(locks, key, now) then (false, locks) else (true, locks[key := now + LOCK_TTL])
  }

  // ---------------------------------------------------------------------
  // The empty-menu test
  // ---------------------------------------------------------------------

  /** The class `[\s\p{Punct}]`. */
  predicate IsSpaceOrPunct(c: char) {
    IsRegexSpace(c) || IsPunct(c)
  }

  /** `isMenuEmpty`: a body without text, or one that, with every space and
      ASCII punctuation mark taken out, is empty or says there is no meal or
      no information. */
  predicate IsMenuEmpty(body: Option<string>) {
    !HasText(body)
    || (var clean := RemoveChars(body.value, IsSpaceOrPunct);
        clean == [] || Contains(clean, NO_MEAL) || Contains(clean, NO_INFO))
  }

  /** A body of spaces and punctuation only counts as empty. */
  lemma PunctuationOnlyIsEmpty(body: string)
    requires forall i :: 0 <= i < |body| ==> IsSpaceOrPunct(body[i])
    ensures IsMenuEmpty(Some(body))
  {
    RemoveCharsAllDropped(body, IsSpaceOrPunct);
  }

  lemma {:induction false} RemoveCharsAllDropped(s: string, drop: char -> bool)
    requires forall i :: 0 <= i < |s| ==> drop(s[i])
    ensures RemoveChars(s, drop) == []
  {
    if |s| > 0 {
      assert forall i :: 0 <= i < |s[1..]| ==> s[1..][i] == s[i + 1];
      RemoveCharsAllDropped(s[1..], drop);
    }
  }

  /** The two phrases share the syllable "없"; a body that never uses it
      counts as empty exactly when it has no text or holds nothing but
      spaces and punctuation. So a real dish name is never refused. */
  lemma MenuEmptyWithoutNoSyllable(body: string)
    requires forall i :: 0 <= i < |body| ==> body[i] != '없'
    ensures IsMenuEmpty(Some(body)) <==>
              !HasText(Some(body)) || forall i :: 0 <= i < |body| ==> IsSpaceOrPunct(body[i])
  {
    var clean := RemoveChars(body, IsSpaceOrPunct);
    if forall i :: 0 <= i < |body| ==> IsSpaceOrPunct(body[i]) {
      RemoveCharsAllDropped(body, IsSpaceOrPunct);
    } else {
      var j :| 0 <= j < |body| && !IsSpaceOrPunct(body[j]);
      RemoveCharsKeeps(body, IsSpaceOrPunct, j);
      RemoveCharsFrom(body, IsSpaceOrPunct);
      assert clean != [];
      PhraseNotIn(clean, NO_MEAL);
      PhraseNotIn(clean, NO_INFO);
    }
  }

  /** A string without "없" contains neither phrase. */
  lemma PhraseNotIn(s: string, phrase: string)
    requires phrase == NO_MEAL || phrase == NO_INFO
    requires forall c :: c in s ==> c != '없'
    ensures !Contains(s, phrase)
  {
    assert phrase[3] == '없';
    forall k | 0 <= k <= |s| ensures !MatchAt(s, phrase, k) {
      if k + |phrase| <= |s| {
        assert s[k..k + |phrase|][3] == s[k + 3] && s[k + 3] in s;
      }
    }
  }

  /** Every character left by the clean-up comes from the input. */
  lemma {:induction false} RemoveCharsFrom(s: string, drop: char -> bool)
    ensures forall c :: c in RemoveChars(s, drop) ==> c in s
  {
    if |s| > 0 {
      RemoveCharsFrom(s[1..], drop);
    }
  }

  /** A character the clean-up does not drop survives it. */
  lemma {:induction false} RemoveCharsKeeps(s: string, drop: char -> bool, j: int)
    requires 0 <= j < |s| && !drop(s[j])
    ensures s[j] in RemoveChars(s, drop)
  {
    if j > 0 {
      assert s[1..][j - 1] == s[j];
      RemoveCharsKeeps(s[1..], drop, j - 1);
    }
  }

  /** Whatever surrounds it, a body holding "급식이없습니다" or
      "정보가없습니다" counts as empty: the phrase survives the clean-up. */
  lemma NoMealPhraseIsEmpty(a: string, phrase: string, b: string)
    requires phrase == NO_MEAL || phrase == NO_INFO
    ensures IsMenuEmpty(Some(a + phrase + b))
  {
    PhraseKept(phrase);
    KeptSubstringSurvives(a, phrase, b, IsSpaceOrPunct);
  }

  /** The same holds when spaces or punctuation split the phrase, as in
      "급식이 없습니다": the clean-up closes the gap. */
  lemma SplitPhraseIsEmpty(a: string, p1: string, gap: string, p2: string, b: string)
    requires p1 + p2 == NO_MEAL || p1 + p2 == NO_INFO
    requires forall i :: 0 <= i < |gap| ==> IsSpaceOrPunct(gap[i])
    ensures IsMenuEmpty(Some(a + p1 + gap + p2 + b))
  {
    PhraseKept(p1 + p2);
    assert forall i :: 0 <= i < |p1| ==> p1[i] == (p1 + p2)[i];
    assert forall i :: 0 <= i < |p2| ==> p2[i] == (p1 + p2)[|p1| + i];
    ClosedGapSurvives(a, p1, gap, p2, b, IsSpaceOrPunct);
  }

  /** Two kept pieces separated only by dropped characters end up adjacent. */
  lemma ClosedGapSurvives(a: string, p1: string, gap: string, p2: string, b: string, drop: char -> bool)
    requires forall i :: 0 <= i < |p1| ==> !drop(p1[i])
    requires forall i :: 0 <= i < |p2| ==> !drop(p2[i])
    requires forall i :: 0 <= i < |gap| ==> drop(gap[i])
    ensures Contains(RemoveChars(a + p1 + gap + p2 + b, drop), p1 + p2)
  {
    DropGap(a + p1, gap, p2 + b, drop);
    assert a + p1 + gap + p2 + b == (a + p1) + gap + (p2 + b);
    assert (a + p1) + (p2 + b) == a + (p1 + p2) + b;
    forall i | 0 <= i < |p1 + p2| ensures !drop((p1 + p2)[i]) {
      if i >= |p1| {
        assert (p1 + p2)[i] == p2[i - |p1|];
      }
    }
    KeptSubstringSurvives(a, p1 + p2, b, drop);
  }

  /** Dropped characters between two strings leave no trace. */
  lemma DropGap(u: string, gap: string, v: string, drop: char -> bool)
    requires forall i :: 0 <= i < |gap| ==> drop(gap[i])
    ensures RemoveChars(u + gap + v, drop) == RemoveChars(u + v, drop)
  {
    RemoveCharsAllDropped(gap, drop);
    RemoveCharsAppend(u + gap, v, drop);
    RemoveCharsAppend(u, gap, drop);
    RemoveCharsAppend(u, v, drop);
  }

  /** Neither phrase holds a character the clean-up removes. */
  lemma PhraseKept(phrase: string)
    requires phrase == NO_MEAL || phrase == NO_INFO
    ensures forall i :: 0 <= i < |phrase| ==> !IsSpaceOrPunct(phrase[i])
  {
    forall i | 0 <= i < |phrase| ensures !IsSpaceOrPunct(phrase[i]) {
      assert phrase[i] >= '\U{AC00}';
    }
  }

  /** A substring none of whose characters is dropped is still a substring
      after the others are removed. */
  lemma KeptSubstringSurvives(a: string, p: string, b: string, drop: char -> bool)
    requires forall i :: 0 <= i < |p| ==> !drop(p[i])
    ensures Contains(RemoveChars(a + p + b, drop), p)
  {
    RemoveCharsAppend(a + p, b, drop);
    RemoveCharsAppend(a, p, drop);
    var x, y := RemoveChars(a, drop), RemoveChars(b, drop);
    var clean := RemoveChars(a + p + b, drop);
    assert clean == x + p + y;
    assert clean[|x|..|x| + |p|] == p;
    assert MatchAt(clean, p, |x|);
  }

  /** A request is a test when its title has text and contains "테스트". */
  predicate IsTest(req: PushDto) {
    HasText(req.title) && Contains(req.title.value, TEST_MARK)
  }

  // ---------------------------------------------------------------------
  // The lock key
  // ---------------------------------------------------------------------

  /** `String.valueOf` in a concatenation: null prints as "null". */
  function JavaText(s: Option<string>): (r: string)
    ensures s.Some? ==> r == s.value
  {
    if s.Some? then s.value else "null"
  }

  /** "notif_lock:" + targetType + ":" + the title with `\s` removed. */
  function LockKey(targetType: Option<string>, title: string): (k: string)
    ensures StartsWith(k, LOCK_PREFIX + JavaText(targetType) + ":")
    ensures |k| <= |LOCK_PREFIX + JavaText(targetType) + ":"| + |title|
    ensures (forall i :: 0 <= i < |title| ==> !IsRegexSpace(title[i])) ==> k == LOCK_PREFIX + JavaText(targetType) + ":" + title
  {
    var head := LOCK_PREFIX + JavaText(targetType) + ":";
    var k := head + RemoveChars(title, IsRegexSpace);
    assert k[..|head|] == head;
    k
  }

  /** Titles that differ only by white space, such as "점심 공지" and
      "점심공지", share one lock. */
  lemma SpacingSharesLock(targetType: Option<string>, a: string, gap: string, b: string)
    requires forall i :: 0 <= i < |gap| ==> IsRegexSpace(gap[i])
    ensures LockKey(targetType, a + gap + b) == LockKey(targetType, a + b)
  {
    DropGap(a, gap, b, IsRegexSpace);
  }

  // ---------------------------------------------------------------------
  // sendNotification
  // ---------------------------------------------------------------------

  /** How a call ended. `Rethrown` is an exception of the dispatch or of the
      history save, passed on. */
  datatype Verdict = Skipped | Duplicate | Delivered | Rethrown | NoTitle

  /** Which step throws, if any. The batch send inside `sendAdminPush`
      swallows Firebase's own errors, so `sendAdminPush` throws either in its
      user lookup, before anything is sent (`LookupFault`), or in the save of
      its history row, after the multicast went out (`HistoryFault`).
      `SaveFault` is the save of the gate's own record after it. */
  datatype Fault = NoFault | LookupFault | HistoryFault | SaveFault

  /** A call's verdict, the lock table after it and what it sent and saved. */
  datatype GateOutcome = GateOutcome(verdict: Verdict, locks: LockTable, effects: Effects)

  /** The history row saved after a dispatch that went through. */
  function GateRecord(req: PushDto, title: string, adminEmail: string, now: Instant): (h: HistoryRow)
    ensures h.title == title && h.body == req.body.GetOr("") && h.senderEmail == adminEmail
    ensures h.targetType == req.targetType && h.sent == Some(true) && h.sentAt == Some(now)
  {
    HistoryOnCreate(BuildHistory(title, req.body.GetOr(""), adminEmail, req.targetType, None, None, None, now), now)
  }

  /** `sendNotification`. `adminEmail` is the authenticated name and
      `fault` says which step throws. The method has no transaction of its
      own, so `sendAdminPush` commits when it returns: a save that throws
      afterwards keeps the admin push's messages and row, and loses only
      the gate's record. A dispatch that throws rolls its own transaction
      back: a failed lookup leaves nothing, while a failed history save
      loses the row but not the multicast already sent. */
  function SendNotification(req: PushDto, adminEmail: string, locks: LockTable, users: seq<User>,
                            today: string, provider: Provider, fault: Fault, now: Instant): (o: GateOutcome)
    // a non-test request announcing no meal stops before the lock
    ensures !IsTest(req) && IsMenuEmpty(req.body) <==> o.verdict == Skipped
    // a null title past the gate throws while the key is built
    ensures o.verdict == NoTitle <==> !(!IsTest(req) && IsMenuEmpty(req.body)) && req.title.None?
    ensures o.verdict in {Skipped, NoTitle, Duplicate} ==> o.locks == locks && o.effects == NO_EFFECTS
    ensures o.verdict !in {Skipped, NoTitle} ==>
              var key := LockKey(req.targetType, req.title.value);
              var push := SendAdminPush(users, req.targetType, req.targetEmails, req.title.value, req.body.GetOr(""),
                                        req.targetDate, adminEmail, today, provider, now);
              && (o.verdict == Duplicate <==> Held(locks, key, now))
              && (o.verdict == Rethrown <==> !Held(locks, key, now) && fault != NoFault)
              && (o.verdict == Rethrown ==> o.locks == locks - {key})
              && (o.verdict == Rethrown && fault == LookupFault ==> o.effects == NO_EFFECTS)
              && (o.verdict == Rethrown && fault == HistoryFault ==> o.effects == Effects(push.multicasts, []))
              && (o.verdict == Rethrown && fault == SaveFault ==>
                    && o.effects == push
                    && |o.effects.history| == 1 && o.effects.history[0].senderEmail == adminEmail)
              && (o.verdict == Delivered ==>
                    && o.locks == locks[key := now + LOCK_TTL]
                    && o.effects.multicasts == push.multicasts
                    && |o.effects.history| == 2
                    && o.effects.history[0] == push.history[0]
                    && o.effects.history[1] == GateRecord(req, req.title.value, adminEmail, now)
                    && o.effects.history[0].senderEmail == adminEmail)
  {
    if !IsTest(req) && IsMenuEmpty(req.body) then GateOutcome(Skipped, locks, NO_EFFECTS)
    else if req.title.None? then GateOutcome(NoTitle, locks, NO_EFFECTS)
    else
      var title := req.title.value;
      var key := LockKey(req.targetType, title);
      var (first, taken) := SetIfAbsent(locks, key, now);
      if !first then GateOutcome(Duplicate, locks, NO_EFFECTS)
      else if fault == LookupFault then GateOutcome(Rethrown, taken - {key}, NO_EFFECTS)
      else
        var push := SendAdminPush(users, req.targetType, req.targetEmails, title, req.body.GetOr(""),
                                  req.targetDate, adminEmail, today, provider, now);
        if fault == HistoryFault then GateOutcome(Rethrown, taken - {key}, Effects(push.multicasts, []))
        else if fault == SaveFault then GateOutcome(Rethrown, taken - {key}, push)
        else GateOutcome(Delivered, taken, Then(push, Effects([], [GateRecord(req, title, adminEmail, now)])))
  }

  /** Within 30 seconds of a delivered request, the same request, or one
      whose title differs only in spacing, is dropped: nothing is sent and
      nothing saved. */
  lemma SecondCallDropped(req: PushDto, again: PushDto, adminEmail: string, locks: LockTable, users: seq<User>,
                          today: string, provider: Provider, fault: Fault, fault2: Fault,
                          now: Instant, later: Instant)
    requires SendNotification(req, adminEmail, locks, users, today, provider, fault, now).verdict == Delivered
    requires again.title.Some? && again.targetType == req.targetType
    requires LockKey(again.targetType, again.title.value) == LockKey(req.targetType, req.title.value)
    requires !IsTest(again) ==> !IsMenuEmpty(again.body)
    requires now <= later < now + LOCK_TTL
    ensures var o := SendNotification(req, adminEmail, locks, users, today, provider, fault, now);
            var p := SendNotification(again, adminEmail, o.locks, users, today, provider, fault2, later);
            p.verdict == Duplicate && p.effects == NO_EFFECTS && p.locks == o.locks
  {
  }

  /** Once the 30 seconds are over the same request goes through again. */
  lemma LockExpires(req: PushDto, adminEmail: string, locks: LockTable, users: seq<User>,
                    today: string, provider: Provider, fault: Fault, now: Instant, later: Instant)
    requires SendNotification(req, adminEmail, locks, users, today, provider, fault, now).verdict == Delivered
    requires later >= now + LOCK_TTL
    ensures var o := SendNotification(req, adminEmail, locks, users, today, provider, fault, now);
            SendNotification(req, adminEmail, o.locks, users, today, provider, NoFault, later).verdict == Delivered
  {
  }

  /** A request that threw, in the dispatch or in the save, leaves its key
      free, so an immediate retry is not taken for a duplicate. */
  lemma RetryAfterFailure(req: PushDto, adminEmail: string, locks: LockTable, users: seq<User>,
                          today: string, provider: Provider, fault: Fault, fault2: Fault, now: Instant, later: Instant)
    requires SendNotification(req, adminEmail, locks, users, today, provider, fault, now).verdict == Rethrown
    ensures var o := SendNotification(req, adminEmail, locks, users, today, provider, fault, now);
            SendNotification(req, adminEmail, o.locks, users, today, provider, fault2, later).verdict
              == (if fault2 != NoFault then Rethrown else Delivered)
  {
  }
}
