/** The persisted records of the notification and account code, with their
    builder defaults and JPA `@PrePersist` hooks (`now` passed in). */
module Entities {
  import opened Base
  import opened Text

  // ---------------------------------------------------------------------
  // AdminNotification: one campaign, immediate or reserved
  // ---------------------------------------------------------------------

  datatype AdminNotification = AdminNotification(
    title: string,
    body: string,
    targetDate: Option<string>,
    targetType: Option<string>,
    targetEmails: Option<string>,       // comma-joined addresses
    scheduledTime: Option<Instant>,
    sent: bool,
    totalCount: int,
    successCount: int,
    failureCount: int,
    createdBy: Option<string>,
    createdAt: Option<Instant>)

  /** `AdminNotification.builder()...build()`: `sent` defaults to false and
      the three counts to 0 when the builder does not set them. */
  function BuildAdminNotification(title: string, body: string, targetDate: Option<string>,
                                  targetType: Option<string>, targetEmails: Option<string>,
                                  scheduledTime: Option<Instant>, createdBy: Option<string>,
                                  sent: Option<bool>): (n: AdminNotification)
    ensures n.sent <==> sent == Some(true)
    ensures n.totalCount == 0 && n.successCount == 0 && n.failureCount == 0
    ensures n.title == title && n.body == body && n.targetDate == targetDate && n.targetType == targetType
    ensures n.targetEmails == targetEmails && n.scheduledTime == scheduledTime && n.createdBy == createdBy
    ensures n.createdAt == None
  {
    AdminNotification(title, body, targetDate, targetType, targetEmails, scheduledTime,
                      sent.GetOr(false), 0, 0, 0, createdBy, None)
  }

  /** Negative counts are raised to 0; others are kept. */
  function ClampCount(c: int): (r: int)
    ensures r >= 0 && (c >= 0 ==> r == c) && (c < 0 ==> r == 0)
  {
    if c < 0 then 0 else c
  }

  /** `onCreate`: `createdAt` is always overwritten with `now` and each
      negative count becomes 0; nothing else changes. */
  function AdminNotificationOnCreate(n: AdminNotification, now: Instant): (m: AdminNotification)
    ensures m.createdAt == Some(now)
    ensures m.totalCount >= 0 && m.successCount >= 0 && m.failureCount >= 0
    ensures n.totalCount >= 0 ==> m.totalCount == n.totalCount
    ensures n.successCount >= 0 ==> m.successCount == n.successCount
    ensures n.failureCount >= 0 ==> m.failureCount == n.failureCount
    ensures m.(createdAt := n.createdAt, totalCount := n.totalCount, successCount := n.successCount,
               failureCount := n.failureCount) == n
  {
    n.(createdAt := Some(now),
       totalCount := ClampCount(n.totalCount),
       successCount := ClampCount(n.successCount),
       failureCount := ClampCount(n.failureCount))
  }

  /** Running the hook again at the same instant changes nothing more. */
  lemma AdminNotificationOnCreateIdempotent(n: AdminNotification, now: Instant)
    ensures AdminNotificationOnCreate(AdminNotificationOnCreate(n, now), now) == AdminNotificationOnCreate(n, now)
  {
  }

  // ---------------------------------------------------------------------
  // NotificationHistory: one row per dispatch
  // ---------------------------------------------------------------------

  datatype HistoryRow = HistoryRow(
    title: string,
    body: string,
    senderEmail: string,
    targetType: Option<string>,
    sentAt: Option<Instant>,
    sent: Option<bool>,
    totalCount: int,
    successCount: int,
    failureCount: int)

  /** The `@Builder` constructor: null counts become 0, the row is marked
      sent and stamped with `now`, the four texts are stored as given. */
  function BuildHistory(title: string, body: string, senderEmail: string, targetType: Option<string>,
                        total: Option<int>, success: Option<int>, failure: Option<int>,
                        now: Instant): (h: HistoryRow)
    ensures h.title == title && h.body == body && h.senderEmail == senderEmail && h.targetType == targetType
    ensures h.totalCount == total.GetOr(0) && h.successCount == success.GetOr(0)
    ensures h.failureCount == failure.GetOr(0)
    ensures h.sent == Some(true) && h.sentAt == Some(now)
  {
    HistoryRow(title, body, senderEmail, targetType, Some(now), Some(true),
               total.GetOr(0), success.GetOr(0), failure.GetOr(0))
  }

  /** `onCreate`: fills `sentAt` and `sent` only where they are null. */
  function HistoryOnCreate(h: HistoryRow, now: Instant): (g: HistoryRow)
    ensures g.sentAt.Some? && g.sent.Some?
    ensures h.sentAt.Some? ==> g.sentAt == h.sentAt
    ensures h.sent.Some? ==> g.sent == h.sent
    ensures h.sent.None? ==> g.sent == Some(true)
    ensures h.sentAt.None? ==> g.sentAt == Some(now)
    ensures g.(sentAt := h.sentAt, sent := h.sent) == h
  {
    h.(sentAt := if h.sentAt.None? then Some(now) else h.sentAt,
       sent := if h.sent.None? then Some(true) else h.sent)
  }

  /** A row built by the builder passes through the hook unchanged, whenever
      the hook runs. */
  lemma BuiltHistoryUnchangedByOnCreate(title: string, body: string, senderEmail: string,
                                        targetType: Option<string>, total: Option<int>,
                                        success: Option<int>, failure: Option<int>,
                                        built: Instant, persisted: Instant)
    ensures var h := BuildHistory(title, body, senderEmail, targetType, total, success, failure, built);
            HistoryOnCreate(h, persisted) == h
  {
  }

  // ---------------------------------------------------------------------
  // DeleteRequest: an account-deletion request
  // ---------------------------------------------------------------------

  const PENDING := "PENDING"
  const PROCESSED := "PROCESSED"
  const REJECTED := "REJECTED"

  datatype DeleteRequest = DeleteRequest(
    email: string,
    reason: Option<string>,
    status: Option<string>,
    requestedAt: Option<Instant>,
    processedAt: Option<Instant>)

  /** `prePersist`: `requestedAt` and `status` get defaults only when null. */
  function DeleteRequestPrePersist(r: DeleteRequest, now: Instant): (q: DeleteRequest)
    ensures q.requestedAt == (if r.requestedAt.None? then Some(now) else r.requestedAt)
    ensures q.status == (if r.status.None? then Some(PENDING) else r.status)
    ensures q.email == r.email && q.reason == r.reason && q.processedAt == r.processedAt
  {
    r.(requestedAt := if r.requestedAt.None? then Some(now) else r.requestedAt,
       status := if r.status.None? then Some(PENDING) else r.status)
  }

  /** Running the hook twice is the same as running it once, even at a
      later instant. */
  lemma DeleteRequestPrePersistIdempotent(r: DeleteRequest, t1: Instant, t2: Instant)
    ensures DeleteRequestPrePersist(DeleteRequestPrePersist(r, t1), t2) == DeleteRequestPrePersist(r, t1)
  {
  }

  // ---------------------------------------------------------------------
  // AppDownloadStats: a download counter per app type
  // ---------------------------------------------------------------------

  datatype AppDownloadStats = AppDownloadStats(appType: string, downloadCount: int,
                                               lastDownloadedAt: Option<Instant>)

  /** `new AppDownloadStats(appType)`: count 0, never downloaded. */
  function NewAppDownloadStats(appType: string): (s: AppDownloadStats)
    ensures s.appType == appType && s.downloadCount == 0 && s.lastDownloadedAt == None
  {
    AppDownloadStats(appType, 0, None)
  }

  /** `Long` increment: one more, wrapping from the largest value to the
      smallest as Java's `++` does. */
  function LongIncrement(n: int): (r: int)
    requires LONG_MIN <= n <= LONG_MAX
    ensures LONG_MIN <= r <= LONG_MAX
    ensures n < LONG_MAX ==> r == n + 1
    ensures n == LONG_MAX ==> r == LONG_MIN
  {
    if n == LONG_MAX then LONG_MIN else n + 1
  }

  /** `increment`: the count goes up by one (with `Long` wrap-around), the
      download time becomes `now`, the app type is untouched. */
  function Increment(s: AppDownloadStats, now: Instant): (t: AppDownloadStats)
    requires LONG_MIN <= s.downloadCount <= LONG_MAX
    ensures t.appType == s.appType
    ensures t.downloadCount == LongIncrement(s.downloadCount)
    ensures s.downloadCount < LONG_MAX ==> t.downloadCount == s.downloadCount + 1
    ensures t.lastDownloadedAt == Some(now)
  {
    s.(downloadCount := LongIncrement(s.downloadCount), lastDownloadedAt := Some(now))
  }
}
