# BSSM meal alerts, modelled in Dafny

This project models the core of the BSSM meal-alert backend, a Spring Boot
service that sends a school's students push notifications about the day's
meals. It covers:

- the menu pipeline: splitting the NEIS menu text into dishes, cleaning off allergy codes and `<br/>` tags, and matching dishes against a user's allergies and favourites;
- the user's push-token slots, the FCM fan-out that sends to them, and the token registry behind it;
- the admin campaign lifecycle: immediate and reserved notifications, their history rows and the minute scheduler that dispatches reserved ones;
- the Redis lock that keeps a notification from being sent twice, and the rule that decides a menu is empty;
- accounts and moderation: sign-up and profile updates, likes, comments, bans and their expiry, reports, and deletion requests with the cascade that removes a user's data;
- the hand-rolled JWT strings (generation, role and subject extraction, validation) and the request filter that turns a bearer token into a granted authority;
- the admin file helpers: app uploads, the per-platform download counter, notice images, and resolving an SSE subscriber's identifier.

Every module is a set of pure functions over immutable tables. A table is a
`seq` of rows in store order, and a repository query is a filter over it.
Java's `null` appears as `Option` wherever the code branches on it.
Exceptions become the `Err` side of `Base.Result`, with a `Failure` naming
the exception class. Time is an `int` count of seconds; the token code
counts milliseconds. Side effects that leave the process are parameters:

- the Firebase multicast, as a provider function;
- the HMAC signer and the base64url codec, as function values;
- the JJWT library, as a `Verifier`;
- the clock, as an `Instant` argument;
- the random UUID, as a string argument.

The modules follow the source packages. `base`, `text` and `seqs` hold the
shared vocabulary: `Result`, Java's string operations, and filters and maps
over sequences.

## Model

| member | source | states |
|---|---|---|
| Users.NewUser | src/main/java/com/bssm/meal/user/domain/User.java:31-77 | a built user has the ordinary role, is not banned, has every notification flag off, no allergies or favourite dishes, the given Google id and two empty token slots |
| Users.FcmTokens | src/main/java/com/bssm/meal/user/domain/User.java:82-91 | at most two tokens, none blank, each taken from a slot; the mobile token comes first and the web token last; empty exactly when both slots are blank |
| Users.SlotToken | src/main/java/com/bssm/meal/user/domain/User.java:84-89 | one slot contributes its token exactly when it is not null or whitespace-only |
| Users.FlagOrFalse | src/main/java/com/bssm/meal/user/domain/User.java:132-142 | a flag setter stores true exactly when it is given TRUE; null counts as false |
| Users.SetAllowNotifications | src/main/java/com/bssm/meal/user/domain/User.java:103-105 | afterwards the stored flag is never null and notifications count as allowed iff TRUE was given; nothing else changes |
| Users.UpdateInfo | src/main/java/com/bssm/meal/user/domain/User.java:147-162 | both lists take the given contents (null gives an empty list); each of the three flags is on iff TRUE was given; every other field is untouched |
| Users.UpdateFcmToken | src/main/java/com/bssm/meal/user/domain/User.java:167-175 | a blank token changes nothing; MOBILE or WEB in any letter case overwrites exactly that slot; any other device type changes nothing |
| Users.RegisteredTokenIsDelivered | src/main/java/com/bssm/meal/user/domain/User.java:82-91 | a non-blank token registered under MOBILE or WEB is among the tokens the user is pushed on |
| Users.NormalizeRole | src/main/java/com/bssm/meal/user/domain/User.java:180-186 | the stored role always starts with "ROLE_"; a null role becomes "ROLE_USER"; a value already carrying the prefix is kept; any other value follows the prefix in upper case |
| Users.NormalizeRoleIdempotent | src/main/java/com/bssm/meal/user/domain/User.java:180-186 | setting a role a second time to what it already is changes nothing |
| Users.SetRole | src/main/java/com/bssm/meal/user/domain/User.java:180-186 | only the role changes, and it carries the "ROLE_" prefix |
| Users.UpdateBannedStatus | src/main/java/com/bssm/meal/user/domain/User.java:198-202 | a ban stores its reason and expiry; lifting a ban clears both; no other field changes |
| Users.FindByEmail | src/main/java/com/bssm/meal/user/repository/UserRepository.java:18 | the row found has that email; none found means no row has it |
| Likes.ToggleLike | src/main/java/com/bssm/meal/like/controller/LikeController.java:29-46 | a null or blank user id is refused and leaves the likes alone; otherwise the answer is "unliked" iff the like existed, and then it is gone; else it is present, stamped now; every other like is unchanged |
| Likes.ToggleTwice | src/main/java/com/bssm/meal/like/controller/LikeController.java:29-46 | toggling the same like twice restores the set of likes, and the whole table when the like was absent at first |
| Likes.UserLikes | src/main/java/com/bssm/meal/like/controller/LikeController.java:53-65 | null, "undefined" and "null" give nothing; otherwise exactly the likes recorded under that id |
| Likes.CountByMealKey | src/main/java/com/bssm/meal/like/repository/LikeRepository.java:28 | the count of one dish never exceeds the number of likes, and is zero exactly when no like has that dish key |
| Likes.ToggleMovesCount | src/main/java/com/bssm/meal/like/controller/LikeController.java:29-46 | a toggle raises its dish's count by one when it likes and lowers it by one when it unlikes; every other dish's count, and every count after a refused toggle, is unchanged |
| Likes.DeleteByUserId | src/main/java/com/bssm/meal/like/repository/LikeRepository.java:78-80 | exactly the likes of other users remain, with their times |
| Menu.MenusOf | src/main/java/com/bssm/meal/like/service/MealService.java:68-81 | null or empty raw text gives no dishes; otherwise the dishes are exactly the pieces between `<br/>` separators, in order, each trimmed, with the blank ones dropped (Java's dropping of trailing empty pieces makes no difference); every dish is non-empty, has no surrounding whitespace and holds no `<br/>` |
| Menu.MenusOfPieces | src/main/java/com/bssm/meal/like/service/MealService.java:68-81 | for any separator-free pieces, blank or padded ones included, the dishes of their `<br/>` join are those pieces trimmed, blanks dropped, in order |
| Menu.MenusOfJoin | src/main/java/com/bssm/meal/like/service/MealService.java:77-80 | dishes joined with `<br/>` split back into the same dishes in the same order |
| Menu.TrimmedPiece | src/main/java/com/bssm/meal/like/service/MealService.java:77-80 | a piece with no separator in it is, once trimmed, either empty or a dish |
| Menu.MenusOfExample | src/main/java/com/bssm/meal/like/service/MealService.java:77-80 | example, documentation only: "김치찌개(9)<br/>돈까스(5.6)" gives the two dishes with their allergen codes still attached |
| Menu.GetMealDetail | src/main/java/com/bssm/meal/like/service/MealService.java:43-63 | the arguments are echoed; the count is the dish's like count; the meal is liked iff the user id is not null, blank or "null" and that user liked this dish at this date and meal |
| Menu.LikedAfterToggle | src/main/java/com/bssm/meal/like/service/MealService.java:49-53 | after a signed-in user likes a meal, its detail shows it liked |
| Menu.StripGroups | src/main/java/com/bssm/meal/favorite/service/NotificationFilterService.java:27 | the result has no '(' followed later by ')'; it is never longer than the input; a string without such a group is returned as is |
| Menu.StripGroupsIdentity | src/main/java/com/bssm/meal/favorite/service/NotificationFilterService.java:27 | removing groups leaves a string unchanged exactly when it holds no group |
| Menu.StripTrailingCode | src/main/java/com/bssm/meal/favorite/service/NotificationFilterService.java:27 | a dish name followed by a bracketed allergen code loses the whole code |
| Menu.CleanDish | src/main/java/com/bssm/meal/favorite/service/NotificationFilterService.java:27 | a cleaned dish holds no group and has no surrounding whitespace |
| Menu.CleanDishIdempotent | src/main/java/com/bssm/meal/favorite/service/NotificationFilterService.java:27 | cleaning a dish twice gives what cleaning it once gives |
| Menu.CleanDishExample | src/main/java/com/bssm/meal/favorite/service/NotificationFilterService.java:27 | example, documentation only: "김치찌개(9)" cleans to "김치찌개" |
| Menu.CleanMenus | src/main/java/com/bssm/meal/favorite/service/NotificationFilterService.java:26-29 | the cleaned dishes in their original order with the empty ones dropped: a subsequence of the cleaned list in which every non-empty cleaned dish occurs exactly as often as in the cleaned list, and the empty one never |
| Menu.CleanMenusIdempotent | src/main/java/com/bssm/meal/favorite/service/NotificationFilterService.java:26-29 | cleaning an already cleaned menu changes nothing |
| Menu.FindMatchedItems | src/main/java/com/bssm/meal/favorite/service/NotificationFilterService.java:87-94 | exactly the user's terms that have text and occur inside some dish, in the user's order; no terms give no matches |
| Menu.FindMatchedItemsExample | src/main/java/com/bssm/meal/favorite/service/NotificationFilterService.java:90-93 | example, documentation only: "돈까스" matches the dish "치즈돈까스" while a blank term matches nothing |
| Comments.AuthorName | src/main/java/com/bssm/meal/comment/service/CommentService.java:56-58 | the comment carries the author's name when the email belongs to a user with a name, "익명" when the email is unknown, and any other name only if some user with that email has it |
| Comments.SaveComment | src/main/java/com/bssm/meal/comment/service/CommentService.java:55-69 | exactly one row is appended, with an id no earlier row has, the posted meal fields and content, the author's name, the given email and the current time |
| Comments.SearchKeyword | src/main/java/com/bssm/meal/comment/service/CommentService.java:78 | a keyword counts as absent iff it is null or whitespace-only; otherwise it is passed on unchanged |
| Comments.EmptyAsNull | src/main/java/com/bssm/meal/comment/service/CommentService.java:88-89 | a date or meal type is dropped iff it is null or empty |
| Comments.SearchFilters | src/main/java/com/bssm/meal/comment/service/CommentService.java:76-91 | type "username" sends the keyword to the name filter only, type "email" to the email filter only, any other type to neither; a blank keyword filters nothing |
| Comments.SearchView | src/main/java/com/bssm/meal/comment/service/CommentService.java:94-102 | the admin view keeps id, date, meal, name, email and content, has no meal key, and renders a missing time as "" |
| Comments.ListView | src/main/java/com/bssm/meal/comment/service/CommentService.java:37-48 | the dish view keeps id, date, meal, meal key, name, email and content, and leaves a missing time null |
| Comments.AdminMatches | src/main/java/com/bssm/meal/comment/repository/CommentRepository.java:62-73 | exactly the comments the normalised filters admit appear, as admin views; name and email match by substring and date and meal by equality |
| Comments.SearchComments | src/main/java/com/bssm/meal/comment/service/CommentService.java:76-103 | (through `Comments.IsPage`) the page holds the matches from position page × size on, at most size of them, in order, and a full page whenever enough matches remain; a page past the end is empty; the total counts every match |
| Comments.EveryMatchOnItsPage | src/main/java/com/bssm/meal/comment/service/CommentService.java:76-103 | every match appears on some page: match k is entry k mod size of page k div size |
| Comments.BlankKeywordIgnoresType | src/main/java/com/bssm/meal/comment/service/CommentService.java:78-82 | with a blank keyword, the search type makes no difference |
| Comments.SearchByName | src/main/java/com/bssm/meal/comment/service/CommentService.java:81-92 | searching by name finds every comment whose author name contains the keyword and that the date and meal filters admit, and every comment it finds has such a name |
| Comments.FindComments | src/main/java/com/bssm/meal/comment/service/CommentService.java:32-49 | exactly the comments of that date, meal and dish appear, as dish views |
| Comments.ViewsDifferOnKeyAndTime | src/main/java/com/bssm/meal/comment/service/CommentService.java:37-48 | the two views agree except in two fields: the dish view carries the meal key where the admin view has null, and a missing time is null in one and "" in the other |
| Comments.DeleteComment | src/main/java/com/bssm/meal/comment/service/CommentService.java:109-111 | exactly the rows with other ids remain, in order; an unknown id changes nothing |
| Comments.DeleteUndoesSaveComment | src/main/java/com/bssm/meal/comment/service/CommentService.java:55-69 | deleting the comment just saved restores the table |
| Comments.GetCommentStats | src/main/java/com/bssm/meal/comment/service/CommentService.java:117-126 | the total counts every comment; today's count is the number of comments whose time is after the start of the day, so it never exceeds the total and is zero when no comment has a time |
| Comments.SaveCommentCounted | src/main/java/com/bssm/meal/comment/service/CommentService.java:117-120 | a saved comment raises the total by one, and today's count by one exactly when it was written after the start of the day |
| Entities.BuildAdminNotification | src/main/java/com/bssm/meal/favorite/entity/AdminNotification.java:36-50 | a built campaign is unsent unless told otherwise, has zero counts and no creation time, and stores the given texts |
| Entities.ClampCount | src/main/java/com/bssm/meal/favorite/entity/AdminNotification.java:63-65 | a count is never negative afterwards; a non-negative count is kept |
| Entities.AdminNotificationOnCreate | src/main/java/com/bssm/meal/favorite/entity/AdminNotification.java:58-66 | the creation time becomes now, negative counts become 0, non-negative counts and all other fields are kept |
| Entities.AdminNotificationOnCreateIdempotent | src/main/java/com/bssm/meal/favorite/entity/AdminNotification.java:58-66 | running the hook again at the same instant changes nothing |
| Entities.BuildHistory | src/main/java/com/bssm/meal/favorite/entity/NotificationHistory.java:45-57 | null counts become 0; the row is marked sent at the build time; the texts are stored as given |
| Entities.HistoryOnCreate | src/main/java/com/bssm/meal/favorite/entity/NotificationHistory.java:62-70 | afterwards neither the send time nor the sent flag is null; values already present are kept; nothing else changes |
| Entities.BuiltHistoryUnchangedByOnCreate | src/main/java/com/bssm/meal/favorite/entity/NotificationHistory.java:45-70 | a row made by the builder passes through the hook unchanged, whenever the hook runs |
| Entities.DeleteRequestPrePersist | src/main/java/com/bssm/meal/user/domain/DeleteRequest.java:36-44 | the request time and the status get their defaults (now, PENDING) only when null; the other fields are kept |
| Entities.DeleteRequestPrePersistIdempotent | src/main/java/com/bssm/meal/user/domain/DeleteRequest.java:36-44 | running the hook a second time, even later, changes nothing |
| Entities.NewAppDownloadStats | src/main/java/com/bssm/meal/admin/domain/AppDownloadStats.java:22-25 | a new counter for an app type starts at 0 and has never been downloaded |
| Entities.LongIncrement | src/main/java/com/bssm/meal/admin/domain/AppDownloadStats.java:28 | a Java `long` increment stays in range: one more, except that the largest value wraps to the smallest |
| Entities.Increment | src/main/java/com/bssm/meal/admin/domain/AppDownloadStats.java:27-30 | the count goes up by one (wrapping at the `long` limit), the download time becomes now, the app type is kept |
| FilteredAlerts.AllergyHits | src/main/java/com/bssm/meal/favorite/service/NotificationFilterService.java:51-59 | the allergy matches count only when the user's allergy flag is on |
| FilteredAlerts.FavouriteHits | src/main/java/com/bssm/meal/favorite/service/NotificationFilterService.java:62-70 | the favourite matches count only when the user's favourite flag is on |
| FilteredAlerts.FilteredBody | src/main/java/com/bssm/meal/favorite/service/NotificationFilterService.java:47-78 | the body is the present sentences, allergy first, one per line, and trimming it changes nothing |
| FilteredAlerts.FilteredBodyShape | src/main/java/com/bssm/meal/favorite/service/NotificationFilterService.java:54-78 | trimming the built-up text removes exactly its final line feed |
| FilteredAlerts.FilteredRequestFor | src/main/java/com/bssm/meal/favorite/service/NotificationFilterService.java:38-83 | a user is pushed iff notifications are on, the user has a token, and an enabled category matched; the push goes to all the user's tokens as "FILTERED" from "SYSTEM" for the given date |
| FilteredAlerts.FilteredRequests | src/main/java/com/bssm/meal/favorite/service/NotificationFilterService.java:42-84 | every user who qualifies is pushed, and every push is the push of some qualifying user (a "FILTERED" push from "SYSTEM" with tokens and the given date) |
| FilteredAlerts.SendFiltered | src/main/java/com/bssm/meal/favorite/service/NotificationFilterService.java:23-85 | a menu that cleans to nothing sends nothing at all; otherwise there is one history row per qualifying user, each a "FILTERED" push from "SYSTEM" dated with the given date, and every history row and every message sent records or carries the push of a user who qualifies; conversely every qualifying user has a usable token and is sent the push on the usable tokens |
| FilteredAlerts.AllergyLineFirst | src/main/java/com/bssm/meal/favorite/service/NotificationFilterService.java:54-78 | when both categories match, the allergy sentence comes first and the favourite sentence second, on separate lines |
| FilteredAlerts.SchedulerCalls | src/main/java/com/bssm/meal/favorite/scheduler/MealNotificationScheduler.java:50-63 | a null or empty menu list makes no call; otherwise exactly one call, with today's date as yyyyMMdd and the list unchanged |
| FilteredAlerts.SendMealNotification | src/main/java/com/bssm/meal/favorite/scheduler/MealNotificationScheduler.java:26-63 | no menu today means no pushes and no history; all three weekday triggers take this one path |
| FilteredAlerts.SchedulerDateIsToday | src/main/java/com/bssm/meal/favorite/scheduler/MealNotificationScheduler.java:51 | the date handed to the filter service reads back as today |
| Dates.Pad | src/main/java/com/bssm/meal/favorite/scheduler/MealNotificationScheduler.java:51 | a zero-padded field has exactly the requested width, holds only digits and reads back as the number |
| Dates.Basic | src/main/java/com/bssm/meal/favorite/scheduler/MealNotificationScheduler.java:51 | the yyyyMMdd form is eight digits |
| Dates.ParseBasicOfBasic | src/main/java/com/bssm/meal/favorite/scheduler/MealNotificationScheduler.java:51 | the yyyyMMdd form determines the date: reading it back gives the date |
| Dates.Iso | src/main/java/com/bssm/meal/favorite/service/MealNotificationService.java:139 | the ISO date is ten characters, digits with dashes at positions 4 and 7 |
| Dates.IsoIsBasicWithDashes | src/main/java/com/bssm/meal/favorite/scheduler/MealAlarmScheduler.java:67-102 | the ISO date is the yyyyMMdd date with two dashes inserted |
| MealText.ReplaceBr | src/main/java/com/bssm/meal/favorite/service/MealNotificationService.java:188 | text without `<br/>` passes the first pass unchanged |
| MealText.ReplaceBrJoin | src/main/java/com/bssm/meal/favorite/service/MealNotificationService.java:188 | pieces separated by `<br/>` come out separated by single spaces |
| MealText.CodeRun | src/main/java/com/bssm/meal/favorite/service/MealNotificationService.java:188 | the greedy `[0-9.]+` run from a position is maximal: all digits or dots, ended by the text's end or another character |
| MealText.StripCodes | src/main/java/com/bssm/meal/favorite/service/MealNotificationService.java:188 | the second pass never lengthens the text |
| MealText.StripCodesNoOpen | src/main/java/com/bssm/meal/favorite/service/MealNotificationService.java:188 | text without '(' passes through the second pass unchanged |
| MealText.StripCodesGroup | src/main/java/com/bssm/meal/favorite/service/MealNotificationService.java:188 | a `(` digits-and-dots `)` group is removed wherever it stands, and what surrounds it is scanned as if it were absent |
| MealText.CleanMenuText | src/main/java/com/bssm/meal/favorite/service/MealNotificationService.java:187-189 | the output holds only Hangul jamo and syllables, ASCII letters, digits and spaces, with no space at either end |
| MealText.CleanMenuTextFixes | src/main/java/com/bssm/meal/favorite/service/MealNotificationService.java:187-189 | the cleaner leaves a string unchanged exactly when it is already clean |
| MealText.CleanMenuTextIdempotent | src/main/java/com/bssm/meal/favorite/service/MealNotificationService.java:187-189 | cleaning twice gives what cleaning once gives |
| MealText.CleanBrJoined | src/main/java/com/bssm/meal/favorite/service/MealNotificationService.java:188 | clean dishes separated by `<br/>` come out separated by one space |
| MealText.CleanDropsCode | src/main/java/com/bssm/meal/favorite/service/MealNotificationService.java:188 | a dish followed by a bracketed allergen code loses the code and its brackets |
| MealText.BracketedNotCode | src/main/java/com/bssm/meal/favorite/service/MealNotificationService.java:188 | a bracketed word that is not all digits survives the code pass whole |
| MealText.CleanKeepsBracketed | src/main/java/com/bssm/meal/favorite/service/MealNotificationService.java:188 | brackets around anything but a code lose only the bracket characters |
| MealNotifications.MealMatch | src/main/java/com/bssm/meal/favorite/service/MealNotificationService.java:149-151 | exactly the user's terms that occur in the day's menu string, in the user's order, blank terms included |
| MealNotifications.EmptyTermAlwaysMatches | src/main/java/com/bssm/meal/favorite/service/MealNotificationService.java:149 | an empty term is reported for every menu |
| MealNotifications.PerDishMatchIsWholeDayMatch | src/main/java/com/bssm/meal/favorite/service/MealNotificationService.java:149-151 | every term the per-dish matcher of the filter service finds is also found by the whole-day matcher in the dishes joined by spaces |
| MealNotifications.Utf16Length | src/main/java/com/bssm/meal/favorite/service/MealNotificationService.java:156 | a string's UTF-16 length lies between its character count and twice that |
| MealNotifications.MealAlertBody | src/main/java/com/bssm/meal/favorite/service/MealNotificationService.java:154-156 | the body starts with the bracketed meal type; the favourite list follows it; the allergy list comes last, after a line feed exactly when the text before it exceeds 15 UTF-16 units, else after a space |
| MealNotifications.MealRequestFor | src/main/java/com/bssm/meal/favorite/service/MealNotificationService.java:144-160 | a user is pushed iff notifications are on, the user has a token and a favourite or allergy term occurs in the menu; the push is a "MEAL_ALERT" from "SYSTEM" on all the user's tokens, dated today |
| MealNotifications.MealRequests | src/main/java/com/bssm/meal/favorite/service/MealNotificationService.java:144-161 | every qualifying user is pushed, and every push is the push of some qualifying user (a "MEAL_ALERT" with tokens) |
| MealNotifications.FirstOfType | src/main/java/com/bssm/meal/favorite/service/MealNotificationService.java:141 | the row found is of that meal type; none is found only when no row has it |
| MealNotifications.ProcessMealSpecific | src/main/java/com/bssm/meal/favorite/service/MealNotificationService.java:137-163 | a day without that meal sends nothing; otherwise one "MEAL_ALERT" history row from "SYSTEM" per qualifying user, matched against the cleaned menu and dated today as yyyy-MM-dd, and every history row and every message sent records or carries the push of a user who qualifies; conversely every qualifying user has a usable token and is sent the push on the usable tokens |
| MealNotifications.SenderDisplayName | src/main/java/com/bssm/meal/favorite/service/MealNotificationService.java:54-56 | the sender is the admin's name when the admin's email belongs to a user with a name, otherwise "관리자" |
| MealNotifications.JoinEmails | src/main/java/com/bssm/meal/favorite/service/MealNotificationService.java:63 | a null address list is stored as null, any other list as text |
| MealNotifications.SplitEmails | src/main/java/com/bssm/meal/favorite/service/MealNotificationService.java:113-114 | null or empty stored text reads as no list; otherwise no address read back holds a comma |
| MealNotifications.SplitJoinEmails | src/main/java/com/bssm/meal/favorite/service/MealNotificationService.java:63-114 | a comma-free address list with non-empty first and last addresses is read back by the poll as stored |
| MealNotifications.ProcessAdminNotification | src/main/java/com/bssm/meal/favorite/service/MealNotificationService.java:48-83 | exactly one campaign row is appended, with the request's fields, the sender's display name and zero counts; it is marked sent iff the request is not reserved; an immediate request is pushed once through the admin push, a reserved one not at all |
| MealNotifications.ReservedDispatch | src/main/java/com/bssm/meal/favorite/service/MealNotificationService.java:113-116 | a due campaign is pushed once, recorded as sent by "SYSTEM_RESERVED" with its own title and target type |
| MealNotifications.MarkIfDue | src/main/java/com/bssm/meal/favorite/service/MealNotificationService.java:118 | after the poll a row is no longer due, and only its sent flag may have changed |
| MealNotifications.ReservedEffects | src/main/java/com/bssm/meal/favorite/service/MealNotificationService.java:111-120 | at most one push per row, all from "SYSTEM_RESERVED"; nothing due means no pushes |
| MealNotifications.CheckAdminReserved | src/main/java/com/bssm/meal/favorite/service/MealNotificationService.java:110-121 | every due row is marked sent and every other row kept; afterwards nothing is due; all pushes are from "SYSTEM_RESERVED" |
| MealNotifications.CheckAdminReservedSettles | src/main/java/com/bssm/meal/favorite/service/MealNotificationService.java:110-121 | a second poll at the same instant changes nothing and pushes nothing |
| MealNotifications.CampaignLifecycle | src/main/java/com/bssm/meal/favorite/service/MealNotificationService.java:48-121 | an immediate campaign is never picked up by the poll; a reserved one is due at every poll after its time; a comma-free address list survives the round trip |
| Fcm.UsableTokens | src/main/java/com/bssm/meal/favorite/service/FcmService.java:192-195 | exactly the non-blank tokens of the list, each once, in the order of their first occurrence in the list |
| Fcm.SendPushToTokens | src/main/java/com/bssm/meal/favorite/service/FcmService.java:185-229 | a null or empty list sends and records nothing; otherwise one multicast to the usable tokens (none if there are none) and exactly one history row whose total is the number of usable tokens and whose counts are Firebase's, or 0 when Firebase failed or was not called |
| Fcm.SendPushToTokensCounts | src/main/java/com/bssm/meal/favorite/service/FcmService.java:200-225 | when Firebase's counts are honest, no history row has negative counts or more successes and failures than tokens |
| Fcm.DispatchAll | src/main/java/com/bssm/meal/favorite/service/FcmService.java:185-229 | requests carried out in turn: at most one history row and one multicast per request, each tracing back to a request; every request with a usable token is sent, on exactly its usable tokens with its title, body and date |
| Fcm.DispatchAllCounts | src/main/java/com/bssm/meal/favorite/service/FcmService.java:185-229 | when every request has tokens, each request leaves exactly one history row |
| Fcm.AudienceTokens | src/main/java/com/bssm/meal/favorite/service/FcmService.java:108-127 | exactly the tokens of the users with notifications on |
| Fcm.FindByEmailIn | src/main/java/com/bssm/meal/user/repository/UserRepository.java:46 | exactly the users whose email is in the list |
| Fcm.CollectTokens | src/main/java/com/bssm/meal/favorite/service/FcmService.java:98-154 | "ALL" in any letter case collects from every user; another type with a non-empty email list collects from those users; anything else collects nothing |
| Fcm.CollectTokensAudience | src/main/java/com/bssm/meal/favorite/service/FcmService.java:132-153 | for a targeted push, a token is collected iff it belongs to a listed user with notifications on |
| Fcm.SendAdminPush | src/main/java/com/bssm/meal/favorite/service/FcmService.java:96-179 | always exactly one history row carrying the target type, sender and texts; no collected token means a 0/0/0 row and no multicast; a multicast only reaches collected tokens and is dated with the target date, or today when that is null or empty |
| Fcm.AudienceTokensUsable | src/main/java/com/bssm/meal/favorite/service/FcmService.java:116-125 | no collected token is blank, so a non-empty audience always gets its multicast |
| Fcm.SendPushToUser | src/main/java/com/bssm/meal/favorite/service/FcmService.java:59-90 | an unknown user, one with notifications off and one without tokens get nothing; a found user with notifications on and a token gets exactly one multicast, to that user's usable tokens (never none) dated today, and exactly one "TARGET" history row from "SYSTEM" with the title, body and token count |
| Fcm.UserTokensUsable | src/main/java/com/bssm/meal/favorite/service/FcmService.java:74-89 | a user's tokens are sent as they are, except that a token held in both slots is sent once |
| Fcm.SaveToken | src/main/java/com/bssm/meal/favorite/service/FcmService.java:34-53 | an unknown user is an IllegalArgumentException; otherwise the slot is updated as the user entity does it and notifications end up on |
| Fcm.ClearSlots | src/main/java/com/bssm/meal/favorite/service/FcmService.java:293-303 | every slot equal to the token is emptied; nothing else changes |
| Fcm.DeleteToken | src/main/java/com/bssm/meal/favorite/service/FcmService.java:279-312 | a blank token changes nothing; otherwise each user loses that token from every slot and nothing else |
| Fcm.DeleteTokenRemovesIt | src/main/java/com/bssm/meal/favorite/service/FcmService.java:279-312 | afterwards no user is pushed on that token, and every other token a user had is still pushed |
| Alarm.PushTargets | src/main/java/com/bssm/meal/favorite/scheduler/MealAlarmScheduler.java:85-94 | the users pushed are exactly the owners of token rows: one call per owned row, in row order, rows without an owner skipped |
| Alarm.UniversalEffects | src/main/java/com/bssm/meal/favorite/scheduler/MealAlarmScheduler.java:85-94 | at most one history row per token row, each a "TARGET" push with the alarm's title; a row whose call throws before sending contributes nothing, and the loop goes on |
| Alarm.UniversalEffectsPerTarget | src/main/java/com/bssm/meal/favorite/scheduler/MealAlarmScheduler.java:85-94 | when no row fails, the loop is exactly the user push for each owner of a row, in row order |
| Alarm.RowPushSent | src/main/java/com/bssm/meal/favorite/scheduler/MealAlarmScheduler.java:85-94 | the multicasts of an owned row whose call gets as far as sending are among the loop's multicasts, even when the call throws afterwards |
| Alarm.PushAll | src/main/java/com/bssm/meal/favorite/scheduler/MealAlarmScheduler.java:89 | at most one history row per user pushed |
| Alarm.UniversalRecord | src/main/java/com/bssm/meal/favorite/scheduler/MealAlarmScheduler.java:98-107 | the record is a sent "ALL" campaign by "SYSTEM_SCHEDULER" with the alarm's texts, today's ISO date, now as its times and zero counts |
| Alarm.MealAlarm | src/main/java/com/bssm/meal/favorite/scheduler/MealAlarmScheduler.java:31-114 | with no menu today nothing is sent or written; otherwise every token row is tried and the loop's multicasts are sent; when every call completes, exactly one campaign record is appended and the history kept; when any owned row's call throws, the trigger's one transaction rolls back, so the table is unchanged and no history row is kept |
| Alarm.FailedAlarmStillPushes | src/main/java/com/bssm/meal/favorite/scheduler/MealAlarmScheduler.java:31-114 | a trigger whose call for one row throws after its send has still pushed that row's user, but leaves no campaign record and no history |
| Alarm.AlarmSender | src/main/java/com/bssm/meal/favorite/scheduler/MealAlarmScheduler.java:131 | the sender is the campaign's author, or "SYSTEM_RESERVED" when there is none |
| Alarm.AlarmEmails | src/main/java/com/bssm/meal/favorite/scheduler/MealAlarmScheduler.java:135 | a null address list stays null, and an empty one becomes a list holding one empty address |
| Alarm.AlarmDispatch | src/main/java/com/bssm/meal/favorite/scheduler/MealAlarmScheduler.java:133-140 | a due campaign yields exactly one history row, under the campaign's sender |
| Alarm.AlarmReservedEffects | src/main/java/com/bssm/meal/favorite/scheduler/MealAlarmScheduler.java:127-148 | at most one history row per campaign, under some campaign's sender; a due campaign is dispatched unless its call throws before sending |
| Alarm.NothingDueNoPushes | src/main/java/com/bssm/meal/favorite/scheduler/MealAlarmScheduler.java:127-148 | when no campaign is due the poll sends no push and saves no history |
| Alarm.AlarmReservedPoll | src/main/java/com/bssm/meal/favorite/scheduler/MealAlarmScheduler.java:119-149 | the multicasts of every due campaign are sent, unless its dispatch throws before sending; when none throws, every due row is marked sent and nothing is due afterwards; when one throws, in its dispatch or in the save marking it sent, the one transaction rolls back, so the table is unchanged and no history row is kept |
| Alarm.DueDispatchSent | src/main/java/com/bssm/meal/favorite/scheduler/MealAlarmScheduler.java:127-148 | the multicasts of a due campaign whose dispatch gets as far as sending are among the poll's multicasts, whether or not it throws afterwards |
| Alarm.FailureResendsOthers | src/main/java/com/bssm/meal/favorite/scheduler/MealAlarmScheduler.java:119-149 | when one due campaign throws, every campaign that was pushed, the failing one included when it failed after its send, stays due, and the next poll pushes it again |
| Alarm.PollsAgreeOnTable | src/main/java/com/bssm/meal/favorite/scheduler/MealAlarmScheduler.java:121-149 | where no dispatch fails, this poll leaves the campaign table exactly as the service's own minute poll does (MealNotificationService.java:110-121) |
| LockGate.SetIfAbsent | src/main/java/com/bssm/meal/favorite/service/NotificationService.java:40-41 | the key is taken, for 30 seconds, exactly when nobody holds it; otherwise the table is unchanged; other keys are never touched |
| LockGate.PunctuationOnlyIsEmpty | src/main/java/com/bssm/meal/favorite/service/NotificationService.java:82-86 | a body of spaces and punctuation only counts as no menu |
| LockGate.NoMealPhraseIsEmpty | src/main/java/com/bssm/meal/favorite/service/NotificationService.java:84-85 | a body containing "급식이없습니다" or "정보가없습니다" counts as no menu, whatever surrounds it |
| LockGate.SplitPhraseIsEmpty | src/main/java/com/bssm/meal/favorite/service/NotificationService.java:84-85 | the same holds when spaces or punctuation split the phrase, as in "급식이 없습니다" |
| LockGate.MenuEmptyWithoutNoSyllable | src/main/java/com/bssm/meal/favorite/service/NotificationService.java:82-86 | a body that never uses the syllable "없" counts as no menu exactly when it has no text or holds only spaces and punctuation |
| LockGate.JavaText | src/main/java/com/bssm/meal/favorite/service/NotificationService.java:37 | a present string is printed as itself (null prints as "null") |
| LockGate.LockKey | src/main/java/com/bssm/meal/favorite/service/NotificationService.java:37 | the key starts with "notif_lock:", the target type and a colon, followed by the title with white space removed |
| LockGate.SpacingSharesLock | src/main/java/com/bssm/meal/favorite/service/NotificationService.java:37 | titles that differ only in white space share one lock |
| LockGate.GateRecord | src/main/java/com/bssm/meal/favorite/service/NotificationService.java:63-70 | the saved record carries the request's title, body and target type and the admin as sender, sent now |
| LockGate.SendNotification | src/main/java/com/bssm/meal/favorite/service/NotificationService.java:24-80 | a non-test request announcing no meal stops before the lock; a null title then throws; a held key is a duplicate that sends and saves nothing; an exception frees the key and is passed on, leaving nothing when the admin push's user lookup threw, the admin push's messages but no row when its history save threw, and the admin push's messages and row (but no gate record) when the later save threw; a delivered one keeps the key for 30 seconds and saves the admin push's row and then its own record |
| LockGate.SecondCallDropped | src/main/java/com/bssm/meal/favorite/service/NotificationService.java:40-46 | within 30 seconds of a delivered request, the same request, or one whose title differs only in spacing, is dropped without sending or saving anything |
| LockGate.LockExpires | src/main/java/com/bssm/meal/favorite/service/NotificationService.java:40-41 | once the 30 seconds are over, the same request goes through again |
| LockGate.RetryAfterFailure | src/main/java/com/bssm/meal/favorite/service/NotificationService.java:73-77 | after an exception, in the dispatch or in the save, an immediate retry is not taken for a duplicate |
| Accounts.SaveOrUpdate | src/main/java/com/bssm/meal/user/service/UserService.java:48-62 | a known email changes only that account's name and picture; an unknown one appends a new account with the builder defaults and a fresh id |
| Accounts.SaveOrUpdateThenFind | src/main/java/com/bssm/meal/user/service/UserService.java:48-62 | signing in keeps ids and emails unique, and the account then found under that email has the new name and picture |
| Accounts.UpdateUserInfo | src/main/java/com/bssm/meal/user/service/UserService.java:72-91 | an unknown email is an IllegalArgumentException; otherwise only that account changes, exactly as the entity's info update does |
| Accounts.UpdateUserInfoThenFind | src/main/java/com/bssm/meal/user/service/UserService.java:72-91 | after the update the account found under that email has the requested lists and notification switch, and ids and emails stay unique |
| Accounts.CommentsWithoutName | src/main/java/com/bssm/meal/comment/repository/CommentRepository.java:78-81 | exactly the comments under another author name remain; a null name removes none, as SQL equality with null holds for no row |
| Accounts.CommentsWithoutEmail | src/main/java/com/bssm/meal/user/service/UserService.java:125-126 | exactly the comments stored under another email remain |
| Accounts.DeleteUserAndAllDataByName | src/main/java/com/bssm/meal/user/service/UserService.java:105-148 | as written: an unknown email is an error; otherwise the account, the likes under its id and every comment under its display name go, and the requests stay |
| Accounts.DeletionTakesNamesakesComments | src/main/java/com/bssm/meal/user/service/UserService.java:126 | with two accounts named "Kim", deleting the first also deletes the comment the second wrote |
| Accounts.DeleteUserAndAllData | src/main/java/com/bssm/meal/user/service/UserService.java:105-148 | corrected: an unknown email is an error; otherwise the account, the likes under its id and the comments written under its email go |
| Accounts.DeletionKeepsOthers | src/main/java/com/bssm/meal/user/service/UserService.java:105-148 | afterwards the email finds no account, while every other account, every like of another user and every comment under another email survives |
| Accounts.CreateDeleteRequest | src/main/java/com/bssm/meal/user/service/UserService.java:154-164 | exactly one PENDING request is appended, with the email, the reason, the current time and a fresh id |
| Accounts.PendingDeleteRequests | src/main/java/com/bssm/meal/user/service/UserService.java:202-204 | exactly the PENDING requests, in table order |
| Accounts.FindRequest | src/main/java/com/bssm/meal/user/service/UserService.java:211-212 | the request found has that id; none found means no request has it |
| Accounts.ProcessDeleteRequest | src/main/java/com/bssm/meal/user/service/UserService.java:210-228 | an unknown id is an error; the request becomes PROCESSED on approval and REJECTED otherwise, stamped now, all other requests unchanged; rejection touches no account, like or comment; approval of a request whose email has an account removes the account, the likes under its id and every comment under its display name (the deletion as written), and approval without an account changes nothing else |
| Accounts.ProcessedLeavesQueue | src/main/java/com/bssm/meal/user/service/UserService.java:210-228 | a processed request leaves the pending list, and every status stays one of PENDING, PROCESSED and REJECTED |
| AdminUsers.ToDetail | src/main/java/com/bssm/meal/admin/service/AdminService.java:70-83 | the admin view carries the user's id as text and copies email, name, ban state and preference lists |
| AdminUsers.DetailIdReadsBack | src/main/java/com/bssm/meal/admin/service/AdminService.java:70-83 | the text id reads back as the user's 64-bit id |
| AdminUsers.AllUsersForAdmin | src/main/java/com/bssm/meal/admin/service/AdminService.java:42-46 | one view per user, in table order |
| AdminUsers.FilteredUsers | src/main/java/com/bssm/meal/user/repository/UserRepository.java:29-35 | exactly the users whose name and email contain the given parts, as views; a null name matches no pattern |
| AdminUsers.UsersByFilter | src/main/java/com/bssm/meal/admin/service/AdminService.java:51-65 | a null or blank keyword, or an unknown search type, lists everyone; type "username" lists exactly the users whose name contains the keyword, and type "email" those whose email does |
| AdminUsers.UnfilteredQuery | src/main/java/com/bssm/meal/user/repository/UserRepository.java:29-35 | with both parameters null the query lists everyone |
| AdminUsers.BanExpiry | src/main/java/com/bssm/meal/admin/service/AdminService.java:206 | a ban has an end iff its length in minutes is given and positive, and then it ends exactly that many minutes after now |
| AdminUsers.UpdateUserBannedStatus | src/main/java/com/bssm/meal/admin/service/AdminService.java:198-224 | an unknown email is an IllegalArgumentException; a ban stores the reason and expiry, an unban clears both; the mail outcome never blocks the change |
| AdminUsers.BanThenUnban | src/main/java/com/bssm/meal/admin/service/AdminService.java:198-224 | a ban followed by an unban leaves the account as it was, with its ban fields cleared |
| AdminUsers.Unbanned | src/main/java/com/bssm/meal/admin/service/BanSchedulerService.java:31-34 | a ban whose expiry has passed is lifted and its expiry cleared, but its reason is kept; any other user is unchanged; afterwards the user is not an expired ban |
| AdminUsers.AutoUnban | src/main/java/com/bssm/meal/admin/service/BanSchedulerService.java:22-46 | every user with an expired ban is unbanned, every other user is unchanged, and no expired ban remains |
| AdminUsers.AutoUnbanIdempotent | src/main/java/com/bssm/meal/admin/service/BanSchedulerService.java:22-46 | a second run at the same instant changes nothing |
| AdminUsers.AutoUnbanKeepsLiveBans | src/main/java/com/bssm/meal/user/repository/UserRepository.java:27 | a permanent ban, or one whose expiry is not yet past, survives the job |
| AdminUsers.ReportedQueue | src/main/java/com/bssm/meal/report/repository/ReportRepository.java:13 | exactly the reports still flagged, in table order |
| AdminUsers.ProcessReport | src/main/java/com/bssm/meal/admin/service/AdminService.java:175-182 | an unknown id is an IllegalArgumentException; otherwise that report is unflagged and nothing else changes |
| AdminUsers.DismissedLeavesQueue | src/main/java/com/bssm/meal/admin/service/AdminService.java:175-182 | a dismissed report leaves the admin queue, and every other queued report stays |
| AdminUsers.DeleteReport | src/main/java/com/bssm/meal/admin/service/AdminService.java:187-193 | an unknown id is an IllegalArgumentException; otherwise that report is gone and every other one stays |
| AdminUsers.ForceLogoutUser | src/main/java/com/bssm/meal/admin/service/AdminService.java:226-239 | an unknown user is an IllegalArgumentException; otherwise exactly the user's token rows are deleted, the rest kept in order |
| AdminUsers.ForcedLogoutHalfDone | src/main/java/com/bssm/meal/admin/service/AdminService.java:226-239 | after a forced logout the fixed-time alarms no longer reach the user, but a push addressed to the user still goes to the user's two token slots |
| UserEndpoints.ProfileOf | src/main/java/com/bssm/meal/user/controller/UserController.java:85-96 | the profile cannot be built (a NullPointerException from the immutable map) exactly when the name or the stored notification switch is null; otherwise it carries the user's id, name, email and role, "" for a missing picture, and the notification switch |
| UserEndpoints.Me | src/main/java/com/bssm/meal/user/controller/UserController.java:53-97 | no authentication gives 401 and an unknown email an IllegalArgumentException; a permanent ban, or a ban whose expiry is not strictly past, gives 403; an expired ban is lifted on the loaded user and the profile is returned, which the lift does not change; the handler runs in a read-only transaction, so no call changes the user table |
| UserEndpoints.TimedBanLifecycle | src/main/java/com/bssm/meal/user/controller/UserController.java:72-83 | a ban of some minutes answers 403 up to and including its expiry and afterwards lets the user in; the table still holds the ban after that call, and the minute job run then clears it |
| UserEndpoints.PermanentBanHolds | src/main/java/com/bssm/meal/user/controller/UserController.java:80-82 | a ban without a length answers 403 at every later time |
| UserEndpoints.LiftedBansDifferInReason | src/main/java/com/bssm/meal/user/controller/UserController.java:74-76 | the minute job and the profile request both lift only a ban whose expiry is strictly past and agree on ban and expiry, but only the job keeps the reason (BanSchedulerService.java:33-34) |
| UserEndpoints.JobLeavesNothingForMe | src/main/java/com/bssm/meal/user/controller/UserController.java:72-83 | after the minute job has run, every remaining ban is one the profile request still enforces |
| UserEndpoints.SyncRows | src/main/java/com/bssm/meal/user/controller/UserController.java:102-136 | every token row of the user takes the requested switch; every other row is unchanged |
| UserEndpoints.UpdateInfoEndpoint | src/main/java/com/bssm/meal/user/controller/UserController.java:102-136 | no authentication gives 401 with nothing changed; an unknown email is an IllegalArgumentException; otherwise the profile update is stored and the user's token rows follow its notification switch |
| UserEndpoints.RowsFollowUser | src/main/java/com/bssm/meal/user/controller/UserController.java:102-136 | afterwards every token row of the user agrees with the user's own switch, and other users' rows are untouched |
| UserEndpoints.DeviceTypeOrWeb | src/main/java/com/bssm/meal/user/controller/UserController.java:151 | a missing device type becomes "WEB"; a present one, even null, is kept |
| UserEndpoints.FindTokenRow | src/main/java/com/bssm/meal/user/controller/UserController.java:162 | no row is found exactly when no row holds the token; one row is found when it is the only one holding the token; several rows holding it are reported as such, where the single-result query throws (FcmTokenRepository.java:19; the column is not unique, FcmToken.java:20) |
| UserEndpoints.RegisterToken | src/main/java/com/bssm/meal/user/controller/UserController.java:141-171 | no authentication gives 401, an unknown email 200 with nothing changed; otherwise the token is saved into the user's slot and the token row holding that token, if any, gets notifications on; when several rows hold the token the call fails and, as one transaction, keeps no change at all |
| UserEndpoints.DuplicateTokenRowsFail | src/main/java/com/bssm/meal/user/controller/UserController.java:141-171 | two rows holding the registered token make a known user's registration fail with the incorrect-result-size error |
| UserEndpoints.RegistrationEnablesPush | src/main/java/com/bssm/meal/user/controller/UserController.java:141-171 | registering a non-blank MOBILE or WEB token fails exactly when several rows already hold it; otherwise the user is found by email with notifications on and the token among those pushed, and a later `findByToken` finds the same row as before, now with notifications on |
| UserEndpoints.SavedTokenFound | src/main/java/com/bssm/meal/favorite/service/FcmService.java:34-45 | in a table with unique ids and emails, saving a non-blank MOBILE or WEB token for a found user succeeds, and the user is then found by email with notifications on and the token among those pushed |
| UserEndpoints.SameTokensSameRow | src/main/java/com/bssm/meal/user/controller/UserController.java:162 | two row lists with the same tokens in the same places give the same `findByToken` answer |
| UserEndpoints.LogoutDevice | src/main/java/com/bssm/meal/user/controller/UserController.java:176-184 | always 200; the token is deleted only when it is neither null nor empty |
| UserEndpoints.LoggedOutTokenIsGone | src/main/java/com/bssm/meal/user/controller/UserController.java:176-184 | after logging a device out no user is pushed on that token, and every other token stays |
| UserEndpoints.DeleteAccount | src/main/java/com/bssm/meal/user/controller/UserController.java:190-225 | no authentication gives 401 and an unknown email 404, both with nothing changed; otherwise 200 after the deletion as written: the account, the likes under its id and every comment under its display name are gone, and the requests stay |
| UserEndpoints.DeletedAccountIsGone | src/main/java/com/bssm/meal/user/controller/UserController.java:190-225 | a deleted account can no longer load its profile |
| UserEndpoints.RequestDeletion | src/main/java/com/bssm/meal/user/controller/UserController.java:231-259 | a null or blank email gives 400 and stores nothing; otherwise 200 and a PENDING request is stored |
| UserEndpoints.RequestJoinsPending | src/main/java/com/bssm/meal/user/controller/UserController.java:231-259 | an accepted request is the one new entry of the pending queue |
| Jwt.PayloadJson | src/main/java/com/bssm/meal/auth/jwt/JwtProvider.java:21 | the payload text starts with `{"sub":"` followed by the name exactly as given, with no escaping, and its length is fixed by the name, role and expiry digits |
| Jwt.GenerateToken | src/main/java/com/bssm/meal/auth/jwt/JwtProvider.java:14-29 | the token is the encoded header and encoded payload joined by '.', followed by '.' and the signature of exactly those two segments |
| Jwt.TokenHasThreeSegments | src/main/java/com/bssm/meal/auth/jwt/JwtProvider.java:14-29 | a generated token splits into exactly three segments; the third is the signature of the first two, and the second decodes to the payload with an expiry one hour after issue |
| Jwt.PayloadOf | src/main/java/com/bssm/meal/auth/jwt/JwtProvider.java:34 | the second segment is decoded; a token with fewer than two segments has no payload |
| Jwt.RoleClaim | src/main/java/com/bssm/meal/auth/jwt/JwtProvider.java:37-48 | a payload without the role key gives "USER"; any other result is quote-free and sits in the payload between the role key and a closing quote |
| Jwt.GetRole | src/main/java/com/bssm/meal/auth/jwt/JwtProvider.java:32-53 | an undecodable token gives "USER"; otherwise the role claim of its payload |
| Jwt.SubjectClaim | src/main/java/com/bssm/meal/auth/jwt/JwtProvider.java:81-83 | a name read back is quote-free, and when the key is present it sits between the subject key and a closing quote |
| Jwt.GetUsername | src/main/java/com/bssm/meal/auth/jwt/JwtProvider.java:78-87 | an undecodable token gives null; otherwise the subject claim of its payload |
| Jwt.ExpClaim | src/main/java/com/bssm/meal/auth/jwt/JwtProvider.java:67-71 | an expiry read back lies within the signed 64-bit range |
| Jwt.ValidateToken | src/main/java/com/bssm/meal/auth/jwt/JwtProvider.java:56-76 | a token without exactly three segments, or whose third segment is not the signature of the first two, is refused; an accepted token has a readable expiry later than now |
| Jwt.UsernameRoundTrip | src/main/java/com/bssm/meal/auth/jwt/JwtProvider.java:14-29 | getUsername gives back the quote-free name a token was generated for |
| Jwt.RoleRoundTrip | src/main/java/com/bssm/meal/auth/jwt/JwtProvider.java:32-53 | getRole gives back the role a token was generated with, when name and role are quote-free |
| Jwt.FreshTokenValid | src/main/java/com/bssm/meal/auth/jwt/JwtProvider.java:56-76 | a generated token validates exactly while its hour has not run out |
| Jwt.TamperedPayloadRejected | src/main/java/com/bssm/meal/auth/jwt/JwtProvider.java:61-62 | replacing the payload segment makes the token invalid whenever the signature of the new segments differs |
| Jwt.InjectedNameSetsRole | src/main/java/com/bssm/meal/auth/jwt/JwtProvider.java:21 | as written, a name that closes its own string and adds a role claim makes getRole return "ADMIN" whatever role the token was issued with |
| Jwt.InjectedRoleClaim | src/main/java/com/bssm/meal/auth/jwt/JwtProvider.java:37-46 | any payload beginning like the injected one yields the role "ADMIN" |
| Jwt.GenerateTokenSafely | src/main/java/com/bssm/meal/auth/jwt/JwtProvider.java:14-29 | a name or role holding a quote or a backslash is refused with IllegalArgument; every other pair gives the token the original would give |
| Jwt.SafeTokenReadsBack | src/main/java/com/bssm/meal/auth/jwt/JwtProvider.java:14-87 | every token the careful generator issues reads back with its name and role, and validates exactly for one hour |
| Jwt.ExtractRole | src/main/java/com/bssm/meal/auth/jwt/JwtService.java:110-120 | the result is "ROLE_ADMIN" exactly when the payload decodes and holds the claim `"role":"ADMIN"` or `"role":"ROLE_ADMIN"`, and "ROLE_USER" otherwise |
| Jwt.SuperAdminIsUser | src/main/java/com/bssm/meal/auth/jwt/JwtService.java:114-116 | example, documentation only: a role that only contains "ADMIN" inside a longer word is treated as a plain user |
| Jwt.OpenPathsSkipFilter | src/main/java/com/bssm/meal/auth/jwt/JwtAuthFilter.java:37-39 | every path under one of the three open prefixes skips the filter, for any method |
| Jwt.PreflightAndLookalikes | src/main/java/com/bssm/meal/auth/jwt/JwtAuthFilter.java:27-40 | examples, documentation only: a preflight in lower case still skips the filter, and "/api/auth" without the trailing slash is filtered |
| Jwt.BearerToken | src/main/java/com/bssm/meal/auth/jwt/JwtAuthFilter.java:53-58 | a token is taken exactly when the header is present and starts with "Bearer ", and the header is "Bearer " followed by the token |
| Jwt.BearerTokenRoundTrip | src/main/java/com/bssm/meal/auth/jwt/JwtAuthFilter.java:58 | whatever follows "Bearer " is taken as the token |
| Jwt.Authority | src/main/java/com/bssm/meal/auth/jwt/JwtAuthFilter.java:68-71 | the authority always starts with "ROLE_"; a null or blank role becomes "ROLE_USER", a prefixed role is kept, and any other role gets the prefix |
| Jwt.AuthorityIdempotent | src/main/java/com/bssm/meal/auth/jwt/JwtAuthFilter.java:71 | mapping an authority again changes nothing |
| Jwt.ExtractedRoleIsAuthority | src/main/java/com/bssm/meal/auth/jwt/JwtAuthFilter.java:65-71 | the role extractRole reports passes through the prefixing unchanged |
| Jwt.FilterRequest | src/main/java/com/bssm/meal/auth/jwt/JwtAuthFilter.java:42-93 | without a bearer token the context is untouched; a subject that cannot be read clears it; an existing authentication is kept or cleared, never replaced; a new one needs an empty context, a valid token, its subject as the email and the extracted role as authority |
| Jwt.AcceptedTokenAuthenticates | src/main/java/com/bssm/meal/auth/jwt/JwtAuthFilter.java:60-82 | a bearer token the library accepts authenticates an anonymous request as its subject, with "ROLE_ADMIN" or "ROLE_USER" |
| Jwt.ExistingAuthenticationKept | src/main/java/com/bssm/meal/auth/jwt/JwtAuthFilter.java:53-90 | an authentication already in place stays exactly when there is no bearer token or its subject can be read |
| AdminFiles.UploadAppFile | src/main/java/com/bssm/meal/admin/service/AdminNotificationService.java:46-67 | a null or empty file is refused with IllegalArgument; otherwise the file is written under the lower-cased type, replacing any earlier one, and the returned URL is "/uploads/" followed by exactly that file's path |
| AdminFiles.UploadMatchesDownload | src/main/java/com/bssm/meal/admin/service/AdminNotificationService.java:62 | the URL an upload returns is the one downloads of that type are sent to, and deleting by it would target the uploaded file |
| AdminFiles.SpellingsShareCounter | src/main/java/com/bssm/meal/admin/service/AdminNotificationService.java:49 | two spellings of a type share an upload folder exactly when they share a download counter (lines 74 and 85) |
| AdminFiles.Download | src/main/java/com/bssm/meal/admin/service/AdminNotificationService.java:73-86 | the download URL is returned; the counter under the upper-cased type exists afterwards, goes up by one and is stamped with the time, and every other counter is unchanged |
| AdminFiles.DownloadAll | src/main/java/com/bssm/meal/admin/service/AdminNotificationService.java:73-86 | repeated downloads keep every counter stored under its own key |
| AdminFiles.DownloadsAreCounted | src/main/java/com/bssm/meal/admin/domain/AppDownloadStats.java:22-30 | after a run of downloads each counter has grown by the number of downloads of its type, and a counter exists exactly when it existed before or its type was downloaded |
| AdminFiles.Extension | src/main/java/com/bssm/meal/admin/service/AdminNotificationService.java:178-180 | the kept extension is empty or a '.' followed by no other '.', and it is a suffix of the original name; a name holding a '.' always keeps one |
| AdminFiles.ExtensionOfDotted | src/main/java/com/bssm/meal/admin/service/AdminNotificationService.java:179-180 | a name of the form stem.ext keeps ".ext", whatever dots the stem holds |
| AdminFiles.SaveNoticeFile | src/main/java/com/bssm/meal/admin/service/AdminNotificationService.java:169-192 | no file gives no URL and no change; otherwise the image is written under "notices/" as the random name plus the extension, the copy fails exactly when that name exists already, and the URL returned names the file written |
| AdminFiles.DeletionTarget | src/main/java/com/bssm/meal/admin/service/AdminNotificationService.java:195-198 | a null URL or one outside "/uploads/" names no file; otherwise the file is what follows "/uploads/" |
| AdminFiles.DeleteActualFile | src/main/java/com/bssm/meal/admin/service/AdminNotificationService.java:194-204 | only the file the URL names is removed, and nothing happens for a URL that names none |
| AdminFiles.SavedImageIsDeletable | src/main/java/com/bssm/meal/admin/service/AdminNotificationService.java:162 | deleting by the URL a save returned removes exactly the file that save wrote |
| AdminFiles.FindNotice | src/main/java/com/bssm/meal/admin/service/AdminNotificationService.java:110 | the position found holds the first notice with the id; none found means no notice has it |
| AdminFiles.GetNotice | src/main/java/com/bssm/meal/admin/service/AdminNotificationService.java:109-112 | an unknown id is refused with IllegalArgument; otherwise a stored notice with that id is returned |
| AdminFiles.AllNotices | src/main/java/com/bssm/meal/admin/service/AdminNotificationService.java:104-106 | exactly the notices of type "NOTICE" are listed |
| AdminFiles.SaveNotice | src/main/java/com/bssm/meal/admin/service/AdminNotificationService.java:115-138 | the save fails exactly when the image copy fails; otherwise one notice with a fresh id, the given title, content, type and time is appended, carrying the URL of the saved image exactly when a file came |
| AdminFiles.UpdateNotice | src/main/java/com/bssm/meal/admin/service/AdminNotificationService.java:141-155 | an unknown id is refused with the board unchanged; otherwise only the notice's title and content change, and with a new file the old image is deleted before the new one is saved and linked; when that save fails the notice rows roll back but the old image stays deleted, so the notice links a file that is gone |
| AdminFiles.DeleteNotice | src/main/java/com/bssm/meal/admin/service/AdminNotificationService.java:158-164 | an unknown id is refused with IllegalArgument; otherwise the notice leaves the board and its image leaves the disk |
| AdminFiles.SaveThenDeleteFile | src/main/java/com/bssm/meal/admin/service/AdminNotificationService.java:169-203 | deleting the URL an image save returned leaves the upload directory as it was before the save |
| AdminFiles.DeleteUndoesSave | src/main/java/com/bssm/meal/admin/service/AdminNotificationService.java:115-164 | posting a notice and deleting it again leaves the board and the upload directory as they were |
| AdminFiles.ResolveSubscriber | src/main/java/com/bssm/meal/admin/controller/NoticeController.java:93-111 | an identifier holding '@' resolves exactly when a user has that email; any other resolves exactly when it parses as a Long naming a user's id; every failure is IllegalArgument and every success is a stored user's id |
| AdminFiles.EitherIdentifierReachesUser | src/main/java/com/bssm/meal/admin/controller/NoticeController.java:97-108 | a user with a unique email and id is reached both by the email and by the decimal id |
| AdminFiles.IntToStringHasNoAt | src/main/java/com/bssm/meal/admin/controller/NoticeController.java:97 | a decimal id never takes the email branch |

## Left out

- Server-sent events: the emitter map, `subscribe`, `sendSseNotification` and the after-commit hook of `AdminNotificationService` are I/O. Only the choice of subscriber (`AdminFiles.ResolveSubscriber`) is modelled.
- File contents, directory creation and the upload base directory are I/O. The disk is the set of relative paths, and the random UUID of a notice image is an argument.
- `getLatestNotice` and `getAllDownloadStats` are plain repository reads.
- The newest-first order of listings is not modelled; `AdminFiles.AllNotices` states membership only.
- Transactions and rollback: a call's writes take effect in code order. Only six places model what a failure or a read-only transaction keeps. `Alarm.MealAlarm` rolls the whole trigger back when the push to one token row's owner throws. `Alarm.AlarmReservedPoll` rolls the whole poll back when a due alarm's dispatch or mark-sent save throws. In both, multicasts already handed to Firebase stay sent. `AdminFiles.UpdateNotice` rolls the notice row back when the new image cannot be saved, but the old image stays deleted. `LockGate.SendNotification` keeps the admin push's messages but not its row when the admin push's own history save throws, and keeps both when the later save of the gate's record throws. `UserEndpoints.Me` stores nothing, because its transaction is read-only. `UserEndpoints.RegisterToken` keeps nothing when `findByToken` meets several rows. Elsewhere, apart from the two read-only services named below, a failing call is an error with no writes, and isolation between concurrent calls is not modelled.
- Alarm.MealAlarm: a failure of the campaign-record save after the loop is not modelled; that save is taken to succeed.
- Alarm.AlarmReservedPoll: which repository read or save inside a dispatch throws is not modelled; a call either throws before sending anything or after its multicast went out.
- History rows and campaigns are stored in the same `admin_notifications` table (NotificationHistory.java:12 and AdminNotification.java:13), but the model keeps them apart, as `Fcm.Effects.history` and the campaign store. This is safe for the minute polls: every history row is saved with `sent` set to true (NotificationHistory.java:53 and :66-68, stated by `Entities.BuildHistory` and `Entities.HistoryOnCreate`), and both polls ask only for unsent rows, so neither ever finds one due.
- FilteredAlerts.SendFiltered: the source runs under a read-only transaction, and the history row each push saves joins it. The model keeps those rows, which assumes a database that accepts writes in a read-only transaction. A database that refuses them would throw at the first save, after the first multicast, and end the loop there.
- MealNotifications.ProcessMealSpecific: the same read-only transaction and the same assumption about its history rows as `FilteredAlerts.SendFiltered`.
- Comments.SearchComments: a page lists the matches in table order; the default sort by `createdAt`, newest first (CommentController.java:56), and any other requested sort are not modelled. An unpaged `Pageable` is not modelled either.
- Accounts.PendingDeleteRequests: the PENDING rows come back in stored order; the newest-first ordering by `requestedAt` is not modelled.
- AdminFiles.ResolveSubscriber: `Text.ParseLong` accepts ASCII digits only, while `Long.parseLong` also accepts other Unicode decimal digits, such as the full-width '１'. An identifier written with such digits is refused here but resolved by the source.
- Jwt.ExpClaim: reads the expiry through the same ASCII-only `Text.ParseLong`; an expiry written with other Unicode decimal digits is refused here but accepted by the source.
- Sending e-mail, the Firebase SDK, Redis, HMAC-SHA256 and base64url are parameters with the properties the proofs need stated as preconditions. Redis `setIfAbsent` is taken to be atomic.
- The JJWT parsing behind `JwtService.extractEmail` and `isTokenValid` is the `Verifier` parameter of `Jwt.FilterRequest`. `JwtService.generateToken` is not modelled, since it only calls the library.
- `JwtProvider` has no caller in the repository. It is modelled because its string handling is where the injection finding lies.
- SQL `LIKE` wildcards inside search text and database collation are not modelled; `LIKE %x%` is substring containment.
- Upper- and lower-casing, and `equalsIgnoreCase`, act on ASCII letters only.
- Dates outside the years 1 to 9999 are not modelled.
- `getBytes` and `new String` are treated as the identity: the model works on characters, not on the UTF-8 bytes.
- The NEIS menu fetch is I/O; the menu text is an argument.
- The weekly trend statistics and `AdminAppController` are not part of this model.
- `UserService.getUserById`, `getAllUsers`, `findById`, `existsByEmail` and `getUserInfo`, and `MealNotificationService.getNotificationStats`, are plain reads with no logic of their own.
- The most-liked meals (`topMeals`) part of `CommentService.getCommentStats` is a grouped database query and is not modelled.
- A repository `deleteById` on an id that is not stored is modelled as doing nothing.
- The test push with a null body is not modelled, and neither is the scheduler label that only reaches the log.
- Logging is not modelled.
- Jwt.FreshTokenValid: proved only for an expiry inside the signed 64-bit range, because `Long.parseLong` refuses anything wider and the model does not wrap `currentTimeMillis() + validity`.
- Jwt.SafeTokenReadsBack: proved under the same 64-bit range condition on the expiry.
- AdminFiles.DownloadsAreCounted: proved only while no counter reaches the `Long` limit. Beyond it, `downloadCount++` wraps; the wrap itself is in `Entities.LongIncrement`, which `AdminFiles.Download` uses.

## Findings

| source | as written | input that shows it | evidently intended | confidence | as-written member | corrected member |
|---|---|---|---|---|---|---|
| src/main/java/com/bssm/meal/user/service/UserService.java:126 | deleting an account deletes every comment whose display name equals the user's name (CommentRepository.java:78-81) | two accounts both named "김철수"; deleting one removes the other's comments too | delete the comments written under the deleted account's e-mail | not executed | Accounts.DeletionTakesNamesakesComments | Accounts.DeletionKeepsOthers |
| src/main/java/com/bssm/meal/auth/jwt/JwtProvider.java:21 | the name and role are pasted into the JSON payload without escaping, and getRole reads the first role key (lines 37-46) | the name `a","role":"ADMIN` issued with role "USER" reads back as role "ADMIN" | refuse, or escape, a name or role that holds a quote or a backslash | not executed | Jwt.InjectedNameSetsRole | Jwt.SafeTokenReadsBack |

The endpoints that delete accounts, `Accounts.ProcessDeleteRequest` and `UserEndpoints.DeleteAccount`, keep the deletion as written (`Accounts.DeleteUserAndAllDataByName`), because that is what the service does today. `Accounts.DeleteUserAndAllData` is the corrected deletion, and `Accounts.DeletionKeepsOthers` is proved about it.
