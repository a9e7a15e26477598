/** `UserService`: sign-in upsert, profile update, account deletion with
    everything hanging off the account, and the deletion-request queue
    (PENDING, then PROCESSED or REJECTED). */
module Accounts {
  import opened Base
  import opened Text
  import opened Seqs
  import opened Users
  import opened Likes
  import opened Comments
  import opened Entities

  /** A deletion request with its row id. */
  datatype RequestRow = RequestRow(id: int, request: DeleteRequest)

  /** The tables account deletion touches. */
  datatype Db = Db(users: seq<User>, likes: LikeTable, comments: seq<Comment>, requests: seq<RequestRow>)

  /** The user table's keys: ids and emails (a unique column) occur once. */
  predicate WellKeyed(users: seq<User>) {
    forall i, j :: 0 <= i < j < |users| ==> users[i].id != users[j].id && users[i].email != users[j].email
  }

  function NextUserId(users: seq<User>): (id: int)
    ensures forall i :: 0 <= i < |users| ==> users[i].id < id
  {
    NextKey(Map(users, (u: User) => u.id))
  }

  /** In a well-keyed table the row with a given email is found by
      `findByEmail`. */
  lemma {:induction false} FindByEmailAt(users: seq<User>, i: int)
    requires WellKeyed(users) && 0 <= i < |users|
    ensures FindByEmail(users, users[i].email) == Some(users[i])
  {
    if i > 0 {
      assert users[0].email != users[i].email;
      assert forall a, b :: 0 <= a < b < |users[1..]| ==> users[1..][a] == users[a + 1] && users[1..][b] == users[b + 1];
      FindByEmailAt(users[1..], i - 1);
    }
  }

  /** `FindByEmail` names the row's position. */
  lemma FindByEmailIndex(users: seq<User>, email: string) returns (i: int)
    requires FindByEmail(users, email).Some?
    ensures 0 <= i < |users| && users[i] == FindByEmail(users, email).value && users[i].email == email
  {
    var u := FindByEmail(users, email).value;
    i :| 0 <= i < |users| && users[i] == u;
  }

  /** Replacing a row by a version with the same id and email keeps the
      table well keyed, and that row is what `findByEmail` then returns. */
  lemma StoreSameKeys(users: seq<User>, i: int, v: User)
    requires WellKeyed(users) && 0 <= i < |users| && v.id == users[i].id && v.email == users[i].email
    ensures Store(users, v) == users[i := v]
    ensures WellKeyed(Store(users, v))
    ensures FindByEmail(Store(users, v), v.email) == Some(v)
  {
    var r := Store(users, v);
    assert r == users[i := v];
    FindByEmailAt(r, i);
  }

  // ---------------------------------------------------------------------
  // saveOrUpdate and updateUserInfo
  // ---------------------------------------------------------------------

  /** `saveOrUpdate`: for a known email only name and picture change;
      otherwise a user with the builder defaults is appended. */
  function SaveOrUpdate(users: seq<User>, email: string, name: Option<string>, picture: Option<string>): (r: seq<User>)
    ensures FindByEmail(users, email).None? ==>
              r == users + [NewUser(NextUserId(users), email, name, picture, None)]
    ensures FindByEmail(users, email).Some? ==>
              var u := FindByEmail(users, email).value;
              && |r| == |users|
              && forall i :: 0 <= i < |users| ==>
                   r[i] == if users[i].id == u.id then u.(name := name, picture := picture) else users[i]
  {
    var found := FindByEmail(users, email);
    if found.Some? then Store(users, found.value.(name := name, picture := picture))
    else users + [NewUser(NextUserId(users), email, name, picture, None)]
  }

  /** Signing in keeps the table well keyed, and the account with that email
      afterwards carries the new name and picture. */
  lemma SaveOrUpdateThenFind(users: seq<User>, email: string, name: Option<string>, picture: Option<string>)
    requires WellKeyed(users)
    ensures var r := SaveOrUpdate(users, email, name, picture);
            && WellKeyed(r)
            && FindByEmail(r, email).Some?
            && FindByEmail(r, email).value.name == name && FindByEmail(r, email).value.picture == picture
  {
    var found := FindByEmail(users, email);
    if found.Some? {
      var i := FindByEmailIndex(users, email);
      StoreSameKeys(users, i, found.value.(name := name, picture := picture));
    } else {
      AppendFresh(users, NewUser(NextUserId(users), email, name, picture, None));
    }
  }

  /** A row whose id and email are new keeps the table well keyed and is
      what `findByEmail` returns for its email. */
  lemma AppendFresh(users: seq<User>, v: User)
    requires WellKeyed(users)
    requires forall i :: 0 <= i < |users| ==> users[i].id != v.id && users[i].email != v.email
    ensures WellKeyed(users + [v]) && FindByEmail(users + [v], v.email) == Some(v)
  {
    var r := users + [v];
    forall a, b | 0 <= a < b < |r| ensures r[a].id != r[b].id && r[a].email != r[b].email {
      assert r[a] == users[a];
      if b < |users| {
        assert r[b] == users[b];
      }
    }
    FindByEmailAt(r, |users|);
  }

  /** `updateUserInfo`: an unknown email is refused; otherwise the user gets
      `updateInfo` with the requested lists and flags, and no other row
      changes. */
  function UpdateUserInfo(users: seq<User>, email: string, allergies: Option<seq<string>>,
                          favoriteMenus: Option<seq<string>>, allow: Option<bool>, allowAllergy: Option<bool>,
                          allowFavorite: Option<bool>): (r: Result<seq<User>>)
    ensures FindByEmail(users, email).None? <==> r == Err(IllegalArgument)
    ensures r.Ok? ==>
              var u := FindByEmail(users, email).value;
              && |r.value| == |users|
              && forall i :: 0 <= i < |users| ==>
                   if users[i].id == u.id
                   then r.value[i] == UpdateInfo(u, allergies, favoriteMenus, allow, allowAllergy, allowFavorite)
                   else r.value[i] == users[i]
  {
    var found := FindByEmail(users, email);
    if found.None? then Err(IllegalArgument)
    else Ok(Store(users, UpdateInfo(found.value, allergies, favoriteMenus, allow, allowAllergy, allowFavorite)))
  }

  /** After a profile update the account found under that email carries the
      requested lists and switch, and the table stays well keyed. */
  lemma UpdateUserInfoThenFind(users: seq<User>, email: string, allergies: Option<seq<string>>,
                               favoriteMenus: Option<seq<string>>, allow: Option<bool>, allowAllergy: Option<bool>,
                               allowFavorite: Option<bool>)
    requires WellKeyed(users) && FindByEmail(users, email).Some?
    ensures var r := UpdateUserInfo(users, email, allergies, favoriteMenus, allow, allowAllergy, allowFavorite).value;
            var v := FindByEmail(r, email);
            && WellKeyed(r) && v.Some?
            && v.value.allergies == allergies.GetOr([]) && v.value.favoriteMenus == favoriteMenus.GetOr([])
            && (IsAllowNotifications(v.value) <==> allow == Some(true))
  {
    var i := FindByEmailIndex(users, email);
    var v := UpdateInfo(users[i], allergies, favoriteMenus, allow, allowAllergy, allowFavorite);
    StoreSameKeys(users, i, v);
  }

  // ---------------------------------------------------------------------
  // deleteUserAndAllData
  // ---------------------------------------------------------------------

  /** `DELETE FROM comment WHERE username = :name`: SQL equality, so a null
      name removes nothing. */
  function CommentsWithoutName(comments: seq<Comment>, name: Option<string>): (r: seq<Comment>)
    ensures forall c :: c in r <==> c in comments && (name.None? || c.username != name)
  {
    Filter(comments, (c: Comment) => name.None? || c.username != name)
  }

  /** The comments whose stored email is not the given one. */
  function CommentsWithoutEmail(comments: seq<Comment>, email: string): (r: seq<Comment>)
    ensures forall c :: c in r <==> c in comments && c.email != Some(email)
  {
    Filter(comments, (c: Comment) => c.email != Some(email))
  }

  /** `deleteUserAndAllData` AS WRITTEN: the account, its likes, and every
      comment whose author NAME equals the account's name. */
  function DeleteUserAndAllDataByName(db: Db, email: string): (r: Result<Db>)
    ensures FindByEmail(db.users, email).None? <==> r == Err(NotFound)
    ensures r.Ok? ==>
              var u := FindByEmail(db.users, email).value;
              && r.value.users == Remove(db.users, u.id)
              && r.value.likes == DeleteByUserId(db.likes, IntToString(u.id))
              && r.value.comments == CommentsWithoutName(db.comments, u.name)
              && r.value.requests == db.requests
  {
    var found := FindByEmail(db.users, email);
    if found.None? then Err(NotFound)
    else
      var u := found.value;
      Ok(Db(Remove(db.users, u.id), DeleteByUserId(db.likes, IntToString(u.id)),
            CommentsWithoutName(db.comments, u.name), db.requests))
  }

  /** Two accounts named "Kim": deleting the first also deletes the comment
      the second wrote. */
  lemma DeletionTakesNamesakesComments()
    ensures var kim1 := NewUser(1, "a@x", Some("Kim"), None, None);
            var kim2 := NewUser(2, "b@x", Some("Kim"), None, None);
            var theirs := Comment(7, None, None, None, Some("hi"), Some("Kim"), Some("b@x"), None);
            var r := DeleteUserAndAllDataByName(Db([kim1, kim2], map[], [theirs], []), "a@x");
            && r.Ok? && kim2 in r.value.users && theirs !in r.value.comments
  {
    var kim1 := NewUser(1, "a@x", Some("Kim"), None, None);
    var kim2 := NewUser(2, "b@x", Some("Kim"), None, None);
    var theirs := Comment(7, None, None, None, Some("hi"), Some("Kim"), Some("b@x"), None);
    var db := Db([kim1, kim2], map[], [theirs], []);
    assert FindByEmail(db.users, "a@x") == Some(kim1);
    var r := DeleteUserAndAllDataByName(db, "a@x");
    assert kim2 == db.users[1];
    assert kim2 in r.value.users;
  }

  /** `deleteUserAndAllData` as intended: the account, its likes, and the
      comments stored under its email. */
  function DeleteUserAndAllData(db: Db, email: string): (r: Result<Db>)
    ensures FindByEmail(db.users, email).None? <==> r == Err(NotFound)
    ensures r.Ok? ==>
              var u := FindByEmail(db.users, email).value;
              && r.value.users == Remove(db.users, u.id)
              && r.value.likes == DeleteByUserId(db.likes, IntToString(u.id))
              && r.value.comments == CommentsWithoutEmail(db.comments, email)
              && r.value.requests == db.requests
  {
    var found := FindByEmail(db.users, email);
    if found.None? then Err(NotFound)
    else
      var u := found.value;
      Ok(Db(Remove(db.users, u.id), DeleteByUserId(db.likes, IntToString(u.id)),
            CommentsWithoutEmail(db.comments, email), db.requests))
  }

  /** Deleting an account removes exactly what belongs to it: the account
      itself is gone, and every other account, every like by another user
      and every comment written under another email survives. */
  lemma DeletionKeepsOthers(db: Db, email: string)
    requires WellKeyed(db.users) && FindByEmail(db.users, email).Some?
    ensures var r := DeleteUserAndAllData(db, email).value;
            var u := FindByEmail(db.users, email).value;
            && FindByEmail(r.users, email).None?
            && (forall w :: w in db.users && w.email != email ==> w in r.users)
            && (forall k :: k in db.likes && k.userId != IntToString(u.id) ==> k in r.likes)
            && (forall c :: c in db.comments && c.email != Some(email) ==> c in r.comments)
            && (forall c :: c in r.comments ==> c.email != Some(email))
  {
    var r := DeleteUserAndAllData(db, email).value;
    var u := FindByEmail(db.users, email).value;
    var i := FindByEmailIndex(db.users, email);
    forall w | w in db.users && w.email != email ensures w in r.users {
      var j :| 0 <= j < |db.users| && db.users[j] == w;
      assert j != i;
    }
    forall j | 0 <= j < |r.users| ensures r.users[j].email != email {
      var w := r.users[j];
      var k :| 0 <= k < |db.users| && db.users[k] == w;
      assert k != i;
    }
  }

  // ---------------------------------------------------------------------
  // Deletion requests
  // ---------------------------------------------------------------------

  /** `createDeleteRequest`: a PENDING row with the email and reason, stamped
      `now`, under the next id. */
  function CreateDeleteRequest(requests: seq<RequestRow>, email: string, reason: Option<string>,
                               now: Instant): (r: seq<RequestRow>)
    ensures |r| == |requests| + 1 && r[..|requests|] == requests
    ensures r[|requests|].request == DeleteRequest(email, reason, Some(PENDING), Some(now), None)
    ensures forall i :: 0 <= i < |requests| ==> requests[i].id != r[|requests|].id
  {
    var id := NextKey(Map(requests, (q: RequestRow) => q.id));
    requests + [RequestRow(id, DeleteRequest(email, reason, Some(PENDING), Some(now), None))]
  }

  predicate IsPending(q: RequestRow) {
    q.request.status == Some(PENDING)
  }

  /** `getPendingDeleteRequests`: the PENDING rows. */
  function PendingDeleteRequests(requests: seq<RequestRow>): (r: seq<RequestRow>)
    ensures IsSubseq(r, requests)
    ensures forall q :: q in r <==> q in requests && IsPending(q)
  {
    Filter(requests, IsPending)
  }

  /** The row with that id, if any. */
  function FindRequest(requests: seq<RequestRow>, id: int): (r: Option<RequestRow>)
    ensures r.Some? ==> r.value in requests && r.value.id == id
    ensures r.None? ==> forall i :: 0 <= i < |requests| ==> requests[i].id != id
  {
    if |requests| == 0 then None
    else if requests[0].id == id then Some(requests[0])
    else FindRequest(requests[1..], id)
  }

  /** `processDeleteRequest`: an unknown id is an error. Approval deletes
      the account when one exists, through `deleteUserAndAllData` as
      written (so with every comment under the account's name), and marks
      the row PROCESSED; rejection marks it REJECTED and touches no
      account. Either way the row gets `processedAt`. */
  function ProcessDeleteRequest(db: Db, id: int, approve: bool, now: Instant): (r: Result<Db>)
    ensures FindRequest(db.requests, id).None? <==> r == Err(NotFound)
    ensures r.Ok? ==>
              && |r.value.requests| == |db.requests|
              && (forall i :: 0 <= i < |db.requests| ==>
                    if db.requests[i].id == id then
                      r.value.requests[i] == RequestRow(id, db.requests[i].request.(
                        status := Some(if approve then PROCESSED else REJECTED), processedAt := Some(now)))
                    else r.value.requests[i] == db.requests[i])
    ensures r.Ok? && !approve ==> r.value.users == db.users && r.value.comments == db.comments
                                  && r.value.likes == db.likes
    ensures r.Ok? && approve ==>
              var email := FindRequest(db.requests, id).value.request.email;
              if FindByEmail(db.users, email).Some? then
                var u := FindByEmail(db.users, email).value;
                && r.value.users == Remove(db.users, u.id)
                && r.value.likes == DeleteByUserId(db.likes, IntToString(u.id))
                && r.value.comments == CommentsWithoutName(db.comments, u.name)
              else r.value.users == db.users && r.value.likes == db.likes && r.value.comments == db.comments
  {
    var found := FindRequest(db.requests, id);
    if found.None? then Err(NotFound)
    else
      var q := found.value.request;
      var after :=
        if approve && FindByEmail(db.users, q.email).Some? then DeleteUserAndAllDataByName(db, q.email).value
        else db;
      var status := if approve then PROCESSED else REJECTED;
      var rows := Map(after.requests, (row: RequestRow) =>
        if row.id == id then RequestRow(id, row.request.(status := Some(status), processedAt := Some(now))) else row);
      Ok(after.(requests := rows))
  }

  /** A processed request leaves the pending list, and the status of every
      row stays one of PENDING, PROCESSED and REJECTED. */
  lemma ProcessedLeavesQueue(db: Db, id: int, approve: bool, now: Instant)
    requires ProcessDeleteRequest(db, id, approve, now).Ok?
    requires forall i :: 0 <= i < |db.requests| ==> db.requests[i].request.status in {Some(PENDING), Some(PROCESSED), Some(REJECTED)}
    ensures var r := ProcessDeleteRequest(db, id, approve, now).value;
            && (forall q :: q in PendingDeleteRequests(r.requests) ==> q.id != id)
            && (forall i :: 0 <= i < |r.requests| ==> r.requests[i].request.status in {Some(PENDING), Some(PROCESSED), Some(REJECTED)})
  {
    var r := ProcessDeleteRequest(db, id, approve, now).value;
    MarkedLeavesQueue(db.requests, r.requests, id, if approve then PROCESSED else REJECTED, now);
  }

  /** Marking the rows with one id as closed takes them off the pending
      list and keeps every status among the three. */
  lemma MarkedLeavesQueue(before: seq<RequestRow>, after: seq<RequestRow>, id: int, st: string, now: Instant)
    requires st in {PROCESSED, REJECTED}
    requires |after| == |before|
    requires forall i :: 0 <= i < |before| ==>
               if before[i].id == id then
                 after[i] == RequestRow(id, before[i].request.(status := Some(st), processedAt := Some(now)))
               else after[i] == before[i]
    requires forall i :: 0 <= i < |before| ==> before[i].request.status in {Some(PENDING), Some(PROCESSED), Some(REJECTED)}
    ensures forall q :: q in PendingDeleteRequests(after) ==> q.id != id
    ensures forall i :: 0 <= i < |after| ==> after[i].request.status in {Some(PENDING), Some(PROCESSED), Some(REJECTED)}
  {
    forall q | q in PendingDeleteRequests(after) ensures q.id != id {
      var i :| 0 <= i < |after| && after[i] == q;
    }
  }
}
