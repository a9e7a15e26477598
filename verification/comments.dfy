/** `CommentService`: comments on a dish, saved under the author's display
    name, and the administrator's comment search, whose blank parameters
    mean "no filter". */
module Comments {
  import opened Base
  import opened Text
  import opened Seqs
  import opened Users

  /** A comment row. `username` is the display name at the time of writing. */
  datatype Comment = Comment(
    id: int,
    mealDate: Option<string>,
    mealType: Option<string>,
    mealKey: Option<string>,
    content: Option<string>,
    username: Option<string>,
    email: Option<string>,
    createdAt: Option<Instant>)

  /** The fields of a posted comment that `save` copies. */
  datatype CommentInput = CommentInput(mealDate: Option<string>, mealType: Option<string>,
                                       mealKey: Option<string>, content: Option<string>)

  /** A comment as handed back; `createdAt` is rendered text or null, and
      `mealKey` is filled in by the dish listing only. */
  datatype CommentView = CommentView(id: int, mealDate: Option<string>, mealType: Option<string>,
                                     mealKey: Option<string>, content: Option<string>,
                                     username: Option<string>, email: Option<string>,
                                     createdAt: Option<string>)

  const ANONYMOUS := "익명"
  const BY_NAME := "username"
  const BY_EMAIL := "email"

  // ---------------------------------------------------------------------
  // save
  // ---------------------------------------------------------------------

  /** The name a comment is saved under: the author's name, or "익명" when
      the email is unknown or the user has no name (`Optional.map` of a
      null name is empty). */
  function AuthorName(users: seq<User>, email: string): (r: string)
    ensures FindByEmail(users, email).Some? && FindByEmail(users, email).value.name.Some? ==>
              r == FindByEmail(users, email).value.name.value
    ensures FindByEmail(users, email).None? ==> r == ANONYMOUS
    ensures r != ANONYMOUS ==> exists i :: 0 <= i < |users| && users[i].email == email && users[i].name == Some(r)
  {
    var found := FindByEmail(users, email);
    if found.Some? && found.value.name.Some? then found.value.name.value else ANONYMOUS
  }

  /** `save`: appends one row with the next id, the posted meal fields, the
      author's name and the email exactly as given, stamped `now`. */
  function SaveComment(comments: seq<Comment>, users: seq<User>, input: CommentInput, email: string,
                       now: Instant): (r: seq<Comment>)
    ensures |r| == |comments| + 1 && r[..|comments|] == comments
    ensures var c := r[|comments|];
            && c.email == Some(email) && c.username == Some(AuthorName(users, email))
            && c.mealDate == input.mealDate && c.mealType == input.mealType
            && c.mealKey == input.mealKey && c.content == input.content
            && c.createdAt == Some(now)
            && forall i :: 0 <= i < |comments| ==> comments[i].id != c.id
  {
    var id := NextKey(Map(comments, (c: Comment) => c.id));
    comments + [Comment(id, input.mealDate, input.mealType, input.mealKey, input.content,
                        Some(AuthorName(users, email)), Some(email), Some(now))]
  }

  // ---------------------------------------------------------------------
  // searchComments
  // ---------------------------------------------------------------------

  /** The four parameters `findAdminComments` receives. */
  datatype Filters = Filters(username: Option<string>, email: Option<string>,
                             mealDate: Option<string>, mealType: Option<string>)

  /** A keyword that is null or trims to nothing counts as absent. */
  function SearchKeyword(keyword: Option<string>): (r: Option<string>)
    ensures r.None? <==> keyword.None? || IsBlank(keyword.value)
    ensures r.Some? ==> r == keyword
  {
    if keyword.None? || IsBlank(keyword.value) then None else keyword
  }

  /** An empty date or meal type means no filter. */
  function EmptyAsNull(s: Option<string>): (r: Option<string>)
    ensures r.None? <==> s.None? || s.value == []
    ensures r.Some? ==> r == s
  {
    if s.None? || s.value == [] then None else s
  }

  /** The parameter normalisation of `searchComments`: the keyword goes to
      the name filter for type "username", to the email filter for type
      "email", and nowhere for any other type. */
  function SearchFilters(searchType: Option<string>, keyword: Option<string>, mealDate: Option<string>,
                         mealType: Option<string>): (f: Filters)
    ensures searchType == Some(BY_NAME) ==> f.username == SearchKeyword(keyword) && f.email.None?
    ensures searchType == Some(BY_EMAIL) ==> f.email == SearchKeyword(keyword) && f.username.None?
    ensures searchType != Some(BY_NAME) && searchType != Some(BY_EMAIL) ==> f.username.None? && f.email.None?
    ensures SearchKeyword(keyword).None? ==> f.username.None? && f.email.None?
    ensures f.mealDate == EmptyAsNull(mealDate) && f.mealType == EmptyAsNull(mealType)
  {
    var k := SearchKeyword(keyword);
    Filters(if searchType == Some(BY_NAME) then k else None,
            if searchType == Some(BY_EMAIL) then k else None,
            EmptyAsNull(mealDate), EmptyAsNull(mealType))
  }

  /** `(:p IS NULL OR :p = '' OR col LIKE %:p%)`; a null column matches no
      pattern. */
  predicate LikeFilter(p: Option<string>, col: Option<string>) {
    p.None? || p.value == [] || (col.Some? && Contains(col.value, p.value))
  }

  /** `(:p IS NULL OR :p = '' OR col = :p)`. */
  predicate EqualFilter(p: Option<string>, col: Option<string>) {
    p.None? || p.value == [] || col == p
  }

  predicate Selected(f: Filters, c: Comment) {
    LikeFilter(f.username, c.username) && LikeFilter(f.email, c.email)
    && EqualFilter(f.mealDate, c.mealDate) && EqualFilter(f.mealType, c.mealType)
  }

  /** The view `searchComments` builds: no meal key, and a missing time
      renders as "". */
  function SearchView(c: Comment, show: Instant -> string): (v: CommentView)
    ensures v.id == c.id && v.username == c.username && v.email == c.email && v.content == c.content
    ensures v.mealDate == c.mealDate && v.mealType == c.mealType && v.mealKey.None?
    ensures c.createdAt.None? ==> v.createdAt == Some("")
    ensures c.createdAt.Some? ==> v.createdAt == Some(show(c.createdAt.value))
  {
    CommentView(c.id, c.mealDate, c.mealType, None, c.content, c.username, c.email,
                Some(if c.createdAt.Some? then show(c.createdAt.value) else ""))
  }

  /** The view `findComments` builds: the meal key copied, and a missing
      time left null. */
  function ListView(c: Comment, show: Instant -> string): (v: CommentView)
    ensures v.id == c.id && v.username == c.username && v.email == c.email && v.content == c.content
    ensures v.mealDate == c.mealDate && v.mealType == c.mealType && v.mealKey == c.mealKey
    ensures c.createdAt.None? ==> v.createdAt.None?
    ensures c.createdAt.Some? ==> v.createdAt == Some(show(c.createdAt.value))
  {
    CommentView(c.id, c.mealDate, c.mealType, c.mealKey, c.content, c.username, c.email,
                if c.createdAt.Some? then Some(show(c.createdAt.value)) else None)
  }

  /** `findAdminComments` before paging, mapped to views: the rows the
      normalised filters select, in table order. */
  function AdminMatches(comments: seq<Comment>, searchType: Option<string>, keyword: Option<string>,
                          mealDate: Option<string>, mealType: Option<string>,
                          show: Instant -> string): (r: seq<CommentView>)
    ensures |r| <= |comments|
    ensures forall v :: v in r ==> exists i :: 0 <= i < |comments| && v == SearchView(comments[i], show)
                                      && Selected(SearchFilters(searchType, keyword, mealDate, mealType), comments[i])
    ensures forall i :: 0 <= i < |comments| && Selected(SearchFilters(searchType, keyword, mealDate, mealType), comments[i])
              ==> SearchView(comments[i], show) in r
  {
    var f := SearchFilters(searchType, keyword, mealDate, mealType);
    var hits := Filter(comments, (c: Comment) => Selected(f, c));
    var r := Map(hits, (c: Comment) => SearchView(c, show));
    forall v | v in r
      ensures exists i :: 0 <= i < |comments| && v == SearchView(comments[i], show) && Selected(f, comments[i])
    {
      var k :| 0 <= k < |r| && r[k] == v;
      assert hits[k] in comments && Selected(f, hits[k]);
      var i :| 0 <= i < |comments| && comments[i] == hits[k];
      assert v == SearchView(comments[i], show);
    }
    forall i | 0 <= i < |comments| && Selected(f, comments[i]) ensures SearchView(comments[i], show) in r {
      assert comments[i] in hits;
      var k :| 0 <= k < |hits| && hits[k] == comments[i];
      assert r[k] == SearchView(comments[i], show);
    }
    r
  }

  /** A `Pageable`'s page size, which `PageRequest` keeps at one or more. */
  type PageSize = n: int | n >= 1 witness 1

  /** A `Page`: the views on the requested page and the number of matches
      over all pages. */
  datatype CommentPage = CommentPage(content: seq<CommentView>, totalElements: nat)

  /** The number of entries on the pages before page `page`. */
  function Offset(page: nat, size: PageSize): nat {
    if page == 0 then 0 else Offset(page - 1, size) + size
  }

  lemma {:induction false} OffsetIsProduct(page: nat, size: PageSize)
    ensures Offset(page, size) == page * size
  {
    if page > 0 {
      OffsetIsProduct(page - 1, size);
    }
  }

  /** `content` is page `page`, of `size` entries each, of `all`: at most
      `size` entries, the ones that follow the earlier pages, and a full page
      unless the list runs out. */
  predicate IsPage<T(==)>(content: seq<T>, all: seq<T>, page: nat, size: PageSize) {
    var from := Offset(page, size);
    && |content| <= size
    && (forall k :: 0 <= k < |content| ==> from + k < |all| && content[k] == all[from + k])
    && (from + size <= |all| ==> |content| == size)
    && (from <= |all| <= from + size ==> |content| == |all| - from)
    && (|all| <= from ==> content == [])
  }

  /** Page `page`, of `size` entries each, of `all`. */
  function PageOf<T(==)>(all: seq<T>, page: nat, size: PageSize): (r: seq<T>)
    ensures IsPage(r, all, page, size)
  {
    var from := if Offset(page, size) < |all| then Offset(page, size) else |all|;
    var to := if from + size < |all| then from + size else |all|;
    all[from..to]
  }

  /** The page that holds entry `k`, and the entry's place on it. */
  function PageIndex(k: nat, size: PageSize): nat { k / size }
  function Slot(k: nat, size: PageSize): nat { k % size }

  /** Entry `k` of `all` is entry `k % size` of page `k / size`. */
  lemma EntryOnItsPage<T>(content: seq<T>, all: seq<T>, size: PageSize, k: nat)
    requires IsPage(content, all, PageIndex(k, size), size) && k < |all|
    ensures Slot(k, size) < |content| && content[Slot(k, size)] == all[k]
  {
    var from := Offset(k / size, size);
    OffsetIsProduct(k / size, size);
    assert from + k % size == k && k % size < size;
    if from + size <= |all| {
      assert |content| == size;
    } else {
      assert |content| == |all| - from;
    }
  }

  /** `searchComments`: page `page`, of `size` views each, of the matches.
      A page past the last match is empty but still reports the total. */
  function SearchComments(comments: seq<Comment>, searchType: Option<string>, keyword: Option<string>,
                          mealDate: Option<string>, mealType: Option<string>, page: nat, size: PageSize,
                          show: Instant -> string): (p: CommentPage)
    ensures var all := AdminMatches(comments, searchType, keyword, mealDate, mealType, show);
            p.totalElements == |all| && IsPage(p.content, all, page, size)
  {
    var all := AdminMatches(comments, searchType, keyword, mealDate, mealType, show);
    CommentPage(PageOf(all, page, size), |all|)
  }

  /** Every match is on exactly one page: match `k` is entry `k % size` of
      page `k / size`. */
  lemma EveryMatchOnItsPage(comments: seq<Comment>, searchType: Option<string>, keyword: Option<string>,
                            mealDate: Option<string>, mealType: Option<string>, size: PageSize,
                            show: Instant -> string, k: nat)
    requires k < |AdminMatches(comments, searchType, keyword, mealDate, mealType, show)|
    ensures var p := SearchComments(comments, searchType, keyword, mealDate, mealType, PageIndex(k, size), size, show);
            Slot(k, size) < |p.content|
            && p.content[Slot(k, size)] == AdminMatches(comments, searchType, keyword, mealDate, mealType, show)[k]
  {
    var all := AdminMatches(comments, searchType, keyword, mealDate, mealType, show);
    var p := SearchComments(comments, searchType, keyword, mealDate, mealType, PageIndex(k, size), size, show);
    EntryOnItsPage(p.content, all, size, k);
  }

  /** A blank keyword makes the search type irrelevant. */
  lemma BlankKeywordIgnoresType(comments: seq<Comment>, t1: Option<string>, t2: Option<string>, keyword: Option<string>,
                                mealDate: Option<string>, mealType: Option<string>, show: Instant -> string)
    requires keyword.None? || IsBlank(keyword.value)
    ensures AdminMatches(comments, t1, keyword, mealDate, mealType, show)
            == AdminMatches(comments, t2, keyword, mealDate, mealType, show)
  {
  }

  /** With type "username" and a keyword with text, a row whose name
      contains the keyword and that the date and meal filters admit is
      found, and every row found has a name containing the keyword; the
      email is not consulted. */
  lemma SearchByName(comments: seq<Comment>, keyword: string, mealDate: Option<string>,
                     mealType: Option<string>, show: Instant -> string, i: int)
    requires !IsBlank(keyword) && 0 <= i < |comments|
    ensures var c := comments[i];
            var r := AdminMatches(comments, Some(BY_NAME), Some(keyword), mealDate, mealType, show);
            && ((c.username.Some? && Contains(c.username.value, keyword)
                 && EqualFilter(mealDate, c.mealDate) && EqualFilter(mealType, c.mealType))
                ==> SearchView(c, show) in r)
            && forall v :: v in r ==> v.username.Some? && Contains(v.username.value, keyword)
  {
    var f := SearchFilters(Some(BY_NAME), Some(keyword), mealDate, mealType);
    assert keyword != [];
    var c := comments[i];
    if c.username.Some? && Contains(c.username.value, keyword)
       && EqualFilter(mealDate, c.mealDate) && EqualFilter(mealType, c.mealType) {
      assert Selected(f, c);
    }
  }

  /** `findComments`: the rows of one dish, as views. */
  function FindComments(comments: seq<Comment>, mealDate: Option<string>, mealType: Option<string>,
                        mealKey: Option<string>, show: Instant -> string): (r: seq<CommentView>)
    ensures |r| <= |comments|
    ensures forall v :: v in r ==> exists i :: 0 <= i < |comments| && v == ListView(comments[i], show)
                                      && comments[i].mealDate == mealDate && comments[i].mealType == mealType
                                      && comments[i].mealKey == mealKey
    ensures forall i :: (0 <= i < |comments| && comments[i].mealDate == mealDate && comments[i].mealType == mealType
                         && comments[i].mealKey == mealKey) ==> ListView(comments[i], show) in r
  {
    var hits := Filter(comments, (c: Comment) => c.mealDate == mealDate && c.mealType == mealType && c.mealKey == mealKey);
    var r := Map(hits, (c: Comment) => ListView(c, show));
    forall v | v in r
      ensures exists i :: 0 <= i < |comments| && v == ListView(comments[i], show)
                          && comments[i].mealDate == mealDate && comments[i].mealType == mealType
                          && comments[i].mealKey == mealKey
    {
      var k :| 0 <= k < |r| && r[k] == v;
      var i :| 0 <= i < |comments| && comments[i] == hits[k];
    }
    forall i | 0 <= i < |comments| && comments[i].mealDate == mealDate && comments[i].mealType == mealType
                 && comments[i].mealKey == mealKey
      ensures ListView(comments[i], show) in r
    {
      var k :| 0 <= k < |hits| && hits[k] == comments[i];
      assert r[k] == ListView(comments[i], show);
    }
    r
  }

  /** The two listings show a comment alike except in two fields: the
      dish listing carries the meal key where the search has null, and a
      missing time is null in the dish listing and "" in the search. */
  lemma ViewsDifferOnKeyAndTime(c: Comment, show: Instant -> string)
    ensures ListView(c, show).(createdAt := None, mealKey := None)
            == SearchView(c, show).(createdAt := None, mealKey := None)
    ensures c.createdAt.None? ==> ListView(c, show).createdAt != SearchView(c, show).createdAt
    ensures c.mealKey.Some? ==> ListView(c, show).mealKey != SearchView(c, show).mealKey
    ensures c.createdAt.Some? && c.mealKey.None? ==> ListView(c, show) == SearchView(c, show)
  {
  }

  // ---------------------------------------------------------------------
  // deleteComment, getCommentStats
  // ---------------------------------------------------------------------

  /** `deleteComment`: the row with that id goes, every other row stays in
      order; an id no row has leaves the table as it was. */
  function DeleteComment(comments: seq<Comment>, id: int): (r: seq<Comment>)
    ensures IsSubseq(r, comments)
    ensures forall c :: c in r <==> c in comments && c.id != id
    ensures (forall i :: 0 <= i < |comments| ==> comments[i].id != id) ==> r == comments
  {
    var r := Filter(comments, (c: Comment) => c.id != id);
    if forall i :: 0 <= i < |comments| ==> comments[i].id != id then
      FilterAll(comments, (c: Comment) => c.id != id);
      r
    else r
  }

  /** Deleting the comment just saved gives back the table before the save. */
  lemma DeleteUndoesSaveComment(comments: seq<Comment>, users: seq<User>, input: CommentInput, email: string,
                                now: Instant)
    ensures var saved := SaveComment(comments, users, input, email, now);
            DeleteComment(saved, saved[|comments|].id) == comments
  {
    var saved := SaveComment(comments, users, input, email, now);
    var id := saved[|comments|].id;
    var p := (c: Comment) => c.id != id;
    assert saved == comments + [saved[|comments|]];
    FilterAppend(comments, [saved[|comments|]], p);
    FilterAll(comments, p);
    assert Filter([saved[|comments|]], p) == [];
  }

  /** `createdAt > :since`; SQL compares a null time as unknown, so it is
      never after. */
  predicate WrittenAfter(c: Comment, since: Instant) {
    c.createdAt.Some? && c.createdAt.value > since
  }

  /** The positions of the rows written after `since`. */
  function AfterPositions(comments: seq<Comment>, since: Instant): set<int> {
    set i | 0 <= i < |comments| && WrittenAfter(comments[i], since)
  }

  /** `countByCreatedAtAfter`, counted row by row. */
  function CountAfter(comments: seq<Comment>, since: Instant): (n: nat)
    ensures n <= |comments|
  {
    if |comments| == 0 then 0
    else CountAfter(comments[..|comments| - 1], since) + (if WrittenAfter(comments[|comments| - 1], since) then 1 else 0)
  }

  /** The count is the number of rows written after `since`. */
  lemma {:induction false} CountAfterPositions(comments: seq<Comment>, since: Instant)
    ensures CountAfter(comments, since) == |AfterPositions(comments, since)|
  {
    if |comments| > 0 {
      var n := |comments| - 1;
      var init := comments[..n];
      CountAfterPositions(init, since);
      var before, after := AfterPositions(init, since), AfterPositions(comments, since);
      assert forall i :: 0 <= i < n ==> init[i] == comments[i];
      if WrittenAfter(comments[n], since) {
        assert after == before + {n};
      } else {
        assert after == before;
      }
    }
  }

  /** The two counters of `getCommentStats`. */
  datatype CommentStats = CommentStats(totalCount: nat, todayCount: nat)

  /** `getCommentStats` without the top-meal query: every row, and the rows
      written after the start of today. */
  function GetCommentStats(comments: seq<Comment>, startOfDay: Instant): (s: CommentStats)
    ensures s.totalCount == |comments|
    ensures s.todayCount == |AfterPositions(comments, startOfDay)|
    ensures s.todayCount <= s.totalCount
    ensures (forall i :: 0 <= i < |comments| ==> comments[i].createdAt.None?) ==> s.todayCount == 0
  {
    CountAfterNone(comments, startOfDay);
    CountAfterPositions(comments, startOfDay);
    CommentStats(|comments|, CountAfter(comments, startOfDay))
  }

  lemma {:induction false} CountAfterNone(comments: seq<Comment>, since: Instant)
    ensures (forall i :: 0 <= i < |comments| ==> comments[i].createdAt.None?) ==> CountAfter(comments, since) == 0
  {
    if |comments| > 0 {
      CountAfterNone(comments[..|comments| - 1], since);
    }
  }

  /** A comment saved today raises both counters by one; one saved before
      today raises only the total. */
  lemma SaveCommentCounted(comments: seq<Comment>, users: seq<User>, input: CommentInput, email: string,
                           now: Instant, startOfDay: Instant)
    ensures var before := GetCommentStats(comments, startOfDay);
            var after := GetCommentStats(SaveComment(comments, users, input, email, now), startOfDay);
            && after.totalCount == before.totalCount + 1
            && after.todayCount == before.todayCount + (if now > startOfDay then 1 else 0)
  {
    var saved := SaveComment(comments, users, input, email, now);
    assert saved[..|saved| - 1] == comments;
  }
}
