/** Meal likes: one row per (user, date, meal type, dish key), with the time
    it was created. The table is a map from that key to the creation time,
    which makes "never two likes for the same key" hold by construction. */
module Likes {
  import opened Base
  import opened Text

  datatype LikeKey = LikeKey(userId: string, mealDate: string, mealType: string, mealKey: string)

  type LikeTable = map<LikeKey, Instant>

  datatype ToggleReply = BadRequest | Liked | Unliked

  /** A user id the controllers treat as absent: null or whitespace-only. */
  predicate IsMissingId(userId: Option<string>) {
    userId.None? || IsBlank(userId.value)
  }

  /** `toggleLike`: a missing user id is refused; an existing like is
      removed; otherwise one is inserted, stamped with `now`. */
  function ToggleLike(likes: LikeTable, userId: Option<string>, mealDate: string, mealType: string,
                      mealKey: string, now: Instant): (r: (ToggleReply, LikeTable))
    ensures IsMissingId(userId) <==> r.0 == BadRequest
    ensures r.0 == BadRequest ==> r.1 == likes
    ensures r.0 != BadRequest ==>
              var k := LikeKey(userId.value, mealDate, mealType, mealKey);
              && (r.0 == Unliked <==> k in likes)
              && (r.0 == Unliked ==> k !in r.1)
              && (r.0 == Liked ==> k in r.1 && r.1[k] == now)
              && (forall other :: other in likes && other != k ==> other in r.1 && r.1[other] == likes[other])
              && (forall other :: other in r.1 && other != k ==> other in likes)
  {
    if IsMissingId(userId) then (BadRequest, likes)
    else
      var k := LikeKey(userId.value, mealDate, mealType, mealKey);
      if k in likes then (Unliked, likes - {k})
      else (Liked, likes[k := now])
  }

  /** Toggling the same like twice restores the set of likes; when the like
      was absent at first, the table itself comes back unchanged. */
  lemma ToggleTwice(likes: LikeTable, userId: Option<string>, mealDate: string, mealType: string,
                    mealKey: string, t1: Instant, t2: Instant)
    ensures var once := ToggleLike(likes, userId, mealDate, mealType, mealKey, t1).1;
            var twice := ToggleLike(once, userId, mealDate, mealType, mealKey, t2).1;
            && twice.Keys == likes.Keys
            && (userId.Some? && LikeKey(userId.value, mealDate, mealType, mealKey) !in likes ==> twice == likes)
  {
    if !IsMissingId(userId) {
      var k := LikeKey(userId.value, mealDate, mealType, mealKey);
      var once := ToggleLike(likes, userId, mealDate, mealType, mealKey, t1).1;
      var twice := ToggleLike(once, userId, mealDate, mealType, mealKey, t2).1;
      if k in likes {
        assert twice == once[k := t2];
      } else {
        assert twice == likes[k := t1] - {k};
      }
    }
  }

  /** `getUserLikes`: nothing for null, "undefined" or "null"; otherwise the
      likes recorded under that user id. */
  function UserLikes(likes: LikeTable, userId: Option<string>): (r: set<LikeKey>)
    ensures userId.None? || userId.value in {"undefined", "null"} ==> r == {}
    ensures forall k :: k in r ==> k in likes && userId == Some(k.userId)
    ensures userId.Some? && userId.value !in {"undefined", "null"} ==>
              forall k :: k in likes && k.userId == userId.value ==> k in r
  {
    if userId.None? || userId.value == "undefined" || userId.value == "null" then {}
    else set k | k in likes && k.userId == userId.value
  }

  /** The likes of one dish over all users, dates and meals. */
  function DishLikes(likes: LikeTable, mealKey: string): set<LikeKey> {
    set k | k in likes && k.mealKey == mealKey
  }

  lemma NoDishLikes(likes: LikeTable, mealKey: string)
    ensures DishLikes(likes, mealKey) == {} <==> forall k :: k in likes ==> k.mealKey != mealKey
  {
    if exists k :: k in likes && k.mealKey == mealKey {
      var k :| k in likes && k.mealKey == mealKey;
      assert k in DishLikes(likes, mealKey);
    }
  }

  /** `countByMealKey`: the number of likes of one dish over all users, dates
      and meals; zero exactly when nobody liked it. */
  function CountByMealKey(likes: LikeTable, mealKey: string): (n: nat)
    ensures n <= |likes.Keys|
    ensures n == 0 <==> forall k :: k in likes ==> k.mealKey != mealKey
  {
    var ks := DishLikes(likes, mealKey);
    assert ks <= likes.Keys;
    SubsetCard(ks, likes.Keys);
    NoDishLikes(likes, mealKey);
    |ks|
  }

  /** A toggle moves its own dish's count by exactly one, up when it likes
      and down when it unlikes, and leaves every other dish's count alone; a
      refused toggle changes no count. */
  lemma {:induction false} ToggleMovesCount(likes: LikeTable, userId: Option<string>, mealDate: string,
                                            mealType: string, mealKey: string, now: Instant, dish: string)
    ensures var r := ToggleLike(likes, userId, mealDate, mealType, mealKey, now);
            CountByMealKey(r.1, dish)
              == CountByMealKey(likes, dish)
                 + (if dish != mealKey || r.0 == BadRequest then 0 else if r.0 == Liked then 1 else -1)
  {
    var r := ToggleLike(likes, userId, mealDate, mealType, mealKey, now);
    if r.0 != BadRequest {
      var k := LikeKey(userId.value, mealDate, mealType, mealKey);
      var before := DishLikes(likes, dish);
      var after := DishLikes(r.1, dish);
      if dish != mealKey {
        assert after == before;
      } else if r.0 == Liked {
        assert after == before + {k};
      } else {
        assert after == before - {k};
      }
    }
  }

  lemma SubsetCard<T>(a: set<T>, b: set<T>)
    requires a <= b
    ensures |a| <= |b|
  {
    if a != {} {
      var x :| x in a;
      SubsetCard(a - {x}, b - {x});
    }
  }

  /** `deleteByUserId`: every like recorded under that id goes. */
  function DeleteByUserId(likes: LikeTable, userId: string): (r: LikeTable)
    ensures forall k :: k in r <==> k in likes && k.userId != userId
    ensures forall k :: k in r ==> r[k] == likes[k]
  {
    map k | k in likes && k.userId != userId :: likes[k]
  }
}
