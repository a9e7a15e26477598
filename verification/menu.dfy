/** Menu text: the raw NEIS dish string split into dishes (`MealService`),
    the dish cleaner and term matcher of `NotificationFilterService`, and the
    meal detail view with its like count. */
module Menu {
  import opened Base
  import opened Text
  import opened Seqs
  import opened Likes

  const BR := "<br/>"

  lemma BrBorderFree()
    ensures BorderFree(BR)
  {
    forall k | 0 < k < |BR| ensures BR[k..] != BR[..|BR| - k] {
      assert BR[k..][0] == BR[k] != '<' == BR[..|BR| - k][0];
    }
  }

  /** A dish as `getMenusByDate` returns it. */
  predicate IsDish(d: string) {
    d != [] && Trim(d) == d && !Contains(d, BR)
  }

  function TrimAll(pieces: seq<string>): seq<string> {
    Map(pieces, Trim)
  }

  function NonEmpty(pieces: seq<string>): seq<string> {
    Filter(pieces, (d: string) => d != [])
  }

  predicate NonEmptyString(d: string) {
    d != []
  }

  /** `getMenusByDate` after the fetch: nothing for a null or empty string,
      otherwise the `<br/>`-separated pieces in order, each trimmed, with
      empty pieces dropped. */
  function MenusOf(raw: Option<string>): (r: seq<string>)
    ensures raw.None? || raw.value == [] ==> r == []
    ensures raw.Some? && raw.value != [] ==> r == Filter(TrimAll(SplitAll(raw.value, BR)), NonEmptyString)
    ensures forall i :: 0 <= i < |r| ==> IsDish(r[i])
  {
    if raw.None? || raw.value == [] then []
    else
      var pieces := JavaSplit(raw.value, BR);
      DropTrailingUnseen(SplitAll(raw.value, BR));
      PiecesAreDishes(pieces);
      Filter(TrimAll(pieces), NonEmptyString)
  }

  /** Separator-free pieces, trimmed and with the blank ones dropped, are
      dishes. */
  lemma PiecesAreDishes(ps: seq<string>)
    requires forall k :: 0 <= k < |ps| ==> !Contains(ps[k], BR)
    ensures var r := Filter(TrimAll(ps), NonEmptyString);
            forall i :: 0 <= i < |r| ==> IsDish(r[i])
  {
    var pieces := TrimAll(ps);
    forall j | 0 <= j < |pieces| ensures pieces[j] == [] || IsDish(pieces[j]) {
      TrimmedPiece(ps[j]);
    }
    var r := Filter(pieces, NonEmptyString);
    forall i | 0 <= i < |r| ensures IsDish(r[i]) {
      var j :| 0 <= j < |pieces| && pieces[j] == r[i];
    }
  }

  /** Java's dropping of trailing empty pieces is invisible once blank
      pieces are filtered out. */
  lemma DropTrailingUnseen(ps: seq<string>)
    ensures Filter(TrimAll(DropTrailingEmpty(ps)), NonEmptyString) == Filter(TrimAll(ps), NonEmptyString)
  {
    var d := DropTrailingEmpty(ps);
    var e := ps[|d|..];
    assert ps == d + e;
    TrailingBlanksUnseen(d, e);
  }

  lemma TrailingBlanksUnseen(d: seq<string>, e: seq<string>)
    requires forall k :: 0 <= k < |e| ==> e[k] == []
    ensures Filter(TrimAll(d + e), NonEmptyString) == Filter(TrimAll(d), NonEmptyString)
  {
    MapAppend(d, e, Trim);
    EmptyPiecesTrimEmpty(e);
    FilterRejectedTail(TrimAll(d), TrimAll(e), NonEmptyString);
  }

  lemma EmptyPiecesTrimEmpty(e: seq<string>)
    requires forall k :: 0 <= k < |e| ==> e[k] == []
    ensures forall k :: 0 <= k < |e| ==> !NonEmptyString(TrimAll(e)[k])
  {
    forall k | 0 <= k < |e| ensures TrimAll(e)[k] == [] {
      TrimIdentity(e[k]);
    }
  }

  /** Any text is the `<br/>`-join of its separator-free pieces, blank or
      padded ones included; the dishes are exactly those pieces, trimmed,
      with the blank ones dropped, in order. */
  lemma {:induction false} MenusOfPieces(ps: seq<string>)
    requires |ps| >= 1 && forall k :: 0 <= k < |ps| ==> !Contains(ps[k], BR)
    ensures MenusOf(Some(Join(ps, BR))) == Filter(TrimAll(ps), NonEmptyString)
  {
    var s := Join(ps, BR);
    if s == [] {
      assert ps == [[]];
      TrimIdentity(ps[0]);
      assert TrimAll(ps) == [[]];
      FilterNone(TrimAll(ps), NonEmptyString);
    } else {
      BrBorderFree();
      SplitJoin(ps, BR);
    }
  }

  /** A piece with no separator in it, once trimmed, is a dish or empty. */
  lemma TrimmedPiece(p: string)
    requires !Contains(p, BR)
    ensures Trim(p) == [] || IsDish(Trim(p))
  {
    TrimIdempotent(p);
    TrimShape(p);
    if Contains(Trim(p), BR) {
      ContainsSlice(p, TrimOffset(p), TrimOffset(p) + |Trim(p)|, BR);
    }
  }

  /** Joining dishes with `<br/>` and splitting them again gives the dishes
      back, in order. */
  lemma {:induction false} MenusOfJoin(ds: seq<string>)
    requires forall i :: 0 <= i < |ds| ==> IsDish(ds[i])
    ensures MenusOf(Some(Join(ds, BR))) == ds
  {
    if |ds| > 0 {
      BrBorderFree();
      var s := Join(ds, BR);
      JoinNonEmpty(ds, BR);
      SplitJoin(ds, BR);
      assert DropTrailingEmpty(ds) == ds;
      assert TrimAll(ds) == ds;
      FilterAll(ds, NonEmptyString);
    }
  }

  lemma {:induction false} JoinNonEmpty(ds: seq<string>, sep: string)
    requires |ds| > 0 && ds[0] != []
    ensures Join(ds, sep) != []
  {
  }

  /** The example from the NEIS data: allergen codes stay in place here. */
  lemma MenusOfExample(raw: string)
    requires raw == "김치찌개(9)<br/>돈까스(5.6)"
    ensures MenusOf(Some(raw)) == ["김치찌개(9)", "돈까스(5.6)"]
  {
    var a, b := "김치찌개(9)", "돈까스(5.6)";
    var ds := [a, b];
    assert Join(ds, BR) == a + BR + b;
    assert a + BR + b == raw;
    ExampleDish(a);
    ExampleDish(b);
    assert forall i :: 0 <= i < |ds| ==> IsDish(ds[i]);
    MenusOfJoin(ds);
    var j := Join(ds, BR);
    assert j == raw;
    assert MenusOf(Some(j)) == ds;
  }

  lemma ExampleDish(d: string)
    requires d == "김치찌개(9)" || d == "돈까스(5.6)"
    ensures IsDish(d)
  {
    NotContainsFirstChar(d, BR);
    TrimIdentity(d);
  }

  // ---------------------------------------------------------------------
  // Meal detail
  // ---------------------------------------------------------------------

  datatype MealDetail = MealDetail(mealKey: string, name: string, date: string, mealType: string,
                                   likeCount: nat, isLiked: bool)

  /** The user ids `getMealDetail` does not look up: null, blank or "null". */
  predicate IsAnonymous(userId: Option<string>) {
    IsMissingId(userId) || userId.value == "null"
  }

  /** `getMealDetail`: the arguments echoed back, the dish's like count over
      all users, and whether this user liked this exact meal. */
  function GetMealDetail(likes: LikeTable, userId: Option<string>, date: string, mealType: string,
                         mealKey: string, mealName: string): (r: MealDetail)
    ensures r.mealKey == mealKey && r.name == mealName && r.date == date && r.mealType == mealType
    ensures r.likeCount == CountByMealKey(likes, mealKey)
    ensures r.isLiked <==> !IsAnonymous(userId) && LikeKey(userId.value, date, mealType, mealKey) in likes
  {
    var liked := !IsAnonymous(userId) && LikeKey(userId.value, date, mealType, mealKey) in likes;
    MealDetail(mealKey, mealName, date, mealType, CountByMealKey(likes, mealKey), liked)
  }

  /** Once a signed-in user toggles a meal on, the detail view shows it liked. */
  lemma LikedAfterToggle(likes: LikeTable, userId: string, date: string, mealType: string,
                         mealKey: string, mealName: string, now: Instant)
    requires !IsAnonymous(Some(userId))
    requires LikeKey(userId, date, mealType, mealKey) !in likes
    ensures GetMealDetail(ToggleLike(likes, Some(userId), date, mealType, mealKey, now).1,
                          Some(userId), date, mealType, mealKey, mealName).isLiked
  {
  }

  // ---------------------------------------------------------------------
  // NotificationFilterService: dish cleaning and matching
  // ---------------------------------------------------------------------

  /** No '(' is followed, anywhere later, by a ')'. */
  predicate NoGroup(s: string) {
    forall i, j :: 0 <= i < j < |s| && s[i] == '(' ==> s[j] != ')'
  }

  /** No ')' at or after position `from`. */
  predicate NoCloseFrom(s: string, from: nat) {
    forall j :: from <= j < |s| ==> s[j] != ')'
  }

  /** `replaceAll("\\([^)]*\\)", "")`: from each '(' that has a ')' somewhere
      after it, everything through the first such ')' is removed; a '(' with
      no ')' after it stays. */
  function StripGroups(s: string): (r: string)
    ensures |r| <= |s|
    ensures NoCloseFrom(s, 0) ==> NoCloseFrom(r, 0)
    ensures NoGroup(r)
    ensures NoGroup(s) ==> r == s
    decreases |s|
  {
    if |s| == 0 then []
    else
      var close := IndexOfChar(s, ')', 1);
      if s[0] == '(' && close >= 0 then
        assert !NoGroup(s) by { assert s[0] == '(' && s[close] == ')'; }
        StripGroups(s[close + 1..])
      else
        var rest := StripGroups(s[1..]);
        KeepFirst(s, rest);
        [s[0]] + rest
  }

  /** The step of `StripGroups` that keeps the first character. */
  lemma KeepFirst(s: string, rest: string)
    requires |s| > 0 && NoGroup(rest)
    requires s[0] == '(' ==> NoCloseFrom(s, 1)
    requires NoCloseFrom(s[1..], 0) ==> NoCloseFrom(rest, 0)
    requires NoGroup(s[1..]) ==> rest == s[1..]
    ensures NoGroup([s[0]] + rest)
    ensures NoCloseFrom(s, 0) ==> NoCloseFrom([s[0]] + rest, 0)
    ensures NoGroup(s) ==> [s[0]] + rest == s
  {
    var r := [s[0]] + rest;
    if NoCloseFrom(s, 1) {
      assert NoCloseFrom(s[1..], 0) by {
        forall j | 0 <= j < |s| - 1 ensures s[1..][j] != ')' {
          assert s[1..][j] == s[j + 1];
        }
      }
    }
    forall i, j | 0 <= i < j < |r| && r[i] == '(' ensures r[j] != ')' {
      if i > 0 {
        assert r[i] == rest[i - 1] && r[j] == rest[j - 1];
      } else {
        assert r[j] == rest[j - 1];
      }
    }
    if NoGroup(s) {
      NoGroupSlice(s, 1, |s|);
    }
  }

  /** Removing the groups is the identity exactly on strings without one. */
  lemma StripGroupsIdentity(s: string)
    ensures StripGroups(s) == s <==> NoGroup(s)
  {
  }

  /** One dish through the cleaner: groups removed, then trimmed. */
  function CleanDish(d: string): (r: string)
    ensures NoGroup(r) && Trim(r) == r
  {
    var r := Trim(StripGroups(d));
    TrimShape(StripGroups(d));
    TrimIdempotent(StripGroups(d));
    NoGroupSlice(StripGroups(d), TrimOffset(StripGroups(d)), TrimOffset(StripGroups(d)) + |r|);
    r
  }

  lemma NoGroupSlice(s: string, a: nat, b: nat)
    requires a <= b <= |s| && NoGroup(s)
    ensures NoGroup(s[a..b])
  {
    var t := s[a..b];
    forall i, j | 0 <= i < j < |t| && t[i] == '(' ensures t[j] != ')' {
      assert t[i] == s[a + i] && t[j] == s[a + j];
    }
  }

  /** Cleaning a dish twice gives the same as cleaning it once. */
  lemma CleanDishIdempotent(d: string)
    ensures CleanDish(CleanDish(d)) == CleanDish(d)
  {
    var c := CleanDish(d);
    assert StripGroups(c) == c;
  }

  /** The dishes as `sendFilteredNotifications` sees them: each cleaned,
      the empty ones dropped, order kept; a dish that occurs twice is kept
      twice. */
  function CleanMenus(raw: seq<string>): (r: seq<string>)
    ensures IsSubseq(r, Map(raw, CleanDish))
    ensures forall i :: 0 <= i < |r| ==> r[i] != [] && NoGroup(r[i]) && Trim(r[i]) == r[i]
    ensures forall i :: 0 <= i < |raw| && CleanDish(raw[i]) != [] ==> CleanDish(raw[i]) in r
    ensures forall d :: multiset(r)[d] == if d == [] then 0 else multiset(Map(raw, CleanDish))[d]
  {
    var r := Filter(Map(raw, CleanDish), NonEmptyString);
    CleanMenusShape(raw, Map(raw, CleanDish), r);
    FilterCounts(Map(raw, CleanDish), NonEmptyString);
    r
  }

  /** What the filter over the cleaned dishes `m` keeps and what it must
      keep. */
  lemma CleanMenusShape(raw: seq<string>, m: seq<string>, r: seq<string>)
    requires |m| == |raw| && forall i :: 0 <= i < |raw| ==> m[i] == CleanDish(raw[i])
    requires forall i :: 0 <= i < |r| ==> r[i] in m && NonEmptyString(r[i])
    requires forall i :: 0 <= i < |m| && NonEmptyString(m[i]) ==> m[i] in r
    ensures forall i :: 0 <= i < |r| ==> r[i] != [] && NoGroup(r[i]) && Trim(r[i]) == r[i]
    ensures forall i :: 0 <= i < |raw| && CleanDish(raw[i]) != [] ==> CleanDish(raw[i]) in r
  {
    forall i | 0 <= i < |r| ensures r[i] != [] && NoGroup(r[i]) && Trim(r[i]) == r[i] {
      assert r[i] in m && NonEmptyString(r[i]);
      var k :| 0 <= k < |m| && m[k] == r[i];
      assert m[k] == CleanDish(raw[k]);
    }
    forall i | 0 <= i < |raw| && CleanDish(raw[i]) != [] ensures CleanDish(raw[i]) in r {
      assert m[i] == CleanDish(raw[i]) && NonEmptyString(m[i]);
    }
  }

  /** Cleaning an already clean menu changes nothing. */
  lemma CleanMenusIdempotent(raw: seq<string>)
    ensures CleanMenus(CleanMenus(raw)) == CleanMenus(raw)
  {
    var c := CleanMenus(raw);
    assert Map(c, CleanDish) == c by {
      forall i | 0 <= i < |c| ensures CleanDish(c[i]) == c[i] {
        assert StripGroups(c[i]) == c[i];
      }
    }
    FilterAll(c, NonEmptyString);
  }

  /** A dish name followed by its allergen code loses the code. */
  lemma {:induction false} StripTrailingCode(name: string, code: string)
    requires forall k :: 0 <= k < |name| ==> name[k] != '('
    requires forall k :: 0 <= k < |code| ==> code[k] != ')'
    ensures StripGroups(name + "(" + code + ")") == name
    decreases |name|
  {
    var s := name + "(" + code + ")";
    if |name| == 0 {
      assert IndexOfChar(s, ')', 1) == |s| - 1 by {
        assert s[|s| - 1] == ')';
        forall j | 1 <= j < |s| - 1 ensures s[j] != ')' {
          assert s[j] == code[j - 1];
        }
      }
      assert s[|s|..] == [];
    } else {
      StripTrailingCode(name[1..], code);
      assert s[1..] == name[1..] + "(" + code + ")";
      assert s[0] == name[0] != '(';
    }
  }

  lemma CleanDishExample(d: string)
    requires d == "김치찌개(9)"
    ensures CleanDish(d) == "김치찌개"
  {
    var name := "김치찌개";
    assert d == name + "(" + "9" + ")";
    assert forall k :: 0 <= k < |name| ==> name[k] != '(';
    StripTrailingCode(name, "9");
    TrimIdentity(name);
  }

  /** A user term that counts as a match: it has text and occurs in some dish. */
  predicate Matches(term: string, menus: seq<string>) {
    HasText(Some(term)) && exists m | m in menus :: Contains(m, term)
  }

  /** `findMatchedItems`: the user's non-blank terms that occur inside some
      dish, in the user's order. */
  function FindMatchedItems(terms: seq<string>, menus: seq<string>): (r: seq<string>)
    ensures IsSubseq(r, terms)
    ensures forall i :: 0 <= i < |r| ==> Matches(r[i], menus)
    ensures forall i :: 0 <= i < |terms| && Matches(terms[i], menus) ==> terms[i] in r
    ensures terms == [] ==> r == []
  {
    Filter(terms, (t: string) => Matches(t, menus))
  }

  lemma FindMatchedItemsExample()
    ensures FindMatchedItems(["돈까스", " "], ["치즈돈까스"]) == ["돈까스"]
  {
    var dish, term := "치즈돈까스", "돈까스";
    assert dish[2..5] == term;
    assert MatchAt(dish, term, 2);
    assert HasText(Some(term)) by { assert !IsJavaWhitespace(term[0]); }
    assert dish in [dish];
    assert Matches(term, [dish]);
    assert !HasText(Some(" "));
  }
}
