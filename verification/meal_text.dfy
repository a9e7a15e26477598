/** `MealNotificationService.cleanMenuText`: the whole-day menu string of a
    meal row is rewritten by four passes, each written out here at the
    character level instead of through a regular-expression engine:
      1. every `<br/>` becomes one space;
      2. every `(` digits-or-dots `)` group is removed with its contents;
      3. every character outside Hangul jamo and syllables, ASCII letters,
         digits and the space is removed;
      4. the result is trimmed. */
module MealText {
  import opened Text
  import opened Menu

  // ---------------------------------------------------------------------
  // Character classes
  // ---------------------------------------------------------------------

  /** The class `[ㄱ-ㅎㅏ-ㅣ가-힣a-zA-Z0-9 ]` that the third pass keeps. */
  predicate IsMenuChar(c: char) {
    || ('ㄱ' <= c <= 'ㅎ') || ('ㅏ' <= c <= 'ㅣ') || ('가' <= c <= '힣')
    || ('a' <= c <= 'z') || ('A' <= c <= 'Z') || ('0' <= c <= '9') || c == ' '
  }

  predicate NotMenuChar(c: char) {
    !IsMenuChar(c)
  }

  predicate MenuChars(s: string) {
    forall i | 0 <= i < |s| :: IsMenuChar(s[i])
  }

  /** The strings `cleanMenuText` can return: menu characters only, and no
      space at either end. */
  predicate IsCleanText(s: string) {
    MenuChars(s) && (s == [] || (s[0] != ' ' && s[|s| - 1] != ' '))
  }

  /** The class `[0-9.]` inside the second pattern. */
  predicate IsCodeChar(c: char) {
    ('0' <= c <= '9') || c == '.'
  }

  // ---------------------------------------------------------------------
  // Pass 1: replaceAll("<br/>", " ")
  // ---------------------------------------------------------------------

  /** Every `<br/>`, taken left to right, replaced by a space. */
  function ReplaceBr(s: string): (r: string)
    ensures !Contains(s, BR) ==> r == s
  {
    assert IndexOf(s, BR, 0) >= 0 ==> MatchAt(s, BR, IndexOf(s, BR, 0));
    Join(SplitAll(s, BR), " ")
  }

  /** Pieces joined by `<br/>` come out joined by single spaces. */
  lemma ReplaceBrJoin(pieces: seq<string>)
    requires |pieces| >= 1
    requires forall k :: 0 <= k < |pieces| ==> !Contains(pieces[k], BR)
    ensures ReplaceBr(Join(pieces, BR)) == Join(pieces, " ")
  {
    BrBorderFree();
    SplitJoin(pieces, BR);
  }

  // ---------------------------------------------------------------------
  // Pass 2: replaceAll("\\([0-9.]+\\)", "")
  // ---------------------------------------------------------------------

  /** The length of the run of code characters starting at `i`. */
  function CodeRun(s: string, i: nat): (n: nat)
    requires i <= |s|
    ensures i + n <= |s|
    ensures forall k :: i <= k < i + n ==> IsCodeChar(s[k])
    ensures i + n == |s| || !IsCodeChar(s[i + n])
    decreases |s| - i
  {
    if i < |s| && IsCodeChar(s[i]) then 1 + CodeRun(s, i + 1) else 0
  }

  /** `s` begins with a group the second pattern matches. Since `)` is not a
      code character, the greedy run can only be followed by `)` at its
      maximal length, so no backtracking needs modelling. */
  predicate CodeGroupAtStart(s: string) {
    |s| > 0 && s[0] == '(' && CodeRun(s, 1) >= 1 && 1 + CodeRun(s, 1) < |s| && s[1 + CodeRun(s, 1)] == ')'
  }

  /** The matcher's left-to-right scan: a group starting here is dropped
      whole, otherwise the character is kept and the scan moves on. */
  function StripCodes(s: string): (r: string)
    ensures |r| <= |s|
    decreases |s|
  {
    if |s| == 0 then []
    else if CodeGroupAtStart(s) then StripCodes(s[2 + CodeRun(s, 1)..])
    else [s[0]] + StripCodes(s[1..])
  }

  /** Without a `(` there is no group to drop. */
  lemma {:induction false} StripCodesNoOpen(s: string)
    requires forall i :: 0 <= i < |s| ==> s[i] != '('
    ensures StripCodes(s) == s
    decreases |s|
  {
    if |s| > 0 {
      assert forall i :: 0 <= i < |s| - 1 ==> s[1..][i] == s[i + 1];
      StripCodesNoOpen(s[1..]);
    }
  }

  /** A run stops at the end of `a` when what follows is not a code character. */
  lemma {:induction false} CodeRunPrefix(a: string, rest: string, i: nat)
    requires i <= |a|
    requires rest == [] || !IsCodeChar(rest[0])
    ensures CodeRun(a + rest, i) == CodeRun(a, i)
    decreases |a| - i
  {
    if i < |a| && IsCodeChar(a[i]) {
      CodeRunPrefix(a, rest, i + 1);
    }
  }

  /** A run over code characters only reaches the end. */
  lemma {:induction false} CodeRunAll(s: string, i: nat)
    requires i <= |s|
    requires forall k :: i <= k < |s| ==> IsCodeChar(s[k])
    ensures CodeRun(s, i) == |s| - i
    decreases |s| - i
  {
    if i < |s| {
      CodeRunAll(s, i + 1);
    }
  }

  /** A group at the very start is dropped whole. */
  lemma GroupAtStart(code: string, b: string)
    requires code != [] && forall k :: 0 <= k < |code| ==> IsCodeChar(code[k])
    ensures StripCodes("(" + code + ")" + b) == StripCodes(b)
  {
    var s := "(" + code + ")" + b;
    var open := "(" + code;
    assert s == open + (")" + b);
    CodeRunPrefix(open, ")" + b, 1);
    CodeRunAll(open, 1);
    assert CodeRun(s, 1) == |code|;
    assert s[1 + |code|] == ')';
    assert CodeGroupAtStart(s);
    assert s[2 + |code|..] == b;
  }

  /** What follows `a` cannot change whether `a` opens with a group, when
      it starts with `(`. */
  lemma GroupStartAgrees(a: string, rest: string)
    requires |a| > 0 && rest != [] && rest[0] == '('
    ensures CodeRun(a + rest, 1) == CodeRun(a, 1)
    ensures CodeGroupAtStart(a + rest) <==> CodeGroupAtStart(a)
  {
    var s := a + rest;
    CodeRunPrefix(a, rest, 1);
    var n := CodeRun(a, 1);
    if 1 + n < |a| {
      assert s[1 + n] == a[1 + n];
    } else {
      assert s[1 + n] == rest[0];
    }
  }

  /** A `(` code `)` group is removed wherever it sits: whatever precedes it
      is scanned as if the group were not there, and the scan restarts
      right after its `)`. */
  lemma StripCodesGroup(a: string, code: string, b: string)
    requires code != [] && forall k :: 0 <= k < |code| ==> IsCodeChar(code[k])
    ensures StripCodes(a + "(" + code + ")" + b) == StripCodes(a) + StripCodes(b)
  {
    var t := "(" + code + ")" + b;
    GroupAtStart(code, b);
    assert a + "(" + code + ")" + b == a + t;
    DroppedAnywhere(a, t, StripCodes(b));
  }

  /** Text `t` opening with `(` whose scan gives `tail` gives the same
      `tail` after any `a` too: the scan of `a` is not disturbed. */
  lemma {:induction false} DroppedAnywhere(a: string, t: string, tail: string)
    requires t != [] && t[0] == '('
    requires StripCodes(t) == tail
    ensures StripCodes(a + t) == StripCodes(a) + tail
    decreases |a|
  {
    if a == [] {
      assert a + t == t;
    } else {
      GroupStartAgrees(a, t);
      var n := CodeRun(a, 1);
      var k := if CodeGroupAtStart(a) then 2 + n else 1;
      SuffixOfJoin(a, t, k);
      DroppedAnywhere(a[k..], t, tail);
      if CodeGroupAtStart(a) {
        ScanDrops(a + t);
        ScanDrops(a);
      } else {
        ScanKeeps(a + t);
        ScanKeeps(a);
      }
    }
  }

  lemma SuffixOfJoin(a: string, t: string, k: nat)
    requires k <= |a|
    ensures (a + t)[k..] == a[k..] + t
  {
  }

  /** One step of the scan over a group. */
  lemma ScanDrops(s: string)
    requires CodeGroupAtStart(s)
    ensures StripCodes(s) == StripCodes(s[2 + CodeRun(s, 1)..])
  {
  }

  /** One step of the scan over a kept character. */
  lemma ScanKeeps(s: string)
    requires |s| > 0 && !CodeGroupAtStart(s)
    ensures StripCodes(s) == [s[0]] + StripCodes(s[1..])
  {
  }

  // ---------------------------------------------------------------------
  // Pass 3 helper and the whole cleaner
  // ---------------------------------------------------------------------

  /** `cleanMenuText`: the four passes in order. Its output holds menu
      characters only and has no space at either end. */
  function CleanMenuText(raw: string): (r: string)
    ensures IsCleanText(r)
  {
    CleanAfterBr(ReplaceBr(raw))
  }

  /** Passes 2 to 4: codes removed, other characters dropped, then trimmed. */
  function CleanAfterBr(s: string): (r: string)
    ensures IsCleanText(r)
  {
    var k := RemoveChars(StripCodes(s), NotMenuChar);
    var r := Trim(k);
    TrimShape(k);
    forall i | 0 <= i < |r| ensures IsMenuChar(r[i]) {
      assert r[i] == k[TrimOffset(k) + i];
    }
    r
  }

  /** No menu character is trimmable except the space. */
  lemma CleanEdges(s: string)
    requires IsCleanText(s)
    ensures s == [] || (!IsTrimmed(s[0]) && !IsTrimmed(s[|s| - 1]))
  {
  }

  /** A string without `<` contains no `<br/>`. */
  lemma NoAngle(s: string)
    requires forall i :: 0 <= i < |s| ==> s[i] != '<'
    ensures !Contains(s, BR)
  {
    assert BR[0] !in s;
    NotContainsFirstChar(s, BR);
  }

  /** The cleaner leaves exactly the clean strings unchanged. */
  lemma CleanMenuTextFixes(s: string)
    ensures CleanMenuText(s) == s <==> IsCleanText(s)
  {
    if IsCleanText(s) {
      NoAngle(s);
      assert ReplaceBr(s) == s;
      CleanHasNoParen(s);
      StripCodesNoOpen(s);
      assert RemoveChars(s, NotMenuChar) == s;
      CleanEdges(s);
      TrimIdentity(s);
    }
  }

  /** Cleaning twice gives the same as cleaning once. */
  lemma CleanMenuTextIdempotent(raw: string)
    ensures CleanMenuText(CleanMenuText(raw)) == CleanMenuText(raw)
  {
    CleanMenuTextFixes(CleanMenuText(raw));
  }

  /** Clean, non-empty dishes joined by spaces form a clean string. */
  lemma {:induction false} JoinClean(ds: seq<string>)
    requires |ds| >= 1
    requires forall k :: 0 <= k < |ds| ==> IsCleanText(ds[k]) && ds[k] != []
    ensures IsCleanText(Join(ds, " "))
    ensures Join(ds, " ")[0] == ds[0][0]
  {
    if |ds| > 1 {
      JoinClean(ds[1..]);
      var t := Join(ds[1..], " ");
      var j := ds[0] + " " + t;
      assert Join(ds, " ") == j;
      forall i | 0 <= i < |j| ensures IsMenuChar(j[i]) {
        if i < |ds[0]| {
          assert j[i] == ds[0][i];
        } else if i > |ds[0]| {
          assert j[i] == t[i - |ds[0]| - 1];
        }
      }
      assert j[|j| - 1] == t[|t| - 1];
    }
  }

  /** Clean dishes separated by `<br/>` come out separated by one space. */
  lemma CleanBrJoined(ds: seq<string>)
    requires |ds| >= 1
    requires forall k :: 0 <= k < |ds| ==> IsCleanText(ds[k]) && ds[k] != []
    ensures CleanMenuText(Join(ds, BR)) == Join(ds, " ")
  {
    NoBrInClean(ds);
    ReplaceBrJoin(ds);
    JoinClean(ds);
    CleanViaBr(Join(ds, BR), Join(ds, " "));
  }

  /** Clean dishes hold no `<br/>`. */
  lemma NoBrInClean(ds: seq<string>)
    requires forall k :: 0 <= k < |ds| ==> IsCleanText(ds[k])
    ensures forall k :: 0 <= k < |ds| ==> !Contains(ds[k], BR)
  {
    forall k | 0 <= k < |ds| ensures !Contains(ds[k], BR) {
      NoAngle(ds[k]);
    }
  }

  /** Text whose `<br/>` pass already gives clean text comes out as that. */
  lemma CleanViaBr(raw: string, j: string)
    requires ReplaceBr(raw) == j && IsCleanText(j)
    ensures CleanMenuText(raw) == j
  {
    CleanMenuTextFixes(j);
    NoAngle(j);
    assert ReplaceBr(j) == j;
  }

  /** A trailing `(` code `)` group is removed together with its contents. */
  lemma CleanDropsCode(d: string, code: string)
    requires IsCleanText(d)
    requires code != [] && forall k :: 0 <= k < |code| ==> IsCodeChar(code[k])
    ensures CleanMenuText(d + "(" + code + ")") == d
  {
    var s := d + "(" + code + ")";
    forall i | 0 <= i < |s| ensures s[i] != '<' {
      if i < |d| {
        assert s[i] == d[i];
      } else if |d| < i < |d| + 1 + |code| {
        assert s[i] == code[i - |d| - 1];
      }
    }
    NoAngle(s);
    assert ReplaceBr(s) == s;
    assert s == d + "(" + code + ")" + [];
    StripCodesGroup(d, code, []);
    CleanHasNoParen(d);
    StripCodesNoOpen(d);
    assert StripCodes(s) == d;
    CleanMenuTextFixes(d);
    assert RemoveChars(d, NotMenuChar) == d;
    CleanEdges(d);
    TrimIdentity(d);
  }

  /** A bracketed non-code word does not start a group: the code run after
      `(` stops inside the word, at a character that is not `)`. */
  lemma BracketedNoGroup(a: string)
    requires IsCleanText(a)
    requires exists i | 0 <= i < |a| :: !IsAsciiDigit(a[i])
    ensures !CodeGroupAtStart("(" + a + ")")
  {
    var s := "(" + a + ")";
    var n := CodeRun(s, 1);
    forall k | 0 <= k < n && k < |a| ensures IsAsciiDigit(a[k]) {
      assert a[k] == s[1 + k];
    }
    var w :| 0 <= w < |a| && !IsAsciiDigit(a[w]);
    assert n <= w;
    assert s[1 + n] == a[n] && a[n] != ')';
  }

  /** So the scan keeps the whole bracketed word. */
  lemma BracketedNotCode(a: string)
    requires IsCleanText(a)
    requires exists i | 0 <= i < |a| :: !IsAsciiDigit(a[i])
    ensures StripCodes("(" + a + ")") == "(" + a + ")"
  {
    BracketedNoGroup(a);
    CleanHasNoParen(a);
    OpenOnlyFirst(a);
    KeepFirstChar("(" + a + ")");
  }

  /** Clean text holds no bracket. */
  lemma CleanHasNoParen(a: string)
    requires IsCleanText(a)
    ensures forall i :: 0 <= i < |a| ==> a[i] != '('
  {
    forall i | 0 <= i < |a| ensures a[i] != '(' {
      assert IsMenuChar(a[i]);
    }
  }

  /** Bracketing text without `(` puts one only in front. */
  lemma OpenOnlyFirst(a: string)
    requires forall i :: 0 <= i < |a| ==> a[i] != '('
    ensures forall i :: 1 <= i < |"(" + a + ")"| ==> ("(" + a + ")")[i] != '('
  {
    var s := "(" + a + ")";
    forall i | 1 <= i < |s| ensures s[i] != '(' {
      if i <= |a| {
        assert s[i] == a[i - 1];
      }
    }
  }

  /** Without a group at the start, and with no other `(`, the scan leaves
      a string alone. */
  lemma KeepFirstChar(s: string)
    requires |s| > 0 && !CodeGroupAtStart(s)
    requires forall i :: 1 <= i < |s| ==> s[i] != '('
    ensures StripCodes(s) == s
  {
    var tail := s[1..];
    assert forall i :: 0 <= i < |tail| ==> tail[i] == s[i + 1];
    StripCodesNoOpen(tail);
    assert s == [s[0]] + tail;
  }

  /** Brackets around anything but a code lose only the bracket characters. */
  lemma CleanKeepsBracketed(a: string)
    requires IsCleanText(a)
    requires exists i | 0 <= i < |a| :: !IsAsciiDigit(a[i])
    ensures CleanMenuText("(" + a + ")") == a
  {
    var s := "(" + a + ")";
    var tail := a + ")";
    forall i | 0 <= i < |s| ensures s[i] != '<' {
      if 0 < i < |s| - 1 {
        assert s[i] == a[i - 1];
      }
    }
    NoAngle(s);
    assert ReplaceBr(s) == s;
    BracketedNotCode(a);
    assert s == "(" + tail && s[0] == '(' && s[1..] == tail;
    RemoveCharsAppend(a, ")", NotMenuChar);
    assert RemoveChars(a, NotMenuChar) == a;
    assert RemoveChars(")", NotMenuChar) == [];
    assert RemoveChars(s, NotMenuChar) == a;
    CleanEdges(a);
    TrimIdentity(a);
  }
}
