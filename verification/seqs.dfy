/** Generic list operations behind the Java stream pipelines of the model:
    `filter`, `map`, `distinct` and the subsequence order they preserve. */
module Seqs {
  import opened Base

  /** `a` can be obtained from `b` by deleting elements, keeping order. */
  predicate IsSubseq<T(==)>(a: seq<T>, b: seq<T>)
    decreases |b|
  {
    if |a| == 0 then true
    else if |b| == 0 then false
    else (a[0] == b[0] && IsSubseq(a[1..], b[1..])) || IsSubseq(a, b[1..])
  }

  /** Every sequence is a subsequence of itself. */
  lemma {:induction false} SubseqRefl<T>(a: seq<T>)
    ensures IsSubseq(a, a)
  {
    if |a| > 0 {
      SubseqRefl(a[1..]);
    }
  }

  /** The elements of a subsequence are elements of the whole. */
  lemma {:induction false} SubseqMembers<T>(a: seq<T>, b: seq<T>)
    requires IsSubseq(a, b)
    ensures forall x :: x in a ==> x in b
  {
    if |a| > 0 {
      if a[0] == b[0] && IsSubseq(a[1..], b[1..]) {
        SubseqMembers(a[1..], b[1..]);
        forall x | x in a ensures x in b {
          if x != a[0] {
            assert x in a[1..];
            assert x in b[1..];
          }
        }
      } else {
        SubseqMembers(a, b[1..]);
        forall x | x in a ensures x in b {
          assert x in b[1..];
        }
      }
    }
  }

  /** `stream().filter(p)`: the elements satisfying `p`, in their original order. */
  function Filter<T>(s: seq<T>, p: T -> bool): (r: seq<T>)
    ensures |r| <= |s|
    ensures IsSubseq(r, s)
    ensures forall i :: 0 <= i < |r| ==> r[i] in s && p(r[i])
    ensures forall i :: 0 <= i < |s| && p(s[i]) ==> s[i] in r
  {
    if |s| == 0 then []
    else if p(s[0]) then
      var rest := Filter(s[1..], p);
      assert (([s[0]] + rest)[1..]) == rest;
      [s[0]] + rest
    else
      var rest := Filter(s[1..], p);
      assert rest == [] || IsSubseq(rest, s[1..]);
      rest
  }

  /** A filter keeps a list whose every element already satisfies the predicate. */
  lemma {:induction false} FilterAll<T>(s: seq<T>, p: T -> bool)
    requires forall i :: 0 <= i < |s| ==> p(s[i])
    ensures Filter(s, p) == s
  {
    if |s| > 0 {
      FilterAll(s[1..], p);
    }
  }

  /** A filter keeps every occurrence of an element it accepts and none of
      one it rejects. */
  lemma {:induction false} FilterCounts<T>(s: seq<T>, p: T -> bool)
    ensures forall x :: multiset(Filter(s, p))[x] == if p(x) then multiset(s)[x] else 0
  {
    if |s| > 0 {
      FilterCounts(s[1..], p);
      assert s == [s[0]] + s[1..];
    }
  }

  /** A filter drops a list none of whose elements satisfies the predicate. */
  lemma {:induction false} FilterNone<T>(s: seq<T>, p: T -> bool)
    requires forall i :: 0 <= i < |s| ==> !p(s[i])
    ensures Filter(s, p) == []
  {
    if |s| > 0 {
      FilterNone(s[1..], p);
    }
  }

  /** A tail that the predicate rejects throughout does not change a filter. */
  lemma FilterRejectedTail<T>(d: seq<T>, e: seq<T>, p: T -> bool)
    requires forall i :: 0 <= i < |e| ==> !p(e[i])
    ensures Filter(d + e, p) == Filter(d, p)
  {
    FilterAppend(d, e, p);
    FilterNone(e, p);
    assert Filter(d, p) + [] == Filter(d, p);
  }

  /** Mapping a concatenation maps each part. */
  lemma MapAppend<T, U>(a: seq<T>, b: seq<T>, f: T -> U)
    ensures Map(a + b, f) == Map(a, f) + Map(b, f)
  {
    var l, r := Map(a + b, f), Map(a, f) + Map(b, f);
    assert |l| == |r|;
    forall i | 0 <= i < |l| ensures l[i] == r[i] {
      if i < |a| {
        assert (a + b)[i] == a[i];
      } else {
        assert (a + b)[i] == b[i - |a|];
      }
    }
  }

  /** Filtering a concatenation filters each part. */
  lemma {:induction false} FilterAppend<T>(a: seq<T>, b: seq<T>, p: T -> bool)
    ensures Filter(a + b, p) == Filter(a, p) + Filter(b, p)
  {
    if |a| > 0 {
      assert (a + b)[1..] == a[1..] + b;
      FilterAppend(a[1..], b, p);
    } else {
      assert a + b == b;
    }
  }

  /** `stream().map(f)`. */
  function Map<T, U>(s: seq<T>, f: T -> U): (r: seq<U>)
    ensures |r| == |s| && forall i :: 0 <= i < |s| ==> r[i] == f(s[i])
  {
    if |s| == 0 then [] else [f(s[0])] + Map(s[1..], f)
  }

  /** The present outcomes of `f` over `s`, in order. */
  function Collect<T, U>(s: seq<T>, f: T -> Option<U>): (r: seq<U>)
    ensures |r| <= |s|
    ensures forall q :: q in r ==> exists i :: 0 <= i < |s| && f(s[i]) == Some(q)
    ensures forall i :: 0 <= i < |s| && f(s[i]).Some? ==> f(s[i]).value in r
  {
    if |s| == 0 then []
    else
      var rest := Collect(s[1..], f);
      assert forall i :: 1 <= i < |s| ==> s[i] == s[1..][i - 1];
      if f(s[0]).Some? then [f(s[0]).value] + rest else rest
  }

  /** One more than every key present (1 for none): the next value an
      identity column hands out. */
  function NextKey(keys: seq<int>): (r: int)
    ensures r >= 1
    ensures forall i :: 0 <= i < |keys| ==> keys[i] < r
  {
    if |keys| == 0 then 1
    else
      var rest := NextKey(keys[1..]);
      assert forall i :: 1 <= i < |keys| ==> keys[i] == keys[1..][i - 1];
      if keys[0] < rest then rest else keys[0] + 1
  }

  /** No element occurs twice. */
  predicate NoDuplicates<T(==)>(s: seq<T>) {
    forall i, j :: 0 <= i < j < |s| ==> s[i] != s[j]
  }

  /** The first occurrence of each element of `s` not already in `seen`,
      in order of first occurrence; `DistinctFromShape` states what it holds. */
  function DistinctFrom<T(==)>(s: seq<T>, seen: set<T>): (r: seq<T>)
    ensures |r| <= |s|
  {
    if |s| == 0 then []
    else if s[0] in seen then DistinctFrom(s[1..], seen)
    else [s[0]] + DistinctFrom(s[1..], seen + {s[0]})
  }

  lemma {:induction false} DistinctFromShape<T>(s: seq<T>, seen: set<T>)
    ensures var r := DistinctFrom(s, seen);
      && NoDuplicates(r)
      && IsSubseq(r, s)
      && (forall i :: 0 <= i < |r| ==> r[i] in s && r[i] !in seen)
      && (forall i :: 0 <= i < |s| && s[i] !in seen ==> s[i] in r)
  {
    if |s| > 0 {
      if s[0] in seen {
        DistinctFromShape(s[1..], seen);
        var rest := DistinctFrom(s[1..], seen);
        assert rest == [] || IsSubseq(rest, s[1..]);
      } else {
        DistinctFromShape(s[1..], seen + {s[0]});
        var rest := DistinctFrom(s[1..], seen + {s[0]});
        assert (([s[0]] + rest)[1..]) == rest;
      }
    }
  }

  /** `stream().distinct()`: duplicates dropped, first occurrences kept in order. */
  function Distinct<T(==)>(s: seq<T>): (r: seq<T>)
    ensures |r| <= |s| && NoDuplicates(r) && IsSubseq(r, s)
    ensures forall i :: 0 <= i < |r| ==> r[i] in s
    ensures forall i :: 0 <= i < |s| ==> s[i] in r
  {
    DistinctFromShape(s, {});
    DistinctFrom(s, {})
  }

  /** The position of the first `x` in `s`, or `|s|` when there is none. */
  function FirstIndex<T(==)>(s: seq<T>, x: T): (k: nat)
    ensures k <= |s|
    ensures k < |s| ==> s[k] == x
    ensures forall i :: 0 <= i < k ==> s[i] != x
  {
    if |s| == 0 then 0
    else if s[0] == x then 0
    else 1 + FirstIndex(s[1..], x)
  }

  /** `r` lists its elements in the order of their first occurrence in `s`. */
  predicate InFirstOccurrenceOrder<T(==)>(r: seq<T>, s: seq<T>) {
    forall i, j :: 0 <= i < j < |r| ==> FirstIndex(s, r[i]) < FirstIndex(s, r[j])
  }

  lemma {:induction false} DistinctFromOrder<T>(s: seq<T>, seen: set<T>)
    ensures InFirstOccurrenceOrder(DistinctFrom(s, seen), s)
  {
    if |s| > 0 {
      var t := s[1..];
      if s[0] in seen {
        var r := DistinctFrom(t, seen);
        DistinctFromOrder(t, seen);
        DistinctFromShape(t, seen);
        forall i, j | 0 <= i < j < |r| ensures FirstIndex(s, r[i]) < FirstIndex(s, r[j]) {
          assert r[i] != s[0] && r[j] != s[0];
        }
      } else {
        var rest := DistinctFrom(t, seen + {s[0]});
        DistinctFromOrder(t, seen + {s[0]});
        DistinctFromShape(t, seen + {s[0]});
        var r := [s[0]] + rest;
        forall i, j | 0 <= i < j < |r| ensures FirstIndex(s, r[i]) < FirstIndex(s, r[j]) {
          assert r[j] == rest[j - 1] && r[j] != s[0];
          if i > 0 {
            assert r[i] == rest[i - 1] && r[i] != s[0];
          }
        }
      }
    }
  }

  /** `distinct()` keeps the first occurrences in their order. */
  lemma DistinctOrder<T>(s: seq<T>)
    ensures InFirstOccurrenceOrder(Distinct(s), s)
  {
    DistinctFromOrder(s, {});
  }

  /** A filter keeps the relative order of first occurrences. */
  lemma {:induction false} FilterFirstOrder<T>(s: seq<T>, p: T -> bool, x: T, y: T)
    requires p(x) && p(y)
    ensures FirstIndex(Filter(s, p), x) < FirstIndex(Filter(s, p), y) ==> FirstIndex(s, x) < FirstIndex(s, y)
  {
    if |s| > 0 {
      FilterFirstOrder(s[1..], p, x, y);
    }
  }

  /** Two equal elements collapse to one. */
  lemma DistinctPair<T>(x: T)
    ensures Distinct([x, x]) == [x]
  {
    assert [x, x][1..] == [x] && [x][1..] == [];
    assert {} + {x} == {x};
    assert DistinctFrom([x], {x}) == [];
  }

  /** A list without duplicates is its own `distinct()`. */
  lemma {:induction false} DistinctFromNoDuplicates<T>(s: seq<T>, seen: set<T>)
    requires NoDuplicates(s)
    requires forall i :: 0 <= i < |s| ==> s[i] !in seen
    ensures DistinctFrom(s, seen) == s
  {
    if |s| > 0 {
      DistinctFromNoDuplicates(s[1..], seen + {s[0]});
    }
  }

  lemma DistinctNoDuplicates<T>(s: seq<T>)
    requires NoDuplicates(s)
    ensures Distinct(s) == s
  {
    DistinctFromNoDuplicates(s, {});
  }

  /** `distinct()` as Java computes it: one pass with a hash set of the
      elements seen so far. */
  method DistinctLoop<T(==)>(s: seq<T>) returns (r: seq<T>)
    ensures r == Distinct(s)
  {
    r := [];
    var seen: set<T> := {};
    var i := 0;
    while i < |s|
      invariant 0 <= i <= |s|
      invariant r + DistinctFrom(s[i..], seen) == Distinct(s)
    {
      var r', seen' := if s[i] in seen then r else r + [s[i]], seen + {s[i]};
      DistinctLoopStep(s, i, seen, r, Distinct(s), r', seen');
      r, seen := r', seen';
      i := i + 1;
    }
  }

  /** The loop body keeps its invariant. */
  lemma DistinctLoopStep<T>(s: seq<T>, i: nat, seen: set<T>, r: seq<T>, d: seq<T>, r': seq<T>, seen': set<T>)
    requires i < |s|
    requires r + DistinctFrom(s[i..], seen) == d
    requires r' == if s[i] in seen then r else r + [s[i]]
    requires seen' == seen + {s[i]}
    ensures r' + DistinctFrom(s[i + 1..], seen') == d
  {
    DistinctFromAt(s, i, seen);
    if s[i] !in seen {
      ConsAssoc(r, s[i], DistinctFrom(s[i + 1..], seen'));
    } else {
      assert seen' == seen;
    }
  }

  /** One step of `DistinctFrom` on a suffix. */
  lemma DistinctFromAt<T>(s: seq<T>, i: nat, seen: set<T>)
    requires i < |s|
    ensures s[i] in seen ==> DistinctFrom(s[i..], seen) == DistinctFrom(s[i + 1..], seen)
    ensures s[i] !in seen ==> DistinctFrom(s[i..], seen) == [s[i]] + DistinctFrom(s[i + 1..], seen + {s[i]})
  {
    assert s[i..][0] == s[i] && s[i..][1..] == s[i + 1..];
  }

  lemma ConsAssoc<T>(r: seq<T>, x: T, t: seq<T>)
    ensures r + ([x] + t) == (r + [x]) + t
  {
  }
}
