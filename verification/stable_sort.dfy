/** Python's `list.sort` / `sorted` with a key (and `reverse=True`) is a
    stable sort: the result is ordered by the key and elements with equal
    keys keep their input order. Such a result is unique, so a stable
    insertion sort describes it exactly. The ordering is given as a total
    preorder `le`, where `le(a, b)` means `a` may come before `b`. */
module StableSort {

  ghost predicate TotalPreorder<T(!new)>(le: (T, T) -> bool) {
    && (forall a, b :: le(a, b) || le(b, a))
    && (forall a, b, c :: le(a, b) && le(b, c) ==> le(a, c))
  }

  /** `a` and `b` have equal sort keys. */
  predicate Equiv<T>(le: (T, T) -> bool, a: T, b: T) {
    le(a, b) && le(b, a)
  }

  ghost predicate Sorted<T>(s: seq<T>, le: (T, T) -> bool) {
    forall i, j | 0 <= i < j < |s| :: le(s[i], s[j])
  }

  /** The elements of `s` whose key equals `y`'s, in order. */
  function Class<T>(s: seq<T>, y: T, le: (T, T) -> bool): seq<T> {
    if |s| == 0 then []
    else (if Equiv(le, s[0], y) then [s[0]] else []) + Class(s[1..], y, le)
  }

  /** Stability: every key class keeps its input order. */
  ghost predicate Stable<T(!new)>(out: seq<T>, s: seq<T>, le: (T, T) -> bool) {
    forall y :: Class(out, y, le) == Class(s, y, le)
  }

  /** Insert `x`, which came before every element of `s`, ahead of the
      first element it may precede. */
  function Insert<T>(x: T, s: seq<T>, le: (T, T) -> bool): seq<T> {
    if |s| == 0 then [x]
    else if le(x, s[0]) then [x] + s
    else [s[0]] + Insert(x, s[1..], le)
  }

  function SortBy<T>(s: seq<T>, le: (T, T) -> bool): seq<T> {
    if |s| == 0 then [] else Insert(s[0], SortBy(s[1..], le), le)
  }

  lemma {:induction false} InsertPermutes<T>(x: T, s: seq<T>, le: (T, T) -> bool)
    ensures multiset(Insert(x, s, le)) == multiset{x} + multiset(s)
  {
    if |s| > 0 && !le(x, s[0]) {
      InsertPermutes(x, s[1..], le);
      assert s == [s[0]] + s[1..];
    }
  }

  lemma {:induction false} SortPermutes<T>(s: seq<T>, le: (T, T) -> bool)
    ensures multiset(SortBy(s, le)) == multiset(s)
  {
    if |s| > 0 {
      SortPermutes(s[1..], le);
      InsertPermutes(s[0], SortBy(s[1..], le), le);
      assert s == [s[0]] + s[1..];
    }
  }

  lemma {:induction false} InsertSorted<T(!new)>(x: T, s: seq<T>, le: (T, T) -> bool)
    requires TotalPreorder(le) && Sorted(s, le)
    ensures Sorted(Insert(x, s, le), le)
  {
    if |s| > 0 && !le(x, s[0]) {
      var rest := Insert(x, s[1..], le);
      InsertSorted(x, s[1..], le);
      InsertPermutes(x, s[1..], le);
      forall j | 0 <= j < |rest|
        ensures le(s[0], rest[j])
      {
        assert rest[j] in multiset(rest);
        if rest[j] != x {
          assert rest[j] in multiset(s[1..]);
          var k :| 0 <= k < |s[1..]| && s[1..][k] == rest[j];
          assert le(s[0], s[k + 1]);
        }
      }
    }
  }

  lemma {:induction false} SortSorted<T(!new)>(s: seq<T>, le: (T, T) -> bool)
    requires TotalPreorder(le)
    ensures Sorted(SortBy(s, le), le)
  {
    if |s| > 0 {
      SortSorted(s[1..], le);
      InsertSorted(s[0], SortBy(s[1..], le), le);
    }
  }

  lemma {:induction false} InsertClass<T(!new)>(x: T, s: seq<T>, y: T, le: (T, T) -> bool)
    requires TotalPreorder(le)
    ensures Class(Insert(x, s, le), y, le) == (if Equiv(le, x, y) then [x] else []) + Class(s, y, le)
  {
    if |s| > 0 {
      var ins := Insert(x, s, le);
      if le(x, s[0]) {
        assert ins == [x] + s;
        assert ins[1..] == s;
      } else {
        var rest := Insert(x, s[1..], le);
        InsertClass(x, s[1..], y, le);
        assert ins == [s[0]] + rest;
        assert ins[1..] == rest;
        var head := s[0];
        assert Equiv(le, x, y) && le(y, head) ==> le(x, head);
        assert Class(ins, y, le) == (if Equiv(le, s[0], y) then [s[0]] else []) + Class(rest, y, le);
        assert Class(s, y, le) == (if Equiv(le, s[0], y) then [s[0]] else []) + Class(s[1..], y, le);
      }
    }
  }

  lemma {:induction false} SortStable<T(!new)>(s: seq<T>, le: (T, T) -> bool)
    requires TotalPreorder(le)
    ensures Stable(SortBy(s, le), s, le)
  {
    if |s| > 0 {
      SortStable(s[1..], le);
      forall y
        ensures Class(SortBy(s, le), y, le) == Class(s, y, le)
      {
        InsertClass(s[0], SortBy(s[1..], le), y, le);
      }
    }
  }

  /** The sort is a permutation of its input, ordered by `le`, and stable. */
  lemma SortBySpec<T(!new)>(s: seq<T>, le: (T, T) -> bool)
    requires TotalPreorder(le)
    ensures multiset(SortBy(s, le)) == multiset(s)
    ensures Sorted(SortBy(s, le), le)
    ensures Stable(SortBy(s, le), s, le)
  {
    SortPermutes(s, le);
    SortSorted(s, le);
    SortStable(s, le);
  }

  lemma {:induction false} ClassHead<T(!new)>(s: seq<T>, le: (T, T) -> bool)
    requires TotalPreorder(le) && |s| > 0
    ensures Class(s, s[0], le) == [s[0]] + Class(s[1..], s[0], le)
  {
  }

  lemma HeadsAgree<T(!new)>(a: seq<T>, b: seq<T>, le: (T, T) -> bool)
    requires TotalPreorder(le)
    requires |a| > 0 && |b| > 0 && multiset(a) == multiset(b)
    requires Sorted(a, le) && Sorted(b, le)
    requires Stable(a, b, le)
    ensures a[0] == b[0]
  {
    assert a[0] in multiset(b);
    assert b[0] in multiset(a);
    var i :| 0 <= i < |b| && b[i] == a[0];
    var j :| 0 <= j < |a| && a[j] == b[0];
    assert le(b[0], a[0]) by {
      if i > 0 { assert le(b[0], b[i]); }
    }
    assert le(a[0], b[0]) by {
      if j > 0 { assert le(a[0], a[j]); }
    }
    ClassHead(a, le);
    assert Class(b, a[0], le) == [b[0]] + Class(b[1..], a[0], le);
    assert Class(a, a[0], le) == Class(b, a[0], le);
    assert Class(a, a[0], le)[0] == a[0];
    assert Class(b, a[0], le)[0] == b[0];
  }

  lemma TailsAgree<T(!new)>(a: seq<T>, b: seq<T>, le: (T, T) -> bool)
    requires |a| > 0 && |b| > 0 && a[0] == b[0]
    requires multiset(a) == multiset(b)
    requires Stable(a, b, le)
    ensures multiset(a[1..]) == multiset(b[1..])
    ensures Stable(a[1..], b[1..], le)
  {
    assert a == [a[0]] + a[1..] && b == [b[0]] + b[1..];
    assert multiset(a) == multiset{a[0]} + multiset(a[1..]);
    assert multiset(b) == multiset{b[0]} + multiset(b[1..]);
    assert multiset(a[1..]) == multiset(a) - multiset{a[0]};
    assert multiset(b[1..]) == multiset(b) - multiset{b[0]};
    forall y
      ensures Class(a[1..], y, le) == Class(b[1..], y, le)
    {
      var p := if Equiv(le, a[0], y) then [a[0]] else [];
      assert Class(a, y, le) == p + Class(a[1..], y, le);
      assert Class(b, y, le) == p + Class(b[1..], y, le);
      assert Class(a, y, le) == Class(b, y, le);
      assert (p + Class(a[1..], y, le))[|p|..] == Class(a[1..], y, le);
      assert (p + Class(b[1..], y, le))[|p|..] == Class(b[1..], y, le);
    }
  }

  /** Any stable sort of `s` is `SortBy(s)`: two sorted sequences with the
      same elements and the same key classes are equal. */
  lemma {:induction false} StableSortUnique<T(!new)>(a: seq<T>, b: seq<T>, le: (T, T) -> bool)
    requires TotalPreorder(le)
    requires multiset(a) == multiset(b)
    requires Sorted(a, le) && Sorted(b, le)
    requires Stable(a, b, le)
    ensures a == b
    decreases |a|
  {
    assert |a| == |multiset(a)| == |b|;
    if |a| > 0 {
      HeadsAgree(a, b, le);
      TailsAgree(a, b, le);
      StableSortUnique(a[1..], b[1..], le);
      assert a == [a[0]] + a[1..] && b == [b[0]] + b[1..];
    }
  }

  /** Whatever stable algorithm Python's `sort` uses, its result is `SortBy`. */
  lemma AnyStableSortIsSortBy<T(!new)>(s: seq<T>, out: seq<T>, le: (T, T) -> bool)
    requires TotalPreorder(le)
    requires multiset(out) == multiset(s) && Sorted(out, le) && Stable(out, s, le)
    ensures out == SortBy(s, le)
  {
    SortBySpec(s, le);
    StableSortUnique(out, SortBy(s, le), le);
  }
}
