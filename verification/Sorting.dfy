/** Sorting by a total order: the sorted arrangement of a multiset is unique. */
module Sorting {

  ghost predicate TotalOrder<T(!new)>(le: (T, T) -> bool) {
    && (forall a, b :: le(a, b) || le(b, a))
    && (forall a, b :: le(a, b) && le(b, a) ==> a == b)
    && (forall a, b, c :: le(a, b) && le(b, c) ==> le(a, c))
  }

  ghost predicate SortedBy<T(!new)>(s: seq<T>, le: (T, T) -> bool) {
    forall i, j :: 0 <= i < j < |s| ==> le(s[i], s[j])
  }

  function Insert<T>(x: T, s: seq<T>, le: (T, T) -> bool): seq<T> {
    if s == [] || le(x, s[0]) then [x] + s else [s[0]] + Insert(x, s[1..], le)
  }

  function Sort<T>(s: seq<T>, le: (T, T) -> bool): seq<T> {
    if s == [] then [] else Insert(s[0], Sort(s[1..], le), le)
  }

  lemma {:induction false} InsertMembers<T>(x: T, s: seq<T>, le: (T, T) -> bool)
    ensures multiset(Insert(x, s, le)) == multiset{x} + multiset(s)
  {
    if s != [] && !le(x, s[0]) {
      InsertMembers(x, s[1..], le);
      assert s == [s[0]] + s[1..];
    }
  }

  lemma SortedCons<T(!new)>(x: T, s: seq<T>, le: (T, T) -> bool)
    requires SortedBy(s, le) && forall i :: 0 <= i < |s| ==> le(x, s[i])
    ensures SortedBy([x] + s, le)
  {
  }

  lemma {:induction false} InsertSorts<T(!new)>(x: T, s: seq<T>, le: (T, T) -> bool)
    requires TotalOrder(le) && SortedBy(s, le)
    ensures SortedBy(Insert(x, s, le), le)
  {
    if s == [] || le(x, s[0]) {
      forall i | 0 <= i < |s| ensures le(x, s[i]) {
        if i > 0 {
          assert le(s[0], s[i]);
        }
      }
      SortedCons(x, s, le);
    } else {
      InsertSorts(x, s[1..], le);
      InsertMembers(x, s[1..], le);
      var t := Insert(x, s[1..], le);
      forall i | 0 <= i < |t| ensures le(s[0], t[i]) {
        assert t[i] in multiset(t);
        assert t[i] == x || t[i] in multiset(s[1..]);
        if t[i] != x {
          var j :| 0 <= j < |s[1..]| && s[1..][j] == t[i];
          assert le(s[0], s[j + 1]);
        }
      }
      SortedCons(s[0], t, le);
    }
  }

  lemma {:induction false} SortSorts<T(!new)>(s: seq<T>, le: (T, T) -> bool)
    requires TotalOrder(le)
    ensures SortedBy(Sort(s, le), le) && multiset(Sort(s, le)) == multiset(s)
  {
    if s != [] {
      SortSorts(s[1..], le);
      InsertSorts(s[0], Sort(s[1..], le), le);
      InsertMembers(s[0], Sort(s[1..], le), le);
      assert s == [s[0]] + s[1..];
    }
  }

  lemma FirstIsLeast<T(!new)>(a: seq<T>, x: T, le: (T, T) -> bool)
    requires TotalOrder(le) && SortedBy(a, le) && x in multiset(a)
    ensures a != [] && le(a[0], x)
  {
    var i :| 0 <= i < |a| && a[i] == x;
    assert i > 0 ==> le(a[0], a[i]);
  }

  lemma TailMultiset<T>(a: seq<T>)
    requires a != []
    ensures multiset(a[1..]) == multiset(a) - multiset{a[0]}
  {
    assert a == [a[0]] + a[1..];
  }

  lemma {:induction false} SortedUnique<T(!new)>(a: seq<T>, b: seq<T>, le: (T, T) -> bool)
    requires TotalOrder(le) && SortedBy(a, le) && SortedBy(b, le) && multiset(a) == multiset(b)
    ensures a == b
    decreases |a|
  {
    assert |a| == |multiset(a)| && |b| == |multiset(b)|;
    if a != [] {
      FirstIsLeast(a, b[0], le);
      FirstIsLeast(b, a[0], le);
      TailMultiset(a);
      TailMultiset(b);
      SortedUnique(a[1..], b[1..], le);
      assert a == [a[0]] + a[1..] && b == [b[0]] + b[1..];
    }
  }

  /** The elements of a set in order. */
  ghost function SortSet<T(!new)>(s: set<T>, le: (T, T) -> bool): seq<T> {
    if s == {} then [] else var x :| x in s; Insert(x, SortSet(s - {x}, le), le)
  }

  lemma {:induction false} SortSetSorts<T(!new)>(s: set<T>, le: (T, T) -> bool)
    requires TotalOrder(le)
    ensures SortedBy(SortSet(s, le), le) && multiset(SortSet(s, le)) == multiset(s)
    decreases |s|
  {
    if s != {} {
      var x :| x in s && SortSet(s, le) == Insert(x, SortSet(s - {x}, le), le);
      SortSetSorts(s - {x}, le);
      InsertSorts(x, SortSet(s - {x}, le), le);
      InsertMembers(x, SortSet(s - {x}, le), le);
      assert multiset(s) == multiset(s - {x}) + multiset{x};
    }
  }

  // ----- Byte-wise string order -----

  predicate LexLe(a: string, b: string) {
    a == "" || (b != "" && (a[0] < b[0] || (a[0] == b[0] && LexLe(a[1..], b[1..]))))
  }

  /** The first position at which two strings differ, if neither continues the other. */
  predicate DiffersFirst(a: string, b: string, i: nat) {
    i < |a| && i < |b| && a[..i] == b[..i] && a[i] != b[i]
  }

  /** Byte order: a prefix comes first, and otherwise the first difference decides. */
  lemma {:induction false} LexMeans(a: string, b: string, i: nat)
    ensures a <= b ==> LexLe(a, b)
    ensures DiffersFirst(a, b, i) ==> (LexLe(a, b) <==> a[i] < b[i])
  {
    if a != "" && b != "" && a[0] == b[0] {
      LexMeans(a[1..], b[1..], if i > 0 then i - 1 else 0);
      if DiffersFirst(a, b, i) {
        assert i > 0;
        assert a[1..][..i - 1] == a[..i][1..] && b[1..][..i - 1] == b[..i][1..];
      }
      assert a <= b ==> a[1..] <= b[1..];
    } else if a != "" && b != "" {
      assert 0 < i <= |a| && i <= |b| ==> a[..i][0] != b[..i][0];
    }
  }

  lemma {:induction false} LexTotal(a: string, b: string)
    ensures LexLe(a, b) || LexLe(b, a)
    ensures LexLe(a, b) && LexLe(b, a) ==> a == b
  {
    if a != "" && b != "" && a[0] == b[0] {
      LexTotal(a[1..], b[1..]);
      assert a == [a[0]] + a[1..] && b == [b[0]] + b[1..];
    }
  }

  lemma {:induction false} LexTrans(a: string, b: string, c: string)
    requires LexLe(a, b) && LexLe(b, c)
    ensures LexLe(a, c)
  {
    if a != "" && a[0] == b[0] && b[0] == c[0] {
      LexTrans(a[1..], b[1..], c[1..]);
    }
  }

  lemma LexIsTotalOrder()
    ensures TotalOrder(LexLe)
  {
    forall a: string, b: string ensures LexLe(a, b) || LexLe(b, a) { LexTotal(a, b); }
    forall a: string, b: string | LexLe(a, b) && LexLe(b, a) ensures a == b { LexTotal(a, b); }
    forall a: string, b: string, c: string | LexLe(a, b) && LexLe(b, c) ensures LexLe(a, c) { LexTrans(a, b, c); }
  }
}
