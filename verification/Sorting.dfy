/** Python's stable `sorted`, as insertion from the right. */
module Sorting {
  predicate Comparable<T>(le: (T, T) -> bool, a: T, b: T) {
    le(a, b) || le(b, a)
  }

  predicate Chains<T>(le: (T, T) -> bool, a: T, b: T, c: T) {
    le(a, b) && le(b, c) ==> le(a, c)
  }

  /** Total and transitive; the named parts keep the quantifiers from firing on their own. */
  ghost predicate TotalPreorder<T(!new)>(le: (T, T) -> bool) {
    && (forall a, b :: Comparable(le, a, b))
    && (forall a, b, c :: Chains(le, a, b, c))
  }

  predicate SortedBy<T>(le: (T, T) -> bool, xs: seq<T>) {
    forall i, j | 0 <= i < j < |xs| :: le(xs[i], xs[j])
  }

  /** Put `x`, which came before everything in `xs`, at the first place it fits. */
  function Insert<T>(le: (T, T) -> bool, x: T, xs: seq<T>): seq<T> {
    if xs == [] || le(x, xs[0]) then [x] + xs else [xs[0]] + Insert(le, x, xs[1..])
  }

  function Sort<T>(le: (T, T) -> bool, xs: seq<T>): seq<T> {
    if xs == [] then [] else Insert(le, xs[0], Sort(le, xs[1..]))
  }

  lemma {:induction false} InsertPermutes<T>(le: (T, T) -> bool, x: T, xs: seq<T>)
    ensures multiset(Insert(le, x, xs)) == multiset(xs) + multiset{x}
  {
    if xs != [] && !le(x, xs[0]) {
      InsertPermutes(le, x, xs[1..]);
      assert xs == [xs[0]] + xs[1..];
    }
  }

  lemma {:induction false} SortKeepsLength<T>(le: (T, T) -> bool, xs: seq<T>)
    ensures |Sort(le, xs)| == |xs|
  {
    if xs != [] {
      SortKeepsLength(le, xs[1..]);
      InsertPermutes(le, xs[0], Sort(le, xs[1..]));
      var ys := Sort(le, xs);
      assert |multiset(ys)| == |ys| && |multiset(Sort(le, xs[1..]))| == |xs| - 1;
    }
  }

  lemma {:induction false} InsertSorted<T(!new)>(le: (T, T) -> bool, x: T, xs: seq<T>)
    requires TotalPreorder(le) && SortedBy(le, xs)
    ensures SortedBy(le, Insert(le, x, xs))
  {
    if xs == [] {
    } else if le(x, xs[0]) {
      forall j | 0 <= j < |xs|
        ensures le(x, xs[j])
      {
        assert Chains(le, x, xs[0], xs[j]);
      }
    } else {
      var tail := Insert(le, x, xs[1..]);
      InsertSorted(le, x, xs[1..]);
      InsertPermutes(le, x, xs[1..]);
      assert Comparable(le, x, xs[0]);
      forall j | 0 <= j < |tail|
        ensures le(xs[0], tail[j])
      {
        assert tail[j] in multiset(tail);
        assert tail[j] == x || tail[j] in xs[1..];
      }
    }
  }

  /** The result is sorted and holds exactly the elements it was given. */
  lemma {:induction false} SortSorts<T(!new)>(le: (T, T) -> bool, xs: seq<T>)
    requires TotalPreorder(le)
    ensures SortedBy(le, Sort(le, xs))
    ensures multiset(Sort(le, xs)) == multiset(xs)
  {
    if xs != [] {
      SortSorts(le, xs[1..]);
      InsertSorted(le, xs[0], Sort(le, xs[1..]));
      InsertPermutes(le, xs[0], Sort(le, xs[1..]));
      assert xs == [xs[0]] + xs[1..];
    }
  }

  function FilterSeq<T>(p: T -> bool, xs: seq<T>): seq<T> {
    if xs == [] then [] else (if p(xs[0]) then [xs[0]] else []) + FilterSeq(p, xs[1..])
  }

  /** All elements satisfying `p` compare equal. */
  ghost predicate Ties<T(!new)>(le: (T, T) -> bool, p: T -> bool) {
    forall a, b :: Tied(le, p, a, b)
  }

  predicate Tied<T>(le: (T, T) -> bool, p: T -> bool, a: T, b: T) {
    p(a) && p(b) ==> le(a, b)
  }

  lemma FilterCons<T>(p: T -> bool, x: T, xs: seq<T>)
    ensures FilterSeq(p, [x] + xs) == (if p(x) then [x] else []) + FilterSeq(p, xs)
  {
    assert ([x] + xs)[1..] == xs;
  }

  lemma {:induction false} InsertKeepsOrder<T(!new)>(le: (T, T) -> bool, p: T -> bool, x: T, xs: seq<T>)
    requires Ties(le, p)
    ensures FilterSeq(p, Insert(le, x, xs)) == (if p(x) then [x] else []) + FilterSeq(p, xs)
  {
    if xs == [] || le(x, xs[0]) {
      FilterCons(p, x, xs);
    } else {
      assert Tied(le, p, x, xs[0]);
      InsertKeepsOrder(le, p, x, xs[1..]);
      FilterCons(p, xs[0], Insert(le, x, xs[1..]));
      FilterCons(p, xs[0], xs[1..]);
      assert xs == [xs[0]] + xs[1..];
    }
  }

  /** Stability: elements that compare equal keep the order they came in. */
  lemma {:induction false} SortIsStable<T(!new)>(le: (T, T) -> bool, p: T -> bool, xs: seq<T>)
    requires Ties(le, p)
    ensures FilterSeq(p, Sort(le, xs)) == FilterSeq(p, xs)
  {
    if xs != [] {
      SortIsStable(le, p, xs[1..]);
      InsertKeepsOrder(le, p, xs[0], Sort(le, xs[1..]));
    }
  }

  lemma FirstIsLeast<T>(le: (T, T) -> bool, xs: seq<T>, x: T)
    requires SortedBy(le, xs) && x in xs
    ensures x == xs[0] || le(xs[0], x)
  {
  }

  predicate Strict<T(==)>(le: (T, T) -> bool, xs: seq<T>) {
    forall a, b | a in xs && b in xs && le(a, b) && le(b, a) :: a == b
  }

  lemma SameBagSameHead<T>(le: (T, T) -> bool, xs: seq<T>, ys: seq<T>)
    requires xs != [] && ys != [] && Strict(le, xs)
    requires SortedBy(le, xs) && SortedBy(le, ys) && multiset(xs) == multiset(ys)
    ensures xs[0] == ys[0]
  {
    assert xs[0] in multiset(ys) && ys[0] in multiset(xs);
    FirstIsLeast(le, xs, ys[0]);
    FirstIsLeast(le, ys, xs[0]);
  }

  lemma BagOfTail<T>(xs: seq<T>)
    requires xs != []
    ensures multiset(xs[1..]) == multiset(xs) - multiset{xs[0]}
  {
    assert xs == [xs[0]] + xs[1..];
  }

  /** When ties are equalities, the sorted order of a bag of elements is unique. */
  lemma {:induction false} SortedUnique<T>(le: (T, T) -> bool, xs: seq<T>, ys: seq<T>)
    requires Strict(le, xs)
    requires SortedBy(le, xs) && SortedBy(le, ys) && multiset(xs) == multiset(ys)
    ensures xs == ys
  {
    assert |multiset(xs)| == |xs| && |multiset(ys)| == |ys|;
    if xs != [] {
      SameBagSameHead(le, xs, ys);
      BagOfTail(xs);
      BagOfTail(ys);
      assert xs == [xs[0]] + xs[1..] && ys == [ys[0]] + ys[1..];
      SortedUnique(le, xs[1..], ys[1..]);
    }
  }

  // ---- lexical order on text ----------------------------------------------

  /** Python's `a <= b` on strings. */
  predicate LexLe(a: string, b: string) {
    a == "" || (b != "" && (a[0] < b[0] || (a[0] == b[0] && LexLe(a[1..], b[1..]))))
  }

  lemma {:induction false} LexTotal(a: string, b: string)
    ensures LexLe(a, b) || LexLe(b, a)
    ensures LexLe(a, b) && LexLe(b, a) ==> a == b
  {
    if a != "" && b != "" {
      LexTotal(a[1..], b[1..]);
      assert a == [a[0]] + a[1..] && b == [b[0]] + b[1..];
    }
  }

  lemma {:induction false} LexTransitive(a: string, b: string, c: string)
    requires LexLe(a, b) && LexLe(b, c)
    ensures LexLe(a, c)
  {
    if a != "" {
      if a[0] == b[0] == c[0] {
        LexTransitive(a[1..], b[1..], c[1..]);
      }
    }
  }

  lemma LexIsPreorder()
    ensures TotalPreorder(LexLe)
  {
    forall a, b
      ensures Comparable(LexLe, a, b)
    {
      LexTotal(a, b);
    }
    forall a, b, c
      ensures Chains(LexLe, a, b, c)
    {
      if LexLe(a, b) && LexLe(b, c) {
        LexTransitive(a, b, c);
      }
    }
  }
}
