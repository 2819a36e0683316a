/** Vocabulary shared by every part of the model. */
module Common {

  datatype Option<+T> = None | Some(value: T)

  /** Strict lexicographic order on strings, the order Python's `sorted` and `min` use on `str`. */
  predicate Less(a: string, b: string) {
    if b == [] then false
    else if a == [] then true
    else a[0] < b[0] || (a[0] == b[0] && Less(a[1..], b[1..]))
  }

  lemma {:induction false} LessIrreflexive(a: string)
    ensures !Less(a, a)
  {
    if a != [] { LessIrreflexive(a[1..]); }
  }

  lemma {:induction false} LessTransitive(a: string, b: string, c: string)
    requires Less(a, b) && Less(b, c)
    ensures Less(a, c)
  {
    if a != [] && a[0] == b[0] && b[0] == c[0] { LessTransitive(a[1..], b[1..], c[1..]); }
  }

  lemma {:induction false} LessTotal(a: string, b: string)
    ensures a == b || Less(a, b) || Less(b, a)
  {
    if a != [] && b != [] && a[0] == b[0] {
      LessTotal(a[1..], b[1..]);
      assert a == [a[0]] + a[1..] && b == [b[0]] + b[1..];
    }
  }

  lemma LessAsymmetric(a: string, b: string)
    requires Less(a, b)
    ensures a != b && !Less(b, a)
  {
    LessIrreflexive(a);
    if Less(b, a) { LessTransitive(a, b, a); }
  }

  predicate Distinct<T(==)>(s: seq<T>) {
    forall i, j :: 0 <= i < j < |s| ==> s[i] != s[j]
  }

  predicate StrictlySorted(names: seq<string>) {
    forall i, j :: 0 <= i < j < |names| ==> Less(names[i], names[j])
  }

  /** Inserts a name into a strictly sorted sequence, ignoring a name already present. */
  function InsertName(names: seq<string>, x: string): (r: seq<string>)
    requires StrictlySorted(names)
    ensures StrictlySorted(r)
    ensures forall y :: y in r <==> y == x || y in names
  {
    if names == [] then [x]
    else if names[0] == x then names
    else if Less(x, names[0]) then
      assert forall k :: 0 < k < |names| ==> Less(x, names[k]) by {
        forall k | 0 < k < |names| ensures Less(x, names[k]) { LessTransitive(x, names[0], names[k]); }
      }
      [x] + names
    else
      assert Less(names[0], x) by { LessTotal(x, names[0]); }
      var rest := InsertName(names[1..], x);
      assert forall y :: y in rest ==> Less(names[0], y);
      assert forall y :: y in names <==> y == names[0] || y in names[1..];
      [names[0]] + rest
  }

  /** The sorted distinct names of a sequence: `sorted(set(names))`. */
  function SortedNames(names: seq<string>): (r: seq<string>)
    ensures StrictlySorted(r)
    ensures forall y :: y in r <==> y in names
  {
    if names == [] then []
    else
      assert forall y :: y in names <==> y == names[0] || y in names[1..];
      InsertName(SortedNames(names[1..]), names[0])
  }

  lemma StrictlySortedIsDistinct(names: seq<string>)
    requires StrictlySorted(names)
    ensures Distinct(names)
  {
    forall i, j | 0 <= i < j < |names| ensures names[i] != names[j] {
      LessIrreflexive(names[i]);
    }
  }

  lemma DisjointCard<T>(a: set<T>, b: set<T>, c: set<T>)
    requires a !! b && a + b !! c
    ensures |a + b + c| == |a| + |b| + |c|
  {}

  lemma SubsetCard<T>(a: set<T>, b: set<T>)
    requires a <= b
    ensures |a| <= |b|
    ensures a != b ==> |a| < |b|
  {
    assert b == a + (b - a);
    if a != b { var x :| x in b - a; assert |b - a| > 0; }
  }

  function Min(a: int, b: int): int { if a < b then a else b }

  function Max(a: int, b: int): int { if a < b then b else a }

  // ---------------------------------------------------------------- stable sorting

  /** Put `x` behind every element it does not have to precede. */
  function Insert<T>(s: seq<T>, x: T, before: (T, T) -> bool): seq<T> {
    if s != [] && before(x, s[|s| - 1]) then Insert(s[..|s| - 1], x, before) + [s[|s| - 1]] else s + [x]
  }

  /** Stable sorting by a strict order. */
  function Sorted<T>(s: seq<T>, before: (T, T) -> bool): seq<T> {
    if s == [] then [] else Insert(Sorted(s[..|s| - 1], before), s[|s| - 1], before)
  }

  lemma {:induction false} InsertPermutes<T>(s: seq<T>, x: T, before: (T, T) -> bool)
    ensures multiset(Insert(s, x, before)) == multiset(s) + multiset{x}
  {
    if s != [] {
      assert s == s[..|s| - 1] + [s[|s| - 1]];
      InsertPermutes(s[..|s| - 1], x, before);
    }
  }

  lemma {:induction false} SortedPermutes<T>(s: seq<T>, before: (T, T) -> bool)
    ensures multiset(Sorted(s, before)) == multiset(s)
  {
    if s != [] {
      assert s == s[..|s| - 1] + [s[|s| - 1]];
      SortedPermutes(s[..|s| - 1], before);
      InsertPermutes(Sorted(s[..|s| - 1], before), s[|s| - 1], before);
    }
  }

  lemma SortedMembers<T(!new)>(s: seq<T>, before: (T, T) -> bool)
    ensures |Sorted(s, before)| == |s| && forall x :: x in Sorted(s, before) <==> x in s
  {
    SortedPermutes(s, before);
    hide Sorted;
    assert |multiset(Sorted(s, before))| == |Sorted(s, before)| && |multiset(s)| == |s|;
    forall x ensures x in Sorted(s, before) <==> x in s {
      assert x in Sorted(s, before) <==> x in multiset(Sorted(s, before));
      assert x in s <==> x in multiset(s);
    }
  }

  /** A strict order under which what does not come before may be passed over. */
  ghost predicate IsWeakOrder<T(!new)>(before: (T, T) -> bool) {
    && (forall a, b :: before(a, b) ==> !before(b, a))
    && (forall a, b, c :: !before(a, b) && !before(b, c) ==> !before(a, c))
  }

  ghost predicate InOrder<T>(s: seq<T>, before: (T, T) -> bool) {
    forall i, j :: 0 <= i < j < |s| ==> !before(s[j], s[i])
  }

  lemma OneMoreInOrder<T(!new)>(s: seq<T>, x: T, before: (T, T) -> bool)
    requires InOrder(s, before) && forall y :: y in s ==> !before(x, y)
    ensures InOrder(s + [x], before)
  {}

  lemma LastInOrder<T(!new)>(s: seq<T>, before: (T, T) -> bool)
    requires IsWeakOrder(before) && InOrder(s, before) && s != []
    ensures InOrder(s[..|s| - 1], before)
    ensures forall y :: y in s ==> !before(s[|s| - 1], y)
  {
    forall y | y in s ensures !before(s[|s| - 1], y) {
      var i :| 0 <= i < |s| && s[i] == y;
      assert i < |s| - 1 ==> !before(s[|s| - 1], s[i]);
    }
  }

  lemma {:induction false} InsertKeepsOrder<T(!new)>(s: seq<T>, x: T, before: (T, T) -> bool)
    requires IsWeakOrder(before) && InOrder(s, before)
    ensures InOrder(Insert(s, x, before), before)
    ensures forall y :: y in Insert(s, x, before) ==> y == x || y in s
  {
    hide InOrder;
    if s == [] {
      OneMoreInOrder(s, x, before);
    } else {
      LastInOrder(s, before);
      var init, last := s[..|s| - 1], s[|s| - 1];
      if before(x, last) {
        InsertKeepsOrder(init, x, before);
        forall y | y in Insert(init, x, before) ensures !before(last, y) {
          assert s == init + [last];
          assert y != x ==> y in s;
        }
        OneMoreInOrder(Insert(init, x, before), last, before);
      } else {
        OneMoreInOrder(s, x, before);
      }
    }
  }

  /** Sorting sorts. */
  lemma {:induction false} SortedInOrder<T(!new)>(s: seq<T>, before: (T, T) -> bool)
    requires IsWeakOrder(before)
    ensures InOrder(Sorted(s, before), before)
  {
    hide InOrder;
    if s == [] {
      EmptyInOrder(before);
    } else {
      SortedInOrder(s[..|s| - 1], before);
      InsertKeepsOrder(Sorted(s[..|s| - 1], before), s[|s| - 1], before);
    }
  }

  function Those<T>(s: seq<T>, p: T -> bool): seq<T> {
    if s == [] then []
    else Those(s[..|s| - 1], p) + if p(s[|s| - 1]) then [s[|s| - 1]] else []
  }

  lemma {:induction false} InsertIsStable<T(!new)>(s: seq<T>, x: T, before: (T, T) -> bool, p: T -> bool)
    requires forall a, b :: p(a) && p(b) ==> !before(a, b)
    ensures Those(Insert(s, x, before), p) == Those(s, p) + if p(x) then [x] else []
  {
    if s != [] && before(x, s[|s| - 1]) {
      var init, last := s[..|s| - 1], s[|s| - 1];
      InsertIsStable(init, x, before, p);
      assert Insert(s, x, before)[..|Insert(s, x, before)| - 1] == Insert(init, x, before);
    } else {
      assert (s + [x])[..|s|] == s;
    }
  }

  /** Elements none of which has to precede another stay in the order they had. */
  lemma {:induction false} SortedIsStable<T(!new)>(s: seq<T>, before: (T, T) -> bool, p: T -> bool)
    requires forall a, b :: p(a) && p(b) ==> !before(a, b)
    ensures Those(Sorted(s, before), p) == Those(s, p)
  {
    if s != [] {
      SortedIsStable(s[..|s| - 1], before, p);
      InsertIsStable(Sorted(s[..|s| - 1], before), s[|s| - 1], before, p);
    }
  }

  lemma EmptyInOrder<T>(before: (T, T) -> bool)
    ensures InOrder([], before)
  {}

  lemma SortedPair<T>(a: T, b: T, before: (T, T) -> bool)
    ensures Sorted([a, b], before) == if before(b, a) then [b, a] else [a, b]
  {
    assert [a, b][..1] == [a] && [a][..0] == [];
    assert Sorted([a], before) == [a];
    assert before(b, a) ==> Insert([a], b, before) == Insert([], b, before) + [a];
    assert !before(b, a) ==> Insert([a], b, before) == [a] + [b] == [a, b];
  }

  lemma {:induction false} InsertDistinct<T(!new)>(s: seq<T>, x: T, before: (T, T) -> bool)
    requires Distinct(s) && x !in s
    ensures Distinct(Insert(s, x, before))
    ensures forall y :: y in Insert(s, x, before) <==> y == x || y in s
  {
    if s != [] && before(x, s[|s| - 1]) {
      var init, last := s[..|s| - 1], s[|s| - 1];
      assert s == init + [last] && last !in init;
      InsertDistinct(init, x, before);
    }
  }

  lemma {:induction false} SortedDistinct<T(!new)>(s: seq<T>, before: (T, T) -> bool)
    requires Distinct(s)
    ensures Distinct(Sorted(s, before)) && forall x :: x in Sorted(s, before) <==> x in s
  {
    if s != [] {
      var init, last := s[..|s| - 1], s[|s| - 1];
      assert s == init + [last] && last !in init;
      SortedDistinct(init, before);
      InsertDistinct(Sorted(init, before), last, before);
    }
  }
}
