/**
 The orders the program sorts by, and what a stable sort by such an order yields.

 Sorting is modelled by insertion sort; because it is stable, it computes what any
 other stable sort computes. Where no two items are tied, the sorted list depends on the
 multiset of the items alone, which is how independence of an order is shown elsewhere.
 */
module Ordering {

  ghost predicate TotalPreorder<T(!new)>(leq: (T, T) -> bool) {
    && (forall x, y :: leq(x, y) || leq(y, x))
    && (forall x, y, z :: leq(x, y) && leq(y, z) ==> leq(x, z))
  }

  ghost predicate TotalOrder<T(!new)>(leq: (T, T) -> bool) {
    TotalPreorder(leq) && (forall x, y :: leq(x, y) && leq(y, x) ==> x == y)
  }

  ghost predicate Sorted<T>(leq: (T, T) -> bool, s: seq<T>) {
    forall i, j :: 0 <= i < j < |s| ==> leq(s[i], s[j])
  }

  /** No two different elements of `s` are tied. */
  ghost predicate NoTies<T>(leq: (T, T) -> bool, s: seq<T>) {
    forall x, y :: x in s && y in s && leq(x, y) && leq(y, x) ==> x == y
  }

  function Insert<T>(leq: (T, T) -> bool, x: T, s: seq<T>): seq<T> {
    if s == [] || leq(x, s[0]) then [x] + s else [s[0]] + Insert(leq, x, s[1..])
  }

  function Sort<T>(leq: (T, T) -> bool, s: seq<T>): seq<T> {
    if s == [] then [] else Insert(leq, s[0], Sort(leq, s[1..]))
  }

  lemma {:induction false} InsertKeeps<T>(leq: (T, T) -> bool, x: T, s: seq<T>)
    ensures multiset(Insert(leq, x, s)) == multiset(s) + multiset{x}
  {
    if s == [] || leq(x, s[0]) {
      assert multiset([x] + s) == multiset{x} + multiset(s);
    } else {
      InsertKeeps(leq, x, s[1..]);
      assert s == [s[0]] + s[1..];
    }
  }

  lemma {:induction false} InsertSorts<T(!new)>(leq: (T, T) -> bool, x: T, s: seq<T>)
    requires TotalPreorder(leq) && Sorted(leq, s)
    ensures Sorted(leq, Insert(leq, x, s))
  {
    if s == [] {
    } else if leq(x, s[0]) {
      forall j | 0 <= j < |s| ensures leq(x, s[j]) {
        assert j == 0 || leq(s[0], s[j]);
      }
    } else {
      var rest := Insert(leq, x, s[1..]);
      InsertSorts(leq, x, s[1..]);
      InsertKeeps(leq, x, s[1..]);
      assert leq(s[0], x);
      forall j | 0 <= j < |rest| ensures leq(s[0], rest[j]) {
        assert rest[j] in multiset(rest);
        assert rest[j] == x || rest[j] in s[1..];
      }
    }
  }

  lemma {:induction false} SortSorts<T(!new)>(leq: (T, T) -> bool, s: seq<T>)
    requires TotalPreorder(leq)
    ensures Sorted(leq, Sort(leq, s))
    ensures multiset(Sort(leq, s)) == multiset(s)
    ensures |Sort(leq, s)| == |s|
  {
    hide TotalPreorder, Insert;
    if s != [] {
      SortSorts(leq, s[1..]);
      InsertSorts(leq, s[0], Sort(leq, s[1..]));
      InsertKeeps(leq, s[0], Sort(leq, s[1..]));
      assert s == [s[0]] + s[1..];
    }
    assert |Sort(leq, s)| == |multiset(Sort(leq, s))|;
  }

  lemma SameHead<T>(leq: (T, T) -> bool, s: seq<T>, t: seq<T>)
    requires multiset(s) == multiset(t) && s != [] && t != []
    requires Sorted(leq, s) && Sorted(leq, t) && NoTies(leq, s)
    ensures s[0] == t[0]
  {
    assert s[0] in multiset(t) && t[0] in multiset(s);
    var i :| 0 <= i < |t| && t[i] == s[0];
    var j :| 0 <= j < |s| && s[j] == t[0];
    assert i == 0 || leq(t[0], s[0]);
    assert j == 0 || leq(s[0], t[0]);
  }

  lemma TailInOrder<T>(leq: (T, T) -> bool, s: seq<T>)
    requires s != [] && Sorted(leq, s)
    ensures Sorted(leq, s[1..])
    ensures NoTies(leq, s) ==> NoTies(leq, s[1..])
  {
  }

  /** Without ties, the sorted arrangement of a multiset is unique. */
  lemma {:induction false} SortedUnique<T>(leq: (T, T) -> bool, s: seq<T>, t: seq<T>)
    requires multiset(s) == multiset(t)
    requires Sorted(leq, s) && Sorted(leq, t) && NoTies(leq, s)
    ensures s == t
  {
    hide Sorted, NoTies;
    assert |s| == |multiset(s)| == |t|;
    if s != [] {
      SameHead(leq, s, t);
      TailInOrder(leq, s);
      TailInOrder(leq, t);
      assert s == [s[0]] + s[1..] && t == [t[0]] + t[1..];
      assert multiset(s[1..]) == multiset(s) - multiset{s[0]} == multiset(t[1..]);
      SortedUnique(leq, s[1..], t[1..]);
    }
  }

  lemma NoTiesMoves<T>(leq: (T, T) -> bool, s: seq<T>, t: seq<T>)
    requires multiset(s) == multiset(t) && NoTies(leq, s)
    ensures NoTies(leq, t)
  {
    forall x | x in t ensures x in s {
      assert x in multiset(t);
    }
  }

  /** Hence a sort without ties depends on the multiset of its input alone. */
  lemma SortPermutation<T(!new)>(leq: (T, T) -> bool, s: seq<T>, t: seq<T>)
    requires TotalPreorder(leq) && multiset(s) == multiset(t) && NoTies(leq, s)
    ensures Sort(leq, s) == Sort(leq, t)
  {
    SortSorts(leq, s);
    SortSorts(leq, t);
    forall x | x in Sort(leq, s) ensures x in s {
      assert x in multiset(Sort(leq, s));
    }
    SortedUnique(leq, Sort(leq, s), Sort(leq, t));
  }

  /** No two positions of `s` have the same key. */
  ghost predicate DistinctBy<T, K>(key: T -> K, s: seq<T>) {
    forall i, j :: 0 <= i < j < |s| ==> key(s[i]) != key(s[j])
  }

  lemma Position<T>(s: seq<T>, t: seq<T>) returns (k: nat)
    requires multiset(s) == multiset(t) && t != []
    ensures k < |s| && s[k] == t[0]
    ensures multiset(t[1..]) == multiset(s[..k] + s[k + 1..])
  {
    assert t[0] in multiset(s);
    k :| 0 <= k < |s| && s[k] == t[0];
    assert s == s[..k] + [s[k]] + s[k + 1..];
    assert t == [t[0]] + t[1..];
    assert multiset(t[1..]) == multiset(t) - multiset{t[0]};
  }

  /** Rearranging a list keeps its keys distinct. */
  lemma {:induction false} DistinctPermutation<T, K>(key: T -> K, s: seq<T>, t: seq<T>)
    requires multiset(s) == multiset(t) && DistinctBy(key, s)
    ensures DistinctBy(key, t)
  {
    if t != [] {
      var k := Position(s, t);
      var others := s[..k] + s[k + 1..];
      DistinctPermutation(key, others, t[1..]);
      forall j | 1 <= j < |t| ensures key(t[0]) != key(t[j]) {
        assert t[j] in multiset(t[1..]);
        assert t[j] in others;
      }
      forall i, j | 0 <= i < j < |t| ensures key(t[i]) != key(t[j]) {
        if i > 0 {
          assert key(t[1..][i - 1]) != key(t[1..][j - 1]);
        }
      }
    }
  }

  /** The results of `f` for all items, one after another; `f` may drop, change or split an item. */
  function Concat<T, U>(f: T -> seq<U>, items: seq<T>): seq<U> {
    if items == [] then [] else f(items[0]) + Concat(f, items[1..])
  }

  lemma {:induction false} ConcatAppend<T, U>(f: T -> seq<U>, a: seq<T>, b: seq<T>)
    ensures Concat(f, a + b) == Concat(f, a) + Concat(f, b)
  {
    if a == [] {
      assert a + b == b;
    } else {
      ConcatAppend(f, a[1..], b);
      assert (a + b)[1..] == a[1..] + b && (a + b)[0] == a[0];
      assert f(a[0]) + (Concat(f, a[1..]) + Concat(f, b)) == Concat(f, a) + Concat(f, b);
    }
  }

  lemma ConcatOne<T, U>(f: T -> seq<U>, x: T)
    ensures Concat(f, [x]) == f(x)
  {
    assert Concat(f, [x]) == f(x) + Concat(f, [x][1..]);
  }

  lemma {:induction false} ConcatMembers<T, U>(f: T -> seq<U>, items: seq<T>)
    ensures forall y :: y in Concat(f, items) <==> exists x :: x in items && y in f(x)
  {
    if items != [] {
      ConcatMembers(f, items[1..]);
      assert items == [items[0]] + items[1..];
    }
  }

  lemma {:induction false} ConcatPointwise<T, U>(f: T -> seq<U>, s: seq<T>, t: seq<T>)
    requires |s| == |t| && forall i :: 0 <= i < |s| ==> f(s[i]) == f(t[i])
    ensures Concat(f, s) == Concat(f, t)
  {
    if s != [] {
      ConcatPointwise(f, s[1..], t[1..]);
    }
  }

  lemma ConcatPrefix<T, U>(f: T -> seq<U>, s: seq<T>, k: nat)
    requires k <= |s|
    ensures Concat(f, s[..k]) <= Concat(f, s)
  {
    hide Concat;
    var a, b := s[..k], s[k..];
    assert s == a + b;
    ConcatAppend(f, a, b);
  }

  /** Rearranging the items rearranges the results. */
  lemma {:induction false} ConcatPermutation<T, U>(f: T -> seq<U>, s: seq<T>, t: seq<T>)
    requires multiset(s) == multiset(t)
    ensures multiset(Concat(f, s)) == multiset(Concat(f, t))
  {
    assert |s| == |multiset(s)| == |t|;
    if t != [] {
      var k := Position(s, t);
      ConcatPermutation(f, s[..k] + s[k + 1..], t[1..]);
      ConcatAppend(f, s[..k], s[k + 1..]);
      ConcatSplit(f, s, k);
      var a, x, b := Concat(f, s[..k]), f(s[k]), Concat(f, s[k + 1..]);
      assert multiset(a + (x + b)) == multiset(x) + multiset(a + b);
      assert Concat(f, t) == x + Concat(f, t[1..]);
    }
  }

  lemma ConcatSplit<T, U>(f: T -> seq<U>, s: seq<T>, k: nat)
    requires k < |s|
    ensures Concat(f, s) == Concat(f, s[..k]) + (f(s[k]) + Concat(f, s[k + 1..]))
  {
    var tail := s[k..];
    ConcatAppend(f, s[..k], tail);
    assert s == s[..k] + tail;
    assert tail[0] == s[k] && tail[1..] == s[k + 1..];
    assert Concat(f, tail) == f(tail[0]) + Concat(f, tail[1..]);
  }

  /** Lexicographic order of sequences, as `Ord` compares strings and vectors. */
  predicate LexLeq<T(==)>(leq: (T, T) -> bool, a: seq<T>, b: seq<T>) {
    || a == []
    || (b != [] && if a[0] == b[0] then LexLeq(leq, a[1..], b[1..]) else leq(a[0], b[0]))
  }

  lemma {:induction false} LexTotal<T(!new)>(leq: (T, T) -> bool, a: seq<T>, b: seq<T>)
    requires TotalOrder(leq)
    ensures LexLeq(leq, a, b) || LexLeq(leq, b, a)
    ensures LexLeq(leq, a, b) && LexLeq(leq, b, a) ==> a == b
  {
    if a != [] && b != [] && a[0] == b[0] {
      LexTotal(leq, a[1..], b[1..]);
      assert a == [a[0]] + a[1..] && b == [b[0]] + b[1..];
    }
  }

  lemma {:induction false} LexTransitive<T(!new)>(leq: (T, T) -> bool, a: seq<T>, b: seq<T>, c: seq<T>)
    requires TotalOrder(leq) && LexLeq(leq, a, b) && LexLeq(leq, b, c)
    ensures LexLeq(leq, a, c)
  {
    if a != [] && a[0] == b[0] && b[0] == c[0] {
      LexTransitive(leq, a[1..], b[1..], c[1..]);
    }
  }

  lemma LexTotalOrder<T(!new)>(leq: (T, T) -> bool)
    requires TotalOrder(leq)
    ensures TotalOrder((a: seq<T>, b: seq<T>) => LexLeq(leq, a, b))
  {
    forall a, b ensures (LexLeq(leq, a, b) || LexLeq(leq, b, a)) && (LexLeq(leq, a, b) && LexLeq(leq, b, a) ==> a == b) {
      LexTotal(leq, a, b);
    }
    forall a, b, c | LexLeq(leq, a, b) && LexLeq(leq, b, c) ensures LexLeq(leq, a, c) {
      LexTransitive(leq, a, b, c);
    }
  }

  predicate CharLeq(a: char, b: char) { a <= b }

  /** Byte order of UTF-8 strings, which is code point order. */
  predicate StringLeq(a: string, b: string) { LexLeq(CharLeq, a, b) }

  /** The strings first differ at `k`, where `a` has the lesser character. */
  ghost predicate LessAt(a: string, b: string, k: nat) {
    k < |a| && k < |b| && a[k] < b[k] && forall i :: 0 <= i < k ==> a[i] == b[i]
  }

  /** The order spelled out: `a` begins `b`, or has the lesser character where they first differ. */
  lemma {:induction false} StringLeqExactly(a: string, b: string)
    ensures StringLeq(a, b) <==> a <= b || exists k :: LessAt(a, b, k)
    decreases |a|
  {
    if a != "" && b != "" {
      if a[0] == b[0] {
        StringLeqExactly(a[1..], b[1..]);
        LessLater(a, b);
      } else if a[0] < b[0] {
        assert LessAt(a, b, 0);
      }
    }
  }

  lemma LessLater(a: string, b: string)
    requires a != "" && b != "" && a[0] == b[0]
    ensures a <= b <==> a[1..] <= b[1..]
    ensures (exists k :: LessAt(a, b, k)) <==> exists k :: LessAt(a[1..], b[1..], k)
  {
    assert a == [a[0]] + a[1..] && b == [b[0]] + b[1..];
    if k: nat :| LessAt(a, b, k) {
      assert LessAt(a[1..], b[1..], k - 1);
    }
    if k: nat :| LessAt(a[1..], b[1..], k) {
      assert LessAt(a, b, k + 1);
    }
  }

  /** Order of lists of strings. */
  predicate StringsLeq(a: seq<string>, b: seq<string>) { LexLeq(StringLeq, a, b) }

  /** Lists of strings: `a` begins `b`, or has the lesser string where they first differ. */
  lemma {:induction false} StringsLeqExactly(a: seq<string>, b: seq<string>)
    ensures StringsLeq(a, b) <==>
              a <= b || exists k :: 0 <= k < |a| && k < |b| && a[..k] == b[..k] && a[k] != b[k] && StringLeq(a[k], b[k])
    decreases |a|
  {
    hide StringLeq;
    if a != [] && b != [] {
      if a[0] == b[0] {
        StringsLeqExactly(a[1..], b[1..]);
        DifferLater(a, b);
      } else if StringLeq(a[0], b[0]) {
        assert a[..0] == b[..0];
      }
    }
  }

  lemma DifferLater(a: seq<string>, b: seq<string>)
    requires a != [] && b != [] && a[0] == b[0]
    ensures a <= b <==> a[1..] <= b[1..]
    ensures (exists k :: 0 <= k < |a| && k < |b| && a[..k] == b[..k] && a[k] != b[k] && StringLeq(a[k], b[k]))
            <==> exists k :: 0 <= k < |a[1..]| && k < |b[1..]| && a[1..][..k] == b[1..][..k] && a[1..][k] != b[1..][k]
                             && StringLeq(a[1..][k], b[1..][k])
  {
    hide StringLeq;
    assert a == [a[0]] + a[1..] && b == [b[0]] + b[1..];
    if k :| 0 <= k < |a| && k < |b| && a[..k] == b[..k] && a[k] != b[k] && StringLeq(a[k], b[k]) {
      assert a[1..][..k - 1] == a[..k][1..] && b[1..][..k - 1] == b[..k][1..];
      assert a[1..][k - 1] == a[k] && b[1..][k - 1] == b[k];
    }
    if k :| 0 <= k < |a[1..]| && k < |b[1..]| && a[1..][..k] == b[1..][..k] && a[1..][k] != b[1..][k] && StringLeq(a[1..][k], b[1..][k]) {
      assert a[..k + 1] == [a[0]] + a[1..][..k] && b[..k + 1] == [b[0]] + b[1..][..k];
      assert a[1..][k] == a[k + 1] && b[1..][k] == b[k + 1];
    }
  }

  lemma StringOrder()
    ensures TotalOrder(StringLeq)
  {
    LexTotalOrder(CharLeq);
    assert forall a, b :: StringLeq(a, b) == ((a: seq<char>, b: seq<char>) => LexLeq(CharLeq, a, b))(a, b);
  }

  lemma StringsOrder()
    ensures TotalOrder(StringsLeq)
  {
    StringOrder();
    LexTotalOrder(StringLeq);
    assert forall a, b :: StringsLeq(a, b) == ((a: seq<string>, b: seq<string>) => LexLeq(StringLeq, a, b))(a, b);
  }

  /** `then_with`: the order by a key, ties being decided by another order. */
  function ThenBy<T, K(==)>(key: T -> K, leq: (K, K) -> bool, next: (T, T) -> bool): (T, T) -> bool {
    (a, b) => if key(a) == key(b) then next(a, b) else leq(key(a), key(b))
  }

  lemma ThenByExactly<T, K>(key: T -> K, leq: (K, K) -> bool, next: (T, T) -> bool, a: T, b: T)
    ensures ThenBy(key, leq, next)(a, b) == if key(a) == key(b) then next(a, b) else leq(key(a), key(b))
  {
  }

  lemma ThenByPreorder<T(!new), K(!new)>(key: T -> K, leq: (K, K) -> bool, next: (T, T) -> bool)
    requires TotalOrder(leq) && TotalPreorder(next)
    ensures TotalPreorder(ThenBy(key, leq, next))
    ensures forall a, b :: ThenBy(key, leq, next)(a, b) && ThenBy(key, leq, next)(b, a) ==> key(a) == key(b) && next(a, b) && next(b, a)
  {
  }

  // ---------- sizes

  ghost predicate Distinct<T>(s: seq<T>) {
    forall i, j :: 0 <= i < j < |s| ==> s[i] != s[j]
  }

  lemma {:induction false} SubsetSize<T>(a: set<T>, b: set<T>)
    requires a <= b
    ensures |a| <= |b|
  {
    if a != {} {
      var x :| x in a;
      SubsetSize(a - {x}, b - {x});
    }
  }

  /** A list without repetitions is no longer than a list that holds all its elements. */
  lemma {:induction false} DistinctSize<T>(s: seq<T>, t: seq<T>)
    requires Distinct(s) && forall x :: x in s ==> x in t
    ensures |s| <= |t|
  {
    if s != [] {
      assert s[0] in s;
      var k :| 0 <= k < |t| && t[k] == s[0];
      var rest := s[1..];
      assert forall i :: 0 <= i < |rest| ==> rest[i] == s[i + 1];
      forall x | x in rest ensures x in t[..k] + t[k + 1..] {
        var i :| 0 <= i < |rest| && rest[i] == x;
        assert s[0] != s[i + 1];
        assert x in t;
        assert t == t[..k] + [t[k]] + t[k + 1..];
      }
      DistinctSize(rest, t[..k] + t[k + 1..]);
    }
  }
}
