/**
 * PHP `sort()` on a short list of strings, and `implode('', ...)`.
 *
 * The comparison is a parameter `less`. PHP's default `SORT_REGULAR` compares
 * two strings byte-wise unless both are numeric strings, in which case it
 * compares them as numbers. Whatever the comparison, when it is a strict total
 * order on the values being sorted there is exactly one ascending arrangement
 * of them (SortedUnique), so every correct sorting algorithm (PHP's included)
 * yields the same list as the insertion sort below.
 */
module StringSort {

  /** `less` is irreflexive, total and transitive on the values in `dom`. */
  ghost predicate StrictTotalOn(less: (string, string) -> bool, dom: multiset<string>)
  {
    && (forall a | a in dom :: !less(a, a))
    && (forall a, b | a in dom && b in dom && a != b :: less(a, b) || less(b, a))
    && (forall a, b, c | a in dom && b in dom && c in dom && less(a, b) && less(b, c) :: less(a, c))
  }

  /** No element is strictly smaller than one before it. */
  predicate Sorted(less: (string, string) -> bool, s: seq<string>)
  {
    forall i, j | 0 <= i < j < |s| :: !less(s[j], s[i])
  }

  /** Places `x` before the first element of `s` that is not smaller than it. */
  function Insert(x: string, s: seq<string>, less: (string, string) -> bool): (r: seq<string>)
    ensures multiset(r) == multiset(s) + multiset{x}
  {
    if s == [] || !less(s[0], x) then [x] + s
    else
      assert s == [s[0]] + s[1..];
      [s[0]] + Insert(x, s[1..], less)
  }

  /** Ascending insertion sort; the result is a permutation of the input. */
  function Sort(s: seq<string>, less: (string, string) -> bool): (r: seq<string>)
    ensures multiset(r) == multiset(s)
  {
    if s == [] then []
    else
      assert s == [s[0]] + s[1..];
      Insert(s[0], Sort(s[1..], less), less)
  }

  /** PHP `implode('', $parts)`. */
  function Concat(parts: seq<string>): string
  {
    if parts == [] then "" else parts[0] + Concat(parts[1..])
  }

  lemma ConcatFour(a: string, b: string, c: string, d: string)
    ensures Concat([a, b, c, d]) == a + b + c + d
  {
    assert [d][1..] == [];
    assert Concat([d]) == d;
    assert [c, d][1..] == [d];
    assert Concat([c, d]) == c + d;
    assert [b, c, d][1..] == [c, d];
    assert Concat([b, c, d]) == b + (c + d);
    assert [a, b, c, d][1..] == [b, c, d];
    assert a + (b + (c + d)) == a + b + c + d;
  }

  lemma StrictTotalOnSubset(less: (string, string) -> bool, small: multiset<string>, big: multiset<string>)
    requires small <= big
    requires StrictTotalOn(less, big)
    ensures StrictTotalOn(less, small)
  {
  }

  /** Under a strict total order, "not smaller than" chains. */
  lemma NotLessChain(less: (string, string) -> bool, dom: multiset<string>, a: string, b: string, c: string)
    requires StrictTotalOn(less, dom)
    requires a in dom && b in dom && c in dom
    requires !less(a, b) && !less(b, c)
    ensures !less(a, c)
  {
  }

  /** No element of `s` is smaller than `bound`. */
  predicate NotBelow(less: (string, string) -> bool, s: seq<string>, bound: string)
  {
    forall j | 0 <= j < |s| :: !less(s[j], bound)
  }

  lemma ConsSorted(less: (string, string) -> bool, b: string, s: seq<string>)
    requires Sorted(less, s) && NotBelow(less, s, b)
    ensures Sorted(less, [b] + s)
  {
    var r := [b] + s;
    forall i, j | 0 <= i < j < |r| ensures !less(r[j], r[i]) {
      assert r[j] == s[j - 1];
      if i > 0 {
        assert r[i] == s[i - 1];
      }
    }
  }

  lemma {:induction false} InsertNotBelow(less: (string, string) -> bool, x: string, s: seq<string>, b: string)
    requires NotBelow(less, s, b) && !less(x, b)
    ensures NotBelow(less, Insert(x, s, less), b)
  {
    if s != [] && less(s[0], x) {
      InsertNotBelow(less, x, s[1..], b);
      var rest := Insert(x, s[1..], less);
      assert forall j | 1 <= j < |rest| + 1 :: ([s[0]] + rest)[j] == rest[j - 1];
    }
  }

  /** Inserting `x` at the front keeps a sorted list sorted when nothing in it is below `x`. */
  lemma InsertFrontSorted(x: string, s: seq<string>, less: (string, string) -> bool)
    requires Sorted(less, s) && s != [] && !less(s[0], x)
    requires StrictTotalOn(less, multiset(s) + multiset{x})
    ensures NotBelow(less, s, x)
  {
    var dom := multiset(s) + multiset{x};
    forall j | 0 <= j < |s| ensures !less(s[j], x) {
      assert s[j] in dom && s[0] in dom && x in dom;
      if j > 0 {
        NotLessChain(less, dom, s[j], s[0], x);
      }
    }
  }

  lemma {:induction false} InsertSorted(x: string, s: seq<string>, less: (string, string) -> bool)
    requires Sorted(less, s)
    requires StrictTotalOn(less, multiset(s) + multiset{x})
    ensures Sorted(less, Insert(x, s, less))
  {
    if s == [] {
    } else if !less(s[0], x) {
      InsertFrontSorted(x, s, less);
      ConsSorted(less, x, s);
    } else {
      var dom := multiset(s) + multiset{x};
      assert s == [s[0]] + s[1..];
      StrictTotalOnSubset(less, multiset(s[1..]) + multiset{x}, dom);
      InsertSorted(x, s[1..], less);
      assert s[0] in dom && x in dom;
      assert !less(x, s[0]);
      assert NotBelow(less, s[1..], s[0]) by {
        forall j | 0 <= j < |s[1..]| ensures !less(s[1..][j], s[0]) {
          assert s[1..][j] == s[j + 1];
        }
      }
      InsertNotBelow(less, x, s[1..], s[0]);
      ConsSorted(less, s[0], Insert(x, s[1..], less));
    }
  }

  lemma {:induction false} SortSorted(s: seq<string>, less: (string, string) -> bool)
    requires StrictTotalOn(less, multiset(s))
    ensures Sorted(less, Sort(s, less))
  {
    if s != [] {
      assert s == [s[0]] + s[1..];
      StrictTotalOnSubset(less, multiset(s[1..]), multiset(s));
      SortSorted(s[1..], less);
      InsertSorted(s[0], Sort(s[1..], less), less);
    }
  }

  /** No value of a sorted list is smaller than its head. */
  lemma SortedHeadLeast(less: (string, string) -> bool, s: seq<string>, x: string)
    requires Sorted(less, s)
    requires StrictTotalOn(less, multiset(s))
    requires x in multiset(s)
    ensures !less(x, s[0])
  {
    var k :| 0 <= k < |s| && s[k] == x;
    assert s[0] in multiset(s);
    assert k == 0 || !less(s[k], s[0]);
  }

  /** Two sorted lists holding the same values start with the same value. */
  lemma SortedSameHead(a: seq<string>, b: seq<string>, less: (string, string) -> bool)
    requires Sorted(less, a) && Sorted(less, b) && a != []
    requires multiset(a) == multiset(b)
    requires StrictTotalOn(less, multiset(a))
    ensures b != [] && a[0] == b[0]
  {
    assert a[0] in multiset(a);
    assert b != [];
    assert b[0] in multiset(b);
    SortedHeadLeast(less, b, a[0]);
    SortedHeadLeast(less, a, b[0]);
  }

  lemma HeadAndTail(a: seq<string>)
    requires a != []
    ensures a == [a[0]] + a[1..]
    ensures multiset(a) == multiset{a[0]} + multiset(a[1..])
  {
    assert a == [a[0]] + a[1..];
  }

  lemma SameTails(a: seq<string>, b: seq<string>)
    requires a != [] && b != [] && a[0] == b[0]
    requires multiset(a) == multiset(b)
    ensures multiset(a[1..]) == multiset(b[1..])
    ensures multiset(a[1..]) <= multiset(a)
  {
    HeadAndTail(a);
    HeadAndTail(b);
    assert multiset(a[1..]) == multiset(a) - multiset{a[0]};
  }

  lemma SortedTail(less: (string, string) -> bool, s: seq<string>)
    requires Sorted(less, s) && s != []
    ensures Sorted(less, s[1..])
  {
    forall i, j | 0 <= i < j < |s| - 1 ensures !less(s[1..][j], s[1..][i]) {
      assert s[1..][j] == s[j + 1] && s[1..][i] == s[i + 1];
    }
  }

  /** Two ascending arrangements of the same values are the same list. */
  lemma {:induction false} SortedUnique(a: seq<string>, b: seq<string>, less: (string, string) -> bool)
    requires Sorted(less, a) && Sorted(less, b)
    requires multiset(a) == multiset(b)
    requires StrictTotalOn(less, multiset(a))
    ensures a == b
  {
    if a == [] {
      assert |b| == |multiset(b)| == 0;
    } else {
      SortedSameHead(a, b, less);
      SameTails(a, b);
      StrictTotalOnSubset(less, multiset(a[1..]), multiset(a));
      SortedTail(less, a);
      SortedTail(less, b);
      SortedUnique(a[1..], b[1..], less);
      HeadAndTail(a);
      HeadAndTail(b);
    }
  }

  /** Sorting forgets the order in which the values were listed. */
  lemma SortPermutationInvariant(a: seq<string>, b: seq<string>, less: (string, string) -> bool)
    requires multiset(a) == multiset(b)
    requires StrictTotalOn(less, multiset(a))
    ensures Sort(a, less) == Sort(b, less)
  {
    SortSorted(a, less);
    SortSorted(b, less);
    SortedUnique(Sort(a, less), Sort(b, less), less);
  }

  /** Byte-order sorting of `list` yields `sorted` whenever `sorted` is an ascending arrangement of it. */
  lemma ByteSortIs(list: seq<string>, sorted: seq<string>)
    requires multiset(sorted) == multiset(list)
    requires Sorted(ByteLess, sorted)
    ensures Sort(list, ByteLess) == sorted
  {
    ByteLessStrictTotal(multiset(list));
    SortSorted(list, ByteLess);
    SortedUnique(Sort(list, ByteLess), sorted, ByteLess);
  }

  /** C `strcmp` order: first differing byte decides, a proper prefix comes first. */
  predicate ByteLess(a: string, b: string)
  {
    if |a| == 0 then |b| > 0
    else if |b| == 0 then false
    else if a[0] != b[0] then a[0] < b[0]
    else ByteLess(a[1..], b[1..])
  }

  /** Strings that differ in their first byte are ordered by it. */
  lemma FirstByteDecides(a: string, b: string)
    requires |a| > 0 && |b| > 0 && a[0] != b[0]
    ensures ByteLess(a, b) <==> a[0] < b[0]
  {
  }

  lemma {:induction false} ByteLessIrreflexive(a: string)
    ensures !ByteLess(a, a)
  {
    if |a| > 0 { ByteLessIrreflexive(a[1..]); }
  }

  lemma {:induction false} ByteLessTotal(a: string, b: string)
    requires a != b
    ensures ByteLess(a, b) || ByteLess(b, a)
  {
    if |a| > 0 && |b| > 0 && a[0] == b[0] {
      assert a == [a[0]] + a[1..] && b == [b[0]] + b[1..];
      ByteLessTotal(a[1..], b[1..]);
    }
  }

  lemma {:induction false} ByteLessTransitive(a: string, b: string, c: string)
    requires ByteLess(a, b) && ByteLess(b, c)
    ensures ByteLess(a, c)
  {
    if |a| > 0 && a[0] == b[0] && b[0] == c[0] {
      ByteLessTransitive(a[1..], b[1..], c[1..]);
    }
  }

  /** Byte order is a strict total order on any collection of strings. */
  lemma ByteLessStrictTotal(dom: multiset<string>)
    ensures StrictTotalOn(ByteLess, dom)
  {
    forall a | a in dom ensures !ByteLess(a, a) {
      ByteLessIrreflexive(a);
    }
    forall a, b | a in dom && b in dom && a != b ensures ByteLess(a, b) || ByteLess(b, a) {
      ByteLessTotal(a, b);
    }
    forall a, b, c | a in dom && b in dom && c in dom && ByteLess(a, b) && ByteLess(b, c)
      ensures ByteLess(a, c)
    {
      ByteLessTransitive(a, b, c);
    }
  }
}
