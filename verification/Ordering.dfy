/**
 Strict total orders, strictly sorted sequences, and the ascending traversal of
 a finite set.  An ordered container of the program (std::map, std::set, a
 sorted std::vector) is a Dafny set or map together with this traversal.
 */
module Ordering {

  ghost predicate TotalOrder<T(!new)>(less: (T, T) -> bool) {
    && (forall a :: !less(a, a))
    && (forall a, b :: a != b ==> less(a, b) || less(b, a))
    && (forall a, b, c {:trigger less(a, b), less(b, c)} :: less(a, b) && less(b, c) ==> less(a, c))
  }

  /** A strict total order on the elements of s. */
  ghost predicate TotalOn<T>(s: set<T>, less: (T, T) -> bool) {
    && (forall a :: a in s ==> !less(a, a))
    && (forall a, b :: a in s && b in s && a != b ==> less(a, b) || less(b, a))
    && (forall a, b, c {:trigger less(a, b), less(b, c)} :: a in s && b in s && c in s && less(a, b) && less(b, c) ==>
        less(a, c))
  }

  ghost predicate Asymmetric<T(!new)>(less: (T, T) -> bool) {
    forall a, b {:trigger less(a, b)} :: less(a, b) ==> !less(b, a)
  }

  ghost predicate StrictlySorted<T>(s: seq<T>, less: (T, T) -> bool) {
    forall i, j :: 0 <= i < j < |s| ==> less(s[i], s[j])
  }

  predicate IsLeast<T(==)>(least: T, s: set<T>, less: (T, T) -> bool) {
    least in s && forall x :: x in s ==> x == least || less(least, x)
  }

  lemma {:induction false} LeastExists<T>(s: set<T>, less: (T, T) -> bool)
    requires TotalOn(s, less)
    requires s != {}
    ensures exists least :: IsLeast(least, s, less)
    decreases s
  {
    var pick :| pick in s;
    if s == {pick} {
      assert IsLeast(pick, s, less);
    } else {
      var rest := s - {pick};
      assert s == rest + {pick};
      LeastExists(rest, less);
      var least' :| IsLeast(least', rest, less);
      assert IsLeast(if less(pick, least') then pick else least', s, less);
    }
  }

  /** The elements of a set in ascending order. */
  function Ascending<T(==,!new)>(s: set<T>, less: (T, T) -> bool): (r: seq<T>)
    requires TotalOn(s, less)
    ensures StrictlySorted(r, less)
    ensures forall x :: x in r <==> x in s
    ensures |r| == |s|
    decreases s
  {
    if s == {} then [] else
      LeastExists(s, less);
      var least :| least in s && IsLeast(least, s, less);
      [least] + Ascending(s - {least}, less)
  }

  /** A strictly sorted sequence is determined by its elements. */
  lemma {:induction false} SortedUnique<T(!new)>(s: seq<T>, t: seq<T>, less: (T, T) -> bool)
    requires Asymmetric(less)
    requires StrictlySorted(s, less) && StrictlySorted(t, less)
    requires forall x :: x in s <==> x in t
    ensures s == t
  {
    assert t != [] ==> t[0] in t;
    if s == [] {
    } else {
      assert s[0] in t && t != [];
      assert s[0] == t[0] by {
        assert s[0] in t && t[0] in s;
        var i :| 0 <= i < |t| && t[i] == s[0];
        var j :| 0 <= j < |s| && s[j] == t[0];
        assert forall k :: 0 < k < |t| ==> less(t[0], t[k]);
        assert forall k :: 0 < k < |s| ==> less(s[0], s[k]);
      }
      forall x ensures x in s[1..] <==> x in t[1..] {
        assert x in s <==> x == s[0] || x in s[1..];
        assert x in t <==> x == t[0] || x in t[1..];
      }
      SortedUnique(s[1..], t[1..], less);
    }
  }

  /** The chosen elements of a sequence, in their order. */
  function Keep<T(==)>(s: seq<T>, chosen: set<T>): seq<T> {
    if s == [] then [] else
      Keep(s[..|s| - 1], chosen) + if s[|s| - 1] in chosen then [s[|s| - 1]] else []
  }

  lemma {:induction false} KeepSorted<T>(s: seq<T>, chosen: set<T>, less: (T, T) -> bool)
    requires StrictlySorted(s, less)
    ensures StrictlySorted(Keep(s, chosen), less)
    ensures forall i :: 0 <= i < |Keep(s, chosen)| ==> Keep(s, chosen)[i] in s && Keep(s, chosen)[i] in chosen
    ensures forall i :: 0 <= i < |s| && s[i] in chosen ==> s[i] in Keep(s, chosen)
  {
    if s == [] {
    } else {
      var front, last := s[..|s| - 1], s[|s| - 1];
      KeepSorted(front, chosen, less);
      assert s == front + [last];
      var kept := Keep(front, chosen);
      forall i | 0 <= i < |kept| ensures less(kept[i], last) {
        assert kept[i] in front;
        var j :| 0 <= j < |front| && front[j] == kept[i];
        assert less(s[j], s[|front|]);
      }
    }
  }

  /** Filtering an ascending traversal gives the ascending traversal of the subset. */
  lemma KeepAscending<T(!new)>(s: set<T>, chosen: set<T>, less: (T, T) -> bool)
    requires TotalOrder(less) && Asymmetric(less)
    requires chosen <= s
    ensures Keep(Ascending(s, less), chosen) == Ascending(chosen, less)
  {
    KeepSorted(Ascending(s, less), chosen, less);
    SortedUnique(Keep(Ascending(s, less), chosen), Ascending(chosen, less), less);
  }

  // Counting what a filter keeps

  function Elements<T>(s: seq<T>): set<T> {
    set x | x in s
  }

  lemma OneMore<T>(front: set<T>, last: T, chosen: set<T>)
    requires last !in front
    ensures |(front + {last}) * chosen| == |front * chosen| + if last in chosen then 1 else 0
  {
    if last in chosen {
      assert (front + {last}) * chosen == front * chosen + {last};
    } else {
      assert (front + {last}) * chosen == front * chosen;
    }
  }

  predicate Distinct<T(==)>(s: seq<T>) {
    forall i, j :: 0 <= i < j < |s| ==> s[i] != s[j]
  }

  lemma ElementsStep<T>(front: seq<T>, last: T)
    ensures Elements(front + [last]) == Elements(front) + {last}
    ensures Distinct(front + [last]) ==> Distinct(front) && last !in Elements(front)
  {
    var s := front + [last];
    assert s[|front|] == last && forall i :: 0 <= i < |front| ==> s[i] == front[i];
  }

  lemma {:induction false} KeptCount<T>(keys: seq<T>, chosen: set<T>)
    requires Distinct(keys)
    ensures |Keep(keys, chosen)| == |Elements(keys) * chosen|
  {
    hide Elements, Distinct;
    if keys != [] {
      var front, last := keys[..|keys| - 1], keys[|keys| - 1];
      assert keys == front + [last];
      ElementsStep(front, last);
      KeptCount(front, chosen);
      OneMore(Elements(front), last, chosen);
    } else {
      NoElements(keys, chosen);
    }
  }

  lemma NoElements<T>(s: seq<T>, chosen: set<T>)
    requires s == []
    ensures |Elements(s) * chosen| == 0
  {
    assert Elements(s) * chosen == {};
  }

  lemma AscendingIsDistinct<T(!new)>(s: set<T>, less: (T, T) -> bool)
    requires TotalOrder(less)
    ensures Distinct(Ascending(s, less)) && Elements(Ascending(s, less)) == s
  {
    var r := Ascending(s, less);
    forall i, j | 0 <= i < j < |r| ensures r[i] != r[j] { assert less(r[i], r[j]); }
  }

  // Lexicographic order of sequences of integers: std::string's operator<=>.

  predicate LexLess(a: seq<int>, b: seq<int>) {
    b != [] && (a == [] || a[0] < b[0] || (a[0] == b[0] && LexLess(a[1..], b[1..])))
  }

  lemma {:induction false} LexTrichotomy(a: seq<int>, b: seq<int>)
    ensures !(LexLess(a, b) && LexLess(b, a))
    ensures a == b || LexLess(a, b) || LexLess(b, a)
    ensures a == b ==> !LexLess(a, b)
  {
    if a != [] && b != [] {
      LexTrichotomy(a[1..], b[1..]);
      if a[0] == b[0] && a[1..] == b[1..] { assert a == [a[0]] + a[1..] && b == [b[0]] + b[1..]; }
    }
  }

  lemma {:induction false} LexTransitive(a: seq<int>, b: seq<int>, c: seq<int>)
    requires LexLess(a, b) && LexLess(b, c)
    ensures LexLess(a, c)
  {
    if a != [] && a[0] == b[0] && b[0] == c[0] { LexTransitive(a[1..], b[1..], c[1..]); }
  }

  /** One sequence runs out, or has the smaller element, at the first place where the two differ. */
  predicate SmallerAt(a: seq<int>, b: seq<int>, n: nat) {
    n <= |a| && n < |b| && a[..n] == b[..n] && (n == |a| || a[n] < b[n])
  }

  lemma {:induction false} LexLessIff(a: seq<int>, b: seq<int>)
    ensures LexLess(a, b) <==> exists n: nat :: SmallerAt(a, b, n)
  {
    if a == [] || b == [] {
      if b != [] { assert SmallerAt(a, b, 0); }
    } else {
      LexLessIff(a[1..], b[1..]);
      if a[0] < b[0] { assert SmallerAt(a, b, 0); }
      if a[0] == b[0] && LexLess(a[1..], b[1..]) {
        var n: nat :| SmallerAt(a[1..], b[1..], n);
        assert a[..n + 1] == [a[0]] + a[1..][..n] && b[..n + 1] == [b[0]] + b[1..][..n];
        assert SmallerAt(a, b, n + 1);
      }
      if n: nat :| SmallerAt(a, b, n) {
        if n > 0 {
          assert a[..n][0] == a[0] && b[..n][0] == b[0];
          assert a[1..][..n - 1] == a[..n][1..] && b[1..][..n - 1] == b[..n][1..];
          assert SmallerAt(a[1..], b[1..], n - 1);
        }
      }
    }
  }
}
