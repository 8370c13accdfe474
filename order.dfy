/**
 * The order Go's sort.Strings uses. Go compares strings byte by byte;
 * UTF-8 preserves code-point order, so comparing the code points of two
 * strings gives the same answer. Key order of a map, which the sort stage
 * produces by collecting keys in an unspecified order and then sorting
 * them, is `Ordered(m.Keys)`.
 */
module StringOrder {

  /** Lexicographic order: a proper prefix comes first. */
  predicate Less(a: string, b: string)
  {
    if |a| == 0 then |b| > 0
    else if |b| == 0 then false
    else if a[0] == b[0] then Less(a[1..], b[1..])
    else a[0] < b[0]
  }

  predicate LessEq(a: string, b: string)
  {
    a == b || Less(a, b)
  }

  lemma {:induction false} LessIrreflexive(a: string)
    ensures !Less(a, a)
  {
    if |a| > 0 {
      LessIrreflexive(a[1..]);
    }
  }

  lemma {:induction false} LessTransitive(a: string, b: string, c: string)
    requires Less(a, b) && Less(b, c)
    ensures Less(a, c)
  {
    if |a| > 0 && |b| > 0 && |c| > 0 && a[0] == b[0] && b[0] == c[0] {
      LessTransitive(a[1..], b[1..], c[1..]);
    }
  }

  lemma {:induction false} LessTotal(a: string, b: string)
    requires a != b
    ensures Less(a, b) || Less(b, a)
  {
    if |a| > 0 && |b| > 0 && a[0] == b[0] {
      assert a == [a[0]] + a[1..] && b == [b[0]] + b[1..];
      LessTotal(a[1..], b[1..]);
    }
  }

  lemma {:induction false} LessAsymmetric(a: string, b: string)
    requires Less(a, b)
    ensures !Less(b, a)
  {
    if |a| > 0 && |b| > 0 && a[0] == b[0] {
      LessAsymmetric(a[1..], b[1..]);
    }
  }

  predicate Sorted(s: seq<string>)
  {
    forall i, j :: 0 <= i < j < |s| ==> LessEq(s[i], s[j])
  }

  predicate StrictlySorted(s: seq<string>)
  {
    forall i, j :: 0 <= i < j < |s| ==> Less(s[i], s[j])
  }

  /** Inserts `x` into a sorted sequence after every element not above it. */
  function Insert(x: string, s: seq<string>): (r: seq<string>)
    requires Sorted(s)
    ensures Sorted(r)
    ensures multiset(r) == multiset(s) + multiset{x}
  {
    if |s| == 0 then [x]
    else if LessEq(s[0], x) then
      var t := Insert(x, s[1..]);
      assert s == [s[0]] + s[1..];
      assert forall k :: 0 <= k < |t| ==> LessEq(s[0], t[k]) by {
        forall k | 0 <= k < |t|
          ensures LessEq(s[0], t[k])
        {
          assert t[k] in multiset(t);
          if t[k] != x {
            assert t[k] in multiset(s[1..]);
            var j :| 0 <= j < |s[1..]| && s[1..][j] == t[k];
            assert s[j + 1] == t[k];
          }
        }
      }
      [s[0]] + t
    else
      assert Less(x, s[0]) by { LessTotal(x, s[0]); }
      assert forall k :: 0 <= k < |s| ==> Less(x, s[k]) by {
        forall k | 0 <= k < |s|
          ensures Less(x, s[k])
        {
          if k > 0 && s[0] != s[k] {
            LessTransitive(x, s[0], s[k]);
          }
        }
      }
      [x] + s
  }

  /**
   * sort.Strings, modelled by an insertion sort. Any sorted permutation
   * equals this one (SortedUnique), so Go's algorithm is immaterial.
   */
  function SortStrings(s: seq<string>): (r: seq<string>)
    ensures Sorted(r)
    ensures multiset(r) == multiset(s)
    ensures |r| == |s|
  {
    if |s| == 0 then []
    else
      assert s == [s[0]] + s[1..];
      Insert(s[0], SortStrings(s[1..]))
  }

  lemma {:induction false} LessEqAntisymmetric(a: string, b: string)
    requires LessEq(a, b) && LessEq(b, a)
    ensures a == b
  {
    if a != b {
      LessAsymmetric(a, b);
    }
  }

  /** The head of a sorted sequence is at most each of its elements. */
  lemma HeadIsLeast(a: seq<string>, x: string)
    requires Sorted(a) && |a| > 0 && x in multiset(a)
    ensures LessEq(a[0], x)
  {
    var i :| 0 <= i < |a| && a[i] == x;
    if i > 0 {
      assert LessEq(a[0], a[i]);
    }
  }

  /** A sorted sequence is determined by its multiset of elements. */
  lemma {:induction false} SortedUnique(a: seq<string>, b: seq<string>)
    requires Sorted(a) && Sorted(b)
    requires multiset(a) == multiset(b)
    ensures a == b
  {
    if |a| == 0 {
      assert |b| == |multiset(b)| == 0;
    } else {
      assert |b| == |multiset(b)| == |multiset(a)| == |a|;
      assert a[0] in multiset(b) && b[0] in multiset(a);
      HeadIsLeast(b, a[0]);
      HeadIsLeast(a, b[0]);
      LessEqAntisymmetric(a[0], b[0]);
      SortedTail(a);
      SortedTail(b);
      SortedUnique(a[1..], b[1..]);
    }
  }

  /** The tail of a sorted sequence is sorted and holds the other elements. */
  lemma SortedTail(a: seq<string>)
    requires Sorted(a) && |a| > 0
    ensures Sorted(a[1..])
    ensures a == [a[0]] + a[1..]
    ensures multiset(a[1..]) == multiset(a) - multiset{a[0]}
  {
    assert a == [a[0]] + a[1..];
    forall i, j | 0 <= i < j < |a[1..]|
      ensures LessEq(a[1..][i], a[1..][j])
    {
      assert a[1..][i] == a[i + 1] && a[1..][j] == a[j + 1];
    }
  }

  /** Sorting twice gains nothing, and the order of the input does not matter. */
  lemma SortStringsCanonical(s: seq<string>, t: seq<string>)
    requires multiset(s) == multiset(t)
    ensures SortStrings(s) == SortStrings(t)
    ensures SortStrings(SortStrings(s)) == SortStrings(s)
  {
    SortedUnique(SortStrings(s), SortStrings(t));
    SortedUnique(SortStrings(SortStrings(s)), SortStrings(s));
  }

  lemma {:induction false} SortedFixed(s: seq<string>)
    requires Sorted(s)
    ensures SortStrings(s) == s
  {
    SortedUnique(SortStrings(s), s);
  }

  lemma {:induction false} MinExists(s: set<string>)
    requires s != {}
    ensures exists m :: m in s && forall y :: y in s ==> LessEq(m, y)
  {
    var x :| x in s;
    var rest := s - {x};
    if rest == {} {
      assert s == {x};
    } else {
      MinExists(rest);
      var m :| m in rest && forall y :: y in rest ==> LessEq(m, y);
      if LessEq(m, x) {
        forall y | y in s
          ensures LessEq(m, y)
        {
          if y != x {
            assert y in rest;
          }
        }
        assert m in s;
      } else {
        LessTotal(m, x);
        forall y | y in s
          ensures LessEq(x, y)
        {
          if y != x {
            assert y in rest;
            if y != m {
              LessTransitive(x, m, y);
            }
          }
        }
      }
    }
  }

  /** The elements of `s` in ascending order: what sorting its keys yields. */
  ghost function Ordered(s: set<string>): (r: seq<string>)
    ensures StrictlySorted(r)
    ensures forall x :: x in r <==> x in s
    ensures |r| == |s|
    ensures multiset(r) == multiset(s)
    decreases |s|
  {
    if s == {} then []
    else
      MinExists(s);
      var m :| m in s && forall y :: y in s ==> LessEq(m, y);
      var t := Ordered(s - {m});
      OrderedCons(s, m, t);
      [m] + t
  }

  /** Putting the least element in front of the others in order keeps them in order. */
  lemma OrderedCons(s: set<string>, m: string, t: seq<string>)
    requires m in s && forall y :: y in s ==> LessEq(m, y)
    requires StrictlySorted(t) && (forall x :: x in t <==> x in s - {m})
    requires |t| == |s - {m}| && multiset(t) == multiset(s - {m})
    ensures StrictlySorted([m] + t)
    ensures forall x :: x in [m] + t <==> x in s
    ensures |[m] + t| == |s|
    ensures multiset([m] + t) == multiset(s)
  {
    forall k | 0 <= k < |t|
      ensures Less(m, t[k])
    {
      assert t[k] in s - {m};
    }
    assert multiset(s) == multiset(s - {m}) + multiset{m};
  }

  /** The keys of `s` in key order are exactly a sorted arrangement of them. */
  lemma OrderedIsSortedKeys(keys: seq<string>, s: set<string>)
    requires multiset(keys) == multiset(s)
    ensures SortStrings(keys) == Ordered(s)
  {
    SortedUnique(SortStrings(keys), Ordered(s));
  }

  /** Collecting the keys of a map by ranging over it, in whatever order Go visits them. */
  method KeysOf<V>(m: map<string, V>) returns (keys: seq<string>)
    ensures multiset(keys) == multiset(m.Keys)
  {
    keys := [];
    var rest := m.Keys;
    while rest != {}
      invariant rest <= m.Keys
      invariant multiset(keys) + multiset(rest) == multiset(m.Keys)
      decreases |rest|
    {
      var k :| k in rest;
      assert multiset(rest) == multiset(rest - {k}) + multiset{k};
      keys := keys + [k];
      rest := rest - {k};
    }
  }

  /** The key-collection loop followed by sort.Strings. */
  method SortedKeys<V>(m: map<string, V>) returns (keys: seq<string>)
    ensures keys == Ordered(m.Keys)
  {
    var collected := KeysOf(m);
    keys := SortStrings(collected);
    OrderedIsSortedKeys(collected, m.Keys);
  }
}
