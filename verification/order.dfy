/** Python's `sorted` on the key sets of the controller's two registries:
    integers in numeric order, strings in code-point lexicographic order. */
module Order {

  /** Python's `a < b` on two `str` values. */
  predicate LexLess(a: string, b: string)
  {
    if |a| == 0 then |b| > 0
    else if |b| == 0 then false
    else if a[0] != b[0] then a[0] < b[0]
    else LexLess(a[1..], b[1..])
  }

  lemma {:induction false} LexIrreflexive(a: string)
    ensures !LexLess(a, a)
  {
    if |a| > 0 {
      LexIrreflexive(a[1..]);
    }
  }

  lemma {:induction false} LexTransitive(a: string, b: string, c: string)
    requires LexLess(a, b) && LexLess(b, c)
    ensures LexLess(a, c)
  {
    if |a| > 0 && a[0] == b[0] && b[0] == c[0] {
      LexTransitive(a[1..], b[1..], c[1..]);
    }
  }

  lemma {:induction false} LexTotal(a: string, b: string)
    ensures a == b || LexLess(a, b) || LexLess(b, a)
  {
    if |a| > 0 && |b| > 0 && a[0] == b[0] {
      LexTotal(a[1..], b[1..]);
      if a[1..] == b[1..] {
        assert a == [a[0]] + a[1..] && b == [b[0]] + b[1..];
      }
    }
  }

  /** No two strings are each less than the other. */
  lemma LexAsymmetric()
    ensures forall a, b :: LexLess(a, b) ==> !LexLess(b, a)
  {
    forall a, b | LexLess(a, b)
      ensures !LexLess(b, a)
    {
      if LexLess(b, a) {
        LexTransitive(a, b, a);
        LexIrreflexive(a);
      }
    }
  }

  /** A non-empty finite set of strings has a least element. */
  lemma StringMinExists(s: set<string>)
    requires s != {}
    ensures exists m :: m in s && forall x :: x in s && x != m ==> LexLess(m, x)
  {
    var m := LeastString(s);
  }

  /** The least element of a non-empty finite set of strings, by induction
      on the set's size. */
  lemma {:induction false} LeastString(s: set<string>) returns (m: string)
    requires s != {}
    ensures m in s && forall x :: x in s && x != m ==> LexLess(m, x)
    decreases |s|
  {
    var y :| y in s;
    if s == {y} {
      m := y;
    } else {
      var rest := s - {y};
      var least := LeastString(rest);
      LexTotal(least, y);
      if LexLess(least, y) {
        m := least;
        forall x | x in s && x != m
          ensures LexLess(m, x)
        {
          if x != y {
            assert x in rest;
          }
        }
      } else {
        m := y;
        forall x | x in s && x != y
          ensures LexLess(y, x)
        {
          assert x in rest;
          if x != least {
            LexTransitive(y, least, x);
          }
        }
      }
    }
  }

  /** A non-empty finite set of integers has a least element. */
  lemma IntMinExists(s: set<int>)
    requires s != {}
    ensures exists m :: m in s && forall x :: x in s ==> m <= x
  {
    var m := LeastInt(s);
  }

  /** The least element of a non-empty finite set of integers, by induction
      on the set's size. */
  lemma {:induction false} LeastInt(s: set<int>) returns (m: int)
    requires s != {}
    ensures m in s && forall x :: x in s ==> m <= x
    decreases |s|
  {
    var y := PickInt(s);
    if s == {y} {
      m := y;
    } else {
      var rest := s - {y};
      var least := LeastInt(rest);
      m := if y < least then y else least;
      forall x | x in s
        ensures m <= x
      {
        if x != y {
          assert x in rest;
        }
      }
    }
  }

  /** Some element of a non-empty set of integers. */
  lemma PickInt(s: set<int>) returns (y: int)
    requires s != {}
    ensures y in s
  {
    // The verifier does not find a member of a non-empty set by itself;
    // ruling out "no member" gives it the witness.
    if forall z :: z !in s {
      assert false;
    }
    y :| y in s;
  }

  function MinInt(s: set<int>): (m: int)
    requires s != {}
    ensures m in s && forall x :: x in s ==> m <= x
  {
    IntMinExists(s);
    var m :| m in s && forall x :: x in s ==> m <= x; m
  }

  function MinString(s: set<string>): (m: string)
    requires s != {}
    ensures m in s && forall x :: x in s && x != m ==> LexLess(m, x)
  {
    StringMinExists(s);
    LexAsymmetric();
    var m :| m in s && forall x :: x in s && x != m ==> LexLess(m, x); m
  }

  /** `sorted(s)` for a set of integers. */
  function SortedInts(s: set<int>): (r: seq<int>)
    ensures |r| == |s|
    ensures forall i :: 0 <= i < |r| ==> r[i] in s
    ensures forall x :: x in s ==> x in r
    ensures forall i, j :: 0 <= i < j < |r| ==> r[i] < r[j]
    decreases |s|
  {
    if s == {} then []
    else
      var m := MinInt(s);
      [m] + SortedInts(s - {m})
  }

  /** `sorted(s)` for a set of strings. */
  function SortedStrings(s: set<string>): (r: seq<string>)
    ensures |r| == |s|
    ensures forall i :: 0 <= i < |r| ==> r[i] in s
    ensures forall x :: x in s ==> x in r
    ensures forall i, j :: 0 <= i < j < |r| ==> LexLess(r[i], r[j])
    decreases |s|
  {
    if s == {} then []
    else
      var m := MinString(s);
      [m] + SortedStrings(s - {m})
  }

  /** The first element of a sorted non-empty set is its minimum. */
  lemma SortedHeads(a: set<int>, b: set<string>)
    ensures a != {} ==> SortedInts(a)[0] == MinInt(a)
    ensures b != {} ==> SortedStrings(b)[0] == MinString(b)
  {
  }
}
