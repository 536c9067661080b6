/** The lexical order of strings, sorted sets, and what makes a sorted sequence unique. */
module Ordering {
  /** A name: a unit, a fact, a check. Names are compared by their text. */
  datatype Name = Name(text: string)

  /** Python's order of strings: by code point, a proper prefix first. */
  predicate LexLess(a: string, b: string) {
    b != [] && (a == [] || a[0] < b[0] || (a[0] == b[0] && LexLess(a[1..], b[1..])))
  }

  lemma {:induction false} LexLessIsTotal(a: string, b: string)
    ensures LexLess(a, b) || a == b || LexLess(b, a)
    ensures !(LexLess(a, b) && LexLess(b, a)) && !LexLess(a, a)
  {
    if a != [] && b != [] {
      LexLessIsTotal(a[1..], b[1..]);
      assert a == [a[0]] + a[1..] && b == [b[0]] + b[1..];
    }
    if a != [] {
      LexLessIsTotal(a[1..], a[1..]);
    }
  }

  lemma {:induction false} LexLessIsTransitive(a: string, b: string, c: string)
    requires LexLess(a, b) && LexLess(b, c)
    ensures LexLess(a, c)
  {
    if a != [] && a[0] == b[0] == c[0] {
      LexLessIsTransitive(a[1..], b[1..], c[1..]);
    }
  }

  /** The strings agree up to `k`, and there the first ends and the second goes on, or its character
      is the smaller one. */
  predicate DiffersAt(a: string, b: string, k: nat) {
    && k <= |a| && k < |b| && a[..k] == b[..k]
    && (k == |a| || a[k] < b[k])
  }

  /** That order is decided at the first place where the strings differ. */
  lemma {:induction false} LexLessExactly(a: string, b: string)
    ensures LexLess(a, b) <==> exists k: nat :: DiffersAt(a, b, k)
  {
    if k: nat :| DiffersAt(a, b, k) {
      DecidedAt(a, b, k);
    }
    if LexLess(a, b) {
      var k := FirstDifference(a, b);
    }
  }

  lemma {:induction false} DecidedAt(a: string, b: string, k: nat)
    requires DiffersAt(a, b, k)
    ensures LexLess(a, b)
    decreases k
  {
    if k > 0 {
      assert a[..k][0] == b[..k][0];
      assert a[..k][1..] == a[1..][..k - 1] && b[..k][1..] == b[1..][..k - 1];
      DecidedAt(a[1..], b[1..], k - 1);
    }
  }

  lemma {:induction false} FirstDifference(a: string, b: string) returns (k: nat)
    requires LexLess(a, b)
    ensures DiffersAt(a, b, k)
  {
    if a == [] || a[0] < b[0] {
      k := 0;
    } else {
      var j := FirstDifference(a[1..], b[1..]);
      k := j + 1;
      assert a[..k] == [a[0]] + a[1..][..j] && b[..k] == [b[0]] + b[1..][..j];
    }
  }

  predicate Less(a: Name, b: Name) {
    LexLess(a.text, b.text)
  }

  lemma LessIsTotal(a: Name, b: Name)
    ensures Less(a, b) || a == b || Less(b, a)
    ensures !(Less(a, b) && Less(b, a)) && !Less(a, a)
  {
    LexLessIsTotal(a.text, b.text);
  }

  lemma LessIsTransitive(a: Name, b: Name, c: Name)
    requires Less(a, b) && Less(b, c)
    ensures Less(a, c)
  {
    LexLessIsTransitive(a.text, b.text, c.text);
  }

  predicate IsLeast(m: Name, s: set<Name>) {
    m in s && forall x | x in s :: x == m || Less(m, x)
  }

  lemma {:induction false} LeastExists(s: set<Name>)
    requires s != {}
    ensures exists m :: IsLeast(m, s)
    ensures forall m, n | IsLeast(m, s) && IsLeast(n, s) :: m == n
  {
    forall m, n | IsLeast(m, s) && IsLeast(n, s)
      ensures m == n
    {
      LessIsTotal(m, n);
    }
    var x :| x in s;
    var rest := s - {x};
    if rest == {} {
      assert s == {x};
      assert IsLeast(x, s);
    } else {
      LeastExists(rest);
      var m :| IsLeast(m, rest);
      LessIsTotal(m, x);
      if Less(x, m) {
        forall y | y in s
          ensures y == x || Less(x, y)
        {
          if y != x && y != m { LessIsTransitive(x, m, y); }
        }
        assert IsLeast(x, s);
      } else {
        assert IsLeast(m, s);
      }
    }
  }

  function Least(s: set<Name>): (m: Name)
    requires s != {}
    ensures IsLeast(m, s)
  {
    LeastExists(s);
    var m :| IsLeast(m, s);
    m
  }

  function Sorted(s: set<Name>): seq<Name> {
    if s == {} then [] else [Least(s)] + Sorted(s - {Least(s)})
  }

  predicate IsAscending(r: seq<Name>) {
    forall i, j | 0 <= i < j < |r| :: Less(r[i], r[j])
  }

  lemma {:induction false} SortedHolds(s: set<Name>)
    ensures forall x :: x in Sorted(s) <==> x in s
    ensures |Sorted(s)| == |s|
  {
    if s != {} {
      var m := Least(s);
      SortedHolds(s - {m});
      assert Sorted(s) == [m] + Sorted(s - {m});
    }
  }

  lemma {:induction false} SortedAscends(s: set<Name>)
    ensures IsAscending(Sorted(s))
  {
    if s != {} {
      var m, rest := Least(s), Sorted(s - {Least(s)});
      SortedAscends(s - {m});
      SortedHolds(s - {m});
      assert forall j | 0 <= j < |rest| :: rest[j] in rest;
      assert Sorted(s) == [m] + rest;
    }
  }

  lemma SortedDistinct(s: set<Name>)
    ensures forall i, j | 0 <= i < j < |Sorted(s)| :: Sorted(s)[i] != Sorted(s)[j]
  {
    SortedAscends(s);
    forall i, j | 0 <= i < j < |Sorted(s)|
      ensures Sorted(s)[i] != Sorted(s)[j]
    {
      LessIsTotal(Sorted(s)[i], Sorted(s)[j]);
    }
  }

  /** A set as the strictly ascending sequence of its elements. */
  method List(s: set<Name>) returns (r: seq<Name>)
    ensures r == Sorted(s) && IsAscending(r)
    ensures forall x :: x in r <==> x in s
    ensures forall i, j | 0 <= i < j < |r| :: r[i] != r[j]
  {
    SortedHolds(s);
    SortedAscends(s);
    SortedDistinct(s);
    r := Sorted(s);
  }
}
