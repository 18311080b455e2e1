/**
 * A fixed, total order on tags: lexicographic comparison by character code.
 * The decoder visits the states of a frontier in this order wherever the
 * original iterates a hash set, so that its "first seen wins" tie rule is
 * deterministic.
 */
module StringOrder {

  /** `a` comes no later than `b` in lexicographic (character-code) order. */
  predicate LexLe(a: string, b: string)
    decreases |a|
  {
    |a| == 0 || (|b| != 0 && (a[0] < b[0] || (a[0] == b[0] && LexLe(a[1..], b[1..]))))
  }

  lemma LexLeReflexive(a: string)
    ensures LexLe(a, a)
  {
  }

  lemma LexLeAntisymmetric(a: string, b: string)
    requires LexLe(a, b) && LexLe(b, a)
    ensures a == b
    decreases |a|
  {
    if |a| != 0 {
      LexLeAntisymmetric(a[1..], b[1..]);
      assert a == [a[0]] + a[1..] && b == [b[0]] + b[1..];
    }
  }

  lemma LexLeTransitive(a: string, b: string, c: string)
    requires LexLe(a, b) && LexLe(b, c)
    ensures LexLe(a, c)
    decreases |a|
  {
    if |a| != 0 && a[0] == b[0] && b[0] == c[0] {
      LexLeTransitive(a[1..], b[1..], c[1..]);
    }
  }

  lemma LexLeTotal(a: string, b: string)
    ensures LexLe(a, b) || LexLe(b, a)
    decreases |a|
  {
    if |a| != 0 && |b| != 0 && a[0] == b[0] {
      LexLeTotal(a[1..], b[1..]);
    }
  }

  predicate IsLeast(m: string, s: set<string>)
  {
    m in s && forall x {:trigger LexLe(m, x)} :: x in s ==> LexLe(m, x)
  }

  /** Every non-empty finite set of strings has a least element. */
  lemma {:induction false} LeastExists(s: set<string>)
    requires s != {}
    ensures exists m :: IsLeast(m, s)
    decreases s
  {
    var x :| x in s;
    if s == {x} {
      LexLeReflexive(x);
      assert IsLeast(x, s);
    } else {
      LeastExists(s - {x});
      var m :| IsLeast(m, s - {x});
      LexLeTotal(x, m);
      if LexLe(x, m) {
        forall y | y in s ensures LexLe(x, y) {
          if y == x { LexLeReflexive(x); } else { LexLeTransitive(x, m, y); }
        }
        assert IsLeast(x, s);
      } else {
        assert IsLeast(m, s);
      }
    }
  }

  /** The least element is unique. */
  lemma LeastUnique(m1: string, m2: string, s: set<string>)
    requires IsLeast(m1, s) && IsLeast(m2, s)
    ensures m1 == m2
  {
    LexLeAntisymmetric(m1, m2);
  }

  ghost function Least(s: set<string>): (m: string)
    requires s != {}
    ensures IsLeast(m, s)
  {
    LeastExists(s);
    var m :| IsLeast(m, s); m
  }

  /** The elements of `s` in strictly ascending lexicographic order. */
  ghost function Sorted(s: set<string>): (r: seq<string>)
    ensures forall i :: 0 <= i < |r| ==> r[i] in s
    decreases s
  {
    if s == {} then []
    else
      var m := Least(s);
      [m] + Sorted(s - {m})
  }

  /** The enumeration is strictly ascending. */
  lemma {:induction false} SortedAscending(s: set<string>, i: nat, j: nat)
    requires i < j < |Sorted(s)|
    ensures LexLe(Sorted(s)[i], Sorted(s)[j]) && Sorted(s)[i] != Sorted(s)[j]
    decreases s
  {
    var m := Least(s);
    var r := Sorted(s);
    if i == 0 {
      assert r[j] == Sorted(s - {m})[j - 1];
    } else {
      SortedAscending(s - {m}, i - 1, j - 1);
    }
  }

  /** Every element of the set appears in its enumeration. */
  lemma {:induction false} SortedCovers(s: set<string>, x: string)
    requires x in s
    ensures x in Sorted(s)
    decreases s
  {
    var m := Least(s);
    if x != m {
      SortedCovers(s - {m}, x);
    }
  }

  lemma SortedStartsWithLeast(m: string, s: set<string>)
    requires IsLeast(m, s)
    ensures Sorted(s) == [m] + Sorted(s - {m})
  {
    LeastUnique(m, Least(s), s);
  }

  /** Enumerates a set of tags in the order `Sorted` fixes, by repeatedly taking the least. */
  method SortedStrings(s: set<string>) returns (r: seq<string>)
    ensures r == Sorted(s)
  {
    r := [];
    var rest := s;
    while rest != {}
      invariant r + Sorted(rest) == Sorted(s)
      decreases rest
    {
      LeastExists(rest);
      var m :| IsLeast(m, rest);
      SortedStartsWithLeast(m, rest);
      assert r + Sorted(rest) == (r + [m]) + Sorted(rest - {m});
      r := r + [m];
      rest := rest - {m};
    }
  }
}
