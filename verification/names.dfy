/**
 * The order in which a `BTreeMap<String, _>` yields its keys: ascending
 * lexicographic order. Rust compares strings by their UTF-8 bytes, which
 * orders them as their code points do; `char` here is a Unicode scalar value.
 */
module Names {

  /** Strict lexicographic order on strings. */
  predicate Less(a: string, b: string)
  {
    if a == [] then b != []
    else if b == [] then false
    else if a[0] != b[0] then a[0] < b[0]
    else Less(a[1..], b[1..])
  }

  lemma {:induction false} LessIrreflexive(a: string)
    ensures !Less(a, a)
  {
    if a != [] { LessIrreflexive(a[1..]); }
  }

  lemma {:induction false} LessTransitive(a: string, b: string, c: string)
    requires Less(a, b) && Less(b, c)
    ensures Less(a, c)
  {
    if a != [] && b != [] && c != [] && a[0] == b[0] && b[0] == c[0] {
      LessTransitive(a[1..], b[1..], c[1..]);
    }
  }

  lemma {:induction false} LessTotal(a: string, b: string)
    requires a != b
    ensures Less(a, b) || Less(b, a)
  {
    if a != [] && b != [] && a[0] == b[0] {
      assert a == [a[0]] + a[1..] && b == [b[0]] + b[1..];
      LessTotal(a[1..], b[1..]);
    }
  }

  /** `m` is the least name of `s`. */
  predicate IsLeast(m: string, s: set<string>)
  {
    m in s && forall x :: x in s && x != m ==> Less(m, x)
  }

  lemma {:induction false} LeastExists(s: set<string>)
    requires s != {}
    ensures exists m :: IsLeast(m, s)
    decreases |s|
  {
    var x :| x in s;
    var rest := s - {x};
    if rest == {} {
      assert forall y :: y in s ==> y in rest || y == x;
      assert IsLeast(x, s);
    } else {
      LeastExists(rest);
      var m :| IsLeast(m, rest);
      if Less(m, x) {
        assert IsLeast(m, s);
      } else {
        LessTotal(m, x);
        forall y | y in s && y != x ensures Less(x, y) {
          if y != m { LessTransitive(x, m, y); }
        }
        assert IsLeast(x, s);
      }
    }
  }

  lemma LeastUnique(m: string, n: string, s: set<string>)
    requires IsLeast(m, s) && IsLeast(n, s)
    ensures m == n
  {
    if m != n {
      LessTransitive(m, n, m);
      LessIrreflexive(m);
    }
  }

  ghost function Least(s: set<string>): (m: string)
    requires s != {}
    ensures IsLeast(m, s)
  {
    LeastExists(s);
    var m :| IsLeast(m, s);
    m
  }

  /** The names of `s` in the order a `BTreeMap` iterates them. */
  ghost function SortedNames(s: set<string>): (r: seq<string>)
    ensures |r| == |s|
    decreases |s|
  {
    if s == {} then []
    else
      var m := Least(s);
      [m] + SortedNames(s - {m})
  }

  /** Every name of the set is iterated, and nothing else. */
  lemma {:induction false} SortedNamesMembers(s: set<string>)
    ensures forall x :: x in SortedNames(s) <==> x in s
    decreases |s|
  {
    if s != {} {
      SortedNamesMembers(s - {Least(s)});
    }
  }

  /** The names come out in strictly ascending order. */
  lemma {:induction false} SortedNamesAscending(s: set<string>)
    ensures forall i, j :: 0 <= i < j < |SortedNames(s)| ==> Less(SortedNames(s)[i], SortedNames(s)[j])
    decreases |s|
  {
    if s != {} {
      var m := Least(s);
      var rest := SortedNames(s - {m});
      SortedNamesAscending(s - {m});
      SortedNamesMembers(s - {m});
      var r := SortedNames(s);
      assert r == [m] + rest;
      forall i, j | 0 <= i < j < |r| ensures Less(r[i], r[j]) {
        if i == 0 {
          assert r[j] == rest[j - 1] && r[j] in s - {m};
          assert IsLeast(m, s);
        } else {
          assert r[i] == rest[i - 1] && r[j] == rest[j - 1];
          assert Less(rest[i - 1], rest[j - 1]);
        }
      }
    }
  }

  /** The first name iterated is the least one; the rest follow in order. */
  lemma SortedNamesStep(m: string, s: set<string>)
    requires IsLeast(m, s)
    ensures SortedNames(s) == [m] + SortedNames(s - {m})
  {
    LeastUnique(m, Least(s), s);
  }
}
