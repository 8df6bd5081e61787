/** Python's ordering of `str` values (lexicographic by code point), the
    `min` of two strings, and `sorted` on a set of strings. */
module StringOrder {

  /** `a < b` on Python strings: the first differing code point decides,
      and a proper prefix comes first. */
  predicate Less(a: string, b: string)
    decreases |a|
  {
    |b| > 0 && (|a| == 0 || a[0] < b[0] || (a[0] == b[0] && Less(a[1..], b[1..])))
  }

  predicate LessEq(a: string, b: string) {
    a == b || Less(a, b)
  }

  lemma {:induction false} LessIrreflexive(a: string)
    ensures !Less(a, a)
    decreases |a|
  {
    if |a| > 0 {
      LessIrreflexive(a[1..]);
    }
  }

  lemma {:induction false} LessTransitive(a: string, b: string, c: string)
    requires Less(a, b) && Less(b, c)
    ensures Less(a, c)
    decreases |a|
  {
    if |a| > 0 && a[0] == b[0] && b[0] == c[0] {
      LessTransitive(a[1..], b[1..], c[1..]);
    }
  }

  lemma {:induction false} LessTotal(a: string, b: string)
    ensures a == b || Less(a, b) || Less(b, a)
    decreases |a|
  {
    if |a| > 0 && |b| > 0 && a[0] == b[0] {
      LessTotal(a[1..], b[1..]);
      if a[1..] == b[1..] {
        assert a == [a[0]] + a[1..] && b == [b[0]] + b[1..];
      }
    }
  }

  lemma {:induction false} LessAsymmetric(a: string, b: string)
    requires Less(a, b)
    ensures !Less(b, a)
    decreases |a|
  {
    if |a| > 0 && a[0] == b[0] {
      LessAsymmetric(a[1..], b[1..]);
    }
  }

  lemma LessEqAntisymmetric(a: string, b: string)
    requires LessEq(a, b) && LessEq(b, a)
    ensures a == b
  {
    if a != b {
      LessAsymmetric(a, b);
    }
  }

  /** Every non-empty finite set of strings has a least element. */
  lemma {:induction false} LeastElement(s: set<string>) returns (m: string)
    requires s != {}
    ensures m in s && forall y :: y in s ==> LessEq(m, y)
    decreases |s|
  {
    var x :| x in s;
    if s == {x} {
      m := x;
    } else {
      var m' := LeastElement(s - {x});
      LessTotal(x, m');
      if Less(x, m') {
        m := x;
        forall y | y in s ensures LessEq(m, y) {
          if y != x && y != m' {
            assert y in s - {x};
            LessTransitive(x, m', y);
          }
        }
      } else {
        m := m';
      }
    }
  }

  /** Python's `min(a, b)`: the second argument only when it is strictly smaller. */
  function Min(a: string, b: string): (m: string)
    ensures m == a || m == b
    ensures LessEq(m, a) && LessEq(m, b)
  {
    LessTotal(a, b);
    if Less(b, a) then b else a
  }

  /** Every element comes strictly before every later one. */
  ghost predicate StrictlySorted(s: seq<string>) {
    forall i, j :: 0 <= i < j < |s| ==> Less(s[i], s[j])
  }

  /** `r` lists the elements of `s` in increasing order, each once. */
  ghost predicate Enumerates(r: seq<string>, s: set<string>) {
    StrictlySorted(r) && |r| == |s| && forall x :: x in r <==> x in s
  }

  /** Whatever the order in which a set is visited, its sorted list is
      one and the same sequence. */
  lemma {:induction false} EnumerationUnique(r1: seq<string>, r2: seq<string>, s: set<string>)
    requires Enumerates(r1, s) && Enumerates(r2, s)
    ensures r1 == r2
    decreases |r1|
  {
    if r1 != [] {
      assert r1[0] in r2;
      assert r2 != [];
      assert r2[0] in r1;
      var i :| 0 <= i < |r1| && r1[i] == r2[0];
      var j :| 0 <= j < |r2| && r2[j] == r1[0];
      if i > 0 && j > 0 {
        LessAsymmetric(r1[0], r1[i]);
      } else if i > 0 {
        LessIrreflexive(r2[0]);
      } else if j > 0 {
        LessIrreflexive(r1[0]);
      }
      assert r1[0] == r2[0];
      var s' := s - {r1[0]};
      forall x ensures x in r1[1..] <==> x in s' {
        if x in r1[1..] {
          var k :| 1 <= k < |r1| && r1[k] == x;
          LessIrreflexive(x);
        }
        if x in s' {
          var k :| 0 <= k < |r1| && r1[k] == x;
          assert k != 0;
          assert x == r1[1..][k - 1];
        }
      }
      forall x ensures x in r2[1..] <==> x in s' {
        if x in r2[1..] {
          var k :| 1 <= k < |r2| && r2[k] == x;
          LessIrreflexive(x);
        }
        if x in s' {
          var k :| 0 <= k < |r2| && r2[k] == x;
          assert k != 0;
          assert x == r2[1..][k - 1];
        }
      }
      EnumerationUnique(r1[1..], r2[1..], s');
      assert r1 == [r1[0]] + r1[1..] && r2 == [r2[0]] + r2[1..];
    }
  }

  /** The least element of a non-empty set, found by a linear scan. */
  method Smallest(s: set<string>) returns (m: string)
    requires s != {}
    ensures m in s
    ensures forall y :: y in s ==> LessEq(m, y)
  {
    m :| m in s;
    var rest := s - {m};
    while rest != {}
      invariant rest <= s && m in s
      invariant forall y :: y in s && y !in rest ==> LessEq(m, y)
      decreases |rest|
    {
      var x :| x in rest;
      LessTotal(x, m);
      if Less(x, m) {
        forall y | y in s && y !in rest
          ensures LessEq(x, y)
        {
          if y != m {
            LessTransitive(x, m, y);
          }
        }
        m := x;
      }
      rest := rest - {x};
    }
  }

  /** Python's `sorted` on a set of strings, by repeated selection of the least. */
  method Sort(s: set<string>) returns (r: seq<string>)
    ensures Enumerates(r, s)
  {
    r := [];
    var rest := s;
    while rest != {}
      invariant rest <= s
      invariant StrictlySorted(r)
      invariant forall x :: x in s <==> x in r || x in rest
      invariant forall i, y :: 0 <= i < |r| && y in rest ==> Less(r[i], y)
      invariant |r| + |rest| == |s|
      decreases |rest|
    {
      var m := Smallest(rest);
      forall i, y | 0 <= i < |r| && y in rest - {m}
        ensures Less(r[i], y)
      {
      }
      forall y | y in rest - {m}
        ensures Less(m, y)
      {
        LessTotal(m, y);
      }
      forall i | 0 <= i < |r|
        ensures r[i] != m
      {
        LessIrreflexive(m);
      }
      assert m !in r;
      r := r + [m];
      rest := rest - {m};
    }
  }
}
