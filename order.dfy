/** Python's ordering of str values (code point by code point, a proper
    prefix first) and sorted() of a set of strings. */
module StringOrder {

  /** a < b on Python strings. */
  predicate Below(a: string, b: string)
    decreases |a|
  {
    if |a| == 0 then |b| > 0
    else if |b| == 0 then false
    else if a[0] != b[0] then a[0] < b[0]
    else Below(a[1..], b[1..])
  }

  lemma {:induction false} BelowIrreflexive(a: string)
    ensures !Below(a, a)
    decreases |a|
  {
    if |a| > 0 {
      BelowIrreflexive(a[1..]);
    }
  }

  lemma {:induction false} BelowTransitive(a: string, b: string, c: string)
    requires Below(a, b) && Below(b, c)
    ensures Below(a, c)
    decreases |a|
  {
    if |a| > 0 && a[0] == b[0] && b[0] == c[0] {
      BelowTransitive(a[1..], b[1..], c[1..]);
    }
  }

  lemma {:induction false} BelowTotal(a: string, b: string)
    ensures a == b || Below(a, b) || Below(b, a)
    decreases |a|
  {
    if |a| > 0 && |b| > 0 && a[0] == b[0] {
      BelowTotal(a[1..], b[1..]);
      if a[1..] == b[1..] {
        assert a == [a[0]] + a[1..] && b == [b[0]] + b[1..];
      }
    }
  }

  lemma {:induction false} BelowAsymmetric(a: string, b: string)
    requires Below(a, b)
    ensures !Below(b, a)
  {
    if Below(b, a) {
      BelowTransitive(a, b, a);
      BelowIrreflexive(a);
    }
  }

  predicate IsLeast(m: string, s: set<string>) {
    m in s && forall x :: x in s && x != m ==> Below(m, x)
  }

  /** Every finite non-empty set of strings has a least element. */
  lemma {:induction false} LeastExists(s: set<string>)
    requires s != {}
    ensures exists m :: IsLeast(m, s)
    decreases |s|
  {
    var x :| x in s;
    if s == {x} {
      assert IsLeast(x, s);
    } else {
      LeastExists(s - {x});
      var m :| m in s - {x} && IsLeast(m, s - {x});
      BelowTotal(m, x);
      if Below(m, x) {
        assert IsLeast(m, s);
      } else {
        forall y | y in s && y != x
          ensures Below(x, y)
        {
          if y != m { BelowTransitive(x, m, y); }
        }
        assert IsLeast(x, s);
      }
    }
  }

  predicate StrictlySorted(xs: seq<string>) {
    forall i, j :: 0 <= i < j < |xs| ==> Below(xs[i], xs[j])
  }

  /** Two strictly ascending sequences holding the same strings are equal:
      sorted() of a set is determined by the set alone. */
  lemma {:induction false} SortedUnique(xs: seq<string>, ys: seq<string>)
    requires StrictlySorted(xs) && StrictlySorted(ys)
    requires forall x :: x in xs <==> x in ys
    ensures xs == ys
    decreases |xs|
  {
    assert xs != [] ==> xs[0] in ys;
    assert ys != [] ==> ys[0] in xs;
    if xs != [] && ys != [] {
      if xs[0] != ys[0] {
        assert ys[0] in ys && xs[0] in xs;
        var i :| 0 <= i < |xs| && xs[i] == ys[0];
        var j :| 0 <= j < |ys| && ys[j] == xs[0];
        assert i > 0 && j > 0;
        BelowAsymmetric(xs[0], ys[0]);
      }
      forall x
        ensures x in xs[1..] <==> x in ys[1..]
      {
        assert xs == [xs[0]] + xs[1..] && ys == [ys[0]] + ys[1..];
        if x in xs[1..] {
          var i :| 0 <= i < |xs[1..]| && xs[1..][i] == x;
          assert Below(xs[0], xs[i + 1]);
          BelowIrreflexive(x);
          assert x in ys && x != ys[0];
        }
        if x in ys[1..] {
          var j :| 0 <= j < |ys[1..]| && ys[1..][j] == x;
          assert Below(ys[0], ys[j + 1]);
          BelowIrreflexive(x);
          assert x in xs && x != xs[0];
        }
      }
      SortedUnique(xs[1..], ys[1..]);
    }
  }

  lemma {:induction false} SortedExists(s: set<string>)
    ensures exists xs :: StrictlySorted(xs) && forall x :: x in xs <==> x in s
    decreases |s|
  {
    if s == {} {
      assert StrictlySorted([]) && forall x :: x in [] <==> x in s;
    } else {
      LeastExists(s);
      var m :| m in s && IsLeast(m, s);
      SortedExists(s - {m});
      var rest :| StrictlySorted(rest) && forall x :: x in rest <==> x in s - {m};
      var xs := [m] + rest;
      forall i, j | 0 <= i < j < |xs|
        ensures Below(xs[i], xs[j])
      {
        if i > 0 {
          assert xs[i] == rest[i - 1] && xs[j] == rest[j - 1];
        } else {
          assert xs[j] == rest[j - 1] && xs[j] in s - {m};
        }
      }
      assert StrictlySorted(xs) && forall x :: x in xs <==> x in s;
    }
  }

  /** sorted(list(s)): the strings of s in ascending order. */
  ghost function SortedOf(s: set<string>): (xs: seq<string>)
    ensures StrictlySorted(xs)
    ensures forall x :: x in xs <==> x in s
  {
    SortedExists(s);
    var xs :| StrictlySorted(xs) && forall x :: x in xs <==> x in s;
    xs
  }

  /** sorted(list(s)), computed by repeatedly taking the least remaining string. */
  method SortStrings(s: set<string>) returns (xs: seq<string>)
    ensures StrictlySorted(xs)
    ensures forall x :: x in xs <==> x in s
  {
    xs := [];
    var rest := s;
    while rest != {}
      invariant StrictlySorted(xs)
      invariant forall x :: x in s <==> x in xs || x in rest
      invariant forall i, x :: 0 <= i < |xs| && x in rest ==> Below(xs[i], x)
      decreases |rest|
    {
      LeastExists(rest);
      var m :| m in rest && IsLeast(m, rest);
      xs := xs + [m];
      rest := rest - {m};
    }
  }
}
