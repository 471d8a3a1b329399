/** sorted() over a set: the strictly increasing enumeration of its elements. */
module SortedKeys {

  /** Strings are compared by code points, the way Python compares them. */
  predicate Before(a: string, b: string) {
    b != [] && (a == [] || a[0] < b[0] || (a[0] == b[0] && Before(a[1..], b[1..])))
  }

  lemma {:induction false} BeforeTotal(a: string, b: string)
    ensures Before(a, b) || Before(b, a) || a == b
    ensures !(Before(a, b) && Before(b, a)) && !Before(a, a)
  {
    if a != [] && b != [] && a[0] == b[0] {
      BeforeTotal(a[1..], b[1..]);
      assert a[1..] == b[1..] ==> a == [a[0]] + a[1..] == b;
    }
    if a != [] {
      BeforeTotal(a[1..], a[1..]);
    }
  }

  lemma {:induction false} BeforeTransitive(a: string, b: string, c: string)
    requires Before(a, b) && Before(b, c)
    ensures Before(a, c)
  {
    if a != [] && a[0] == b[0] == c[0] {
      BeforeTransitive(a[1..], b[1..], c[1..]);
    }
  }

  /** b goes on where a ends, or has the greater character where they first differ. */
  lemma {:induction false} BeforeExactly(a: string, b: string)
    ensures Before(a, b)
       <==> || (|a| < |b| && b[..|a|] == a)
            || exists n :: 0 <= n < |a| && n < |b| && a[..n] == b[..n] && a[n] < b[n]
  {
    if a != [] && b != [] {
      var c, d := a[1..], b[1..];
      BeforeExactly(c, d);
      assert a == [a[0]] + c && b == [b[0]] + d;
      if Before(a, b) {
        if a[0] < b[0] {
          assert a[..0] == b[..0];
        } else if n :| 0 <= n < |c| && n < |d| && c[..n] == d[..n] && c[n] < d[n] {
          assert a[..n + 1] == [a[0]] + c[..n] && b[..n + 1] == [b[0]] + d[..n];
        } else {
          assert b[..|a|] == [b[0]] + d[..|c|];
        }
      }
      if |a| < |b| && b[..|a|] == a {
        assert a[0] == b[0] && d[..|c|] == c;
      }
      if n :| 0 <= n < |a| && n < |b| && a[..n] == b[..n] && a[n] < b[n] {
        if n > 0 {
          assert a[0] == a[..n][0] == b[..n][0] == b[0];
          assert c[..n - 1] == a[..n][1..] == b[..n][1..] == d[..n - 1] && c[n - 1] < d[n - 1];
        }
      }
    }
  }

  predicate IsLeast(m: string, s: set<string>) {
    m in s && forall x <- s :: x != m ==> Before(m, x)
  }

  lemma {:induction false} LeastExists(s: set<string>) returns (m: string)
    requires s != {}
    ensures IsLeast(m, s)
    decreases |s|
  {
    m :| m in s;
    if s != {m} {
      var rest := s - {m};
      var n := LeastExists(rest);
      BeforeTotal(m, n);
      forall x <- s | x != m && x != n ensures Before(n, x) && (Before(m, n) ==> Before(m, x)) {
        assert x in rest;
        if Before(m, n) {
          BeforeTransitive(m, n, x);
        }
      }
      if Before(n, m) {
        m := n;
      }
    }
  }

  lemma LeastUnique(a: string, b: string, s: set<string>)
    requires IsLeast(a, s) && IsLeast(b, s)
    ensures a == b
  {
    BeforeTotal(a, b);
  }

  function Least(s: set<string>): (m: string)
    requires s != {}
    ensures IsLeast(m, s)
  {
    assert exists w :: IsLeast(w, s) by {
      var w := LeastExists(s);
    }
    assert forall a, b :: IsLeast(a, s) && IsLeast(b, s) ==> a == b by {
      forall a, b | IsLeast(a, s) && IsLeast(b, s) ensures a == b {
        LeastUnique(a, b, s);
      }
    }
    var m :| m in s && IsLeast(m, s);
    m
  }

  ghost predicate Increasing(keys: seq<string>) {
    forall i, j :: 0 <= i < j < |keys| ==> Before(keys[i], keys[j])
  }

  function Sorted(s: set<string>): (keys: seq<string>)
    ensures forall k :: k in keys <==> k in s
    ensures Increasing(keys)
    decreases |s|
  {
    if s == {} then []
    else
      var m := Least(s);
      [m] + Sorted(s - {m})
  }
}
