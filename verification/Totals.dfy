/** Adding up a quantity over a sequence. */
module Totals {

  function Total<T>(s: seq<T>, f: T -> int): int {
    if s == [] then 0 else Total(s[..|s| - 1], f) + f(s[|s| - 1])
  }

  lemma TotalAppend<T>(s: seq<T>, x: T, f: T -> int)
    ensures Total(s + [x], f) == Total(s, f) + f(x)
  {
    assert (s + [x])[..|s|] == s;
  }

  lemma {:induction false} TotalUpdate<T>(s: seq<T>, i: nat, x: T, f: T -> int)
    requires i < |s|
    ensures Total(s[i := x], f) == Total(s, f) - f(s[i]) + f(x)
  {
    var n := |s| - 1;
    if i == n {
      assert s[i := x][..n] == s[..n];
    } else {
      assert s[i := x][..n] == s[..n][i := x];
      TotalUpdate(s[..n], i, x, f);
    }
  }

  lemma {:induction false} TotalAtMost<T>(a: seq<T>, b: seq<T>, f: T -> int, g: T -> int)
    requires |a| == |b| && forall i :: 0 <= i < |a| ==> f(a[i]) <= g(b[i])
    ensures Total(a, f) <= Total(b, g)
  {
    if a != [] {
      TotalAtMost(a[..|a| - 1], b[..|a| - 1], f, g);
    }
  }

  lemma {:induction false} TotalZero<T>(s: seq<T>, f: T -> int)
    requires forall x <- s :: f(x) == 0
    ensures Total(s, f) == 0
  {
    if s != [] {
      assert s[|s| - 1] in s;
      TotalZero(s[..|s| - 1], f);
    }
  }

  lemma {:induction false} TotalNonNegative<T>(s: seq<T>, f: T -> int)
    requires forall i :: 0 <= i < |s| ==> f(s[i]) >= 0
    ensures Total(s, f) >= 0
  {
    if s != [] {
      TotalNonNegative(s[..|s| - 1], f);
    }
  }
}
