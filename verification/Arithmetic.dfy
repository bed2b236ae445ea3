/** Powers of two, shifts, the rounded-up logarithm, and cardinalities of finite sets. */
module Arithmetic {
  const U64: nat := 0x1_0000_0000_0000_0000

  function Pow2(n: nat): (r: nat)
    ensures r >= 1
  {
    if n == 0 then 1 else 2 * Pow2(n - 1)
  }

  lemma {:induction false} Pow2Sum(a: nat, b: nat)
    ensures Pow2(a + b) == Pow2(a) * Pow2(b)
    decreases b
  {
    if b > 0 {
      Pow2Sum(a, b - 1);
      assert Pow2(a + b) == 2 * Pow2(a + (b - 1));
      assert Pow2(b) == 2 * Pow2(b - 1);
      assert 2 * (Pow2(a) * Pow2(b - 1)) == Pow2(a) * (2 * Pow2(b - 1));
    }
  }

  lemma {:induction false} Pow2Monotone(a: nat, b: nat)
    requires a <= b
    ensures Pow2(a) <= Pow2(b)
    decreases b - a
  {
    if a < b {
      Pow2Monotone(a, b - 1);
    }
  }

  function Min(a: nat, b: nat): nat {
    if a <= b then a else b
  }

  /** `x << n` on numbers that do not overflow. */
  function Shl(x: nat, n: nat): nat {
    if n == 0 then x else 2 * Shl(x, n - 1)
  }

  lemma {:induction false} ShlIsProduct(x: nat, n: nat)
    ensures Shl(x, n) == x * Pow2(n)
  {
    if n > 0 {
      ShlIsProduct(x, n - 1);
      assert 2 * (x * Pow2(n - 1)) == x * (2 * Pow2(n - 1));
    }
  }

  lemma {:induction false} ShlCompose(x: nat, a: nat, b: nat)
    ensures Shl(Shl(x, a), b) == Shl(x, a + b)
    decreases b
  {
    if b > 0 {
      ShlCompose(x, a, b - 1);
    }
  }

  lemma {:induction false} ShlBound(x: nat, a: nat, b: nat)
    requires x < Pow2(a)
    ensures Shl(x, b) < Pow2(a + b)
    decreases b
  {
    if b > 0 {
      ShlBound(x, a, b - 1);
    }
  }

  lemma MulStrict(x: nat, y: nat, g: nat)
    requires x < y && g > 0
    ensures x * g < y * g
    ensures (x + 1) * g <= y * g
  {
    assert y * g == x * g + (y - x) * g;
    MulAtLeast(y - x, g);
    assert (x + 1) * g == x * g + g;
  }

  lemma MulAtLeast(k: nat, g: nat)
    requires k >= 1
    ensures k * g >= g
  {
    assert k * g == (k - 1) * g + g;
  }

  lemma {:induction false} ShlInjective(x: nat, y: nat, n: nat)
    requires Shl(x, n) == Shl(y, n)
    ensures x == y
  {
    if n > 0 {
      ShlInjective(x, y, n - 1);
    }
  }

  lemma MultipleDivides(i: nat, g: nat)
    requires g > 0
    ensures (i * g) % g == 0 && (i * g) / g == i
  {
    DivModUnique(i * g, g, i, 0);
  }

  lemma DivModUnique(x: nat, g: nat, q: nat, r: nat)
    requires g > 0 && r < g && x == q * g + r
    ensures x / g == q && x % g == r
  {
    var q', r' := x / g, x % g;
    assert x == q' * g + r' && 0 <= r' < g;
    if q < q' {
      MulStrict(q, q', g);
    } else if q' < q {
      MulStrict(q', q, g);
    }
  }

  lemma RestIsMultiple(x: nat, g: nat)
    requires g > 0
    ensures (x - x % g) % g == 0
  {
    MultipleDivides(x / g, g);
    assert x - x % g == (x / g) * g;
  }

  lemma QuotientInterval(n: nat, step: nat)
    requires step > 0
    ensures (n / step) * step <= n < (n / step + 1) * step
  {
    assert n == (n / step) * step + n % step;
    assert (n / step + 1) * step == (n / step) * step + step;
  }

  lemma QuotientInRange(j: nat, step: nat, bound: nat)
    requires step > 0 && j < bound * step
    ensures 0 <= j / step < bound
  {
    var q := j / step;
    assert j == q * step + j % step;
    if q >= bound {
      MulMonotone(bound, q, step);
    } else if q < 0 {
      MulAtLeast(-q, step);
    }
  }

  lemma MulMonotone(a: nat, b: nat, g: nat)
    requires a <= b
    ensures a * g <= b * g
  {
    assert b * g == a * g + (b - a) * g;
  }

  /** The least `b` with `n <= 2^b`, see `CeilLog2Least`; zero and one both map to zero. */
  function CeilLog2(n: nat): (b: nat)
    ensures n <= Pow2(b)
  {
    if n <= 1 then 0 else CeilLog2((n + 1) / 2) + 1
  }

  lemma {:induction false} CeilLog2Least(n: nat, c: nat)
    requires n <= Pow2(c)
    ensures CeilLog2(n) <= c
  {
    if n > 1 {
      assert Pow2(c) == 2 * Pow2(c - 1);
      CeilLog2Least((n + 1) / 2, c - 1);
    }
  }

  /** An injective image of a finite set has as many elements as the set. */
  lemma {:induction false} InjectiveImageSize<A, B>(xs: set<A>, f: A -> B, ys: set<B>)
    requires forall x :: x in xs ==> f(x) in ys
    requires forall y :: y in ys ==> exists x :: x in xs && f(x) == y
    requires forall x, x' :: x in xs && x' in xs && f(x) == f(x') ==> x == x'
    ensures |xs| == |ys|
    decreases |xs|
  {
    if xs == {} {
      assert ys == {};
    } else {
      var x :| x in xs;
      var xs', ys' := xs - {x}, ys - {f(x)};
      assert f(x) in ys;
      assert |xs'| == |xs| - 1 && |ys'| == |ys| - 1;
      InjectiveImageSize(xs', f, ys');
    }
  }

  lemma SubsetOfSameSize<A>(a: set<A>, b: set<A>)
    requires a <= b && |a| == |b|
    ensures a == b
  {
    if x :| x in b && x !in a {
      assert |b - {x}| == |b| - 1 && a <= b - {x};
      SubsetSize(a, b - {x});
    }
  }

  lemma {:induction false} SubsetSize<A>(a: set<A>, b: set<A>)
    requires a <= b
    ensures |a| <= |b|
    decreases |a|
  {
    if x :| x in a {
      SubsetSize(a - {x}, b - {x});
    }
  }

  ghost predicate NoDuplicates<A>(s: seq<A>) {
    forall i, j :: 0 <= i < j < |s| ==> s[i] != s[j]
  }

  /** A sequence has at least as many places as elements, and no more exactly if none is repeated. */
  lemma {:induction false} DistinctIffFullSize<A>(s: seq<A>)
    ensures |set x | x in s| <= |s|
    ensures |set x | x in s| == |s| <==> NoDuplicates(s)
  {
    if s != [] {
      var rest := set x | x in s[1..];
      DistinctIffFullSize(s[1..]);
      assert (set x | x in s) == {s[0]} + rest;
      if s[0] in s[1..] {
        assert (set x | x in s) == rest;
        var j :| 0 <= j < |s[1..]| && s[1..][j] == s[0];
        assert s[j + 1] == s[0];
      } else {
        assert NoDuplicates(s) <==> NoDuplicates(s[1..]) by {
          HeadApart(s);
        }
      }
    }
  }

  lemma HeadApart<A>(s: seq<A>)
    requires s != [] && s[0] !in s[1..]
    ensures NoDuplicates(s) <==> NoDuplicates(s[1..])
  {
    if NoDuplicates(s[1..]) {
      forall i, j | 0 <= i < j < |s| ensures s[i] != s[j] {
        assert s[j] == s[1..][j - 1];
        if i > 0 {
          assert s[i] == s[1..][i - 1];
        }
      }
    }
  }

  /** A sequence longer than the set its elements come from repeats an element. */
  lemma Pigeonhole<A>(s: seq<A>, range: set<A>) returns (i: nat, j: nat)
    requires |s| > |range| && forall k :: 0 <= k < |s| ==> s[k] in range
    ensures i < j < |s| && s[i] == s[j]
  {
    if NoDuplicates(s) {
      DistinctIffFullSize(s);
      SubsetSize((set x | x in s), range);
    }
    i, j :| 0 <= i < j < |s| && s[i] == s[j];
  }
}
