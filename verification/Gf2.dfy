/** Polynomials over the two-element field.

    A polynomial is the sequence of its coefficients, highest power first, so a
    message read from its first bit to its last is a polynomial as it stands.
    Addition is exclusive or. Multiplication is the textbook convolution. */
module Gf2 {
  type Poly = seq<bool>

  function Zeros(n: nat): (z: Poly)
    ensures |z| == n && forall i :: 0 <= i < n ==> !z[i]
  {
    seq(n, _ => false)
  }

  function Ones(n: nat): (z: Poly)
    ensures |z| == n && forall i :: 0 <= i < n ==> z[i]
  {
    seq(n, _ => true)
  }

  function Complement(p: Poly): (r: Poly)
    ensures |r| == |p| && forall i :: 0 <= i < |p| ==> r[i] == !p[i]
  {
    seq(|p|, i requires 0 <= i < |p| => !p[i])
  }

  function Plus(p: Poly, q: Poly): (r: Poly)
    requires |p| == |q|
    ensures |r| == |p| && forall i :: 0 <= i < |r| ==> r[i] == (p[i] != q[i])
  {
    seq(|p|, i requires 0 <= i < |p| => p[i] != q[i])
  }

  function Scale(c: bool, p: Poly): (r: Poly)
    ensures |r| == |p| && forall i :: 0 <= i < |r| ==> r[i] == (c && p[i])
  {
    if c then p else Zeros(|p|)
  }

  // The sum of q[i] * g[j] for i + j == k, counting the terms with i < n.
  predicate Convolution(q: Poly, g: Poly, k: nat, n: nat)
    requires n <= |q|
  {
    n > 0 && Convolution(q, g, k, n - 1) != (q[n - 1] && 0 <= k - (n - 1) < |g| && g[k - (n - 1)])
  }

  function Times(q: Poly, g: Poly): (r: Poly)
    requires |g| > 0
    ensures |r| == |q| + |g| - 1
    ensures forall k :: 0 <= k < |r| ==> r[k] == Convolution(q, g, k, |q|)
  {
    seq(|q| + |g| - 1, k requires 0 <= k => Convolution(q, g, k, |q|))
  }

  /** r is a remainder of p on division by g: p == q * g + r with deg r < deg g. */
  ghost predicate IsRemainder(p: Poly, g: Poly, r: Poly)
    requires |g| > 0
  {
    exists q: Poly :: IsDivision(p, g, q, r)
  }

  ghost predicate IsDivision(p: Poly, g: Poly, q: Poly, r: Poly)
    requires |g| > 0
  {
    |r| == |g| - 1 && |q| + |g| - 1 == |p| && p == Plus(Times(q, g), Zeros(|q|) + r)
  }

  /** g divides p. Below the degree of g the only multiple is zero. */
  ghost predicate Divides(g: Poly, p: Poly)
    requires |g| > 0
  {
    if |p| < |g| - 1 then p == Zeros(|p|)
    else exists q: Poly :: |q| + |g| - 1 == |p| && Times(q, g) == p
  }

  // ----- how a product grows when the multiplier grows by one coefficient

  lemma {:induction false} ConvolutionPrefix(q: Poly, b: bool, g: Poly, k: nat, n: nat)
    requires n <= |q|
    ensures Convolution(q + [b], g, k, n) == Convolution(q, g, k, n)
  {
    if n > 0 {
      ConvolutionPrefix(q, b, g, k, n - 1);
    }
  }

  lemma {:induction false} ConvolutionBeyond(q: Poly, g: Poly, k: nat, n: nat)
    requires n <= |q| && k >= n + |g| - 1
    ensures !Convolution(q, g, k, n)
  {
    if n > 0 {
      ConvolutionBeyond(q, g, k, n - 1);
    }
  }

  lemma TimesAppend(q: Poly, b: bool, g: Poly)
    requires |g| > 0
    ensures Times(q + [b], g) == Plus(Times(q, g) + [false], Zeros(|q|) + Scale(b, g))
  {
    var lhs, rhs := Times(q + [b], g), Plus(Times(q, g) + [false], Zeros(|q|) + Scale(b, g));
    forall k | 0 <= k < |lhs| ensures lhs[k] == rhs[k] {
      ConvolutionPrefix(q, b, g, k, |q|);
      if k == |q| + |g| - 1 {
        ConvolutionBeyond(q, g, k, |q|);
      }
    }
  }

  lemma {:induction false} ConvolutionPlus(p: Poly, q: Poly, g: Poly, k: nat, n: nat)
    requires |p| == |q| && n <= |p|
    ensures Convolution(Plus(p, q), g, k, n) == (Convolution(p, g, k, n) != Convolution(q, g, k, n))
  {
    if n > 0 {
      ConvolutionPlus(p, q, g, k, n - 1);
    }
  }

  lemma TimesPlus(p: Poly, q: Poly, g: Poly)
    requires |p| == |q| && |g| > 0
    ensures Times(Plus(p, q), g) == Plus(Times(p, g), Times(q, g))
  {
    forall k | 0 <= k < |p| + |g| - 1
      ensures Times(Plus(p, q), g)[k] == Plus(Times(p, g), Times(q, g))[k]
    {
      ConvolutionPlus(p, q, g, k, |p|);
    }
  }

  lemma {:induction false} TimesZeros(n: nat, g: Poly)
    requires |g| > 0
    ensures Times(Zeros(n), g) == Zeros(n + |g| - 1)
  {
    if n > 0 {
      assert Zeros(n) == Zeros(n - 1) + [false];
      TimesAppend(Zeros(n - 1), false, g);
      TimesZeros(n - 1, g);
    }
  }

  // ----- a monic divisor has one quotient and one remainder

  lemma {:induction false} MonicLead(q: Poly, g: Poly)
    requires |g| > 0 && g[0]
    requires forall i :: 0 <= i < |q| ==> !Times(q, g)[i]
    ensures q == Zeros(|q|)
  {
    if |q| > 0 {
      var n := |q| - 1;
      assert q == q[..n] + [q[n]];
      TimesAppend(q[..n], q[n], g);
      forall i | 0 <= i < n ensures !Times(q[..n], g)[i] {
        assert Times(q, g)[i] == (Times(q[..n], g) + [false])[i];
      }
      MonicLead(q[..n], g);
      TimesZeros(n, g);
      assert Times(q, g)[n] == q[n];
    }
  }

  /** Division with remainder by a monic divisor has at most one result. */
  lemma DivisionUnique(p: Poly, g: Poly, q1: Poly, r1: Poly, q2: Poly, r2: Poly)
    requires |g| > 0 && g[0]
    requires IsDivision(p, g, q1, r1) && IsDivision(p, g, q2, r2)
    ensures q1 == q2 && r1 == r2
  {
    var d := Plus(q1, q2);
    TimesPlus(q1, q2, g);
    forall i | 0 <= i < |d| ensures !Times(d, g)[i] {
      assert p[i] == Times(q1, g)[i] && p[i] == Times(q2, g)[i];
    }
    MonicLead(d, g);
    assert forall i :: 0 <= i < |q1| ==> !d[i];
    assert q1 == q2;
    forall i | 0 <= i < |r1| ensures r1[i] == r2[i] {
      assert p[|q1| + i] == (Times(q1, g)[|q1| + i] != r1[i]);
      assert p[|q1| + i] == (Times(q1, g)[|q1| + i] != r2[i]);
    }
  }

  // ----- powers of x are invertible modulo a divisor with a constant term

  lemma {:induction false} TimesShift(q: Poly, g: Poly, j: nat)
    requires |g| > 0
    ensures Times(q + Zeros(j), g) == Times(q, g) + Zeros(j)
  {
    if j == 0 {
      assert q + Zeros(0) == q;
    } else {
      assert q + Zeros(j) == (q + Zeros(j - 1)) + [false];
      TimesAppend(q + Zeros(j - 1), false, g);
      TimesShift(q, g, j - 1);
      assert Times(q, g) + Zeros(j) == (Times(q, g) + Zeros(j - 1)) + [false];
    }
  }

  /** A product with a single power of x is the polynomial moved up. */
  lemma TimesPower(g: Poly, lead: nat, j: nat)
    requires |g| > 0
    ensures Times(Zeros(lead) + [true] + Zeros(j), g) == Zeros(lead) + g + Zeros(j)
  {
    TimesZeros(lead, g);
    TimesAppend(Zeros(lead), true, g);
    assert Times(Zeros(lead) + [true], g) == Zeros(lead) + g;
    TimesShift(Zeros(lead) + [true], g, j);
  }

  lemma StripOne(q: Poly, g: Poly, p: Poly)
    requires |q| > 0 && |g| > 0 && g[|g| - 1]
    requires Times(q, g) == p + [false]
    ensures !q[|q| - 1] && Times(q[..|q| - 1], g) == p
  {
    var n := |q| - 1;
    var t := Times(q[..n], g);
    assert q == q[..n] + [q[n]];
    TimesAppend(q[..n], q[n], g);
    assert Times(q, g)[n + |g| - 1] == q[n];
    assert (p + [false])[n + |g| - 1] == false;
    forall k | 0 <= k < |t| ensures t[k] == p[k] {
      assert Times(q, g)[k] == t[k] && (p + [false])[k] == p[k];
    }
  }

  /** If g has a constant term and divides p * x^j, the quotient is a multiple of x^j too. */
  lemma {:induction false} StripTrailing(q: Poly, g: Poly, p: Poly, j: nat)
    requires |g| > 0 && g[|g| - 1] && j <= |q|
    requires Times(q, g) == p + Zeros(j)
    ensures q[|q| - j..] == Zeros(j) && Times(q[..|q| - j], g) == p
  {
    if j == 0 {
      assert q[..|q|] == q && p + Zeros(0) == p;
    } else {
      var n := |q| - 1;
      assert p + Zeros(j) == (p + Zeros(j - 1)) + [false];
      StripOne(q, g, p + Zeros(j - 1));
      StripTrailing(q[..n], g, p, j - 1);
      assert q[..n][..n - (j - 1)] == q[..|q| - j];
      assert q[|q| - j..] == q[..n][n - (j - 1)..] + [q[n]];
    }
  }
}
