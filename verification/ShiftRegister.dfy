/** A linear feedback shift register over GF(2), fed one bit at a time at its top end.

    The register holds the remainder of everything fed so far, shifted up by its own
    width. Because that remainder is unique, the algebra of the register follows
    from the algebra of polynomials. */
module ShiftRegister {
  import opened Gf2

  predicate IsGenerator(g: Poly) {
    |g| > 1 && g[0] && g[|g| - 1]
  }

  function Shift(g: Poly, reg: Poly, b: bool): (r: Poly)
    requires |g| == |reg| + 1 && |g| > 1
    ensures |r| == |reg|
  {
    Plus(reg[1..] + [false], Scale(reg[0] != b, g[1..]))
  }

  function Run(g: Poly, reg: Poly, bits: Poly): (r: Poly)
    requires |g| == |reg| + 1 && |g| > 1
    ensures |r| == |reg|
  {
    if |bits| == 0 then reg else Shift(g, Run(g, reg, bits[..|bits| - 1]), bits[|bits| - 1])
  }

  /** What the register divides: reg * x^n + bits * x^w, with n bits fed and width w. */
  function Dividend(reg: Poly, bits: Poly): (p: Poly)
    ensures |p| == |reg| + |bits|
  {
    Plus(reg + Zeros(|bits|), bits + Zeros(|reg|))
  }

  lemma RunAppend(g: Poly, reg: Poly, bits: Poly, b: bool)
    requires |g| == |reg| + 1 && |g| > 1
    ensures Run(g, reg, bits + [b]) == Shift(g, Run(g, reg, bits), b)
  {
  }

  lemma {:induction false} RunConcat(g: Poly, reg: Poly, p: Poly, q: Poly)
    requires |g| == |reg| + 1 && |g| > 1
    ensures Run(g, reg, p + q) == Run(g, Run(g, reg, p), q)
  {
    if |q| == 0 {
      assert p + q == p;
    } else {
      var n := |q| - 1;
      assert p + q == (p + q[..n]) + [q[n]];
      RunAppend(g, reg, p + q[..n], q[n]);
      RunConcat(g, reg, p, q[..n]);
    }
  }

  // One more bit: the quotient gains the bit that decides whether the generator is subtracted.
  lemma DivisionStep(g: Poly, reg: Poly, bits: Poly, b: bool, q: Poly, r: Poly)
    requires IsGenerator(g) && |g| == |reg| + 1
    requires |q| == |bits| && IsDivision(Dividend(reg, bits), g, q, r)
    ensures IsDivision(Dividend(reg, bits + [b]), g, q + [r[0] != b], Shift(g, r, b))
  {
    var q' := q + [r[0] != b];
    var lhs, rhs := Dividend(reg, bits + [b]), Plus(Times(q', g), Zeros(|q'|) + Shift(g, r, b));
    forall k | 0 <= k < |lhs| ensures lhs[k] == rhs[k] {
      DivisionColumn(g, reg, bits, b, q, r, k);
    }
  }

  lemma DivisionColumn(g: Poly, reg: Poly, bits: Poly, b: bool, q: Poly, r: Poly, k: nat)
    requires IsGenerator(g) && |g| == |reg| + 1 && k < |reg| + |bits| + 1
    requires |q| == |bits| && IsDivision(Dividend(reg, bits), g, q, r)
    ensures var q' := q + [r[0] != b];
            Dividend(reg, bits + [b])[k] == Plus(Times(q', g), Zeros(|q'|) + Shift(g, r, b))[k]
  {
    var c, w, n := r[0] != b, |reg|, |bits|;
    var lhs, t, t' := Dividend(reg, bits + [b]), Times(q, g), Times(q + [c], g);
    TimesAppend(q, c, g);
    if k < n {
      assert lhs[k] == Dividend(reg, bits)[k] == t[k] == t'[k];
    } else if k < n + w {
      assert lhs[k] == (Dividend(reg, bits)[k] != (k == n && b));
      assert Dividend(reg, bits)[k] == (t[k] != r[k - n]);
      assert t'[k] == (t[k] != (c && g[k - n]));
    } else {
      assert !lhs[k] && t'[k] == (c && g[w]);
    }
  }

  lemma {:induction false} RunDivides(g: Poly, reg: Poly, bits: Poly) returns (q: Poly)
    requires IsGenerator(g) && |g| == |reg| + 1
    ensures |q| == |bits| && IsDivision(Dividend(reg, bits), g, q, Run(g, reg, bits))
  {
    if |bits| == 0 {
      q := [];
      TimesZeros(0, g);
      assert Times([], g) == Zeros(|g| - 1) by { assert Zeros(0) == []; }
    } else {
      var n := |bits| - 1;
      var q' := RunDivides(g, reg, bits[..n]);
      DivisionStep(g, reg, bits[..n], bits[n], q', Run(g, reg, bits[..n]));
      assert bits[..n] + [bits[n]] == bits;
      q := q' + [Run(g, reg, bits[..n])[0] != bits[n]];
    }
  }

  /** The register is the remainder, and the only remainder, of its dividend. */
  lemma RunIsRemainder(g: Poly, reg: Poly, bits: Poly, r: Poly)
    requires IsGenerator(g) && |g| == |reg| + 1
    ensures IsRemainder(Dividend(reg, bits), g, r) <==> r == Run(g, reg, bits)
  {
    var q := RunDivides(g, reg, bits);
    if IsRemainder(Dividend(reg, bits), g, r) {
      var q' :| IsDivision(Dividend(reg, bits), g, q', r);
      DivisionUnique(Dividend(reg, bits), g, q, Run(g, reg, bits), q', r);
    }
  }

  lemma RunUnique(g: Poly, reg1: Poly, bits1: Poly, reg2: Poly, bits2: Poly)
    requires IsGenerator(g) && |g| == |reg1| + 1 == |reg2| + 1
    requires Dividend(reg1, bits1) == Dividend(reg2, bits2)
    ensures Run(g, reg1, bits1) == Run(g, reg2, bits2)
  {
    RunIsRemainder(g, reg1, bits1, Run(g, reg1, bits1));
    RunIsRemainder(g, reg2, bits2, Run(g, reg1, bits1));
  }

  /** The register is linear in its start value and its input together. */
  lemma RunPlus(g: Poly, reg1: Poly, bits1: Poly, reg2: Poly, bits2: Poly)
    requires IsGenerator(g) && |g| == |reg1| + 1 == |reg2| + 1 && |bits1| == |bits2|
    ensures Run(g, Plus(reg1, reg2), Plus(bits1, bits2)) == Plus(Run(g, reg1, bits1), Run(g, reg2, bits2))
  {
    var q1 := RunDivides(g, reg1, bits1);
    var q2 := RunDivides(g, reg2, bits2);
    TimesPlus(q1, q2, g);
    var r := Plus(Run(g, reg1, bits1), Run(g, reg2, bits2));
    var d := Dividend(Plus(reg1, reg2), Plus(bits1, bits2));
    assert d == Plus(Dividend(reg1, bits1), Dividend(reg2, bits2));
    assert IsDivision(d, g, Plus(q1, q2), r);
    RunIsRemainder(g, Plus(reg1, reg2), Plus(bits1, bits2), r);
  }

  /** Feeding bits one by one is folding them into the top of the register first and then clocking it. */
  lemma FoldInFirst(g: Poly, reg: Poly, bits: Poly)
    requires IsGenerator(g) && |g| == |reg| + 1 && |bits| <= |reg|
    ensures Run(g, reg, bits) == Run(g, Plus(reg, bits + Zeros(|reg| - |bits|)), Zeros(|bits|))
  {
    var folded := Plus(reg, bits + Zeros(|reg| - |bits|));
    assert Dividend(reg, bits) == Dividend(folded, Zeros(|bits|));
    RunUnique(g, reg, bits, folded, Zeros(|bits|));
  }

  /** Bits too low to reach the top are only moved up. */
  lemma LowBitsRise(g: Poly, low: Poly, n: nat)
    requires IsGenerator(g) && |g| == n + |low| + 1
    ensures Run(g, Zeros(n) + low, Zeros(n)) == low + Zeros(n)
  {
    var d := Dividend(Zeros(n) + low, Zeros(n));
    TimesZeros(n, g);
    assert IsDivision(d, g, Zeros(n), low + Zeros(n));
    RunIsRemainder(g, Zeros(n) + low, Zeros(n), low + Zeros(n));
  }

  lemma SplitFold(reg: Poly, bits: Poly)
    requires |bits| <= |reg|
    ensures Plus(reg, bits + Zeros(|reg| - |bits|))
         == Plus(Plus(reg[..|bits|], bits) + Zeros(|reg| - |bits|), Zeros(|bits|) + reg[|bits|..])
  {
  }

  /** Why a lookup table works: n bits are fed at once by clocking only the register's
      leading n bits, combined with the input, and moving the other bits up. */
  lemma TableStep(g: Poly, reg: Poly, bits: Poly, index: Poly, entry: Poly)
    requires IsGenerator(g) && |g| == |reg| + 1 && |bits| <= |reg| && |entry| == |reg|
    requires index == Plus(reg[..|bits|], bits)
    requires entry == Run(g, index + Zeros(|reg| - |bits|), Zeros(|bits|))
    ensures Plus(entry, reg[|bits|..] + Zeros(|bits|)) == Run(g, reg, bits)
  {
    var n := |bits|;
    var high, low := index + Zeros(|reg| - n), Zeros(n) + reg[n..];
    FoldInFirst(g, reg, bits);
    SplitFold(reg, bits);
    RunPlus(g, high, Zeros(n), low, Zeros(n));
    assert Plus(Zeros(n), Zeros(n)) == Zeros(n);
    LowBitsRise(g, reg[n..], n);
  }

  // ----- when two inputs leave the same register

  lemma ZeroRegisterDivides(g: Poly, d: Poly)
    requires IsGenerator(g) && Run(g, Zeros(|g| - 1), d) == Zeros(|g| - 1)
    ensures Divides(g, d)
  {
    var w := |g| - 1;
    var q := RunDivides(g, Zeros(w), d);
    assert Dividend(Zeros(w), d) == d + Zeros(w);
    assert Times(q, g) == d + Zeros(w);
    if |d| < w {
      var p := d + Zeros(w - |d|);
      assert d + Zeros(w) == p + Zeros(|d|);
      StripTrailing(q, g, p, |d|);
      assert q[..0] == Zeros(0);
      TimesZeros(0, g);
      assert d == p[..|d|] == Zeros(|d|);
    } else {
      StripTrailing(q, g, d, w);
    }
  }

  lemma DivisibleLeavesZero(g: Poly, d: Poly)
    requires IsGenerator(g) && Divides(g, d)
    ensures Run(g, Zeros(|g| - 1), d) == Zeros(|g| - 1)
  {
    var w := |g| - 1;
    var p := Dividend(Zeros(w), d);
    assert p == d + Zeros(w);
    if |d| < w {
      TimesZeros(|d|, g);
      assert IsDivision(p, g, Zeros(|d|), Zeros(w));
    } else {
      var q :| |q| + |g| - 1 == |d| && Times(q, g) == d;
      TimesShift(q, g, w);
      assert IsDivision(p, g, q + Zeros(w), Zeros(w));
    }
    RunIsRemainder(g, Zeros(w), d, Zeros(w));
  }

  /** Inputs of one length leave the same register exactly when the generator divides their difference. */
  lemma CollisionIffDivisible(g: Poly, reg: Poly, p: Poly, q: Poly)
    requires IsGenerator(g) && |g| == |reg| + 1 && |p| == |q|
    ensures Run(g, reg, p) == Run(g, reg, q) <==> Divides(g, Plus(p, q))
  {
    RunPlus(g, reg, p, reg, q);
    assert Plus(reg, reg) == Zeros(|reg|);
    var a, b := Run(g, reg, p), Run(g, reg, q);
    if a == b {
      assert Plus(a, b) == Zeros(|reg|);
      ZeroRegisterDivides(g, Plus(p, q));
    }
    if Divides(g, Plus(p, q)) {
      DivisibleLeavesZero(g, Plus(p, q));
      forall i | 0 <= i < |a| ensures a[i] == b[i] { assert !Plus(a, b)[i]; }
    }
  }

  /** A non-zero polynomial whose terms span no more than the register's width is no multiple of g. */
  lemma ShortBurstIndivisible(g: Poly, d: Poly, at: nat)
    requires IsGenerator(g)
    requires forall i :: 0 <= i < |d| && !(at <= i < at + |g| - 1) ==> !d[i]
    requires Divides(g, d)
    ensures d == Zeros(|d|)
  {
    var w := |g| - 1;
    if |d| >= w {
      var q :| |q| + w == |d| && Times(q, g) == d;
      var j := if at <= |q| then |q| - at else 0;
      BurstQuotient(g, d, q, j);
    }
  }

  // Behind the burst d has j zeros, and before it at least as many as the rest of the quotient.
  lemma BurstQuotient(g: Poly, d: Poly, q: Poly, j: nat)
    requires IsGenerator(g) && j <= |q| && |q| + |g| - 1 == |d| && Times(q, g) == d
    requires forall i :: 0 <= i < |q| - j ==> !d[i]
    requires forall i :: |d| - j <= i < |d| ==> !d[i]
    ensures d == Zeros(|d|)
  {
    var p := d[..|d| - j];
    assert d == p + Zeros(j);
    StripTrailing(q, g, p, j);
    var front := q[..|q| - j];
    assert forall i :: 0 <= i < |front| ==> !p[i];
    MonicLead(front, g);
    TimesZeros(|front|, g);
  }
}
