/** Facts about floor division on naturals that the grid geometry rests on.
    Every cell origin in the program is an integer quotient, so the bounds and
    disjointness of cells come down to the lemmas below. */
module Arith {

  function Min(a: nat, b: nat): (m: nat)
    ensures m <= a && m <= b && (m == a || m == b)
  {
    if a <= b then a else b
  }

  /** A quotient of naturals is a natural, and so is the remainder. */
  lemma QuotientIsNat(p: nat, t: nat)
    requires t > 0
    ensures 0 <= p / t && 0 <= p % t < t
  {
  }

  lemma MulMono(a: nat, b: nat, d: nat)
    requires a <= b
    ensures a * d <= b * d
  {
  }

  /** Any q with q*d <= n is at most the quotient n/d. */
  lemma QuotientLowerBound(n: nat, d: nat, q: nat)
    requires d > 0 && q * d <= n
    ensures q <= n / d
  {
    if n / d < q {
      MulMono(n / d + 1, q, d);
    }
  }

  /** Floor division is monotonic in the dividend. */
  lemma DivMono(a: nat, b: nat, d: nat)
    requires d > 0 && a <= b
    ensures a / d <= b / d
  {
    QuotientLowerBound(b, d, a / d);
  }

  /** The quotients of two summands add up to at most the quotient of the sum. */
  lemma DivAddLe(a: nat, b: nat, d: nat)
    requires d > 0
    ensures a / d + b / d <= (a + b) / d
  {
    var qa, qb := a / d, b / d;
    QuotientIsNat(a, d);
    QuotientIsNat(b, d);
    assert (qa + qb) * d == qa * d + qb * d;
    QuotientLowerBound(a + b, d, qa + qb);
  }

  /** Dividing c*t + i by t recovers c and i when i < t. */
  lemma DivModOfMulAdd(c: nat, t: nat, i: nat)
    requires i < t
    ensures (c * t + i) / t == c && (c * t + i) % t == i
  {
    var n := c * t + i;
    QuotientLowerBound(n, t, c);
    if n / t > c {
      MulMono(c + 1, n / t, t);
      assert false;
    }
  }

  /** A natural lies in the c-th interval [c*t, c*t + t) exactly when its quotient by t is c. */
  lemma InIntervalIffQuotient(p: nat, t: nat, c: nat)
    requires t > 0
    ensures 0 <= p / t
    ensures (c * t <= p < c * t + t) <==> p / t == c
    ensures p / t == c ==> p % t == p - c * t
  {
    QuotientIsNat(p, t);
    if c * t <= p < c * t + t {
      DivModOfMulAdd(c, t, p - c * t);
    }
    if p / t == c {
      assert p == c * t + p % t;
    }
  }

  /** Intervals of width t starting at c*t and c'*t for c < c' do not overlap. */
  lemma FixedIntervalsApart(c: nat, c': nat, t: nat)
    requires c < c'
    ensures c * t + t <= c' * t
  {
    MulMono(c + 1, c', t);
  }

  /** The cell origins x*w/n of a grid with n columns over width w are spaced at
      least w/n apart, so cells of the fixed width w/n never overlap. */
  lemma SpreadOriginsApart(x: nat, x': nat, w: nat, n: nat)
    requires n > 0 && x < x'
    ensures x * w / n + w / n <= x' * w / n
  {
    DivAddLe(x * w, w, n);
    assert x * w + w == (x + 1) * w;
    MulMono(x + 1, x', w);
    DivMono((x + 1) * w, x' * w, n);
  }

  /** The last cell of such a grid still ends inside the width. */
  lemma SpreadCellInside(x: nat, w: nat, n: nat)
    requires x < n
    ensures x * w / n + w / n <= w
  {
    var a, b := x * w, (x + 1) * w;
    assert a + w == b;
    DivAddLe(a, w, n);
    MulMono(x + 1, n, w);
    DivMono(b, n * w, n);
    DivModOfMulAdd(w, n, 0);
  }

  /** When n does not divide w, even the last of those cells ends before
      the last unit of w. */
  lemma SpreadCellShort(x: nat, w: nat, n: nat)
    requires x < n && w % n != 0
    ensures x * w / n + w / n < w
  {
    var q, r := w / n, w % n;
    assert q * n + r == w;
    assert q < w by { MulMono(1, n, q); }
    var m := w - q - 1;
    var e := (n - 1) * w;
    assert m * n + (n - r) == e;
    DivModOfMulAdd(m, n, n - r);
    MulMono(x, n - 1, w);
    MulMono(0, x, w);
    DivMono(x * w, e, n);
  }

  /** n copies of the quotient w/n fit into w. */
  lemma QuotientCopiesFit(x: nat, w: nat, n: nat)
    requires x < n
    ensures x * (w / n) + w / n <= w
  {
    MulMono(x + 1, n, w / n);
    assert w / n * n <= w;
  }

  /** When n divides w, the spread origin x*w/n is the multiple x*(w/n). */
  lemma SpreadOriginExact(x: nat, w: nat, n: nat)
    requires n > 0 && w % n == 0
    ensures x * w / n == x * (w / n)
  {
    var t := w / n;
    assert w == t * n;
    assert x * w == (x * t) * n;
    DivModOfMulAdd(x * t, n, 0);
  }

  /** A natural below c*t has a quotient by t below c. */
  lemma QuotientBelow(p: nat, t: nat, c: nat)
    requires p < c * t
    ensures t > 0 && p / t < c
  {
    if p / t >= c {
      MulMono(c, p / t, t);
    }
  }

  /** A coordinate below w lies in one of the n equal cells of width w/n when
      n divides w: cell p/(w/n), offset p%(w/n). */
  lemma CellOfCoordinate(p: nat, w: nat, n: nat)
    requires n > 0 && w % n == 0 && p < w
    ensures w / n > 0 && 0 <= p / (w / n) < n && p % (w / n) < w / n
    ensures p == p / (w / n) * (w / n) + p % (w / n)
  {
    QuotientIsNat(w, n);
    QuotientIsNat(p, w / n);
    assert w == n * (w / n);
    QuotientBelow(p, w / n, n);
  }
}
