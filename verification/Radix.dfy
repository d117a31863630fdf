/** Positional notation in an arbitrary base: the arithmetic shared by the
    big-endian counters of the store and by the base58 codec. */
module Radix {

  function Pow(b: nat, e: nat): (r: nat)
    ensures b > 0 ==> r > 0
  {
    if e == 0 then 1 else b * Pow(b, e - 1)
  }

  /** The number written by `ds`, most significant digit first. */
  function Val(b: nat, ds: seq<nat>): nat {
    if ds == [] then 0 else Val(b, ds[..|ds| - 1]) * b + ds[|ds| - 1]
  }

  predicate Digits(b: nat, ds: seq<nat>) {
    forall i :: 0 <= i < |ds| ==> ds[i] < b
  }

  /** The digits of `n` without leading zeros; zero has no digits. */
  function Minimal(b: nat, n: nat): (ds: seq<nat>)
    requires b >= 2
    ensures Digits(b, ds)
    ensures ds != [] ==> ds[0] != 0
    decreases n
  {
    if n == 0 then [] else
      DivShrinks(b, n);
      Minimal(b, n / b) + [n % b]
  }

  /** The last `w` digits of `n`; higher digits are dropped. */
  function Fixed(b: nat, n: nat, w: nat): (ds: seq<nat>)
    requires b >= 2
    ensures |ds| == w && Digits(b, ds)
    decreases w, n
  {
    if w == 0 then [] else Fixed(b, n / b, w - 1) + [n % b]
  }

  lemma DivShrinks(b: nat, n: nat)
    requires b >= 2 && n > 0
    ensures n / b < n
    ensures n < b ==> n / b == 0 && n % b == n
    ensures n == n / b * b + n % b
  {
    if n < b { DivUnique(b, 0, n); }
    var q := n / b;
    MulLe(q, 2, b);
    assert n == q * b + n % b;
  }

  lemma MulLe(x: nat, y: nat, z: nat)
    requires y <= z
    ensures x * y <= x * z
  {
  }

  /** Quotient and remainder are determined by the division equation. */
  lemma DivUnique(b: nat, q: nat, r: nat)
    requires b > 0 && r < b
    ensures (q * b + r) / b == q && (q * b + r) % b == r
  {
    var n := q * b + r;
    var q', r' := n / b, n % b;
    assert (q - q') * b == r' - r;
    if q > q' { MulLe(b, 1, q - q'); }
    if q' > q { MulLe(b, 1, q' - q); }
  }

  lemma MulAssoc(x: nat, y: nat, z: nat)
    ensures x * (y * z) == x * y * z
  {
  }

  lemma Distribute(v: nat, p: nat, u: nat, b: nat)
    ensures (v * p + u) * b == v * (b * p) + u * b
  {
    MulAssoc(v, b, p);
  }

  lemma {:induction false} PowAdd(b: nat, m: nat, n: nat)
    ensures Pow(b, m + n) == Pow(b, m) * Pow(b, n)
    decreases m
  {
    if m > 0 {
      calc {
        Pow(b, m + n);
        b * Pow(b, m - 1 + n);
        { PowAdd(b, m - 1, n); }
        b * (Pow(b, m - 1) * Pow(b, n));
        { MulAssoc(b, Pow(b, m - 1), Pow(b, n)); }
        Pow(b, m) * Pow(b, n);
      }
    }
  }

  lemma PowMono(b: nat, m: nat, n: nat)
    requires b > 0 && m <= n
    ensures Pow(b, m) <= Pow(b, n)
  {
    PowAdd(b, m, n - m);
    MulLe(Pow(b, m), 1, Pow(b, n - m));
  }

  lemma {:induction false} ValBound(b: nat, ds: seq<nat>)
    requires b > 0 && Digits(b, ds)
    ensures Val(b, ds) < Pow(b, |ds|)
  {
    if ds != [] {
      var init, d := ds[..|ds| - 1], ds[|ds| - 1];
      ValBound(b, init);
      var v, p := Val(b, init), Pow(b, |init|);
      MulLe(b, v + 1, p);
      assert b * (v + 1) == v * b + b;
    }
  }

  /** A digit string with a non-zero first digit is at least the base to its length minus one. */
  lemma {:induction false} ValLower(b: nat, ds: seq<nat>)
    requires b > 0 && ds != [] && ds[0] > 0
    ensures Pow(b, |ds| - 1) <= Val(b, ds)
  {
    if |ds| == 1 {
      assert Val(b, ds[..0]) == 0;
    } else {
      var init := ds[..|ds| - 1];
      ValLower(b, init);
      MulLe(b, Pow(b, |init| - 1), Val(b, init));
    }
  }

  lemma {:induction false} ValAppend(b: nat, xs: seq<nat>, ys: seq<nat>)
    ensures Val(b, xs + ys) == Val(b, xs) * Pow(b, |ys|) + Val(b, ys)
  {
    if ys == [] {
      assert xs + ys == xs;
    } else {
      var init, d := ys[..|ys| - 1], ys[|ys| - 1];
      assert (xs + ys)[..|xs + ys| - 1] == xs + init;
      ValAppend(b, xs, init);
      Distribute(Val(b, xs), Pow(b, |init|), Val(b, init), b);
    }
  }

  lemma ValCons(b: nat, d: nat, ds: seq<nat>)
    ensures Val(b, [d] + ds) == d * Pow(b, |ds|) + Val(b, ds)
  {
    ValAppend(b, [d], ds);
    assert Val(b, [d][..0]) == 0;
  }

  lemma LeadDominates(x: nat, y: nat, p: nat, u: nat, v: nat)
    requires x < y && u < p
    ensures x * p + u < y * p + v
  {
    MulLe(p, x + 1, y);
    assert p * (x + 1) == x * p + p;
  }

  lemma FirstDigitDecides(b: nat, x: nat, xs: seq<nat>, y: nat, ys: seq<nat>)
    requires b > 0 && |xs| == |ys| && Digits(b, xs) && x < y
    ensures Val(b, [x] + xs) < Val(b, [y] + ys)
  {
    ValCons(b, x, xs);
    ValCons(b, y, ys);
    ValBound(b, xs);
    LeadDominates(x, y, Pow(b, |xs|), Val(b, xs), Val(b, ys));
  }

  function Zeros(n: nat): (z: seq<nat>)
    ensures |z| == n && forall i :: 0 <= i < n ==> z[i] == 0
  {
    seq(n, _ => 0)
  }

  lemma {:induction false} ValZeros(b: nat, n: nat)
    ensures Val(b, Zeros(n)) == 0
    decreases n
  {
    if n > 0 {
      ValZeros(b, n - 1);
      assert Zeros(n)[..n - 1] == Zeros(n - 1);
    }
  }

  lemma ValLeadingZeros(b: nat, n: nat, ds: seq<nat>)
    ensures Val(b, Zeros(n) + ds) == Val(b, ds)
  {
    ValZeros(b, n);
    ValAppend(b, Zeros(n), ds);
  }

  /** Writing a number and reading it back. */
  lemma {:induction false} ValMinimal(b: nat, n: nat)
    requires b >= 2
    ensures Val(b, Minimal(b, n)) == n
    decreases n
  {
    if n > 0 {
      var q, r := n / b, n % b;
      DivShrinks(b, n);
      ValMinimal(b, q);
      ValSnoc(b, Minimal(b, q), r);
      assert Minimal(b, n) == Minimal(b, q) + [r];
    }
  }

  /** Reading a digit string without leading zeros and writing it again. */
  lemma {:induction false} MinimalVal(b: nat, ds: seq<nat>)
    requires b >= 2 && Digits(b, ds)
    requires ds != [] ==> ds[0] != 0
    ensures Minimal(b, Val(b, ds)) == ds
  {
    if ds != [] {
      var init, d := ds[..|ds| - 1], ds[|ds| - 1];
      MinimalVal(b, init);
      DivUnique(b, Val(b, init), d);
      ValLower(b, ds);
      assert ds == init + [d];
    }
  }

  lemma ValSnoc(b: nat, ds: seq<nat>, d: nat)
    ensures Val(b, ds + [d]) == Val(b, ds) * b + d
  {
    assert (ds + [d])[..|ds|] == ds;
  }

  lemma DivBelow(b: nat, n: nat, p: nat)
    requires b >= 2 && n < b * p
    ensures n / b < p && n == n / b * b + n % b
  {
    var q := n / b;
    assert n == q * b + n % b;
    if q >= p { MulLe(b, p, q); }
  }

  lemma {:induction false} ValFixed(b: nat, n: nat, w: nat)
    requires b >= 2 && n < Pow(b, w)
    ensures Val(b, Fixed(b, n, w)) == n
    decreases w
  {
    if w > 0 {
      var q, r := n / b, n % b;
      assert q < Pow(b, w - 1) && n == q * b + r by { DivBelow(b, n, Pow(b, w - 1)); }
      ValFixed(b, q, w - 1);
      calc {
        Val(b, Fixed(b, n, w));
        Val(b, Fixed(b, q, w - 1) + [r]);
        { ValSnoc(b, Fixed(b, q, w - 1), r); }
        Val(b, Fixed(b, q, w - 1)) * b + r;
        q * b + r;
      }
    }
  }

  lemma {:induction false} FixedVal(b: nat, ds: seq<nat>)
    requires b >= 2 && Digits(b, ds)
    ensures Fixed(b, Val(b, ds), |ds|) == ds
  {
    if ds != [] {
      var init, d := ds[..|ds| - 1], ds[|ds| - 1];
      FixedVal(b, init);
      DivUnique(b, Val(b, init), d);
      assert ds == init + [d];
    }
  }

  /** Writing in a fixed width keeps the last digits. */
  lemma {:induction false} FixedSuffix(b: nat, ds: seq<nat>, w: nat)
    requires b >= 2 && Digits(b, ds) && w <= |ds|
    ensures Fixed(b, Val(b, ds), w) == ds[|ds| - w..]
    decreases w
  {
    if w > 0 {
      var init, d := ds[..|ds| - 1], ds[|ds| - 1];
      FixedSuffix(b, init, w - 1);
      DivUnique(b, Val(b, init), d);
      assert ds[|ds| - w..] == init[|init| - (w - 1)..] + [d];
    }
  }
}
