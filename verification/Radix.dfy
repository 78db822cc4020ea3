/** Positional notation: powers, the value of a digit string in either byte
    order, the canonical digits of a value, and the uniqueness theorems that
    every radix conversion of the codec is checked against. */
module Radix {

  // ---- powers ----

  function Pow(b: nat, e: nat): nat {
    if e == 0 then 1 else b * Pow(b, e - 1)
  }

  lemma {:induction false} PowPositive(b: nat, e: nat)
    requires b > 0
    ensures Pow(b, e) > 0
  {
    if e > 0 {
      PowPositive(b, e - 1);
    }
  }

  lemma {:induction false} PowAdd(b: nat, m: nat, n: nat)
    ensures Pow(b, m + n) == Pow(b, m) * Pow(b, n)
    decreases m
  {
    if m > 0 {
      PowAdd(b, m - 1, n);
      MulAssoc(b, Pow(b, m - 1), Pow(b, n));
    }
  }

  lemma {:induction false} PowMul(b: nat, m: nat, n: nat)
    ensures Pow(Pow(b, m), n) == Pow(b, m * n)
    decreases n
  {
    if n == 0 {
      assert m * n == 0;
    } else {
      PowMul(b, m, n - 1);
      assert m * n == m + m * (n - 1);
      PowAdd(b, m, m * (n - 1));
    }
  }

  lemma {:induction false} PowMonotone(b: nat, m: nat, n: nat)
    requires b > 0 && m <= n
    ensures 0 < Pow(b, m) <= Pow(b, n)
  {
    PowAdd(b, m, n - m);
    PowPositive(b, m);
    PowPositive(b, n - m);
    MulMonotone(1, Pow(b, n - m), Pow(b, m));
  }

  lemma {:induction false} PowBaseMonotone(a: nat, b: nat, n: nat)
    requires a <= b
    ensures Pow(a, n) <= Pow(b, n)
  {
    if n > 0 {
      PowBaseMonotone(a, b, n - 1);
      MulMonotone(a, b, Pow(a, n - 1));
      MulMonotone(Pow(a, n - 1), Pow(b, n - 1), b);
    }
  }

  lemma {:induction false} PowBaseStrict(a: nat, b: nat, n: nat)
    requires a < b && n > 0
    ensures Pow(a, n) < Pow(b, n)
  {
    PowBaseMonotone(a, b, n - 1);
    MulMonotone(Pow(a, n - 1), Pow(b, n - 1), a);
    PowPositive(b, n - 1);
    assert b * Pow(b, n - 1) == a * Pow(b, n - 1) + (b - a) * Pow(b, n - 1);
    MulMonotone(1, b - a, Pow(b, n - 1));
  }

  lemma {:induction false} PowInjective(b: nat, m: nat, n: nat)
    requires b > 0 && Pow(b, m) < Pow(b, n)
    ensures m < n
  {
    if n <= m {
      PowMonotone(b, n, m);
    }
  }

  lemma MulAssoc(x: int, y: int, z: int)
    ensures x * (y * z) == (x * y) * z
  {
  }

  lemma MulMonotone(x: nat, y: nat, z: nat)
    requires x <= y
    ensures x * z <= y * z
  {
  }

  lemma {:induction false} DivModUnique(v: nat, q: nat, r: nat, b: nat)
    requires v == q * b + r && r < b
    ensures v / b == q && v % b == r
  {
    var d := v / b;
    assert v == d * b + v % b;
    assert (q - d) * b == v % b - r;
    if q != d {
      NonzeroMultiple(q - d, b);
    }
  }

  lemma NonzeroMultiple(k: int, b: int)
    requires k != 0 && b >= 0
    ensures k * b >= b || k * b <= -b
  {
    if k > 0 {
      MulMonotone(1, k, b);
    } else {
      MulMonotone(1, -k, b);
    }
  }

  // ---- values of digit strings ----

  predicate AllBelow(s: seq<nat>, b: nat) {
    forall i :: 0 <= i < |s| ==> s[i] < b
  }

  /** Most significant digit first. */
  function ValBE(s: seq<nat>, b: nat): nat {
    if s == [] then 0 else ValBE(s[..|s| - 1], b) * b + s[|s| - 1]
  }

  /** Least significant digit first. */
  function ValLE(s: seq<nat>, b: nat): nat {
    if s == [] then 0 else ValLE(s[..|s| - 1], b) + s[|s| - 1] * Pow(b, |s| - 1)
  }

  function Zeros(n: nat): (s: seq<nat>)
    ensures |s| == n && forall i :: 0 <= i < n ==> s[i] == 0
  {
    seq(n, _ => 0)
  }

  lemma ValBEEmpty(b: nat)
    ensures ValBE([], b) == 0
  {
  }

  lemma ValLEEmpty(b: nat)
    ensures ValLE([], b) == 0
  {
  }

  lemma ValBESnoc(s: seq<nat>, d: nat, b: nat)
    ensures ValBE(s + [d], b) == ValBE(s, b) * b + d
  {
    assert (s + [d])[..|s|] == s;
  }

  lemma ValBEStep(s: seq<nat>, i: nat, b: nat)
    requires i < |s|
    ensures ValBE(s[..i + 1], b) == ValBE(s[..i], b) * b + s[i]
  {
    assert s[..i + 1][..i] == s[..i];
  }

  lemma ValLEStep(s: seq<nat>, i: nat, b: nat)
    requires i < |s|
    ensures ValLE(s[..i + 1], b) == ValLE(s[..i], b) + s[i] * Pow(b, i)
  {
    assert s[..i + 1][..i] == s[..i];
  }

  lemma {:induction false} ValBEAppend(s: seq<nat>, t: seq<nat>, b: nat)
    ensures ValBE(s + t, b) == ValBE(s, b) * Pow(b, |t|) + ValBE(t, b)
    decreases |t|
  {
    if t == [] {
      assert s + t == s;
    } else {
      var u, d := t[..|t| - 1], t[|t| - 1];
      assert s + t == (s + u) + [d];
      ValBESnoc(s + u, d, b);
      ValBEAppend(s, u, b);
      Distribute(ValBE(s, b), Pow(b, |u|), ValBE(u, b), b);
    }
  }

  lemma Distribute(x: nat, p: nat, y: nat, b: nat)
    ensures (x * p + y) * b == x * (b * p) + y * b
  {
  }

  lemma ValBECons(d: nat, t: seq<nat>, b: nat)
    ensures ValBE([d] + t, b) == d * Pow(b, |t|) + ValBE(t, b)
  {
    ValBEAppend([d], t, b);
    ValBESnoc([], d, b);
    assert [] + [d] == [d];
  }

  lemma {:induction false} ValLEAppend(s: seq<nat>, t: seq<nat>, b: nat)
    ensures ValLE(s + t, b) == ValLE(s, b) + Pow(b, |s|) * ValLE(t, b)
    decreases |t|
  {
    if t == [] {
      assert s + t == s;
    } else {
      var u, d := t[..|t| - 1], t[|t| - 1];
      assert s + t == (s + u) + [d];
      assert ((s + u) + [d])[..|s + u|] == s + u;
      ValLEAppend(s, u, b);
      PowAdd(b, |s|, |u|);
      MulAssoc(Pow(b, |s|), Pow(b, |u|), d);
      assert Pow(b, |s|) * (ValLE(u, b) + d * Pow(b, |u|))
          == Pow(b, |s|) * ValLE(u, b) + d * (Pow(b, |s|) * Pow(b, |u|)) by {
        DistributeLeft(Pow(b, |s|), ValLE(u, b), d, Pow(b, |u|));
      }
    }
  }

  lemma DistributeLeft(p: nat, x: nat, d: nat, q: nat)
    ensures p * (x + d * q) == p * x + d * (p * q)
  {
  }

  lemma ValLECons(d: nat, t: seq<nat>, b: nat)
    ensures ValLE([d] + t, b) == d + b * ValLE(t, b)
  {
    ValLEAppend([d], t, b);
    assert [d][..0] == [];
    assert ValLE([d], b) == d * Pow(b, 0);
    assert Pow(b, 1) == b * Pow(b, 0);
  }

  lemma {:induction false} ValBEBound(s: seq<nat>, b: nat)
    requires AllBelow(s, b)
    ensures ValBE(s, b) < Pow(b, |s|)
    decreases |s|
  {
    if s != [] {
      var u := s[..|s| - 1];
      ValBEBound(u, b);
      BoundStep(ValBE(u, b), Pow(b, |u|), b, s[|s| - 1]);
    }
  }

  lemma BoundStep(v: nat, p: nat, b: nat, d: nat)
    requires v < p && d < b
    ensures v * b + d < b * p
  {
    MulMonotone(v + 1, p, b);
    assert (v + 1) * b == v * b + b;
  }

  lemma {:induction false} ValLEBound(s: seq<nat>, b: nat)
    requires AllBelow(s, b)
    ensures ValLE(s, b) < Pow(b, |s|)
    decreases |s|
  {
    if s != [] {
      var u := s[..|s| - 1];
      ValLEBound(u, b);
      MulMonotone(s[|s| - 1] + 1, b, Pow(b, |u|));
      assert (s[|s| - 1] + 1) * Pow(b, |u|) == s[|s| - 1] * Pow(b, |u|) + Pow(b, |u|);
    }
  }

  /** A digit string whose first digit is not zero is at least b^(length-1). */
  lemma {:induction false} ValBELower(s: seq<nat>, b: nat)
    requires s != [] && s[0] > 0
    ensures ValBE(s, b) >= Pow(b, |s| - 1)
  {
    assert s == [s[0]] + s[1..];
    ValBECons(s[0], s[1..], b);
    MulMonotone(1, s[0], Pow(b, |s| - 1));
  }

  lemma {:induction false} ValLELower(s: seq<nat>, b: nat)
    requires s != [] && s[|s| - 1] > 0
    ensures ValLE(s, b) >= Pow(b, |s| - 1)
  {
    MulMonotone(1, s[|s| - 1], Pow(b, |s| - 1));
  }

  /** A little-endian value of at least b^(length-1) has a non-zero top digit. */
  lemma TopNonzero(ds: seq<nat>, b: nat)
    requires ds != [] && AllBelow(ds, b) && ValLE(ds, b) >= Pow(b, |ds| - 1)
    ensures ds[|ds| - 1] != 0
  {
    ValLEBound(ds[..|ds| - 1], b);
  }

  lemma {:induction false} ValBEZeros(n: nat, b: nat)
    ensures ValBE(Zeros(n), b) == 0
  {
    if n > 0 {
      assert Zeros(n)[..n - 1] == Zeros(n - 1);
      ValBEZeros(n - 1, b);
    }
  }

  lemma {:induction false} ValLEZeros(n: nat, b: nat)
    ensures ValLE(Zeros(n), b) == 0
  {
    if n > 0 {
      assert Zeros(n)[..n - 1] == Zeros(n - 1);
      ValLEZeros(n - 1, b);
    }
  }

  lemma ValBELeadingZeros(n: nat, s: seq<nat>, b: nat)
    ensures ValBE(Zeros(n) + s, b) == ValBE(s, b)
  {
    ValBEAppend(Zeros(n), s, b);
    ValBEZeros(n, b);
  }

  lemma ValLETrailingZeros(s: seq<nat>, n: nat, b: nat)
    ensures ValLE(s + Zeros(n), b) == ValLE(s, b)
  {
    ValLEAppend(s, Zeros(n), b);
    ValLEZeros(n, b);
  }

  /** Values are linear in the digits. */
  lemma {:induction false} ValBELinear(z: seq<nat>, s: seq<nat>, x: nat, t: seq<nat>, b: nat)
    requires |z| == |s| == |t|
    requires forall i :: 0 <= i < |z| ==> z[i] == s[i] + x * t[i]
    ensures ValBE(z, b) == ValBE(s, b) + x * ValBE(t, b)
    decreases |z|
  {
    if z != [] {
      var n := |z| - 1;
      ValBELinear(z[..n], s[..n], x, t[..n], b);
      DistributeSum(ValBE(s[..n], b), x, ValBE(t[..n], b), b, s[n], t[n]);
    }
  }

  lemma DistributeSum(a: nat, x: nat, c: nat, b: nat, d: nat, e: nat)
    ensures (a + x * c) * b + (d + x * e) == (a * b + d) + x * (c * b + e)
  {
  }

  lemma {:induction false} ValLELinear(z: seq<nat>, s: seq<nat>, x: nat, t: seq<nat>, b: nat)
    requires |z| == |s| == |t|
    requires forall i :: 0 <= i < |z| ==> z[i] == s[i] + x * t[i]
    ensures ValLE(z, b) == ValLE(s, b) + x * ValLE(t, b)
    decreases |z|
  {
    if z != [] {
      var n := |z| - 1;
      ValLELinear(z[..n], s[..n], x, t[..n], b);
      DistributeProduct(ValLE(s[..n], b), x, ValLE(t[..n], b), Pow(b, n), s[n], t[n]);
    }
  }

  lemma DistributeProduct(a: nat, x: nat, c: nat, p: nat, d: nat, e: nat)
    ensures (a + x * c) + (d + x * e) * p == (a + d * p) + x * (c + e * p)
  {
  }

  // ---- carry propagation ----

  /** One step of carrying from a column into the next more significant one,
      seen from a most-significant-first array: `x` is the value above the
      column, `v` the column with its incoming carry, `done` what lies below. */
  lemma CarryStepBE(x: nat, v: nat, q: nat, r: nat, b: nat, p: nat, done: nat)
    requires v == q * b + r
    ensures (x * b + v) * p + done == (x + q) * (b * p) + (r * p + done)
  {
    assert x * b + v == (x + q) * b + r;
    Distribute2((x + q), b, r, p);
  }

  lemma Distribute2(y: nat, b: nat, r: nat, p: nat)
    ensures (y * b + r) * p == y * (b * p) + r * p
  {
  }

  /** The same step in a least-significant-first array. */
  lemma CarryStepLE(done: nat, p: nat, carry: nat, column: nat, rest: nat, q: nat, r: nat, b: nat)
    requires column + carry == q * b + r
    ensures done + p * (carry + (column + b * rest)) == (done + r * p) + (b * p) * (q + rest)
  {
    assert carry + (column + b * rest) == (q + rest) * b + r;
    Distribute2(q + rest, b, r, p);
  }

  /** i limbs worth D are final and c is still to be added above them. */
  ghost function Pending(b: nat, D: nat, i: nat, c: nat): nat {
    D + Pow(b, i) * c
  }

  lemma PendingStep(b: nat, D: nat, i: nat, c: nat, col: nat, q: nat, r: nat)
    requires col + c == q * b + r
    ensures Pending(b, D, i, c) + col * Pow(b, i) == Pending(b, D + r * Pow(b, i), i + 1, q)
  {
    PowNext(b, i);
    hide Pow;
    CarryStepLE(D, Pow(b, i), c, col, 0, q, r, b);
    assert b * 0 == 0;
    Split(Pow(b, i), c, col);
  }

  lemma PowNext(b: nat, i: nat)
    ensures Pow(b, i + 1) == b * Pow(b, i)
  {
  }

  lemma Split(p: nat, c: nat, col: nat)
    ensures p * (c + col) == p * c + col * p
  {
  }

  lemma PendingDone(b: nat, D: nat, i: nat)
    ensures Pending(b, D, i, 0) == D
  {
    hide Pow;
    assert Pow(b, i) * 0 == 0;
  }

  lemma PendingStart(b: nat, c: nat)
    ensures Pending(b, 0, 0, c) == c
  {
    assert Pow(b, 0) == 1;
  }

  /** A carry above i limbs means the value needs more than i limbs. */
  lemma PendingLarge(b: nat, D: nat, i: nat, c: nat, n: nat)
    requires b > 0 && c > 0 && Pending(b, D, i, c) < Pow(b, n)
    ensures i < n
  {
    hide Pow;
    MulMonotone(1, c, Pow(b, i));
    PowInjective(b, i, n);
  }

  lemma NothingTimes(b: nat, i: nat)
    ensures 0 * Pow(b, i) == 0
  {
  }

  /** v * mult + chunk, the step of every Horner evaluation. */
  function Scaled(v: nat, mult: nat, chunk: nat): nat {
    v * mult + chunk
  }

  lemma ScaledZero(mult: nat, chunk: nat)
    ensures Scaled(0, mult, chunk) == chunk
  {
  }

  lemma ScaledGrows(v: nat, mult: nat, chunk: nat)
    requires mult > 0
    ensures v <= Scaled(v, mult, chunk)
  {
    MulMonotone(1, mult, v);
  }

  lemma ScaledPrefix(b: nat, ds: seq<nat>, i: nat, mult: nat, chunk: nat)
    requires i < |ds|
    ensures Scaled(ValLE(ds[..i + 1], b), mult, chunk)
         == Scaled(ValLE(ds[..i], b), mult, chunk) + (ds[i] * mult) * Pow(b, i)
  {
    hide ValLE, Pow;
    ValLEStep(ds, i, b);
    Rearrange(ValLE(ds[..i], b), ds[i], Pow(b, i), mult);
  }

  lemma Rearrange(v: nat, d: nat, p: nat, m: nat)
    ensures (v + d * p) * m == v * m + (d * m) * p
  {
  }

  /** One limb of state * mult + chunk: the limb's product and the carry split
      into a new limb and the next carry. */
  lemma ScaleStep(b: nat, was: seq<nat>, i: nat, mult: nat, chunk: nat, D: nat, carry: nat, q: nat, r: nat)
    requires i < |was| && was[i] * mult + carry == q * b + r
    requires Scaled(ValLE(was[..i], b), mult, chunk) == Pending(b, D, i, carry)
    ensures Scaled(ValLE(was[..i + 1], b), mult, chunk) == Pending(b, D + r * Pow(b, i), i + 1, q)
  {
    hide ValLE, Pow, Pending, Scaled;
    ScaledPrefix(b, was, i, mult, chunk);
    PendingStep(b, D, i, carry, was[i] * mult, q, r);
  }

  // ---- canonical digits ----

  /** The digits of v in base b, most significant first, no leading zero. */
  function ToBE(v: nat, b: nat): (s: seq<nat>)
    requires b >= 2
    ensures AllBelow(s, b)
    ensures ValBE(s, b) == v
    ensures s == [] <==> v == 0
    ensures s != [] ==> s[0] > 0
    decreases v
  {
    if v == 0 then [] else
      DivSmaller(v, b);
      ValBESnoc(ToBE(v / b, b), v % b, b);
      ToBE(v / b, b) + [v % b]
  }

  lemma DivSmaller(v: nat, b: nat)
    requires v > 0 && b >= 2
    ensures v / b < v && v == (v / b) * b + v % b
  {
    MulMonotone(2, b, v / b);
  }

  /** Digits determine the value and the value determines the digits. */
  lemma {:induction false} ToBEUnique(s: seq<nat>, b: nat)
    requires b >= 2 && AllBelow(s, b) && (s != [] ==> s[0] > 0)
    ensures s == ToBE(ValBE(s, b), b)
    decreases |s|
  {
    if s != [] {
      var n := |s| - 1;
      ToBEUnique(s[..n], b);
      DivModUnique(ValBE(s, b), ValBE(s[..n], b), s[n], b);
      ValBELower(s, b);
      PowPositive(b, n);
      assert s == s[..n] + [s[n]];
    }
  }

  /** Stripping leading zeros from any digit string gives the canonical one. */
  lemma {:induction false} TrimmedIsCanonical(s: seq<nat>, p: nat, b: nat)
    requires b >= 2 && AllBelow(s, b) && p <= |s|
    requires forall i :: 0 <= i < p ==> s[i] == 0
    requires p < |s| ==> s[p] > 0
    ensures s[p..] == ToBE(ValBE(s, b), b)
  {
    assert s == Zeros(p) + s[p..];
    ValBELeadingZeros(p, s[p..], b);
    ToBEUnique(s[p..], b);
  }

  /** Digit strings of one length are determined by their value. */
  lemma {:induction false} SameLengthUnique(s: seq<nat>, t: seq<nat>, b: nat)
    requires |s| == |t| && AllBelow(s, b) && AllBelow(t, b)
    requires ValBE(s, b) == ValBE(t, b)
    ensures s == t
    decreases |s|
  {
    if s != [] {
      var n := |s| - 1;
      DivModUnique(ValBE(s, b), ValBE(s[..n], b), s[n], b);
      DivModUnique(ValBE(s, b), ValBE(t[..n], b), t[n], b);
      SameLengthUnique(s[..n], t[..n], b);
      assert s == s[..n] + [s[n]] && t == t[..n] + [t[n]];
    }
  }

  /** The n digits of v, most significant first, leading zeros kept. */
  function FixedBE(v: nat, n: nat, b: nat): (s: seq<nat>)
    requires b >= 1 && v < Pow(b, n)
    ensures |s| == n && AllBelow(s, b) && ValBE(s, b) == v
    decreases n
  {
    if n == 0 then [] else
      DivBelow(v, b, Pow(b, n - 1));
      ValBESnoc(FixedBE(v / b, n - 1, b), v % b, b);
      FixedBE(v / b, n - 1, b) + [v % b]
  }

  lemma DivBelow(v: nat, b: nat, p: nat)
    requires b >= 1 && v < b * p
    ensures v / b < p && v == (v / b) * b + v % b
  {
    if v / b >= p {
      MulMonotone(p, v / b, b);
    }
  }

  /** Any n digits of v are FixedBE(v, n). */
  lemma {:induction false} FixedUnique(s: seq<nat>, b: nat)
    requires b >= 1 && AllBelow(s, b)
    ensures ValBE(s, b) < Pow(b, |s|) && s == FixedBE(ValBE(s, b), |s|, b)
  {
    ValBEBound(s, b);
    SameLengthUnique(s, FixedBE(ValBE(s, b), |s|, b), b);
  }

  /** Length of the canonical digits: the only n with b^(n-1) <= v < b^n. */
  lemma {:induction false} ToBELength(v: nat, b: nat)
    requires b >= 2 && v > 0
    ensures |ToBE(v, b)| >= 1
    ensures Pow(b, |ToBE(v, b)| - 1) <= v < Pow(b, |ToBE(v, b)|)
  {
    ValBEBound(ToBE(v, b), b);
    ValBELower(ToBE(v, b), b);
  }

  lemma PositiveValue(s: seq<nat>, i: nat, b: nat)
    requires i < |s| && s[i] > 0 && b > 0
    ensures ValBE(s, b) > 0
  {
    ValBEAppend(s[..i + 1], s[i + 1..], b);
    assert s == s[..i + 1] + s[i + 1..];
    ValBEStep(s, i, b);
    PowPositive(b, |s| - i - 1);
    MulMonotone(1, ValBE(s[..i + 1], b), Pow(b, |s| - i - 1));
  }
}
