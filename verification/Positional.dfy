/** Numbers and their digits in some base: bits, and the bytes of an integer.

    `Digits` takes the last digits of a number, highest first, and `Number` adds them up again; each undoes
    the other as far as the digits reach.

    The facts about division come first.  They are the only non-linear arithmetic that the channels, the bit
    streams and the padding need, and are stated so that their users can stay with names for quotients and
    remainders. */
module Positional {
  import opened Sequences

  // ---------- Division ----------

  lemma {:induction false} MoreTimes(j: nat, k: nat, m: nat)
    ensures j <= k ==> j * m <= k * m
  {
    if j < k {
      MoreTimes(j, k - 1, m);
      assert k * m == (k - 1) * m + m;
    }
  }

  lemma DivideUnique(n: nat, m: nat, q: nat, r: nat)
    requires m > 0 && n == q * m + r && r < m
    ensures n / m == q && n % m == r
  {
    var k := n / m;
    assert n == k * m + n % m;
    assert (q + 1) * m == q * m + m && (k + 1) * m == k * m + m;
    MoreTimes(q + 1, k, m);
    MoreTimes(k + 1, q, m);
  }

  lemma Quotient(v: nat, a: nat)
    requires a > 0
    ensures v == v / a * a + v % a
  {
  }

  lemma Distribute(q: nat, b: nat, r: nat, a: nat)
    ensures (q * b + r) * a == q * (a * b) + a * r
  {
  }

  lemma Below(r: nat, b: nat, s: nat, a: nat)
    requires r < b && s < a
    ensures 0 < a * b && a * r + s < a * b
  {
    MoreTimes(r + 1, b, a);
    assert (r + 1) * a == a * r + a;
  }

  /** Dividing twice is dividing by the product, and the remainders combine. */
  lemma DivideTwice(v: nat, a: nat, b: nat)
    requires a > 0 && b > 0
    ensures a * b > 0 && v / a / b == v / (a * b) && v % (a * b) == a * (v / a % b) + v % a
  {
    var w := v / a;
    var q, r, s := w / b, w % b, v % a;
    Quotient(v, a);
    Quotient(w, b);
    Distribute(q, b, r, a);
    Below(r, b, s, a);
    DivideUnique(v, a * b, q, a * r + s);
  }

  // ---------- Digits ----------

  function Power(base: nat, n: nat): nat {
    if n == 0 then 1 else base * Power(base, n - 1)
  }

  lemma {:induction false} PowerPositive(base: nat, n: nat)
    requires base > 0
    ensures Power(base, n) > 0
  {
    if n > 0 {
      PowerPositive(base, n - 1);
      MoreTimes(1, base, Power(base, n - 1));
    }
  }

  lemma EightTwos()
    ensures Power(2, 8) == 256
  {
    assert Power(2, 4) == 16;
    assert Power(2, 8) == 2 * (2 * (2 * (2 * Power(2, 4))));
  }

  predicate AreDigits(base: nat, ds: seq<nat>) {
    forall i | 0 <= i < |ds| :: ds[i] < base
  }

  /** The last `n` digits of a number, highest first. */
  function Digits(base: nat, n: nat, v: nat): (ds: seq<nat>)
    requires base > 0
    ensures |ds| == n && AreDigits(base, ds)
  {
    if n == 0 then [] else Digits(base, n - 1, v / base) + [v % base]
  }

  function Number(base: nat, ds: seq<nat>): nat {
    if ds == [] then 0 else base * Number(base, ds[..|ds| - 1]) + ds[|ds| - 1]
  }

  lemma {:induction false} NumberBelow(base: nat, ds: seq<nat>)
    requires base > 0 && AreDigits(base, ds)
    ensures Number(base, ds) < Power(base, |ds|)
  {
    if ds != [] {
      var init := ds[..|ds| - 1];
      NumberBelow(base, init);
      Below(Number(base, init), Power(base, |init|), ds[|ds| - 1], base);
    }
  }

  /** The digits of a number give it back, up to what that many digits hold. */
  lemma {:induction false} NumberDigits(base: nat, n: nat, v: nat)
    requires base > 0
    ensures Power(base, n) > 0 && Number(base, Digits(base, n, v)) == v % Power(base, n)
  {
    PowerPositive(base, n);
    if n > 0 {
      var ds := Digits(base, n, v);
      NumberDigits(base, n - 1, v / base);
      assert ds[..n - 1] == Digits(base, n - 1, v / base);
      DivideTwice(v, base, Power(base, n - 1));
    }
  }

  /** Digits of digits. */
  lemma {:induction false} DigitsNumber(base: nat, ds: seq<nat>)
    requires base > 0 && AreDigits(base, ds)
    ensures Digits(base, |ds|, Number(base, ds)) == ds
  {
    if ds != [] {
      var n := |ds| - 1;
      DigitsNumber(base, ds[..n]);
      DivideUnique(Number(base, ds), base, Number(base, ds[..n]), ds[n]);
      assert ds == ds[..n] + [ds[n]];
    }
  }

  lemma PowerDivide(v: nat, base: nat, b: nat)
    requires base > 0 && b > 0
    ensures Power(base, b - 1) > 0 && Power(base, b) > 0 && v / base / Power(base, b - 1) == v / Power(base, b)
  {
    PowerPositive(base, b - 1);
    DivideTwice(v, base, Power(base, b - 1));
  }

  /** Some digits, and before them the digits of what is left. */
  lemma {:induction false} DigitsSplit(base: nat, a: nat, b: nat, v: nat)
    requires base > 0
    ensures Power(base, b) > 0 && Digits(base, a + b, v) == Digits(base, a, v / Power(base, b)) + Digits(base, b, v)
    decreases b
  {
    PowerPositive(base, b);
    if b == 0 {
      assert Digits(base, a, v) + [] == Digits(base, a, v);
    } else {
      DigitsSplit(base, a, b - 1, v / base);
      PowerDivide(v, base, b);
      var high := Digits(base, a, v / Power(base, b));
      Assoc(high, Digits(base, b - 1, v / base), [v % base]);
    }
  }

  lemma {:induction false} NumberConcat(base: nat, a: seq<nat>, b: seq<nat>)
    ensures Number(base, a + b) == Number(base, a) * Power(base, |b|) + Number(base, b)
    decreases |b|
  {
    if b == [] {
      assert a + b == a;
    } else {
      var n := |b| - 1;
      NumberConcat(base, a, b[..n]);
      assert (a + b)[..|a + b| - 1] == a + b[..n];
      Distribute(Number(base, a), Power(base, n), Number(base, b[..n]), base);
    }
  }
}
