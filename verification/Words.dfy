/** 64-bit words as bits, least significant first, with the C operators on `uint64_t`. */
module Words {

  type Word = w: seq<bool> | |w| == 64 witness seq(64, _ => false)

  function Zeros(n: nat): (z: seq<bool>)
    ensures |z| == n
  {
    seq(n, _ => false)
  }

  function AllOnes(): Word { seq(64, _ => true) }

  /** Shifts by less than the width; more is undefined in C (section 6.5.7 of ISO/IEC 9899:2011). */
  function Shl(w: Word, n: nat): Word
    requires n < 64
  {
    Zeros(n) + w[..64 - n]
  }

  function Shr(w: Word, n: nat): Word
    requires n < 64
  {
    w[n..] + Zeros(n)
  }

  function BitAnd(a: Word, b: Word): Word { seq(64, i requires 0 <= i < 64 => a[i] && b[i]) }
  function BitOr(a: Word, b: Word): Word { seq(64, i requires 0 <= i < 64 => a[i] || b[i]) }
  function BitNot(a: Word): Word { seq(64, i requires 0 <= i < 64 => !a[i]) }

  // ----- Numbers

  function Pow2(n: nat): (p: nat)
    ensures p > 0
  {
    if n == 0 then 1 else 2 * Pow2(n - 1)
  }

  /** The lowest `n` bits of a number. */
  function ToBits(x: nat, n: nat): (b: seq<bool>)
    ensures |b| == n
  {
    if n == 0 then [] else [x % 2 == 1] + ToBits(x / 2, n - 1)
  }

  function ToNat(b: seq<bool>): nat {
    if b == [] then 0 else (if b[0] then 1 else 0) + 2 * ToNat(b[1..])
  }

  lemma {:induction false} ToNatBound(b: seq<bool>)
    ensures ToNat(b) < Pow2(|b|)
  {
    if b != [] { ToNatBound(b[1..]); }
  }

  lemma {:induction false} BitsOfNumber(b: seq<bool>)
    ensures ToBits(ToNat(b), |b|) == b
  {
    if b == [] {
    } else {
      BitsOfNumber(b[1..]);
      assert ToNat(b) / 2 == ToNat(b[1..]);
    }
  }

  lemma ModStep(x: nat, p: nat)
    requires p > 0
    ensures x % (2 * p) == x % 2 + 2 * (x / 2 % p)
  {
    var q, r := x / 2 / p, x / 2 % p;
    assert x / 2 == q * p + r;
    Double(p, q, 2 * p);
    assert x == 2 * p * q + (x % 2 + 2 * r);
    ModUnique(x, 2 * p, q, x % 2 + 2 * r);
  }

  lemma ModUnique(x: nat, m: nat, q: nat, r: nat)
    requires x == m * q + r && r < m
    ensures x % m == r && x / m == q
  {
    var d := x / m - q;
    assert x == m * (x / m) + x % m;
    assert m * (x / m) - m * q == m * d;
    if d >= 1 { AtLeastOnce(m, d); }
    if d <= -1 { AtLeastOnce(m, -d); }
  }

  lemma AtLeastOnce(m: nat, d: int)
    requires d >= 1
    ensures m * d >= m
  {
  }

  /** The bits of a number hold it modulo a power of two. */
  lemma {:induction false} NumberOfBits(x: nat, n: nat)
    ensures ToNat(ToBits(x, n)) == x % Pow2(n)
  {
    if n == 0 {
    } else {
      NumberOfBits(x / 2, n - 1);
      assert ToBits(x, n)[1..] == ToBits(x / 2, n - 1);
      ModStep(x, Pow2(n - 1));
    }
  }

  lemma {:induction false} ToNatZeros(n: nat)
    ensures ToNat(Zeros(n)) == 0
  {
    if n == 0 {
    } else {
      assert Zeros(n)[1..] == Zeros(n - 1);
      ToNatZeros(n - 1);
    }
  }

  lemma Double(p: nat, y: nat, twice: nat)
    requires twice == 2 * p
    ensures twice * y == 2 * (p * y)
  {
  }

  lemma {:induction false} ToNatJoin(a: seq<bool>, b: seq<bool>)
    ensures ToNat(a + b) == ToNat(a) + Pow2(|a|) * ToNat(b)
  {
    if a == [] {
      assert a + b == b;
    } else {
      assert (a + b)[1..] == a[1..] + b;
      ToNatJoin(a[1..], b);
      Double(Pow2(|a| - 1), ToNat(b), Pow2(|a|));
    }
  }

  lemma {:induction false} Pow2Sum(a: nat, b: nat)
    ensures Pow2(a + b) == Pow2(a) * Pow2(b)
  {
    if a == 0 {
    } else {
      Pow2Sum(a - 1, b);
      Double(Pow2(a - 1), Pow2(b), Pow2(a));
    }
  }

  /** The shifts are those of the unsigned arithmetic of C. */
  lemma ShrIsDivision(w: Word, n: nat)
    requires n < 64
    ensures ToNat(Shr(w, n)) == ToNat(w) / Pow2(n)
  {
    assert w == w[..n] + w[n..];
    ToNatJoin(w[..n], w[n..]);
    ToNatJoin(w[n..], Zeros(n));
    ToNatZeros(n);
    ToNatBound(w[..n]);
    assert Pow2(64 - n) * 0 == 0;
    ModUnique(ToNat(w), Pow2(n), ToNat(w[n..]), ToNat(w[..n]));
  }

  lemma ShlIsMultiplication(w: Word, n: nat)
    requires n < 64
    ensures ToNat(Shl(w, n)) == ToNat(w) * Pow2(n) % Pow2(64)
  {
    var low, high := w[..64 - n], w[64 - n..];
    var p, q, x, y := Pow2(n), Pow2(64 - n), ToNat(low), ToNat(high);
    assert w == low + high;
    ToNatJoin(low, high);
    ToNatJoin(Zeros(n), low);
    ToNatZeros(n);
    ToNatBound(low);
    Pow2Sum(64 - n, n);
    ShiftedModulo(x, y, p, q, Pow2(64));
  }

  lemma Distribute(a: nat, b: nat, p: nat)
    ensures (a + b) * p == a * p + b * p
  {
  }

  lemma Swap(q: nat, y: nat, p: nat)
    ensures (q * y) * p == (q * p) * y
  {
    assert y * p == p * y;
    Regroup(q, y, p);
    Regroup(q, p, y);
  }

  lemma Regroup(a: nat, b: nat, c: nat)
    ensures (a * b) * c == a * (b * c)
  {
  }

  lemma MulLess(x: nat, q: nat, p: nat)
    requires x < q && p > 0
    ensures x * p < q * p
  {
    Distribute(x, q - x, p);
    assert (q - x) * p > 0;
  }

  lemma ShiftedModulo(x: nat, y: nat, p: nat, q: nat, m: nat)
    requires m == q * p && x < q && p > 0
    ensures (x + q * y) * p % m == p * x
  {
    Distribute(x, q * y, p);
    Swap(q, y, p);
    MulLess(x, q, p);
    assert x * p == p * x;
    ModUnique((x + q * y) * p, m, y, p * x);
  }

  // ----- Single bits of a number

  lemma {:induction false} BitsAgree(x: nat, n: nat, m: nat, k: nat)
    requires k < n && k < m
    ensures ToBits(x, n)[k] == ToBits(x, m)[k]
  {
    if k > 0 { BitsAgree(x / 2, n - 1, m - 1, k - 1); }
  }

  lemma {:induction false} HighBitsAreZero(x: nat, n: nat, m: nat, k: nat)
    requires x < Pow2(m) && m <= k < n
    ensures !ToBits(x, n)[k]
  {
    if k > 0 { HighBitsAreZero(x / 2, n - 1, if m > 0 then m - 1 else 0, k - 1); }
  }
}
