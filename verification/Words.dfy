/** Machine words as integers: wrap-around, powers of two and the bitwise operators the sources use. */
module Words {

  const U32 := 0x1_0000_0000

  /** The value an unsigned 32-bit variable holds after being assigned `x`. */
  function Wrap(x: int): (r: nat)
    ensures r < U32
  {
    x % U32
  }

  lemma WrapSmall(x: nat)
    requires x < U32
    ensures Wrap(x) == x
  {
  }

  const TWO31 := 0x8000_0000

  predicate Int32(x: int) {
    -TWO31 <= x < TWO31
  }

  /** The value an `int32_t` variable holds after being assigned `x`, in two's complement. */
  function WrapInt32(x: int): (r: int)
    ensures Int32(r) && (Int32(x) ==> r == x)
  {
    (x + TWO31) % U32 - TWO31
  }

  function Pow2(k: nat): (r: nat)
    ensures r > 0
  {
    if k == 0 then 1 else 2 * Pow2(k - 1)
  }

  ghost predicate IsPow2(n: nat) {
    exists k: nat :: n == Pow2(k)
  }

  function And(a: nat, b: nat): nat {
    if a == 0 || b == 0 then 0 else (a % 2) * (b % 2) + 2 * And(a / 2, b / 2)
  }

  function Or(a: nat, b: nat): nat {
    if a == 0 then b else if b == 0 then a
    else (if a % 2 == 1 || b % 2 == 1 then 1 else 0) + 2 * Or(a / 2, b / 2)
  }

  function ShiftLeft(x: nat, k: nat): nat {
    Wrap(x * Pow2(k))
  }

  function ShiftRight(x: nat, k: nat): nat {
    if k == 0 then x else ShiftRight(x / 2, k - 1)
  }

  /** `~x` on 32 bits. */
  function Not(x: nat): nat
    requires x < U32
  {
    U32 - 1 - x
  }

  lemma {:induction false} Pow2Monotone(j: nat, k: nat)
    requires j <= k
    ensures Pow2(j) <= Pow2(k)
  {
    if j == k {
    } else {
      Pow2Monotone(j, k - 1);
    }
  }

  lemma Pow2Of32()
    ensures Pow2(32) == U32
  {
    assert Pow2(8) == 256;
    assert Pow2(16) == 65536;
    assert Pow2(24) == 16777216;
  }

  lemma HalfMod(x: nat, m: nat)
    requires m > 0
    ensures x % (2 * m) == 2 * ((x / 2) % m) + x % 2
  {
    var q, r := (x / 2) / m, (x / 2) % m;
    assert x / 2 == q * m + r;
    assert x == q * (2 * m) + (2 * r + x % 2);
    ModUnique(x, 2 * m, q, 2 * r + x % 2);
  }

  lemma ModUnique(x: int, m: nat, q: int, r: nat)
    requires m > 0 && x == q * m + r && r < m
    ensures x / m == q && x % m == r
  {
    var q', r' := x / m, x % m;
    assert (q - q') * m == q * m - q' * m == r' - r;
    if q' < q {
      TimesAtLeast(q - q', m);
    } else if q < q' {
      assert (q' - q) * m == -((q - q') * m);
      TimesAtLeast(q' - q, m);
    }
  }

  lemma TimesAtLeast(a: int, m: nat)
    requires a >= 1
    ensures a * m >= m
  {
    assert a * m == (a - 1) * m + m;
  }

  lemma {:induction false} TimesMonotone(a: nat, b: nat, m: nat)
    requires a <= b
    ensures a * m <= b * m
    decreases b
  {
    if a == b {
    } else {
      TimesMonotone(a, b - 1, m);
      assert b * m == (b - 1) * m + m;
    }
  }

  lemma {:induction false} AndAllBits(x: nat, w: nat)
    requires x < Pow2(w)
    ensures And(x, Pow2(w) - 1) == x
  {
    if w == 0 {
    } else {
      var b := Pow2(w) - 1;
      assert b / 2 == Pow2(w - 1) - 1 && b % 2 == 1;
      AndAllBits(x / 2, w - 1);
    }
  }

  lemma HalfDiv(x: nat, m: nat)
    requires m > 0
    ensures x / 2 / m == x / (2 * m)
  {
    var h := x / 2;
    var q, r := h / m, h % m;
    assert q * (2 * m) == 2 * (q * m);
    ModUnique(x, 2 * m, q, 2 * r + x % 2);
  }

  lemma {:induction false} ShiftRightDivides(x: nat, k: nat)
    ensures ShiftRight(x, k) == x / Pow2(k)
    decreases k
  {
    if k == 0 {
    } else {
      ShiftRightDivides(x / 2, k - 1);
      HalfDiv(x, Pow2(k - 1));
    }
  }

  /** A value at most `m - 1` above `u` low units: its quotient and remainder are what was packed. */
  lemma PackedSplit(v: nat, m: nat, u: nat)
    requires m > 0 && u > 0
    ensures m * u > 0 && v % (m * u) == (v / u % m) * u + v % u
  {
    var p, s, q := v / u % m, v % u, v / u / m;
    TimesAtLeast(m, u);
    PackedFits(p, s, m, u);
    assert v / u == q * m + p;
    Regroup(q, m, p, u);
    ModUnique(v, m * u, q, p * u + s);
  }

  lemma Regroup(q: int, m: int, p: int, u: int)
    ensures (q * m + p) * u == q * (m * u) + p * u
  {
  }

  lemma PackedFits(p: nat, s: nat, m: nat, u: nat)
    requires p < m && s < u
    ensures p * u + s < m * u
  {
    TimesMonotone(p + 1, m, u);
    assert (p + 1) * u == p * u + u;
  }

  lemma PackedOrder(a: nat, b: nat, a': nat, b': nat, u: nat)
    requires b < u && b' < u
    ensures a * u + b < a' * u + b' <==> a < a' || (a == a' && b < b')
  {
    if a < a' {
      PackedFits(a, b, a', u);
    } else if a' < a {
      PackedFits(a', b', a, u);
    }
  }

  lemma {:induction false} Pow2Adds(a: nat, b: nat)
    ensures Pow2(a + b) == Pow2(a) * Pow2(b)
  {
    if a == 0 {
    } else {
      Pow2Adds(a - 1, b);
      assert Pow2(a) * Pow2(b) == 2 * (Pow2(a - 1) * Pow2(b));
    }
  }

  /** Masking with the `k` low bits keeps the remainder modulo `2^k`. */
  lemma {:induction false} AndLowBits(x: nat, k: nat)
    ensures And(x, Pow2(k) - 1) == x % Pow2(k)
    decreases k
  {
    if k == 0 {
    } else {
      var q := Pow2(k - 1);
      AndLowBits(x / 2, k - 1);
      AndOdd(x, 2 * (q - 1) + 1);
      hide And;
      HalfMod(x, q);
    }
  }

  lemma AndOdd(x: nat, b: nat)
    requires b % 2 == 1
    ensures And(x, b) == x % 2 + 2 * And(x / 2, b / 2)
  {
  }

  /** A field shifted clear of the low `k` bits and a value inside them combine by addition. */
  lemma {:induction false} OrDisjoint(a: nat, b: nat, k: nat)
    requires b < Pow2(k)
    ensures Or(a * Pow2(k), b) == a * Pow2(k) + b
    decreases k
  {
    var x := a * Pow2(k);
    if k == 0 || x == 0 || b == 0 {
    } else {
      var y := a * Pow2(k - 1);
      assert x == 2 * y;
      OrDisjoint(a, b / 2, k - 1);
    }
  }

  /** Masking with the `w - k` high bits of a `w`-bit word clears the remainder modulo `2^k`. */
  lemma {:induction false} AndHighBits(x: nat, w: nat, k: nat)
    requires k <= w && x < Pow2(w)
    ensures Pow2(k) <= Pow2(w) && And(x, Pow2(w) - Pow2(k)) == x - x % Pow2(k)
    decreases w
  {
    hide And, Pow2;
    Pow2Monotone(k, w);
    if k == 0 {
      AndFromBitZero(x, w);
    } else {
      Pow2Doubles(w - 1);
      Pow2Doubles(k - 1);
      AndHighBits(x / 2, w - 1, k - 1);
      AndHighBitsStep(x, Pow2(w - 1), Pow2(k - 1), Pow2(w), Pow2(k));
    }
  }

  lemma Pow2Doubles(k: nat)
    ensures Pow2(k + 1) == 2 * Pow2(k)
  {
  }

  lemma AndFromBitZero(x: nat, w: nat)
    requires x < Pow2(w)
    ensures And(x, Pow2(w) - Pow2(0)) == x - x % Pow2(0)
  {
    AndAllBits(x, w);
    assert Pow2(0) == 1 && x % 1 == 0;
  }

  lemma AndHighBitsStep(x: nat, p: nat, q: nat, p2: nat, q2: nat)
    requires 0 < q <= p && p2 == 2 * p && q2 == 2 * q && And(x / 2, p - q) == x / 2 - x / 2 % q
    ensures And(x, p2 - q2) == x - x % q2
  {
    AndEven(x, 2 * (p - q));
    hide And;
    DoubleRoundsDown(x, q);
  }

  /** Rounding down half of `x` and doubling rounds down `x` to twice the unit. */
  lemma DoubleRoundsDown(x: nat, m: nat)
    requires m > 0
    ensures 2 * (x / 2 - x / 2 % m) == x - x % (2 * m)
  {
    HalfMod(x, m);
  }

  lemma AndEven(x: nat, b: nat)
    requires b % 2 == 0
    ensures And(x, b) == 2 * And(x / 2, b / 2)
  {
  }

  /** A word and its complement share no bit. */
  lemma {:induction false} AndComplement(x: nat, w: nat)
    requires x < Pow2(w)
    ensures And(x, Pow2(w) - 1 - x) == 0
  {
    if w == 0 {
    } else {
      var b := Pow2(w) - 1 - x;
      assert b / 2 == Pow2(w - 1) - 1 - x / 2 && b % 2 == 1 - x % 2;
      AndComplement(x / 2, w - 1);
    }
  }

  lemma HalfOfPow2(x: nat)
    requires x > 0 && x % 2 == 0
    ensures IsPow2(x / 2) <==> IsPow2(x)
  {
    if k: nat :| x / 2 == Pow2(k) {
      assert x == Pow2(k + 1);
    }
    if k: nat :| x == Pow2(k) {
      assert k > 0;
      assert x / 2 == Pow2(k - 1);
    }
  }

  /** A word keeps only its lowest set bit when masked with its negation, so it keeps itself
      exactly when it is a power of two. */
  lemma {:induction false} AndNegation(x: nat, w: nat)
    requires 0 < x < Pow2(w)
    ensures And(x, Pow2(w) - x) == x <==> IsPow2(x)
  {
    var b := Pow2(w) - x;
    if w == 0 {
    } else {
      if x % 2 == 0 {
        assert b / 2 == Pow2(w - 1) - x / 2 && b % 2 == 0;
        AndNegation(x / 2, w - 1);
        HalfOfPow2(x);
      } else {
        AndNegationOdd(x, w);
        assert Pow2(0) == 1;
        if k: nat :| x == Pow2(k) {
          assert k == 0;
        }
      }
    }
  }

  lemma AndNegationOdd(x: nat, w: nat)
    requires 0 < x < Pow2(w) && x % 2 == 1
    ensures And(x, Pow2(w) - x) == 1
  {
    var b := Pow2(w) - x;
    assert w > 0;
    assert b / 2 == Pow2(w - 1) - 1 - x / 2 && b % 2 == 1;
    AndComplement(x / 2, w - 1);
  }
}
