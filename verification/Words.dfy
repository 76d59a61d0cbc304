/** Unsigned machine words as natural numbers below a power of two, with the bitwise operations of C
    spelled out bit by bit. One set of definitions serves 32 and 64 bits. */
module Words {

  function Pow2(n: nat): (r: nat)
    ensures r > 0
  {
    if n == 0 then 1 else 2 * Pow2(n - 1)
  }

  /** Exclusive or, bit by bit. */
  function Xor(a: nat, b: nat): nat
    decreases a + b
  {
    if a == 0 && b == 0 then 0 else 2 * Xor(a / 2, b / 2) + (a + b) % 2
  }

  /** Or, bit by bit. */
  function Or(a: nat, b: nat): nat
    decreases a + b
  {
    if a == 0 && b == 0 then 0 else 2 * Or(a / 2, b / 2) + if a % 2 == 1 || b % 2 == 1 then 1 else 0
  }

  /** A shift towards the lowest bit. */
  function Shr(x: nat, n: nat): nat {
    if n == 0 then x else Shr(x / 2, n - 1)
  }

  /** A shift towards the highest bit of a word of w bits; what leaves it is lost. */
  function Shl(w: nat, x: nat, n: nat): nat {
    x * Pow2(n) % Pow2(w)
  }

  function Mul(w: nat, x: nat, y: nat): (r: nat)
    ensures r < Pow2(w)
  {
    x * y % Pow2(w)
  }

  function Add(w: nat, x: nat, y: nat): (r: nat)
    ensures r < Pow2(w)
  {
    (x + y) % Pow2(w)
  }

  function Sub(w: nat, x: nat, y: nat): (r: nat)
    ensures r < Pow2(w)
  {
    (x - y) % Pow2(w)
  }

  /** A rotation by r bits, put together from two shifts. */
  function Rotl(w: nat, x: nat, r: nat): nat
    requires r <= w
  {
    Or(Shl(w, x, r), Shr(x, w - r))
  }

  /** A word and its shifted self. */
  function XorShift(x: nat, n: nat): nat {
    Xor(x, Shr(x, n))
  }

  // ---------- Powers of two ----------

  lemma TimesAssociates(x: int, y: int, z: int)
    ensures x * y * z == x * (y * z)
  {
  }

  lemma {:induction false} Pow2Add(a: nat, b: nat)
    ensures Pow2(a + b) == Pow2(a) * Pow2(b)
  {
    if a > 0 {
      Pow2Add(a - 1, b);
      TimesAssociates(2, Pow2(a - 1), Pow2(b));
    }
  }

  lemma Pow2Words()
    ensures Pow2(8) == 0x100 && Pow2(16) == 0x1_0000 && Pow2(24) == 0x100_0000
    ensures Pow2(32) == 0x1_0000_0000 && Pow2(64) == 0x1_0000_0000_0000_0000
  {
    assert Pow2(8) == 0x100;
    Pow2Add(8, 8);
    Pow2Add(16, 8);
    Pow2Add(16, 16);
    Pow2Add(32, 32);
  }

  // ---------- Exclusive or ----------

  lemma {:induction false} XorZero(a: nat)
    ensures Xor(a, 0) == a && Xor(0, a) == a
    decreases a
  {
    if a > 0 {
      XorZero(a / 2);
    }
  }

  lemma XorParts(a: nat, b: nat)
    ensures Xor(a, b) / 2 == Xor(a / 2, b / 2) && Xor(a, b) % 2 == (a + b) % 2
  {
  }

  lemma {:induction false} XorAssociates(a: nat, b: nat, c: nat)
    ensures Xor(Xor(a, b), c) == Xor(a, Xor(b, c))
    decreases a + b + c
  {
    if a > 0 || b > 0 || c > 0 {
      var ab, bc := Xor(a, b), Xor(b, c);
      XorAssociates(a / 2, b / 2, c / 2);
      XorParts(a, b);
      XorParts(b, c);
      XorParts(ab, c);
      XorParts(a, bc);
      SameParity(Xor(ab, c), Xor(a, bc), a, b, c, ab, bc);
    }
  }

  lemma SameParity(x: nat, y: nat, a: nat, b: nat, c: nat, ab: nat, bc: nat)
    requires x / 2 == y / 2 && x % 2 == (ab + c) % 2 && y % 2 == (a + bc) % 2
    requires ab % 2 == (a + b) % 2 && bc % 2 == (b + c) % 2
    ensures x == y
  {
  }

  lemma {:induction false} XorSelf(a: nat)
    ensures Xor(a, a) == 0
  {
    if a > 0 {
      XorSelf(a / 2);
    }
  }

  /** Xor with the same word twice does nothing. */
  lemma XorTwice(a: nat, b: nat)
    ensures Xor(Xor(a, b), b) == a
  {
    XorAssociates(a, b, b);
    XorSelf(b);
    XorZero(a);
  }

  lemma XorLeft(a: nat, b: nat)
    ensures Xor(a, Xor(a, b)) == b
  {
    XorAssociates(a, a, b);
    XorSelf(a);
    XorZero(b);
  }

  lemma {:induction false} XorBound(n: nat, a: nat, b: nat)
    requires a < Pow2(n) && b < Pow2(n)
    ensures Xor(a, b) < Pow2(n)
  {
    if n > 0 {
      XorBound(n - 1, a / 2, b / 2);
    }
  }

  /** Words that occur twice cancel out, here in a chain. */
  lemma XorTelescopes(a: nat, b: nat, c: nat)
    ensures Xor(Xor(Xor(a, b), Xor(b, c)), c) == a
  {
    XorAssociates(Xor(a, b), b, c);
    XorTwice(a, b);
    XorTwice(a, c);
  }

  /** And here in a pair. */
  lemma XorUndoesPair(a: nat, b: nat, c: nat)
    ensures Xor(Xor(Xor(a, b), c), Xor(b, c)) == a
  {
    XorAssociates(a, b, c);
    XorTwice(a, Xor(b, c));
  }

  lemma {:induction false} ShrXor(a: nat, b: nat, n: nat)
    ensures Shr(Xor(a, b), n) == Xor(Shr(a, n), Shr(b, n))
    decreases n
  {
    if n > 0 {
      assert Xor(a, b) / 2 == Xor(a / 2, b / 2);
      ShrXor(a / 2, b / 2, n - 1);
    }
  }

  /** Bit k of an exclusive or is the sum of the two bits. */
  lemma XorBit(a: nat, b: nat, k: nat)
    ensures Xor(a, b) / Pow2(k) % 2 == (a / Pow2(k) + b / Pow2(k)) % 2
  {
    ShrXor(a, b, k);
    ShrIsDivision(a, k);
    ShrIsDivision(b, k);
    ShrIsDivision(Xor(a, b), k);
    XorParts(Shr(a, k), Shr(b, k));
  }

  lemma {:induction false} ShrShr(x: nat, m: nat, n: nat)
    ensures Shr(Shr(x, m), n) == Shr(x, m + n)
    decreases m
  {
    if m > 0 {
      ShrShr(x / 2, m - 1, n);
    }
  }

  lemma {:induction false} ShrOut(x: nat, n: nat)
    requires x < Pow2(n)
    ensures Shr(x, n) == 0
    decreases n
  {
    if n > 0 {
      ShrOut(x / 2, n - 1);
    }
  }

  lemma {:induction false} ShrIsDivision(x: nat, n: nat)
    ensures Shr(x, n) == x / Pow2(n)
    decreases n
  {
    if n > 0 {
      ShrIsDivision(x / 2, n - 1);
      DivTwice(x, 2, Pow2(n - 1));
    }
  }

  lemma DivTwice(x: nat, a: nat, b: nat)
    requires a > 0 && b > 0
    ensures a * b > 0 && x / a / b == x / (a * b)
  {
    var y, s := x / a, x % a;
    var q, r := y / b, y % b;
    assert x == (q * b + r) * a + s;
    Distribute(q * b, r, a);
    Reorder(q, b, a);
    Distribute(b, -1 - r, a);
    Distribute(-1, -r, a);
    Magnitude(b - r, a);
    DivUnique(x, a * b, q, r * a + s);
  }

  lemma Reorder(q: int, b: int, a: int)
    ensures q * b * a == q * (a * b)
  {
  }

  lemma Distribute(x: int, y: int, a: int)
    ensures (x + y) * a == x * a + y * a
  {
  }

  lemma DivUnique(x: int, d: nat, q: int, r: nat)
    requires d > 0 && x == q * d + r && r < d
    ensures x / d == q && x % d == r
  {
    var p, t := x / d, x % d;
    Distribute(q, -p, d);
    Magnitude(q - p, d);
    Magnitude(p - q, d);
  }

  lemma Magnitude(k: int, d: nat)
    ensures k >= 1 ==> k * d >= d
  {
  }

  // ---------- Words put together from parts ----------

  /** Bits that do not overlap: or, exclusive or and sum are the same. */
  lemma {:induction false} DisjointBits(a: nat, n: nat, b: nat)
    requires b < Pow2(n)
    ensures Xor(a * Pow2(n), b) == Or(a * Pow2(n), b) == a * Pow2(n) + b
    decreases n
  {
    if n == 0 {
      XorZero(a);
      OrZero(a);
    } else {
      DisjointBits(a, n - 1, b / 2);
      Doubling(a, n);
      LowestBit(a * Pow2(n - 1), b);
    }
  }

  lemma Doubling(a: nat, n: nat)
    requires n > 0
    ensures a * Pow2(n) == 2 * (a * Pow2(n - 1))
  {
    Reorder(2, Pow2(n - 1), a);
  }

  lemma LowestBit(h: nat, b: nat)
    ensures Xor(2 * h, b) == 2 * Xor(h, b / 2) + b % 2
    ensures Or(2 * h, b) == 2 * Or(h, b / 2) + b % 2
  {
    assert 2 * h / 2 == h && (2 * h + b) % 2 == b % 2;
  }

  lemma {:induction false} OrZero(a: nat)
    ensures Or(a, 0) == a
    decreases a
  {
    if a > 0 {
      OrZero(a / 2);
    }
  }

  // ---------- Steps that can be undone ----------

  /** A rotation swaps the two parts it cuts the word into. */
  lemma RotlSwapsParts(w: nat, high: nat, low: nat, r: nat)
    requires r <= w && high < Pow2(r) && low < Pow2(w - r)
    ensures high * Pow2(w - r) + low < Pow2(w)
    ensures Rotl(w, high * Pow2(w - r) + low, r) == low * Pow2(r) + high
  {
    var x := high * Pow2(w - r) + low;
    Pow2Add(r, w - r);
    ShrIsDivision(x, w - r);
    ShiftedParts(high, low, Pow2(r), Pow2(w - r));
    DisjointBits(low, r, high);
  }

  lemma ShiftedParts(high: nat, low: nat, p: nat, q: nat)
    requires high < p && low < q
    ensures var x := high * q + low;
            x < p * q && x / q == high && x * p % (p * q) == low * p
  {
    var x := high * q + low;
    Fits(high, p, q, low);
    DivUnique(x, q, high, low);
    Distribute(high * q, low, p);
    Reorder(high, q, p);
    Fits(low, q, p, 0);
    DivUnique(x * p, p * q, high, low * p);
  }

  lemma Fits(a: nat, m: nat, n: nat, b: nat)
    requires a < m && b < n
    ensures a * n + b < m * n
  {
    Distribute(a, m - a, n);
    Magnitude(m - a, n);
  }

  lemma Parts(w: nat, x: nat, r: nat) returns (high: nat, low: nat)
    requires r <= w && x < Pow2(w)
    ensures high < Pow2(r) && low < Pow2(w - r) && x == high * Pow2(w - r) + low
  {
    Pow2Add(r, w - r);
    high, low := Split(x, Pow2(r), Pow2(w - r));
  }

  lemma Split(x: nat, p: nat, q: nat) returns (high: nat, low: nat)
    requires q > 0 && x < p * q
    ensures high < p && low < q && x == high * q + low
  {
    high, low := x / q, x % q;
    assert x == high * q + low;
    if high >= p {
      Distribute(p, high - p, q);
      NonNegative(high - p, q);
    }
  }

  lemma NonNegative(k: nat, d: nat)
    ensures k * d >= 0
  {
  }

  lemma RotlBack(w: nat, x: nat, r: nat)
    requires r <= w && x < Pow2(w)
    ensures Rotl(w, x, r) < Pow2(w) && Rotl(w, Rotl(w, x, r), w - r) == x
  {
    var high, low := Parts(w, x, r);
    RotlSwapsParts(w, high, low, r);
    assert w - (w - r) == r;
    RotlSwapsParts(w, low, high, w - r);
  }

  /** An xor-shift can be undone when three shifts leave nothing. */
  function XorUnshift(x: nat, n: nat): nat {
    Xor(XorShift(x, n), Shr(x, 2 * n))
  }

  lemma XorShiftBack(w: nat, x: nat, n: nat)
    requires x < Pow2(w) && w <= 3 * n
    ensures XorUnshift(XorShift(x, n), n) == x && XorShift(XorUnshift(x, n), n) == x
    ensures XorShift(x, n) < Pow2(w) && XorUnshift(x, n) < Pow2(w)
  {
    var b, c := Shr(x, n), Shr(x, 2 * n);
    ShrShr(x, n, n);
    ShrShr(x, 2 * n, n);
    ShrShr(x, n, 2 * n);
    Pow2Grows(w, 3 * n);
    ShrOut(x, 3 * n);
    XorZero(c);
    ShrXor(x, b, n);
    ShrXor(x, b, 2 * n);
    XorTelescopes(x, b, c);
    ShrXor(Xor(x, b), c, n);
    XorZero(Xor(b, c));
    XorUndoesPair(x, b, c);
    ShrBound(w, x, n);
    ShrBound(w, x, 2 * n);
    XorBound(w, x, b);
    XorBound(w, Xor(x, b), c);
  }

  lemma {:induction false} Pow2Grows(m: nat, n: nat)
    requires m <= n
    ensures Pow2(m) <= Pow2(n)
  {
    if m < n {
      Pow2Grows(m, n - 1);
    }
  }

  lemma {:induction false} ShrBound(w: nat, x: nat, n: nat)
    requires x < Pow2(w)
    ensures Shr(x, n) < Pow2(w)
    decreases n
  {
    if n > 0 {
      ShrBound(w, x / 2, n - 1);
    }
  }

  lemma ModMul(a: nat, b: nat, m: nat)
    requires m > 0
    ensures a % m * b % m == a * b % m
  {
    var q, y := a / m, a % m;
    assert a == q * m + y;
    var u, v := y * b / m, y * b % m;
    assert y * b == u * m + v;
    Distribute(q * m, y, b);
    Reorder(q, m, b);
    assert q * (b * m) == q * b * m;
    Distribute(q * b, u, m);
    DivUnique(a * b, m, q * b + u, v);
  }

  lemma ModUnit(x: nat, unit: nat, m: nat)
    requires x < m && unit % m == 1
    ensures x * unit % m == x
  {
    var k := unit / m;
    assert unit == k * m + 1;
    Distribute(k * m, 1, x);
    Reorder(k, m, x);
    Reorder(k, x, m);
    DivUnique(x * unit, m, k * x, x);
  }

  /** Multiplication by an odd constant, undone by its inverse modulo 2^w. */
  lemma MulBack(w: nat, x: nat, c: nat, inverse: nat)
    requires x < Pow2(w) && c * inverse % Pow2(w) == 1
    ensures Mul(w, Mul(w, x, c), inverse) == x
  {
    var m := Pow2(w);
    ModMul(x * c, inverse, m);
    ModUnit(x, c * inverse, m);
    TimesAssociates(x, c, inverse);
  }

  lemma ModSum(x: nat, y: nat, m: nat)
    requires m > 0
    ensures (x % m + y) % m == (x + y) % m
  {
    var q, r := x / m, (x % m + y) / m;
    var rest := (x % m + y) % m;
    Distribute(q, r, m);
    DivUnique(x + y, m, q + r, rest);
  }

  lemma ModSums(x: nat, y: nat, z: nat, m: nat)
    requires m > 0
    ensures ((x % m + y) % m + z) % m == (x + y + z) % m
  {
    ModSum(x, y, m);
    ModSum(x + y, z, m);
  }

  lemma SubZero(w: nat, x: nat)
    requires x < Pow2(w)
    ensures Sub(w, x, 0) == x
  {
    DivUnique(x, Pow2(w), 0, x);
  }

  lemma AddBack(w: nat, x: nat, c: nat)
    requires x < Pow2(w) && c < Pow2(w)
    ensures Sub(w, Add(w, x, c), c) == x && Add(w, Sub(w, x, c), c) == x
  {
    var m := Pow2(w);
    if x + c >= m {
      DivUnique(x + c, m, 1, x + c - m);
      DivUnique(x - m, m, -1, x);
    } else {
      DivUnique(x + c, m, 0, x + c);
      DivUnique(x, m, 0, x);
    }
    if x >= c {
      DivUnique(x - c, m, 0, x - c);
      DivUnique(x, m, 0, x);
    } else {
      DivUnique(x - c, m, -1, x - c + m);
      DivUnique(x + m, m, 1, x);
    }
  }
}
