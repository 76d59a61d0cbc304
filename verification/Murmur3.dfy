/** The mixing steps of components/wilma/murmur3.c, their inverses, and the words read from a key. */
module Murmur3 {
  import opened Bytes
  import opened Words
  import opened Folding

  // ---------- Finalization mix ----------

  /** fmix32 and fmix64: two multiplications between three xor-shifts. */
  function Fmix(w: nat, h: nat, n1: nat, c1: nat, n2: nat, c2: nat, n3: nat): nat {
    XorShift(Mul(w, XorShift(Mul(w, XorShift(h, n1), c1), n2), c2), n3)
  }

  function Unfmix(w: nat, h: nat, n1: nat, d1: nat, n2: nat, d2: nat, n3: nat): nat {
    XorUnshift(Mul(w, XorUnshift(Mul(w, XorUnshift(h, n3), d2), n2), d1), n1)
  }

  lemma FmixBack(w: nat, h: nat, n1: nat, c1: nat, d1: nat, n2: nat, c2: nat, d2: nat, n3: nat)
    requires h < Pow2(w) && w <= 3 * n1 && w <= 3 * n2 && w <= 3 * n3
    requires c1 * d1 % Pow2(w) == 1 && c2 * d2 % Pow2(w) == 1
    ensures Fmix(w, h, n1, c1, n2, c2, n3) < Pow2(w)
    ensures Unfmix(w, Fmix(w, h, n1, c1, n2, c2, n3), n1, d1, n2, d2, n3) == h
  {
    var a := XorShift(h, n1);
    var b := Mul(w, a, c1);
    var c := XorShift(b, n2);
    var d := Mul(w, c, c2);
    XorShiftBack(w, h, n1);
    MulBack(w, a, c1, d1);
    XorShiftBack(w, b, n2);
    MulBack(w, c, c2, d2);
    XorShiftBack(w, d, n3);
  }

  lemma FmixForth(w: nat, h: nat, n1: nat, c1: nat, d1: nat, n2: nat, c2: nat, d2: nat, n3: nat)
    requires h < Pow2(w) && w <= 3 * n1 && w <= 3 * n2 && w <= 3 * n3
    requires c1 * d1 % Pow2(w) == 1 && c2 * d2 % Pow2(w) == 1
    ensures Unfmix(w, h, n1, d1, n2, d2, n3) < Pow2(w)
    ensures Fmix(w, Unfmix(w, h, n1, d1, n2, d2, n3), n1, c1, n2, c2, n3) == h
  {
    var a := XorUnshift(h, n3);
    var b := Mul(w, a, d2);
    var c := XorUnshift(b, n2);
    var d := Mul(w, c, d1);
    XorShiftBack(w, h, n3);
    MulBack(w, a, d2, c2);
    XorShiftBack(w, b, n2);
    MulBack(w, c, d1, c1);
    XorShiftBack(w, d, n1);
  }

  function Fmix32(h: nat): nat { Fmix(32, h, 16, 0x85ebca6b, 13, 0xc2b2ae35, 16) }

  function Unfmix32(h: nat): nat { Unfmix(32, h, 16, 0xa5cb9243, 13, 0x7ed1b41d, 16) }

  function Fmix64(h: nat): nat { Fmix(64, h, 33, 0xff51afd7ed558ccd, 33, 0xc4ceb9fe1a85ec53, 33) }

  function Unfmix64(h: nat): nat { Unfmix(64, h, 33, 0x4f74430c22a54005, 33, 0x9cb4b2f8129337db, 33) }

  /** fmix32. */
  method FinalMix32(h0: nat) returns (h: nat)
    ensures h == Fmix32(h0)
  {
    h := Xor(h0, Shr(h0, 16));
    h := Mul(32, h, 0x85ebca6b);
    h := Xor(h, Shr(h, 13));
    h := Mul(32, h, 0xc2b2ae35);
    h := Xor(h, Shr(h, 16));
  }

  /** fmix64. */
  method FinalMix64(k0: nat) returns (k: nat)
    ensures k == Fmix64(k0)
  {
    k := Xor(k0, Shr(k0, 33));
    k := Mul(64, k, 0xff51afd7ed558ccd);
    k := Xor(k, Shr(k, 33));
    k := Mul(64, k, 0xc4ceb9fe1a85ec53);
    k := Xor(k, Shr(k, 33));
  }

  /** fmix32 is a bijection of the 32-bit words. */
  lemma Fmix32Bijective(h: nat)
    requires h < Pow2(32)
    ensures Fmix32(h) < Pow2(32) && Unfmix32(h) < Pow2(32)
    ensures Unfmix32(Fmix32(h)) == h && Fmix32(Unfmix32(h)) == h
  {
    Pow2Words();
    FmixBack(32, h, 16, 0x85ebca6b, 0xa5cb9243, 13, 0xc2b2ae35, 0x7ed1b41d, 16);
    FmixForth(32, h, 16, 0x85ebca6b, 0xa5cb9243, 13, 0xc2b2ae35, 0x7ed1b41d, 16);
  }

  /** fmix64 is a bijection of the 64-bit words. */
  lemma Fmix64Bijective(h: nat)
    requires h < Pow2(64)
    ensures Fmix64(h) < Pow2(64) && Unfmix64(h) < Pow2(64)
    ensures Unfmix64(Fmix64(h)) == h && Fmix64(Unfmix64(h)) == h
  {
    Pow2Words();
    FmixBack(64, h, 33, 0xff51afd7ed558ccd, 0x4f74430c22a54005, 33, 0xc4ceb9fe1a85ec53, 0x9cb4b2f8129337db, 33);
    FmixForth(64, h, 33, 0xff51afd7ed558ccd, 0x4f74430c22a54005, 33, 0xc4ceb9fe1a85ec53, 0x9cb4b2f8129337db, 33);
  }

  /** The five statements of fmix32 taken back one by one, with the inverses of its two multipliers. */
  lemma Fmix32Undone(h: nat)
    requires h < Pow2(32)
    ensures var a := XorUnshift(Fmix32(h), 16);
            var b := XorUnshift(Mul(32, a, 0x7ed1b41d), 13);
            XorUnshift(Mul(32, b, 0xa5cb9243), 16) == h
  {
    Fmix32Bijective(h);
  }

  /** The same for fmix64. */
  lemma Fmix64Undone(h: nat)
    requires h < Pow2(64)
    ensures var a := XorUnshift(Fmix64(h), 33);
            var b := XorUnshift(Mul(64, a, 0x9cb4b2f8129337db), 33);
            XorUnshift(Mul(64, b, 0x4f74430c22a54005), 33) == h
  {
    Fmix64Bijective(h);
  }

  // ---------- Mixing a key word, and a lane with a mixed key ----------

  /** A key word is multiplied, rotated by r and multiplied again. */
  function Mix(w: nat, k: nat, c: nat, r: nat, d: nat): (m: nat)
    requires r <= w
    ensures m < Pow2(w)
  {
    Mul(w, Rotl(w, Mul(w, k, c), r), d)
  }

  lemma MixInjective(w: nat, k: nat, l: nat, c: nat, c': nat, r: nat, d: nat, d': nat)
    requires r <= w && k < Pow2(w) && l < Pow2(w)
    requires c * c' % Pow2(w) == 1 && d * d' % Pow2(w) == 1
    ensures Mix(w, k, c, r, d) == Mix(w, l, c, r, d) ==> k == l
  {
    Unmix(w, k, c, c', r, d, d');
    Unmix(w, l, c, c', r, d, d');
  }

  lemma Unmix(w: nat, k: nat, c: nat, c': nat, r: nat, d: nat, d': nat)
    requires r <= w && k < Pow2(w) && c * c' % Pow2(w) == 1 && d * d' % Pow2(w) == 1
    ensures Mul(w, Rotl(w, Mul(w, Mix(w, k, c, r, d), d'), w - r), c') == k
  {
    var a := Mul(w, k, c);
    MulBack(w, k, c, c');
    RotlBack(w, a, r);
    MulBack(w, Rotl(w, a, r), d, d');
  }

  lemma MixZero(w: nat, c: nat, r: nat, d: nat)
    requires r <= w
    ensures Mix(w, 0, c, r, d) == 0
  {
    var m := Pow2(w);
    DivUnique(0, m, 0, 0);
    assert Mul(w, 0, c) == 0;
    assert 0 * Pow2(r) == 0;
    ShrIsDivision(0, w - r);
    DivUnique(0, Pow2(w - r), 0, 0);
    assert Rotl(w, 0, r) == Or(0, 0);
    assert Mul(w, 0, d) == 0;
  }

  lemma AddZero(w: nat, h: nat)
    requires h < Pow2(w)
    ensures Add(w, h, 0) == h
  {
    DivUnique(h, Pow2(w), 0, h);
  }

  /** A lane takes in a mixed key word, is rotated, gets another lane added and is scaled by five. */
  function Lane(w: nat, h: nat, m: nat, r: nat, a: nat, c: nat): (y: nat)
    requires r <= w
    ensures y < Pow2(w)
  {
    Add(w, Mul(w, Add(w, Rotl(w, Xor(h, m), r), a), 5), c)
  }

  /** The multiplicative inverse of 5 in a word of 32 or 64 bits. */
  function Fifth(w: nat): nat {
    if w == 32 then 0xcccccccd else 0xcccccccccccccccd
  }

  function Unlane(w: nat, y: nat, m: nat, r: nat, a: nat, c: nat): nat
    requires r <= w
  {
    Xor(Rotl(w, Sub(w, Mul(w, Sub(w, y, c), Fifth(w)), a), w - r), m)
  }

  predicate WordSize(w: nat) {
    w == 32 || w == 64
  }

  lemma FiveIsOdd(w: nat)
    requires WordSize(w)
    ensures 5 * Fifth(w) % Pow2(w) == 1 && Fifth(w) * 5 % Pow2(w) == 1
  {
    Pow2Words();
  }

  /** The xor-ed lane can be read off the new one. */
  lemma LaneShowsXor(w: nat, h: nat, m: nat, r: nat, a: nat, c: nat)
    requires WordSize(w) && r <= w && h < Pow2(w) && m < Pow2(w) && a < Pow2(w) && c < Pow2(w)
    ensures Rotl(w, Sub(w, Mul(w, Sub(w, Lane(w, h, m, r, a, c), c), Fifth(w)), a), w - r) == Xor(h, m)
  {
    var x := Xor(h, m);
    var y := Rotl(w, x, r);
    XorBound(w, h, m);
    RotlBack(w, x, r);
    AddBack(w, y, a);
    FiveIsOdd(w);
    MulBack(w, Add(w, y, a), 5, Fifth(w));
    AddBack(w, Mul(w, Add(w, y, a), 5), c);
  }

  lemma LaneBack(w: nat, h: nat, m: nat, r: nat, a: nat, c: nat)
    requires WordSize(w) && r <= w && h < Pow2(w) && m < Pow2(w) && a < Pow2(w) && c < Pow2(w)
    ensures Unlane(w, Lane(w, h, m, r, a, c), m, r, a, c) == h
  {
    LaneShowsXor(w, h, m, r, a, c);
    XorTwice(h, m);
  }

  /** Undoing the scaling and the addition, and doing them again. */
  lemma ScaleForth(w: nat, y: nat, a: nat, c: nat)
    requires WordSize(w) && y < Pow2(w) && a < Pow2(w) && c < Pow2(w)
    ensures Add(w, Mul(w, Add(w, Sub(w, Mul(w, Sub(w, y, c), Fifth(w)), a), a), 5), c) == y
  {
    var z := Mul(w, Sub(w, y, c), Fifth(w));
    AddBack(w, y, c);
    FiveIsOdd(w);
    MulBack(w, Sub(w, y, c), Fifth(w), 5);
    AddBack(w, z, a);
  }

  /** Undoing the rotation and the exclusive or, and doing them again. */
  lemma RotateForth(w: nat, x: nat, m: nat, r: nat)
    requires r <= w && x < Pow2(w) && m < Pow2(w)
    ensures Xor(Rotl(w, x, w - r), m) < Pow2(w)
    ensures Rotl(w, Xor(Xor(Rotl(w, x, w - r), m), m), r) == x
  {
    RotlBack(w, x, w - r);
    assert w - (w - r) == r;
    XorBound(w, Rotl(w, x, w - r), m);
    XorTwice(Rotl(w, x, w - r), m);
  }

  lemma LaneForth(w: nat, y: nat, m: nat, r: nat, a: nat, c: nat)
    requires WordSize(w) && r <= w && y < Pow2(w) && m < Pow2(w) && a < Pow2(w) && c < Pow2(w)
    ensures Unlane(w, y, m, r, a, c) < Pow2(w)
    ensures Lane(w, Unlane(w, y, m, r, a, c), m, r, a, c) == y
  {
    ScaleForth(w, y, a, c);
    RotateForth(w, Sub(w, Mul(w, Sub(w, y, c), Fifth(w)), a), m, r);
  }

  /** Different mixed keys move a lane to different places. */
  lemma LaneInjectiveInKey(w: nat, h: nat, m: nat, m': nat, r: nat, a: nat, c: nat)
    requires WordSize(w) && r <= w && h < Pow2(w) && m < Pow2(w) && m' < Pow2(w) && a < Pow2(w) && c < Pow2(w)
    ensures Lane(w, h, m, r, a, c) == Lane(w, h, m', r, a, c) ==> m == m'
  {
    LaneShowsXor(w, h, m, r, a, c);
    LaneShowsXor(w, h, m', r, a, c);
    XorLeft(h, m);
    XorLeft(h, m');
  }

  // ---------- Reading words ----------

  /** Bytes as one number, least significant first. */
  function LittleEndian(bytes: seq<Byte>): (r: nat)
    ensures r < Pow2(8 * |bytes|)
  {
    if bytes == [] then 0 else
      Pow2Byte(8 * |bytes[1..]|);
      bytes[0] + 0x100 * LittleEndian(bytes[1..])
  }

  lemma Pow2Byte(n: nat)
    ensures Pow2(n + 8) == 0x100 * Pow2(n)
  {
    Pow2Add(8, n);
    Pow2Words();
  }

  lemma {:induction false} LittleEndianInjective(a: seq<Byte>, b: seq<Byte>)
    requires |a| == |b| && LittleEndian(a) == LittleEndian(b)
    ensures a == b
    decreases |a|
  {
    if a != [] {
      assert a[0] == b[0];
      LittleEndianInjective(a[1..], b[1..]);
      assert a == [a[0]] + a[1..] && b == [b[0]] + b[1..];
    }
  }

  /** Four bytes and what each of them counts. */
  function Weighted(b0: nat, b1: nat, b2: nat, b3: nat): nat {
    b0 + 0x100 * b1 + 0x1_0000 * b2 + 0x100_0000 * b3
  }

  lemma FourBytes(bytes: seq<Byte>)
    requires |bytes| == 4
    ensures LittleEndian(bytes) == Weighted(bytes[0], bytes[1], bytes[2], bytes[3])
  {
    var rest := bytes[1..][1..];
    assert LittleEndian(rest) == bytes[2] + 0x100 * LittleEndian(rest[1..]);
    assert LittleEndian(rest[1..]) == bytes[3] + 0x100 * LittleEndian(rest[1..][1..]);
    assert rest[1..][1..] == [];
  }

  /** What each of eight bytes counts. */
  lemma EightBytes(bytes: seq<Byte>)
    requires |bytes| == 8
    ensures LittleEndian(bytes) == LittleEndian(bytes[..4]) + 0x1_0000_0000 * LittleEndian(bytes[4..])
  {
    LowFour(bytes[..4], bytes[4..]);
    assert bytes[..4] + bytes[4..] == bytes;
  }

  lemma LowFour(low: seq<Byte>, high: seq<Byte>)
    requires |low| == 4
    ensures LittleEndian(low + high) == LittleEndian(low) + 0x1_0000_0000 * LittleEndian(high)
  {
    FourBytes(low);
    LowByte(low, high);
    LowByte(low[1..], high);
    LowByte(low[1..][1..], high);
    LowByte(low[1..][1..][1..], high);
    assert low[1..][1..][1..][1..] + high == high;
  }

  lemma LowByte(low: seq<Byte>, high: seq<Byte>)
    requires low != []
    ensures LittleEndian(low + high) == low[0] + 0x100 * LittleEndian(low[1..] + high)
  {
    assert (low + high)[1..] == low[1..] + high;
  }

  /** The `size` bytes of `key` from position `at` on, as far as they exist. */
  function Piece(key: seq<Byte>, at: nat, size: nat): (r: seq<Byte>)
    ensures |r| <= size
  {
    if at >= |key| then [] else if at + size >= |key| then key[at..] else key[at..at + size]
  }

  /** A word of the tail, the missing bytes being zero. */
  function Load(key: seq<Byte>, at: nat, size: nat): nat {
    LittleEndian(Piece(key, at, size))
  }

  lemma {:induction false} ZerosAbove(bytes: seq<Byte>, n: nat)
    ensures LittleEndian(bytes + seq(n, _ => 0)) == LittleEndian(bytes)
    decreases |bytes| + n
  {
    var zeros: seq<Byte> := seq(n, _ => 0);
    if bytes != [] {
      ZerosAbove(bytes[1..], n);
      assert (bytes + zeros)[1..] == bytes[1..] + zeros;
    } else if n > 0 {
      ZerosAbove([], n - 1);
      assert (bytes + zeros)[1..] == [] + seq(n - 1, _ => 0);
    }
  }

  /** The tail is read as if it went on with zeros. */
  lemma LoadPadded(tail: seq<Byte>, at: nat, size: nat, n: nat)
    requires at + size <= |tail| + n
    ensures Load(tail, at, size) == LittleEndian((tail + seq(n, _ => 0))[at..at + size])
  {
    var piece := Piece(tail, at, size);
    ZerosAbove(piece, size - |piece|);
    assert (tail + seq(n, _ => 0))[at..at + size] == piece + seq(size - |piece|, _ => 0);
  }

  lemma LoadBound(key: seq<Byte>, at: nat, size: nat)
    ensures Load(key, at, size) < Pow2(8 * size)
  {
    Pow2Grows(8 * |Piece(key, at, size)|, 8 * size);
  }

  /** The bytes of a word from byte i on, at their places. */
  function Partial(tail: seq<Byte>, at: nat, size: nat, i: nat): nat
    requires i <= size
  {
    LittleEndian(Piece(tail, at + i, size - i)) * Pow2(8 * i)
  }

  lemma SwitchCase(w: nat, tail: seq<Byte>, at: nat, size: nat, i: nat)
    requires i < size && 8 * size <= w
    ensures Partial(tail, at, size, i) ==
            if at + i < |tail| then Xor(Partial(tail, at, size, i + 1), Shl(w, tail[at + i], 8 * i))
            else Partial(tail, at, size, i + 1)
  {
    if at + i < |tail| {
      var p, t := Pow2(8 * i), tail[at + i];
      var rest := Piece(tail, at + i + 1, size - i - 1);
      assert Piece(tail, at + i, size - i) == [t] + rest;
      Pow2Byte(8 * i);
      Pow2Grows(8 * i + 8, w);
      Fits(t, 0x100, p, 0);
      DivUnique(t * p, Pow2(w), 0, t * p);
      DisjointBits(LittleEndian(rest), 8 * i + 8, t * p);
      Distribute(t, 0x100 * LittleEndian(rest), p);
      Reorder(LittleEndian(rest), 0x100, p);
    }
  }

  /** One case of the fall-through switch adds one byte, if the tail has it. */
  method TailByte(w: nat, tail: seq<Byte>, at: nat, size: nat, i: nat, k: nat) returns (r: nat)
    requires i < size && 8 * size <= w && k == Partial(tail, at, size, i + 1)
    ensures r == Partial(tail, at, size, i)
  {
    SwitchCase(w, tail, at, size, i);
    r := k;
    if |tail| > at + i {
      r := Xor(r, Shl(w, tail[at + i], 8 * i));
    }
  }

  lemma PartialEnds(tail: seq<Byte>, at: nat, size: nat)
    ensures Partial(tail, at, size, size) == 0 && Partial(tail, at, size, 0) == Load(tail, at, size)
  {
    assert Piece(tail, at + size, 0) == [];
    assert Pow2(8 * 0) == 1;
  }

  /** One word's share of the switch over the tail: the bytes it has, highest first. */
  method TailWord(w: nat, tail: seq<Byte>, at: nat, size: nat) returns (k: nat)
    requires (size == 4 && w == 32) || (size == 8 && w == 64)
    ensures k == Load(tail, at, size)
  {
    PartialEnds(tail, at, size);
    k := 0;
    var i := size;
    if size == 8 {
      k := TailByte(w, tail, at, size, i - 1, k);
      k := TailByte(w, tail, at, size, i - 2, k);
      k := TailByte(w, tail, at, size, i - 3, k);
      k := TailByte(w, tail, at, size, i - 4, k);
      i := i - 4;
    }
    k := TailByte(w, tail, at, size, i - 1, k);
    k := TailByte(w, tail, at, size, i - 2, k);
    k := TailByte(w, tail, at, size, i - 3, k);
    k := TailByte(w, tail, at, size, i - 4, k);
  }
}
