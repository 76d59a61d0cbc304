/** MurmurHash3_x86_128 of components/wilma/murmur3.c: a bijection of its four lanes for every key, and
    no two keys that differ in one block, or only in the tail, share a hash. */
module Murmur3x86x128 {
  import opened Bytes
  import opened Words
  import opened Folding
  import opened Murmur3

  const C1: nat := 0x239b961b
  const C2: nat := 0xab0e9789
  const C3: nat := 0x38b34ae5
  const C4: nat := 0xa1e38b93
  const BLOCK: nat := 16

  datatype Lanes = Lanes(h1: nat, h2: nat, h3: nat, h4: nat)

  datatype Keys = Keys(k1: nat, k2: nat, k3: nat, k4: nat)

  predicate Ok(s: Lanes) {
    s.h1 < Pow2(32) && s.h2 < Pow2(32) && s.h3 < Pow2(32) && s.h4 < Pow2(32)
  }

  predicate Small(k: Keys) {
    k.k1 < Pow2(32) && k.k2 < Pow2(32) && k.k3 < Pow2(32) && k.k4 < Pow2(32)
  }

  /** The four words of a block, or of a tail with its missing bytes zero. */
  function Read(block: seq<Byte>): Keys {
    Keys(Load(block, 0, 4), Load(block, 4, 4), Load(block, 8, 4), Load(block, 12, 4))
  }

  function Mix1(k: nat): (m: nat)
    ensures m < Pow2(32)
  {
    Mix(32, k, C1, 15, C2)
  }

  function Mix2(k: nat): (m: nat)
    ensures m < Pow2(32)
  {
    Mix(32, k, C2, 16, C3)
  }

  function Mix3(k: nat): (m: nat)
    ensures m < Pow2(32)
  {
    Mix(32, k, C3, 17, C4)
  }

  function Mix4(k: nat): (m: nat)
    ensures m < Pow2(32)
  {
    Mix(32, k, C4, 18, C1)
  }

  const A1: nat := 0x561ccd1b
  const A2: nat := 0x0bcaa747
  const A3: nat := 0x96cd1c35
  const A4: nat := 0x32ac3b17

  function Step(s: Lanes, k: Keys): Lanes {
    var h1 := Lane(32, s.h1, Mix1(k.k1), 19, s.h2, A1);
    var h2 := Lane(32, s.h2, Mix2(k.k2), 17, s.h3, A2);
    var h3 := Lane(32, s.h3, Mix3(k.k3), 15, s.h4, A3);
    var h4 := Lane(32, s.h4, Mix4(k.k4), 13, h1, A4);
    Lanes(h1, h2, h3, h4)
  }

  function Unstep(s: Lanes, k: Keys): Lanes {
    var h4 := Unlane(32, s.h4, Mix4(k.k4), 13, s.h1, A4);
    var h3 := Unlane(32, s.h3, Mix3(k.k3), 15, h4, A3);
    var h2 := Unlane(32, s.h2, Mix2(k.k2), 17, h3, A2);
    var h1 := Unlane(32, s.h1, Mix1(k.k1), 19, h2, A1);
    Lanes(h1, h2, h3, h4)
  }

  /** The tail is mixed like a block, but only xor-ed into the lanes. */
  function Absorb(s: Lanes, t: Keys): Lanes {
    Lanes(Xor(s.h1, Mix1(t.k1)), Xor(s.h2, Mix2(t.k2)), Xor(s.h3, Mix3(t.k3)), Xor(s.h4, Mix4(t.k4)))
  }

  function Spread(s: Lanes): Lanes {
    var h1 := Add(32, Add(32, Add(32, s.h1, s.h2), s.h3), s.h4);
    Lanes(h1, Add(32, s.h2, h1), Add(32, s.h3, h1), Add(32, s.h4, h1))
  }

  function Unspread(s: Lanes): Lanes {
    var h2, h3, h4 := Sub(32, s.h2, s.h1), Sub(32, s.h3, s.h1), Sub(32, s.h4, s.h1);
    Lanes(Sub(32, Sub(32, Sub(32, s.h1, h4), h3), h2), h2, h3, h4)
  }

  function Length(s: Lanes, n: nat): Lanes {
    Lanes(Xor(s.h1, n), Xor(s.h2, n), Xor(s.h3, n), Xor(s.h4, n))
  }

  function FmixAll(s: Lanes): Lanes {
    Lanes(Fmix32(s.h1), Fmix32(s.h2), Fmix32(s.h3), Fmix32(s.h4))
  }

  function UnfmixAll(s: Lanes): Lanes {
    Lanes(Unfmix32(s.h1), Unfmix32(s.h2), Unfmix32(s.h3), Unfmix32(s.h4))
  }

  function Finalize(s: Lanes, n: nat): Lanes {
    Spread(FmixAll(Spread(Length(s, n))))
  }

  function Definalize(s: Lanes, n: nat): Lanes {
    Length(Unspread(UnfmixAll(Unspread(s))), n)
  }

  function Tail(key: seq<Byte>): (r: seq<Byte>) {
    key[TailStart(|key|, BLOCK)..]
  }

  /** Body, tail and finalization, from any lanes. */
  function Digest(key: seq<Byte>, s: Lanes): Lanes {
    Finalize(Absorb(Fold(Step, s, Blocks(key, BLOCK, Read)), Read(Tail(key))), |key|)
  }

  /** The lanes that give `key` this digest. */
  function Undigest(key: seq<Byte>, s: Lanes): Lanes {
    Unfold(Unstep, Absorb(Definalize(s, |key|), Read(Tail(key))), Blocks(key, BLOCK, Read))
  }

  // ---------- The block step ----------

  lemma StepInvertible()
    ensures Invertible(Step, Unstep, Ok)
  {
    forall s: Lanes, k: Keys ensures InvertibleAt(Step, Unstep, Ok, s, k) {
      if Ok(s) {
        StepBack(s, k);
        StepForth(s, k);
      }
    }
  }

  lemma Addends()
    ensures A1 < Pow2(32) && A2 < Pow2(32) && A3 < Pow2(32) && A4 < Pow2(32)
  {
    Pow2Words();
  }

  lemma StepBack(s: Lanes, k: Keys)
    requires Ok(s)
    ensures Ok(Step(s, k)) && Unstep(Step(s, k), k) == s
  {
    Addends();
    LaneBack(32, s.h1, Mix1(k.k1), 19, s.h2, A1);
    LaneBack(32, s.h2, Mix2(k.k2), 17, s.h3, A2);
    LaneBack(32, s.h3, Mix3(k.k3), 15, s.h4, A3);
    LaneBack(32, s.h4, Mix4(k.k4), 13, Step(s, k).h1, A4);
  }

  lemma StepForth(s: Lanes, k: Keys)
    requires Ok(s)
    ensures Ok(Unstep(s, k)) && Step(Unstep(s, k), k) == s
  {
    var t := Unstep(s, k);
    Addends();
    LaneForth(32, s.h4, Mix4(k.k4), 13, s.h1, A4);
    LaneForth(32, s.h3, Mix3(k.k3), 15, t.h4, A3);
    LaneForth(32, s.h2, Mix2(k.k2), 17, t.h3, A2);
    LaneForth(32, s.h1, Mix1(k.k1), 19, t.h2, A1);
  }

  lemma OddConstants()
    ensures C1 * 0x89c95413 % Pow2(32) == 1 && C2 * 0xdf130eb9 % Pow2(32) == 1
    ensures C3 * 0x747862ed % Pow2(32) == 1 && C4 * 0x58d64a9b % Pow2(32) == 1
  {
    Pow2Words();
  }

  lemma Mix1Injective(k: nat, l: nat)
    requires k < Pow2(32) && l < Pow2(32)
    ensures Mix1(k) == Mix1(l) ==> k == l
  {
    OddConstants();
    MixInjective(32, k, l, C1, 0x89c95413, 15, C2, 0xdf130eb9);
  }

  lemma Mix2Injective(k: nat, l: nat)
    requires k < Pow2(32) && l < Pow2(32)
    ensures Mix2(k) == Mix2(l) ==> k == l
  {
    OddConstants();
    MixInjective(32, k, l, C2, 0xdf130eb9, 16, C3, 0x747862ed);
  }

  lemma Mix3Injective(k: nat, l: nat)
    requires k < Pow2(32) && l < Pow2(32)
    ensures Mix3(k) == Mix3(l) ==> k == l
  {
    OddConstants();
    MixInjective(32, k, l, C3, 0x747862ed, 17, C4, 0x58d64a9b);
  }

  lemma Mix4Injective(k: nat, l: nat)
    requires k < Pow2(32) && l < Pow2(32)
    ensures Mix4(k) == Mix4(l) ==> k == l
  {
    OddConstants();
    MixInjective(32, k, l, C4, 0x58d64a9b, 18, C1, 0x89c95413);
  }

  /** The statements that mix the four key words taken back one by one. */
  lemma MixesUndone(k: nat)
    requires k < Pow2(32)
    ensures Mul(32, Rotl(32, Mul(32, Mix1(k), 0xdf130eb9), 17), 0x89c95413) == k
    ensures Mul(32, Rotl(32, Mul(32, Mix2(k), 0x747862ed), 16), 0xdf130eb9) == k
    ensures Mul(32, Rotl(32, Mul(32, Mix3(k), 0x58d64a9b), 15), 0x747862ed) == k
    ensures Mul(32, Rotl(32, Mul(32, Mix4(k), 0x89c95413), 14), 0x58d64a9b) == k
  {
    OddConstants();
    Unmix(32, k, C1, 0x89c95413, 15, C2, 0xdf130eb9);
    Unmix(32, k, C2, 0xdf130eb9, 16, C3, 0x747862ed);
    Unmix(32, k, C3, 0x747862ed, 17, C4, 0x58d64a9b);
    Unmix(32, k, C4, 0x58d64a9b, 18, C1, 0x89c95413);
  }

  /** The four lines of the block loop taken back up to the exclusive or. */
  lemma StepUndone(s: Lanes, k: Keys)
    requires Ok(s)
    ensures var t := Step(s, k);
            && Rotl(32, Sub(32, Mul(32, Sub(32, t.h1, 0x561ccd1b), 0xcccccccd), s.h2), 13) == Xor(s.h1, Mix1(k.k1))
            && Rotl(32, Sub(32, Mul(32, Sub(32, t.h2, 0x0bcaa747), 0xcccccccd), s.h3), 15) == Xor(s.h2, Mix2(k.k2))
            && Rotl(32, Sub(32, Mul(32, Sub(32, t.h3, 0x96cd1c35), 0xcccccccd), s.h4), 17) == Xor(s.h3, Mix3(k.k3))
            && Rotl(32, Sub(32, Mul(32, Sub(32, t.h4, 0x32ac3b17), 0xcccccccd), t.h1), 19) == Xor(s.h4, Mix4(k.k4))
  {
    Addends();
    LaneShowsXor(32, s.h1, Mix1(k.k1), 19, s.h2, A1);
    LaneShowsXor(32, s.h2, Mix2(k.k2), 17, s.h3, A2);
    LaneShowsXor(32, s.h3, Mix3(k.k3), 15, s.h4, A3);
    LaneShowsXor(32, s.h4, Mix4(k.k4), 13, Step(s, k).h1, A4);
  }

  lemma StepTellsKeysApart(s: Lanes, k: Keys, l: Keys)
    requires Ok(s) && Small(k) && Small(l) && k != l
    ensures Step(s, k) != Step(s, l)
  {
    Addends();
    if Step(s, k) == Step(s, l) {
      LaneInjectiveInKey(32, s.h1, Mix1(k.k1), Mix1(l.k1), 19, s.h2, A1);
      Mix1Injective(k.k1, l.k1);
      LaneInjectiveInKey(32, s.h2, Mix2(k.k2), Mix2(l.k2), 17, s.h3, A2);
      Mix2Injective(k.k2, l.k2);
      LaneInjectiveInKey(32, s.h3, Mix3(k.k3), Mix3(l.k3), 15, s.h4, A3);
      Mix3Injective(k.k3, l.k3);
      LaneInjectiveInKey(32, s.h4, Mix4(k.k4), Mix4(l.k4), 13, Step(s, k).h1, A4);
      Mix4Injective(k.k4, l.k4);
    }
  }

  // ---------- Tail and finalization ----------

  lemma AbsorbTwice(s: Lanes, t: Keys)
    requires Ok(s)
    ensures Ok(Absorb(s, t)) && Absorb(Absorb(s, t), t) == s
  {
    XorStays(s.h1, Mix1(t.k1));
    XorStays(s.h2, Mix2(t.k2));
    XorStays(s.h3, Mix3(t.k3));
    XorStays(s.h4, Mix4(t.k4));
  }

  lemma XorStays(h: nat, m: nat)
    requires h < Pow2(32) && m < Pow2(32)
    ensures Xor(h, m) < Pow2(32) && Xor(Xor(h, m), m) == h
  {
    XorBound(32, h, m);
    XorTwice(h, m);
  }

  lemma LengthTwice(s: Lanes, n: nat)
    requires Ok(s) && n < 0x8000_0000
    ensures Ok(Length(s, n)) && Length(Length(s, n), n) == s
  {
    Pow2Words();
    XorStays(s.h1, n);
    XorStays(s.h2, n);
    XorStays(s.h3, n);
    XorStays(s.h4, n);
  }

  lemma SpreadBack(s: Lanes)
    requires Ok(s)
    ensures Ok(Spread(s)) && Unspread(Spread(s)) == s
  {
    var a := Add(32, s.h1, s.h2);
    var b := Add(32, a, s.h3);
    var h1 := Spread(s).h1;
    AddBack(32, s.h1, s.h2);
    AddBack(32, a, s.h3);
    AddBack(32, b, s.h4);
    AddBack(32, s.h2, h1);
    AddBack(32, s.h3, h1);
    AddBack(32, s.h4, h1);
  }

  lemma SpreadForth(s: Lanes)
    requires Ok(s)
    ensures Ok(Unspread(s)) && Spread(Unspread(s)) == s
  {
    var t := Unspread(s);
    var a := Sub(32, s.h1, t.h4);
    var b := Sub(32, a, t.h3);
    AddBack(32, s.h2, s.h1);
    AddBack(32, s.h3, s.h1);
    AddBack(32, s.h4, s.h1);
    AddBack(32, s.h1, t.h4);
    AddBack(32, a, t.h3);
    AddBack(32, b, t.h2);
  }

  lemma FmixAllBack(s: Lanes)
    requires Ok(s)
    ensures Ok(FmixAll(s)) && UnfmixAll(FmixAll(s)) == s
    ensures Ok(UnfmixAll(s)) && FmixAll(UnfmixAll(s)) == s
  {
    Fmix32Bijective(s.h1);
    Fmix32Bijective(s.h2);
    Fmix32Bijective(s.h3);
    Fmix32Bijective(s.h4);
  }

  lemma FinalizeBijective(s: Lanes, n: nat)
    requires Ok(s) && n < 0x8000_0000
    ensures Ok(Finalize(s, n)) && Definalize(Finalize(s, n), n) == s
    ensures Ok(Definalize(s, n)) && Finalize(Definalize(s, n), n) == s
  {
    var a := Length(s, n);
    LengthTwice(s, n);
    SpreadBack(a);
    FmixAllBack(Spread(a));
    SpreadBack(FmixAll(Spread(a)));
    var b := Unspread(s);
    SpreadForth(s);
    FmixAllBack(b);
    SpreadForth(UnfmixAll(b));
    LengthTwice(Unspread(UnfmixAll(b)), n);
  }

  /** The sums of the finalization: the first lane gets all four, the others get it. */
  lemma SpreadSums(s: Lanes)
    ensures var t := Spread(s);
            && t.h1 == (s.h1 + s.h2 + s.h3 + s.h4) % 0x1_0000_0000
            && t.h2 == (s.h2 + t.h1) % 0x1_0000_0000
            && t.h3 == (s.h3 + t.h1) % 0x1_0000_0000
            && t.h4 == (s.h4 + t.h1) % 0x1_0000_0000
  {
    Pow2Words();
    ModSums(s.h1 + s.h2, s.h3, s.h4, Pow2(32));
  }

  /** The multiplications and shifts of one lane taken back. */
  function Unmixed(h: nat): nat {
    XorUnshift(Mul(32, XorUnshift(Mul(32, XorUnshift(h, 16), 0x7ed1b41d), 13), 0xa5cb9243), 16)
  }

  /** The finalization in the middle: what four fmix32 made, before the second round of sums, is what the
      first round of sums made of the lanes, each with the length. */
  lemma FinalizeUndone(s: Lanes, n: nat)
    requires Ok(s) && n < 0x8000_0000
    ensures var t := Unspread(Finalize(s, n));
            Lanes(Unmixed(t.h1), Unmixed(t.h2), Unmixed(t.h3), Unmixed(t.h4)) ==
            Spread(Lanes(Xor(s.h1, n), Xor(s.h2, n), Xor(s.h3, n), Xor(s.h4, n)))
  {
    var a := Length(s, n);
    LengthTwice(s, n);
    SpreadBack(a);
    FmixAllBack(Spread(a));
    SpreadBack(FmixAll(Spread(a)));
    Fmix32Undone(Spread(a).h1);
    Fmix32Undone(Spread(a).h2);
    Fmix32Undone(Spread(a).h3);
    Fmix32Undone(Spread(a).h4);
  }

  /** The whole computation taken back to its body: the tail bytes are mixed like a last block, each word in
      its own lane, but only xor-ed in. */
  lemma DigestUndone(key: seq<Byte>, s: Lanes)
    requires Ok(s) && |key| < 0x8000_0000
    ensures var n, tail := |key|, key[|key| / 16 * 16..];
            var body := Fold(Step, s, Blocks(key, 16, Read));
            var t := Unspread(Digest(key, s));
            Lanes(Unmixed(t.h1), Unmixed(t.h2), Unmixed(t.h3), Unmixed(t.h4)) ==
            Spread(Lanes(Xor(Xor(body.h1, Mix1(Load(tail, 0, 4))), n), Xor(Xor(body.h2, Mix2(Load(tail, 4, 4))), n),
                         Xor(Xor(body.h3, Mix3(Load(tail, 8, 4))), n), Xor(Xor(body.h4, Mix4(Load(tail, 12, 4))), n)))
  {
    var body := Fold(Step, s, Blocks(key, 16, Read));
    StepInvertible();
    UnfoldFold(Step, Unstep, Ok, s, Blocks(key, 16, Read));
    AbsorbTwice(body, Read(Tail(key)));
    FinalizeUndone(Absorb(body, Read(Tail(key))), |key|);
  }

  /** The four words of a whole block, byte by byte. */
  lemma ReadBytes(b: seq<Byte>)
    requires |b| == 16
    ensures Read(b).k1 == Weighted(b[0], b[1], b[2], b[3])
    ensures Read(b).k2 == Weighted(b[4], b[5], b[6], b[7])
    ensures Read(b).k3 == Weighted(b[8], b[9], b[10], b[11])
    ensures Read(b).k4 == Weighted(b[12], b[13], b[14], b[15])
  {
    FourBytes(Piece(b, 0, 4));
    FourBytes(Piece(b, 4, 4));
    FourBytes(Piece(b, 8, 4));
    FourBytes(Piece(b, 12, 4));
  }

  /** The first block is the first that is mixed in. */
  lemma FirstBlockFirst(key: seq<Byte>, s: Lanes)
    requires |key| >= 16
    ensures Fold(Step, s, Blocks(key, 16, Read)) == Fold(Step, Step(s, Read(key[..16])), Blocks(key[16..], 16, Read))
  {
    BlocksPeel(key, 16, Read);
    FoldCons(Step, s, Read(key[..16]), Blocks(key[16..], 16, Read));
  }

  /** For every key the digest is a bijection of the whole lane state. */
  lemma DigestBijective(key: seq<Byte>, s: Lanes)
    requires Ok(s) && |key| < 0x8000_0000
    ensures Ok(Digest(key, s)) && Undigest(key, Digest(key, s)) == s
    ensures Ok(Undigest(key, s)) && Digest(key, Undigest(key, s)) == s
  {
    var blocks, tail := Blocks(key, BLOCK, Read), Read(Tail(key));
    var body := Fold(Step, s, blocks);
    StepInvertible();
    UnfoldFold(Step, Unstep, Ok, s, blocks);
    AbsorbTwice(body, tail);
    FinalizeBijective(Absorb(body, tail), |key|);
    var back := Definalize(s, |key|);
    FinalizeBijective(s, |key|);
    AbsorbTwice(back, tail);
    FoldUnfold(Step, Unstep, Ok, Absorb(back, tail), blocks);
  }

  // ---------- Collisions ----------

  lemma ReadSmall(block: seq<Byte>)
    ensures Small(Read(block))
  {
    LoadBound(block, 0, 4);
    LoadBound(block, 4, 4);
    LoadBound(block, 8, 4);
    LoadBound(block, 12, 4);
  }

  lemma ReadInjective(a: seq<Byte>, b: seq<Byte>)
    requires |a| == |b| <= BLOCK && Read(a) == Read(b)
    ensures a == b
  {
    LittleEndianInjective(Piece(a, 0, 4), Piece(b, 0, 4));
    LittleEndianInjective(Piece(a, 4, 4), Piece(b, 4, 4));
    LittleEndianInjective(Piece(a, 8, 4), Piece(b, 8, 4));
    LittleEndianInjective(Piece(a, 12, 4), Piece(b, 12, 4));
    Pieces(a);
    Pieces(b);
  }

  lemma Pieces(a: seq<Byte>)
    requires |a| <= BLOCK
    ensures a == Piece(a, 0, 4) + Piece(a, 4, 4) + Piece(a, 8, 4) + Piece(a, 12, 4)
  {
  }

  /** Two keys of one length that differ in one 16-byte block alone never share a digest. */
  lemma OneBlockNeverCollides(a: seq<Byte>, b: seq<Byte>, i: nat, s: Lanes)
    requires Ok(s) && |a| < 0x8000_0000 && DifferInBlock(a, b, BLOCK, i)
    ensures Digest(a, s) != Digest(b, s)
  {
    BlockFits(|a|, BLOCK, i);
    var k, l := Read(BlockAt(a, BLOCK, i)), Read(BlockAt(b, BLOCK, i));
    BlocksDiffer(a, b, BLOCK, i);
    if k == l {
      ReadInjective(BlockAt(a, BLOCK, i), BlockAt(b, BLOCK, i));
    }
    ReadSmall(BlockAt(a, BLOCK, i));
    ReadSmall(BlockAt(b, BLOCK, i));
    StepInvertible();
    forall t | Ok(t) ensures Step(t, k) != Step(t, l) {
      StepTellsKeysApart(t, k, l);
    }
    OneBlockDiffers(Step, Unstep, Ok, s, a, b, BLOCK, Read, i);
    SameTail(a, b, BLOCK, i);
    BodiesShow(a, b, s);
  }

  /** With equal tails, different bodies give different digests. */
  lemma BodiesShow(a: seq<Byte>, b: seq<Byte>, s: Lanes)
    requires Ok(s) && |a| == |b| < 0x8000_0000 && Tail(a) == Tail(b)
    ensures Fold(Step, s, Blocks(a, BLOCK, Read)) != Fold(Step, s, Blocks(b, BLOCK, Read)) ==>
              Digest(a, s) != Digest(b, s)
  {
    var x, y, t := Fold(Step, s, Blocks(a, BLOCK, Read)), Fold(Step, s, Blocks(b, BLOCK, Read)), Read(Tail(a));
    StepInvertible();
    UnfoldFold(Step, Unstep, Ok, s, Blocks(a, BLOCK, Read));
    UnfoldFold(Step, Unstep, Ok, s, Blocks(b, BLOCK, Read));
    AbsorbTwice(x, t);
    AbsorbTwice(y, t);
    FinalizeBijective(Absorb(x, t), |a|);
    FinalizeBijective(Absorb(y, t), |a|);
  }

  /** Two keys of one length that differ only after the last whole block never share a digest. */
  lemma TailNeverCollides(a: seq<Byte>, b: seq<Byte>, s: Lanes)
    requires Ok(s) && |a| < 0x8000_0000 && DifferInTail(a, b, BLOCK)
    ensures Digest(a, s) != Digest(b, s)
  {
    var body := Fold(Step, s, Blocks(a, BLOCK, Read));
    SameBlocks(a, b, BLOCK, Read);
    TailsOf(a, b, BLOCK);
    StepInvertible();
    UnfoldFold(Step, Unstep, Ok, s, Blocks(a, BLOCK, Read));
    ReadSmall(Tail(a));
    ReadSmall(Tail(b));
    if Read(Tail(a)) == Read(Tail(b)) {
      ReadInjective(Tail(a), Tail(b));
    }
    AbsorbTellsTailsApart(body, Read(Tail(a)), Read(Tail(b)));
    AbsorbTwice(body, Read(Tail(a)));
    AbsorbTwice(body, Read(Tail(b)));
    FinalizeBijective(Absorb(body, Read(Tail(a))), |a|);
    FinalizeBijective(Absorb(body, Read(Tail(b))), |a|);
  }

  lemma AbsorbTellsTailsApart(s: Lanes, t: Keys, u: Keys)
    requires Small(t) && Small(u) && t != u
    ensures Absorb(s, t) != Absorb(s, u)
  {
    if Absorb(s, t) == Absorb(s, u) {
      SameXor(s.h1, Mix1(t.k1), Mix1(u.k1));
      Mix1Injective(t.k1, u.k1);
      SameXor(s.h2, Mix2(t.k2), Mix2(u.k2));
      Mix2Injective(t.k2, u.k2);
      SameXor(s.h3, Mix3(t.k3), Mix3(u.k3));
      Mix3Injective(t.k3, u.k3);
      SameXor(s.h4, Mix4(t.k4), Mix4(u.k4));
      Mix4Injective(t.k4, u.k4);
    }
  }

  lemma SameXor(h: nat, m: nat, n: nat)
    requires Xor(h, m) == Xor(h, n)
    ensures m == n
  {
    XorLeft(h, m);
    XorLeft(h, n);
  }

  // ---------- The function ----------

  /** A key word on its way into a lane. */
  method MixWord(k: nat, c: nat, r: nat, d: nat) returns (m: nat)
    requires r <= 32
    ensures m == Mix(32, k, c, r, d)
  {
    m := Mul(32, k, c);
    m := Rotl(32, m, r);
    m := Mul(32, m, d);
  }

  /** The rest of a line of the block loop: one lane, its mixed key and the lane it adds. */
  method MixLane(h: nat, k: nat, r: nat, a: nat, c: nat) returns (y: nat)
    requires r <= 32
    ensures y == Lane(32, h, k, r, a, c)
  {
    y := Xor(h, k);
    y := Rotl(32, y, r);
    y := Add(32, y, a);
    y := Add(32, Mul(32, y, 5), c);
  }

  /** The body of the block loop. */
  method Round(s: Lanes, key: Keys) returns (h1: nat, h2: nat, h3: nat, h4: nat)
    ensures Lanes(h1, h2, h3, h4) == Step(s, key)
  {
    h1, h2, h3, h4 := s.h1, s.h2, s.h3, s.h4;
    var k1 := MixWord(key.k1, C1, 15, C2);
    h1 := MixLane(h1, k1, 19, h2, A1);
    var k2 := MixWord(key.k2, C2, 16, C3);
    h2 := MixLane(h2, k2, 17, h3, A2);
    var k3 := MixWord(key.k3, C3, 17, C4);
    h3 := MixLane(h3, k3, 15, h4, A3);
    var k4 := MixWord(key.k4, C4, 18, C1);
    h4 := MixLane(h4, k4, 13, h1, A4);
  }

  /** getblock, four times. */
  method GetBlock(key: seq<Byte>, i: nat) returns (k: Keys)
    requires i < |key| / BLOCK
    ensures k == Blocks(key, BLOCK, Read)[i]
  {
    BlockRead(key, BLOCK, Read, i);
    var block := key[BLOCK * i..BLOCK * i + BLOCK];
    assert block[0..4] == Piece(block, 0, 4) && block[4..8] == Piece(block, 4, 4);
    assert block[8..12] == Piece(block, 8, 4) && block[12..16] == Piece(block, 12, 4);
    k := Keys(LittleEndian(block[0..4]), LittleEndian(block[4..8]),
              LittleEndian(block[8..12]), LittleEndian(block[12..16]));
  }

  /** The loop over the blocks, with its index running from -nblocks up to zero. */
  method Body(key: seq<Byte>, seed: nat) returns (h1: nat, h2: nat, h3: nat, h4: nat)
    ensures Lanes(h1, h2, h3, h4) == Fold(Step, Lanes(seed, seed, seed, seed), Blocks(key, BLOCK, Read))
  {
    ghost var blocks, start := Blocks(key, BLOCK, Read), Lanes(seed, seed, seed, seed);
    ghost var done: seq<Keys> := [];
    var nblocks: int := |key| / BLOCK;
    h1, h2, h3, h4 := seed, seed, seed, seed;
    var i: int := -nblocks;
    while i != 0
      invariant -nblocks <= i <= 0 && |done| == nblocks + i && done <= blocks
      invariant Lanes(h1, h2, h3, h4) == Fold(Step, start, done)
    {
      var k := GetBlock(key, nblocks + i);
      FoldSnoc(Step, start, done, k);
      PrefixSnoc(done, blocks, k);
      done := done + [k];
      h1, h2, h3, h4 := Round(Lanes(h1, h2, h3, h4), k);
      i := i + 1;
    }
    assert done == blocks;
  }

  /** One word of the switch over the tail, if the tail reaches it. */
  method AbsorbWord(tail: seq<Byte>, at: nat, h: nat, c: nat, r: nat, d: nat) returns (y: nat)
    requires r <= 32
    ensures y == Xor(h, Mix(32, Load(tail, at, 4), c, r, d))
  {
    y := h;
    if |tail| > at {
      var k := TailWord(32, tail, at, 4);
      k := MixWord(k, c, r, d);
      y := Xor(y, k);
    } else {
      MixZero(32, c, r, d);
      XorZero(h);
    }
  }

  /** MurmurHash3_x86_128. */
  method MurmurHash3(key: seq<Byte>, seed: nat) returns (out: (nat, nat, nat, nat))
    requires seed < Pow2(32) && |key| < 0x8000_0000
    ensures Lanes(out.0, out.1, out.2, out.3) == Digest(key, Lanes(seed, seed, seed, seed))
  {
    var h1, h2, h3, h4 := Body(key, seed);
    var tail := key[|key| / BLOCK * BLOCK..];
    h4 := AbsorbWord(tail, 12, h4, C4, 18, C1);
    h3 := AbsorbWord(tail, 8, h3, C3, 17, C4);
    h2 := AbsorbWord(tail, 4, h2, C2, 16, C3);
    h1 := AbsorbWord(tail, 0, h1, C1, 15, C2);
    h1, h2, h3, h4 := Xor(h1, |key|), Xor(h2, |key|), Xor(h3, |key|), Xor(h4, |key|);
    h1, h2, h3, h4 := SpreadLanes(h1, h2, h3, h4);
    h1 := FinalMix32(h1);
    h2 := FinalMix32(h2);
    h3 := FinalMix32(h3);
    h4 := FinalMix32(h4);
    h1, h2, h3, h4 := SpreadLanes(h1, h2, h3, h4);
    out := (h1, h2, h3, h4);
  }

  method SpreadLanes(s1: nat, s2: nat, s3: nat, s4: nat) returns (h1: nat, h2: nat, h3: nat, h4: nat)
    ensures Lanes(h1, h2, h3, h4) == Spread(Lanes(s1, s2, s3, s4))
  {
    h1 := Add(32, s1, s2);
    h1 := Add(32, h1, s3);
    h1 := Add(32, h1, s4);
    h2 := Add(32, s2, h1);
    h3 := Add(32, s3, h1);
    h4 := Add(32, s4, h1);
  }
}
