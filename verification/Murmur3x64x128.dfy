/** MurmurHash3_x64_128 of components/wilma/murmur3.c: a bijection of its two lanes for every key, and
    no two keys that differ in one block, or only in the tail, share a hash. */
module Murmur3x64x128 {
  import opened Bytes
  import opened Words
  import opened Folding
  import opened Murmur3

  const C1: nat := 0x87c37b91114253d5
  const C2: nat := 0x4cf5ad432745937f
  const BLOCK: nat := 16

  datatype Lanes = Lanes(h1: nat, h2: nat)

  datatype Keys = Keys(k1: nat, k2: nat)

  predicate Ok(s: Lanes) {
    s.h1 < Pow2(64) && s.h2 < Pow2(64)
  }

  /** The two words of a block, or of a tail with its missing bytes zero. */
  function Read(block: seq<Byte>): Keys {
    Keys(Load(block, 0, 8), Load(block, 8, 8))
  }

  function Mix1(k: nat): (m: nat)
    ensures m < Pow2(64)
  {
    Mix(64, k, C1, 31, C2)
  }

  function Mix2(k: nat): (m: nat)
    ensures m < Pow2(64)
  {
    Mix(64, k, C2, 33, C1)
  }

  function Lane1(s: Lanes, k1: nat): nat {
    Lane(64, s.h1, Mix1(k1), 27, s.h2, 0x52dce729)
  }

  function Lane2(h1: nat, h2: nat, k2: nat): nat {
    Lane(64, h2, Mix2(k2), 31, h1, 0x38495ab5)
  }

  function Step(s: Lanes, k: Keys): Lanes {
    var h1 := Lane1(s, k.k1);
    Lanes(h1, Lane2(h1, s.h2, k.k2))
  }

  function Unstep(s: Lanes, k: Keys): Lanes {
    var h2 := Unlane(64, s.h2, Mix2(k.k2), 31, s.h1, 0x38495ab5);
    Lanes(Unlane(64, s.h1, Mix1(k.k1), 27, h2, 0x52dce729), h2)
  }

  /** The tail is mixed like a block, but only xor-ed into the lanes. */
  function Absorb(s: Lanes, t: Keys): Lanes {
    Lanes(Xor(s.h1, Mix1(t.k1)), Xor(s.h2, Mix2(t.k2)))
  }

  function Spread(s: Lanes): Lanes {
    var h1 := Add(64, s.h1, s.h2);
    Lanes(h1, Add(64, s.h2, h1))
  }

  function Unspread(s: Lanes): Lanes {
    var h2 := Sub(64, s.h2, s.h1);
    Lanes(Sub(64, s.h1, h2), h2)
  }

  function Length(s: Lanes, n: nat): Lanes {
    Lanes(Xor(s.h1, n), Xor(s.h2, n))
  }

  function FmixBoth(s: Lanes): Lanes {
    Lanes(Fmix64(s.h1), Fmix64(s.h2))
  }

  function UnfmixBoth(s: Lanes): Lanes {
    Lanes(Unfmix64(s.h1), Unfmix64(s.h2))
  }

  function Finalize(s: Lanes, n: nat): Lanes {
    Spread(FmixBoth(Spread(Length(s, n))))
  }

  function Definalize(s: Lanes, n: nat): Lanes {
    Length(Unspread(UnfmixBoth(Unspread(s))), n)
  }

  function Tail(key: seq<Byte>): (r: seq<Byte>) {
    key[TailStart(|key|, BLOCK)..]
  }

  /** Body, tail and finalization, from any lanes. */
  function Digest(key: seq<Byte>, s: Lanes): Lanes {
    Finalize(Absorb(Fold(Step, s, Blocks(key, BLOCK, Read)), Read(Tail(key))), |key|)
  }

  /** The lanes that give `key` this digest. */
  function Undigest(key: seq<Byte>, s: Lanes): Lanes {
    Unfold(Unstep, Absorb(Definalize(s, |key|), Read(Tail(key))), Blocks(key, BLOCK, Read))
  }

  // ---------- The block step ----------

  lemma StepInvertible()
    ensures Invertible(Step, Unstep, Ok)
  {
    forall s: Lanes, k: Keys ensures InvertibleAt(Step, Unstep, Ok, s, k) {
      if Ok(s) {
        StepBack(s, k);
        StepForth(s, k);
      }
    }
  }

  lemma StepBack(s: Lanes, k: Keys)
    requires Ok(s)
    ensures Ok(Step(s, k)) && Unstep(Step(s, k), k) == s
  {
    Pow2Words();
    LaneBack(64, s.h1, Mix1(k.k1), 27, s.h2, 0x52dce729);
    LaneBack(64, s.h2, Mix2(k.k2), 31, Lane1(s, k.k1), 0x38495ab5);
  }

  lemma StepForth(s: Lanes, k: Keys)
    requires Ok(s)
    ensures Ok(Unstep(s, k)) && Step(Unstep(s, k), k) == s
  {
    Pow2Words();
    LaneForth(64, s.h2, Mix2(k.k2), 31, s.h1, 0x38495ab5);
    LaneForth(64, s.h1, Mix1(k.k1), 27, Unstep(s, k).h2, 0x52dce729);
  }

  lemma OddConstants()
    ensures C1 * 0xa98409e882ce4d7d % Pow2(64) == 1 && C2 * 0xa81e14edd9de2c7f % Pow2(64) == 1
  {
    Pow2Words();
  }

  lemma Mix1Injective(k: nat, l: nat)
    requires k < Pow2(64) && l < Pow2(64)
    ensures Mix1(k) == Mix1(l) ==> k == l
  {
    OddConstants();
    MixInjective(64, k, l, C1, 0xa98409e882ce4d7d, 31, C2, 0xa81e14edd9de2c7f);
  }

  lemma Mix2Injective(k: nat, l: nat)
    requires k < Pow2(64) && l < Pow2(64)
    ensures Mix2(k) == Mix2(l) ==> k == l
  {
    OddConstants();
    MixInjective(64, k, l, C2, 0xa81e14edd9de2c7f, 33, C1, 0xa98409e882ce4d7d);
  }

  /** The statements that mix the two key words taken back one by one. */
  lemma MixesUndone(k: nat)
    requires k < Pow2(64)
    ensures Mul(64, Rotl(64, Mul(64, Mix1(k), 0xa81e14edd9de2c7f), 33), 0xa98409e882ce4d7d) == k
    ensures Mul(64, Rotl(64, Mul(64, Mix2(k), 0xa98409e882ce4d7d), 31), 0xa81e14edd9de2c7f) == k
  {
    OddConstants();
    Unmix(64, k, C1, 0xa98409e882ce4d7d, 31, C2, 0xa81e14edd9de2c7f);
    Unmix(64, k, C2, 0xa81e14edd9de2c7f, 33, C1, 0xa98409e882ce4d7d);
  }

  /** The two lines of the block loop taken back up to the exclusive or. */
  lemma StepUndone(s: Lanes, k: Keys)
    requires Ok(s)
    ensures var t := Step(s, k);
            var a := Sub(64, Mul(64, Sub(64, t.h1, 0x52dce729), 0xcccccccccccccccd), s.h2);
            var b := Sub(64, Mul(64, Sub(64, t.h2, 0x38495ab5), 0xcccccccccccccccd), t.h1);
            Rotl(64, a, 37) == Xor(s.h1, Mix1(k.k1)) && Rotl(64, b, 33) == Xor(s.h2, Mix2(k.k2))
  {
    Pow2Words();
    LaneShowsXor(64, s.h1, Mix1(k.k1), 27, s.h2, 0x52dce729);
    LaneShowsXor(64, s.h2, Mix2(k.k2), 31, Lane1(s, k.k1), 0x38495ab5);
  }

  predicate Small(k: Keys) {
    k.k1 < Pow2(64) && k.k2 < Pow2(64)
  }

  lemma StepTellsKeysApart(s: Lanes, k: Keys, l: Keys)
    requires Ok(s) && Small(k) && Small(l) && k != l
    ensures Step(s, k) != Step(s, l)
  {
    Pow2Words();
    if Step(s, k) == Step(s, l) {
      LaneInjectiveInKey(64, s.h1, Mix1(k.k1), Mix1(l.k1), 27, s.h2, 0x52dce729);
      Mix1Injective(k.k1, l.k1);
      LaneInjectiveInKey(64, s.h2, Mix2(k.k2), Mix2(l.k2), 31, Lane1(s, k.k1), 0x38495ab5);
      Mix2Injective(k.k2, l.k2);
    }
  }

  // ---------- Tail and finalization ----------

  lemma AbsorbTwice(s: Lanes, t: Keys)
    requires Ok(s)
    ensures Ok(Absorb(s, t)) && Absorb(Absorb(s, t), t) == s
  {
    XorBound(64, s.h1, Mix1(t.k1));
    XorBound(64, s.h2, Mix2(t.k2));
    XorTwice(s.h1, Mix1(t.k1));
    XorTwice(s.h2, Mix2(t.k2));
  }

  lemma LengthTwice(s: Lanes, n: nat)
    requires Ok(s) && n < 0x8000_0000
    ensures Ok(Length(s, n)) && Length(Length(s, n), n) == s
  {
    Pow2Words();
    XorBound(64, s.h1, n);
    XorBound(64, s.h2, n);
    XorTwice(s.h1, n);
    XorTwice(s.h2, n);
  }

  lemma SpreadBack(s: Lanes)
    requires Ok(s)
    ensures Ok(Spread(s)) && Unspread(Spread(s)) == s
    ensures Ok(Unspread(s)) && Spread(Unspread(s)) == s
  {
    AddBack(64, s.h1, s.h2);
    AddBack(64, s.h2, Spread(s).h1);
    AddBack(64, s.h2, s.h1);
    AddBack(64, s.h1, Unspread(s).h2);
  }

  lemma FmixBothBack(s: Lanes)
    requires Ok(s)
    ensures Ok(FmixBoth(s)) && UnfmixBoth(FmixBoth(s)) == s
    ensures Ok(UnfmixBoth(s)) && FmixBoth(UnfmixBoth(s)) == s
  {
    Fmix64Bijective(s.h1);
    Fmix64Bijective(s.h2);
  }

  lemma FinalizeBijective(s: Lanes, n: nat)
    requires Ok(s) && n < 0x8000_0000
    ensures Ok(Finalize(s, n)) && Definalize(Finalize(s, n), n) == s
    ensures Ok(Definalize(s, n)) && Finalize(Definalize(s, n), n) == s
  {
    var a := Length(s, n);
    LengthTwice(s, n);
    SpreadBack(a);
    FmixBothBack(Spread(a));
    SpreadBack(FmixBoth(Spread(a)));
    var b := Unspread(s);
    SpreadBack(s);
    FmixBothBack(b);
    SpreadBack(UnfmixBoth(b));
    LengthTwice(Unspread(UnfmixBoth(b)), n);
  }

  /** The sums of the finalization: the first lane gets the second, and then the second the first. */
  lemma SpreadSums(s: Lanes)
    ensures var t := Spread(s);
            && t.h1 == (s.h1 + s.h2) % 0x1_0000_0000_0000_0000
            && t.h2 == (s.h2 + t.h1) % 0x1_0000_0000_0000_0000
  {
    Pow2Words();
  }

  /** The multiplications and shifts of one lane taken back. */
  function Unmixed(h: nat): nat {
    XorUnshift(Mul(64, XorUnshift(Mul(64, XorUnshift(h, 33), 0x9cb4b2f8129337db), 33), 0x4f74430c22a54005), 33)
  }

  /** The finalization in the middle: what two fmix64 made, before the second round of sums, is what the
      first round of sums made of the lanes, each with the length. */
  lemma FinalizeUndone(s: Lanes, n: nat)
    requires Ok(s) && n < 0x8000_0000
    ensures var t := Unspread(Finalize(s, n));
            Lanes(Unmixed(t.h1), Unmixed(t.h2)) == Spread(Lanes(Xor(s.h1, n), Xor(s.h2, n)))
  {
    var a := Length(s, n);
    LengthTwice(s, n);
    SpreadBack(a);
    FmixBothBack(Spread(a));
    SpreadBack(FmixBoth(Spread(a)));
    Fmix64Undone(Spread(a).h1);
    Fmix64Undone(Spread(a).h2);
  }

  /** The whole computation taken back to its body: the tail bytes are mixed like a last block, each word in
      its own lane, but only xor-ed in. */
  lemma DigestUndone(key: seq<Byte>, s: Lanes)
    requires Ok(s) && |key| < 0x8000_0000
    ensures var n, tail := |key|, key[|key| / 16 * 16..];
            var body := Fold(Step, s, Blocks(key, 16, Read));
            var t := Unspread(Digest(key, s));
            Lanes(Unmixed(t.h1), Unmixed(t.h2)) ==
            Spread(Lanes(Xor(Xor(body.h1, Mix1(Load(tail, 0, 8))), n), Xor(Xor(body.h2, Mix2(Load(tail, 8, 8))), n)))
  {
    var body := Fold(Step, s, Blocks(key, 16, Read));
    StepInvertible();
    UnfoldFold(Step, Unstep, Ok, s, Blocks(key, 16, Read));
    AbsorbTwice(body, Read(Tail(key)));
    FinalizeUndone(Absorb(body, Read(Tail(key))), |key|);
  }

  /** The two words of a whole block: the first eight bytes and the last. */
  lemma ReadBytes(b: seq<Byte>)
    requires |b| == 16
    ensures Read(b) == Keys(LittleEndian(b[..8]), LittleEndian(b[8..]))
  {
    assert Piece(b, 0, 8) == b[..8] && Piece(b, 8, 8) == b[8..];
  }

  /** The first block is the first that is mixed in. */
  lemma FirstBlockFirst(key: seq<Byte>, s: Lanes)
    requires |key| >= 16
    ensures Fold(Step, s, Blocks(key, 16, Read)) == Fold(Step, Step(s, Read(key[..16])), Blocks(key[16..], 16, Read))
  {
    BlocksPeel(key, 16, Read);
    FoldCons(Step, s, Read(key[..16]), Blocks(key[16..], 16, Read));
  }

  /** For every key the digest is a bijection of the whole lane state. */
  lemma DigestBijective(key: seq<Byte>, s: Lanes)
    requires Ok(s) && |key| < 0x8000_0000
    ensures Ok(Digest(key, s)) && Undigest(key, Digest(key, s)) == s
    ensures Ok(Undigest(key, s)) && Digest(key, Undigest(key, s)) == s
  {
    var blocks, tail := Blocks(key, BLOCK, Read), Read(Tail(key));
    var body := Fold(Step, s, blocks);
    StepInvertible();
    UnfoldFold(Step, Unstep, Ok, s, blocks);
    AbsorbTwice(body, tail);
    FinalizeBijective(Absorb(body, tail), |key|);
    var back := Definalize(s, |key|);
    FinalizeBijective(s, |key|);
    AbsorbTwice(back, tail);
    FoldUnfold(Step, Unstep, Ok, Absorb(back, tail), blocks);
  }

  // ---------- Collisions ----------

  lemma ReadSmall(block: seq<Byte>)
    ensures Small(Read(block))
  {
    LoadBound(block, 0, 8);
    LoadBound(block, 8, 8);
  }

  lemma ReadInjective(a: seq<Byte>, b: seq<Byte>)
    requires |a| == |b| <= BLOCK && Read(a) == Read(b)
    ensures a == b
  {
    LittleEndianInjective(Piece(a, 0, 8), Piece(b, 0, 8));
    LittleEndianInjective(Piece(a, 8, 8), Piece(b, 8, 8));
    assert a == Piece(a, 0, 8) + Piece(a, 8, 8) && b == Piece(b, 0, 8) + Piece(b, 8, 8);
  }

  /** Two keys of one length that differ in one 16-byte block alone never share a digest. */
  lemma OneBlockNeverCollides(a: seq<Byte>, b: seq<Byte>, i: nat, s: Lanes)
    requires Ok(s) && |a| < 0x8000_0000 && DifferInBlock(a, b, BLOCK, i)
    ensures Digest(a, s) != Digest(b, s)
  {
    BlockFits(|a|, BLOCK, i);
    var k, l := Read(BlockAt(a, BLOCK, i)), Read(BlockAt(b, BLOCK, i));
    BlocksDiffer(a, b, BLOCK, i);
    if k == l {
      ReadInjective(BlockAt(a, BLOCK, i), BlockAt(b, BLOCK, i));
    }
    ReadSmall(BlockAt(a, BLOCK, i));
    ReadSmall(BlockAt(b, BLOCK, i));
    StepInvertible();
    forall t | Ok(t) ensures Step(t, k) != Step(t, l) {
      StepTellsKeysApart(t, k, l);
    }
    OneBlockDiffers(Step, Unstep, Ok, s, a, b, BLOCK, Read, i);
    SameTail(a, b, BLOCK, i);
    BodiesShow(a, b, s);
  }

  /** With equal tails, different bodies give different digests. */
  lemma BodiesShow(a: seq<Byte>, b: seq<Byte>, s: Lanes)
    requires Ok(s) && |a| == |b| < 0x8000_0000 && Tail(a) == Tail(b)
    ensures Fold(Step, s, Blocks(a, BLOCK, Read)) != Fold(Step, s, Blocks(b, BLOCK, Read)) ==>
              Digest(a, s) != Digest(b, s)
  {
    var x, y, t := Fold(Step, s, Blocks(a, BLOCK, Read)), Fold(Step, s, Blocks(b, BLOCK, Read)), Read(Tail(a));
    StepInvertible();
    UnfoldFold(Step, Unstep, Ok, s, Blocks(a, BLOCK, Read));
    UnfoldFold(Step, Unstep, Ok, s, Blocks(b, BLOCK, Read));
    AbsorbTwice(x, t);
    AbsorbTwice(y, t);
    FinalizeBijective(Absorb(x, t), |a|);
    FinalizeBijective(Absorb(y, t), |a|);
  }

  /** Two keys of one length that differ only after the last whole block never share a digest. */
  lemma TailNeverCollides(a: seq<Byte>, b: seq<Byte>, s: Lanes)
    requires Ok(s) && |a| < 0x8000_0000 && DifferInTail(a, b, BLOCK)
    ensures Digest(a, s) != Digest(b, s)
  {
    var body := Fold(Step, s, Blocks(a, BLOCK, Read));
    SameBlocks(a, b, BLOCK, Read);
    TailsOf(a, b, BLOCK);
    StepInvertible();
    UnfoldFold(Step, Unstep, Ok, s, Blocks(a, BLOCK, Read));
    ReadSmall(Tail(a));
    ReadSmall(Tail(b));
    if Read(Tail(a)) == Read(Tail(b)) {
      ReadInjective(Tail(a), Tail(b));
    }
    AbsorbTellsTailsApart(body, Read(Tail(a)), Read(Tail(b)));
    AbsorbTwice(body, Read(Tail(a)));
    AbsorbTwice(body, Read(Tail(b)));
    FinalizeBijective(Absorb(body, Read(Tail(a))), |a|);
    FinalizeBijective(Absorb(body, Read(Tail(b))), |a|);
  }

  lemma AbsorbTellsTailsApart(s: Lanes, t: Keys, u: Keys)
    requires Small(t) && Small(u) && t != u
    ensures Absorb(s, t) != Absorb(s, u)
  {
    if Absorb(s, t) == Absorb(s, u) {
      XorLeft(s.h1, Mix1(t.k1));
      XorLeft(s.h1, Mix1(u.k1));
      Mix1Injective(t.k1, u.k1);
      XorLeft(s.h2, Mix2(t.k2));
      XorLeft(s.h2, Mix2(u.k2));
      Mix2Injective(t.k2, u.k2);
    }
  }

  // ---------- The function ----------

  method MixFirst(k: nat) returns (k1: nat)
    ensures k1 == Mix1(k)
  {
    k1 := Mul(64, k, C1);
    k1 := Rotl(64, k1, 31);
    k1 := Mul(64, k1, C2);
  }

  method MixSecond(k: nat) returns (k2: nat)
    ensures k2 == Mix2(k)
  {
    k2 := Mul(64, k, C2);
    k2 := Rotl(64, k2, 33);
    k2 := Mul(64, k2, C1);
  }

  /** The body of the block loop. */
  method Round(s1: nat, s2: nat, key1: nat, key2: nat) returns (h1: nat, h2: nat)
    ensures Lanes(h1, h2) == Step(Lanes(s1, s2), Keys(key1, key2))
  {
    h1, h2 := s1, s2;
    var k1 := MixFirst(key1);
    h1 := Xor(h1, k1);
    h1 := Rotl(64, h1, 27);
    h1 := Add(64, h1, h2);
    h1 := Add(64, Mul(64, h1, 5), 0x52dce729);
    var k2 := MixSecond(key2);
    h2 := Xor(h2, k2);
    h2 := Rotl(64, h2, 31);
    h2 := Add(64, h2, h1);
    h2 := Add(64, Mul(64, h2, 5), 0x38495ab5);
  }

  /** getblock, twice. */
  method GetBlock(key: seq<Byte>, i: nat) returns (k1: nat, k2: nat)
    requires i < |key| / BLOCK
    ensures Keys(k1, k2) == Blocks(key, BLOCK, Read)[i]
  {
    BlockRead(key, BLOCK, Read, i);
    var block := key[BLOCK * i..BLOCK * i + BLOCK];
    assert block[0..8] == Piece(block, 0, 8) && block[8..16] == Piece(block, 8, 8);
    k1 := LittleEndian(block[0..8]);
    k2 := LittleEndian(block[8..16]);
  }

  method Body(key: seq<Byte>, seed: nat) returns (h1: nat, h2: nat)
    ensures Lanes(h1, h2) == Fold(Step, Lanes(seed, seed), Blocks(key, BLOCK, Read))
  {
    ghost var blocks, start := Blocks(key, BLOCK, Read), Lanes(seed, seed);
    ghost var done: seq<Keys> := [];
    var nblocks := |key| / BLOCK;
    h1, h2 := seed, seed;
    for i := 0 to nblocks
      invariant |done| == i && done <= blocks
      invariant Lanes(h1, h2) == Fold(Step, start, done)
    {
      var k1, k2 := GetBlock(key, i);
      ghost var k := Keys(k1, k2);
      FoldSnoc(Step, start, done, k);
      PrefixSnoc(done, blocks, k);
      done := done + [k];
      h1, h2 := Round(h1, h2, k1, k2);
    }
    assert done == blocks;
  }

  /** The switch over the tail: the second word if there are more than eight bytes, the first if any. */
  method AbsorbTail(tail: seq<Byte>, s1: nat, s2: nat) returns (h1: nat, h2: nat)
    ensures Lanes(h1, h2) == Absorb(Lanes(s1, s2), Read(tail))
  {
    h1, h2 := s1, s2;
    if |tail| > 8 {
      var k2 := TailWord(64, tail, 8, 8);
      k2 := MixSecond(k2);
      h2 := Xor(h2, k2);
    } else {
      MixZero(64, C2, 33, C1);
      XorZero(h2);
    }
    if |tail| > 0 {
      var k1 := TailWord(64, tail, 0, 8);
      k1 := MixFirst(k1);
      h1 := Xor(h1, k1);
    } else {
      MixZero(64, C1, 31, C2);
      XorZero(h1);
    }
  }

  /** MurmurHash3_x64_128. */
  method MurmurHash3(key: seq<Byte>, seed: nat) returns (out: (nat, nat))
    requires seed < Pow2(32) && |key| < 0x8000_0000
    ensures Lanes(out.0, out.1) == Digest(key, Lanes(seed, seed))
  {
    var h1, h2 := Body(key, seed);
    h1, h2 := AbsorbTail(key[|key| / BLOCK * BLOCK..], h1, h2);
    h1 := Xor(h1, |key|);
    h2 := Xor(h2, |key|);
    h1 := Add(64, h1, h2);
    h2 := Add(64, h2, h1);
    h1 := FinalMix64(h1);
    h2 := FinalMix64(h2);
    h1 := Add(64, h1, h2);
    h2 := Add(64, h2, h1);
    out := (h1, h2);
  }
}
