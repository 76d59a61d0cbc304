/** MurmurHash3_x86_32 of components/wilma/murmur3.c: a bijection of its seed for every key, and no two
    keys that differ in one block, or only in the tail, share a hash. */
module Murmur3x86x32 {
  import opened Bytes
  import opened Words
  import opened Folding
  import opened Murmur3

  const C1: nat := 0xcc9e2d51
  const C2: nat := 0x1b873593

  function MixKey(k: nat): (m: nat)
    ensures m < Pow2(32)
  {
    Mix(32, k, C1, 15, C2)
  }

  function Step(h: nat, k: nat): nat {
    Lane(32, h, MixKey(k), 13, 0, 0xe6546b64)
  }

  function Unstep(h: nat, k: nat): nat {
    Unlane(32, h, MixKey(k), 13, 0, 0xe6546b64)
  }

  /** The body, the tail and the finalization. */
  function Hash(key: seq<Byte>, seed: nat): nat {
    Finish(key, Fold(Step, seed, Blocks(key, 4, LittleEndian)))
  }

  /** The bytes after the last whole block, mixed like a block. */
  function TailKey(key: seq<Byte>): (m: nat)
    ensures m < Pow2(32)
  {
    MixKey(Load(key[TailStart(|key|, 4)..], 0, 4))
  }

  function Finish(key: seq<Byte>, h: nat): nat {
    Fmix32(Xor(Xor(h, TailKey(key)), |key|))
  }

  function Unfinish(key: seq<Byte>, h: nat): nat {
    Xor(Xor(Unfmix32(h), |key|), TailKey(key))
  }

  /** The seed that gives `key` this hash. */
  function SeedOf(key: seq<Byte>, hash: nat): nat {
    Unfold(Unstep, Unfinish(key, hash), Blocks(key, 4, LittleEndian))
  }

  predicate Word(h: nat) {
    h < Pow2(32)
  }

  lemma StepInvertible()
    ensures Invertible(Step, Unstep, Word)
  {
    Pow2Words();
    forall h: nat, k: nat ensures InvertibleAt(Step, Unstep, Word, h, k) {
      if Word(h) {
        LaneBack(32, h, MixKey(k), 13, 0, 0xe6546b64);
        LaneForth(32, h, MixKey(k), 13, 0, 0xe6546b64);
      }
    }
  }

  lemma OddConstants()
    ensures C1 * 0xdee13bb1 % Pow2(32) == 1 && C2 * 0x56ed309b % Pow2(32) == 1
  {
    Pow2Words();
  }

  lemma MixKeyInjective(k: nat, l: nat)
    requires Word(k) && Word(l)
    ensures MixKey(k) == MixKey(l) ==> k == l
  {
    OddConstants();
    MixInjective(32, k, l, C1, 0xdee13bb1, 15, C2, 0x56ed309b);
  }

  /** The statements that mix a key word taken back one by one. */
  lemma MixUndone(k: nat)
    requires Word(k)
    ensures Mul(32, Rotl(32, Mul(32, MixKey(k), 0x56ed309b), 17), 0xdee13bb1) == k
  {
    OddConstants();
    Unmix(32, k, C1, 0xdee13bb1, 15, C2, 0x56ed309b);
  }

  /** The statements after that taken back up to the exclusive or. */
  lemma StepUndone(h: nat, k: nat)
    requires Word(h)
    ensures Rotl(32, Mul(32, Sub(32, Step(h, k), 0xe6546b64), 0xcccccccd), 19) == Xor(h, MixKey(k))
  {
    Pow2Words();
    LaneShowsXor(32, h, MixKey(k), 13, 0, 0xe6546b64);
    SubZero(32, Mul(32, Sub(32, Step(h, k), 0xe6546b64), 0xcccccccd));
  }

  /** The finalization taken back: what is left is the body and the mixed tail bytes. */
  lemma FinishUndone(key: seq<Byte>, h: nat)
    requires Word(h) && |key| < 0x8000_0000
    ensures var a := XorUnshift(Finish(key, h), 16);
            var b := XorUnshift(Mul(32, a, 0x7ed1b41d), 13);
            var x := XorUnshift(Mul(32, b, 0xa5cb9243), 16);
            x == Xor(Xor(h, MixKey(LittleEndian(key[|key| / 4 * 4..]))), |key|)
  {
    Pow2Words();
    var m := TailKey(key);
    XorBound(32, h, m);
    XorBound(32, Xor(h, m), |key|);
    Fmix32Undone(Xor(Xor(h, m), |key|));
    assert Piece(key[|key| / 4 * 4..], 0, 4) == key[|key| / 4 * 4..];
  }

  /** The first block is the first that is mixed in. */
  lemma FirstBlockFirst(key: seq<Byte>, h: nat)
    requires |key| >= 4
    ensures Fold(Step, h, Blocks(key, 4, LittleEndian)) ==
            Fold(Step, Step(h, Weighted(key[0], key[1], key[2], key[3])), Blocks(key[4..], 4, LittleEndian))
  {
    var first, rest := LittleEndian(key[..4]), Blocks(key[4..], 4, LittleEndian);
    FourBytes(key[..4]);
    BlocksPeel(key, 4, LittleEndian);
    FoldCons(Step, h, first, rest);
  }

  lemma FinishBijective(key: seq<Byte>, h: nat)
    requires Word(h) && |key| < 0x8000_0000
    ensures Word(Finish(key, h)) && Word(Unfinish(key, h))
    ensures Unfinish(key, Finish(key, h)) == h && Finish(key, Unfinish(key, h)) == h
  {
    Pow2Words();
    var m := TailKey(key);
    XorBound(32, h, m);
    XorBound(32, Xor(h, m), |key|);
    Fmix32Bijective(Xor(Xor(h, m), |key|));
    XorTwice(Xor(h, m), |key|);
    XorTwice(h, m);
    Fmix32Bijective(h);
    XorBound(32, Unfmix32(h), |key|);
    XorBound(32, Xor(Unfmix32(h), |key|), m);
    XorTwice(Xor(Unfmix32(h), |key|), m);
    XorTwice(Unfmix32(h), |key|);
  }

  /** For every key the hash is a bijection of the 32-bit seed. */
  lemma SeedBijective(key: seq<Byte>, x: nat)
    requires Word(x) && |key| < 0x8000_0000
    ensures Word(Hash(key, x)) && Word(SeedOf(key, x))
    ensures SeedOf(key, Hash(key, x)) == x && Hash(key, SeedOf(key, x)) == x
  {
    var blocks := Blocks(key, 4, LittleEndian);
    StepInvertible();
    UnfoldFold(Step, Unstep, Word, x, blocks);
    FinishBijective(key, Fold(Step, x, blocks));
    FinishBijective(key, x);
    FoldUnfold(Step, Unstep, Word, Unfinish(key, x), blocks);
  }

  /** Two keys of one length that differ in one 4-byte block alone never share a hash. */
  lemma OneBlockNeverCollides(a: seq<Byte>, b: seq<Byte>, i: nat, seed: nat)
    requires Word(seed) && |a| < 0x8000_0000 && DifferInBlock(a, b, 4, i)
    ensures Hash(a, seed) != Hash(b, seed)
  {
    var x, y := Fold(Step, seed, Blocks(a, 4, LittleEndian)), Fold(Step, seed, Blocks(b, 4, LittleEndian));
    BlockFits(|a|, 4, i);
    var k, l := LittleEndian(BlockAt(a, 4, i)), LittleEndian(BlockAt(b, 4, i));
    BlocksDiffer(a, b, 4, i);
    LittleEndianDiffers(BlockAt(a, 4, i), BlockAt(b, 4, i));
    StepInvertible();
    forall t | Word(t) ensures Step(t, k) != Step(t, l) {
      StepTellsKeysApart(t, k, l);
    }
    OneBlockDiffers(Step, Unstep, Word, seed, a, b, 4, LittleEndian, i);
    UnfoldFold(Step, Unstep, Word, seed, Blocks(a, 4, LittleEndian));
    UnfoldFold(Step, Unstep, Word, seed, Blocks(b, 4, LittleEndian));
    SameTail(a, b, 4, i);
    FinishBijective(a, x);
    FinishBijective(b, y);
  }

  lemma StepTellsKeysApart(t: nat, k: nat, l: nat)
    requires Word(t) && Word(k) && Word(l) && k != l
    ensures Step(t, k) != Step(t, l)
  {
    Pow2Words();
    if Step(t, k) == Step(t, l) {
      LaneInjectiveInKey(32, t, MixKey(k), MixKey(l), 13, 0, 0xe6546b64);
      MixKeyInjective(k, l);
    }
  }

  lemma LittleEndianDiffers(a: seq<Byte>, b: seq<Byte>)
    requires |a| == |b| == 4 && a != b
    ensures Word(LittleEndian(a)) && Word(LittleEndian(b)) && LittleEndian(a) != LittleEndian(b)
  {
    Pow2Words();
    if LittleEndian(a) == LittleEndian(b) {
      LittleEndianInjective(a, b);
    }
  }

  /** Two keys of one length that differ only after the last whole block never share a hash. */
  lemma TailNeverCollides(a: seq<Byte>, b: seq<Byte>, seed: nat)
    requires Word(seed) && |a| < 0x8000_0000 && DifferInTail(a, b, 4)
    ensures Hash(a, seed) != Hash(b, seed)
  {
    var blocks := Blocks(a, 4, LittleEndian);
    var s, t := a[TailStart(|a|, 4)..], b[TailStart(|b|, 4)..];
    SameBlocks(a, b, 4, LittleEndian);
    TailsOf(a, b, 4);
    StepInvertible();
    UnfoldFold(Step, Unstep, Word, seed, blocks);
    TailsDiffer(s, t);
    FinishTellsTailsApart(a, b, Fold(Step, seed, blocks));
  }

  lemma TailsDiffer(s: seq<Byte>, t: seq<Byte>)
    requires |s| == |t| < 4 && s != t
    ensures MixKey(Load(s, 0, 4)) != MixKey(Load(t, 0, 4))
  {
    Pow2Words();
    LoadBound(s, 0, 4);
    LoadBound(t, 0, 4);
    if MixKey(Load(s, 0, 4)) == MixKey(Load(t, 0, 4)) {
      MixKeyInjective(Load(s, 0, 4), Load(t, 0, 4));
      LittleEndianInjective(s, t);
    }
  }

  lemma FinishTellsTailsApart(a: seq<Byte>, b: seq<Byte>, h: nat)
    requires |a| == |b| < 0x8000_0000 && Word(h)
    ensures TailKey(a) != TailKey(b) ==> Finish(a, h) != Finish(b, h)
  {
    FinishBijective(a, h);
    FinishBijective(b, h);
    if Finish(a, h) == Finish(b, h) {
      var x := Xor(Unfmix32(Finish(a, h)), |a|);
      XorLeft(x, TailKey(a));
      XorLeft(x, TailKey(b));
    }
  }

  /** The body of the block loop. */
  method Round(h: nat, k: nat) returns (h1: nat)
    requires Word(h)
    ensures h1 == Step(h, k) && Word(h1)
  {
    var k1 := MixWord(k);
    h1 := Xor(h, k1);
    h1 := Rotl(32, h1, 13);
    XorBound(32, h, k1);
    RotlBack(32, Xor(h, k1), 13);
    AddZero(32, h1);
    h1 := Add(32, Mul(32, h1, 5), 0xe6546b64);
  }

  method MixWord(k: nat) returns (k1: nat)
    ensures k1 == MixKey(k)
  {
    k1 := Mul(32, k, C1);
    k1 := Rotl(32, k1, 15);
    k1 := Mul(32, k1, C2);
  }

  /** The loop over the blocks, with its index running from -nblocks up to zero. */
  method Body(key: seq<Byte>, seed: nat) returns (h1: nat)
    requires Word(seed)
    ensures Word(h1) && h1 == Fold(Step, seed, Blocks(key, 4, LittleEndian))
  {
    ghost var blocks := Blocks(key, 4, LittleEndian);
    ghost var done: seq<nat> := [];
    var nblocks: int := |key| / 4;
    h1 := seed;
    var i: int := -nblocks;
    while i != 0
      invariant -nblocks <= i <= 0 && |done| == nblocks + i && done <= blocks
      invariant Word(h1) && h1 == Fold(Step, seed, done)
    {
      var k1 := GetBlock(key, nblocks + i);
      FoldSnoc(Step, seed, done, k1);
      PrefixSnoc(done, blocks, k1);
      done := done + [k1];
      h1 := Round(h1, k1);
      i := i + 1;
    }
    assert done == blocks;
  }

  /** getblock. */
  method GetBlock(key: seq<Byte>, i: nat) returns (k: nat)
    requires i < |key| / 4
    ensures k == Blocks(key, 4, LittleEndian)[i]
  {
    BlockRead(key, 4, LittleEndian, i);
    k := LittleEndian(key[4 * i..4 * i + 4]);
  }

  /** MurmurHash3_x86_32. */
  method MurmurHash3(key: seq<Byte>, seed: nat) returns (out: nat)
    requires Word(seed) && |key| < 0x8000_0000
    ensures out == Hash(key, seed) == Finish(key, Fold(Step, seed, Blocks(key, 4, LittleEndian)))
  {
    var h1 := Body(key, seed);
    var tail := key[|key| / 4 * 4..];
    if |key| % 4 != 0 {
      var k1 := TailWord(32, tail, 0, 4);
      k1 := MixWord(k1);
      h1 := Xor(h1, k1);
    } else {
      NoTail(tail);
      XorZero(h1);
    }
    h1 := Xor(h1, |key|);
    out := FinalMix32(h1);
  }

  /** Without tail bytes the missing word mixes to zero. */
  lemma NoTail(tail: seq<Byte>)
    requires tail == []
    ensures MixKey(Load(tail, 0, 4)) == 0
  {
    MixZero(32, C1, 15, C2);
  }
}
