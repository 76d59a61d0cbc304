/** Iterating an invertible step over a list of keys: the shape of every hash body. */
module Folding {
  import opened Bytes
  import Words

  function Fold<S, K>(step: (S, K) -> S, s: S, keys: seq<K>): S {
    if keys == [] then s else step(Fold(step, s, Front(keys)), Last(keys))
  }

  /** The way back, last key first. */
  function Unfold<S, K>(unstep: (S, K) -> S, s: S, keys: seq<K>): S {
    if keys == [] then s else Unfold(unstep, unstep(s, Last(keys)), Front(keys))
  }

  /** For every key, `step` is a bijection of the states that are `ok`, with inverse `unstep`. */
  ghost predicate Invertible<S(!new), K(!new)>(step: (S, K) -> S, unstep: (S, K) -> S, ok: S -> bool) {
    forall s, k :: InvertibleAt(step, unstep, ok, s, k)
  }

  predicate InvertibleAt<S(==), K>(step: (S, K) -> S, unstep: (S, K) -> S, ok: S -> bool, s: S, k: K) {
    ok(s) ==>
      ok(step(s, k)) && ok(unstep(s, k)) && unstep(step(s, k), k) == s && step(unstep(s, k), k) == s
  }

  lemma {:induction false} UnfoldFold<S(!new), K(!new)>(
    step: (S, K) -> S, unstep: (S, K) -> S, ok: S -> bool, s: S, keys: seq<K>)
    requires Invertible(step, unstep, ok) && ok(s)
    ensures ok(Fold(step, s, keys)) && Unfold(unstep, Fold(step, s, keys), keys) == s
    decreases |keys|
  {
    if keys != [] {
      UnfoldFold(step, unstep, ok, s, Front(keys));
      assert InvertibleAt(step, unstep, ok, Fold(step, s, Front(keys)), Last(keys));
    }
  }

  lemma {:induction false} FoldUnfold<S(!new), K(!new)>(
    step: (S, K) -> S, unstep: (S, K) -> S, ok: S -> bool, s: S, keys: seq<K>)
    requires Invertible(step, unstep, ok) && ok(s)
    ensures ok(Unfold(unstep, s, keys)) && Fold(step, Unfold(unstep, s, keys), keys) == s
    decreases |keys|
  {
    if keys != [] {
      assert InvertibleAt(step, unstep, ok, s, Last(keys));
      FoldUnfold(step, unstep, ok, unstep(s, Last(keys)), Front(keys));
    }
  }

  lemma {:induction false} FoldConcat<S, K>(step: (S, K) -> S, s: S, a: seq<K>, b: seq<K>)
    ensures Fold(step, s, a + b) == Fold(step, Fold(step, s, a), b)
    decreases |b|
  {
    if b == [] {
      assert a + b == a;
    } else {
      FoldConcat(step, s, a, Front(b));
      assert Front(a + b) == a + Front(b) && Last(a + b) == Last(b);
    }
  }

  /** The first key is the first that counts. */
  lemma FoldCons<S, K>(step: (S, K) -> S, s: S, k: K, rest: seq<K>)
    ensures Fold(step, s, [k] + rest) == Fold(step, step(s, k), rest)
  {
    FoldConcat(step, s, [k], rest);
    assert Front([k]) == [];
  }

  lemma FoldSnoc<S, K>(step: (S, K) -> S, s: S, keys: seq<K>, k: K)
    ensures Fold(step, s, keys + [k]) == step(Fold(step, s, keys), k)
  {
    assert Front(keys + [k]) == keys;
  }

  lemma PrefixSnoc<K>(done: seq<K>, keys: seq<K>, k: K)
    requires |done| < |keys| && done <= keys && k == keys[|done|]
    ensures done + [k] <= keys
  {
  }

  /** Two lists of keys that differ in one place lead to different states, whatever the other keys are. */
  lemma {:induction false} OneKeyDiffers<S(!new), K(!new)>(
    step: (S, K) -> S, unstep: (S, K) -> S, ok: S -> bool, s: S, before: seq<K>, k: K, l: K, after: seq<K>)
    requires Invertible(step, unstep, ok) && ok(s)
    requires forall t :: ok(t) ==> step(t, k) != step(t, l)
    ensures Fold(step, s, before + [k] + after) != Fold(step, s, before + [l] + after)
  {
    var t := Fold(step, s, before);
    var x, y := step(t, k), step(t, l);
    UnfoldFold(step, unstep, ok, s, before);
    assert x != y;
    assert InvertibleAt(step, unstep, ok, t, k) && InvertibleAt(step, unstep, ok, t, l);
    FoldConcat(step, s, before + [k], after);
    FoldConcat(step, s, before + [l], after);
    assert Front(before + [k]) == before && Front(before + [l]) == before;
    UnfoldFold(step, unstep, ok, x, after);
    UnfoldFold(step, unstep, ok, y, after);
  }

  // ---------- Keys read from a byte string, block by block ----------

  function BlockAt(key: seq<Byte>, size: nat, i: nat): seq<Byte>
    requires size * i + size <= |key|
  {
    key[size * i..size * i + size]
  }

  lemma BlockFits(length: nat, size: nat, i: nat)
    requires size > 0 && i < length / size
    ensures size * i + size <= length
  {
    var n := length / size;
    assert size * n <= length;
    assert size * (n - 1 - i) >= 0;
    assert size * n == size * (n - 1 - i) + (size * i + size);
  }

  function Blocks<K>(key: seq<Byte>, size: nat, read: seq<Byte> -> K): (r: seq<K>)
    requires size > 0
    ensures |r| == |key| / size
  {
    seq(|key| / size, i requires 0 <= i < |key| / size => (BlockFits(|key|, size, i); read(BlockAt(key, size, i))))
  }

  lemma BlockRead<K>(key: seq<Byte>, size: nat, read: seq<Byte> -> K, i: nat)
    requires size > 0 && i < |key| / size
    ensures size * i + size <= |key|
    ensures Blocks(key, size, read)[i] == read(key[size * i..size * i + size])
  {
    BlockFits(|key|, size, i);
    assert BlockAt(key, size, i) == key[size * i..size * i + size];
  }

  /** The first block and the blocks of the rest. */
  lemma BlocksPeel<K>(key: seq<Byte>, size: nat, read: seq<Byte> -> K)
    requires 0 < size <= |key|
    ensures Blocks(key, size, read) == [read(key[..size])] + Blocks(key[size..], size, read)
  {
    var all, rest := Blocks(key, size, read), Blocks(key[size..], size, read);
    FewerBlocks(|key|, size);
    forall i | 0 <= i < |all| ensures all[i] == ([read(key[..size])] + rest)[i] {
      BlockRead(key, size, read, i);
      if i == 0 {
        assert key[size * 0..size * 0 + size] == key[..size];
      } else {
        BlockRead(key[size..], size, read, i - 1);
        assert size * i == size * (i - 1) + size;
        assert key[size..][size * (i - 1)..size * (i - 1) + size] == key[size * i..size * i + size];
      }
    }
  }

  lemma FewerBlocks(length: nat, size: nat)
    requires 0 < size <= length
    ensures length / size == (length - size) / size + 1
  {
    var q, r := (length - size) / size, (length - size) % size;
    Words.Distribute(q, 1, size);
    Words.DivUnique(length, size, q + 1, r);
  }

  /** Two byte strings of one length that differ in block i alone. */
  predicate DifferInBlock(a: seq<Byte>, b: seq<Byte>, size: nat, i: nat)
    requires size > 0
  {
    && |a| == |b| && i < |a| / size
    && a != b
    && (BlockFits(|a|, size, i); forall p :: 0 <= p < |a| && !(size * i <= p < size * i + size) ==> a[p] == b[p])
  }

  lemma BlocksApart(size: nat, i: nat, j: nat)
    requires i < j
    ensures size * i + size <= size * j
  {
    assert size * (j - i - 1) >= 0;
    assert size * j == size * (j - i - 1) + size * (i + 1);
  }

  lemma OtherBlocksAgree(a: seq<Byte>, b: seq<Byte>, size: nat, i: nat, j: nat)
    requires size > 0 && DifferInBlock(a, b, size, i) && j < |a| / size && i != j
    ensures size * j + size <= |a| && BlockAt(a, size, j) == BlockAt(b, size, j)
  {
    BlockFits(|a|, size, j);
    if j < i {
      BlocksApart(size, j, i);
    } else {
      BlocksApart(size, i, j);
    }
    AgreeingSlices(a, b, size * j, size * j + size);
  }

  lemma AgreeingSlices(a: seq<Byte>, b: seq<Byte>, low: nat, high: nat)
    requires low <= high <= |a| == |b| && forall p :: low <= p < high ==> a[p] == b[p]
    ensures a[low..high] == b[low..high]
  {
  }

  /** If block i alone differs, and the step tells its two readings apart, the final states differ. */
  lemma OneBlockDiffers<S(!new), K(!new)>(
    step: (S, K) -> S, unstep: (S, K) -> S, ok: S -> bool, s: S,
    a: seq<Byte>, b: seq<Byte>, size: nat, read: seq<Byte> -> K, i: nat)
    requires Invertible(step, unstep, ok) && ok(s)
    requires size > 0 && DifferInBlock(a, b, size, i)
    requires size * i + size <= |a|
    requires forall t :: ok(t) ==> step(t, read(BlockAt(a, size, i))) != step(t, read(BlockAt(b, size, i)))
    ensures Fold(step, s, Blocks(a, size, read)) != Fold(step, s, Blocks(b, size, read))
  {
    var x, y := Blocks(a, size, read), Blocks(b, size, read);
    forall j | 0 <= j < |x| && j != i ensures x[j] == y[j] {
      OtherBlocksAgree(a, b, size, i, j);
    }
    assert x == x[..i] + [x[i]] + x[i + 1..];
    assert y == x[..i] + [y[i]] + x[i + 1..];
    OneKeyDiffers(step, unstep, ok, s, x[..i], x[i], y[i], x[i + 1..]);
  }

  /** The blocks that differ. */
  lemma BlocksDiffer(a: seq<Byte>, b: seq<Byte>, size: nat, i: nat)
    requires size > 0 && DifferInBlock(a, b, size, i) && size * i + size <= |a|
    ensures BlockAt(a, size, i) != BlockAt(b, size, i)
  {
    var p :| 0 <= p < |a| && a[p] != b[p];
    assert a[p] == BlockAt(a, size, i)[p - size * i] && b[p] == BlockAt(b, size, i)[p - size * i];
  }

  /** Where the bytes after the last whole block begin. */
  function TailStart(length: nat, size: nat): (r: nat)
    requires size > 0
    ensures r <= length
  {
    length / size * size
  }

  lemma SameTail(a: seq<Byte>, b: seq<Byte>, size: nat, i: nat)
    requires size > 0 && DifferInBlock(a, b, size, i)
    ensures a[TailStart(|a|, size)..] == b[TailStart(|a|, size)..]
  {
    BlocksApart(size, i, |a| / size);
    AgreeingSlices(a, b, TailStart(|a|, size), |a|);
  }

  /** Two byte strings of one length that differ after the last whole block alone. */
  predicate DifferInTail(a: seq<Byte>, b: seq<Byte>, size: nat)
    requires size > 0
  {
    |a| == |b| && a[..TailStart(|a|, size)] == b[..TailStart(|a|, size)] && a != b
  }

  lemma SameBlock(a: seq<Byte>, b: seq<Byte>, size: nat, i: nat)
    requires size > 0 && DifferInTail(a, b, size) && i < |a| / size
    ensures size * i + size <= |a| && BlockAt(a, size, i) == BlockAt(b, size, i)
  {
    var at := TailStart(|a|, size);
    BlocksApart(size, i, |a| / size);
    forall p | 0 <= p < at ensures a[p] == b[p] {
      assert a[p] == a[..at][p] && b[p] == b[..at][p];
    }
    AgreeingSlices(a, b, size * i, size * i + size);
  }

  lemma SameBlocks<K>(a: seq<Byte>, b: seq<Byte>, size: nat, read: seq<Byte> -> K)
    requires size > 0 && DifferInTail(a, b, size)
    ensures Blocks(a, size, read) == Blocks(b, size, read)
  {
    forall i | 0 <= i < |a| / size ensures Blocks(a, size, read)[i] == Blocks(b, size, read)[i] {
      SameBlock(a, b, size, i);
    }
  }

  lemma TailsOf(a: seq<Byte>, b: seq<Byte>, size: nat)
    requires size > 0 && DifferInTail(a, b, size)
    ensures a[TailStart(|a|, size)..] != b[TailStart(|a|, size)..]
  {
    var at := TailStart(|a|, size);
    assert a == a[..at] + a[at..] && b == b[..at] + b[at..];
  }
}
