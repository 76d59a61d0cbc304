/** What the store of components/wilma/wilma.c holds after any sequence of operations, told from the sequence
    alone: the last one that concerns a station decides. */
module StationHistory {
  import opened Bytes
  import opened CStrings
  import opened StationStore

  /** The operation adds or removes the station with this key. */
  predicate Names(op: Operation, key: seq<Byte>) {
    (op.Add? && Padded(op.ssid, 32) == key) || (op.Remove? && Padded(op.ssid, 32) == key)
  }

  predicate NamesAt(ops: seq<Operation>, key: seq<Byte>, i: nat)
    requires i < |ops|
  {
    Names(ops[i], key)
  }

  predicate SetsAt(ops: seq<Operation>, key: seq<Byte>, i: nat)
    requires i < |ops|
  {
    ops[i].SetState? && ops[i].key == key
  }

  /** Operation i adds the station and none after it adds it again or removes it. */
  predicate AddedAt(ops: seq<Operation>, key: seq<Byte>, i: nat) {
    i < |ops| && ops[i].Add? && NamesAt(ops, key, i) && forall j :: i < j < |ops| ==> !NamesAt(ops, key, j)
  }

  ghost predicate Stored(ops: seq<Operation>, key: seq<Byte>) {
    exists i :: AddedAt(ops, key, i)
  }

  ghost predicate NothingStored(ops: seq<Operation>) {
    forall key :: !Stored(ops, key)
  }

  /** The 64 bytes of the field are the password, as far as the limit lets it, and zeros. */
  predicate Keeps(field: seq<Byte>, password: seq<Byte>, limit: nat) {
    |field| == 64 && forall k :: 0 <= k < 64 ==> field[k] == if k < |password| && k < limit then password[k] else 0
  }

  /** The state is the last one set since operation i, and 0 if none was. */
  predicate StateSince(ops: seq<Operation>, key: seq<Byte>, i: nat, state: Byte)
    requires i < |ops|
  {
    && ((forall j :: i < j < |ops| ==> !SetsAt(ops, key, j)) ==> state == 0)
    && forall j :: i < j < |ops| && SetsAt(ops, key, j) && LastSet(ops, key, j) ==> state == ops[j].state
  }

  predicate LastSet(ops: seq<Operation>, key: seq<Byte>, j: nat)
    requires j < |ops|
  {
    forall h :: j < h < |ops| ==> !SetsAt(ops, key, h)
  }

  /** What is stored since operation i: the password, cut at 32 bytes if the store was empty before, at 64
      otherwise, and the state. */
  ghost predicate AsAdded(ops: seq<Operation>, key: seq<Byte>, i: nat, c: Credentials)
    requires AddedAt(ops, key, i)
  {
    && Keeps(c.password, ops[i].password, if NothingStored(ops[..i]) then 32 else 64)
    && StateSince(ops, key, i, c.state)
  }

  ghost predicate Recorded(ops: seq<Operation>, key: seq<Byte>, m: Credentialed) {
    && (key in m <==> Stored(ops, key))
    && forall i :: AddedAt(ops, key, i) ==> key in m && AsAdded(ops, key, i, m[key])
  }

  /** An operation on another station changes nothing. */
  lemma OthersAreKept(m: Credentialed, op: Operation, key: seq<Byte>)
    requires !Names(op, key) && !(op.SetState? && op.key == key)
    ensures key in Apply(m, op) <==> key in m
    ensures key in m ==> Apply(m, op)[key] == m[key]
  {
  }

  // ---------- One more operation ----------

  lemma AddedBefore(ops: seq<Operation>, key: seq<Byte>, i: nat)
    requires ops != [] && !Names(Last(ops), key)
    ensures AddedAt(ops, key, i) <==> AddedAt(Front(ops), key, i)
  {
    var front := Front(ops);
    assert forall j :: 0 <= j < |front| ==> NamesAt(ops, key, j) == NamesAt(front, key, j);
    if AddedAt(front, key, i) {
      forall j | i < j < |ops| ensures !NamesAt(ops, key, j) {
        assert j < |front| ==> !NamesAt(front, key, j);
      }
    }
    if AddedAt(ops, key, i) {
      assert i != |ops| - 1;
    }
  }

  lemma StoredBefore(ops: seq<Operation>, key: seq<Byte>)
    requires ops != [] && !Names(Last(ops), key)
    ensures Stored(ops, key) <==> Stored(Front(ops), key)
  {
    if Stored(ops, key) {
      var i :| AddedAt(ops, key, i);
      AddedBefore(ops, key, i);
    }
    if Stored(Front(ops), key) {
      var i :| AddedAt(Front(ops), key, i);
      AddedBefore(ops, key, i);
    }
  }

  /** Nothing is added in front of an operation that names the station. */
  lemma NamedLast(ops: seq<Operation>, key: seq<Byte>, i: nat)
    requires ops != [] && Names(Last(ops), key)
    ensures AddedAt(ops, key, i) <==> i == |ops| - 1 && Last(ops).Add?
  {
    assert NamesAt(ops, key, |ops| - 1);
  }

  lemma StateKept(ops: seq<Operation>, key: seq<Byte>, i: nat, before: Byte, after: Byte)
    requires ops != [] && i < |ops| - 1 && StateSince(Front(ops), key, i, before)
    requires after == if SetsAt(ops, key, |ops| - 1) then Last(ops).state else before
    ensures StateSince(ops, key, i, after)
  {
    var front := Front(ops);
    assert forall j :: 0 <= j < |front| ==> SetsAt(ops, key, j) == SetsAt(front, key, j);
    if SetsAt(ops, key, |ops| - 1) {
      forall j | i < j < |ops| && SetsAt(ops, key, j) && LastSet(ops, key, j) ensures after == ops[j].state {
        assert j == |ops| - 1;
      }
    } else {
      forall j | i < j < |ops| && SetsAt(ops, key, j) && LastSet(ops, key, j) ensures after == ops[j].state {
        assert j < |front| && LastSet(front, key, j);
      }
    }
  }

  lemma RecordedAdd(ops: seq<Operation>, key: seq<Byte>, m: Credentialed)
    requires ops != [] && Last(ops).Add? && Names(Last(ops), key)
    requires m == map[] <==> NothingStored(Front(ops))
    ensures Recorded(ops, key, Apply(m, Last(ops)))
  {
    var after, n := Apply(m, Last(ops)), |ops| - 1;
    NamedLast(ops, key, n);
    assert ops[..n] == Front(ops);
    forall i | AddedAt(ops, key, i) ensures AsAdded(ops, key, i, after[key]) {
      NamedLast(ops, key, i);
    }
  }

  lemma RecordedRemove(ops: seq<Operation>, key: seq<Byte>, m: Credentialed)
    requires ops != [] && Last(ops).Remove? && Names(Last(ops), key)
    ensures Recorded(ops, key, Apply(m, Last(ops)))
  {
    forall i ensures !AddedAt(ops, key, i) {
      NamedLast(ops, key, i);
    }
  }

  lemma RecordedOther(ops: seq<Operation>, key: seq<Byte>, m: Credentialed)
    requires ops != [] && !Names(Last(ops), key) && Recorded(Front(ops), key, m)
    ensures Recorded(ops, key, Apply(m, Last(ops)))
  {
    var after := Apply(m, Last(ops));
    StoredBefore(ops, key);
    forall i: nat | AddedAt(ops, key, i) ensures key in after && AsAdded(ops, key, i, after[key]) {
      AddedBefore(ops, key, i);
      assert AsAdded(Front(ops), key, i, m[key]);
      assert ops[..i] == Front(ops)[..i];
      StateKept(ops, key, i, m[key].state, after[key].state);
    }
  }

  lemma EmptyMeansNothing(ops: seq<Operation>, m: Credentialed)
    requires forall key :: Recorded(ops, key, m)
    ensures m == map[] <==> NothingStored(ops)
  {
    if m != map[] {
      var key :| key in m;
      assert Recorded(ops, key, m) && Stored(ops, key);
    } else {
      forall key ensures !Stored(ops, key) {
        assert Recorded(ops, key, m);
      }
    }
  }

  /** After every sequence of operations on a new store, and for every station: it is stored exactly if the
      last operation that adds or removes it adds it; its password is the one of that operation, cut at 32
      bytes if nothing was stored then and at 64 otherwise; its state is the last one set since, or 0. */
  lemma {:induction false} HistoryDecides(ops: seq<Operation>, key: seq<Byte>)
    ensures Recorded(ops, key, ApplyAll(map[], ops))
    decreases |ops|
  {
    if ops != [] {
      var m := ApplyAll(map[], Front(ops));
      forall k ensures Recorded(Front(ops), k, m) {
        HistoryDecides(Front(ops), k);
      }
      EmptyMeansNothing(Front(ops), m);
      if !Names(Last(ops), key) {
        RecordedOther(ops, key, m);
      } else if Last(ops).Add? {
        RecordedAdd(ops, key, m);
      } else {
        RecordedRemove(ops, key, m);
      }
    }
  }
}
