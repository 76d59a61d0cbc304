/** The saved stations of components/wilma/wilma.c: an array in non-volatile storage that behaves as a
    map from SSIDs to credentials. */
module StationStore {
  import opened Bytes
  import opened CStrings

  const SSID_SIZE: nat := 32
  const PASSWORD_SIZE: nat := 64

  const STATE_NEW: Byte := 0

  /** WilmaNvsStationEntry. */
  datatype Station = Station(version: Byte, state: Byte, ssid: seq<Byte>, password: seq<Byte>)

  datatype Credentials = Credentials(password: seq<Byte>, state: Byte)

  type Credentialed = map<seq<Byte>, Credentials>

  // ---------- Fixed fields ----------

  function Zeros(n: nat): (r: seq<Byte>)
    ensures |r| == n
  {
    seq(n, _ => 0)
  }

  /** A C string copied into a zeroed field of n bytes: cut off or zero-padded. */
  function Padded(s: seq<Byte>, n: nat): (r: seq<Byte>)
    ensures |r| == n
  {
    Limited(s, n) + Zeros(n - |Limited(s, n)|)
  }

  predicate NulFree(s: seq<Byte>) {
    0 !in s
  }

  lemma {:induction false} CStringOfPadding(s: seq<Byte>, n: nat)
    requires NulFree(s)
    ensures CString(s + Zeros(n)) == s
    decreases |s|
  {
    if s != [] {
      assert (s + Zeros(n))[1..] == s[1..] + Zeros(n);
      assert s[0] in s;
      CStringOfPadding(s[1..], n);
    }
  }

  lemma LimitedNulFree(s: seq<Byte>, n: nat)
    requires NulFree(s)
    ensures NulFree(Limited(s, n)) && CString(Padded(s, n)) == Limited(s, n)
  {
    CStringOfPadding(Limited(s, n), n - |Limited(s, n)|);
  }

  /** A field holds nothing but a string and its padding. */
  predicate Canonical(field: seq<Byte>) {
    |field| == SSID_SIZE && field == Padded(CString(field), SSID_SIZE)
  }

  lemma PaddedIsCanonical(s: seq<Byte>)
    requires NulFree(s)
    ensures Canonical(Padded(s, SSID_SIZE))
  {
    LimitedNulFree(s, SSID_SIZE);
  }

  /** On canonical fields strncmp finds exactly the padded string. */
  lemma StrncmpFindsKey(field: seq<Byte>, s: seq<Byte>)
    requires Canonical(field) && NulFree(s)
    ensures Strncmp(field, s, SSID_SIZE) == 0 <==> field == Padded(s, SSID_SIZE)
  {
    var short := Limited(s, SSID_SIZE);
    LimitedNulFree(s, SSID_SIZE);
    LimitedNulFree(short, |short|);
    StrcmpZero(field, short);
    CStringOfPadding(short, 0);
    assert short + Zeros(0) == short;
  }

  // ---------- The array and the map ----------

  predicate WellFormed(s: Station) {
    Canonical(s.ssid) && |s.password| == PASSWORD_SIZE
  }

  predicate Distinct(entries: seq<Station>) {
    forall i, j :: 0 <= i < j < |entries| ==> entries[i].ssid != entries[j].ssid
  }

  predicate ValidEntries(entries: seq<Station>) {
    (forall i :: 0 <= i < |entries| ==> WellFormed(entries[i])) && Distinct(entries)
  }

  function CredentialsOf(s: Station): Credentials {
    Credentials(s.password, s.state)
  }

  /** The map an array stands for. */
  function View(entries: seq<Station>): Credentialed {
    if entries == [] then map[] else View(Front(entries))[Last(entries).ssid := CredentialsOf(Last(entries))]
  }

  lemma {:induction false} ViewKeys(entries: seq<Station>, key: seq<Byte>)
    ensures key in View(entries) <==> exists i :: 0 <= i < |entries| && entries[i].ssid == key
    decreases |entries|
  {
    if entries != [] {
      ViewKeys(Front(entries), key);
      if key in View(Front(entries)) {
        var i :| 0 <= i < |entries| - 1 && Front(entries)[i].ssid == key;
        assert entries[i].ssid == key;
      } else if key == Last(entries).ssid {
        assert entries[|entries| - 1].ssid == key;
      } else {
        forall i | 0 <= i < |entries| ensures entries[i].ssid != key {
          assert i < |entries| - 1 ==> Front(entries)[i] == entries[i];
        }
      }
    }
  }

  lemma {:induction false} ViewValue(entries: seq<Station>, i: nat)
    requires i < |entries| && Distinct(entries)
    ensures entries[i].ssid in View(entries) && View(entries)[entries[i].ssid] == CredentialsOf(entries[i])
    decreases |entries|
  {
    if i < |entries| - 1 {
      ViewValue(Front(entries), i);
    }
  }

  /** Two arrays with the same entries, wherever they are, stand for the same map. */
  lemma SameEntriesSameView(a: seq<Station>, b: seq<Station>)
    requires Distinct(a) && Distinct(b)
    requires forall e :: e in a <==> e in b
    ensures View(a) == View(b)
  {
    forall key ensures key in View(a) <==> key in View(b) {
      ViewKeys(a, key);
      ViewKeys(b, key);
      if key in View(a) {
        var i :| 0 <= i < |a| && a[i].ssid == key;
        assert a[i] in b;
      }
      if key in View(b) {
        var i :| 0 <= i < |b| && b[i].ssid == key;
        assert b[i] in a;
      }
    }
    forall key | key in View(a) ensures View(a)[key] == View(b)[key] {
      ViewKeys(a, key);
      var i :| 0 <= i < |a| && a[i].ssid == key;
      ViewValue(a, i);
      assert a[i] in b;
      var j :| 0 <= j < |b| && b[j] == a[i];
      ViewValue(b, j);
    }
  }

  /** Replacing an entry by one with the same key is a map update. */
  lemma {:induction false} ViewUpdate(entries: seq<Station>, i: nat, s: Station)
    requires i < |entries| && ValidEntries(entries) && WellFormed(s) && s.ssid == entries[i].ssid
    ensures View(entries[i := s]) == View(entries)[s.ssid := CredentialsOf(s)]
    decreases |entries|
  {
    UpdateKeepsValid(entries, i, s);
    if i == |entries| - 1 {
      assert Front(entries[i := s]) == Front(entries);
    } else {
      assert Front(entries[i := s]) == Front(entries)[i := s];
      FrontIsValid(entries);
      ViewUpdate(Front(entries), i, s);
      assert entries[i].ssid != Last(entries).ssid;
    }
  }

  lemma UpdateKeepsValid(entries: seq<Station>, i: nat, s: Station)
    requires i < |entries| && ValidEntries(entries) && WellFormed(s) && s.ssid == entries[i].ssid
    ensures ValidEntries(entries[i := s])
  {
  }

  lemma FrontIsValid(entries: seq<Station>)
    requires entries != [] && ValidEntries(entries)
    ensures ValidEntries(Front(entries))
  {
  }

  /** Dropping the last entry of an array is map deletion. */
  lemma ViewDropLast(entries: seq<Station>)
    requires entries != [] && Distinct(entries)
    ensures View(Front(entries)) == View(entries) - {Last(entries).ssid}
  {
    var key := Last(entries).ssid;
    ViewKeys(Front(entries), key);
    assert key !in View(Front(entries));
  }

  function MoveLastTo(entries: seq<Station>, i: nat): seq<Station>
    requires i < |entries|
  {
    Front(entries[i := Last(entries)])
  }

  /** Entry i and the last one, exchanged. */
  function Swapped(entries: seq<Station>, i: nat): (r: seq<Station>)
    requires i < |entries|
    ensures |r| == |entries|
  {
    entries[i := Last(entries)][|entries| - 1 := entries[i]]
  }

  lemma SwapKeepsEntries(entries: seq<Station>, i: nat)
    requires i < |entries| && ValidEntries(entries)
    ensures ValidEntries(Swapped(entries, i))
    ensures forall e :: e in entries <==> e in Swapped(entries, i)
  {
    var n, t := |entries| - 1, Swapped(entries, i);
    assert forall j :: 0 <= j <= n ==> t[j] == entries[if j == i then n else if j == n then i else j];
    forall e | e in entries ensures e in t {
      var j :| 0 <= j <= n && entries[j] == e;
      assert t[if j == i then n else if j == n then i else j] == e;
    }
  }

  /** Swap-with-last removal is map deletion. */
  lemma ViewRemove(entries: seq<Station>, i: nat)
    requires i < |entries| && ValidEntries(entries)
    ensures ValidEntries(MoveLastTo(entries, i))
    ensures View(MoveLastTo(entries, i)) == View(entries) - {entries[i].ssid}
  {
    var t := Swapped(entries, i);
    SwapKeepsEntries(entries, i);
    SameEntriesSameView(entries, t);
    ViewDropLast(t);
    FrontIsValid(t);
    assert Front(t) == MoveLastTo(entries, i);
  }

  // ---------- The store ----------

  /** A change to the saved stations. */
  datatype Operation =
    | Add(ssid: seq<Byte>, password: seq<Byte>)
    | Remove(ssid: seq<Byte>)
    | SetState(key: seq<Byte>, state: Byte)

  predicate Legal(op: Operation) {
    match op
    case Add(ssid, password) => NulFree(ssid) && NulFree(password)
    case Remove(ssid) => NulFree(ssid)
    case SetState(key, _) => |key| == SSID_SIZE
  }

  /** What an operation means for the map. */
  function Apply(m: Credentialed, op: Operation): Credentialed {
    match op
    case Add(ssid, password) =>
      var kept := if m == map[] then Limited(password, SSID_SIZE) else password;
      m[Padded(ssid, SSID_SIZE) := Credentials(Padded(kept, PASSWORD_SIZE), STATE_NEW)]
    case Remove(ssid) => m - {Padded(ssid, SSID_SIZE)}
    case SetState(key, state) => if key in m then m[key := m[key].(state := state)] else m
  }

  /** The password a station has after it was added. */
  function StoredPassword(m: Credentialed, ssid: seq<Byte>, password: seq<Byte>): seq<Byte> {
    CString(Apply(m, Add(ssid, password))[Padded(ssid, SSID_SIZE)].password)
  }

  /** The stored password is the given one exactly if it fits: 64 bytes, but only 32 if the store was
      empty. */
  lemma PasswordKept(m: Credentialed, ssid: seq<Byte>, password: seq<Byte>)
    requires NulFree(password)
    ensures StoredPassword(m, ssid, password) == password <==>
            |password| <= if m == map[] then SSID_SIZE else PASSWORD_SIZE
  {
    LimitedNulFree(password, PASSWORD_SIZE);
    LimitedNulFree(password, SSID_SIZE);
    LimitedNulFree(Limited(password, SSID_SIZE), PASSWORD_SIZE);
  }

  function ApplyAll(m: Credentialed, ops: seq<Operation>): Credentialed {
    if ops == [] then m else Apply(ApplyAll(m, Front(ops)), Last(ops))
  }

  /** The blob in non-volatile storage; no entries and no blob are the same. */
  class Store {
    var entries: seq<Station>

    ghost predicate Valid()
      reads this
    {
      ValidEntries(entries)
    }

    ghost function Map(): Credentialed
      reads this
    {
      View(entries)
    }

    constructor ()
      ensures Valid() && Map() == map[]
    {
      entries := [];
    }

    /** The index of the entry strncmp finds. */
    method Find(ssid: seq<Byte>) returns (r: Option<nat>)
      requires Valid() && NulFree(ssid)
      ensures r.Some? ==> r.value < |entries| && entries[r.value].ssid == Padded(ssid, SSID_SIZE)
      ensures r.None? <==> Padded(ssid, SSID_SIZE) !in Map()
    {
      var key := Padded(ssid, SSID_SIZE);
      ViewKeys(entries, key);
      for i := 0 to |entries|
        invariant forall k :: 0 <= k < i ==> entries[k].ssid != key
      {
        assert WellFormed(entries[i]);
        StrncmpFindsKey(entries[i].ssid, ssid);
        if Strncmp(entries[i].ssid, ssid, SSID_SIZE) == 0 {
          return Some(i);
        }
      }
      return None;
    }

    /** wilma_add_ssid. */
    method AddSsid(ssid: seq<Byte>, password: seq<Byte>)
      requires Valid() && NulFree(ssid) && NulFree(password)
      modifies this
      ensures Valid() && Map() == Apply(old(Map()), Add(ssid, password))
      ensures old(entries) == [] ==> |entries| == 1 && entries[0].version == 1
      ensures old(entries) != [] ==>
                && |old(entries)| <= |entries| <= |old(entries)| + 1
                && (forall i :: 0 <= i < |old(entries)| ==>
                      entries[i].version == old(entries)[i].version && entries[i].ssid == old(entries)[i].ssid)
                && (|entries| > |old(entries)| ==> Last(entries).version == 0)
    {
      PaddedIsCanonical(ssid);
      var key := Padded(ssid, SSID_SIZE);
      EmptyView(entries);
      if entries == [] {
        entries := [Station(1, STATE_NEW, key, Padded(Limited(password, SSID_SIZE), PASSWORD_SIZE))];
        assert Front(entries) == [];
        return;
      }
      var found := Find(ssid);
      if found.Some? {
        var i := found.value;
        var updated := entries[i].(password := Padded(password, PASSWORD_SIZE), state := STATE_NEW);
        UpdateKeepsValid(entries, i, updated);
        ViewUpdate(entries, i, updated);
        entries := entries[i := updated];
        return;
      }
      Append(Station(0, STATE_NEW, key, Padded(password, PASSWORD_SIZE)));
    }

    /** One more entry behind the others. */
    method Append(added: Station)
      requires Valid() && WellFormed(added) && added.ssid !in Map()
      modifies this
      ensures Valid() && entries == old(entries) + [added]
      ensures Map() == old(Map())[added.ssid := CredentialsOf(added)]
    {
      ViewKeys(entries, added.ssid);
      assert Front(entries + [added]) == entries;
      entries := entries + [added];
    }

    /** wilma_remove_ssid: the last entry takes the place of the removed one. */
    method RemoveSsid(ssid: seq<Byte>)
      requires Valid() && NulFree(ssid)
      modifies this
      ensures Valid() && Map() == Apply(old(Map()), Remove(ssid))
      ensures entries != old(entries) ==>
                exists i :: 0 <= i < |old(entries)| && entries == MoveLastTo(old(entries), i)
    {
      if entries == [] {
        return;
      }
      var found := Find(ssid);
      if found.Some? {
        var i, count := found.value, |entries|;
        ghost var removed := MoveLastTo(entries, i);
        ViewRemove(entries, i);
        var sta := entries;
        if i != count - 1 {
          sta := sta[i := sta[count - 1]];
        }
        assert sta[..count - 1] == removed;
        entries := sta[..count - 1];
      }
    }

    /** update_ssid_state, which compares all 32 bytes; false if nothing is stored at all. */
    method SetSsidState(key: seq<Byte>, state: Byte) returns (ok: bool)
      requires Valid() && |key| == SSID_SIZE
      modifies this
      ensures Valid() && Map() == Apply(old(Map()), SetState(key, state))
      ensures ok <==> old(Map()) != map[]
    {
      EmptyView(entries);
      if entries == [] {
        return false;
      }
      ViewKeys(entries, key);
      for i := 0 to |entries|
        invariant entries == old(entries)
        invariant forall k :: 0 <= k < i ==> entries[k].ssid != key
      {
        if entries[i].ssid == key {
          ViewValue(entries, i);
          if entries[i].state != state {
            var updated := entries[i].(state := state);
            UpdateKeepsValid(entries, i, updated);
            ViewUpdate(entries, i, updated);
            entries := entries[i := updated];
          }
          return true;
        }
      }
      return true;
    }

    /** Any sequence of operations: the array refines the map. */
    method Perform(ops: seq<Operation>)
      requires Valid() && forall op :: op in ops ==> Legal(op)
      modifies this
      ensures Valid() && Map() == ApplyAll(old(Map()), ops)
    {
      for i := 0 to |ops|
        invariant Valid() && Map() == ApplyAll(old(Map()), ops[..i])
      {
        assert Front(ops[..i + 1]) == ops[..i] && Last(ops[..i + 1]) == ops[i];
        assert ops[i] in ops;
        match ops[i] {
          case Add(ssid, password) => AddSsid(ssid, password);
          case Remove(ssid) => RemoveSsid(ssid);
          case SetState(key, state) => var ok := SetSsidState(key, state);
        }
      }
      assert ops[..|ops|] == ops;
    }
  }

  lemma EmptyView(entries: seq<Station>)
    ensures View(entries) == map[] <==> entries == []
  {
    if entries != [] {
      assert Last(entries).ssid in View(entries);
    }
  }
}
