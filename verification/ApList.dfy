/** ap_filter_sort_unique of components/wilma/wilma.c: deduplicating, compacting and sorting a scan. */
module ApList {
  import opened Bytes
  import opened CStrings

  /** uint8_t ssid[33], always terminated. */
  type Ssid = s: seq<Byte> | |s| == 33 && s[32] == 0
    witness [0, 0, 0, 0, 0, 0, 0, 0, 0, 0, 0, 0, 0, 0, 0, 0, 0, 0, 0, 0, 0, 0, 0, 0, 0, 0, 0, 0, 0, 0, 0, 0, 0]

  /** The fields of wifi_ap_record_t that wilma.c uses. */
  datatype Ap = Ap(bssid: seq<Byte>, ssid: Ssid, primary: Byte, rssi: int, authmode: int)

  const NO_SSID: Ssid :=
    [0, 0, 0, 0, 0, 0, 0, 0, 0, 0, 0, 0, 0, 0, 0, 0, 0, 0, 0, 0, 0, 0, 0, 0, 0, 0, 0, 0, 0, 0, 0, 0, 0]

  /** A record after memset. */
  const CLEARED: Ap := Ap([0, 0, 0, 0, 0, 0], NO_SSID, 0, 0, 0)

  predicate Named(ap: Ap) {
    ap.ssid[0] != 0
  }

  /** The same network: equal SSID strings and equal authmode. */
  predicate Same(a: Ap, b: Ap) {
    Strcmp(a.ssid, b.ssid) == 0 && a.authmode == b.authmode
  }

  lemma SameIsEquality(a: Ap, b: Ap)
    ensures Same(a, b) <==> (CString(a.ssid), a.authmode) == (CString(b.ssid), b.authmode)
    ensures Same(a, b) ==> (Named(a) <==> Named(b))
  {
    StrcmpZero(a.ssid, b.ssid);
    assert Named(a) <==> CString(a.ssid) != [];
    assert Named(b) <==> CString(b.ssid) != [];
  }

  lemma SameTransitive(a: Ap, b: Ap, c: Ap)
    requires Same(a, b) && (Same(b, c) || Same(c, b))
    ensures Same(a, c) && Same(b, a)
  {
    SameIsEquality(a, b);
    SameIsEquality(b, a);
    SameIsEquality(b, c);
    SameIsEquality(c, b);
    SameIsEquality(a, c);
  }

  // ---------- Removing duplicates ----------

  /** An earlier record among the first `i` is the same network as record k. */
  predicate Repeated(s: seq<Ap>, i: nat, k: nat)
    requires k < |s|
  {
    exists j :: 0 <= j < i && j < k && Same(s[j], s[k])
  }

  /** The strongest signal of record k's network from k up to n. */
  function Strongest(s: seq<Ap>, k: nat, n: nat): int
    requires k < n <= |s|
    decreases n
  {
    if n == k + 1 then s[k].rssi
    else
      var m := Strongest(s, k, n - 1);
      if Same(s[k], s[n - 1]) && s[n - 1].rssi > m then s[n - 1].rssi else m
  }

  /** Slot k when the outer loop has handled the first i records. */
  function Slot(s: seq<Ap>, i: nat, k: nat): Ap
    requires k < |s|
  {
    if !Named(s[k]) then s[k]
    else if Repeated(s, i, k) then CLEARED
    else if k < i then s[k].(rssi := Strongest(s, k, |s|))
    else s[k]
  }

  function Deduplicated(s: seq<Ap>): (r: seq<Ap>)
    ensures |r| == |s|
  {
    seq(|s|, k requires 0 <= k < |s| => Slot(s, |s|, k))
  }

  /** Handling a nameless or cleared record changes no slot. */
  lemma SkipKeeps(s: seq<Ap>, i: nat, k: nat)
    requires i < |s| && k < |s| && !Named(Slot(s, i, i))
    ensures Slot(s, i + 1, k) == Slot(s, i, k)
  {
    if Named(s[k]) && Repeated(s, i + 1, k) && !Repeated(s, i, k) {
      SameIsEquality(s[i], s[k]);
      assert Same(s[i], s[k]) && Repeated(s, i, i);
      var j :| 0 <= j < i && Same(s[j], s[i]);
      SameTransitive(s[j], s[i], s[k]);
    }
  }

  /** A record of the network of record i, which comes first, is cleared in its turn. */
  lemma CompareSame(s: seq<Ap>, i: nat, j: nat)
    requires i < j < |s| && Named(s[i]) && !Repeated(s, i, i) && Same(s[i], s[j])
    ensures Slot(s, i, j) == s[j] && Slot(s, i + 1, j) == CLEARED
  {
    SameIsEquality(s[i], s[j]);
    if Repeated(s, i, j) {
      var h :| 0 <= h < i && Same(s[h], s[j]);
      SameTransitive(s[h], s[j], s[i]);
    }
    assert Repeated(s, i + 1, j);
  }

  lemma NamedIsNotCleared(ap: Ap)
    requires Named(ap)
    ensures !Same(ap, CLEARED)
  {
    SameIsEquality(ap, CLEARED);
  }

  lemma CompareOther(s: seq<Ap>, i: nat, j: nat)
    requires i < j < |s| && Named(s[i]) && !Same(s[i], s[j])
    ensures Slot(s, i + 1, j) == Slot(s, i, j) && !Same(s[i], Slot(s, i, j))
  {
    NamedIsNotCleared(s[i]);
    if Repeated(s, i + 1, j) {
      var h :| 0 <= h < i + 1 && h < j && Same(s[h], s[j]);
      assert h < i;
    }
  }

  /** While record i is compared with record j, slot j is cleared exactly if it is the same network. */
  lemma CompareStep(s: seq<Ap>, i: nat, j: nat)
    requires i < j < |s| && Named(s[i]) && !Repeated(s, i, i)
    ensures Same(s[i], Slot(s, i, j)) <==> Same(s[i], s[j])
    ensures Same(s[i], s[j]) ==> Slot(s, i, j) == s[j] && Slot(s, i + 1, j) == CLEARED
    ensures !Same(s[i], s[j]) ==> Slot(s, i + 1, j) == Slot(s, i, j)
  {
    if Same(s[i], s[j]) {
      CompareSame(s, i, j);
    } else {
      CompareOther(s, i, j);
    }
  }

  lemma EarlierKeeps(s: seq<Ap>, i: nat, k: nat)
    requires k < i < |s|
    ensures Slot(s, i + 1, k) == Slot(s, i, k)
  {
  }

  lemma LastSlots(s: seq<Ap>, i: nat, k: nat)
    requires k < |s| && i + 1 >= |s|
    ensures Slot(s, i, k) == Slot(s, |s|, k)
  {
    assert k == |s| - 1 ==> Strongest(s, k, |s|) == s[k].rssi;
  }

  /** The nested loops that merge and clear duplicates. */
  method RemoveDuplicates(list: array<Ap>, count: nat)
    requires count <= list.Length
    modifies list
    ensures list[..count] == Deduplicated(old(list[..count]))
    ensures list[count..] == old(list[count..])
  {
    ghost var s := list[..count];
    var i := 0;
    while i < count - 1
      invariant 0 <= i <= count
      invariant forall k :: 0 <= k < count ==> list[k] == Slot(s, i, k)
      invariant list[count..] == old(list[count..])
    {
      forall k | 0 <= k < count
        ensures k < i ==> Slot(s, i + 1, k) == Slot(s, i, k)
        ensures !Named(list[i]) ==> Slot(s, i + 1, k) == Slot(s, i, k)
      {
        if k < i {
          EarlierKeeps(s, i, k);
        }
        if !Named(list[i]) {
          SkipKeeps(s, i, k);
        }
      }
      if Named(list[i]) {
        MergeInto(list, count, i, s);
      }
      i := i + 1;
    }
    forall k | 0 <= k < count ensures list[k] == Slot(s, count, k) {
      LastSlots(s, i, k);
    }
  }

  /** The inner loop: record i takes the strongest signal of its duplicates, which are cleared. */
  method MergeInto(list: array<Ap>, count: nat, i: nat, ghost s: seq<Ap>)
    requires i < count <= list.Length && |s| == count
    requires forall k :: 0 <= k < count ==> list[k] == Slot(s, i, k)
    requires Named(list[i])
    requires forall k :: 0 <= k < i ==> Slot(s, i + 1, k) == Slot(s, i, k)
    modifies list
    ensures forall k :: 0 <= k < count ==> list[k] == Slot(s, i + 1, k)
    ensures list[count..] == old(list[count..])
  {
    assert list[i] == s[i] && !Repeated(s, i, i);
    for j := i + 1 to count
      invariant list[i] == s[i].(rssi := Strongest(s, i, j))
      invariant forall k :: 0 <= k < count && k != i ==> list[k] == if k < j then Slot(s, i + 1, k) else Slot(s, i, k)
      invariant list[count..] == old(list[count..])
    {
      MergeOne(list, i, j, s);
    }
    assert !Repeated(s, i + 1, i);
  }

  /** One turn of the inner loop. */
  method MergeOne(list: array<Ap>, i: nat, j: nat, ghost s: seq<Ap>)
    requires i < j < |s| <= list.Length && Named(s[i]) && !Repeated(s, i, i)
    requires list[i] == s[i].(rssi := Strongest(s, i, j)) && list[j] == Slot(s, i, j)
    modifies list
    ensures list[i] == s[i].(rssi := Strongest(s, i, j + 1)) && list[j] == Slot(s, i + 1, j)
    ensures forall k :: 0 <= k < list.Length && k != i && k != j ==> list[k] == old(list[k])
  {
    CompareStep(s, i, j);
    if Strcmp(list[i].ssid, list[j].ssid) == 0 && list[i].authmode == list[j].authmode {
      if list[j].rssi > list[i].rssi {
        list[i] := list[i].(rssi := list[j].rssi);
      }
      list[j] := CLEARED;
    }
  }

  // ---------- Compacting ----------

  /** The records that have a name, in order. */
  function NamedOnly(s: seq<Ap>): (r: seq<Ap>)
    ensures |r| <= |s|
  {
    if s == [] then [] else NamedOnly(Front(s)) + if Named(Last(s)) then [Last(s)] else []
  }

  /** A stable filter: each record is kept or dropped by itself, and the kept ones stay in order. */
  lemma {:induction false} NamedOnlyConcat(a: seq<Ap>, b: seq<Ap>)
    ensures NamedOnly(a + b) == NamedOnly(a) + NamedOnly(b)
    ensures |b| == 1 ==> NamedOnly(b) == if b[0].ssid[0] != 0 then b else []
    decreases |b|
  {
    if b == [] {
      assert a + b == a;
    } else {
      var last := if Named(Last(b)) then [Last(b)] else [];
      NamedOnlyConcat(a, Front(b));
      assert Front(a + b) == a + Front(b) && Last(a + b) == Last(b);
      Associative(NamedOnly(a), NamedOnly(Front(b)), last);
      if |b| == 1 {
        assert Front(b) == [] && b == [Last(b)];
      }
    }
  }

  lemma NamedOnlyNext(s: seq<Ap>, i: nat)
    requires i < |s|
    ensures NamedOnly(s[..i + 1]) == NamedOnly(s[..i]) + if Named(s[i]) then [s[i]] else []
  {
    assert Front(s[..i + 1]) == s[..i] && Last(s[..i + 1]) == s[i];
  }

  /** Moving every named record to the first free slot: a stable filter, in place. */
  method Compact(list: array<Ap>, count: nat) returns (totalUnique: nat)
    requires count <= list.Length
    modifies list
    ensures totalUnique == |NamedOnly(old(list[..count]))|
    ensures list[..totalUnique] == NamedOnly(old(list[..count]))
  {
    ghost var s := list[..count];
    ghost var kept;
    totalUnique, kept := MoveNamed(list, count, s);
    assert s[..count] == s;
    assert list[..totalUnique] == kept;
  }

  /** The loop over the records. */
  method MoveNamed(list: array<Ap>, count: nat, ghost s: seq<Ap>) returns (unique: nat, ghost kept: seq<Ap>)
    requires count == |s| <= list.Length && forall k :: 0 <= k < count ==> list[k] == s[k]
    modifies list
    ensures kept == NamedOnly(s[..count]) && unique == |kept| <= count && Partly(list, s, kept, count)
  {
    kept := [];
    var firstFree: int := -1;
    unique := count;
    for i := 0 to count
      invariant kept == NamedOnly(s[..i]) && unique == count - (i - |kept|) && |kept| <= i
      invariant Partly(list, s, kept, i)
      invariant firstFree == if |kept| < i then |kept| else -1
    {
      NamedOnlyNext(s, i);
      if !Named(list[i]) {
        if firstFree == -1 {
          firstFree := i;
        }
        unique := unique - 1;
      } else {
        firstFree := Keep(list, count, i, firstFree, s, kept);
        kept := kept + [s[i]];
      }
    }
  }

  /** The first slots hold the records kept so far, the next ones up to i are free, the others untouched. */
  ghost predicate Partly(list: array<Ap>, s: seq<Ap>, kept: seq<Ap>, i: nat)
    requires |kept| <= i <= |s| <= list.Length
    reads list
  {
    && (forall k :: 0 <= k < |kept| ==> list[k] == kept[k] && Named(list[k]))
    && (forall k :: |kept| <= k < i ==> !Named(list[k]))
    && (forall k :: i <= k < |s| ==> list[k] == s[k])
  }

  /** Record i has a name: it stays where it is or moves up. */
  method Keep(list: array<Ap>, count: nat, i: nat, firstFree: int, ghost s: seq<Ap>, ghost kept: seq<Ap>)
    returns (r: int)
    requires |kept| <= i < count == |s| <= list.Length && Partly(list, s, kept, i) && Named(list[i])
    requires firstFree == if |kept| < i then |kept| else -1
    modifies list
    ensures Partly(list, s, kept + [s[i]], i + 1)
    ensures r == if |kept| < i then |kept| + 1 else -1
  {
    r := firstFree;
    if firstFree != -1 {
      r := MoveUp(list, count, i, firstFree);
    }
  }

  /** All these records have names. */
  ghost predicate Names(list: array<Ap>, low: nat, high: nat)
    requires high <= list.Length
    reads list
  {
    forall k :: low <= k < high ==> Named(list[k])
  }

  /** Record i goes to the first free slot, behind the named records before it. */
  method MoveUp(list: array<Ap>, count: nat, i: nat, firstFree: nat) returns (r: nat)
    requires firstFree < i < count <= list.Length && Named(list[i])
    requires Names(list, 0, firstFree)
    requires forall k :: firstFree <= k < i ==> !Named(list[k])
    modifies list
    ensures r == firstFree + 1
    ensures forall k :: 0 <= k < firstFree ==> list[k] == old(list[k])
    ensures list[firstFree] == old(list[i])
    ensures forall k :: r <= k <= i ==> !Named(list[k])
    ensures forall k :: i < k < list.Length ==> list[k] == old(list[k])
  {
    list[firstFree] := list[i];
    list[i] := CLEARED;
    var next := NextFree(list, count, firstFree, firstFree + 1);
    r := next;
  }

  /** The search for the next free slot; `found` is where it must end. */
  method NextFree(list: array<Ap>, count: nat, firstFree: int, ghost found: nat) returns (r: int)
    requires found < count <= list.Length && !Named(list[found])
    requires forall k :: 0 <= k < found ==> Named(list[k])
    ensures r == found
  {
    r := firstFree;
    for j := 0 to count
      invariant j <= found
    {
      if !Named(list[j]) {
        return j;
      }
    }
  }

  // ---------- Sorting ----------

  /** ap_compare_rssi. */
  function Compare(a: Ap, b: Ap): int {
    if a.rssi > b.rssi then -1 else if a.rssi < b.rssi then 1 else Strcmp(a.ssid, b.ssid)
  }

  predicate Sorted(s: seq<Ap>) {
    forall i, j :: 0 <= i < j < |s| ==> Compare(s[i], s[j]) <= 0
  }

  /** Stronger signals come first, and among equal ones the SSIDs are in the order of strings. */
  predicate StrongestFirst(s: seq<Ap>) {
    forall i, j :: 0 <= i < j < |s| ==> ComesBefore(s[i], s[j])
  }

  predicate ComesBefore(a: Ap, b: Ap) {
    a.rssi > b.rssi || (a.rssi == b.rssi && NoLater(CString(a.ssid), CString(b.ssid)))
  }

  lemma CompareMeans(a: Ap, b: Ap)
    ensures Compare(a, b) <= 0 <==> ComesBefore(a, b)
  {
    StrcmpOrders(a.ssid, b.ssid);
  }

  lemma SortedMeans(s: seq<Ap>)
    ensures Sorted(s) <==> StrongestFirst(s)
  {
    forall i, j | 0 <= i < j < |s| ensures Compare(s[i], s[j]) <= 0 <==> ComesBefore(s[i], s[j]) {
      CompareMeans(s[i], s[j]);
    }
  }

  lemma CompareTransitive(a: Ap, b: Ap, c: Ap)
    requires Compare(a, b) <= 0 && Compare(b, c) <= 0
    ensures Compare(a, c) <= 0
  {
    if a.rssi == b.rssi == c.rssi {
      StrcmpTransitive(a.ssid, b.ssid, c.ssid);
    }
  }

  lemma CompareTotal(a: Ap, b: Ap)
    ensures Compare(a, b) <= 0 || Compare(b, a) <= 0
  {
    StrcmpReversed(a.ssid, b.ssid);
  }

  function Insert(x: Ap, s: seq<Ap>): (r: seq<Ap>)
    ensures multiset(r) == multiset(s) + multiset{x}
  {
    if s == [] || Compare(x, s[0]) <= 0 then
      [x] + s
    else
      assert s == [s[0]] + s[1..];
      [s[0]] + Insert(x, s[1..])
  }

  lemma {:induction false} InsertSorted(x: Ap, s: seq<Ap>)
    requires Sorted(s)
    ensures Sorted(Insert(x, s))
    decreases |s|
  {
    if s != [] && Compare(x, s[0]) <= 0 {
      forall j | 0 <= j < |s| ensures Compare(x, s[j]) <= 0 {
        if j > 0 {
          CompareTransitive(x, s[0], s[j]);
        }
      }
    } else if s != [] {
      CompareTotal(x, s[0]);
      InsertSorted(x, s[1..]);
      forall y | y in Insert(x, s[1..]) ensures Compare(s[0], y) <= 0 {
        assert y in multiset(Insert(x, s[1..]));
        assert y == x || y in s[1..];
      }
    }
  }

  /** A sort that stands for qsort: what follows uses only that it is a sorted permutation. */
  method Sort(list: array<Ap>, count: nat)
    requires count <= list.Length
    modifies list
    ensures multiset(list[..count]) == multiset(old(list[..count]))
    ensures Sorted(list[..count])
  {
    var sorted := InsertionSort(list[..count]);
    SameLength(sorted, list[..count]);
    for i := 0 to count
      invariant forall k :: 0 <= k < i ==> list[k] == sorted[k]
    {
      list[i] := sorted[i];
    }
    assert list[..count] == sorted;
  }

  lemma SameLength(a: seq<Ap>, b: seq<Ap>)
    requires multiset(a) == multiset(b)
    ensures |a| == |b|
  {
    assert |multiset(a)| == |a| && |multiset(b)| == |b|;
  }

  method InsertionSort(s: seq<Ap>) returns (sorted: seq<Ap>)
    ensures multiset(sorted) == multiset(s) && Sorted(sorted)
  {
    sorted := [];
    for i := 0 to |s|
      invariant multiset(sorted) == multiset(s[..i]) && Sorted(sorted)
    {
      assert s[..i + 1] == s[..i] + [s[i]];
      InsertSorted(s[i], sorted);
      sorted := Insert(s[i], sorted);
    }
    assert s[..|s|] == s;
  }

  // ---------- What the three stages achieve ----------

  /** Record i is the first of its network. */
  predicate First(s: seq<Ap>, i: nat)
    requires i < |s|
  {
    Named(s[i]) && !Repeated(s, i, i)
  }

  /** The strongest signal among all records of a network. */
  predicate GroupMaximum(s: seq<Ap>, i: nat, m: int)
    requires i < |s|
  {
    && (forall j :: 0 <= j < |s| && Same(s[i], s[j]) ==> s[j].rssi <= m)
    && (exists j :: 0 <= j < |s| && Same(s[i], s[j]) && s[j].rssi == m)
  }

  /** The record that stands for the network of record i: its fields are those of the network's first
      record, its signal the strongest. */
  predicate Represents(s: seq<Ap>, i: nat, x: Ap)
    requires i < |s|
  {
    First(s, i) && x == s[i].(rssi := x.rssi) && GroupMaximum(s, i, x.rssi)
  }

  predicate StandsForSome(s: seq<Ap>, x: Ap) {
    exists i :: 0 <= i < |s| && Represents(s, i, x)
  }

  predicate IsRepresented(s: seq<Ap>, i: nat, r: seq<Ap>)
    requires i < |s|
  {
    exists k :: 0 <= k < |r| && Represents(s, i, r[k])
  }

  /** Exactly one record per distinct network with a name, and nothing else. */
  predicate OnePerNetwork(s: seq<Ap>, r: seq<Ap>) {
    && (forall x :: x in r ==> StandsForSome(s, x) && multiset(r)[x] == 1)
    && (forall i :: 0 <= i < |s| && First(s, i) ==> IsRepresented(s, i, r))
    && (forall x, y :: x in r && y in r && Same(x, y) ==> x == y)
  }

  lemma {:induction false} StrongestIsMaximum(s: seq<Ap>, k: nat, n: nat)
    requires k < n <= |s|
    ensures forall j :: k <= j < n && Same(s[k], s[j]) ==> s[j].rssi <= Strongest(s, k, n)
    ensures exists j :: k <= j < n && Same(s[k], s[j]) && s[j].rssi == Strongest(s, k, n)
    decreases n
  {
    if n == k + 1 {
      SameIsEquality(s[k], s[k]);
      assert Same(s[k], s[k]);
    } else {
      StrongestIsMaximum(s, k, n - 1);
    }
  }

  /** A first record, with its final signal, represents its network. */
  lemma FirstRepresents(s: seq<Ap>, i: nat)
    requires i < |s| && First(s, i)
    ensures Deduplicated(s)[i] == s[i].(rssi := Strongest(s, i, |s|))
    ensures Represents(s, i, Deduplicated(s)[i])
  {
    StrongestIsMaximum(s, i, |s|);
    forall j | 0 <= j < i ensures !Same(s[i], s[j]) {
      SameIsEquality(s[i], s[j]);
      SameIsEquality(s[j], s[i]);
    }
    assert Repeated(s, |s|, i) <==> Repeated(s, i, i);
    assert GroupMaximum(s, i, Strongest(s, i, |s|));
  }

  /** Every other slot ends up without a name. */
  lemma OthersAreNameless(s: seq<Ap>, i: nat)
    requires i < |s|
    ensures Named(Deduplicated(s)[i]) <==> First(s, i)
  {
    assert Repeated(s, |s|, i) <==> Repeated(s, i, i);
  }

  lemma {:induction false} InNamedOnly(s: seq<Ap>, x: Ap)
    ensures x in NamedOnly(s) <==> x in s && Named(x)
  {
    if s != [] {
      InNamedOnly(Front(s), x);
      assert x in s <==> x in Front(s) || x == Last(s);
    }
  }

  /** Slots of different first records hold different networks. */
  lemma FirstsAreDistinct(s: seq<Ap>, i: nat, j: nat)
    requires i < j < |s| && First(s, i) && First(s, j)
    ensures !Same(Deduplicated(s)[i], Deduplicated(s)[j]) && !Same(Deduplicated(s)[j], Deduplicated(s)[i])
  {
    var x, y := Deduplicated(s)[i], Deduplicated(s)[j];
    FirstRepresents(s, i);
    FirstRepresents(s, j);
    SameIsEquality(x, y);
    SameIsEquality(y, x);
    SameIsEquality(s[i], s[j]);
    assert !Same(s[i], s[j]);
  }

  /** A named slot holds nothing an earlier slot holds. */
  lemma NothingTwice(s: seq<Ap>, i: nat, n: nat)
    requires i < n < |s| && Named(Deduplicated(s)[n]) && Named(Deduplicated(s)[i])
    ensures Deduplicated(s)[i] != Deduplicated(s)[n]
  {
    OthersAreNameless(s, i);
    OthersAreNameless(s, n);
    FirstsAreDistinct(s, i, n);
    SameIsEquality(Deduplicated(s)[n], Deduplicated(s)[n]);
  }

  lemma CountSnoc(s: seq<Ap>, y: Ap, x: Ap)
    ensures multiset(s + [y])[x] == multiset(s)[x] + if x == y then 1 else 0
    ensures x !in s ==> multiset(s)[x] == 0
  {
  }

  /** No two named slots hold the same record. */
  predicate AllDifferent(d: seq<Ap>) {
    forall i, j :: 0 <= i < j < |d| ==> DifferentAt(d, i, j)
  }

  predicate DifferentAt(d: seq<Ap>, i: nat, j: nat)
    requires i < j < |d|
  {
    Named(d[i]) && Named(d[j]) ==> d[i] != d[j]
  }

  lemma {:induction false} DifferentOccurOnce(d: seq<Ap>, n: nat, x: Ap)
    requires AllDifferent(d) && n <= |d| && x in NamedOnly(d[..n])
    ensures multiset(NamedOnly(d[..n]))[x] == 1
  {
    if n > 0 {
      var before, last := NamedOnly(d[..n - 1]), d[n - 1];
      NamedOnlyNext(d, n - 1);
      if !Named(last) {
        assert before + [] == before;
        DifferentOccurOnce(d, n - 1, x);
      } else {
        if x in before {
          DifferentOccurOnce(d, n - 1, x);
          NotAgain(d, n - 1, x);
        }
        OnceInLonger(before, last, x);
      }
    }
  }

  lemma OnceInLonger(s: seq<Ap>, y: Ap, x: Ap)
    requires x in s + [y] && (x in s ==> multiset(s)[x] == 1 && x != y)
    ensures multiset(s + [y])[x] == 1
  {
    CountSnoc(s, y, x);
  }

  lemma NotAgain(d: seq<Ap>, n: nat, x: Ap)
    requires AllDifferent(d) && n < |d| && Named(d[n]) && x in NamedOnly(d[..n])
    ensures x != d[n]
  {
    InNamedOnly(d[..n], x);
    var i :| 0 <= i < n && d[..n][i] == x;
    assert DifferentAt(d, i, n);
  }

  /** No record occurs twice among the named slots up to n. */
  lemma OccursOnce(s: seq<Ap>, n: nat, x: Ap)
    requires n <= |s| && x in NamedOnly(Deduplicated(s)[..n])
    ensures multiset(NamedOnly(Deduplicated(s)[..n]))[x] == 1
  {
    var d := Deduplicated(s);
    forall i, j | 0 <= i < j < |d| ensures DifferentAt(d, i, j) {
      if Named(d[i]) && Named(d[j]) {
        NothingTwice(s, i, j);
      }
    }
    DifferentOccurOnce(d, n, x);
  }

  lemma DeduplicationWorks(s: seq<Ap>)
    ensures OnePerNetwork(s, NamedOnly(Deduplicated(s)))
  {
    var d := Deduplicated(s);
    var r := NamedOnly(d);
    assert d[..|s|] == d;
    forall x | x in r ensures StandsForSome(s, x) && multiset(r)[x] == 1 {
      InNamedOnly(d, x);
      var i :| 0 <= i < |s| && d[i] == x;
      OthersAreNameless(s, i);
      FirstRepresents(s, i);
      OccursOnce(s, |s|, x);
    }
    forall i | 0 <= i < |s| && First(s, i) ensures IsRepresented(s, i, r) {
      OthersAreNameless(s, i);
      FirstRepresents(s, i);
      InNamedOnly(d, d[i]);
      var k :| 0 <= k < |r| && r[k] == d[i];
    }
    forall x, y | x in r && y in r && Same(x, y) ensures x == y {
      DistinctNetworks(s, x, y);
    }
  }

  lemma DistinctNetworks(s: seq<Ap>, x: Ap, y: Ap)
    requires x in NamedOnly(Deduplicated(s)) && y in NamedOnly(Deduplicated(s)) && Same(x, y)
    ensures x == y
  {
    var d := Deduplicated(s);
    InNamedOnly(d, x);
    InNamedOnly(d, y);
    var i :| 0 <= i < |s| && d[i] == x;
    var j :| 0 <= j < |s| && d[j] == y;
    OthersAreNameless(s, i);
    OthersAreNameless(s, j);
    if i < j {
      FirstsAreDistinct(s, i, j);
    } else if j < i {
      FirstsAreDistinct(s, j, i);
    }
  }

  lemma PermutationKeepsNetworks(s: seq<Ap>, r: seq<Ap>, t: seq<Ap>)
    requires OnePerNetwork(s, r) && multiset(r) == multiset(t)
    ensures OnePerNetwork(s, t)
  {
    forall x | x in t ensures x in r {
      assert x in multiset(t);
    }
    forall i | 0 <= i < |s| && First(s, i) ensures IsRepresented(s, i, t) {
      assert IsRepresented(s, i, r);
      var k :| 0 <= k < |r| && Represents(s, i, r[k]);
      assert r[k] in multiset(r);
      var h :| 0 <= h < |t| && t[h] == r[k];
    }
  }

  /** ap_filter_sort_unique: the first `unique` slots hold exactly one record per network, strongest
      first. */
  method FilterSortUnique(list: array<Ap>, count: nat) returns (unique: nat)
    requires count <= list.Length
    modifies list
    ensures unique <= count
    ensures OnePerNetwork(old(list[..count]), list[..unique])
    ensures Sorted(list[..unique]) && StrongestFirst(list[..unique])
  {
    ghost var s := list[..count];
    RemoveDuplicates(list, count);
    unique := Compact(list, count);
    Sort(list, unique);
    DeduplicationWorks(s);
    PermutationKeepsNetworks(s, NamedOnly(Deduplicated(s)), list[..unique]);
    SortedMeans(list[..unique]);
  }
}
