/** update_ssid_list of components/wilma/wilma.c: which of the visible networks to try, and in which order. */
module Candidates {
  import opened Bytes
  import opened CStrings
  import opened ApList
  import opened StationStore

  const MAX_CANDIDATES: nat := 4
  const MAX_SCAN_RESULTS: nat := 64

  /** WilmaStationConnectionEntry. */
  datatype Connection = Connection(ssid: seq<Byte>, password: seq<Byte>, channel: Byte, rssi: int, authMode: int)

  /** WilmaVisibleApEntry. */
  datatype Visible = Visible(ssid: seq<Byte>, channel: Byte, rssi: int, authMode: int)

  const NO_CONNECTION: Connection := Connection([], [], 0, 0, 0)
  const NOT_VISIBLE: Visible := Visible([], 0, 0, 0)

  predicate Recognizes(station: Station, ap: Ap) {
    Strncmp(station.ssid, ap.ssid, SSID_SIZE) == 0
  }

  predicate Saved(saved: seq<Station>, ap: Ap) {
    exists j :: 0 <= j < |saved| && Recognizes(saved[j], ap)
  }

  /** Index j is the first saved entry for this network. */
  predicate FirstSaved(saved: seq<Station>, ap: Ap, j: nat) {
    j < |saved| && Recognizes(saved[j], ap) && forall k :: 0 <= k < j ==> !Recognizes(saved[k], ap)
  }

  /** The connection made from a visible record and the first saved entry for it. */
  predicate ConnectsTo(c: Connection, ap: Ap, saved: seq<Station>) {
    && c.ssid == ap.ssid[..SSID_SIZE] && c.channel == ap.primary && c.rssi == ap.rssi && c.authMode == ap.authmode
    && exists j :: 0 <= j < |saved| && FirstSaved(saved, ap, j) && c.password == saved[j].password
  }

  /** The positions of the recognized records, in order. */
  function Matches(records: seq<Ap>, saved: seq<Station>): (r: seq<nat>)
    ensures forall k :: 0 <= k < |r| ==> r[k] < |records| && Saved(saved, records[r[k]])
    ensures forall h, k :: 0 <= h < k < |r| ==> r[h] < r[k]
  {
    if records == [] then []
    else Matches(Front(records), saved) + if Saved(saved, Last(records)) then [|records| - 1] else []
  }

  lemma {:induction false} EveryMatchIsListed(records: seq<Ap>, saved: seq<Station>, i: nat)
    requires i < |records| && Saved(saved, records[i])
    ensures i in Matches(records, saved)
    decreases |records|
  {
    if i < |records| - 1 {
      EveryMatchIsListed(Front(records), saved, i);
    }
  }

  lemma MatchesNext(records: seq<Ap>, saved: seq<Station>, i: nat)
    requires i < |records|
    ensures Matches(records[..i + 1], saved) ==
            Matches(records[..i], saved) + if Saved(saved, records[i]) then [i] else []
  {
    assert Front(records[..i + 1]) == records[..i] && Last(records[..i + 1]) == records[i];
  }

  function Min(a: nat, b: nat): nat {
    if a < b then a else b
  }

  /** `list` connects to the first min(4, n) of the recognized records, in their order. */
  predicate Selection(list: seq<Connection>, records: seq<Ap>, saved: seq<Station>) {
    && |list| == Min(4, |Matches(records, saved)|)
    && forall k :: 0 <= k < |list| ==> Chosen(list, records, saved, k)
  }

  predicate Chosen(list: seq<Connection>, records: seq<Ap>, saved: seq<Station>, k: nat)
    requires k < |list| <= |Matches(records, saved)|
  {
    ConnectsTo(list[k], records[Matches(records, saved)[k]], saved)
  }

  /** `after` is `before` with record `ap` considered. */
  predicate Considered(before: seq<Connection>, after: seq<Connection>, ap: Ap, saved: seq<Station>) {
    if |before| < MAX_CANDIDATES && Saved(saved, ap)
    then |after| == |before| + 1 && before == Front(after) && ConnectsTo(Last(after), ap, saved)
    else after == before
  }

  lemma SelectionNext(before: seq<Connection>, after: seq<Connection>, records: seq<Ap>, i: nat, saved: seq<Station>)
    requires i < |records| && Selection(before, records[..i], saved) && Considered(before, after, records[i], saved)
    ensures Selection(after, records[..i + 1], saved)
  {
    var next := records[..i + 1];
    var matches, longer := Matches(records[..i], saved), Matches(next, saved);
    MatchesNext(records, saved, i);
    forall k | 0 <= k < |after| ensures Chosen(after, next, saved, k) {
      if k < |before| {
        assert Chosen(before, records[..i], saved, k);
        assert after[k] == before[k] && longer[k] == matches[k];
      }
    }
  }

  /** What WILMA keeps of the last scan. */
  class Scan {
    const connectionList: array<Connection>
    var connectionCount: nat
    const visibleAps: array<Visible>
    var visibleCount: nat

    ghost predicate Valid()
      reads this
    {
      && connectionList.Length == MAX_CANDIDATES && connectionCount <= MAX_CANDIDATES
      && visibleAps.Length == MAX_SCAN_RESULTS && visibleCount <= MAX_SCAN_RESULTS
    }

    ghost function Connections(): seq<Connection>
      requires Valid()
      reads this, connectionList
    {
      connectionList[..connectionCount]
    }

    constructor ()
      ensures Valid() && Connections() == [] && visibleCount == 0
      ensures fresh(connectionList) && fresh(visibleAps)
    {
      connectionList := new Connection[MAX_CANDIDATES](_ => NO_CONNECTION);
      visibleAps := new Visible[MAX_SCAN_RESULTS](_ => NOT_VISIBLE);
      connectionCount, visibleCount := 0, 0;
    }

    /** The search for the first saved entry of a network. */
    method FindSaved(saved: seq<Station>, ap: Ap) returns (r: Option<nat>)
      ensures r.None? <==> !Saved(saved, ap)
      ensures r.Some? ==> FirstSaved(saved, ap, r.value)
    {
      for j := 0 to |saved|
        invariant forall k :: 0 <= k < j ==> !Recognizes(saved[k], ap)
      {
        if Strncmp(saved[j].ssid, ap.ssid, SSID_SIZE) == 0 {
          return Some(j);
        }
      }
      return None;
    }

    /** One turn of the selection loop. */
    method Consider(ap: Ap, saved: seq<Station>)
      requires Valid()
      modifies this`connectionCount, connectionList
      ensures Valid() && Considered(old(Connections()), Connections(), ap, saved)
    {
      if connectionCount < MAX_CANDIDATES {
        var found := FindSaved(saved, ap);
        if found.Some? {
          var c := Connection(ap.ssid[..SSID_SIZE], saved[found.value].password, ap.primary, ap.rssi, ap.authmode);
          connectionList[connectionCount] := c;
          connectionCount := connectionCount + 1;
        }
      }
    }

    /** One turn of the loop over the records. */
    method SelectNext(ap: Ap, idx: nat, saved: seq<Station>, ghost s: seq<Ap>)
      requires Valid() && idx < |s| <= MAX_SCAN_RESULTS && ap == s[idx]
      requires Selection(Connections(), s[..idx], saved)
      modifies this`connectionCount, connectionList, visibleAps
      ensures Valid() && Selection(Connections(), s[..idx + 1], saved)
      ensures visibleAps[idx] == Visible(ap.ssid[..32], ap.primary, ap.rssi, ap.authmode)
      ensures forall i :: 0 <= i < MAX_SCAN_RESULTS && i != idx ==> visibleAps[i] == old(visibleAps[i])
    {
      ghost var before := Connections();
      visibleAps[idx] := Visible(ap.ssid[..SSID_SIZE], ap.primary, ap.rssi, ap.authmode);
      Consider(ap, saved);
      SelectionNext(before, Connections(), s, idx, saved);
    }

    /** The loop over the records, already filtered and sorted. */
    method Select(records: array<Ap>, saved: seq<Station>)
      requires Valid() && visibleCount <= records.Length
      modifies this`connectionCount, connectionList, visibleAps
      ensures Valid()
      ensures Selection(Connections(), records[..visibleCount], saved)
      ensures forall i :: 0 <= i < visibleCount ==>
                visibleAps[i] ==
                Visible(records[i].ssid[..32], records[i].primary, records[i].rssi, records[i].authmode)
    {
      ghost var s := records[..visibleCount];
      connectionCount := 0;
      for idx := 0 to visibleCount
        invariant Valid() && Selection(Connections(), s[..idx], saved)
        invariant forall i :: 0 <= i < idx ==>
                    visibleAps[i] == Visible(s[i].ssid[..32], s[i].primary, s[i].rssi, s[i].authmode)
      {
        SelectNext(records[idx], idx, saved, s);
      }
      assert s[..visibleCount] == s;
    }

    /** update_ssid_list after a scan that found `found` networks; of the at most 64 asked for, the driver
        has filled in the first `fetched` of `records`. A scan that found nothing leaves the connection
        list as it was. */
    method Update(records: array<Ap>, found: nat, fetched: nat, saved: seq<Station>)
      requires Valid() && fetched <= Min(found, 64) <= records.Length
      modifies this, connectionList, visibleAps, records
      ensures Valid()
      ensures found == 0 ==> visibleCount == 0 && Connections() == old(Connections())
      ensures found > 0 ==>
                && visibleCount <= fetched
                && OnePerNetwork(old(records[..fetched]), records[..visibleCount])
                && Sorted(records[..visibleCount]) && StrongestFirst(records[..visibleCount])
                && Selection(Connections(), records[..visibleCount], saved)
                && forall i :: 0 <= i < visibleCount ==>
                     visibleAps[i] ==
                     Visible(records[i].ssid[..32], records[i].primary, records[i].rssi, records[i].authmode)
    {
      visibleCount := Min(found, MAX_SCAN_RESULTS);
      if visibleCount == 0 {
        return;
      }
      visibleCount := FilterSortUnique(records, fetched);
      Select(records, saved);
    }
  }

  // ---------- The choice is the best one ----------

  /** Record i is among those the list connects to. */
  predicate Listed(records: seq<Ap>, saved: seq<Station>, i: nat) {
    exists k :: 0 <= k < Min(MAX_CANDIDATES, |Matches(records, saved)|) && Matches(records, saved)[k] == i
  }

  /** No recognized network that was left out is stronger than any that was listed, and none is left
      out unless the list is full. */
  lemma SelectionIsStrongest(list: seq<Connection>, records: seq<Ap>, saved: seq<Station>, i: nat)
    requires Selection(list, records, saved) && Sorted(records)
    requires i < |records| && Saved(saved, records[i]) && !Listed(records, saved, i)
    ensures |list| == 4
    ensures forall k :: 0 <= k < |list| ==> records[i].rssi <= list[k].rssi
  {
    var matches := Matches(records, saved);
    EveryMatchIsListed(records, saved, i);
    var h :| 0 <= h < |matches| && matches[h] == i;
    assert h >= MAX_CANDIDATES;
    forall k | 0 <= k < |list| ensures records[i].rssi <= list[k].rssi {
      assert Chosen(list, records, saved, k);
      assert matches[k] < matches[h];
      assert Compare(records[matches[k]], records[i]) <= 0;
    }
  }

  /** On saved entries as the store keeps them, being recognized means having that key, so at most one
      entry recognizes a network. */
  lemma RecognitionIsKeyEquality(station: Station, ap: Ap)
    requires WellFormed(station)
    ensures Recognizes(station, ap) <==> station.ssid == Padded(CString(ap.ssid), SSID_SIZE)
  {
    var name := CString(ap.ssid);
    CStringShort(ap.ssid);
    StrncmpFindsKey(station.ssid, name);
    SameStrncmp(station.ssid, ap.ssid);
  }

  lemma {:induction false} CStringShort(field: seq<Byte>)
    requires field != [] && Last(field) == 0
    ensures |CString(field)| < |field|
    decreases |field|
  {
    if field[0] != 0 {
      CStringShort(field[1..]);
    }
  }

  /** strncmp over 32 bytes looks at the SSID string of a 33-byte field and nothing behind it. */
  lemma SameStrncmp(field: seq<Byte>, ssid: Ssid)
    requires |field| == SSID_SIZE
    ensures Strncmp(field, ssid, SSID_SIZE) == 0 <==> Strncmp(field, CString(ssid), SSID_SIZE) == 0
  {
    var name := CString(ssid);
    CStringShort(ssid);
    CutCString(ssid, SSID_SIZE);
    StrcmpZero(field, ssid[..SSID_SIZE]);
    StrcmpZero(field, name);
    CStringOfPadding(name, 0);
    assert name + Zeros(0) == name;
  }

  lemma {:induction false} CutCString(field: seq<Byte>, n: nat)
    requires |CString(field)| <= n <= |field|
    ensures CString(field[..n]) == CString(field)
    decreases |field|
  {
    if n > 0 && field[0] != 0 {
      CutCString(field[1..], n - 1);
      assert field[..n][1..] == field[1..][..n - 1];
    }
  }
}
