/** NUL-terminated strings in fixed fields, as strcmp and strncmp see them. */
module CStrings {
  import opened Bytes

  /** The bytes before the first NUL, or all of them. */
  function CString(field: seq<Byte>): (r: seq<Byte>)
    ensures |r| <= |field| && 0 !in r
  {
    if field == [] || field[0] == 0 then [] else [field[0]] + CString(field[1..])
  }

  /** strcmp; the end of a field stands for its NUL. */
  function Strcmp(a: seq<Byte>, b: seq<Byte>): int
    decreases |a|
  {
    var x: int, y: int := if a == [] then 0 else a[0], if b == [] then 0 else b[0];
    if x != y then x - y else if x == 0 then 0 else Strcmp(a[1..], b[1..])
  }

  /** strncmp. */
  function Strncmp(a: seq<Byte>, b: seq<Byte>, n: nat): int {
    Strcmp(Limited(a, n), Limited(b, n))
  }

  function Limited(s: seq<Byte>, n: nat): seq<Byte> {
    if |s| <= n then s else s[..n]
  }

  lemma {:induction false} StrcmpZero(a: seq<Byte>, b: seq<Byte>)
    ensures Strcmp(a, b) == 0 <==> CString(a) == CString(b)
    decreases |a|
  {
    assert a != [] && a[0] != 0 ==> CString(a)[0] == a[0] && CString(a)[1..] == CString(a[1..]);
    assert b != [] && b[0] != 0 ==> CString(b)[0] == b[0] && CString(b)[1..] == CString(b[1..]);
    if a != [] && b != [] && a[0] == b[0] != 0 {
      StrcmpZero(a[1..], b[1..]);
    }
  }

  /** The order of strings: a beginning comes before the whole, otherwise the first difference decides. */
  predicate NoLater(a: seq<Byte>, b: seq<Byte>) {
    a <= b || exists k :: 0 <= k < |a| && k < |b| && DiffersFirst(a, b, k) && a[k] < b[k]
  }

  predicate DiffersFirst(a: seq<Byte>, b: seq<Byte>, k: nat)
    requires k < |a| && k < |b|
  {
    a[..k] == b[..k] && a[k] != b[k]
  }

  lemma DifferenceNext(c: Byte, a: seq<Byte>, b: seq<Byte>, k: nat)
    requires k < |a| && k < |b|
    ensures DiffersFirst([c] + a, [c] + b, k + 1) <==> DiffersFirst(a, b, k)
  {
    var x, y := ([c] + a)[..k + 1], ([c] + b)[..k + 1];
    assert x == [c] + a[..k] && y == [c] + b[..k];
    assert x[1..] == a[..k] && y[1..] == b[..k];
  }

  lemma BeginningNext(c: Byte, a: seq<Byte>, b: seq<Byte>)
    ensures [c] + a <= [c] + b <==> a <= b
  {
    var x, y := [c] + a, [c] + b;
    assert x[1..] == a && y[1..] == b;
  }

  lemma NoLaterNext(c: Byte, a: seq<Byte>, b: seq<Byte>)
    ensures NoLater([c] + a, [c] + b) <==> NoLater(a, b)
  {
    var x, y := [c] + a, [c] + b;
    BeginningNext(c, a, b);
    if NoLater(a, b) && !(a <= b) {
      var k :| 0 <= k < |a| && k < |b| && DiffersFirst(a, b, k) && a[k] < b[k];
      DifferenceNext(c, a, b, k);
    }
    if NoLater(x, y) && !(x <= y) {
      var k :| 0 <= k < |x| && k < |y| && DiffersFirst(x, y, k) && x[k] < y[k];
      DifferenceNext(c, a, b, k - 1);
    }
  }

  /** The sign of strcmp is the order of strings. */
  lemma {:induction false} StrcmpOrders(a: seq<Byte>, b: seq<Byte>)
    ensures Strcmp(a, b) <= 0 <==> NoLater(CString(a), CString(b))
    decreases |a|
  {
    var s, t := CString(a), CString(b);
    if s != [] && t != [] {
      if a[0] == b[0] {
        StrcmpOrders(a[1..], b[1..]);
        NoLaterNext(a[0], CString(a[1..]), CString(b[1..]));
      } else {
        assert s[..0] == t[..0] && DiffersFirst(s, t, 0);
      }
    }
  }

  lemma {:induction false} StrcmpReversed(a: seq<Byte>, b: seq<Byte>)
    ensures Strcmp(a, b) == -Strcmp(b, a)
    decreases |a|
  {
    if a != [] && b != [] && a[0] == b[0] != 0 {
      StrcmpReversed(a[1..], b[1..]);
    }
  }

  lemma {:induction false} StrcmpTransitive(a: seq<Byte>, b: seq<Byte>, c: seq<Byte>)
    requires Strcmp(a, b) <= 0 && Strcmp(b, c) <= 0
    ensures Strcmp(a, c) <= 0
    decreases |a|
  {
    if a != [] && b != [] && c != [] && a[0] == b[0] == c[0] != 0 {
      StrcmpTransitive(a[1..], b[1..], c[1..]);
    }
  }
}
