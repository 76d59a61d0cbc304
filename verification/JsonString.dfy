/** wilma_json_print_string of components/wilma/utils.c, and the string grammar of RFC 8259, section 7,
    that its output is read with. */
module JsonString {
  import opened Bytes

  const QUOTE: Byte := 0x22
  const BACKSLASH: Byte := 0x5c

  /** The bytes before the NUL. */
  predicate Text(s: seq<Byte>) {
    0 !in s
  }

  // ---------- Escaping ----------

  /** The letter of a two-character escape. */
  function Letter(c: Byte): Option<Byte> {
    if c == QUOTE || c == BACKSLASH then Some(c)
    else if c == 8 then Some(0x62)
    else if c == 12 then Some(0x66)
    else if c == 10 then Some(0x6e)
    else if c == 13 then Some(0x72)
    else if c == 9 then Some(0x74)
    else None
  }

  function HexDigit(n: nat): Byte
    requires n < 16
  {
    if n < 10 then 0x30 + n else 0x57 + n
  }

  /** One byte of a JSON string. */
  function Escaped(c: Byte): (r: seq<Byte>)
    ensures 1 <= |r| <= 6
  {
    match Letter(c)
    case Some(letter) => [BACKSLASH, letter]
    case None =>
      if c < 32 then [BACKSLASH, 0x75, 0x30, 0x30, HexDigit(c / 16), HexDigit(c % 16)] else [c]
  }

  function Escape(s: seq<Byte>): (r: seq<Byte>)
    ensures |s| <= |r| <= 6 * |s|
  {
    if s == [] then [] else Escape(Front(s)) + Escaped(Last(s))
  }

  /** The printed string, without its NUL. */
  function Printed(s: seq<Byte>): seq<Byte> {
    [QUOTE] + Escape(s) + [QUOTE]
  }

  // ---------- Reading: RFC 8259, section 7 ----------

  function HexValue(c: Byte): Option<nat> {
    if 0x30 <= c <= 0x39 then Some(c - 0x30)
    else if 0x41 <= c <= 0x46 then Some(c - 0x37)
    else if 0x61 <= c <= 0x66 then Some(c - 0x57)
    else None
  }

  /** The character a two-character escape stands for, the solidus included. */
  function Unlettered(letter: Byte): Option<Byte> {
    if letter == QUOTE || letter == BACKSLASH || letter == 0x2f then Some(letter)
    else if letter == 0x62 then Some(8)
    else if letter == 0x66 then Some(12)
    else if letter == 0x6e then Some(10)
    else if letter == 0x72 then Some(13)
    else if letter == 0x74 then Some(9)
    else None
  }

  /** UTF-8 of a code point in the basic plane; lone surrogates have none. */
  function Utf8(code: nat): Option<seq<Byte>>
    requires code < 0x1_0000
  {
    if code < 0x80 then Some([code])
    else if code < 0x800 then Some([0xc0 + code / 0x40, 0x80 + code % 0x40])
    else if 0xd800 <= code < 0xe000 then None
    else Some([0xe0 + code / 0x1000, 0x80 + code / 0x40 % 0x40, 0x80 + code % 0x40])
  }

  /** The bytes one \uXXXX escape stands for. */
  function Unicode(a: Byte, b: Byte, c: Byte, d: Byte): Option<seq<Byte>> {
    var w, x, y, z := HexValue(a), HexValue(b), HexValue(c), HexValue(d);
    if w == None || x == None || y == None || z == None then None
    else Utf8(w.value * 0x1000 + x.value * 0x100 + y.value * 0x10 + z.value)
  }

  /** The first character of a string body, and how many bytes it takes. */
  function Character(s: seq<Byte>): Option<(seq<Byte>, nat)>
    requires s != []
    ensures Character(s).Some? ==> 1 <= Character(s).value.1 <= |s|
  {
    if s[0] == QUOTE || s[0] < 32 then None
    else if s[0] != BACKSLASH then Some(([s[0]], 1))
    else if |s| < 2 then None
    else if s[1] == 0x75 then
      if |s| < 6 then None
      else
        match Unicode(s[2], s[3], s[4], s[5])
        case None => None
        case Some(bytes) => Some((bytes, 6))
    else
      match Unlettered(s[1])
      case None => None
      case Some(c) => Some(([c], 2))
  }

  /** The text between the quotes. */
  function Unescape(s: seq<Byte>): Option<seq<Byte>>
    decreases |s|
  {
    if s == [] then Some([])
    else
      match Character(s)
      case None => None
      case Some((bytes, n)) =>
        match Unescape(s[n..])
        case None => None
        case Some(rest) => Some(bytes + rest)
  }

  /** A whole JSON string, quotes included. */
  function Parse(s: seq<Byte>): Option<seq<Byte>> {
    if |s| >= 2 && s[0] == QUOTE && Last(s) == QUOTE then Unescape(s[1..|s| - 1]) else None
  }

  // ---------- Round trip ----------

  lemma HexRoundTrip(n: nat)
    requires n < 16
    ensures HexValue(HexDigit(n)) == Some(n)
  {
  }

  lemma CharacterOfEscaped(c: Byte, rest: seq<Byte>)
    requires c != 0
    ensures Character(Escaped(c) + rest) == Some(([c], |Escaped(c)|))
  {
    var s := Escaped(c) + rest;
    if Letter(c).None? && c < 32 {
      HexRoundTrip(c / 16);
      HexRoundTrip(c % 16);
      assert s[2] == 0x30 && s[3] == 0x30 && s[4] == HexDigit(c / 16) && s[5] == HexDigit(c % 16);
    }
  }

  lemma {:induction false} EscapeFromFront(s: seq<Byte>)
    requires s != []
    ensures Escape(s) == Escaped(s[0]) + Escape(s[1..])
    decreases |s|
  {
    if |s| == 1 {
      assert Front(s) == [] && s[1..] == [];
    } else {
      var front, rest, last := Escaped(s[0]), s[1..], Escaped(Last(s));
      EscapeFromFront(Front(s));
      assert Front(s)[1..] == Front(rest) && Last(rest) == Last(s) && Front(s)[0] == s[0];
      assert Escape(s) == front + Escape(Front(rest)) + last;
      assert Escape(rest) == Escape(Front(rest)) + last;
    }
  }

  /** Reading back what was escaped gives the text. */
  lemma {:induction false} UnescapeEscape(s: seq<Byte>)
    requires Text(s)
    ensures Unescape(Escape(s)) == Some(s)
    decreases |s|
  {
    if s != [] {
      EscapeFromFront(s);
      assert s[0] in s;
      CharacterOfEscaped(s[0], Escape(s[1..]));
      assert Escape(s)[|Escaped(s[0])|..] == Escape(s[1..]);
      UnescapeEscape(s[1..]);
      assert [s[0]] + s[1..] == s;
    }
  }

  lemma ParsePrinted(s: seq<Byte>)
    requires Text(s)
    ensures Parse(Printed(s)) == Some(s)
    ensures |s| + 2 <= |Printed(s)| <= 6 * |s| + 2
  {
    UnescapeEscape(s);
    assert Printed(s)[1..|Printed(s)| - 1] == Escape(s);
  }

  /** Different texts print differently. */
  lemma PrintingIsInjective(s: seq<Byte>, t: seq<Byte>)
    requires Text(s) && Text(t) && Printed(s) == Printed(t)
    ensures s == t
  {
    ParsePrinted(s);
    ParsePrinted(t);
  }

  // ---------- The shortest form ----------

  lemma {:induction false} EscapeConcat(s: seq<Byte>, t: seq<Byte>)
    ensures Escape(s + t) == Escape(s) + Escape(t)
    decreases |t|
  {
    if t == [] {
      assert s + t == s;
    } else {
      EscapeConcat(s, Front(t));
      assert Front(s + t) == s + Front(t) && Last(s + t) == Last(t);
      Associative(Escape(s), Escape(Front(t)), Escaped(Last(t)));
    }
  }

  lemma EscapeOne(c: Byte)
    ensures Escape([c]) == Escaped(c)
  {
    assert Front([c]) == [];
  }

  /** Bytes of a UTF-8 sequence are never escaped. */
  lemma HighBytes(s: seq<Byte>)
    requires |s| <= 3 && forall i :: 0 <= i < |s| ==> s[i] >= 0x80
    ensures |Escape(s)| == |s|
  {
    if s != [] {
      HighBytes(Front(s));
      assert Last(s) >= 0x80;
    }
  }

  /** No character of a JSON string is written shorter than the printer writes what it stands for. */
  lemma CharacterCosts(e: seq<Byte>)
    requires e != [] && Character(e).Some?
    ensures |Escape(Character(e).value.0)| <= Character(e).value.1
  {
    var bytes := Character(e).value.0;
    if |bytes| == 1 {
      assert bytes == [bytes[0]];
      EscapeOne(bytes[0]);
    } else {
      HighBytes(bytes);
    }
  }

  /** Among all JSON strings that mean a text, the printed one is the shortest. */
  lemma {:induction false} PrintingIsShortest(s: seq<Byte>, e: seq<Byte>)
    requires Unescape(e) == Some(s)
    ensures |Escape(s)| <= |e|
    decreases |e|
  {
    if e != [] {
      var bytes, n := Character(e).value.0, Character(e).value.1;
      var rest := Unescape(e[n..]).value;
      PrintingIsShortest(rest, e[n..]);
      CharacterCosts(e);
      EscapeConcat(bytes, rest);
    }
  }

  /** Of the two ways to write a hexadecimal digit the printer takes the lower-case one. */
  lemma ControlsInHex(c: Byte)
    requires c < 32 && c != 8 && c != 9 && c != 10 && c != 12 && c != 13
    ensures Escaped(c) == [0x5c, 0x75, 0x30, 0x30, if c < 16 then 0x30 else 0x31,
                           if c % 16 < 10 then 0x30 + c % 16 else 0x61 + c % 16 - 10]
  {
  }

  // ---------- The printer ----------

  /** What the measuring pass adds for a byte. */
  function Extra(c: Byte): nat {
    if Letter(c).Some? then 1 else if c < 32 then 5 else 0
  }

  lemma EscapePrefix(s: seq<Byte>, n: nat)
    requires n < |s|
    ensures Escape(s[..n + 1]) == Escape(s[..n]) + Escaped(s[n])
    ensures |Escape(s[..n + 1])| == |Escape(s[..n])| + 1 + Extra(s[n])
  {
    assert Front(s[..n + 1]) == s[..n] && Last(s[..n + 1]) == s[n];
  }

  lemma {:induction false} PrefixIsNoLonger(s: seq<Byte>, n: nat)
    requires n <= |s|
    ensures |Escape(s[..n])| + (|s| - n) <= |Escape(s)|
    decreases |s| - n
  {
    if n < |s| {
      EscapePrefix(s, n);
      PrefixIsNoLonger(s, n + 1);
    } else {
      assert s[..n] == s;
    }
  }

  /** A text in memory: the bytes before the first NUL of an array that has one. */
  ghost predicate TextAt(input: array<Byte>, s: seq<Byte>)
    reads input
  {
    Text(s) && |s| < input.Length && input[..|s|] == s && input[|s|] == 0
  }

  /** What the measuring pass knows after n bytes. */
  predicate Measured(s: seq<Byte>, n: nat, extra: nat) {
    n <= |s| && n + extra == |Escape(s[..n])| && (extra == 0 ==> Escape(s[..n]) == s[..n])
  }

  lemma MeasuredNext(s: seq<Byte>, n: nat, extra: nat)
    requires n < |s| && Measured(s, n, extra)
    ensures Measured(s, n + 1, extra + Extra(s[n]))
  {
    EscapePrefix(s, n);
    if extra + Extra(s[n]) == 0 {
      PlainNext(s, n);
    }
  }

  lemma PlainNext(s: seq<Byte>, n: nat)
    requires n < |s| && Escape(s[..n]) == s[..n] && Extra(s[n]) == 0
    ensures Escape(s[..n + 1]) == s[..n + 1]
  {
    EscapePrefix(s, n);
    assert Escaped(s[n]) == [s[n]];
    assert s[..n + 1] == s[..n] + [s[n]];
  }

  /** The measuring pass: the text's length and how many characters escaping adds to it. */
  method Measure(input: array<Byte>, ghost s: seq<Byte>) returns (length: nat, escapeCharacters: nat)
    requires TextAt(input, s)
    ensures length == |s| && length + escapeCharacters == |Escape(s)|
    ensures escapeCharacters == 0 ==> Escape(s) == s
  {
    length, escapeCharacters := 0, 0;
    TextEnds(input, s, 0);
    while input[length] != 0
      invariant Measured(s, length, escapeCharacters) && (input[length] != 0 <==> length < |s|)
      decreases |s| - length
    {
      TextEnds(input, s, length);
      MeasuredNext(s, length, escapeCharacters);
      var c := input[length];
      if c == QUOTE || c == BACKSLASH || c == 8 || c == 12 || c == 10 || c == 13 || c == 9 {
        escapeCharacters := escapeCharacters + 1;
      } else if c < 32 {
        escapeCharacters := escapeCharacters + 5;
      }
      length := length + 1;
      TextEnds(input, s, length);
    }
    assert s[..|s|] == s;
  }

  /** The first NUL is the one behind the text. */
  lemma TextEnds(input: array<Byte>, s: seq<Byte>, i: nat)
    requires TextAt(input, s) && i <= |s|
    ensures input[i] == 0 <==> i == |s|
    ensures i < |s| ==> input[i] == s[i]
  {
    if i < |s| {
      assert input[i] == input[..|s|][i];
      assert s[i] in s;
    }
  }

  /** sprintf of u00xx, with the NUL that the next character overwrites. */
  method WriteUnicode(output: array<Byte>, at: nat, c: Byte)
    requires at + 5 < output.Length && Letter(c).None? && c < 32
    modifies output
    ensures forall k :: at <= k < at + 5 ==> output[k] == Escaped(c)[k - at + 1]
    ensures forall k :: 0 <= k < at ==> output[k] == old(output[k])
  {
    output[at], output[at + 1], output[at + 2] := 0x75, 0x30, 0x30;
    output[at + 3], output[at + 4] := HexDigit(c / 16), HexDigit(c % 16);
    output[at + 5] := 0;
  }

  /** One turn of the writing loop: the byte itself or its escape. */
  method WriteCharacter(output: array<Byte>, at: nat, c: Byte) returns (next: nat)
    requires at + |Escaped(c)| < output.Length
    modifies output
    ensures next == at + |Escaped(c)|
    ensures forall k :: at <= k < next ==> output[k] == Escaped(c)[k - at]
    ensures forall k :: 0 <= k < at ==> output[k] == old(output[k])
  {
    if c > 31 && c != QUOTE && c != BACKSLASH {
      output[at] := c;
      return at + 1;
    }
    output[at] := BACKSLASH;
    next := at + 1;
    if c == BACKSLASH {
      output[next] := BACKSLASH;
    } else if c == QUOTE {
      output[next] := QUOTE;
    } else if c == 8 {
      output[next] := 0x62;
    } else if c == 12 {
      output[next] := 0x66;
    } else if c == 10 {
      output[next] := 0x6e;
    } else if c == 13 {
      output[next] := 0x72;
    } else if c == 9 {
      output[next] := 0x74;
    } else {
      WriteUnicode(output, next, c);
      next := next + 4;
    }
    next := next + 1;
  }

  /** The same behind the opening quote and what has been written since. */
  method AppendCharacter(output: array<Byte>, at: nat, c: Byte, ghost body: seq<Byte>) returns (next: nat)
    requires at + |Escaped(c)| < output.Length && output[..at] == [QUOTE] + body
    modifies output
    ensures next == at + |Escaped(c)| && output[..next] == [QUOTE] + (body + Escaped(c))
  {
    ghost var written := output[..at];
    next := WriteCharacter(output, at, c);
    assert output[..at] == written;
    assert output[at..next] == Escaped(c);
    assert output[..next] == output[..at] + output[at..next];
    Associative([QUOTE], body, Escaped(c));
  }

  /** The writing loop. */
  method WriteEscaped(input: array<Byte>, output: array<Byte>, ghost s: seq<Byte>) returns (at: nat)
    requires TextAt(input, s) && input != output && output.Length >= |Escape(s)| + 3 && output[0] == QUOTE
    modifies output
    ensures at == 1 + |Escape(s)| && output[..at] == [QUOTE] + Escape(s)
  {
    at := 1;
    var i := 0;
    ghost var body: seq<Byte> := [];
    TextEnds(input, s, 0);
    while input[i] != 0
      invariant i <= |s| && body == Escape(s[..i]) && (input[i] != 0 ==> i < |s|)
      invariant at == 1 + |body| <= |Escape(s)| + 1 && output[..at] == [QUOTE] + body
      decreases |s| - i
    {
      TextEnds(input, s, i);
      EscapePrefix(s, i);
      PrefixIsNoLonger(s, i + 1);
      at := AppendCharacter(output, at, input[i], body);
      body := body + Escaped(s[i]);
      i := i + 1;
      TextEnds(input, s, i);
    }
    TextEnds(input, s, i);
    assert s[..|s|] == s;
  }

  /** The closing quote and the NUL. */
  method Close(output: array<Byte>, outputLength: nat, ghost body: seq<Byte>)
    requires outputLength + 3 <= output.Length && |body| == outputLength
    requires output[..outputLength + 1] == [QUOTE] + body
    modifies output
    ensures output[..outputLength + 2] == [QUOTE] + body + [QUOTE] && output[outputLength + 2] == 0
  {
    output[outputLength + 1] := QUOTE;
    output[outputLength + 2] := 0;
    assert output[..outputLength + 2] == output[..outputLength + 1] + [QUOTE];
  }

  /** Nothing to escape: the text is copied as it is. */
  method CopyPlain(input: array<Byte>, output: array<Byte>, outputLength: nat, ghost s: seq<Byte>)
    requires TextAt(input, s) && outputLength == |s| && input != output && output.Length >= outputLength + 3
    modifies output
    ensures output[..outputLength + 1] == [QUOTE] + s
  {
    output[0] := QUOTE;
    forall i | 0 <= i < outputLength {
      output[1 + i] := input[i];
    }
    assert output[..outputLength + 1] == [QUOTE] + input[..outputLength];
  }

  /** wilma_json_print_string. A null input is refused, because the pointer the code tests in that case is
      still null; so is a null output. The output must have room for the quotes and the NUL. */
  method PrintString(input: array?<Byte>, output: array?<Byte>, ghost s: seq<Byte>) returns (ok: bool)
    requires input != null ==> TextAt(input, s)
    requires input != null && output != null ==> input != output && output.Length >= |Escape(s)| + 3
    modifies if output == null then {} else {output}
    ensures ok <==> input != null && output != null
    ensures ok ==> output[..|Printed(s)|] == Printed(s) && output[|Printed(s)|] == 0
    ensures output != null && !ok ==> output[..] == old(output[..])
  {
    if output == null {
      return false;
    }
    if input == null {
      return false;
    }
    var length, escapeCharacters := Measure(input, s);
    var outputLength := length + escapeCharacters;
    if escapeCharacters == 0 {
      CopyPlain(input, output, outputLength, s);
      Close(output, outputLength, s);
      return true;
    }
    output[0] := QUOTE;
    var at := WriteEscaped(input, output, s);
    Close(output, outputLength, Escape(s));
    return true;
  }
}
