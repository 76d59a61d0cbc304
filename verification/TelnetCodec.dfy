/** The Telnet byte parser and the escaping writers of main/rfc2217_server.c as values:
    what one byte, one read and one whole stream mean, independent of how the stream
    was cut into reads. */
module TelnetCodec {
  import opened Bytes

  const SE: Byte := 0xf0
  const SB: Byte := 0xfa
  const WILL: Byte := 0xfb
  const WONT: Byte := 0xfc
  const DO: Byte := 0xfd
  const DONT: Byte := 0xfe
  const IAC: Byte := 0xff

  const COM_PORT_OPTION: Byte := 0x2c

  /** sizeof(server->suboption). */
  const SUBOPTION_CAPACITY: nat := 16

  datatype Mode = Normal | GotIac | Negotiate

  type Buffer = b: seq<Byte> | |b| == SUBOPTION_CAPACITY
    witness [0, 0, 0, 0, 0, 0, 0, 0, 0, 0, 0, 0, 0, 0, 0, 0]

  type Fill = n: nat | n <= SUBOPTION_CAPACITY

  /** The parser fields of the server. `suboption` is the whole buffer, stale bytes included. */
  datatype Parser = Parser(mode: Mode, command: Byte, collecting: bool, suboption: Buffer, size: Fill) {
    /** Neither inside a Telnet command nor inside a suboption. */
    predicate Idle() {
      mode == Normal && !collecting
    }
  }

  /** What the parser asks the rest of the server to do. */
  datatype Action =
    | Negotiation(command: Byte, option: Byte)
    | Subnegotiation(suboption: Buffer, size: nat)
    | Ignored(command: Byte)

  datatype Decoded = Decoded(parser: Parser, data: seq<Byte>, actions: seq<Action>) {
    /** This result followed by `next`, which started from this result's parser. */
    function Then(next: Decoded): Decoded {
      Decoded(next.parser, data + next.data, actions + next.actions)
    }
  }

  predicate IsNegotiation(c: Byte) {
    c == WILL || c == WONT || c == DO || c == DONT
  }

  /** A payload byte: into the suboption while collecting, to the data callback otherwise.
      A full suboption buffer ends the collection and swallows the byte. */
  function Payload(p: Parser, c: Byte): (r: Decoded)
  {
    if !p.collecting then
      Decoded(p, [c], [])
    else if p.size < SUBOPTION_CAPACITY then
      Decoded(p.(suboption := p.suboption[p.size := c], size := p.size + 1), [], [])
    else
      Decoded(p.(collecting := false, size := 0), [], [])
  }

  function Step(p: Parser, c: Byte): (r: Decoded)
  {
    match p.mode
    case Normal =>
      if c == IAC then Decoded(p.(mode := GotIac), [], []) else Payload(p, c)
    case GotIac =>
      var q := p.(mode := Normal);
      if c == IAC then
        Payload(q, c)
      else if c == SB then
        Decoded(q.(size := 0, collecting := true), [], [])
      else if c == SE then
        Decoded(q.(size := 0, collecting := false), [], [Subnegotiation(p.suboption, p.size)])
      else if IsNegotiation(c) then
        Decoded(p.(command := c, mode := Negotiate), [], [])
      else
        Decoded(q, [], [Ignored(c)])
    case Negotiate =>
      Decoded(p.(mode := Normal), [], [Negotiation(p.command, c)])
  }

  /** The one-pass decoder: the meaning of a stream, whatever reads it arrives in. */
  function Decode(p: Parser, stream: seq<Byte>): (r: Decoded)
    decreases |stream|
  {
    if stream == [] then
      Decoded(p, [], [])
    else
      var d := Decode(p, Front(stream));
      d.Then(Step(d.parser, Last(stream)))
  }

  /** One read from the socket. A read that starts in Normal mode and holds no IAC goes to the
      data callback as it is, even in the middle of a suboption. */
  function Read(p: Parser, read: seq<Byte>): (r: Decoded)
  {
    if p.mode == Normal && IAC !in read then Decoded(p, read, []) else Decode(p, read)
  }

  function ReadAll(p: Parser, cuts: seq<seq<Byte>>): (r: Decoded)
    decreases |cuts|
  {
    if cuts == [] then
      Decoded(p, [], [])
    else
      var d := ReadAll(p, Front(cuts));
      d.Then(Read(d.parser, Last(cuts)))
  }

  /** A read that the shortcut takes away from a suboption in progress. */
  predicate Diverted(p: Parser, read: seq<Byte>) {
    p.mode == Normal && p.collecting && read != [] && IAC !in read
  }

  /** No read of the list is diverted. */
  predicate Faithful(p: Parser, cuts: seq<seq<Byte>>)
    decreases |cuts|
  {
    cuts == [] || (Faithful(p, Front(cuts)) && !Diverted(ReadAll(p, Front(cuts)).parser, Last(cuts)))
  }

  // ---------- Cutting the stream into reads ----------

  lemma ThenAssociates(d: Decoded, e: Decoded, f: Decoded)
    ensures d.Then(e).Then(f) == d.Then(e.Then(f))
  {
  }

  lemma {:induction false} DecodeConcat(p: Parser, a: seq<Byte>, b: seq<Byte>)
    ensures Decode(p, a + b) == Decode(p, a).Then(Decode(Decode(p, a).parser, b))
    decreases |b|
  {
    if b == [] {
      assert a + b == a;
    } else {
      var d := Decode(p, a);
      var e := Decode(d.parser, Front(b));
      var f := Step(e.parser, Last(b));
      DecodeConcat(p, a, Front(b));
      ThenAssociates(d, e, f);
      assert Front(a + b) == a + Front(b) && Last(a + b) == Last(b);
    }
  }

  /** Outside a suboption, a read without IAC is data as it stands. */
  lemma {:induction false} DecodePlain(p: Parser, read: seq<Byte>)
    requires p.Idle() && IAC !in read
    ensures Decode(p, read) == Decoded(p, read, [])
    decreases |read|
  {
    if read != [] {
      DecodePlain(p, Front(read));
      assert Front(read) + [Last(read)] == read;
    }
  }

  /** Inside a suboption, the decoder never passes the first byte of such a read on as data. */
  lemma {:induction false} DecodeCollectingKeepsOne(p: Parser, read: seq<Byte>)
    requires p.mode == Normal && p.collecting && read != [] && IAC !in read
    ensures |Decode(p, read).data| < |read| && Decode(p, read).parser.mode == Normal
    decreases |read|
  {
    if |read| > 1 {
      DecodeCollectingKeepsOne(p, Front(read));
    } else {
      assert Decode(p, Front(read)) == Decoded(p, [], []);
    }
    assert Last(read) in read;
  }

  /** The exact condition under which the shortcut and the byte loop agree on one read. */
  lemma {:induction false} ReadAgreesUnlessDiverted(p: Parser, read: seq<Byte>)
    ensures Read(p, read) == Decode(p, read) <==> !Diverted(p, read)
  {
    if p.mode == Normal && IAC !in read {
      if !p.collecting {
        DecodePlain(p, read);
      } else if read != [] {
        DecodeCollectingKeepsOne(p, read);
      }
    }
  }

  /** Chunk invariance: every split none of whose reads is diverted means what the whole stream means. */
  lemma {:induction false} ChunkInvariance(p: Parser, cuts: seq<seq<Byte>>)
    requires Faithful(p, cuts)
    ensures ReadAll(p, cuts) == Decode(p, Flatten(cuts))
    decreases |cuts|
  {
    if cuts != [] {
      ChunkInvariance(p, Front(cuts));
      ReadAgreesUnlessDiverted(ReadAll(p, Front(cuts)).parser, Last(cuts));
      DecodeConcat(p, Flatten(Front(cuts)), Last(cuts));
    }
  }

  /** A stream that never leaves the parser collecting can be cut anywhere. */
  lemma {:induction false} QuietStreamsAreFaithful(p: Parser, cuts: seq<seq<Byte>>)
    requires forall n :: 0 <= n <= |Flatten(cuts)| ==> !Decode(p, Flatten(cuts)[..n]).parser.collecting
    ensures Faithful(p, cuts)
    decreases |cuts|
  {
    if cuts != [] {
      var head := Flatten(Front(cuts));
      assert forall n :: 0 <= n <= |head| ==> Flatten(cuts)[..n] == head[..n];
      QuietStreamsAreFaithful(p, Front(cuts));
      ChunkInvariance(p, Front(cuts));
      assert head[..|head|] == head;
    }
  }

  // ---------- The stream grammar of RFC 854 and RFC 855 ----------

  datatype Token =
    | Data(byte: Byte)
    | Command(code: Byte)
    | OptionRequest(verb: Byte, option: Byte)
    | Suboption(body: seq<Byte>)
  {
    predicate WellFormed() {
      match this
      case Command(c) => c != IAC && c != SB && c != SE && !IsNegotiation(c)
      case OptionRequest(v, _) => IsNegotiation(v)
      case _ => true
    }

    /** The bytes on the wire. */
    function Wire(): seq<Byte> {
      match this
      case Data(b) => Escape([b])
      case Command(c) => [IAC, c]
      case OptionRequest(v, o) => [IAC, v, o]
      case Suboption(body) => [IAC, SB] + Escape(body) + [IAC, SE]
    }

    /** What a receiver with suboption buffer `buffer` makes of the token. A body that does not fit
        is dropped at its 17th byte; the rest of it comes out as data. */
    function Meaning(p: Parser): Decoded
    {
      match this
      case Data(b) => Decoded(p, [b], [])
      case Command(c) => Decoded(p, [], [Ignored(c)])
      case OptionRequest(v, o) => Decoded(p.(command := v), [], [Negotiation(v, o)])
      case Suboption(body) =>
        var kept := Overlay(p.suboption, body);
        var fits := |body| <= SUBOPTION_CAPACITY;
        Decoded(p.(suboption := kept, size := 0, collecting := false),
                if fits then [] else body[SUBOPTION_CAPACITY + 1..],
                [Subnegotiation(kept, if fits then |body| else 0)])
    }
  }

  /** IAC bytes doubled, as both writers do. */
  function Escape(data: seq<Byte>): seq<Byte> {
    if data == [] then [] else Escape(Front(data)) + if Last(data) == IAC then [IAC, IAC] else [Last(data)]
  }

  /** `buffer` after as much of `body` as fits was written at its start. */
  function Overlay(buffer: Buffer, body: seq<Byte>): Buffer {
    if |body| <= |buffer| then body + buffer[|body|..] else body[..|buffer|]
  }

  function WireAll(tokens: seq<Token>): seq<Byte> {
    if tokens == [] then [] else WireAll(Front(tokens)) + Last(tokens).Wire()
  }

  function MeaningAll(p: Parser, tokens: seq<Token>): (r: Decoded)
    decreases |tokens|
  {
    if tokens == [] then
      Decoded(p, [], [])
    else
      var d := MeaningAll(p, Front(tokens));
      d.Then(Last(tokens).Meaning(d.parser))
  }

  lemma DecodeOne(p: Parser, a: Byte)
    ensures Decode(p, [a]) == Step(p, a)
  {
    assert Front([a]) == [];
    assert Decode(p, []).Then(Step(p, a)) == Step(p, a);
  }

  lemma DecodeTwo(p: Parser, a: Byte, b: Byte)
    ensures Decode(p, [a, b]) == Step(p, a).Then(Step(Step(p, a).parser, b))
  {
    DecodeOne(p, a);
    assert Front([a, b]) == [a];
  }

  lemma DecodeThree(p: Parser, a: Byte, b: Byte, c: Byte)
    ensures Decode(p, [a, b, c]) == Decode(p, [a, b]).Then(Step(Decode(p, [a, b]).parser, c))
  {
    assert Front([a, b, c]) == [a, b];
  }

  /** An escaped payload byte is a payload byte. */
  lemma DecodeEscapedByte(p: Parser, b: Byte)
    requires p.mode == Normal
    ensures Decode(p, Escape([b])) == Payload(p, b)
  {
    assert Front([b]) == [] && Escape([b]) == if b == IAC then [IAC, IAC] else [b];
    if b == IAC {
      DecodeTwo(p, IAC, IAC);
      var got := p.(mode := GotIac);
      assert Step(p, IAC) == Decoded(got, [], []);
      assert got.(mode := Normal) == p;
    } else {
      DecodeOne(p, b);
    }
  }

  lemma EscapeSnoc(data: seq<Byte>)
    requires data != []
    ensures Escape(data) == Escape(Front(data)) + Escape([Last(data)])
  {
    assert Front([Last(data)]) == [];
  }

  lemma DecodeEscapeSnoc(p: Parser, data: seq<Byte>, d: Decoded)
    requires data != []
    requires d == Decode(p, Escape(Front(data))) && d.parser.mode == Normal
    ensures Decode(p, Escape(data)) == d.Then(Payload(d.parser, Last(data)))
  {
    var b := Last(data);
    DecodeEscapedByte(d.parser, b);
    EscapeSnoc(data);
    DecodeConcat(p, Escape(Front(data)), Escape([b]));
  }

  /** The parser after an escaped body, started right after IAC SB. */
  function Collected(p: Parser, body: seq<Byte>): Decoded
  {
    var q := p.(suboption := Overlay(p.suboption, body));
    if |body| <= SUBOPTION_CAPACITY then
      Decoded(q.(size := |body|), [], [])
    else
      Decoded(q.(size := 0, collecting := false), body[SUBOPTION_CAPACITY + 1..], [])
  }

  lemma {:induction false} DecodeBody(p: Parser, body: seq<Byte>)
    requires p.mode == Normal && p.collecting && p.size == 0
    ensures Decode(p, Escape(body)) == Collected(p, body)
    decreases |body|
  {
    if body == [] {
      assert Overlay(p.suboption, body) == p.suboption;
    } else {
      var d := Collected(p, Front(body));
      DecodeBody(p, Front(body));
      CollectedSnoc(p, body);
      DecodeEscapeSnoc(p, body, d);
    }
  }

  lemma CollectedSnoc(p: Parser, body: seq<Byte>)
    requires p.mode == Normal && p.collecting && p.size == 0 && body != []
    ensures var d := Collected(p, Front(body));
            d.parser.mode == Normal && d.Then(Payload(d.parser, Last(body))) == Collected(p, body)
  {
    var d := Collected(p, Front(body));
    var kept := Overlay(p.suboption, Front(body));
    if |body| <= SUBOPTION_CAPACITY {
      assert kept[|body| - 1 := Last(body)] == Overlay(p.suboption, body);
    } else {
      assert kept == Overlay(p.suboption, body);
      if |body| > SUBOPTION_CAPACITY + 1 {
        assert Front(body)[SUBOPTION_CAPACITY + 1..] + [Last(body)] == body[SUBOPTION_CAPACITY + 1..];
      }
    }
  }

  /** One token, decoded from an idle parser, means what the grammar says and leaves the parser idle. */
  lemma {:induction false} DecodeToken(p: Parser, t: Token)
    requires p.Idle() && t.WellFormed()
    ensures Decode(p, t.Wire()) == t.Meaning(p) && t.Meaning(p).parser.Idle()
  {
    match t
    case Data(b) =>
      DecodeEscapedByte(p, b);
    case Command(c) =>
      DecodeTwo(p, IAC, c);
    case OptionRequest(v, o) =>
      DecodeTwo(p, IAC, v);
      DecodeThree(p, IAC, v, o);
    case Suboption(body) =>
      DecodeSuboption(p, body);
  }

  lemma {:induction false} DecodeSuboption(p: Parser, body: seq<Byte>)
    requires p.mode == Normal
    ensures Decode(p, Suboption(body).Wire()) == Suboption(body).Meaning(p)
  {
    DecodeCollected(p, body);
    CollectedClose(p, body);
  }

  /** Opening, body and closing of a suboption, one after the other. */
  lemma DecodeCollected(p: Parser, body: seq<Byte>)
    requires p.mode == Normal
    ensures var d := Collected(p.(size := 0, collecting := true), body);
            var closed := d.parser.(size := 0, collecting := false);
            Decode(p, [IAC, SB] + Escape(body) + [IAC, SE]) ==
            d.Then(Decoded(closed, [], [Subnegotiation(d.parser.suboption, d.parser.size)]))
  {
    var open := p.(size := 0, collecting := true);
    var d := Collected(open, body);
    DecodeOpen(p);
    DecodeBody(open, body);
    DecodeClose(d.parser);
    DecodeParts(p, [IAC, SB], Escape(body), [IAC, SE], Decoded(open, [], []), d);
  }

  lemma DecodeParts(p: Parser, a: seq<Byte>, b: seq<Byte>, c: seq<Byte>, d: Decoded, e: Decoded)
    requires d == Decode(p, a) && e == Decode(d.parser, b) && d.data == [] && d.actions == []
    ensures Decode(p, a + b + c) == e.Then(Decode(e.parser, c))
  {
    DecodeConcat(p, a, b);
    DecodeConcat(p, a + b, c);
    assert d.Then(e) == e;
  }

  lemma CollectedClose(p: Parser, body: seq<Byte>)
    requires p.mode == Normal
    ensures var d := Collected(p.(size := 0, collecting := true), body);
            var closed := d.parser.(size := 0, collecting := false);
            && d.parser.mode == Normal
            && d.Then(Decoded(closed, [], [Subnegotiation(d.parser.suboption, d.parser.size)])) ==
               Suboption(body).Meaning(p)
  {
  }

  lemma DecodeOpen(p: Parser)
    requires p.mode == Normal
    ensures Decode(p, [IAC, SB]) == Decoded(p.(size := 0, collecting := true), [], [])
  {
    DecodeTwo(p, IAC, SB);
  }

  lemma DecodeClose(p: Parser)
    requires p.mode == Normal
    ensures Decode(p, [IAC, SE]) ==
            Decoded(p.(size := 0, collecting := false), [], [Subnegotiation(p.suboption, p.size)])
  {
    DecodeTwo(p, IAC, SE);
  }

  /** The decoder inverts the stream grammar: every sequence of well-formed tokens, from an idle parser. */
  lemma {:induction false} DecodeInvertsWire(p: Parser, tokens: seq<Token>)
    requires p.Idle() && forall t :: t in tokens ==> t.WellFormed()
    ensures Decode(p, WireAll(tokens)) == MeaningAll(p, tokens) && MeaningAll(p, tokens).parser.Idle()
    decreases |tokens|
  {
    if tokens != [] {
      DecodeInvertsWire(p, Front(tokens));
      var d := MeaningAll(p, Front(tokens));
      assert Last(tokens) in tokens;
      DecodeToken(d.parser, Last(tokens));
      DecodeConcat(p, WireAll(Front(tokens)), Last(tokens).Wire());
    }
  }

  // ---------- Data round trip ----------

  lemma DataGrows(p: Parser, data: seq<Byte>)
    requires p.Idle() && data != []
    ensures Decoded(p, Front(data), []).Then(Payload(p, Last(data))) == Decoded(p, data, [])
  {
    assert Front(data) + [Last(data)] == data;
  }

  lemma {:induction false} EscapedDataDecodes(p: Parser, data: seq<Byte>)
    requires p.Idle()
    ensures Decode(p, Escape(data)) == Decoded(p, data, [])
    decreases |data|
  {
    if data != [] {
      EscapedDataDecodes(p, Front(data));
      DecodeEscapeSnoc(p, data, Decoded(p, Front(data), []));
      DataGrows(p, data);
    }
  }

  lemma {:induction false} EscapedDataIsQuiet(p: Parser, data: seq<Byte>, n: nat)
    requires p.Idle() && n <= |Escape(data)|
    ensures !Decode(p, Escape(data)[..n]).parser.collecting
    decreases |data|
  {
    if data != [] {
      var head := Escape(Front(data));
      if n <= |head| {
        EscapedDataIsQuiet(p, Front(data), n);
        assert Escape(data)[..n] == head[..n];
      } else if n < |Escape(data)| {
        EscapedDataDecodes(p, Front(data));
        assert Escape(data)[..n] == head + [IAC];
        DecodeConcat(p, head, [IAC]);
        DecodeOne(p, IAC);
      } else {
        EscapedDataDecodes(p, data);
        assert Escape(data)[..n] == Escape(data);
      }
    }
  }

  /** However the escaped form of `data` is cut into reads, exactly `data` comes out, no action
      is taken and the parser is back where it was. */
  lemma {:induction false} DataRoundTrip(p: Parser, data: seq<Byte>, cuts: seq<seq<Byte>>)
    requires p.Idle() && Flatten(cuts) == Escape(data)
    ensures ReadAll(p, cuts) == Decoded(p, data, [])
  {
    forall n | 0 <= n <= |Flatten(cuts)| ensures !Decode(p, Flatten(cuts)[..n]).parser.collecting {
      EscapedDataIsQuiet(p, data, n);
    }
    QuietStreamsAreFaithful(p, cuts);
    ChunkInvariance(p, cuts);
    EscapedDataDecodes(p, data);
  }

  // ---------- Subnegotiation round trip ----------

  /** What rfc2217_send_subnegotiation puts on the wire; the command byte is not escaped. */
  function Frame(command: Byte, payload: seq<Byte>): seq<Byte> {
    [IAC, SB, COM_PORT_OPTION, command] + Escape(payload) + [IAC, SE]
  }

  /** The frame arrives: one subnegotiation with exactly this body, no data, parser idle again. */
  predicate FrameArrives(p: Parser, command: Byte, payload: seq<Byte>)
  {
    var body := [COM_PORT_OPTION, command] + payload;
    Decode(p, Frame(command, payload)) ==
    Decoded(p.(suboption := Overlay(p.suboption, body), size := 0, collecting := false), [],
            [Subnegotiation(Overlay(p.suboption, body), |body|)])
  }

  /** What the suboption in progress has cost on the wire so far. */
  function Spent(p: Parser): nat
  {
    |Escape(p.suboption[..p.size])| + if p.mode == GotIac then 1 else 0
  }

  lemma StepSpendsOne(p: Parser, c: Byte)
    ensures Spent(Step(p, c).parser) <= Spent(p) + 1
  {
    var r := Step(p, c).parser;
    if r.size == p.size + 1 {
      var kept := r.suboption[..r.size];
      assert Front(kept) == p.suboption[..p.size] && Last(kept) == c;
    }
  }

  /** A suboption can only be reported after its whole escaped form and IAC SE were consumed. */
  lemma {:induction false} SuboptionsCostTheirEscapedForm(p: Parser, stream: seq<Byte>)
    requires p.mode == Normal && p.size == 0
    ensures var d := Decode(p, stream);
            && Spent(d.parser) <= |stream|
            && forall a :: a in d.actions && a.Subnegotiation? ==>
                 a.size <= |a.suboption| && |Escape(a.suboption[..a.size])| + 2 <= |stream|
    decreases |stream|
  {
    if stream != [] {
      SuboptionsCostTheirEscapedForm(p, Front(stream));
      StepSpendsOne(Decode(p, Front(stream)).parser, Last(stream));
    }
  }

  lemma {:induction false} EscapeConcat(a: seq<Byte>, b: seq<Byte>)
    ensures Escape(a + b) == Escape(a) + Escape(b)
    decreases |b|
  {
    if b == [] {
      assert a + b == a;
    } else {
      EscapeConcat(a, Front(b));
      assert Front(a + b) == a + Front(b);
    }
  }

  lemma EscapedHead(command: Byte)
    ensures var head := [COM_PORT_OPTION, command];
            if command == IAC then |Escape(head)| == 3 else Escape(head) == head
  {
    assert Front([COM_PORT_OPTION]) == [] && Escape([COM_PORT_OPTION]) == [COM_PORT_OPTION];
    assert Front([COM_PORT_OPTION, command]) == [COM_PORT_OPTION];
  }

  /** With any command byte but IAC, a frame is the grammar's suboption. */
  lemma FrameIsSuboption(command: Byte, payload: seq<Byte>)
    requires command != IAC
    ensures Frame(command, payload) == Suboption([COM_PORT_OPTION, command] + payload).Wire()
  {
    EscapeConcat([COM_PORT_OPTION, command], payload);
    EscapedHead(command);
  }

  /** A frame with command byte IAC is one byte too short to carry its body. */
  lemma {:induction false} UnescapedIacNeverArrives(p: Parser, payload: seq<Byte>)
    requires p.mode == Normal
    ensures !FrameArrives(p, IAC, payload)
  {
    var head := [COM_PORT_OPTION, IAC];
    var rest := head + Escape(payload) + [IAC, SE];
    assert Frame(IAC, payload) == [IAC, SB] + rest;
    DecodeOpen(p);
    DecodeConcat(p, [IAC, SB], rest);
    SuboptionsCostTheirEscapedForm(p.(size := 0, collecting := true), rest);
    EscapeConcat(head, payload);
    EscapedHead(IAC);
    var a := Subnegotiation(Overlay(p.suboption, head + payload), |head + payload|);
    assert a.size <= |a.suboption| ==> a.suboption[..a.size] == head + payload;
    assert [a][0] in [a];
  }

  /** Exactly when a frame reaches process_subnegotiation whole, from any parser in Normal mode: its
      unescaped command byte must not be IAC, and option, command and payload together must fit the 16-byte
      buffer. */
  lemma {:induction false} FrameArrivesIff(p: Parser, command: Byte, payload: seq<Byte>)
    requires p.mode == Normal
    ensures FrameArrives(p, command, payload) <==> command != IAC && 2 + |payload| <= SUBOPTION_CAPACITY
  {
    if command == IAC {
      UnescapedIacNeverArrives(p, payload);
    } else {
      var body := [COM_PORT_OPTION, command] + payload;
      FrameIsSuboption(command, payload);
      DecodeSuboption(p, body);
      if |body| > SUBOPTION_CAPACITY {
        assert Decode(p, Frame(command, payload)).actions[0].size == 0;
      }
    }
  }
}
