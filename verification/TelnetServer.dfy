/** The server object of main/rfc2217_server.c: fields, fixed buffers and loops as they are in the
    source, proved against the decoder, the option table and the writers. */
module TelnetServer {
  import opened Bytes
  import opened TelnetCodec
  import opened TelnetNegotiation
  import opened TelnetTranscript

  /** sizeof(send_data) and sizeof(buf) of the two writers. */
  const SEND_DATA_SIZE: nat := 2048
  const FRAME_BUFFER_SIZE: nat := 256

  class Server {
    const config: Config
    const dataBuffer: array<Byte>
    const suboption: array<Byte>

    var telnetMode: Mode
    var telnetCommand: Byte
    var collectingSuboption: bool
    var suboptionSize: nat
    var options: array<Entry>
    var clientIsRfc2217: bool
    var clientSocket: int
    var receiving: bool

    /** What on_data_received was given, call by call. */
    var delivered: seq<seq<Byte>>
    /** Everything else the outside saw, in order. */
    var events: seq<Event>

    ghost predicate Valid()
      reads this
    {
      && suboption.Length == SUBOPTION_CAPACITY
      && dataBuffer.Length > 0
      && suboption != dataBuffer
      && suboptionSize <= SUBOPTION_CAPACITY
    }

    ghost function ParserState(): Parser
      requires Valid()
      reads this, suboption
    {
      Parser(telnetMode, telnetCommand, collectingSuboption, suboption[..], suboptionSize)
    }

    ghost function NegotiatorState(): Negotiator
      reads this, options
    {
      Negotiator(options[..], clientIsRfc2217)
    }

    /** `data` was handed to the data callback, if there is one, in pieces of any size. */
    twostate predicate Delivered(data: seq<Byte>)
      reads this
    {
      Flatten(delivered) == old(Flatten(delivered)) + Visible(data)
    }

    ghost function Visible(data: seq<Byte>): seq<Byte> {
      if config.onData then data else []
    }

    twostate predicate Responded(r: Response)
      reads this, options
    {
      NegotiatorState() == r.negotiator && events == old(events) + r.events
    }

    constructor (config: Config, dataBuffer: array<Byte>)
      requires dataBuffer.Length > 0
      ensures Valid() && fresh(suboption) && fresh(options)
      ensures this.config == config && this.dataBuffer == dataBuffer
      ensures ParserState() == Parser(Normal, 0, false, seq(SUBOPTION_CAPACITY, _ => 0), 0)
      ensures !receiving && delivered == [] && events == []
    {
      this.config := config;
      this.dataBuffer := dataBuffer;
      suboption := new Byte[SUBOPTION_CAPACITY](_ => 0);
      telnetMode, telnetCommand, collectingSuboption, suboptionSize := Normal, 0, false, 0;
      options := new Entry[0];
      clientIsRfc2217, clientSocket, receiving := false, 0, false;
      delivered, events := [], [];
    }

    /** The start of tcp_receive_thread_fn. Suboption bytes of an earlier client stay in the buffer. */
    method AcceptClient(socket: int)
      requires Valid()
      modifies this
      ensures Valid() && fresh(options)
      ensures ParserState() == old(ParserState()).(mode := Normal, collecting := false, size := 0)
      ensures NegotiatorState() == InitialNegotiator()
      ensures clientSocket == socket && receiving
      ensures delivered == old(delivered) && events == old(events)
    {
      clientSocket, receiving := socket, true;
      options := new Entry[|DEFINITIONS|](i requires 0 <= i < |DEFINITIONS| => InitialEntry(DEFINITIONS[i]));
      clientIsRfc2217, collectingSuboption, suboptionSize, telnetMode := false, false, 0, Normal;
      assert options[..] == InitialNegotiator().entries;
    }

    // ---------- Sending ----------

    /** A call of tcp_send; module TelnetSend says what it puts on the wire. */
    method TcpSend(bytes: seq<Byte>)
      modifies this`events
      ensures events == old(events) + [Sent(bytes)]
    {
      events := events + [Sent(bytes)];
    }

    /** One more byte behind those already in the buffer. */
    static method Put(buf: array<Byte>, at: nat, c: Byte, ghost before: seq<Byte>)
      requires at < buf.Length && buf[..at] == before
      modifies buf
      ensures buf[..at + 1] == before + [c]
    {
      buf[at] := c;
      assert buf[..at + 1] == buf[..at] + [c];
    }

    /** rfc2217_server_send_data. With a client connected, the caller must respect the assertion on the
        length. */
    method SendData(data: seq<Byte>) returns (r: int)
      requires clientSocket >= 0 && receiving ==> |data| <= SEND_DATA_SIZE / 2
      modifies this`events
      ensures r == if clientSocket < 0 || !receiving then -1 else 0
      ensures events == old(events) + if r == 0 then [Sent(Escape(data))] else []
    {
      if clientSocket < 0 || !receiving {
        return -1;
      }
      var sendData := new Byte[SEND_DATA_SIZE];
      var copiedSize := 0;
      for i := 0 to |data|
        invariant copiedSize <= 2 * i && events == old(events)
        invariant sendData[..copiedSize] == Escape(data[..i])
      {
        ghost var before := Escape(data[..i]);
        EscapedPrefix(data, i);
        Put(sendData, copiedSize, data[i], before);
        copiedSize := copiedSize + 1;
        if data[i] == IAC {
          Put(sendData, copiedSize, IAC, before + [IAC]);
          copiedSize := copiedSize + 1;
        }
      }
      assert data[..|data|] == data;
      TcpSend(sendData[..copiedSize]);
      return 0;
    }

    /** rfc2217_send_subnegotiation; the frame must fit the local buffer. */
    method SendSubnegotiation(command: Byte, payload: seq<Byte>)
      requires |Escape(payload)| + 6 <= FRAME_BUFFER_SIZE
      modifies this`events
      ensures events == old(events) + [Sent(Frame(command, payload))]
    {
      var buf := new Byte[FRAME_BUFFER_SIZE];
      buf[0], buf[1], buf[2], buf[3] := IAC, SB, COM_PORT_OPTION, command;
      ghost var head := [IAC, SB, COM_PORT_OPTION, command];
      assert buf[..4] == head;
      var bufIndex := EscapeInto(buf, 4, payload, head);
      ghost var body := head + Escape(payload);
      Put(buf, bufIndex, IAC, body);
      bufIndex := bufIndex + 1;
      Put(buf, bufIndex, SE, body + [IAC]);
      bufIndex := bufIndex + 1;
      Associative(body, [IAC], [SE]);
      assert [IAC] + [SE] == [IAC, SE];
      TcpSend(buf[..bufIndex]);
    }

    /** The escaping loop of rfc2217_send_subnegotiation, behind what is in the buffer. */
    static method EscapeInto(buf: array<Byte>, start: nat, payload: seq<Byte>, ghost head: seq<Byte>) returns (at: nat)
      requires start + |Escape(payload)| <= buf.Length && buf[..start] == head
      modifies buf
      ensures at == start + |Escape(payload)|
      ensures buf[..at] == head + Escape(payload)
    {
      at := start;
      for i := 0 to |payload|
        invariant at == start + |Escape(payload[..i])| && at <= buf.Length
        invariant buf[..at] == head + Escape(payload[..i])
      {
        ghost var before := Escape(payload[..i]);
        EscapedPrefix(payload, i);
        if payload[i] == IAC {
          Put(buf, at, IAC, head + before);
          at := at + 1;
          Associative(head, before, [IAC]);
          Associative(head + before, [IAC], [IAC]);
          Associative(head, before, [IAC, IAC]);
        } else {
          Associative(head, before, [payload[i]]);
        }
        Put(buf, at, payload[i], buf[..at]);
        at := at + 1;
      }
      assert payload[..|payload|] == payload;
    }

    static lemma EscapedPrefix(data: seq<Byte>, n: nat)
      requires n < |data|
      ensures Escape(data[..n + 1]) == Escape(data[..n]) + if data[n] == IAC then [IAC, IAC] else [data[n]]
      ensures |Escape(data[..n + 1])| <= |Escape(data)|
    {
      assert Front(data[..n + 1]) == data[..n] && Last(data[..n + 1]) == data[n];
      EscapeConcat(data[..n + 1], data[n + 1..]);
      assert data[..n + 1] + data[n + 1..] == data;
    }

    // ---------- Option negotiation ----------

    method OnClientOk()
      modifies this`clientIsRfc2217, this`events
      ensures Responded(Connect(config, old(NegotiatorState())))
    {
      if !clientIsRfc2217 {
        clientIsRfc2217 := true;
        if config.onConnected {
          events := events + [ClientConnected];
        }
      }
    }

    method SendOption(action: Byte, option: Byte)
      modifies this`events
      ensures events == old(events) + [Sent([IAC, action, option])]
    {
      TcpSend([IAC, action, option]);
    }

    /** telnet_option_process_incoming. */
    method ProcessIncoming(i: nat, command: Byte)
      requires i < options.Length
      modifies this`clientIsRfc2217, this`events, options
      ensures Responded(Process(config, old(NegotiatorState()), i, command))
    {
      if command == options[i].def.ackYes {
        ProcessYes(i);
      } else if command == options[i].def.ackNo {
        ProcessNo(i);
      } else {
        assert options[..] == options[..][i := options[i]];
      }
    }

    /** The peer agrees to the option. */
    method ProcessYes(i: nat)
      requires i < options.Length
      modifies this`clientIsRfc2217, this`events, options
      ensures Responded(Process(config, old(NegotiatorState()), i, old(options[i]).def.ackYes))
    {
      var def, state := options[i].def, options[i].state;
      ghost var after := React(options[i], def.ackYes).entry;
      if state == Requested {
        options[i] := options[i].(state := Active, active := true);
        assert options[..] == old(options[..])[i := after];
        if def.notifies {
          OnClientOk();
        }
      } else if state == Inactive {
        options[i] := options[i].(state := Active);
        if def.replies {
          SendOption(def.sendYes, def.option);
        }
        options[i] := options[i].(active := true);
        assert options[..] == old(options[..])[i := after];
        if def.notifies {
          OnClientOk();
        }
      } else if state == ReallyInactive {
        if def.replies {
          SendOption(def.sendNo, def.option);
        }
      }
      assert options[..] == old(options[..])[i := after];
    }

    /** The peer refuses the option. */
    method ProcessNo(i: nat)
      requires i < options.Length && options[i].def.ackNo != options[i].def.ackYes
      modifies this`clientIsRfc2217, this`events, options
      ensures Responded(Process(config, old(NegotiatorState()), i, old(options[i]).def.ackNo))
    {
      var def, state := options[i].def, options[i].state;
      ghost var after := React(options[i], def.ackNo).entry;
      if state == Requested {
        options[i] := options[i].(state := Inactive, active := false);
      } else if state == Active {
        options[i] := options[i].(state := Inactive);
        if def.replies {
          SendOption(def.sendNo, def.option);
        }
        options[i] := options[i].(active := false);
      }
      assert options[..] == old(options[..])[i := after];
    }

    /** The server is where `r` leaves it, after `log` had been logged. */
    ghost predicate Stands(log: seq<Event>, r: Response)
      reads this, options
    {
      NegotiatorState() == r.negotiator && events == log + r.events
    }

    /** One turn of the loop of telnet_negotiate_option. */
    method TryEntry(i: nat, command: Byte, option: Byte, ghost n: Negotiator, ghost log: seq<Event>)
      returns (known: bool)
      requires i < options.Length == |n.entries|
      requires Stands(log, NegotiateFirst(config, n, command, option, i))
      modifies this`clientIsRfc2217, this`events, options
      ensures Stands(log, NegotiateFirst(config, n, command, option, i + 1))
      ensures known == (n.entries[i].def.option == option)
    {
      NegotiateFirstEntry(config, n, command, option, i, i);
      known := options[i].def.option == option;
      if known {
        ghost var r := NegotiateFirst(config, n, command, option, i);
        ghost var s := Process(config, r.negotiator, i, command);
        ProcessIncoming(i, command);
        Associative(log, r.events, s.events);
      }
    }

    /** telnet_negotiate_option. */
    method NegotiateOption(command: Byte, option: Byte)
      modifies this`clientIsRfc2217, this`events, options
      ensures Responded(TelnetNegotiation.NegotiateOption(config, old(NegotiatorState()), command, option))
    {
      ghost var n, log := NegotiatorState(), events;
      var known := false;
      for i := 0 to options.Length
        invariant Stands(log, NegotiateFirst(config, n, command, option, i))
        invariant known <==> exists k :: 0 <= k < i && n.entries[k].def.option == option
      {
        var matches := TryEntry(i, command, option, n, log);
        known := known || matches;
      }
      if !known {
        NegotiateFirstUnknown(config, n, command, option, options.Length);
        Refuse(command, option);
      }
    }

    /** The answer to a request for an unknown option. */
    method Refuse(command: Byte, option: Byte)
      modifies this`events
      ensures events == old(events) + Refusal(command, option)
    {
      if command == WILL {
        SendOption(DONT, option);
      }
      if command == DO {
        SendOption(WONT, option);
      }
    }

    // ---------- Subnegotiation ----------

    /** process_subnegotiation. */
    method ProcessSubnegotiation()
      requires Valid()
      modifies this`events
      ensures events == old(events) + Subnegotiate(config, suboption[..])
    {
      if suboption[0] != COM_PORT_OPTION {
        return;
      }
      var command := suboption[1];
      if command == SET_BAUDRATE {
        var baudrate := FromBigEndian(suboption[2], suboption[3], suboption[4], suboption[5]);
        var newBaudrate := baudrate;
        if config.onBaudrate.Some? {
          events := events + [BaudrateRequest(baudrate)];
          newBaudrate := config.onBaudrate.value(baudrate);
        }
        SendValue(101, BigEndian(newBaudrate));
      } else if command in ECHOED {
        SendValue(command + 100, [suboption[2]]);
      } else if command == SET_CONTROL {
        var newControl := suboption[2];
        if config.onControl.Some? {
          events := events + [ControlRequest(suboption[2])];
          newControl := config.onControl.value(suboption[2]);
        }
        SendValue(105, [newControl]);
      } else if command == PURGE_DATA {
        SendValue(112, [suboption[2]]);
        if config.onPurge {
          events := events + [PurgeRequest(suboption[2])];
        }
        SendValue(112, [suboption[2]]);
      }
    }

    /** A reply of at most four bytes always fits the frame buffer. */
    method SendValue(command: Byte, payload: seq<Byte>)
      requires |payload| <= 4
      modifies this`events
      ensures events == old(events) + [Sent(Frame(command, payload))]
    {
      EscapeAtMostDoubles(payload);
      SendSubnegotiation(command, payload);
    }

    // ---------- Receiving ----------

    method OnDataReceived(data: seq<Byte>)
      modifies this`delivered
      ensures Delivered(data)
      ensures delivered == old(delivered) + if config.onData then [data] else []
    {
      if config.onData {
        FlattenSnoc(delivered, data);
        delivered := delivered + [data];
      }
    }

    /** At most one piece was handed over, and that was the whole buffer. */
    twostate predicate OnlyFull()
      reads this
    {
      || delivered == old(delivered)
      || (delivered != [] && Front(delivered) == old(delivered) && |Last(delivered)| == dataBuffer.Length)
    }

    /** All pieces handed over since `earlier` were whole buffers. */
    ghost predicate FullSince(earlier: seq<seq<Byte>>)
      reads this
    {
      earlier <= delivered && forall j :: |earlier| <= j < |delivered| ==> |delivered[j]| == dataBuffer.Length
    }

    twostate lemma StillFull(earlier: seq<seq<Byte>>)
      requires old(FullSince(earlier)) && OnlyFull()
      ensures FullSince(earlier)
    {
    }

    /** The flush after the byte loop. */
    method FlushRest(bufferContents: nat, ghost earlier: seq<seq<Byte>>)
      requires bufferContents <= dataBuffer.Length && FullSince(earlier) && dataBuffer.Length > 0
      modifies this`delivered
      ensures Delivered(dataBuffer[..bufferContents]) && earlier <= delivered
      ensures forall j :: |earlier| <= j < |delivered| ==> 0 < |delivered[j]| <= dataBuffer.Length
      ensures forall j :: |earlier| <= j < |delivered| - 1 ==> |delivered[j]| == dataBuffer.Length
    {
      if bufferContents > 0 {
        OnDataReceived(dataBuffer[..bufferContents]);
      }
    }

    /** A payload byte, in Normal mode or after IAC IAC: into the suboption or into the data buffer,
        which is flushed when full. */
    method TakePayload(c: Byte, bufferContents: nat) returns (contents: nat, ghost flushed: seq<Byte>)
      requires Valid() && bufferContents < dataBuffer.Length
      modifies this`collectingSuboption, this`suboptionSize, this`delivered, suboption, dataBuffer
      ensures Valid() && contents < dataBuffer.Length
      ensures ParserState() == Payload(old(ParserState()), c).parser
      ensures old(dataBuffer[..bufferContents]) + Payload(old(ParserState()), c).data ==
              flushed + dataBuffer[..contents]
      ensures Delivered(flushed) && OnlyFull()
    {
      contents, flushed := bufferContents, [];
      if collectingSuboption {
        if suboptionSize < suboption.Length {
          suboption[suboptionSize] := c;
          suboptionSize := suboptionSize + 1;
        } else {
          collectingSuboption := false;
          suboptionSize := 0;
        }
      } else {
        dataBuffer[contents] := c;
        contents := contents + 1;
        assert dataBuffer[..contents] == old(dataBuffer[..bufferContents]) + [c];
        if contents >= dataBuffer.Length {
          flushed := dataBuffer[..contents];
          OnDataReceived(dataBuffer[..contents]);
          contents := 0;
        }
      }
    }

    /** IAC SE. */
    method EndSuboption()
      requires Valid()
      modifies this`telnetMode, this`collectingSuboption, this`suboptionSize, this`events
      ensures Valid()
      ensures ParserState() == old(ParserState()).(mode := Normal, collecting := false, size := 0)
      ensures events == old(events) + Subnegotiate(config, suboption[..])
    {
      ProcessSubnegotiation();
      suboptionSize := 0;
      collectingSuboption := false;
      telnetMode := Normal;
    }

    /** The byte after IAC, unless it is IAC again. */
    method TakeCommand(c: Byte)
      requires Valid() && telnetMode == GotIac && c != IAC
      modifies this`telnetMode, this`telnetCommand, this`collectingSuboption, this`suboptionSize, this`events
      ensures Valid()
      ensures ParserState() == Step(old(ParserState()), c).parser
      ensures Responded(RespondAll(config, old(NegotiatorState()), Step(old(ParserState()), c).actions))
    {
      if c == SB {
        suboptionSize := 0;
        collectingSuboption := true;
        telnetMode := Normal;
      } else if c == SE {
        RespondOne(config, NegotiatorState(), Subnegotiation(suboption[..], suboptionSize));
        EndSuboption();
      } else if c == WILL || c == WONT || c == DO || c == DONT {
        telnetCommand := c;
        telnetMode := Negotiate;
      } else {
        RespondOne(config, NegotiatorState(), Ignored(c));
        telnetMode := Normal;
      }
    }

    /** One byte was taken: `flushed` was handed over, `contents` bytes are held, everything else is as the
        decoder and the responses to its actions say. */
    twostate predicate Took(c: Byte, bufferContents: nat, flushed: seq<Byte>, contents: nat)
      requires old(Valid()) && bufferContents < dataBuffer.Length
      reads this, suboption, dataBuffer, options
    {
      && Valid() && contents < dataBuffer.Length
      && ParserState() == Step(old(ParserState()), c).parser
      && old(dataBuffer[..bufferContents]) + Step(old(ParserState()), c).data == flushed + dataBuffer[..contents]
      && Delivered(flushed) && OnlyFull()
      && Responded(RespondAll(config, old(NegotiatorState()), Step(old(ParserState()), c).actions))
    }

    /** A payload byte in the loop. */
    method TakePlain(c: Byte, bufferContents: nat) returns (contents: nat, ghost flushed: seq<Byte>)
      requires Valid() && bufferContents < dataBuffer.Length
      requires (telnetMode == Normal && c != IAC) || (telnetMode == GotIac && c == IAC)
      modifies this`telnetMode, this`collectingSuboption, this`suboptionSize, this`delivered, suboption, dataBuffer
      ensures Took(c, bufferContents, flushed, contents)
    {
      ghost var p := ParserState();
      telnetMode := Normal;
      contents, flushed := TakePayload(c, bufferContents);
      assert Step(p, c) == Payload(p.(mode := Normal), c);
      assert RespondAll(config, NegotiatorState(), []).events == [];
    }

    /** One turn of the loop of process_received_over_tcp. */
    method TakeByte(c: Byte, bufferContents: nat) returns (contents: nat, ghost flushed: seq<Byte>)
      requires Valid() && bufferContents < dataBuffer.Length
      modifies this`telnetMode, this`telnetCommand, this`collectingSuboption, this`suboptionSize
      modifies this`delivered, this`clientIsRfc2217, this`events, suboption, dataBuffer, options
      ensures Took(c, bufferContents, flushed, contents)
    {
      contents, flushed := bufferContents, [];
      match telnetMode {
        case Normal =>
          if c == IAC {
            telnetMode := GotIac;
          } else {
            contents, flushed := TakePlain(c, contents);
          }
        case GotIac =>
          if c == IAC {
            contents, flushed := TakePlain(c, contents);
          } else {
            TakeCommand(c);
          }
        case Negotiate =>
          RespondOne(config, NegotiatorState(), Negotiation(telnetCommand, c));
          NegotiateOption(telnetCommand, c);
          telnetMode := Normal;
      }
    }

    /** Where the byte loop stands: `d` is decoded, all of it but the bytes held in the buffer handed over
        since `base`, and `r` answered since `log`. */
    ghost predicate Halfway(base: seq<Byte>, log: seq<Event>, d: Decoded, r: Response,
                            flushed: seq<Byte>, contents: nat)
      reads this, suboption, dataBuffer, options
    {
      && Valid() && contents < dataBuffer.Length
      && ParserState() == d.parser
      && flushed + dataBuffer[..contents] == d.data
      && Flatten(delivered) == base + Visible(flushed)
      && Stands(log, r)
    }

    method NextByte(c: Byte, bufferContents: nat, ghost base: seq<Byte>, ghost log: seq<Event>,
                    ghost d: Decoded, ghost r: Response, ghost handed: seq<Byte>, ghost earlier: seq<seq<Byte>>)
      returns (contents: nat, ghost flushed: seq<Byte>)
      requires Halfway(base, log, d, r, handed, bufferContents) && FullSince(earlier)
      ensures FullSince(earlier)
      modifies this`telnetMode, this`telnetCommand, this`collectingSuboption, this`suboptionSize
      modifies this`delivered, this`clientIsRfc2217, this`events, suboption, dataBuffer, options
      ensures var e := Step(d.parser, c);
              Halfway(base, log, d.Then(e), r.Then(RespondAll(config, r.negotiator, e.actions)), flushed, contents)
    {
      ghost var e := Step(d.parser, c);
      ghost var held := dataBuffer[..bufferContents];
      ghost var more;
      contents, more := TakeByte(c, bufferContents);
      StillFull(earlier);
      flushed := handed + more;
      Regroup(handed, held, e.data, more, dataBuffer[..contents]);
      Associative(base, Visible(handed), Visible(more));
      Associative(log, r.events, RespondAll(config, r.negotiator, e.actions).events);
    }

    /** The byte loop of process_received_over_tcp. */
    method ByteLoop(read: seq<Byte>, ghost p: Parser, ghost n: Negotiator,
                    ghost base: seq<Byte>, ghost log: seq<Event>, ghost earlier: seq<seq<Byte>>)
      returns (bufferContents: nat, ghost flushed: seq<Byte>)
      requires Halfway(base, log, Decoded(p, [], []), Response(n, []), [], 0) && FullSince(earlier)
      ensures FullSince(earlier)
      modifies this`telnetMode, this`telnetCommand, this`collectingSuboption, this`suboptionSize
      modifies this`delivered, this`clientIsRfc2217, this`events, suboption, dataBuffer, options
      ensures var d := Decode(p, read);
              Halfway(base, log, d, RespondAll(config, n, d.actions), flushed, bufferContents)
    {
      ghost var d, r := Decoded(p, [], []), Response(n, []);
      bufferContents, flushed := 0, [];
      for i := 0 to |read|
        invariant d == Decode(p, read[..i]) && r == RespondAll(config, n, d.actions)
        invariant Halfway(base, log, d, r, flushed, bufferContents)
        invariant FullSince(earlier)
      {
        ghost var e := Step(d.parser, read[i]);
        bufferContents, flushed := NextByte(read[i], bufferContents, base, log, d, r, flushed, earlier);
        DecodeNext(p, read, i);
        RespondConcat(config, n, d.actions, e.actions);
        d, r := d.Then(e), r.Then(RespondAll(config, r.negotiator, e.actions));
      }
      assert read[..|read|] == read;
    }

    /** The byte loop and the flush after it. The callback gets whole buffers and then the rest. */
    method ProcessBytes(read: seq<Byte>)
      requires Valid()
      modifies this`telnetMode, this`telnetCommand, this`collectingSuboption, this`suboptionSize
      modifies this`delivered, this`clientIsRfc2217, this`events, suboption, dataBuffer, options
      ensures Valid()
      ensures ParserState() == Decode(old(ParserState()), read).parser
      ensures Delivered(Decode(old(ParserState()), read).data)
      ensures Responded(RespondAll(config, old(NegotiatorState()), Decode(old(ParserState()), read).actions))
      ensures old(delivered) <= delivered
      ensures forall j :: |old(delivered)| <= j < |delivered| ==> 0 < |delivered[j]| <= dataBuffer.Length
      ensures forall j :: |old(delivered)| <= j < |delivered| - 1 ==> |delivered[j]| == dataBuffer.Length
    {
      ghost var base, flushed := Flatten(delivered), [];
      var bufferContents;
      bufferContents, flushed := ByteLoop(read, ParserState(), NegotiatorState(), base, events, delivered);
      Associative(base, Visible(flushed), Visible(dataBuffer[..bufferContents]));
      FlushRest(bufferContents, old(delivered));
    }

    static lemma DecodeNext(p: Parser, read: seq<Byte>, i: nat)
      requires i < |read|
      ensures var d := Decode(p, read[..i]);
              Decode(p, read[..i + 1]) == d.Then(Step(d.parser, read[i]))
    {
      assert Front(read[..i + 1]) == read[..i] && Last(read[..i + 1]) == read[i];
    }

    /** What was held and what came in is what was flushed and what is held now. */
    static lemma Regroup(flushed: seq<Byte>, held: seq<Byte>, data: seq<Byte>, more: seq<Byte>, left: seq<Byte>)
      requires held + data == more + left
      ensures flushed + more + left == flushed + held + data
    {
      Associative(flushed, held, data);
      Associative(flushed, more, left);
    }

    /** process_received_over_tcp: a read in Normal mode without IAC skips the byte loop. */
    method ProcessReceived(read: seq<Byte>)
      requires Valid()
      modifies this`telnetMode, this`telnetCommand, this`collectingSuboption, this`suboptionSize
      modifies this`delivered, this`clientIsRfc2217, this`events, suboption, dataBuffer, options
      ensures Valid()
      ensures ParserState() == Read(old(ParserState()), read).parser
      ensures Delivered(Read(old(ParserState()), read).data)
      ensures Responded(RespondAll(config, old(NegotiatorState()), Read(old(ParserState()), read).actions))
    {
      if telnetMode == Normal && IAC !in read {
        OnDataReceived(read);
        return;
      }
      ProcessBytes(read);
    }

    /** The receive loop of one connection: every read until the peer closes. */
    method ReceiveAll(cuts: seq<seq<Byte>>)
      requires Valid()
      modifies this`telnetMode, this`telnetCommand, this`collectingSuboption, this`suboptionSize
      modifies this`delivered, this`clientIsRfc2217, this`events, suboption, dataBuffer, options
      ensures Valid()
      ensures ParserState() == ReadAll(old(ParserState()), cuts).parser
      ensures Delivered(ReadAll(old(ParserState()), cuts).data)
      ensures Responded(RespondAll(config, old(NegotiatorState()), ReadAll(old(ParserState()), cuts).actions))
    {
      ghost var p, n := ParserState(), NegotiatorState();
      ghost var d, r := ReadAll(p, []), RespondAll(config, n, []);
      for i := 0 to |cuts|
        invariant Valid()
        invariant d == ReadAll(p, cuts[..i]) && r == RespondAll(config, n, d.actions)
        invariant ParserState() == d.parser
        invariant Delivered(d.data)
        invariant Responded(r)
      {
        ghost var e := Read(d.parser, cuts[i]);
        assert Front(cuts[..i + 1]) == cuts[..i] && Last(cuts[..i + 1]) == cuts[i];
        RespondConcat(config, n, d.actions, e.actions);
        ProcessReceived(cuts[i]);
        Associative(old(Flatten(delivered)), Visible(d.data), Visible(e.data));
        Associative(old(events), r.events, RespondAll(config, r.negotiator, e.actions).events);
        d, r := d.Then(e), r.Then(RespondAll(config, r.negotiator, e.actions));
      }
      assert cuts[..|cuts|] == cuts;
    }

    /** tcp_receive_thread_fn: a whole connection, from a fresh option table and a parser that keeps nothing
        of the last connection but the stale suboption bytes, up to the disconnection notice. */
    method Serve(socket: int, cuts: seq<seq<Byte>>)
      requires Valid()
      modifies this, suboption, dataBuffer
      ensures Valid() && fresh(options)
      ensures var d := ReadAll(old(ParserState()).(mode := Normal, collecting := false, size := 0), cuts);
              var r := RespondAll(config, InitialNegotiator(), d.actions);
              && ParserState() == d.parser
              && Delivered(d.data)
              && Flatten(delivered) == old(Flatten(delivered)) + (if config.onData then d.data else [])
              && NegotiatorState() == r.negotiator
              && events == old(events) + r.events + (if config.onDisconnected then [ClientDisconnected] else [])
              && r.events == Transcript(config, d.actions)
    {
      AcceptClient(socket);
      ReceiveAll(cuts);
      ghost var p := old(ParserState()).(mode := Normal, collecting := false, size := 0);
      TranscriptHolds(config, ReadAll(p, cuts).actions);
      if config.onDisconnected {
        events := events + [ClientDisconnected];
      }
    }
  }

  lemma {:induction false} EscapeAtMostDoubles(data: seq<Byte>)
    ensures |Escape(data)| <= 2 * |data|
    decreases |data|
  {
    if data != [] {
      EscapeAtMostDoubles(Front(data));
    }
  }
}
