/** TFTP requests of main/ota-tftp.c: finding the numbered strings of a request, writing one, and
    serving one up to the choice of the boot partition. */
module TftpRequest {
  import opened Bytes
  import opened TftpReceiver
  import opened TftpDiscipline
  import opened TftpProtocol

  const OP_RRQ: Byte := 1
  const OP_WRQ: nat := 2
  const ERR_FILENOTFOUND: nat := 1

  /** "rocom.bin" and "octet", without their NULs. */
  const FIRMWARE_FILE: seq<Byte> := [0x72, 0x6f, 0x63, 0x6f, 0x6d, 0x2e, 0x62, 0x69, 0x6e]
  const OCTET_MODE: seq<Byte> := [0x6f, 0x63, 0x74, 0x65, 0x74]

  // ---------- The k-th string ----------

  /** NUL-free. */
  predicate Name(s: seq<Byte>) {
    forall i :: 0 <= i < |s| ==> s[i] != 0
  }

  /** The strings one after the other, each with its NUL, and then `rest`. */
  function Joined(names: seq<seq<Byte>>, rest: seq<Byte>): seq<Byte> {
    if names == [] then rest else names[0] + [0] + Joined(names[1..], rest)
  }

  /** The k-th NUL-terminated string of `s`, its NUL included. */
  function Field(k: nat, s: seq<Byte>): Option<seq<Byte>>
    decreases |s|
  {
    if Name(s) then
      None
    else
      var z := FirstNul(s);
      if k == 0 then Some(s[..z + 1]) else Field(k - 1, s[z + 1..])
  }

  function FirstNul(s: seq<Byte>): (z: nat)
    requires !Name(s)
    ensures z < |s| && s[z] == 0 && Name(s[..z])
  {
    if s[0] == 0 then 0 else
      assert forall i :: 0 < i < |s| ==> s[i] == s[1..][i - 1];
      FirstNul(s[1..]) + 1
  }

  /** The first string of `name + [0] + rest`, and the strings after it. */
  lemma FieldHead(k: nat, name: seq<Byte>, rest: seq<Byte>)
    requires Name(name)
    ensures Field(k, name + [0] + rest) == if k == 0 then Some(name + [0]) else Field(k - 1, rest)
  {
    var s := name + [0] + rest;
    assert s[|name|] == 0;
    var z := FirstNul(s);
    assert z >= |name| by {
      assert forall i :: 0 <= i < |name| ==> s[i] == name[i];
    }
    assert z <= |name| by {
      assert forall i :: 0 <= i < z ==> s[..z][i] == s[i];
    }
    assert s[..z + 1] == name + [0] && s[z + 1..] == rest;
  }

  /** The k-th string is found exactly when there is one, and NULL stands for fewer than k + 1
      terminators. Every byte string is Joined(names, rest) for some names and NUL-free rest. */
  lemma {:induction false} FieldOfJoined(names: seq<seq<Byte>>, rest: seq<Byte>, k: nat)
    requires Name(rest) && forall i :: 0 <= i < |names| ==> Name(names[i])
    ensures Field(k, Joined(names, rest)) == if k < |names| then Some(names[k] + [0]) else None
    decreases |names|
  {
    if names != [] {
      FieldHead(k, names[0], Joined(names[1..], rest));
      if k > 0 {
        FieldOfJoined(names[1..], rest, k - 1);
      }
    }
  }

  lemma {:induction false} EveryStringIsJoined(s: seq<Byte>) returns (names: seq<seq<Byte>>, rest: seq<Byte>)
    ensures s == Joined(names, rest) && Name(rest) && forall i :: 0 <= i < |names| ==> Name(names[i])
    decreases |s|
  {
    if Name(s) {
      names, rest := [], s;
    } else {
      var z := FirstNul(s);
      names, rest := EveryStringIsJoined(s[z + 1..]);
      assert s == s[..z] + [0] + s[z + 1..];
      names := [s[..z]] + names;
    }
  }

  /** What follows the opcode. */
  function Body(packet: seq<Byte>): seq<Byte> {
    if |packet| < 2 then [] else packet[2..]
  }

  /** The scan from `offs` on, inside the string that began at `start`. */
  function Scan(field: nat, packet: seq<Byte>, start: nat, offs: nat): Option<seq<Byte>>
    requires start <= offs
    decreases |packet| - offs
  {
    if offs >= |packet| then None
    else if packet[offs] != 0 then Scan(field, packet, start, offs + 1)
    else if field == 0 then Some(packet[start..offs + 1])
    else Scan(field - 1, packet, offs + 1, offs + 1)
  }

  predicate NoNul(packet: seq<Byte>, start: nat, offs: nat)
    requires offs <= |packet|
  {
    forall i :: start <= i < offs ==> packet[i] != 0
  }

  lemma {:induction false} ScanFindsField(field: nat, packet: seq<Byte>, start: nat, offs: nat)
    requires start <= offs <= |packet| && NoNul(packet, start, offs)
    ensures Scan(field, packet, start, offs) == Field(field, packet[start..])
    decreases |packet| - offs
  {
    if offs == |packet| {
      assert Name(packet[start..]);
    } else if packet[offs] != 0 {
      ScanFindsField(field, packet, start, offs + 1);
    } else {
      FieldAt(field, packet, start, offs);
      if field > 0 {
        ScanFindsField(field - 1, packet, offs + 1, offs + 1);
      }
    }
  }

  lemma FieldAt(field: nat, packet: seq<Byte>, start: nat, offs: nat)
    requires start <= offs < |packet| && NoNul(packet, start, offs) && packet[offs] == 0
    ensures Field(field, packet[start..]) ==
            if field == 0 then Some(packet[start..offs + 1]) else Field(field - 1, packet[offs + 1..])
  {
    var name, rest := packet[start..offs], packet[offs + 1..];
    FieldHead(field, name, rest);
    assert packet[start..] == name + [0] + rest;
    assert packet[start..offs + 1] == name + [0];
  }

  /** tftp_get_field: one scan with an offset, a field counter and the bounds of the wanted field. */
  method GetField(number: nat, packet: seq<Byte>) returns (r: Option<seq<Byte>>)
    ensures r == Field(number, Body(packet))
  {
    if |packet| >= 2 {
      ScanFindsField(number, packet, 2, 2);
    }
    var field: int := number;
    var offs: nat := 2;
    var fieldOffs: nat := 2;
    var fieldLen: nat := 0;
    ghost var start: nat := 2;
    while field >= 0 && offs < |packet|
      invariant field >= -1 && start <= offs
      invariant field == -1 ==>
                  fieldOffs + fieldLen <= |packet| &&
                  Scan(number, packet, 2, 2) == Some(packet[fieldOffs..fieldOffs + fieldLen])
      invariant field >= 0 ==> Scan(number, packet, 2, 2) == Scan(field, packet, start, offs)
      invariant field >= 0 ==> fieldLen == if field == 0 then offs - start else 0
      invariant field == 0 ==> fieldOffs == start
      decreases |packet| - offs
    {
      var c := packet[offs];
      offs := offs + 1;
      if field == 0 {
        fieldLen := fieldLen + 1;
      }
      if c == 0 {
        field := field - 1;
        start := offs;
        if field == 0 {
          fieldOffs := offs;
        }
      }
    }
    if field != -1 {
      return None;
    }
    return Some(packet[fieldOffs..fieldOffs + fieldLen]);
  }

  // ---------- Writing a request ----------

  /** A read request as RFC 1350 section 5 lays it out. */
  function ReadRequest(name: seq<Byte>): seq<Byte> {
    [0, OP_RRQ] + name + [0] + OCTET_MODE + [0]
  }

  /** tftp_send_rrq: two strcpy calls into a buffer of 4 + |name| + |mode| bytes, which they fill exactly. */
  method BuildReadRequest(name: seq<Byte>) returns (buffer: array<Byte>)
    requires Name(name)
    ensures fresh(buffer) && buffer.Length == 4 + |name| + |OCTET_MODE|
    ensures buffer[..] == ReadRequest(name)
  {
    buffer := new Byte[4 + |name| + |OCTET_MODE|];
    buffer[0], buffer[1] := 0, OP_RRQ;
    Strcpy(buffer, 2, name);
    ghost var head := buffer[..3 + |name|];
    assert head == [0, OP_RRQ] + name + [0];
    Strcpy(buffer, 2 + |name| + 1, OCTET_MODE);
    assert buffer[..] == buffer[..3 + |name|] + buffer[3 + |name|..];
  }

  method Strcpy(buffer: array<Byte>, at: nat, s: seq<Byte>)
    requires at + |s| < buffer.Length
    modifies buffer
    ensures buffer[..] == old(buffer[..at]) + s + [0] + old(buffer[at + |s| + 1..])
  {
    for i := 0 to |s|
      invariant forall j :: 0 <= j < buffer.Length ==>
                  buffer[j] == if at <= j < at + i then s[j - at] else old(buffer[j])
    {
      buffer[at + i] := s[i];
    }
    buffer[at + |s|] := 0;
  }

  /** The request read back: field 0 is the name, field 1 the mode, both with their NULs, and there is no
      third. */
  lemma RequestRoundTrip(name: seq<Byte>)
    requires Name(name)
    ensures Field(0, Body(ReadRequest(name))) == Some(name + [0])
    ensures Field(1, Body(ReadRequest(name))) == Some(OCTET_MODE + [0])
    ensures Field(2, Body(ReadRequest(name))) == None
  {
    var names: seq<seq<Byte>> := [name, OCTET_MODE];
    assert names[1..] == [OCTET_MODE] && names[1..][1..] == [];
    assert Joined(names[1..], []) == OCTET_MODE + [0] + [];
    assert Joined(names, []) == name + [0] + (OCTET_MODE + [0] + []);
    assert Body(ReadRequest(name)) == Joined(names, []);
    assert Name(OCTET_MODE);
    FieldOfJoined(names, [], 0);
    FieldOfJoined(names, [], 1);
    FieldOfJoined(names, [], 2);
  }

  /** A read request byte by byte: opcode 1, the name, and "octet", each string with its NUL. */
  lemma RequestLayout(name: seq<Byte>)
    ensures ReadRequest(name) == [0, 1] + name + [0, 0x6f, 0x63, 0x74, 0x65, 0x74, 0]
  {
    var head: seq<Byte> := [0, 1] + name;
    Associative(head, [0], OCTET_MODE);
    Associative(head, [0] + OCTET_MODE, [0]);
    assert [0] + OCTET_MODE + [0] == [0, 0x6f, 0x63, 0x74, 0x65, 0x74, 0];
  }

  // ---------- Serving a write request ----------

  predicate IsWriteRequest(packet: seq<Byte>) {
    && |packet| >= 6
    && NetworkOrder(packet[0], packet[1]) == OP_WRQ
    && Field(0, packet[2..]) == Some(FIRMWARE_FILE + [0])
    && Field(1, packet[2..]) == Some(OCTET_MODE + [0])
  }

  /** What a packet that is not such a request gets back. */
  function Refusal(packet: seq<Byte>): seq<Output> {
    if |packet| < 6 || NetworkOrder(packet[0], packet[1]) != OP_WRQ then []
    else if Field(0, packet[2..]) != Some(FIRMWARE_FILE + [0]) then [SentError(ERR_FILENOTFOUND)]
    else [SentError(ERR_ILLEGAL)]
  }

  /** "rocom.bin" and "octet" with their NULs, byte by byte. */
  const FIRMWARE_FIELD: seq<Byte> := [0x72, 0x6f, 0x63, 0x6f, 0x6d, 0x2e, 0x62, 0x69, 0x6e, 0]
  const OCTET_FIELD: seq<Byte> := [0x6f, 0x63, 0x74, 0x65, 0x74, 0]

  /** The first string of a body is this one exactly if the body begins with it and its NUL. */
  lemma FirstFieldIff(body: seq<Byte>, name: seq<Byte>)
    requires Name(name)
    ensures Field(0, body) == Some(name + [0]) <==> name + [0] <= body
  {
    if name + [0] <= body {
      var rest := body[|name| + 1..];
      assert body == name + [0] + rest;
      FieldHead(0, name, rest);
    }
  }

  /** And the second is the first of what follows. */
  lemma SecondFieldIff(body: seq<Byte>, first: seq<Byte>, second: seq<Byte>)
    requires Name(first) && Name(second) && first + [0] <= body
    ensures Field(1, body) == Some(second + [0]) <==> second + [0] <= body[|first| + 1..]
  {
    var rest := body[|first| + 1..];
    assert body == first + [0] + rest;
    FieldHead(1, first, rest);
    FirstFieldIff(rest, second);
  }

  /** A packet asks for the firmware if and only if it begins with opcode 2, the file name and then the mode,
      both terminated. */
  lemma WriteRequestIff(packet: seq<Byte>)
    ensures IsWriteRequest(packet) <==> [0, 2] + FIRMWARE_FIELD + OCTET_FIELD <= packet
  {
    assert FIRMWARE_FIELD == FIRMWARE_FILE + [0] && OCTET_FIELD == OCTET_MODE + [0];
    if |packet| >= 6 && packet[0] == 0 && packet[1] == 2 {
      var body := packet[2..];
      assert packet == [0, 2] + body;
      FirstFieldIff(body, FIRMWARE_FILE);
      if FIRMWARE_FIELD <= body {
        var rest := body[10..];
        SecondFieldIff(body, FIRMWARE_FILE, OCTET_MODE);
        assert body == FIRMWARE_FIELD + rest;
        PrefixOfRest([0, 2] + FIRMWARE_FIELD, OCTET_FIELD, rest);
        assert packet == [0, 2] + FIRMWARE_FIELD + rest;
      } else {
        NotThere([0, 2], FIRMWARE_FIELD, OCTET_FIELD, body);
      }
    } else if [0, 2] + FIRMWARE_FIELD + OCTET_FIELD <= packet {
      assert packet[0] == ([0, 2] + FIRMWARE_FIELD + OCTET_FIELD)[0];
      assert packet[1] == ([0, 2] + FIRMWARE_FIELD + OCTET_FIELD)[1];
    }
  }

  lemma PrefixOfRest(head: seq<Byte>, part: seq<Byte>, rest: seq<Byte>)
    ensures part <= rest <==> head + part <= head + rest
  {
    assert part == (head + part)[|head|..] && rest == (head + rest)[|head|..];
    if head + part <= head + rest {
      forall k | 0 <= k < |part| ensures part[k] == rest[k] {
        assert part[k] == (head + part)[|head| + k] == (head + rest)[|head| + k];
      }
    }
  }

  lemma NotThere(head: seq<Byte>, first: seq<Byte>, second: seq<Byte>, body: seq<Byte>)
    requires !(first <= body)
    ensures !(head + first + second <= head + body)
  {
    Associative(head, first, second);
    PrefixOfRest(head, first + second, body);
    assert first <= first + second;
  }

  /** What the others get: nothing without opcode 2 or with fewer than six bytes, error 1 for another file,
      error 4 for another mode. */
  lemma RefusalRule(packet: seq<Byte>)
    requires !([0, 2] + FIRMWARE_FIELD + OCTET_FIELD <= packet)
    ensures Refusal(packet) ==
            if |packet| < 6 || packet[0] != 0 || packet[1] != 2 then []
            else if !(FIRMWARE_FIELD <= packet[2..]) then [SentError(1)]
            else [SentError(4)]
  {
    assert FIRMWARE_FIELD == FIRMWARE_FILE + [0];
    if |packet| >= 6 {
      FirstFieldIff(packet[2..], FIRMWARE_FILE);
    }
  }

  /** One turn of the loop of tftp_task: true if it goes on to set the boot partition. `ackFails` is the
      outcome of acknowledging the request, `inputs` what tftp_receive_data is then given. */
  method ServeRequest(receiver: Receiver, packet: seq<Byte>, ackFails: bool, inputs: seq<Input>) returns (boots: bool)
    modifies receiver
    ensures boots <==> IsWriteRequest(packet) && !ackFails && Run(inputs, false).result == Some(Ok)
    ensures receiver.log == old(receiver.log) +
              if !IsWriteRequest(packet) then Refusal(packet)
              else [Acked(0)] + if ackFails then [] else Run(inputs, false).log
  {
    if |packet| < 6 {
      return false;
    }
    if NetworkOrder(packet[0], packet[1]) != OP_WRQ {
      return false;
    }
    var filename := GetField(0, packet);
    if filename != Some(FIRMWARE_FILE + [0]) {
      receiver.Emit(SentError(ERR_FILENOTFOUND));
      return false;
    }
    var mode := GetField(1, packet);
    if mode != Some(OCTET_MODE + [0]) {
      receiver.Emit(SentError(ERR_ILLEGAL));
      return false;
    }
    boots := ReceiveFile(receiver, ackFails, inputs);
  }

  /** The request is acknowledged and the file received. */
  method ReceiveFile(receiver: Receiver, ackFails: bool, inputs: seq<Input>) returns (boots: bool)
    modifies receiver
    ensures boots <==> !ackFails && Run(inputs, false).result == Some(Ok)
    ensures receiver.log == old(receiver.log) + ([Acked(0)] + if ackFails then [] else Run(inputs, false).log)
  {
    receiver.Emit(Ack(0));
    if ackFails {
      return false;
    }
    var result := receiver.ReceiveData(inputs, false);
    return result == Some(Ok);
  }

  /** The boot partition is only ever chosen with the whole file of the sender in flash. */
  lemma BootsOnlyCompleteFiles(file: seq<Byte>, events: seq<Event>)
    requires Behaviour(file, events, false) && Run(After(file, events).inputs, false).result == Some(Ok)
    ensures Written([Acked(0)] + Run(After(file, events).inputs, false).log) == file
  {
    Safety(file, events, false);
    var log := Run(After(file, events).inputs, false).log;
    WrittenConcat([Acked(0)], log);
    assert Front([Acked(0)]) == [];
  }
}
