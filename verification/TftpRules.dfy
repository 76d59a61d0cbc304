/** What the receive loop of main/ota-tftp.c does about each input, told from the bytes received alone: the
    rules that RFC 1350 and the loop's own limits give. */
module TftpRules {
  import opened Bytes
  import opened TftpReceiver
  import opened TftpDiscipline

  /** The opcode and the block number on the wire. */
  function WireOpcode(s: Segments): nat {
    var high: nat, low: nat := s[0][0], s[0][1];
    256 * high + low
  }

  function WireNumber(s: Segments): nat {
    var high: nat, low: nat := s[0][2], s[0][3];
    256 * high + low
  }

  /** How the run answers one more input: it ends as `result` says or goes on, `said` is what it adds to the
      log, and `gained` what it accepts. */
  predicate Answers(inputs: seq<Input>, i: Input, callback: bool,
                    result: Option<Err>, said: seq<Output>, gained: seq<seq<Byte>>)
  {
    && Run(inputs + [i], callback).result == result
    && Run(inputs + [i], callback).log == Run(inputs, callback).log + said
    && Payloads(inputs + [i], callback) == Payloads(inputs, callback) + gained
  }

  /** The same of a single step. */
  predicate StepSays(t: Transfer, i: Input, callback: bool,
                     result: Option<Err>, said: seq<Output>, gained: seq<seq<Byte>>)
    requires t.block > 0
  {
    Step(t, i, callback).result == result && Step(t, i, callback).log == t.log + said && Gain(t, i) == gained
  }

  lemma OneMore(inputs: seq<Input>, i: Input, callback: bool,
                result: Option<Err>, said: seq<Output>, gained: seq<seq<Byte>>)
    requires StepSays(Run(inputs, callback), i, callback, result, said, gained)
    ensures Answers(inputs, i, callback, result, said, gained)
  {
    assert Front(inputs + [i]) == inputs;
  }

  /** An error other than a timeout is passed on. */
  lemma ErrorRule(inputs: seq<Input>, code: int, callback: bool)
    requires Run(inputs, callback).result == None
    ensures Answers(inputs, Failed(code), callback, Some(Other(code)), [SentError(4)], [])
  {
    OneMore(inputs, Failed(code), callback, Some(Other(code)), [SentError(4)], []);
  }

  lemma ForeignStep(t: Transfer, i: Input, callback: bool)
    requires t.result == None && t.block > 0 && i.Packet?
    requires WireOpcode(i.segments) != 3 || (WireNumber(i.segments) != t.block - 1 && WireNumber(i.segments) != t.block)
    ensures StepSays(t, i, callback, Some(Value), [SentError(4)], [])
  {
  }

  /** With n blocks accepted, nothing but DATA packets n and n + 1 keeps the loop running: any other packet
      is answered with an error and ends it with ERR_VAL. */
  lemma ForeignRule(inputs: seq<Input>, i: Input, callback: bool)
    requires Run(inputs, callback).result == None && i.Packet?
    requires var n := |Payloads(inputs, callback)|;
             WireOpcode(i.segments) != 3 || (WireNumber(i.segments) != n && WireNumber(i.segments) != n + 1)
    ensures Answers(inputs, i, callback, Some(Value), [SentError(4)], [])
  {
    RunningBlock(inputs, callback);
    ForeignStep(Run(inputs, callback), i, callback);
    OneMore(inputs, i, callback, Some(Value), [SentError(4)], []);
  }

  lemma DuplicateStep(t: Transfer, i: Input, callback: bool, n: nat)
    requires t.result == None && t.block == n + 1 <= 0x1_0000 && i.Packet?
    requires WireOpcode(i.segments) == 3 && WireNumber(i.segments) == n
    ensures StepSays(t, i, callback, None, [Acked(n)], [])
  {
    assert Ack(n) == Acked(n);
  }

  /** DATA packet n again is acknowledged again and otherwise ignored. */
  lemma DuplicateRule(inputs: seq<Input>, i: Input, callback: bool)
    requires Run(inputs, callback).result == None && i.Packet?
    requires WireOpcode(i.segments) == 3 && WireNumber(i.segments) == |Payloads(inputs, callback)|
    ensures Answers(inputs, i, callback, None, [Acked(|Payloads(inputs, callback)|)], [])
  {
    var n := |Payloads(inputs, callback)|;
    RunningBlock(inputs, callback);
    DuplicateStep(Run(inputs, callback), i, callback, n);
    OneMore(inputs, i, callback, None, [Acked(n)], []);
  }

  lemma FailedWriteStep(t: Transfer, i: Input, callback: bool)
    requires t.result == None && t.block > 0 && i.Packet? && i.failing.Some? && i.failing.value < |i.segments|
    requires WireOpcode(i.segments) == 3 && WireNumber(i.segments) == t.block
    ensures StepSays(t, i, callback, Some(Value), Writes(Chunks(i.segments)[..i.failing.value]), [])
  {
  }

  /** A write that fails ends the loop with ERR_VAL; what was written before it stays, nothing is
      acknowledged and nothing accepted. */
  lemma FailedWriteRule(inputs: seq<Input>, i: Input, callback: bool)
    requires Run(inputs, callback).result == None && i.Packet? && i.failing.Some? && i.failing.value < |i.segments|
    requires WireOpcode(i.segments) == 3 && WireNumber(i.segments) == |Payloads(inputs, callback)| + 1
    ensures Answers(inputs, i, callback, Some(Value), Writes(Chunks(i.segments)[..i.failing.value]), [])
  {
    RunningBlock(inputs, callback);
    FailedWriteStep(Run(inputs, callback), i, callback);
    OneMore(inputs, i, callback, Some(Value), Writes(Chunks(i.segments)[..i.failing.value]), []);
  }

  /** What follows the writes of an accepted block: the ACK and, if that could be sent and there is a callback,
      the report of all bytes so far. */
  function Acknowledged(n: nat, acked: bool, callback: bool, received: nat): seq<Output> {
    [Acked(n)] + if acked && callback then [Progress(received)] else []
  }

  /** An accepted packet ends the loop if its ACK could not be sent or it had fewer than 516 bytes. */
  function AfterBlock(i: Input): Option<Err>
    requires i.Packet?
  {
    if i.ackError.Some? then Some(Other(i.ackError.value))
    else if |Flatten(i.segments)| < 516 then Some(Ok)
    else None
  }

  lemma AcceptedLog(t: Transfer, i: Input, callback: bool, received: nat)
    requires t.result == None && 0 < t.block < 0x1_0000 && Accepts(t, i)
    requires received == t.received + |Flatten(Chunks(i.segments))|
    ensures Step(t, i, callback).log ==
            t.log + (Writes(Chunks(i.segments)) + Acknowledged(t.block, i.ackError == None, callback, received))
  {
    var told := ReceiveLog(t, i, callback);
    var writes := Writes(Chunks(i.segments));
    assert Ack(t.block) == Acked(t.block);
    ReceivedCount(t, i, callback);
    Associative(t.log, writes, [Acked(t.block)]);
    Associative(t.log, writes + [Acked(t.block)], told);
    Associative(writes, [Acked(t.block)], told);
  }

  lemma ReceivedCount(t: Transfer, i: Input, callback: bool)
    requires t.result == None && t.block > 0 && Accepts(t, i)
    ensures Receive(t, i, callback).received == t.received + |Flatten(Chunks(i.segments))|
    ensures Receive(t, i, callback).result == AfterBlock(i)
  {
    GatheredChunks(i.segments);
  }

  lemma AcceptStep(t: Transfer, i: Input, callback: bool, n: nat, so: nat)
    requires t.result == None && t.block == n + 1 < 0x1_0000 && t.received == so && i.Packet?
    requires WireOpcode(i.segments) == 3 && WireNumber(i.segments) == n + 1
    requires i.failing == None || i.failing.value >= |i.segments|
    ensures StepSays(t, i, callback, AfterBlock(i), BlockSaid(i, callback, n, so), [Flatten(Chunks(i.segments))])
  {
    AcceptedLog(t, i, callback, so + |Flatten(Chunks(i.segments))|);
    ReceivedCount(t, i, callback);
  }

  /** What block n + 1 adds to the log, `so` many bytes having been received before. */
  function BlockSaid(i: Input, callback: bool, n: nat, so: nat): seq<Output>
    requires i.Packet?
  {
    Writes(Chunks(i.segments)) +
    Acknowledged(n + 1, i.ackError == None, callback, so + |Flatten(Chunks(i.segments))|)
  }

  /** After n blocks with `so` many bytes the packet is written, acknowledged as n + 1 and reported. */
  predicate TakesBlock(inputs: seq<Input>, i: Input, callback: bool, n: nat, so: nat)
    requires i.Packet?
  {
    Answers(inputs, i, callback, AfterBlock(i), BlockSaid(i, callback, n, so), [Flatten(Chunks(i.segments))])
  }

  /** DATA packet n + 1 is written chunk by chunk, acknowledged and reported. */
  lemma AcceptRule(inputs: seq<Input>, i: Input, callback: bool)
    requires Run(inputs, callback).result == None && i.Packet?
    requires WireOpcode(i.segments) == 3 && WireNumber(i.segments) == |Payloads(inputs, callback)| + 1
    requires i.failing == None || i.failing.value >= |i.segments|
    ensures TakesBlock(inputs, i, callback, |Payloads(inputs, callback)|, |Flatten(Payloads(inputs, callback))|)
  {
    var n, so := |Payloads(inputs, callback)|, |Flatten(Payloads(inputs, callback))|;
    Counters(inputs, callback);
    AcceptAt(inputs, i, callback, n, so);
  }

  lemma Counters(inputs: seq<Input>, callback: bool)
    requires Run(inputs, callback).result == None
    ensures Run(inputs, callback).block == |Payloads(inputs, callback)| + 1
    ensures Run(inputs, callback).received == |Flatten(Payloads(inputs, callback))|
  {
    RunsAreConsistent(inputs, callback);
  }

  lemma AcceptAt(inputs: seq<Input>, i: Input, callback: bool, n: nat, so: nat)
    requires Run(inputs, callback).result == None && i.Packet?
    requires Run(inputs, callback).block == n + 1 && Run(inputs, callback).received == so
    requires WireOpcode(i.segments) == 3 && WireNumber(i.segments) == n + 1
    requires i.failing == None || i.failing.value >= |i.segments|
    ensures TakesBlock(inputs, i, callback, n, so)
  {
    AcceptStep(Run(inputs, callback), i, callback, n, so);
    OneMore(inputs, i, callback, AfterBlock(i), BlockSaid(i, callback, n, so), [Flatten(Chunks(i.segments))]);
  }

  /** A running loop was last given a packet only if it was DATA n or n + 1, n being the blocks accepted
      before it. */
  lemma RunningPackets(inputs: seq<Input>, callback: bool)
    requires inputs != [] && Run(inputs, callback).result == None && Last(inputs).Packet?
    ensures var n := |Payloads(Front(inputs), callback)|;
            var s := Last(inputs).segments;
            WireOpcode(s) == 3 && (WireNumber(s) == n || WireNumber(s) == n + 1)
  {
    var front, i := Front(inputs), Last(inputs);
    assert front + [i] == inputs;
    var n := |Payloads(front, callback)|;
    if WireOpcode(i.segments) != 3 || (WireNumber(i.segments) != n && WireNumber(i.segments) != n + 1) {
      ForeignRule(front, i, callback);
    }
  }

  /** With no block accepted, or ten timeouts since the last one, the timeout is final. */
  predicate TimeoutIsFinal(inputs: seq<Input>, callback: bool) {
    Payloads(inputs, callback) == [] || TimeoutsSinceBlock(inputs, callback) == 10
  }

  /** DATA n or n + 1, n being the blocks accepted so far. */
  predicate Welcome(inputs: seq<Input>, i: Input, callback: bool) {
    var n := |Payloads(inputs, callback)|;
    i.Packet? && WireOpcode(i.segments) == 3 && (WireNumber(i.segments) == n || WireNumber(i.segments) == n + 1)
  }

  predicate NextBlock(inputs: seq<Input>, i: Input, callback: bool) {
    i.Packet? && WireOpcode(i.segments) == 3 && WireNumber(i.segments) == |Payloads(inputs, callback)| + 1
  }

  predicate WriteFails(i: Input) {
    i.Packet? && i.failing.Some? && i.failing.value < |i.segments|
  }

  /** Which input ends a running loop with which result. */
  lemma ResultsByInput(inputs: seq<Input>, i: Input, callback: bool)
    requires Run(inputs, callback).result == None
    ensures var result := Run(inputs + [i], callback).result;
            && (result == Some(Timeout) <==> i.TimedOut? && TimeoutIsFinal(inputs, callback))
            && (result == Some(Value) <==>
                  i.Packet? && (!Welcome(inputs, i, callback) || (NextBlock(inputs, i, callback) && WriteFails(i))))
            && (forall code :: result == Some(Other(code)) <==>
                  || i == Failed(code)
                  || (NextBlock(inputs, i, callback) && !WriteFails(i) && i.ackError == Some(code)))
            && (result == Some(Ok) <==>
                  && NextBlock(inputs, i, callback) && !WriteFails(i) && i.ackError == None
                  && |Flatten(i.segments)| < 516)
  {
    match i
    case TimedOut => TimeoutRule(inputs, callback);
    case Failed(code) => ErrorRule(inputs, code, callback);
    case Packet(_, _, _) =>
      if !Welcome(inputs, i, callback) {
        ForeignRule(inputs, i, callback);
      } else if !NextBlock(inputs, i, callback) {
        DuplicateRule(inputs, i, callback);
      } else if WriteFails(i) {
        FailedWriteRule(inputs, i, callback);
      } else {
        AcceptRule(inputs, i, callback);
      }
  }
}
