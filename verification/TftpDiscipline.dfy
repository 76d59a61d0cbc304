/** What tftp_receive_data guarantees on its own, for every sequence of inputs, whoever sends the
    packets: what is in flash, which acknowledgements went out when, and how often it retransmits. */
module TftpDiscipline {
  import opened Bytes
  import opened TftpReceiver

  /** The packet is accepted: expected, and every chunk of it reaches the flash. */
  predicate Accepts(t: Transfer, i: Input) {
    t.result == None && Expected(t, i) && !WritesFail(i)
  }

  /** The data of one accepted packet. */
  function Content(i: Input): seq<Byte>
    requires i.Packet?
  {
    Flatten(Chunks(i.segments))
  }

  /** The data of the accepted packets, in order. */
  function Payloads(inputs: seq<Input>, callback: bool): seq<seq<Byte>> {
    if inputs == [] then []
    else Payloads(Front(inputs), callback) + Gain(Run(Front(inputs), callback), Last(inputs))
  }

  function Gain(t: Transfer, i: Input): seq<seq<Byte>> {
    if Accepts(t, i) then [Content(i)] else []
  }

  // ---------- The log ----------

  lemma {:induction false} WrittenConcat(a: seq<Output>, b: seq<Output>)
    ensures Written(a + b) == Written(a) + Written(b)
    decreases |b|
  {
    if b == [] {
      assert a + b == a;
    } else {
      WrittenConcat(a, Front(b));
      assert Front(a + b) == a + Front(b) && Last(a + b) == Last(b);
      var last := if Last(b).Wrote? then Last(b).chunk else [];
      assert Written(a) + (Written(Front(b)) + last) == Written(a) + Written(Front(b)) + last;
    }
  }

  lemma {:induction false} WrittenWrites(chunks: seq<seq<Byte>>)
    ensures Written(Writes(chunks)) == Flatten(chunks)
    decreases |chunks|
  {
    if chunks != [] {
      WrittenWrites(Front(chunks));
      assert Front(Writes(chunks)) == Writes(Front(chunks));
    }
  }

  lemma WrittenOne(log: seq<Output>, o: Output)
    ensures Written(log + [o]) == Written(log) + if o.Wrote? then o.chunk else []
  {
    assert Front(log + [o]) == log;
  }

  /** When an acknowledgement of block n left, exactly the payloads of blocks 1 to n were in flash. */
  predicate Backed(log: seq<Output>, payloads: seq<seq<Byte>>) {
    forall k :: 0 <= k < |log| ==> BackedAt(log, payloads, k)
  }

  predicate BackedAt(log: seq<Output>, payloads: seq<seq<Byte>>, k: nat)
    requires k < |log|
  {
    log[k].Acked? ==> log[k].number <= |payloads| && Written(log[..k]) == Flatten(payloads[..log[k].number])
  }

  /** Acknowledgement numbers never decrease. */
  predicate Ordered(log: seq<Output>) {
    forall j, k :: 0 <= j < k < |log| ==> OrderedAt(log, j, k)
  }

  predicate OrderedAt(log: seq<Output>, j: nat, k: nat)
    requires j < k < |log|
  {
    log[j].Acked? && log[k].Acked? ==> log[j].number <= log[k].number
  }

  /** Flash holds exactly these payloads and the acknowledgements were in order. */
  predicate Sound(log: seq<Output>, payloads: seq<seq<Byte>>) {
    Written(log) == Flatten(payloads) && Backed(log, payloads) && Ordered(log)
  }

  lemma BackedPrefix(log: seq<Output>, payloads: seq<seq<Byte>>, tail: seq<Output>, more: seq<seq<Byte>>)
    requires Backed(log, payloads) && Ordered(log) && forall k :: 0 <= k < |tail| ==> !tail[k].Acked?
    ensures Backed(log + tail, payloads + more) && Ordered(log + tail)
  {
    var longer, all := log + tail, payloads + more;
    assert forall j :: 0 <= j < |tail| ==> longer[|log| + j] == tail[j];
    forall k | 0 <= k < |longer| ensures BackedAt(longer, all, k) {
      if k < |log| {
        assert BackedAt(log, payloads, k);
        assert longer[..k] == log[..k];
        assert log[k].Acked? ==> all[..log[k].number] == payloads[..log[k].number];
      }
    }
    forall j, k | 0 <= j < k < |longer| ensures OrderedAt(longer, j, k) {
      if k < |log| {
        assert OrderedAt(log, j, k);
      }
    }
  }

  lemma AppendPayload(log: seq<Output>, payloads: seq<seq<Byte>>, chunks: seq<seq<Byte>>)
    requires Sound(log, payloads)
    ensures Sound(log + Writes(chunks), payloads + [Flatten(chunks)])
  {
    BackedPrefix(log, payloads, Writes(chunks), [Flatten(chunks)]);
    WrittenConcat(log, Writes(chunks));
    WrittenWrites(chunks);
    FlattenSnoc(payloads, Flatten(chunks));
  }

  lemma AppendAck(log: seq<Output>, payloads: seq<seq<Byte>>)
    requires Sound(log, payloads)
    ensures Sound(log + [Acked(|payloads|)], payloads)
  {
    var longer := log + [Acked(|payloads|)];
    forall k | 0 <= k < |longer| ensures BackedAt(longer, payloads, k) {
      if k < |log| {
        assert BackedAt(log, payloads, k);
        assert longer[..k] == log[..k];
      } else {
        assert longer[..k] == log && payloads[..|payloads|] == payloads;
      }
    }
    forall j, k | 0 <= j < k < |longer| ensures OrderedAt(longer, j, k) {
      assert BackedAt(log, payloads, j);
      assert k < |log| ==> OrderedAt(log, j, k);
    }
    WrittenOne(log, Acked(|payloads|));
  }

  lemma AppendOther(log: seq<Output>, payloads: seq<seq<Byte>>, o: Output)
    requires Sound(log, payloads) && !o.Acked? && !o.Wrote?
    ensures Sound(log + [o], payloads)
  {
    BackedPrefix(log, payloads, [o], []);
    assert payloads + [] == payloads;
    WrittenOne(log, o);
  }

  // ---------- The loop invariant ----------

  predicate Full(payload: seq<Byte>) {
    |payload| >= BLOCK_SIZE
  }

  predicate AllFull(payloads: seq<seq<Byte>>) {
    forall k :: 0 <= k < |payloads| ==> Full(payloads[k])
  }

  /** The counters of the loop, and which payloads may be short. */
  predicate Counted(t: Transfer, payloads: seq<seq<Byte>>) {
    && 1 <= t.block <= 0x1_0000
    && |payloads| <= t.block <= |payloads| + 1
    && |payloads| < 0x1_0000
    && t.received == |Flatten(payloads)|
    && (t.result == None ==> t.block == |payloads| + 1 && 0 <= t.retries <= TIMEOUT_RETRANSMITS && AllFull(payloads))
    && (t.result == Some(Ok) ==>
          payloads != [] && t.block == |payloads| && !Full(Last(payloads)) && AllFull(Front(payloads)))
  }

  /** The log; a write that fails midway may leave more in flash than was accepted, and ends the run. */
  predicate Logged(t: Transfer, payloads: seq<seq<Byte>>) {
    || Sound(t.log, payloads)
    || (t.result == Some(Value) && Backed(t.log, payloads) && Ordered(t.log) && Flatten(payloads) <= Written(t.log))
  }

  predicate Consistent(t: Transfer, payloads: seq<seq<Byte>>) {
    Counted(t, payloads) && Logged(t, payloads)
  }

  lemma AcceptKeepsCount(t: Transfer, i: Input, callback: bool, payloads: seq<seq<Byte>>)
    requires t.result == None && Counted(t, payloads) && Accepts(t, i)
    ensures Counted(Receive(t, i, callback), payloads + [Content(i)])
  {
    GatheredChunks(i.segments);
    FlattenSnoc(payloads, Content(i));
    assert Front(payloads + [Content(i)]) == payloads;
  }

  lemma ReceiveLog(t: Transfer, i: Input, callback: bool) returns (told: seq<Output>)
    requires t.block > 0 && Accepts(t, i)
    ensures told == if callback && i.ackError == None then [Progress(Receive(t, i, callback).received)] else []
    ensures Receive(t, i, callback).log == t.log + Writes(Chunks(i.segments)) + [Ack(t.block)] + told
  {
    GatheredChunks(i.segments);
    var received := t.received + |Flatten(i.segments)| - HEADER;
    told := if callback && i.ackError == None then [Progress(received)] else [];
  }

  lemma AcceptKeepsLog(t: Transfer, i: Input, callback: bool, payloads: seq<seq<Byte>>)
    requires Sound(t.log, payloads) && t.block == |payloads| + 1 && Accepts(t, i)
    ensures Sound(Receive(t, i, callback).log, payloads + [Content(i)])
  {
    var longer := payloads + [Content(i)];
    var log := t.log + Writes(Chunks(i.segments));
    var told := ReceiveLog(t, i, callback);
    AppendPayload(t.log, payloads, Chunks(i.segments));
    assert Ack(t.block) == Acked(|longer|);
    AppendAck(log, longer);
    if told == [] {
      assert log + [Ack(t.block)] + told == log + [Ack(t.block)];
    } else {
      AppendOther(log + [Ack(t.block)], longer, told[0]);
      assert [told[0]] == told;
    }
  }

  lemma FailedWriteKeeps(t: Transfer, i: Input, callback: bool, payloads: seq<seq<Byte>>)
    requires t.result == None && Consistent(t, payloads) && Expected(t, i) && WritesFail(i)
    ensures Consistent(Receive(t, i, callback), payloads)
  {
    var part := Writes(Chunks(i.segments)[..i.failing.value]);
    BackedPrefix(t.log, payloads, part, []);
    assert payloads + [] == payloads;
    WrittenConcat(t.log, part);
  }

  lemma OtherKeeps(t: Transfer, i: Input, callback: bool, payloads: seq<seq<Byte>>)
    requires t.result == None && Consistent(t, payloads) && !Expected(t, i)
    ensures Consistent(Step(t, i, callback), payloads)
  {
    assert Ack(t.block - 1) == Acked(|payloads|);
    AppendAck(t.log, payloads);
    AppendOther(t.log, payloads, SentError(ERR_ILLEGAL));
  }

  lemma StepKeeps(t: Transfer, i: Input, callback: bool, payloads: seq<seq<Byte>>)
    requires Consistent(t, payloads)
    ensures Consistent(Step(t, i, callback), payloads + Gain(t, i))
  {
    if Accepts(t, i) {
      AcceptKeepsCount(t, i, callback, payloads);
      AcceptKeepsLog(t, i, callback, payloads);
    } else {
      assert payloads + Gain(t, i) == payloads;
      if t.result == None && Expected(t, i) {
        FailedWriteKeeps(t, i, callback, payloads);
      } else if t.result == None {
        OtherKeeps(t, i, callback, payloads);
      }
    }
  }

  /** Over every run: flash holds exactly the accepted payloads (a write that fails midway ends the
      run), *received_len is their length, ERR_OK follows a short payload and only full ones before it,
      `block` never exceeds 65536, every ACK n was sent with exactly blocks 1 to n in flash, and ACK
      numbers never decrease. */
  lemma {:induction false} RunsAreConsistent(inputs: seq<Input>, callback: bool)
    ensures Consistent(Run(inputs, callback), Payloads(inputs, callback))
    decreases |inputs|
  {
    if inputs != [] {
      RunsAreConsistent(Front(inputs), callback);
      StepKeeps(Run(Front(inputs), callback), Last(inputs), callback, Payloads(Front(inputs), callback));
    }
  }

  lemma OtherWritesNothing(t: Transfer, i: Input, callback: bool)
    requires t.block > 0 && (t.result.Some? || !Expected(t, i))
    ensures Written(Step(t, i, callback).log) == Written(t.log)
  {
    WrittenOne(t.log, Ack(t.block - 1));
    WrittenOne(t.log, SentError(ERR_ILLEGAL));
  }

  /** With 65535 blocks accepted the loop waits for a number no DATA packet can carry. */
  lemma NothingAcceptedAtTheEnd(t: Transfer, i: Input, callback: bool)
    requires t.block == 0x1_0000 && t.result == None
    ensures !Accepts(t, i) && Written(Step(t, i, callback).log) == Written(t.log)
    ensures Step(t, i, callback).block == t.block && Step(t, i, callback).result != Some(Ok)
  {
    OtherWritesNothing(t, i, callback);
  }

  // ---------- Counting acknowledgements, duplicates and retransmissions ----------

  function AckCount(log: seq<Output>): nat {
    if log == [] then 0 else AckCount(Front(log)) + if Last(log).Acked? then 1 else 0
  }

  lemma {:induction false} AckCountConcat(a: seq<Output>, b: seq<Output>)
    ensures AckCount(a + b) == AckCount(a) + AckCount(b)
    decreases |b|
  {
    if b == [] {
      assert a + b == a;
    } else {
      AckCountConcat(a, Front(b));
      assert Front(a + b) == a + Front(b);
    }
  }

  lemma AckCountOne(log: seq<Output>, o: Output)
    ensures AckCount(log + [o]) == AckCount(log) + if o.Acked? then 1 else 0
  {
    assert Front(log + [o]) == log;
  }

  lemma {:induction false} AckCountWrites(chunks: seq<seq<Byte>>)
    ensures AckCount(Writes(chunks)) == 0
    decreases |chunks|
  {
    if chunks != [] {
      AckCountWrites(Front(chunks));
      assert Front(Writes(chunks)) == Writes(Front(chunks));
    }
  }

  /** Packets with the number before the expected one that the running loop was given. */
  function Duplicates(inputs: seq<Input>, callback: bool): nat {
    if inputs == [] then 0
    else
      var t := Run(Front(inputs), callback);
      Duplicates(Front(inputs), callback) + if t.result == None && Duplicate(t, Last(inputs)) then 1 else 0
  }

  /** Timeouts the loop survived, each by sending its last ACK again. */
  function Retransmissions(inputs: seq<Input>, callback: bool): nat {
    if inputs == [] then 0
    else
      var t := Run(Front(inputs), callback);
      Retransmissions(Front(inputs), callback) + if t.result == None && Survives(t, Last(inputs)) then 1 else 0
  }

  predicate Survives(t: Transfer, i: Input) {
    i.TimedOut? && t.retries > 0 && t.block > 1
  }

  /** Timeouts since the last accepted block, duplicates notwithstanding. */
  function TimeoutsSinceBlock(inputs: seq<Input>, callback: bool): nat {
    if inputs == [] || Accepts(Run(Front(inputs), callback), Last(inputs)) then 0
    else TimeoutsSinceBlock(Front(inputs), callback) + if Last(inputs).TimedOut? then 1 else 0
  }

  lemma ReceiveAckCount(t: Transfer, i: Input, callback: bool)
    requires t.block > 0 && i.Packet?
    ensures AckCount(Receive(t, i, callback).log) == AckCount(t.log) + if WritesFail(i) then 0 else 1
  {
    var chunks := if WritesFail(i) then Chunks(i.segments)[..i.failing.value] else Chunks(i.segments);
    var log := t.log + Writes(chunks);
    AckCountConcat(t.log, Writes(chunks));
    AckCountWrites(chunks);
    AckCountOne(log, Ack(t.block));
    GatheredChunks(i.segments);
    AckCountOne(log + [Ack(t.block)], Progress(t.received + |Flatten(i.segments)| - HEADER));
  }

  lemma OtherAckCount(t: Transfer, i: Input, callback: bool)
    requires t.block > 0 && t.result == None && !Expected(t, i)
    ensures AckCount(Step(t, i, callback).log) ==
            AckCount(t.log) + if Duplicate(t, i) || Survives(t, i) then 1 else 0
  {
    AckCountOne(t.log, Ack(t.block - 1));
    AckCountOne(t.log, SentError(ERR_ILLEGAL));
  }

  lemma StepAckCount(t: Transfer, i: Input, callback: bool)
    requires t.block > 0
    ensures AckCount(Step(t, i, callback).log) ==
            AckCount(t.log) + |Gain(t, i)| + if t.result == None && (Duplicate(t, i) || Survives(t, i)) then 1 else 0
  {
    if t.result == None {
      if Expected(t, i) {
        ReceiveAckCount(t, i, callback);
      } else {
        OtherAckCount(t, i, callback);
      }
    }
  }

  /** The ACKs of a run are one per accepted block, one per duplicate and one per survived timeout. */
  lemma {:induction false} AcksAccountedFor(inputs: seq<Input>, callback: bool)
    ensures AckCount(Run(inputs, callback).log) ==
            |Payloads(inputs, callback)| + Duplicates(inputs, callback) + Retransmissions(inputs, callback)
    decreases |inputs|
  {
    if inputs != [] {
      AcksAccountedFor(Front(inputs), callback);
      StepAckCount(Run(Front(inputs), callback), Last(inputs), callback);
    }
  }

  /** What one input does to a loop that keeps running. */
  lemma RunningStep(t: Transfer, i: Input, callback: bool)
    requires t.result == None && t.block > 0 && 0 <= t.retries <= TIMEOUT_RETRANSMITS
    requires Step(t, i, callback).result == None
    ensures var u := Step(t, i, callback);
            if Accepts(t, i) then u.retries == TIMEOUT_RETRANSMITS
            else if i.TimedOut? then Survives(t, i) && u.retries == t.retries - 1
            else Duplicate(t, i) && u.retries == t.retries
  {
  }

  /** While the loop runs, it expects the block after those it accepted. */
  lemma RunningBlock(inputs: seq<Input>, callback: bool)
    requires Run(inputs, callback).result == None
    ensures var t := Run(inputs, callback);
            && t.block == |Payloads(inputs, callback)| + 1 <= 0x1_0000
            && 0 <= t.retries <= TIMEOUT_RETRANSMITS
  {
    RunsAreConsistent(inputs, callback);
  }

  /** While the loop runs, its retry counter is what is left of ten timeouts since the last block. */
  lemma {:induction false} RetriesCountTimeouts(inputs: seq<Input>, callback: bool)
    requires Run(inputs, callback).result == None
    ensures Run(inputs, callback).retries == TIMEOUT_RETRANSMITS - TimeoutsSinceBlock(inputs, callback)
    decreases |inputs|
  {
    if inputs != [] {
      RetriesCountTimeouts(Front(inputs), callback);
      RunningBlock(Front(inputs), callback);
      RunningStep(Run(Front(inputs), callback), Last(inputs), callback);
    }
  }

  /** A timeout ends the transfer exactly when no block was accepted yet or ten timeouts have passed
      since the last one; otherwise the last ACK goes out again and the loop goes on. */
  lemma TimeoutRule(inputs: seq<Input>, callback: bool)
    requires Run(inputs, callback).result == None
    ensures var t, u := Run(inputs, callback), Run(inputs + [TimedOut], callback);
            if Payloads(inputs, callback) == [] || TimeoutsSinceBlock(inputs, callback) == TIMEOUT_RETRANSMITS then
              u.result == Some(Timeout) && u.log == t.log + [SentError(ERR_ILLEGAL)]
            else
              u.result == None && u.log == t.log + [Acked(|Payloads(inputs, callback)|)]
  {
    RetriesCountTimeouts(inputs, callback);
    RunningBlock(inputs, callback);
    TimedOutStep(Run(inputs, callback), |Payloads(inputs, callback)|, callback);
    assert Front(inputs + [TimedOut]) == inputs;
  }

  lemma TimedOutStep(t: Transfer, blocks: nat, callback: bool)
    requires t.result == None && t.block == blocks + 1 <= 0x1_0000
    ensures var u := Step(t, TimedOut, callback);
            if blocks == 0 || t.retries <= 0 then
              u.result == Some(Timeout) && u.log == t.log + [SentError(ERR_ILLEGAL)]
            else
              u.result == None && u.log == t.log + [Acked(blocks)]
  {
    assert blocks % 0x1_0000 == blocks;
  }

  /** While the loop runs: at most ten retransmissions for each block before the last accepted one, and
      after that one as many as there were timeouts, at most ten. */
  lemma {:induction false} RunningRetransmissions(inputs: seq<Input>, callback: bool)
    requires Run(inputs, callback).result == None
    ensures var blocks := |Payloads(inputs, callback)|;
            if blocks == 0 then Retransmissions(inputs, callback) == 0
            else Retransmissions(inputs, callback) <=
                 TIMEOUT_RETRANSMITS * (blocks - 1) + TimeoutsSinceBlock(inputs, callback)
    ensures TimeoutsSinceBlock(inputs, callback) <= TIMEOUT_RETRANSMITS
    decreases |inputs|
  {
    RetriesCountTimeouts(inputs, callback);
    RunningBlock(inputs, callback);
    if inputs != [] {
      RunningRetransmissions(Front(inputs), callback);
      RunningBlock(Front(inputs), callback);
      RunningStep(Run(Front(inputs), callback), Last(inputs), callback);
    }
  }

  /** Retransmissions since the last accepted block, duplicates notwithstanding. */
  function RetransmissionsSinceBlock(inputs: seq<Input>, callback: bool): nat {
    if inputs == [] then 0
    else
      var t := Run(Front(inputs), callback);
      if Accepts(t, Last(inputs)) then 0
      else RetransmissionsSinceBlock(Front(inputs), callback) +
           if t.result == None && Survives(t, Last(inputs)) then 1 else 0
  }

  lemma {:induction false} SinceBlockIsTimeouts(inputs: seq<Input>, callback: bool)
    requires Run(inputs, callback).result == None
    ensures RetransmissionsSinceBlock(inputs, callback) == TimeoutsSinceBlock(inputs, callback)
    decreases |inputs|
  {
    if inputs != [] {
      SinceBlockIsTimeouts(Front(inputs), callback);
      RunningBlock(Front(inputs), callback);
      RunningStep(Run(Front(inputs), callback), Last(inputs), callback);
    }
  }

  /** Over every run, ended or not: at most ten retransmissions since the last accepted block, none before
      the first, at most ten for each block, and none after the last block of a transfer that succeeded. */
  lemma {:induction false} RetransmissionsAreBounded(inputs: seq<Input>, callback: bool)
    ensures RetransmissionsSinceBlock(inputs, callback) <= TIMEOUT_RETRANSMITS
    ensures var t, blocks := Run(inputs, callback), |Payloads(inputs, callback)|;
            && Retransmissions(inputs, callback) <= TIMEOUT_RETRANSMITS * blocks
            && (t.result == Some(Ok) ==>
                  && RetransmissionsSinceBlock(inputs, callback) == 0
                  && Retransmissions(inputs, callback) <= TIMEOUT_RETRANSMITS * (blocks - 1))
    decreases |inputs|
  {
    if Run(inputs, callback).result == None {
      RunningRetransmissions(inputs, callback);
      SinceBlockIsTimeouts(inputs, callback);
    } else if Run(Front(inputs), callback).result == None {
      RunningRetransmissions(Front(inputs), callback);
      SinceBlockIsTimeouts(Front(inputs), callback);
      EndingStep(Run(Front(inputs), callback), Last(inputs), callback);
    } else {
      RetransmissionsAreBounded(Front(inputs), callback);
    }
  }

  /** What ends a running loop is no retransmission, and success is an accepted block. */
  lemma EndingStep(t: Transfer, i: Input, callback: bool)
    requires t.result == None && t.block > 0 && Step(t, i, callback).result != None
    ensures !Survives(t, i)
    ensures Step(t, i, callback).result == Some(Ok) ==> Accepts(t, i)
  {
  }

  /** The loop ends on every input that is not an endless stream of duplicates: while it runs, it has
      used at most eleven inputs per accepted block besides the duplicates, and accepted fewer than 65536. */
  lemma {:induction false} RunningIsBounded(inputs: seq<Input>, callback: bool)
    requires Run(inputs, callback).result == None
    ensures |inputs| == |Payloads(inputs, callback)| + Retransmissions(inputs, callback) + Duplicates(inputs, callback)
    ensures Retransmissions(inputs, callback) <= TIMEOUT_RETRANSMITS * |Payloads(inputs, callback)|
    ensures |inputs| <= 11 * 65535 + Duplicates(inputs, callback)
    decreases |inputs|
  {
    RunningRetransmissions(inputs, callback);
    RunningBlock(inputs, callback);
    if inputs != [] {
      RunningIsBounded(Front(inputs), callback);
      RunningBlock(Front(inputs), callback);
      RunningStep(Run(Front(inputs), callback), Last(inputs), callback);
    }
  }
}
