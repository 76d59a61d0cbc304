/** tftp_receive_data against a lock-step sender (RFC 1350, sections 2 and 6) over a network that loses,
    duplicates, delays and reorders packets in both directions. */
module TftpProtocol {
  import opened Bytes
  import opened TftpReceiver
  import opened TftpDiscipline

  // ---------- The file as the sender cuts it ----------

  /** Full blocks, then one short one, possibly empty. */
  function BlockCount(file: seq<Byte>): nat {
    |file| / BLOCK_SIZE + 1
  }

  function Block(file: seq<Byte>, b: nat): (r: seq<Byte>)
    requires 1 <= b <= BlockCount(file)
    ensures if b < BlockCount(file) then |r| == BLOCK_SIZE else |r| < BLOCK_SIZE
  {
    var start := BLOCK_SIZE * (b - 1);
    var size := if b < BlockCount(file) then BLOCK_SIZE else |file| - start;
    seq(size, k requires 0 <= k < size => file[start + k])
  }

  /** DATA packet number b; the number on the wire has 16 bits. */
  function DataPacket(file: seq<Byte>, b: nat): (r: seq<Byte>)
    requires 1 <= b <= BlockCount(file)
    ensures |r| == HEADER + |Block(file, b)| && r[4..] == Block(file, b)
    ensures r[0] == 0 && r[1] == 3 && NetworkOrder(r[2], r[3]) == b % 65536
  {
    var n := b % 0x1_0000;
    [0, OP_DATA, n / 0x100, n % 0x100] + Block(file, b)
  }

  // ---------- Sender, network and receiver together ----------

  /** What the receiver was given so far, and the last block the sender has put on the network. All
      blocks up to it, and every acknowledgement ever sent, may arrive any number of times or never. */
  datatype System = System(inputs: seq<Input>, sent: nat)

  datatype Event =
    | Hear(number: nat)
    | Deliver(input: Input)

  /** An acknowledgement was sent: number 0 for the request, the others by the loop. */
  predicate InTransit(s: System, number: nat, callback: bool) {
    number == 0 || Acked(number) in Run(s.inputs, callback).log
  }

  predicate Carries(file: seq<Byte>, segments: Segments, b: nat) {
    1 <= b <= BlockCount(file) && Flatten(segments) == DataPacket(file, b)
  }

  /** DATA packets come from the sender, cut into segments in any way; anything else may arrive. */
  predicate Possible(file: seq<Byte>, s: System, e: Event, callback: bool) {
    match e
    case Hear(number) => InTransit(s, number, callback)
    case Deliver(i) =>
      i.Packet? && Opcode(i.segments) == OP_DATA ==> exists b :: 0 <= b <= s.sent && Carries(file, i.segments, b)
  }

  /** The sender goes on to the next block when it hears the acknowledgement it is waiting for. */
  function Next(file: seq<Byte>, s: System, e: Event): System {
    match e
    case Hear(number) =>
      if number == s.sent % 0x1_0000 && s.sent < BlockCount(file) then s.(sent := s.sent + 1) else s
    case Deliver(i) => s.(inputs := s.inputs + [i])
  }

  function After(file: seq<Byte>, events: seq<Event>): System {
    if events == [] then System([], 0) else Next(file, After(file, Front(events)), Last(events))
  }

  predicate Behaviour(file: seq<Byte>, events: seq<Event>, callback: bool) {
    events == [] ||
    (Behaviour(file, Front(events), callback) && Possible(file, After(file, Front(events)), Last(events), callback))
  }

  // ---------- The window invariant ----------

  predicate InOrder(file: seq<Byte>, payloads: seq<seq<Byte>>) {
    && |payloads| <= BlockCount(file)
    && forall k :: 0 <= k < |payloads| ==> IsBlock(file, payloads, k)
  }

  predicate IsBlock(file: seq<Byte>, payloads: seq<seq<Byte>>, k: nat)
    requires k < |payloads| <= BlockCount(file)
  {
    payloads[k] == Block(file, k + 1)
  }

  /** The receiver accepted only what was sent, and the sender is at most one block ahead of it. With 65535
      blocks accepted the latter can fail, a stale ACK 0 passing for the acknowledgement of block 65536; by
      then nothing is accepted any more. */
  predicate Window(sent: nat, accepted: nat) {
    accepted <= sent && (accepted < 0xffff ==> sent <= accepted + 1)
  }

  predicate Aligned(file: seq<Byte>, sent: nat, payloads: seq<seq<Byte>>, log: seq<Output>) {
    && InOrder(file, payloads)
    && sent <= BlockCount(file)
    && Window(sent, |payloads|)
    && Written(log) <= file
  }

  predicate Invariant(file: seq<Byte>, s: System, callback: bool) {
    Aligned(file, s.sent, Payloads(s.inputs, callback), Run(s.inputs, callback).log)
  }

  lemma {:induction false} FlattenedBlocks(file: seq<Byte>, payloads: seq<seq<Byte>>)
    requires InOrder(file, payloads)
    ensures Flatten(payloads) ==
            if |payloads| < BlockCount(file) then file[..BLOCK_SIZE * |payloads|] else file
    decreases |payloads|
  {
    if payloads != [] {
      var n := |payloads|;
      FrontInOrder(file, payloads);
      FlattenedBlocks(file, Front(payloads));
      assert IsBlock(file, payloads, n - 1);
      BlockExtends(file, n);
    }
  }

  lemma FrontInOrder(file: seq<Byte>, payloads: seq<seq<Byte>>)
    requires payloads != [] && InOrder(file, payloads)
    ensures InOrder(file, Front(payloads))
  {
    forall k | 0 <= k < |Front(payloads)| ensures IsBlock(file, Front(payloads), k) {
      assert IsBlock(file, payloads, k);
    }
  }

  lemma InOrderSnoc(file: seq<Byte>, payloads: seq<seq<Byte>>, content: seq<Byte>)
    requires InOrder(file, payloads) && |payloads| < BlockCount(file) && content == Block(file, |payloads| + 1)
    ensures InOrder(file, payloads + [content])
  {
    forall k | 0 <= k <= |payloads| ensures IsBlock(file, payloads + [content], k) {
      assert k < |payloads| ==> IsBlock(file, payloads, k);
    }
  }

  /** Block b continues the file where block b - 1 stopped. */
  lemma BlockExtends(file: seq<Byte>, b: nat)
    requires 1 <= b <= BlockCount(file)
    ensures var start := BLOCK_SIZE * (b - 1);
            && start + |Block(file, b)| <= |file|
            && Block(file, b) == file[start..start + |Block(file, b)|]
            && file[..start] + Block(file, b) == if b < BlockCount(file) then file[..start + BLOCK_SIZE] else file
  {
    var start := BLOCK_SIZE * (b - 1);
    if b < BlockCount(file) {
      assert file[..start] + file[start..start + BLOCK_SIZE] == file[..start + BLOCK_SIZE];
    } else {
      assert file[..start] + file[start..] == file;
    }
  }

  /** What the receiver reads in a packet that carries block b, however it is cut into segments. */
  lemma CarriedBlock(file: seq<Byte>, segments: Segments, b: nat)
    requires Carries(file, segments, b)
    ensures Opcode(segments) == OP_DATA && BlockNumber(segments) == b % 0x1_0000
    ensures Flatten(Chunks(segments)) == Block(file, b)
  {
    var n := b % 0x1_0000;
    var header: seq<Byte> := [0, OP_DATA, n / 0x100, n % 0x100];
    GatheredChunks(segments);
    SameCut(segments[0][..HEADER], Flatten(Chunks(segments)), header, Block(file, b));
    assert forall k :: 0 <= k < HEADER ==> segments[0][k] == segments[0][..HEADER][k];
  }

  lemma SameCut(a: seq<Byte>, b: seq<Byte>, c: seq<Byte>, d: seq<Byte>)
    requires a + b == c + d && |a| == |c|
    ensures a == c && b == d
  {
    assert a == (a + b)[..|a|] && c == (c + d)[..|c|];
    assert b == (a + b)[|a|..] && d == (c + d)[|c|..];
  }

  /** Of the blocks the sender may have sent, only the next one bears the number the loop waits for. */
  lemma ExpectedIsNext(file: seq<Byte>, segments: Segments, b: nat, accepted: nat)
    requires Carries(file, segments, b) && BlockNumber(segments) == accepted + 1
    requires accepted < 0xffff ==> b <= accepted + 1
    ensures b == accepted + 1
  {
    CarriedBlock(file, segments, b);
  }

  /** Acknowledgements in transit are for blocks already accepted. */
  lemma HeardIsOld(log: seq<Output>, payloads: seq<seq<Byte>>, number: nat)
    requires Backed(log, payloads) && (number == 0 || Acked(number) in log)
    ensures number <= |payloads|
  {
    if number != 0 {
      var k :| 0 <= k < |log| && log[k] == Acked(number);
      assert BackedAt(log, payloads, k);
    }
  }

  /** What the sender does about an acknowledgement of a block already accepted. */
  lemma HeardKeepsWindow(sent: nat, accepted: nat, number: nat)
    requires Window(sent, accepted) && number <= accepted
    ensures number == sent % 0x1_0000 ==> Window(sent + 1, accepted)
  {
  }

  lemma HearKeeps(file: seq<Byte>, s: System, number: nat, callback: bool)
    requires Invariant(file, s, callback) && InTransit(s, number, callback)
    ensures Invariant(file, Next(file, s, Hear(number)), callback)
  {
    var payloads, log := Payloads(s.inputs, callback), Run(s.inputs, callback).log;
    RunsAreConsistent(s.inputs, callback);
    HeardIsOld(log, payloads, number);
    HeardKeepsWindow(s.sent, |payloads|, number);
  }

  lemma RunSnoc(inputs: seq<Input>, i: Input, callback: bool)
    ensures Run(inputs + [i], callback) == Step(Run(inputs, callback), i, callback)
    ensures Payloads(inputs + [i], callback) == Payloads(inputs, callback) + Gain(Run(inputs, callback), i)
  {
    assert Front(inputs + [i]) == inputs;
  }

  /** A write that fails midway leaves the beginning of the packet's content in flash. */
  lemma FailedWriteIsPartial(t: Transfer, i: Input, callback: bool) returns (part: seq<Byte>)
    requires t.block > 0 && i.Packet? && WritesFail(i)
    ensures part <= Content(i) && Written(Receive(t, i, callback).log) == Written(t.log) + part
  {
    var chunks := Chunks(i.segments);
    var head, tail := chunks[..i.failing.value], chunks[i.failing.value..];
    part := Flatten(head);
    assert head + tail == chunks;
    FlattenConcat(head, tail);
    WrittenConcat(t.log, Writes(head));
    WrittenWrites(head);
  }

  lemma PrefixOfBlock(file: seq<Byte>, payloads: seq<seq<Byte>>, part: seq<Byte>)
    requires InOrder(file, payloads) && |payloads| < BlockCount(file) && part <= Block(file, |payloads| + 1)
    ensures Flatten(payloads) + part <= file
  {
    var block := Block(file, |payloads| + 1);
    InOrderSnoc(file, payloads, block);
    FlattenedBlocks(file, payloads + [block]);
    FlattenSnoc(payloads, block);
    ShorterTail(Flatten(payloads), part, block, file);
  }

  lemma ShorterTail(head: seq<Byte>, part: seq<Byte>, whole: seq<Byte>, file: seq<Byte>)
    requires head + whole <= file && part <= whole
    ensures head + part <= file
  {
    assert head + part == (head + whole)[..|head| + |part|];
  }

  /** A packet with the expected number is the next block, and that was sent. */
  lemma ExpectedCarriesNext(file: seq<Byte>, sent: nat, i: Input, accepted: nat)
    requires i.Packet? && exists b :: 0 <= b <= sent && Carries(file, i.segments, b)
    requires BlockNumber(i.segments) == accepted + 1 && Window(sent, accepted)
    ensures accepted + 1 <= sent && accepted < BlockCount(file) && Content(i) == Block(file, accepted + 1)
  {
    var b :| 0 <= b <= sent && Carries(file, i.segments, b);
    ExpectedIsNext(file, i.segments, b, accepted);
    CarriedBlock(file, i.segments, b);
  }

  lemma ExpectedAligned(file: seq<Byte>, sent: nat, inputs: seq<Input>, i: Input, callback: bool)
    requires Aligned(file, sent, Payloads(inputs, callback), Run(inputs, callback).log)
    requires Run(inputs, callback).result == None && Expected(Run(inputs, callback), i)
    requires |Payloads(inputs, callback)| + 1 <= sent
    requires Content(i) == Block(file, |Payloads(inputs, callback)| + 1)
    ensures var t := Run(inputs, callback);
            Aligned(file, sent, Payloads(inputs, callback) + Gain(t, i), Step(t, i, callback).log)
  {
    var payloads := Payloads(inputs, callback);
    ReceivedPrefix(file, inputs, i, callback);
    InOrderSnoc(file, payloads, Content(i));
    assert payloads + [] == payloads;
  }

  /** Accepted or not, the expected packet keeps sender and receiver together. */
  lemma ExpectedKeeps(file: seq<Byte>, s: System, i: Input, callback: bool)
    requires Invariant(file, s, callback) && Possible(file, s, Deliver(i), callback)
    requires Run(s.inputs, callback).result == None && Expected(Run(s.inputs, callback), i)
    ensures var t := Run(s.inputs, callback);
            Aligned(file, s.sent, Payloads(s.inputs, callback) + Gain(t, i), Step(t, i, callback).log)
  {
    RunningBlock(s.inputs, callback);
    ExpectedCarriesNext(file, s.sent, i, |Payloads(s.inputs, callback)|);
    ExpectedAligned(file, s.sent, s.inputs, i, callback);
  }

  lemma OtherAligned(file: seq<Byte>, sent: nat, payloads: seq<seq<Byte>>, t: Transfer, i: Input, callback: bool)
    requires Aligned(file, sent, payloads, t.log) && t.block > 0 && (t.result.Some? || !Expected(t, i))
    ensures Aligned(file, sent, payloads + Gain(t, i), Step(t, i, callback).log)
  {
    OtherWritesNothing(t, i, callback);
    assert payloads + [] == payloads;
  }

  lemma DeliverKeeps(file: seq<Byte>, s: System, i: Input, callback: bool)
    requires Invariant(file, s, callback) && Possible(file, s, Deliver(i), callback)
    ensures Invariant(file, Next(file, s, Deliver(i)), callback)
  {
    var t := Run(s.inputs, callback);
    if t.result == None && Expected(t, i) {
      ExpectedKeeps(file, s, i, callback);
    } else {
      OtherAligned(file, s.sent, Payloads(s.inputs, callback), t, i, callback);
    }
    RunSnoc(s.inputs, i, callback);
  }

  lemma ReceivedPrefix(file: seq<Byte>, inputs: seq<Input>, i: Input, callback: bool)
    requires Run(inputs, callback).result == None && Expected(Run(inputs, callback), i)
    requires InOrder(file, Payloads(inputs, callback)) && |Payloads(inputs, callback)| < BlockCount(file)
    requires Content(i) == Block(file, |Payloads(inputs, callback)| + 1)
    ensures Written(Receive(Run(inputs, callback), i, callback).log) <= file
  {
    var t, payloads := Run(inputs, callback), Payloads(inputs, callback);
    if WritesFail(i) {
      RunningFlash(inputs, callback);
      var part := FailedWriteIsPartial(t, i, callback);
      PrefixOfBlock(file, payloads, part);
    } else {
      RunsAreConsistent(inputs, callback);
      AcceptKeepsLog(t, i, callback, payloads);
      FlattenSnoc(payloads, Content(i));
      PrefixOfBlock(file, payloads, Content(i));
    }
  }

  lemma RunningFlash(inputs: seq<Input>, callback: bool)
    requires Run(inputs, callback).result == None
    ensures Written(Run(inputs, callback).log) == Flatten(Payloads(inputs, callback))
  {
    RunsAreConsistent(inputs, callback);
  }

  lemma {:induction false} InvariantHolds(file: seq<Byte>, events: seq<Event>, callback: bool)
    requires Behaviour(file, events, callback)
    ensures Invariant(file, After(file, events), callback)
    decreases |events|
  {
    if events != [] {
      var s := After(file, Front(events));
      InvariantHolds(file, Front(events), callback);
      match Last(events)
      case Hear(number) => HearKeeps(file, s, number, callback);
      case Deliver(i) => DeliverKeeps(file, s, i, callback);
    }
  }

  // ---------- Safety ----------

  /** In every behaviour: flash is always a prefix of the file; at the loop head it is exactly the first
      block - 1 blocks, and *received_len is its length; and after ERR_OK it is the whole file, which
      then has fewer than 65535 * 512 bytes. */
  lemma Safety(file: seq<Byte>, events: seq<Event>, callback: bool)
    requires Behaviour(file, events, callback)
    ensures var t := Run(After(file, events).inputs, callback);
            && Written(t.log) <= file
            && (t.result == None ==>
                  512 * (t.block - 1) <= |file| && Written(t.log) == file[..512 * (t.block - 1)])
            && (t.result == Some(Ok) ==> Written(t.log) == file && |file| < 65535 * 512)
            && (t.result == None || t.result == Some(Ok) ==> t.received == |Written(t.log)|)
  {
    var inputs := After(file, events).inputs;
    var t, payloads := Run(inputs, callback), Payloads(inputs, callback);
    InvariantHolds(file, events, callback);
    RunsAreConsistent(inputs, callback);
    FlattenedBlocks(file, payloads);
    if t.result == Some(Ok) {
      assert IsBlock(file, payloads, |payloads| - 1);
    } else if t.result == None && payloads != [] {
      assert IsBlock(file, payloads, |payloads| - 1) && Full(payloads[|payloads| - 1]);
    }
  }

  // ---------- The size bound is exact ----------

  /** A packet in one segment, written and acknowledged without trouble. */
  function Clean(file: seq<Byte>, b: nat): Input
    requires 1 <= b <= BlockCount(file)
  {
    Packet([DataPacket(file, b)], None, None)
  }

  lemma CleanCarries(file: seq<Byte>, b: nat)
    requires 1 <= b <= BlockCount(file)
    ensures Carries(file, Clean(file, b).segments, b)
  {
    assert Front([DataPacket(file, b)]) == [];
  }

  /** The last block sent, number k, has arrived and its acknowledgement is on its way. */
  predicate Settled(file: seq<Byte>, s: System, k: nat, callback: bool) {
    var t := Run(s.inputs, callback);
    && s.sent == k
    && (k > 0 ==> Acked(k) in t.log)
    && if k < BlockCount(file) then t.result == None && t.block == k + 1 else t.result == Some(Ok)
  }

  lemma LosslessDeliver(file: seq<Byte>, s: System, k: nat, callback: bool)
    requires 1 <= k <= BlockCount(file) <= 0xffff && s.sent == k
    requires Run(s.inputs, callback).result == None && Run(s.inputs, callback).block == k
    ensures Possible(file, s, Deliver(Clean(file, k)), callback)
    ensures Settled(file, Next(file, s, Deliver(Clean(file, k))), k, callback)
  {
    var i := Clean(file, k);
    CleanIsExpected(file, k);
    AcceptedCleanly(Run(s.inputs, callback), i, callback);
    RunSnoc(s.inputs, i, callback);
  }

  lemma CleanIsExpected(file: seq<Byte>, k: nat)
    requires 1 <= k <= BlockCount(file) <= 0xffff
    ensures var i := Clean(file, k);
            && Carries(file, i.segments, k)
            && Opcode(i.segments) == OP_DATA && BlockNumber(i.segments) == k
            && (Full(Content(i)) <==> k < BlockCount(file))
  {
    CleanCarries(file, k);
    CarriedBlock(file, Clean(file, k).segments, k);
    assert k % 0x1_0000 == k;
  }

  lemma LosslessHear(file: seq<Byte>, s: System, k: nat, callback: bool)
    requires k < BlockCount(file) <= 0xffff && Settled(file, s, k, callback)
    ensures Possible(file, s, Hear(k), callback)
    ensures Next(file, s, Hear(k)) == s.(sent := k + 1)
  {
  }

  /** One more block: its predecessor's acknowledgement is heard and the block delivered. */
  lemma LosslessBlock(file: seq<Byte>, events: seq<Event>, k: nat, callback: bool) returns (longer: seq<Event>)
    requires 1 <= k <= BlockCount(file) <= 0xffff
    requires Behaviour(file, events, callback) && Settled(file, After(file, events), k - 1, callback)
    ensures events <= longer
    ensures Behaviour(file, longer, callback) && Settled(file, After(file, longer), k, callback)
  {
    var s := After(file, events);
    var heard := events + [Hear(k - 1)];
    LosslessHear(file, s, k - 1, callback);
    BehaviourSnoc(file, events, Hear(k - 1), callback);
    LosslessDeliver(file, s.(sent := k), k, callback);
    longer := heard + [Deliver(Clean(file, k))];
    BehaviourSnoc(file, heard, Deliver(Clean(file, k)), callback);
  }

  /** From any settled state on, the transfer goes on without disturbance, up to any later block. */
  lemma {:induction false} LosslessWorks(file: seq<Byte>, events: seq<Event>, from: nat, k: nat, callback: bool)
    returns (longer: seq<Event>)
    requires from <= k <= BlockCount(file) <= 0xffff
    requires Behaviour(file, events, callback) && Settled(file, After(file, events), from, callback)
    ensures events <= longer
    ensures Behaviour(file, longer, callback) && Settled(file, After(file, longer), k, callback)
  {
    if k == from {
      longer := events;
    } else {
      var shorter := LosslessWorks(file, events, from, k - 1, callback);
      longer := LosslessBlock(file, shorter, k, callback);
    }
  }

  lemma BehaviourSnoc(file: seq<Byte>, events: seq<Event>, e: Event, callback: bool)
    requires Behaviour(file, events, callback) && Possible(file, After(file, events), e, callback)
    ensures Behaviour(file, events + [e], callback)
    ensures After(file, events + [e]) == Next(file, After(file, events), e)
  {
    assert Front(events + [e]) == events;
  }

  lemma AcceptedCleanly(t: Transfer, i: Input, callback: bool)
    requires t.result == None && 0 < t.block < 0x1_0000 && Expected(t, i) && i.failing == None && i.ackError == None
    ensures var u := Step(t, i, callback);
            && Acked(t.block) in u.log
            && if Full(Content(i)) then u.result == None && u.block == t.block + 1 else u.result == Some(Ok)
  {
    var log := t.log + Writes(Chunks(i.segments)) + [Ack(t.block)];
    GatheredChunks(i.segments);
    assert log[|log| - 1] == Acked(t.block);
    assert Step(t, i, callback).log[|log| - 1] == Acked(t.block);
  }

  // ---------- No failure, however bad, is final while the loop runs ----------

  /** The acknowledgement of the last accepted block has been sent. */
  predicate LastIsAcked(t: Transfer, payloads: seq<seq<Byte>>) {
    payloads != [] ==> Acked(|payloads|) in t.log
  }

  /** The log only grows. */
  lemma StepAppends(t: Transfer, i: Input, callback: bool)
    requires t.block > 0
    ensures t.log <= Step(t, i, callback).log
  {
  }

  lemma AcceptedIsAcked(t: Transfer, i: Input, callback: bool)
    requires 0 < t.block < 0x1_0000 && Accepts(t, i)
    ensures Acked(t.block) in Step(t, i, callback).log
  {
    var log := t.log + Writes(Chunks(i.segments)) + [Ack(t.block)];
    var told := ReceiveLog(t, i, callback);
    assert (log + told)[|log| - 1] == Acked(t.block);
  }

  lemma StillThere(o: Output, log: seq<Output>, longer: seq<Output>)
    requires o in log && log <= longer
    ensures o in longer
  {
    var k :| 0 <= k < |log| && log[k] == o;
    assert longer[k] == o;
  }

  lemma StepAcksTheLast(t: Transfer, i: Input, callback: bool, payloads: seq<seq<Byte>>)
    requires LastIsAcked(t, payloads) && 0 < t.block
    requires t.result == None ==> t.block == |payloads| + 1
    ensures LastIsAcked(Step(t, i, callback), payloads + Gain(t, i))
  {
    var longer := payloads + Gain(t, i);
    if Accepts(t, i) {
      assert |longer| == t.block;
      AcceptedIsAcked(t, i, callback);
    } else if payloads != [] {
      assert |longer| == |payloads|;
      StepAppends(t, i, callback);
      StillThere(Acked(|payloads|), t.log, Step(t, i, callback).log);
    }
  }

  lemma {:induction false} RunsAckTheLast(inputs: seq<Input>, callback: bool)
    ensures LastIsAcked(Run(inputs, callback), Payloads(inputs, callback))
    decreases |inputs|
  {
    if inputs != [] {
      var t, payloads := Run(Front(inputs), callback), Payloads(Front(inputs), callback);
      RunsAckTheLast(Front(inputs), callback);
      RunsAreConsistent(Front(inputs), callback);
      StepAcksTheLast(t, Last(inputs), callback, payloads);
    }
  }

  /** Where sender and receiver stand while the loop runs. */
  lemma RunningPosition(file: seq<Byte>, events: seq<Event>, callback: bool) returns (accepted: nat)
    requires Behaviour(file, events, callback) && BlockCount(file) <= 0xffff
    requires Run(After(file, events).inputs, callback).result == None
    ensures var s := After(file, events);
            && accepted < BlockCount(file)
            && Run(s.inputs, callback).block == accepted + 1
            && accepted <= s.sent <= accepted + 1
            && (accepted > 0 ==> Acked(accepted) in Run(s.inputs, callback).log)
  {
    var inputs := After(file, events).inputs;
    var payloads := Payloads(inputs, callback);
    accepted := |payloads|;
    InvariantHolds(file, events, callback);
    RunsAckTheLast(inputs, callback);
    RunsAreConsistent(inputs, callback);
    if payloads != [] {
      assert IsBlock(file, payloads, accepted - 1) && Full(payloads[accepted - 1]);
    }
  }

  /** While the loop runs, the sender's last block has arrived or may still be delivered. */
  lemma RunningIsSettled(file: seq<Byte>, events: seq<Event>, callback: bool) returns (longer: seq<Event>, k: nat)
    requires Behaviour(file, events, callback) && BlockCount(file) <= 0xffff
    requires Run(After(file, events).inputs, callback).result == None
    ensures events <= longer && k <= BlockCount(file)
    ensures Behaviour(file, longer, callback) && Settled(file, After(file, longer), k, callback)
  {
    var s := After(file, events);
    var accepted := RunningPosition(file, events, callback);
    k, longer := s.sent, events;
    if k != accepted {
      longer := events + [Deliver(Clean(file, k))];
      LosslessDeliver(file, s, k, callback);
      BehaviourSnoc(file, events, Deliver(Clean(file, k)), callback);
    }
  }

  /** Whatever was lost, repeated or reordered: as long as the loop has not returned, the transfer of a file
      with fewer than 65535 * 512 bytes can still be completed. */
  lemma RunningCanFinish(file: seq<Byte>, events: seq<Event>, callback: bool) returns (longer: seq<Event>)
    requires Behaviour(file, events, callback) && |file| < 65535 * 512
    requires Run(After(file, events).inputs, callback).result == None
    ensures events <= longer && Behaviour(file, longer, callback)
    ensures Run(After(file, longer).inputs, callback).result == Some(Ok)
  {
    var settled, k := RunningIsSettled(file, events, callback);
    longer := LosslessWorks(file, settled, k, BlockCount(file), callback);
  }

  ghost predicate Deliverable(file: seq<Byte>, callback: bool) {
    exists events :: Behaviour(file, events, callback) && Run(After(file, events).inputs, callback).result == Some(Ok)
  }

  /** A file can be received completely exactly when its blocks can all be numbered without wrapping
      before the last one. */
  lemma DeliverableIff(file: seq<Byte>, callback: bool)
    ensures Deliverable(file, callback) <==> |file| < 65535 * 512
  {
    if |file| < 65535 * 512 {
      var events := RunningCanFinish(file, [], callback);
    } else if Deliverable(file, callback) {
      var events :| Behaviour(file, events, callback) && Run(After(file, events).inputs, callback).result == Some(Ok);
      Safety(file, events, callback);
    }
  }
}
