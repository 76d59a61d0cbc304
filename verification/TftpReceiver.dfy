/** The receive loop of main/ota-tftp.c: one step per result of netconn_recv, and the loop itself
    proved against those steps. */
module TftpReceiver {
  import opened Bytes

  const OP_DATA: nat := 3
  const ERR_ILLEGAL: nat := 4
  const TIMEOUT_RETRANSMITS: nat := 10
  const DATA_PACKET_SZ: nat := 516
  const HEADER: nat := 4
  const BLOCK_SIZE: nat := 512

  datatype Err = Ok | Timeout | Value | Other(code: int)

  /** The segments of one received packet; the first holds at least the 4-byte header. */
  type Segments = s: seq<seq<Byte>> | s != [] && |s[0]| >= HEADER witness [[0, 0, 0, 0]]

  /** One result of netconn_recv. For a packet it also says what the flash and the network are going to
      answer: which segment's write fails, if any, and how sending the acknowledgement of a new block
      fails, if it does. */
  datatype Input =
    | TimedOut
    | Failed(code: int)
    | Packet(segments: Segments, failing: Option<nat>, ackError: Option<int>)

  datatype Output =
    | Wrote(chunk: seq<Byte>)
    | Acked(number: nat)
    | SentError(code: nat)
    | Progress(received: nat)

  /** The variables of the loop, the bytes counted and everything that left the function. */
  datatype Transfer = Transfer(block: nat, retries: int, received: nat, log: seq<Output>, result: Option<Err>)

  const START: Transfer := Transfer(1, TIMEOUT_RETRANSMITS, 0, [], None)

  // ---------- Packets ----------

  /** A first segment without the header. */
  function Headless(segment: seq<Byte>): (r: seq<Byte>)
    requires |segment| >= HEADER
  {
    var size := |segment| - HEADER;
    seq(size, k requires 0 <= k < size => segment[HEADER + k])
  }

  /** What is handed to the flash, chunk by chunk: the packet without its header. */
  function Chunks(segments: Segments): (r: seq<seq<Byte>>)
    ensures |r| == |segments|
  {
    segments[0 := Headless(segments[0])]
  }

  /** Scatter and gather: the chunks put together are the packet without its 4-byte header. */
  lemma GatheredChunks(segments: Segments)
    ensures Flatten(segments) == segments[0][..HEADER] + Flatten(Chunks(segments))
    ensures |Flatten(Chunks(segments))| == |Flatten(segments)| - HEADER
  {
    var header, first, rest := segments[0][..HEADER], Headless(segments[0]), segments[1..];
    FlattenCons(segments[0], rest);
    FlattenCons(first, rest);
    FirstAndRest(segments);
    assert segments[0] == header + first;
  }

  /** Only the first segment loses anything, and that is its first four bytes. */
  lemma ChunksBySegment(segments: Segments)
    ensures |Chunks(segments)| == |segments|
    ensures Chunks(segments)[0] == segments[0][4..]
    ensures forall k :: 0 < k < |segments| ==> Chunks(segments)[k] == segments[k]
  {
    assert Headless(segments[0]) == segments[0][4..];
  }

  lemma FirstAndRest(segments: Segments)
    ensures [segments[0]] + segments[1..] == segments
    ensures [Headless(segments[0])] + segments[1..] == Chunks(segments)
  {
  }

  lemma FlattenCons<T>(first: seq<T>, rest: seq<seq<T>>)
    ensures Flatten([first] + rest) == first + Flatten(rest)
  {
    FlattenConcat([first], rest);
    FlattenSnoc([], first);
    assert [] + [first] == [first];
  }

  /** netbuf_read_u16_n. */
  function NetworkOrder(high: Byte, low: Byte): (n: nat)
    ensures n < 0x1_0000
  {
    (high as int) * 0x100 + low
  }

  function Opcode(segments: Segments): nat {
    NetworkOrder(segments[0][0], segments[0][1])
  }

  function BlockNumber(segments: Segments): (n: nat)
    ensures n < 0x1_0000
  {
    NetworkOrder(segments[0][2], segments[0][3])
  }

  // ---------- One turn of the loop ----------

  /** What reached the flash. */
  function Written(log: seq<Output>): seq<Byte> {
    if log == [] then [] else Written(Front(log)) + if Last(log).Wrote? then Last(log).chunk else []
  }

  function Writes(chunks: seq<seq<Byte>>): (r: seq<Output>)
    ensures |r| == |chunks|
  {
    seq(|chunks|, i requires 0 <= i < |chunks| => Wrote(chunks[i]))
  }

  predicate WritesFail(p: Input)
    requires p.Packet?
  {
    p.failing.Some? && p.failing.value < |p.segments|
  }

  /** The packet the loop is waiting for. */
  predicate Expected(t: Transfer, i: Input) {
    i.Packet? && Opcode(i.segments) == OP_DATA && BlockNumber(i.segments) == t.block
  }

  /** The packet before it, again. */
  predicate Duplicate(t: Transfer, i: Input) {
    i.Packet? && Opcode(i.segments) == OP_DATA && BlockNumber(i.segments) == t.block - 1
  }

  /** htons takes the low 16 bits. */
  function Ack(block: nat): Output {
    Acked(block % 0x1_0000)
  }

  function Receive(t: Transfer, i: Input, callback: bool): Transfer
    requires i.Packet? && t.block > 0
  {
    var chunks := Chunks(i.segments);
    if WritesFail(i) then
      t.(retries := TIMEOUT_RETRANSMITS, log := t.log + Writes(chunks[..i.failing.value]), result := Some(Value))
    else
      var len := |Flatten(i.segments)|;
      var received := (GatheredChunks(i.segments); t.received + len - HEADER);
      var log := t.log + Writes(chunks) + [Ack(t.block)];
      var acked := t.(retries := TIMEOUT_RETRANSMITS, received := received, log := log);
      if i.ackError.Some? then
        acked.(result := Some(Other(i.ackError.value)))
      else
        var told := if callback then acked.(log := acked.log + [Progress(received)]) else acked;
        if len < DATA_PACKET_SZ then told.(result := Some(Ok)) else told.(block := t.block + 1)
  }

  function Step(t: Transfer, i: Input, callback: bool): Transfer
    requires t.block > 0
  {
    if t.result.Some? then
      t
    else
      match i
      case TimedOut =>
        if t.retries > 0 && t.block > 1 then
          t.(retries := t.retries - 1, log := t.log + [Ack(t.block - 1)])
        else
          t.(retries := t.retries - 1, log := t.log + [SentError(ERR_ILLEGAL)], result := Some(Timeout))
      case Failed(code) =>
        t.(log := t.log + [SentError(ERR_ILLEGAL)], result := Some(Other(code)))
      case Packet(_, _, _) =>
        if Expected(t, i) then
          Receive(t, i, callback)
        else if Duplicate(t, i) then
          t.(log := t.log + [Ack(t.block - 1)])
        else
          t.(log := t.log + [SentError(ERR_ILLEGAL)], result := Some(Value))
  }

  function Run(inputs: seq<Input>, callback: bool): (t: Transfer)
    ensures t.block > 0
  {
    if inputs == [] then START else Step(Run(Front(inputs), callback), Last(inputs), callback)
  }

  // ---------- The loop ----------

  /** The receiving side: what it wrote, sent and reported, and *received_len. */
  class Receiver {
    var log: seq<Output>
    var receivedLen: nat

    constructor ()
      ensures log == [] && receivedLen == 0
    {
      log, receivedLen := [], 0;
    }

    method Emit(o: Output)
      modifies this`log
      ensures log == old(log) + [o]
    {
      log := log + [o];
    }

    /** The do-while over the segments of a packet. */
    method WriteSegments(segments: Segments, failing: Option<nat>) returns (ok: bool)
      modifies this`log
      ensures var p := Packet(segments, failing, None);
              && ok == !WritesFail(p)
              && log == old(log) + Writes(if ok then Chunks(segments) else Chunks(segments)[..failing.value])
    {
      var firstChunk := true;
      var i: nat := 0;
      while i < |segments|
        invariant i <= |segments| && firstChunk == (i == 0)
        invariant failing.Some? ==> i <= failing.value
        invariant log == old(log) + Writes(Chunks(segments)[..i])
      {
        var chunk := segments[i];
        if firstChunk {
          chunk := chunk[HEADER..];
          assert chunk == Headless(segments[0]);
          firstChunk := false;
        }
        if failing == Some(i) {
          return false;
        }
        assert Chunks(segments)[..i + 1] == Chunks(segments)[..i] + [chunk];
        assert Writes(Chunks(segments)[..i + 1]) == Writes(Chunks(segments)[..i]) + [Wrote(chunk)];
        Emit(Wrote(chunk));
        i := i + 1;
      }
      assert Chunks(segments)[..i] == Chunks(segments);
      return true;
    }

    /** The object is where the model says, after `before` had been logged by earlier transfers. */
    ghost predicate At(before: seq<Output>, t: Transfer)
      reads this
    {
      log == before + t.log && receivedLen == t.received
    }

    /** The part of the loop body reached by a packet with the expected number. */
    method AcceptBlock(p: Input, block: nat, callback: bool, ghost before: seq<Output>, ghost t: Transfer)
      returns (result: Option<Err>)
      requires p.Packet? && t.block == block > 0 && t.result == None && At(before, t)
      modifies this
      ensures At(before, Receive(t, p, callback)) && result == Receive(t, p, callback).result
    {
      var len := |Flatten(p.segments)|;
      var written := WriteSegments(p.segments, p.failing);
      if !written {
        return Some(Value);
      }
      GatheredChunks(p.segments);
      receivedLen := receivedLen + len - HEADER;
      Emit(Ack(block));
      if p.ackError.Some? {
        return Some(Other(p.ackError.value));
      }
      if callback {
        Emit(Progress(receivedLen));
      }
      return if len < DATA_PACKET_SZ then Some(Ok) else None;
    }

    /** Nothing was received: a timeout or another error. */
    method HandleError(input: Input, block: nat, retries: int, callback: bool,
                       ghost before: seq<Output>, ghost t: Transfer)
      returns (left: int, result: Option<Err>)
      requires !input.Packet? && t.block == block > 0 && t.retries == retries && t.result == None && At(before, t)
      modifies this
      ensures var u := Step(t, input, callback);
              At(before, u) && result == u.result && u.block == block && (result == None ==> left == u.retries)
    {
      left := retries;
      if input.TimedOut? {
        left := left - 1;
        if left >= 0 && block > 1 {
          Emit(Ack(block - 1));
          return left, None;
        }
        Emit(SentError(ERR_ILLEGAL));
        return left, Some(Timeout);
      }
      Emit(SentError(ERR_ILLEGAL));
      return left, Some(Other(input.code));
    }

    /** A packet other than the expected one. */
    method HandleOther(input: Input, block: nat, callback: bool, ghost before: seq<Output>, ghost t: Transfer)
      returns (result: Option<Err>)
      requires input.Packet? && !Expected(t, input)
      requires t.block == block > 0 && t.result == None && At(before, t)
      modifies this
      ensures var u := Step(t, input, callback);
              At(before, u) && result == u.result && u.block == block && u.retries == t.retries
    {
      if Opcode(input.segments) != OP_DATA {
        Emit(SentError(ERR_ILLEGAL));
        return Some(Value);
      }
      if BlockNumber(input.segments) == block - 1 {
        Emit(Ack(block - 1));
        return None;
      }
      Emit(SentError(ERR_ILLEGAL));
      return Some(Value);
    }

    /** One turn of the loop. */
    method Turn(input: Input, block: nat, retries: int, callback: bool, ghost before: seq<Output>, ghost t: Transfer)
      returns (next: nat, left: int, result: Option<Err>)
      requires t.block == block > 0 && t.retries == retries && t.result == None && At(before, t)
      modifies this
      ensures var u := Step(t, input, callback);
              At(before, u) && result == u.result && (result == None ==> next == u.block && left == u.retries)
    {
      next, left := block, retries;
      if !input.Packet? {
        left, result := HandleError(input, block, retries, callback, before, t);
      } else if Opcode(input.segments) != OP_DATA || BlockNumber(input.segments) != block {
        result := HandleOther(input, block, callback, before, t);
      } else {
        left := TIMEOUT_RETRANSMITS;
        result := AcceptBlock(input, block, callback, before, t);
        next := block + 1;
      }
    }

    /** tftp_receive_data, fed with the results of its netconn_recv calls. None: the inputs are used up
        and the loop is waiting for the next one. */
    method ReceiveData(inputs: seq<Input>, callback: bool) returns (result: Option<Err>)
      modifies this
      ensures result == Run(inputs, callback).result
      ensures log == old(log) + Run(inputs, callback).log
      ensures receivedLen == Run(inputs, callback).received
    {
      receivedLen := 0;
      var block: nat := 1;
      var retries: int := TIMEOUT_RETRANSMITS;
      ghost var t := START;
      for k := 0 to |inputs|
        invariant t == Run(inputs[..k], callback) && t.result == None
        invariant block == t.block && retries == t.retries && At(old(log), t)
      {
        ghost var u := Step(t, inputs[k], callback);
        assert Front(inputs[..k + 1]) == inputs[..k] && Last(inputs[..k + 1]) == inputs[k];
        block, retries, result := Turn(inputs[k], block, retries, callback, old(log), t);
        t := u;
        if result.Some? {
          RunStaysFinished(inputs, k + 1, callback);
          return;
        }
      }
      assert inputs[..|inputs|] == inputs;
      return None;
    }
  }

  lemma {:induction false} RunStaysFinished(inputs: seq<Input>, k: nat, callback: bool)
    requires k <= |inputs|
    ensures Run(inputs[..k], callback).result.Some? ==> Run(inputs, callback) == Run(inputs[..k], callback)
    decreases |inputs|
  {
    if k < |inputs| {
      RunStaysFinished(Front(inputs), k, callback);
      assert Front(inputs)[..k] == inputs[..k];
    } else {
      assert inputs[..k] == inputs;
    }
  }
}
