/** What the receive callback of main/ota-tftp.c is told, and when: main/ota-tftp.h promises one call for
    every block, once it is in flash and acknowledged. */
module TftpProgress {
  import opened Bytes
  import opened TftpReceiver
  import opened TftpDiscipline

  /** The numbers the callback was given. */
  function Reports(log: seq<Output>): seq<nat> {
    if log == [] then [] else Reports(Front(log)) + if Last(log).Progress? then [Last(log).received] else []
  }

  /** The length of the file after each payload. */
  function Totals(payloads: seq<seq<Byte>>): seq<nat> {
    if payloads == [] then [] else Totals(Front(payloads)) + [|Flatten(payloads)|]
  }

  /** Every report comes directly after an acknowledgement. */
  predicate AfterAck(log: seq<Output>) {
    forall k :: 0 <= k < |log| ==> AfterAckAt(log, k)
  }

  predicate AfterAckAt(log: seq<Output>, k: nat)
    requires k < |log|
  {
    log[k].Progress? ==> k > 0 && log[k - 1].Acked?
  }

  predicate Quiet(tail: seq<Output>) {
    forall k :: 0 <= k < |tail| ==> !tail[k].Progress?
  }

  lemma {:induction false} QuietTail(log: seq<Output>, tail: seq<Output>)
    requires AfterAck(log) && Quiet(tail)
    ensures Reports(log + tail) == Reports(log) && AfterAck(log + tail)
    decreases |tail|
  {
    if tail == [] {
      assert log + tail == log;
    } else {
      var longer := log + Front(tail);
      QuietTail(log, Front(tail));
      assert log + tail == longer + [Last(tail)] && Front(longer + [Last(tail)]) == longer;
      forall k | 0 <= k < |log + tail| ensures AfterAckAt(log + tail, k) {
        assert k < |longer| ==> AfterAckAt(longer, k);
      }
    }
  }

  lemma ReportTail(log: seq<Output>, o: Output)
    requires AfterAck(log) && o.Progress? && log != [] && Last(log).Acked?
    ensures Reports(log + [o]) == Reports(log) + [o.received] && AfterAck(log + [o])
  {
    assert Front(log + [o]) == log;
    forall k | 0 <= k < |log + [o]| ensures AfterAckAt(log + [o], k) {
      assert k < |log| ==> AfterAckAt(log, k);
    }
  }

  /** A run that goes on or succeeds has reported every payload; one that ends otherwise no others. */
  predicate Reported(t: Transfer, payloads: seq<seq<Byte>>, callback: bool) {
    && AfterAck(t.log)
    && (!callback ==> Reports(t.log) == [])
    && Reports(t.log) <= Totals(payloads)
    && (callback && (t.result == None || t.result == Some(Ok)) ==> Reports(t.log) == Totals(payloads))
  }

  /** The log of an accepted block: writes and the ACK, and then the report, if one is made. */
  lemma AcceptedLog(t: Transfer, i: Input, callback: bool) returns (quiet: seq<Output>, told: seq<Output>)
    requires t.block > 0 && Accepts(t, i)
    ensures Quiet(quiet) && quiet != [] && Last(quiet).Acked?
    ensures told == if callback && i.ackError == None then [Progress(Receive(t, i, callback).received)] else []
    ensures Receive(t, i, callback).log == t.log + quiet + told
  {
    quiet := Writes(Chunks(i.segments)) + [Ack(t.block)];
    told := ReceiveLog(t, i, callback);
    Associative(t.log, Writes(Chunks(i.segments)), [Ack(t.block)]);
  }

  lemma ReportsGrow(log: seq<Output>, quiet: seq<Output>, report: Output)
    requires AfterAck(log) && Quiet(quiet) && quiet != [] && Last(quiet).Acked? && report.Progress?
    ensures Reports(log + quiet) == Reports(log) && AfterAck(log + quiet)
    ensures Reports(log + quiet + [report]) == Reports(log) + [report.received] && AfterAck(log + quiet + [report])
  {
    QuietTail(log, quiet);
    assert Last(log + quiet) == Last(quiet);
    ReportTail(log + quiet, report);
  }

  lemma AcceptReports(t: Transfer, i: Input, callback: bool, payloads: seq<seq<Byte>>)
    requires t.result == None && Counted(t, payloads) && Accepts(t, i) && Reported(t, payloads, callback)
    ensures Reported(Receive(t, i, callback), payloads + [Content(i)], callback)
  {
    var quiet, told := AcceptedLog(t, i, callback);
    var received := Receive(t, i, callback).received;
    AcceptKeepsCount(t, i, callback, payloads);
    TotalsGrow(payloads, Content(i));
    ReportsGrow(t.log, quiet, Progress(received));
    if told == [] {
      assert t.log + quiet + told == t.log + quiet;
    }
  }

  lemma TotalsGrow(payloads: seq<seq<Byte>>, content: seq<Byte>)
    ensures Totals(payloads + [content]) == Totals(payloads) + [|Flatten(payloads + [content])|]
  {
    assert Front(payloads + [content]) == payloads;
  }

  /** A step that logs no report keeps what was reported; it may end the run, but not with success. */
  lemma QuietStep(t: Transfer, u: Transfer, tail: seq<Output>, payloads: seq<seq<Byte>>, callback: bool)
    requires t.result == None && Reported(t, payloads, callback)
    requires u.log == t.log + tail && Quiet(tail) && u.result != Some(Ok)
    ensures Reported(u, payloads, callback)
  {
    QuietTail(t.log, tail);
  }

  /** What a step logs that accepts nothing. */
  function Remark(t: Transfer, i: Input): seq<Output>
    requires t.block > 0
  {
    if Expected(t, i) then
      if WritesFail(i) then Writes(Chunks(i.segments)[..i.failing.value]) else []
    else if Duplicate(t, i) || Survives(t, i) then
      [Ack(t.block - 1)]
    else
      [SentError(ERR_ILLEGAL)]
  }

  lemma RemarkLogged(t: Transfer, i: Input, callback: bool)
    requires t.result == None && t.block > 0 && !Accepts(t, i)
    ensures Quiet(Remark(t, i))
    ensures Step(t, i, callback).log == t.log + Remark(t, i) && Step(t, i, callback).result != Some(Ok)
  {
  }

  lemma OtherReports(t: Transfer, i: Input, callback: bool, payloads: seq<seq<Byte>>)
    requires t.result == None && t.block > 0 && !Accepts(t, i) && Reported(t, payloads, callback)
    ensures Reported(Step(t, i, callback), payloads, callback)
  {
    RemarkLogged(t, i, callback);
    QuietStep(t, Step(t, i, callback), Remark(t, i), payloads, callback);
  }

  /** Over every run: the callback is told, right after the ACK of each accepted block, how long the
      file is by then, and nothing else; no report is missing unless the run failed. */
  lemma {:induction false} RunsAreReported(inputs: seq<Input>, callback: bool)
    ensures Reported(Run(inputs, callback), Payloads(inputs, callback), callback)
    decreases |inputs|
  {
    if inputs != [] {
      var t, i, payloads := Run(Front(inputs), callback), Last(inputs), Payloads(Front(inputs), callback);
      RunsAreReported(Front(inputs), callback);
      RunsAreConsistent(Front(inputs), callback);
      if Accepts(t, i) {
        AcceptReports(t, i, callback, payloads);
      } else {
        assert payloads + Gain(t, i) == payloads;
        if t.result == None {
          OtherReports(t, i, callback, payloads);
        }
      }
    }
  }
}
