/** When the shortcut of process_received_over_tcp is harmless: exactly which ways of cutting a stream into
    reads mean what the whole stream means. */
module TelnetCuts {
  import opened Bytes
  import opened TelnetCodec

  // ---------- Judging a cut by the stream alone ----------

  /** Seen from the one-pass decoder, no read begins inside a suboption without holding an IAC. */
  predicate CleanCuts(p: Parser, cuts: seq<seq<Byte>>)
    decreases |cuts|
  {
    cuts == [] ||
    (CleanCuts(p, Front(cuts)) && !Diverted(Decode(p, Flatten(Front(cuts))).parser, Last(cuts)))
  }

  /** Whether a read is diverted depends on the stream and the places of the cuts alone. */
  lemma {:induction false} FaithfulIffClean(p: Parser, cuts: seq<seq<Byte>>)
    ensures Faithful(p, cuts) <==> CleanCuts(p, cuts)
    decreases |cuts|
  {
    if cuts != [] {
      FaithfulIffClean(p, Front(cuts));
      if Faithful(p, Front(cuts)) {
        ChunkInvariance(p, Front(cuts));
      }
    }
  }

  // ---------- The parser that missed some suboption bytes ----------

  /** A byte that belongs to the data or to a suboption rather than to a command. */
  predicate IsPayload(p: Parser, c: Byte) {
    (p.mode == Normal && c != IAC) || (p.mode == GotIac && c == IAC)
  }

  /** The byte finds the suboption buffer full. */
  predicate Overflows(p: Parser, c: Byte) {
    p.collecting && p.size == SUBOPTION_CAPACITY && IsPayload(p, c)
  }

  /** No suboption of the stream is longer than the buffer. */
  predicate Fits(p: Parser, stream: seq<Byte>)
    decreases |stream|
  {
    stream == [] || (Fits(p, Front(stream)) && !Overflows(Decode(p, Front(stream)).parser, Last(stream)))
  }

  lemma {:induction false} FitsConcat(p: Parser, a: seq<Byte>, b: seq<Byte>)
    ensures Fits(p, a + b) <==> Fits(p, a) && Fits(Decode(p, a).parser, b)
    decreases |b|
  {
    if b == [] {
      assert a + b == a;
    } else {
      assert Front(a + b) == a + Front(b) && Last(a + b) == Last(b);
      FitsConcat(p, a, Front(b));
      DecodeConcat(p, a, Front(b));
    }
  }

  /** `p` reads as `q` does, but may have collected fewer bytes. */
  predicate Lags(p: Parser, q: Parser) {
    p.mode == q.mode && p.collecting == q.collecting && p.size <= q.size
  }

  lemma StepLags(p: Parser, q: Parser, c: Byte)
    requires Lags(p, q) && !Overflows(q, c)
    ensures Lags(Step(p, c).parser, Step(q, c).parser) && Step(p, c).data == Step(q, c).data
  {
  }

  lemma {:induction false} DecodeLags(p: Parser, q: Parser, stream: seq<Byte>)
    requires Lags(p, q) && Fits(q, stream)
    ensures Lags(Decode(p, stream).parser, Decode(q, stream).parser)
    ensures Decode(p, stream).data == Decode(q, stream).data
    decreases |stream|
  {
    if stream != [] {
      DecodeLags(p, q, Front(stream));
      StepLags(Decode(p, Front(stream)).parser, Decode(q, Front(stream)).parser, Last(stream));
    }
  }

  /** Inside a suboption that fits, bytes other than IAC are collected and nothing else happens. */
  lemma {:induction false} CollectingGrows(q: Parser, read: seq<Byte>)
    requires q.mode == Normal && q.collecting && IAC !in read && Fits(q, read)
    ensures var d := Decode(q, read);
            d.data == [] && d.parser.mode == Normal && d.parser.collecting && q.size <= d.parser.size
    decreases |read|
  {
    if read != [] {
      CollectingGrows(q, Front(read));
      assert Last(read) in read;
    }
  }

  /** A diverted read puts data out that the decoder collects, and leaves the parser lagging. */
  lemma ReadLags(p: Parser, q: Parser, read: seq<Byte>)
    requires Lags(p, q) && Fits(q, read)
    ensures Lags(Read(p, read).parser, Decode(q, read).parser)
    ensures |Read(p, read).data| == |Decode(q, read).data| + if Diverted(p, read) then |read| else 0
  {
    if p.mode == Normal && IAC !in read {
      if p.collecting {
        CollectingGrows(q, read);
      } else {
        DecodePlain(q, read);
      }
    } else {
      DecodeLags(p, q, read);
    }
  }

  lemma {:induction false} CutsLag(p: Parser, cuts: seq<seq<Byte>>)
    requires Fits(p, Flatten(cuts))
    ensures Lags(ReadAll(p, cuts).parser, Decode(p, Flatten(cuts)).parser)
    ensures |ReadAll(p, cuts).data| >= |Decode(p, Flatten(cuts)).data| + if Faithful(p, cuts) then 0 else 1
    decreases |cuts|
  {
    if cuts != [] {
      var head := Flatten(Front(cuts));
      FitsConcat(p, head, Last(cuts));
      CutsLag(p, Front(cuts));
      ReadLags(ReadAll(p, Front(cuts)).parser, Decode(p, head).parser, Last(cuts));
      DecodeConcat(p, head, Last(cuts));
    }
  }

  /** For every stream whose suboptions fit the buffer, a split means what the whole stream means if and
      only if it diverts no read. */
  lemma {:induction false} ChunkInvarianceIff(p: Parser, cuts: seq<seq<Byte>>)
    requires Fits(p, Flatten(cuts))
    ensures ReadAll(p, cuts) == Decode(p, Flatten(cuts)) <==> Faithful(p, cuts)
  {
    CutsLag(p, cuts);
    if Faithful(p, cuts) {
      ChunkInvariance(p, cuts);
    }
  }

  /** A stream cut in two. */
  lemma TwoReads(p: Parser, a: seq<Byte>, b: seq<Byte>)
    ensures Flatten([a, b]) == a + b
    ensures ReadAll(p, [a, b]) == Read(p, a).Then(Read(Read(p, a).parser, b))
    ensures Faithful(p, [a, b]) <==> !Diverted(p, a) && !Diverted(Read(p, a).parser, b)
  {
    FlattenSnoc([], a);
    FlattenSnoc([a], b);
    assert [] + [a] == [a] && [a] + [b] == [a, b] && Front([a]) == [] && Front([a, b]) == [a];
    assert ReadAll(p, []).Then(Read(p, a)) == Read(p, a);
    assert Faithful(p, []) && (Faithful(p, [a]) <==> !Diverted(p, a));
  }

  /** With a full buffer the difference can cancel out: the diverted byte stands in for one that follows
      the overflow. */
  lemma OverflowCanHideADiversion(p: Parser)
    requires p.mode == Normal && p.collecting && p.size == SUBOPTION_CAPACITY
    ensures var cuts := [[7], [7, IAC, 241]];
            !Fits(p, Flatten(cuts)) && !Faithful(p, cuts) && ReadAll(p, cuts) == Decode(p, Flatten(cuts))
  {
    var first: seq<Byte>, second: seq<Byte> := [7], [7, IAC, 241];
    var q := p.(collecting := false, size := 0);
    TwoReads(p, first, second);
    DecodeOne(p, 7);
    DecodeTwo(p, 7, IAC);
    DecodeThree(p, 7, IAC, 241);
    assert Decode(p, second) == Decoded(q, [], [Ignored(241)]);
    DecodeTwo(q, 7, IAC);
    DecodeThree(q, 7, IAC, 241);
    assert Decode(q, second) == Decoded(q, [7], [Ignored(241)]);
    DecodeConcat(p, first, second);
    assert Front(first) == [] && Decode(p, []) == Decoded(p, [], []);
    FitsConcat(p, first, second);
  }

  // ---------- Streams without data ----------

  lemma {:induction false} DiversionShows(p: Parser, cuts: seq<seq<Byte>>)
    requires !Faithful(p, cuts)
    ensures ReadAll(p, cuts).data != []
    decreases |cuts|
  {
    if Faithful(p, Front(cuts)) {
      assert Diverted(ReadAll(p, Front(cuts)).parser, Last(cuts));
    } else {
      DiversionShows(p, Front(cuts));
    }
  }

  /** A frame that fits, cut into reads in any way, arrives whole if and only if no read is diverted. */
  lemma {:induction false} CutFrameArrivesIff(p: Parser, command: Byte, payload: seq<Byte>, cuts: seq<seq<Byte>>)
    requires p.mode == Normal && command != IAC && 2 + |payload| <= SUBOPTION_CAPACITY
    requires Flatten(cuts) == Frame(command, payload)
    ensures ReadAll(p, cuts) == Decode(p, Frame(command, payload)) <==> Faithful(p, cuts)
  {
    FrameArrivesIff(p, command, payload);
    if Faithful(p, cuts) {
      ChunkInvariance(p, cuts);
    } else {
      DiversionShows(p, cuts);
    }
  }

  /** The first bytes of a frame in one read, the rest of its command in the next: the second read goes
      to the data callback. */
  lemma FrameHeadIsDiverted(p: Parser)
    requires p.mode == Normal
    ensures var cuts := [[IAC, SB, COM_PORT_OPTION], [1]];
            && !Faithful(p, cuts)
            && ReadAll(p, cuts).data == [1]
            && Decode(p, Flatten(cuts)).data == []
  {
    var first: seq<Byte>, second: seq<Byte> := [IAC, SB, COM_PORT_OPTION], [1];
    var open := p.(size := 0, collecting := true);
    var q := Payload(open, COM_PORT_OPTION).parser;
    DecodeOpen(p);
    DecodeThree(p, IAC, SB, COM_PORT_OPTION);
    assert Decode(p, first) == Decoded(q, [], []);
    assert first[0] == IAC && Read(p, first) == Decode(p, first);
    TwoReads(p, first, second);
    DecodeConcat(p, first, second);
    DecodeOne(q, 1);
  }
}
