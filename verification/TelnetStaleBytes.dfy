/** process_subnegotiation reads the suboption buffer at fixed positions, whatever size was collected:
    exactly when bytes left over from an earlier suboption can change what it does. */
module TelnetStaleBytes {
  import opened Bytes
  import opened TelnetCodec
  import opened TelnetNegotiation

  /** How many bytes a body must have for the reaction to be decided by the body alone. */
  function Needed(body: seq<Byte>): nat {
    if body == [] || body[0] != COM_PORT_OPTION then 1
    else if |body| < 2 || body[1] !in SUPPORTED then 2
    else if body[1] == SET_BAUDRATE then 6
    else 3
  }

  /** What the server does about a suboption with this body, collected over the bytes of `stale`. */
  function Outcome(config: Config, stale: Buffer, body: seq<Byte>): seq<Event> {
    Subnegotiate(config, Overlay(stale, body))
  }

  /** The reaction is the same whatever the buffer held before. */
  ghost predicate Decided(config: Config, body: seq<Byte>) {
    forall b: Buffer, c: Buffer :: Outcome(config, b, body) == Outcome(config, c, body)
  }

  lemma OverlayAt(stale: Buffer, body: seq<Byte>, k: nat)
    requires k < SUBOPTION_CAPACITY
    ensures Overlay(stale, body)[k] == if k < |body| then body[k] else stale[k]
  {
  }

  /** Nothing but the first six bytes is looked at, and of those only as many as are needed. */
  lemma ReadsNoMore(config: Config, b: Buffer, c: Buffer)
    requires b[0] == c[0]
    requires b[0] == COM_PORT_OPTION ==> b[1] == c[1]
    requires b[0] == COM_PORT_OPTION && b[1] in SUPPORTED ==> b[2] == c[2]
    requires b[0] == COM_PORT_OPTION && b[1] == SET_BAUDRATE ==> b[3] == c[3] && b[4] == c[4] && b[5] == c[5]
    ensures Subnegotiate(config, b) == Subnegotiate(config, c)
  {
  }

  lemma EnoughDecides(config: Config, b: Buffer, c: Buffer, body: seq<Byte>)
    requires |body| >= Needed(body)
    ensures Outcome(config, b, body) == Outcome(config, c, body)
  {
    forall k: nat | k < SUBOPTION_CAPACITY && k < |body| ensures Overlay(b, body)[k] == Overlay(c, body)[k] {
      OverlayAt(b, body, k);
      OverlayAt(c, body, k);
    }
    OverlayAt(b, body, 0);
    OverlayAt(b, body, 1);
    ReadsNoMore(config, Overlay(b, body), Overlay(c, body));
  }

  // ---------- Two buffers that tell the difference ----------

  function Zeroed(): Buffer {
    seq(SUBOPTION_CAPACITY, _ => 0)
  }

  /** A buffer of zeros with `value` at position k. */
  function Marked(k: nat, value: Byte): Buffer
    requires k < SUBOPTION_CAPACITY
  {
    Zeroed()[k := value]
  }

  /** Frames with payloads that end differently are different. */
  lemma FramesDiffer(command: Byte, a: seq<Byte>, b: seq<Byte>)
    requires |a| == |b| > 0 && Last(a) == 0 && Last(b) == 1
    ensures Frame(command, a) != Frame(command, b)
  {
    EscapeSnoc(a);
    EscapeSnoc(b);
    assert Escape([Last(a)]) == [0] && Escape([Last(b)]) == [1] by {
      assert Front([Last(a)]) == [] && Front([Last(b)]) == [];
    }
    var f, g := Frame(command, a), Frame(command, b);
    assert f[|f| - 3] == 0 && g[|g| - 3] == 1;
  }

  /** Two commands whose values end differently get different answers. */
  lemma ValuesShow(config: Config, b: Buffer, c: Buffer)
    requires b[0] == c[0] == COM_PORT_OPTION && b[1] == c[1] && b[1] in SUPPORTED && b[1] != SET_BAUDRATE
    requires b[2] == 0 && c[2] == 1
    ensures Subnegotiate(config, b) != Subnegotiate(config, c)
  {
    if b[1] == SET_CONTROL && config.onControl.Some? {
      assert Subnegotiate(config, b)[0] == ControlRequest(0) && Subnegotiate(config, c)[0] == ControlRequest(1);
    } else {
      FramesDiffer(ServerCode(b[1]), [b[2]], [c[2]]);
      assert Subnegotiate(config, b)[0] == Sent(Frame(ServerCode(b[1]), [b[2]]));
      assert Subnegotiate(config, c)[0] == Sent(Frame(ServerCode(c[1]), [c[2]]));
    }
  }

  lemma LowestByte(b0: Byte, b1: Byte, b2: Byte, b3: Byte)
    ensures FromBigEndian(b0, b1, b2, b3) % 0x100 == b3
  {
    var high := b0 * 0x1_0000 + b1 * 0x100 + b2;
    assert FromBigEndian(b0, b1, b2, b3) == high * 0x100 + b3;
  }

  lemma RatesShow(config: Config, b: Buffer, c: Buffer)
    requires b[0] == c[0] == COM_PORT_OPTION && b[1] == c[1] == SET_BAUDRATE
    requires b[5] == 0 && c[5] == 1
    ensures Subnegotiate(config, b) != Subnegotiate(config, c)
  {
    var x, y := RequestedBaudrate(b), RequestedBaudrate(c);
    LowestByte(b[2], b[3], b[4], b[5]);
    LowestByte(c[2], c[3], c[4], c[5]);
    if config.onBaudrate.Some? {
      assert Subnegotiate(config, b)[0] == BaudrateRequest(x) && Subnegotiate(config, c)[0] == BaudrateRequest(y);
    } else {
      FramesDiffer(101, BigEndian(x), BigEndian(y));
      assert Subnegotiate(config, b) == [Sent(Frame(101, BigEndian(x)))];
      assert Subnegotiate(config, c) == [Sent(Frame(101, BigEndian(y)))];
    }
  }

  /** Without an option or a command of its own, a body takes over those of an earlier suboption. */
  lemma CommandsShow(config: Config, b: Buffer, c: Buffer)
    requires b[0] == COM_PORT_OPTION && b[1] == 2
    requires c[0] != COM_PORT_OPTION || c[1] !in SUPPORTED
    ensures Subnegotiate(config, b) != Subnegotiate(config, c)
  {
  }

  lemma TooFewDecidesNothing(config: Config, body: seq<Byte>) returns (b: Buffer, c: Buffer)
    requires |body| < Needed(body)
    ensures Outcome(config, b, body) != Outcome(config, c, body)
  {
    if |body| < 2 {
      b, c := Marked(0, COM_PORT_OPTION)[1 := 2], Zeroed();
      TellApart(b, c, body);
      CommandsShow(config, Overlay(b, body), Overlay(c, body));
    } else if body[1] != SET_BAUDRATE {
      b, c := Zeroed(), Marked(2, 1);
      TellApart(b, c, body);
      ValuesShow(config, Overlay(b, body), Overlay(c, body));
    } else {
      b, c := Zeroed(), Marked(5, 1);
      TellApart(b, c, body);
      RatesShow(config, Overlay(b, body), Overlay(c, body));
    }
  }

  lemma TellApart(b: Buffer, c: Buffer, body: seq<Byte>)
    ensures forall k: nat :: k < 6 ==> Overlay(b, body)[k] == if k < |body| then body[k] else b[k]
    ensures forall k: nat :: k < 6 ==> Overlay(c, body)[k] == if k < |body| then body[k] else c[k]
  {
  }

  /** Stale bytes are harmless if and only if the body is long enough for its own command. */
  lemma StaleBytesMatterIff(config: Config, body: seq<Byte>)
    ensures Decided(config, body) <==> |body| >= Needed(body)
  {
    if |body| >= Needed(body) {
      forall b: Buffer, c: Buffer ensures Outcome(config, b, body) == Outcome(config, c, body) {
        EnoughDecides(config, b, c, body);
      }
    } else {
      var b, c := TooFewDecidesNothing(config, body);
    }
  }
}
