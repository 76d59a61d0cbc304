/** Everything the server of main/rfc2217_server.c says and calls on a connection, told from what the client
    asked so far and in the bytes of RFC 854 and RFC 2217 alone. */
module TelnetTranscript {
  import opened Bytes
  import opened TelnetCodec
  import opened TelnetNegotiation

  // ---------- What one request gets, after a history of others ----------

  /** The last of these two commands that was given for the Com Port option, or `otherwise`. */
  function LastOf(history: seq<Action>, yes: Byte, no: Byte, otherwise: Byte): Byte
    decreases |history|
  {
    if history == [] then otherwise
    else if Last(history) == Negotiation(yes, 44) then yes
    else if Last(history) == Negotiation(no, 44) then no
    else LastOf(Front(history), yes, no, otherwise)
  }

  /** The client has agreed to the Com Port option, with DO (253) or WILL (251). */
  predicate HasAgreed(history: seq<Action>) {
    exists k :: 0 <= k < |history| && (history[k] == Negotiation(253, 44) || history[k] == Negotiation(251, 44))
  }

  /** WILL (251) or WONT (252) answers a DO or DONT that differs from the last one; the first is the answer to
      the server's own offer. DO or DONT (254) answers a WILL or WONT that differs from the last one, WONT if
      there was none. */
  function ComPortAnswer(history: seq<Action>, command: Byte): seq<Event> {
    if command == 253 && LastOf(history, 253, 254, 0) == 254 then [Sent([255, 251, 44])]
    else if command == 254 && LastOf(history, 253, 254, 0) == 253 then [Sent([255, 252, 44])]
    else if command == 251 && LastOf(history, 251, 252, 252) == 252 then [Sent([255, 253, 44])]
    else if command == 252 && LastOf(history, 251, 252, 252) == 251 then [Sent([255, 254, 44])]
    else []
  }

  function Notice(config: Config, history: seq<Action>, command: Byte): seq<Event> {
    if (command == 253 || command == 251) && !HasAgreed(history) && config.onConnected then [ClientConnected] else []
  }

  /** A value byte in a frame. */
  function Doubled(value: Byte): seq<Byte> {
    if value == 255 then [255, 255] else [value]
  }

  function ValueFrame(code: Byte, value: Byte): Event {
    Sent([255, 250, 44, code] + Doubled(value) + [255, 240])
  }

  function RateFrame(rate: Word): Event {
    Sent([255, 250, 44, 101] + Doubled(rate / 0x100_0000) + Doubled(rate / 0x1_0000 % 256)
         + Doubled(rate / 0x100 % 256) + Doubled(rate % 256) + [255, 240])
  }

  function RateOf(b: Buffer): (r: Word) {
    var b2: int, b3: int, b4: int, b5: int := b[2], b[3], b[4], b[5];
    0x100_0000 * b2 + 0x1_0000 * b3 + 0x100 * b4 + b5
  }

  /** The Com Port commands. */
  function CommandAnswer(config: Config, b: Buffer): seq<Event> {
    if b[0] != 44 then
      []
    else if b[1] == 1 then
      match config.onBaudrate
      case None => [RateFrame(RateOf(b))]
      case Some(f) => [BaudrateRequest(RateOf(b)), RateFrame(f(RateOf(b)))]
    else if b[1] == 5 then
      match config.onControl
      case None => [ValueFrame(105, b[2])]
      case Some(f) => [ControlRequest(b[2]), ValueFrame(105, f(b[2]))]
    else if b[1] == 12 then
      [ValueFrame(112, b[2])] + (if config.onPurge then [PurgeRequest(b[2])] else []) + [ValueFrame(112, b[2])]
    else if 2 <= b[1] <= 7 then
      [ValueFrame(b[1] + 100, b[2])]
    else
      []
  }

  /** ECHO, SGA and BINARY are tracked without a word; any option but those and Com Port is refused. */
  function Answer(config: Config, history: seq<Action>, a: Action): seq<Event> {
    match a
    case Negotiation(command, option) =>
      if option == 44 then ComPortAnswer(history, command) + Notice(config, history, command)
      else if option == 0 || option == 1 || option == 3 then []
      else if command == 251 then [Sent([255, 254, option])]
      else if command == 253 then [Sent([255, 252, option])]
      else []
    case Subnegotiation(suboption, _) => CommandAnswer(config, suboption)
    case Ignored(_) => []
  }

  function Transcript(config: Config, actions: seq<Action>): seq<Event>
    decreases |actions|
  {
    if actions == [] then []
    else Transcript(config, Front(actions)) + Answer(config, Front(actions), Last(actions))
  }

  // ---------- What the server remembers ----------

  /** A table entry that neither speaks nor calls. */
  predicate Mute(e: Entry) {
    !e.def.replies && !e.def.notifies
  }

  /** The states of the two Com Port entries and the flag are what the history makes them. */
  predicate Remembers(n: Negotiator, history: seq<Action>) {
    && |n.entries| == 7
    && (forall i :: 0 <= i < 7 ==> n.entries[i].def == DEFINITIONS[i])
    && n.entries[5].state == (if LastOf(history, 253, 254, 0) == 253 then Active
                              else if LastOf(history, 253, 254, 0) == 254 then Inactive else Requested)
    && n.entries[6].state == (if LastOf(history, 251, 252, 252) == 251 then Active else Inactive)
    && n.clientIsRfc2217 == HasAgreed(history)
  }

  lemma TableOptions(n: Negotiator, history: seq<Action>, option: Byte)
    requires Remembers(n, history)
    ensures Known(n, option) <==> option in {0, 1, 3, 44}
    ensures forall i :: 0 <= i < 5 ==> n.entries[i].def.option in {0, 1, 3} && Mute(n.entries[i])
    ensures n.entries[5].def.option == 44 && n.entries[6].def.option == 44
  {
    assert n.entries[0].def.option == 1 && n.entries[1].def.option == 3 && n.entries[3].def.option == 0;
    assert n.entries[5].def.option == 44;
  }

  lemma AgreedNext(history: seq<Action>, a: Action)
    ensures HasAgreed(history + [a]) <==> HasAgreed(history) || a == Negotiation(253, 44) || a == Negotiation(251, 44)
  {
    var longer := history + [a];
    assert longer[|history|] == a && forall k :: 0 <= k < |history| ==> longer[k] == history[k];
  }

  lemma LastNext(history: seq<Action>, a: Action, yes: Byte, no: Byte, otherwise: Byte)
    ensures LastOf(history + [a], yes, no, otherwise) ==
            if a == Negotiation(yes, 44) then yes else if a == Negotiation(no, 44) then no
            else LastOf(history, yes, no, otherwise)
  {
    assert Front(history + [a]) == history;
  }

  /** An action that is no request for the Com Port option is forgotten. */
  lemma Forgotten(n: Negotiator, m: Negotiator, history: seq<Action>, a: Action)
    requires Remembers(n, history) && (a.Negotiation? ==> a.option != 44)
    requires |m.entries| == 7 && m.clientIsRfc2217 == n.clientIsRfc2217
    requires forall i :: 0 <= i < 7 ==> m.entries[i].def == n.entries[i].def
    requires m.entries[5] == n.entries[5] && m.entries[6] == n.entries[6]
    ensures Remembers(m, history + [a])
  {
    AgreedNext(history, a);
    LastNext(history, a, 253, 254, 0);
    LastNext(history, a, 251, 252, 252);
  }

  // ---------- Options without a voice ----------

  /** Nothing was said and nobody called. */
  predicate Silent(n: Negotiator, r: Response) {
    r.events == [] && r.negotiator.clientIsRfc2217 == n.clientIsRfc2217
  }

  lemma MuteTurn(config: Config, n: Negotiator, r: Response, i: nat, command: Byte)
    requires i < |r.negotiator.entries| && Mute(r.negotiator.entries[i]) && Silent(n, r)
    ensures Silent(n, r.Then(Process(config, r.negotiator, i, command)))
  {
  }

  lemma {:induction false} MuteTurns(config: Config, n: Negotiator, command: Byte, option: Byte, count: nat)
    requires count <= |n.entries|
    requires forall i :: 0 <= i < count && n.entries[i].def.option == option ==> Mute(n.entries[i])
    ensures Silent(n, NegotiateFirst(config, n, command, option, count))
    decreases count
  {
    if count > 0 {
      MuteTurns(config, n, command, option, count - 1);
      if n.entries[count - 1].def.option == option {
        NegotiateFirstEntry(config, n, command, option, count - 1, count - 1);
        MuteTurn(config, n, NegotiateFirst(config, n, command, option, count - 1), count - 1, command);
      }
    }
  }

  lemma OtherOption(config: Config, n: Negotiator, history: seq<Action>, command: Byte, option: Byte)
    requires Remembers(n, history) && option != 44
    ensures var a := Negotiation(command, option);
            var r := Respond(config, n, a);
            r.events == Answer(config, history, a) && Remembers(r.negotiator, history + [a])
  {
    var a := Negotiation(command, option);
    var r := Respond(config, n, a);
    TableOptions(n, history, option);
    if Known(n, option) {
      MuteTurns(config, n, command, option, 7);
      forall i | 0 <= i < 7
        ensures r.negotiator.entries[i].def == n.entries[i].def && (i >= 5 ==> r.negotiator.entries[i] == n.entries[i])
      {
        NegotiateFirstEntry(config, n, command, option, 7, i);
      }
    }
    Forgotten(n, r.negotiator, history, a);
  }

  // ---------- The Com Port option ----------

  /** Only the last two turns matter. */
  lemma TwoTurns(config: Config, n: Negotiator, history: seq<Action>, command: Byte)
    requires Remembers(n, history)
    ensures var r := Process(config, n, 5, command);
            NegotiateOption(config, n, command, 44) == r.Then(Process(config, r.negotiator, 6, command))
  {
    TableOptions(n, history, 44);
    NegotiateFirstUnknown(config, n, command, 44, 5);
    var r := Process(config, n, 5, command);
    assert NegotiateFirst(config, n, command, 44, 6) == Response(n, []).Then(r);
    assert Response(n, []).Then(r) == r;
    assert r.negotiator.entries[6] == n.entries[6];
    assert NegotiateFirst(config, n, command, 44, 7) == r.Then(Process(config, r.negotiator, 6, command));
  }

  /** A turn of an entry that does not acknowledge with this command. */
  lemma Unmoved(config: Config, n: Negotiator, i: nat, command: Byte)
    requires i < |n.entries| && command != n.entries[i].def.ackYes && command != n.entries[i].def.ackNo
    ensures Process(config, n, i, command) == Response(n, [])
  {
    assert n.entries[i := n.entries[i]] == n.entries;
  }

  lemma OfferTurn(config: Config, n: Negotiator, history: seq<Action>, command: Byte)
    requires Remembers(n, history) && (command == 253 || command == 254)
    ensures var a := Negotiation(command, 44);
            var r := Process(config, n, 5, command);
            r.events == Answer(config, history, a) && Remembers(r.negotiator, history + [a])
  {
    var a := Negotiation(command, 44);
    AgreedNext(history, a);
    LastNext(history, a, 253, 254, 0);
    LastNext(history, a, 251, 252, 252);
    LastIsOne(history, 253, 254, 0);
    AgreedIfLast(history, 253, 254, 0);
  }

  lemma RequestTurn(config: Config, n: Negotiator, history: seq<Action>, command: Byte)
    requires Remembers(n, history) && (command == 251 || command == 252)
    ensures var a := Negotiation(command, 44);
            var r := Process(config, n, 6, command);
            r.events == Answer(config, history, a) && Remembers(r.negotiator, history + [a])
  {
    var a := Negotiation(command, 44);
    AgreedNext(history, a);
    LastNext(history, a, 253, 254, 0);
    LastNext(history, a, 251, 252, 252);
    LastIsOne(history, 251, 252, 252);
    AgreedIfLast(history, 251, 252, 252);
  }

  lemma {:induction false} LastIsOne(history: seq<Action>, yes: Byte, no: Byte, otherwise: Byte)
    ensures LastOf(history, yes, no, otherwise) in {yes, no, otherwise}
    decreases |history|
  {
    if history != [] {
      LastIsOne(Front(history), yes, no, otherwise);
    }
  }

  lemma {:induction false} AgreedIfLast(history: seq<Action>, yes: Byte, no: Byte, otherwise: Byte)
    requires (yes == 253 || yes == 251) && no != yes && otherwise != yes
    ensures LastOf(history, yes, no, otherwise) == yes ==> HasAgreed(history)
    decreases |history|
  {
    if history != [] {
      AgreedIfLast(Front(history), yes, no, otherwise);
      AgreedNext(Front(history), Last(history));
      assert Front(history) + [Last(history)] == history;
    }
  }

  /** DO and DONT are for the entry that offers, all others leave it alone. */
  lemma OfferOnly(config: Config, n: Negotiator, history: seq<Action>, command: Byte)
    requires Remembers(n, history)
    ensures NegotiateOption(config, n, command, 44) ==
            Process(config, n, if command == 253 || command == 254 then 5 else 6, command)
  {
    var r := Process(config, n, 5, command);
    TwoTurns(config, n, history, command);
    if command == 253 || command == 254 {
      Unmoved(config, r.negotiator, 6, command);
      assert r.Then(Response(r.negotiator, [])) == r;
    } else {
      Unmoved(config, n, 5, command);
      var s := Process(config, n, 6, command);
      assert Response(n, []).Then(s) == s;
    }
  }

  lemma NoVerb(n: Negotiator, history: seq<Action>, command: Byte)
    requires Remembers(n, history) && command !in {251, 252, 253, 254}
    ensures Remembers(n, history + [Negotiation(command, 44)])
  {
    var a := Negotiation(command, 44);
    AgreedNext(history, a);
    LastNext(history, a, 253, 254, 0);
    LastNext(history, a, 251, 252, 252);
  }

  lemma ComPortOption(config: Config, n: Negotiator, history: seq<Action>, command: Byte)
    requires Remembers(n, history)
    ensures var a := Negotiation(command, 44);
            var r := Respond(config, n, a);
            r.events == Answer(config, history, a) && Remembers(r.negotiator, history + [a])
  {
    OfferOnly(config, n, history, command);
    if command == 253 || command == 254 {
      OfferTurn(config, n, history, command);
    } else if command == 251 || command == 252 {
      RequestTurn(config, n, history, command);
    } else {
      Unmoved(config, n, 6, command);
      NoVerb(n, history, command);
    }
  }

  // ---------- Com Port commands ----------

  lemma EscapeOne(value: Byte)
    ensures Escape([value]) == Doubled(value)
  {
    assert Front([value]) == [];
  }

  lemma EscapeFour(a: Byte, b: Byte, c: Byte, d: Byte)
    ensures Escape([a, b, c, d]) == Doubled(a) + Doubled(b) + Doubled(c) + Doubled(d)
  {
    EscapeOne(a);
    EscapeConcat([a], [b]);
    EscapeOne(b);
    EscapeConcat([a, b], [c]);
    EscapeOne(c);
    EscapeConcat([a, b, c], [d]);
    EscapeOne(d);
    assert [a] + [b] == [a, b] && [a, b] + [c] == [a, b, c] && [a, b, c] + [d] == [a, b, c, d];
  }

  lemma FrameOfValue(code: Byte, value: Byte)
    ensures Sent(Frame(code, [value])) == ValueFrame(code, value)
  {
    EscapeOne(value);
  }

  lemma FrameOfRate(rate: Word)
    ensures Sent(Frame(101, BigEndian(rate))) == RateFrame(rate)
  {
    var a, b, c, d := rate / 0x100_0000, rate / 0x1_0000 % 256, rate / 0x100 % 256, rate % 256;
    EscapeFour(a, b, c, d);
    var head: seq<Byte> := [255, 250, 44, 101];
    Associative(head, Doubled(a) + Doubled(b) + Doubled(c), Doubled(d));
    Associative(head, Doubled(a) + Doubled(b), Doubled(c));
    Associative(head, Doubled(a), Doubled(b));
  }

  lemma CommandsAnswered(config: Config, b: Buffer)
    ensures Subnegotiate(config, b) == CommandAnswer(config, b)
  {
    if b[0] == 44 {
      if b[1] == 1 {
        assert RequestedBaudrate(b) == RateOf(b);
        FrameOfRate(Call(config.onBaudrate, RateOf(b), RateOf(b)));
      } else if b[1] == 5 {
        FrameOfValue(105, Call(config.onControl, b[2], b[2]));
      } else if b[1] in SUPPORTED {
        FrameOfValue(b[1] + 100, b[2]);
      }
    }
  }

  // ---------- Whole connections ----------

  lemma ActionAnswered(config: Config, n: Negotiator, history: seq<Action>, a: Action)
    requires Remembers(n, history)
    ensures Respond(config, n, a).events == Answer(config, history, a)
    ensures Remembers(Respond(config, n, a).negotiator, history + [a])
  {
    match a
    case Negotiation(command, option) =>
      if option == 44 {
        ComPortOption(config, n, history, command);
      } else {
        OtherOption(config, n, history, command, option);
      }
    case Subnegotiation(suboption, _) =>
      CommandsAnswered(config, suboption);
      Forgotten(n, n, history, a);
    case Ignored(_) =>
      Forgotten(n, n, history, a);
  }

  /** The events are the transcript, and the server remembers what it needs to go on. */
  predicate Follows(config: Config, r: Response, actions: seq<Action>) {
    r.events == Transcript(config, actions) && Remembers(r.negotiator, actions)
  }

  lemma FollowsOn(config: Config, r: Response, actions: seq<Action>)
    requires actions != [] && Follows(config, r, Front(actions))
    ensures Follows(config, r.Then(Respond(config, r.negotiator, Last(actions))), actions)
  {
    ActionAnswered(config, r.negotiator, Front(actions), Last(actions));
    assert Front(actions) + [Last(actions)] == actions;
  }

  /** Over every connection the server says and calls exactly what the transcript says. */
  lemma {:induction false} TranscriptHolds(config: Config, actions: seq<Action>)
    ensures Follows(config, RespondAll(config, InitialNegotiator(), actions), actions)
    decreases |actions|
  {
    if actions != [] {
      TranscriptHolds(config, Front(actions));
      FollowsOn(config, RespondAll(config, InitialNegotiator(), Front(actions)), actions);
    }
  }

  // ---------- Unknown options ----------

  /** The negotiation messages that name an option. */
  function Naming(option: Byte, events: seq<Event>): seq<seq<Byte>>
    decreases |events|
  {
    if events == [] then [] else Naming(option, Front(events)) + NamedBy(option, Last(events))
  }

  function NamedBy(option: Byte, event: Event): seq<seq<Byte>> {
    if event.Sent? && |event.bytes| == 3 && event.bytes[2] == option then [event.bytes] else []
  }

  /** DONT for every WILL and WONT for every DO. */
  function Refusals(option: Byte, actions: seq<Action>): seq<seq<Byte>>
    decreases |actions|
  {
    if actions == [] then []
    else Refusals(option, Front(actions)) + RefusalOf(option, Last(actions))
  }

  function RefusalOf(option: Byte, a: Action): seq<seq<Byte>> {
    if a == Negotiation(251, option) then [[255, 254, option]]
    else if a == Negotiation(253, option) then [[255, 252, option]]
    else []
  }

  lemma {:induction false} NamingConcat(option: Byte, a: seq<Event>, b: seq<Event>)
    ensures Naming(option, a + b) == Naming(option, a) + Naming(option, b)
    decreases |b|
  {
    if b == [] {
      assert a + b == a;
    } else {
      NamingConcat(option, a, Front(b));
      assert Front(a + b) == a + Front(b) && Last(a + b) == Last(b);
      Associative(Naming(option, a), Naming(option, Front(b)), NamedBy(option, Last(b)));
    }
  }

  lemma {:induction false} NamesNothing(option: Byte, events: seq<Event>)
    requires forall e :: e in events ==> NamedBy(option, e) == []
    ensures Naming(option, events) == []
    decreases |events|
  {
    if events != [] {
      assert Last(events) in events;
      NamesNothing(option, Front(events));
    }
  }

  lemma NamingOne(option: Byte, event: Event)
    ensures Naming(option, [event]) == NamedBy(option, event)
  {
    assert Front([event]) == [];
  }

  lemma CommandNames(config: Config, b: Buffer, option: Byte)
    ensures Naming(option, CommandAnswer(config, b)) == []
  {
    forall e | e in CommandAnswer(config, b) ensures NamedBy(option, e) == [] {
      assert e.Sent? ==> |e.bytes| > 3;
    }
    NamesNothing(option, CommandAnswer(config, b));
  }

  lemma ComPortNames(config: Config, history: seq<Action>, command: Byte, option: Byte)
    requires option != 44
    ensures Naming(option, ComPortAnswer(history, command) + Notice(config, history, command)) == []
  {
    NamesNothing(option, ComPortAnswer(history, command));
    NamesNothing(option, Notice(config, history, command));
    NamingConcat(option, ComPortAnswer(history, command), Notice(config, history, command));
  }

  lemma AnswerNames(config: Config, history: seq<Action>, a: Action, option: Byte)
    requires option != 0 && option != 1 && option != 3 && option != 44
    ensures Naming(option, Answer(config, history, a)) == RefusalOf(option, a)
  {
    match a
    case Negotiation(command, o) =>
      if o == 44 {
        ComPortNames(config, history, command, option);
      } else {
        NamingOne(option, Sent([255, 254, o]));
        NamingOne(option, Sent([255, 252, o]));
      }
    case Subnegotiation(suboption, _) =>
      CommandNames(config, suboption, option);
    case Ignored(_) =>
  }

  /** Over every connection, an option the table does not have gets exactly one DONT for each WILL and one
      WONT for each DO, in order, and nothing else. */
  lemma {:induction false} UnknownOptionsAreRefused(config: Config, actions: seq<Action>, option: Byte)
    requires option != 0 && option != 1 && option != 3 && option != 44
    ensures Naming(option, RespondAll(config, InitialNegotiator(), actions).events) == Refusals(option, actions)
    decreases |actions|
  {
    TranscriptHolds(config, actions);
    if actions != [] {
      UnknownOptionsAreRefused(config, Front(actions), option);
      TranscriptHolds(config, Front(actions));
      AnswerNames(config, Front(actions), Last(actions), option);
      NamingConcat(option, Transcript(config, Front(actions)), Answer(config, Front(actions), Last(actions)));
    }
  }

  /** So the server never agrees to such an option, and never asks for it. */
  lemma {:induction false} RefusalsNeverAgree(option: Byte, actions: seq<Action>)
    ensures [255, 251, option] !in Refusals(option, actions) && [255, 253, option] !in Refusals(option, actions)
    decreases |actions|
  {
    if actions != [] {
      RefusalsNeverAgree(option, Front(actions));
      var will: seq<Byte>, ask: seq<Byte> := [255, 251, option], [255, 253, option];
      forall m | m in RefusalOf(option, Last(actions)) ensures m != will && m != ask {
        assert m[1] == 254 || m[1] == 252;
      }
    }
  }
}
