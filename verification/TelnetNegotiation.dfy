/** How the server of main/rfc2217_server.c answers what its parser found: the seven option
    entries, the client-connected notice and the RFC 2217 Com Port commands. */
module TelnetNegotiation {
  import opened Bytes
  import opened TelnetCodec

  datatype State = Requested | Active | Inactive | ReallyInactive

  /** telnet_option_def_t; the two callbacks are either the server's own or absent. */
  datatype Definition = Definition(
    option: Byte, initial: State, sendYes: Byte, sendNo: Byte, ackYes: Byte, ackNo: Byte,
    notifies: bool, replies: bool)

  datatype Entry = Entry(def: Definition, active: bool, state: State)

  const ECHO: Byte := 0x01
  const SGA: Byte := 0x03
  const BINARY: Byte := 0x00

  const DEFINITIONS: seq<Definition> := [
    Definition(ECHO, Requested, WILL, WONT, DO, DONT, false, false),
    Definition(SGA, Requested, WILL, WONT, DO, DONT, false, false),
    Definition(SGA, Inactive, DO, DONT, WILL, WONT, false, false),
    Definition(BINARY, Inactive, WILL, WONT, DO, DONT, false, false),
    Definition(BINARY, Requested, DO, DONT, WILL, WONT, false, false),
    Definition(COM_PORT_OPTION, Requested, WILL, WONT, DO, DONT, true, true),
    Definition(COM_PORT_OPTION, Inactive, DO, DONT, WILL, WONT, true, true)
  ]

  /** Which callbacks the application installed, and what they answer. */
  datatype Config = Config(
    onData: bool, onConnected: bool, onDisconnected: bool,
    onBaudrate: Option<Word -> Word>, onControl: Option<Byte -> Byte>, onPurge: bool)

  /** What the outside sees of the server, apart from received data. */
  datatype Event =
    | Sent(bytes: seq<Byte>)
    | ClientConnected
    | ClientDisconnected
    | BaudrateRequest(baudrate: Word)
    | ControlRequest(control: Byte)
    | PurgeRequest(purge: Byte)

  datatype Negotiator = Negotiator(entries: seq<Entry>, clientIsRfc2217: bool)

  datatype Response = Response(negotiator: Negotiator, events: seq<Event>) {
    function Then(next: Response): Response {
      Response(next.negotiator, events + next.events)
    }
  }

  function InitialEntry(def: Definition): Entry {
    Entry(def, false, def.initial)
  }

  function InitialNegotiator(): (n: Negotiator)
    ensures |n.entries| == |DEFINITIONS|
  {
    Negotiator(seq(|DEFINITIONS|, i requires 0 <= i < |DEFINITIONS| => InitialEntry(DEFINITIONS[i])), false)
  }

  // ---------- One entry ----------

  datatype Reaction = Reaction(entry: Entry, reply: Option<Byte>, notify: bool)

  /** telnet_option_process_incoming, without the callbacks it makes. */
  function React(e: Entry, command: Byte): (r: Reaction)
    ensures r.entry.def == e.def
  {
    if command == e.def.ackYes then
      match e.state
      case Requested => Reaction(e.(state := Active, active := true), None, true)
      case Active => Reaction(e, None, false)
      case Inactive => Reaction(e.(state := Active, active := true), Some(e.def.sendYes), true)
      case ReallyInactive => Reaction(e, Some(e.def.sendNo), false)
    else if command == e.def.ackNo then
      match e.state
      case Requested => Reaction(e.(state := Inactive, active := false), None, false)
      case Active => Reaction(e.(state := Inactive, active := false), Some(e.def.sendNo), false)
      case Inactive => Reaction(e, None, false)
      case ReallyInactive => Reaction(e, None, false)
    else
      Reaction(e, None, false)
  }

  /** The verb an entry puts on the wire; only entries with a send callback speak. */
  function Spoken(e: Entry, command: Byte): seq<Byte> {
    var r := React(e, command);
    if r.reply.Some? && e.def.replies then [r.reply.value] else []
  }

  function EntryAfter(e: Entry, commands: seq<Byte>): (r: Entry)
    ensures r.def == e.def
    decreases |commands|
  {
    if commands == [] then e else React(EntryAfter(e, Front(commands)), Last(commands)).entry
  }

  function RepliesAfter(e: Entry, commands: seq<Byte>): seq<Byte>
    decreases |commands|
  {
    if commands == [] then []
    else RepliesAfter(e, Front(commands)) + Spoken(EntryAfter(e, Front(commands)), Last(commands))
  }

  predicate Consistent(e: Entry) {
    && (e.active <==> e.state == Active)
    && e.state != ReallyInactive
    && e.def.sendYes != e.def.sendNo
  }

  /** How often the state of the entry changed. */
  function Changes(e: Entry, commands: seq<Byte>): nat
    decreases |commands|
  {
    if commands == [] then 0
    else
      var before := EntryAfter(e, Front(commands));
      Changes(e, Front(commands)) + if React(before, Last(commands)).entry.state != before.state then 1 else 0
  }

  /** The replies alternate between the entry's two verbs and the last one tells its current state. */
  predicate Alternating(e: Entry, replies: seq<Byte>) {
    && (forall k :: 0 <= k < |replies| ==> replies[k] == e.def.sendYes || replies[k] == e.def.sendNo)
    && (forall k :: 0 < k < |replies| ==> replies[k] != replies[k - 1])
    && (replies != [] ==> e.def.replies && e.state != Requested)
    && (replies != [] ==> Last(replies) == if e.state == Active then e.def.sendYes else e.def.sendNo)
  }

  lemma AlternationSnoc(e: Entry, replies: seq<Byte>, after: Entry)
    requires e.def.replies && e.def.sendYes != e.def.sendNo && Alternating(e, replies)
    requires after.def == e.def && after.state != Requested
    requires replies != [] ==> (e.state == Active) != (after.state == Active)
    ensures Alternating(after, replies + [if after.state == Active then e.def.sendYes else e.def.sendNo])
  {
    var longer := replies + [if after.state == Active then e.def.sendYes else e.def.sendNo];
    assert forall k :: 0 <= k < |replies| ==> longer[k] == replies[k];
    assert replies != [] ==> Last(replies) == longer[|longer| - 2];
  }

  lemma ReactKeepsAlternation(e: Entry, replies: seq<Byte>, command: Byte)
    requires Consistent(e) && Alternating(e, replies)
    ensures var r := React(e, command);
            Consistent(r.entry) && Alternating(r.entry, replies + Spoken(e, command))
  {
    if Spoken(e, command) == [] {
      assert replies + Spoken(e, command) == replies;
    } else {
      AlternationSnoc(e, replies, React(e, command).entry);
    }
  }

  /** Over every run of one entry: `active` mirrors the state, T_REALLY_INACTIVE is never entered,
      the replies alternate, and the last one tells the peer the current state. An entry that speaks
      answers every change of state except the one that answers its own opening request. */
  lemma {:induction false} EntryInvariant(e: Entry, commands: seq<Byte>)
    requires Consistent(e)
    ensures Consistent(EntryAfter(e, commands))
    ensures EntryAfter(e, commands).state == Requested ==> e.state == Requested
    ensures Alternating(EntryAfter(e, commands), RepliesAfter(e, commands))
    ensures |RepliesAfter(e, commands)| + Unanswered(e, EntryAfter(e, commands)) ==
            if e.def.replies then Changes(e, commands) else 0
    decreases |commands|
  {
    if commands != [] {
      var before := EntryAfter(e, Front(commands));
      EntryInvariant(e, Front(commands));
      ReactKeepsAlternation(before, RepliesAfter(e, Front(commands)), Last(commands));
      ReactAnswersChanges(before, Last(commands));
    }
  }

  /** The reply to the entry's own opening request is not answered. */
  function Unanswered(e: Entry, after: Entry): nat {
    if e.def.replies && e.state == Requested && after.state != Requested then 1 else 0
  }

  lemma ReactAnswersChanges(e: Entry, command: Byte)
    requires Consistent(e)
    ensures var after := React(e, command).entry;
            && |Spoken(e, command)| ==
               (if e.def.replies && e.state != Requested && after.state != e.state then 1 else 0)
            && (after.state == Requested ==> e.state == Requested)
  {
  }

  /** A definition starts unanswered or off, and can tell yes from no in both directions. */
  predicate Sensible(def: Definition) {
    (def.initial == Requested || def.initial == Inactive) && def.ackYes != def.ackNo && def.sendYes != def.sendNo
  }

  predicate Acknowledges(def: Definition, commands: seq<Byte>) {
    forall k :: 0 <= k < |commands| ==> commands[k] == def.ackYes || commands[k] == def.ackNo
  }

  /** An entry is active exactly if the last command addressed to it agreed to the option. */
  lemma LastCommandDecides(def: Definition, commands: seq<Byte>)
    requires Sensible(def) && Acknowledges(def, commands)
    ensures EntryAfter(InitialEntry(def), commands).active <==> commands != [] && Last(commands) == def.ackYes
  {
    if commands != [] {
      EntryInvariant(InitialEntry(def), Front(commands));
      assert Last(commands) == def.ackYes || Last(commands) == def.ackNo;
    }
  }

  // ---------- The whole table ----------

  /** on_client_ok. */
  function Connect(config: Config, n: Negotiator): Response {
    if n.clientIsRfc2217 then Response(n, [])
    else Response(n.(clientIsRfc2217 := true), if config.onConnected then [ClientConnected] else [])
  }

  /** telnet_send_option, for at most one verb. */
  function Say(e: Entry, verbs: seq<Byte>): seq<Event> {
    if verbs == [] then [] else [Sent([IAC, verbs[0], e.def.option])]
  }

  /** telnet_option_process_incoming on entry `i`, with the callbacks it makes. */
  function Process(config: Config, n: Negotiator, i: nat, command: Byte): (r: Response)
    requires i < |n.entries|
    ensures r.negotiator.entries == n.entries[i := React(n.entries[i], command).entry]
  {
    var e := n.entries[i];
    var m := n.(entries := n.entries[i := React(e, command).entry]);
    Response(m, Say(e, Spoken(e, command))).Then(
      if React(e, command).notify && e.def.notifies then Connect(config, m) else Response(m, []))
  }

  /** The first `count` turns of the loop of telnet_negotiate_option. */
  function NegotiateFirst(config: Config, n: Negotiator, command: Byte, option: Byte, count: nat): (r: Response)
    requires count <= |n.entries|
    ensures |r.negotiator.entries| == |n.entries|
  {
    if count == 0 then
      Response(n, [])
    else
      var r := NegotiateFirst(config, n, command, option, count - 1);
      if n.entries[count - 1].def.option == option
      then r.Then(Process(config, r.negotiator, count - 1, command))
      else r
  }

  lemma {:induction false} NegotiateFirstEntry(
    config: Config, n: Negotiator, command: Byte, option: Byte, count: nat, i: nat)
    requires i < |n.entries| && count <= |n.entries|
    ensures NegotiateFirst(config, n, command, option, count).negotiator.entries[i] ==
            if i < count && n.entries[i].def.option == option then React(n.entries[i], command).entry else n.entries[i]
    decreases count
  {
    if count > 0 {
      NegotiateFirstEntry(config, n, command, option, count - 1, i);
      NegotiateFirstEntry(config, n, command, option, count - 1, count - 1);
      TurnEntry(config, n, command, option, count, i);
    }
  }

  /** One turn changes at most the entry whose turn it is. */
  lemma TurnEntry(config: Config, n: Negotiator, command: Byte, option: Byte, count: nat, i: nat)
    requires i < |n.entries| && 0 < count <= |n.entries|
    ensures var before := NegotiateFirst(config, n, command, option, count - 1).negotiator;
            NegotiateFirst(config, n, command, option, count).negotiator.entries[i] ==
            if i == count - 1 && n.entries[i].def.option == option then React(before.entries[i], command).entry
            else before.entries[i]
  {
  }

  /** Turns of entries for other options change nothing. */
  lemma {:induction false} NegotiateFirstUnknown(config: Config, n: Negotiator, command: Byte, option: Byte, count: nat)
    requires count <= |n.entries| && forall k :: 0 <= k < count ==> n.entries[k].def.option != option
    ensures NegotiateFirst(config, n, command, option, count) == Response(n, [])
    decreases count
  {
    if count > 0 {
      NegotiateFirstUnknown(config, n, command, option, count - 1);
    }
  }

  predicate Known(n: Negotiator, option: Byte) {
    exists i :: 0 <= i < |n.entries| && n.entries[i].def.option == option
  }

  /** The reply to a request for an option the table does not have. */
  function Refusal(command: Byte, option: Byte): seq<Event> {
    if command == WILL then [Sent([IAC, DONT, option])]
    else if command == DO then [Sent([IAC, WONT, option])]
    else []
  }

  function NegotiateOption(config: Config, n: Negotiator, command: Byte, option: Byte): (r: Response)
    ensures |r.negotiator.entries| == |n.entries|
  {
    if Known(n, option) then NegotiateFirst(config, n, command, option, |n.entries|)
    else Response(n, Refusal(command, option))
  }

  // ---------- RFC 2217 commands ----------

  const SET_BAUDRATE: Byte := 1
  const SET_CONTROL: Byte := 5
  const PURGE_DATA: Byte := 12

  /** Commands that are acknowledged by echoing their one-byte value. */
  const ECHOED: set<Byte> := {2, 3, 4, 6, 7}

  const SUPPORTED: set<Byte> := ECHOED + {SET_BAUDRATE, SET_CONTROL, PURGE_DATA}

  /** RFC 2217: the server's code for a command is the client's plus 100. */
  function ServerCode(command: Byte): Byte
    requires command in SUPPORTED
  {
    command + 100
  }

  function Call<T, U>(callback: Option<T -> U>, x: T, default: U): U {
    match callback
    case None => default
    case Some(f) => f(x)
  }

  function RequestedBaudrate(suboption: Buffer): Word
  {
    FromBigEndian(suboption[2], suboption[3], suboption[4], suboption[5])
  }

  /** The value a reply carries. */
  function Accepted(config: Config, suboption: Buffer): seq<Byte>
    requires suboption[1] in SUPPORTED
  {
    if suboption[1] == SET_BAUDRATE then
      var requested := RequestedBaudrate(suboption);
      BigEndian(Call(config.onBaudrate, requested, requested))
    else if suboption[1] == SET_CONTROL then
      [Call(config.onControl, suboption[2], suboption[2])]
    else
      [suboption[2]]
  }

  /** process_subnegotiation. It reads fixed positions of the buffer, whatever size was collected,
      and answers PURGE-DATA both before and after the callback. */
  function Subnegotiate(config: Config, suboption: Buffer): seq<Event>
  {
    if suboption[0] != COM_PORT_OPTION || suboption[1] !in SUPPORTED then
      []
    else
      var reply := [Sent(Frame(ServerCode(suboption[1]), Accepted(config, suboption)))];
      if suboption[1] == SET_BAUDRATE then
        (if config.onBaudrate.Some? then [BaudrateRequest(RequestedBaudrate(suboption))] else []) + reply
      else if suboption[1] == SET_CONTROL then
        (if config.onControl.Some? then [ControlRequest(suboption[2])] else []) + reply
      else if suboption[1] == PURGE_DATA then
        reply + (if config.onPurge then [PurgeRequest(suboption[2])] else []) + reply
      else
        reply
  }

  // ---------- Runs ----------

  function Respond(config: Config, n: Negotiator, a: Action): (r: Response)
    ensures |r.negotiator.entries| == |n.entries|
  {
    match a
    case Negotiation(command, option) => NegotiateOption(config, n, command, option)
    case Subnegotiation(suboption, _) => Response(n, Subnegotiate(config, suboption))
    case Ignored(_) => Response(n, [])
  }

  function RespondAll(config: Config, n: Negotiator, actions: seq<Action>): (r: Response)
    ensures |r.negotiator.entries| == |n.entries|
    decreases |actions|
  {
    if actions == [] then
      Response(n, [])
    else
      var r := RespondAll(config, n, Front(actions));
      r.Then(Respond(config, r.negotiator, Last(actions)))
  }

  lemma RespondOne(config: Config, n: Negotiator, a: Action)
    ensures RespondAll(config, n, [a]) == Respond(config, n, a)
  {
    assert Front([a]) == [];
    assert RespondAll(config, n, []) == Response(n, []);
  }

  lemma ResponsesAssociate(r: Response, s: Response, t: Response)
    ensures r.Then(s).Then(t) == r.Then(s.Then(t))
  {
    Associative(r.events, s.events, t.events);
  }

  lemma {:induction false} RespondConcat(config: Config, n: Negotiator, a: seq<Action>, b: seq<Action>)
    ensures RespondAll(config, n, a + b) ==
            RespondAll(config, n, a).Then(RespondAll(config, RespondAll(config, n, a).negotiator, b))
    decreases |b|
  {
    if b == [] {
      assert a + b == a;
    } else {
      var r := RespondAll(config, n, a);
      var s := RespondAll(config, r.negotiator, Front(b));
      var t := Respond(config, s.negotiator, Last(b));
      assert Front(a + b) == a + Front(b);
      RespondConcat(config, n, a, Front(b));
      ResponsesAssociate(r, s, t);
    }
  }
}
