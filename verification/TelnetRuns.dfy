/** What holds over every run of option negotiation started by telnet_options_init. */
module TelnetRuns {
  import opened Bytes
  import opened TelnetCodec
  import opened TelnetNegotiation

  // ---------- Each entry is an automaton of its own ----------

  /** The commands of a run that are meant for one entry: its option, and a verb it acknowledges.
      For a "we" entry these are DO and DONT, for a "they" entry WILL and WONT. */
  function Addressed(def: Definition, actions: seq<Action>): seq<Byte>
    decreases |actions|
  {
    if actions == [] then []
    else Addressed(def, Front(actions)) + Heard(def, Last(actions))
  }

  function Heard(def: Definition, a: Action): seq<Byte> {
    match a
    case Negotiation(command, option) =>
      if option == def.option && (command == def.ackYes || command == def.ackNo) then [command] else []
    case _ => []
  }

  lemma RespondEntry(config: Config, n: Negotiator, a: Action, i: nat)
    requires i < |n.entries|
    ensures Respond(config, n, a).negotiator.entries[i] == EntryAfter(n.entries[i], Heard(n.entries[i].def, a))
  {
    var e := n.entries[i];
    if a.Negotiation? {
      NegotiateFirstEntry(config, n, a.command, a.option, |n.entries|, i);
      assert Front([a.command]) == [] && EntryAfter(e, []) == e;
    }
  }

  lemma EntryAfterOne(e: Entry, a: seq<Byte>, b: seq<Byte>)
    requires |b| <= 1
    ensures EntryAfter(e, a + b) == EntryAfter(EntryAfter(e, a), b)
    ensures RepliesAfter(e, a + b) == RepliesAfter(e, a) + RepliesAfter(EntryAfter(e, a), b)
  {
    if b == [] {
      assert a + b == a;
    } else {
      assert Front(a + b) == a && Front(b) == [];
    }
  }

  /** Whatever else the peer sends, an entry's state depends only on the commands addressed to it. */
  lemma {:induction false} EntriesAreIndependent(config: Config, n: Negotiator, actions: seq<Action>, i: nat)
    requires i < |n.entries|
    ensures RespondAll(config, n, actions).negotiator.entries[i] ==
            EntryAfter(n.entries[i], Addressed(n.entries[i].def, actions))
    decreases |actions|
  {
    if actions != [] {
      var def := n.entries[i].def;
      EntriesAreIndependent(config, n, Front(actions), i);
      RespondEntry(config, RespondAll(config, n, Front(actions)).negotiator, Last(actions), i);
      EntryAfterOne(n.entries[i], Addressed(def, Front(actions)), Heard(def, Last(actions)));
    }
  }

  // ---------- Replies on the wire ----------

  function VerbOf(def: Definition, event: Event): seq<Byte> {
    if event.Sent? && |event.bytes| == 3 && event.bytes[0] == 255 && event.bytes[2] == def.option &&
       (event.bytes[1] == def.sendYes || event.bytes[1] == def.sendNo)
    then [event.bytes[1]]
    else []
  }

  /** The verbs an observer of the wire attributes to one entry. */
  function Verbs(def: Definition, events: seq<Event>): seq<Byte>
    decreases |events|
  {
    if events == [] then [] else Verbs(def, Front(events)) + VerbOf(def, Last(events))
  }

  lemma {:induction false} VerbsConcat(def: Definition, a: seq<Event>, b: seq<Event>)
    ensures Verbs(def, a + b) == Verbs(def, a) + Verbs(def, b)
    decreases |b|
  {
    if b == [] {
      assert a + b == a;
    } else {
      VerbsConcat(def, a, Front(b));
      assert Front(a + b) == a + Front(b) && Last(a + b) == Last(b);
      Associative(Verbs(def, a), Verbs(def, Front(b)), VerbOf(def, Last(b)));
    }
  }

  lemma VerbsOne(def: Definition, event: Event)
    ensures Verbs(def, [event]) == VerbOf(def, event)
  {
    assert Front([event]) == [];
  }

  /** Entries for the same option use different verbs. */
  predicate Separate(n: Negotiator) {
    forall i, j :: 0 <= i < |n.entries| && 0 <= j < |n.entries| && i != j ==>
      Apart(n.entries[i].def, n.entries[j].def)
  }

  predicate Apart(d: Definition, e: Definition) {
    d.option == e.option ==> {d.sendYes, d.sendNo} !! {e.sendYes, e.sendNo}
  }

  predicate SameDefinitions(n: Negotiator, m: Negotiator) {
    |n.entries| == |m.entries| && forall i :: 0 <= i < |n.entries| ==> n.entries[i].def == m.entries[i].def
  }

  lemma SeparateKept(n: Negotiator, m: Negotiator)
    requires Separate(n) && SameDefinitions(n, m)
    ensures Separate(m)
  {
    forall i, j | 0 <= i < |m.entries| && 0 <= j < |m.entries| && i != j
      ensures Apart(m.entries[i].def, m.entries[j].def)
    {
      assert Apart(n.entries[i].def, n.entries[j].def);
    }
  }

  lemma InitialTable()
    ensures Separate(InitialNegotiator())
    ensures forall e :: e in InitialNegotiator().entries ==> Consistent(e)
  {
    var n := InitialNegotiator();
    forall i, j | 0 <= i < |n.entries| && 0 <= j < |n.entries| && i != j
      ensures Apart(n.entries[i].def, n.entries[j].def)
    {
      assert n.entries[i].def == DEFINITIONS[i] && n.entries[j].def == DEFINITIONS[j];
    }
  }

  lemma InitialEntryOf(i: nat)
    requires i < |DEFINITIONS|
    ensures InitialNegotiator().entries[i] == InitialEntry(DEFINITIONS[i]) && Sensible(DEFINITIONS[i])
  {
  }

  lemma ProcessVerbs(config: Config, n: Negotiator, j: nat, command: Byte, i: nat)
    requires i < |n.entries| && j < |n.entries| && Separate(n)
    ensures Verbs(n.entries[i].def, Process(config, n, j, command).events) ==
            if i == j then Spoken(n.entries[i], command) else []
  {
    var def, e := n.entries[i].def, n.entries[j];
    var verbs := Spoken(e, command);
    var notice := Process(config, n, j, command).events[|Say(e, verbs)|..];
    VerbsConcat(def, Say(e, verbs), notice);
    SilentEvents(def, notice);
    SpokenIsOwnVerb(e, command);
    assert Apart(def, e.def) || i == j;
    SayVerbs(def, e, verbs);
  }

  lemma SayVerbs(def: Definition, e: Entry, verbs: seq<Byte>)
    requires verbs == [] || (verbs == [verbs[0]] && (verbs[0] == e.def.sendYes || verbs[0] == e.def.sendNo))
    requires def == e.def || Apart(def, e.def)
    ensures Verbs(def, Say(e, verbs)) == if def == e.def then verbs else []
  {
    if verbs != [] {
      VerbsOne(def, Say(e, verbs)[0]);
    }
  }

  lemma SpokenIsOwnVerb(e: Entry, command: Byte)
    ensures var verbs := Spoken(e, command);
            verbs == [] || (verbs == [verbs[0]] && (verbs[0] == e.def.sendYes || verbs[0] == e.def.sendNo))
  {
  }

  lemma NegotiateFirstDefinitions(config: Config, n: Negotiator, command: Byte, option: Byte, count: nat)
    requires count <= |n.entries|
    ensures SameDefinitions(n, NegotiateFirst(config, n, command, option, count).negotiator)
  {
    forall i | 0 <= i < |n.entries|
      ensures NegotiateFirst(config, n, command, option, count).negotiator.entries[i].def == n.entries[i].def
    {
      NegotiateFirstEntry(config, n, command, option, count, i);
    }
  }

  /** What entry `e` says to a request. */
  function Due(e: Entry, command: Byte, option: Byte): seq<Byte> {
    if e.def.option == option then Spoken(e, command) else []
  }

  /** After `count` turns of the loop entry i has said its due, once its turn has come. */
  predicate SaidItsDue(config: Config, n: Negotiator, command: Byte, option: Byte, count: nat, i: nat)
    requires i < |n.entries| && count <= |n.entries|
  {
    Verbs(n.entries[i].def, NegotiateFirst(config, n, command, option, count).events) ==
    if i < count then Due(n.entries[i], command, option) else []
  }

  /** A turn of an entry with the option, after which the observer has `said` and what this entry says. */
  lemma MatchVerbs(config: Config, n: Negotiator, r: Response, j: nat, command: Byte, i: nat, said: seq<Byte>)
    requires i < |n.entries| && j < |n.entries| && Separate(n) && SameDefinitions(n, r.negotiator)
    requires r.negotiator.entries[j] == n.entries[j] && Verbs(n.entries[i].def, r.events) == said
    ensures Verbs(n.entries[i].def, r.Then(Process(config, r.negotiator, j, command)).events) ==
            if i == j then said + Spoken(n.entries[i], command) else said
  {
    var s := Process(config, r.negotiator, j, command);
    SeparateKept(n, r.negotiator);
    ProcessVerbs(config, r.negotiator, j, command, i);
    VerbsConcat(n.entries[i].def, r.events, s.events);
    assert said + [] == said;
  }

  lemma TurnVerbs(config: Config, n: Negotiator, command: Byte, option: Byte, count: nat, i: nat)
    requires i < |n.entries| && 0 < count <= |n.entries| && Separate(n)
    requires SaidItsDue(config, n, command, option, count - 1, i)
    ensures SaidItsDue(config, n, command, option, count, i)
  {
    var said := if i < count - 1 then Due(n.entries[i], command, option) else [];
    if n.entries[count - 1].def.option == option {
      var r := NegotiateFirst(config, n, command, option, count - 1);
      NegotiateFirstEntry(config, n, command, option, count - 1, count - 1);
      NegotiateFirstDefinitions(config, n, command, option, count - 1);
      MatchVerbs(config, n, r, count - 1, command, i, said);
      assert [] + Spoken(n.entries[i], command) == Spoken(n.entries[i], command);
    }
  }

  lemma {:induction false} NegotiateFirstVerbs(
    config: Config, n: Negotiator, command: Byte, option: Byte, count: nat, i: nat)
    requires i < |n.entries| && count <= |n.entries| && Separate(n)
    ensures SaidItsDue(config, n, command, option, count, i)
    decreases count
  {
    if count > 0 {
      NegotiateFirstVerbs(config, n, command, option, count - 1, i);
      TurnVerbs(config, n, command, option, count, i);
    }
  }

  lemma SubnegotiateIsSilent(config: Config, suboption: Buffer, def: Definition)
    ensures Verbs(def, Subnegotiate(config, suboption)) == []
  {
    var events := Subnegotiate(config, suboption);
    SilentEvents(def, events);
  }

  lemma {:induction false} SilentEvents(def: Definition, events: seq<Event>)
    requires forall e :: e in events ==> VerbOf(def, e) == []
    ensures Verbs(def, events) == []
    decreases |events|
  {
    if events != [] {
      assert Last(events) in events;
      SilentEvents(def, Front(events));
    }
  }

  lemma NegotiationVerbs(config: Config, n: Negotiator, command: Byte, option: Byte, i: nat)
    requires i < |n.entries| && Separate(n)
    ensures var r := NegotiateOption(config, n, command, option);
            && SameDefinitions(n, r.negotiator)
            && Verbs(n.entries[i].def, r.events) == Due(n.entries[i], command, option)
  {
    if Known(n, option) {
      NegotiateFirstVerbs(config, n, command, option, |n.entries|, i);
      NegotiateFirstDefinitions(config, n, command, option, |n.entries|);
    } else {
      SilentEvents(n.entries[i].def, Refusal(command, option));
    }
  }

  lemma DueIsReply(e: Entry, command: Byte, option: Byte)
    ensures RepliesAfter(e, Heard(e.def, Negotiation(command, option))) == Due(e, command, option)
  {
    assert Front([command]) == [] && EntryAfter(e, []) == e && RepliesAfter(e, []) == [];
    assert [] + Spoken(e, command) == Spoken(e, command);
  }

  lemma RespondVerbs(config: Config, n: Negotiator, a: Action, i: nat)
    requires i < |n.entries| && Separate(n)
    ensures var r := Respond(config, n, a);
            && SameDefinitions(n, r.negotiator)
            && Verbs(n.entries[i].def, r.events) == RepliesAfter(n.entries[i], Heard(n.entries[i].def, a))
  {
    var e := n.entries[i];
    match a
    case Negotiation(command, option) =>
      NegotiationVerbs(config, n, command, option, i);
      DueIsReply(e, command, option);
    case Subnegotiation(suboption, _) =>
      SubnegotiateIsSilent(config, suboption, e.def);
    case Ignored(_) =>
  }

  lemma {:induction false} RepliesAreIndependent(config: Config, n: Negotiator, actions: seq<Action>, i: nat)
    requires i < |n.entries| && Separate(n)
    ensures var r := RespondAll(config, n, actions);
            && SameDefinitions(n, r.negotiator)
            && Verbs(n.entries[i].def, r.events) == RepliesAfter(n.entries[i], Addressed(n.entries[i].def, actions))
    decreases |actions|
  {
    if actions != [] {
      var def := n.entries[i].def;
      var r := RespondAll(config, n, Front(actions));
      RepliesAreIndependent(config, n, Front(actions), i);
      EntriesAreIndependent(config, n, Front(actions), i);
      RespondVerbs(config, r.negotiator, Last(actions), i);
      VerbsConcat(def, r.events, Respond(config, r.negotiator, Last(actions)).events);
      EntryAfterOne(n.entries[i], Addressed(def, Front(actions)), Heard(def, Last(actions)));
    }
  }

  lemma {:induction false} AddressedAcknowledges(def: Definition, actions: seq<Action>)
    ensures Acknowledges(def, Addressed(def, actions))
    decreases |actions|
  {
    if actions != [] {
      AddressedAcknowledges(def, Front(actions));
    }
  }

  /** What holds of an entry `e` that heard `commands` and put `verbs` on the wire since it was set up. */
  predicate RunsAsDefined(def: Definition, e: Entry, commands: seq<Byte>, verbs: seq<Byte>) {
    && e.def == def
    && Consistent(e)
    && (e.active <==> commands != [] && Last(commands) == def.ackYes)
    && Alternating(e, verbs)
    && |verbs| + Unanswered(InitialEntry(def), e) == if def.replies then Changes(InitialEntry(def), commands) else 0
  }

  lemma EntryRuns(def: Definition, actions: seq<Action>)
    requires Sensible(def)
    ensures var e, commands := InitialEntry(def), Addressed(def, actions);
            RunsAsDefined(def, EntryAfter(e, commands), commands, RepliesAfter(e, commands))
  {
    EntryInvariant(InitialEntry(def), Addressed(def, actions));
    AddressedAcknowledges(def, actions);
    LastCommandDecides(def, Addressed(def, actions));
  }

  /** Every entry, after every run from telnet_options_init: `active` mirrors the state,
      T_REALLY_INACTIVE is unreachable, the entry is active exactly if the last command addressed to it
      agreed, the verbs on the wire alternate, the last of them tells the state, and there is one for
      every change of state but the reply to the entry's own opening request. */
  lemma NegotiationRuns(config: Config, actions: seq<Action>, i: nat)
    requires i < |DEFINITIONS|
    ensures var r := RespondAll(config, InitialNegotiator(), actions);
            var def := DEFINITIONS[i];
            RunsAsDefined(def, r.negotiator.entries[i], Addressed(def, actions), Verbs(def, r.events))
  {
    InitialTable();
    InitialEntryOf(i);
    EntriesAreIndependent(config, InitialNegotiator(), actions, i);
    RepliesAreIndependent(config, InitialNegotiator(), actions, i);
    EntryRuns(DEFINITIONS[i], actions);
  }

  /** A command changes only entries of its own side: DO and DONT those that offer with WILL, WILL and
      WONT those that ask with DO. */
  lemma SidesAreSeparate(config: Config, n: Negotiator, command: Byte, option: Byte, i: nat)
    requires SameDefinitions(InitialNegotiator(), n) && i < |DEFINITIONS|
    requires Respond(config, n, Negotiation(command, option)).negotiator.entries[i] != n.entries[i]
    ensures option == DEFINITIONS[i].option
    ensures if DEFINITIONS[i].sendYes == WILL then command == DO || command == DONT
            else DEFINITIONS[i].sendYes == DO && (command == WILL || command == WONT)
  {
    RespondEntry(config, n, Negotiation(command, option), i);
    assert InitialNegotiator().entries[i].def == DEFINITIONS[i];
    assert EntryAfter(n.entries[i], []) == n.entries[i];
  }

  // ---------- The client-connected notice ----------

  function Connections(events: seq<Event>): nat
    decreases |events|
  {
    if events == [] then 0 else Connections(Front(events)) + if Last(events) == ClientConnected then 1 else 0
  }

  lemma {:induction false} ConnectionsConcat(a: seq<Event>, b: seq<Event>)
    ensures Connections(a + b) == Connections(a) + Connections(b)
    decreases |b|
  {
    if b == [] {
      assert a + b == a;
    } else {
      ConnectionsConcat(a, Front(b));
      assert Front(a + b) == a + Front(b);
    }
  }

  /** This turn of the negotiation loop calls on_client_ok. */
  predicate Announces(n: Negotiator, i: nat, command: Byte, option: Byte)
    requires i < |n.entries|
  {
    n.entries[i].def.option == option && n.entries[i].def.notifies && React(n.entries[i], command).notify
  }

  /** `r` set the flag exactly if `now`, and gave notice exactly if that was news. */
  predicate Noticed(config: Config, n: Negotiator, r: Response, now: bool) {
    && r.negotiator.clientIsRfc2217 == (n.clientIsRfc2217 || now)
    && Connections(r.events) == if config.onConnected && !n.clientIsRfc2217 && now then 1 else 0
  }

  lemma NoticedThen(config: Config, n: Negotiator, r: Response, now: bool, s: Response, later: bool)
    requires Noticed(config, n, r, now) && Noticed(config, r.negotiator, s, later)
    ensures Noticed(config, n, r.Then(s), now || later)
  {
    ConnectionsConcat(r.events, s.events);
  }

  lemma ProcessNoticed(config: Config, n: Negotiator, i: nat, command: Byte, option: Byte)
    requires i < |n.entries| && n.entries[i].def.option == option
    ensures Noticed(config, n, Process(config, n, i, command), Announces(n, i, command, option))
  {
    var verbs := Spoken(n.entries[i], command);
    var sent := Say(n.entries[i], verbs);
    var m := n.(entries := n.entries[i := React(n.entries[i], command).entry]);
    assert Front([ClientConnected]) == [] && Connections([ClientConnected]) == 1;
    assert sent != [] ==> Front(sent) == [];
    var next := if React(n.entries[i], command).notify && n.entries[i].def.notifies
                then Connect(config, m) else Response(m, []);
    ConnectionsConcat(sent, next.events);
  }

  /** One of the first `count` turns calls on_client_ok. */
  predicate AnyAnnounces(n: Negotiator, command: Byte, option: Byte, count: nat)
    requires count <= |n.entries|
  {
    count > 0 && (AnyAnnounces(n, command, option, count - 1) || Announces(n, count - 1, command, option))
  }

  lemma {:induction false} AnyAnnouncesIff(n: Negotiator, command: Byte, option: Byte, count: nat)
    requires count <= |n.entries|
    ensures AnyAnnounces(n, command, option, count) <==> exists i :: 0 <= i < count && Announces(n, i, command, option)
  {
    if count > 0 {
      AnyAnnouncesIff(n, command, option, count - 1);
    }
  }

  lemma {:induction false} NegotiateFirstNoticed(config: Config, n: Negotiator, command: Byte, option: Byte, count: nat)
    requires count <= |n.entries|
    ensures Noticed(config, n, NegotiateFirst(config, n, command, option, count),
                    AnyAnnounces(n, command, option, count))
    decreases count
  {
    if count > 0 {
      NegotiateFirstNoticed(config, n, command, option, count - 1);
      TurnNoticed(config, n, command, option, count);
    }
  }

  /** A turn of an entry with the option. */
  lemma MatchNoticed(config: Config, n: Negotiator, r: Response, i: nat, command: Byte, option: Byte, before: bool)
    requires i < |n.entries| == |r.negotiator.entries| && r.negotiator.entries[i] == n.entries[i]
    requires n.entries[i].def.option == option && Noticed(config, n, r, before)
    ensures Noticed(config, n, r.Then(Process(config, r.negotiator, i, command)),
                    before || Announces(n, i, command, option))
  {
    var s := Process(config, r.negotiator, i, command);
    ProcessNoticed(config, r.negotiator, i, command, option);
    NoticedThen(config, n, r, before, s, Announces(n, i, command, option));
  }

  lemma TurnNoticed(config: Config, n: Negotiator, command: Byte, option: Byte, count: nat)
    requires 0 < count <= |n.entries|
    requires Noticed(config, n, NegotiateFirst(config, n, command, option, count - 1),
                     AnyAnnounces(n, command, option, count - 1))
    ensures Noticed(config, n, NegotiateFirst(config, n, command, option, count),
                    AnyAnnounces(n, command, option, count))
  {
    if n.entries[count - 1].def.option == option {
      NegotiateFirstEntry(config, n, command, option, count - 1, count - 1);
      MatchNoticed(config, n, NegotiateFirst(config, n, command, option, count - 1), count - 1, command, option,
                   AnyAnnounces(n, command, option, count - 1));
    }
  }

  /** One of the entries with a callback is active. */
  predicate ComPortActive(n: Negotiator) {
    exists i :: 0 <= i < |n.entries| && n.entries[i].def.notifies && n.entries[i].active
  }

  lemma {:induction false} NoConnections(events: seq<Event>)
    requires ClientConnected !in events
    ensures Connections(events) == 0
    decreases |events|
  {
    if events != [] {
      NoConnections(Front(events));
      assert Last(events) in events;
    }
  }

  lemma RespondNoticed(config: Config, n: Negotiator, a: Action)
    requires forall e :: e in n.entries ==> Consistent(e)
    requires ComPortActive(n) ==> n.clientIsRfc2217
    ensures var r := Respond(config, n, a);
            Noticed(config, n, r, ComPortActive(r.negotiator))
  {
    var r := Respond(config, n, a);
    if a.Negotiation? && Known(n, a.option) {
      NegotiateFirstNoticed(config, n, a.command, a.option, |n.entries|);
      forall i | 0 <= i < |n.entries|
        ensures r.negotiator.entries[i].def == n.entries[i].def
        ensures Announces(n, i, a.command, a.option) ==> r.negotiator.entries[i].active
        ensures r.negotiator.entries[i].active && n.entries[i].def.notifies ==>
                  n.entries[i].active || Announces(n, i, a.command, a.option)
      {
        NegotiateFirstEntry(config, n, a.command, a.option, |n.entries|, i);
        assert n.entries[i] in n.entries;
      }
      AnyAnnouncesIff(n, a.command, a.option, |n.entries|);
      if AnyAnnounces(n, a.command, a.option, |n.entries|) {
        var i :| 0 <= i < |n.entries| && Announces(n, i, a.command, a.option);
        assert r.negotiator.entries[i].active && r.negotiator.entries[i].def.notifies;
      } else if ComPortActive(r.negotiator) {
        var i :| 0 <= i < |n.entries| && r.negotiator.entries[i].def.notifies && r.negotiator.entries[i].active;
        assert n.entries[i].active && n.entries[i].def.notifies;
      }
    } else {
      NoConnections(r.events);
    }
  }

  /** At some point of the run a Com Port entry was active. */
  predicate EverComPort(config: Config, n: Negotiator, actions: seq<Action>)
    decreases |actions|
  {
    || ComPortActive(RespondAll(config, n, actions).negotiator)
    || (actions != [] && EverComPort(config, n, Front(actions)))
  }

  /** on_client_connected is called once, at the first activation of either Com Port entry, and never
      again; a run that activates neither never calls it. */
  lemma {:induction false} ConnectedExactlyOnce(config: Config, actions: seq<Action>)
    ensures var r := RespondAll(config, InitialNegotiator(), actions);
            var ever := EverComPort(config, InitialNegotiator(), actions);
            && r.negotiator.clientIsRfc2217 == ever
            && Connections(r.events) == if config.onConnected && ever then 1 else 0
    decreases |actions|
  {
    var n := InitialNegotiator();
    if actions != [] {
      var r := RespondAll(config, n, Front(actions));
      ConnectedExactlyOnce(config, Front(actions));
      forall e | e in r.negotiator.entries ensures Consistent(e) {
        var i :| 0 <= i < |r.negotiator.entries| && r.negotiator.entries[i] == e;
        NegotiationRuns(config, Front(actions), i);
      }
      var s := Respond(config, r.negotiator, Last(actions));
      RespondNoticed(config, r.negotiator, Last(actions));
      ConnectionsConcat(r.events, s.events);
    }
  }

  // ---------- The Com Port conversation ----------

  /** The messages among the events. */
  function Messages(events: seq<Event>): seq<seq<Byte>>
    decreases |events|
  {
    if events == [] then [] else Messages(Front(events)) + MessageOf(Last(events))
  }

  function MessageOf(event: Event): seq<seq<Byte>> {
    if event.Sent? then [event.bytes] else []
  }

  lemma {:induction false} MessagesConcat(a: seq<Event>, b: seq<Event>)
    ensures Messages(a + b) == Messages(a) + Messages(b)
    decreases |b|
  {
    if b == [] {
      assert a + b == a;
    } else {
      MessagesConcat(a, Front(b));
      assert Front(a + b) == a + Front(b) && Last(a + b) == Last(b);
      Associative(Messages(a), Messages(Front(b)), MessageOf(Last(b)));
    }
  }

  lemma MessagesOne(event: Event)
    ensures Messages([event]) == MessageOf(event)
  {
    assert Front([event]) == [];
  }

  /** Every supported command is answered, last of all, by a frame with the client's code plus 100 that
      carries the accepted value and that any peer in Normal mode takes in whole. PURGE-DATA gets that
      answer twice, every other command once; nothing else is answered at all. */
  lemma ReplyAnswersRequest(config: Config, suboption: Buffer, peer: Parser)
    requires peer.mode == Normal
    ensures var events := Subnegotiate(config, suboption);
            if suboption[0] == COM_PORT_OPTION && suboption[1] in SUPPORTED then
              var answer := Frame(suboption[1] + 100, Accepted(config, suboption));
              && events != []
              && Last(events) == Sent(answer)
              && FrameArrives(peer, suboption[1] + 100, Accepted(config, suboption))
              && Messages(events) == if suboption[1] == PURGE_DATA then [answer, answer] else [answer]
            else
              events == []
  {
    if suboption[0] == COM_PORT_OPTION && suboption[1] in SUPPORTED {
      FrameArrivesIff(peer, suboption[1] + 100, Accepted(config, suboption));
      AnswersCounted(config, suboption);
    }
  }

  /** A call of the application, if there is one, is no message. */
  lemma NoticeAndReply(notice: seq<Event>, reply: Event)
    requires |notice| <= 1 && (notice != [] ==> !notice[0].Sent?) && reply.Sent?
    ensures Messages(notice + [reply]) == [reply.bytes]
  {
    MessagesOne(reply);
    if notice != [] {
      assert notice == [notice[0]];
      MessagesOne(notice[0]);
    }
    MessagesConcat(notice, [reply]);
  }

  lemma ReplyTwice(notice: seq<Event>, reply: Event)
    requires |notice| <= 1 && (notice != [] ==> !notice[0].Sent?) && reply.Sent?
    ensures Messages([reply] + notice + [reply]) == [reply.bytes, reply.bytes]
  {
    MessagesOne(reply);
    NoticeAndReply(notice, reply);
    MessagesConcat([reply], notice + [reply]);
    Associative([reply], notice, [reply]);
  }

  lemma AnswersCounted(config: Config, suboption: Buffer)
    requires suboption[0] == COM_PORT_OPTION && suboption[1] in SUPPORTED
    ensures var answer := Frame(ServerCode(suboption[1]), Accepted(config, suboption));
            Messages(Subnegotiate(config, suboption)) ==
            if suboption[1] == PURGE_DATA then [answer, answer] else [answer]
  {
    var command, value := suboption[1], suboption[2];
    var reply := Sent(Frame(ServerCode(command), Accepted(config, suboption)));
    if command == SET_BAUDRATE {
      NoticeAndReply(if config.onBaudrate.Some? then [BaudrateRequest(RequestedBaudrate(suboption))] else [], reply);
    } else if command == SET_CONTROL {
      NoticeAndReply(if config.onControl.Some? then [ControlRequest(value)] else [], reply);
    } else if command == PURGE_DATA {
      ReplyTwice(if config.onPurge then [PurgeRequest(value)] else [], reply);
    } else {
      MessagesOne(reply);
      assert Subnegotiate(config, suboption) == [reply];
    }
  }

  /** Nothing but one whole subnegotiation: this command with this rate. */
  predicate CarriesRate(d: Decoded, command: Byte, w: Word) {
    && d.data == [] && |d.actions| == 1
    && d.actions[0].Subnegotiation? && d.actions[0].size == 6
    && d.actions[0].suboption[0] == COM_PORT_OPTION
    && d.actions[0].suboption[1] == command
    && RequestedBaudrate(d.actions[0].suboption) == w
  }

  lemma BaudrateFrame(p: Parser, command: Byte, w: Word)
    requires p.mode == Normal && command != IAC
    ensures CarriesRate(Decode(p, Frame(command, BigEndian(w))), command, w)
  {
    FrameArrivesIff(p, command, BigEndian(w));
    BigEndianRoundTrip(w);
    var body := [COM_PORT_OPTION, command] + BigEndian(w);
    assert FrameArrives(p, command, BigEndian(w)) && |body| == 6;
    var kept := Overlay(p.suboption, body);
    assert kept[..6] == body;
    assert forall k :: 0 <= k < 6 ==> kept[k] == kept[..6][k];
  }

  /** SET-BAUDRATE both ways, whatever the parsers on either side held before: the callback gets
      exactly the requested rate and the reply carries exactly the rate it returned. */
  lemma {:induction false} BaudrateRoundTrip(config: Config, server: Parser, client: Parser, baudrate: Word)
    requires server.mode == Normal && client.mode == Normal
    ensures var request := Decode(server, Frame(SET_BAUDRATE, BigEndian(baudrate)));
            var accepted := Call(config.onBaudrate, baudrate, baudrate);
            var answer := Frame(101, BigEndian(accepted));
            && CarriesRate(request, SET_BAUDRATE, baudrate)
            && Subnegotiate(config, request.actions[0].suboption) ==
               (if config.onBaudrate.Some? then [BaudrateRequest(baudrate)] else []) + [Sent(answer)]
            && CarriesRate(Decode(client, answer), 101, accepted)
  {
    BaudrateFrame(server, SET_BAUDRATE, baudrate);
    BaudrateFrame(client, 101, Call(config.onBaudrate, baudrate, baudrate));
  }
}
