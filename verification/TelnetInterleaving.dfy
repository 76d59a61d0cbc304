/** Telnet commands in the middle of a suboption (RFC 855 allows them anywhere): they are handled at once and
    leave the collection alone. */
module TelnetInterleaving {
  import opened Bytes
  import opened TelnetCodec

  /** What may stand between IAC SB and IAC SE. */
  predicate Inside(t: Token) {
    t.WellFormed() && !t.Suboption?
  }

  /** The payload among the tokens. */
  function BodyOf(tokens: seq<Token>): seq<Byte> {
    if tokens == [] then [] else BodyOf(Front(tokens)) + if Last(tokens).Data? then [Last(tokens).byte] else []
  }

  /** The commands among them. */
  function CommandsOf(tokens: seq<Token>): seq<Action> {
    if tokens == [] then [] else CommandsOf(Front(tokens)) + CommandOf(Last(tokens))
  }

  function CommandOf(t: Token): seq<Action> {
    match t
    case Command(c) => [Ignored(c)]
    case OptionRequest(v, o) => [Negotiation(v, o)]
    case _ => []
  }

  /** The verb the parser has seen last. */
  function VerbAfter(verb: Byte, tokens: seq<Token>): Byte {
    if tokens == [] then verb
    else if Last(tokens).OptionRequest? then Last(tokens).verb
    else VerbAfter(verb, Front(tokens))
  }

  /** The parser with this much of the body collected and nothing else changed but the last verb. */
  function Holding(p: Parser, body: seq<Byte>, verb: Byte): Parser
    requires |body| <= SUBOPTION_CAPACITY
  {
    p.(suboption := Overlay(p.suboption, body), size := |body|, command := verb)
  }

  lemma HoldingMore(p: Parser, body: seq<Byte>, verb: Byte, b: Byte)
    requires p.mode == Normal && p.collecting && |body| < SUBOPTION_CAPACITY
    ensures Payload(Holding(p, body, verb), b) == Decoded(Holding(p, body + [b], verb), [], [])
  {
    assert Overlay(p.suboption, body)[|body| := b] == Overlay(p.suboption, body + [b]);
  }

  /** One token inside a suboption. */
  lemma TokenInside(p: Parser, body: seq<Byte>, verb: Byte, t: Token)
    requires p.mode == Normal && p.collecting && Inside(t)
    requires |body| + (if t.Data? then 1 else 0) <= SUBOPTION_CAPACITY
    ensures Decode(Holding(p, body, verb), t.Wire()) ==
            Decoded(Holding(p, if t.Data? then body + [t.byte] else body, if t.OptionRequest? then t.verb else verb),
                    [], CommandOf(t))
  {
    var q := Holding(p, body, verb);
    match t
    case Data(b) =>
      DecodeEscapedByte(q, b);
      HoldingMore(p, body, verb, b);
    case Command(c) =>
      DecodeTwo(q, IAC, c);
    case OptionRequest(v, o) =>
      DecodeTwo(q, IAC, v);
      DecodeThree(q, IAC, v, o);
  }

  lemma {:induction false} BodyGrows(tokens: seq<Token>)
    requires tokens != []
    ensures |BodyOf(Front(tokens))| + (if Last(tokens).Data? then 1 else 0) == |BodyOf(tokens)|
  {
  }

  /** Any mixture of payload and commands in a suboption that fits: the payload is collected, the commands are
      carried out, and no byte of either gets anywhere else. */
  lemma {:induction false} CommandsInside(p: Parser, tokens: seq<Token>)
    requires p.mode == Normal && p.collecting && p.size == 0
    requires (forall t :: t in tokens ==> Inside(t)) && |BodyOf(tokens)| <= SUBOPTION_CAPACITY
    ensures Decode(p, WireAll(tokens)) ==
            Decoded(Holding(p, BodyOf(tokens), VerbAfter(p.command, tokens)), [], CommandsOf(tokens))
    decreases |tokens|
  {
    if tokens == [] {
      assert Overlay(p.suboption, []) == p.suboption;
    } else {
      var t, front := Last(tokens), Front(tokens);
      assert t in tokens;
      BodyGrows(tokens);
      CommandsInside(p, front);
      TokenInside(p, BodyOf(front), VerbAfter(p.command, front), t);
      DecodeConcat(p, WireAll(front), t.Wire());
      SameBody(tokens);
    }
  }

  lemma SameBody(tokens: seq<Token>)
    requires tokens != []
    ensures BodyOf(tokens) == if Last(tokens).Data? then BodyOf(Front(tokens)) + [Last(tokens).byte]
                              else BodyOf(Front(tokens))
  {
    assert BodyOf(Front(tokens)) + [] == BodyOf(Front(tokens));
  }

  /** The whole suboption, from any parser in Normal mode: the commands in order, and then the subnegotiation
      with exactly the payload. */
  lemma SuboptionWithCommands(p: Parser, tokens: seq<Token>)
    requires p.mode == Normal
    requires (forall t :: t in tokens ==> Inside(t)) && |BodyOf(tokens)| <= SUBOPTION_CAPACITY
    ensures var d := Decode(p, [IAC, SB] + WireAll(tokens) + [IAC, SE]);
            var kept := Overlay(p.suboption, BodyOf(tokens));
            && d.data == []
            && d.actions == CommandsOf(tokens) + [Subnegotiation(kept, |BodyOf(tokens)|)]
            && d.parser == Parser(Normal, VerbAfter(p.command, tokens), false, kept, 0)
  {
    var open := p.(size := 0, collecting := true);
    var held := Holding(open, BodyOf(tokens), VerbAfter(p.command, tokens));
    DecodeOpen(p);
    CommandsInside(open, tokens);
    DecodeClose(held);
    DecodeParts(p, [IAC, SB], WireAll(tokens), [IAC, SE], Decoded(open, [], []), Decoded(held, [], CommandsOf(tokens)));
  }
}
