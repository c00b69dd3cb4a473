/** `parse_header` and `parse_body` of message.c: the header is read from
    the start of the packet's data, then the payload chain is walked by its
    next-type links up to NO_PAYLOAD or the first Encrypted payload, each
    payload verified on its own, and the chain handed to
    `decrypt_and_verify_payloads`. */
module MessageParse {
  import opened IkeTypes
  import opened Payloads
  import opened MessageRules
  import opened Messages
  import opened MessageVerify
  import opened MessageDecrypt
  import opened MessageGenerate

  /** One payload read by the parser: its next-type field, its body, and the
      input left after it. */
  datatype Parsed = Parsed(nextType: PayloadType, body: Bytes, rest: Bytes)

  /** The parser collaborator: reading the header or a payload of a given
      type from the front of the input, and each payload's own `verify`. */
  datatype Parser = Parser(
    parseHeader: Bytes -> Result<(IkeHeader, Bytes)>,
    verifyHeader: IkeHeader -> Status,
    parsePayload: (PayloadType, Bytes) -> Result<Parsed>,
    verifyPayload: Payload -> Status)

  /** Every payload the parser reads consumes input. */
  ghost predicate Consumes(parser: Parser)
  {
    forall t, input :: parser.parsePayload(t, input).Ok? ==> |parser.parsePayload(t, input).value.rest| < |input|
  }

  /** `parse_header`: rewinds the parser to the start of the packet's data,
      reads and verifies the header and copies its fields into the message. */
  function ParseHeader(m: Message, parser: Parser): (r: Outcome)
    ensures r.Returned?
    ensures r.message.payloads == m.payloads && r.message.packet == m.packet
    ensures r.status == Success <==>
      parser.parseHeader(m.packet.data).Ok? && parser.verifyHeader(parser.parseHeader(m.packet.data).value.0) == Success
    ensures r.status == Success ==>
      var h := parser.parseHeader(m.packet.data).value.0;
      && r.message.ikeSaId == Some(IkeSaId(h.initiatorSpi, h.responderSpi, h.initiatorFlag))
      && r.message.exchangeType == h.exchangeType
      && r.message.messageId == h.messageId
      && r.message.isRequest == !h.responseFlag
      && r.message.majorVersion == h.majorVersion && r.message.minorVersion == h.minorVersion
      && r.message.firstPayload == h.nextType
      && r.message.parserInput == parser.parseHeader(m.packet.data).value.1
    ensures r.status != Success ==> r.message == m.(parserInput := r.message.parserInput)
    ensures parser.parseHeader(m.packet.data).Err? ==>
      r.status == parser.parseHeader(m.packet.data).status && r.message.parserInput == m.packet.data
    ensures parser.parseHeader(m.packet.data).Ok? &&
            parser.verifyHeader(parser.parseHeader(m.packet.data).value.0) != Success ==>
      && r.status == parser.verifyHeader(parser.parseHeader(m.packet.data).value.0)
      && r.message.parserInput == parser.parseHeader(m.packet.data).value.1
  {
    var input := m.packet.data;
    match parser.parseHeader(input)
    case Err(s) => Returned(s, m.(parserInput := input))
    case Ok((h, rest)) =>
      var status := parser.verifyHeader(h);
      if status != Success then Returned(status, m.(parserInput := rest))
      else
        Returned(Success, m.(parserInput := rest,
                             ikeSaId := Some(IkeSaId(h.initiatorSpi, h.responderSpi, h.initiatorFlag)),
                             exchangeType := h.exchangeType,
                             messageId := h.messageId,
                             isRequest := !h.responseFlag,
                             majorVersion := h.majorVersion,
                             minorVersion := h.minorVersion,
                             firstPayload := h.nextType))
  }

  /** The payloads read by a walk that started at type `t`: the first has
      type `t`, each later one has the type its predecessor named, none is
      NO_PAYLOAD and only the last may be Encrypted. */
  predicate WalkedChain(t: PayloadType, parsed: seq<Payload>)
  {
    && (|parsed| > 0 ==> parsed[0].payloadType == t)
    && (forall j :: 0 <= j < |parsed| ==> parsed[j].payloadType != NoPayload)
    && (forall j :: 0 <= j < |parsed| - 1 ==>
          parsed[j].payloadType != Encrypted && parsed[j + 1].payloadType == parsed[j].nextType)
  }

  /** The type the walk reads after `parsed`. */
  function NextToRead(t: PayloadType, parsed: seq<Payload>): PayloadType
  {
    if |parsed| == 0 then t else parsed[|parsed| - 1].nextType
  }

  /** The walk ended normally: at NO_PAYLOAD or after an Encrypted payload. */
  predicate WalkComplete(t: PayloadType, parsed: seq<Payload>)
  {
    NextToRead(t, parsed) == NoPayload || (|parsed| > 0 && parsed[|parsed| - 1].payloadType == Encrypted)
  }

  lemma ExtendWalk(t: PayloadType, p: Payload, parsed: seq<Payload>)
    requires p.payloadType == t && t != NoPayload && t != Encrypted
    requires WalkedChain(p.nextType, parsed)
    ensures WalkedChain(t, [p] + parsed)
    ensures NextToRead(p.nextType, parsed) == NextToRead(t, [p] + parsed)
    ensures WalkComplete(p.nextType, parsed) ==> WalkComplete(t, [p] + parsed)
  {
    var c := [p] + parsed;
    forall j | 0 <= j < |c| - 1
      ensures c[j].payloadType != Encrypted && c[j + 1].payloadType == c[j].nextType
    {
      if j > 0 {
        assert c[j] == parsed[j - 1] && c[j + 1] == parsed[j];
      }
    }
  }

  /** Reading `ps` with the parser from `input`, the first as type `t` and
      each later one as the type its predecessor named: the input left
      behind, or None when some payload of `ps` is not what the parser
      reads at that point. */
  function ReadAlong(parser: Parser, t: PayloadType, input: Bytes, ps: seq<Payload>): Option<Bytes>
    decreases |ps|
  {
    if |ps| == 0 then Some(input)
    else match parser.parsePayload(t, input)
      case Err(_) => None
      case Ok(q) =>
        if ps[0] == Payload(t, q.nextType, q.body) then ReadAlong(parser, q.nextType, q.rest, ps[1..]) else None
  }

  /** What a walk from type `t` over `m` leaves behind in `r`: the payloads
      already in `m` kept as a prefix, nothing else changed but the chain and
      the parser position, the payloads read forming a walked chain, each of
      them verified and each exactly what the parser read at its position, a
      complete walk on SUCCESS with the parser behind the last payload read,
      and on failure a next payload that the parser either refused, its
      status returned, or read but that failed its own verification, giving
      VERIFY_ERROR with the parser left behind it. */
  predicate WalkOutcome(m: Message, parser: Parser, t: PayloadType, r: Outcome)
  {
    && r.Returned?
    && |m.payloads| <= |r.message.payloads| && r.message.payloads[..|m.payloads|] == m.payloads
    && r.message == m.(payloads := r.message.payloads, parserInput := r.message.parserInput)
    && WalkedChain(t, r.message.payloads[|m.payloads|..])
    && (forall p :: p in r.message.payloads[|m.payloads|..] ==> parser.verifyPayload(p) == Success)
    && (r.status == Success ==> WalkComplete(t, r.message.payloads[|m.payloads|..]))
    && ReadAlong(parser, t, m.parserInput, r.message.payloads[|m.payloads|..]).Some?
    && (r.status == Success ==>
          r.message.parserInput == ReadAlong(parser, t, m.parserInput, r.message.payloads[|m.payloads|..]).value)
    && (r.status != Success ==>
          var mid := ReadAlong(parser, t, m.parserInput, r.message.payloads[|m.payloads|..]).value;
          var next := NextToRead(t, r.message.payloads[|m.payloads|..]);
          var q := parser.parsePayload(next, mid);
          && !WalkComplete(t, r.message.payloads[|m.payloads|..])
          && next != NoPayload
          && (q.Err? ==> q == Err(r.status) && r.message.parserInput == mid)
          && (q.Ok? ==>
                && r.status == VerifyError
                && parser.verifyPayload(Payload(next, q.value.nextType, q.value.body)) != Success
                && r.message.parserInput == q.value.rest))
  }

  /** A walk that read and verified `p` of type `t` and then continued from
      `p`'s next type leaves the outcome of a walk from `t`. */
  lemma ExtendOutcome(m: Message, parser: Parser, t: PayloadType, p: Payload, rest: Bytes, r: Outcome)
    requires p.payloadType == t && t != NoPayload && t != Encrypted
    requires parser.verifyPayload(p) == Success
    requires parser.parsePayload(t, m.parserInput) == Ok(Parsed(p.nextType, p.body, rest))
    requires WalkOutcome(m.(payloads := m.payloads + [p], parserInput := rest), parser, p.nextType, r)
    ensures WalkOutcome(m, parser, t, r)
  {
    var all := r.message.payloads;
    var n := |m.payloads|;
    var tail := all[n + 1..];
    assert all[n] == p by {
      assert all[n] == all[..n + 1][n];
    }
    assert all[..n] == m.payloads by {
      assert all[..n] == all[..n + 1][..n];
    }
    assert all[n..] == [p] + tail;
    ExtendWalk(t, p, tail);
    assert ([p] + tail)[1..] == tail;
    assert ReadAlong(parser, t, m.parserInput, all[n..]) == ReadAlong(parser, p.nextType, rest, tail);
  }

  /** The loop of `parse_body`: reads payloads of the announced types,
      verifies each and appends it to the chain, until NO_PAYLOAD or an
      Encrypted payload. A parse failure returns the parser's status; a
      verification failure returns VERIFY_ERROR and drops that payload. */
  function WalkChain(m: Message, parser: Parser, t: PayloadType): (r: Outcome)
    requires Consumes(parser)
    decreases |m.parserInput|
    ensures r.Returned?
    ensures WalkOutcome(m, parser, t, r)
  {
    if t == NoPayload then Returned(Success, m)
    else match parser.parsePayload(t, m.parserInput)
      case Err(s) => Returned(s, m)
      case Ok(parsed) =>
        var p := Payload(t, parsed.nextType, parsed.body);
        if parser.verifyPayload(p) != Success then Returned(VerifyError, m.(parserInput := parsed.rest))
        else
          var m' := m.(payloads := m.payloads + [p], parserInput := parsed.rest);
          if t == Encrypted then Returned(Success, m')
          else
            var r := WalkChain(m', parser, parsed.nextType);
            ExtendOutcome(m, parser, t, p, parsed.rest, r);
            r
  }

  /** `parse_body`: walks the chain announced by the header, then decrypts
      and verifies it. */
  function ParseBody(m: Message, parser: Parser, tr: Transforms): (r: Outcome)
    requires Consumes(parser) && DecryptShrinks(tr)
    ensures r.Returned?
    ensures r.message == m.(payloads := r.message.payloads, parserInput := r.message.parserInput,
                            firstPayload := r.message.firstPayload)
    ensures WalkChain(m, parser, m.firstPayload).status != Success ==> r == WalkChain(m, parser, m.firstPayload)
    ensures WalkChain(m, parser, m.firstPayload).status == Success ==>
      r == DecryptAndVerifyPayloads(WalkChain(m, parser, m.firstPayload).message, tr)
  {
    var walked := WalkChain(m, parser, m.firstPayload);
    if walked.status != Success then walked
    else DecryptAndVerifyPayloads(walked.message, tr)
  }

  // Generating and then parsing.

  /** The parser reads back every payload the generator writes, whatever
      follows it, and accepts it. */
  ghost predicate PayloadsReadBack(parser: Parser, gen: Generator)
  {
    && (forall p: Payload, rest :: p.payloadType != NoPayload ==>
          parser.parsePayload(p.payloadType, gen.encodePayload(p) + rest) == Ok(Parsed(p.nextType, p.body, rest)))
    && (forall p :: parser.verifyPayload(p) == Success)
  }

  /** The parser reads back what the generator writes. */
  ghost predicate ReadsBack(parser: Parser, gen: Generator)
  {
    && (forall h, rest :: parser.parseHeader(gen.encodeHeader(h) + rest) == Ok((h, rest)))
    && (forall h :: parser.verifyHeader(h) == Success)
    && PayloadsReadBack(parser, gen)
  }

  lemma ReadsBackPayload(parser: Parser, gen: Generator, p: Payload, rest: Bytes)
    requires PayloadsReadBack(parser, gen) && p.payloadType != NoPayload
    ensures parser.parsePayload(p.payloadType, gen.encodePayload(p) + rest) == Ok(Parsed(p.nextType, p.body, rest))
    ensures parser.verifyPayload(Payload(p.payloadType, p.nextType, p.body)) == Success
  {
  }

  lemma SerializeCons(encode: Payload -> Bytes, chain: seq<Payload>, rest: Bytes)
    requires |chain| > 0
    ensures Serialize(encode, chain) + rest == encode(chain[0]) + (Serialize(encode, chain[1..]) + rest)
  {
  }

  lemma LinkedTail(chain: seq<Payload>)
    requires |chain| > 0 && Linked(TypeAt(chain, 0), chain)
    ensures chain[0].nextType == TypeAt(chain[1..], 0)
    ensures Linked(TypeAt(chain[1..], 0), chain[1..])
  {
    var tail := chain[1..];
    forall j | 0 <= j < |tail|
      ensures tail[j].nextType == TypeAt(tail, j + 1)
    {
      assert tail[j] == chain[j + 1];
    }
  }

  /** One step of the walk over serialised payloads: the first payload is
      read back, verified and appended, and the walk continues behind it. */
  lemma WalkSerializedStep(m: Message, parser: Parser, gen: Generator, chain: seq<Payload>, rest: Bytes)
    requires Consumes(parser) && PayloadsReadBack(parser, gen)
    requires |chain| > 0 && Linked(TypeAt(chain, 0), chain)
    requires chain[0].payloadType != NoPayload && chain[0].payloadType != Encrypted
    requires m.parserInput == Serialize(gen.encodePayload, chain) + rest
    ensures WalkChain(m, parser, TypeAt(chain, 0)) ==
      WalkChain(m.(payloads := m.payloads + [chain[0]], parserInput := Serialize(gen.encodePayload, chain[1..]) + rest),
                parser, TypeAt(chain[1..], 0))
  {
    var p := chain[0];
    var after := Serialize(gen.encodePayload, chain[1..]) + rest;
    SerializeCons(gen.encodePayload, chain, rest);
    ReadsBackPayload(parser, gen, p, after);
    LinkedTail(chain);
  }

  lemma AppendHead(front: seq<Payload>, chain: seq<Payload>)
    requires |chain| > 0
    ensures (front + [chain[0]]) + chain[1..] == front + chain
  {
    assert chain == [chain[0]] + chain[1..];
  }

  /** The payloads of a chain that a walk can read back. */
  predicate Walkable(chain: seq<Payload>)
  {
    && Linked(TypeAt(chain, 0), chain)
    && forall j :: 0 <= j < |chain| ==> chain[j].payloadType != NoPayload && chain[j].payloadType != Encrypted
  }

  lemma WalkableTail(chain: seq<Payload>)
    requires |chain| > 0 && Walkable(chain)
    ensures Walkable(chain[1..])
  {
    LinkedTail(chain);
    assert forall j :: 0 <= j < |chain| - 1 ==> chain[1..][j] == chain[j + 1];
  }

  lemma {:induction false} WalkSerialized(m: Message, parser: Parser, gen: Generator, chain: seq<Payload>, rest: Bytes)
    requires Consumes(parser) && PayloadsReadBack(parser, gen)
    requires Walkable(chain)
    requires m.parserInput == Serialize(gen.encodePayload, chain) + rest
    decreases |chain|
    ensures WalkChain(m, parser, TypeAt(chain, 0)) ==
      Returned(Success, m.(payloads := m.payloads + chain, parserInput := rest))
  {
    if |chain| > 0 {
      var tail := chain[1..];
      var m' := m.(payloads := m.payloads + [chain[0]], parserInput := Serialize(gen.encodePayload, tail) + rest);
      WalkableTail(chain);
      WalkSerialized(m', parser, gen, tail, rest);
      WalkSerializedStep(m, parser, gen, chain, rest);
      AppendHead(m.payloads, chain);
    }
  }

  /** A message of an exchange without encrypted content, generated and then
      parsed from the generated packet with a parser that reads back the
      generator's encodings, arrives with the same header fields and the
      same payloads, relinked, and `verify` decides it. */
  lemma GenerateThenParse(m: Message, tr: Transforms, gen: Generator, parser: Parser)
    requires Consumes(parser) && ReadsBack(parser, gen) && DecryptShrinks(tr)
    requires GetMessageRule(m.exchangeType, m.isRequest).Ok?
    requires !GetMessageRule(m.exchangeType, m.isRequest).value.encryptedContent
    requires m.packet.source.Some? && m.packet.destination.Some? && m.ikeSaId.Some?
    requires forall i :: 0 <= i < |m.payloads| ==>
      m.payloads[i].payloadType != Encrypted && m.payloads[i].payloadType != NoPayload &&
      GetSupportedPayloadEntry(GetMessageRule(m.exchangeType, m.isRequest).value, m.payloads[i].payloadType).Ok?
    ensures var g := Generate(m, tr, gen);
      && g.Serialized? && g.status == Success
      && var h := ParseHeader(CreateFromPacket(Some(g.packet)), parser);
      && h.status == Success
      && h.message.exchangeType == m.exchangeType && h.message.isRequest == m.isRequest
      && h.message.messageId == m.messageId && h.message.ikeSaId == m.ikeSaId
      && h.message.majorVersion == gen.majorVersion && h.message.minorVersion == gen.minorVersion
      && var b := ParseBody(h.message, parser, tr);
      && b.message.payloads == Relink(m.payloads)
      && b.status == Verify(m.exchangeType, m.isRequest, Relink(m.payloads))
  {
    GeneratePlainMessage(m, tr, gen);
    var g := Generate(m, tr, gen);
    var chain := Relink(m.payloads);
    var body := Serialize(gen.encodePayload, chain);
    var received := CreateFromPacket(Some(g.packet));
    assert parser.parseHeader(received.packet.data) == Ok((g.header, body));
    var h := ParseHeader(received, parser);
    ChainOfMessageWalkable(m, chain);
    assert body + [] == body;
    WalkSerialized(h.message, parser, gen, chain, []);
    var walked := h.message.(payloads := chain, parserInput := []);
    assert h.message.payloads + chain == chain;
    PlainChainPasses(m.exchangeType, m.isRequest, m.payloads);
    assert PlainPrefix(walked, |walked.payloads|);
    PlainChainEndsInVerify(walked, tr);
  }

  lemma ChainOfMessageWalkable(m: Message, chain: seq<Payload>)
    requires chain == Relink(m.payloads)
    requires forall i :: 0 <= i < |m.payloads| ==>
      m.payloads[i].payloadType != Encrypted && m.payloads[i].payloadType != NoPayload
    ensures Walkable(chain)
  {
    forall j | 0 <= j < |chain|
      ensures chain[j].payloadType != NoPayload && chain[j].payloadType != Encrypted
    {
      assert chain[j].payloadType == m.payloads[j].payloadType;
    }
  }

  /** Under a rule without encrypted content every listed payload is listed
      as unencrypted, so the loop of `decrypt_and_verify_payloads` passes
      over a relinked chain of listed payloads. */
  lemma PlainChainPasses(exchangeType: ExchangeType, isRequest: bool, ps: seq<Payload>)
    requires GetMessageRule(exchangeType, isRequest).Ok?
    requires !GetMessageRule(exchangeType, isRequest).value.encryptedContent
    requires forall i :: 0 <= i < |ps| ==>
      ps[i].payloadType != Encrypted &&
      GetSupportedPayloadEntry(GetMessageRule(exchangeType, isRequest).value, ps[i].payloadType).Ok?
    ensures forall j :: 0 <= j < |Relink(ps)| ==>
      PassesInPlaintext(GetMessageRule(exchangeType, isRequest).value, Relink(ps)[j])
  {
    var rule := GetMessageRule(exchangeType, isRequest).value;
    assert rule in MessageRuleTable;
    assert rule == MessageRuleTable[0] || rule == MessageRuleTable[1];
    assert forall e :: e in rule.supportedPayloads ==> !e.encrypted;
    var chain := Relink(ps);
    forall j | 0 <= j < |chain|
      ensures PassesInPlaintext(rule, chain[j])
    {
      assert chain[j].payloadType == ps[j].payloadType;
    }
  }
}
