/** The message object of message.c: header scalars, the packet it was
    parsed from or last generated into, and the ordered payload chain.
    Collaborators the message calls but whose code is not modelled (the
    generator, the parser, the crypter and signer behind the Encrypted
    payload) are records of functions passed in by the caller. */
module Messages {
  import opened IkeTypes
  import opened Payloads

  datatype Host = Host(address: Bytes, port: nat)

  /** The transport packet: endpoints and raw bytes. */
  datatype Packet = Packet(source: Option<Host>, destination: Option<Host>, data: Bytes)

  /** The IKE_SA identifier: both SPIs and which side we are. */
  datatype IkeSaId = IkeSaId(initiatorSpi: Uint64, responderSpi: Uint64, isInitiator: bool)

  /** The fixed IKE header of RFC 7296, section 3.1. */
  datatype IkeHeader = IkeHeader(
    majorVersion: Byte,
    minorVersion: Byte,
    exchangeType: ExchangeType,
    messageId: Uint32,
    responseFlag: bool,
    initiatorFlag: bool,
    initiatorSpi: Uint64,
    responderSpi: Uint64,
    nextType: PayloadType)

  datatype Message = Message(
    majorVersion: Byte,
    minorVersion: Byte,
    firstPayload: PayloadType,
    exchangeType: ExchangeType,
    isRequest: bool,
    messageId: Uint32,
    ikeSaId: Option<IkeSaId>,
    packet: Packet,
    payloads: seq<Payload>,
    /** The bytes the message's parser has not consumed yet. */
    parserInput: Bytes)

  /** What a message operation leads to: a status and the message state it
      leaves behind, or a dereference of a NULL pointer in the source. */
  datatype Outcome = NullDereference | Returned(status: Status, message: Message)

  /** Status and bytes produced by a transform of the Encrypted payload. */
  datatype Transformed = Transformed(status: Status, bytes: Bytes)

  /** The Encrypted payload's operations with the crypter and signer it is
      given: encrypting its collected payloads into a body, signing the
      whole generated message, checking the signature of a received
      message and decrypting a received body into its inner payloads. */
  datatype Transforms = Transforms(
    encrypt: seq<Payload> -> Transformed,
    buildSignature: Bytes -> Transformed,
    verifySignature: (Payload, Bytes) -> Status,
    decrypt: Payload -> Result<seq<Payload>>)

  /** `message_create_from_packet`: a message with no exchange type, marked
      as a request, with no IKE_SA id, no payloads and a parser positioned at
      the start of the packet's data; without a packet a fresh empty one is
      used. */
  function CreateFromPacket(packet: Option<Packet>): (m: Message)
    ensures m.exchangeType == ExchangeTypeUndefined && m.isRequest && m.messageId == 0
    ensures m.ikeSaId.None? && |m.payloads| == 0 && Linked(m.firstPayload, m.payloads)
    ensures m.packet == (if packet.Some? then packet.value else Packet(None, None, []))
    ensures m.parserInput == m.packet.data
  {
    var p := if packet.Some? then packet.value else Packet(None, None, []);
    Message(0, 0, NoPayload, ExchangeTypeUndefined, true, 0, None, p, [], p.data)
  }

  /** `message_create`. */
  function Create(): (m: Message)
    ensures m.packet == Packet(None, None, []) && |m.payloads| == 0
    ensures Linked(m.firstPayload, m.payloads)
  {
    CreateFromPacket(None)
  }

  /** `add_payload`: appends `p`, pointing the previous last payload (or the
      message's first-payload field when the chain is empty) at it and
      terminating the chain at `p`. */
  function AddPayload(m: Message, p: Payload): (r: Message)
    ensures r == m.(payloads := r.payloads, firstPayload := r.firstPayload)
    ensures |r.payloads| == |m.payloads| + 1
    ensures SameContent(r.payloads, m.payloads + [p])
    ensures r.payloads[|m.payloads|].nextType == NoPayload
    ensures forall i :: 0 <= i < |m.payloads| - 1 ==> r.payloads[i] == m.payloads[i]
    ensures Linked(m.firstPayload, m.payloads) ==> Linked(r.firstPayload, r.payloads)
    ensures |m.payloads| > 0 ==>
      r.payloads[|m.payloads| - 1].nextType == p.payloadType && r.firstPayload == m.firstPayload
    ensures |m.payloads| == 0 ==> r.firstPayload == p.payloadType
  {
    var added := p.(nextType := NoPayload);
    if |m.payloads| > 0 then
      var last := |m.payloads| - 1;
      m.(payloads := m.payloads[last := m.payloads[last].(nextType := p.payloadType)] + [added])
    else
      m.(firstPayload := p.payloadType, payloads := [added])
  }

  /** A sequence of `add_payload` calls, in order. */
  function AddPayloads(m: Message, ps: seq<Payload>): Message
    decreases |ps|
  {
    if |ps| == 0 then m else AddPayload(AddPayloads(m, ps[..|ps| - 1]), ps[|ps| - 1])
  }

  /** Whatever payloads are added, in whatever order, to a linked message,
      the chain stays linked and holds the old payloads followed by the new
      ones. */
  lemma {:induction false} AddPayloadsKeepsLinks(m: Message, ps: seq<Payload>)
    requires Linked(m.firstPayload, m.payloads)
    decreases |ps|
    ensures var r := AddPayloads(m, ps);
      && Linked(r.firstPayload, r.payloads)
      && SameContent(r.payloads, m.payloads + ps)
      && r == m.(payloads := r.payloads, firstPayload := r.firstPayload)
  {
    if |ps| > 0 {
      var front, last := ps[..|ps| - 1], ps[|ps| - 1];
      AddPayloadsKeepsLinks(m, front);
      var mid := AddPayloads(m, front);
      var r := AddPayload(mid, last);
      assert r == AddPayloads(m, ps);
      SameContentExtend(r.payloads, mid.payloads, m.payloads + front, last);
      AppendLast(m.payloads, ps);
    }
  }

  lemma AppendLast(a: seq<Payload>, ps: seq<Payload>)
    requires |ps| > 0
    ensures (a + ps[..|ps| - 1]) + [ps[|ps| - 1]] == a + ps
  {
    assert ps == ps[..|ps| - 1] + [ps[|ps| - 1]];
  }

  /** From the constructor state, any sequence of `add_payload` calls yields
      a chain whose first-payload field is the type of element 0, whose
      links name each successor, and whose last link is NO_PAYLOAD. */
  lemma AddPayloadsFromCreate(packet: Option<Packet>, ps: seq<Payload>)
    ensures var r := AddPayloads(CreateFromPacket(packet), ps);
      && Linked(r.firstPayload, r.payloads)
      && SameContent(r.payloads, ps)
      && r.firstPayload == TypeAt(ps, 0)
  {
    var m := CreateFromPacket(packet);
    AddPayloadsKeepsLinks(m, ps);
    assert m.payloads + ps == ps;
  }
}
