/** `generate` of message.c: precondition checks, the encryption pass,
    relinking of the chain behind the IKE header, serialisation through the
    generator and the signature over the whole message. */
module MessageGenerate {
  import opened IkeTypes
  import opened Payloads
  import opened MessageRules
  import opened Messages
  import opened MessageEncrypt

  /** The generator collaborator: the wire encoding of the header and of one
      payload, and the version numbers a freshly created header carries. */
  datatype Generator = Generator(
    encodeHeader: IkeHeader -> Bytes,
    encodePayload: Payload -> Bytes,
    majorVersion: Byte,
    minorVersion: Byte)

  /** The encodings of the payloads of a chain, in order. */
  function Serialize(encode: Payload -> Bytes, chain: seq<Payload>): Bytes
  {
    if |chain| == 0 then [] else encode(chain[0]) + Serialize(encode, chain[1..])
  }

  /** How `generate` ends: a NULL dereference, a status returned before
      anything was serialised, or the header it built and the packet it
      wrote (handed to the caller when the status is SUCCESS). */
  datatype Generated =
    | GenerateNullDereference
    | Stopped(status: Status, message: Message)
    | Serialized(status: Status, message: Message, header: IkeHeader, packet: Packet)

  /** The end of `generate` once the payloads are encrypted: the IKE
      header built from the message and its IKE_SA id, the chain relinked
      behind it and serialised, and the whole signed when the last payload
      is Encrypted. */
  function Emit(m1: Message, id: IkeSaId, tr: Transforms, gen: Generator): (r: Generated)
    ensures r.Serialized?
    ensures && r.header.majorVersion == gen.majorVersion && r.header.minorVersion == gen.minorVersion
            && r.header.exchangeType == m1.exchangeType && r.header.messageId == m1.messageId
            && r.header.responseFlag == !m1.isRequest && r.header.initiatorFlag == id.isInitiator
            && r.header.initiatorSpi == id.initiatorSpi && r.header.responderSpi == id.responderSpi
    ensures r.message.payloads == Relink(m1.payloads)
    ensures r.header.nextType == TypeAt(r.message.payloads, 0) && Linked(r.header.nextType, r.message.payloads)
    ensures r.message == m1.(payloads := r.message.payloads, packet := r.packet)
    ensures r.packet.source == m1.packet.source && r.packet.destination == m1.packet.destination
    ensures |r.message.payloads| == 0 || r.message.payloads[|r.message.payloads| - 1].payloadType != Encrypted ==>
      r.status == Success && r.packet.data == gen.encodeHeader(r.header) + Serialize(gen.encodePayload, r.message.payloads)
    ensures |r.message.payloads| > 0 && r.message.payloads[|r.message.payloads| - 1].payloadType == Encrypted ==>
      var signed := tr.buildSignature(gen.encodeHeader(r.header) + Serialize(gen.encodePayload, r.message.payloads));
      r.status == signed.status && r.packet.data == signed.bytes
  {
    var chain := Relink(m1.payloads);
    var header := IkeHeader(gen.majorVersion, gen.minorVersion, m1.exchangeType, m1.messageId,
                            !m1.isRequest, id.isInitiator, id.initiatorSpi, id.responderSpi,
                            TypeAt(m1.payloads, 0));
    var data := gen.encodeHeader(header) + Serialize(gen.encodePayload, chain);
    var m2 := m1.(payloads := chain, packet := m1.packet.(data := data));
    if |chain| > 0 && chain[|chain| - 1].payloadType == Encrypted then
      var signed := tr.buildSignature(data);
      var m3 := m2.(packet := m2.packet.(data := signed.bytes));
      Serialized(signed.status, m3, header, m3.packet)
    else
      Serialized(Success, m2, header, m2.packet)
  }

  /** `generate`. */
  function Generate(m: Message, tr: Transforms, gen: Generator): (r: Generated)
    ensures m.exchangeType == ExchangeTypeUndefined ==> r == Stopped(InvalidState, m)
    ensures m.exchangeType != ExchangeTypeUndefined && GetMessageRule(m.exchangeType, m.isRequest).Err? ==>
      r == Stopped(NotFound, m)
    ensures (m.exchangeType != ExchangeTypeUndefined && GetMessageRule(m.exchangeType, m.isRequest).Ok? &&
             (m.packet.source.None? || m.packet.destination.None?)) ==> r == Stopped(InvalidState, m)
    ensures r.Serialized? ==>
      && m.packet.source.Some? && m.packet.destination.Some?
      && r.header.exchangeType == m.exchangeType
      && r.header.messageId == m.messageId
      && r.header.responseFlag == !m.isRequest
      && r.header.majorVersion == gen.majorVersion && r.header.minorVersion == gen.minorVersion
      && m.ikeSaId.Some?
      && r.header.initiatorFlag == m.ikeSaId.value.isInitiator
      && r.header.initiatorSpi == m.ikeSaId.value.initiatorSpi
      && r.header.responderSpi == m.ikeSaId.value.responderSpi
      && r.header.nextType == TypeAt(r.message.payloads, 0)
      && Linked(r.header.nextType, r.message.payloads)
      && r.packet == r.message.packet
      && r.packet.source == m.packet.source && r.packet.destination == m.packet.destination
    ensures r.Serialized? && r.status == Success &&
            (|r.message.payloads| == 0 || r.message.payloads[|r.message.payloads| - 1].payloadType != Encrypted) ==>
      r.packet.data == gen.encodeHeader(r.header) + Serialize(gen.encodePayload, r.message.payloads)
    ensures (m.exchangeType != ExchangeTypeUndefined && GetMessageRule(m.exchangeType, m.isRequest).Ok? &&
             m.packet.source.Some? && m.packet.destination.Some?) ==>
      && (EncryptPayloads(m, tr).NullDereference? ==> r.GenerateNullDereference?)
      && (EncryptPayloads(m, tr).Returned? && EncryptPayloads(m, tr).status != Success ==>
            r == Stopped(EncryptPayloads(m, tr).status, EncryptPayloads(m, tr).message))
      && (EncryptPayloads(m, tr).Returned? && EncryptPayloads(m, tr).status == Success ==>
            (r.GenerateNullDereference? <==> m.ikeSaId.None?))
    ensures r.Serialized? ==>
      && EncryptPayloads(m, tr).Returned? && EncryptPayloads(m, tr).status == Success
      && r.message.payloads == Relink(EncryptPayloads(m, tr).message.payloads)
      && r.message == EncryptPayloads(m, tr).message.(payloads := r.message.payloads, packet := r.packet)
    ensures (m.exchangeType != ExchangeTypeUndefined && GetMessageRule(m.exchangeType, m.isRequest).Ok? &&
             m.packet.source.Some? && m.packet.destination.Some? &&
             EncryptPayloads(m, tr).Returned? && EncryptPayloads(m, tr).status == Success && m.ikeSaId.Some?) ==>
      r.Serialized?
    ensures r.Serialized? &&
            (|r.message.payloads| == 0 || r.message.payloads[|r.message.payloads| - 1].payloadType != Encrypted) ==>
      r.status == Success
    ensures r.Serialized? && |r.message.payloads| > 0 &&
            r.message.payloads[|r.message.payloads| - 1].payloadType == Encrypted ==>
      var signed := tr.buildSignature(gen.encodeHeader(r.header) + Serialize(gen.encodePayload, r.message.payloads));
      r.status == signed.status && r.packet.data == signed.bytes
  {
    if m.exchangeType == ExchangeTypeUndefined then Stopped(InvalidState, m)
    else match GetMessageRule(m.exchangeType, m.isRequest)
      case Err(s) => Stopped(s, m)
      case Ok(_) =>
        if m.packet.source.None? || m.packet.destination.None? then Stopped(InvalidState, m)
        else match EncryptPayloads(m, tr)
          case NullDereference => GenerateNullDereference
          case Returned(s, m1) =>
            if s != Success then Stopped(s, m1)
            else match m1.ikeSaId
              case None => GenerateNullDereference
              case Some(id) => Emit(m1, id, tr, gen)
  }

  /** For an exchange without encrypted content, a message with an IKE_SA
      id and both endpoints is always generated, its payloads kept in order
      and relinked behind the header. */
  lemma GeneratePlainMessage(m: Message, tr: Transforms, gen: Generator)
    requires GetMessageRule(m.exchangeType, m.isRequest).Ok?
    requires !GetMessageRule(m.exchangeType, m.isRequest).value.encryptedContent
    requires m.packet.source.Some? && m.packet.destination.Some? && m.ikeSaId.Some?
    requires forall i :: 0 <= i < |m.payloads| ==> m.payloads[i].payloadType != Encrypted
    ensures var r := Generate(m, tr, gen);
      && r.Serialized? && r.status == Success
      && r.message.payloads == Relink(m.payloads)
      && r.packet.data == gen.encodeHeader(r.header) + Serialize(gen.encodePayload, Relink(m.payloads))
  {
    RuleTableCoverage(m.exchangeType, m.isRequest);
  }
}
