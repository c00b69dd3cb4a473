/** Payload records and the forward-link chain of RFC 7296, section 3.2:
    every payload carries its own type and the type of its successor. */
module Payloads {
  import opened IkeTypes

  /** The one-octet payload type codes of RFC 7296, section 3.2. */
  newtype PayloadType = x: int | 0 <= x < 256

  const NoPayload: PayloadType := 0
  const SecurityAssociation: PayloadType := 33
  const KeyExchange: PayloadType := 34
  const IdInitiator: PayloadType := 35
  const IdResponder: PayloadType := 36
  const Certificate: PayloadType := 37
  const CertificateRequest: PayloadType := 38
  const Authentication: PayloadType := 39
  const Nonce: PayloadType := 40
  const Notify: PayloadType := 41
  const Delete: PayloadType := 42
  const VendorId: PayloadType := 43
  const TrafficSelectorInitiator: PayloadType := 44
  const TrafficSelectorResponder: PayloadType := 45
  const Encrypted: PayloadType := 46

  /** The one-octet exchange type codes of RFC 7296, section 3.1, plus the
      value a fresh message carries before one is assigned. */
  newtype ExchangeType = x: int | 0 <= x < 256

  const IkeSaInit: ExchangeType := 34
  const IkeAuth: ExchangeType := 35
  const CreateChildSa: ExchangeType := 36
  const Informational: ExchangeType := 37
  const ExchangeTypeUndefined: ExchangeType := 240

  /** A payload: its own type, its forward link and an opaque body standing
      for every variant-specific field. */
  datatype Payload = Payload(payloadType: PayloadType, nextType: PayloadType, body: Bytes)

  /** The type of the payload at position `i`, or the terminator past the end. */
  function TypeAt(chain: seq<Payload>, i: nat): PayloadType
  {
    if i < |chain| then chain[i].payloadType else NoPayload
  }

  /** The chain invariant: `first` names the first payload, every payload
      names its successor, and the last one names no payload. */
  predicate Linked(first: PayloadType, chain: seq<Payload>)
  {
    && first == TypeAt(chain, 0)
    && forall i :: 0 <= i < |chain| ==> chain[i].nextType == TypeAt(chain, i + 1)
  }

  /** Two chains hold the same payloads in the same order, forward links aside. */
  predicate SameContent(a: seq<Payload>, b: seq<Payload>)
  {
    && |a| == |b|
    && forall i :: 0 <= i < |a| ==> a[i].payloadType == b[i].payloadType && a[i].body == b[i].body
  }

  lemma SameContentExtend(a: seq<Payload>, b: seq<Payload>, c: seq<Payload>, p: Payload)
    requires SameContent(a, b + [p]) && SameContent(b, c)
    ensures SameContent(a, c + [p])
  {
  }

  /** Rewrites every forward link to the type of the next payload. */
  function Relink(chain: seq<Payload>): (r: seq<Payload>)
    ensures SameContent(r, chain)
    ensures Linked(TypeAt(chain, 0), r)
  {
    seq(|chain|, i requires 0 <= i < |chain| => chain[i].(nextType := TypeAt(chain, i + 1)))
  }

  /** Number of payloads of type `t` in the chain. */
  function CountOf(chain: seq<Payload>, t: PayloadType): nat
  {
    if |chain| == 0 then 0
    else (if chain[0].payloadType == t then 1 else 0) + CountOf(chain[1..], t)
  }

  lemma {:induction false} CountOfAppend(a: seq<Payload>, b: seq<Payload>, t: PayloadType)
    ensures CountOf(a + b, t) == CountOf(a, t) + CountOf(b, t)
    decreases |a|
  {
    if |a| == 0 {
      assert a + b == b;
    } else {
      assert (a + b)[0] == a[0];
      assert (a + b)[1..] == a[1..] + b;
      CountOfAppend(a[1..], b, t);
    }
  }

  lemma CountOfSingle(p: Payload, t: PayloadType)
    ensures CountOf([p], t) == if p.payloadType == t then 1 else 0
  {
    assert [p][1..] == [];
  }

  /** Total size of the payload bodies of a chain. */
  function Weight(chain: seq<Payload>): nat
  {
    if |chain| == 0 then 0 else |chain[0].body| + Weight(chain[1..])
  }
}
