/** `decrypt_and_verify_payloads` of message.c: walks the received chain,
    checks the placement of an Encrypted payload, verifies its signature,
    decrypts it, splices its inner payloads in its place, checks every
    payload against the rule's encryption flag and ends in `verify`. */
module MessageDecrypt {
  import opened IkeTypes
  import opened Payloads
  import opened MessageRules
  import opened Messages
  import opened MessageVerify

  /** What the loop's `last_payload` refers to: nothing yet (the message's
      first-payload field is the link to rewrite), the chain element at an
      index, or the Encrypted payload that a splice has already discarded. */
  datatype Predecessor = First | At(index: nat) | Discarded

  /** Decrypting a body yields inner payloads whose bodies together are
      shorter than it. */
  ghost predicate DecryptShrinks(tr: Transforms)
  {
    forall p :: tr.decrypt(p).Ok? ==> Weight(tr.decrypt(p).value) < |p.body|
  }

  /** Rewrites the forward link held by `last` to `t`. A write through a
      discarded Encrypted payload changes nothing in the message. */
  function Link(m: Message, last: Predecessor, t: PayloadType): (r: Message)
    requires last.At? ==> last.index < |m.payloads|
    ensures |r.payloads| == |m.payloads|
    ensures SameContent(r.payloads, m.payloads)
    ensures forall k :: 0 <= k < |m.payloads| && last != At(k) ==> r.payloads[k] == m.payloads[k]
    ensures last.At? ==> r.payloads[last.index].nextType == t
    ensures r.firstPayload == (if last.First? then t else m.firstPayload)
    ensures r == m.(payloads := r.payloads, firstPayload := r.firstPayload)
  {
    match last
    case First => m.(firstPayload := t)
    case At(j) => m.(payloads := m.payloads[j := m.payloads[j].(nextType := t)])
    case Discarded => m
  }

  /** The per-payload rule check: NOT_FOUND for a type the rule does not
      list; on a mismatch between the entry's encryption flag and whether the
      payload arrived encrypted, the status variable, which still holds the
      lookup's SUCCESS; None to carry on. */
  function EntryCheck(rule: MessageRule, t: PayloadType, wasEncrypted: bool): (r: Option<Status>)
    ensures r == None <==>
      GetSupportedPayloadEntry(rule, t).Ok? && GetSupportedPayloadEntry(rule, t).value.encrypted == wasEncrypted
    ensures GetSupportedPayloadEntry(rule, t).Err? ==> r == Some(NotFound)
    ensures (GetSupportedPayloadEntry(rule, t).Ok? &&
             GetSupportedPayloadEntry(rule, t).value.encrypted != wasEncrypted) ==> r == Some(Success)
  {
    match GetSupportedPayloadEntry(rule, t)
    case Err(s) => Some(s)
    case Ok(entry) => if entry.encrypted != wasEncrypted then Some(Success) else None
  }

  lemma WeightSplit(chain: seq<Payload>, i: nat)
    requires i < |chain|
    ensures Weight(chain[i..]) == |chain[i].body| + Weight(chain[i + 1..])
  {
    assert chain[i..][1..] == chain[i + 1..];
  }

  /** The loop of `decrypt_and_verify_payloads` from chain position `i`. */
  function DecryptLoop(rule: MessageRule, tr: Transforms, m: Message, i: nat, last: Predecessor, wasEncrypted: bool): (r: Outcome)
    requires i <= |m.payloads|
    requires last.At? ==> last.index < i
    requires DecryptShrinks(tr)
    decreases Weight(m.payloads[i..]), |m.payloads| - i
    ensures r.Returned?
    ensures r.message == m.(payloads := r.message.payloads, firstPayload := r.message.firstPayload)
  {
    if i == |m.payloads| then Returned(Verify(m.exchangeType, m.isRequest, m.payloads), m)
    else
      var current := m.payloads[i];
      if current.payloadType == Encrypted then
        if !rule.encryptedContent then Returned(Failed, m)
        else if i + 1 != |m.payloads| then Returned(Failed, m)
        else
          var signature := tr.verifySignature(current, m.packet.data);
          if signature != Success then Returned(signature, m)
          else match tr.decrypt(current)
            case Err(s) => Returned(s, m)
            case Ok(inner) =>
              if |inner| == 0 then
                var m' := Link(m.(payloads := m.payloads[..i]), last, NoPayload);
                Returned(Verify(m'.exchangeType, m'.isRequest, m'.payloads), m')
              else
                var m' := Link(m.(payloads := m.payloads[..i] + inner), last, inner[0].payloadType);
                assert m'.payloads[i..] == inner;
                assert m.payloads[i..] == [current];
                WeightSplit(m.payloads, i);
                WeightSplit(m'.payloads, i);
                match EntryCheck(rule, inner[0].payloadType, true)
                case Some(s) => Returned(s, m')
                case None => DecryptLoop(rule, tr, m', i + 1, Discarded, true)
      else
        WeightSplit(m.payloads, i);
        match EntryCheck(rule, current.payloadType, wasEncrypted)
        case Some(s) => Returned(s, m)
        case None => DecryptLoop(rule, tr, m, i + 1, At(i), wasEncrypted)
  }

  /** `decrypt_and_verify_payloads`. */
  function DecryptAndVerifyPayloads(m: Message, tr: Transforms): (r: Outcome)
    requires DecryptShrinks(tr)
    ensures r.Returned?
    ensures GetMessageRule(m.exchangeType, m.isRequest).Err? ==> r == Returned(NotFound, m)
    ensures r.message == m.(payloads := r.message.payloads, firstPayload := r.message.firstPayload)
  {
    match GetMessageRule(m.exchangeType, m.isRequest)
    case Err(s) => Returned(s, m)
    case Ok(rule) => DecryptLoop(rule, tr, m, 0, First, false)
  }

  // What the loop does, stated over whole chains.

  /** A payload the loop passes over before any decryption: not Encrypted,
      listed by the rule and not required to be encrypted. */
  predicate PassesInPlaintext(rule: MessageRule, p: Payload)
  {
    p.payloadType != Encrypted && EntryCheck(rule, p.payloadType, false) == None
  }

  /** A payload the loop passes over after a decryption: not Encrypted,
      listed by the rule and required to be encrypted. */
  predicate PassesDecrypted(rule: MessageRule, p: Payload)
  {
    p.payloadType != Encrypted && EntryCheck(rule, p.payloadType, true) == None
  }

  function PredecessorOf(k: nat): Predecessor
  {
    if k == 0 then First else At(k - 1)
  }

  /** The rule of the message's exchange type and direction exists and the
      loop passes over the first `k` payloads without decrypting anything. */
  predicate PlainPrefix(m: Message, k: nat)
  {
    && GetMessageRule(m.exchangeType, m.isRequest).Ok?
    && k <= |m.payloads|
    && forall j :: 0 <= j < k ==> PassesInPlaintext(GetMessageRule(m.exchangeType, m.isRequest).value, m.payloads[j])
  }

  lemma {:induction false} PlainLoop(rule: MessageRule, tr: Transforms, m: Message, i: nat, k: nat)
    requires DecryptShrinks(tr)
    requires i <= k <= |m.payloads|
    requires forall j :: i <= j < k ==> PassesInPlaintext(rule, m.payloads[j])
    decreases k - i
    ensures DecryptLoop(rule, tr, m, i, PredecessorOf(i), false) ==
            DecryptLoop(rule, tr, m, k, PredecessorOf(k), false)
  {
    if i < k {
      assert PassesInPlaintext(rule, m.payloads[i]);
      PlainLoop(rule, tr, m, i + 1, k);
    }
  }

  lemma {:induction false} DecryptedLoop(rule: MessageRule, tr: Transforms, m: Message, i: nat)
    requires DecryptShrinks(tr)
    requires i <= |m.payloads|
    requires forall j :: i <= j < |m.payloads| ==> PassesDecrypted(rule, m.payloads[j])
    decreases |m.payloads| - i
    ensures DecryptLoop(rule, tr, m, i, Discarded, true) ==
            Returned(Verify(m.exchangeType, m.isRequest, m.payloads), m)
  {
    if i < |m.payloads| {
      assert PassesDecrypted(rule, m.payloads[i]);
      DecryptedLoop(rule, tr, m, i + 1);
    }
  }

  /** The loop reaches position `k` unchanged when it passes over the
      payloads before it. */
  lemma ReachesPosition(m: Message, tr: Transforms, k: nat)
    requires DecryptShrinks(tr)
    requires PlainPrefix(m, k)
    ensures DecryptAndVerifyPayloads(m, tr) ==
      DecryptLoop(GetMessageRule(m.exchangeType, m.isRequest).value, tr, m, k, PredecessorOf(k), false)
  {
    PlainLoop(GetMessageRule(m.exchangeType, m.isRequest).value, tr, m, 0, k);
  }

  /** A chain without an Encrypted payload whose every payload the rule
      lists as unencrypted ends in `verify`, unchanged. */
  lemma PlainChainEndsInVerify(m: Message, tr: Transforms)
    requires DecryptShrinks(tr)
    requires PlainPrefix(m, |m.payloads|)
    ensures DecryptAndVerifyPayloads(m, tr) == Returned(Verify(m.exchangeType, m.isRequest, m.payloads), m)
  {
    ReachesPosition(m, tr, |m.payloads|);
  }

  /** A reached payload whose type the rule does not list stops the loop
      with NOT_FOUND. */
  lemma UnlistedPayloadNotFound(m: Message, tr: Transforms, k: nat)
    requires DecryptShrinks(tr)
    requires PlainPrefix(m, k) && k < |m.payloads|
    requires m.payloads[k].payloadType != Encrypted
    requires GetSupportedPayloadEntry(GetMessageRule(m.exchangeType, m.isRequest).value, m.payloads[k].payloadType).Err?
    ensures DecryptAndVerifyPayloads(m, tr) == Returned(NotFound, m)
  {
    ReachesPosition(m, tr, k);
  }

  /** A reached plaintext payload that the rule says must be encrypted ends
      the loop with SUCCESS, and `verify` is never called. */
  lemma EncryptedFlagMismatchSkipsVerify(m: Message, tr: Transforms, k: nat)
    requires DecryptShrinks(tr)
    requires PlainPrefix(m, k) && k < |m.payloads|
    requires m.payloads[k].payloadType != Encrypted
    requires GetSupportedPayloadEntry(GetMessageRule(m.exchangeType, m.isRequest).value, m.payloads[k].payloadType).Ok?
    requires GetSupportedPayloadEntry(GetMessageRule(m.exchangeType, m.isRequest).value, m.payloads[k].payloadType).value.encrypted
    ensures DecryptAndVerifyPayloads(m, tr) == Returned(Success, m)
  {
    ReachesPosition(m, tr, k);
  }

  /** A concrete instance: an IKE_AUTH request carrying only an unencrypted
      IDi payload is accepted, although `verify` rejects that chain because
      AUTH, SA and the traffic selectors are missing. */
  lemma PlaintextIdInitiatorAccepted(m: Message, tr: Transforms)
    requires DecryptShrinks(tr)
    requires m.exchangeType == IkeAuth && m.isRequest
    requires |m.payloads| == 1 && m.payloads[0].payloadType == IdInitiator
    ensures DecryptAndVerifyPayloads(m, tr) == Returned(Success, m)
    ensures Verify(m.exchangeType, m.isRequest, m.payloads) == NotSupported
  {
    RuleTableCoverage(IkeAuth, true);
    var rule := GetMessageRule(IkeAuth, true).value;
    assert rule == MessageRuleTable[2] by {
      assert RuleMatches(MessageRuleTable[2], IkeAuth, true);
    }
    assert rule.supportedPayloads[0].payloadType == IdInitiator;
    EncryptedFlagMismatchSkipsVerify(m, tr, 0);
    VerifyRejectsIff(IkeAuth, true, m.payloads);
    CountOfSingle(m.payloads[0], Authentication);
    assert m.payloads == [m.payloads[0]];
    assert RejectedAt(rule.supportedPayloads, m.payloads, 4);
  }

  /** A reached Encrypted payload fails the loop when the rule forbids
      encrypted content or when it is not the last payload, whatever the
      signature and decryption would have said. */
  lemma MisplacedEncryptedFails(m: Message, tr: Transforms, k: nat)
    requires DecryptShrinks(tr)
    requires PlainPrefix(m, k) && k < |m.payloads|
    requires m.payloads[k].payloadType == Encrypted
    requires !GetMessageRule(m.exchangeType, m.isRequest).value.encryptedContent || k + 1 < |m.payloads|
    ensures DecryptAndVerifyPayloads(m, tr) == Returned(Failed, m)
  {
    ReachesPosition(m, tr, k);
  }

  /** The rules that admit encrypted content list only payloads that must
      arrive encrypted, so no payload passes in plaintext ahead of an
      Encrypted payload: a container the loop decrypts leads the chain. */
  lemma ContainerLeadsChain(m: Message, p: Payload)
    requires GetMessageRule(m.exchangeType, m.isRequest).Ok?
    requires GetMessageRule(m.exchangeType, m.isRequest).value.encryptedContent
    ensures !PassesInPlaintext(GetMessageRule(m.exchangeType, m.isRequest).value, p)
    ensures forall k :: 0 < k <= |m.payloads| ==> !PlainPrefix(m, k)
  {
    RuleTableCoverage(m.exchangeType, m.isRequest);
    var rule := GetMessageRule(m.exchangeType, m.isRequest).value;
    assert rule == MessageRuleTable[2] || rule == MessageRuleTable[3];
    assert forall e :: e in rule.supportedPayloads ==> e.encrypted;
    forall k | 0 < k <= |m.payloads|
      ensures !PlainPrefix(m, k)
    {
      assert !PassesInPlaintext(rule, m.payloads[0]);
    }
  }

  /** The signature is checked before decryption: a bad signature, or a
      failed decryption after a good one, ends the loop with that status and
      the message as received. */
  lemma SignatureBeforeDecryption(m: Message, tr: Transforms)
    requires DecryptShrinks(tr)
    requires |m.payloads| == 1 && m.payloads[0].payloadType == Encrypted
    requires GetMessageRule(m.exchangeType, m.isRequest).Ok?
    requires GetMessageRule(m.exchangeType, m.isRequest).value.encryptedContent
    ensures tr.verifySignature(m.payloads[0], m.packet.data) != Success ==>
      DecryptAndVerifyPayloads(m, tr) == Returned(tr.verifySignature(m.payloads[0], m.packet.data), m)
    ensures tr.verifySignature(m.payloads[0], m.packet.data) == Success && tr.decrypt(m.payloads[0]).Err? ==>
      DecryptAndVerifyPayloads(m, tr) == Returned(tr.decrypt(m.payloads[0]).status, m)
  {
  }

  /** An Encrypted payload that decrypts to nothing is removed, the
      first-payload field becomes NO_PAYLOAD, and the empty chain goes to
      `verify`. */
  lemma EmptyContainerRemoved(m: Message, tr: Transforms)
    requires DecryptShrinks(tr)
    requires |m.payloads| == 1 && m.payloads[0].payloadType == Encrypted
    requires GetMessageRule(m.exchangeType, m.isRequest).Ok?
    requires GetMessageRule(m.exchangeType, m.isRequest).value.encryptedContent
    requires tr.verifySignature(m.payloads[0], m.packet.data) == Success
    requires tr.decrypt(m.payloads[0]) == Ok([])
    ensures DecryptAndVerifyPayloads(m, tr) ==
      Returned(Verify(m.exchangeType, m.isRequest, []), m.(payloads := [], firstPayload := NoPayload))
  {
  }

  /** An Encrypted payload that decrypts to payloads the rule lists as
      encrypted is replaced by them, in order; the first-payload field names
      the first of them, and the spliced chain goes to `verify`. */
  lemma NonEmptyContainerSpliced(m: Message, tr: Transforms, inner: seq<Payload>)
    requires DecryptShrinks(tr)
    requires |m.payloads| == 1 && m.payloads[0].payloadType == Encrypted
    requires GetMessageRule(m.exchangeType, m.isRequest).Ok?
    requires GetMessageRule(m.exchangeType, m.isRequest).value.encryptedContent
    requires tr.verifySignature(m.payloads[0], m.packet.data) == Success
    requires tr.decrypt(m.payloads[0]) == Ok(inner) && |inner| > 0
    requires forall p :: p in inner ==> PassesDecrypted(GetMessageRule(m.exchangeType, m.isRequest).value, p)
    ensures DecryptAndVerifyPayloads(m, tr) ==
      Returned(Verify(m.exchangeType, m.isRequest, inner), m.(payloads := inner, firstPayload := inner[0].payloadType))
  {
    var rule := GetMessageRule(m.exchangeType, m.isRequest).value;
    var m' := m.(payloads := inner, firstPayload := inner[0].payloadType);
    assert m.payloads[..0] + inner == inner;
    assert inner[0] in inner;
    forall j | 1 <= j < |inner|
      ensures PassesDecrypted(rule, m'.payloads[j])
    {
      assert inner[j] in inner;
    }
    DecryptedLoop(rule, tr, m', 1);
  }

  lemma {:induction false} DecryptedPrefix(rule: MessageRule, tr: Transforms, m: Message, i: nat, last: Predecessor, k: nat)
    requires DecryptShrinks(tr)
    requires i <= k <= |m.payloads|
    requires last.At? ==> last.index < i
    requires forall j :: i <= j < k ==> PassesDecrypted(rule, m.payloads[j])
    decreases k - i
    ensures DecryptLoop(rule, tr, m, i, last, true) ==
            DecryptLoop(rule, tr, m, k, if k == i then last else At(k - 1), true)
  {
    if i < k {
      assert PassesDecrypted(rule, m.payloads[i]);
      DecryptedPrefix(rule, tr, m, i + 1, At(i), k);
    }
  }

  /** Under a rule with encrypted content, a decrypted payload that is not
      Encrypted passes exactly when the rule lists its type. */
  lemma EncryptedRuleEntries(m: Message, t: PayloadType)
    requires GetMessageRule(m.exchangeType, m.isRequest).Ok?
    requires GetMessageRule(m.exchangeType, m.isRequest).value.encryptedContent
    ensures GetSupportedPayloadEntry(GetMessageRule(m.exchangeType, m.isRequest).value, Encrypted).Err?
    ensures EntryCheck(GetMessageRule(m.exchangeType, m.isRequest).value, t, true) != Some(Success)
  {
    RuleTableCoverage(m.exchangeType, m.isRequest);
    var rule := GetMessageRule(m.exchangeType, m.isRequest).value;
    assert rule == MessageRuleTable[2] || rule == MessageRuleTable[3];
    assert forall e :: e in rule.supportedPayloads ==> e.encrypted && e.payloadType != Encrypted;
  }

  /** The splice of a container's payloads: the message after the container
      at the head of the chain is replaced by `inner`, and the check goes on
      behind the first inner payload, unless that one is refused. */
  lemma SpliceStep(m: Message, tr: Transforms, inner: seq<Payload>)
    requires DecryptShrinks(tr)
    requires |m.payloads| == 1 && m.payloads[0].payloadType == Encrypted
    requires GetMessageRule(m.exchangeType, m.isRequest).Ok?
    requires GetMessageRule(m.exchangeType, m.isRequest).value.encryptedContent
    requires tr.verifySignature(m.payloads[0], m.packet.data) == Success
    requires tr.decrypt(m.payloads[0]) == Ok(inner) && |inner| > 0
    ensures var rule := GetMessageRule(m.exchangeType, m.isRequest).value;
      var m' := m.(payloads := inner, firstPayload := inner[0].payloadType);
      DecryptAndVerifyPayloads(m, tr) ==
        match EntryCheck(rule, inner[0].payloadType, true)
        case Some(s) => Returned(s, m')
        case None => DecryptLoop(rule, tr, m', 1, Discarded, true)
  {
    assert m.payloads[..0] + inner == inner;
  }

  /** Under a rule with encrypted content, the first decrypted payload the
      check refuses, if it is not a nested Encrypted payload behind the
      first, ends the pass with NOT_FOUND, the chain already spliced. */
  lemma RefusedInnerPayloadNotFound(m: Message, tr: Transforms, inner: seq<Payload>, k: nat)
    requires DecryptShrinks(tr)
    requires |m.payloads| == 1 && m.payloads[0].payloadType == Encrypted
    requires GetMessageRule(m.exchangeType, m.isRequest).Ok?
    requires GetMessageRule(m.exchangeType, m.isRequest).value.encryptedContent
    requires tr.verifySignature(m.payloads[0], m.packet.data) == Success
    requires tr.decrypt(m.payloads[0]) == Ok(inner)
    requires k < |inner|
    requires forall j :: 0 <= j < k ==> PassesDecrypted(GetMessageRule(m.exchangeType, m.isRequest).value, inner[j])
    requires !PassesDecrypted(GetMessageRule(m.exchangeType, m.isRequest).value, inner[k])
    requires k == 0 || inner[k].payloadType != Encrypted
    ensures DecryptAndVerifyPayloads(m, tr) ==
      Returned(NotFound, m.(payloads := inner, firstPayload := inner[0].payloadType))
  {
    var rule := GetMessageRule(m.exchangeType, m.isRequest).value;
    var m' := m.(payloads := inner, firstPayload := inner[0].payloadType);
    SpliceStep(m, tr, inner);
    EncryptedRuleEntries(m, inner[k].payloadType);
    if k > 0 {
      assert PassesDecrypted(rule, inner[0]);
      DecryptedPrefix(rule, tr, m', 1, Discarded, k);
    }
  }

  /** A decrypted Encrypted payload that is neither the first nor the last
      of the container's payloads fails the pass, the chain already
      spliced. */
  lemma MisplacedInnerEncryptedFails(m: Message, tr: Transforms, inner: seq<Payload>, k: nat)
    requires DecryptShrinks(tr)
    requires |m.payloads| == 1 && m.payloads[0].payloadType == Encrypted
    requires GetMessageRule(m.exchangeType, m.isRequest).Ok?
    requires GetMessageRule(m.exchangeType, m.isRequest).value.encryptedContent
    requires tr.verifySignature(m.payloads[0], m.packet.data) == Success
    requires tr.decrypt(m.payloads[0]) == Ok(inner)
    requires 0 < k && k + 1 < |inner| && inner[k].payloadType == Encrypted
    requires forall j :: 0 <= j < k ==> PassesDecrypted(GetMessageRule(m.exchangeType, m.isRequest).value, inner[j])
    ensures DecryptAndVerifyPayloads(m, tr) ==
      Returned(Failed, m.(payloads := inner, firstPayload := inner[0].payloadType))
  {
    var rule := GetMessageRule(m.exchangeType, m.isRequest).value;
    var m' := m.(payloads := inner, firstPayload := inner[0].payloadType);
    SpliceStep(m, tr, inner);
    assert PassesDecrypted(rule, inner[0]);
    DecryptedPrefix(rule, tr, m', 1, Discarded, k);
  }
}
