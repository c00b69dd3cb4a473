/** `encrypt_payloads` of message.c: drains the chain and routes every
    payload either into the Encrypted payload or, by the code as written,
    to a call that adds the Encrypted payload itself. */
module MessageEncrypt {
  import opened IkeTypes
  import opened Payloads
  import opened MessageRules
  import opened Messages

  /** The rule demands encryption of this payload; payload types the rule
      does not list are treated as not needing it. */
  predicate ToEncrypt(rule: MessageRule, p: Payload)
  {
    match GetSupportedPayloadEntry(rule, p.payloadType)
    case Ok(entry) => entry.encrypted
    case Err(_) => false
  }

  /** The payloads of `ps` that must be encrypted, in their original order. */
  function EncryptedPart(rule: MessageRule, ps: seq<Payload>): (r: seq<Payload>)
    ensures |r| <= |ps|
    ensures forall p :: p in r ==> p in ps && ToEncrypt(rule, p)
    ensures forall p :: p in ps && ToEncrypt(rule, p) ==> p in r
  {
    if |ps| == 0 then []
    else (if ToEncrypt(rule, ps[0]) then [ps[0]] else []) + EncryptedPart(rule, ps[1..])
  }

  /** Each payload needing encryption is collected as often as it occurs in
      the chain, and no other payload is collected. */
  lemma {:induction false} EncryptedPartCounts(rule: MessageRule, ps: seq<Payload>)
    ensures forall p :: multiset(EncryptedPart(rule, ps))[p] == if ToEncrypt(rule, p) then multiset(ps)[p] else 0
  {
    if |ps| > 0 {
      EncryptedPartCounts(rule, ps[1..]);
      assert ps == [ps[0]] + ps[1..];
      assert multiset(ps) == multiset([ps[0]]) + multiset(ps[1..]);
    }
  }

  /** Collecting distributes over concatenation, so the collected payloads
      keep the order they had in the chain. */
  lemma {:induction false} EncryptedPartAppend(rule: MessageRule, front: seq<Payload>, back: seq<Payload>)
    decreases |front|
    ensures EncryptedPart(rule, front + back) == EncryptedPart(rule, front) + EncryptedPart(rule, back)
  {
    if |front| == 0 {
      assert front + back == back;
    } else {
      var head := if ToEncrypt(rule, front[0]) then [front[0]] else [];
      assert (front + back)[0] == front[0];
      assert (front + back)[1..] == front[1..] + back;
      assert EncryptedPart(rule, front + back) == head + EncryptedPart(rule, front[1..] + back);
      EncryptedPartAppend(rule, front[1..], back);
      assert EncryptedPart(rule, front) == head + EncryptedPart(rule, front[1..]);
    }
  }

  /** The routing loop of `encrypt_payloads` over the drained payloads
      `pending`. `contents` is what the Encrypted payload holds so far (it
      exists once it holds something) and `refs` counts how often the
      plaintext branch has added it to the chain. None: the plaintext branch
      ran before the Encrypted payload existed and passed NULL on. */
  function Route(rule: MessageRule, pending: seq<Payload>, contents: seq<Payload>, refs: nat): Option<(seq<Payload>, nat)>
    decreases |pending|
  {
    if |pending| == 0 then Some((contents, refs))
    else if ToEncrypt(rule, pending[0]) then Route(rule, pending[1..], contents + [pending[0]], refs)
    else if |contents| == 0 then None
    else Route(rule, pending[1..], contents, refs + 1)
  }

  /** Once the Encrypted payload exists, routing never fails: it collects
      exactly the payloads that must be encrypted, in order, and adds itself
      once for every other payload. */
  lemma {:induction false} RouteWithContainer(rule: MessageRule, pending: seq<Payload>, contents: seq<Payload>, refs: nat)
    requires |contents| > 0
    decreases |pending|
    ensures Route(rule, pending, contents, refs) ==
      Some((contents + EncryptedPart(rule, pending), refs + |pending| - |EncryptedPart(rule, pending)|))
  {
    if |pending| == 0 {
      assert contents + [] == contents;
    } else {
      var p := pending[0];
      var tail := EncryptedPart(rule, pending[1..]);
      if ToEncrypt(rule, p) {
        RouteWithContainer(rule, pending[1..], contents + [p], refs);
        assert EncryptedPart(rule, pending) == [p] + tail;
        assert (contents + [p]) + tail == contents + ([p] + tail);
      } else {
        RouteWithContainer(rule, pending[1..], contents, refs + 1);
        assert EncryptedPart(rule, pending) == [] + tail;
        assert [] + tail == tail;
      }
    }
  }

  /** Routing from the start: NULL is passed on exactly when the first
      payload does not need encryption; otherwise the Encrypted payload
      collects the payloads needing encryption and is added once per other
      payload. */
  lemma RouteFromStart(rule: MessageRule, ps: seq<Payload>)
    ensures Route(rule, ps, [], 0).None? <==> |ps| > 0 && !ToEncrypt(rule, ps[0])
    ensures Route(rule, ps, [], 0).Some? ==>
      Route(rule, ps, [], 0).value == (EncryptedPart(rule, ps), |ps| - |EncryptedPart(rule, ps)|)
  {
    if |ps| > 0 && ToEncrypt(rule, ps[0]) {
      assert [] + [ps[0]] == [ps[0]];
      RouteWithContainer(rule, ps[1..], [ps[0]], 0);
      assert EncryptedPart(rule, ps) == [ps[0]] + EncryptedPart(rule, ps[1..]);
    }
  }

  /** `encrypt_payloads`. */
  function EncryptPayloads(m: Message, tr: Transforms): (r: Outcome)
    ensures GetMessageRule(m.exchangeType, m.isRequest).Err? ==> r == Returned(NotFound, m)
    ensures (GetMessageRule(m.exchangeType, m.isRequest).Ok? &&
             !GetMessageRule(m.exchangeType, m.isRequest).value.encryptedContent) ==> r == Returned(Success, m)
    ensures r.NullDereference? <==>
      && GetMessageRule(m.exchangeType, m.isRequest).Ok?
      && GetMessageRule(m.exchangeType, m.isRequest).value.encryptedContent
      && |m.payloads| > 0
      && !ToEncrypt(GetMessageRule(m.exchangeType, m.isRequest).value, m.payloads[0])
    ensures r.Returned? ==>
      r.message == m.(payloads := r.message.payloads, firstPayload := r.message.firstPayload)
    ensures GetMessageRule(m.exchangeType, m.isRequest).Ok? && |m.payloads| == 0 ==> r == Returned(Success, m)
    ensures (r.Returned? && GetMessageRule(m.exchangeType, m.isRequest).Ok? &&
             GetMessageRule(m.exchangeType, m.isRequest).value.encryptedContent && |m.payloads| > 0) ==>
      var rule := GetMessageRule(m.exchangeType, m.isRequest).value;
      var sealed := tr.encrypt(EncryptedPart(rule, m.payloads));
      && r.status == sealed.status
      && r.message.firstPayload == Encrypted
      && |r.message.payloads| == |m.payloads| - |EncryptedPart(rule, m.payloads)| + 1
      && forall i :: 0 <= i < |r.message.payloads| ==>
           r.message.payloads[i] == Payload(Encrypted, NoPayload, sealed.bytes)
  {
    match GetMessageRule(m.exchangeType, m.isRequest)
    case Err(s) => Returned(s, m)
    case Ok(rule) =>
      if !rule.encryptedContent then Returned(Success, m)
      else
        RouteFromStart(rule, m.payloads);
        match Route(rule, m.payloads, [], 0)
        case None => NullDereference
        case Some((contents, refs)) =>
          if |contents| == 0 then Returned(Success, m.(payloads := []))
          else
            var sealed := tr.encrypt(contents);
            var container := Payload(Encrypted, NoPayload, sealed.bytes);
            Returned(sealed.status, m.(firstPayload := Encrypted, payloads := seq(refs + 1, _ => container)))
  }

  /** The plaintext branch of `encrypt_payloads` does not put back the
      payload it is handling: after a pass that does not fault, every
      payload left in the chain is the Encrypted payload, so a payload that
      needs no encryption has left the message. */
  lemma PlaintextPayloadsDropped(m: Message, tr: Transforms, p: Payload)
    requires GetMessageRule(m.exchangeType, m.isRequest).Ok?
    requires GetMessageRule(m.exchangeType, m.isRequest).value.encryptedContent
    requires p in m.payloads && p.payloadType != Encrypted
    requires !ToEncrypt(GetMessageRule(m.exchangeType, m.isRequest).value, p)
    ensures EncryptPayloads(m, tr).Returned? ==>
      && p !in EncryptPayloads(m, tr).message.payloads
      && p !in EncryptedPart(GetMessageRule(m.exchangeType, m.isRequest).value, m.payloads)
  {
  }

  /** An IKE_AUTH message whose first payload is one its rule does not list
      reaches the plaintext branch before any Encrypted payload exists. */
  lemma UnlistedFirstPayloadDereferencesNull(m: Message, tr: Transforms)
    requires m.exchangeType == IkeAuth
    requires |m.payloads| > 0 && m.payloads[0].payloadType == VendorId
    ensures EncryptPayloads(m, tr) == NullDereference
  {
    RuleTableCoverage(IkeAuth, m.isRequest);
    var rule := GetMessageRule(IkeAuth, m.isRequest).value;
    assert GetSupportedPayloadEntry(rule, VendorId).Err? by {
      assert rule == MessageRuleTable[2] || rule == MessageRuleTable[3];
    }
  }
}
