/** The constant message rule table of message.c: for each exchange type and
    direction, which payloads may appear, how often, whether they travel
    inside the Encrypted payload, and where verification may stop early. */
module MessageRules {
  import opened IkeTypes
  import opened Payloads

  datatype SupportedPayloadEntry = SupportedPayloadEntry(
    payloadType: PayloadType,
    minOccurrence: nat,
    maxOccurrence: nat,
    encrypted: bool,
    canBeLast: bool)

  datatype MessageRule = MessageRule(
    exchangeType: ExchangeType,
    isRequest: bool,
    encryptedContent: bool,
    supportedPayloads: seq<SupportedPayloadEntry>)

  const IkeSaInitInitiatorPayloads: seq<SupportedPayloadEntry> := [
    SupportedPayloadEntry(SecurityAssociation, 1, 1, false, false),
    SupportedPayloadEntry(KeyExchange, 1, 1, false, false),
    SupportedPayloadEntry(Nonce, 1, 1, false, false)
  ]

  const IkeSaInitResponderPayloads: seq<SupportedPayloadEntry> := [
    SupportedPayloadEntry(Notify, 0, 1, false, true),
    SupportedPayloadEntry(SecurityAssociation, 1, 1, false, false),
    SupportedPayloadEntry(KeyExchange, 1, 1, false, false),
    SupportedPayloadEntry(Nonce, 1, 1, false, false)
  ]

  const IkeAuthInitiatorPayloads: seq<SupportedPayloadEntry> := [
    SupportedPayloadEntry(IdInitiator, 1, 1, true, false),
    SupportedPayloadEntry(Certificate, 0, 1, true, false),
    SupportedPayloadEntry(CertificateRequest, 0, 1, true, false),
    SupportedPayloadEntry(IdResponder, 0, 1, true, false),
    SupportedPayloadEntry(Authentication, 1, 1, true, false),
    SupportedPayloadEntry(SecurityAssociation, 1, 1, true, false),
    SupportedPayloadEntry(TrafficSelectorInitiator, 1, 1, true, false),
    SupportedPayloadEntry(TrafficSelectorResponder, 1, 1, true, false)
  ]

  const IkeAuthResponderPayloads: seq<SupportedPayloadEntry> := [
    SupportedPayloadEntry(Notify, 0, 1, true, true),
    SupportedPayloadEntry(Certificate, 0, 1, true, false),
    SupportedPayloadEntry(IdResponder, 1, 1, true, false),
    SupportedPayloadEntry(Authentication, 1, 1, true, false),
    SupportedPayloadEntry(SecurityAssociation, 1, 1, true, false),
    SupportedPayloadEntry(TrafficSelectorInitiator, 1, 1, true, false),
    SupportedPayloadEntry(TrafficSelectorResponder, 1, 1, true, false)
  ]

  const MessageRuleTable: seq<MessageRule> := [
    MessageRule(IkeSaInit, true, false, IkeSaInitInitiatorPayloads),
    MessageRule(IkeSaInit, false, false, IkeSaInitResponderPayloads),
    MessageRule(IkeAuth, true, true, IkeAuthInitiatorPayloads),
    MessageRule(IkeAuth, false, true, IkeAuthResponderPayloads)
  ]

  predicate RuleMatches(rule: MessageRule, exchangeType: ExchangeType, isRequest: bool)
  {
    rule.exchangeType == exchangeType && rule.isRequest == isRequest
  }

  /** Index of the first rule at or after `from` that matches. */
  function FindRule(exchangeType: ExchangeType, isRequest: bool, from: nat): (r: Option<nat>)
    requires from <= |MessageRuleTable|
    decreases |MessageRuleTable| - from
    ensures r.Some? ==>
      && from <= r.value < |MessageRuleTable|
      && RuleMatches(MessageRuleTable[r.value], exchangeType, isRequest)
      && forall j :: from <= j < r.value ==> !RuleMatches(MessageRuleTable[j], exchangeType, isRequest)
    ensures r.None? ==>
      forall j :: from <= j < |MessageRuleTable| ==> !RuleMatches(MessageRuleTable[j], exchangeType, isRequest)
  {
    if from == |MessageRuleTable| then None
    else if RuleMatches(MessageRuleTable[from], exchangeType, isRequest) then Some(from)
    else FindRule(exchangeType, isRequest, from + 1)
  }

  /** `get_message_rule`: the first table rule for this exchange type and
      direction, or NOT_FOUND. */
  function GetMessageRule(exchangeType: ExchangeType, isRequest: bool): (r: Result<MessageRule>)
    ensures r.Ok? <==>
      exists i :: 0 <= i < |MessageRuleTable| && RuleMatches(MessageRuleTable[i], exchangeType, isRequest)
    ensures r.Ok? ==>
      exists i :: && 0 <= i < |MessageRuleTable|
                  && MessageRuleTable[i] == r.value
                  && RuleMatches(r.value, exchangeType, isRequest)
                  && forall j :: 0 <= j < i ==> !RuleMatches(MessageRuleTable[j], exchangeType, isRequest)
    ensures r.Err? ==> r.status == NotFound
  {
    match FindRule(exchangeType, isRequest, 0)
    case Some(i) => Ok(MessageRuleTable[i])
    case None => Err(NotFound)
  }

  /** Index of the first entry at or after `from` for payload type `t`. */
  function FindEntry(entries: seq<SupportedPayloadEntry>, t: PayloadType, from: nat): (r: Option<nat>)
    requires from <= |entries|
    decreases |entries| - from
    ensures r.Some? ==>
      && from <= r.value < |entries|
      && entries[r.value].payloadType == t
      && forall j :: from <= j < r.value ==> entries[j].payloadType != t
    ensures r.None? ==> forall j :: from <= j < |entries| ==> entries[j].payloadType != t
  {
    if from == |entries| then None
    else if entries[from].payloadType == t then Some(from)
    else FindEntry(entries, t, from + 1)
  }

  /** `get_supported_payload_entry`: the first entry of the rule for payload
      type `t`, or NOT_FOUND. */
  function GetSupportedPayloadEntry(rule: MessageRule, t: PayloadType): (r: Result<SupportedPayloadEntry>)
    ensures r.Ok? <==>
      exists i :: 0 <= i < |rule.supportedPayloads| && rule.supportedPayloads[i].payloadType == t
    ensures r.Ok? ==>
      exists i :: && 0 <= i < |rule.supportedPayloads|
                  && rule.supportedPayloads[i] == r.value
                  && r.value.payloadType == t
                  && forall j :: 0 <= j < i ==> rule.supportedPayloads[j].payloadType != t
    ensures r.Err? ==> r.status == NotFound
  {
    match FindEntry(rule.supportedPayloads, t, 0)
    case Some(i) => Ok(rule.supportedPayloads[i])
    case None => Err(NotFound)
  }

  /** The four rules of the table answer exactly the IKE_SA_INIT and
      IKE_AUTH requests and responses; every other exchange has no rule. */
  lemma RuleTableCoverage(exchangeType: ExchangeType, isRequest: bool)
    ensures GetMessageRule(exchangeType, isRequest).Ok? <==>
      exchangeType == IkeSaInit || exchangeType == IkeAuth
    ensures GetMessageRule(exchangeType, isRequest).Ok? ==>
      (GetMessageRule(exchangeType, isRequest).value.encryptedContent <==> exchangeType == IkeAuth)
    ensures GetMessageRule(IkeSaInit, false).Ok? &&
      GetMessageRule(IkeSaInit, false).value.supportedPayloads == IkeSaInitResponderPayloads
    ensures GetMessageRule(IkeAuth, false).Ok? &&
      GetMessageRule(IkeAuth, false).value.supportedPayloads == IkeAuthResponderPayloads
  {
    var r := GetMessageRule(exchangeType, isRequest);
    if exchangeType == IkeSaInit || exchangeType == IkeAuth {
      var i := if exchangeType == IkeSaInit then (if isRequest then 0 else 1)
               else (if isRequest then 2 else 3);
      assert RuleMatches(MessageRuleTable[i], exchangeType, isRequest);
    }
    assert RuleMatches(MessageRuleTable[1], IkeSaInit, false);
    assert RuleMatches(MessageRuleTable[3], IkeAuth, false);
  }
}
