/** The structural check `verify` of message.c: payload counts against the
    message rule, entry by entry in table order, with the early exit at an
    entry marked `canBeLast`. */
module MessageVerify {
  import opened IkeTypes
  import opened Payloads
  import opened MessageRules

  /** The inner scan of `verify` for one entry: walks the rest of the chain
      counting payloads of the entry's type and gives up (None) as soon as
      the running count passes the entry's maximum. */
  function ScanEntry(rest: seq<Payload>, entry: SupportedPayloadEntry, found: nat): (r: Option<nat>)
    requires found <= entry.maxOccurrence
    decreases |rest|
    ensures r.None? <==> found + CountOf(rest, entry.payloadType) > entry.maxOccurrence
    ensures r.Some? ==> r.value == found + CountOf(rest, entry.payloadType)
  {
    if |rest| == 0 then Some(found)
    else if rest[0].payloadType == entry.payloadType then
      if found + 1 > entry.maxOccurrence then None
      else ScanEntry(rest[1..], entry, found + 1)
    else ScanEntry(rest[1..], entry, found)
  }

  /** The outer loop of `verify` from entry `i` on, `total` being the
      number of payloads matched by the entries before `i`. */
  function VerifyEntries(entries: seq<SupportedPayloadEntry>, chain: seq<Payload>, i: nat, total: nat): (r: Status)
    requires i <= |entries|
    decreases |entries| - i
    ensures r == Success || r == NotSupported
  {
    if i == |entries| then Success
    else
      var entry := entries[i];
      match ScanEntry(chain, entry, 0)
      case None => NotSupported
      case Some(found) =>
        if found < entry.minOccurrence then NotSupported
        else if entry.canBeLast && |chain| == total + found then Success
        else VerifyEntries(entries, chain, i + 1, total + found)
  }

  /** `verify`: NOT_FOUND without a rule, otherwise the verdict of the
      entry loop. */
  function Verify(exchangeType: ExchangeType, isRequest: bool, chain: seq<Payload>): (r: Status)
    ensures r == NotFound <==> GetMessageRule(exchangeType, isRequest).Err?
    ensures r == Success || r == NotSupported || r == NotFound
  {
    match GetMessageRule(exchangeType, isRequest)
    case Err(s) => s
    case Ok(rule) => VerifyEntries(rule.supportedPayloads, chain, 0, 0)
  }

  // Reference definitions of what `verify` decides.

  /** Payloads matched by the first `k` entries. */
  function Cumulative(entries: seq<SupportedPayloadEntry>, chain: seq<Payload>, k: nat): nat
    requires k <= |entries|
  {
    if k == 0 then 0
    else Cumulative(entries, chain, k - 1) + CountOf(chain, entries[k - 1].payloadType)
  }

  /** The chain holds too few or too many payloads of the entry's type. */
  predicate OutOfBounds(entry: SupportedPayloadEntry, chain: seq<Payload>)
  {
    CountOf(chain, entry.payloadType) < entry.minOccurrence ||
    CountOf(chain, entry.payloadType) > entry.maxOccurrence
  }

  /** Entry `k` may end the scan and the entries up to it account for
      every payload of the chain. */
  predicate StopsAfter(entries: seq<SupportedPayloadEntry>, chain: seq<Payload>, k: nat)
    requires k < |entries|
  {
    entries[k].canBeLast && Cumulative(entries, chain, k + 1) == |chain|
  }

  /** Entry `j` is out of bounds and no earlier entry ended the scan. */
  predicate RejectedAt(entries: seq<SupportedPayloadEntry>, chain: seq<Payload>, j: nat)
    requires j < |entries|
  {
    && OutOfBounds(entries[j], chain)
    && forall k :: 0 <= k < j ==> !StopsAfter(entries, chain, k)
  }

  lemma {:induction false} VerifyEntriesMeaning(entries: seq<SupportedPayloadEntry>, chain: seq<Payload>, i: nat)
    requires i <= |entries|
    requires forall k :: 0 <= k < i ==> !OutOfBounds(entries[k], chain) && !StopsAfter(entries, chain, k)
    decreases |entries| - i
    ensures VerifyEntries(entries, chain, i, Cumulative(entries, chain, i)) == NotSupported <==>
      exists j :: i <= j < |entries| && RejectedAt(entries, chain, j)
  {
    if i < |entries| {
      var entry := entries[i];
      var count := CountOf(chain, entry.payloadType);
      assert Cumulative(entries, chain, i + 1) == Cumulative(entries, chain, i) + count;
      if OutOfBounds(entry, chain) {
        assert RejectedAt(entries, chain, i);
      } else if StopsAfter(entries, chain, i) {
        forall j | i <= j < |entries|
          ensures !RejectedAt(entries, chain, j)
        {
          if j > i {
            assert StopsAfter(entries, chain, i);
          }
        }
      } else {
        VerifyEntriesMeaning(entries, chain, i + 1);
        if exists j :: i <= j < |entries| && RejectedAt(entries, chain, j) {
          var j :| i <= j < |entries| && RejectedAt(entries, chain, j);
          assert j != i;
        }
      }
    }
  }

  /** `verify` rejects a chain exactly when some entry, reached in table
      order without an earlier early exit, is out of bounds; it never
      answers anything but SUCCESS, NOT_SUPPORTED or NOT_FOUND. */
  lemma VerifyRejectsIff(exchangeType: ExchangeType, isRequest: bool, chain: seq<Payload>)
    ensures Verify(exchangeType, isRequest, chain) == NotSupported <==>
      && GetMessageRule(exchangeType, isRequest).Ok?
      && var entries := GetMessageRule(exchangeType, isRequest).value.supportedPayloads;
         exists j :: 0 <= j < |entries| && RejectedAt(entries, chain, j)
    ensures Verify(exchangeType, isRequest, chain) == Success <==>
      && GetMessageRule(exchangeType, isRequest).Ok?
      && var entries := GetMessageRule(exchangeType, isRequest).value.supportedPayloads;
         forall j :: 0 <= j < |entries| ==> !RejectedAt(entries, chain, j)
  {
    if GetMessageRule(exchangeType, isRequest).Ok? {
      VerifyEntriesMeaning(GetMessageRule(exchangeType, isRequest).value.supportedPayloads, chain, 0);
    }
  }

  /** `verify` never rejects payload types absent from the rule: when every
      entry's count is within bounds the chain passes, whatever else it holds. */
  lemma VerifyAcceptsWithinBounds(exchangeType: ExchangeType, isRequest: bool, chain: seq<Payload>)
    requires GetMessageRule(exchangeType, isRequest).Ok?
    requires forall e :: e in GetMessageRule(exchangeType, isRequest).value.supportedPayloads ==> !OutOfBounds(e, chain)
    ensures Verify(exchangeType, isRequest, chain) == Success
  {
    VerifyRejectsIff(exchangeType, isRequest, chain);
    var entries := GetMessageRule(exchangeType, isRequest).value.supportedPayloads;
    forall j | 0 <= j < |entries|
      ensures !RejectedAt(entries, chain, j)
    {
      assert entries[j] in entries;
    }
  }

  /** The early exit: once an entry marked `canBeLast` is reached within
      bounds and accounts for the whole chain, the later entries' bounds
      are never checked. */
  lemma VerifyEarlyExit(exchangeType: ExchangeType, isRequest: bool, chain: seq<Payload>, k: nat)
    requires GetMessageRule(exchangeType, isRequest).Ok?
    requires k < |GetMessageRule(exchangeType, isRequest).value.supportedPayloads|
    requires StopsAfter(GetMessageRule(exchangeType, isRequest).value.supportedPayloads, chain, k)
    requires forall j :: 0 <= j <= k ==> !OutOfBounds(GetMessageRule(exchangeType, isRequest).value.supportedPayloads[j], chain)
    ensures Verify(exchangeType, isRequest, chain) == Success
  {
    VerifyRejectsIff(exchangeType, isRequest, chain);
    var entries := GetMessageRule(exchangeType, isRequest).value.supportedPayloads;
    forall j | 0 <= j < |entries|
      ensures !RejectedAt(entries, chain, j)
    {
      if j > k {
        assert StopsAfter(entries, chain, k);
      }
    }
  }

  /** An IKE_SA_INIT or IKE_AUTH response holding one NOTIFY and nothing
      else, or nothing at all, passes `verify`: NOTIFY is the first entry of
      both response rules and may end the scan. */
  lemma NotifyOnlyResponsesPass(body: Bytes, next: PayloadType)
    ensures Verify(IkeSaInit, false, [Payload(Notify, next, body)]) == Success
    ensures Verify(IkeAuth, false, [Payload(Notify, next, body)]) == Success
    ensures Verify(IkeSaInit, false, []) == Success
    ensures Verify(IkeAuth, false, []) == Success
  {
    var notify := [Payload(Notify, next, body)];
    RuleTableCoverage(IkeSaInit, false);
    RuleTableCoverage(IkeAuth, false);
    assert CountOf(notify, Notify) == 1;
    assert Cumulative(IkeSaInitResponderPayloads, notify, 1) == 1;
    VerifyEarlyExit(IkeSaInit, false, notify, 0);
    VerifyEarlyExit(IkeAuth, false, notify, 0);
    VerifyEarlyExit(IkeSaInit, false, [], 0);
    VerifyEarlyExit(IkeAuth, false, [], 0);
  }

  /** An IKE_SA_INIT request missing its NONCE, or carrying two KEY_EXCHANGE
      payloads, is rejected. */
  lemma IkeSaInitRequestBounds(sa: Payload, ke: Payload, nonce: Payload)
    requires sa.payloadType == SecurityAssociation
    requires ke.payloadType == KeyExchange
    requires nonce.payloadType == Nonce
    ensures Verify(IkeSaInit, true, [sa, ke]) == NotSupported
    ensures Verify(IkeSaInit, true, [sa, ke, ke, nonce]) == NotSupported
    ensures Verify(IkeSaInit, true, [sa, ke, nonce]) == Success
  {
    RuleTableCoverage(IkeSaInit, true);
    assert GetMessageRule(IkeSaInit, true).value == MessageRuleTable[0] by {
      assert RuleMatches(MessageRuleTable[0], IkeSaInit, true);
    }
    var short, twice, good := [sa, ke], [sa, ke, ke, nonce], [sa, ke, nonce];
    assert short == [sa] + [ke];
    assert twice == [sa] + [ke] + [ke] + [nonce];
    assert good == [sa] + [ke] + [nonce];
    var types := [SecurityAssociation, KeyExchange, Nonce];
    forall t | t in types
      ensures CountOf(short, t) == CountOf([sa], t) + CountOf([ke], t)
      ensures CountOf(good, t) == CountOf([sa], t) + CountOf([ke], t) + CountOf([nonce], t)
      ensures CountOf(twice, t) == CountOf([sa], t) + 2 * CountOf([ke], t) + CountOf([nonce], t)
      ensures CountOf([sa], t) == (if t == SecurityAssociation then 1 else 0)
      ensures CountOf([ke], t) == (if t == KeyExchange then 1 else 0)
      ensures CountOf([nonce], t) == (if t == Nonce then 1 else 0)
    {
      CountOfSingle(sa, t);
      CountOfSingle(ke, t);
      CountOfSingle(nonce, t);
      CountOfAppend([sa], [ke], t);
      CountOfAppend([sa] + [ke], [ke], t);
      CountOfAppend([sa] + [ke], [nonce], t);
      CountOfAppend([sa] + [ke] + [ke], [nonce], t);
    }
    assert Nonce in types && KeyExchange in types && SecurityAssociation in types;
    VerifyRejectsIff(IkeSaInit, true, short);
    VerifyRejectsIff(IkeSaInit, true, twice);
    assert RejectedAt(IkeSaInitInitiatorPayloads, short, 2);
    assert RejectedAt(IkeSaInitInitiatorPayloads, twice, 1);
    VerifyAcceptsWithinBounds(IkeSaInit, true, [sa, ke, nonce]);
  }
}
