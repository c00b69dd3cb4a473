# IKEv2 message engine and public-key authenticator, modelled in Dafny

This project models two parts of an IKEv2 daemon and proves properties of
them.

- **The message engine** (`Source/charon/encoding/message.c`). An IKEv2
  message is a fixed header (section 3.1 of RFC 7296) followed by a chain of
  payloads. Each payload names the type of the next one (section 3.2). The
  engine keeps the chain linked while payloads are added. It checks a chain
  against a constant rule table of payload counts per exchange type and
  direction. On output it moves the payloads that must be protected into an
  Encrypted payload (section 3.14) and serialises the chain. On input it
  walks the chain, checks the signature, decrypts, splices the inner
  payloads into the chain and checks the result against the rules.
- **The public-key authenticator**
  (`src/libcharon/sa/ikev2/authenticators/pubkey_authenticator.c`). The
  builder selects a signature scheme: the configured schemes first, then
  auto-negotiation under RFC 7427, then the fixed methods of RFC 7296 and
  RFC 4754. It signs the AUTH octets and adds an AUTH payload. The verifier
  maps the AUTH method back to a key type and scheme, and tries the peer's
  trusted public keys in order. The RFC 7427 authentication data
  (length octet, AlgorithmIdentifier, signature) is built and parsed here.

Everything is pure functions over immutable datatypes. The payload chain is
a `seq<Payload>`; a payload is a record of its type, its next-type link and
an opaque body. Collaborators whose code is not part of this model are
records of functions passed in by the caller:

- the byte parser and generator;
- the crypter and signer behind the Encrypted payload;
- the OID tables and ASN.1 coding;
- the credential manager, key material and keys.

Where the source dereferences a NULL pointer, the model returns an explicit
`NullDereference` outcome.

Files:

- `ike_types.dfy`: octets, status codes, `Option`, `Result`.
- `payloads.dfy`: payload and exchange type codes of RFC 7296, and the chain helpers: links, counts, relinking.
- `message_rules.dfy`: the rule table and its two lookups.
- `message_verify.dfy`: `verify`, with an independent characterisation.
- `messages.dfy`: the message record, its constructors and `add_payload`.
- `message_encrypt.dfy`: `encrypt_payloads`.
- `message_generate.dfy`: `generate`.
- `message_decrypt.dfy`: `decrypt_and_verify_payloads`.
- `message_parse.dfy`: `parse_header`, `parse_body`, and generate-then-parse.
- `signature_auth_data.dfy`: the RFC 7427 authentication data.
- `pubkey_authenticator.dfy`: scheme selection, `build`, `process`, the constructors.

### Behaviour of the code worth knowing

- **A lone NOTIFY response passes `verify`.** An IKE_SA_INIT or IKE_AUTH
  response of only [NOTIFY] is accepted, although SA, KE and Nonce are
  listed for the IKE_SA_INIT response: NOTIFY is the first entry of each
  responder rule and may end the scan early
  (`MessageVerify.NotifyOnlyResponsesPass`).
- **`verify` without a rule returns NOT_FOUND**, the status of the failed
  rule lookup.
- **The plaintext branch of `encrypt_payloads` adds the wrong payload.** In
  the code, a payload that needs no encryption leads to a call that adds
  the Encrypted payload (or NULL) to the chain, not the payload itself. The
  model reproduces this, in `MessageEncrypt.PlaintextPayloadsDropped` and
  `MessageEncrypt.UnlistedFirstPayloadDereferencesNull`.
- **A flag mismatch in `decrypt_and_verify_payloads` returns SUCCESS.** The
  mismatch branch returns a status variable that still holds SUCCESS, so
  `verify` is skipped. The model reproduces this, in
  `MessageDecrypt.EncryptedFlagMismatchSkipsVerify` and
  `MessageDecrypt.PlaintextIdInitiatorAccepted`.

## Model

| member | source | states |
|---|---|---|
| MessageRules.GetMessageRule | Source/charon/encoding/message.c:309-325 | Ok exactly when some table rule has the exchange type and direction. The result is the first such rule; otherwise NOT_FOUND. |
| MessageRules.GetSupportedPayloadEntry | Source/charon/encoding/message.c:330-345 | Ok exactly when the rule lists the payload type. The result is the first entry for it; otherwise NOT_FOUND. |
| MessageRules.RuleTableCoverage | Source/charon/encoding/message.c:110-165 | Only IKE_SA_INIT and IKE_AUTH, in either direction, have a rule. Encrypted content is allowed exactly for IKE_AUTH. The response rules hold the listed responder entries. |
| Messages.CreateFromPacket | Source/charon/encoding/message.c:1150-1209 | Constructor defaults: undefined exchange type, request, message id 0, no IKE_SA id, empty linked chain, parser at the packet's data. Without a packet, a fresh empty one is used. |
| Messages.Create | Source/charon/encoding/message.c:1214-1217 | A message without a packet has an empty packet and an empty linked chain. |
| Messages.AddPayload | Source/charon/encoding/message.c:460-477 | The chain grows by one with the same content plus the new payload. The new payload's link is NO_PAYLOAD and payloads before the previous last one are unchanged. The new type is always written: into the previous last payload's link, or into the first-payload field when the chain was empty, which otherwise stays as it was. A linked chain stays linked. |
| Messages.AddPayloadsKeepsLinks | Source/charon/encoding/message.c:460-477 | Any sequence of additions to a linked message keeps it linked. The chain holds the old payloads followed by the new ones. |
| Messages.AddPayloadsFromCreate | Source/charon/encoding/message.c:460-477 | Starting from the constructor: the first-payload field is the type of element 0, each link names the successor's type, and the last link is NO_PAYLOAD. |
| MessageVerify.ScanEntry | Source/charon/encoding/message.c:798-822 | The per-entry scan fails exactly when the running count exceeds the entry's maximum. Otherwise it returns the count of that type. |
| MessageVerify.Verify | Source/charon/encoding/message.c:774-839 | NOT_FOUND exactly when there is no rule. Otherwise only SUCCESS or NOT_SUPPORTED. |
| MessageVerify.VerifyEntriesMeaning | Source/charon/encoding/message.c:794-838 | The entry loop rejects exactly when some entry, reached in table order without an earlier early exit, is out of its bounds. |
| MessageVerify.VerifyRejectsIff | Source/charon/encoding/message.c:784-838 | `verify` gives NOT_SUPPORTED if and only if a rule exists and some reached entry is out of bounds. It gives SUCCESS if and only if a rule exists and no reached entry is out of bounds. |
| MessageVerify.VerifyAcceptsWithinBounds | Source/charon/encoding/message.c:794-838 | Payload types absent from the rule never cause a rejection: if every entry is within bounds, the result is SUCCESS. |
| MessageVerify.VerifyEarlyExit | Source/charon/encoding/message.c:831-835 | Once a `can_be_last` entry is reached within bounds and the matched count equals the chain length, the result is SUCCESS whatever later entries require. |
| MessageVerify.NotifyOnlyResponsesPass | Source/charon/encoding/message.c:120-155 | IKE_SA_INIT and IKE_AUTH responses of a single NOTIFY, or of no payload, pass `verify`. |
| MessageVerify.IkeSaInitRequestBounds | Source/charon/encoding/message.c:110-115 | An IKE_SA_INIT request without a Nonce, or with two KE payloads, is rejected. [SA, KE, Nonce] is accepted. |
| MessageEncrypt.EncryptedPart | Source/charon/encoding/message.c:1053-1088 | The payloads collected for encryption are exactly the chain's payloads whose entry demands encryption: each one comes from the chain, and every such chain payload is collected. |
| MessageEncrypt.EncryptedPartCounts | Source/charon/encoding/message.c:1053-1088 | Each payload needing encryption is collected as often as it occurs in the chain, and no other payload is collected. |
| MessageEncrypt.EncryptedPartAppend | Source/charon/encoding/message.c:1053-1088 | Collection keeps the chain's order: the payloads collected from two chains joined are those of the first followed by those of the second. |
| MessageEncrypt.RouteWithContainer | Source/charon/encoding/message.c:1053-1095 | Once the Encrypted payload exists, routing collects exactly the payloads needing encryption, in order. It adds the container once for every other payload. |
| MessageEncrypt.RouteFromStart | Source/charon/encoding/message.c:1078-1094 | NULL is added exactly when the first payload needs no encryption. Otherwise the container's contents are the payloads needing encryption, in order. |
| MessageEncrypt.EncryptPayloads | Source/charon/encoding/message.c:1019-1111 | See the clauses below. |
| MessageEncrypt.PlaintextPayloadsDropped | Source/charon/encoding/message.c:1089-1094 | After a pass without a fault, a payload that needs no encryption appears neither in the chain nor in the container. |
| MessageEncrypt.UnlistedFirstPayloadDereferencesNull | Source/charon/encoding/message.c:1062-1093 | An IKE_AUTH message whose first payload is a Vendor ID dereferences NULL. |
| MessageGenerate.Generate | Source/charon/encoding/message.c:531-632 | See the clauses below. |
| MessageGenerate.Emit | Source/charon/encoding/message.c:573-632 | The header carries the generator's versions, the message's exchange type, message id, response flag and the IKE_SA id's flag and SPIs. It is followed by the relinked chain, and only the chain and the packet change. Without a trailing Encrypted payload the status is SUCCESS and the packet is header plus chain; with one, the status and the data are those of signing header plus chain. |
| MessageGenerate.GeneratePlainMessage | Source/charon/encoding/message.c:565-612 | For an exchange without encrypted content and with an IKE_SA id and both endpoints, generation succeeds. The packet is the header followed by the relinked chain. |
| MessageDecrypt.Link | Source/charon/encoding/message.c:935-947 | Rewriting the predecessor's link changes only that link, or the first-payload field. A write through the discarded Encrypted payload changes nothing. |
| MessageDecrypt.EntryCheck | Source/charon/encoding/message.c:990-1007 | The scan carries on exactly when the type is listed and its encryption flag matches. An unlisted type gives NOT_FOUND. A flag mismatch gives SUCCESS. |
| MessageDecrypt.DecryptAndVerifyPayloads | Source/charon/encoding/message.c:845-1014 | Without a rule the result is NOT_FOUND and the message is unchanged. Otherwise only the chain and the first-payload field change. |
| MessageDecrypt.PlainChainEndsInVerify | Source/charon/encoding/message.c:1012-1013 | A chain whose payloads are all listed as unencrypted ends in `verify`, unchanged. |
| MessageDecrypt.UnlistedPayloadNotFound | Source/charon/encoding/message.c:990-997 | A reached payload of an unlisted type ends the pass with NOT_FOUND. |
| MessageDecrypt.EncryptedFlagMismatchSkipsVerify | Source/charon/encoding/message.c:999-1007 | A reached plaintext payload that must be encrypted ends the pass with SUCCESS, without `verify`. |
| MessageDecrypt.PlaintextIdInitiatorAccepted | Source/charon/encoding/message.c:999-1007 | An IKE_AUTH request of one plaintext IDi is accepted, while `verify` would reject that chain. |
| MessageDecrypt.MisplacedEncryptedFails | Source/charon/encoding/message.c:887-901 | A reached Encrypted payload gives FAILED when the rule forbids encrypted content or when it is not the last payload. |
| MessageDecrypt.ContainerLeadsChain | Source/charon/encoding/message.c:131-155 | Under a rule with encrypted content, no payload passes in plaintext, so a decrypted container is always the first payload. |
| MessageDecrypt.SignatureBeforeDecryption | Source/charon/encoding/message.c:908-923 | A bad signature ends the pass with its status, before decryption. A failed decryption after a good signature ends it with the decryption's status. |
| MessageDecrypt.EmptyContainerRemoved | Source/charon/encoding/message.c:928-948 | A container that decrypts to nothing is removed, the first-payload field becomes NO_PAYLOAD, and `verify` decides on the empty chain. |
| MessageDecrypt.NonEmptyContainerSpliced | Source/charon/encoding/message.c:954-985 | A container's inner payloads replace it in order, the first-payload field names the first of them, and `verify` decides on the spliced chain. |
| MessageDecrypt.DecryptedPrefix | Source/charon/encoding/message.c:850-1010 | After decryption, a run of decrypted payloads that the rule lists as encrypted is passed over without changing the outcome. |
| MessageDecrypt.EncryptedRuleEntries | Source/charon/encoding/message.c:131-155 | A rule with encrypted content does not list the Encrypted type, and accepts no payload in plaintext. |
| MessageDecrypt.SpliceStep | Source/charon/encoding/message.c:954-997 | After a good signature and decryption to a non-empty list, the inner payloads replace the container, the first-payload field names the first of them, and that first one goes through the rule check before the scan moves on. |
| MessageDecrypt.RefusedInnerPayloadNotFound | Source/charon/encoding/message.c:954-997 | The first decrypted payload the rule refuses ends the pass with NOT_FOUND on the spliced chain, unless it is an Encrypted payload behind the first. |
| MessageDecrypt.MisplacedInnerEncryptedFails | Source/charon/encoding/message.c:887-901 | A decrypted Encrypted payload that is neither the first nor the last of the inner payloads ends the pass with FAILED on the spliced chain. |
| MessageParse.ParseHeader | Source/charon/encoding/message.c:653-700 | See the clauses below. |
| MessageParse.WalkChain | Source/charon/encoding/message.c:713-753 | Stated through the predicate `WalkOutcome`. The walk reads a chain starting at the announced type, each next payload having the type its predecessor named. Only the last payload may be Encrypted, and every payload read is exactly what the parser read at its position and passed its own verification. See the clauses below for the other cases. |
| MessageParse.ParseBody | Source/charon/encoding/message.c:705-769 | A failed walk returns its status. Otherwise the walked message goes to `decrypt_and_verify_payloads`. Only the chain, the first-payload field and the parser position change. |
| MessageParse.WalkSerialized | Source/charon/encoding/message.c:713-753 | Walking the serialisation of a linked chain without Encrypted payloads reads back exactly that chain and consumes its bytes. |
| MessageParse.GenerateThenParse | Source/charon/encoding/message.c:653-769 | Given a parser that reads back the generator's encodings, a generated message of an exchange without encrypted content parses back. It arrives with its exchange type, direction, message id, IKE_SA id and versions, and the relinked chain, which `verify` decides. |
| SignatureAuthData.Skip | src/libcharon/sa/ikev2/authenticators/pubkey_authenticator.c:82 | Skipping is saturating: past the end the result is empty. |
| SignatureAuthData.ParseSignatureAuthData | src/libcharon/sa/ikev2/authenticators/pubkey_authenticator.c:62-84 | Fails exactly on empty data or an unknown scheme. Otherwise it gives the scheme, its key type, and the data after 1 + len octets, saturating. |
| SignatureAuthData.BuildSignatureAuthData | src/libcharon/sa/ikev2/authenticators/pubkey_authenticator.c:89-105 | Fails exactly when the scheme has no OID. Otherwise the result is the length octet (mod 256), the AlgorithmIdentifier, then the signature. |
| SignatureAuthData.ParseBuildRoundTrip | src/libcharon/sa/ikev2/authenticators/pubkey_authenticator.c:62-105 | Parsing built data recovers the scheme, its key type and the signature, when the OID and AlgorithmIdentifier codings invert and the identifier fits in one octet of length. |
| SignatureAuthData.LongAlgorithmIdentifierMisread | src/libcharon/sa/ikev2/authenticators/pubkey_authenticator.c:101-103 | An AlgorithmIdentifier of 256 octets or more is announced modulo 256, so the parsed signature is longer than the real one. |
| PubkeyAuthenticator.CreateBuilder | src/libcharon/sa/ikev2/authenticators/pubkey_authenticator.c:352-374 | The builder keeps the received nonce, the sent IKE_SA_INIT message and exactly three reserved octets. |
| PubkeyAuthenticator.CreateVerifier | src/libcharon/sa/ikev2/authenticators/pubkey_authenticator.c:379-401 | The verifier keeps the sent nonce, the received IKE_SA_INIT message and exactly three reserved octets. |
| PubkeyAuthenticator.FirstFitting | src/libcharon/sa/ikev2/authenticators/pubkey_authenticator.c:125-141 | Finds the first configured scheme whose key type matches and whose hash is supported, or reports that none fits. |
| PubkeyAuthenticator.FirstNegotiable | src/libcharon/sa/ikev2/authenticators/pubkey_authenticator.c:147-160 | Finds the first enumerated hash that is supported and has an OID for the key type, or reports that none does. |
| PubkeyAuthenticator.SelectSignatureScheme | src/libcharon/sa/ikev2/authenticators/pubkey_authenticator.c:111-163 | See the clauses below. |
| PubkeyAuthenticator.LegacyScheme | src/libcharon/sa/ikev2/authenticators/pubkey_authenticator.c:199-233 | See the clauses below. |
| PubkeyAuthenticator.Build | src/libcharon/sa/ikev2/authenticators/pubkey_authenticator.c:165-258 | See the clauses below. |
| PubkeyAuthenticator.FirstAuthPayload | src/libcharon/sa/ikev2/authenticators/pubkey_authenticator.c:275-279 | Gives the first AUTH payload of the message, or None exactly when there is none. |
| PubkeyAuthenticator.MethodScheme | src/libcharon/sa/ikev2/authenticators/pubkey_authenticator.c:280-305 | See the clauses below. |
| PubkeyAuthenticator.CheckCandidates | src/libcharon/sa/ikev2/authenticators/pubkey_authenticator.c:313-340 | See the clauses below. |
| PubkeyAuthenticator.CheckCandidatesMeaning | src/libcharon/sa/ikev2/authenticators/pubkey_authenticator.c:313-340 | The candidate loop gives SUCCESS if and only if some trusted key verifies the signature. It then merges the configuration of the first key that does, with none before it verifying. |
| PubkeyAuthenticator.Process | src/libcharon/sa/ikev2/authenticators/pubkey_authenticator.c:260-341 | See the clauses below. |
| PubkeyAuthenticator.LegacyMethodsAgree | src/libcharon/sa/ikev2/authenticators/pubkey_authenticator.c:282-296 | The method that `build` writes without RFC 7427 is mapped by `process` back to the key's type and the scheme it signed with. |
| PubkeyAuthenticator.BuildThenProcess | src/libcharon/sa/ikev2/authenticators/pubkey_authenticator.c:236-250 | When `build` succeeds on a message without an AUTH payload, both sides agree on the AUTH octets, the peer's first key of the type `process` maps to verifies our private key's signatures, the RFC 7427 codings invert, and the chosen scheme's AlgorithmIdentifier fits one length octet, the AUTH payload the builder adds is accepted by the verifier. |
| PubkeyAuthenticator.BuildThenProcessReachable | src/libcharon/sa/ikev2/authenticators/pubkey_authenticator.c:165-341 | For one concrete pair of configurations the premises of `BuildThenProcess` hold: `build` writes method 14 and `process` accepts it. |
| SignatureAuthData.UnaryOraclesInvert | src/libcharon/sa/ikev2/authenticators/pubkey_authenticator.c:62-105 | One concrete choice of OID and AlgorithmIdentifier codings inverts on every OID, and gives ECDSA-256 a one-octet identifier. |
| PubkeyAuthenticator.WrongRoleFails | src/libcharon/sa/ikev2/authenticators/pubkey_authenticator.c:352-401 | The builder's `process` and the verifier's `build` always give FAILED and change nothing. |

Clauses for the rows above that need more than one line:

- **MessageEncrypt.EncryptPayloads:**
  - without a rule the result is NOT_FOUND; without encrypted content it is SUCCESS and nothing changes;
  - it dereferences NULL exactly when the rule allows encrypted content and the first payload needs no encryption;
  - otherwise every chain element is the Encrypted payload, once for each payload that needed no encryption plus once at the end, and the first-payload field names it.
- **MessageGenerate.Generate:**
  - it gives INVALID_STATE for an undefined exchange type, the lookup's NOT_FOUND without a rule, and INVALID_STATE without both endpoints;
  - when it serialises, the header carries the generator's major and minor versions and the message's exchange type, message id, response flag and SPIs;
  - the header's next type and the chain are linked, and the packet is the header followed by the chain when the last payload is not Encrypted;
  - a NULL dereference or a failed status of `encrypt_payloads` is passed on; after a successful pass, the only remaining NULL dereference is a missing IKE_SA id, and with an IKE_SA id the message is always serialised;
  - a serialised message whose last payload is not Encrypted, or that has no payload, has status SUCCESS;
  - the chain serialised is the relinked chain `encrypt_payloads` produced, with everything else of its message kept;
  - when the last payload is Encrypted, the packet's data and the status are those of signing the header followed by the serialised chain.
- **MessageParse.ParseHeader:**
  - it succeeds exactly when the header parses and verifies;
  - it then copies the SPIs, the initiator flag, the exchange type, the message id, !response, the versions and the first payload type;
  - on failure nothing but the parser position changes: a header the parser refuses returns the parser's status, with the parser at the start of the data, and a header that fails its own verification returns that status, with the parser behind the header.
- **MessageParse.WalkChain:**
  - SUCCESS if and only if the walk ended at NO_PAYLOAD or after an Encrypted payload, with the parser behind the last payload read; the walk stops at the first Encrypted payload;
  - on failure, either the parser refused the next payload, and its status is returned with the parser still before that payload, or the parser read the next payload and it failed its own verification, giving VERIFY_ERROR, with the payload dropped and the parser behind it.
- **PubkeyAuthenticator.SelectSignatureScheme:**
  - it returns the first configured scheme that fits;
  - it returns SIGN_UNKNOWN when schemes are configured but none fits, with no fallback;
  - only with no configured scheme does it return the scheme of the first negotiable hash, or SIGN_UNKNOWN when there is none.
- **PubkeyAuthenticator.LegacyScheme:**
  - RSA gives PKCS#1 SHA-1 with method 1;
  - ECDSA of 256, 384 or 521 bits gives the matching scheme with methods 9, 10 or 11;
  - every other key gives None.
- **PubkeyAuthenticator.Build:**
  - NOT_FOUND if and only if the builder has no private key; the extension on with no scheme selected gives FAILED, and so does a key no scheme is found for, with the message unchanged;
  - SUCCESS whenever the key, the scheme, the AUTH octets, the signature and, for method 14, the RFC 7427 data are all produced;
  - the status is SUCCESS, FAILED or NOT_FOUND, and only SUCCESS changes the message;
  - SUCCESS means the octets were requested with verify false and signed, and exactly one AUTH payload was appended;
  - the appended payload holds the signature, or for method 14 the RFC 7427 data.
- **PubkeyAuthenticator.MethodScheme:**
  - methods 1, 9, 10 and 11 give RSA or ECDSA with the fixed scheme;
  - method 14 gives the parsed RFC 7427 data;
  - every other method gives None.
- **PubkeyAuthenticator.CheckCandidates:**
  - SUCCESS if and only if the search for the first verifying candidate finds one; that candidate's configuration is merged in and the public-key class added;
  - NOT_FOUND if and only if there are no candidates;
  - otherwise FAILED, with the configuration unchanged.
- **PubkeyAuthenticator.Process:**
  - it gives FAILED without an AUTH payload, INVALID_ARG for an unhandled method or a bad RFC 7427 prefix, and FAILED when the octets (requested with verify true) fail;
  - SUCCESS means some trusted key of the mapped key type verifies the mapped scheme and signature;
  - only SUCCESS changes the peer's configuration;
  - when the AUTH payload, its method and the octets are all in hand, the result is the candidate loop over the trusted keys of the mapped type: NOT_FOUND if and only if there are none, SUCCESS if and only if one verifies.

## Left out

- Logging, `destroy` and the reference counting around it, the getters and setters of message.c, and `get_packet`/`get_packet_data` (copies of fields) are not modelled.
- `is_mutual` of the authenticator (it always answers false) is not modelled.
- The byte parser, the generator, the crypter and signer, the OID tables, the ASN.1 coding, signing, verification, auth-octet derivation, the hasher and credential enumerations, and `auth_cfg_t` merging are functions passed in. Nothing about them is assumed beyond what a member states in its requires.
- Pointer aliasing is modelled as value copies. `encrypt_payloads` adds one Encrypted payload object several times; the model holds equal copies of it. `generate` relinks that one object on each visit; the model relinks the copies, so the packet it describes is the same but the in-memory links after `generate` are not.
- Messages.CreateFromPacket: the version fields start at 0; the source leaves them unset.
- MessageGenerate.Generate: the header versions come from the generator record, because `ike_header_create` is not part of this model. Without an IKE_SA id the source dereferences NULL; the model says so.
- EXCHANGE_TYPE_UNDEFINED is taken as 240, because the header defining it is not part of this model. The other payload and exchange type codes are those of RFC 7296.
- MessageParse.ParseHeader: after a header that fails to parse, the parser position is the start of the packet's data, because the parser's behaviour on failure is not part of this model.
- MessageParse.WalkChain: requires that every payload the parser reads consumes input; this is the termination argument for the walk, and the parser's code is not part of this model.
- MessageDecrypt.DecryptAndVerifyPayloads: requires that decrypting an Encrypted payload yields inner payloads whose bodies weigh less than its body; this is the termination argument for nested Encrypted payloads, and the decryption code is not part of this model.
- MessageParse.GenerateThenParse: stated only for exchanges without encrypted content. With encryption, generate-then-parse depends on the crypter and signer, which are not part of this model.
- MessageDecrypt.SignatureBeforeDecryption, MessageDecrypt.EmptyContainerRemoved, MessageDecrypt.NonEmptyContainerSpliced, MessageDecrypt.RefusedInnerPayloadNotFound, MessageDecrypt.MisplacedInnerEncryptedFails: stated for a chain whose only payload is the Encrypted one. `MessageDecrypt.ContainerLeadsChain` and `MessageDecrypt.MisplacedEncryptedFails` show that under the rule table no other chain reaches decryption.
- MessageDecrypt.DecryptAndVerifyPayloads: an Encrypted payload that is the last of a container's decrypted payloads, behind others, is decrypted in turn; no lemma states the outcome of that nested pass beyond the termination argument.
- MessageDecrypt.Link: after a splice the source keeps the destroyed container as the previous payload, so a later link update writes to freed memory; the model makes that write a no-op (`Discarded`) instead of modelling the use after free.
