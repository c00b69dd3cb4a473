/** The public-key authenticator of IKEv2 (pubkey_authenticator.c): the
    builder signs the AUTH octets with our private key and adds an AUTH
    payload; the verifier maps the received AUTH method to a key type and
    scheme and tries the trusted public keys of the peer in turn.
    Credentials, key material, signing and verification are collaborators
    passed in as functions or sequences. */
module PubkeyAuthenticator {
  import opened IkeTypes
  import opened SignatureAuthData

  /** `auth_method_t`, the one-octet Auth Method field of the AUTH payload. */
  newtype AuthMethod = x: int | 0 <= x < 256

  /** RSA Digital Signature, RFC 7296 section 3.8. */
  const AuthRsa: AuthMethod := 1
  /** ECDSA with SHA-256 on the P-256 curve, RFC 4754. */
  const AuthEcdsa256: AuthMethod := 9
  /** ECDSA with SHA-384 on the P-384 curve, RFC 4754. */
  const AuthEcdsa384: AuthMethod := 10
  /** ECDSA with SHA-512 on the P-521 curve, RFC 4754. */
  const AuthEcdsa521: AuthMethod := 11
  /** Digital Signature, RFC 7427 section 3. */
  const AuthDs: AuthMethod := 14

  datatype AuthClass = AuthClassPubkey | OtherAuthClass(code: nat)

  /** One rule of an `auth_cfg_t`: a configured signature scheme, an
      authentication class, or any other rule. */
  datatype AuthRule =
    | SignatureSchemeRule(scheme: SignatureScheme)
    | AuthClassRule(authClass: AuthClass)
    | OtherRule(code: nat)

  type AuthConfig = seq<AuthRule>

  datatype Identity = Identity(encoding: Bytes)

  /** A private key: its type, its size in bits and its signing operation. */
  datatype PrivateKey = PrivateKey(
    keyType: KeyType,
    keySize: nat,
    sign: (SignatureScheme, Bytes) -> Option<Bytes>)

  /** A trusted public key of the peer with the configuration that comes
      with it. */
  datatype Candidate = Candidate(
    verify: (SignatureScheme, Bytes, Bytes) -> bool,
    auth: AuthConfig)

  /** What the authenticator asks of its IKE_SA: the identities, the
      configurations of both sides, whether the peer supports RFC 7427,
      which hashes the key material supports, the AUTH octets and the
      merge of two configurations. */
  datatype IkeSa = IkeSa(
    myId: Identity,
    otherId: Identity,
    myAuth: AuthConfig,
    otherAuth: AuthConfig,
    signatureAuthExtension: bool,
    hashSupported: HashAlgorithm -> bool,
    authOctets: (bool, Bytes, Bytes, Identity, seq<Byte>) -> Option<Bytes>,
    mergeConfig: (AuthConfig, AuthConfig) -> AuthConfig)

  /** The library services: the credential manager's private key lookup
      and public key enumeration, and the hashers the crypto factory
      enumerates, in order. */
  datatype Library = Library(
    privateKey: (Identity, AuthConfig) -> Option<PrivateKey>,
    publicKeys: (KeyType, Identity, AuthConfig) -> seq<Candidate>,
    hashers: seq<HashAlgorithm>)

  /** The payloads of a message as the authenticator sees them. */
  datatype MessagePayload = AuthPayload(authMethod: AuthMethod, data: Bytes) | OtherPayload(payloadType: nat)

  type Message = seq<MessagePayload>

  /** A builder signs; a verifier checks. Each answers the other's
      operation with FAILED. */
  datatype Role = Builder | Verifier

  datatype Authenticator = Authenticator(role: Role, ikeSaInit: Bytes, nonce: Bytes, reserved: seq<Byte>)

  /** `pubkey_authenticator_create_builder`: keeps the nonce we received,
      the IKE_SA_INIT message we sent and the three reserved octets of our
      ID payload. */
  function CreateBuilder(receivedNonce: Bytes, sentInit: Bytes, reserved: seq<Byte>): (a: Authenticator)
    requires |reserved| >= 3
    ensures a.role.Builder? && a.nonce == receivedNonce && a.ikeSaInit == sentInit
    ensures |a.reserved| == 3 && forall i :: 0 <= i < 3 ==> a.reserved[i] == reserved[i]
  {
    Authenticator(Builder, sentInit, receivedNonce, reserved[..3])
  }

  /** `pubkey_authenticator_create_verifier`: keeps the nonce we sent, the
      IKE_SA_INIT message we received and the three reserved octets of the
      peer's ID payload. */
  function CreateVerifier(sentNonce: Bytes, receivedInit: Bytes, reserved: seq<Byte>): (a: Authenticator)
    requires |reserved| >= 3
    ensures a.role.Verifier? && a.nonce == sentNonce && a.ikeSaInit == receivedInit
    ensures |a.reserved| == 3 && forall i :: 0 <= i < 3 ==> a.reserved[i] == reserved[i]
  {
    Authenticator(Verifier, receivedInit, sentNonce, reserved[..3])
  }

  // Selecting a signature scheme.

  /** A configured scheme fits when it is for the private key's type and
      the key material supports its hash. */
  predicate Fits(o: SchemeOracles, sa: IkeSa, keyType: KeyType, s: SignatureScheme)
  {
    o.keyTypeFromScheme(s) == keyType && sa.hashSupported(o.hasherFromScheme(s))
  }

  /** A hash is negotiable when the key material supports it and it has a
      signature OID for the key type. */
  predicate Negotiable(o: SchemeOracles, sa: IkeSa, keyType: KeyType, h: HashAlgorithm)
  {
    sa.hashSupported(h) && o.hasherSignatureAlgorithmToOid(h, keyType) != OidUnknown
  }

  predicate HasSchemeConfig(config: AuthConfig)
  {
    exists i :: 0 <= i < |config| && config[i].SignatureSchemeRule?
  }

  /** Index of the first configured scheme at or after `from` that fits. */
  function FirstFitting(o: SchemeOracles, sa: IkeSa, keyType: KeyType, config: AuthConfig, from: nat): (r: Option<nat>)
    requires from <= |config|
    decreases |config| - from
    ensures r.Some? ==>
      && from <= r.value < |config|
      && config[r.value].SignatureSchemeRule? && Fits(o, sa, keyType, config[r.value].scheme)
      && forall j :: from <= j < r.value && config[j].SignatureSchemeRule? ==> !Fits(o, sa, keyType, config[j].scheme)
    ensures r.None? ==>
      forall j :: from <= j < |config| && config[j].SignatureSchemeRule? ==> !Fits(o, sa, keyType, config[j].scheme)
  {
    if from == |config| then None
    else if config[from].SignatureSchemeRule? && Fits(o, sa, keyType, config[from].scheme) then Some(from)
    else FirstFitting(o, sa, keyType, config, from + 1)
  }

  /** Index of the first enumerated hash at or after `from` that is
      negotiable. */
  function FirstNegotiable(o: SchemeOracles, sa: IkeSa, keyType: KeyType, hashers: seq<HashAlgorithm>, from: nat): (r: Option<nat>)
    requires from <= |hashers|
    decreases |hashers| - from
    ensures r.Some? ==>
      && from <= r.value < |hashers| && Negotiable(o, sa, keyType, hashers[r.value])
      && forall j :: from <= j < r.value ==> !Negotiable(o, sa, keyType, hashers[j])
    ensures r.None? ==> forall j :: from <= j < |hashers| ==> !Negotiable(o, sa, keyType, hashers[j])
  {
    if from == |hashers| then None
    else if Negotiable(o, sa, keyType, hashers[from]) then Some(from)
    else FirstNegotiable(o, sa, keyType, hashers, from + 1)
  }

  /** `select_signature_scheme`: the first configured scheme that fits; if
      schemes are configured and none fits, SIGN_UNKNOWN; only without any
      configured scheme, the scheme of the first negotiable hash. */
  function SelectSignatureScheme(o: SchemeOracles, sa: IkeSa, keyType: KeyType, config: AuthConfig, hashers: seq<HashAlgorithm>): (r: SignatureScheme)
    ensures (exists i :: 0 <= i < |config| && config[i].SignatureSchemeRule? && Fits(o, sa, keyType, config[i].scheme)) ==>
      exists i :: && 0 <= i < |config| && config[i].SignatureSchemeRule? && Fits(o, sa, keyType, config[i].scheme)
                  && r == config[i].scheme
                  && forall j :: 0 <= j < i && config[j].SignatureSchemeRule? ==> !Fits(o, sa, keyType, config[j].scheme)
    ensures HasSchemeConfig(config) &&
            (forall i :: 0 <= i < |config| && config[i].SignatureSchemeRule? ==> !Fits(o, sa, keyType, config[i].scheme)) ==>
      r == SignUnknown
    ensures !HasSchemeConfig(config) && (exists j :: 0 <= j < |hashers| && Negotiable(o, sa, keyType, hashers[j])) ==>
      exists j :: && 0 <= j < |hashers| && Negotiable(o, sa, keyType, hashers[j])
                  && r == o.schemeFromOid(o.hasherSignatureAlgorithmToOid(hashers[j], keyType))
                  && forall k :: 0 <= k < j ==> !Negotiable(o, sa, keyType, hashers[k])
    ensures !HasSchemeConfig(config) && (forall j :: 0 <= j < |hashers| ==> !Negotiable(o, sa, keyType, hashers[j])) ==>
      r == SignUnknown
  {
    match FirstFitting(o, sa, keyType, config, 0)
    case Some(i) => config[i].scheme
    case None =>
      if HasSchemeConfig(config) then SignUnknown
      else match FirstNegotiable(o, sa, keyType, hashers, 0)
        case Some(j) => o.schemeFromOid(o.hasherSignatureAlgorithmToOid(hashers[j], keyType))
        case None => SignUnknown
  }

  /** Without RFC 7427: the scheme and AUTH method by key type, for ECDSA
      by key size (the methods of RFC 4754); None for any other key. */
  function LegacyScheme(key: PrivateKey): (r: Option<(SignatureScheme, AuthMethod)>)
    ensures key.keyType == KeyRsa ==> r == Some((SignRsaEmsaPkcs1Sha1, AuthRsa))
    ensures key.keyType == KeyEcdsa && key.keySize == 256 ==> r == Some((SignEcdsa256, AuthEcdsa256))
    ensures key.keyType == KeyEcdsa && key.keySize == 384 ==> r == Some((SignEcdsa384, AuthEcdsa384))
    ensures key.keyType == KeyEcdsa && key.keySize == 521 ==> r == Some((SignEcdsa521, AuthEcdsa521))
    ensures r.None? <==>
      (key.keyType != KeyRsa && key.keyType != KeyEcdsa) ||
      (key.keyType == KeyEcdsa && key.keySize != 256 && key.keySize != 384 && key.keySize != 521)
  {
    match key.keyType
    case KeyRsa => Some((SignRsaEmsaPkcs1Sha1, AuthRsa))
    case KeyEcdsa =>
      if key.keySize == 256 then Some((SignEcdsa256, AuthEcdsa256))
      else if key.keySize == 384 then Some((SignEcdsa384, AuthEcdsa384))
      else if key.keySize == 521 then Some((SignEcdsa521, AuthEcdsa521))
      else None
    case _ => None
  }

  // Building.

  datatype BuildResult = BuildResult(status: Status, message: Message)

  /** The scheme and method `build` signs with, or None when it gives up
      before signing. */
  function BuildScheme(o: SchemeOracles, sa: IkeSa, lib: Library, key: PrivateKey): Option<(SignatureScheme, AuthMethod)>
  {
    if sa.signatureAuthExtension then
      var scheme := SelectSignatureScheme(o, sa, key.keyType, sa.myAuth, lib.hashers);
      if scheme == SignUnknown then None else Some((scheme, AuthDs))
    else LegacyScheme(key)
  }

  /** `build`: finds our private key, picks the scheme and method, signs the
      AUTH octets (computed for our own side) and appends one AUTH payload. */
  function Build(a: Authenticator, o: SchemeOracles, sa: IkeSa, lib: Library, message: Message): (r: BuildResult)
    ensures a.role.Verifier? ==> r == BuildResult(Failed, message)
    ensures a.role.Builder? && lib.privateKey(sa.myId, sa.myAuth).None? ==> r == BuildResult(NotFound, message)
    ensures r.status == NotFound <==> a.role.Builder? && lib.privateKey(sa.myId, sa.myAuth).None?
    ensures a.role.Builder? && lib.privateKey(sa.myId, sa.myAuth).Some? &&
            BuildScheme(o, sa, lib, lib.privateKey(sa.myId, sa.myAuth).value).None? ==>
      r == BuildResult(Failed, message)
    ensures r.status == Success || r.status == Failed || r.status == NotFound
    ensures r.status != Success ==> r.message == message
    ensures a.role.Builder? && lib.privateKey(sa.myId, sa.myAuth).Some? && sa.signatureAuthExtension &&
            SelectSignatureScheme(o, sa, lib.privateKey(sa.myId, sa.myAuth).value.keyType, sa.myAuth, lib.hashers) == SignUnknown ==>
      r.status == Failed
    ensures r.status == Success ==> a.role.Builder? && lib.privateKey(sa.myId, sa.myAuth).Some?
    ensures a.role.Builder? && lib.privateKey(sa.myId, sa.myAuth).Some? ==>
      var key := lib.privateKey(sa.myId, sa.myAuth).value;
      var octets := sa.authOctets(false, a.ikeSaInit, a.nonce, sa.myId, a.reserved);
      (&& BuildScheme(o, sa, lib, key).Some? && octets.Some?
       && key.sign(BuildScheme(o, sa, lib, key).value.0, octets.value).Some?
       && (BuildScheme(o, sa, lib, key).value.1 == AuthDs ==>
             BuildSignatureAuthData(o, key.sign(BuildScheme(o, sa, lib, key).value.0, octets.value).value,
                                    BuildScheme(o, sa, lib, key).value.0).Some?)) ==>
      r.status == Success
    ensures r.status == Success ==>
      var key := lib.privateKey(sa.myId, sa.myAuth).value;
      var octets := sa.authOctets(false, a.ikeSaInit, a.nonce, sa.myId, a.reserved);
      && BuildScheme(o, sa, lib, key).Some? && octets.Some?
      && key.sign(BuildScheme(o, sa, lib, key).value.0, octets.value).Some?
    ensures r.status == Success ==>
      var key := lib.privateKey(sa.myId, sa.myAuth).value;
      var octets := sa.authOctets(false, a.ikeSaInit, a.nonce, sa.myId, a.reserved).value;
      var scheme := BuildScheme(o, sa, lib, key).value.0;
      var authMethod := BuildScheme(o, sa, lib, key).value.1;
      var signature := key.sign(scheme, octets).value;
      && |r.message| == |message| + 1 && r.message[..|message|] == message
      && (authMethod != AuthDs ==> r.message[|message|] == AuthPayload(authMethod, signature))
      && (authMethod == AuthDs ==>
            && BuildSignatureAuthData(o, signature, scheme).Some?
            && r.message[|message|] == AuthPayload(AuthDs, BuildSignatureAuthData(o, signature, scheme).value))
  {
    if a.role.Verifier? then BuildResult(Failed, message)
    else match lib.privateKey(sa.myId, sa.myAuth)
      case None => BuildResult(NotFound, message)
      case Some(key) =>
        match BuildScheme(o, sa, lib, key)
        case None => BuildResult(Failed, message)
        case Some((scheme, authMethod)) =>
          match sa.authOctets(false, a.ikeSaInit, a.nonce, sa.myId, a.reserved)
          case None => BuildResult(Failed, message)
          case Some(octets) =>
            match key.sign(scheme, octets)
            case None => BuildResult(Failed, message)
            case Some(signature) =>
              if authMethod != AuthDs then BuildResult(Success, message + [AuthPayload(authMethod, signature)])
              else match BuildSignatureAuthData(o, signature, scheme)
                case None => BuildResult(Failed, message)
                case Some(data) => BuildResult(Success, message + [AuthPayload(AuthDs, data)])
  }

  // Processing.

  datatype ProcessResult = ProcessResult(status: Status, otherAuth: AuthConfig)

  /** `get_payload(PLV2_AUTH)`: the first AUTH payload of the message. */
  function FirstAuthPayload(message: Message): (r: Option<MessagePayload>)
    ensures r.None? <==> forall i :: 0 <= i < |message| ==> !message[i].AuthPayload?
    ensures r.Some? ==>
      exists i :: 0 <= i < |message| && message[i] == r.value && r.value.AuthPayload? &&
                  forall j :: 0 <= j < i ==> !message[j].AuthPayload?
  {
    if |message| == 0 then None
    else if message[0].AuthPayload? then Some(message[0])
    else
      var r := FirstAuthPayload(message[1..]);
      assert forall j :: 0 <= j < |message| - 1 ==> message[1..][j] == message[j + 1];
      r
  }

  /** The key type, scheme and signature `process` derives from the AUTH
      method and data, or None for a method it does not handle or a bad
      RFC 7427 prefix. */
  function MethodScheme(o: SchemeOracles, authMethod: AuthMethod, data: Bytes): (r: Option<ParsedAuthData>)
    ensures authMethod == AuthRsa ==> r == Some(ParsedAuthData(KeyRsa, SignRsaEmsaPkcs1Sha1, data))
    ensures authMethod == AuthEcdsa256 ==> r == Some(ParsedAuthData(KeyEcdsa, SignEcdsa256, data))
    ensures authMethod == AuthEcdsa384 ==> r == Some(ParsedAuthData(KeyEcdsa, SignEcdsa384, data))
    ensures authMethod == AuthEcdsa521 ==> r == Some(ParsedAuthData(KeyEcdsa, SignEcdsa521, data))
    ensures authMethod == AuthDs ==> r == ParseSignatureAuthData(o, data)
    ensures authMethod !in {AuthRsa, AuthEcdsa256, AuthEcdsa384, AuthEcdsa521, AuthDs} ==> r.None?
  {
    if authMethod == AuthRsa then Some(ParsedAuthData(KeyRsa, SignRsaEmsaPkcs1Sha1, data))
    else if authMethod == AuthEcdsa256 then Some(ParsedAuthData(KeyEcdsa, SignEcdsa256, data))
    else if authMethod == AuthEcdsa384 then Some(ParsedAuthData(KeyEcdsa, SignEcdsa384, data))
    else if authMethod == AuthEcdsa521 then Some(ParsedAuthData(KeyEcdsa, SignEcdsa521, data))
    else if authMethod == AuthDs then ParseSignatureAuthData(o, data)
    else None
  }

  /** Index of the first candidate at or after `from` whose key verifies
      the signature. */
  function FirstVerifying(candidates: seq<Candidate>, scheme: SignatureScheme, octets: Bytes, signature: Bytes, from: nat): (r: Option<nat>)
    requires from <= |candidates|
    decreases |candidates| - from
    ensures r.Some? ==>
      && from <= r.value < |candidates| && candidates[r.value].verify(scheme, octets, signature)
      && forall j :: from <= j < r.value ==> !candidates[j].verify(scheme, octets, signature)
    ensures r.None? ==> forall j :: from <= j < |candidates| ==> !candidates[j].verify(scheme, octets, signature)
  {
    if from == |candidates| then None
    else if candidates[from].verify(scheme, octets, signature) then Some(from)
    else FirstVerifying(candidates, scheme, octets, signature, from + 1)
  }

  /** The candidate loop of `process`: the first key that verifies gives
      SUCCESS and its configuration is merged into the peer's, with the
      public-key class added; FAILED if keys were tried and none verified;
      NOT_FOUND if there was no key. */
  function CheckCandidates(sa: IkeSa, candidates: seq<Candidate>, scheme: SignatureScheme, octets: Bytes, signature: Bytes): (r: ProcessResult)
    ensures r.status == Success <==> FirstVerifying(candidates, scheme, octets, signature, 0).Some?
    ensures r.status == NotFound <==> |candidates| == 0
    ensures r.status == Success || r.status == Failed || r.status == NotFound
    ensures r.status == Success ==>
      && FirstVerifying(candidates, scheme, octets, signature, 0).Some?
      && var i := FirstVerifying(candidates, scheme, octets, signature, 0).value;
      r.otherAuth == sa.mergeConfig(sa.otherAuth, candidates[i].auth) + [AuthClassRule(AuthClassPubkey)]
    ensures r.status != Success ==> r.otherAuth == sa.otherAuth
  {
    match FirstVerifying(candidates, scheme, octets, signature, 0)
    case Some(i) =>
      ProcessResult(Success, sa.mergeConfig(sa.otherAuth, candidates[i].auth) + [AuthClassRule(AuthClassPubkey)])
    case None => ProcessResult(if |candidates| == 0 then NotFound else Failed, sa.otherAuth)
  }

  /** The candidate loop succeeds exactly when some trusted key verifies
      the signature, and then it merges the configuration of the first such
      key. */
  lemma CheckCandidatesMeaning(sa: IkeSa, candidates: seq<Candidate>, scheme: SignatureScheme, octets: Bytes, signature: Bytes)
    ensures CheckCandidates(sa, candidates, scheme, octets, signature).status == Success <==>
      exists i :: 0 <= i < |candidates| && candidates[i].verify(scheme, octets, signature)
    ensures CheckCandidates(sa, candidates, scheme, octets, signature).status == Success ==>
      exists i :: && 0 <= i < |candidates| && candidates[i].verify(scheme, octets, signature)
                  && (forall j :: 0 <= j < i ==> !candidates[j].verify(scheme, octets, signature))
                  && CheckCandidates(sa, candidates, scheme, octets, signature).otherAuth ==
                       sa.mergeConfig(sa.otherAuth, candidates[i].auth) + [AuthClassRule(AuthClassPubkey)]
  {
    var first := FirstVerifying(candidates, scheme, octets, signature, 0);
    if first.Some? {
      var i := first.value;
      assert candidates[i].verify(scheme, octets, signature);
    }
  }

  /** `process`: takes the first AUTH payload, derives key type and scheme
      from its method, computes the AUTH octets for the peer's side and
      checks the signature against the peer's trusted public keys. */
  function Process(a: Authenticator, o: SchemeOracles, sa: IkeSa, lib: Library, message: Message): (r: ProcessResult)
    ensures a.role.Builder? ==> r == ProcessResult(Failed, sa.otherAuth)
    ensures a.role.Verifier? && FirstAuthPayload(message).None? ==> r == ProcessResult(Failed, sa.otherAuth)
    ensures a.role.Verifier? && FirstAuthPayload(message).Some? &&
            MethodScheme(o, FirstAuthPayload(message).value.authMethod, FirstAuthPayload(message).value.data).None? ==>
      r == ProcessResult(InvalidArg, sa.otherAuth)
    ensures a.role.Verifier? && FirstAuthPayload(message).Some? &&
            MethodScheme(o, FirstAuthPayload(message).value.authMethod, FirstAuthPayload(message).value.data).Some? &&
            sa.authOctets(true, a.ikeSaInit, a.nonce, sa.otherId, a.reserved).None? ==>
      r == ProcessResult(Failed, sa.otherAuth)
    ensures r.status == Success ==>
      && a.role.Verifier? && FirstAuthPayload(message).Some?
      && var auth := FirstAuthPayload(message).value;
      && MethodScheme(o, auth.authMethod, auth.data).Some?
      && var parsed := MethodScheme(o, auth.authMethod, auth.data).value;
      && sa.authOctets(true, a.ikeSaInit, a.nonce, sa.otherId, a.reserved).Some?
      && var octets := sa.authOctets(true, a.ikeSaInit, a.nonce, sa.otherId, a.reserved).value;
      && exists i :: 0 <= i < |lib.publicKeys(parsed.keyType, sa.otherId, sa.otherAuth)| &&
           lib.publicKeys(parsed.keyType, sa.otherId, sa.otherAuth)[i].verify(parsed.scheme, octets, parsed.signature)
    ensures r.status != Success ==> r.otherAuth == sa.otherAuth
    ensures a.role.Verifier? && FirstAuthPayload(message).Some? &&
            MethodScheme(o, FirstAuthPayload(message).value.authMethod, FirstAuthPayload(message).value.data).Some? &&
            sa.authOctets(true, a.ikeSaInit, a.nonce, sa.otherId, a.reserved).Some? ==>
      var parsed := MethodScheme(o, FirstAuthPayload(message).value.authMethod, FirstAuthPayload(message).value.data).value;
      var octets := sa.authOctets(true, a.ikeSaInit, a.nonce, sa.otherId, a.reserved).value;
      var candidates := lib.publicKeys(parsed.keyType, sa.otherId, sa.otherAuth);
      && (r.status == NotFound <==> |candidates| == 0)
      && (r.status == Success <==> exists i :: 0 <= i < |candidates| && candidates[i].verify(parsed.scheme, octets, parsed.signature))
      && r == CheckCandidates(sa, candidates, parsed.scheme, octets, parsed.signature)
  {
    if a.role.Builder? then ProcessResult(Failed, sa.otherAuth)
    else match FirstAuthPayload(message)
      case None => ProcessResult(Failed, sa.otherAuth)
      case Some(auth) =>
        match MethodScheme(o, auth.authMethod, auth.data)
        case None => ProcessResult(InvalidArg, sa.otherAuth)
        case Some(parsed) =>
          match sa.authOctets(true, a.ikeSaInit, a.nonce, sa.otherId, a.reserved)
          case None => ProcessResult(Failed, sa.otherAuth)
          case Some(octets) =>
            CheckCandidates(sa, lib.publicKeys(parsed.keyType, sa.otherId, sa.otherAuth), parsed.scheme, octets, parsed.signature)
  }

  // Build and process together.

  /** The AUTH method `build` writes without RFC 7427 is one `process` maps
      back to the key's type and the scheme it signed with, leaving the
      signature as it is. */
  lemma LegacyMethodsAgree(o: SchemeOracles, key: PrivateKey, signature: Bytes)
    requires LegacyScheme(key).Some?
    ensures MethodScheme(o, LegacyScheme(key).value.1, signature) ==
      Some(ParsedAuthData(key.keyType, LegacyScheme(key).value.0, signature))
  {
  }

  /** The key type `process` looks up for what `build` signs with a scheme
      and method: the scheme's key type for RFC 7427, the key's own type
      otherwise. */
  function ProcessedKeyType(o: SchemeOracles, key: PrivateKey, scheme: SignatureScheme, authMethod: AuthMethod): KeyType
  {
    if authMethod == AuthDs then o.keyTypeFromScheme(scheme) else key.keyType
  }

  /** A builder and a verifier that agree on the AUTH octets: the AUTH
      payload the builder adds to a message without one is accepted by the
      verifier when the peer's first trusted key of the type it looks up
      verifies what our private key signs with the chosen scheme and, for
      RFC 7427, the OID tables and AlgorithmIdentifier coding invert each
      other and the chosen scheme's AlgorithmIdentifier fits the one-octet
      length. */
  lemma BuildThenProcess(
    builder: Authenticator, verifier: Authenticator, o: SchemeOracles,
    mine: IkeSa, theirs: IkeSa, myLib: Library, theirLib: Library, message: Message)
    requires builder.role.Builder? && verifier.role.Verifier?
    requires forall i :: 0 <= i < |message| ==> !message[i].AuthPayload?
    requires myLib.privateKey(mine.myId, mine.myAuth).Some?
    requires BuildScheme(o, mine, myLib, myLib.privateKey(mine.myId, mine.myAuth).value).Some?
    requires theirs.authOctets(true, verifier.ikeSaInit, verifier.nonce, theirs.otherId, verifier.reserved) ==
             mine.authOctets(false, builder.ikeSaInit, builder.nonce, mine.myId, builder.reserved)
    requires var key := myLib.privateKey(mine.myId, mine.myAuth).value;
      var (scheme, authMethod) := BuildScheme(o, mine, myLib, key).value;
      var keys := theirLib.publicKeys(ProcessedKeyType(o, key, scheme, authMethod), theirs.otherId, theirs.otherAuth);
      forall octets :: key.sign(scheme, octets).Some? ==>
        |keys| > 0 && keys[0].verify(scheme, octets, key.sign(scheme, octets).value)
    requires OraclesInvert(o)
    requires var key := myLib.privateKey(mine.myId, mine.myAuth).value;
      var (scheme, authMethod) := BuildScheme(o, mine, myLib, key).value;
      authMethod == AuthDs ==> |o.algorithmIdentifier(o.schemeToOid(scheme))| < 256
    requires Build(builder, o, mine, myLib, message).status == Success
    ensures Process(verifier, o, theirs, theirLib, Build(builder, o, mine, myLib, message).message).status == Success
  {
    var key := myLib.privateKey(mine.myId, mine.myAuth).value;
    var built := Build(builder, o, mine, myLib, message).message;
    var octets := mine.authOctets(false, builder.ikeSaInit, builder.nonce, mine.myId, builder.reserved).value;
    var (scheme, authMethod) := BuildScheme(o, mine, myLib, key).value;
    var signature := key.sign(scheme, octets).value;
    var auth := built[|message|];
    assert FirstAuthPayload(built) == Some(auth) by {
      forall j | 0 <= j < |message|
        ensures !built[j].AuthPayload?
      {
        assert built[j] == built[..|message|][j];
      }
    }
    var parsed := MethodScheme(o, auth.authMethod, auth.data);
    if authMethod == AuthDs {
      assert mine.signatureAuthExtension;
      assert scheme != SignUnknown;
      ParseBuildRoundTrip(o, signature, scheme);
      assert parsed == Some(ParsedAuthData(o.keyTypeFromScheme(scheme), scheme, signature));
    } else {
      LegacyMethodsAgree(o, key, signature);
      assert parsed == Some(ParsedAuthData(key.keyType, scheme, signature));
    }
    var candidates := theirLib.publicKeys(parsed.value.keyType, theirs.otherId, theirs.otherAuth);
    assert candidates[0].verify(scheme, octets, signature);
  }

  /** The assumptions of `BuildThenProcess` can be met: with an ECDSA key
      whose signature is the octets themselves, a peer key that accepts
      exactly those, the unary oracles and a configured P-256 scheme, the
      RFC 7427 AUTH payload built from an empty message is accepted. */
  lemma BuildThenProcessReachable()
    ensures var o := UnaryOracles();
      var key := PrivateKey(KeyEcdsa, 256, (s, octets) => Some(octets));
      var peer := Candidate((s, octets, signature) => signature == octets, []);
      var sa := IkeSa(Identity([]), Identity([]), [SignatureSchemeRule(SignEcdsa256)], [], true,
                      h => true, (v, init, nonce, id, reserved) => Some(init + nonce),
                      (a, b) => a + b);
      var lib := Library((id, cfg) => Some(key), (kt, id, cfg) => [peer], []);
      var builder := CreateBuilder([2], [1], [0, 0, 0]);
      var verifier := CreateVerifier([2], [1], [0, 0, 0]);
      && Build(builder, o, sa, lib, []).status == Success
      && Build(builder, o, sa, lib, []).message[0].authMethod == AuthDs
      && Process(verifier, o, sa, lib, Build(builder, o, sa, lib, []).message).status == Success
  {
    var o := UnaryOracles();
    var key := PrivateKey(KeyEcdsa, 256, (s, octets) => Some(octets));
    var peer := Candidate((s, octets, signature) => signature == octets, []);
    var sa := IkeSa(Identity([]), Identity([]), [SignatureSchemeRule(SignEcdsa256)], [], true,
                    h => true, (v, init, nonce, id, reserved) => Some(init + nonce),
                    (a, b) => a + b);
    var lib := Library((id, cfg) => Some(key), (kt, id, cfg) => [peer], []);
    var builder := CreateBuilder([2], [1], [0, 0, 0]);
    var verifier := CreateVerifier([2], [1], [0, 0, 0]);
    UnaryOraclesInvert();
    assert Fits(o, sa, KeyEcdsa, SignEcdsa256);
    assert SelectSignatureScheme(o, sa, KeyEcdsa, sa.myAuth, lib.hashers) == SignEcdsa256;
    assert BuildScheme(o, sa, lib, key) == Some((SignEcdsa256, AuthDs));
    assert BuildSignatureAuthData(o, [1, 2], SignEcdsa256).Some?;
    BuildThenProcess(builder, verifier, o, sa, sa, lib, lib, []);
  }

  /** The two roles refuse each other's operation, whatever the message. */
  lemma WrongRoleFails(o: SchemeOracles, sa: IkeSa, lib: Library, message: Message,
                       receivedNonce: Bytes, sentInit: Bytes, sentNonce: Bytes, receivedInit: Bytes, reserved: seq<Byte>)
    requires |reserved| >= 3
    ensures Process(CreateBuilder(receivedNonce, sentInit, reserved), o, sa, lib, message).status == Failed
    ensures Build(CreateVerifier(sentNonce, receivedInit, reserved), o, sa, lib, message) == BuildResult(Failed, message)
  {
  }
}
