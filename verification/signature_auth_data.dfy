/** The authentication data of the Digital Signature method of RFC 7427,
    section 3: a one-octet length, an ASN.1 AlgorithmIdentifier naming the
    signature scheme, then the signature itself. The OID tables and the
    ASN.1 encoder and parser are collaborators passed in as functions. */
module SignatureAuthData {
  import opened IkeTypes

  /** `key_type_t`: the key types the authenticator distinguishes, and any
      other one by its code. */
  datatype KeyType = KeyAny | KeyRsa | KeyEcdsa | KeyOther(code: nat)

  /** `signature_scheme_t`: SIGN_UNKNOWN, the schemes of the RFC 7296 and
      RFC 4754 methods, and any other scheme by its code. */
  datatype SignatureScheme =
    | SignUnknown
    | SignRsaEmsaPkcs1Sha1
    | SignEcdsa256
    | SignEcdsa384
    | SignEcdsa521
    | SignOther(code: nat)

  /** An ASN.1 object identifier as an index into the OID table. */
  type Oid = int

  /** OID_UNKNOWN. */
  const OidUnknown: Oid := -1

  /** A hash algorithm by its `hash_algorithm_t` code. */
  type HashAlgorithm = nat

  /** The mappings between schemes, OIDs, key types and hashers, and the
      AlgorithmIdentifier encoder and parser. */
  datatype SchemeOracles = SchemeOracles(
    schemeFromOid: Oid -> SignatureScheme,
    schemeToOid: SignatureScheme -> Oid,
    keyTypeFromScheme: SignatureScheme -> KeyType,
    hasherFromScheme: SignatureScheme -> HashAlgorithm,
    hasherSignatureAlgorithmToOid: (HashAlgorithm, KeyType) -> Oid,
    algorithmIdentifier: Oid -> Bytes,
    parseAlgorithmIdentifier: Bytes -> Oid)

  /** What a successful parse yields: the scheme, the key type it implies
      and the signature that follows the prefix. */
  datatype ParsedAuthData = ParsedAuthData(keyType: KeyType, scheme: SignatureScheme, signature: Bytes)

  /** `chunk_skip`: the data after the first `n` octets, or nothing when
      there are not more than `n`. */
  function Skip(data: Bytes, n: nat): (r: Bytes)
    ensures |data| > n ==> r == data[n..] && |r| == |data| - n
    ensures |data| <= n ==> r == []
  {
    if |data| > n then data[n..] else []
  }

  /** `parse_signature_auth_data`: reads the length octet, the scheme named
      by the AlgorithmIdentifier behind it, and skips the length's worth of
      octets to reach the signature. */
  function ParseSignatureAuthData(o: SchemeOracles, authData: Bytes): (r: Option<ParsedAuthData>)
    ensures r.None? <==>
      |authData| == 0 || o.schemeFromOid(o.parseAlgorithmIdentifier(authData[1..])) == SignUnknown
    ensures r.Some? ==>
      && r.value.scheme == o.schemeFromOid(o.parseAlgorithmIdentifier(authData[1..]))
      && r.value.scheme != SignUnknown
      && r.value.keyType == o.keyTypeFromScheme(r.value.scheme)
      && (|authData| > 1 + authData[0] as int ==> r.value.signature == authData[1 + authData[0] as int..])
      && (|authData| <= 1 + authData[0] as int ==> r.value.signature == [])
  {
    if |authData| == 0 then None
    else
      var len := authData[0];
      var data := authData[1..];
      var scheme := o.schemeFromOid(o.parseAlgorithmIdentifier(data));
      if scheme == SignUnknown then None
      else Some(ParsedAuthData(o.keyTypeFromScheme(scheme), scheme, Skip(data, len as nat)))
  }

  /** `build_signature_auth_data`: prefixes the signature with the
      AlgorithmIdentifier of the scheme's OID and its length, truncated to
      one octet; fails when the scheme has no OID. */
  function BuildSignatureAuthData(o: SchemeOracles, signature: Bytes, scheme: SignatureScheme): (r: Option<Bytes>)
    ensures r.None? <==> o.schemeToOid(scheme) == OidUnknown
    ensures r.Some? ==>
      && |r.value| == 1 + |o.algorithmIdentifier(o.schemeToOid(scheme))| + |signature|
      && r.value[0] as int == |o.algorithmIdentifier(o.schemeToOid(scheme))| % 256
      && r.value[1..] == o.algorithmIdentifier(o.schemeToOid(scheme)) + signature
  {
    var oid := o.schemeToOid(scheme);
    if oid == OidUnknown then None
    else
      var algorithm := o.algorithmIdentifier(oid);
      var len := (|algorithm| % 256) as Byte;
      Some([len] + algorithm + signature)
  }

  /** The AlgorithmIdentifier parser reads back what the encoder writes,
      whatever follows it, and the OID tables invert each other. */
  ghost predicate OraclesInvert(o: SchemeOracles)
  {
    && (forall oid, rest :: oid != OidUnknown ==> o.parseAlgorithmIdentifier(o.algorithmIdentifier(oid) + rest) == oid)
    && (forall s :: o.schemeToOid(s) != OidUnknown ==> o.schemeFromOid(o.schemeToOid(s)) == s)
  }

  /** Parsing built authentication data recovers the scheme, its key type
      and the signature, provided the AlgorithmIdentifier fits in the
      one-octet length. */
  lemma ParseBuildRoundTrip(o: SchemeOracles, signature: Bytes, scheme: SignatureScheme)
    requires OraclesInvert(o)
    requires scheme != SignUnknown && o.schemeToOid(scheme) != OidUnknown
    requires |o.algorithmIdentifier(o.schemeToOid(scheme))| < 256
    ensures BuildSignatureAuthData(o, signature, scheme).Some?
    ensures ParseSignatureAuthData(o, BuildSignatureAuthData(o, signature, scheme).value) ==
      Some(ParsedAuthData(o.keyTypeFromScheme(scheme), scheme, signature))
  {
    var oid := o.schemeToOid(scheme);
    var algorithm := o.algorithmIdentifier(oid);
    var built := BuildSignatureAuthData(o, signature, scheme).value;
    assert built[1..] == algorithm + signature;
    assert o.parseAlgorithmIdentifier(built[1..]) == oid;
    assert built[1 + built[0] as int..] == signature by {
      assert built[0] as int == |algorithm|;
      assert built[1..][|algorithm|..] == signature;
    }
  }

  /** An AlgorithmIdentifier of 256 octets or more is announced with its
      length modulo 256, so the parse stops short of the signature and
      returns part of the AlgorithmIdentifier in front of it. */
  lemma LongAlgorithmIdentifierMisread(o: SchemeOracles, signature: Bytes, scheme: SignatureScheme)
    requires OraclesInvert(o)
    requires scheme != SignUnknown && o.schemeToOid(scheme) != OidUnknown
    requires |o.algorithmIdentifier(o.schemeToOid(scheme))| >= 256
    ensures BuildSignatureAuthData(o, signature, scheme).Some?
    ensures var parsed := ParseSignatureAuthData(o, BuildSignatureAuthData(o, signature, scheme).value);
      && parsed.Some? && parsed.value.scheme == scheme
      && |parsed.value.signature| > |signature|
  {
    var oid := o.schemeToOid(scheme);
    var algorithm := o.algorithmIdentifier(oid);
    var built := BuildSignatureAuthData(o, signature, scheme).value;
    assert built[1..] == algorithm + signature;
    assert o.parseAlgorithmIdentifier(built[1..]) == oid;
    assert built[0] as int < 256 <= |algorithm|;
  }

  // Oracles meeting the inversion assumption exist.

  /** A self-delimiting coding of a natural number: `n` octets 1, then 0. */
  function Unary(n: nat): Bytes
  {
    if n == 0 then [0] else [1] + Unary(n - 1)
  }

  /** Counts the leading octets 1. */
  function ReadUnary(b: Bytes): nat
  {
    if |b| == 0 || b[0] != 1 then 0 else 1 + ReadUnary(b[1..])
  }

  lemma {:induction false} ReadUnaryCoded(n: nat, rest: Bytes)
    ensures ReadUnary(Unary(n) + rest) == n
  {
    if n > 0 {
      assert Unary(n) + rest == [1] + (Unary(n - 1) + rest);
      assert (Unary(n) + rest)[1..] == Unary(n - 1) + rest;
      ReadUnaryCoded(n - 1, rest);
    }
  }

  function OidToNat(oid: Oid): nat
  {
    if oid >= 0 then 2 * oid else -2 * oid - 1
  }

  function NatToOid(n: nat): Oid
  {
    if n % 2 == 0 then n / 2 else -(n + 1) / 2
  }

  /** Oracles that know one scheme, ECDSA with P-256, under OID 0, and code
      every AlgorithmIdentifier in unary. */
  function UnaryOracles(): SchemeOracles
  {
    SchemeOracles(
      oid => if oid == 0 then SignEcdsa256 else SignUnknown,
      s => if s == SignEcdsa256 then 0 else OidUnknown,
      s => KeyEcdsa,
      s => 0,
      (h, k) => 0,
      oid => Unary(OidToNat(oid)),
      b => NatToOid(ReadUnary(b)))
  }

  /** The unary oracles invert each other, and the AlgorithmIdentifier of
      their one scheme is a single octet. */
  lemma UnaryOraclesInvert()
    ensures OraclesInvert(UnaryOracles())
    ensures |UnaryOracles().algorithmIdentifier(UnaryOracles().schemeToOid(SignEcdsa256))| == 1
  {
    var o := UnaryOracles();
    forall oid, rest | oid != OidUnknown
      ensures o.parseAlgorithmIdentifier(o.algorithmIdentifier(oid) + rest) == oid
    {
      ReadUnaryCoded(OidToNat(oid), rest);
    }
  }
}
