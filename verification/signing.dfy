/** Signing and signature verification of a certificate as state
    transitions. The cryptographic engine is a parameter: its three
    operations are functions this model does not define, and an operation
    that would reject its promise returns `None`. */
module Signing {
  import opened Wrappers
  import opened Errors
  import opened Asn1
  import opened Entities
  import opened Codecs
  import opened CertificateLayouts
  import opened Certificates
  import opened Encoding

  /** A private key handle; its contents are opaque to this model. */
  datatype PrivateKey = PrivateKey(handle: seq<byte>)

  /** What the engine chooses for a key and hash: the algorithm identifier
      to record, and opaque parameters for the signing call. */
  datatype SignatureParameters = SignatureParameters(
    signatureAlgorithm: AlgorithmIdentifier,
    parameters: seq<byte>)

  /** The cryptographic engine (`getCrypto(true)`). */
  datatype Engine = Engine(
    getSignatureParameters: (PrivateKey, string) -> Option<SignatureParameters>,
    signWithPrivateKey: (seq<byte>, PrivateKey, seq<byte>) -> Option<seq<byte>>,
    verifyWithPublicKey: (seq<byte>, Node, PublicKeyInfo, AlgorithmIdentifier) -> Option<bool>)

  /** The hash algorithm `sign` uses when none is given. */
  const DefaultHashAlgorithm: string := "SHA-1"

  /** The certificate after a call, and the error the call raised, if any.
      A failed call can leave some members already assigned. */
  datatype Outcome = Outcome(cert: Certificate, failure: Option<Error>)

  /** The engine's choice for a key and the requested hash, SHA-1 when none
      is requested. */
  function ChosenParameters(key: PrivateKey, hashAlgorithm: Option<string>, engine: Engine): Option<SignatureParameters> {
    engine.getSignatureParameters(key, hashAlgorithm.GetOr(DefaultHashAlgorithm))
  }

  /** The members `sign` may assign. */
  predicate SignTouches(m: Member) {
    m == TbsCertificate || m == Signature || m == SignatureAlgorithm || m == SignatureValue
  }

  /** `sign(privateKey, hashAlgorithm)`.
      Without a key nothing changes; when the engine gives no parameters
      nothing changes either. Otherwise `signature` and `signatureAlgorithm`
      become the engine's identifier and `tbs` the serialised reassembly
      of the fields as they are then; only when the engine also returns a
      signature is `signatureValue` replaced by it. */
  function Sign(c: Certificate, key: Option<PrivateKey>, hashAlgorithm: Option<string>,
                engine: Engine, codec: Codec): (r: Outcome)
    ensures forall m: Member :: !SignTouches(m) ==> FieldValue(r.cert, m) == FieldValue(c, m)
    ensures key.None? ==> r == Outcome(c, Some(MissingKey))
    ensures key.Some? && ChosenParameters(key.value, hashAlgorithm, engine).None? ==>
      r == Outcome(c, Some(ProviderFailure))
    ensures key.Some? && ChosenParameters(key.value, hashAlgorithm, engine).Some? ==>
      var sp := ChosenParameters(key.value, hashAlgorithm, engine).value;
      var signature := engine.signWithPrivateKey(r.cert.tbs, key.value, sp.parameters);
      && r.cert.signature == sp.signatureAlgorithm
      && r.cert.signatureAlgorithm == sp.signatureAlgorithm
      && r.cert.tbs == codec.toBer(EncodeTBS(r.cert, codec))
      && (r.failure.None? <==> signature.Some?)
      && (signature.Some? ==> r.cert.signatureValue == BitString(signature.value))
      && (signature.None? ==> r.failure == Some(ProviderFailure) && r.cert.signatureValue == c.signatureValue)
  {
    match key
    case None => Outcome(c, Some(MissingKey))
    case Some(k) =>
      match ChosenParameters(k, hashAlgorithm, engine)
      case None => Outcome(c, Some(ProviderFailure))
      case Some(sp) =>
        var named := c.(signature := sp.signatureAlgorithm, signatureAlgorithm := sp.signatureAlgorithm);
        var prepared := named.(tbs := codec.toBer(EncodeTBS(named, codec)));
        assert EncodeTBS(prepared, codec) == EncodeTBS(named, codec);
        match engine.signWithPrivateKey(prepared.tbs, k, sp.parameters)
        case None => Outcome(prepared, Some(ProviderFailure))
        case Some(sig) =>
          var signed := prepared.(signatureValue := BitString(sig));
          assert EncodeTBS(signed, codec) == EncodeTBS(named, codec);
          Outcome(signed, None)
  }

  /** The key `verify` checks against: the issuer certificate's when one
      is given, otherwise the certificate's own when it is self-issued. */
  function VerificationKey(c: Certificate, issuerCertificate: Option<Certificate>,
                           nameEqual: (Name, Name) -> bool): (r: Option<PublicKeyInfo>)
    ensures issuerCertificate.Some? ==> r == Some(issuerCertificate.value.subjectPublicKeyInfo)
    ensures issuerCertificate.None? ==> (r.Some? <==> nameEqual(c.issuer, c.subject))
    ensures issuerCertificate.None? && r.Some? ==> r.value == c.subjectPublicKeyInfo
  {
    if issuerCertificate.Some? then Some(issuerCertificate.value.subjectPublicKeyInfo)
    else if nameEqual(c.issuer, c.subject) then Some(c.subjectPublicKeyInfo)
    else None
  }

  /** `verify(issuerCertificate)`: checks the stored `tbs` bytes and
      signature against the resolved key, and fails when no key can be
      resolved or when the engine rejects its promise. `nameEqual` is the
      Name structure's equality. */
  function Verify(c: Certificate, issuerCertificate: Option<Certificate>,
                  nameEqual: (Name, Name) -> bool, engine: Engine): (r: Result<bool, Error>)
    ensures r == Err(MissingIssuer) <==> issuerCertificate.None? && !nameEqual(c.issuer, c.subject)
    ensures VerificationKey(c, issuerCertificate, nameEqual).Some? ==>
      var verdict := engine.verifyWithPublicKey(c.tbs, c.signatureValue,
        VerificationKey(c, issuerCertificate, nameEqual).value, c.signatureAlgorithm);
      && (r.Ok? <==> verdict.Some?)
      && (verdict.Some? ==> r.value == verdict.value)
      && (verdict.None? ==> r == Err(ProviderFailure))
  {
    match VerificationKey(c, issuerCertificate, nameEqual)
    case None => Err(MissingIssuer)
    case Some(key) =>
      match engine.verifyWithPublicKey(c.tbs, c.signatureValue, key, c.signatureAlgorithm)
      case None => Err(ProviderFailure)
      case Some(verdict) => Ok(verdict)
  }

  /** `verify` reads the stored bytes, not the fields they were built from:
      two certificates that agree on the stored bytes and the signature, and
      that resolve to the same key, verify alike whatever their other
      members hold. Without an issuer certificate only the outcome of the
      self-issued test matters, and the own key only when that test passes. */
  lemma VerifyUsesStoredBytes(c: Certificate, d: Certificate, issuerCertificate: Option<Certificate>,
                              nameEqual: (Name, Name) -> bool, engine: Engine)
    requires c.tbs == d.tbs && c.signatureValue == d.signatureValue && c.signatureAlgorithm == d.signatureAlgorithm
    requires issuerCertificate.None? ==> nameEqual(c.issuer, c.subject) == nameEqual(d.issuer, d.subject)
    requires issuerCertificate.None? && nameEqual(c.issuer, c.subject) ==>
      c.subjectPublicKeyInfo == d.subjectPublicKeyInfo
    ensures Verify(c, issuerCertificate, nameEqual, engine) == Verify(d, issuerCertificate, nameEqual, engine)
  {
  }

  /** Changing the subject of a signed self-issued certificate does not
      touch the stored bytes, so verification without an issuer certificate
      still accepts it as long as the new subject is equal to the issuer,
      and reports a missing issuer otherwise. */
  lemma VerifyAfterSubjectChange(c: Certificate, key: PrivateKey, hashAlgorithm: Option<string>,
                                 subject: Name, nameEqual: (Name, Name) -> bool, engine: Engine, codec: Codec)
    requires KeyPair(engine, key, c.subjectPublicKeyInfo)
    requires Sign(c, Some(key), hashAlgorithm, engine, codec).failure.None?
    ensures Verify(Sign(c, Some(key), hashAlgorithm, engine, codec).cert.(subject := subject), None, nameEqual, engine)
         == if nameEqual(c.issuer, subject) then Ok(true) else Err(MissingIssuer)
  {
    var s := Sign(c, Some(key), hashAlgorithm, engine, codec).cert;
    var sp := ChosenParameters(key, hashAlgorithm, engine).value;
    assert FieldValue(s, Issuer) == FieldValue(c, Issuer);
    assert FieldValue(s, SubjectPublicKeyInfo) == FieldValue(c, SubjectPublicKeyInfo);
    KeyPairAccepts(engine, key, c.subjectPublicKeyInfo, s.tbs, sp.parameters, s.signatureAlgorithm);
  }

  /** An engine whose verification accepts every signature its signing
      produces with `key`, checked against `publicKey`. */
  ghost predicate KeyPair(engine: Engine, key: PrivateKey, publicKey: PublicKeyInfo) {
    forall data: seq<byte>, parameters: seq<byte>, algorithm: AlgorithmIdentifier
      | engine.signWithPrivateKey(data, key, parameters).Some? ::
      engine.verifyWithPublicKey(data, BitString(engine.signWithPrivateKey(data, key, parameters).value),
        publicKey, algorithm) == Some(true)
  }

  /** A self-issued certificate signed with the private half of its own key
      verifies without an issuer certificate. */
  lemma SignThenVerify(c: Certificate, key: PrivateKey, hashAlgorithm: Option<string>,
                        nameEqual: (Name, Name) -> bool, engine: Engine, codec: Codec)
    requires nameEqual(c.issuer, c.subject)
    requires KeyPair(engine, key, c.subjectPublicKeyInfo)
    requires Sign(c, Some(key), hashAlgorithm, engine, codec).failure.None?
    ensures Verify(Sign(c, Some(key), hashAlgorithm, engine, codec).cert, None, nameEqual, engine) == Ok(true)
  {
    var s := Sign(c, Some(key), hashAlgorithm, engine, codec).cert;
    assert FieldValue(s, Subject) == FieldValue(c, Subject);
    assert s.(subject := c.subject) == s;
    VerifyAfterSubjectChange(c, key, hashAlgorithm, c.subject, nameEqual, engine, codec);
  }

  lemma KeyPairAccepts(engine: Engine, key: PrivateKey, publicKey: PublicKeyInfo,
                       data: seq<byte>, parameters: seq<byte>, algorithm: AlgorithmIdentifier)
    requires KeyPair(engine, key, publicKey)
    requires engine.signWithPrivateKey(data, key, parameters).Some?
    ensures engine.verifyWithPublicKey(data, BitString(engine.signWithPrivateKey(data, key, parameters).value),
      publicKey, algorithm) == Some(true)
  {
  }

  /** After a successful signing the stored bytes and the reassembled fields
      agree, so both ways of serialising give the same tree. */
  lemma SignedSerialisationsAgree(c: Certificate, key: PrivateKey, hashAlgorithm: Option<string>,
                                  engine: Engine, codec: Codec)
    requires Lawful(codec)
    requires Sign(c, Some(key), hashAlgorithm, engine, codec).failure.None?
    ensures ToSchema(Sign(c, Some(key), hashAlgorithm, engine, codec).cert, false, codec)
         == ToSchema(Sign(c, Some(key), hashAlgorithm, engine, codec).cert, true, codec)
  {
    var s := Sign(c, Some(key), hashAlgorithm, engine, codec).cert;
    var t := EncodeTBS(s, codec);
    assert codec.toBer(t) == s.tbs;
    assert |s.tbs| >= 2;
    assert codec.fromBer(s.tbs) == Some(t);
  }
}
