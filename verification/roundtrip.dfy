/** Decoding and re-encoding a certificate: what `fromSchema` recovers from
    the tree `toSchema(true)` builds, and what `toSchema(false)` gives back
    after `fromSchema`. */
module CertificateRoundTrip {
  import opened Wrappers
  import opened Asn1
  import opened SchemaMatch
  import opened Entities
  import opened Codecs
  import opened CertificateLayouts
  import opened Certificates
  import opened Encoding

  /** Members whose trees have the shapes the layout requires, and
      extensions that decode to themselves. */
  predicate WellFormed(c: Certificate, codec: Codec) {
    && WellFormedMandatory(c)
    && (c.extensions.Some? ==> forall i | 0 <= i < |c.extensions.value| :: Reencodes(codec, c.extensions.value[i]))
    && IsSequence(c.signatureAlgorithm.asn1)
    && c.signatureValue.Primitive? && c.signatureValue.tag == BitStringTag
  }

  /** The mandatory members have the shapes the layout requires. */
  predicate WellFormedMandatory(c: Certificate) {
    && c.serialNumber.Primitive? && c.serialNumber.tag == IntegerTag
    && IsSequence(c.signature.asn1)
    && IsSequence(c.issuer.asn1)
    && IsTimeLeaf(c.notBefore.asn1)
    && IsTimeLeaf(c.notAfter.asn1)
    && IsSequence(c.subject.asn1)
    && IsSequence(c.subjectPublicKeyInfo.asn1)
  }

  /** A certificate to decode into that holds nothing a decoding could
      leave behind: version v1 and no optional part. */
  predicate Blank(prior: Certificate) {
    prior.version == DefaultVersion && prior.issuerUniqueID.None? && prior.subjectUniqueID.None? && prior.extensions.None?
  }

  // ---------------------------------------------------------------------
  // The captures of each segment of the encoded TBSCertificate

  lemma TimeMatches(name: Field, n: Node)
    requires IsTimeLeaf(n)
    ensures Match(TimeLayout(name), n) == Some(map[name := One(n)])
  {
    var alternatives := TimeLayout(name).alternatives;
    if n.tag == UtcTimeTag {
      assert Match(alternatives.head, n) == Some(Capture(Some(name), One(n)));
    } else {
      assert Match(alternatives.head, n).None?;
      assert Match(alternatives.tail.head, n) == Some(Capture(Some(name), One(n)));
      assert MatchFirst(alternatives.tail, n) == Some(Capture(Some(name), One(n)));
    }
  }

  function ValidityCaps(c: Certificate): map<Field, Captured> {
    map[Validity := One(ValidityNode(c))]
      + (map[NotBefore := One(c.notBefore.asn1)] + (map[NotAfter := One(c.notAfter.asn1)] + map[]))
  }

  lemma ValidityMatches(c: Certificate)
    requires IsTimeLeaf(c.notBefore.asn1) && IsTimeLeaf(c.notAfter.asn1)
    ensures Match(ValidityLayout(), ValidityNode(c)) == Some(ValidityCaps(c))
  {
    var kids := ValidityNode(c).children;
    TimeMatches(NotBefore, c.notBefore.asn1);
    TimeMatches(NotAfter, c.notAfter.asn1);
    assert kids[1..][1..] == [];
    MatchItemsTake(TimeLayout(NotAfter), Nil, kids[1..]);
    MatchItemsTake(TimeLayout(NotBefore), Cons(TimeLayout(NotAfter), Nil), kids);
  }

  function ExtensionsCaps(codec: Codec, extensions: seq<Extension>): map<Field, Captured> {
    map[Extensions := Many(ExtensionNodes(codec, extensions))]
  }

  lemma ExtensionsMatch(codec: Codec, extensions: seq<Extension>)
    requires Lawful(codec)
    ensures Match(ExtensionsItem(), ExtensionsElement(codec, extensions)) == Some(ExtensionsCaps(codec, extensions))
  {
    var nodes := ExtensionNodes(codec, extensions);
    var list := ExtensionsItem().items.head;
    assert forall i | 0 <= i < |nodes| :: Match(list.item, nodes[i]).Some?;
    assert Match(list, Constructed(SequenceTag, nodes)) == Some(Capture(None, One(Constructed(SequenceTag, nodes))) + Capture(Some(Extensions), Many(nodes)));
    assert Capture(None, One(Constructed(SequenceTag, nodes))) + Capture(Some(Extensions), Many(nodes)) == map[Extensions := Many(nodes)];
    assert [Constructed(SequenceTag, nodes)][1..] == [];
    MatchItemsTake(list, Nil, [Constructed(SequenceTag, nodes)]);
    var inner := MatchItems(ExtensionsItem().items, [Constructed(SequenceTag, nodes)]);
    assert inner == Some(map[Extensions := Many(nodes)] + map[]);
    assert Capture(None, One(ExtensionsElement(codec, extensions))) + inner.value == map[Extensions := Many(nodes)];
  }

  /** The captures of the `[3]` part: the list when present. */
  function Caps3(c: Certificate, codec: Codec): map<Field, Captured> {
    if c.extensions.Some? then ExtensionsCaps(codec, c.extensions.value) + map[] else map[]
  }

  function Elements3(c: Certificate, codec: Codec): seq<Node> {
    if c.extensions.Some? then [ExtensionsElement(codec, c.extensions.value)] else []
  }

  function Caps2(c: Certificate, codec: Codec): map<Field, Captured> {
    if c.subjectUniqueID.Some? then map[SubjectUniqueID := One(Primitive(ContextTag(2), c.subjectUniqueID.value))] + Caps3(c, codec)
    else Caps3(c, codec)
  }

  function Elements2(c: Certificate, codec: Codec): seq<Node> {
    (if c.subjectUniqueID.Some? then [Primitive(ContextTag(2), c.subjectUniqueID.value)] else []) + Elements3(c, codec)
  }

  /** The captures of the trailing OPTIONAL part. */
  function OptionalCaps(c: Certificate, codec: Codec): map<Field, Captured> {
    if c.issuerUniqueID.Some? then map[IssuerUniqueID := One(Primitive(ContextTag(1), c.issuerUniqueID.value))] + Caps2(c, codec)
    else Caps2(c, codec)
  }

  lemma Optional3Matches(c: Certificate, codec: Codec)
    requires Lawful(codec)
    ensures MatchItems(OptionalItems().tail.tail, Elements3(c, codec)) == Some(Caps3(c, codec))
  {
    var items := OptionalItems().tail.tail;
    if c.extensions.Some? {
      ExtensionsMatch(codec, c.extensions.value);
      assert Elements3(c, codec)[1..] == [];
      MatchItemsTake(items.head, Nil, Elements3(c, codec));
    }
  }

  lemma Optional2Matches(c: Certificate, codec: Codec)
    requires Lawful(codec)
    ensures MatchItems(OptionalItems().tail, Elements2(c, codec)) == Some(Caps2(c, codec))
  {
    var items := OptionalItems().tail;
    Optional3Matches(c, codec);
    var kids := Elements2(c, codec);
    if c.subjectUniqueID.Some? {
      assert kids[1..] == Elements3(c, codec);
      MatchItemsTake(items.head, items.tail, kids);
    } else {
      assert kids == Elements3(c, codec);
      MatchItemsSkip(items.head, items.tail, kids);
    }
  }

  lemma OptionalMatches(c: Certificate, codec: Codec)
    requires Lawful(codec)
    ensures MatchItems(OptionalItems(), OptionalElements(c, codec)) == Some(OptionalCaps(c, codec))
  {
    var items := OptionalItems();
    Optional2Matches(c, codec);
    var kids := OptionalElements(c, codec);
    if c.issuerUniqueID.Some? {
      assert kids[1..] == Elements2(c, codec);
      MatchItemsTake(items.head, items.tail, kids);
    } else {
      assert kids == Elements2(c, codec);
      MatchItemsSkip(items.head, items.tail, kids);
    }
  }

  /** The captures of the six mandatory fields, followed by `tail`. */
  function MandatoryCaps(c: Certificate, tail: map<Field, Captured>): map<Field, Captured> {
    map[SerialNumber := One(c.serialNumber)] + SignatureOnwardCaps(c, tail)
  }

  function SignatureOnwardCaps(c: Certificate, tail: map<Field, Captured>): map<Field, Captured> {
    map[Signature := One(c.signature.asn1)] + IssuerOnwardCaps(c, tail)
  }

  function IssuerOnwardCaps(c: Certificate, tail: map<Field, Captured>): map<Field, Captured> {
    map[Issuer := One(c.issuer.asn1)] + ValidityOnwardCaps(c, tail)
  }

  function ValidityOnwardCaps(c: Certificate, tail: map<Field, Captured>): map<Field, Captured> {
    ValidityCaps(c) + KeyCaps(c, tail)
  }

  function KeyCaps(c: Certificate, tail: map<Field, Captured>): map<Field, Captured> {
    map[Subject := One(c.subject.asn1)] + (map[SubjectPublicKeyInfo := One(c.subjectPublicKeyInfo.asn1)] + tail)
  }

  lemma LastMandatoryMatches(c: Certificate, rest: seq<Node>, restCaps: map<Field, Captured>)
    requires IsSequence(c.subject.asn1) && IsSequence(c.subjectPublicKeyInfo.asn1)
    requires MatchItems(OptionalItems(), rest) == Some(restCaps)
    ensures MatchItems(MandatoryItems().tail.tail.tail.tail, [c.subject.asn1, c.subjectPublicKeyInfo.asn1] + rest)
      == Some(KeyCaps(c, restCaps))
  {
    var items := MandatoryItems().tail.tail.tail.tail;
    var kids := [c.subject.asn1, c.subjectPublicKeyInfo.asn1] + rest;
    assert kids[1..][1..] == rest;
    MatchItemsTake(items.tail.head, items.tail.tail, kids[1..]);
    MatchItemsTake(items.head, items.tail, kids);
  }

  lemma MandatoryMatchesOver(c: Certificate, rest: seq<Node>, restCaps: map<Field, Captured>)
    requires WellFormedMandatory(c)
    requires MatchItems(OptionalItems(), rest) == Some(restCaps)
    ensures MatchItems(MandatoryItems(), MandatoryElements(c) + rest) == Some(MandatoryCaps(c, restCaps))
  {
    var items := MandatoryItems();
    var kids := MandatoryElements(c) + rest;
    LastMandatoryMatches(c, rest, restCaps);
    ValidityMatches(c);
    assert kids[4..] == [c.subject.asn1, c.subjectPublicKeyInfo.asn1] + rest;
    assert kids[3..][1..] == kids[4..];
    MatchItemsTake(items.tail.tail.tail.head, items.tail.tail.tail.tail, kids[3..]);
    assert kids[2..][1..] == kids[3..];
    MatchItemsTake(items.tail.tail.head, items.tail.tail.tail, kids[2..]);
    assert kids[1..][1..] == kids[2..];
    MatchItemsTake(items.tail.head, items.tail.tail, kids[1..]);
    MatchItemsTake(items.head, items.tail, kids);
  }

  /** The capture of the `[0]` wrapper: the INTEGER under `version`. */
  function VersionCaps(c: Certificate, codec: Codec): map<Field, Captured> {
    map[] + (map[Version := One(IntegerNode(codec, c.version))] + map[])
  }

  lemma VersionMatches(c: Certificate, codec: Codec)
    requires c.version != DefaultVersion
    ensures Match(VersionItem(), VersionElements(c, codec)[0]) == Some(VersionCaps(c, codec))
  {
    var kids := VersionElements(c, codec)[0].children;
    assert kids[1..] == [];
    MatchItemsTake(VersionItem().items.head, Nil, kids);
  }

  /** The captures of the items of the encoded TBSCertificate. */
  function TbsCaps(c: Certificate, codec: Codec): map<Field, Captured> {
    var mandatory := MandatoryCaps(c, OptionalCaps(c, codec));
    if c.version != DefaultVersion then VersionCaps(c, codec) + mandatory else mandatory
  }

  lemma TbsItemsMatch(c: Certificate, codec: Codec)
    requires Lawful(codec) && WellFormedMandatory(c)
    ensures MatchItems(TbsItems(), EncodeTBS(c, codec).children) == Some(TbsCaps(c, codec))
  {
    OptionalMatches(c, codec);
    MandatoryMatchesOver(c, OptionalElements(c, codec), OptionalCaps(c, codec));
    if c.version != DefaultVersion {
      TbsItemsMatchWithVersion(c, codec);
    } else {
      var kids := EncodeTBS(c, codec).children;
      assert kids == MandatoryElements(c) + OptionalElements(c, codec);
      MatchItemsSkip(VersionItem(), MandatoryItems(), kids);
    }
  }

  lemma TbsItemsMatchWithVersion(c: Certificate, codec: Codec)
    requires c.version != DefaultVersion
    requires MatchItems(MandatoryItems(), MandatoryElements(c) + OptionalElements(c, codec))
      == Some(MandatoryCaps(c, OptionalCaps(c, codec)))
    ensures MatchItems(TbsItems(), EncodeTBS(c, codec).children) == Some(TbsCaps(c, codec))
  {
    var kids := EncodeTBS(c, codec).children;
    assert kids[1..] == MandatoryElements(c) + OptionalElements(c, codec);
    VersionMatches(c, codec);
    MatchItemsTake(VersionItem(), MandatoryItems(), kids);
  }

  /** The tree `toSchema(true)` builds. */
  function EncodedTree(c: Certificate, codec: Codec): Node {
    Constructed(SequenceTag, [EncodeTBS(c, codec), c.signatureAlgorithm.asn1, c.signatureValue])
  }

  /** Every capture of the encoded certificate. */
  function CertificateCaps(c: Certificate, codec: Codec): map<Field, Captured> {
    map[] + ((map[TbsCertificate := One(EncodeTBS(c, codec))] + TbsCaps(c, codec))
      + (map[SignatureAlgorithm := One(c.signatureAlgorithm.asn1)] + (map[SignatureValue := One(c.signatureValue)] + map[])))
  }

  /** The encoded certificate matches the Certificate layout. */
  lemma CertificateMatches(c: Certificate, codec: Codec)
    requires Lawful(codec) && WellFormed(c, codec)
    ensures Match(CertificateLayout(), EncodedTree(c, codec)) == Some(CertificateCaps(c, codec))
  {
    var items := CertificateLayout().items;
    var t := EncodedTree(c, codec);
    TbsItemsMatch(c, codec);
    assert Match(TbsLayout(), t.children[0]) == Some(map[TbsCertificate := One(EncodeTBS(c, codec))] + TbsCaps(c, codec));
    MatchThreeItemsConverse(items.head, items.tail.head, items.tail.tail.head, t.children);
  }

  /** Extensions that decode to themselves survive encoding and decoding. */
  lemma ExtensionsRoundTrip(codec: Codec, extensions: seq<Extension>)
    requires forall i | 0 <= i < |extensions| :: Reencodes(codec, extensions[i])
    ensures DecodeExtensions(codec, ExtensionNodes(codec, extensions)) == extensions
  {
    var decoded := DecodeExtensions(codec, ExtensionNodes(codec, extensions));
    assert |decoded| == |extensions|;
    forall i | 0 <= i < |extensions|
      ensures decoded[i] == extensions[i]
    {
      assert Reencodes(codec, extensions[i]);
    }
  }

  /** What decoding the encoded certificate captures under each label,
      if anything. */
  function ExpectedCapture(c: Certificate, codec: Codec, x: Field): Option<Captured> {
    match x
    case TbsCertificate => Some(One(EncodeTBS(c, codec)))
    case Version => if c.version != DefaultVersion then Some(One(IntegerNode(codec, c.version))) else None
    case SerialNumber => Some(One(c.serialNumber))
    case Signature => Some(One(c.signature.asn1))
    case Issuer => Some(One(c.issuer.asn1))
    case Validity => Some(One(ValidityNode(c)))
    case NotBefore => Some(One(c.notBefore.asn1))
    case NotAfter => Some(One(c.notAfter.asn1))
    case Subject => Some(One(c.subject.asn1))
    case SubjectPublicKeyInfo => Some(One(c.subjectPublicKeyInfo.asn1))
    case IssuerUniqueID =>
      if c.issuerUniqueID.Some? then Some(One(Primitive(ContextTag(1), c.issuerUniqueID.value))) else None
    case SubjectUniqueID =>
      if c.subjectUniqueID.Some? then Some(One(Primitive(ContextTag(2), c.subjectUniqueID.value))) else None
    case Extensions => if c.extensions.Some? then Some(Many(ExtensionNodes(codec, c.extensions.value))) else None
    case SignatureAlgorithm => Some(One(c.signatureAlgorithm.asn1))
    case SignatureValue => Some(One(c.signatureValue))
  }

  /** `caps` holds under `x` exactly what is expected there. */
  predicate AgreesAt(caps: map<Field, Captured>, c: Certificate, codec: Codec, x: Field) {
    && (x in caps <==> ExpectedCapture(c, codec, x).Some?)
    && (x in caps ==> caps[x] == ExpectedCapture(c, codec, x).value)
  }

  lemma Caps3Lookup(c: Certificate, codec: Codec, x: Field)
    ensures x == Extensions ==> AgreesAt(Caps3(c, codec), c, codec, x)
    ensures x != Extensions ==> x !in Caps3(c, codec)
  {
  }

  lemma Caps2Lookup(c: Certificate, codec: Codec, x: Field)
    ensures x == Extensions || x == SubjectUniqueID ==> AgreesAt(Caps2(c, codec), c, codec, x)
    ensures x != Extensions && x != SubjectUniqueID ==> x !in Caps2(c, codec)
  {
    Caps3Lookup(c, codec, x);
  }

  lemma OptionalCapsAt(c: Certificate, codec: Codec, x: Field)
    requires x in OptionalFields
    ensures AgreesAt(OptionalCaps(c, codec), c, codec, x)
  {
    Caps2Lookup(c, codec, x);
  }

  lemma OptionalCapsOmit(c: Certificate, codec: Codec, x: Field)
    requires x !in OptionalFields
    ensures x !in OptionalCaps(c, codec)
  {
    Caps2Lookup(c, codec, x);
  }

  lemma ValidityCapsLookup(c: Certificate, codec: Codec, x: Field)
    ensures x == Validity || x == NotBefore || x == NotAfter ==> AgreesAt(ValidityCaps(c), c, codec, x)
    ensures x != Validity && x != NotBefore && x != NotAfter ==> x !in ValidityCaps(c)
  {
  }

  lemma KeyCapsLookup(c: Certificate, tail: map<Field, Captured>, codec: Codec, x: Field)
    requires x == Subject || x == SubjectPublicKeyInfo ==> x !in tail
    ensures x == Subject || x == SubjectPublicKeyInfo ==> AgreesAt(KeyCaps(c, tail), c, codec, x)
    ensures x != Subject && x != SubjectPublicKeyInfo ==> (x in KeyCaps(c, tail) <==> x in tail)
    ensures x != Subject && x != SubjectPublicKeyInfo && x in tail ==> KeyCaps(c, tail)[x] == tail[x]
  {
  }

  predicate LaterMandatoryLabel(x: Field) {
    x == Validity || x == NotBefore || x == NotAfter || x == Subject || x == SubjectPublicKeyInfo
  }

  lemma ValidityOnwardCapsLookup(c: Certificate, tail: map<Field, Captured>, codec: Codec, x: Field)
    requires LaterMandatoryLabel(x) ==> x !in tail
    ensures LaterMandatoryLabel(x) ==> AgreesAt(ValidityOnwardCaps(c, tail), c, codec, x)
    ensures !LaterMandatoryLabel(x) ==> (x in ValidityOnwardCaps(c, tail) <==> x in tail)
    ensures !LaterMandatoryLabel(x) && x in tail ==> ValidityOnwardCaps(c, tail)[x] == tail[x]
  {
    ValidityCapsLookup(c, codec, x);
    KeyCapsLookup(c, tail, codec, x);
  }

  lemma IssuerOnwardCapsLookup(c: Certificate, tail: map<Field, Captured>, codec: Codec, x: Field)
    requires x == Issuer || LaterMandatoryLabel(x) ==> x !in tail
    ensures x == Issuer || LaterMandatoryLabel(x) ==> AgreesAt(IssuerOnwardCaps(c, tail), c, codec, x)
    ensures !(x == Issuer || LaterMandatoryLabel(x)) ==> (x in IssuerOnwardCaps(c, tail) <==> x in tail)
    ensures !(x == Issuer || LaterMandatoryLabel(x)) && x in tail ==> IssuerOnwardCaps(c, tail)[x] == tail[x]
  {
    ValidityOnwardCapsLookup(c, tail, codec, x);
  }

  lemma SignatureOnwardCapsLookup(c: Certificate, tail: map<Field, Captured>, codec: Codec, x: Field)
    requires x in MandatoryTbsFields && x != SerialNumber ==> x !in tail
    ensures x in MandatoryTbsFields && x != SerialNumber ==> AgreesAt(SignatureOnwardCaps(c, tail), c, codec, x)
    ensures x !in MandatoryTbsFields || x == SerialNumber ==> (x in SignatureOnwardCaps(c, tail) <==> x in tail)
    ensures (x !in MandatoryTbsFields || x == SerialNumber) && x in tail ==> SignatureOnwardCaps(c, tail)[x] == tail[x]
  {
    IssuerOnwardCapsLookup(c, tail, codec, x);
  }

  lemma MandatoryCapsAt(c: Certificate, tail: map<Field, Captured>, codec: Codec, x: Field)
    requires x in MandatoryTbsFields && x !in tail
    ensures AgreesAt(MandatoryCaps(c, tail), c, codec, x)
  {
    SignatureOnwardCapsLookup(c, tail, codec, x);
  }

  lemma MandatoryCapsPass(c: Certificate, tail: map<Field, Captured>, codec: Codec, x: Field)
    requires x !in MandatoryTbsFields
    ensures x in MandatoryCaps(c, tail) <==> x in tail
    ensures x in tail ==> MandatoryCaps(c, tail)[x] == tail[x]
  {
    SignatureOnwardCapsLookup(c, tail, codec, x);
  }

  lemma TbsCapsAtVersion(c: Certificate, codec: Codec)
    ensures AgreesAt(TbsCaps(c, codec), c, codec, Version)
  {
    OptionalCapsOmit(c, codec, Version);
    MandatoryCapsPass(c, OptionalCaps(c, codec), codec, Version);
  }

  lemma TbsCapsAtMandatory(c: Certificate, codec: Codec, x: Field)
    requires x in MandatoryTbsFields
    ensures AgreesAt(TbsCaps(c, codec), c, codec, x)
  {
    OptionalCapsOmit(c, codec, x);
    MandatoryCapsAt(c, OptionalCaps(c, codec), codec, x);
  }

  lemma TbsCapsAtOptional(c: Certificate, codec: Codec, x: Field)
    requires x in OptionalFields
    ensures AgreesAt(TbsCaps(c, codec), c, codec, x)
  {
    OptionalCapsAt(c, codec, x);
    MandatoryCapsPass(c, OptionalCaps(c, codec), codec, x);
  }

  lemma TbsCapsOmitOuter(c: Certificate, codec: Codec, x: Field)
    requires x in OuterFields
    ensures x !in TbsCaps(c, codec)
  {
    OptionalCapsOmit(c, codec, x);
    MandatoryCapsPass(c, OptionalCaps(c, codec), codec, x);
  }

  lemma CertificateCapsAtOuter(c: Certificate, codec: Codec, x: Field)
    requires x in OuterFields
    ensures AgreesAt(CertificateCaps(c, codec), c, codec, x)
  {
    TbsCapsOmitOuter(c, codec, x);
    var tbs := map[TbsCertificate := One(EncodeTBS(c, codec))] + TbsCaps(c, codec);
    var outer := map[SignatureAlgorithm := One(c.signatureAlgorithm.asn1)] + (map[SignatureValue := One(c.signatureValue)] + map[]);
    var caps := CertificateCaps(c, codec);
    assert caps == map[] + (tbs + outer);
    if x == TbsCertificate {
      assert x !in outer && x in tbs;
      assert caps[x] == One(EncodeTBS(c, codec));
    } else if x == SignatureAlgorithm {
      assert caps[x] == One(c.signatureAlgorithm.asn1);
    } else {
      assert x == SignatureValue;
      assert caps[x] == One(c.signatureValue);
    }
  }

  lemma CertificateCapsAtInner(c: Certificate, codec: Codec, x: Field)
    requires x !in OuterFields
    requires AgreesAt(TbsCaps(c, codec), c, codec, x)
    ensures AgreesAt(CertificateCaps(c, codec), c, codec, x)
  {
  }

  lemma CertificateCapsLookup(c: Certificate, codec: Codec, x: Field)
    ensures AgreesAt(CertificateCaps(c, codec), c, codec, x)
  {
    if x in OuterFields {
      CertificateCapsAtOuter(c, codec, x);
    } else {
      if x == Version {
        TbsCapsAtVersion(c, codec);
      } else if x in MandatoryTbsFields {
        TbsCapsAtMandatory(c, codec, x);
      } else {
        TbsCapsAtOptional(c, codec, x);
      }
      CertificateCapsAtInner(c, codec, x);
    }
  }

  lemma AgreeingHasRequired(c: Certificate, codec: Codec, caps: map<Field, Captured>)
    requires forall x: Field :: AgreesAt(caps, c, codec, x)
    ensures RequiredFields <= caps.Keys
  {
    forall x | x in RequiredFields
      ensures x in caps
    {
      assert AgreesAt(caps, c, codec, x);
    }
  }

  lemma DecodeAgreeingOuter(prior: Certificate, c: Certificate, codec: Codec, caps: map<Field, Captured>, tbsBytes: seq<byte>)
    requires RequiredFields <= caps.Keys
    requires AgreesAt(caps, c, codec, SignatureAlgorithm) && AgreesAt(caps, c, codec, SignatureValue)
    requires IsSequence(c.signatureAlgorithm.asn1)
    ensures Decode(prior, caps, tbsBytes, codec).signatureAlgorithm == c.signatureAlgorithm
    ensures Decode(prior, caps, tbsBytes, codec).signatureValue == c.signatureValue
  {
  }

  lemma DecodeAgreeingMandatory(prior: Certificate, c: Certificate, codec: Codec, caps: map<Field, Captured>, tbsBytes: seq<byte>)
    requires RequiredFields <= caps.Keys
    requires AgreesAt(caps, c, codec, SerialNumber) && AgreesAt(caps, c, codec, Signature)
    requires AgreesAt(caps, c, codec, Issuer) && AgreesAt(caps, c, codec, NotBefore)
    requires AgreesAt(caps, c, codec, NotAfter) && AgreesAt(caps, c, codec, Subject)
    requires AgreesAt(caps, c, codec, SubjectPublicKeyInfo)
    ensures var d := Decode(prior, caps, tbsBytes, codec);
      && d.serialNumber == c.serialNumber && d.signature == c.signature && d.issuer == c.issuer
      && d.notBefore == c.notBefore && d.notAfter == c.notAfter && d.subject == c.subject
      && d.subjectPublicKeyInfo == c.subjectPublicKeyInfo
  {
  }

  lemma DecodeAgreeingVersion(prior: Certificate, c: Certificate, codec: Codec, caps: map<Field, Captured>, tbsBytes: seq<byte>)
    requires Lawful(codec) && Blank(prior)
    requires RequiredFields <= caps.Keys
    requires AgreesAt(caps, c, codec, Version)
    ensures Decode(prior, caps, tbsBytes, codec).version == c.version
  {
    if c.version != DefaultVersion {
      assert codec.valueDec(codec.integerContent(c.version)) == c.version;
    }
  }

  lemma DecodeAgreeingUniqueIds(prior: Certificate, c: Certificate, codec: Codec, caps: map<Field, Captured>, tbsBytes: seq<byte>)
    requires Blank(prior)
    requires RequiredFields <= caps.Keys
    requires AgreesAt(caps, c, codec, IssuerUniqueID) && AgreesAt(caps, c, codec, SubjectUniqueID)
    ensures Decode(prior, caps, tbsBytes, codec).issuerUniqueID == c.issuerUniqueID
    ensures Decode(prior, caps, tbsBytes, codec).subjectUniqueID == c.subjectUniqueID
  {
  }

  lemma DecodeAgreeingExtensions(prior: Certificate, c: Certificate, codec: Codec, caps: map<Field, Captured>, tbsBytes: seq<byte>)
    requires Blank(prior)
    requires c.extensions.Some? ==> forall i | 0 <= i < |c.extensions.value| :: Reencodes(codec, c.extensions.value[i])
    requires RequiredFields <= caps.Keys
    requires AgreesAt(caps, c, codec, Extensions)
    ensures Decode(prior, caps, tbsBytes, codec).extensions == c.extensions
  {
    if c.extensions.Some? {
      ExtensionsRoundTrip(codec, c.extensions.value);
    }
  }

  /** Decoding captures that agree with the expected ones everywhere. */
  lemma DecodeAgreeing(prior: Certificate, c: Certificate, codec: Codec, caps: map<Field, Captured>, tbsBytes: seq<byte>)
    requires Lawful(codec) && WellFormed(c, codec) && Blank(prior)
    requires forall x: Field :: AgreesAt(caps, c, codec, x)
    ensures RequiredFields <= caps.Keys
    ensures Decode(prior, caps, tbsBytes, codec) == c.(tbs := tbsBytes)
  {
    AgreeingHasRequired(c, codec, caps);
    assert AgreesAt(caps, c, codec, SignatureAlgorithm) && AgreesAt(caps, c, codec, SignatureValue);
    DecodeAgreeingOuter(prior, c, codec, caps, tbsBytes);
    assert AgreesAt(caps, c, codec, SerialNumber) && AgreesAt(caps, c, codec, Signature);
    assert AgreesAt(caps, c, codec, Issuer) && AgreesAt(caps, c, codec, NotBefore);
    assert AgreesAt(caps, c, codec, NotAfter) && AgreesAt(caps, c, codec, Subject);
    assert AgreesAt(caps, c, codec, SubjectPublicKeyInfo);
    DecodeAgreeingMandatory(prior, c, codec, caps, tbsBytes);
    assert AgreesAt(caps, c, codec, Version);
    DecodeAgreeingVersion(prior, c, codec, caps, tbsBytes);
    assert AgreesAt(caps, c, codec, IssuerUniqueID) && AgreesAt(caps, c, codec, SubjectUniqueID);
    assert AgreesAt(caps, c, codec, Extensions);
    DecodeAgreeingUniqueIds(prior, c, codec, caps, tbsBytes);
    DecodeAgreeingExtensions(prior, c, codec, caps, tbsBytes);
  }

  /** Decoding the tree `toSchema(true)` builds, into a certificate holding
      no leftovers, recovers every member; `tbs` becomes the bytes the first
      child was read from. */
  lemma {:induction false} EncodeThenDecode(prior: Certificate, c: Certificate, tbsBytes: seq<byte>, codec: Codec)
    requires Lawful(codec) && WellFormed(c, codec) && Blank(prior)
    ensures ToSchema(c, true, codec) == Ok(Tree(EncodedTree(c, codec)))
    ensures FromSchema(prior, EncodedTree(c, codec), tbsBytes, codec) == Ok(c.(tbs := tbsBytes))
  {
    CertificateMatches(c, codec);
    forall x: Field
      ensures AgreesAt(CertificateCaps(c, codec), c, codec, x)
    {
      CertificateCapsLookup(c, codec, x);
    }
    DecodeAgreeing(prior, c, codec, CertificateCaps(c, codec), tbsBytes);
  }

  /** A certificate whose stored bytes are the reassembly of its fields, as
      after signing, serialises to the same tree with or without
      re-encoding, and that tree, read back with those bytes, decodes to the
      certificate itself. */
  lemma {:induction false} ConsistentCertificateRoundTrip(prior: Certificate, c: Certificate, codec: Codec)
    requires Lawful(codec) && WellFormed(c, codec) && Blank(prior)
    requires c.tbs == codec.toBer(EncodeTBS(c, codec))
    ensures ToSchema(c, false, codec) == ToSchema(c, true, codec)
    ensures FromSchema(prior, EncodedTree(c, codec), c.tbs, codec) == Ok(c)
  {
    EncodeThenDecode(prior, c, c.tbs, codec);
    assert |c.tbs| >= 2;
  }

  /** Serialising without re-encoding what `fromSchema` decoded gives the
      input tree back: the stored bytes are those the input's first child
      was read from. */
  lemma {:induction false} DecodeThenSerialise(prior: Certificate, tree: Node, tbsBytes: seq<byte>, codec: Codec)
    requires Lawful(codec)
    requires FromSchema(prior, tree, tbsBytes, codec).Ok?
    requires codec.fromBer(tbsBytes) == Some(tree.children[0])
    ensures ToSchema(FromSchema(prior, tree, tbsBytes, codec).value, false, codec) == Ok(Tree(tree))
  {
    var c := FromSchema(prior, tree, tbsBytes, codec).value;
    assert c.tbs == tbsBytes;
    assert |c.tbs| > 0;
    assert [tree.children[0], tree.children[1], tree.children[2]] == tree.children;
  }

  /** The diagnostic projection carries exactly the members that decoding
      the encoded certificate captures. */
  lemma {:induction false} JsonKeysAreCapturedLabels(c: Certificate, codec: Codec, m: Member)
    requires Lawful(codec) && WellFormed(c, codec)
    ensures Match(CertificateLayout(), EncodedTree(c, codec)).Some?
    ensures m in ToJson(c) <==> m in Match(CertificateLayout(), EncodedTree(c, codec)).value
  {
    CertificateMatches(c, codec);
    CertificateCapsLookup(c, codec, m);
    assert m in ToJson(c) <==> Emits(c, m);
  }
}
