/** Reassembly of the to-be-signed part of a certificate from its fields,
    serialisation of the whole certificate, and the diagnostic projection. */
module Encoding {
  import opened Wrappers
  import opened Errors
  import opened Asn1
  import opened SchemaMatch
  import opened Entities
  import opened Codecs
  import opened CertificateLayouts
  import opened Certificates

  /** The `[0]` version element: present only when the version is not the
      default v1. */
  function VersionElements(c: Certificate, codec: Codec): seq<Node> {
    if c.version != DefaultVersion then [Constructed(ContextTag(0), [IntegerNode(codec, c.version)])] else []
  }

  function ValidityNode(c: Certificate): Node {
    Constructed(SequenceTag, [c.notBefore.asn1, c.notAfter.asn1])
  }

  /** serialNumber, signature, issuer, validity, subject,
      subjectPublicKeyInfo, in declared order. */
  function MandatoryElements(c: Certificate): seq<Node> {
    [c.serialNumber, c.signature.asn1, c.issuer.asn1, ValidityNode(c), c.subject.asn1, c.subjectPublicKeyInfo.asn1]
  }

  function ExtensionNodes(codec: Codec, extensions: seq<Extension>): seq<Node> {
    seq(|extensions|, i requires 0 <= i < |extensions| => codec.extensionToSchema(extensions[i]))
  }

  function ExtensionsElement(codec: Codec, extensions: seq<Extension>): Node {
    Constructed(ContextTag(3), [Constructed(SequenceTag, ExtensionNodes(codec, extensions))])
  }

  /** `[1]`, `[2]` and `[3]`, each only when the field is defined. */
  function OptionalElements(c: Certificate, codec: Codec): seq<Node> {
    (if c.issuerUniqueID.Some? then [Primitive(ContextTag(1), c.issuerUniqueID.value)] else [])
    + (if c.subjectUniqueID.Some? then [Primitive(ContextTag(2), c.subjectUniqueID.value)] else [])
    + (if c.extensions.Some? then [ExtensionsElement(codec, c.extensions.value)] else [])
  }

  /** `encodeTBS`: a SEQUENCE of the version element when the version is
      not v1, the six mandatory fields, then the optional parts that are
      defined. */
  function EncodeTBS(c: Certificate, codec: Codec): (r: Node)
    ensures IsSequence(r) && |r.children| >= 6
  {
    Constructed(SequenceTag, VersionElements(c, codec) + MandatoryElements(c) + OptionalElements(c, codec))
  }

  /** The number of elements before the mandatory fields. */
  function VersionOffset(c: Certificate): nat {
    if c.version != DefaultVersion then 1 else 0
  }

  /** The explicit version wrapper is emitted exactly when the version is
      not v1; otherwise the serial number comes first. */
  lemma EncodeTbsVersion(c: Certificate, codec: Codec)
    ensures var kids := EncodeTBS(c, codec).children;
      && (c.version == DefaultVersion ==> kids[0] == c.serialNumber)
      && (c.version != DefaultVersion ==>
            kids[0] == Constructed(ContextTag(0), [IntegerNode(codec, c.version)]) && kids[1] == c.serialNumber)
  {
    var kids := EncodeTBS(c, codec).children;
    assert kids[VersionOffset(c)] == c.serialNumber;
  }

  /** The mandatory fields follow the version element in declared order. */
  lemma EncodeTbsMandatoryOrder(c: Certificate, codec: Codec)
    ensures var kids := EncodeTBS(c, codec).children; var o := VersionOffset(c);
      && |kids| >= o + 6
      && kids[o] == c.serialNumber
      && kids[o + 1] == c.signature.asn1
      && kids[o + 2] == c.issuer.asn1
      && kids[o + 3] == Constructed(SequenceTag, [c.notBefore.asn1, c.notAfter.asn1])
      && kids[o + 4] == c.subject.asn1
      && kids[o + 5] == c.subjectPublicKeyInfo.asn1
  {
    var kids := EncodeTBS(c, codec).children;
    var o := VersionOffset(c);
    assert kids[o..o + 6] == MandatoryElements(c);
  }

  /** After the mandatory fields come `[1]`, `[2]` and `[3]` in that order,
      each exactly when its field is defined; a defined but empty extension
      list still gives `[3]` around an empty SEQUENCE. */
  lemma EncodeTbsOptionalParts(c: Certificate, codec: Codec)
    ensures var kids := EncodeTBS(c, codec).children; var o := VersionOffset(c) + 6;
      var n1 := if c.issuerUniqueID.Some? then 1 else 0;
      var n2 := if c.subjectUniqueID.Some? then 1 else 0;
      var n3 := if c.extensions.Some? then 1 else 0;
      && |kids| == o + n1 + n2 + n3
      && (c.issuerUniqueID.Some? ==> kids[o] == Primitive(ContextTag(1), c.issuerUniqueID.value))
      && (c.subjectUniqueID.Some? ==> kids[o + n1] == Primitive(ContextTag(2), c.subjectUniqueID.value))
      && (c.extensions.Some? ==> kids[o + n1 + n2] == ExtensionsElement(codec, c.extensions.value))
      && (c.extensions == Some([]) ==>
            kids[|kids| - 1] == Constructed(ContextTag(3), [Constructed(SequenceTag, [])]))
  {
    var kids := EncodeTBS(c, codec).children;
    var o := VersionOffset(c) + 6;
    assert kids[o..] == OptionalElements(c, codec);
    if c.extensions == Some([]) {
      assert ExtensionNodes(codec, []) == [];
    }
  }

  // ---------------------------------------------------------------------
  // Serialisation

  /** What `toSchema` returns: a tree, or, when nothing has been decoded or
      signed yet and no re-encoding is asked for, the TBSCertificate layout
      itself. */
  datatype Serialised = Tree(node: Node) | LayoutOnly(layout: Schema<Field>)

  /** `toSchema(encodeFlag)`. Without the flag the stored `tbs` bytes are
      parsed again and used verbatim; with it the TBS part is rebuilt from the
      fields. */
  function ToSchema(c: Certificate, encodeFlag: bool, codec: Codec): (r: Result<Serialised, Error>)
    ensures r.Err? <==> !encodeFlag && |c.tbs| > 0 && codec.fromBer(c.tbs).None?
    ensures r.Err? ==> r.error == EncodingFailure
    ensures r == Ok(LayoutOnly(TbsLayout())) <==> !encodeFlag && |c.tbs| == 0
    ensures r.Ok? ==> (r.value.LayoutOnly? <==> !encodeFlag && |c.tbs| == 0)
    ensures r.Ok? && r.value.Tree? ==>
      && IsSequence(r.value.node) && |r.value.node.children| == 3
      && r.value.node.children[1] == c.signatureAlgorithm.asn1
      && r.value.node.children[2] == c.signatureValue
      && (encodeFlag ==> r.value.node.children[0] == EncodeTBS(c, codec))
      && (!encodeFlag ==> codec.fromBer(c.tbs) == Some(r.value.node.children[0]))
  {
    if !encodeFlag then
      if |c.tbs| == 0 then
        Ok(LayoutOnly(TbsLayout()))
      else
        match codec.fromBer(c.tbs)
        case None => Err(EncodingFailure)
        case Some(t) => Ok(Tree(Constructed(SequenceTag, [t, c.signatureAlgorithm.asn1, c.signatureValue])))
    else
      Ok(Tree(Constructed(SequenceTag, [EncodeTBS(c, codec), c.signatureAlgorithm.asn1, c.signatureValue])))
  }

  /** Without re-encoding, serialisation reads only the stored bytes and
      the two outer signature members: certificates that agree on those
      serialise alike, whatever their other members hold. */
  lemma StoredSerialisationIgnoresFields(c: Certificate, d: Certificate, codec: Codec)
    requires c.tbs == d.tbs && c.signatureAlgorithm == d.signatureAlgorithm && c.signatureValue == d.signatureValue
    ensures ToSchema(c, false, codec) == ToSchema(d, false, codec)
  {
  }

  // ---------------------------------------------------------------------
  // Diagnostic projection

  /** Whether `toJSON` emits a member. */
  predicate Emits(c: Certificate, m: Member) {
    match m
    case Version => c.version != DefaultVersion
    case IssuerUniqueID => c.issuerUniqueID.Some?
    case SubjectUniqueID => c.subjectUniqueID.Some?
    case Extensions => c.extensions.Some?
    case _ => true
  }

  /** The projection of one member. */
  function JsonOf(c: Certificate, m: Member): Json {
    match m
    case TbsCertificate => Hex(c.tbs)
    case Version => Number(c.version)
    case SerialNumber => Projection(c.serialNumber)
    case Signature => Projection(c.signature.asn1)
    case Issuer => Projection(c.issuer.asn1)
    case NotBefore => Projection(c.notBefore.asn1)
    case NotAfter => Projection(c.notAfter.asn1)
    case Subject => Projection(c.subject.asn1)
    case SubjectPublicKeyInfo => Projection(c.subjectPublicKeyInfo.asn1)
    case IssuerUniqueID => Hex(c.issuerUniqueID.GetOr([]))
    case SubjectUniqueID => Hex(c.subjectUniqueID.GetOr([]))
    case Extensions =>
      var exts := c.extensions.GetOr([]);
      Array(seq(|exts|, i requires 0 <= i < |exts| => ExtensionProjection(exts[i])))
    case SignatureAlgorithm => Projection(c.signatureAlgorithm.asn1)
    case SignatureValue => Projection(c.signatureValue)
  }

  /** `toJSON`, keyed by member: the ten members that always exist,
      `version` only when it is not v1, and the optional members only when
      defined. */
  function ToJson(c: Certificate): (r: map<Member, Json>)
    ensures forall m: Member :: m != Version && m !in OptionalFields ==> m in r
    ensures Version in r <==> c.version != DefaultVersion
    ensures IssuerUniqueID in r <==> c.issuerUniqueID.Some?
    ensures SubjectUniqueID in r <==> c.subjectUniqueID.Some?
    ensures Extensions in r <==> c.extensions.Some?
    ensures TbsCertificate in r && r[TbsCertificate] == Hex(c.tbs)
    ensures Version in r ==> r[Version] == Number(c.version)
    ensures Extensions in r ==> r[Extensions].Array? && |r[Extensions].items| == |c.extensions.value|
  {
    map m: Member | Emits(c, m) :: JsonOf(c, m)
  }
}
