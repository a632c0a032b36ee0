/** The X.509 certificate entity (section 4.1 of RFC 5280): its layout, its
    default values, decoding from a parsed tree, reassembly of the
    to-be-signed part, serialisation and the diagnostic projection. */
module Certificates {
  import opened Wrappers
  import opened Errors
  import opened Asn1
  import opened SchemaMatch
  import opened Entities
  import opened Codecs
  import opened CertificateLayouts
  import opened TbsPositions

  /** `tbs` holds the to-be-signed bytes once they exist (after decoding or
      signing); the three optional parts are `None` when the property is
      undefined, which is distinct from a present but empty value. */
  datatype Certificate = Certificate(
    tbs: seq<byte>,
    version: int,
    serialNumber: Node,
    signature: AlgorithmIdentifier,
    issuer: Name,
    notBefore: Time,
    notAfter: Time,
    subject: Name,
    subjectPublicKeyInfo: PublicKeyInfo,
    issuerUniqueID: Option<seq<byte>>,
    subjectUniqueID: Option<seq<byte>>,
    extensions: Option<seq<Extension>>,
    signatureAlgorithm: AlgorithmIdentifier,
    signatureValue: Node)

  /** v1, the DEFAULT of the `[0]` version field. */
  const DefaultVersion: int := 0

  /** Every successful match of the Certificate layout captures every label
      outside its OPTIONAL items. */
  lemma MatchCapturesRequiredFields(tree: Node)
    requires Match(CertificateLayout(), tree).Some?
    ensures RequiredFields <= Match(CertificateLayout(), tree).value.Keys
  {
    forall x | x in MandatoryTbsFields
      ensures x in Match(CertificateLayout(), tree).value
    {
      CertificateLayoutGuaranteesTbs(x);
      MatchCapturesGuaranteed(CertificateLayout(), tree, x);
    }
    forall x | x in OuterFields
      ensures x in Match(CertificateLayout(), tree).value
    {
      CertificateLayoutGuaranteesOuter(x);
      MatchCapturesGuaranteed(CertificateLayout(), tree, x);
    }
  }

  /** A tree that matches the Certificate layout is a SEQUENCE of exactly
      three children, captured under tbsCertificate, signatureAlgorithm and
      signatureValue; every other label is captured from the first child's
      match against the TBSCertificate layout. */
  lemma CertificateMatchShape(tree: Node)
    requires Match(CertificateLayout(), tree).Some?
    ensures IsSequence(tree) && |tree.children| == 3
    ensures Match(TbsLayout(), tree.children[0]).Some?
    ensures Match(CertificateLayout(), tree).value ==
      Match(TbsLayout(), tree.children[0]).value
        + (map[SignatureAlgorithm := One(tree.children[1])] + (map[SignatureValue := One(tree.children[2])] + map[]))
  {
    MatchSequence(CertificateLayout(), tree);
    MatchThreeItems(TbsLayout(), SequenceLayout(Some(SignatureAlgorithm)),
      Leaf(Some(SignatureValue), false, BitStringTag, false), tree.children);
  }

  /** The TBSCertificate match captures its own node under tbsCertificate. */
  lemma TbsMatchCapturesItself(n: Node)
    requires Match(TbsLayout(), n).Some?
    ensures TbsCertificate in Match(TbsLayout(), n).value
    ensures Match(TbsLayout(), n).value[TbsCertificate] == One(n)
  {
    MatchSequence(TbsLayout(), n);
    TbsItemsRanks(n.children);
  }

  /** Maps the captures of a successful match onto the fields of `prior`,
      with `tbsBytes` as the to-be-signed bytes. Version and the three
      optional parts are taken from the input only when it carries them;
      otherwise `prior`'s values stay. */
  function Decode(prior: Certificate, caps: map<Field, Captured>, tbsBytes: seq<byte>, codec: Codec): Certificate
    requires RequiredFields <= caps.Keys
  {
    prior.(
      tbs := tbsBytes,
      version := if Version in caps then codec.valueDec(ContentOf(NodeOf(caps[Version]))) else prior.version,
      serialNumber := NodeOf(caps[SerialNumber]),
      signature := AlgorithmIdentifier(NodeOf(caps[Signature])),
      issuer := Name(NodeOf(caps[Issuer])),
      notBefore := Time(NodeOf(caps[NotBefore])),
      notAfter := Time(NodeOf(caps[NotAfter])),
      subject := Name(NodeOf(caps[Subject])),
      subjectPublicKeyInfo := PublicKeyInfo(NodeOf(caps[SubjectPublicKeyInfo])),
      issuerUniqueID :=
        if IssuerUniqueID in caps then Some(ContentOf(NodeOf(caps[IssuerUniqueID]))) else prior.issuerUniqueID,
      subjectUniqueID :=
        if SubjectUniqueID in caps then Some(ContentOf(NodeOf(caps[SubjectUniqueID]))) else prior.subjectUniqueID,
      extensions :=
        if Extensions in caps then Some(DecodeExtensions(codec, NodesOf(caps[Extensions]))) else prior.extensions,
      signatureAlgorithm := AlgorithmIdentifier(NodeOf(caps[SignatureAlgorithm])),
      signatureValue := NodeOf(caps[SignatureValue]))
  }

  function DecodeExtensions(codec: Codec, nodes: seq<Node>): seq<Extension> {
    seq(|nodes|, i requires 0 <= i < |nodes| => codec.extensionFromSchema(nodes[i]))
  }

  /** Every successful match of the Certificate layout lays out its
      TBSCertificate captures at the positions `TbsLaidOut` names. */
  lemma CertificateLaidOut(tree: Node)
    requires Match(CertificateLayout(), tree).Some?
    ensures var caps := Match(CertificateLayout(), tree).value; |tree.children| == 3 && TbsLaidOut(tree.children[0], caps)
  {
    var t := tree.children[0];
    CertificateMatchShape(tree);
    var outer := map[SignatureAlgorithm := One(tree.children[1])] + (map[SignatureValue := One(tree.children[2])] + map[]);
    assert OutsideTbs(outer);
    TbsLaidOutHolds(t, outer);
    var caps := Match(CertificateLayout(), tree).value;
    assert caps == Match(TbsLayout(), t).value + outer;
    assert TbsLaidOut(t, caps);
  }

  /** `c` holds what the TBSCertificate `t` carries at each position: the
      version element first when version is present, then serialNumber,
      signature, issuer, validity (notBefore and notAfter), subject and
      subjectPublicKeyInfo, then each present OPTIONAL element in turn, and
      nothing more. What `t` does not carry keeps `prior`'s value. `caps`
      records which of the optional elements are present. */
  predicate ReadFrom(c: Certificate, prior: Certificate, t: Node, caps: map<Field, Captured>, codec: Codec) {
    ReadsMandatory(c, prior, t, caps, codec) && ReadsOptional(c, prior, t, caps, codec)
  }

  /** The version element and the six mandatory elements. */
  predicate ReadsMandatory(c: Certificate, prior: Certificate, t: Node, caps: map<Field, Captured>, codec: Codec) {
    var o := Count(caps, Version);
    && IsSequence(t) && |t.children| >= o + 6
    && (o == 1 ==> IsVersionElement(t.children[0]))
    && c.version == (if o == 1 then codec.valueDec(ContentOf(t.children[0].children[0])) else prior.version)
    && c.serialNumber == t.children[o]
    && c.signature == AlgorithmIdentifier(t.children[o + 1])
    && c.issuer == Name(t.children[o + 2])
    && IsValidityElement(t.children[o + 3])
    && c.notBefore == Time(t.children[o + 3].children[0])
    && c.notAfter == Time(t.children[o + 3].children[1])
    && c.subject == Name(t.children[o + 4])
    && c.subjectPublicKeyInfo == PublicKeyInfo(t.children[o + 5])
  }

  /** The OPTIONAL elements after the six mandatory ones, and nothing more. */
  predicate ReadsOptional(c: Certificate, prior: Certificate, t: Node, caps: map<Field, Captured>, codec: Codec)
    requires t.Constructed?
  {
    var o := Count(caps, Version);
    var n1 := Count(caps, IssuerUniqueID);
    var n2 := Count(caps, SubjectUniqueID);
    var n3 := Count(caps, Extensions);
    && |t.children| == o + 6 + n1 + n2 + n3
    && c.issuerUniqueID == (if n1 == 1 then Some(ContentOf(t.children[o + 6])) else prior.issuerUniqueID)
    && c.subjectUniqueID == (if n2 == 1 then Some(ContentOf(t.children[o + 6 + n1])) else prior.subjectUniqueID)
    && (n3 == 1 ==> IsExtensionsElement(t.children[o + 6 + n1 + n2]))
    && c.extensions ==
         (if n3 == 1 then Some(DecodeExtensions(codec, t.children[o + 6 + n1 + n2].children[0].children))
          else prior.extensions)
  }

  lemma DecodeReadsMandatory(prior: Certificate, t: Node, caps: map<Field, Captured>, tbsBytes: seq<byte>, codec: Codec)
    requires RequiredFields <= caps.Keys && TbsLaidOut(t, caps)
    ensures ReadsMandatory(Decode(prior, caps, tbsBytes, codec), prior, t, caps, codec)
  {
  }

  lemma DecodeReadsOptional(prior: Certificate, t: Node, caps: map<Field, Captured>, tbsBytes: seq<byte>, codec: Codec)
    requires RequiredFields <= caps.Keys && t.Constructed?
    requires |t.children| >= Count(caps, Version) + 6
    requires OptionalLaidOut(t.children[Count(caps, Version) + 6..], caps)
    ensures ReadsOptional(Decode(prior, caps, tbsBytes, codec), prior, t, caps, codec)
  {
  }

  /** Decoding captures laid out over `t` reads each member from its
      position in `t`. */
  lemma DecodeReadsPositions(prior: Certificate, t: Node, caps: map<Field, Captured>, tbsBytes: seq<byte>, codec: Codec)
    requires RequiredFields <= caps.Keys && TbsLaidOut(t, caps)
    ensures ReadFrom(Decode(prior, caps, tbsBytes, codec), prior, t, caps, codec)
  {
    DecodeReadsMandatory(prior, t, caps, tbsBytes, codec);
    TbsOptionalTail(t, caps);
    DecodeReadsOptional(prior, t, caps, tbsBytes, codec);
  }

  /** `fromSchema`: fails, leaving nothing half-built, exactly when the tree
      does not match the Certificate layout. Otherwise `tbs` holds
      `tbsBytes`, the bytes the first child was decoded from; the members of
      the to-be-signed part are read from their positions in the first
      child, version and the optional parts replacing `prior`'s only when
      present; and the outer signature fields are the second and third
      children. */
  function FromSchema(prior: Certificate, tree: Node, tbsBytes: seq<byte>, codec: Codec): (r: Result<Certificate, Error>)
    ensures r.Err? <==> Match(CertificateLayout(), tree).None?
    ensures r.Err? ==> r.error == SchemaMismatch
    ensures r.Ok? ==>
      && IsSequence(tree) && |tree.children| == 3
      && r.value.tbs == tbsBytes
      && r.value.signatureAlgorithm == AlgorithmIdentifier(tree.children[1])
      && r.value.signatureValue == tree.children[2]
    ensures r.Ok? ==> ReadFrom(r.value, prior, tree.children[0], Match(CertificateLayout(), tree).value, codec)
  {
    match Match(CertificateLayout(), tree)
    case None => Err(SchemaMismatch)
    case Some(caps) =>
      DecodeMatch(prior, tree, tbsBytes, codec);
      Ok(Decode(prior, caps, tbsBytes, codec))
  }

  lemma DecodeMatch(prior: Certificate, tree: Node, tbsBytes: seq<byte>, codec: Codec)
    requires Match(CertificateLayout(), tree).Some?
    ensures var caps := Match(CertificateLayout(), tree).value;
      && RequiredFields <= caps.Keys
      && IsSequence(tree) && |tree.children| == 3
      && var c := Decode(prior, caps, tbsBytes, codec);
      && c.tbs == tbsBytes
      && c.signatureAlgorithm == AlgorithmIdentifier(tree.children[1])
      && c.signatureValue == tree.children[2]
      && ReadFrom(c, prior, tree.children[0], caps, codec)
  {
    var caps := Match(CertificateLayout(), tree).value;
    CertificateMatchShape(tree);
    MatchCapturesRequiredFields(tree);
    CertificateLaidOut(tree);
    DecodeReadsPositions(prior, tree.children[0], caps, tbsBytes, codec);
  }

  // ---------------------------------------------------------------------
  // Members and their defaults

  /** The public members of the Certificate class, each named by the label
      it is captured under (`TbsCertificate` stands for `tbs`). Validity
      groups two members in the layout and is not a member itself. */
  type Member = f: Field | f != Validity witness TbsCertificate

  /** The member's name as the class spells it. */
  function MemberName(m: Member): string {
    match m
    case TbsCertificate => "tbs"
    case Version => "version"
    case SerialNumber => "serialNumber"
    case Signature => "signature"
    case Issuer => "issuer"
    case NotBefore => "notBefore"
    case NotAfter => "notAfter"
    case Subject => "subject"
    case SubjectPublicKeyInfo => "subjectPublicKeyInfo"
    case IssuerUniqueID => "issuerUniqueID"
    case SubjectUniqueID => "subjectUniqueID"
    case Extensions => "extensions"
    case SignatureAlgorithm => "signatureAlgorithm"
    case SignatureValue => "signatureValue"
  }

  /** Every member, in declaration order. */
  const AllMembers: seq<Member> :=
    [TbsCertificate, Version, SerialNumber, Signature, Issuer, NotBefore, NotAfter, Subject,
     SubjectPublicKeyInfo, IssuerUniqueID, SubjectUniqueID, Extensions, SignatureAlgorithm, SignatureValue]

  lemma AllMembersComplete(m: Member)
    ensures m in AllMembers
  {
  }

  /** The value of one member, whatever its type; `Absent` is an optional
      member that is not defined. */
  datatype MemberValue =
    | Bytes(bytes: seq<byte>)
    | Integer(value: int)
    | Asn1Value(node: Node)
    | AlgorithmValue(algorithm: AlgorithmIdentifier)
    | NameValue(name: Name)
    | TimeValue(time: Time)
    | KeyInfoValue(keyInfo: PublicKeyInfo)
    | ExtensionList(extensions: seq<Extension>)
    | Absent

  /** What `defaultValues` returns for a member. `freshTime` is whatever
      `new Time()` builds; the Time structure is not part of this model. */
  function DefaultOf(m: Member, freshTime: Time): MemberValue {
    match m
    case TbsCertificate => Bytes([])
    case Version => Integer(DefaultVersion)
    case SerialNumber => Asn1Value(DefaultInteger)
    case Signature => AlgorithmValue(DefaultAlgorithmIdentifier)
    case Issuer => NameValue(DefaultName)
    case NotBefore => TimeValue(freshTime)
    case NotAfter => TimeValue(freshTime)
    case Subject => NameValue(DefaultName)
    case SubjectPublicKeyInfo => KeyInfoValue(DefaultPublicKeyInfo)
    case IssuerUniqueID => Bytes([])
    case SubjectUniqueID => Bytes([])
    case Extensions => ExtensionList([])
    case SignatureAlgorithm => AlgorithmValue(DefaultAlgorithmIdentifier)
    case SignatureValue => Asn1Value(DefaultBitString)
  }

  /** The current value of a member. */
  function FieldValue(c: Certificate, m: Member): MemberValue {
    match m
    case TbsCertificate => Bytes(c.tbs)
    case Version => Integer(c.version)
    case SerialNumber => Asn1Value(c.serialNumber)
    case Signature => AlgorithmValue(c.signature)
    case Issuer => NameValue(c.issuer)
    case NotBefore => TimeValue(c.notBefore)
    case NotAfter => TimeValue(c.notAfter)
    case Subject => NameValue(c.subject)
    case SubjectPublicKeyInfo => KeyInfoValue(c.subjectPublicKeyInfo)
    case IssuerUniqueID => if c.issuerUniqueID.Some? then Bytes(c.issuerUniqueID.value) else Absent
    case SubjectUniqueID => if c.subjectUniqueID.Some? then Bytes(c.subjectUniqueID.value) else Absent
    case Extensions => if c.extensions.Some? then ExtensionList(c.extensions.value) else Absent
    case SignatureAlgorithm => AlgorithmValue(c.signatureAlgorithm)
    case SignatureValue => Asn1Value(c.signatureValue)
  }

  /** The first member in `members` spelled `name`. */
  function FindMember(name: string, members: seq<Member>): (r: Option<Member>)
    ensures r.Some? ==> r.value in members && MemberName(r.value) == name
    ensures r.None? ==> forall i | 0 <= i < |members| :: MemberName(members[i]) != name
  {
    if |members| == 0 then None
    else if MemberName(members[0]) == name then Some(members[0])
    else FindMember(name, members[1..])
  }

  /** `Certificate.defaultValues(memberName)`: the default of the member so
      spelled, and an error for any other name. */
  function DefaultValues(memberName: string, freshTime: Time): (r: Result<MemberValue, Error>)
    ensures r.Err? <==> forall m: Member :: MemberName(m) != memberName
    ensures r.Err? ==> r.error == InvalidMemberName(memberName)
    ensures r.Ok? ==> exists m: Member :: MemberName(m) == memberName && r.value == DefaultOf(m, freshTime)
  {
    match FindMember(memberName, AllMembers)
    case None =>
      assert forall m: Member :: MemberName(m) != memberName by {
        forall m: Member ensures MemberName(m) != memberName {
          AllMembersComplete(m);
        }
      }
      Err(InvalidMemberName(memberName))
    case Some(m) => Ok(DefaultOf(m, freshTime))
  }

  /** No two members share a name. */
  lemma MemberNameInjective(m: Member, n: Member)
    requires MemberName(m) == MemberName(n)
    ensures m == n
  {
  }

  /** `defaultValues` answers each member's own name with that member's
      default. */
  lemma {:induction false} DefaultValuesOfMember(m: Member, freshTime: Time)
    ensures DefaultValues(MemberName(m), freshTime) == Ok(DefaultOf(m, freshTime))
  {
    AllMembersComplete(m);
    var found := FindMember(MemberName(m), AllMembers);
    assert found.Some?;
    MemberNameInjective(found.value, m);
  }

  /** A certificate with every member at its default: the three optional
      members absent. */
  function Default(freshTime: Time): (r: Certificate)
    ensures forall m: Member :: m !in OptionalFields ==> FieldValue(r, m) == DefaultOf(m, freshTime)
    ensures forall m: Member :: m in OptionalFields ==> FieldValue(r, m) == Absent
  {
    Certificate(
      tbs := [],
      version := DefaultVersion,
      serialNumber := DefaultInteger,
      signature := DefaultAlgorithmIdentifier,
      issuer := DefaultName,
      notBefore := freshTime,
      notAfter := freshTime,
      subject := DefaultName,
      subjectPublicKeyInfo := DefaultPublicKeyInfo,
      issuerUniqueID := None,
      subjectUniqueID := None,
      extensions := None,
      signatureAlgorithm := DefaultAlgorithmIdentifier,
      signatureValue := DefaultBitString)
  }

  // ---------------------------------------------------------------------
  // Construction

  /** A parsed tree with the bytes its first child, the TBSCertificate, was
      decoded from: the BER decoder keeps the bytes each node was read from
      alongside the node. */
  datatype ParsedTree = ParsedTree(tree: Node, tbsBytes: seq<byte>)

  /** The constructor's parameter object: each member may be given, and a
      parsed tree may be given to decode. */
  datatype CertificateParameters = CertificateParameters(
    tbs: Option<seq<byte>>,
    version: Option<int>,
    serialNumber: Option<Node>,
    signature: Option<AlgorithmIdentifier>,
    issuer: Option<Name>,
    notBefore: Option<Time>,
    notAfter: Option<Time>,
    subject: Option<Name>,
    subjectPublicKeyInfo: Option<PublicKeyInfo>,
    issuerUniqueID: Option<seq<byte>>,
    subjectUniqueID: Option<seq<byte>>,
    extensions: Option<seq<Extension>>,
    signatureAlgorithm: Option<AlgorithmIdentifier>,
    signatureValue: Option<Node>,
    schema: Option<ParsedTree>)

  /** The value a parameter object gives for a member, if any. */
  function GivenValue(p: CertificateParameters, m: Member): Option<MemberValue> {
    match m
    case TbsCertificate => if p.tbs.Some? then Some(Bytes(p.tbs.value)) else None
    case Version => if p.version.Some? then Some(Integer(p.version.value)) else None
    case SerialNumber => if p.serialNumber.Some? then Some(Asn1Value(p.serialNumber.value)) else None
    case Signature => if p.signature.Some? then Some(AlgorithmValue(p.signature.value)) else None
    case Issuer => if p.issuer.Some? then Some(NameValue(p.issuer.value)) else None
    case NotBefore => if p.notBefore.Some? then Some(TimeValue(p.notBefore.value)) else None
    case NotAfter => if p.notAfter.Some? then Some(TimeValue(p.notAfter.value)) else None
    case Subject => if p.subject.Some? then Some(NameValue(p.subject.value)) else None
    case SubjectPublicKeyInfo =>
      if p.subjectPublicKeyInfo.Some? then Some(KeyInfoValue(p.subjectPublicKeyInfo.value)) else None
    case IssuerUniqueID => if p.issuerUniqueID.Some? then Some(Bytes(p.issuerUniqueID.value)) else None
    case SubjectUniqueID => if p.subjectUniqueID.Some? then Some(Bytes(p.subjectUniqueID.value)) else None
    case Extensions => if p.extensions.Some? then Some(ExtensionList(p.extensions.value)) else None
    case SignatureAlgorithm =>
      if p.signatureAlgorithm.Some? then Some(AlgorithmValue(p.signatureAlgorithm.value)) else None
    case SignatureValue => if p.signatureValue.Some? then Some(Asn1Value(p.signatureValue.value)) else None
  }

  /** The certificate the constructor builds before decoding any tree. */
  function FromParameters(p: CertificateParameters, freshTime: Time): Certificate {
    Certificate(
      tbs := p.tbs.GetOr([]),
      version := p.version.GetOr(DefaultVersion),
      serialNumber := p.serialNumber.GetOr(DefaultInteger),
      signature := p.signature.GetOr(DefaultAlgorithmIdentifier),
      issuer := p.issuer.GetOr(DefaultName),
      notBefore := p.notBefore.GetOr(freshTime),
      notAfter := p.notAfter.GetOr(freshTime),
      subject := p.subject.GetOr(DefaultName),
      subjectPublicKeyInfo := p.subjectPublicKeyInfo.GetOr(DefaultPublicKeyInfo),
      issuerUniqueID := p.issuerUniqueID,
      subjectUniqueID := p.subjectUniqueID,
      extensions := p.extensions,
      signatureAlgorithm := p.signatureAlgorithm.GetOr(DefaultAlgorithmIdentifier),
      signatureValue := p.signatureValue.GetOr(DefaultBitString))
  }

  /** `new Certificate(parameters)`: every member takes the given value or
      else its default, except that an optional member not given stays
      absent; then a given tree is decoded over that certificate, which fails
      exactly when the tree does not match the layout. */
  function Construct(p: CertificateParameters, freshTime: Time, codec: Codec): (r: Result<Certificate, Error>)
    ensures p.schema.None? ==> r.Ok?
    ensures p.schema.None? ==> forall m: Member ::
      FieldValue(r.value, m) ==
        (if GivenValue(p, m).Some? then GivenValue(p, m).value
         else if m in OptionalFields then Absent
         else DefaultOf(m, freshTime))
    ensures p.schema.Some? ==> (r.Err? <==> Match(CertificateLayout(), p.schema.value.tree).None?)
    ensures p.schema.Some? ==>
      r == FromSchema(FromParameters(p, freshTime), p.schema.value.tree, p.schema.value.tbsBytes, codec)
  {
    var base := FromParameters(p, freshTime);
    if p.schema.Some? then FromSchema(base, p.schema.value.tree, p.schema.value.tbsBytes, codec) else Ok(base)
  }

  /** The parameter object that gives nothing. */
  function NoParameters(): CertificateParameters {
    CertificateParameters(None, None, None, None, None, None, None, None, None, None, None, None, None, None, None)
  }

  /** `new Certificate()`: every member at its default. */
  lemma ConstructWithoutParameters(freshTime: Time, codec: Codec)
    ensures Construct(NoParameters(), freshTime, codec) == Ok(Default(freshTime))
  {
  }

  /** `new Certificate({ schema, ... })`: the tree's members replace the
      given ones; what the tree does not carry keeps the given value, or the
      default when none was given, so version stays v1 and each optional
      member stays absent unless given or present in the tree. */
  lemma ConstructOverTree(p: CertificateParameters, freshTime: Time, codec: Codec)
    requires p.schema.Some? && Match(CertificateLayout(), p.schema.value.tree).Some?
    ensures Construct(p, freshTime, codec).Ok?
    ensures var r := Construct(p, freshTime, codec).value;
      var t := p.schema.value.tree.children[0];
      var caps := Match(CertificateLayout(), p.schema.value.tree).value;
      && r.tbs == p.schema.value.tbsBytes
      && ReadFrom(r, FromParameters(p, freshTime), t, caps, codec)
      && (Version !in caps ==> r.version == p.version.GetOr(DefaultVersion))
      && (IssuerUniqueID !in caps ==> r.issuerUniqueID == p.issuerUniqueID)
      && (SubjectUniqueID !in caps ==> r.subjectUniqueID == p.subjectUniqueID)
      && (Extensions !in caps ==> r.extensions == p.extensions)
  {
  }
}
