/** The attribute certificate of section 4.1 of RFC 5755: a SEQUENCE of
    the signed information, the signature algorithm and the signature. */
module AttributeCertificates {
  import opened Wrappers
  import opened Errors
  import opened Asn1
  import opened SchemaMatch
  import opened Entities

  /** The capture labels of the layout, which are also the member names. */
  datatype AcField = AcInfo | AcSignatureAlgorithm | AcSignatureValue

  /** The member's name as the class spells it. */
  function AcMemberName(m: AcField): string {
    match m
    case AcInfo => "acinfo"
    case AcSignatureAlgorithm => "signatureAlgorithm"
    case AcSignatureValue => "signatureValue"
  }

  datatype AttributeCertificateV2 = AttributeCertificateV2(
    acinfo: AttributeCertificateInfoV2,
    signatureAlgorithm: AlgorithmIdentifier,
    signatureValue: Node)

  /** The value of one member, whatever its type. */
  datatype AcMemberValue =
    | InfoValue(info: AttributeCertificateInfoV2)
    | AlgorithmValue(algorithm: AlgorithmIdentifier)
    | Asn1Value(node: Node)

  function AcDefaultOf(m: AcField): AcMemberValue {
    match m
    case AcInfo => InfoValue(DefaultAttributeCertificateInfoV2)
    case AcSignatureAlgorithm => AlgorithmValue(DefaultAlgorithmIdentifier)
    case AcSignatureValue => Asn1Value(DefaultBitString)
  }

  function AcFieldValue(a: AttributeCertificateV2, m: AcField): AcMemberValue {
    match m
    case AcInfo => InfoValue(a.acinfo)
    case AcSignatureAlgorithm => AlgorithmValue(a.signatureAlgorithm)
    case AcSignatureValue => Asn1Value(a.signatureValue)
  }

  /** `AttributeCertificateV2.defaultValues(memberName)`: the default of the
      member so spelled, and an error for any other name. */
  function DefaultValues(memberName: string): (r: Result<AcMemberValue, Error>)
    ensures r.Err? <==> forall m: AcField :: AcMemberName(m) != memberName
    ensures r.Err? ==> r.error == InvalidMemberName(memberName)
    ensures r.Ok? ==> exists m: AcField :: AcMemberName(m) == memberName && r.value == AcDefaultOf(m)
  {
    if memberName == AcMemberName(AcInfo) then Ok(AcDefaultOf(AcInfo))
    else if memberName == AcMemberName(AcSignatureAlgorithm) then Ok(AcDefaultOf(AcSignatureAlgorithm))
    else if memberName == AcMemberName(AcSignatureValue) then Ok(AcDefaultOf(AcSignatureValue))
    else Err(InvalidMemberName(memberName))
  }

  /** `defaultValues` answers each member's own name with that member's
      default. */
  lemma DefaultValuesOfMember(m: AcField)
    ensures DefaultValues(AcMemberName(m)) == Ok(AcDefaultOf(m))
  {
    match m
    case AcInfo =>
    case AcSignatureAlgorithm => assert AcMemberName(m) != AcMemberName(AcInfo);
    case AcSignatureValue =>
      assert AcMemberName(m) != AcMemberName(AcInfo);
      assert AcMemberName(m) != AcMemberName(AcSignatureAlgorithm);
  }

  /** `AttributeCertificateV2.schema`: acinfo and signatureAlgorithm are
      SEQUENCEs whose inner layouts are opaque here, signatureValue a BIT
      STRING. */
  function AcLayout(): Schema<AcField> {
    Sequence(None, false, SequenceTag,
      Cons(SequenceLayout(Some(AcInfo)),
      Cons(SequenceLayout(Some(AcSignatureAlgorithm)),
      Cons(Leaf(Some(AcSignatureValue), false, BitStringTag, false), Nil))))
  }

  /** A tree matches the layout exactly when it is a SEQUENCE of two
      SEQUENCEs followed by a primitive BIT STRING. */
  predicate AcShape(tree: Node) {
    && IsSequence(tree) && |tree.children| == 3
    && IsSequence(tree.children[0])
    && IsSequence(tree.children[1])
    && tree.children[2].Primitive? && tree.children[2].tag == BitStringTag
  }

  lemma AcLayoutMatches(tree: Node)
    ensures Match(AcLayout(), tree).Some? <==> AcShape(tree)
    ensures AcShape(tree) ==>
      Match(AcLayout(), tree).value ==
        map[AcInfo := One(tree.children[0])]
          + (map[AcSignatureAlgorithm := One(tree.children[1])] + (map[AcSignatureValue := One(tree.children[2])] + map[]))
  {
    var l := AcLayout();
    if Match(l, tree).Some? {
      MatchSequence(l, tree);
      MatchThreeItems(l.items.head, l.items.tail.head, l.items.tail.tail.head, tree.children);
    }
    if AcShape(tree) {
      MatchThreeItemsConverse(l.items.head, l.items.tail.head, l.items.tail.tail.head, tree.children);
    }
  }

  /** `fromSchema`: fails exactly when the tree does not match the layout;
      otherwise all three members are taken from the matched subtrees. */
  function FromSchema(tree: Node): (r: Result<AttributeCertificateV2, Error>)
    ensures r.Err? <==> Match(AcLayout(), tree).None?
    ensures r.Err? ==> r.error == SchemaMismatch
    ensures r.Ok? ==>
      && AcShape(tree)
      && r.value.acinfo.asn1 == tree.children[0]
      && r.value.signatureAlgorithm.asn1 == tree.children[1]
      && r.value.signatureValue == tree.children[2]
  {
    AcLayoutMatches(tree);
    match Match(AcLayout(), tree)
    case None => Err(SchemaMismatch)
    case Some(caps) =>
      Ok(AttributeCertificateV2(
        AttributeCertificateInfoV2(NodeOf(caps[AcInfo])),
        AlgorithmIdentifier(NodeOf(caps[AcSignatureAlgorithm])),
        NodeOf(caps[AcSignatureValue])))
  }

  /** The constructor's parameter object. */
  datatype AcParameters = AcParameters(
    acinfo: Option<AttributeCertificateInfoV2>,
    signatureAlgorithm: Option<AlgorithmIdentifier>,
    signatureValue: Option<Node>,
    schema: Option<Node>)

  /** `new AttributeCertificateV2(parameters)`: the given members or their
      defaults, then a given tree decoded over them, which replaces all
      three members or fails. */
  function Construct(p: AcParameters): (r: Result<AttributeCertificateV2, Error>)
    ensures p.schema.None? ==> r.Ok?
    ensures p.schema.None? ==>
      && AcFieldValue(r.value, AcInfo) == (if p.acinfo.Some? then InfoValue(p.acinfo.value) else AcDefaultOf(AcInfo))
      && AcFieldValue(r.value, AcSignatureAlgorithm) ==
           (if p.signatureAlgorithm.Some? then AlgorithmValue(p.signatureAlgorithm.value)
            else AcDefaultOf(AcSignatureAlgorithm))
      && AcFieldValue(r.value, AcSignatureValue) ==
           (if p.signatureValue.Some? then Asn1Value(p.signatureValue.value) else AcDefaultOf(AcSignatureValue))
    ensures p.schema.Some? ==> r == FromSchema(p.schema.value)
  {
    if p.schema.Some? then FromSchema(p.schema.value)
    else
      Ok(AttributeCertificateV2(
        p.acinfo.GetOr(DefaultAttributeCertificateInfoV2),
        p.signatureAlgorithm.GetOr(DefaultAlgorithmIdentifier),
        p.signatureValue.GetOr(DefaultBitString)))
  }

  /** `toSchema`: the three members in declared order. */
  function ToSchema(a: AttributeCertificateV2): (r: Node)
    ensures IsSequence(r) && |r.children| == 3
  {
    Constructed(SequenceTag, [a.acinfo.asn1, a.signatureAlgorithm.asn1, a.signatureValue])
  }

  /** Members whose trees have the shape the layout requires. */
  predicate WellFormed(a: AttributeCertificateV2) {
    && IsSequence(a.acinfo.asn1)
    && IsSequence(a.signatureAlgorithm.asn1)
    && a.signatureValue.Primitive? && a.signatureValue.tag == BitStringTag
  }

  /** Decoding what `toSchema` emits gives the same members back. */
  lemma {:induction false} DecodeEncode(a: AttributeCertificateV2)
    requires WellFormed(a)
    ensures FromSchema(ToSchema(a)) == Ok(a)
  {
    AcLayoutMatches(ToSchema(a));
  }

  /** Emitting what `fromSchema` decoded gives the input tree back. */
  lemma EncodeDecode(tree: Node)
    requires FromSchema(tree).Ok?
    ensures WellFormed(FromSchema(tree).value)
    ensures ToSchema(FromSchema(tree).value) == tree
  {
    var a := FromSchema(tree).value;
    assert ToSchema(a).children == tree.children;
  }

  /** `toJSON`: one entry per member and no other, each the projection of
      the element `toSchema` emits for that member. */
  function ToJson(a: AttributeCertificateV2): (r: map<AcField, Json>)
    ensures r.Keys == {AcInfo, AcSignatureAlgorithm, AcSignatureValue}
    ensures r[AcInfo] == Projection(ToSchema(a).children[0])
    ensures r[AcSignatureAlgorithm] == Projection(ToSchema(a).children[1])
    ensures r[AcSignatureValue] == Projection(ToSchema(a).children[2])
  {
    map[AcInfo := Projection(a.acinfo.asn1),
        AcSignatureAlgorithm := Projection(a.signatureAlgorithm.asn1),
        AcSignatureValue := Projection(a.signatureValue)]
  }

  /** The projection of a decoded attribute certificate holds, under each
      label, the projection of the subtree the layout captured there. */
  lemma JsonOfDecodedIsCaptures(tree: Node, x: AcField)
    requires FromSchema(tree).Ok?
    ensures x in Match(AcLayout(), tree).value
    ensures ToJson(FromSchema(tree).value)[x] == Projection(NodeOf(Match(AcLayout(), tree).value[x]))
  {
    AcLayoutMatches(tree);
  }

  /** The projection's keys are exactly the labels the layout declares. */
  lemma JsonKeysAreLayoutLabels(a: AttributeCertificateV2, x: AcField)
    ensures x in ToJson(a) <==> Declares(AcLayout(), x)
  {
    assert Declares(AcLayout(), x) by {
      match x
      case AcInfo => assert Declares(AcLayout().items.head, x);
      case AcSignatureAlgorithm => assert Declares(AcLayout().items.tail.head, x);
      case AcSignatureValue => assert Declares(AcLayout().items.tail.tail.head, x);
    }
  }
}
