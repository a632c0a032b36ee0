/** The sub-structures a certificate is built from. Their own layouts and
    field mappings are not part of this model: each is represented by the
    subtree it was decoded from (or will encode to), so two of them are equal
    exactly when their trees are. The exception is Extension, whose public
    fields `extnID` and `parsedValue` the CA predicate reads. */
module Entities {
  import opened Wrappers
  import opened Asn1
  import opened SchemaMatch

  /** AlgorithmIdentifier (section 4.1.1.2 of RFC 5280). */
  datatype AlgorithmIdentifier = AlgorithmIdentifier(asn1: Node)

  /** RelativeDistinguishedNames, the Name of an issuer or subject. */
  datatype Name = Name(asn1: Node)

  /** Time: a UTCTime or GeneralizedTime leaf. */
  datatype Time = Time(asn1: Node)

  /** SubjectPublicKeyInfo. */
  datatype PublicKeyInfo = PublicKeyInfo(asn1: Node)

  /** AttributeCertificateInfoV2 (section 4.1 of RFC 5755). */
  datatype AttributeCertificateInfoV2 = AttributeCertificateInfoV2(asn1: Node)

  /** The decoded payload of an extension: a closed set of known kinds plus
      an opaque one. */
  datatype ExtensionValue =
    | BasicConstraints(cA: bool, pathLenConstraint: Option<int>)
    | OtherValue(asn1: Node)

  datatype Extension = Extension(
    extnID: string,
    critical: bool,
    extnValue: seq<byte>,
    parsedValue: Option<ExtensionValue>)

  /** id-ce-basicConstraints, section 4.2.1.9 of RFC 5280. */
  const BasicConstraintsOid: string := "2.5.29.19"

  /** A constructed universal SEQUENCE node. */
  predicate IsSequence(n: Node) {
    n.Constructed? && n.tag == SequenceTag
  }

  /** A UTCTime or GeneralizedTime leaf. */
  predicate IsTimeLeaf(n: Node) {
    n.Primitive? && (n.tag == UtcTimeTag || n.tag == GeneralizedTimeTag)
  }

  /** The layout of a sub-structure whose inner layout is opaque here: one
      SEQUENCE node. */
  function SequenceLayout<L>(name: Option<L>): Schema<L> {
    Leaf(name, false, SequenceTag, true)
  }

  /** Time.schema: a CHOICE of UTCTime and GeneralizedTime, both captured
      under the same label. */
  function TimeLayout<L>(name: L): Schema<L> {
    Choice(false, Cons(Leaf(Some(name), false, UtcTimeTag, false), Cons(Leaf(Some(name), false, GeneralizedTimeTag, false), Nil)))
  }

  /** `new AlgorithmIdentifier()`, `new RelativeDistinguishedNames()`,
      `new PublicKeyInfo()`, `new AttributeCertificateInfoV2()`: an empty
      SEQUENCE stands for the default sub-structure. */
  const EmptySequence: Node := Constructed(SequenceTag, [])
  const DefaultAlgorithmIdentifier := AlgorithmIdentifier(EmptySequence)
  const DefaultName := Name(EmptySequence)
  const DefaultPublicKeyInfo := PublicKeyInfo(EmptySequence)
  const DefaultAttributeCertificateInfoV2 := AttributeCertificateInfoV2(EmptySequence)

  /** `new asn1js.Integer()` and `new asn1js.BitString()`. */
  const DefaultInteger: Node := Primitive(IntegerTag, [])
  const DefaultBitString: Node := Primitive(BitStringTag, [])

  /** The diagnostic projection (`toJSON`). Hexadecimal rendering is not
      modelled: binary fields keep their bytes, and sub-structures keep the
      tree their own projection is computed from. */
  datatype Json =
    | Hex(bytes: seq<byte>)
    | Number(value: int)
    | Projection(asn1: Node)
    | ExtensionProjection(extension: Extension)
    | Array(items: seq<Json>)
}

/** The external ASN.1 collaborators, as functions the model does not
    define: BER serialisation and parsing (asn1js `toBER`/`fromBER`), the
    INTEGER value conversion (`valueDec` and `new Integer({ value })`), and
    the Extension structure's own encoder and decoder. */
module Codecs {
  import opened Wrappers
  import opened Asn1
  import opened Entities

  datatype Codec = Codec(
    toBer: Node -> seq<byte>,
    fromBer: seq<byte> -> Option<Node>,
    integerContent: int -> seq<byte>,
    valueDec: seq<byte> -> int,
    extensionToSchema: Extension -> Node,
    extensionFromSchema: Node -> Extension)

  /** What the model assumes of the collaborators: parsing a serialised tree
      gives the tree back, a serialised tree has at least its identifier
      and length octets, no bytes at all parse to no tree, an INTEGER's
      value survives encoding, and an extension encodes to a SEQUENCE. */
  ghost predicate Lawful(codec: Codec) {
    && (forall n: Node :: codec.fromBer(codec.toBer(n)) == Some(n))
    && (forall n: Node :: |codec.toBer(n)| >= 2)
    && codec.fromBer([]) == None
    && (forall v: int :: codec.valueDec(codec.integerContent(v)) == v)
    && (forall e: Extension :: IsSequence(codec.extensionToSchema(e)))
  }

  /** An extension whose parsed value is the one its decoder would produce
      again from its encoding. */
  predicate Reencodes(codec: Codec, e: Extension) {
    codec.extensionFromSchema(codec.extensionToSchema(e)) == e
  }

  /** `new asn1js.Integer({ value: v })`. */
  function IntegerNode(codec: Codec, v: int): Node {
    Primitive(IntegerTag, codec.integerContent(v))
  }
}
