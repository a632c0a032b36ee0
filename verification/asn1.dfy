/** An abstract ASN.1 value tree: the result of parsing BER bytes, or the tree
    an entity builds before it is serialised. Leaves carry their content
    octets; constructed nodes carry their children in order. */
module Asn1 {

  type byte = x: int | 0 <= x < 256

  /** The four ASN.1 tag classes (asn1js numbers them 1 to 4). */
  datatype TagClass = Universal | Application | ContextSpecific | Private

  datatype Tag = Tag(tagClass: TagClass, number: nat)

  const IntegerTag := Tag(Universal, 2)
  const BitStringTag := Tag(Universal, 3)
  const SequenceTag := Tag(Universal, 16)
  const UtcTimeTag := Tag(Universal, 23)
  const GeneralizedTimeTag := Tag(Universal, 24)

  /** `[n]` in ASN.1 notation. */
  function ContextTag(n: nat): Tag {
    Tag(ContextSpecific, n)
  }

  datatype Node =
    | Primitive(tag: Tag, content: seq<byte>)
    | Constructed(tag: Tag, children: seq<Node>)

  /** The content octets of a leaf (asn1js `valueBlock.valueHex`); a
      constructed node has none of its own. */
  function ContentOf(n: Node): seq<byte> {
    match n
    case Primitive(_, content) => content
    case Constructed(_, _) => []
  }

  /** A BIT STRING leaf holding the given octets. */
  function BitString(bytes: seq<byte>): Node {
    Primitive(BitStringTag, bytes)
  }
}
