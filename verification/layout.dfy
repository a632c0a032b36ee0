/** The capture labels and the declared layout of an X.509 certificate
    (section 4.1 of RFC 5280), with the facts about which labels the layout
    declares and which every successful match captures. */
module CertificateLayouts {
  import opened Wrappers
  import opened Asn1
  import opened SchemaMatch
  import opened Entities

  /** The capture labels of the certificate layout. */
  datatype Field =
    | TbsCertificate | Version | SerialNumber | Signature | Issuer | Validity
    | NotBefore | NotAfter | Subject | SubjectPublicKeyInfo
    | IssuerUniqueID | SubjectUniqueID | Extensions
    | SignatureAlgorithm | SignatureValue

  /** `[0] EXPLICIT Version DEFAULT v1`. */
  function VersionItem(): Schema<Field> {
    Sequence(None, true, ContextTag(0), Cons(Leaf(Some(Version), false, IntegerTag, false), Nil))
  }

  /** `validity`: a SEQUENCE of notBefore and notAfter. */
  function ValidityLayout(): Schema<Field> {
    Sequence(Some(Validity), false, SequenceTag, Cons(TimeLayout(NotBefore), Cons(TimeLayout(NotAfter), Nil)))
  }

  /** `[3] EXPLICIT SEQUENCE OF Extension`, the list captured under
      `extensions`. */
  function ExtensionsItem(): Schema<Field> {
    Sequence(None, true, ContextTag(3),
      Cons(Repeated(None, Some(Extensions), false, SequenceTag, SequenceLayout(None)), Nil))
  }

  /** The trailing OPTIONAL items of TBSCertificate. */
  function OptionalItems(): Items<Field> {
    Cons(Leaf(Some(IssuerUniqueID), true, ContextTag(1), false),
    Cons(Leaf(Some(SubjectUniqueID), true, ContextTag(2), false),
    Cons(ExtensionsItem(), Nil)))
  }

  /** The mandatory items of TBSCertificate, followed by the optional ones. */
  function MandatoryItems(): Items<Field> {
    Cons(Leaf(Some(SerialNumber), false, IntegerTag, false),
    Cons(SequenceLayout(Some(Signature)),
    Cons(SequenceLayout(Some(Issuer)),
    Cons(ValidityLayout(),
    Cons(SequenceLayout(Some(Subject)),
    Cons(SequenceLayout(Some(SubjectPublicKeyInfo)),
    OptionalItems()))))))
  }

  /** The items of TBSCertificate, in declared order. */
  function TbsItems(): Items<Field> {
    Cons(VersionItem(), MandatoryItems())
  }

  /** The TBSCertificate layout (`tbsCertificate`). */
  function TbsLayout(): Schema<Field> {
    Sequence(Some(TbsCertificate), false, SequenceTag, TbsItems())
  }

  /** The Certificate layout (`Certificate.schema`). */
  function CertificateLayout(): Schema<Field> {
    Sequence(None, false, SequenceTag,
      Cons(TbsLayout(),
      Cons(SequenceLayout(Some(SignatureAlgorithm)),
      Cons(Leaf(Some(SignatureValue), false, BitStringTag, false), Nil))))
  }

  /** The labels of the mandatory TBSCertificate fields. */
  const MandatoryTbsFields: set<Field> :=
    {SerialNumber, Signature, Issuer, Validity, NotBefore, NotAfter, Subject, SubjectPublicKeyInfo}

  /** The labels of the trailing OPTIONAL TBSCertificate fields. */
  const OptionalFields: set<Field> := {IssuerUniqueID, SubjectUniqueID, Extensions}

  /** The labels of the outer Certificate items. */
  const OuterFields: set<Field> := {TbsCertificate, SignatureAlgorithm, SignatureValue}

  /** The labels every successful match of the Certificate layout captures. */
  const RequiredFields: set<Field> := MandatoryTbsFields + OuterFields

  lemma ValidityGuarantees(x: Field)
    requires x == Validity || x == NotBefore || x == NotAfter
    ensures Guarantees(ValidityLayout(), x)
  {
  }

  lemma MandatoryGuaranteesFrom3(x: Field)
    requires x == Validity || x == NotBefore || x == NotAfter || x == Subject || x == SubjectPublicKeyInfo
    ensures GuaranteesIn(MandatoryItems().tail.tail.tail, x)
  {
    if x == Validity || x == NotBefore || x == NotAfter {
      ValidityGuarantees(x);
    }
  }

  lemma MandatoryGuaranteesFrom0(x: Field)
    requires x == SerialNumber || x == Signature || x == Issuer
    ensures GuaranteesIn(MandatoryItems(), x)
  {
  }

  lemma TbsGuarantees(x: Field)
    requires x in MandatoryTbsFields
    ensures Guarantees(TbsLayout(), x)
  {
    if x == SerialNumber || x == Signature || x == Issuer {
      MandatoryGuaranteesFrom0(x);
    } else {
      MandatoryGuaranteesFrom3(x);
      assert GuaranteesIn(MandatoryItems(), x);
    }
    assert GuaranteesIn(TbsItems(), x);
  }

  /** Every mandatory TBSCertificate label is captured by every successful
      match of the Certificate layout. */
  lemma CertificateLayoutGuaranteesTbs(x: Field)
    requires x in MandatoryTbsFields
    ensures Guarantees(CertificateLayout(), x)
  {
    TbsGuarantees(x);
    assert GuaranteesIn(CertificateLayout().items, x);
  }

  /** The three outer labels are captured by every successful match of the
      Certificate layout. */
  lemma CertificateLayoutGuaranteesOuter(x: Field)
    requires x in OuterFields
    ensures Guarantees(CertificateLayout(), x)
  {
    if x == TbsCertificate {
      assert Guarantees(TbsLayout(), x);
    } else if x == SignatureAlgorithm {
      assert Guarantees(CertificateLayout().items.tail.head, x);
    } else {
      assert Guarantees(CertificateLayout().items.tail.tail.head, x);
    }
  }
}
