/** Where each capture of a matched TBSCertificate sits among its children.
    Decoding reads every member from the capture under its label; the facts
    here turn those captures back into positions in the parsed tree. */
module TbsPositions {
  import opened Wrappers
  import opened Asn1
  import opened SchemaMatch
  import opened Entities
  import opened CertificateLayouts

  /** 1 when `x` was captured, else 0: the number of children an OPTIONAL
      item labelled `x` consumed. */
  function Count(caps: map<Field, Captured>, x: Field): nat {
    if x in caps then 1 else 0
  }

  /** `caps` holds exactly `n` under `x`. */
  predicate Holds(caps: map<Field, Captured>, x: Field, n: Node) {
    x in caps && caps[x] == One(n)
  }

  /** `[0] { INTEGER }`. */
  predicate IsVersionElement(n: Node) {
    && n.Constructed? && n.tag == ContextTag(0) && |n.children| == 1
    && n.children[0].Primitive? && n.children[0].tag == IntegerTag
  }

  /** A primitive `[k]` element. */
  predicate IsUniqueIdElement(n: Node, k: nat) {
    n.Primitive? && n.tag == ContextTag(k)
  }

  /** A SEQUENCE of two times. */
  predicate IsValidityElement(n: Node) {
    IsSequence(n) && |n.children| == 2 && IsTimeLeaf(n.children[0]) && IsTimeLeaf(n.children[1])
  }

  /** `[3] { SEQUENCE OF SEQUENCE }`. */
  predicate IsExtensionsElement(n: Node) {
    && n.Constructed? && n.tag == ContextTag(3) && |n.children| == 1
    && IsSequence(n.children[0])
    && forall i | 0 <= i < |n.children[0].children| :: IsSequence(n.children[0].children[i])
  }

  // ---------------------------------------------------------------------
  // Where each label sits, from a given child onward

  /** The trailing OPTIONAL elements: each present element is the next
      child, so each one's position counts the captured items before it. */
  predicate OptionalLaidOut(ks: seq<Node>, caps: map<Field, Captured>) {
    var n1 := Count(caps, IssuerUniqueID);
    var n2 := Count(caps, SubjectUniqueID);
    && |ks| == n1 + n2 + Count(caps, Extensions)
    && (IssuerUniqueID in caps ==> IsUniqueIdElement(ks[0], 1) && caps[IssuerUniqueID] == One(ks[0]))
    && (SubjectUniqueID in caps ==> IsUniqueIdElement(ks[n1], 2) && caps[SubjectUniqueID] == One(ks[n1]))
    && (Extensions in caps ==>
          IsExtensionsElement(ks[n1 + n2]) && caps[Extensions] == Many(ks[n1 + n2].children[0].children))
  }

  predicate KeyLaidOut(ks: seq<Node>, caps: map<Field, Captured>) {
    && |ks| >= 1 && IsSequence(ks[0]) && Holds(caps, SubjectPublicKeyInfo, ks[0])
    && OptionalLaidOut(ks[1..], caps)
  }

  predicate SubjectLaidOut(ks: seq<Node>, caps: map<Field, Captured>) {
    && |ks| >= 1 && IsSequence(ks[0]) && Holds(caps, Subject, ks[0])
    && KeyLaidOut(ks[1..], caps)
  }

  predicate ValidityLaidOut(ks: seq<Node>, caps: map<Field, Captured>) {
    && |ks| >= 1 && IsValidityElement(ks[0]) && Holds(caps, Validity, ks[0])
    && Holds(caps, NotBefore, ks[0].children[0]) && Holds(caps, NotAfter, ks[0].children[1])
    && SubjectLaidOut(ks[1..], caps)
  }

  predicate IssuerLaidOut(ks: seq<Node>, caps: map<Field, Captured>) {
    && |ks| >= 1 && IsSequence(ks[0]) && Holds(caps, Issuer, ks[0])
    && ValidityLaidOut(ks[1..], caps)
  }

  predicate SignatureLaidOut(ks: seq<Node>, caps: map<Field, Captured>) {
    && |ks| >= 1 && IsSequence(ks[0]) && Holds(caps, Signature, ks[0])
    && IssuerLaidOut(ks[1..], caps)
  }

  /** serialNumber, signature, issuer, validity, subject and
      subjectPublicKeyInfo are the next six children, in that order, and the
      OPTIONAL elements follow. */
  predicate MandatoryLaidOut(ks: seq<Node>, caps: map<Field, Captured>) {
    && |ks| >= 1 && ks[0].Primitive? && ks[0].tag == IntegerTag && Holds(caps, SerialNumber, ks[0])
    && SignatureLaidOut(ks[1..], caps)
  }

  /** The TBSCertificate `t`: a SEQUENCE whose first child is the version
      element exactly when version was captured, followed by the mandatory
      and OPTIONAL elements. */
  predicate TbsLaidOut(t: Node, caps: map<Field, Captured>) {
    && IsSequence(t)
    && (Version in caps ==>
          |t.children| >= 1 && IsVersionElement(t.children[0]) && caps[Version] == One(t.children[0].children[0]))
    && MandatoryLaidOut(t.children[Count(caps, Version)..], caps)
  }

  /** The OPTIONAL elements start right after the six mandatory ones. */
  lemma TbsOptionalTail(t: Node, caps: map<Field, Captured>)
    requires TbsLaidOut(t, caps)
    ensures |t.children| >= Count(caps, Version) + 6
    ensures OptionalLaidOut(t.children[Count(caps, Version) + 6..], caps)
  {
    var ks := t.children[Count(caps, Version)..];
    assert ks[1..][1..][1..][1..][1..][1..] == t.children[Count(caps, Version) + 6..];
  }

  // ---------------------------------------------------------------------
  // Frames: each predicate reads only the labels from one item onward

  /** The order in which the TBSCertificate items capture their labels;
      labels outside TBSCertificate come last. */
  function Rank(x: Field): nat {
    match x
    case Version => 0
    case SerialNumber => 1
    case Signature => 2
    case Issuer => 3
    case Validity => 4
    case NotBefore => 4
    case NotAfter => 4
    case Subject => 5
    case SubjectPublicKeyInfo => 6
    case IssuerUniqueID => 7
    case SubjectUniqueID => 8
    case Extensions => 9
    case _ => 10
  }

  /** `a` and `b` capture the same thing, or nothing, under `x`. */
  predicate AgreeOn(a: map<Field, Captured>, b: map<Field, Captured>, x: Field) {
    (x in a <==> x in b) && (x in a ==> a[x] == b[x])
  }

  /** `a` and `b` agree on every TBSCertificate label of rank `k` or more. */
  predicate AgreeFrom(a: map<Field, Captured>, b: map<Field, Captured>, k: nat) {
    forall x: Field | k <= Rank(x) < 10 :: AgreeOn(a, b, x)
  }

  lemma OptionalFrame(ks: seq<Node>, a: map<Field, Captured>, b: map<Field, Captured>)
    requires AgreeFrom(a, b, 7) && OptionalLaidOut(ks, a)
    ensures OptionalLaidOut(ks, b)
  {
    assert AgreeOn(a, b, IssuerUniqueID) && AgreeOn(a, b, SubjectUniqueID) && AgreeOn(a, b, Extensions);
  }

  lemma KeyFrame(ks: seq<Node>, a: map<Field, Captured>, b: map<Field, Captured>)
    requires AgreeFrom(a, b, 6) && KeyLaidOut(ks, a)
    ensures KeyLaidOut(ks, b)
  {
    assert AgreeOn(a, b, SubjectPublicKeyInfo);
    OptionalFrame(ks[1..], a, b);
  }

  lemma SubjectFrame(ks: seq<Node>, a: map<Field, Captured>, b: map<Field, Captured>)
    requires AgreeFrom(a, b, 5) && SubjectLaidOut(ks, a)
    ensures SubjectLaidOut(ks, b)
  {
    assert AgreeOn(a, b, Subject);
    KeyFrame(ks[1..], a, b);
  }

  lemma ValidityFrame(ks: seq<Node>, a: map<Field, Captured>, b: map<Field, Captured>)
    requires AgreeFrom(a, b, 4) && ValidityLaidOut(ks, a)
    ensures ValidityLaidOut(ks, b)
  {
    assert AgreeOn(a, b, Validity) && AgreeOn(a, b, NotBefore) && AgreeOn(a, b, NotAfter);
    SubjectFrame(ks[1..], a, b);
  }

  lemma IssuerFrame(ks: seq<Node>, a: map<Field, Captured>, b: map<Field, Captured>)
    requires AgreeFrom(a, b, 3) && IssuerLaidOut(ks, a)
    ensures IssuerLaidOut(ks, b)
  {
    assert AgreeOn(a, b, Issuer);
    ValidityFrame(ks[1..], a, b);
  }

  lemma SignatureFrame(ks: seq<Node>, a: map<Field, Captured>, b: map<Field, Captured>)
    requires AgreeFrom(a, b, 2) && SignatureLaidOut(ks, a)
    ensures SignatureLaidOut(ks, b)
  {
    assert AgreeOn(a, b, Signature);
    IssuerFrame(ks[1..], a, b);
  }

  lemma MandatoryFrame(ks: seq<Node>, a: map<Field, Captured>, b: map<Field, Captured>)
    requires AgreeFrom(a, b, 1) && MandatoryLaidOut(ks, a)
    ensures MandatoryLaidOut(ks, b)
  {
    assert AgreeOn(a, b, SerialNumber);
    SignatureFrame(ks[1..], a, b);
  }


  /** Captures that agree on every TBSCertificate label describe the same
      positions; the labels outside TBSCertificate play no part. */
  lemma TbsFrame(t: Node, a: map<Field, Captured>, b: map<Field, Captured>)
    requires AgreeFrom(a, b, 0) && TbsLaidOut(t, a)
    ensures TbsLaidOut(t, b)
  {
    assert AgreeOn(a, b, Version);
    MandatoryFrame(t.children[Count(a, Version)..], a, b);
  }

  // ---------------------------------------------------------------------
  // Every successful match lays its captures out so

  lemma ExtensionsItemMatch(n: Node)
    requires Match(ExtensionsItem(), n).Some?
    ensures IsExtensionsElement(n)
    ensures Match(ExtensionsItem(), n).value == map[Extensions := Many(n.children[0].children)]
  {
    var list := ExtensionsItem().items.head;
    MatchSequence(ExtensionsItem(), n);
    MatchItemsMandatory(list, Nil, n.children);
    var e := n.children[0];
    assert forall i | 0 <= i < |e.children| :: Match(SequenceLayout<Field>(None), e.children[i]).Some?;
  }

  /** Every label captured in `caps` is a TBSCertificate label ranked `k`
      or later. */
  predicate RanksFrom(caps: map<Field, Captured>, k: nat) {
    forall x | x in caps :: k <= Rank(x) < 10
  }

  /** Every label captured in `caps` lies outside TBSCertificate. */
  predicate OutsideTbs(caps: map<Field, Captured>) {
    forall x | x in caps :: Rank(x) >= 10
  }

  lemma ExtensionsTailLaidOut(ks: seq<Node>)
    requires MatchItems(OptionalItems().tail.tail, ks).Some?
    ensures var m := MatchItems(OptionalItems().tail.tail, ks).value;
      && RanksFrom(m, 9)
      && |ks| == Count(m, Extensions)
      && (Extensions in m ==> IsExtensionsElement(ks[0]) && m[Extensions] == Many(ks[0].children[0].children))
  {
    MatchItemsOptional(ExtensionsItem(), Nil, ks);
    if |ks| > 0 && Match(ExtensionsItem(), ks[0]).Some? {
      ExtensionsItemMatch(ks[0]);
    }
  }

  lemma SubjectIdTailLaidOut(ks: seq<Node>)
    requires MatchItems(OptionalItems().tail, ks).Some?
    ensures var m := MatchItems(OptionalItems().tail, ks).value;
      var n2 := Count(m, SubjectUniqueID);
      && RanksFrom(m, 8)
      && |ks| == n2 + Count(m, Extensions)
      && (SubjectUniqueID in m ==> IsUniqueIdElement(ks[0], 2) && m[SubjectUniqueID] == One(ks[0]))
      && (Extensions in m ==> IsExtensionsElement(ks[n2]) && m[Extensions] == Many(ks[n2].children[0].children))
  {
    var items := OptionalItems().tail;
    MatchItemsOptional(items.head, items.tail, ks);
    if |ks| > 0 && Match(items.head, ks[0]).Some? {
      ExtensionsTailLaidOut(ks[1..]);
    } else {
      ExtensionsTailLaidOut(ks);
    }
  }

  lemma OptionalLaidOutHolds(ks: seq<Node>)
    requires MatchItems(OptionalItems(), ks).Some?
    ensures OptionalLaidOut(ks, MatchItems(OptionalItems(), ks).value)
    ensures RanksFrom(MatchItems(OptionalItems(), ks).value, 7)
  {
    var items := OptionalItems();
    MatchItemsOptional(items.head, items.tail, ks);
    if |ks| > 0 && Match(items.head, ks[0]).Some? {
      SubjectIdTailLaidOut(ks[1..]);
    } else {
      SubjectIdTailLaidOut(ks);
    }
  }

  /** A SEQUENCE item captures its node under its own label. */
  lemma SequenceItemMatch(x: Field, n: Node)
    requires Match(SequenceLayout(Some(x)), n).Some?
    ensures IsSequence(n) && Match(SequenceLayout(Some(x)), n).value == map[x := One(n)]
  {
  }

  /** Prepending one mandatory element whose label ranks just before those
      of `rest`. */
  lemma PrependOne(x: Field, n: Node, rest: map<Field, Captured>)
    requires Rank(x) < 10 && RanksFrom(rest, Rank(x) + 1)
    ensures AgreeFrom(rest, map[x := One(n)] + rest, Rank(x) + 1)
    ensures Holds(map[x := One(n)] + rest, x, n)
    ensures RanksFrom(map[x := One(n)] + rest, Rank(x))
  {
  }

  lemma KeyLaidOutHolds(ks: seq<Node>)
    requires MatchItems(MandatoryItems().tail.tail.tail.tail.tail, ks).Some?
    ensures KeyLaidOut(ks, MatchItems(MandatoryItems().tail.tail.tail.tail.tail, ks).value)
    ensures RanksFrom(MatchItems(MandatoryItems().tail.tail.tail.tail.tail, ks).value, 6)
  {
    var items := MandatoryItems().tail.tail.tail.tail.tail;
    MatchItemsMandatory(items.head, items.tail, ks);
    var rest := MatchItems(items.tail, ks[1..]).value;
    OptionalLaidOutHolds(ks[1..]);
    SequenceItemMatch(SubjectPublicKeyInfo, ks[0]);
    PrependOne(SubjectPublicKeyInfo, ks[0], rest);
    OptionalFrame(ks[1..], rest, map[SubjectPublicKeyInfo := One(ks[0])] + rest);
  }

  lemma SubjectLaidOutHolds(ks: seq<Node>)
    requires MatchItems(MandatoryItems().tail.tail.tail.tail, ks).Some?
    ensures SubjectLaidOut(ks, MatchItems(MandatoryItems().tail.tail.tail.tail, ks).value)
    ensures RanksFrom(MatchItems(MandatoryItems().tail.tail.tail.tail, ks).value, 5)
  {
    var items := MandatoryItems().tail.tail.tail.tail;
    MatchItemsMandatory(items.head, items.tail, ks);
    var rest := MatchItems(items.tail, ks[1..]).value;
    KeyLaidOutHolds(ks[1..]);
    SequenceItemMatch(Subject, ks[0]);
    PrependOne(Subject, ks[0], rest);
    KeyFrame(ks[1..], rest, map[Subject := One(ks[0])] + rest);
  }

  lemma TimeMatch(name: Field, n: Node)
    requires Match(TimeLayout(name), n).Some?
    ensures IsTimeLeaf(n) && Match(TimeLayout(name), n).value == map[name := One(n)]
  {
    var alternatives := TimeLayout(name).alternatives;
    if Match(alternatives.head, n).None? {
      assert MatchFirst(alternatives.tail, n).Some?;
      assert Match(alternatives.tail.head, n).Some?;
    }
  }

  /** The captures of a matched validity element. */
  function ValidityCaps(n: Node): map<Field, Captured>
    requires n.Constructed? && |n.children| == 2
  {
    map[Validity := One(n)] + (map[NotBefore := One(n.children[0])] + (map[NotAfter := One(n.children[1])] + map[]))
  }

  lemma ValidityItemMatch(n: Node)
    requires Match(ValidityLayout(), n).Some?
    ensures IsValidityElement(n)
    ensures Match(ValidityLayout(), n).value == ValidityCaps(n)
  {
    var items := ValidityLayout().items;
    MatchSequence(ValidityLayout(), n);
    MatchItemsMandatory(items.head, items.tail, n.children);
    MatchItemsMandatory(items.tail.head, Nil, n.children[1..]);
    TimeMatch(NotBefore, n.children[0]);
    TimeMatch(NotAfter, n.children[1]);
  }

  lemma ValidityStep(ks: seq<Node>, rest: map<Field, Captured>)
    requires |ks| >= 1 && IsValidityElement(ks[0])
    requires SubjectLaidOut(ks[1..], rest) && RanksFrom(rest, 5)
    ensures ValidityLaidOut(ks, ValidityCaps(ks[0]) + rest)
    ensures RanksFrom(ValidityCaps(ks[0]) + rest, 4)
  {
    var caps := ValidityCaps(ks[0]) + rest;
    assert Rank(Validity) == 4 && Rank(NotBefore) == 4 && Rank(NotAfter) == 4;
    assert AgreeFrom(rest, caps, 5);
    SubjectFrame(ks[1..], rest, caps);
  }

  lemma ValidityLaidOutHolds(ks: seq<Node>)
    requires MatchItems(MandatoryItems().tail.tail.tail, ks).Some?
    ensures ValidityLaidOut(ks, MatchItems(MandatoryItems().tail.tail.tail, ks).value)
    ensures RanksFrom(MatchItems(MandatoryItems().tail.tail.tail, ks).value, 4)
  {
    var items := MandatoryItems().tail.tail.tail;
    MatchItemsMandatory(items.head, items.tail, ks);
    SubjectLaidOutHolds(ks[1..]);
    ValidityItemMatch(ks[0]);
    ValidityStep(ks, MatchItems(items.tail, ks[1..]).value);
  }

  lemma IssuerLaidOutHolds(ks: seq<Node>)
    requires MatchItems(MandatoryItems().tail.tail, ks).Some?
    ensures IssuerLaidOut(ks, MatchItems(MandatoryItems().tail.tail, ks).value)
    ensures RanksFrom(MatchItems(MandatoryItems().tail.tail, ks).value, 3)
  {
    var items := MandatoryItems().tail.tail;
    MatchItemsMandatory(items.head, items.tail, ks);
    var rest := MatchItems(items.tail, ks[1..]).value;
    ValidityLaidOutHolds(ks[1..]);
    SequenceItemMatch(Issuer, ks[0]);
    PrependOne(Issuer, ks[0], rest);
    ValidityFrame(ks[1..], rest, map[Issuer := One(ks[0])] + rest);
  }

  lemma SignatureLaidOutHolds(ks: seq<Node>)
    requires MatchItems(MandatoryItems().tail, ks).Some?
    ensures SignatureLaidOut(ks, MatchItems(MandatoryItems().tail, ks).value)
    ensures RanksFrom(MatchItems(MandatoryItems().tail, ks).value, 2)
  {
    var items := MandatoryItems().tail;
    MatchItemsMandatory(items.head, items.tail, ks);
    var rest := MatchItems(items.tail, ks[1..]).value;
    IssuerLaidOutHolds(ks[1..]);
    SequenceItemMatch(Signature, ks[0]);
    PrependOne(Signature, ks[0], rest);
    IssuerFrame(ks[1..], rest, map[Signature := One(ks[0])] + rest);
  }

  lemma MandatoryLaidOutHolds(ks: seq<Node>)
    requires MatchItems(MandatoryItems(), ks).Some?
    ensures MandatoryLaidOut(ks, MatchItems(MandatoryItems(), ks).value)
    ensures RanksFrom(MatchItems(MandatoryItems(), ks).value, 1)
  {
    var items := MandatoryItems();
    MatchItemsMandatory(items.head, items.tail, ks);
    var rest := MatchItems(items.tail, ks[1..]).value;
    SignatureLaidOutHolds(ks[1..]);
    assert Match(items.head, ks[0]).value == map[SerialNumber := One(ks[0])];
    PrependOne(SerialNumber, ks[0], rest);
    SignatureFrame(ks[1..], rest, map[SerialNumber := One(ks[0])] + rest);
  }

  lemma VersionItemMatch(n: Node)
    requires Match(VersionItem(), n).Some?
    ensures IsVersionElement(n)
    ensures Match(VersionItem(), n).value == map[Version := One(n.children[0])]
  {
    MatchSequence(VersionItem(), n);
    MatchItemsMandatory(VersionItem().items.head, Nil, n.children);
  }

  lemma VersionStep(t: Node, m: map<Field, Captured>, outer: map<Field, Captured>)
    requires IsSequence(t) && |t.children| >= 1 && IsVersionElement(t.children[0])
    requires MandatoryLaidOut(t.children[1..], m) && RanksFrom(m, 1) && OutsideTbs(outer)
    ensures TbsLaidOut(t, map[TbsCertificate := One(t)] + (map[Version := One(t.children[0].children[0])] + m) + outer)
  {
    var caps := map[TbsCertificate := One(t)] + (map[Version := One(t.children[0].children[0])] + m) + outer;
    assert Version in caps && Count(caps, Version) == 1;
    assert AgreeFrom(m, caps, 1);
    MandatoryFrame(t.children[1..], m, caps);
  }

  lemma NoVersionStep(t: Node, m: map<Field, Captured>, outer: map<Field, Captured>)
    requires IsSequence(t) && MandatoryLaidOut(t.children, m) && RanksFrom(m, 1) && OutsideTbs(outer)
    ensures TbsLaidOut(t, map[TbsCertificate := One(t)] + m + outer)
  {
    var caps := map[TbsCertificate := One(t)] + m + outer;
    assert Version !in caps && Count(caps, Version) == 0;
    assert AgreeFrom(m, caps, 1);
    MandatoryFrame(t.children, m, caps);
  }

  /** The TBSCertificate items capture only TBSCertificate labels. */
  lemma TbsItemsRanks(kids: seq<Node>)
    requires MatchItems(TbsItems(), kids).Some?
    ensures RanksFrom(MatchItems(TbsItems(), kids).value, 0)
  {
    MatchItemsOptional(VersionItem(), MandatoryItems(), kids);
    if |kids| > 0 && Match(VersionItem(), kids[0]).Some? {
      VersionItemMatch(kids[0]);
      MandatoryLaidOutHolds(kids[1..]);
    } else {
      MandatoryLaidOutHolds(kids);
    }
  }

  /** Every successful TBSCertificate match, whatever is captured after it
      outside TBSCertificate: the version element comes first exactly when
      version was captured, then the six mandatory elements in order, then
      the captured OPTIONAL elements and nothing else. */
  lemma {:induction false} TbsLaidOutHolds(t: Node, outer: map<Field, Captured>)
    requires Match(TbsLayout(), t).Some? && OutsideTbs(outer)
    ensures TbsLaidOut(t, Match(TbsLayout(), t).value + outer)
  {
    var kids := t.children;
    MatchSequence(TbsLayout(), t);
    MatchItemsOptional(VersionItem(), MandatoryItems(), kids);
    if |kids| > 0 && Match(VersionItem(), kids[0]).Some? {
      VersionItemMatch(kids[0]);
      MandatoryLaidOutHolds(kids[1..]);
      VersionStep(t, MatchItems(MandatoryItems(), kids[1..]).value, outer);
    } else {
      MandatoryLaidOutHolds(kids);
      NoVersionStep(t, MatchItems(MandatoryItems(), kids).value, outer);
    }
  }
}
