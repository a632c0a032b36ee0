# PKI.js X.509 Certificate and AttributeCertificateV2, modelled in Dafny

This project models the `Certificate` class of PKI.js: the X.509 certificate of
section 4.1 of RFC 5280. It also models the smaller `AttributeCertificateV2` class,
the attribute certificate of section 4.1 of RFC 5755.

A parsed ASN.1 value is an abstract tree (`Asn1.Node`): a primitive node carries a
tag and content bytes, and a constructed node carries a tag and children. The asn1js
schema comparison is modelled by the generic matcher `SchemaMatch.Match`. A layout
(`Schema<L>`) declares SEQUENCEs, CHOICEs, OPTIONAL items and repeated items, and a
successful match returns the captured subtrees keyed by label. The matcher is greedy
and does not backtrack.

The model covers the following behaviour:

- **Layout** (`layout.dfy`): the Certificate and TBSCertificate layouts, with their
  capture labels in declared order.
- **Decoding** (`Certificates.FromSchema`): the tree is matched against the layout, and
  the captures are mapped onto the members.
- **Defaults and construction** (`DefaultValues`, `Default`, `Construct`).
- **Reassembly** (`Encoding.EncodeTBS`): the to-be-signed part is rebuilt from the
  members, following the DEFAULT and OPTIONAL rules.
- **Serialisation** (`Encoding.ToSchema`) and the JSON projection (`Encoding.ToJson`).
- **Signing and verification** (`Signing.Sign`, `Signing.Verify`): both are state
  transitions over an opaque cryptographic engine.
- **The CA test** (`Trust.CheckCA`).
- **The attribute certificate** (`attribute.dfy`): its defaults, layout, decoding,
  construction, serialisation and JSON projection.

The main theorems are:

- `CertificateRoundTrip.EncodeThenDecode`: decoding what `toSchema(true)` builds gives
  back every member, with `tbs` the bytes the first child was read from.
- `CertificateRoundTrip.DecodeThenSerialise`: `toSchema(false)` after `fromSchema` gives
  back the input tree.
- `Signing.SignThenVerify`: a self-issued certificate signed with the private half of
  its own key verifies.
- `AttributeCertificates.DecodeEncode` and `AttributeCertificates.EncodeDecode`: the two
  round trips of the attribute certificate.

Three points follow the code where a plain reading of the class's documented contract
would say otherwise:

- **`sign` can fail part-way.** It assigns `signature`, `signatureAlgorithm` and `tbs`
  before it awaits the signing call. A provider failure at that point leaves those three
  changed and `signatureValue` unchanged. `Signing.Sign` returns the certificate together
  with the raised error (`Outcome`) and states exactly this.
- **`toSchema(false)` with empty stored bytes is not an outer SEQUENCE.** In this case it
  returns `Certificate.schema().value[0]`. The model reads that as the first item of the
  Certificate layout, which is the TBSCertificate layout itself, and returns
  `LayoutOnly(TbsLayout())`. This rests on an assumption about asn1js (see "## Left out").
- **`fromSchema` never resets a member.** When the tree carries no version or no optional
  part, the value the object already held stays. The constructor decodes over the
  certificate it has just built from its parameters, so a tree without a version leaves
  the given version, or v1 when none was given, and a tree without an optional part
  leaves the given part, or none (`Certificates.ConstructOverTree`).
- **`tbs` is the bytes the input was read from.** `fromSchema` stores the TBSCertificate's
  `valueBeforeDecode`, not a re-serialisation. The BER parser keeps those bytes, so the
  model passes them in beside the tree (`Certificates.ParsedTree`). A re-serialisation can
  differ from them for input in a non-canonical encoding, and then only the original
  bytes verify.
- **`verify` trusts the stored bytes.** It checks `tbs` and not the current members.
  Without an issuer certificate, it only asks whether the current issuer equals the
  current subject. So after the subject of a signed self-issued certificate changes, it
  still accepts the old signature when the new subject equals the issuer, and otherwise
  reports a missing issuer (`Signing.VerifyAfterSubjectChange`).

The external collaborators are parameters and are not defined here:

- BER serialisation and parsing, and INTEGER value conversion, are fields of
  `Codecs.Codec`. `Codecs.Lawful` states what the theorems assume of them: parsing
  inverts serialisation, serialised trees are at least two bytes long, no bytes at all
  parse to no tree, and INTEGER values survive encoding.
- The Extension encoder and decoder are also fields of `Codecs.Codec`.
- The cryptographic engine is `Signing.Engine`.
- Name equality (`isEqual`) is a `nameEqual` function argument.
- The `Time` built by `new Time()` is a `freshTime` argument.

## Model

| member | source | states |
|---|---|---|
| CertificateLayouts.CertificateLayoutGuaranteesTbs | src/Certificate.ts:93-173 | every match of the Certificate layout captures serialNumber, signature, issuer, validity, notBefore, notAfter, subject and subjectPublicKeyInfo, since none of them is OPTIONAL |
| CertificateLayouts.CertificateLayoutGuaranteesOuter | src/Certificate.ts:492-506 | every match of the Certificate layout captures tbsCertificate, signatureAlgorithm and signatureValue |
| Certificates.MatchCapturesRequiredFields | src/Certificate.ts:541-560 | a successful match holds every capture that fromSchema reads unconditionally |
| Certificates.CertificateMatchShape | src/Certificate.ts:492-506 | a matching tree is a SEQUENCE of exactly three children; the signature captures are the second and third child, and the rest come from the TBS child |
| Certificates.TbsMatchCapturesItself | src/Certificate.ts:541 | the tbsCertificate capture is the whole first child, the node whose original bytes become `tbs` |
| TbsPositions.TbsLaidOutHolds | src/Certificate.ts:93-173 | a TBSCertificate matching its layout holds the `[0]` version element first exactly when version is captured, then serialNumber, signature, issuer, a validity SEQUENCE of two times, subject and subjectPublicKeyInfo, then `[1]`, `[2]` and `[3]` each exactly when captured, and nothing else; each capture is the element at that position |
| Certificates.CertificateLaidOut | src/Certificate.ts:492-506 | a matching certificate has three children, and its first child lays out its captures as above |
| Certificates.DecodeReadsPositions | src/Certificate.ts:541-557 | the decoded members are read from those positions: version from the `[0]` wrapper's INTEGER, the unique IDs from the content of `[1]` and `[2]`, the extensions from the SEQUENCE inside `[3]`; what the child does not carry keeps the prior value |
| Certificates.FromSchema | src/Certificate.ts:513-561 | fails with SchemaMismatch exactly when the tree does not match; on success, tbs is the bytes the first child was read from, the signature fields are the second and third children, and every other member is read from its position in the first child, version and each optional part replacing the prior value only when present |
| Certificates.DefaultValues | src/Certificate.ts:398-430 | fails exactly for a name no member has; otherwise returns the default of the member with that name |
| Certificates.DefaultValuesOfMember | src/Certificate.ts:398-428 | each member's own name yields that member's default |
| Certificates.Default | src/Certificate.ts:348-369 | every non-optional member holds its defaultValues entry, and the three optional members are absent |
| Certificates.Construct | src/Certificate.ts:348-377 | without a tree, each member is the given value, else absent when optional, else its default; with a tree, the result is fromSchema applied over that certificate, which fails exactly when the tree does not match |
| Certificates.ConstructWithoutParameters | src/Certificate.ts:348-369 | with no parameters, every member holds its default and the optional members are absent |
| Certificates.ConstructOverTree | src/Certificate.ts:348-377 | with a matching tree, construction succeeds, tbs is the tree's original bytes, the members are read from the tree's positions, and a version or optional part the tree lacks keeps the given value, or v1 and absent when none was given |
| Encoding.EncodeTbsVersion | src/Certificate.ts:572-597 | the `[0]` version wrapper comes first exactly when the version is not v1; otherwise serialNumber comes first |
| Encoding.EncodeTbsMandatoryOrder | src/Certificate.ts:585-597 | after the version element come serialNumber, signature, issuer, SEQUENCE(notBefore, notAfter), subject and subjectPublicKeyInfo, in that order |
| Encoding.EncodeTbsOptionalParts | src/Certificate.ts:599-631 | `[1]`, `[2]` and `[3]` follow in that order, each exactly when defined, and nothing else; a defined empty extension list gives `[3]` around an empty SEQUENCE |
| Encoding.ToSchema | src/Certificate.ts:645-672 | fails exactly when stored bytes exist but do not parse; gives the TBS layout exactly when not re-encoding and nothing is stored, and a tree in every other successful case; that tree is a SEQUENCE of the TBS part (parsed from the stored bytes, or reassembled), signatureAlgorithm and signatureValue |
| Encoding.StoredSerialisationIgnoresFields | src/Certificate.ts:649-658 | without re-encoding, two certificates that agree on the stored bytes and the signature members serialise alike |
| Encoding.ToJson | src/Certificate.ts:677-708 | the ten always-present members are keys; version is a key exactly when not v1; each optional member is a key exactly when defined; extensions keep their count |
| Signing.Sign | src/Certificate.ts:733-756 | members other than tbs, signature, signatureAlgorithm and signatureValue never change; without a key, or without engine parameters, nothing changes and an error is raised; otherwise both algorithm members become the engine's choice, tbs becomes the serialised reassembly, and signatureValue becomes the signature exactly when the engine signs, which is exactly when no error is raised |
| Signing.VerificationKey | src/Certificate.ts:765-771 | the issuer certificate's key when one is given; otherwise the certificate's own key exactly when it is self-issued |
| Signing.Verify | src/Certificate.ts:762-778 | fails with MissingIssuer exactly when no issuer certificate is given and the certificate is not self-issued; otherwise returns the engine's verdict on the stored tbs bytes, the signature and the resolved key, or ProviderFailure exactly when the engine rejects |
| Signing.VerifyUsesStoredBytes | src/Certificate.ts:765-777 | two certificates with the same stored bytes and signature that resolve to the same key verify alike; without an issuer certificate, only the outcome of the self-issued test and, when it passes, the own key matter |
| Signing.VerifyAfterSubjectChange | src/Certificate.ts:768-777 | after a successful signing, replacing the subject keeps verification without an issuer certificate at true when the new subject equals the issuer, and turns it into MissingIssuer otherwise |
| Signing.SignThenVerify | src/Certificate.ts:733-778 | a successfully signed self-issued certificate verifies without an issuer certificate, under an engine whose key pair matches |
| Signing.SignedSerialisationsAgree | src/Certificate.ts:750-751 | after a successful signing, serialising from the stored bytes and re-encoding the members give the same tree |
| Trust.FirstCAIndex | src/Certificate.ts:797-805 | the scan stops at the first basicConstraints extension asserting cA, and finds none exactly when no such extension exists |
| Trust.CheckCA | src/Certificate.ts:787-812 | returns the certificate itself or nothing; nothing for the signer's own certificate or when extensions are absent; otherwise the certificate exactly when some extension asserts cA |
| Trust.CheckCAAppend | src/Certificate.ts:797-808 | appending extensions never withdraws CA status |
| Trust.CheckCAFindsExtension | src/Certificate.ts:797-808 | an extension asserting cA at any position makes the certificate a CA |
| Trust.CheckCAIgnoresOrder | src/Certificate.ts:797-808 | any rearrangement of the same extensions gives the same verdict |
| CertificateRoundTrip.CertificateMatches | src/Certificate.ts:568-672 | the tree toSchema(true) builds from well-formed members matches the Certificate layout, with known captures |
| CertificateRoundTrip.ExtensionsRoundTrip | src/Certificate.ts:556-557 | extensions that decode to themselves survive encoding under `[3]` and decoding |
| CertificateRoundTrip.EncodeThenDecode | src/Certificate.ts:541-672 | toSchema(true) is the encoded tree, and decoding it recovers every member, with tbs the bytes the first child was read from |
| CertificateRoundTrip.ConsistentCertificateRoundTrip | src/Certificate.ts:649-672 | a certificate whose stored bytes are its reassembly, as after signing, serialises alike with and without re-encoding, and decodes back to itself exactly from those bytes |
| CertificateRoundTrip.DecodeThenSerialise | src/Certificate.ts:541-672 | toSchema(false) after a successful fromSchema gives back the input tree, when tbs holds the bytes the first child was read from |
| CertificateRoundTrip.JsonKeysAreCapturedLabels | src/Certificate.ts:677-708 | the projection's keys are exactly the labels decoding the encoded certificate captures |
| AttributeCertificates.DefaultValues | src/AttributeCertificateV2/AttributeCertificateV2.ts:56-66 | fails exactly for a name other than acinfo, signatureAlgorithm and signatureValue; otherwise returns that member's default |
| AttributeCertificates.DefaultValuesOfMember | src/AttributeCertificateV2/AttributeCertificateV2.ts:56-63 | each member's own name yields that member's default |
| AttributeCertificates.AcLayoutMatches | src/AttributeCertificateV2/AttributeCertificateV2.ts:91-98 | a tree matches exactly when it is a SEQUENCE of two SEQUENCEs and a primitive BIT STRING, and the captures are its three children in order |
| AttributeCertificates.FromSchema | src/AttributeCertificateV2/AttributeCertificateV2.ts:105-137 | fails with SchemaMismatch exactly when the tree does not match; otherwise all three members come from the children in order |
| AttributeCertificates.Construct | src/AttributeCertificateV2/AttributeCertificateV2.ts:35-47 | without a tree, each member is the given value or its default; with a tree, the result is the decoding of that tree |
| AttributeCertificates.DecodeEncode | src/AttributeCertificateV2/AttributeCertificateV2.ts:145-153 | decoding what toSchema emits gives the same members back |
| AttributeCertificates.EncodeDecode | src/AttributeCertificateV2/AttributeCertificateV2.ts:130-153 | emitting what fromSchema decoded gives the input tree back |
| AttributeCertificates.ToJson | src/AttributeCertificateV2/AttributeCertificateV2.ts:159-165 | the keys are exactly acinfo, signatureAlgorithm and signatureValue, each the projection of the element toSchema emits at that member's position |
| AttributeCertificates.JsonOfDecodedIsCaptures | src/AttributeCertificateV2/AttributeCertificateV2.ts:105-165 | after a successful decode, the projection under each label is the projection of the subtree the layout captured under that label |
| AttributeCertificates.JsonKeysAreLayoutLabels | src/AttributeCertificateV2/AttributeCertificateV2.ts:91-165 | the projection's keys are exactly the labels the layout declares |

## Left out

- Cryptography: `getSignatureParameters`, `signWithPrivateKey` and `verifyWithPublicKey` are fields of `Signing.Engine` with no definition. Each returns `None` where the engine's promise would reject. `getPublicKey` and `getKeyHash` only forward to the engine and are not modelled.
- Async behaviour: promises are modelled as the values they resolve to or the error they reject with.
- The internals of asn1js: `compareSchema` is replaced by the model's own matcher, and BER serialisation and parsing are abstract `Codec` functions.
- SchemaMatch.MatchItems: a SEQUENCE matches only when every child is consumed by its declared items; children left over after the last item make the match fail. Whether `compareSchema` rejects trailing children the same way is not modelled. `Certificates.FromSchema`'s failure condition and `TbsPositions.TbsLaidOutHolds`'s "nothing else" rest on this rule.
- SchemaMatch.Match: a repeated item (SEQUENCE OF) matches a SEQUENCE with no children and captures an empty list. So `[3]` around an empty SEQUENCE matches and decodes to `extensions == Some([])`. `Encoding.EncodeTbsOptionalParts` and `CertificateRoundTrip.EncodeThenDecode` round-trip a defined empty extension list on this basis. Whether `compareSchema` accepts an empty SEQUENCE OF is not modelled.
- Encoding.ToSchema: with no stored bytes and no re-encoding, the source returns `Certificate.schema().value[0]`. The model assumes that this yields the first item of the layout's SEQUENCE, the TBSCertificate layout. If asn1js keeps those items only under `valueBlock.value`, the source's expression instead throws a TypeError, which the model does not represent.
- The sub-structures AlgorithmIdentifier, RelativeDistinguishedNames, Time, PublicKeyInfo and AttributeCertificateInfoV2 are each represented by the tree they decode from. Their own layouts are not modelled, beyond being one SEQUENCE (or, for Time, a UTCTime or GeneralizedTime leaf).
- Extension: its own encoder and decoder are not modelled.
- Date handling inside Time is not modelled.
- Name equality is not modelled; it is an argument.
- Hex formatting in `toJSON`: the projection keeps the bytes (`Json.Hex`) and the sub-structure trees (`Json.Projection`).
- The `names` parameter of the layout functions is not modelled. Each layout is modelled with the capture names that `fromSchema` passes.
- `clearProps` is not modelled: it only deletes earlier captures from the input object.
- `src/index.ts` is not part of this model. It only re-exports and initialises the engine.
- Encoding.EncodeTBS: its own contract states only that the result is a SEQUENCE of at least six elements. The element order and the presence rules are stated by `Encoding.EncodeTbsVersion`, `Encoding.EncodeTbsMandatoryOrder` and `Encoding.EncodeTbsOptionalParts`.
- AttributeCertificates.ToSchema: its own contract states only the SEQUENCE shape. What it emits is stated by the two round-trip lemmas.
- CertificateRoundTrip.EncodeThenDecode: it assumes that the members already have the shapes the layout requires (`WellFormed`). It also assumes decoding starts from a certificate holding v1 and no optional parts (`Blank`), because `fromSchema` keeps uncaptured prior values.
- BER parsing itself: `valueBeforeDecode` is not computed. The bytes a tree was parsed from come with it in `Certificates.ParsedTree`, and the round-trip theorems say which bytes those are.
- Integer widths: version and INTEGER values are unbounded integers. The source uses JavaScript numbers and asn1js integers, and no arithmetic is done on them here.
