/** `checkCA`: whether a certificate may act as a certification authority,
    judged by its basicConstraints extension (section 4.2.1.9 of RFC 5280). */
module Trust {
  import opened Wrappers
  import opened Asn1
  import opened Entities
  import opened Certificates

  /** A basicConstraints extension whose decoded value asserts `cA`. */
  predicate IsCAExtension(e: Extension) {
    && e.extnID == BasicConstraintsOid
    && e.parsedValue.Some?
    && e.parsedValue.value.BasicConstraints?
    && e.parsedValue.value.cA
  }

  /** Scans the extensions in order and stops at the first one asserting
      `cA`. */
  function FirstCAIndex(extensions: seq<Extension>): (r: Option<nat>)
    ensures r.Some? ==> r.value < |extensions| && IsCAExtension(extensions[r.value])
    ensures r.Some? ==> forall j | 0 <= j < r.value :: !IsCAExtension(extensions[j])
    ensures r.None? <==> forall j | 0 <= j < |extensions| :: !IsCAExtension(extensions[j])
  {
    if |extensions| == 0 then None
    else if IsCAExtension(extensions[0]) then Some(0)
    else
      match FirstCAIndex(extensions[1..])
      case None => None
      case Some(i) => Some(i + 1)
  }

  /** The signer's own certificate: same issuer and same serial number. The
      Name structure's equality is a parameter; INTEGER equality compares
      the encoded values, so it is node equality here. */
  predicate IsSignerCertificate(cert: Certificate, signer: Option<Certificate>, nameEqual: (Name, Name) -> bool) {
    signer.Some? && nameEqual(cert.issuer, signer.value.issuer) && cert.serialNumber == signer.value.serialNumber
  }

  /** `checkCA(cert, signerCert)`: `cert` itself when it is not the signer's
      own certificate and some extension asserts `cA`; `None` (null)
      otherwise, including when it has no extensions. */
  function CheckCA(cert: Certificate, signer: Option<Certificate>, nameEqual: (Name, Name) -> bool)
    : (r: Option<Certificate>)
    ensures r.Some? ==> r.value == cert
    ensures IsSignerCertificate(cert, signer, nameEqual) ==> r.None?
    ensures cert.extensions.None? ==> r.None?
    ensures !IsSignerCertificate(cert, signer, nameEqual) && cert.extensions.Some? ==>
      (r.Some? <==> exists i | 0 <= i < |cert.extensions.value| :: IsCAExtension(cert.extensions.value[i]))
  {
    if IsSignerCertificate(cert, signer, nameEqual) then None
    else if cert.extensions.None? then None
    else if FirstCAIndex(cert.extensions.value).Some? then Some(cert)
    else None
  }

  /** Appending further extensions never withdraws CA status. */
  lemma {:induction false} CheckCAAppend(cert: Certificate, more: seq<Extension>, nameEqual: (Name, Name) -> bool)
    requires cert.extensions.Some?
    requires CheckCA(cert, None, nameEqual).Some?
    ensures CheckCA(cert.(extensions := Some(cert.extensions.value + more)), None, nameEqual).Some?
  {
    var i := FirstCAIndex(cert.extensions.value).value;
    assert (cert.extensions.value + more)[i] == cert.extensions.value[i];
  }

  /** A certificate carrying a CA basicConstraints extension is recognised
      wherever that extension sits in its list. */
  lemma CheckCAFindsExtension(cert: Certificate, i: nat, nameEqual: (Name, Name) -> bool)
    requires cert.extensions.Some? && i < |cert.extensions.value|
    requires IsCAExtension(cert.extensions.value[i])
    ensures CheckCA(cert, None, nameEqual) == Some(cert)
  {
    assert FirstCAIndex(cert.extensions.value).Some?;
  }

  /** The order of the extensions does not matter for the verdict: any
      rearrangement of the same extensions gives the same answer. */
  lemma CheckCAIgnoresOrder(cert: Certificate, extensions: seq<Extension>, signer: Option<Certificate>,
                            nameEqual: (Name, Name) -> bool)
    requires cert.extensions.Some? && multiset(extensions) == multiset(cert.extensions.value)
    ensures CheckCA(cert.(extensions := Some(extensions)), signer, nameEqual).Some?
        <==> CheckCA(cert, signer, nameEqual).Some?
  {
    if exists i | 0 <= i < |extensions| :: IsCAExtension(extensions[i]) {
      HasCAExtensionIsMultisetProperty(extensions, cert.extensions.value);
    }
    if exists i | 0 <= i < |cert.extensions.value| :: IsCAExtension(cert.extensions.value[i]) {
      HasCAExtensionIsMultisetProperty(cert.extensions.value, extensions);
    }
  }

  /** Holding a CA extension survives any rearrangement. */
  lemma HasCAExtensionIsMultisetProperty(a: seq<Extension>, b: seq<Extension>)
    requires multiset(a) == multiset(b)
    requires exists i | 0 <= i < |a| :: IsCAExtension(a[i])
    ensures exists j | 0 <= j < |b| :: IsCAExtension(b[j])
  {
    var i :| 0 <= i < |a| && IsCAExtension(a[i]);
    assert a[i] in multiset(b);
    var j :| 0 <= j < |b| && b[j] == a[i];
  }
}
