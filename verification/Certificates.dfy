/** X.509 certificates as records, and the questions that the validator asks
    about them. */
module Certificates {
  import opened Bytes
  import opened Library
  import opened CompositeKey

  datatype Oid = CompositeOid | PqcMarkerOid | EcPublicKeyOid | Sm2CurveOid
               | BasicConstraintsOid | KeyUsageOid | ExtKeyUsageOid | SubjectAltNameOid
               | SubjectKeyIdOid | AuthorityKeyIdOid | ServerAuthOid | OtherOid(arcs: seq<nat>)

  /** An AlgorithmIdentifier; None is an absent parameter. */
  datatype Algorithm = Algorithm(oid: Oid, parameter: Option<Oid>)

  const COMPOSITE := Algorithm(CompositeOid, None)

  datatype Spki = Spki(algorithm: Algorithm, bits: seq<byte>, unusedBits: nat)

  datatype GeneralName = Dns(name: string) | OtherName(text: string)

  datatype ExtValue =
    | BasicConstraints(ca: bool)
    | KeyUsage(bits: set<nat>)
    | ExtendedKeyUsage(purposes: seq<Oid>)
    | SubjectAltName(names: seq<GeneralName>)
    | SubjectKeyId(id: seq<byte>)
    | AuthorityKeyId(keyid: Option<seq<byte>>)
    | Raw(data: seq<byte>)

  datatype Extension = Extension(oid: Oid, critical: bool, value: ExtValue)

  type Name = seq<(string, string)>

  datatype Tbs = Tbs(version: int, serial: int, signature: Algorithm, issuer: Name, notBefore: int, notAfter: int,
                     subject: Name, spki: Spki, extensions: seq<Extension>)

  datatype Certificate = Certificate(tbs: Tbs, algorithm: Algorithm, signature: seq<byte>, unusedBits: nat)

  /** ASN.1 and X.509 services of the library. */
  datatype X509Lib = X509Lib(
    encodeTbs: Tbs -> seq<byte>,
    i2d: Certificate -> seq<byte>,
    d2i: seq<byte> -> Option<(Certificate, nat)>,     // and the number of bytes consumed
    nameAccepted: string -> bool,                     // as a CommonName
    timeAccepted: int -> bool,                        // X509_gmtime_adj can write it down
    parseAltName: string -> Option<seq<GeneralName>>, // the configuration syntax of subjectAltName
    hostMatches: (Certificate, string) -> bool)

  /** d2i_X509 with the whole input consumed. */
  function DecodeStrict(x: X509Lib, der: seq<byte>): Option<Certificate> {
    if der == [] then None
    else
      match x.d2i(der)
      case None => None
      case Some((c, used)) => if used == |der| then Some(c) else None
  }

  // ----- extensions

  function Occurrences(es: seq<Extension>, oid: Oid): seq<Extension> {
    if es == [] then []
    else (if es[0].oid == oid then [es[0]] else []) + Occurrences(es[1..], oid)
  }

  /** X509_get_ext_d2i without an index: only a single occurrence counts. */
  function Unique(es: seq<Extension>, oid: Oid): Option<Extension> {
    var found := Occurrences(es, oid);
    if |found| == 1 then Some(found[0]) else None
  }

  /** hybrid_x509_has_pqc_extension. */
  predicate HasPqcMarker(c: Certificate) {
    Unique(c.tbs.extensions, PqcMarkerOid) == Some(Extension(PqcMarkerOid, false, Raw([0x05, 0x00])))
  }

  // ----- algorithms and keys

  /** hybrid_x509_composite_signature_algorithms_valid. */
  predicate SignatureAlgorithmsComposite(c: Certificate) {
    c.tbs.signature == COMPOSITE && c.algorithm == COMPOSITE
  }

  predicate SubjectKeyIsComposite(c: Certificate) { c.tbs.spki.algorithm == COMPOSITE }

  /** hybrid_x509_subject_public_key_is_sm2. */
  predicate SubjectKeyIsSm2(lib: Lib, c: Certificate) {
    && c.tbs.spki.algorithm == Algorithm(EcPublicKeyOid, Some(Sm2CurveOid))
    && lib.onCurve(c.tbs.spki.bits)
  }

  /** hybrid_x509_get_composite_public_key. */
  function CompositePublicKeyOf(lib: Lib, c: Certificate): Option<PublicKey> {
    if c.tbs.spki.unusedBits != 0 || c.tbs.spki.algorithm != COMPOSITE then None
    else ParsePublicKey(lib, c.tbs.spki.bits)
  }

  /** hybrid_x509_get_signature. */
  function SignatureOf(c: Certificate): Option<seq<byte>> {
    if c.unusedBits != 0 || c.signature == [] then None else Some(c.signature)
  }
}

/** What the issuing code builds: the three kinds of certificate. */
module CertificateBuilder {
  import opened Bytes
  import opened Library
  import opened CompositeKey
  import opened CompositeSignature
  import opened Certificates

  const ORGANIZATION := "Experimental Hybrid PKI"

  function MakeName(x: X509Lib, commonName: string): Option<Name> {
    if commonName == "" || !x.nameAccepted(commonName) then None
    else Some([("C", "CN"), ("O", ORGANIZATION), ("CN", commonName)])
  }

  const KEY_ID_BYTES: nat := 32

  function KeyIdentifier(lib: Lib, key: PublicKey): Option<seq<byte>> {
    match SerializePublicKey(key)
    case None => None
    case Some(s) => if |lib.sha256(s)| == KEY_ID_BYTES then Some(lib.sha256(s)) else None
  }

  function Sm2KeyIdentifier(lib: Lib, key: EvpPublic): Option<seq<byte>> {
    if !WellFormedPoint(key) || |lib.sha256(key.point)| != KEY_ID_BYTES then None else Some(lib.sha256(key.point))
  }

  /** The string that is given to the library's subjectAltName parser, if it
      fits the 300-byte buffer. */
  function AltNameText(dns: string): Option<string> {
    if dns == "" || |dns| + 4 >= 300 then None else Some("DNS:" + dns)
  }

  /** A DNS name that the configuration syntax takes literally. */
  predicate PlainDns(dns: string) {
    dns != "" && |dns| + 4 < 300 && forall c <- dns :: c !in {',', ' ', '\t', '\r', '\n', ':', '\0'} && c as int < 256
  }

  ghost predicate ParsesPlainDns(x: X509Lib) {
    forall dns :: PlainDns(dns) ==> x.parseAltName("DNS:" + dns) == Some([Dns(dns)])
  }

  // The records on which the library's encoder and decoder are asked to agree:
  // what this module builds, and no others.

  predicate PlainName(x: X509Lib, n: Name) {
    |n| == 3 && n[0] == ("C", "CN") && n[1] == ("O", ORGANIZATION)
    && n[2].0 == "CN" && n[2].1 != "" && x.nameAccepted(n[2].1)
  }

  predicate PlainExtension(e: Extension) {
    match e.value
    case BasicConstraints(_) => e.oid == BasicConstraintsOid
    case KeyUsage(bits) => e.oid == KeyUsageOid && bits != {} && forall b <- bits :: b <= 8
    case ExtendedKeyUsage(purposes) => e.oid == ExtKeyUsageOid && purposes == [ServerAuthOid]
    case SubjectAltName(names) => e.oid == SubjectAltNameOid && |names| == 1 && names[0].Dns? && PlainDns(names[0].name)
    case SubjectKeyId(id) => e.oid == SubjectKeyIdOid && |id| == KEY_ID_BYTES
    case AuthorityKeyId(keyid) => e.oid == AuthorityKeyIdOid && keyid.Some? && |keyid.value| == KEY_ID_BYTES
    case Raw(data) => e.oid == PqcMarkerOid && data == [0x05, 0x00]
  }

  predicate PlainSpki(k: Spki) {
    k.algorithm in {COMPOSITE, Algorithm(EcPublicKeyOid, Some(Sm2CurveOid))} && k.unusedBits == 0
    && 0 < |k.bits| <= COMPOSITE_PUBLIC_KEY_BYTES
  }

  predicate PlainTbs(x: X509Lib, t: Tbs) {
    && t.version == 2 && t.serial in {1, 2, 3} && t.signature == COMPOSITE
    && PlainName(x, t.issuer) && PlainName(x, t.subject) && PlainSpki(t.spki)
    && x.timeAccepted(t.notBefore) && x.timeAccepted(t.notAfter)
    && t.extensions != [] && |t.extensions| <= 7 && forall e <- t.extensions :: PlainExtension(e)
  }

  predicate PlainCertificate(x: X509Lib, c: Certificate) {
    PlainTbs(x, c.tbs) && c.algorithm == COMPOSITE && c.signature != [] && c.unusedBits == 0
  }

  /** What the encoder writes for such a certificate, if it writes anything,
      the decoder reads back whole. */
  ghost predicate DecodesCertificates(x: X509Lib) {
    forall c :: PlainCertificate(x, c) && x.i2d(c) != [] ==> x.d2i(x.i2d(c)) == Some((c, |x.i2d(c)|))
  }

  /** The validity window of a certificate made at `now` can be written down. */
  predicate WindowAccepted(x: X509Lib, now: int) {
    x.timeAccepted(now - 60) && x.timeAccepted(now + 31536000)
  }

  /** A TBSCertificate under construction: fields are replaced one by one and
      extensions are pushed. */
  class TbsBuilder {
    var version: int
    var serial: int
    var signature: Algorithm
    var issuer: Name
    var notBefore: int
    var notAfter: int
    var subject: Name
    var spki: Spki
    var extensions: seq<Extension>

    function Value(): Tbs
      reads this
    {
      Tbs(version, serial, signature, issuer, notBefore, notAfter, subject, spki, extensions)
    }

    constructor ()
      ensures extensions == []
    {
      version, serial, signature := 0, 0, Algorithm(OtherOid([]), None);
      issuer, subject, notBefore, notAfter := [], [], 0, 0;
      spki, extensions := Spki(Algorithm(OtherOid([]), None), [], 0), [];
    }

    /** The fields that all three kinds have. */
    method SetFields(x: X509Lib, issuerName: Name, subjectName: Name, key: Spki, serialNumber: int, now: int)
      returns (ok: bool)
      modifies this
      ensures ok <==> WindowAccepted(x, now)
      ensures ok ==> Value() == Fields(issuerName, subjectName, key, serialNumber, now).(extensions := old(extensions))
    {
      issuer := issuerName;
      subject := subjectName;
      spki := key;
      version := 2;
      serial := serialNumber;
      signature := COMPOSITE;
      if !x.timeAccepted(now - 60) {
        return false;
      }
      notBefore := now - 60;
      if !x.timeAccepted(now + 31536000) {
        return false;
      }
      notAfter := now + 31536000;
      return true;
    }

    method Push(e: Extension)
      modifies this`extensions
      ensures extensions == old(extensions) + [e]
    {
      extensions := extensions + [e];
    }

    /** build_root_extensions. */
    method BuildRootExtensions(lib: Lib, ca: PublicKey) returns (ok: bool)
      modifies this`extensions
      ensures ok <==> RootExtensions(lib, ca).Some?
      ensures ok ==> RootExtensions(lib, ca) == Some(extensions)
    {
      extensions := [];
      Push(Extension(BasicConstraintsOid, true, BasicConstraints(true)));
      Push(Extension(KeyUsageOid, true, KeyUsage({5, 6})));
      var id := KeyIdentifier(lib, ca);
      if id.None? {
        return false;
      }
      Push(Extension(SubjectKeyIdOid, false, SubjectKeyId(id.value)));
      Push(PQC_MARKER);
      assert extensions == RootExtensions(lib, ca).value;
      return true;
    }

    /** build_server_extensions. */
    method BuildServerExtensions(lib: Lib, x: X509Lib, ca: PublicKey, server: PublicKey, dns: string) returns (ok: bool)
      modifies this`extensions
      ensures ok <==> ServerExtensions(lib, x, ca, server, dns).Some?
      ensures ok ==> ServerExtensions(lib, x, ca, server, dns) == Some(extensions)
    {
      var text := AltNameText(dns);
      if text.None? {
        return false;
      }
      extensions := [];
      Push(Extension(BasicConstraintsOid, true, BasicConstraints(false)));
      Push(Extension(KeyUsageOid, true, KeyUsage({0})));
      Push(Extension(ExtKeyUsageOid, false, ExtendedKeyUsage([ServerAuthOid])));
      var names := x.parseAltName(text.value);
      if names.None? {
        return false;
      }
      Push(Extension(SubjectAltNameOid, false, SubjectAltName(names.value)));
      var subjectId := KeyIdentifier(lib, server);
      if subjectId.None? {
        return false;
      }
      Push(Extension(SubjectKeyIdOid, false, SubjectKeyId(subjectId.value)));
      var issuerId := KeyIdentifier(lib, ca);
      if issuerId.None? {
        return false;
      }
      Push(Extension(AuthorityKeyIdOid, false, AuthorityKeyId(Some(issuerId.value))));
      Push(PQC_MARKER);
      assert extensions == ServerExtensions(lib, x, ca, server, dns).value;
      return true;
    }

    /** build_encryption_server_extensions. */
    method BuildEncryptionExtensions(lib: Lib, ca: PublicKey, key: EvpPublic) returns (ok: bool)
      modifies this`extensions
      ensures ok <==> EncryptionExtensions(lib, ca, key).Some?
      ensures ok ==> EncryptionExtensions(lib, ca, key) == Some(extensions)
    {
      extensions := [];
      Push(Extension(BasicConstraintsOid, true, BasicConstraints(false)));
      Push(Extension(KeyUsageOid, true, KeyUsage({2, 4})));
      var subjectId := Sm2KeyIdentifier(lib, key);
      if subjectId.None? {
        return false;
      }
      Push(Extension(SubjectKeyIdOid, false, SubjectKeyId(subjectId.value)));
      var issuerId := KeyIdentifier(lib, ca);
      if issuerId.None? {
        return false;
      }
      Push(Extension(AuthorityKeyIdOid, false, AuthorityKeyId(Some(issuerId.value))));
      Push(PQC_MARKER);
      assert extensions == EncryptionExtensions(lib, ca, key).value;
      return true;
    }
  }

  function Fields(issuer: Name, subject: Name, key: Spki, serial: int, now: int): Tbs {
    Tbs(2, serial, COMPOSITE, issuer, now - 60, now + 31536000, subject, key, [])
  }

  const PQC_MARKER := Extension(PqcMarkerOid, false, Raw([0x05, 0x00]))

  // The three extension profiles (RFC 5280 sections 4.2.1.3 and 4.2.1.9).

  function RootExtensions(lib: Lib, ca: PublicKey): Option<seq<Extension>> {
    match KeyIdentifier(lib, ca)
    case None => None
    case Some(id) =>
      Some([Extension(BasicConstraintsOid, true, BasicConstraints(true)),
            Extension(KeyUsageOid, true, KeyUsage({5, 6})),
            Extension(SubjectKeyIdOid, false, SubjectKeyId(id)),
            PQC_MARKER])
  }

  function ServerExtensions(lib: Lib, x: X509Lib, ca: PublicKey, server: PublicKey, dns: string): Option<seq<Extension>> {
    if AltNameText(dns).None? then None
    else
      match (x.parseAltName(AltNameText(dns).value), KeyIdentifier(lib, server), KeyIdentifier(lib, ca))
      case (Some(names), Some(subjectId), Some(issuerId)) =>
        Some([Extension(BasicConstraintsOid, true, BasicConstraints(false)),
              Extension(KeyUsageOid, true, KeyUsage({0})),
              Extension(ExtKeyUsageOid, false, ExtendedKeyUsage([ServerAuthOid])),
              Extension(SubjectAltNameOid, false, SubjectAltName(names)),
              Extension(SubjectKeyIdOid, false, SubjectKeyId(subjectId)),
              Extension(AuthorityKeyIdOid, false, AuthorityKeyId(Some(issuerId))),
              PQC_MARKER])
      case (_, _, _) => None
  }

  function EncryptionExtensions(lib: Lib, ca: PublicKey, key: EvpPublic): Option<seq<Extension>> {
    match (Sm2KeyIdentifier(lib, key), KeyIdentifier(lib, ca))
    case (Some(subjectId), Some(issuerId)) =>
      Some([Extension(BasicConstraintsOid, true, BasicConstraints(false)),
            Extension(KeyUsageOid, true, KeyUsage({2, 4})),
            Extension(SubjectKeyIdOid, false, SubjectKeyId(subjectId)),
            Extension(AuthorityKeyIdOid, false, AuthorityKeyId(Some(issuerId))),
            PQC_MARKER])
    case (_, _) => None
  }

  function CompositeSpki(key: PublicKey): Option<Spki> {
    match SerializePublicKey(key)
    case None => None
    case Some(s) => Some(Spki(COMPOSITE, s, 0))
  }

  function Sm2Spki(key: EvpPublic): Option<Spki> {
    if !WellFormedPoint(key) then None
    else Some(Spki(Algorithm(EcPublicKeyOid, Some(Sm2CurveOid)), key.point, 0))
  }

  /** What make_tbs and make_sm2_encryption_tbs produce. */
  function Assembled(x: X509Lib, issuer: Name, commonName: string, key: Option<Spki>, serial: int, now: int,
                     extensions: Option<seq<Extension>>): Option<Tbs>
  {
    match (MakeName(x, commonName), key, extensions)
    case (Some(subject), Some(spki), Some(es)) =>
      if WindowAccepted(x, now) then Some(Fields(issuer, subject, spki, serial, now).(extensions := es)) else None
    case (_, _, _) => None
  }

  function RootTbs(lib: Lib, x: X509Lib, ca: PublicKey, commonName: string, now: int): Option<Tbs> {
    match MakeName(x, commonName)
    case None => None
    case Some(name) => Assembled(x, name, commonName, CompositeSpki(ca), 1, now, RootExtensions(lib, ca))
  }

  function ServerTbs(lib: Lib, x: X509Lib, ca: PublicKey, server: PublicKey, issuer: Certificate,
                     commonName: string, dns: string, now: int): Option<Tbs>
  {
    Assembled(x, issuer.tbs.subject, commonName, CompositeSpki(server), 2, now, ServerExtensions(lib, x, ca, server, dns))
  }

  function EncryptionTbs(lib: Lib, x: X509Lib, ca: PublicKey, key: EvpPublic, issuer: Certificate,
                         commonName: string, now: int): Option<Tbs>
  {
    Assembled(x, issuer.tbs.subject, commonName, Sm2Spki(key), 3, now, EncryptionExtensions(lib, ca, key))
  }

  /** sign_tbs: the certificate that results, re-read from its own encoding. */
  function SignTbs(lib: Lib, x: X509Lib, tbs: Option<Tbs>, key: PrivateKey, nonce: nat): Option<Certificate> {
    if tbs.None? || x.encodeTbs(tbs.value) == [] then None
    else
      match Sign(lib, key, x.encodeTbs(tbs.value), [], nonce)
      case None => None
      case Some(signature) =>
        if |signature| > 0x7fff_ffff then None
        else DecodeStrict(x, x.i2d(Certificate(tbs.value, COMPOSITE, signature, 0)))
  }

  /** hybrid_x509_create_root. */
  method CreateRoot(lib: Lib, x: X509Lib, secret: PrivateKey, ca: PublicKey, commonName: string, now: int, nonce: nat)
    returns (r: Option<Certificate>)
    ensures r == SignTbs(lib, x, RootTbs(lib, x, ca, commonName, now), secret, nonce)
  {
    var name := MakeName(x, commonName);
    var spki := CompositeSpki(ca);
    if name.None? || spki.None? {
      return None;
    }
    var builder := new TbsBuilder();
    var ok := builder.SetFields(x, name.value, name.value, spki.value, 1, now);
    if ok {
      ok := builder.BuildRootExtensions(lib, ca);
    }
    if !ok {
      return None;
    }
    return SignTbs(lib, x, Some(builder.Value()), secret, nonce);
  }

  /** hybrid_x509_create_server. */
  method CreateServer(lib: Lib, x: X509Lib, secret: PrivateKey, ca: PublicKey, server: PublicKey, issuer: Certificate,
                      commonName: string, dns: string, now: int, nonce: nat)
    returns (r: Option<Certificate>)
    ensures r == SignTbs(lib, x, ServerTbs(lib, x, ca, server, issuer, commonName, dns, now), secret, nonce)
  {
    var name := MakeName(x, commonName);
    var spki := CompositeSpki(server);
    if name.None? || spki.None? {
      return None;
    }
    var builder := new TbsBuilder();
    var ok := builder.SetFields(x, issuer.tbs.subject, name.value, spki.value, 2, now);
    if ok {
      ok := builder.BuildServerExtensions(lib, x, ca, server, dns);
    }
    if !ok {
      return None;
    }
    return SignTbs(lib, x, Some(builder.Value()), secret, nonce);
  }

  /** hybrid_x509_create_sm2_encryption. */
  method CreateEncryption(lib: Lib, x: X509Lib, secret: PrivateKey, ca: PublicKey, key: EvpPublic, issuer: Certificate,
                          commonName: string, now: int, nonce: nat)
    returns (r: Option<Certificate>)
    ensures r == SignTbs(lib, x, EncryptionTbs(lib, x, ca, key, issuer, commonName, now), secret, nonce)
  {
    var name := MakeName(x, commonName);
    var spki := Sm2Spki(key);
    if name.None? || spki.None? {
      return None;
    }
    var builder := new TbsBuilder();
    var ok := builder.SetFields(x, issuer.tbs.subject, name.value, spki.value, 3, now);
    if ok {
      ok := builder.BuildEncryptionExtensions(lib, ca, key);
    }
    if !ok {
      return None;
    }
    return SignTbs(lib, x, Some(builder.Value()), secret, nonce);
  }
}

/** The validator: constraint predicates and the verifiers of the three roles. */
module CertificateVerifier {
  import opened Bytes
  import opened Library
  import opened CompositeKey
  import opened CompositeSignature
  import opened Certificates

  /** X509_cmp_current_time: negative when the time has come. */
  function CompareTime(t: int, now: int): int { if t <= now then -1 else 1 }

  predicate TimeValid(c: Certificate, now: int) {
    CompareTime(c.tbs.notBefore, now) < 0 && CompareTime(c.tbs.notAfter, now) > 0
  }

  function CriticalBasicConstraints(c: Certificate): Option<bool> {
    match Unique(c.tbs.extensions, BasicConstraintsOid)
    case Some(Extension(_, true, BasicConstraints(ca))) => Some(ca)
    case _ => None
  }

  function CriticalKeyUsage(c: Certificate): Option<set<nat>> {
    match Unique(c.tbs.extensions, KeyUsageOid)
    case Some(Extension(_, true, KeyUsage(bits))) => Some(bits)
    case _ => None
  }

  /** certificate_constraints_valid. */
  predicate ConstraintsValid(c: Certificate, isCa: bool) {
    && CriticalBasicConstraints(c) == Some(isCa)
    && match CriticalKeyUsage(c)
       case None => false
       case Some(bits) =>
         if isCa then 5 in bits && 6 in bits && 0 !in bits && 2 !in bits && 3 !in bits && 4 !in bits
         else 0 in bits && 2 !in bits && 3 !in bits && 4 !in bits && 5 !in bits && 6 !in bits
  }

  /** encryption_certificate_constraints_valid. */
  predicate EncryptionConstraintsValid(c: Certificate) {
    && CriticalBasicConstraints(c) == Some(false)
    && match CriticalKeyUsage(c)
       case None => false
       case Some(bits) => 0 !in bits && 2 in bits && 4 in bits && 5 !in bits && 6 !in bits
  }

  /** server_eku_valid: a loop with a flag. */
  method EkuIsValid(c: Certificate) returns (valid: bool)
    ensures valid <==> EkuValid(c)
  {
    valid := false;
    match Unique(c.tbs.extensions, ExtKeyUsageOid) {
      case Some(Extension(_, _, ExtendedKeyUsage(purposes))) =>
        for i := 0 to |purposes|
          invariant ServerAuthOid !in purposes[..i] && !valid
        {
          if purposes[i] == ServerAuthOid {
            return true;
          }
        }
      case _ =>
    }
  }

  predicate EkuValid(c: Certificate) {
    match Unique(c.tbs.extensions, ExtKeyUsageOid)
    case Some(Extension(_, _, ExtendedKeyUsage(purposes))) => ServerAuthOid in purposes
    case _ => false
  }

  predicate SanValid(c: Certificate) {
    match Unique(c.tbs.extensions, SubjectAltNameOid)
    case Some(Extension(_, _, SubjectAltName(names))) => exists n <- names :: n.Dns? && n.name != ""
    case _ => false
  }

  /** server_san_valid. */
  method SanIsValid(c: Certificate) returns (valid: bool)
    ensures valid <==> SanValid(c)
  {
    valid := false;
    match Unique(c.tbs.extensions, SubjectAltNameOid) {
      case Some(Extension(_, _, SubjectAltName(names))) =>
        for i := 0 to |names|
          invariant !valid && forall k :: 0 <= k < i ==> !(names[k].Dns? && names[k].name != "")
        {
          if names[i].Dns? && names[i].name != "" {
            return true;
          }
        }
      case _ =>
    }
  }

  function SubjectKeyIdOf(c: Certificate): Option<seq<byte>> {
    match Unique(c.tbs.extensions, SubjectKeyIdOid)
    case Some(Extension(_, _, SubjectKeyId(id))) => if id == [] then None else Some(id)
    case _ => None
  }

  function AuthorityKeyIdOf(c: Certificate): Option<seq<byte>> {
    match Unique(c.tbs.extensions, AuthorityKeyIdOid)
    case Some(Extension(_, _, AuthorityKeyId(keyid))) => keyid
    case _ => None
  }

  /** server_key_identifiers_valid. */
  predicate KeyIdentifiersValid(c: Certificate, issuer: Certificate) {
    SubjectKeyIdOf(c).Some? && SubjectKeyIdOf(issuer).Some? && AuthorityKeyIdOf(c) == SubjectKeyIdOf(issuer)
  }

  /** The signature over the TBS verifies under the key. */
  ghost predicate SignedBy(lib: Lib, x: X509Lib, c: Certificate, key: PublicKey) {
    x.encodeTbs(c.tbs) != [] && SignatureOf(c).Some?
    && Verifies(lib, key, x.encodeTbs(c.tbs), [], SignatureOf(c).value)
  }

  /** The result structure, filled field by field. */
  class CertResult {
    var issuerSubjectLink: bool
    var validity: bool
    var issuerConstraints: bool
    var subjectConstraints: bool
    var eku: bool
    var san: bool
    var keyIdentifiers: bool
    var pqcExtension: bool
    var compositeOids: bool
    var subjectKeyComposite: bool
    var subjectKeySm2: bool
    var compositePublicKey: bool
    var format: bool
    var dilithium: bool
    var sm2: bool
    var composite: bool
    var certificateValid: bool

    predicate NoSignature()
      reads `compositePublicKey, `format, `dilithium, `sm2, `composite
    {
      !compositePublicKey && !format && !dilithium && !sm2 && !composite
    }

    constructor ()
      ensures NoSignature() && !certificateValid && !issuerSubjectLink && !validity
      ensures !issuerConstraints && !subjectConstraints && !subjectKeyComposite && !subjectKeySm2
    {
      issuerSubjectLink, validity, issuerConstraints, subjectConstraints := false, false, false, false;
      eku, san, keyIdentifiers, pqcExtension, compositeOids := false, false, false, false, false;
      subjectKeyComposite, subjectKeySm2, compositePublicKey := false, false, false;
      format, dilithium, sm2, composite, certificateValid := false, false, false, false, false;
    }

    predicate IdentityPassed()
      reads `issuerSubjectLink, `validity, `issuerConstraints, `subjectConstraints
    {
      issuerSubjectLink && validity && issuerConstraints && subjectConstraints
    }

    predicate ExtensionsPassed()
      reads `eku, `san, `keyIdentifiers, `pqcExtension, `compositeOids
    {
      eku && san && keyIdentifiers && pqcExtension && compositeOids
    }

    /** All checks of a role but the signature. */
    predicate ProfilePassed()
      reads `issuerSubjectLink, `validity, `issuerConstraints, `subjectConstraints, `eku, `san, `keyIdentifiers,
            `pqcExtension, `compositeOids, `subjectKeyComposite, `subjectKeySm2
    {
      IdentityPassed() && ExtensionsPassed() && (subjectKeyComposite || subjectKeySm2)
    }

    method SetIdentity(link: bool, inTime: bool, issuerOk: bool, subjectOk: bool)
      modifies `issuerSubjectLink, `validity, `issuerConstraints, `subjectConstraints
      ensures IdentityPassed() <==> link && inTime && issuerOk && subjectOk
    {
      issuerSubjectLink := link;
      validity := inTime;
      issuerConstraints := issuerOk;
      subjectConstraints := subjectOk;
    }

    method SetExtensions(ekuOk: bool, sanOk: bool, idsOk: bool, marker: bool, oids: bool)
      modifies `eku, `san, `keyIdentifiers, `pqcExtension, `compositeOids
      ensures ExtensionsPassed() <==> ekuOk && sanOk && idsOk && marker && oids
    {
      eku := ekuOk;
      san := sanOk;
      keyIdentifiers := idsOk;
      pqcExtension := marker;
      compositeOids := oids;
    }

    /** verify_certificate_signature. */
    method VerifySignature(lib: Lib, x: X509Lib, c: Certificate, key: PublicKey)
      requires !format && !dilithium && !sm2 && !composite
      modifies `format, `dilithium, `sm2, `composite
      ensures composite <==> SignedBy(lib, x, c, key)
      ensures composite <==> format && dilithium && sm2
    {
      var tbs, signature := x.encodeTbs(c.tbs), SignatureOf(c);
      if tbs == [] || signature.None? {
        return;
      }
      var r := VerifyDetailed(lib, key, tbs, [], signature.value);
      format := r.formatValid;
      dilithium := r.dilithiumValid;
      sm2 := r.sm2Valid;
      composite := r.compositeValid;
    }

    /** The issuer's key and, if there is one, the signature under it. */
    method AddSignature(lib: Lib, x: X509Lib, c: Certificate, issuer: Certificate)
      requires NoSignature()
      modifies `compositePublicKey, `format, `dilithium, `sm2, `composite
      ensures composite <==> SignedByCert(lib, x, c, issuer)
      ensures composite ==> compositePublicKey && format && dilithium && sm2
      ensures ProfilePassed() == old(ProfilePassed())
    {
      var key := CompositePublicKeyOf(lib, issuer);
      compositePublicKey := key.Some?;
      if key.Some? {
        VerifySignature(lib, x, c, key.value);
      }
    }
  }

  ghost predicate SignedByCert(lib: Lib, x: X509Lib, c: Certificate, issuer: Certificate) {
    CompositePublicKeyOf(lib, issuer).Some? && SignedBy(lib, x, c, CompositePublicKeyOf(lib, issuer).value)
  }

  // What each verifier accepts.

  ghost predicate RootValid(lib: Lib, x: X509Lib, root: Certificate, now: int) {
    RootIdentity(root, now) && RootExtensionsOk(root) && SubjectKeyIsComposite(root) && SignedByCert(lib, x, root, root)
  }

  predicate RootIdentity(root: Certificate, now: int) {
    root.tbs.issuer == root.tbs.subject && TimeValid(root, now) && ConstraintsValid(root, true)
  }

  predicate RootExtensionsOk(root: Certificate) {
    SubjectKeyIdOf(root).Some? && HasPqcMarker(root) && SignatureAlgorithmsComposite(root)
  }

  ghost predicate ServerValid(lib: Lib, x: X509Lib, c: Certificate, issuer: Certificate, now: int) {
    ServerIdentity(c, issuer, now) && ServerExtensionsOk(c, issuer) && SubjectKeyIsComposite(c)
    && SignedByCert(lib, x, c, issuer)
  }

  predicate ServerIdentity(c: Certificate, issuer: Certificate, now: int) {
    && c.tbs.issuer == issuer.tbs.subject && TimeValid(c, now)
    && ConstraintsValid(issuer, true) && ConstraintsValid(c, false)
  }

  predicate ServerExtensionsOk(c: Certificate, issuer: Certificate) {
    && EkuValid(c) && SanValid(c) && KeyIdentifiersValid(c, issuer)
    && HasPqcMarker(c) && SignatureAlgorithmsComposite(c)
  }

  ghost predicate EncryptionValid(lib: Lib, x: X509Lib, c: Certificate, issuer: Certificate, now: int) {
    EncryptionIdentity(c, issuer, now) && EncryptionExtensionsOk(c, issuer) && SubjectKeyIsSm2(lib, c)
    && SignedByCert(lib, x, c, issuer)
  }

  predicate EncryptionIdentity(c: Certificate, issuer: Certificate, now: int) {
    && c.tbs.issuer == issuer.tbs.subject && TimeValid(c, now)
    && ConstraintsValid(issuer, true) && EncryptionConstraintsValid(c)
  }

  predicate EncryptionExtensionsOk(c: Certificate, issuer: Certificate) {
    KeyIdentifiersValid(c, issuer) && HasPqcMarker(c) && SignatureAlgorithmsComposite(c)
  }

  /** hybrid_verify_root_self_signature; None is NULL. */
  method VerifyRoot(lib: Lib, x: X509Lib, root: Option<Certificate>, now: int) returns (r: CertResult)
    ensures fresh(r)
    ensures r.certificateValid <==> root.Some? && RootValid(lib, x, root.value, now)
    ensures r.certificateValid ==> r.composite && r.compositePublicKey && r.format && r.dilithium && r.sm2
    ensures r.composite <==> root.Some? && SignedByCert(lib, x, root.value, root.value)
  {
    r := new CertResult();
    if root.None? {
      return;
    }
    var c := root.value;
    FillRoot(c, now, r);
    r.AddSignature(lib, x, c, c);
    r.certificateValid := r.ProfilePassed() && r.compositePublicKey && r.composite;
  }

  // The checks of each role that do not involve the signature.

  method FillRoot(c: Certificate, now: int, r: CertResult)
    requires r.NoSignature() && !r.subjectKeySm2
    modifies r
    ensures r.NoSignature()
    ensures r.ProfilePassed() <==> RootIdentity(c, now) && RootExtensionsOk(c) && SubjectKeyIsComposite(c)
  {
    hide ConstraintsValid, SubjectKeyIdOf, HasPqcMarker, SignatureAlgorithmsComposite, SubjectKeyIsComposite, TimeValid;
    var ca := ConstraintsValid(c, true);
    r.SetIdentity(c.tbs.issuer == c.tbs.subject, TimeValid(c, now), ca, ca);
    r.SetExtensions(true, true, SubjectKeyIdOf(c).Some?, HasPqcMarker(c), SignatureAlgorithmsComposite(c));
    r.subjectKeyComposite := SubjectKeyIsComposite(c);
  }

  method FillServer(c: Certificate, i: Certificate, now: int, r: CertResult)
    requires r.NoSignature() && !r.subjectKeySm2
    modifies r
    ensures r.NoSignature()
    ensures r.ProfilePassed() <==> ServerIdentity(c, i, now) && ServerExtensionsOk(c, i) && SubjectKeyIsComposite(c)
  {
    hide ConstraintsValid, ServerExtensionsOk, SubjectKeyIsComposite, TimeValid;
    r.SetIdentity(c.tbs.issuer == i.tbs.subject, TimeValid(c, now), ConstraintsValid(i, true), ConstraintsValid(c, false));
    FillServerExtensions(c, i, r);
    r.subjectKeyComposite := SubjectKeyIsComposite(c);
  }

  method FillServerExtensions(c: Certificate, i: Certificate, r: CertResult)
    modifies r`eku, r`san, r`keyIdentifiers, r`pqcExtension, r`compositeOids
    ensures r.ExtensionsPassed() <==> ServerExtensionsOk(c, i)
  {
    hide EkuValid, SanValid, KeyIdentifiersValid, HasPqcMarker, SignatureAlgorithmsComposite;
    var eku := EkuIsValid(c);
    var san := SanIsValid(c);
    r.SetExtensions(eku, san, KeyIdentifiersValid(c, i), HasPqcMarker(c), SignatureAlgorithmsComposite(c));
  }

  method FillEncryption(lib: Lib, c: Certificate, i: Certificate, now: int, r: CertResult)
    requires r.NoSignature() && !r.subjectKeyComposite
    modifies r
    ensures r.NoSignature()
    ensures r.ProfilePassed() <==> EncryptionIdentity(c, i, now) && EncryptionExtensionsOk(c, i) && SubjectKeyIsSm2(lib, c)
  {
    hide ConstraintsValid, EncryptionConstraintsValid, KeyIdentifiersValid, HasPqcMarker, SubjectKeyIsSm2,
         SignatureAlgorithmsComposite, TimeValid;
    r.SetIdentity(c.tbs.issuer == i.tbs.subject, TimeValid(c, now), ConstraintsValid(i, true), EncryptionConstraintsValid(c));
    r.SetExtensions(true, true, KeyIdentifiersValid(c, i), HasPqcMarker(c), SignatureAlgorithmsComposite(c));
    r.subjectKeySm2 := SubjectKeyIsSm2(lib, c);
  }

  /** hybrid_verify_certificate. */
  method VerifyServer(lib: Lib, x: X509Lib, certificate: Option<Certificate>, issuer: Option<Certificate>, now: int)
    returns (r: CertResult)
    ensures fresh(r)
    ensures r.certificateValid <==>
              certificate.Some? && issuer.Some? && ServerValid(lib, x, certificate.value, issuer.value, now)
    ensures r.certificateValid ==> r.composite && r.compositePublicKey && r.format && r.dilithium && r.sm2
    ensures r.composite <==>
              certificate.Some? && issuer.Some? && SignedByCert(lib, x, certificate.value, issuer.value)
  {
    r := new CertResult();
    if certificate.None? || issuer.None? {
      return;
    }
    var c, i := certificate.value, issuer.value;
    FillServer(c, i, now, r);
    r.AddSignature(lib, x, c, i);
    r.certificateValid := r.ProfilePassed() && r.compositePublicKey && r.composite;
  }

  /** hybrid_verify_encryption_certificate. */
  method VerifyEncryption(lib: Lib, x: X509Lib, certificate: Option<Certificate>, issuer: Option<Certificate>, now: int)
    returns (r: CertResult)
    ensures fresh(r)
    ensures r.certificateValid <==>
              certificate.Some? && issuer.Some? && EncryptionValid(lib, x, certificate.value, issuer.value, now)
    ensures r.certificateValid ==> r.composite && r.compositePublicKey && r.format && r.dilithium && r.sm2
    ensures r.composite <==>
              certificate.Some? && issuer.Some? && SignedByCert(lib, x, certificate.value, issuer.value)
  {
    r := new CertResult();
    if certificate.None? || issuer.None? {
      return;
    }
    var c, i := certificate.value, issuer.value;
    FillEncryption(lib, c, i, now, r);
    r.AddSignature(lib, x, c, i);
    r.certificateValid := r.ProfilePassed() && r.compositePublicKey && r.composite;
  }

  ghost predicate ChainValid(lib: Lib, x: X509Lib, root: Certificate, server: Certificate, now: int) {
    RootValid(lib, x, root, now) && ServerValid(lib, x, server, root, now)
  }

  /** hybrid_verify_chain. */
  method VerifyChain(lib: Lib, x: X509Lib, root: Option<Certificate>, server: Option<Certificate>, now: int)
    returns (valid: bool, rootResult: CertResult, serverResult: CertResult)
    ensures valid <==> root.Some? && server.Some? && ChainValid(lib, x, root.value, server.value, now)
    ensures valid <==>
              root.Some? && server.Some? && RootValid(lib, x, root.value, now) && ServerValid(lib, x, server.value, root.value, now)
    ensures valid <==> rootResult.certificateValid && serverResult.certificateValid
    ensures valid ==> rootResult.composite && serverResult.composite
    ensures serverResult.composite ==> root.Some? && server.Some? && SignedByCert(lib, x, server.value, root.value)
  {
    rootResult := VerifyRoot(lib, x, root, now);
    serverResult := VerifyServer(lib, x, server, root, now);
    valid := root.Some? && rootResult.certificateValid && serverResult.certificateValid;
  }

  // ----- what acceptance means, in terms of the certificate's fields

  /** The one extension of this OID. */
  lemma {:induction false} UniqueMeans(es: seq<Extension>, oid: Oid, e: Extension)
    ensures Unique(es, oid) == Some(e) <==> exists i: nat :: IsOnly(es, oid, i) && es[i] == e
  {
    OccurrencesMean(es, oid);
    if i: nat :| IsOnly(es, oid, i) && es[i] == e {
      OnlyOccurs(es, oid, i);
    }
  }

  ghost predicate IsOnly(es: seq<Extension>, oid: Oid, i: nat) {
    i < |es| && es[i].oid == oid && forall j :: 0 <= j < |es| && j != i ==> es[j].oid != oid
  }

  lemma {:induction false} OccurrencesMean(es: seq<Extension>, oid: Oid)
    ensures Occurrences(es, oid) == [] <==> forall i :: 0 <= i < |es| ==> es[i].oid != oid
    ensures |Occurrences(es, oid)| == 1 ==> exists i: nat :: IsOnly(es, oid, i) && es[i] == Occurrences(es, oid)[0]
  {
    if es != [] {
      OccurrencesMean(es[1..], oid);
      assert forall i :: 0 < i < |es| ==> es[i] == es[1..][i - 1];
      if |Occurrences(es, oid)| == 1 {
        if es[0].oid == oid {
          assert IsOnly(es, oid, 0);
        } else {
          var i: nat :| IsOnly(es[1..], oid, i) && es[1..][i] == Occurrences(es[1..], oid)[0];
          assert IsOnly(es, oid, i + 1);
        }
      }
    }
  }

  lemma {:induction false} OnlyOccurs(es: seq<Extension>, oid: Oid, i: nat)
    requires IsOnly(es, oid, i)
    ensures Occurrences(es, oid) == [es[i]]
  {
    if i == 0 {
      OccurrencesMean(es[1..], oid);
    } else {
      assert es[1..][i - 1] == es[i];
      OnlyOccurs(es[1..], oid, i - 1);
    }
  }

  /** Of the usage bits that are looked at, a CA has exactly keyCertSign and
      cRLSign, a server exactly digitalSignature (RFC 5280 section 4.2.1.3). */
  lemma ConstraintsMean(c: Certificate, isCa: bool)
    ensures ConstraintsValid(c, isCa)
       <==> && Unique(c.tbs.extensions, BasicConstraintsOid) == Some(Extension(BasicConstraintsOid, true, BasicConstraints(isCa)))
            && exists bits ::
                 Unique(c.tbs.extensions, KeyUsageOid) == Some(Extension(KeyUsageOid, true, KeyUsage(bits)))
                 && bits * {0, 2, 3, 4, 5, 6} == if isCa then {5, 6} else {0}
  {
    UniqueHasOid(c.tbs.extensions, BasicConstraintsOid);
    UniqueHasOid(c.tbs.extensions, KeyUsageOid);
    match Unique(c.tbs.extensions, KeyUsageOid)
    case Some(Extension(_, true, KeyUsage(bits))) => BitsOf(bits, if isCa then {5, 6} else {0});
    case _ =>
  }

  /** An encryption certificate has keyEncipherment and keyAgreement. */
  lemma EncryptionConstraintsMean(c: Certificate)
    ensures EncryptionConstraintsValid(c)
       <==> && Unique(c.tbs.extensions, BasicConstraintsOid) == Some(Extension(BasicConstraintsOid, true, BasicConstraints(false)))
            && exists bits ::
                 Unique(c.tbs.extensions, KeyUsageOid) == Some(Extension(KeyUsageOid, true, KeyUsage(bits)))
                 && bits * {0, 2, 4, 5, 6} == {2, 4}
  {
    UniqueHasOid(c.tbs.extensions, BasicConstraintsOid);
    UniqueHasOid(c.tbs.extensions, KeyUsageOid);
    match Unique(c.tbs.extensions, KeyUsageOid)
    case Some(Extension(_, true, KeyUsage(bits))) =>
      assert bits * {0, 2, 4, 5, 6} == {2, 4} <==> 0 !in bits && 2 in bits && 4 in bits && 5 !in bits && 6 !in bits by {
        var met := bits * {0, 2, 4, 5, 6};
        assert forall b <- {0, 2, 4, 5, 6} :: b in met <==> b in bits;
      }
    case _ =>
  }

  lemma BitsOf(bits: set<nat>, want: set<nat>)
    requires want <= {0, 2, 3, 4, 5, 6}
    ensures bits * {0, 2, 3, 4, 5, 6} == want <==> forall b <- {0, 2, 3, 4, 5, 6} :: b in bits <==> b in want
  {
    var met := bits * {0, 2, 3, 4, 5, 6};
    assert forall b <- {0, 2, 3, 4, 5, 6} :: b in met <==> b in bits;
  }

  lemma UniqueHasOid(es: seq<Extension>, oid: Oid)
    ensures Unique(es, oid).Some? ==> Unique(es, oid).value.oid == oid
  {
    if Unique(es, oid).Some? {
      UniqueMeans(es, oid, Unique(es, oid).value);
    }
  }

  /** The issuer's subject key is a composite one and the certificate's TBS
      verifies under it with the certificate's own signature bits. */
  lemma SignatureMeans(lib: Lib, x: X509Lib, c: Certificate, issuer: Certificate)
    ensures SignedByCert(lib, x, c, issuer)
       <==> && issuer.tbs.spki.algorithm == Algorithm(CompositeOid, None) && issuer.tbs.spki.unusedBits == 0
            && c.unusedBits == 0 && c.signature != [] && x.encodeTbs(c.tbs) != []
            && match ParsePublicKey(lib, issuer.tbs.spki.bits)
               case None => false
               case Some(key) => Verifies(lib, key, x.encodeTbs(c.tbs), [], c.signature)
  {
  }

  /** The extensions that a server certificate needs, and its key identifiers. */
  lemma ServerExtensionsMean(c: Certificate, issuer: Certificate)
    ensures ServerExtensionsOk(c, issuer)
       <==> && (exists critical, purposes ::
                  Unique(c.tbs.extensions, ExtKeyUsageOid) == Some(Extension(ExtKeyUsageOid, critical, ExtendedKeyUsage(purposes)))
                  && ServerAuthOid in purposes)
            && (exists critical, names: seq<GeneralName> ::
                  Unique(c.tbs.extensions, SubjectAltNameOid) == Some(Extension(SubjectAltNameOid, critical, SubjectAltName(names)))
                  && exists n <- names :: n.Dns? && n.name != "")
            && LinkedBySki(c, issuer) && CompositeProfile(c)
  {
    UniqueHasOid(c.tbs.extensions, ExtKeyUsageOid);
    UniqueHasOid(c.tbs.extensions, SubjectAltNameOid);
    LinkMeans(c, issuer);
    hide LinkedBySki, KeyIdentifiersValid;
  }

  /** The certificate has a key identifier, and its authority key identifier is
      the issuer's. */
  ghost predicate LinkedBySki(c: Certificate, issuer: Certificate) {
    && (exists critical, id ::
          Unique(c.tbs.extensions, SubjectKeyIdOid) == Some(Extension(SubjectKeyIdOid, critical, SubjectKeyId(id))) && id != [])
    && exists critical, other, id ::
         Unique(c.tbs.extensions, AuthorityKeyIdOid) == Some(Extension(AuthorityKeyIdOid, critical, AuthorityKeyId(Some(id))))
         && Unique(issuer.tbs.extensions, SubjectKeyIdOid) == Some(Extension(SubjectKeyIdOid, other, SubjectKeyId(id)))
         && id != []
  }

  lemma LinkMeans(c: Certificate, issuer: Certificate)
    ensures KeyIdentifiersValid(c, issuer) <==> LinkedBySki(c, issuer)
  {
    UniqueHasOid(c.tbs.extensions, SubjectKeyIdOid);
    UniqueHasOid(c.tbs.extensions, AuthorityKeyIdOid);
    UniqueHasOid(issuer.tbs.extensions, SubjectKeyIdOid);
  }

  /** Both signature algorithms are the composite one without a parameter, and
      the experimental marker is there once, not critical. */
  predicate CompositeProfile(c: Certificate) {
    && c.tbs.signature == Algorithm(CompositeOid, None) == c.algorithm
    && Unique(c.tbs.extensions, PqcMarkerOid) == Some(Extension(PqcMarkerOid, false, Raw([0x05, 0x00])))
  }

  /** A root is accepted iff it names itself, is in its window, is a CA with a
      key identifier and the composite profile, and signs itself. */
  lemma RootMeans(lib: Lib, x: X509Lib, root: Certificate, now: int)
    ensures RootValid(lib, x, root, now)
       <==> && root.tbs.issuer == root.tbs.subject && root.tbs.notBefore <= now < root.tbs.notAfter
            && ConstraintsValid(root, true) && CompositeProfile(root)
            && (exists critical, id ::
                  Unique(root.tbs.extensions, SubjectKeyIdOid) == Some(Extension(SubjectKeyIdOid, critical, SubjectKeyId(id)))
                  && id != [])
            && root.tbs.spki.algorithm == Algorithm(CompositeOid, None) && SignedByCert(lib, x, root, root)
  {
    UniqueHasOid(root.tbs.extensions, SubjectKeyIdOid);
    hide ConstraintsValid, SignedByCert;
  }

  /** A server certificate is accepted iff it was issued in the issuer's name by
      a CA, is in its window, and has a server's constraints, extensions, link,
      key and signature. */
  lemma ServerMeans(lib: Lib, x: X509Lib, c: Certificate, issuer: Certificate, now: int)
    ensures ServerValid(lib, x, c, issuer, now)
       <==> && c.tbs.issuer == issuer.tbs.subject && c.tbs.notBefore <= now < c.tbs.notAfter
            && ConstraintsValid(issuer, true) && ConstraintsValid(c, false)
            && EkuValid(c) && SanValid(c) && LinkedBySki(c, issuer) && CompositeProfile(c)
            && c.tbs.spki.algorithm == Algorithm(CompositeOid, None) && SignedByCert(lib, x, c, issuer)
  {
    LinkMeans(c, issuer);
    hide ConstraintsValid, SignedByCert, LinkedBySki, KeyIdentifiersValid, EkuValid, SanValid;
  }

  /** The same for an encryption certificate and its plain SM2 key. */
  lemma EncryptionMeans(lib: Lib, x: X509Lib, c: Certificate, issuer: Certificate, now: int)
    ensures EncryptionValid(lib, x, c, issuer, now)
       <==> && c.tbs.issuer == issuer.tbs.subject && c.tbs.notBefore <= now < c.tbs.notAfter
            && ConstraintsValid(issuer, true) && EncryptionConstraintsValid(c)
            && LinkedBySki(c, issuer) && CompositeProfile(c)
            && c.tbs.spki.algorithm == Algorithm(EcPublicKeyOid, Some(Sm2CurveOid)) && lib.onCurve(c.tbs.spki.bits)
            && SignedByCert(lib, x, c, issuer)
  {
    LinkMeans(c, issuer);
    hide ConstraintsValid, EncryptionConstraintsValid, SignedByCert, LinkedBySki, KeyIdentifiersValid;
  }

  /** Whatever else a certificate says, other signature bits that do not verify
      under the issuer's key make every verifier refuse it. */
  lemma ForgeryIsRefused(lib: Lib, x: X509Lib, c: Certificate, issuer: Certificate, signature: seq<byte>, now: int)
    requires match ParsePublicKey(lib, issuer.tbs.spki.bits)
             case None => true
             case Some(key) => !Verifies(lib, key, x.encodeTbs(c.tbs), [], signature)
    ensures var forged := c.(signature := signature);
            && !ServerValid(lib, x, forged, issuer, now) && !EncryptionValid(lib, x, forged, issuer, now)
            && !ChainValid(lib, x, issuer, forged, now)
            && (issuer.tbs.spki == c.tbs.spki ==> !RootValid(lib, x, forged, now))
  {
    var forged := c.(signature := signature);
    SignatureMeans(lib, x, forged, issuer);
    SignatureMeans(lib, x, forged, forged);
    ServerMeans(lib, x, forged, issuer, now);
    EncryptionMeans(lib, x, forged, issuer, now);
    RootMeans(lib, x, forged, now);
    hide ServerValid, EncryptionValid, RootValid, SignedByCert, Verifies, LinkedBySki, CompositeProfile, ConstraintsValid;
  }

  /** The three roles exclude each other: no certificate meets the constraints
      of two of them. */
  lemma RolesAreDisjoint(c: Certificate)
    ensures !(ConstraintsValid(c, false) && EncryptionConstraintsValid(c))
    ensures !(ConstraintsValid(c, true) && (ConstraintsValid(c, false) || EncryptionConstraintsValid(c)))
  {
  }
}

/** What the builder issues, the validator accepts. */
module IssuedCertificates {
  import opened Bytes
  import opened Library
  import opened CompositeKey
  import opened CompositeSignature
  import opened Der
  import opened Certificates
  import opened CertificateBuilder
  import opened CertificateVerifier

  /** A CA whose keys are a pair with a point on the curve. */
  ghost predicate UsableCa(lib: Lib, secret: PrivateKey, ca: PublicKey) {
    Matching(lib, secret, ca) && WellFormedPoint(ca.sm2.value) && lib.onCurve(ca.sm2.value.point)
  }

  lemma SignedTbs(lib: Lib, x: X509Lib, tbs: Option<Tbs>, secret: PrivateKey, ca: PublicKey, nonce: nat)
    requires DecodesCertificates(x) && Matching(lib, secret, ca)
    requires SignTbs(lib, x, tbs, secret, nonce).Some? && PlainTbs(x, tbs.value)
    ensures var c := SignTbs(lib, x, tbs, secret, nonce).value;
            tbs == Some(c.tbs) && c.algorithm == COMPOSITE && SignedBy(lib, x, c, ca)
  {
    var m := x.encodeTbs(tbs.value);
    SignedVerifies(lib, secret, ca, m, [], nonce);
    var whole := Certificate(tbs.value, COMPOSITE, Sign(lib, secret, m, [], nonce).value, 0);
    assert PlainCertificate(x, whole);
    assert DecodeStrict(x, x.i2d(whole)) == Some(whole);
  }

  lemma RootIsPlain(lib: Lib, x: X509Lib, ca: PublicKey, commonName: string, now: int)
    requires RootTbs(lib, x, ca, commonName, now).Some?
    ensures PlainTbs(x, RootTbs(lib, x, ca, commonName, now).value)
  {
    assert 5 in {5, 6};
  }

  lemma ServerIsPlain(lib: Lib, x: X509Lib, ca: PublicKey, server: PublicKey, issuer: Certificate,
                      commonName: string, dns: string, now: int)
    requires ParsesPlainDns(x) && PlainDns(dns) && PlainName(x, issuer.tbs.subject)
    requires ServerTbs(lib, x, ca, server, issuer, commonName, dns, now).Some?
    ensures PlainTbs(x, ServerTbs(lib, x, ca, server, issuer, commonName, dns, now).value)
  {
    assert 0 in {0};
    assert AltNameText(dns) == Some("DNS:" + dns);
  }

  lemma EncryptionIsPlain(lib: Lib, x: X509Lib, ca: PublicKey, key: EvpPublic, issuer: Certificate,
                          commonName: string, now: int)
    requires PlainName(x, issuer.tbs.subject)
    requires EncryptionTbs(lib, x, ca, key, issuer, commonName, now).Some?
    ensures PlainTbs(x, EncryptionTbs(lib, x, ca, key, issuer, commonName, now).value)
  {
    assert 2 in {2, 4};
  }

  /** The CA certificate gives back the CA's own key and key identifier. */
  lemma RootFacts(lib: Lib, x: X509Lib, root: Certificate, ca: PublicKey, commonName: string, now: int)
    requires RootTbs(lib, x, ca, commonName, now) == Some(root.tbs)
    requires ca.sm2.Some? && lib.onCurve(ca.sm2.value.point)
    ensures CompositePublicKeyOf(lib, root) == Some(ca)
    ensures SubjectKeyIdOf(root) == KeyIdentifier(lib, ca) && KeyIdentifier(lib, ca).Some?
    ensures ConstraintsValid(root, true) && HasPqcMarker(root)
    ensures root.tbs.issuer == root.tbs.subject && SubjectKeyIsComposite(root)
  {
    ParseOfSerializedKey(lib, ca);
    RootProfile(lib, root, ca);
  }

  lemma RootProfile(lib: Lib, root: Certificate, ca: PublicKey)
    requires RootExtensions(lib, ca) == Some(root.tbs.extensions)
    ensures SubjectKeyIdOf(root) == KeyIdentifier(lib, ca) && KeyIdentifier(lib, ca).Some?
    ensures ConstraintsValid(root, true) && HasPqcMarker(root)
  {
    var es := root.tbs.extensions;
    Lookup(es, 0);
    Lookup(es, 1);
    Lookup(es, 2);
    Lookup(es, 3);
  }

  /** An extension whose OID no other extension has is found. */
  lemma {:induction false} Lookup(es: seq<Extension>, at: nat)
    requires at < |es|
    requires forall i :: 0 <= i < |es| && i != at ==> es[i].oid != es[at].oid
    ensures Unique(es, es[at].oid) == Some(es[at])
  {
    if at == 0 {
      NoOccurrence(es[1..], es[0].oid);
    } else {
      Lookup(es[1..], at - 1);
    }
  }

  lemma {:induction false} NoOccurrence(es: seq<Extension>, oid: Oid)
    requires forall i :: 0 <= i < |es| ==> es[i].oid != oid
    ensures Occurrences(es, oid) == []
  {
    if es != [] {
      NoOccurrence(es[1..], oid);
    }
  }

  /** Library calls that do their work: hashes have their sizes, a TBS has an
      encoding, and the CA's two keys sign with components of the right form. */
  ghost predicate Works(lib: Lib, x: X509Lib, secret: PrivateKey) {
    && (forall m :: |lib.sm3(m)| == SM3_BYTES && |lib.sha256(m)| == KEY_ID_BYTES)
    && (forall t :: PlainTbs(x, t) ==> x.encodeTbs(t) != [])
    && (forall c :: PlainCertificate(x, c) && |c.signature| < 4096 ==> x.i2d(c) != [])
    && (forall m, nonce :: lib.dilithiumSign(secret.dilithium, m, nonce).Some?
          && |lib.dilithiumSign(secret.dilithium, m, nonce).value| == DILITHIUM_SIGNATURE_BYTES)
    && secret.sm2.Some?
    && (forall m, nonce :: lib.sm2Sign(secret.sm2.value, m, nonce).Some?
          && ValidSignature(lib.d2i, lib.sm2Sign(secret.sm2.value, m, nonce).value)
          && |lib.sm2Sign(secret.sm2.value, m, nonce).value| < 1024)
  }

  lemma SigningWorks(lib: Lib, x: X509Lib, tbs: Option<Tbs>, secret: PrivateKey, nonce: nat)
    requires DecodesCertificates(x) && Works(lib, x, secret)
    requires tbs.Some? ==> PlainTbs(x, tbs.value)
    ensures SignTbs(lib, x, tbs, secret, nonce).Some? <==> tbs.Some?
  {
    if tbs.Some? {
      var m := MPrime(lib, x.encodeTbs(tbs.value), []).value;
      var d, e := lib.dilithiumSign(secret.dilithium, m, nonce), lib.sm2Sign(secret.sm2.value, m, nonce);
      assert Serialize(lib, d.value, e.value).Some?;
      var whole := Certificate(tbs.value, COMPOSITE, d.value + e.value, 0);
      assert PlainCertificate(x, whole);
      assert DecodeStrict(x, x.i2d(whole)) == Some(whole);
    }
  }

  /** From a usable CA pair, a well-formed server key and a plain DNS name, the
      two certificates come out iff the library takes both names, which must
      not be empty, and both windows; and the chain then verifies exactly while
      both are in their windows. */
  lemma ChainIssuedAndAccepted(lib: Lib, x: X509Lib, secret: PrivateKey, ca: PublicKey, rootName: string,
                               rootBuilt: int, server: PublicKey, commonName: string, dns: string, built: int,
                               n1: nat, n2: nat, now: int)
    requires DecodesCertificates(x) && ParsesPlainDns(x) && UsableCa(lib, secret, ca) && Works(lib, x, secret)
    requires SerializePublicKey(server).Some? && PlainDns(dns)
    ensures var root := SignTbs(lib, x, RootTbs(lib, x, ca, rootName, rootBuilt), secret, n1);
            (root.Some? <==> rootName != "" && x.nameAccepted(rootName) && WindowAccepted(x, rootBuilt))
            && (root.Some? ==>
                  var c := SignTbs(lib, x, ServerTbs(lib, x, ca, server, root.value, commonName, dns, built), secret, n2);
                  (c.Some? <==> commonName != "" && x.nameAccepted(commonName) && WindowAccepted(x, built))
                  && (c.Some? ==>
                        (ChainValid(lib, x, root.value, c.value, now)
                         <==> rootBuilt - 60 <= now < rootBuilt + 31536000 && built - 60 <= now < built + 31536000)))
  {
    var rootTbs := RootTbs(lib, x, ca, rootName, rootBuilt);
    RootTbsBuilds(lib, x, ca, rootName, rootBuilt);
    if rootTbs.Some? {
      RootIsPlain(lib, x, ca, rootName, rootBuilt);
      SigningWorks(lib, x, rootTbs, secret, n1);
      RootAccepted(lib, x, secret, ca, rootName, rootBuilt, n1, now);
      SignedTbs(lib, x, rootTbs, secret, ca, n1);
      var root := SignTbs(lib, x, rootTbs, secret, n1).value;
      var tbs := ServerTbs(lib, x, ca, server, root, commonName, dns, built);
      ServerTbsBuilds(lib, x, ca, server, root, commonName, dns, built);
      if tbs.Some? {
        ServerIsPlain(lib, x, ca, server, root, commonName, dns, built);
        SigningWorks(lib, x, tbs, secret, n2);
        ServerAccepted(lib, x, secret, ca, rootName, rootBuilt, root, server, commonName, dns, built, n2, now);
      }
    }
  }

  /** A TLCP encryption certificate for a well-formed SM2 key comes out under
      the same condition on its name. */
  lemma EncryptionIssued(lib: Lib, x: X509Lib, secret: PrivateKey, ca: PublicKey, root: Certificate, key: EvpPublic,
                         commonName: string, built: int, nonce: nat)
    requires DecodesCertificates(x) && UsableCa(lib, secret, ca) && Works(lib, x, secret) && WellFormedPoint(key)
    requires PlainName(x, root.tbs.subject)
    ensures SignTbs(lib, x, EncryptionTbs(lib, x, ca, key, root, commonName, built), secret, nonce).Some?
       <==> commonName != "" && x.nameAccepted(commonName) && WindowAccepted(x, built)
  {
    var tbs := EncryptionTbs(lib, x, ca, key, root, commonName, built);
    if tbs.Some? {
      EncryptionIsPlain(lib, x, ca, key, root, commonName, built);
      SigningWorks(lib, x, tbs, secret, nonce);
    }
    assert KeyIdentifier(lib, ca).Some? && Sm2KeyIdentifier(lib, key).Some?;
  }

  lemma RootTbsBuilds(lib: Lib, x: X509Lib, ca: PublicKey, commonName: string, now: int)
    requires SerializePublicKey(ca).Some? && forall m :: |lib.sha256(m)| == KEY_ID_BYTES
    ensures RootTbs(lib, x, ca, commonName, now).Some?
       <==> commonName != "" && x.nameAccepted(commonName) && WindowAccepted(x, now)
  {
  }

  lemma ServerTbsBuilds(lib: Lib, x: X509Lib, ca: PublicKey, server: PublicKey, issuer: Certificate,
                        commonName: string, dns: string, now: int)
    requires SerializePublicKey(ca).Some? && SerializePublicKey(server).Some?
    requires ParsesPlainDns(x) && PlainDns(dns) && forall m :: |lib.sha256(m)| == KEY_ID_BYTES
    ensures ServerTbs(lib, x, ca, server, issuer, commonName, dns, now).Some?
       <==> commonName != "" && x.nameAccepted(commonName) && WindowAccepted(x, now)
  {
    assert AltNameText(dns) == Some("DNS:" + dns);
  }

  /** A root built from a usable CA pair is accepted exactly inside its
      validity window. */
  lemma RootAccepted(lib: Lib, x: X509Lib, secret: PrivateKey, ca: PublicKey, commonName: string,
                     built: int, nonce: nat, now: int)
    requires DecodesCertificates(x) && UsableCa(lib, secret, ca)
    requires SignTbs(lib, x, RootTbs(lib, x, ca, commonName, built), secret, nonce).Some?
    ensures var root := SignTbs(lib, x, RootTbs(lib, x, ca, commonName, built), secret, nonce).value;
            RootValid(lib, x, root, now) <==> built - 60 <= now < built + 31536000
  {
    RootIsPlain(lib, x, ca, commonName, built);
    SignedTbs(lib, x, RootTbs(lib, x, ca, commonName, built), secret, ca, nonce);
    var root := SignTbs(lib, x, RootTbs(lib, x, ca, commonName, built), secret, nonce).value;
    RootFacts(lib, x, root, ca, commonName, built);
    hide ConstraintsValid, SubjectKeyIdOf, HasPqcMarker, RootTbs, RootExtensions;
    assert root.tbs.notBefore == built - 60 && root.tbs.notAfter == built + 31536000;
  }

  /** The extension part of a server certificate, as the validator reads it. */
  lemma ServerFacts(lib: Lib, x: X509Lib, c: Certificate, ca: PublicKey, server: PublicKey, dns: string)
    requires ParsesPlainDns(x) && PlainDns(dns)
    requires ServerExtensions(lib, x, ca, server, dns) == Some(c.tbs.extensions)
    ensures ConstraintsValid(c, false) && EkuValid(c) && SanValid(c) && HasPqcMarker(c)
    ensures SubjectKeyIdOf(c).Some? && AuthorityKeyIdOf(c) == KeyIdentifier(lib, ca)
  {
    ServerConstraints(lib, x, c, ca, server, dns);
    ServerPurposes(lib, x, c, ca, server, dns);
    ServerIdentifiers(lib, x, c, ca, server, dns);
  }

  lemma ServerConstraints(lib: Lib, x: X509Lib, c: Certificate, ca: PublicKey, server: PublicKey, dns: string)
    requires ServerExtensions(lib, x, ca, server, dns) == Some(c.tbs.extensions)
    ensures ConstraintsValid(c, false)
  {
    var es := c.tbs.extensions;
    assert es[0] == Extension(BasicConstraintsOid, true, BasicConstraints(false));
    Lookup(es, 0);
    assert es[1] == Extension(KeyUsageOid, true, KeyUsage({0}));
    Lookup(es, 1);
  }

  lemma ServerPurposes(lib: Lib, x: X509Lib, c: Certificate, ca: PublicKey, server: PublicKey, dns: string)
    requires ParsesPlainDns(x) && PlainDns(dns)
    requires ServerExtensions(lib, x, ca, server, dns) == Some(c.tbs.extensions)
    ensures EkuValid(c) && SanValid(c)
  {
    var es := c.tbs.extensions;
    assert es[2] == Extension(ExtKeyUsageOid, false, ExtendedKeyUsage([ServerAuthOid]));
    Lookup(es, 2);
    assert es[3] == Extension(SubjectAltNameOid, false, SubjectAltName([Dns(dns)])) && Dns(dns) in [Dns(dns)];
    Lookup(es, 3);
  }

  lemma ServerIdentifiers(lib: Lib, x: X509Lib, c: Certificate, ca: PublicKey, server: PublicKey, dns: string)
    requires ServerExtensions(lib, x, ca, server, dns) == Some(c.tbs.extensions)
    ensures HasPqcMarker(c) && SubjectKeyIdOf(c).Some? && AuthorityKeyIdOf(c) == KeyIdentifier(lib, ca)
  {
    var es := c.tbs.extensions;
    Lookup(es, 4);
    Lookup(es, 5);
    Lookup(es, 6);
  }

  lemma EncryptionConstraints(lib: Lib, c: Certificate, ca: PublicKey, key: EvpPublic)
    requires EncryptionExtensions(lib, ca, key) == Some(c.tbs.extensions)
    ensures EncryptionConstraintsValid(c)
  {
    var es := c.tbs.extensions;
    assert es[0] == Extension(BasicConstraintsOid, true, BasicConstraints(false));
    Lookup(es, 0);
    assert es[1] == Extension(KeyUsageOid, true, KeyUsage({2, 4}));
    Lookup(es, 1);
  }

  lemma EncryptionFacts(lib: Lib, c: Certificate, ca: PublicKey, key: EvpPublic)
    requires EncryptionExtensions(lib, ca, key) == Some(c.tbs.extensions)
    ensures EncryptionConstraintsValid(c) && HasPqcMarker(c)
    ensures SubjectKeyIdOf(c).Some? && AuthorityKeyIdOf(c) == KeyIdentifier(lib, ca)
  {
    var es := c.tbs.extensions;
    EncryptionConstraints(lib, c, ca, key);
    Lookup(es, 2);
    Lookup(es, 3);
    Lookup(es, 4);
  }

  // ----- whose key and name an issued certificate carries

  /** The subject name that make_name writes. */
  lemma NameMeans(x: X509Lib, commonName: string)
    ensures MakeName(x, commonName).Some? ==>
              MakeName(x, commonName).value == [("C", "CN"), ("O", "Experimental Hybrid PKI"), ("CN", commonName)]
    ensures MakeName(x, commonName).Some? <==> commonName != "" && x.nameAccepted(commonName)
  {
  }

  /** An issued root certifies the CA's key in its own name. */
  lemma RootContents(lib: Lib, x: X509Lib, secret: PrivateKey, ca: PublicKey, commonName: string, built: int, nonce: nat)
    requires DecodesCertificates(x) && UsableCa(lib, secret, ca)
    requires SignTbs(lib, x, RootTbs(lib, x, ca, commonName, built), secret, nonce).Some?
    ensures var c := SignTbs(lib, x, RootTbs(lib, x, ca, commonName, built), secret, nonce).value;
            && c.tbs.version == 2 && c.tbs.serial == 1 && c.tbs.issuer == c.tbs.subject
            && c.tbs.subject == [("C", "CN"), ("O", "Experimental Hybrid PKI"), ("CN", commonName)]
            && c.tbs.notBefore == built - 60 && c.tbs.notAfter == built + 31536000
            && CompositePublicKeyOf(lib, c) == Some(ca)
            && SubjectKeyIdOf(c) == Some(lib.sha256(ca.dilithium + ca.sm2.value.point))
  {
    RootIsPlain(lib, x, ca, commonName, built);
    SignedTbs(lib, x, RootTbs(lib, x, ca, commonName, built), secret, ca, nonce);
    var c := SignTbs(lib, x, RootTbs(lib, x, ca, commonName, built), secret, nonce).value;
    RootFacts(lib, x, c, ca, commonName, built);
    hide SubjectKeyIdOf, ConstraintsValid, HasPqcMarker, CompositePublicKeyOf;
  }

  /** An issued server certificate certifies the server's key under the given
      names, in the issuer's name, and not the CA's key. */
  lemma ServerContents(lib: Lib, x: X509Lib, secret: PrivateKey, ca: PublicKey, root: Certificate, server: PublicKey,
                       commonName: string, dns: string, built: int, nonce: nat)
    requires DecodesCertificates(x) && ParsesPlainDns(x) && UsableCa(lib, secret, ca) && PlainDns(dns)
    requires PlainName(x, root.tbs.subject)
    requires SignTbs(lib, x, ServerTbs(lib, x, ca, server, root, commonName, dns, built), secret, nonce).Some?
    ensures var c := SignTbs(lib, x, ServerTbs(lib, x, ca, server, root, commonName, dns, built), secret, nonce).value;
            && c.tbs.version == 2 && c.tbs.serial == 2 && c.tbs.issuer == root.tbs.subject
            && c.tbs.subject == [("C", "CN"), ("O", "Experimental Hybrid PKI"), ("CN", commonName)]
            && c.tbs.notBefore == built - 60 && c.tbs.notAfter == built + 31536000
            && server.sm2.Some? && c.tbs.spki == Spki(Algorithm(CompositeOid, None), server.dilithium + server.sm2.value.point, 0)
            && (lib.onCurve(server.sm2.value.point) ==> CompositePublicKeyOf(lib, c) == Some(server))
            && SubjectKeyIdOf(c) == Some(lib.sha256(server.dilithium + server.sm2.value.point))
            && AuthorityKeyIdOf(c) == Some(lib.sha256(ca.dilithium + ca.sm2.value.point))
            && Unique(c.tbs.extensions, SubjectAltNameOid)
               == Some(Extension(SubjectAltNameOid, false, SubjectAltName([Dns(dns)])))
            && Unique(c.tbs.extensions, ExtKeyUsageOid)
               == Some(Extension(ExtKeyUsageOid, false, ExtendedKeyUsage([ServerAuthOid])))
  {
    var tbs := ServerTbs(lib, x, ca, server, root, commonName, dns, built);
    ServerIsPlain(lib, x, ca, server, root, commonName, dns, built);
    SignedTbs(lib, x, tbs, secret, ca, nonce);
    var c := SignTbs(lib, x, tbs, secret, nonce).value;
    ParseOfSerializedKey(lib, server);
    ServerNames(lib, x, c, ca, server, dns);
    hide SubjectKeyIdOf, AuthorityKeyIdOf, Unique;
  }

  lemma ServerNames(lib: Lib, x: X509Lib, c: Certificate, ca: PublicKey, server: PublicKey, dns: string)
    requires ParsesPlainDns(x) && PlainDns(dns)
    requires ServerExtensions(lib, x, ca, server, dns) == Some(c.tbs.extensions)
    ensures SubjectKeyIdOf(c) == KeyIdentifier(lib, server) && AuthorityKeyIdOf(c) == KeyIdentifier(lib, ca)
    ensures Unique(c.tbs.extensions, SubjectAltNameOid) == Some(Extension(SubjectAltNameOid, false, SubjectAltName([Dns(dns)])))
    ensures Unique(c.tbs.extensions, ExtKeyUsageOid)
         == Some(Extension(ExtKeyUsageOid, false, ExtendedKeyUsage([ServerAuthOid])))
  {
    var es := c.tbs.extensions;
    assert es[2] == Extension(ExtKeyUsageOid, false, ExtendedKeyUsage([ServerAuthOid]));
    Lookup(es, 2);
    assert es[3] == Extension(SubjectAltNameOid, false, SubjectAltName([Dns(dns)]));
    Lookup(es, 3);
    Lookup(es, 4);
    Lookup(es, 5);
  }

  /** An issued encryption certificate certifies the given SM2 key. */
  lemma EncryptionContents(lib: Lib, x: X509Lib, secret: PrivateKey, ca: PublicKey, root: Certificate, key: EvpPublic,
                           commonName: string, built: int, nonce: nat)
    requires DecodesCertificates(x) && UsableCa(lib, secret, ca) && PlainName(x, root.tbs.subject)
    requires SignTbs(lib, x, EncryptionTbs(lib, x, ca, key, root, commonName, built), secret, nonce).Some?
    ensures var c := SignTbs(lib, x, EncryptionTbs(lib, x, ca, key, root, commonName, built), secret, nonce).value;
            && c.tbs.version == 2 && c.tbs.serial == 3 && c.tbs.issuer == root.tbs.subject
            && c.tbs.subject == [("C", "CN"), ("O", "Experimental Hybrid PKI"), ("CN", commonName)]
            && c.tbs.notBefore == built - 60 && c.tbs.notAfter == built + 31536000
            && c.tbs.spki == Spki(Algorithm(EcPublicKeyOid, Some(Sm2CurveOid)), key.point, 0)
            && SubjectKeyIdOf(c) == Some(lib.sha256(key.point))
            && AuthorityKeyIdOf(c) == Some(lib.sha256(ca.dilithium + ca.sm2.value.point))
  {
    var tbs := EncryptionTbs(lib, x, ca, key, root, commonName, built);
    EncryptionIsPlain(lib, x, ca, key, root, commonName, built);
    SignedTbs(lib, x, tbs, secret, ca, nonce);
    var c := SignTbs(lib, x, tbs, secret, nonce).value;
    EncryptionNames(lib, c, ca, key);
    hide SubjectKeyIdOf, AuthorityKeyIdOf;
  }

  lemma EncryptionNames(lib: Lib, c: Certificate, ca: PublicKey, key: EvpPublic)
    requires EncryptionExtensions(lib, ca, key) == Some(c.tbs.extensions)
    ensures SubjectKeyIdOf(c) == Sm2KeyIdentifier(lib, key) && AuthorityKeyIdOf(c) == KeyIdentifier(lib, ca)
  {
    Lookup(c.tbs.extensions, 2);
    Lookup(c.tbs.extensions, 3);
  }

  /** A certificate that the CA signed under its root carries the right link,
      algorithms, key identifier and signature. */
  lemma IssuedUnderRoot(lib: Lib, x: X509Lib, secret: PrivateKey, ca: PublicKey, rootName: string, rootBuilt: int,
                        root: Certificate, tbs: Option<Tbs>, nonce: nat)
    requires DecodesCertificates(x) && UsableCa(lib, secret, ca)
    requires RootTbs(lib, x, ca, rootName, rootBuilt) == Some(root.tbs)
    requires SignTbs(lib, x, tbs, secret, nonce).Some? && PlainTbs(x, tbs.value)
    ensures var c := SignTbs(lib, x, tbs, secret, nonce).value;
            Some(c.tbs) == tbs && SignatureAlgorithmsComposite(c) && SignedByCert(lib, x, c, root)
    ensures ConstraintsValid(root, true)
    ensures SubjectKeyIdOf(root) == KeyIdentifier(lib, ca) && KeyIdentifier(lib, ca).Some?
  {
    SignedTbs(lib, x, tbs, secret, ca, nonce);
    RootFacts(lib, x, root, ca, rootName, rootBuilt);
  }

  /** A server certificate built under that root with a plain DNS name is
      accepted by the root exactly inside its own validity window. */
  lemma ServerAccepted(lib: Lib, x: X509Lib, secret: PrivateKey, ca: PublicKey, rootName: string, rootBuilt: int,
                       root: Certificate, server: PublicKey, commonName: string, dns: string, built: int,
                       nonce: nat, now: int)
    requires DecodesCertificates(x) && ParsesPlainDns(x) && UsableCa(lib, secret, ca) && PlainDns(dns)
    requires RootTbs(lib, x, ca, rootName, rootBuilt) == Some(root.tbs)
    requires SignTbs(lib, x, ServerTbs(lib, x, ca, server, root, commonName, dns, built), secret, nonce).Some?
    ensures var c := SignTbs(lib, x, ServerTbs(lib, x, ca, server, root, commonName, dns, built), secret, nonce).value;
            ServerValid(lib, x, c, root, now) <==> built - 60 <= now < built + 31536000
  {
    var tbs := ServerTbs(lib, x, ca, server, root, commonName, dns, built);
    RootIsPlain(lib, x, ca, rootName, rootBuilt);
    ServerIsPlain(lib, x, ca, server, root, commonName, dns, built);
    IssuedUnderRoot(lib, x, secret, ca, rootName, rootBuilt, root, tbs, nonce);
    var c := SignTbs(lib, x, tbs, secret, nonce).value;
    ServerProfileInWindow(lib, x, c, root, ca, server, commonName, dns, built, now);
  }

  lemma ServerProfileInWindow(lib: Lib, x: X509Lib, c: Certificate, root: Certificate, ca: PublicKey,
                              server: PublicKey, commonName: string, dns: string, built: int, now: int)
    requires ParsesPlainDns(x) && PlainDns(dns)
    requires ServerTbs(lib, x, ca, server, root, commonName, dns, built) == Some(c.tbs)
    requires SignatureAlgorithmsComposite(c) && ConstraintsValid(root, true)
    requires SubjectKeyIdOf(root) == KeyIdentifier(lib, ca) && KeyIdentifier(lib, ca).Some?
    ensures SubjectKeyIsComposite(c) && ServerExtensionsOk(c, root)
    ensures ServerIdentity(c, root, now) <==> built - 60 <= now < built + 31536000
  {
    ServerFacts(lib, x, c, ca, server, dns);
  }

  /** The same for the TLCP encryption certificate and its plain SM2 key. */
  lemma EncryptionAccepted(lib: Lib, x: X509Lib, secret: PrivateKey, ca: PublicKey, rootName: string, rootBuilt: int,
                           root: Certificate, key: EvpPublic, commonName: string, built: int, nonce: nat, now: int)
    requires DecodesCertificates(x) && UsableCa(lib, secret, ca) && lib.onCurve(key.point)
    requires RootTbs(lib, x, ca, rootName, rootBuilt) == Some(root.tbs)
    requires SignTbs(lib, x, EncryptionTbs(lib, x, ca, key, root, commonName, built), secret, nonce).Some?
    ensures var c := SignTbs(lib, x, EncryptionTbs(lib, x, ca, key, root, commonName, built), secret, nonce).value;
            EncryptionValid(lib, x, c, root, now) <==> built - 60 <= now < built + 31536000
  {
    var tbs := EncryptionTbs(lib, x, ca, key, root, commonName, built);
    RootIsPlain(lib, x, ca, rootName, rootBuilt);
    EncryptionIsPlain(lib, x, ca, key, root, commonName, built);
    IssuedUnderRoot(lib, x, secret, ca, rootName, rootBuilt, root, tbs, nonce);
    var c := SignTbs(lib, x, tbs, secret, nonce).value;
    EncryptionProfileInWindow(lib, x, c, root, ca, key, commonName, built, now);
  }

  lemma EncryptionProfileInWindow(lib: Lib, x: X509Lib, c: Certificate, root: Certificate, ca: PublicKey,
                                  key: EvpPublic, commonName: string, built: int, now: int)
    requires EncryptionTbs(lib, x, ca, key, root, commonName, built) == Some(c.tbs) && lib.onCurve(key.point)
    requires SignatureAlgorithmsComposite(c) && ConstraintsValid(root, true)
    requires SubjectKeyIdOf(root) == KeyIdentifier(lib, ca) && KeyIdentifier(lib, ca).Some?
    ensures SubjectKeyIsSm2(lib, c) && EncryptionExtensionsOk(c, root)
    ensures EncryptionIdentity(c, root, now) <==> built - 60 <= now < built + 31536000
  {
    EncryptionFacts(lib, c, ca, key);
  }
}
