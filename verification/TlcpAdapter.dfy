/** The three-valued adapter that classifies and verifies a TLCP server's
    signing and encryption certificates. */
module TlcpAdapter {
  import opened Bytes
  import opened Library
  import opened CompositeKey
  import opened CompositeSignature
  import opened Certificates
  import opened CertificateBuilder
  import opened CertificateVerifier
  import opened IssuedCertificates

  datatype Verdict = Invalid | NotApplicable | Valid

  /** The DER encoding of the composite OID. */
  const COMPOSITE_OID_DER: seq<byte> := [0x06, 0x0a, 0x2b, 0x06, 0x01, 0x04, 0x01, 0x81, 0xfd, 0x59, 0x01, 0x01]

  ghost predicate Occurs(pattern: seq<byte>, s: seq<byte>) {
    exists i :: 0 <= i <= |s| - |pattern| && OccursAt(pattern, s, i)
  }

  ghost predicate OccursAt(pattern: seq<byte>, s: seq<byte>, i: nat) {
    i + |pattern| <= |s| && s[i..i + |pattern|] == pattern
  }

  lemma OccursMeans(pattern: seq<byte>, s: seq<byte>)
    ensures Occurs(pattern, s) <==> exists before, after :: s == before + pattern + after
  {
    forall i: nat | OccursAt(pattern, s, i)
      ensures exists before, after :: s == before + pattern + after
    {
      assert s == s[..i] + pattern + s[i + |pattern|..];
    }
    forall before, after | s == before + pattern + after
      ensures OccursAt(pattern, s, |before|)
    {
    }
  }

  /** contains_composite_oid: the scan is substring search. */
  method ContainsCompositeOid(der: seq<byte>) returns (found: bool)
    ensures found <==> Occurs(COMPOSITE_OID_DER, der)
    ensures found <==> exists before, after :: der == before + COMPOSITE_OID_DER + after
  {
    OccursMeans(COMPOSITE_OID_DER, der);
    if |der| < |COMPOSITE_OID_DER| {
      return false;
    }
    var i := 0;
    while i <= |der| - |COMPOSITE_OID_DER|
      invariant 0 <= i <= |der| - |COMPOSITE_OID_DER| + 1
      invariant forall k :: 0 <= k < i ==> !OccursAt(COMPOSITE_OID_DER, der, k)
    {
      if der[i..i + |COMPOSITE_OID_DER|] == COMPOSITE_OID_DER {
        assert OccursAt(COMPOSITE_OID_DER, der, i);
        return true;
      }
      i := i + 1;
    }
    return false;
  }

  /** What follows a certificate does not change how it is decoded. */
  ghost predicate PrefixStable(x: X509Lib) {
    forall s: seq<byte> :: x.d2i(s).Some? && x.d2i(s).value.1 <= |s| ==> x.d2i(s[..x.d2i(s).value.1]) == x.d2i(s)
  }

  /** decode_next_certificate: the certificate at the cursor and the number of
      bytes that it takes. */
  function NextCertificate(x: X509Lib, s: seq<byte>): Option<(Certificate, nat)> {
    if s == [] then None
    else
      match x.d2i(s)
      case None => None
      case Some((c, used)) => if used == 0 || used > |s| then None else Some((c, used))
  }

  /** certificate_mentions_composite. */
  predicate MentionsComposite(c: Certificate) {
    c.algorithm.oid == CompositeOid || c.tbs.signature.oid == CompositeOid
  }

  /** Whether tlcp_hybrid_cert_verify_der takes the input for a composite
      certificate: by its algorithms if it decodes, by a byte scan if not. */
  ghost predicate Recognized(x: X509Lib, der: seq<byte>) {
    match DecodeStrict(x, der)
    case Some(c) => MentionsComposite(c)
    case None => Occurs(COMPOSITE_OID_DER, der)
  }

  lemma RecognizedMeans(x: X509Lib, der: seq<byte>)
    ensures Recognized(x, der)
            <==> match DecodeStrict(x, der)
                 case Some(c) => c.algorithm.oid == CompositeOid || c.tbs.signature.oid == CompositeOid
                 case None => exists before, after :: der == before + COMPOSITE_OID_DER + after
  {
    OccursMeans(COMPOSITE_OID_DER, der);
  }

  /** The SM2 half of a composite subject key. */
  function SigningPoint(lib: Lib, x: X509Lib, der: seq<byte>): Option<seq<byte>> {
    match DecodeStrict(x, der)
    case None => None
    case Some(c) =>
      if !SignatureAlgorithmsComposite(c) || CompositePublicKeyOf(lib, c).None? then None
      else Some(c.tbs.spki.bits[DILITHIUM_PUBLIC_KEY_BYTES..])
  }

  /** tlcp_hybrid_cert_get_sm2_sign_public_key. */
  method GetSm2SignPublicKey(lib: Lib, x: X509Lib, der: seq<byte>, key: array<byte>) returns (ok: bool)
    requires key.Length == SM2_PUBLIC_KEY_BYTES
    modifies key
    ensures ok <==> SigningPoint(lib, x, der).Some?
    ensures ok <==>
              match DecodeStrict(x, der)
              case None => false
              case Some(c) =>
                c.tbs.signature == Algorithm(CompositeOid, None) == c.algorithm && CompositePublicKeyOf(lib, c).Some?
    ensures ok ==> key[..] == SigningPoint(lib, x, der).value
    ensures !ok ==> key[..] == old(key[..])
  {
    var c := DecodeStrict(x, der);
    if c.None? || !SignatureAlgorithmsComposite(c.value) {
      return false;
    }
    var public := CompositePublicKeyOf(lib, c.value);
    if public.None? {
      return false;
    }
    CopyInto(key, 0, public.value.sm2.value.point);
    return true;
  }

  predicate HostOk(x: X509Lib, c: Certificate, hostname: Option<string>) {
    hostname.None? || hostname.value == "" || x.hostMatches(c, hostname.value)
  }

  /** When the signing certificate is accepted under the trust anchor. */
  ghost predicate SigningAccepted(lib: Lib, x: X509Lib, der: seq<byte>, anchor: seq<byte>, hostname: Option<string>, now: int) {
    match (DecodeStrict(x, der), DecodeStrict(x, anchor))
    case (Some(c), Some(root)) =>
      ChainValid(lib, x, root, c, now) && HostOk(x, c, hostname) && SigningPoint(lib, x, der).Some?
    case (_, _) => false
  }

  function Zeros(): (z: seq<byte>)
    ensures |z| == SM2_PUBLIC_KEY_BYTES && forall i :: 0 <= i < |z| ==> z[i] == 0
  {
    seq(SM2_PUBLIC_KEY_BYTES, _ => 0)
  }

  /** tlcp_hybrid_cert_verify_der. */
  method VerifyDer(lib: Lib, x: X509Lib, der: seq<byte>, anchor: seq<byte>, hostname: Option<string>, now: int,
                   key: array<byte>)
    returns (verdict: Verdict, compositeOk: bool)
    requires key.Length == SM2_PUBLIC_KEY_BYTES
    modifies key
    ensures verdict == NotApplicable <==> !Recognized(x, der)
    ensures verdict == NotApplicable <==>
              match DecodeStrict(x, der)
              case Some(c) => c.algorithm.oid != CompositeOid && c.tbs.signature.oid != CompositeOid
              case None => !exists before, after :: der == before + COMPOSITE_OID_DER + after
    ensures verdict == Valid && hostname.Some? && hostname.value != "" ==>
              DecodeStrict(x, der).Some? && x.hostMatches(DecodeStrict(x, der).value, hostname.value)
    ensures verdict == Valid <==> SigningAccepted(lib, x, der, anchor, hostname, now)
    ensures verdict == Valid ==> Some(key[..]) == SigningPoint(lib, x, der) && compositeOk
    ensures verdict == NotApplicable ==> key[..] == Zeros()
  {
    RecognizedMeans(x, der);
    compositeOk := false;
    CopyInto(key, 0, Zeros());
    var signing := DecodeStrict(x, der);
    if signing.None? {
      var found := ContainsCompositeOid(der);
      return if found then Invalid else NotApplicable, false;
    }
    if !MentionsComposite(signing.value) {
      return NotApplicable, false;
    }
    var oidOk := SignatureAlgorithmsComposite(signing.value) && SubjectKeyIsComposite(signing.value);
    var markerOk := HasPqcMarker(signing.value);
    var root := DecodeStrict(x, anchor);
    var chainOk := false;
    if root.Some? {
      var valid, _, server := VerifyChain(lib, x, root, signing, now);
      chainOk := valid;
      compositeOk := server.composite;
    }
    if !oidOk || !markerOk || !chainOk || !HostOk(x, signing.value, hostname) {
      return Invalid, compositeOk;
    }
    var ok := GetSm2SignPublicKey(lib, x, der, key);
    return if ok then Valid else Invalid, compositeOk;
  }

  datatype Config = Config(anchor: seq<byte>, hostname: Option<string>)

  /** When the callback accepts a whole chain. */
  ghost predicate DualAccepted(lib: Lib, x: X509Lib, config: Config, chain: seq<byte>, now: int) {
    match NextCertificate(x, chain)
    case None => false
    case Some((signing, n)) =>
      match (NextCertificate(x, chain[n..]), DecodeStrict(x, config.anchor))
      case (Some((encryption, _)), Some(root)) =>
        && SigningAccepted(lib, x, chain[..n], config.anchor, config.hostname, now)
        && EncryptionValid(lib, x, encryption, root, now)
        && signing.tbs.subject == encryption.tbs.subject && signing.tbs.issuer == encryption.tbs.issuer
      case (_, _) => false
  }

  /** The bytes that the callback takes for the signing certificate: none when
      the first certificate does not decode. */
  function SigningBytes(x: X509Lib, chain: seq<byte>): seq<byte> {
    match NextCertificate(x, chain)
    case None => []
    case Some((_, n)) => if n <= |chain| then chain[..n] else []
  }

  /** tlcp_hybrid_cert_gmssl_verify_callback. */
  method VerifyCallback(lib: Lib, x: X509Lib, chain: seq<byte>, config: Option<Config>, now: int, key: array<byte>)
    returns (verdict: Verdict)
    requires key.Length == SM2_PUBLIC_KEY_BYTES
    modifies key
    ensures config.None? ==> verdict == Invalid && key[..] == old(key[..])
    ensures config.Some? ==> (verdict == NotApplicable <==> !Recognized(x, SigningBytes(x, chain)))
    ensures verdict == Valid <==> config.Some? && DualAccepted(lib, x, config.value, chain, now)
    ensures verdict == Valid ==> Some(key[..]) == SigningPoint(lib, x, SigningBytes(x, chain))
    ensures verdict == NotApplicable ==> key[..] == Zeros()
  {
    if config.None? {
      return Invalid;
    }
    var cursor := chain;
    var signing := NextCertificate(x, cursor);
    var signingDer: seq<byte> := [];
    if signing.Some? {
      signingDer := chain[..signing.value.1];
      cursor := chain[signing.value.1..];
    }
    var encryption := NextCertificate(x, cursor);
    var compositeOk;
    verdict, compositeOk := VerifyDer(lib, x, signingDer, config.value.anchor, config.value.hostname, now, key);
    if verdict == Valid {
      var root := DecodeStrict(x, config.value.anchor);
      var second := if encryption.Some? then Some(encryption.value.0) else None;
      var result := VerifyEncryption(lib, x, second, root, now);
      var sameIdentity := signing.Some? && encryption.Some?
                          && signing.value.0.tbs.subject == encryption.value.0.tbs.subject
                          && signing.value.0.tbs.issuer == encryption.value.0.tbs.issuer;
      if !(compositeOk && result.certificateValid && sameIdentity) {
        verdict := Invalid;
      }
    }
  }

  /** What VALID means: both certificates verified under one trust anchor, with
      the same subject and issuer, and they are two different certificates. */
  lemma ValidMeans(lib: Lib, x: X509Lib, config: Config, chain: seq<byte>, now: int)
    returns (signing: Certificate, encryption: Certificate, root: Certificate, n: nat)
    requires PrefixStable(x) && DualAccepted(lib, x, config, chain, now)
    ensures NextCertificate(x, chain) == Some((signing, n)) && 0 < n <= |chain|
    ensures NextCertificate(x, chain[n..]).Some? && NextCertificate(x, chain[n..]).value.0 == encryption
    ensures DecodeStrict(x, config.anchor) == Some(root) && DecodeStrict(x, SigningBytes(x, chain)) == Some(signing)
    ensures ChainValid(lib, x, root, signing, now) && EncryptionValid(lib, x, encryption, root, now)
    ensures signing.tbs.subject == encryption.tbs.subject && signing.tbs.issuer == encryption.tbs.issuer
    ensures signing != encryption
    ensures config.hostname.Some? && config.hostname.value != "" ==> x.hostMatches(signing, config.hostname.value)
  {
    signing, n := NextCertificate(x, chain).value.0, NextCertificate(x, chain).value.1;
    encryption := NextCertificate(x, chain[n..]).value.0;
    root := DecodeStrict(x, config.anchor).value;
    DecodesAlone(x, chain);
    RolesExclude(lib, x, signing, encryption, root, now);
  }

  /** Certificates are read one after the other from a chain. */
  ghost predicate DecodesInChains(x: X509Lib) {
    forall c, rest :: PlainCertificate(x, c) && x.i2d(c) != [] ==> x.d2i(x.i2d(c) + rest) == Some((c, |x.i2d(c)|))
  }

  /** What a CA issues for one server: its root and, at the same time, the
      server's two certificates under one name. */
  datatype Issuance = Issuance(secret: PrivateKey, ca: PublicKey, rootName: string, server: PublicKey, key: EvpPublic,
                               commonName: string, dns: string, built: int, nonce: nat)

  ghost predicate Issued(lib: Lib, x: X509Lib, i: Issuance, root: Certificate, signing: Certificate, encryption: Certificate) {
    && UsableCa(lib, i.secret, i.ca) && PlainDns(i.dns)
    && i.server.sm2.Some? && lib.onCurve(i.server.sm2.value.point) && lib.onCurve(i.key.point)
    && SignTbs(lib, x, RootTbs(lib, x, i.ca, i.rootName, i.built), i.secret, i.nonce) == Some(root)
    && SignTbs(lib, x, ServerTbs(lib, x, i.ca, i.server, root, i.commonName, i.dns, i.built), i.secret, i.nonce)
       == Some(signing)
    && SignTbs(lib, x, EncryptionTbs(lib, x, i.ca, i.key, root, i.commonName, i.built), i.secret, i.nonce)
       == Some(encryption)
  }

  /** The chain of these certificates is accepted, with the root as anchor,
      exactly while they are in their window, if the host name matches. */
  lemma IssuedChainIsValid(lib: Lib, x: X509Lib, i: Issuance, root: Certificate, signing: Certificate,
                           encryption: Certificate, hostname: Option<string>, now: int)
    requires DecodesCertificates(x) && DecodesInChains(x) && ParsesPlainDns(x)
    requires Issued(lib, x, i, root, signing, encryption)
    requires hostname.None? || hostname.value == "" || x.hostMatches(signing, hostname.value)
    ensures DualAccepted(lib, x, Config(x.i2d(root), hostname), x.i2d(signing) + x.i2d(encryption), now)
       <==> i.built - 60 <= now < i.built + 31536000
  {
    IssuedRead(lib, x, i, root, signing, encryption);
    IssuedVerify(lib, x, i, root, signing, encryption, now);
    IssuedIdentity(lib, x, i, root, signing, encryption);
    hide Issued, ChainValid, EncryptionValid, SignTbs, PlainCertificate, NextCertificate, DecodeStrict, DualAccepted;
    ChainReads(x, signing, encryption);
    var chain, n := x.i2d(signing) + x.i2d(encryption), |x.i2d(signing)|;
    assert SigningPoint(lib, x, chain[..n]).Some?;
    DualOfParts(lib, x, Config(x.i2d(root), hostname), chain, n, |x.i2d(encryption)|, root, signing, encryption, now);
  }

  lemma IssuedRead(lib: Lib, x: X509Lib, i: Issuance, root: Certificate, signing: Certificate, encryption: Certificate)
    requires DecodesCertificates(x) && ParsesPlainDns(x) && Issued(lib, x, i, root, signing, encryption)
    ensures Some(root.tbs) == RootTbs(lib, x, i.ca, i.rootName, i.built) && PlainName(x, root.tbs.subject)
    ensures ReadsBack(x, root) && ReadsBack(x, signing) && ReadsBack(x, encryption)
  {
    hide RootTbs, ServerTbs, EncryptionTbs, SignTbs, PlainTbs, ReadsBack, Matching, WellFormedPoint, ParsesPlainDns,
         DecodesCertificates, PlainName;
    HasTbs(lib, x, RootTbs(lib, x, i.ca, i.rootName, i.built), i.secret, i.nonce);
    HasTbs(lib, x, ServerTbs(lib, x, i.ca, i.server, root, i.commonName, i.dns, i.built), i.secret, i.nonce);
    HasTbs(lib, x, EncryptionTbs(lib, x, i.ca, i.key, root, i.commonName, i.built), i.secret, i.nonce);
    RootIsPlain(lib, x, i.ca, i.rootName, i.built);
    IsFromRoot(lib, x, RootTbs(lib, x, i.ca, i.rootName, i.built), i.secret, i.ca, i.nonce);
    ServerIsPlain(lib, x, i.ca, i.server, root, i.commonName, i.dns, i.built);
    EncryptionIsPlain(lib, x, i.ca, i.key, root, i.commonName, i.built);
    Reencodes(lib, x, RootTbs(lib, x, i.ca, i.rootName, i.built), i.secret, i.ca, i.nonce);
    Reencodes(lib, x, ServerTbs(lib, x, i.ca, i.server, root, i.commonName, i.dns, i.built), i.secret, i.ca, i.nonce);
    Reencodes(lib, x, EncryptionTbs(lib, x, i.ca, i.key, root, i.commonName, i.built), i.secret, i.ca, i.nonce);
  }

  lemma IssuedVerify(lib: Lib, x: X509Lib, i: Issuance, root: Certificate, signing: Certificate, encryption: Certificate,
                     now: int)
    requires DecodesCertificates(x) && ParsesPlainDns(x) && Issued(lib, x, i, root, signing, encryption)
    ensures ChainValid(lib, x, root, signing, now) && EncryptionValid(lib, x, encryption, root, now)
       <==> i.built - 60 <= now < i.built + 31536000
  {
    IssuedRead(lib, x, i, root, signing, encryption);
    hide RootValid, ServerValid, EncryptionValid, RootTbs, ServerTbs, EncryptionTbs, SignTbs, ReadsBack;
    RootAccepted(lib, x, i.secret, i.ca, i.rootName, i.built, i.nonce, now);
    ServerAccepted(lib, x, i.secret, i.ca, i.rootName, i.built, root, i.server, i.commonName, i.dns, i.built, i.nonce, now);
    EncryptionAccepted(lib, x, i.secret, i.ca, i.rootName, i.built, root, i.key, i.commonName, i.built, i.nonce, now);
  }

  lemma IssuedIdentity(lib: Lib, x: X509Lib, i: Issuance, root: Certificate, signing: Certificate, encryption: Certificate)
    requires DecodesCertificates(x) && ParsesPlainDns(x) && Issued(lib, x, i, root, signing, encryption)
    ensures signing.tbs.subject == encryption.tbs.subject && signing.tbs.issuer == encryption.tbs.issuer
    ensures CompositePublicKeyOf(lib, signing) == Some(i.server)
  {
    IssuedRead(lib, x, i, root, signing, encryption);
    hide RootTbs, ServerTbs, EncryptionTbs, SignTbs, ReadsBack, SubjectKeyIdOf, AuthorityKeyIdOf, Unique,
         CompositePublicKeyOf;
    ServerContents(lib, x, i.secret, i.ca, root, i.server, i.commonName, i.dns, i.built, i.nonce);
    EncryptionContents(lib, x, i.secret, i.ca, root, i.key, i.commonName, i.built, i.nonce);
  }

  lemma DualOfParts(lib: Lib, x: X509Lib, config: Config, chain: seq<byte>, n: nat, m: nat, root: Certificate,
                    signing: Certificate, encryption: Certificate, now: int)
    requires NextCertificate(x, chain) == Some((signing, n)) && n <= |chain|
    requires NextCertificate(x, chain[n..]) == Some((encryption, m))
    requires DecodeStrict(x, config.anchor) == Some(root) && DecodeStrict(x, chain[..n]) == Some(signing)
    requires HostOk(x, signing, config.hostname) && SigningPoint(lib, x, chain[..n]).Some?
    requires signing.tbs.subject == encryption.tbs.subject && signing.tbs.issuer == encryption.tbs.issuer
    ensures DualAccepted(lib, x, config, chain, now)
       <==> ChainValid(lib, x, root, signing, now) && EncryptionValid(lib, x, encryption, root, now)
  {
    hide ChainValid, EncryptionValid, NextCertificate, DecodeStrict, SigningPoint;
  }

  /** A plain composite certificate that is encoded and read back whole. */
  ghost predicate ReadsBack(x: X509Lib, c: Certificate) {
    PlainCertificate(x, c) && x.i2d(c) != [] && DecodeStrict(x, x.i2d(c)) == Some(c) && SignatureAlgorithmsComposite(c)
  }

  /** What sign_tbs returns is such a certificate. */
  lemma Reencodes(lib: Lib, x: X509Lib, tbs: Option<Tbs>, secret: PrivateKey, ca: PublicKey, nonce: nat)
    requires DecodesCertificates(x) && Matching(lib, secret, ca)
    requires SignTbs(lib, x, tbs, secret, nonce).Some? && PlainTbs(x, tbs.value)
    ensures ReadsBack(x, SignTbs(lib, x, tbs, secret, nonce).value)
  {
    var whole := Certificate(tbs.value, COMPOSITE, Sign(lib, secret, x.encodeTbs(tbs.value), [], nonce).value, 0);
    SignedTbs(lib, x, tbs, secret, ca, nonce);
    assert PlainCertificate(x, whole);
  }

  lemma HasTbs(lib: Lib, x: X509Lib, tbs: Option<Tbs>, secret: PrivateKey, nonce: nat)
    ensures SignTbs(lib, x, tbs, secret, nonce).Some? ==> tbs.Some?
  {
  }

  lemma IsFromRoot(lib: Lib, x: X509Lib, tbs: Option<Tbs>, secret: PrivateKey, ca: PublicKey, nonce: nat)
    requires DecodesCertificates(x) && Matching(lib, secret, ca)
    requires SignTbs(lib, x, tbs, secret, nonce).Some? && PlainTbs(x, tbs.value)
    ensures tbs == Some(SignTbs(lib, x, tbs, secret, nonce).value.tbs)
    ensures PlainName(x, SignTbs(lib, x, tbs, secret, nonce).value.tbs.subject)
  {
    SignedTbs(lib, x, tbs, secret, ca, nonce);
  }

  lemma ChainReads(x: X509Lib, a: Certificate, b: Certificate)
    requires DecodesInChains(x) && ReadsBack(x, a) && ReadsBack(x, b)
    ensures var chain, n := x.i2d(a) + x.i2d(b), |x.i2d(a)|;
            && NextCertificate(x, chain) == Some((a, n)) && chain[..n] == x.i2d(a) && chain[n..] == x.i2d(b)
            && NextCertificate(x, chain[n..]) == Some((b, |x.i2d(b)|)) && DecodeStrict(x, chain[..n]) == Some(a)
  {
    var chain, n := x.i2d(a) + x.i2d(b), |x.i2d(a)|;
    assert chain[..n] == x.i2d(a) && chain[n..] == x.i2d(b);
  }

  lemma DecodesAlone(x: X509Lib, s: seq<byte>)
    requires PrefixStable(x) && NextCertificate(x, s).Some?
    ensures DecodeStrict(x, SigningBytes(x, s)) == Some(NextCertificate(x, s).value.0)
  {
  }

  /** The 65 bytes handed out are the SM2 half of the certificate's key. */
  lemma PointIsSm2Half(lib: Lib, x: X509Lib, der: seq<byte>, c: Certificate)
    requires DecodeStrict(x, der) == Some(c) && SigningPoint(lib, x, der).Some?
    ensures |c.tbs.spki.bits| == DILITHIUM_PUBLIC_KEY_BYTES + SM2_PUBLIC_KEY_BYTES
    ensures SigningPoint(lib, x, der) == Some(c.tbs.spki.bits[DILITHIUM_PUBLIC_KEY_BYTES..])
    ensures CompositePublicKeyOf(lib, c).Some?
            && CompositePublicKeyOf(lib, c).value.sm2 == Some(EvpPublic(true, SigningPoint(lib, x, der).value))
  {
  }

  lemma RolesExclude(lib: Lib, x: X509Lib, c: Certificate, d: Certificate, root: Certificate, now: int)
    requires ChainValid(lib, x, root, c, now) && EncryptionValid(lib, x, d, root, now)
    ensures c != d && c != root && d != root
  {
    RolesAreDisjoint(c);
    RolesAreDisjoint(d);
  }

  // ----- inputs that do not decode

  /** The documentation calls a recognized but malformed certificate INVALID.
      verify_der does so; the callback hands it no bytes when the first
      certificate does not decode, and therefore never recognizes one. */
  lemma UndecodableIsNeverRecognized(x: X509Lib, chain: seq<byte>)
    requires NextCertificate(x, chain).None?
    ensures !Recognized(x, SigningBytes(x, chain))
  {
  }

  /** On a single certificate's bytes the callback classifies as verify_der
      does iff the bytes decode completely or do not contain the OID. */
  lemma ClassificationsAgree(x: X509Lib, der: seq<byte>)
    requires DecodeStrict(x, der).Some? || NextCertificate(x, der).None?
    ensures (Recognized(x, der) <==> Recognized(x, SigningBytes(x, der)))
       <==> NextCertificate(x, der).Some? || !Occurs(COMPOSITE_OID_DER, der)
  {
    if DecodeStrict(x, der).Some? {
      assert der[..|der|] == der;
    }
  }

  /** The OID inside a SEQUENCE: a raw chain element that is no certificate. */
  const WRAPPED_OID: seq<byte> := [0x30, 0x0c] + COMPOSITE_OID_DER

  /** An input on which they differ. */
  lemma WrappedOidDiffers(x: X509Lib)
    requires x.d2i(WRAPPED_OID).None?
    ensures Recognized(x, WRAPPED_OID) && !Recognized(x, SigningBytes(x, WRAPPED_OID))
  {
    assert OccursAt(COMPOSITE_OID_DER, WRAPPED_OID, 2);
    UndecodableIsNeverRecognized(x, WRAPPED_OID);
  }
}
