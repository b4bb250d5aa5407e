/** The TLCP client's policy for received server certificates and its choice of
    the key that ServerKeyExchange is verified with. */
module TlcpPolicy {
  import opened Bytes
  import opened Der
  import opened Library
  import opened Certificates
  import opened RawCertificates
  import opened TlcpAdapter

  type PointBytes = s: seq<byte> | |s| == SM2_PUBLIC_KEY_BYTES witness seq(SM2_PUBLIC_KEY_BYTES, _ => 0)

  datatype Policy = Policy(hasCallback: bool, expected: bool)

  /** A Certificate message: what arrived, what the callback makes of it and
      what the ordinary verifier would say. */
  datatype CertMessage = CertMessage(parsed: bool, chain: seq<byte>, verdict: Verdict, callbackKey: PointBytes,
                                     ordinaryOk: bool)

  /** The connection fields involved. */
  datatype CertState = CertState(hybrid: bool, key: PointBytes, chain: seq<byte>)

  /** Whether a chain has a first element to hand to the callback. */
  predicate HasFirst(chain: seq<byte>) { Leading(chain) != [] }

  /** The message is handed to GmSSL's own certificate verifier. */
  predicate ReachesOrdinary(p: Policy, m: CertMessage) {
    m.parsed && (p.hasCallback ==> HasFirst(m.chain) && m.verdict == NotApplicable && !p.expected)
  }

  /** The message makes the connection a composite one. */
  predicate MakesHybrid(p: Policy, m: CertMessage) {
    m.parsed && p.hasCallback && HasFirst(m.chain) && m.verdict == Valid
  }

  predicate Accepts(p: Policy, m: CertMessage) {
    MakesHybrid(p, m) || (ReachesOrdinary(p, m) && m.ordinaryOk)
  }

  class TlcpCtx {
    const isTlcp: bool
    var expected: bool
    var hasCallback: bool

    function GetPolicy(): Policy
      reads this
    {
      Policy(hasCallback, expected)
    }

    constructor (isTlcp: bool)
      ensures this.isTlcp == isTlcp && GetPolicy() == Policy(false, false)
    {
      this.isTlcp, expected, hasCallback := isTlcp, false, false;
    }

    /** tls_ctx_set_tlcp_hybrid_cert_verify: strict mode only with a callback. */
    method SetHybridVerify(expectedHybrid: bool, callback: bool) returns (ret: int)
      requires expected ==> hasCallback
      modifies this
      ensures expected ==> hasCallback
      ensures ret == (if isTlcp && callback then 1 else -1)
      ensures GetPolicy() == if ret == 1 then Policy(true, expectedHybrid) else old(GetPolicy())
    {
      if !isTlcp || !callback {
        return -1;
      }
      expected := expectedHybrid;
      hasCallback := true;
      return 1;
    }
  }

  datatype KeySource = CompositeComponent(point: PointBytes) | CertificateKey(cert: seq<byte>)

  class TlcpConn {
    const ctx: TlcpCtx
    var hybridSignCert: bool
    const hybridKey: array<byte>
    var peerChain: seq<byte>

    ghost predicate Valid() { hybridKey.Length == SM2_PUBLIC_KEY_BYTES }

    function State(): CertState
      requires hybridKey.Length == SM2_PUBLIC_KEY_BYTES
      reads this, hybridKey
    {
      CertState(hybridSignCert, hybridKey[..], peerChain)
    }

    constructor (ctx: TlcpCtx)
      ensures Valid() && this.ctx == ctx && !hybridSignCert && fresh(hybridKey)
    {
      this.ctx, hybridSignCert, peerChain := ctx, false, [];
      hybridKey := new byte[SM2_PUBLIC_KEY_BYTES];
    }

    method SetKey(point: PointBytes)
      requires Valid()
      modifies hybridKey
      ensures hybridKey[..] == point
    {
      CopyInto(hybridKey, 0, point);
    }

    /** tlcp_recv_server_certificate. */
    method RecvServerCertificate(m: CertMessage) returns (ret: int, ordinary: bool)
      requires Valid()
      modifies this, hybridKey
      ensures ret == (if Accepts(ctx.GetPolicy(), m) then 1 else -1)
      ensures ordinary <==> ReachesOrdinary(ctx.GetPolicy(), m)
      // without a callback
      ensures !ctx.hasCallback ==>
                && ordinary == m.parsed && ret == (if m.parsed && m.ordinaryOk then 1 else -1)
                && (m.parsed ==> !hybridSignCert)
      // with one, for a chain that has a first element
      ensures ctx.hasCallback && m.parsed && Leading(m.chain) != [] ==>
                match m.verdict
                case Invalid => ret == -1 && !ordinary && !hybridSignCert
                case Valid => ret == 1 && !ordinary && hybridSignCert && hybridKey[..] == m.callbackKey
                case NotApplicable =>
                  !hybridSignCert && ordinary == !ctx.expected
                  && ret == (if !ctx.expected && m.ordinaryOk then 1 else -1)
      ensures m.parsed ==> peerChain == m.chain
      ensures m.parsed && (!ctx.hasCallback || Leading(m.chain) == []) ==> forall i :: 0 <= i < 65 ==> hybridKey[i] == 0
      ensures ctx.hasCallback && m.parsed && Leading(m.chain) == [] ==> ret == -1 && !ordinary && !hybridSignCert
      ensures !m.parsed ==> ret == -1 && !ordinary && State() == old(State())
      ensures State() == After(old(State()), ctx.GetPolicy(), m)
    {
      ordinary := false;
      if !m.parsed {
        return -1, false;
      }
      peerChain := m.chain;
      hybridSignCert := false;
      SetKey(Zeros());
      assert forall i :: 0 <= i < 65 ==> hybridKey[i] == hybridKey[..][i] == 0;
      var verdict := NotApplicable;
      if ctx.hasCallback {
        var found, cert := GetByIndex(peerChain, 0);
        if found != 1 {
          return -1, false;
        }
        verdict := m.verdict;
        SetKey(m.callbackKey);
        if verdict == Invalid || (verdict == NotApplicable && ctx.expected) {
          return -1, false;
        }
        if verdict == TlcpAdapter.Valid {
          hybridSignCert := true;
        }
      }
      if verdict == NotApplicable {
        ordinary := true;
        if !m.ordinaryOk {
          return -1, true;
        }
      }
      return 1, ordinary;
    }

    /** The key choice of tlcp_recv_server_key_exchange. */
    method KeyForServerKeyExchange() returns (source: Option<KeySource>)
      requires Valid()
      ensures source == ChosenKey(State())
      ensures source ==
                if Leading(peerChain) == [] then None
                else if hybridSignCert then Some(CompositeComponent(hybridKey[..]))
                else Some(CertificateKey(Leading(peerChain)[0]))
    {
      var found, cert := GetByIndex(peerChain, 0);
      if found != 1 {
        return None;
      }
      if hybridSignCert {
        return Some(CompositeComponent(hybridKey[..]));
      }
      return Some(CertificateKey(cert));
    }
  }

  /** The connection after a message. */
  function After(st: CertState, p: Policy, m: CertMessage): CertState {
    if !m.parsed then st
    else CertState(MakesHybrid(p, m), if p.hasCallback && HasFirst(m.chain) then m.callbackKey else Zeros(), m.chain)
  }

  function ChosenKey(st: CertState): Option<KeySource> {
    if !HasFirst(st.chain) then None
    else if st.hybrid then Some(CompositeComponent(st.key))
    else Some(CertificateKey(Leading(st.chain)[0]))
  }

  function AfterAll(st: CertState, p: Policy, ms: seq<CertMessage>): CertState {
    if ms == [] then st else After(AfterAll(st, p, ms[..|ms| - 1]), p, ms[|ms| - 1])
  }

  /** The last message that was a Certificate message at all. */
  function Latest(ms: seq<CertMessage>): Option<CertMessage> {
    if ms == [] then None
    else if ms[|ms| - 1].parsed then Some(ms[|ms| - 1])
    else Latest(ms[..|ms| - 1])
  }

  /** Over every sequence of Certificate messages, ServerKeyExchange uses the
      composite component iff the latest one was VALID; it is then the key that
      the callback gave for that message, and otherwise the key comes from the
      first certificate of the latest chain. */
  lemma {:induction false} LatestDecides(st: CertState, p: Policy, ms: seq<CertMessage>)
    requires Latest(ms).Some?
    ensures var m := Latest(ms).value;
            ChosenKey(AfterAll(st, p, ms))
            == if !HasFirst(m.chain) then None
               else if p.hasCallback && m.verdict == TlcpAdapter.Valid then Some(CompositeComponent(m.callbackKey))
               else Some(CertificateKey(Leading(m.chain)[0]))
  {
    if !ms[|ms| - 1].parsed {
      LatestDecides(st, p, ms[..|ms| - 1]);
    }
  }

  /** With the adapter as callback.  The ordinary verifier is reached only by
      what the callback does not recognize, and only in compatible mode; a chain
      is accepted iff it verified completely or the ordinary verifier took it;
      and an accepted composite connection has its key from a signing
      certificate that verified together with its encryption certificate. */
  method ReceiveWithAdapter(lib: Lib, x: X509Lib, conn: TlcpConn, chain: seq<byte>, config: Option<Config>,
                            now: int, ordinaryOk: bool)
    returns (ret: int, ordinary: bool)
    requires conn.Valid() && conn.ctx.hasCallback
    modifies conn, conn.hybridKey
    ensures ordinary <==>
              HasFirst(chain) && config.Some? && !Recognized(x, SigningBytes(x, chain)) && !conn.ctx.expected
    ensures conn.hybridSignCert <==> HasFirst(chain) && config.Some? && DualAccepted(lib, x, config.value, chain, now)
    ensures ret == (if conn.hybridSignCert || (ordinary && ordinaryOk) then 1 else -1)
    ensures conn.hybridSignCert ==>
              ChosenKey(conn.State()) == Some(CompositeComponent(conn.hybridKey[..]))
              && Some(conn.hybridKey[..]) == SigningPoint(lib, x, SigningBytes(x, chain))
    ensures ret == 1 && !conn.hybridSignCert ==>
              ChosenKey(conn.State()) == Some(CertificateKey(Leading(chain)[0]))
  {
    var key := new byte[SM2_PUBLIC_KEY_BYTES];
    var verdict := VerifyCallback(lib, x, chain, config, now, key);
    ret, ordinary := conn.RecvServerCertificate(CertMessage(true, chain, verdict, key[..], ordinaryOk));
  }

  /** What becomes of the OID inside a SEQUENCE, which the documentation would
      have refused as recognized but malformed: a compatible client hands it to
      the ordinary verifier, a strict one refuses it. */
  method ReceiveWrappedOid(lib: Lib, x: X509Lib, conn: TlcpConn, config: Config, now: int, ordinaryOk: bool)
    returns (ret: int, ordinary: bool)
    requires conn.Valid() && conn.ctx.hasCallback && x.d2i(WRAPPED_OID).None?
    modifies conn, conn.hybridKey
    ensures Recognized(x, WRAPPED_OID) && !conn.hybridSignCert
    ensures ordinary <==> !conn.ctx.expected
    ensures ret == (if !conn.ctx.expected && ordinaryOk then 1 else -1)
  {
    WrappedOidDiffers(x);
    WrappedOidIsFirst();
    ret, ordinary := ReceiveWithAdapter(lib, x, conn, WRAPPED_OID, Some(config), now, ordinaryOk);
  }

  lemma WrappedOidIsFirst()
    ensures HasFirst(WRAPPED_OID)
  {
    var tail := WRAPPED_OID[1..];
    assert tail[0] == 0x0c && tail[1..] == COMPOSITE_OID_DER;
    assert COMPOSITE_OID_DER[..12] == COMPOSITE_OID_DER && COMPOSITE_OID_DER[12..] == [];
    assert TakeTlv(SEQUENCE, WRAPPED_OID, true) == Some((COMPOSITE_OID_DER, []));
  }
}
