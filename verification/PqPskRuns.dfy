/** Whole runs of the 0xFF03 negotiation: a client and a server exchanging
    messages over an unmodified channel, with or without HelloRetryRequest. */
module PqPskRuns {
  import opened Bytes
  import opened TlsExtensions
  import opened PskLists
  import opened PqPskNegotiation
  import opened HandshakeStates

  /** What appending one optional extension does to the lookup of `kind`. */
  lemma Extended(es: seq<Ext>, c: bool, which: u16, data: seq<byte>, kind: u16) returns (r: seq<Ext>)
    ensures r == es + When(c, which, data)
    ensures Count(r, kind) == Count(es, kind) + (if c && kind == which then 1 else 0)
    ensures LastData(r, kind) == if c && kind == which then Some(data) else LastData(es, kind)
    ensures AllFit(es) && |data| < 0x10000 ==> AllFit(r)
  {
    r := es + When(c, which, data);
    if c {
      WalkStep(es, Ext(which, data));
    } else {
      assert r == es;
    }
  }

  /** What a ClientHello carries under one extension type. */
  function Carried(c: HelloConfig, p: HelloParts, kind: u16): Option<seq<byte>> {
    if kind == SUPPORTED_VERSIONS then Some(p.versions)
    else if kind == SUPPORTED_GROUPS && c.groups then Some(p.groups)
    else if kind == SIGNATURE_ALGORITHMS && c.sigAlgs then Some(p.sigAlgs)
    else if kind == KEY_SHARE && c.keyShare then Some(p.keyShare)
    else if kind == PSK_KEY_EXCHANGE_MODES && (c.modes.pskDhe || c.modes.psk) then Some(p.pskModes)
    else if kind == PQ_PSK && c.pqPsk then Some([])
    else if kind == EARLY_DATA && c.earlyData then Some([])
    else if kind == PRE_SHARED_KEY && c.preSharedKey then Some(p.preSharedKey)
    else None
  }

  lemma CommonCarries(c: HelloConfig, p: HelloParts, kind: u16)
    ensures LastData(CommonExts(c, p), kind)
         == if kind in {PQ_PSK, EARLY_DATA, PRE_SHARED_KEY} then None else Carried(c, p, kind)
    ensures Count(CommonExts(c, p), kind) == if LastData(CommonExts(c, p), kind).Some? then 1 else 0
    ensures AllFit(CommonExts(c, p))
  {
    var e0 := Extended([], true, SUPPORTED_VERSIONS, p.versions, kind);
    var e1 := Extended(e0, c.groups, SUPPORTED_GROUPS, p.groups, kind);
    var e2 := Extended(e1, c.sigAlgs, SIGNATURE_ALGORITHMS, p.sigAlgs, kind);
    var e3 := Extended(e2, c.keyShare, KEY_SHARE, p.keyShare, kind);
    var e4 := Extended(e3, c.modes.pskDhe || c.modes.psk, PSK_KEY_EXCHANGE_MODES, p.pskModes, kind);
    assert e4 == CommonExts(c, p);
  }

  lemma HelloCarries(c: HelloConfig, p: HelloParts, kind: u16)
    ensures LastData(HelloExts(c, p), kind) == Carried(c, p, kind)
    ensures Count(HelloExts(c, p), kind) == if Carried(c, p, kind).Some? then 1 else 0
    ensures AllFit(HelloExts(c, p))
  {
    CommonCarries(c, p, kind);
    var e4 := CommonExts(c, p);
    var e5 := Extended(e4, c.pqPsk, PQ_PSK, [], kind);
    var e6 := Extended(e5, c.earlyData, EARLY_DATA, [], kind);
    var e7 := Extended(e6, c.preSharedKey, PRE_SHARED_KEY, p.preSharedKey, kind);
    assert e7 == HelloExts(c, p);
  }

  /** What a ServerHello carries under one extension type. */
  function Answered(m: Modes, negotiated: bool, choice: PskChoice, versions: Nonempty, keyShare: Nonempty, kind: u16)
    : Option<seq<byte>>
  {
    if kind == SUPPORTED_VERSIONS then Some(versions)
    else if kind == KEY_SHARE && (m.certDhe || m.pskDhe) then Some(keyShare)
    else if kind == PQ_PSK && negotiated then Some([])
    else if kind == PRE_SHARED_KEY && choice != 0 then Some(IdentityBytes(choice))
    else None
  }

  lemma ServerHelloCarries(m: Modes, negotiated: bool, choice: PskChoice, v: Nonempty, ks: Nonempty, kind: u16)
    ensures LastData(ServerHelloExts(m, negotiated, choice, v, ks), kind) == Answered(m, negotiated, choice, v, ks, kind)
    ensures Count(ServerHelloExts(m, negotiated, choice, v, ks), kind)
         == if Answered(m, negotiated, choice, v, ks, kind).Some? then 1 else 0
    ensures AllFit(ServerHelloExts(m, negotiated, choice, v, ks))
  {
    var e0 := Extended([], true, SUPPORTED_VERSIONS, v, kind);
    var e1 := Extended(e0, m.certDhe || m.pskDhe, KEY_SHARE, ks, kind);
    var e2 := Extended(e1, negotiated, PQ_PSK, [], kind);
    var e3 := Extended(e2, choice != 0, PRE_SHARED_KEY, IdentityBytes(choice), kind);
    assert e3 == ServerHelloExts(m, negotiated, choice, v, ks);
  }

  /** What a client finds in a ServerHello. */
  lemma AnswerReads(m: Modes, negotiated: bool, choice: PskChoice, v: Nonempty, ks: Nonempty)
    ensures var es := ServerHelloExts(m, negotiated, choice, v, ks);
            && ParseExts(EncodeExts(es)) == Some(es)
            && Count(es, PQ_PSK) == (if negotiated then 1 else 0)
            && (Present(es, PRE_SHARED_KEY) <==> choice != 0)
            && (Present(es, KEY_SHARE) <==> m.certDhe || m.pskDhe)
            && (choice != 0 ==> Value(Pointer(es, PRE_SHARED_KEY)) == choice - 1)
  {
    hide ServerHelloExts, Count, LastData, ParseExts, EncodeExts, AllFit;
    ServerHelloCarries(m, negotiated, choice, v, ks, PQ_PSK);
    ServerHelloCarries(m, negotiated, choice, v, ks, PRE_SHARED_KEY);
    ServerHelloCarries(m, negotiated, choice, v, ks, KEY_SHARE);
    ParseOfEncodeExts(ServerHelloExts(m, negotiated, choice, v, ks));
    if choice != 0 {
      Widths();
      ValueOfPut(2, choice - 1);
    }
  }

  /** A client that passes its own configuration check sends a ClientHello that
      passes the server's checks iff it also sends signature_algorithms, which
      its own check does not look at. */
  lemma OfferMeetsServerChecks(c: HelloConfig, p: HelloParts, kinds: seq<PskKind>)
    requires c.pqPsk && MayOffer(c, kinds)
    ensures FlagWellPlaced(HelloExts(c, p)) <==> c.sigAlgs
  {
    HelloCarries(c, p, SUPPORTED_GROUPS);
    HelloCarries(c, p, SIGNATURE_ALGORITHMS);
    HelloCarries(c, p, KEY_SHARE);
    HelloCarries(c, p, PSK_KEY_EXCHANGE_MODES);
    HelloCarries(c, p, PQ_PSK);
    HelloCarries(c, p, EARLY_DATA);
    HelloCarries(c, p, PRE_SHARED_KEY);
  }

  /** Hidden code that neither rejects nor takes PSK-DHE away. */
  ghost predicate Cooperates(es: seq<Ext>, h: HiddenServer) {
    && (forall i :: 0 <= i < |es| ==> !h.rejectsExt(es[..i], es[i])) && !h.rejectsList && !h.rejectsRest
    && h.offeredModes.Some? && ModesAtPsk(es, h).Some?
    && h.offeredModes.value.pskDhe && ModesAtPsk(es, h).value.pskDhe && ModesAtPsk(es, h).value.certDhe
    && h.external.Selected? && h.hasCertChain && h.hasGroup
  }

  /** With an enabled server that knows one of the PSKs, such an offer is
      negotiated iff signature_algorithms is there. */
  lemma OfferIsNegotiated(c: HelloConfig, p: HelloParts, kinds: seq<PskKind>, flags: Flags, h: HiddenServer)
    requires c.pqPsk && MayOffer(c, kinds) && Cooperates(HelloExts(c, p), h) && flags.enabled
    ensures ServerNegotiates(HelloExts(c, p), flags, true, h) <==> c.sigAlgs
  {
    OfferMeetsServerChecks(c, p, kinds);
    HelloCarries(c, p, PQ_PSK);
    var es := HelloExts(c, p);
    forall i | 0 <= i < |es| && es[i].kind == PQ_PSK
      ensures es[i].data == []
    {
      assert es[i] in es;
      assert forall e <- es :: e.kind == PQ_PSK ==> e.data == [];
    }
  }

  /** A client after HelloRetryRequest may still offer the flag iff one of its
      PSKs belongs to the cipher suite that the server chose. */
  lemma RetryMayStillOffer(c: HelloConfig, ps: seq<Psk>, suite: int)
    requires MayOffer(c, Kinds(ps))
    ensures MayOffer(c, Kinds(OfSuite(ps, suite))) <==> exists p <- ps :: p.suite == suite
  {
    KindsAre(ps, External);
    KeepsExternal(ps, suite);
    KindsAre(OfSuite(ps, suite), External);
  }

  /** Unshown client code that takes such a ServerHello, whose identity is one
      of the client's. */
  ghost predicate Willing(es: seq<Ext>, h: HiddenClient, index: u16, count: nat) {
    && (forall i :: 0 <= i < |es| ==> !h.rejectsExt(es[..i], es[i])) && !h.rejectsList
    && !h.rejectsMode(PSK_DHE_ONLY) && !h.rejectsIdentity(index) && !h.rejectsRest && index < count
  }

  /** A client that offered accepts the ServerHello of a negotiated PSK iff its
      unshown code is willing. */
  lemma NegotiatedIsAccepted(index: u16, v: Nonempty, ks: Nonempty, required: bool, kinds: seq<PskKind>, h: HiddenClient)
    requires forall k <- kinds :: k == External
    ensures var es := ServerHelloExts(PSK_DHE_ONLY, true, index + 1, v, ks);
            ClientAccepts(es, true, required, kinds, h) <==> Willing(es, h, index, |kinds|)
  {
    var es := ServerHelloExts(PSK_DHE_ONLY, true, index + 1, v, ks);
    FourExtensions(index, v, ks);
    ServerHelloCarries(PSK_DHE_ONLY, true, index + 1, v, ks, PQ_PSK);
    ServerHelloCarries(PSK_DHE_ONLY, true, index + 1, v, ks, PRE_SHARED_KEY);
    ServerHelloCarries(PSK_DHE_ONLY, true, index + 1, v, ks, KEY_SHARE);
    Widths();
    ValueOfPut(2, index);
    hide Count, LastData, ServerHelloExts, Value;
    assert index < |kinds| ==> kinds[index] in kinds;
    assert IdentityOk(IdentityBytes(index + 1), true, kinds, h) <==> !h.rejectsIdentity(index) && index < |kinds|;
  }

  lemma FourExtensions(index: u16, v: Nonempty, ks: Nonempty)
    ensures forall e <- ServerHelloExts(PSK_DHE_ONLY, true, index + 1, v, ks) ::
              KnownToClient(e.kind) && (e.kind == PQ_PSK ==> e.data == [])
  {
    var e1, e2 := Ext(SUPPORTED_VERSIONS, v), Ext(KEY_SHARE, ks);
    var e3, e4 := Ext(PQ_PSK, []), Ext(PRE_SHARED_KEY, IdentityBytes(index + 1));
    assert ServerHelloExts(PSK_DHE_ONLY, true, index + 1, v, ks) == [e1, e2, e3, e4];
  }

  /** A first ClientHello that is sent and taken: what it leaves at the server. */
  ghost function Offer(c: HelloConfig, kinds: seq<PskKind>, p: HelloParts, flags: Flags, hasPsks: bool, hs: HiddenServer)
    : Option<ServerState>
  {
    if c.pqPsk && !MayOffer(c, kinds) then None else HelloOutcome(HelloExts(c, p), flags, hasPsks, hs)
  }

  /** A run without HelloRetryRequest that the client accepts, in terms of what
      both ends start from. */
  ghost predicate AcceptedDirectly(c: HelloConfig, kinds: seq<PskKind>, required: bool, p: HelloParts, flags: Flags,
                                   hasPsks: bool, hs: HiddenServer, v: Nonempty, ks: Nonempty, hc: HiddenClient)
  {
    match Offer(c, kinds, p, flags, hasPsks, hs)
    case None => false
    case Some(o) =>
      !o.retries && ClientAccepts(ServerHelloExts(o.modes, o.negotiated, o.identity, v, ks), c.pqPsk, required, kinds, hc)
  }

  /** The client's configuration after a HelloRetryRequest. */
  function ConfigAfter(c: HelloConfig, h: HiddenRetry): HelloConfig {
    c.(modes := h.modes, earlyData := h.earlyData, preSharedKey := h.preSharedKey, keyShare := h.keyShare)
  }

  /** The second ClientHello for such a configuration. */
  function SecondHello(c: HelloConfig, offered: bool, p: HelloParts): seq<Ext> {
    HelloExts(c.(pqPsk := offered, earlyData := false), p)
  }

  /** A HelloRetryRequest after which the client still sends a ClientHello. */
  ghost predicate ClientRetries(c: HelloConfig, psks: Option<seq<Psk>>, hr: HiddenRetry) {
    && !hr.rejects && psks.Some?
    && (c.pqPsk ==> MayOffer(ConfigAfter(c, hr), Kinds(OfSuite(psks.value, hr.suite))))
  }

  /** A HelloRetryRequest that both ends get through; `c` and `psks` are the
      client's before it. */
  ghost predicate RetryPasses(c: HelloConfig, psks: Option<seq<Psk>>, again: HelloParts, hr: HiddenRetry,
                              ha: HiddenAgain)
  {
    && ClientRetries(c, psks, hr) && !ha.rejectsRest
    && AgainPasses(SecondHello(ConfigAfter(c, hr), c.pqPsk, again), c.pqPsk, ha.rejectsExt)
  }

  /** A run with HelloRetryRequest that the client accepts. */
  ghost predicate AcceptedAfterRetry(c: HelloConfig, psks: Option<seq<Psk>>, kinds: seq<PskKind>, required: bool,
                                     p: HelloParts, flags: Flags, hasPsks: bool, hs: HiddenServer, again: HelloParts,
                                     hr: HiddenRetry, ha: HiddenAgain, v: Nonempty, ks: Nonempty, hc: HiddenClient)
  {
    match Offer(c, kinds, p, flags, hasPsks, hs)
    case None => false
    case Some(o) =>
      && o.retries && RetryPasses(c, psks, again, hr, ha)
      && ClientAccepts(ServerHelloExts(ha.modes, o.negotiated, ha.identity, v, ks), c.pqPsk, required,
                       Kinds(OfSuite(psks.value, hr.suite)), hc)
  }

  /** A configured client and an enabled server that knows one of its PSKs come
      to negotiate iff signature_algorithms is sent. */
  lemma WillingRunNegotiates(c: HelloConfig, kinds: seq<PskKind>, required: bool, p: HelloParts, flags: Flags,
                             hs: HiddenServer, v: Nonempty, ks: Nonempty, hc: HiddenClient)
    requires c.pqPsk && MayOffer(c, kinds) && flags.enabled
    requires Cooperates(HelloExts(c, p), hs) && hs.peerShareLen != 0
    requires Willing(ServerHelloExts(PSK_DHE_ONLY, true, hs.external.index + 1, v, ks), hc, hs.external.index, |kinds|)
    ensures AcceptedDirectly(c, kinds, required, p, flags, true, hs, v, ks, hc)
            && Offer(c, kinds, p, flags, true, hs).value.negotiated
       <==> c.sigAlgs
  {
    hide HelloOutcome, ClientAccepts, Willing, HelloExts, ServerHelloExts;
    OfferIsNegotiated(c, p, kinds, flags, hs);
    if ServerNegotiates(HelloExts(c, p), flags, true, hs) {
      NegotiatedState(HelloExts(c, p), flags, true, hs);
    }
    NegotiatedIsAccepted(hs.external.index, v, ks, required, kinds, hc);
  }

  /** Unshown code for an ordinary handshake with a certificate. */
  ghost predicate TakesOrdinary(es: seq<Ext>, hs: HiddenServer) {
    && (forall i :: 0 <= i < |es| ==> !hs.rejectsExt(es[..i], es[i])) && !hs.rejectsList && !hs.rejectsRest
    && hs.offeredModes.Some? && (forall m :: hs.adjustModes(m) == Some(m))
    && (forall m: Modes :: m.certDhe ==> hs.otherMode(m, 0) == Some((CERT_DHE_ONLY, false)))
  }

  /** A client and a server without any of these settings get through, with the
      certificate mode, whatever the server's own setting short of require. */
  lemma DefaultRun(c: HelloConfig, kinds: seq<PskKind>, p: HelloParts, flags: Flags, hasPsks: bool, hs: HiddenServer,
                   v: Nonempty, ks: Nonempty, hc: HiddenClient)
    requires !c.pqPsk && !c.preSharedKey && c.groups && c.sigAlgs && !flags.required
    requires TakesOrdinary(HelloExts(c, p), hs)
    requires var es := ServerHelloExts(CERT_DHE_ONLY, false, 0, v, ks);
             (forall i :: 0 <= i < |es| ==> !hc.rejectsExt(es[..i], es[i])) && !hc.rejectsList
             && !hc.rejectsMode(CERT_DHE_ONLY) && !hc.rejectsRest
    ensures Offer(c, kinds, p, flags, hasPsks, hs) == Some(ServerState(false, false, false, 0, CERT_DHE_ONLY, false))
    ensures AcceptedDirectly(c, kinds, false, p, flags, hasPsks, hs, v, ks, hc)
  {
    NoFlagSent(c, p);
    OrdinaryHello(HelloExts(c, p), flags, hasPsks, hs);
    CertificateIsAccepted(v, ks, kinds, hc);
  }

  lemma NoFlagSent(c: HelloConfig, p: HelloParts)
    requires !c.pqPsk && !c.preSharedKey && c.groups && c.sigAlgs
    ensures var es := HelloExts(c, p);
            && (forall i :: 0 <= i < |es| ==> es[i].kind != PQ_PSK)
            && Carries(es, SUPPORTED_GROUPS) && Carries(es, SIGNATURE_ALGORITHMS) && !Carries(es, PRE_SHARED_KEY)
  {
    var es := HelloExts(c, p);
    HelloCarries(c, p, PQ_PSK);
    HelloCarries(c, p, SUPPORTED_GROUPS);
    HelloCarries(c, p, SIGNATURE_ALGORITHMS);
    HelloCarries(c, p, PRE_SHARED_KEY);
    CountMeans(es, PQ_PSK);
    PresentMeans(es, SUPPORTED_GROUPS);
    PresentMeans(es, SIGNATURE_ALGORITHMS);
    PresentMeans(es, PRE_SHARED_KEY);
    hide HelloExts, Carries, Count, LastData;
  }

  /** A client that did not offer takes a ServerHello with key_share alone. */
  lemma CertificateIsAccepted(v: Nonempty, ks: Nonempty, kinds: seq<PskKind>, h: HiddenClient)
    requires var es := ServerHelloExts(CERT_DHE_ONLY, false, 0, v, ks);
             (forall i :: 0 <= i < |es| ==> !h.rejectsExt(es[..i], es[i])) && !h.rejectsList
             && !h.rejectsMode(CERT_DHE_ONLY) && !h.rejectsRest
    ensures ClientAccepts(ServerHelloExts(CERT_DHE_ONLY, false, 0, v, ks), false, false, kinds, h)
  {
    var es := ServerHelloExts(CERT_DHE_ONLY, false, 0, v, ks);
    assert es == [Ext(SUPPORTED_VERSIONS, v), Ext(KEY_SHARE, ks)];
    assert Carries(es, KEY_SHARE) by { assert es[1].kind == KEY_SHARE && es[1].data != []; }
    assert !Carries(es, PRE_SHARED_KEY) && !HasOneEmpty(es, PQ_PSK);
    AcceptedServerHello(es, false, false, kinds, h);
  }

  lemma OutcomeFacts(es: seq<Ext>, flags: Flags, hasPsks: bool, h: HiddenServer)
    ensures match HelloOutcome(es, flags, hasPsks, h)
            case None => true
            case Some(o) =>
              && (o.offered <==> Count(es, PQ_PSK) == 1)
              && (o.negotiated ==>
                    o.offered && flags.enabled && o.external && h.hasCertChain && o.modes == PSK_DHE_ONLY)
              && (flags.required ==> o.offered && o.external)
  {
    hide Count, LastData, WalkPasses;
  }

  /** ClientHello from one end to the other. */
  method SendOffer(client: ClientConn, server: ServerConn, parts: HelloParts, hs: HiddenServer) returns (ok: bool)
    requires client.Fresh() && client.psks.Valid() && server.Fresh()
    modifies client`offered, server
    ensures ok ==> client.offered == server.offered == client.ctx.pqPsk
    ensures ok <==> Offer(client.Config(), client.psks.kinds[..client.psks.count], parts, server.ctx.GetFlags(),
                          server.pskIdentitiesLen != 0, hs).Some?
    ensures ok ==> Offer(client.Config(), client.psks.kinds[..client.psks.count], parts, server.ctx.GetFlags(),
                         server.pskIdentitiesLen != 0, hs) == Some(server.State())
    ensures ok && server.negotiated ==>
              server.offered && server.ctx.pqPsk && server.selectedExternal && hs.hasCertChain
              && server.keyExchangeModes == PSK_DHE_ONLY
    ensures ok && server.ctx.requirePqPsk ==> server.offered && server.selectedExternal
  {
    var ret, hello := client.SendClientHello(parts);
    if ret != 1 {
      return false;
    }
    HelloCarries(client.Config(), parts, PQ_PSK);
    ParseOfEncodeExts(hello);
    OutcomeFacts(hello, server.ctx.GetFlags(), server.pskIdentitiesLen != 0, hs);
    hide MayOffer, HelloExts, Count, LastData, ParseExts, EncodeExts, HelloOutcome;
    ret := server.RecvClientHello(EncodeExts(hello), hs);
    return ret == 1;
  }

  /** After the update every entry has the chosen suite. */
  lemma SuitesAre(table: PskTable, all: seq<Psk>, suite: int)
    requires table.Valid() && table.Contents() == Some(OfSuite(all, suite))
    ensures forall i :: 0 <= i < table.count ==> table.suites[i] == suite
  {
    EncodeOfDecode(table.identities[..table.identitiesLen], table.keys[..table.keysLen],
                   table.suites[..table.count], table.kinds[..table.count]);
    OfSuiteIsSublist(all, suite);
    forall i | 0 <= i < table.count
      ensures table.suites[i] == suite
    {
      assert table.suites[i] == table.suites[..table.count][i] == Suites(OfSuite(all, suite))[i];
    }
  }

  lemma KindsOfTable(table: PskTable)
    requires table.Valid()
    ensures table.Contents().Some? ==> table.kinds[..table.count] == Kinds(table.Contents().value)
  {
    if table.Contents().Some? {
      EncodeOfDecode(table.identities[..table.identitiesLen], table.keys[..table.keysLen],
                     table.suites[..table.count], table.kinds[..table.count]);
    }
  }

  lemma SecondHelloReads(c: HelloConfig, offered: bool, p: HelloParts)
    ensures AllFit(SecondHello(c, offered, p))
    ensures ParseExts(EncodeExts(SecondHello(c, offered, p))) == Some(SecondHello(c, offered, p))
  {
    HelloCarries(c.(pqPsk := offered, earlyData := false), p, PQ_PSK);
    ParseOfEncodeExts(SecondHello(c, offered, p));
  }

  /** The client's half: the update of the PSKs and the second ClientHello. */
  method SendAgain(client: ClientConn, parts: HelloParts, hr: HiddenRetry) returns (ok: bool, hello: seq<Ext>)
    requires client.psks.Valid() && client.offered == client.ctx.pqPsk
    modifies client`earlyData, client`preSharedKey, client`keyShare, client`keyExchangeModes, client.psks.Repr
    ensures client.psks.Valid()
    ensures ok <==> ClientRetries(old(client.Config()), old(client.psks.Contents()), hr)
    ensures ok ==> old(client.psks.Contents()).Some?
    ensures ok ==> hello == SecondHello(ConfigAfter(old(client.Config()), hr), client.offered, parts)
    ensures ok ==> client.psks.Contents() == Some(OfSuite(old(client.psks.Contents()).value, hr.suite))
    ensures ok ==> client.psks.kinds[..client.psks.count] == Kinds(client.psks.Contents().value)
    ensures ok ==> client.keyExchangeModes == hr.modes.(psk := false)
    ensures ok ==> forall i :: 0 <= i < client.psks.count ==> client.psks.suites[i] == hr.suite
  {
    hide Decode, OfSuite, MayOffer, HelloExts;
    hello := [];
    var ret := client.RecvHelloRetryRequest(hr);
    if ret != 1 {
      return false, [];
    }
    SuitesAre(client.psks, old(client.psks.Contents()).value, hr.suite);
    KindsOfTable(client.psks);
    ret, hello := client.SendClientHelloAgain(parts);
    return ret == 1, hello;
  }

  /** HelloRetryRequest and the second ClientHello. */
  method Retry(client: ClientConn, server: ServerConn, parts: HelloParts, hr: HiddenRetry, ha: HiddenAgain)
    returns (ok: bool)
    requires client.psks.Valid() && client.offered == server.offered == client.ctx.pqPsk
    modifies client`earlyData, client`preSharedKey, client`keyShare, client`keyExchangeModes, client.psks.Repr
    modifies server`selectedIdentity, server`keyExchangeModes, server`helloRetryRequest
    ensures client.psks.Valid()
    ensures ok <==> RetryPasses(old(client.Config()), old(client.psks.Contents()), parts, hr, ha)
    ensures ok ==> client.psks.Contents() == Some(OfSuite(old(client.psks.Contents()).value, hr.suite))
    ensures ok ==> client.keyExchangeModes == hr.modes.(psk := false)
    ensures ok ==> client.psks.kinds[..client.psks.count] == Kinds(client.psks.Contents().value)
    ensures ok ==> server.selectedIdentity == ha.identity && server.keyExchangeModes == ha.modes
    ensures ok ==> forall i :: 0 <= i < client.psks.count ==> client.psks.suites[i] == hr.suite
  {
    hide Decode, OfSuite, MayOffer, HelloExts, AgainPasses;
    var hello;
    ok, hello := SendAgain(client, parts, hr);
    if !ok {
      return;
    }
    hide SecondHello, ClientRetries, ConfigAfter;
    ok := DeliverAgain(server, ConfigAfter(old(client.Config()), hr), client.offered, parts, hello, ha);
  }

  /** The server's half. */
  method DeliverAgain(server: ServerConn, ghost c: HelloConfig, ghost offered: bool, ghost parts: HelloParts,
                      hello: seq<Ext>, ha: HiddenAgain)
    returns (ok: bool)
    requires hello == SecondHello(c, offered, parts)
    modifies server`selectedIdentity, server`keyExchangeModes, server`helloRetryRequest
    ensures ok <==> AgainPasses(hello, server.offered, ha.rejectsExt) && !ha.rejectsRest
    ensures ok ==> server.selectedIdentity == ha.identity && server.keyExchangeModes == ha.modes
  {
    SecondHelloReads(c, offered, parts);
    hide SecondHello, AgainPasses;
    var ret := server.RecvClientHelloAgain(EncodeExts(hello), ha);
    return ret == 1;
  }

  /** ServerHello from one end to the other. */
  method Answer(client: ClientConn, server: ServerConn, versions: Nonempty, share: Nonempty, hc: HiddenClient)
    returns (ok: bool)
    requires client.psks.Valid() && !client.negotiated && !client.selectedExternal && !client.usesPsk
    modifies client
    ensures client.offered == old(client.offered)
    ensures ok <==>
              ClientAccepts(ServerHelloExts(server.keyExchangeModes, server.negotiated, server.selectedIdentity,
                                            versions, share),
                            client.offered, client.ctx.requirePqPsk, client.psks.kinds[..client.psks.count], hc)
    ensures ok ==> client.negotiated == server.negotiated
    ensures ok && client.offered ==> (client.usesPsk <==> client.negotiated)
    ensures ok ==> (client.usesPsk <==> server.selectedIdentity != 0)
    ensures ok ==>
              var keyed := server.keyExchangeModes.certDhe || server.keyExchangeModes.pskDhe;
              client.keyExchangeModes
              == Modes(keyed && !client.usesPsk, keyed && client.usesPsk, !keyed && client.usesPsk)
    ensures ok && client.ctx.requirePqPsk ==> client.negotiated
    ensures ok && client.negotiated ==>
              && client.offered && client.keyExchangeModes == PSK_DHE_ONLY && client.selectedExternal
              && 1 <= client.selectedIdentity == server.selectedIdentity <= client.psks.count
              && client.psks.kinds[client.selectedIdentity - 1] == External
  {
    var es := server.SendServerHello(versions, share);
    AnswerReads(server.keyExchangeModes, server.negotiated, server.selectedIdentity, versions, share);
    ok := Deliver(client, EncodeExts(es), es, server.negotiated, server.selectedIdentity,
                  server.keyExchangeModes.certDhe || server.keyExchangeModes.pskDhe, hc);
  }

  /** The client's end of it, in terms of what the ServerHello carries. */
  method Deliver(client: ClientConn, block: seq<byte>, ghost es: seq<Ext>, ghost negotiated: bool,
                 ghost choice: PskChoice, ghost keyed: bool, hc: HiddenClient)
    returns (ok: bool)
    requires client.psks.Valid() && !client.negotiated && !client.selectedExternal && !client.usesPsk
    requires ParseExts(block) == Some(es) && Count(es, PQ_PSK) == (if negotiated then 1 else 0)
    requires (Present(es, PRE_SHARED_KEY) <==> choice != 0) && (Present(es, KEY_SHARE) <==> keyed)
    requires choice != 0 ==> Value(Pointer(es, PRE_SHARED_KEY)) == choice - 1
    modifies client
    ensures client.offered == old(client.offered)
    ensures ok <==>
              ClientAccepts(es, client.offered, client.ctx.requirePqPsk, client.psks.kinds[..client.psks.count], hc)
    ensures ok ==> client.negotiated == negotiated
    ensures ok && client.offered ==> (client.usesPsk <==> client.negotiated)
    ensures ok ==> (client.usesPsk <==> choice != 0)
    ensures ok ==>
              client.keyExchangeModes
              == Modes(keyed && !client.usesPsk, keyed && client.usesPsk, !keyed && client.usesPsk)
    ensures ok && client.ctx.requirePqPsk ==> client.negotiated
    ensures ok && client.negotiated ==>
              && client.offered && client.keyExchangeModes == PSK_DHE_ONLY && client.selectedExternal
              && 1 <= client.selectedIdentity == choice <= client.psks.count
              && client.psks.kinds[client.selectedIdentity - 1] == External
  {
    var ret := client.RecvServerHello(block, hc);
    return ret == 1;
  }

  /** The ClientHellos: all that comes before ServerHello. */
  method Hellos(client: ClientConn, server: ServerConn, first: HelloParts, hs: HiddenServer,
                again: HelloParts, hr: HiddenRetry, ha: HiddenAgain)
    returns (ok: bool, retried: bool)
    requires client.Fresh() && client.psks.Valid() && server.Fresh()
    modifies client`offered, client`earlyData, client`preSharedKey, client`keyShare, client`keyExchangeModes
    modifies client.psks.Repr, server
    ensures client.psks.Valid()
    ensures ok ==> client.offered == server.offered == client.ctx.pqPsk
    ensures ok && server.ctx.requirePqPsk ==> server.offered && server.selectedExternal
    ensures ok && server.negotiated ==>
              server.offered && server.ctx.pqPsk && server.selectedExternal && hs.hasCertChain
    ensures ok ==>
              match old(Offer(client.Config(), client.psks.kinds[..client.psks.count], first, server.ctx.GetFlags(),
                              server.pskIdentitiesLen != 0, hs))
              case None => false
              case Some(o) =>
                && retried == o.retries && server.negotiated == o.negotiated
                && server.keyExchangeModes == (if retried then ha.modes else o.modes)
                && server.selectedIdentity == (if retried then ha.identity else o.identity)
                && (o.negotiated ==> o.modes == PSK_DHE_ONLY)
    ensures ok && retried ==> RetryPasses(old(client.Config()), old(client.psks.Contents()), again, hr, ha)
    ensures ok && retried ==> client.psks.Contents() == Some(OfSuite(old(client.psks.Contents()).value, hr.suite))
    ensures ok && retried ==> client.psks.kinds[..client.psks.count] == Kinds(client.psks.Contents().value)
    ensures ok && retried ==> forall i :: 0 <= i < client.psks.count ==> client.psks.suites[i] == hr.suite
    ensures ok && !retried ==> client.psks.Contents() == old(client.psks.Contents())
    ensures ok && !retried ==> client.psks.kinds[..client.psks.count] == old(client.psks.kinds[..client.psks.count])
    ensures ok <==>
              match old(Offer(client.Config(), client.psks.kinds[..client.psks.count], first, server.ctx.GetFlags(),
                              server.pskIdentitiesLen != 0, hs))
              case None => false
              case Some(o) =>
                o.retries ==> RetryPasses(old(client.Config()), old(client.psks.Contents()), again, hr, ha)
  {
    hide Decode, OfSuite, Offer, RetryPasses;
    ghost var before := client.psks.Contents();
    retried := false;
    ok := SendOffer(client, server, first, hs);
    assert client.psks.Contents() == before;
    if !ok {
      return;
    }
    retried := server.helloRetryRequest;
    if retried {
      ok := Retry(client, server, again, hr, ha);
    }
  }

  /** One handshake up to ServerHello, each message with contents of its own.
      Whatever the unshown code on both sides decides, a client that accepts
      agrees with the server; and the accepted runs are exactly those of
      AcceptedDirectly and AcceptedAfterRetry. */
  method Negotiate(client: ClientConn, server: ServerConn, first: HelloParts, hs: HiddenServer,
                   again: HelloParts, hr: HiddenRetry, ha: HiddenAgain,
                   versions: Nonempty, share: Nonempty, hc: HiddenClient)
    returns (accepted: bool, retried: bool)
    requires client.Fresh() && client.psks.Valid() && server.Fresh()
    modifies client, client.psks.Repr, server
    ensures client.psks.Valid()
    ensures accepted ==> client.offered == server.offered == client.ctx.pqPsk
    ensures accepted ==> client.negotiated == server.negotiated
    ensures accepted && client.offered ==> (client.usesPsk <==> client.negotiated)
    ensures accepted && client.ctx.requirePqPsk ==> client.negotiated && server.negotiated
    ensures accepted && client.negotiated ==>
              && client.offered && server.ctx.pqPsk && hs.hasCertChain
              && client.keyExchangeModes == PSK_DHE_ONLY
              && server.keyExchangeModes == (if retried then ha.modes else PSK_DHE_ONLY)
              && client.selectedExternal && server.selectedExternal
              && 1 <= client.selectedIdentity == server.selectedIdentity <= client.psks.count
              && client.psks.kinds[client.selectedIdentity - 1] == External
    ensures accepted && retried ==>
              old(client.psks.Contents()).Some?
              && client.psks.Contents() == Some(OfSuite(old(client.psks.Contents()).value, hr.suite))
    ensures accepted && retried && client.negotiated ==>
              client.selectedIdentity - 1 < client.psks.count
              && client.psks.suites[client.selectedIdentity - 1] == hr.suite
    ensures accepted && !retried ==> client.psks.Contents() == old(client.psks.Contents())
    ensures accepted && server.ctx.requirePqPsk ==> server.offered && server.selectedExternal
    ensures accepted && !retried <==>
              old(AcceptedDirectly(client.Config(), client.psks.kinds[..client.psks.count], client.ctx.requirePqPsk,
                                   first, server.ctx.GetFlags(), server.pskIdentitiesLen != 0, hs, versions, share, hc))
    ensures accepted && retried <==>
              old(AcceptedAfterRetry(client.Config(), client.psks.Contents(), client.psks.kinds[..client.psks.count],
                                     client.ctx.requirePqPsk, first, server.ctx.GetFlags(),
                                     server.pskIdentitiesLen != 0, hs, again, hr, ha, versions, share, hc))
    ensures accepted ==>
              match old(Offer(client.Config(), client.psks.kinds[..client.psks.count], first, server.ctx.GetFlags(),
                              server.pskIdentitiesLen != 0, hs))
              case None => false
              case Some(o) =>
                client.negotiated == o.negotiated
                && server.keyExchangeModes == (if retried then ha.modes else o.modes)
                && (client.usesPsk <==> (if retried then ha.identity else o.identity) != 0)
    ensures accepted ==>
              var keyed := server.keyExchangeModes.certDhe || server.keyExchangeModes.pskDhe;
              client.keyExchangeModes
              == Modes(keyed && !client.usesPsk, keyed && client.usesPsk, !keyed && client.usesPsk)
  {
    hide Decode, OfSuite, Offer, ClientAccepts, ServerHelloExts;
    accepted, retried := Hellos(client, server, first, hs, again, hr, ha);
    if accepted {
      accepted := Answer(client, server, versions, share, hc);
    }
  }

  /** A whole handshake up to the server's Finished, whose flight also arrives
      unmodified: one that completes with the PSK negotiated has sent and
      checked the server's Certificate and CertificateVerify. */
  method Handshake(client: ClientConn, server: ServerConn, first: HelloParts, hs: HiddenServer,
                   again: HelloParts, hr: HiddenRetry, ha: HiddenAgain,
                   versions: Nonempty, share: Nonempty, hc: HiddenClient,
                   requests: bool, checks: Message -> bool)
    returns (completed: bool, flight: seq<Message>)
    requires client.Fresh() && client.psks.Valid() && server.Fresh()
    modifies client, client.psks.Repr, server
    ensures completed ==> client.negotiated == server.negotiated
    ensures completed && (client.negotiated || client.keyExchangeModes == Modes(true, false, false)) ==>
              && (exists at :: 0 <= at < |flight| - 2 && flight[at] == CertificateMsg && flight[at + 1] == VerifyMsg
                            && flight[at + 2] == FinishedMsg)
              && checks(CertificateMsg) && checks(VerifyMsg)
    ensures completed && client.ctx.requirePqPsk ==> client.negotiated
    ensures (forall x :: checks(x))
            && old(AcceptedDirectly(client.Config(), client.psks.kinds[..client.psks.count], client.ctx.requirePqPsk,
                                    first, server.ctx.GetFlags(), server.pskIdentitiesLen != 0, hs, versions, share, hc)) ==>
              var o := old(Offer(client.Config(), client.psks.kinds[..client.psks.count], first, server.ctx.GetFlags(),
                                 server.pskIdentitiesLen != 0, hs).value);
              o.negotiated || (o.modes == CERT_DHE_ONLY && o.identity == 0) ==>
                completed && client.negotiated == o.negotiated
                && (!o.negotiated ==> client.keyExchangeModes == CERT_DHE_ONLY)
  {
    hide AcceptedDirectly, AcceptedAfterRetry, Offer, Flight, AcceptsFlight;
    flight := [];
    var retried;
    completed, retried := Negotiate(client, server, first, hs, again, hr, ha, versions, share, hc);
    if !completed {
      return;
    }
    flight := DoServerHandshake(requests, server.keyExchangeModes, server.negotiated);
    if forall x :: checks(x) {
      ServerFlightAccepted(requests, server.keyExchangeModes, server.negotiated, client.keyExchangeModes,
                           client.negotiated, checks);
    }
    completed := DoClientHandshake(flight, client.keyExchangeModes, client.negotiated, checks);
    if completed && (client.negotiated || client.keyExchangeModes == Modes(true, false, false)) {
      ghost var at := CertificateIsChecked(flight, client.keyExchangeModes, client.negotiated, checks);
    }
  }
}
