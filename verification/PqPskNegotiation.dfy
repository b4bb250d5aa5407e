/** Negotiation of the private TLS 1.3 extension 0xFF03 (Certificate plus
    external PSK plus (EC)DHE): the context setters, and what both ends send
    and check.

    The patch shows only parts of the functions it changes.  What the unshown
    code decides is an argument of the methods below (the Hidden records).  The
    fields `offered`, `negotiated` and `selectedExternal` are declared by the
    patch, which shows every write to them; the unshown code does not know
    them. */
module PqPskNegotiation {
  import opened Bytes
  import opened TlsExtensions
  import opened PskLists

  const SUPPORTED_GROUPS: u16 := 10
  const SIGNATURE_ALGORITHMS: u16 := 13
  const PRE_SHARED_KEY: u16 := 41
  const EARLY_DATA: u16 := 42
  const SUPPORTED_VERSIONS: u16 := 43
  const PSK_KEY_EXCHANGE_MODES: u16 := 45
  const KEY_SHARE: u16 := 51
  const PQ_PSK: u16 := 0xff03

  /** The key_exchange_modes bit mask. */
  datatype Modes = Modes(certDhe: bool, pskDhe: bool, psk: bool)

  const CERT_DHE_ONLY := Modes(true, false, false)
  const PSK_DHE_ONLY := Modes(false, true, false)
  const PSK_ONLY := Modes(false, false, true)

  // ----- the context and its setters

  datatype Flags = Flags(enabled: bool, required: bool)

  datatype SetterCall = Enable(on: bool) | Require(on: bool)

  function Apply(f: Flags, call: SetterCall): Flags {
    match call
    case Enable(on) => Flags(on, f.required && on)
    case Require(on) => Flags(f.enabled || on, on)
  }

  function ApplyAll(f: Flags, calls: seq<SetterCall>): Flags {
    if calls == [] then f else Apply(ApplyAll(f, calls[..|calls| - 1]), calls[|calls| - 1])
  }

  /** Some call of `sets` that no later call of `clears` undoes. */
  ghost predicate InForce(calls: seq<SetterCall>, sets: set<SetterCall>, clears: set<SetterCall>) {
    exists i :: 0 <= i < |calls| && calls[i] in sets && forall j :: i < j < |calls| ==> calls[j] !in clears
  }

  lemma InForceStep(calls: seq<SetterCall>, last: SetterCall, sets: set<SetterCall>, clears: set<SetterCall>)
    requires sets !! clears
    ensures InForce(calls + [last], sets, clears)
       <==> last in sets || (InForce(calls, sets, clears) && last !in clears)
  {
    var all := calls + [last];
    if last in sets {
      assert all[|calls|] in sets;
    }
    if InForce(calls, sets, clears) && last !in clears {
      var i :| 0 <= i < |calls| && calls[i] in sets && forall j :: i < j < |calls| ==> calls[j] !in clears;
      assert all[i] in sets;
      assert forall j :: i < j < |all| ==> all[j] !in clears;
    }
    if InForce(all, sets, clears) && last !in sets {
      var i :| 0 <= i < |all| && all[i] in sets && forall j :: i < j < |all| ==> all[j] !in clears;
      assert calls[i] in sets && all[|calls|] !in clears;
      assert forall j :: i < j < |calls| ==> calls[j] == all[j];
    }
  }

  /** After every sequence of setter calls on a new context, require implies
      enabled, and both flags say exactly which call is in force. */
  lemma {:induction false} FlagsOfCalls(calls: seq<SetterCall>)
    ensures var f := ApplyAll(Flags(false, false), calls);
            (f.required ==> f.enabled)
            && (f.enabled <==> InForce(calls, {Enable(true), Require(true)}, {Enable(false)}))
            && (f.required <==> InForce(calls, {Require(true)}, {Require(false), Enable(false)}))
  {
    if calls != [] {
      var front, last := calls[..|calls| - 1], calls[|calls| - 1];
      FlagsOfCalls(front);
      assert calls == front + [last];
      InForceStep(front, last, {Enable(true), Require(true)}, {Enable(false)});
      InForceStep(front, last, {Require(true)}, {Require(false), Enable(false)});
    }
  }

  class TlsCtx {
    const isTls13: bool
    const supportedGroups: nat
    const signatureAlgorithms: nat
    var pqPsk: bool
    var requirePqPsk: bool

    ghost predicate Valid()
      reads this
    {
      requirePqPsk ==> pqPsk
    }

    function GetFlags(): Flags
      reads this
    {
      Flags(pqPsk, requirePqPsk)
    }

    constructor (isTls13: bool, supportedGroups: nat, signatureAlgorithms: nat)
      ensures Valid() && GetFlags() == Flags(false, false) && this.isTls13 == isTls13
      ensures this.supportedGroups == supportedGroups && this.signatureAlgorithms == signatureAlgorithms
    {
      this.isTls13, this.supportedGroups, this.signatureAlgorithms := isTls13, supportedGroups, signatureAlgorithms;
      pqPsk, requirePqPsk := false, false;
    }

    /** tls13_ctx_enable_post_quantum_pre_shared_key. */
    method EnablePqPsk(enable: bool) returns (ret: int)
      requires Valid()
      modifies this
      ensures Valid()
      ensures ret == (if isTls13 then 1 else -1)
      ensures GetFlags() == if isTls13 then Apply(old(GetFlags()), Enable(enable)) else old(GetFlags())
    {
      if !isTls13 {
        return -1;
      }
      pqPsk := enable;
      if !enable {
        requirePqPsk := false;
      }
      return 1;
    }

    /** tls13_ctx_require_post_quantum_pre_shared_key. */
    method RequirePqPsk(require: bool) returns (ret: int)
      requires Valid()
      modifies this
      ensures Valid()
      ensures ret == (if isTls13 then 1 else -1)
      ensures GetFlags() == if isTls13 then Apply(old(GetFlags()), Require(require)) else old(GetFlags())
    {
      if !isTls13 {
        return -1;
      }
      requirePqPsk := require;
      if require {
        pqPsk := true;
      }
      return 1;
    }
  }

  // ----- what the client sends

  type Nonempty = s: seq<byte> | 1 <= |s| < 0x10000 witness [0]

  /** Extension contents that the unshown encoders produce. */
  datatype HelloParts = HelloParts(versions: Nonempty, groups: Nonempty, sigAlgs: Nonempty,
                                   keyShare: Nonempty, pskModes: Nonempty, preSharedKey: Nonempty)

  datatype HelloConfig = HelloConfig(groups: bool, sigAlgs: bool, keyShare: bool, modes: Modes,
                                     pqPsk: bool, earlyData: bool, preSharedKey: bool)

  function When(c: bool, kind: u16, data: seq<byte>): seq<Ext> {
    if c then [Ext(kind, data)] else []
  }

  /** pre_shared_key comes last (RFC 8446 section 4.2.11). */
  function HelloExts(c: HelloConfig, p: HelloParts): seq<Ext> {
    CommonExts(c, p)
    + When(c.pqPsk, PQ_PSK, [])
    + When(c.earlyData, EARLY_DATA, [])
    + When(c.preSharedKey, PRE_SHARED_KEY, p.preSharedKey)
  }

  function CommonExts(c: HelloConfig, p: HelloParts): seq<Ext> {
    [Ext(SUPPORTED_VERSIONS, p.versions)]
    + When(c.groups, SUPPORTED_GROUPS, p.groups)
    + When(c.sigAlgs, SIGNATURE_ALGORITHMS, p.sigAlgs)
    + When(c.keyShare, KEY_SHARE, p.keyShare)
    + When(c.modes.pskDhe || c.modes.psk, PSK_KEY_EXCHANGE_MODES, p.pskModes)
  }

  /** The client's own rule for offering the flag. */
  ghost predicate MayOffer(c: HelloConfig, kinds: seq<PskKind>) {
    !c.earlyData && c.preSharedKey && c.groups && c.keyShare && c.modes.pskDhe
    && kinds != [] && forall k <- kinds :: k == External
  }

  // ----- what the server demands of a ClientHello

  /** The checks on the extension list that the patch shows. */
  ghost predicate FlagWellPlaced(es: seq<Ext>) {
    && Count(es, PQ_PSK) == 1 && LastData(es, PQ_PSK) == Some([])
    && Present(es, SUPPORTED_GROUPS) && Present(es, KEY_SHARE) && Present(es, PSK_KEY_EXCHANGE_MODES)
    && Present(es, PRE_SHARED_KEY) && Present(es, SIGNATURE_ALGORITHMS)
    && es != [] && es[|es| - 1].kind == PRE_SHARED_KEY
    && Count(es, EARLY_DATA) == 0
  }

  /** 0 for no PSK, otherwise the two-byte index on the wire plus one. */
  type PskChoice = n: nat | n <= 0x10000

  datatype ExternalOutcome = Malformed | NoMatch | Selected(index: u16)

  /** What the unshown part of tls13_recv_client_hello decides. */
  datatype HiddenServer = HiddenServer(
    rejectsExt: (seq<Ext>, Ext) -> bool,   // a case of the walk, after these extensions
    rejectsList: bool,                     // missing extensions other than the flag's
    offeredModes: Option<Modes>,           // common modes after psk_key_exchange_modes
    adjustModes: Modes -> Option<Modes>,   // common modes when pre_shared_key is looked at
    external: ExternalOutcome,             // tls13_process_client_pre_shared_key_external
    otherPsk: Modes -> Option<(PskChoice, Modes)>, // the branch without the flag: 0 or index + 1, modes left
    hasCertChain: bool,
    hasGroup: bool,
    peerShareLen: nat,
    otherMode: (Modes, PskChoice) -> Option<(Modes, bool)>, // the branches below: final modes, HelloRetryRequest
    rejectsRest: bool)

  /** What the unshown part of tls13_recv_client_hello_again decides. */
  datatype HiddenAgain = HiddenAgain(
    rejectsExt: (seq<Ext>, Ext) -> bool,
    identity: PskChoice,
    modes: Modes,
    retries: bool,
    rejectsRest: bool)

  /** The walk over a second ClientHello. */
  ghost predicate AgainPasses(es: seq<Ext>, offered: bool, rejects: (seq<Ext>, Ext) -> bool) {
    forall i :: 0 <= i < |es| ==>
      !rejects(es[..i], es[i]) && (offered && es[i].kind == PRE_SHARED_KEY ==> i == |es| - 1)
  }

  ghost predicate WalkPasses(es: seq<Ext>, rejects: (seq<Ext>, Ext) -> bool) {
    && Count(es, PQ_PSK) <= 1
    && forall i :: 0 <= i < |es| ==> !rejects(es[..i], es[i]) && (es[i].kind == PQ_PSK ==> es[i].data == [])
  }

  /** The modes left when the server comes to pre_shared_key; the certificate
      mode needs supported_groups and signature_algorithms. */
  function AdjustedModes(certificates: bool, h: HiddenServer): Option<Modes> {
    if h.offeredModes.None? then None
    else h.adjustModes(if certificates then h.offeredModes.value.(certDhe := true) else h.offeredModes.value)
  }

  function ModesAtPsk(es: seq<Ext>, h: HiddenServer): Option<Modes> {
    AdjustedModes(Present(es, SUPPORTED_GROUPS) && Present(es, SIGNATURE_ALGORITHMS), h)
  }

  /** What the unshown code makes of pre_shared_key without the flag. */
  function OrdinaryPsk(m: Modes, psk: bool, h: HiddenServer): Option<(PskChoice, Modes)> {
    if psk && (m.pskDhe || m.psk) then h.otherPsk(m) else Some((0, m))
  }

  /** What the walk hands over: which pointers are not NULL, and the flags. */
  datatype HelloView = HelloView(groups: bool, sigAlgs: bool, share: bool, modes: bool, psk: bool,
                                 pskIsLast: bool, early: bool, flag: bool)

  ghost function ViewOf(es: seq<Ext>): HelloView {
    HelloView(Present(es, SUPPORTED_GROUPS), Present(es, SIGNATURE_ALGORITHMS), Present(es, KEY_SHARE),
              Present(es, PSK_KEY_EXCHANGE_MODES), Present(es, PRE_SHARED_KEY),
              es != [] && es[|es| - 1].kind == PRE_SHARED_KEY, Count(es, EARLY_DATA) != 0, Count(es, PQ_PSK) == 1)
  }

  /** The fields that tls13_recv_client_hello leaves behind. */
  datatype ServerState = ServerState(offered: bool, negotiated: bool, external: bool, identity: PskChoice,
                                     modes: Modes, retries: bool)

  /** The stages for a hello with the flag, where `m` are the modes at
      pre_shared_key. */
  ghost function FlaggedOutcome(eligible: bool, m: Modes, required: bool, hasPsks: bool, h: HiddenServer)
    : Option<ServerState>
  {
    var tried := eligible && (m.pskDhe || m.psk) && hasPsks;
    var selected := tried && h.external.Selected?;
    var choice: PskChoice := if selected then h.external.index + 1 else 0;
    if (tried && h.external.Malformed?) || (required && !selected) then None
    else if selected && m.pskDhe then
      if !h.hasCertChain || !m.certDhe || !h.hasGroup then None
      else Some(ServerState(true, true, true, choice, PSK_DHE_ONLY, h.peerShareLen == 0))
    else
      match h.otherMode(if selected then m else Modes(m.certDhe, false, false), choice)
      case None => None
      case Some((modes, retries)) => Some(ServerState(true, false, selected, choice, modes, retries))
  }

  /** The stages for a hello without it. */
  ghost function OrdinaryOutcome(m: Modes, psk: bool, h: HiddenServer): Option<ServerState> {
    match OrdinaryPsk(m, psk, h)
    case None => None
    case Some((choice, left)) =>
      match h.otherMode(left, choice)
      case None => None
      case Some((modes, retries)) => Some(ServerState(false, false, false, choice, modes, retries))
  }

  ghost function ModesOutcome(certificates: bool, psk: bool, flag: bool, flags: Flags, hasPsks: bool, h: HiddenServer)
    : Option<ServerState>
  {
    if AdjustedModes(certificates, h).None? || h.rejectsRest then None
    else if flag then
      FlaggedOutcome(h.offeredModes.value.pskDhe && flags.enabled, AdjustedModes(certificates, h).value,
                     flags.required, hasPsks, h)
    else OrdinaryOutcome(AdjustedModes(certificates, h).value, psk, h)
  }

  ghost function StagesOutcome(v: HelloView, flags: Flags, hasPsks: bool, h: HiddenServer): Option<ServerState> {
    if h.rejectsList || (flags.required && !v.flag) then None
    else if v.flag && !(v.groups && v.sigAlgs && v.share && v.modes && v.psk && v.pskIsLast && !v.early) then None
    else ModesOutcome(v.groups && v.sigAlgs, v.psk, v.flag, flags, hasPsks, h)
  }

  /** tls13_recv_client_hello on a list of extensions. */
  ghost function HelloOutcome(es: seq<Ext>, flags: Flags, hasPsks: bool, h: HiddenServer): Option<ServerState> {
    if !WalkPasses(es, h.rejectsExt) then None else StagesOutcome(ViewOf(es), flags, hasPsks, h)
  }

  /** When a server reaches the negotiated state. */
  ghost predicate ServerNegotiates(es: seq<Ext>, flags: Flags, hasPsks: bool, h: HiddenServer) {
    HelloOutcome(es, flags, hasPsks, h).Some? && HelloOutcome(es, flags, hasPsks, h).value.negotiated
  }

  /** Loop state of the server's walk as a function of what it has read. */
  ghost predicate WalkState(done: seq<Ext>, groups: seq<byte>, sigAlgs: seq<byte>, share: seq<byte>,
                            modes: seq<byte>, psk: seq<byte>)
  {
    && groups == Pointer(done, SUPPORTED_GROUPS) && sigAlgs == Pointer(done, SIGNATURE_ALGORITHMS)
    && share == Pointer(done, KEY_SHARE) && modes == Pointer(done, PSK_KEY_EXCHANGE_MODES)
    && psk == Pointer(done, PRE_SHARED_KEY)
  }

  /** The data of the last such extension; [] stands for NULL. */
  function Pointer(es: seq<Ext>, kind: u16): seq<byte> {
    if LastData(es, kind).Some? then LastData(es, kind).value else []
  }

  lemma WalkStep(done: seq<Ext>, e: Ext)
    ensures forall kind :: Pointer(done + [e], kind) == if e.kind == kind then e.data else Pointer(done, kind)
    ensures forall kind :: Count(done + [e], kind) == Count(done, kind) + (if e.kind == kind then 1 else 0)
    ensures forall kind :: LastData(done + [e], kind) == if e.kind == kind then Some(e.data) else LastData(done, kind)
  {
    assert (done + [e])[..|done|] == done;
  }

  lemma WalkStateStep(done: seq<Ext>, e: Ext, groups: seq<byte>, sigAlgs: seq<byte>, share: seq<byte>,
                      modes: seq<byte>, psk: seq<byte>)
    requires WalkState(done, groups, sigAlgs, share, modes, psk)
    ensures WalkState(done + [e],
                      if e.kind == SUPPORTED_GROUPS then e.data else groups,
                      if e.kind == SIGNATURE_ALGORITHMS then e.data else sigAlgs,
                      if e.kind == KEY_SHARE then e.data else share,
                      if e.kind == PSK_KEY_EXCHANGE_MODES then e.data else modes,
                      if e.kind == PRE_SHARED_KEY then e.data else psk)
    ensures Count(done + [e], EARLY_DATA) == Count(done, EARLY_DATA) + (if e.kind == EARLY_DATA then 1 else 0)
    ensures Count(done + [e], PQ_PSK) == Count(done, PQ_PSK) + (if e.kind == PQ_PSK then 1 else 0)
    ensures LastData(done + [e], PQ_PSK) == if e.kind == PQ_PSK then Some(e.data) else LastData(done, PQ_PSK)
  {
    WalkStep(done, e);
  }

  lemma LastOfSome(es: seq<Ext>, kind: u16)
    ensures Pointer(es, kind) != [] ==> es != []
  {
  }

  // ----- what the server's decision means, in terms of the list

  /** The last extension of this type has data. */
  ghost predicate Carries(es: seq<Ext>, kind: u16) {
    exists i :: 0 <= i < |es| && es[i].kind == kind && es[i].data != []
             && forall j :: i < j < |es| ==> es[j].kind != kind
  }

  /** There is exactly one extension of this type, and it is empty. */
  ghost predicate HasOneEmpty(es: seq<Ext>, kind: u16) {
    exists i: nat :: IsOnly(es, kind, i) && es[i].data == []
  }

  lemma {:induction false} PresentMeans(es: seq<Ext>, kind: u16)
    ensures Present(es, kind) <==> Carries(es, kind)
  {
    if es != [] {
      var front, last := es[..|es| - 1], es[|es| - 1];
      PresentMeans(front, kind);
      if last.kind == kind && last.data != [] {
        assert es[|es| - 1].kind == kind;
      }
      if last.kind != kind && Carries(front, kind) {
        var i :| 0 <= i < |front| && front[i].kind == kind && front[i].data != []
              && forall j :: i < j < |front| ==> front[j].kind != kind;
        assert es[i] == front[i] && forall j :: i < j < |front| ==> es[j] == front[j];
      }
      if Carries(es, kind) {
        var i :| 0 <= i < |es| && es[i].kind == kind && es[i].data != [] && forall j :: i < j < |es| ==> es[j].kind != kind;
        if i < |front| {
          assert front[i] == es[i] && forall j :: i < j < |front| ==> front[j] == es[j];
          assert es[|front|] == last;
        }
      }
    }
  }

  ghost predicate IsOnly(es: seq<Ext>, kind: u16, i: nat) {
    i < |es| && es[i].kind == kind && forall j :: 0 <= j < |es| && j != i ==> es[j].kind != kind
  }

  lemma {:induction false} OnlyIsCounted(es: seq<Ext>, kind: u16, i: nat)
    requires IsOnly(es, kind, i)
    ensures Count(es, kind) == 1
  {
    var front := es[..|es| - 1];
    if i < |front| {
      OnlyIsCounted(front, kind, i);
    } else {
      CountZero(front, kind);
    }
  }

  lemma {:induction false} CountedIsOnly(es: seq<Ext>, kind: u16) returns (i: nat)
    requires Count(es, kind) == 1
    ensures IsOnly(es, kind, i)
  {
    var front := es[..|es| - 1];
    if es[|es| - 1].kind == kind {
      CountZero(front, kind);
      i := |front|;
      assert forall j :: 0 <= j < |front| ==> es[j] in front;
    } else {
      i := CountedIsOnly(front, kind);
    }
  }

  lemma CountMeans(es: seq<Ext>, kind: u16)
    ensures Count(es, kind) == 0 <==> forall i :: 0 <= i < |es| ==> es[i].kind != kind
    ensures Count(es, kind) == 1 <==> exists i: nat :: IsOnly(es, kind, i)
  {
    CountZero(es, kind);
    forall i | IsOnly(es, kind, i)
      ensures Count(es, kind) == 1
    {
      OnlyIsCounted(es, kind, i);
    }
    if Count(es, kind) == 1 {
      var i := CountedIsOnly(es, kind);
    }
  }

  lemma OneEmptyMeans(es: seq<Ext>, rejects: (seq<Ext>, Ext) -> bool)
    ensures WalkPasses(es, rejects) && Count(es, PQ_PSK) == 1 <==>
              HasOneEmpty(es, PQ_PSK) && forall i :: 0 <= i < |es| ==> !rejects(es[..i], es[i])
    ensures WalkPasses(es, rejects) && Count(es, PQ_PSK) == 0 <==>
              (forall i :: 0 <= i < |es| ==> es[i].kind != PQ_PSK && !rejects(es[..i], es[i]))
  {
    hide Count, LastData;
    CountMeans(es, PQ_PSK);
    if Count(es, PQ_PSK) == 1 {
      var i: nat :| IsOnly(es, PQ_PSK, i);
    }
  }

  /** A server ends negotiated iff the list holds exactly one 0xFF03, empty, all
      companions, pre_shared_key at the end and no early data, the PSK is found
      and the modes allow PSK-DHE with a certificate. */
  lemma NegotiatedHello(es: seq<Ext>, flags: Flags, hasPsks: bool, h: HiddenServer)
    ensures HelloOutcome(es, flags, hasPsks, h).Some? && HelloOutcome(es, flags, hasPsks, h).value.negotiated
       <==> && HasOneEmpty(es, PQ_PSK) && (forall i :: 0 <= i < |es| ==> !h.rejectsExt(es[..i], es[i]))
            && Carries(es, SUPPORTED_GROUPS) && Carries(es, SIGNATURE_ALGORITHMS) && Carries(es, KEY_SHARE)
            && Carries(es, PSK_KEY_EXCHANGE_MODES) && Carries(es, PRE_SHARED_KEY)
            && es[|es| - 1].kind == PRE_SHARED_KEY && (forall i :: 0 <= i < |es| ==> es[i].kind != EARLY_DATA)
            && !h.rejectsList && !h.rejectsRest && flags.enabled && hasPsks
            && h.offeredModes.Some? && h.offeredModes.value.pskDhe
            && (match h.adjustModes(h.offeredModes.value.(certDhe := true))
                case None => false
                case Some(m) => m.pskDhe && m.certDhe)
            && h.external.Selected? && h.hasCertChain && h.hasGroup
  {
    OneEmptyMeans(es, h.rejectsExt);
    CountMeans(es, EARLY_DATA);
    PresentMeans(es, SUPPORTED_GROUPS);
    PresentMeans(es, SIGNATURE_ALGORITHMS);
    PresentMeans(es, KEY_SHARE);
    PresentMeans(es, PSK_KEY_EXCHANGE_MODES);
    PresentMeans(es, PRE_SHARED_KEY);
    hide Count, LastData, Present, Carries, WalkPasses;
  }

  /** The fields of a server that ends negotiated. */
  lemma NegotiatedState(es: seq<Ext>, flags: Flags, hasPsks: bool, h: HiddenServer)
    requires HelloOutcome(es, flags, hasPsks, h).Some? && HelloOutcome(es, flags, hasPsks, h).value.negotiated
    ensures h.external.Selected?
            && HelloOutcome(es, flags, hasPsks, h).value
               == ServerState(true, true, true, h.external.index + 1, Modes(false, true, false), h.peerShareLen == 0)
  {
  }

  /** A hello without 0xFF03 is accepted iff the server does not require the
      PSK and the unshown code takes it, and then that code alone decides PSK,
      modes and retry. */
  lemma OrdinaryHello(es: seq<Ext>, flags: Flags, hasPsks: bool, h: HiddenServer)
    requires forall i :: 0 <= i < |es| ==> es[i].kind != PQ_PSK
    ensures var outcome := HelloOutcome(es, flags, hasPsks, h);
            var certificates := Carries(es, SUPPORTED_GROUPS) && Carries(es, SIGNATURE_ALGORITHMS);
            if flags.required || h.rejectsList || h.rejectsRest || h.offeredModes.None?
               || (exists i :: 0 <= i < |es| && h.rejectsExt(es[..i], es[i]))
            then outcome.None?
            else
              match h.adjustModes(if certificates then h.offeredModes.value.(certDhe := true) else h.offeredModes.value)
              case None => outcome.None?
              case Some(m) =>
                match (if Carries(es, PRE_SHARED_KEY) && (m.pskDhe || m.psk) then h.otherPsk(m) else Some((0, m)))
                case None => outcome.None?
                case Some((choice, left)) =>
                  match h.otherMode(left, choice)
                  case None => outcome.None?
                  case Some((modes, retries)) =>
                    outcome == Some(ServerState(false, false, false, choice, modes, retries))
  {
    OneEmptyMeans(es, h.rejectsExt);
    CountMeans(es, PQ_PSK);
    PresentMeans(es, SUPPORTED_GROUPS);
    PresentMeans(es, SIGNATURE_ALGORITHMS);
    PresentMeans(es, PRE_SHARED_KEY);
    hide Count, LastData, Present, Carries, WalkPasses;
  }

  /** A hello with 0xFF03 that does not end negotiated: it still needs all
      companions in place, and goes on with the PSK only if one was selected,
      otherwise without both PSK modes. */
  lemma FlaggedHello(es: seq<Ext>, flags: Flags, hasPsks: bool, h: HiddenServer)
    requires exists i :: 0 <= i < |es| && es[i].kind == PQ_PSK
    ensures var outcome := HelloOutcome(es, flags, hasPsks, h);
            if !(HasOneEmpty(es, PQ_PSK) && (forall i :: 0 <= i < |es| ==> !h.rejectsExt(es[..i], es[i]))
                 && Carries(es, SUPPORTED_GROUPS) && Carries(es, SIGNATURE_ALGORITHMS) && Carries(es, KEY_SHARE)
                 && Carries(es, PSK_KEY_EXCHANGE_MODES) && Carries(es, PRE_SHARED_KEY)
                 && es[|es| - 1].kind == PRE_SHARED_KEY && (forall i :: 0 <= i < |es| ==> es[i].kind != EARLY_DATA)
                 && !h.rejectsList && !h.rejectsRest && h.offeredModes.Some?)
            then outcome.None?
            else
              match h.adjustModes(h.offeredModes.value.(certDhe := true))
              case None => outcome.None?
              case Some(m) =>
                var looked := flags.enabled && h.offeredModes.value.pskDhe && (m.pskDhe || m.psk) && hasPsks;
                if looked && h.external.Malformed? then outcome.None?
                else if looked && h.external.Selected? then
                  if m.pskDhe then outcome.Some? <==> h.hasCertChain && m.certDhe && h.hasGroup
                  else
                    match h.otherMode(m, h.external.index + 1)
                    case None => outcome.None?
                    case Some((modes, retries)) =>
                      outcome == Some(ServerState(true, false, true, h.external.index + 1, modes, retries))
                else if flags.required then outcome.None?
                else
                  match h.otherMode(Modes(m.certDhe, false, false), 0)
                  case None => outcome.None?
                  case Some((modes, retries)) => outcome == Some(ServerState(true, false, false, 0, modes, retries))
  {
    OneEmptyMeans(es, h.rejectsExt);
    CountMeans(es, PQ_PSK);
    CountMeans(es, EARLY_DATA);
    PresentMeans(es, SUPPORTED_GROUPS);
    PresentMeans(es, SIGNATURE_ALGORITHMS);
    PresentMeans(es, KEY_SHARE);
    PresentMeans(es, PSK_KEY_EXCHANGE_MODES);
    PresentMeans(es, PRE_SHARED_KEY);
    hide Count, LastData, Present, Carries;
  }

  class ServerConn {
    const ctx: TlsCtx
    const pskIdentitiesLen: nat
    var offered: bool
    var negotiated: bool
    var selectedExternal: bool
    var selectedIdentity: PskChoice
    var keyExchangeModes: Modes
    var helloRetryRequest: bool

    ghost predicate Fresh()
      reads this
    {
      !offered && !negotiated && !selectedExternal && selectedIdentity == 0 && !helloRetryRequest
    }

    constructor (ctx: TlsCtx, pskIdentitiesLen: nat)
      ensures Fresh() && this.ctx == ctx && this.pskIdentitiesLen == pskIdentitiesLen
    {
      this.ctx, this.pskIdentitiesLen := ctx, pskIdentitiesLen;
      offered, negotiated, selectedExternal, selectedIdentity := false, false, false, 0;
      keyExchangeModes, helloRetryRequest := CERT_DHE_ONLY, false;
    }

    /** The extension walk of tls13_recv_client_hello. */
    method WalkClientHello(block: seq<byte>, h: HiddenServer)
      returns (ok: bool, groups: seq<byte>, sigAlgs: seq<byte>, share: seq<byte>, modes: seq<byte>,
               psk: seq<byte>, pskIsLast: bool, early: bool, flag: bool)
      ensures ok <==> ParseExts(block).Some? && WalkPasses(ParseExts(block).value, h.rejectsExt)
      ensures ok ==> var es := ParseExts(block).value;
                     && WalkState(es, groups, sigAlgs, share, modes, psk)
                     && (psk != [] ==> (pskIsLast <==> es[|es| - 1].kind == PRE_SHARED_KEY))
                     && (early <==> Count(es, EARLY_DATA) != 0)
                     && (flag <==> Count(es, PQ_PSK) == 1)
                     && (flag ==> LastData(es, PQ_PSK) == Some([]))
    {
      ok, groups, sigAlgs, share, modes, psk := false, [], [], [], [], [];
      pskIsLast, early, flag := false, false, false;
      var cursor := block;
      var done: seq<Ext> := [];
      PrependNothing(ParseExts(block));
      assert WalkPasses(done, h.rejectsExt) && WalkState(done, groups, sigAlgs, share, modes, psk);
      assert Count(done, EARLY_DATA) == Count(done, PQ_PSK) == 0;
      hide Count, LastData, TakeExt, ParseExts, WalkPasses, WalkState;
      while cursor != []
        invariant ParseExts(block) == Prepend(done, ParseExts(cursor))
        invariant WalkPasses(done, h.rejectsExt)
        invariant WalkState(done, groups, sigAlgs, share, modes, psk)
        invariant psk != [] ==> done != []
        invariant psk != [] ==> (pskIsLast <==> cursor == [] && done[|done| - 1].kind == PRE_SHARED_KEY)
        invariant early <==> Count(done, EARLY_DATA) != 0
        invariant flag <==> Count(done, PQ_PSK) == 1
        invariant flag ==> LastData(done, PQ_PSK) == Some([])
        decreases |cursor|
      {
        var next := TakeExt(cursor);
        ParseStep(cursor);
        if next.None? {
          return;
        }
        var ext := next.value.0;
        cursor := next.value.1;
        PrependStep(done, ext, ParseExts(cursor));
        WalkStateStep(done, ext, groups, sigAlgs, share, modes, psk);
        if (ext.kind == PQ_PSK && (ext.data != [] || flag)) || h.rejectsExt(done, ext) {
          WalkStuck(done, ext, ParseExts(cursor), h.rejectsExt);
          return;
        }
        WalkPassesStep(done, ext, h.rejectsExt);
        if ext.kind == SUPPORTED_GROUPS {
          groups := ext.data;
        } else if ext.kind == SIGNATURE_ALGORITHMS {
          sigAlgs := ext.data;
        } else if ext.kind == KEY_SHARE {
          share := ext.data;
        } else if ext.kind == PSK_KEY_EXCHANGE_MODES {
          modes := ext.data;
        } else if ext.kind == EARLY_DATA {
          early := true;
        } else if ext.kind == PRE_SHARED_KEY {
          psk := ext.data;
          pskIsLast := cursor == [];
        } else if ext.kind == PQ_PSK {
          flag := true;
        }
        done := done + [ext];
      }
      ok := true;
      assert done + [] == done;
    }

    function State(): ServerState
      reads this
    {
      ServerState(offered, negotiated, selectedExternal, selectedIdentity, keyExchangeModes, helloRetryRequest)
    }

    /** tls13_recv_client_hello. */
    method RecvClientHello(block: seq<byte>, h: HiddenServer) returns (ret: int)
      requires Fresh()
      modifies this
      ensures ret == 1 || ret == -1
      ensures ret == 1 <==>
                ParseExts(block).Some?
                && HelloOutcome(ParseExts(block).value, ctx.GetFlags(), pskIdentitiesLen != 0, h).Some?
      ensures ret == 1 ==>
                HelloOutcome(ParseExts(block).value, ctx.GetFlags(), pskIdentitiesLen != 0, h) == Some(State())
    {
      hide Count, LastData, ParseExts;
      var ok, groups, sigAlgs, share, modes, psk, pskIsLast, early, flag := WalkClientHello(block, h);
      if !ok || h.rejectsList || (ctx.requirePqPsk && !flag) {
        return -1;
      }
      ghost var es := ParseExts(block).value;
      LastOfSome(es, PRE_SHARED_KEY);
      if flag {
        offered := true;
        if groups == [] || share == [] || modes == [] || psk == [] || sigAlgs == [] {
          return -1;
        }
        if !pskIsLast || early {
          return -1;
        }
      }
      ret := DecideClientHello(groups != [] && sigAlgs != [], psk != [], flag, h);
    }

    /** The stages after the walk. */
    method DecideClientHello(certificates: bool, psk: bool, flag: bool, h: HiddenServer) returns (ret: int)
      requires !negotiated && !selectedExternal && selectedIdentity == 0 && !helloRetryRequest && offered == flag
      requires (flag ==> psk) && (ctx.requirePqPsk ==> flag)
      modifies `selectedExternal, `selectedIdentity, `negotiated, `keyExchangeModes, `helloRetryRequest
      ensures ret == 1 || ret == -1
      ensures ret == 1 <==> ModesOutcome(certificates, psk, flag, ctx.GetFlags(), pskIdentitiesLen != 0, h).Some?
      ensures ret == 1 ==>
                ModesOutcome(certificates, psk, flag, ctx.GetFlags(), pskIdentitiesLen != 0, h) == Some(State())
    {
      if h.offeredModes.None? {
        return -1;
      }
      var common := h.offeredModes.value;
      var eligible := false;
      if flag {
        if !common.pskDhe {
          if ctx.requirePqPsk {
            return -1;
          }
        } else if ctx.pqPsk {
          eligible := true;
        }
      }
      if certificates {
        common := common.(certDhe := true);
      }
      var adjusted := h.adjustModes(common);
      if adjusted.None? {
        return -1;
      }
      var selected;
      selected, common := SelectPsk(flag, eligible, psk, adjusted.value, h);
      if !selected || (flag && ctx.requirePqPsk && !selectedExternal) {
        return -1;
      }
      ret := DecideMode(eligible, common, h);
      return if ret != 1 || h.rejectsRest then -1 else 1;
    }

    /** The pre_shared_key stage: `ok` is false on an error; a PSK that is not
        selected takes both PSK modes away. */
    method SelectPsk(flag: bool, eligible: bool, psk: bool, modes: Modes, h: HiddenServer)
      returns (ok: bool, common: Modes)
      requires !selectedExternal && selectedIdentity == 0 && (flag ==> psk)
      modifies `selectedExternal, `selectedIdentity
      ensures flag ==>
                (ok <==> !((modes.pskDhe || modes.psk) && eligible && pskIdentitiesLen != 0 && h.external.Malformed?))
      ensures ok && flag ==>
                && (selectedExternal <==>
                      eligible && (modes.pskDhe || modes.psk) && pskIdentitiesLen != 0 && h.external.Selected?)
                && selectedIdentity == (if selectedExternal then h.external.index + 1 else 0)
                && common == (if selectedExternal then modes else Modes(modes.certDhe, false, false))
      ensures !flag ==> !selectedExternal && (ok <==> OrdinaryPsk(modes, psk, h).Some?)
      ensures ok && !flag ==> Some((selectedIdentity, common)) == OrdinaryPsk(modes, psk, h)
    {
      ok, common := true, modes;
      if psk && (common.pskDhe || common.psk) {
        if flag && !eligible {
          common := Modes(common.certDhe, false, false);
        } else if flag && pskIdentitiesLen != 0 {
          if h.external.Malformed? {
            ok := false;
          } else if h.external.NoMatch? {
            common := Modes(common.certDhe, false, false);
          } else {
            selectedIdentity := h.external.index + 1;
            selectedExternal := true;
          }
        } else if flag {
          common := Modes(common.certDhe, false, false);
        } else if h.otherPsk(common).None? {
          ok := false;
        } else {
          selectedIdentity, common := h.otherPsk(common).value.0, h.otherPsk(common).value.1;
        }
      }
    }

    /** The final key exchange mode. */
    method DecideMode(eligible: bool, common: Modes, h: HiddenServer) returns (ret: int)
      requires !negotiated
      modifies `negotiated, `keyExchangeModes, `helloRetryRequest
      ensures ret == 1 || ret == -1
      ensures eligible && selectedExternal && common.pskDhe ==>
                && (ret == 1 <==> h.hasCertChain && common.certDhe && h.hasGroup)
                && (ret == 1 ==>
                      negotiated && keyExchangeModes == PSK_DHE_ONLY
                      && (helloRetryRequest <==> old(helloRetryRequest) || h.peerShareLen == 0))
      ensures !(eligible && selectedExternal && common.pskDhe) ==>
                && !negotiated && (ret == 1 <==> h.otherMode(common, selectedIdentity).Some?)
                && (ret == 1 ==> Some((keyExchangeModes, helloRetryRequest)) == h.otherMode(common, selectedIdentity))
    {
      if eligible && selectedExternal && common.pskDhe {
        if !h.hasCertChain || !common.certDhe || !h.hasGroup {
          return -1;
        }
        keyExchangeModes := PSK_DHE_ONLY;
        negotiated := true;
        if h.peerShareLen == 0 {
          helloRetryRequest := true;
        }
      } else {
        if h.otherMode(common, selectedIdentity).None? {
          return -1;
        }
        keyExchangeModes, helloRetryRequest :=
          h.otherMode(common, selectedIdentity).value.0, h.otherMode(common, selectedIdentity).value.1;
      }
      return 1;
    }

    /** tls13_recv_client_hello_again: pre_shared_key must still be last; the
        unshown code re-reads everything else and decides anew. */
    method RecvClientHelloAgain(block: seq<byte>, h: HiddenAgain) returns (ret: int)
      modifies this`selectedIdentity, this`keyExchangeModes, this`helloRetryRequest
      ensures ret == 1 || ret == -1
      ensures ret == 1 <==>
                ParseExts(block).Some? && AgainPasses(ParseExts(block).value, offered, h.rejectsExt) && !h.rejectsRest
      ensures ret == 1 <==>
                && ParseExts(block).Some? && !h.rejectsRest
                && var es := ParseExts(block).value;
                   (forall i :: 0 <= i < |es| ==> !h.rejectsExt(es[..i], es[i]))
                   && (offered ==> forall i :: 0 <= i < |es| - 1 ==> es[i].kind != PRE_SHARED_KEY)
      ensures ret == 1 ==>
                selectedIdentity == h.identity && keyExchangeModes == h.modes && helloRetryRequest == h.retries
    {
      var cursor := block;
      var done: seq<Ext> := [];
      PrependNothing(ParseExts(block));
      if ParseExts(block).Some? {
        AgainMeans(ParseExts(block).value, offered, h.rejectsExt);
      }
      hide AgainPasses, TakeExt, ParseExts;
      AgainNothing(offered, h.rejectsExt);
      while cursor != []
        invariant ParseExts(block) == Prepend(done, ParseExts(cursor))
        invariant AgainPasses(done, offered, h.rejectsExt)
        invariant offered && cursor != [] ==> forall e <- done :: e.kind != PRE_SHARED_KEY
        decreases |cursor|
      {
        var next := TakeExt(cursor);
        ParseStep(cursor);
        if next.None? {
          return -1;
        }
        var ext := next.value.0;
        cursor := next.value.1;
        PrependStep(done, ext, ParseExts(cursor));
        AgainStep(done, ext, cursor, offered, h.rejectsExt);
        if h.rejectsExt(done, ext) || (ext.kind == PRE_SHARED_KEY && offered && cursor != []) {
          return -1;
        }
        done := done + [ext];
      }
      assert done + [] == done;
      if h.rejectsRest {
        return -1;
      }
      selectedIdentity, keyExchangeModes, helloRetryRequest := h.identity, h.modes, h.retries;
      return 1;
    }

    /** tls13_send_server_hello. */
    method SendServerHello(versions: Nonempty, keyShare: Nonempty) returns (es: seq<Ext>)
      ensures es == ServerHelloExts(keyExchangeModes, negotiated, selectedIdentity, versions, keyShare)
    {
      es := [Ext(SUPPORTED_VERSIONS, versions)];
      if keyExchangeModes.certDhe || keyExchangeModes.pskDhe {
        es := es + [Ext(KEY_SHARE, keyShare)];
      }
      if negotiated {
        es := es + [Ext(PQ_PSK, [])];
      }
      if selectedIdentity != 0 {
        Widths();
        es := es + [Ext(PRE_SHARED_KEY, Put(2, selectedIdentity - 1))];
      }
    }
  }

  function ServerHelloExts(m: Modes, negotiated: bool, choice: PskChoice, versions: Nonempty, keyShare: Nonempty): seq<Ext> {
    [Ext(SUPPORTED_VERSIONS, versions)]
    + When(m.certDhe || m.pskDhe, KEY_SHARE, keyShare)
    + When(negotiated, PQ_PSK, [])
    + When(choice != 0, PRE_SHARED_KEY, IdentityBytes(choice))
  }

  function IdentityBytes(choice: PskChoice): seq<byte> {
    Widths();
    if choice == 0 then [] else Put(2, choice - 1)
  }

  lemma WalkPassesStep(done: seq<Ext>, e: Ext, rejects: (seq<Ext>, Ext) -> bool)
    requires WalkPasses(done, rejects) && !rejects(done, e)
    requires e.kind == PQ_PSK ==> e.data == [] && Count(done, PQ_PSK) == 0
    ensures WalkPasses(done + [e], rejects)
  {
    var all := done + [e];
    WalkStep(done, e);
    forall i | 0 <= i < |all|
      ensures !rejects(all[..i], all[i]) && (all[i].kind == PQ_PSK ==> all[i].data == [])
    {
      assert i < |done| ==> all[..i] == done[..i];
      assert i == |done| ==> all[..i] == done;
    }
  }

  lemma AgainMeans(es: seq<Ext>, offered: bool, rejects: (seq<Ext>, Ext) -> bool)
    ensures AgainPasses(es, offered, rejects)
       <==> (forall i :: 0 <= i < |es| ==> !rejects(es[..i], es[i]))
            && (offered ==> forall i :: 0 <= i < |es| - 1 ==> es[i].kind != PRE_SHARED_KEY)
  {
  }

  lemma AgainNothing(offered: bool, rejects: (seq<Ext>, Ext) -> bool)
    ensures AgainPasses([], offered, rejects)
  {
  }

  lemma AgainStep(done: seq<Ext>, e: Ext, cursor: seq<byte>, offered: bool, rejects: (seq<Ext>, Ext) -> bool)
    ensures rejects(done, e) || (offered && e.kind == PRE_SHARED_KEY && cursor != []) ==>
              match ParseExts(cursor)
              case None => true
              case Some(tail) => !AgainPasses(done + [e] + tail, offered, rejects)
    ensures !rejects(done, e) && AgainPasses(done, offered, rejects)
            && (offered ==> forall x <- done :: x.kind != PRE_SHARED_KEY) ==>
              AgainPasses(done + [e], offered, rejects)
  {
    var more := done + [e];
    forall i | 0 <= i < |done|
      ensures more[..i] == done[..i] && more[i] == done[i] && more[i] in done
    {
    }
    assert more[..|done|] == done && more[|done|] == e;
    if ParseExts(cursor).Some? {
      var all := more + ParseExts(cursor).value;
      assert all[..|done|] == done && all[|done|] == e;
      assert cursor != [] ==> |all| > |more|;
    }
  }

  lemma WalkStuck(done: seq<Ext>, e: Ext, tail: Option<seq<Ext>>, rejects: (seq<Ext>, Ext) -> bool)
    requires rejects(done, e) || (e.kind == PQ_PSK && (e.data != [] || Count(done, PQ_PSK) == 1))
    ensures tail.Some? ==> !WalkPasses(done + [e] + tail.value, rejects)
  {
    if tail.Some? {
      var all := done + [e] + tail.value;
      WalkStep(done, e);
      CountConcat(done + [e], tail.value, PQ_PSK);
      assert all[..|done|] == done && all[|done|] == e;
    }
  }

  // ----- the client

  /** What the unshown part of tls13_recv_server_hello decides. */
  datatype HiddenClient = HiddenClient(
    rejectsExt: (seq<Ext>, Ext) -> bool,
    rejectsList: bool,                     // no supported_versions, and the like
    rejectsMode: Modes -> bool,            // a mode that the client did not offer, a bad key_share
    rejectsIdentity: nat -> bool,          // looking up the selected PSK
    rejectsRest: bool)

  /** The key exchange mode that ServerHello stands for (RFC 8446 section 4.1.3). */
  function ServerMode(share: bool, psk: bool): Option<Modes> {
    if share && psk then Some(PSK_DHE_ONLY)
    else if share then Some(CERT_DHE_ONLY)
    else if psk then Some(PSK_ONLY)
    else None
  }

  ghost predicate KnownToClient(kind: u16) {
    kind in {SUPPORTED_VERSIONS, KEY_SHARE, PRE_SHARED_KEY, PQ_PSK}
  }

  /** When a client accepts a ServerHello. */
  ghost predicate ClientAccepts(es: seq<Ext>, offered: bool, required: bool, kinds: seq<PskKind>, h: HiddenClient) {
    && WalkPasses(es, h.rejectsExt) && (forall e <- es :: KnownToClient(e.kind)) && !h.rejectsList
    && SelectionAccepted(Count(es, PQ_PSK) == 1, Present(es, KEY_SHARE), Pointer(es, PRE_SHARED_KEY),
                         offered, required, kinds, h)
  }

  /** The flag, key_share and pre_shared_key taken together; [] is an absent
      pre_shared_key. */
  ghost predicate SelectionAccepted(flag: bool, share: bool, psk: seq<byte>, offered: bool, required: bool,
                                    kinds: seq<PskKind>, h: HiddenClient)
  {
    && (flag ==> offered && share && psk != [])
    && (offered && psk != [] ==> flag)
    && (required ==> flag)
    && ServerMode(share, psk != []).Some? && !h.rejectsMode(ServerMode(share, psk != []).value)
    && (psk != [] ==> IdentityOk(psk, flag, kinds, h))
    && !h.rejectsRest
  }

  /** A client accepts a ServerHello iff its extensions are known ones that the
      unshown code takes, at most one of them an empty flag, and flag, key_share
      and pre_shared_key fit what it offered and requires. */
  lemma AcceptedServerHello(es: seq<Ext>, offered: bool, required: bool, kinds: seq<PskKind>, h: HiddenClient)
    ensures var flag, share, psk := HasOneEmpty(es, PQ_PSK), Carries(es, KEY_SHARE), Carries(es, PRE_SHARED_KEY);
            ClientAccepts(es, offered, required, kinds, h)
            <==>
            && (forall i :: 0 <= i < |es| ==>
                  !h.rejectsExt(es[..i], es[i]) && es[i].kind in {SUPPORTED_VERSIONS, KEY_SHARE, PRE_SHARED_KEY, PQ_PSK})
            && (flag || forall i :: 0 <= i < |es| ==> es[i].kind != PQ_PSK)
            && !h.rejectsList && !h.rejectsRest
            && (flag ==> offered && share && psk) && (offered && psk ==> flag) && (required ==> flag)
            && (share || psk) && !h.rejectsMode(Modes(share && !psk, share && psk, !share && psk))
            && (psk ==>
                  var data := Pointer(es, PRE_SHARED_KEY);
                  |data| == 2 && !h.rejectsIdentity(data[0] as int * 256 + data[1] as int)
                  && (flag ==> data[0] as int * 256 + data[1] as int < |kinds| && kinds[data[0] as int * 256 + data[1] as int] == External))
  {
    OneEmptyMeans(es, h.rejectsExt);
    CountMeans(es, PQ_PSK);
    PresentMeans(es, KEY_SHARE);
    PresentMeans(es, PRE_SHARED_KEY);
    ValueOfTwo(Pointer(es, PRE_SHARED_KEY));
    KnownInOrder(es);
    hide Count, LastData, Carries, HasOneEmpty, Value;
  }

  lemma KnownInOrder(es: seq<Ext>)
    ensures (forall e <- es :: KnownToClient(e.kind)) <==> forall i :: 0 <= i < |es| ==> KnownToClient(es[i].kind)
  {
    assert forall i :: 0 <= i < |es| ==> es[i] in es;
  }

  lemma ValueOfTwo(data: seq<byte>)
    ensures |data| == 2 ==> Value(data) == data[0] as int * 256 + data[1] as int
  {
    if |data| == 2 {
      assert data[..1][..0] == [] && Value(data[..1]) == data[0];
    }
  }

  ghost predicate IdentityOk(data: seq<byte>, flag: bool, kinds: seq<PskKind>, h: HiddenClient) {
    |data| == 2 && !h.rejectsIdentity(Value(data))
    && (flag ==> Value(data) < |kinds| && kinds[Value(data)] == External)
  }

  method AddWhen(es: seq<Ext>, c: bool, kind: u16, data: seq<byte>) returns (r: seq<Ext>)
    ensures r == es + When(c, kind, data)
  {
    r := es;
    if c {
      r := r + [Ext(kind, data)];
    }
  }

  /** The extensions of a ClientHello, one after the other. */
  method WriteHello(c: HelloConfig, p: HelloParts) returns (es: seq<Ext>)
    ensures es == HelloExts(c, p)
  {
    hide When;
    es := [Ext(SUPPORTED_VERSIONS, p.versions)];
    es := AddWhen(es, c.groups, SUPPORTED_GROUPS, p.groups);
    es := AddWhen(es, c.sigAlgs, SIGNATURE_ALGORITHMS, p.sigAlgs);
    es := AddWhen(es, c.keyShare, KEY_SHARE, p.keyShare);
    es := AddWhen(es, c.modes.pskDhe || c.modes.psk, PSK_KEY_EXCHANGE_MODES, p.pskModes);
    es := AddWhen(es, c.pqPsk, PQ_PSK, []);
    es := AddWhen(es, c.earlyData, EARLY_DATA, []);
    es := AddWhen(es, c.preSharedKey, PRE_SHARED_KEY, p.preSharedKey);
  }

  /** What a HelloRetryRequest says, and what the unshown code that receives it
      makes of the connection. */
  datatype HiddenRetry = HiddenRetry(
    suite: int,
    modes: Modes,
    earlyData: bool,
    preSharedKey: bool,
    keyShare: bool,
    rejects: bool)

  class ClientConn {
    const ctx: TlsCtx
    const psks: PskTable
    var earlyData: bool
    var preSharedKey: bool
    var keyShare: bool
    var keyExchangeModes: Modes
    var offered: bool
    var negotiated: bool
    var selectedExternal: bool
    var selectedIdentity: nat
    var usesPsk: bool

    ghost predicate Fresh()
      reads this
    {
      !offered && !negotiated && !selectedExternal && selectedIdentity == 0 && !usesPsk
    }

    function Config(): HelloConfig
      reads this, ctx
    {
      HelloConfig(ctx.supportedGroups != 0, ctx.signatureAlgorithms != 0, keyShare, keyExchangeModes,
                  ctx.pqPsk, earlyData, preSharedKey)
    }

    constructor (ctx: TlsCtx, psks: PskTable, modes: Modes, earlyData: bool, preSharedKey: bool, keyShare: bool)
      ensures Fresh() && this.ctx == ctx && this.psks == psks && keyExchangeModes == modes
      ensures this.earlyData == earlyData && this.preSharedKey == preSharedKey && this.keyShare == keyShare
    {
      this.ctx, this.psks, keyExchangeModes := ctx, psks, modes;
      this.earlyData, this.preSharedKey, this.keyShare := earlyData, preSharedKey, keyShare;
      offered, negotiated, selectedExternal, selectedIdentity, usesPsk := false, false, false, 0, false;
    }

    /** tls13_post_quantum_psk_client_config_check. */
    method CheckConfig() returns (ret: int)
      requires psks.Valid()
      ensures ret == 1 || ret == -1
      ensures ret == 1 <==> !ctx.pqPsk || MayOffer(Config(), psks.kinds[..psks.count])
      ensures ret == 1 <==>
                || !ctx.pqPsk
                || (&& !earlyData && preSharedKey && ctx.supportedGroups != 0 && keyShare && keyExchangeModes.pskDhe
                    && psks.count != 0 && forall i :: 0 <= i < psks.count ==> psks.kinds[i] == External)
    {
      if !ctx.pqPsk {
        return 1;
      }
      if earlyData || !preSharedKey || ctx.supportedGroups == 0 || !keyShare
         || !keyExchangeModes.pskDhe || psks.count == 0 {
        return -1;
      }
      for i := 0 to psks.count
        invariant forall k :: 0 <= k < i ==> psks.kinds[k] == External
      {
        if psks.kinds[i] != External {
          assert psks.kinds[..psks.count][i] in psks.kinds[..psks.count];
          return -1;
        }
      }
      return 1;
    }

    /** tls13_send_client_hello. */
    method SendClientHello(parts: HelloParts) returns (ret: int, es: seq<Ext>)
      requires psks.Valid() && Fresh()
      modifies this`offered
      ensures ret == 1 || ret == -1
      ensures ret == 1 <==> !ctx.pqPsk || MayOffer(Config(), psks.kinds[..psks.count])
      ensures ret == 1 ==> es == HelloExts(Config(), parts) && offered == ctx.pqPsk
    {
      es := [];
      ret := CheckConfig();
      if ret != 1 {
        return;
      }
      es := WriteHello(Config(), parts);
      if ctx.pqPsk {
        offered := true;
      }
    }

    /** tls13_recv_hello_retry_request and the update of the PSK lists. */
    method RecvHelloRetryRequest(h: HiddenRetry) returns (ret: int)
      requires psks.Valid()
      modifies this`earlyData, this`preSharedKey, this`keyShare, this`keyExchangeModes, psks.Repr
      ensures psks.Valid()
      ensures ret == (if h.rejects || old(psks.Contents()).None? then -1 else 1)
      ensures ret == 1 ==> psks.Contents() == Some(OfSuite(old(psks.Contents()).value, h.suite))
      ensures ret == 1 ==> Config() == old(Config()).(modes := h.modes, earlyData := h.earlyData,
                                                      preSharedKey := h.preSharedKey, keyShare := h.keyShare)
    {
      hide Decode, OfSuite;
      if h.rejects {
        return -1;
      }
      ret := psks.KeepSuite(h.suite);
      if ret == 1 {
        keyExchangeModes, earlyData, preSharedKey, keyShare := h.modes, h.earlyData, h.preSharedKey, h.keyShare;
      }
    }

    /** tls13_send_client_hello_again: repeats the flag, drops early data and
        afterwards the PSK-only mode. */
    method SendClientHelloAgain(parts: HelloParts) returns (ret: int, es: seq<Ext>)
      requires psks.Valid()
      modifies this`keyExchangeModes
      ensures ret == 1 || ret == -1
      ensures ret == 1 <==> !ctx.pqPsk || (offered && MayOffer(old(Config()), psks.kinds[..psks.count]))
      ensures ret == 1 ==> es == HelloExts(old(Config()).(pqPsk := offered, earlyData := false), parts)
      ensures keyExchangeModes == if ret == 1 then old(keyExchangeModes).(psk := false) else old(keyExchangeModes)
    {
      es := [];
      ret := CheckConfig();
      if ret != 1 {
        return;
      }
      if ctx.pqPsk && !offered {
        ret := -1;
        return;
      }
      es := WriteHello(Config().(pqPsk := offered, earlyData := false), parts);
      keyExchangeModes := keyExchangeModes.(psk := false);
    }

    /** The extension walk of tls13_recv_server_hello. */
    method WalkServerHello(block: seq<byte>, h: HiddenClient)
      returns (ok: bool, share: seq<byte>, psk: seq<byte>, flag: bool)
      ensures ok <==> ParseExts(block).Some?
                      && var es := ParseExts(block).value;
                         WalkPasses(es, h.rejectsExt) && (forall e <- es :: KnownToClient(e.kind))
                         && (Count(es, PQ_PSK) == 1 ==> offered)
      ensures ok ==> share == Pointer(ParseExts(block).value, KEY_SHARE)
      ensures ok ==> psk == Pointer(ParseExts(block).value, PRE_SHARED_KEY)
      ensures ok ==> (flag <==> Count(ParseExts(block).value, PQ_PSK) == 1)
    {
      ok, share, psk, flag := false, [], [], false;
      var cursor := block;
      var done: seq<Ext> := [];
      PrependNothing(ParseExts(block));
      while cursor != []
        invariant ParseExts(block) == Prepend(done, ParseExts(cursor))
        invariant WalkPasses(done, h.rejectsExt) && forall e <- done :: KnownToClient(e.kind)
        invariant share == Pointer(done, KEY_SHARE) && psk == Pointer(done, PRE_SHARED_KEY)
        invariant flag <==> Count(done, PQ_PSK) == 1
        invariant flag ==> offered
        decreases |cursor|
      {
        var next := TakeExt(cursor);
        ParseStep(cursor);
        if next.None? {
          return;
        }
        var ext := next.value.0;
        cursor := next.value.1;
        PrependStep(done, ext, ParseExts(cursor));
        WalkStep(done, ext);
        if (ext.kind == PQ_PSK && (ext.data != [] || flag)) || h.rejectsExt(done, ext) {
          WalkStuck(done, ext, ParseExts(cursor), h.rejectsExt);
          return;
        }
        if ext.kind == PQ_PSK && !offered {
          UnknownOrUnoffered(done, ext, ParseExts(cursor), h.rejectsExt);
          return;
        }
        if ext.kind == KEY_SHARE {
          share := ext.data;
        } else if ext.kind == PRE_SHARED_KEY {
          psk := ext.data;
        } else if ext.kind == PQ_PSK {
          flag := true;
        } else if ext.kind != SUPPORTED_VERSIONS {
          UnknownOrUnoffered(done, ext, ParseExts(cursor), h.rejectsExt);
          return;
        }
        WalkPassesStep(done, ext, h.rejectsExt);
        done := done + [ext];
      }
      ok := true;
      assert done + [] == done;
    }

    /** tls13_recv_server_hello. */
    method RecvServerHello(block: seq<byte>, h: HiddenClient) returns (ret: int)
      requires psks.Valid() && !negotiated && !selectedExternal && !usesPsk
      modifies this
      ensures ret == 1 || ret == -1
      ensures offered == old(offered)
      ensures ret == 1 <==> ParseExts(block).Some?
                            && ClientAccepts(ParseExts(block).value, offered, ctx.requirePqPsk,
                                             psks.kinds[..psks.count], h)
      ensures ret == 1 ==> (negotiated <==> Count(ParseExts(block).value, PQ_PSK) == 1)
      ensures ret == 1 ==> (usesPsk <==> Present(ParseExts(block).value, PRE_SHARED_KEY))
      ensures ret == 1 ==>
                var share := Present(ParseExts(block).value, KEY_SHARE);
                (share || usesPsk) && keyExchangeModes == Modes(share && !usesPsk, share && usesPsk, !share && usesPsk)
      ensures ret == 1 && negotiated ==>
                keyExchangeModes == PSK_DHE_ONLY && selectedExternal && 1 <= selectedIdentity <= psks.count
                && psks.kinds[selectedIdentity - 1] == External
                && Value(Pointer(ParseExts(block).value, PRE_SHARED_KEY)) == selectedIdentity - 1
    {
      var ok, share, psk, flag := WalkServerHello(block, h);
      if !ok || h.rejectsList {
        return -1;
      }
      ret := DecideServerHello(share, psk, flag, h);
    }

    /** The checks that follow the walk. */
    method DecideServerHello(share: seq<byte>, psk: seq<byte>, flag: bool, h: HiddenClient) returns (ret: int)
      requires psks.Valid() && !negotiated && !selectedExternal && !usesPsk && (flag ==> offered)
      modifies this`keyExchangeModes, this`negotiated, this`selectedExternal, this`selectedIdentity, this`usesPsk
      ensures ret == 1 || ret == -1
      ensures ret == 1 <==> SelectionAccepted(flag, share != [], psk, offered, ctx.requirePqPsk,
                                              psks.kinds[..psks.count], h)
      ensures ret == 1 ==> negotiated == flag && usesPsk == (psk != [])
      ensures ret == 1 ==>
                (share != [] || usesPsk)
                && keyExchangeModes == Modes(share != [] && !usesPsk, share != [] && usesPsk, share == [] && usesPsk)
      ensures ret == 1 && negotiated ==>
                keyExchangeModes == PSK_DHE_ONLY && selectedExternal && 1 <= selectedIdentity <= psks.count
                && psks.kinds[selectedIdentity - 1] == External && Value(psk) == selectedIdentity - 1
    {
      if flag && (share == [] || psk == []) {
        return -1;
      }
      if offered && psk != [] && !flag {
        return -1;
      }
      if ctx.requirePqPsk && !flag {
        return -1;
      }
      var mode := ServerMode(share != [], psk != []);
      if mode.None? || h.rejectsMode(mode.value) {
        return -1;
      }
      keyExchangeModes := mode.value;
      if psk != [] {
        if |psk| != 2 || h.rejectsIdentity(Value(psk)) {
          return -1;
        }
        var selected := Value(psk);
        if flag {
          if selected >= psks.count || psks.kinds[selected] != External {
            return -1;
          }
          selectedExternal := true;
          selectedIdentity := selected + 1;
        }
        usesPsk := true;
      }
      if flag {
        if mode.value != PSK_DHE_ONLY || !selectedExternal {
          return -1;
        }
        negotiated := true;
      }
      return if h.rejectsRest then -1 else 1;
    }
  }

  lemma UnknownOrUnoffered(done: seq<Ext>, e: Ext, tail: Option<seq<Ext>>, rejects: (seq<Ext>, Ext) -> bool)
    ensures tail.Some? && e.kind == PQ_PSK && WalkPasses(done + [e] + tail.value, rejects) ==>
              Count(done + [e] + tail.value, PQ_PSK) == 1
    ensures tail.Some? && !KnownToClient(e.kind) ==>
              exists x <- done + [e] + tail.value :: !KnownToClient(x.kind)
  {
    if tail.Some? {
      var all := done + [e] + tail.value;
      WalkStep(done, e);
      CountConcat(done + [e], tail.value, PQ_PSK);
      assert all[|done|] == e;
      assert e in all;
    }
  }
}
