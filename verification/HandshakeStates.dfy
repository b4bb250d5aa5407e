/** The handshake states from EncryptedExtensions to the server's Finished, on
    both sides, with the transitions that depend on 0xFF03. */
module HandshakeStates {
  import opened PqPskNegotiation

  datatype State = EncryptedExtensions | CertificateRequest | ServerCertificate
                 | CertificateVerify | ServerFinished | AfterServerFinished

  datatype Message = ExtensionsMsg | RequestMsg | CertificateMsg | VerifyMsg | FinishedMsg

  /** Whether the server authenticates with a certificate. */
  predicate NeedsCertificate(m: Modes, negotiated: bool) {
    m == CERT_DHE_ONLY || negotiated
  }

  function AfterRequest(m: Modes, negotiated: bool): State {
    if m == CERT_DHE_ONLY || negotiated then ServerCertificate else ServerFinished
  }

  function ServerNext(s: State, requests: bool, m: Modes, negotiated: bool): State {
    match s
    case EncryptedExtensions => if requests then CertificateRequest else AfterRequest(m, negotiated)
    case CertificateRequest => AfterRequest(m, negotiated)
    case ServerCertificate => CertificateVerify
    case CertificateVerify => ServerFinished
    case ServerFinished => AfterServerFinished
    case AfterServerFinished => AfterServerFinished
  }

  /** The client always looks for an optional CertificateRequest. */
  function ClientNext(s: State, m: Modes, negotiated: bool): State {
    match s
    case EncryptedExtensions => CertificateRequest
    case CertificateRequest => AfterRequest(m, negotiated)
    case ServerCertificate => CertificateVerify
    case CertificateVerify => ServerFinished
    case ServerFinished => AfterServerFinished
    case AfterServerFinished => AfterServerFinished
  }

  predicate MayFollow(s: State, t: State, m: Modes, negotiated: bool) {
    || t == ClientNext(s, m, negotiated)
    || t == ServerNext(s, true, m, negotiated)
    || t == ServerNext(s, false, m, negotiated)
  }

  /** A sequence of states in which every step is one that the client or the
      server may take. */
  ghost predicate IsPath(path: seq<State>, m: Modes, negotiated: bool) {
    forall i :: 0 <= i < |path| - 1 ==> MayFollow(path[i], path[i + 1], m, negotiated)
  }

  /** Every path from EncryptedExtensions or CertificateRequest to the server's
      Finished goes through the server's Certificate iff it is needed, so with
      the PSK negotiated none goes around it. */
  lemma {:induction false} PathsMeetCertificate(path: seq<State>, m: Modes, negotiated: bool)
    requires IsPath(path, m, negotiated) && path != []
    requires path[0] in {EncryptedExtensions, CertificateRequest} && path[|path| - 1] == ServerFinished
    ensures ServerCertificate in path && CertificateVerify in path <==> m == Modes(true, false, false) || negotiated
    ensures m == Modes(true, false, false) || negotiated || ServerCertificate !in path
  {
    assert |path| > 1;
    assert path == [path[0]] + path[1..];
    if path[1] in {EncryptedExtensions, CertificateRequest} {
      assert IsPath(path[1..], m, negotiated);
      PathsMeetCertificate(path[1..], m, negotiated);
    } else if path[1] == ServerCertificate {
      assert |path| > 3 && path[2] == CertificateVerify;
    } else {
      FinishedIsLate(path[1..], m, negotiated);
    }
  }

  lemma {:induction false} FinishedIsLate(path: seq<State>, m: Modes, negotiated: bool)
    requires IsPath(path, m, negotiated) && path != []
    requires path[0] in {ServerFinished, AfterServerFinished}
    ensures forall s <- path :: s in {ServerFinished, AfterServerFinished}
  {
    if |path| > 1 {
      assert path == [path[0]] + path[1..];
      assert IsPath(path[1..], m, negotiated);
      FinishedIsLate(path[1..], m, negotiated);
    }
  }

  // ----- the messages of a flight

  function Flight(requests: bool, certificate: bool): seq<Message> {
    [ExtensionsMsg]
    + (if requests then [RequestMsg] else [])
    + (if certificate then [CertificateMsg, VerifyMsg] else [])
    + [FinishedMsg]
  }

  /** The part of a flight that comes before a state. */
  ghost function FlightBefore(s: State, requests: bool, certificate: bool): seq<Message> {
    var opening := [ExtensionsMsg] + (if requests then [RequestMsg] else []);
    match s
    case EncryptedExtensions => []
    case CertificateRequest => [ExtensionsMsg]
    case ServerCertificate => opening
    case CertificateVerify => opening + [CertificateMsg]
    case ServerFinished => opening + (if certificate then [CertificateMsg, VerifyMsg] else [])
    case AfterServerFinished => Flight(requests, certificate)
  }

  function Rank(s: State): nat {
    match s
    case EncryptedExtensions => 5
    case CertificateRequest => 4
    case ServerCertificate => 3
    case CertificateVerify => 2
    case ServerFinished => 1
    case AfterServerFinished => 0
  }

  /** tls13_do_server_handshake from EncryptedExtensions on. */
  method DoServerHandshake(requests: bool, m: Modes, negotiated: bool) returns (sent: seq<Message>)
    ensures sent == Flight(requests, NeedsCertificate(m, negotiated))
    ensures sent == [ExtensionsMsg] + (if requests then [RequestMsg] else [])
                    + (if m == Modes(true, false, false) || negotiated then [CertificateMsg, VerifyMsg] else [])
                    + [FinishedMsg]
  {
    var state := EncryptedExtensions;
    sent := [];
    while state != AfterServerFinished
      invariant sent == FlightBefore(state, requests, NeedsCertificate(m, negotiated))
      invariant state == CertificateRequest ==> requests
      invariant state in {ServerCertificate, CertificateVerify} ==> NeedsCertificate(m, negotiated)
      decreases Rank(state)
    {
      match state {
        case EncryptedExtensions => sent := sent + [ExtensionsMsg];
        case CertificateRequest => sent := sent + [RequestMsg];
        case ServerCertificate => sent := sent + [CertificateMsg];
        case CertificateVerify => sent := sent + [VerifyMsg];
        case ServerFinished => sent := sent + [FinishedMsg];
      }
      state := ServerNext(state, requests, m, negotiated);
    }
  }

  ghost predicate AllPass(msgs: seq<Message>, checks: Message -> bool) {
    forall x <- msgs :: checks(x)
  }

  ghost predicate IsFlight(msgs: seq<Message>, requests: bool, certificate: bool, checks: Message -> bool) {
    Flight(requests, certificate) <= msgs && AllPass(Flight(requests, certificate), checks)
  }

  /** What a client accepts: some flight with a certificate iff it needs one. */
  ghost predicate AcceptsFlight(msgs: seq<Message>, m: Modes, negotiated: bool, checks: Message -> bool) {
    IsFlight(msgs, true, NeedsCertificate(m, negotiated), checks)
    || IsFlight(msgs, false, NeedsCertificate(m, negotiated), checks)
  }

  /** tls13_do_client_handshake up to the server's Finished.  A message that is
      not the expected one is an error, except that CertificateRequest may be
      absent; `checks` is what the receive functions make of the content. */
  method DoClientHandshake(msgs: seq<Message>, m: Modes, negotiated: bool, checks: Message -> bool) returns (ok: bool)
    ensures ok <==> AcceptsFlight(msgs, m, negotiated, checks)
    ensures ok <==>
              var flight := [ExtensionsMsg] + (if |msgs| > 1 && msgs[1] == RequestMsg then [RequestMsg] else [])
                            + (if m == Modes(true, false, false) || negotiated then [CertificateMsg, VerifyMsg] else [])
                            + [FinishedMsg];
              flight <= msgs && forall x <- flight :: checks(x)
  {
    var state := EncryptedExtensions;
    var i := 0;
    ghost var needs := NeedsCertificate(m, negotiated);
    ghost var requests := |msgs| > 1 && msgs[1] == RequestMsg;
    SecondDecides(msgs, m, negotiated, checks);
    hide AcceptsFlight, Flight, FlightBefore, ClientNext, NeedsCertificate, Expected, AllPass;
    NothingYet(requests, needs, checks);
    while state != AfterServerFinished
      invariant 0 <= i <= |msgs|
      invariant msgs[..i] == FlightBefore(state, requests, needs)
      invariant AllPass(msgs[..i], checks)
      invariant state in {ServerCertificate, CertificateVerify} ==> needs
      invariant state == CertificateRequest ==> i == 1
      decreases Rank(state)
    {
      ClientStep(state, requests, m, negotiated);
      if i == |msgs| && state != CertificateRequest {
        return false;
      }
      var optional := state == CertificateRequest && (i == |msgs| || msgs[i] != RequestMsg);
      if !optional {
        if msgs[i] != Expected(state) || !checks(msgs[i]) {
          Refused(msgs, i, requests, needs, state, checks);
          return false;
        }
        OnePasses(msgs, i, checks);
        i := i + 1;
      }
      state := ClientNext(state, m, negotiated);
    }
    ok := true;
    assert msgs[..i] <= msgs;
  }

  lemma NothingYet(requests: bool, needs: bool, checks: Message -> bool)
    ensures FlightBefore(EncryptedExtensions, requests, needs) == [] && AllPass([], checks)
    ensures FlightBefore(AfterServerFinished, requests, needs) == Flight(requests, needs)
  {
  }

  /** Where the client goes, in terms of the flight that it is to receive. */
  lemma ClientStep(s: State, requests: bool, m: Modes, negotiated: bool)
    requires s != AfterServerFinished
    requires s in {ServerCertificate, CertificateVerify} ==> NeedsCertificate(m, negotiated)
    ensures var needs, next := NeedsCertificate(m, negotiated), ClientNext(s, m, negotiated);
            && Rank(next) < Rank(s) && (next in {ServerCertificate, CertificateVerify} ==> needs)
            && (next == CertificateRequest <==> s == EncryptedExtensions)
            && (if s == CertificateRequest && !requests then
                  FlightBefore(next, requests, needs) == FlightBefore(s, requests, needs)
                else
                  FlightBefore(next, requests, needs) == FlightBefore(s, requests, needs) + [Expected(s)]
                  && FlightBefore(next, requests, needs) <= Flight(requests, needs))
    ensures Expected(CertificateRequest) == RequestMsg
    ensures s == EncryptedExtensions ==> FlightBefore(s, requests, NeedsCertificate(m, negotiated)) == []
  {
  }

  lemma OnePasses(msgs: seq<Message>, i: nat, checks: Message -> bool)
    requires i < |msgs|
    ensures msgs[..i + 1] == msgs[..i] + [msgs[i]]
    ensures AllPass(msgs[..i], checks) && checks(msgs[i]) ==> AllPass(msgs[..i + 1], checks)
  {
  }

  /** A message that is not the one of the flight, or fails its checks. */
  lemma Refused(msgs: seq<Message>, i: nat, requests: bool, needs: bool, s: State, checks: Message -> bool)
    requires i < |msgs| && msgs[..i] + [Expected(s)] <= Flight(requests, needs)
    requires msgs[i] != Expected(s) || !checks(msgs[i])
    ensures !IsFlight(msgs, requests, needs, checks)
  {
    hide Flight;
    var flight := Flight(requests, needs);
    assert flight[i] == Expected(s) && flight[i] in flight;
  }

  /** The second message tells which of the two flights it can be. */
  lemma SecondDecides(msgs: seq<Message>, m: Modes, negotiated: bool, checks: Message -> bool)
    ensures AcceptsFlight(msgs, m, negotiated, checks)
       <==> IsFlight(msgs, |msgs| > 1 && msgs[1] == RequestMsg, NeedsCertificate(m, negotiated), checks)
  {
    hide AllPass;
    var needs := NeedsCertificate(m, negotiated);
    assert Flight(true, needs)[1] == RequestMsg && Flight(false, needs)[1] != RequestMsg;
  }

  function Expected(s: State): Message {
    match s
    case EncryptedExtensions => ExtensionsMsg
    case CertificateRequest => RequestMsg
    case ServerCertificate => CertificateMsg
    case CertificateVerify => VerifyMsg
    case ServerFinished => FinishedMsg
    case AfterServerFinished => FinishedMsg
  }

  /** A client accepts the flight of a server iff both sides agree on whether a
      certificate is needed; in particular a flight without Certificate and
      CertificateVerify is refused once the PSK is negotiated. */
  lemma ServerFlightAccepted(requests: bool, server: Modes, serverNegotiated: bool,
                             client: Modes, clientNegotiated: bool, checks: Message -> bool)
    requires forall x :: checks(x)
    ensures AcceptsFlight(Flight(requests, NeedsCertificate(server, serverNegotiated)), client, clientNegotiated, checks)
       <==> (NeedsCertificate(server, serverNegotiated) <==> NeedsCertificate(client, clientNegotiated))
  {
    var s, c := NeedsCertificate(server, serverNegotiated), NeedsCertificate(client, clientNegotiated);
    var sent := Flight(requests, s);
    if s == c {
      assert sent <= sent && AllPass(sent, checks);
    }
    if IsFlight(sent, true, c, checks) {
      assert Flight(true, c)[1] == sent[1] && Flight(true, c)[2] == sent[2];
    }
    if IsFlight(sent, false, c, checks) {
      assert Flight(false, c)[1] == sent[1];
    }
  }

  /** In the certificate mode, and with the PSK negotiated in any mode, nothing
      is accepted without a Certificate and a CertificateVerify that passed
      their checks, in this order and before the server's Finished. */
  lemma CertificateIsChecked(msgs: seq<Message>, m: Modes, negotiated: bool, checks: Message -> bool) returns (at: nat)
    requires AcceptsFlight(msgs, m, negotiated, checks) && (m == Modes(true, false, false) || negotiated)
    ensures at + 2 < |msgs| && FinishedMsg !in msgs[..at]
    ensures msgs[at] == CertificateMsg && msgs[at + 1] == VerifyMsg && msgs[at + 2] == FinishedMsg
    ensures checks(CertificateMsg) && checks(VerifyMsg) && checks(FinishedMsg)
  {
    var requests := IsFlight(msgs, true, true, checks);
    at := if requests then 2 else 1;
    var flight := Flight(requests, true);
    assert IsFlight(msgs, requests, true, checks);
    assert msgs[..|flight|] == flight;
    assert flight[at] in flight && flight[at + 1] in flight && flight[at + 2] in flight;
    assert msgs[..at] == flight[..at];
  }

  /** In the PSK modes without it, Finished comes where Certificate would. */
  lemma NoCertificateExpected(msgs: seq<Message>, m: Modes, checks: Message -> bool) returns (at: nat)
    requires AcceptsFlight(msgs, m, false, checks) && m != Modes(true, false, false)
    ensures at < |msgs| && msgs[at] == FinishedMsg && CertificateMsg !in msgs[..at] && VerifyMsg !in msgs[..at]
  {
    var requests := IsFlight(msgs, true, false, checks);
    at := if requests then 2 else 1;
    var flight := Flight(requests, false);
    assert IsFlight(msgs, requests, false, checks);
    assert msgs[..|flight|] == flight && msgs[..at] == flight[..at];
  }
}
