/** A certificate chain as raw bytes: DER SEQUENCEs one after the other, the
    TLS certificate_list that carries them (RFC 5246 section 7.4.2), access by
    index, and the PEM loader that fills a chain buffer. */
module RawCertificates {
  import opened Bytes
  import opened Der

  /** tls_raw_certificate_from_der: the SEQUENCE at the front, whole. */
  function TakeCertificate(s: seq<byte>): (r: Option<(seq<byte>, seq<byte>)>)
    ensures r.Some? ==> s == r.value.0 + r.value.1 && r.value.0 != []
  {
    match TakeTlv(SEQUENCE, s, true)
    case None => None
    case Some((contents, rest)) =>
      TlvOfTake(SEQUENCE, s);
      Some((Tlv(SEQUENCE, contents).value, rest))
  }

  ghost predicate IsCertificate(c: seq<byte>) {
    TakeCertificate(c) == Some((c, []))
  }

  /** Elements delimit themselves: what follows does not change what is read. */
  lemma TakeBefore(c: seq<byte>, rest: seq<byte>)
    requires IsCertificate(c)
    ensures TakeCertificate(c + rest) == Some((c, rest))
  {
    TlvOfTake(SEQUENCE, c);
    var contents := TakeTlv(SEQUENCE, c, true).value.0;
    TakeOfTlv(SEQUENCE, contents, rest, true);
  }

  lemma TakenIsCertificate(s: seq<byte>)
    requires TakeCertificate(s).Some?
    ensures IsCertificate(TakeCertificate(s).value.0)
  {
    var contents := TakeTlv(SEQUENCE, s, true).value.0;
    TlvOfTake(SEQUENCE, s);
    var c := Tlv(SEQUENCE, contents).value;
    TakeOfTlv(SEQUENCE, contents, [], true);
    assert c + [] == c;
  }

  // ----- splitting and joining

  function Split(s: seq<byte>): Option<seq<seq<byte>>>
    decreases |s|
  {
    if s == [] then Some([])
    else
      match TakeCertificate(s)
      case None => None
      case Some((c, rest)) => Prepend([c], Split(rest))
  }

  /** The well-formed elements at the front of any byte string. */
  function Leading(s: seq<byte>): seq<seq<byte>>
    decreases |s|
  {
    match TakeCertificate(s)
    case None => []
    case Some((c, rest)) => [c] + Leading(rest)
  }

  function Join(cs: seq<seq<byte>>): seq<byte> {
    if cs == [] then [] else cs[0] + Join(cs[1..])
  }

  ghost predicate AllCertificates(cs: seq<seq<byte>>) { forall c <- cs :: IsCertificate(c) }

  lemma {:induction false} SplitOfJoin(cs: seq<seq<byte>>)
    requires AllCertificates(cs)
    ensures Split(Join(cs)) == Some(cs)
  {
    if cs != [] {
      TakeBefore(cs[0], Join(cs[1..]));
      SplitOfJoin(cs[1..]);
      assert cs == [cs[0]] + cs[1..];
    }
  }

  lemma {:induction false} JoinOfSplit(s: seq<byte>)
    requires Split(s).Some?
    ensures Join(Split(s).value) == s && AllCertificates(Split(s).value)
    ensures Leading(s) == Split(s).value
    decreases |s|
  {
    if s != [] {
      var (c, rest) := TakeCertificate(s).value;
      TakenIsCertificate(s);
      JoinOfSplit(rest);
      assert Split(s).value[1..] == Split(rest).value;
    }
  }

  // ----- access by index

  /** tls_cert_chain_get_cert_by_index_raw: an element before the first
      malformed one, 0 for an index past the end of a well-formed chain, and
      failure otherwise. */
  method GetByIndex(certs: seq<byte>, index: int) returns (ret: int, cert: seq<byte>)
    ensures ret == 1 <==> 0 <= index < |Leading(certs)|
    ensures ret == 1 ==> cert == Leading(certs)[index]
    ensures ret == 0 <==> certs != [] && Split(certs).Some? && index >= |Split(certs).value|
    ensures ret in {-1, 0, 1} && (ret != 1 ==> cert == [])
  {
    cert := [];
    if certs == [] || index < 0 {
      return -1, [];
    }
    var cursor := certs;
    var current := 0;
    ghost var done: seq<seq<byte>> := [];
    PrependNothing(Split(certs));
    while cursor != []
      invariant 0 <= current == |done| <= index
      invariant Leading(certs) == done + Leading(cursor)
      invariant Split(certs) == Prepend(done, Split(cursor))
      decreases |cursor|
    {
      var taken := TakeCertificate(cursor);
      if taken.None? {
        return -1, [];
      }
      LeadingStep(done, cursor);
      PrependStep(done, taken.value.0, Split(taken.value.1));
      if current == index {
        return 1, taken.value.0;
      }
      done := done + [taken.value.0];
      current := current + 1;
      cursor := taken.value.1;
    }
    return 0, [];
  }

  lemma LeadingStep(done: seq<seq<byte>>, s: seq<byte>)
    requires TakeCertificate(s).Some?
    ensures done + Leading(s) == done + [TakeCertificate(s).value.0] + Leading(TakeCertificate(s).value.1)
  {
    hide TakeCertificate;
    var (c, rest) := TakeCertificate(s).value;
    assert Leading(s) == [c] + Leading(rest);
  }

  /** Leading stops at the first malformed element, and not before. */
  lemma {:induction false} LeadingOfPrefix(cs: seq<seq<byte>>, rest: seq<byte>)
    requires AllCertificates(cs) && TakeCertificate(rest).None?
    ensures Leading(Join(cs) + rest) == cs
  {
    hide TakeCertificate;
    if cs == [] {
      assert Join(cs) + rest == rest;
    } else {
      LeadingOfPrefix(cs[1..], rest);
      TakeBefore(cs[0], Join(cs[1..]) + rest);
      assert Join(cs) + rest == cs[0] + (Join(cs[1..]) + rest);
      assert cs == [cs[0]] + cs[1..];
    }
  }

  /** Indexing agrees with splitting, for every chain and every index. */
  lemma IndexAgreesWithSplit(certs: seq<byte>, index: nat)
    requires Split(certs).Some?
    ensures index < |Leading(certs)| <==> index < |Split(certs).value|
    ensures index < |Split(certs).value| ==> Leading(certs)[index] == Split(certs).value[index]
  {
    JoinOfSplit(certs);
  }

  // ----- the TLS certificate list

  /** The list that carries a chain: each certificate behind its three-byte
      length. */
  function ToEntries(s: seq<byte>): Option<seq<byte>>
    decreases |s|
  {
    Widths();
    if s == [] then Some([])
    else
      match TakeCertificate(s)
      case None => None
      case Some((c, rest)) => if |c| >= 0x1000000 then None else Prepend(PutVec(3, c), ToEntries(rest))
  }

  /** The chain that a list carries: each entry must be one element. */
  function FromEntries(s: seq<byte>): Option<seq<byte>>
    decreases |s|
  {
    if s == [] then Some([])
    else
      match TakeVec(3, s)
      case None => None
      case Some((c, rest)) => if OneCertificate(c) then Prepend(c, FromEntries(rest)) else None
  }

  predicate OneCertificate(c: seq<byte>) {
    TakeCertificate(c).Some? && TakeCertificate(c).value.1 == []
  }

  lemma OneIsCertificate(c: seq<byte>)
    ensures OneCertificate(c) <==> IsCertificate(c)
  {
    if OneCertificate(c) {
      assert TakeCertificate(c).value.0 + [] == TakeCertificate(c).value.0;
    }
  }

  /** Sending and receiving returns the same chain. */
  lemma {:induction false} ChainSurvives(certs: seq<byte>)
    requires ToEntries(certs).Some?
    ensures FromEntries(ToEntries(certs).value) == Some(certs)
    decreases |certs|
  {
    if certs != [] {
      Widths();
      var (c, rest) := TakeCertificate(certs).value;
      TakenIsCertificate(certs);
      OneIsCertificate(c);
      TakeOfPutVec(3, c, ToEntries(rest).value);
      ChainSurvives(rest);
    }
  }

  /** What is received is a chain, and sending it gives the same list. */
  lemma {:induction false} ListSurvives(s: seq<byte>)
    requires FromEntries(s).Some?
    ensures ToEntries(FromEntries(s).value) == Some(s)
    decreases |s|
  {
    if s != [] {
      Widths();
      PutOfTakeVec(3, s);
      var (c, rest) := TakeVec(3, s).value;
      OneIsCertificate(c);
      ListSurvives(rest);
      TakeBefore(c, FromEntries(rest).value);
    }
  }

  /** A byte string below the length field's limit can be sent iff it splits
      into elements. */
  lemma {:induction false} SendableIffChain(certs: seq<byte>)
    requires |certs| < 0x1000000
    ensures ToEntries(certs).Some? <==> Split(certs).Some?
    decreases |certs|
  {
    if certs != [] && TakeCertificate(certs).Some? {
      SendableIffChain(TakeCertificate(certs).value.1);
    }
  }

  /** The sender's loop. */
  method EncodeChain(certs: seq<byte>) returns (ret: int, entries: seq<byte>)
    ensures ret == (if ToEntries(certs).Some? then 1 else -1)
    ensures ret == 1 ==> ToEntries(certs) == Some(entries)
  {
    Widths();
    entries := [];
    var cursor := certs;
    PrependNothing(ToEntries(certs));
    while cursor != []
      invariant ToEntries(certs) == Prepend(entries, ToEntries(cursor))
      decreases |cursor|
    {
      var taken := TakeCertificate(cursor);
      if taken.None? || |taken.value.0| >= 0x1000000 {
        return -1, [];
      }
      PrependTwice(entries, PutVec(3, taken.value.0), ToEntries(taken.value.1));
      entries := entries + PutVec(3, taken.value.0);
      cursor := taken.value.1;
    }
    assert entries + [] == entries;
    return 1, entries;
  }

  /** The receiver's loop. */
  method DecodeChain(entries: seq<byte>) returns (ret: int, certs: seq<byte>)
    ensures ret == (if FromEntries(entries).Some? then 1 else -1)
    ensures ret == 1 ==> FromEntries(entries) == Some(certs)
  {
    certs := [];
    var cursor := entries;
    PrependNothing(FromEntries(entries));
    while cursor != []
      invariant FromEntries(entries) == Prepend(certs, FromEntries(cursor))
      decreases |cursor|
    {
      var taken := TakeVec(3, cursor);
      if taken.None? || !OneCertificate(taken.value.0) {
        return -1, [];
      }
      PrependTwice(certs, taken.value.0, FromEntries(taken.value.1));
      certs := certs + taken.value.0;
      cursor := taken.value.1;
    }
    assert certs + [] == certs;
    return 1, certs;
  }

  // ----- the PEM loader

  /** What pem_read meets next: a certificate block or something broken. */
  datatype PemBlock = Block(data: seq<byte>) | Broken

  function Blocks(pem: seq<PemBlock>): seq<seq<byte>> {
    if pem == [] then []
    else Blocks(pem[..|pem| - 1]) + (if pem[|pem| - 1].Block? then [pem[|pem| - 1].data] else [])
  }

  function TotalSize(pem: seq<PemBlock>): nat {
    if pem == [] then 0
    else TotalSize(pem[..|pem| - 1]) + (if pem[|pem| - 1].Block? then |pem[|pem| - 1].data| else 0)
  }

  /** Every block is one element and all of them fit. */
  ghost predicate Loadable(pem: seq<PemBlock>, maxlen: nat) {
    TotalSize(pem) <= maxlen && forall i :: 0 <= i < |pem| ==> pem[i].Block? && OneCertificate(pem[i].data)
  }

  /** tlcp_hybrid_certs_from_pem: fills the front of the caller's buffer, whose
      first `maxlen` bytes it may use. */
  method CertsFromPem(pem: seq<PemBlock>, buffer: array<byte>, maxlen: nat) returns (ret: int, used: nat)
    requires maxlen <= buffer.Length
    modifies buffer
    ensures used <= maxlen && buffer[maxlen..] == old(buffer[maxlen..])
    ensures ret == (if pem == [] then 0 else if Loadable(pem, maxlen) then 1 else -1)
    ensures ret == 1 ==> used == TotalSize(pem) && Split(buffer[..used]) == Some(Blocks(pem))
  {
    hide OneCertificate, Split;
    used := 0;
    var remaining := maxlen;
    for i := 0 to |pem|
      invariant 0 <= remaining && used + remaining == maxlen && (i > 0 ==> used > 0)
      invariant Loadable(pem[..i], maxlen) && used == TotalSize(pem[..i])
      invariant buffer[..used] == Join(Blocks(pem[..i]))
      invariant buffer[maxlen..] == old(buffer[maxlen..])
    {
      if pem[i].Broken? || |pem[i].data| > remaining {
        NotLoadable(pem, i, maxlen);
        return -1, used;
      }
      var data := pem[i].data;
      TotalSizeStep(pem, i);
      JoinSnoc(Blocks(pem[..i]), data);
      used := LoadBlock(buffer, used, maxlen, data);
      if !OneCertificate(data) {
        NotLoadable(pem, i, maxlen);
        return -1, used - |data|;
      }
      CertificateIsNotEmpty(data);
      remaining := remaining - |data|;
    }
    assert pem[..|pem|] == pem;
    BlocksAreCertificates(pem);
    SplitOfJoin(Blocks(pem));
    return if used > 0 then 1 else 0, used;
  }

  lemma CertificateIsNotEmpty(c: seq<byte>)
    requires OneCertificate(c)
    ensures c != []
  {
  }

  /** pem_read into the free part of the buffer. */
  method LoadBlock(buffer: array<byte>, used: nat, maxlen: nat, data: seq<byte>) returns (newUsed: nat)
    requires used + |data| <= maxlen <= buffer.Length
    modifies buffer
    ensures newUsed == used + |data|
    ensures buffer[..newUsed] == old(buffer[..used]) + data && buffer[maxlen..] == old(buffer[maxlen..])
  {
    CopyInto(buffer, used, data);
    return used + |data|;
  }

  lemma NotLoadable(pem: seq<PemBlock>, i: nat, maxlen: nat)
    requires i < |pem|
    requires pem[i].Broken? || TotalSize(pem[..i]) + |pem[i].data| > maxlen || !OneCertificate(pem[i].data)
    ensures !Loadable(pem, maxlen)
  {
    TotalSizeGrows(pem, i);
  }

  lemma TotalSizeStep(pem: seq<PemBlock>, i: nat)
    requires i < |pem| && pem[i].Block?
    ensures TotalSize(pem[..i + 1]) == TotalSize(pem[..i]) + |pem[i].data|
    ensures Blocks(pem[..i + 1]) == Blocks(pem[..i]) + [pem[i].data]
  {
    assert pem[..i + 1][..i] == pem[..i];
  }

  lemma {:induction false} TotalSizeGrows(pem: seq<PemBlock>, i: nat)
    requires i < |pem|
    ensures TotalSize(pem) >= TotalSize(pem[..i]) + (if pem[i].Block? then |pem[i].data| else 0)
  {
    if i == |pem| - 1 {
    } else {
      var front := pem[..|pem| - 1];
      TotalSizeGrows(front, i);
      assert front[..i] == pem[..i];
    }
  }

  lemma {:induction false} JoinSnoc(cs: seq<seq<byte>>, c: seq<byte>)
    ensures Join(cs + [c]) == Join(cs) + c
  {
    if cs == [] {
      assert Join([c]) == c + Join([]);
    } else {
      JoinSnoc(cs[1..], c);
      assert (cs + [c])[1..] == cs[1..] + [c];
    }
  }

  lemma {:induction false} BlocksAreCertificates(pem: seq<PemBlock>)
    requires forall i :: 0 <= i < |pem| ==> pem[i].Block? && OneCertificate(pem[i].data)
    ensures AllCertificates(Blocks(pem))
  {
    if pem != [] {
      BlocksAreCertificates(pem[..|pem| - 1]);
      OneIsCertificate(pem[|pem| - 1].data);
    }
  }
}
