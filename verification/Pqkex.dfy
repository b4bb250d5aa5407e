/** The TLCP PQKEX capability (extension 0xFF02): the KEM-list encoder, the
    strict parser, selection by client preference, the connection state, and
    the ClientHello walk around it. */
module Pqkex {
  import opened Bytes
  import opened TlsExtensions

  const MAX_KEMS: nat := 8
  const KEM_NONE: u16 := 0
  const KEM_MLKEM768: u16 := 1
  const EXT_PQKEX: u16 := 0xff02

  // ----- the wire format

  function EncodeKems(kems: seq<u16>): (s: seq<byte>)
    ensures |s| == 2 * |kems|
  {
    if kems == [] then [] else
      Widths();
      EncodeKems(kems[..|kems| - 1]) + Put(2, kems[|kems| - 1])
  }

  /** extension_data: a two-byte length and the identifiers in order. */
  function KemListData(kems: seq<u16>): (s: seq<byte>)
    requires |kems| <= MAX_KEMS
    ensures |s| == 2 + 2 * |kems|
  {
    Widths();
    PutVec(2, EncodeKems(kems))
  }

  function DecodeKems(s: seq<byte>): (kems: seq<u16>)
    requires |s| % 2 == 0
    ensures |kems| == |s| / 2
  {
    if s == [] then []
    else
      ValueBound(s[|s| - 2..]);
      Widths();
      DecodeKems(s[..|s| - 2]) + [Value(s[|s| - 2..])]
  }

  lemma DecodeSnoc(front: seq<byte>, last: seq<byte>)
    requires |front| % 2 == 0 && |last| == 2
    ensures DecodeKems(front + last) == DecodeKems(front) + [Value(last)]
  {
    var s := front + last;
    assert s[..|s| - 2] == front && s[|s| - 2..] == last;
  }

  lemma {:induction false} DecodeOfEncodeKems(kems: seq<u16>)
    ensures DecodeKems(EncodeKems(kems)) == kems
  {
    if kems != [] {
      Widths();
      var front, last := kems[..|kems| - 1], kems[|kems| - 1];
      DecodeOfEncodeKems(front);
      DecodeSnoc(EncodeKems(front), Put(2, last));
      ValueOfPut(2, last);
    }
  }

  lemma {:induction false} EncodeOfDecodeKems(s: seq<byte>)
    requires |s| % 2 == 0
    ensures EncodeKems(DecodeKems(s)) == s
  {
    if s != [] {
      EncodeOfDecodeKems(s[..|s| - 2]);
      PutOfValue(s[|s| - 2..]);
      var kems := DecodeKems(s);
      assert kems[..|kems| - 1] == DecodeKems(s[..|s| - 2]);
      assert s == s[..|s| - 2] + s[|s| - 2..];
    }
  }

  /** The list that the data encodes, for a receiver with room for `max`. */
  function ParseKems(data: seq<byte>, max: nat): Option<seq<u16>> {
    if max == 0 || max > MAX_KEMS then None
    else
      match TakeVec(2, data)
      case None => None
      case Some((list, rest)) =>
        if rest != [] || |list| < 2 || |list| % 2 != 0 || |list| / 2 > max then None
        else Some(DecodeKems(list))
  }

  ghost predicate Sendable(kems: seq<u16>, max: nat) {
    1 <= |kems| <= max <= MAX_KEMS
  }

  /** Parse undoes encode, for every list a sender may send. */
  lemma ParseOfEncodeKems(kems: seq<u16>, max: nat)
    requires Sendable(kems, max)
    ensures ParseKems(KemListData(kems), max) == Some(kems)
  {
    Widths();
    TakeOfPutVec(2, EncodeKems(kems), []);
    assert KemListData(kems) + [] == KemListData(kems);
    DecodeOfEncodeKems(kems);
  }

  /** Encode undoes parse, for every byte string the parser accepts; so it
      accepts nothing but encodings. */
  lemma EncodeOfParseKems(data: seq<byte>, max: nat)
    requires ParseKems(data, max).Some?
    ensures Sendable(ParseKems(data, max).value, max)
    ensures KemListData(ParseKems(data, max).value) == data
  {
    PutOfTakeVec(2, data);
    var list := TakeVec(2, data).value.0;
    EncodeOfDecodeKems(list);
    assert data == PutVec(2, list) + [];
  }

  /** The parser accepts a byte string iff it encodes some list of 1 to `max`
      identifiers. */
  lemma AcceptsExactlyEncodings(data: seq<byte>, max: nat)
    ensures ParseKems(data, max).Some?
       <==> exists kems: seq<u16> :: 1 <= |kems| <= max <= 8 && KemListData(kems) == data
  {
    if ParseKems(data, max).Some? {
      EncodeOfParseKems(data, max);
      assert Sendable(ParseKems(data, max).value, max);
    }
    forall kems | Sendable(kems, max) && KemListData(kems) == data
      ensures ParseKems(data, max).Some?
    {
      ParseOfEncodeKems(kems, max);
    }
  }

  /** The bytes of the data: two of length, then two for each identifier. */
  lemma {:induction false} KemListBytes(kems: seq<u16>)
    requires |kems| <= MAX_KEMS
    ensures var s := KemListData(kems);
            s[0] == 0 && s[1] == 2 * |kems|
            && forall i :: 0 <= i < |kems| ==> s[2 + 2 * i] as int * 256 + s[3 + 2 * i] as int == kems[i]
  {
    TwoBytes(2 * |kems|);
    IdentifierBytes(kems);
  }

  lemma {:induction false} IdentifierBytes(kems: seq<u16>)
    ensures forall i :: 0 <= i < |kems| ==>
              EncodeKems(kems)[2 * i] as int * 256 + EncodeKems(kems)[2 * i + 1] as int == kems[i]
  {
    if kems != [] {
      var front, last := kems[..|kems| - 1], kems[|kems| - 1];
      IdentifierBytes(front);
      TwoBytes(last);
      assert EncodeKems(kems) == EncodeKems(front) + [last / 256, last % 256];
    }
  }

  /** tls_pqkex_ext_to_bytes: the whole extension, through an 18-byte buffer. */
  method ExtToBytes(kems: seq<u16>) returns (ret: int, ext: seq<byte>)
    ensures ret == 1 <==> 1 <= |kems| <= MAX_KEMS
    ensures ret == 1 ==> ext == EncodeExt(Ext(EXT_PQKEX, KemListData(kems)))
    ensures ret == 1 ==> ParseExts(ext) == Some([Ext(EXT_PQKEX, KemListData(kems))])
  {
    if |kems| == 0 || |kems| > MAX_KEMS {
      return -1, [];
    }
    Widths();
    var extData := new byte[2 + MAX_KEMS * 2];
    CopyInto(extData, 0, Put(2, 2 * |kems|));
    var length := 2;
    for i := 0 to |kems|
      invariant length == 2 + 2 * i
      invariant extData[..length] == Put(2, 2 * |kems|) + EncodeKems(kems[..i])
    {
      ghost var before := extData[..length];
      CopyInto(extData, length, Put(2, kems[i]));
      assert extData[..length + 2] == before + Put(2, kems[i]);
      assert kems[..i + 1][..i] == kems[..i];
      length := length + 2;
    }
    assert kems[..|kems|] == kems;
    ret, ext := 1, EncodeExt(Ext(EXT_PQKEX, extData[..length]));
    var e := Ext(EXT_PQKEX, KemListData(kems));
    assert ext == EncodeExts([e]);
    ParseOfEncodeExts([e]);
  }

  /** One more pair of bytes. */
  lemma DecodeStep(list: seq<byte>, i: nat)
    requires 2 * i + 2 <= |list|
    ensures Value(list[2 * i..2 * i + 2]) < 0x10000
    ensures DecodeKems(list[..2 * (i + 1)]) == DecodeKems(list[..2 * i]) + [Value(list[2 * i..2 * i + 2])]
  {
    var front, pair := list[..2 * (i + 1)], list[2 * i..2 * i + 2];
    ValueBound(pair);
    Widths();
    assert front[..2 * i] == list[..2 * i] && front[2 * i..] == pair;
  }

  /** tls_pqkex_from_bytes: fills the caller's array. */
  method FromBytes(kems: array<u16>, maxKems: nat, data: seq<byte>) returns (ret: int, count: nat)
    requires maxKems <= kems.Length
    modifies kems
    ensures ret == (if ParseKems(data, maxKems).Some? then 1 else -1)
    ensures ret == 1 ==> count <= maxKems && ParseKems(data, maxKems) == Some(kems[..count])
    ensures ret != 1 ==> count == 0 && kems[..] == old(kems[..])
    ensures kems[count..] == old(kems[count..])
  {
    count := 0;
    if maxKems == 0 || maxKems > MAX_KEMS || data == [] {
      return -1, 0;
    }
    var taken := TakeVec(2, data);
    if taken.None? || taken.value.1 != [] || |taken.value.0| < 2 || |taken.value.0| % 2 != 0 {
      return -1, 0;
    }
    var list := taken.value.0;
    var total := |list| / 2;
    if total > maxKems {
      return -1, 0;
    }
    ghost var was := kems[..];
    hide Value;
    for i := 0 to total
      invariant kems[..i] == DecodeKems(list[..2 * i])
      invariant kems[i..] == was[i..]
    {
      DecodeStep(list, i);
      kems[i] := Value(list[2 * i..2 * i + 2]);
      assert kems[..i + 1] == kems[..i] + [kems[i]];
    }
    assert list[..2 * total] == list;
    ret, count := 1, total;
  }

  // ----- selection

  /** The first entry of the client's list that the server also lists. */
  function FirstShared(client: seq<u16>, server: seq<u16>): Option<u16> {
    if client == [] then None
    else if client[0] in server then Some(client[0])
    else FirstShared(client[1..], server)
  }

  /** FirstShared is the client's own preference: no earlier entry is shared. */
  lemma {:induction false} FirstSharedIsPreferred(client: seq<u16>, server: seq<u16>)
    ensures FirstShared(client, server).None? <==> forall k <- client :: k !in server
    ensures FirstShared(client, server).Some? ==>
              exists i :: 0 <= i < |client| && client[i] == FirstShared(client, server).value
                       && client[i] in server && forall j :: 0 <= j < i ==> client[j] !in server
  {
    if client != [] {
      FirstSharedIsPreferred(client[1..], server);
      assert client == [client[0]] + client[1..];
      if client[0] !in server && FirstShared(client[1..], server).Some? {
        var i :| 0 <= i < |client[1..]| && client[1..][i] == FirstShared(client[1..], server).value
              && client[1..][i] in server && forall j :: 0 <= j < i ==> client[1..][j] !in server;
        forall j | 0 <= j < i + 1
          ensures client[j] !in server
        {
          assert j > 0 ==> client[j] == client[1..][j - 1];
        }
        assert client[i + 1] == client[1..][i];
      } else if client[0] in server {
        assert client[0] == FirstShared(client, server).value;
      }
    }
  }

  lemma {:induction false} NoneSharedBefore(client: seq<u16>, server: seq<u16>, i: nat)
    requires i <= |client| && forall j :: 0 <= j < i ==> client[j] !in server
    ensures FirstShared(client, server) == FirstShared(client[i..], server)
  {
    if i == 0 {
      assert client[0..] == client;
    } else {
      assert client[1..][i - 1..] == client[i..];
      NoneSharedBefore(client[1..], server, i - 1);
    }
  }

  /** tls_pqkex_select_kem. */
  method SelectKem(client: seq<u16>, server: seq<u16>) returns (ret: int, selected: u16)
    ensures ret == -1 <==> |client| == 0 || |client| > MAX_KEMS || |server| > MAX_KEMS
    ensures ret != -1 ==> ret == (if FirstShared(client, server).Some? then 1 else 0)
    ensures ret == 1 ==> FirstShared(client, server) == Some(selected)
    ensures ret == 0 ==> selected == KEM_NONE
  {
    selected := KEM_NONE;
    if |client| == 0 || |client| > MAX_KEMS || |server| > MAX_KEMS {
      return -1, selected;
    }
    for i := 0 to |client|
      invariant forall a :: 0 <= a < i ==> client[a] !in server
      invariant selected == KEM_NONE
    {
      for j := 0 to |server|
        invariant forall b :: 0 <= b < j ==> client[i] != server[b]
      {
        if client[i] == server[j] {
          NoneSharedBefore(client, server, i);
          return 1, client[i];
        }
      }
    }
    NoneSharedBefore(client, server, |client|);
    return 0, selected;
  }

  // ----- the context

  class PqkexCtx {
    const isTlcp: bool
    const kems: array<u16>
    var count: nat

    /** What every sequence of setter calls keeps: only ML-KEM-768 is listed. */
    ghost predicate Valid()
      reads this, kems
    {
      kems.Length == MAX_KEMS && count <= MAX_KEMS
      && forall i :: 0 <= i < count ==> kems[i] == KEM_MLKEM768
    }

    function Kems(): seq<u16>
      requires Valid()
      reads this, kems
    {
      kems[..count]
    }

    constructor (isTlcp: bool)
      ensures Valid() && Kems() == [] && this.isTlcp == isTlcp && fresh(kems)
    {
      this.isTlcp := isTlcp;
      this.kems := new u16[MAX_KEMS];
      this.count := 0;
    }

    /** tls_ctx_set_pqkex_kems. */
    method SetKems(list: seq<u16>) returns (ret: int)
      requires Valid()
      modifies this, kems
      ensures Valid()
      ensures ret == (if AcceptedBySetter(isTlcp, list) then 1 else -1)
      ensures ret == 1 <==> isTlcp && 1 <= |list| <= 8 && forall i :: 0 <= i < |list| ==> list[i] == 1
      ensures Kems() == if ret == 1 then list else old(Kems())
      ensures Kems() == Configured(isTlcp, old(Kems()), list)
      ensures ret != 1 ==> count == old(count) && kems[..] == old(kems[..])
    {
      if !isTlcp || |list| == 0 || |list| > MAX_KEMS {
        return -1;
      }
      for i := 0 to |list|
        invariant forall k :: 0 <= k < i ==> list[k] == KEM_MLKEM768
      {
        if list[i] != KEM_MLKEM768 {
          assert list[i] in list;
          return -1;
        }
      }
      for i := 0 to |list|
        invariant kems[..i] == list[..i]
      {
        kems[i] := list[i];
        assert kems[..i + 1] == kems[..i] + [list[i]];
      }
      count := |list|;
      assert kems[..count] == list;
      return 1;
    }
  }

  ghost predicate AcceptedBySetter(isTlcp: bool, list: seq<u16>) {
    isTlcp && 1 <= |list| <= MAX_KEMS && forall k <- list :: k == KEM_MLKEM768
  }

  // ----- the connection

  /** The three fields the patch adds to a connection. */
  datatype PqkexState = PqkexState(offered: bool, negotiated: bool, selected: u16)

  const INITIAL: PqkexState := PqkexState(false, false, KEM_NONE)

  /** What one received extension does to the connection of a TLCP server that
      lists `server`: None when it is rejected. */
  function Received(st: PqkexState, server: seq<u16>, data: seq<byte>): Option<PqkexState> {
    if st.offered || ParseKems(data, MAX_KEMS).None? then None
    else
      var shared := FirstShared(ParseKems(data, MAX_KEMS).value, server);
      Some(PqkexState(true, shared.Some?, if shared.Some? then shared.value else KEM_NONE))
  }

  // ----- sequences of setter calls and received extensions

  datatype Event = Configure(list: seq<u16>) | Receive(data: seq<byte>)

  datatype World = World(kems: seq<u16>, conn: PqkexState)

  ghost predicate IsWellFormed(e: Event) {
    e.Receive? && ParseKems(e.data, MAX_KEMS).Some?
  }

  /** The context's list after a setter call. */
  ghost function Configured(isTlcp: bool, kems: seq<u16>, list: seq<u16>): seq<u16> {
    if AcceptedBySetter(isTlcp, list) then list else kems
  }

  /** What a setter call or an extension does; what is refused changes nothing. */
  ghost function Step(ctxTlcp: bool, connTlcp: bool, w: World, e: Event): World {
    match e
    case Configure(list) => w.(kems := Configured(ctxTlcp, w.kems, list))
    case Receive(data) =>
      if connTlcp && Received(w.conn, w.kems, data).Some? then w.(conn := Received(w.conn, w.kems, data).value) else w
  }

  /** A new context and connection after these events. */
  ghost function RunAll(ctxTlcp: bool, connTlcp: bool, events: seq<Event>): World {
    if events == [] then World([], INITIAL)
    else Step(ctxTlcp, connTlcp, RunAll(ctxTlcp, connTlcp, events[..|events| - 1]), events[|events| - 1])
  }

  /** Where the first well-formed extension stands. */
  ghost function FirstWellFormed(events: seq<Event>): (at: Option<nat>)
    ensures at.Some? ==> at.value < |events| && IsWellFormed(events[at.value])
    ensures forall i :: 0 <= i < (if at.Some? then at.value else |events|) ==> !IsWellFormed(events[i])
  {
    if events == [] then None
    else
      var before := FirstWellFormed(events[..|events| - 1]);
      if before.Some? then before
      else if IsWellFormed(events[|events| - 1]) then Some(|events| - 1)
      else None
  }

  /** Over every such sequence at most one extension is accepted: the connection
      ends as the first well-formed one leaves it, with the server list of that
      moment, whatever is configured or received later. */
  lemma {:induction false} AtMostOneAccepted(ctxTlcp: bool, connTlcp: bool, events: seq<Event>)
    ensures var conn := RunAll(ctxTlcp, connTlcp, events).conn;
            match FirstWellFormed(events)
            case None => conn == INITIAL
            case Some(i) =>
              if connTlcp then
                Received(INITIAL, RunAll(ctxTlcp, connTlcp, events[..i]).kems, events[i].data) == Some(conn)
              else conn == INITIAL
  {
    if events != [] {
      var front := events[..|events| - 1];
      AtMostOneAccepted(ctxTlcp, connTlcp, front);
      if FirstWellFormed(front).Some? {
        assert events[..FirstWellFormed(front).value] == front[..FirstWellFormed(front).value];
      }
    }
  }

  /** After every such sequence negotiated holds iff the selected KEM is not
      NONE, and the context lists nothing but what the setter lets through. */
  lemma {:induction false} NegotiatedIffSelected(ctxTlcp: bool, connTlcp: bool, events: seq<Event>)
    ensures var w := RunAll(ctxTlcp, connTlcp, events);
            && (w.kems == [] || AcceptedBySetter(ctxTlcp, w.kems))
            && (w.conn.negotiated <==> w.conn.selected != KEM_NONE) && (w.conn.negotiated ==> w.conn.offered)
  {
    if events != [] {
      var front, last := events[..|events| - 1], events[|events| - 1];
      NegotiatedIffSelected(ctxTlcp, connTlcp, front);
      if IsWellFormed(last) {
        FirstSharedIsPreferred(ParseKems(last.data, MAX_KEMS).value, RunAll(ctxTlcp, connTlcp, front).kems);
      }
    }
  }

  class PqkexConn {
    const ctx: PqkexCtx
    const isTlcp: bool
    var offered: bool
    var negotiated: bool
    var selected: u16

    function State(): PqkexState
      reads this
    {
      PqkexState(offered, negotiated, selected)
    }

    constructor (ctx: PqkexCtx, isTlcp: bool)
      ensures this.ctx == ctx && this.isTlcp == isTlcp && State() == INITIAL
    {
      this.ctx, this.isTlcp := ctx, isTlcp;
      offered, negotiated, selected := false, false, KEM_NONE;
    }

    /** tlcp_process_client_pqkex: a rejected extension changes nothing. */
    method ProcessClientPqkex(data: seq<byte>) returns (ret: int)
      requires ctx.Valid()
      modifies this
      ensures ret == 1 <==> isTlcp && Received(old(State()), ctx.Kems(), data).Some?
      ensures ret == 1 ==> Received(old(State()), ctx.Kems(), data) == Some(State())
      ensures ret != 1 ==> ret == -1 && State() == old(State())
      ensures ret == 1 <==> isTlcp && !old(offered) && ParseKems(data, 8).Some?
      ensures ret == 1 ==>
                var shared := FirstShared(ParseKems(data, 8).value, ctx.Kems());
                offered && negotiated == shared.Some? && selected == if shared.Some? then shared.value else 0
      ensures World(ctx.Kems(), State()) == Step(ctx.isTlcp, isTlcp, World(ctx.Kems(), old(State())), Receive(data))
    {
      if !isTlcp || offered {
        return -1;
      }
      var clientKems := new u16[MAX_KEMS];
      var parsed, count := FromBytes(clientKems, MAX_KEMS, data);
      if parsed != 1 {
        return -1;
      }
      EncodeOfParseKems(data, MAX_KEMS);
      var found, kem := SelectKem(clientKems[..count], ctx.kems[..ctx.count]);
      selected := kem;
      offered := true;
      negotiated := found == 1;
      return 1;
    }
  }

  /** What process_client_hello_record demands of an extension block. */
  ghost predicate WalkAccepts(block: seq<byte>, server: seq<u16>) {
    && ParseExts(block).Some?
    && Count(ParseExts(block).value, EXT_PQKEX) == 1
    && match LastData(ParseExts(block).value, EXT_PQKEX)
       case None => false
       case Some(data) =>
         ParseKems(data, MAX_KEMS).Some?
         && FirstShared(ParseKems(data, MAX_KEMS).value, server) == Some(KEM_MLKEM768)
  }

  /** A second PQKEX extension, or a malformed one, cannot be made good by
      what follows it. */
  lemma StopsTheWalk(block: seq<byte>, before: seq<Ext>, ext: Ext, cursor: seq<byte>, server: seq<u16>)
    requires ParseExts(block) == Prepend(before + [ext], ParseExts(cursor))
    requires ext.kind == EXT_PQKEX
    requires Count(before, EXT_PQKEX) >= 1 || ParseKems(ext.data, MAX_KEMS).None?
    ensures !WalkAccepts(block, server)
  {
    var done := before + [ext];
    assert done[..|done| - 1] == before;
    if ParseExts(cursor).Some? {
      var tail := ParseExts(cursor).value;
      CountConcat(done, tail, EXT_PQKEX);
      LastDataConcat(done, tail, EXT_PQKEX);
      CountZero(tail, EXT_PQKEX);
    }
  }

  lemma OneMore(done: seq<Ext>, e: Ext)
    ensures Count(done + [e], EXT_PQKEX) == Count(done, EXT_PQKEX) + (if e.kind == EXT_PQKEX then 1 else 0)
    ensures LastData(done + [e], EXT_PQKEX) == if e.kind == EXT_PQKEX then Some(e.data) else LastData(done, EXT_PQKEX)
  {
    assert (done + [e])[..|done|] == done;
  }

  /** The extension walk of process_client_hello_record on a fresh connection:
      it succeeds iff the block is well formed and holds exactly one PQKEX
      extension, which lists a KEM that the server supports. */
  method ProcessClientHelloExtensions(ctx: PqkexCtx, block: seq<byte>) returns (ok: bool)
    requires ctx.Valid()
    ensures ok <==> WalkAccepts(block, ctx.Kems())
    ensures ok <==>
              && ParseExts(block).Some? && Count(ParseExts(block).value, 0xff02) == 1
              && var data := LastData(ParseExts(block).value, 0xff02);
                 data.Some? && ParseKems(data.value, 8).Some?
                 && FirstShared(ParseKems(data.value, 8).value, ctx.Kems()) == Some(1)
  {
    hide Count, LastData, ParseKems, FirstShared;
    CountZero([], EXT_PQKEX);
    var conn := new PqkexConn(ctx, true);
    var cursor := block;
    var pqkexCount: nat := 0;
    ghost var done: seq<Ext> := [];
    PrependNothing(ParseExts(block));
    while cursor != []
      invariant ParseExts(block) == Prepend(done, ParseExts(cursor))
      invariant pqkexCount == Count(done, EXT_PQKEX) <= 1
      invariant pqkexCount == 0 ==> conn.State() == INITIAL
      invariant pqkexCount == 1 ==> LastData(done, EXT_PQKEX).Some?
      invariant pqkexCount == 1 ==>
                  Received(INITIAL, ctx.Kems(), LastData(done, EXT_PQKEX).value) == Some(conn.State())
      decreases |cursor|
    {
      var next := TakeExt(cursor);
      if next.None? {
        return false;
      }
      var ext := next.value.0;
      cursor := next.value.1;
      PrependStep(done, ext, ParseExts(cursor));
      ghost var before := done;
      done := done + [ext];
      OneMore(before, ext);
      if ext.kind == EXT_PQKEX {
        pqkexCount := pqkexCount + 1;
        if pqkexCount != 1 {
          StopsTheWalk(block, before, ext, cursor, ctx.Kems());
          return false;
        }
        var ret := conn.ProcessClientPqkex(ext.data);
        if ret != 1 {
          StopsTheWalk(block, before, ext, cursor, ctx.Kems());
          return false;
        }
      }
    }
    assert ParseExts(block) == Some(done) by {
      assert done + [] == done;
    }
    if pqkexCount != 1 || !conn.offered || !conn.negotiated || conn.selected != KEM_MLKEM768 {
      return false;
    }
    return true;
  }
}
