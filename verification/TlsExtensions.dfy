/** TLS extension blocks: `uint16 type; opaque data<0..2^16-1>`, repeated
    (RFC 8446 section 4.2).  Both the PQKEX walk and the TLS 1.3 walks read
    them one at a time from a byte cursor. */
module TlsExtensions {
  import opened Bytes

  datatype Ext = Ext(kind: u16, data: seq<byte>)

  ghost predicate Fits(e: Ext) { |e.data| < 0x10000 }

  ghost predicate AllFit(es: seq<Ext>) { forall e <- es :: Fits(e) }

  function EncodeExt(e: Ext): seq<byte>
    requires |e.data| < 0x10000
  {
    Widths();
    Put(2, e.kind) + PutVec(2, e.data)
  }

  function EncodeExts(es: seq<Ext>): seq<byte>
    requires forall e <- es :: |e.data| < 0x10000
  {
    if es == [] then [] else EncodeExt(es[0]) + EncodeExts(es[1..])
  }

  /** One step of the cursor: the extension at the front and the rest. */
  function TakeExt(s: seq<byte>): (r: Option<(Ext, seq<byte>)>)
    ensures r.Some? ==> |r.value.1| < |s|
  {
    match TakeInt(2, s)
    case None => None
    case Some((kind, tail)) =>
      ValueBound(s[..2]);
      Widths();
      match TakeVec(2, tail)
      case None => None
      case Some((data, rest)) => Some((Ext(kind, data), rest))
  }

  /** The whole block as a list, or None when some extension is malformed. */
  function ParseExts(s: seq<byte>): Option<seq<Ext>> {
    if s == [] then Some([])
    else
      match TakeExt(s)
      case None => None
      case Some((e, rest)) => Prepend([e], ParseExts(rest))
  }

  /** The bytes of an extension: two of type, two of length, then the data. */
  lemma ExtensionBytes(e: Ext)
    requires |e.data| < 0x10000
    ensures var s := EncodeExt(e);
            |s| == 4 + |e.data| && s[0] as int * 256 + s[1] as int == e.kind
            && s[2] as int * 256 + s[3] as int == |e.data| && s[4..] == e.data
  {
    Widths();
    TwoBytes(e.kind);
    TwoBytes(|e.data|);
  }

  lemma TwoBytes(n: nat)
    requires n < 0x10000
    ensures n < Pow256(2) && Put(2, n) == [n / 256, n % 256]
  {
    Widths();
    assert Put(1, n / 256) == Put(0, n / 256 / 256) + [n / 256 % 256];
  }

  lemma ParseStep(s: seq<byte>)
    requires s != []
    ensures ParseExts(s)
         == if TakeExt(s).None? then None else Prepend([TakeExt(s).value.0], ParseExts(TakeExt(s).value.1))
  {
  }

  lemma TakeOfEncode(e: Ext, rest: seq<byte>)
    requires Fits(e)
    ensures TakeExt(EncodeExt(e) + rest) == Some((e, rest))
  {
    Widths();
    assert EncodeExt(e) + rest == Put(2, e.kind) + (PutVec(2, e.data) + rest);
    TakeOfPutInt(2, e.kind, PutVec(2, e.data) + rest);
    TakeOfPutVec(2, e.data, rest);
  }

  lemma EncodeOfTake(s: seq<byte>)
    requires TakeExt(s).Some?
    ensures Fits(TakeExt(s).value.0)
    ensures s == EncodeExt(TakeExt(s).value.0) + TakeExt(s).value.1
  {
    Widths();
    PutOfTakeInt(2, s);
    var tail := TakeInt(2, s).value.1;
    PutOfTakeVec(2, tail);
    var e, rest := TakeExt(s).value.0, TakeExt(s).value.1;
    assert Put(2, e.kind) + (PutVec(2, e.data) + rest) == EncodeExt(e) + rest;
  }

  /** What a sender writes, a receiver's walk reads back. */
  lemma {:induction false} ParseOfEncodeExts(es: seq<Ext>)
    requires AllFit(es)
    ensures ParseExts(EncodeExts(es)) == Some(es)
  {
    if es != [] {
      assert Fits(es[0]) && AllFit(es[1..]);
      TakeOfEncode(es[0], EncodeExts(es[1..]));
      ParseOfEncodeExts(es[1..]);
      assert es == [es[0]] + es[1..];
    }
  }

  /** A walk that succeeds has read exactly the bytes it was given. */
  lemma {:induction false} EncodeOfParseExts(s: seq<byte>)
    requires ParseExts(s).Some?
    ensures AllFit(ParseExts(s).value)
    ensures EncodeExts(ParseExts(s).value) == s
    decreases |s|
  {
    if s != [] {
      EncodeOfTake(s);
      var e, rest := TakeExt(s).value.0, TakeExt(s).value.1;
      EncodeOfParseExts(rest);
      assert ParseExts(s).value == [e] + ParseExts(rest).value;
      assert ParseExts(s).value[1..] == ParseExts(rest).value;
    }
  }

  // ----- looking things up in a list of extensions

  function Count(es: seq<Ext>, kind: u16): nat {
    if es == [] then 0
    else Count(es[..|es| - 1], kind) + (if es[|es| - 1].kind == kind then 1 else 0)
  }

  /** The data of the last extension of this kind. */
  function LastData(es: seq<Ext>, kind: u16): Option<seq<byte>> {
    if es == [] then None
    else if es[|es| - 1].kind == kind then Some(es[|es| - 1].data)
    else LastData(es[..|es| - 1], kind)
  }

  /** An extension that the walk leaves as a non-NULL pointer: empty data is
      handed over as NULL. */
  predicate Present(es: seq<Ext>, kind: u16) {
    LastData(es, kind).Some? && LastData(es, kind).value != []
  }

  lemma {:induction false} CountZero(es: seq<Ext>, kind: u16)
    ensures Count(es, kind) == 0 <==> forall e <- es :: e.kind != kind
    ensures Count(es, kind) == 0 <==> LastData(es, kind).None?
  {
    if es != [] {
      var front := es[..|es| - 1];
      CountZero(front, kind);
      assert es == front + [es[|es| - 1]];
    }
  }

  lemma {:induction false} CountConcat(a: seq<Ext>, b: seq<Ext>, kind: u16)
    ensures Count(a + b, kind) == Count(a, kind) + Count(b, kind)
  {
    if b == [] {
      assert a + b == a;
    } else {
      assert (a + b)[..|a + b| - 1] == a + b[..|b| - 1];
      CountConcat(a, b[..|b| - 1], kind);
    }
  }

  lemma {:induction false} LastDataConcat(a: seq<Ext>, b: seq<Ext>, kind: u16)
    ensures LastData(a + b, kind)
         == if LastData(b, kind).Some? then LastData(b, kind) else LastData(a, kind)
  {
    if b == [] {
      assert a + b == a;
    } else {
      assert (a + b)[..|a + b| - 1] == a + b[..|b| - 1];
      LastDataConcat(a, b[..|b| - 1], kind);
    }
  }
}
