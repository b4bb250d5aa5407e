/** DER as X.690 defines it, for what the composite signature and the raw
    certificate chain need: tag, minimal definite length, contents, and
    positive INTEGERs; and the canonical check of an SM2 signature (r, s). */
module Der {
  import opened Bytes

  const INTEGER: byte := 0x02
  const SEQUENCE: byte := 0x30
  const LONG_MAX: nat := 0x7fff_ffff_ffff_ffff

  /** The shortest big-endian byte string for `n`: no leading zero byte. */
  function Minimal(n: nat): (s: seq<byte>)
    ensures n > 0 ==> s != [] && s[0] != 0
  {
    if n == 0 then [] else Minimal(n / 256) + [n % 256]
  }

  lemma {:induction false} ValueOfMinimal(n: nat)
    ensures Value(Minimal(n)) == n
  {
    if n > 0 {
      ValueOfMinimal(n / 256);
      assert Minimal(n)[..|Minimal(n)| - 1] == Minimal(n / 256);
    }
  }

  lemma {:induction false} MinimalOfValue(s: seq<byte>)
    requires s == [] || s[0] != 0
    ensures Minimal(Value(s)) == s
    ensures s != [] ==> Value(s) > 0
  {
    if s != [] {
      var front := s[..|s| - 1];
      MinimalOfValue(front);
      assert Value(s) / 256 == Value(front) && Value(s) % 256 == s[|s| - 1];
      assert s == front + [s[|s| - 1]];
    }
  }

  lemma {:induction false} LeadingZero(s: seq<byte>)
    ensures Value([0] + s) == Value(s)
  {
    if s == [] {
      assert ([0] + s)[..0] == [];
    } else {
      assert ([0] + s)[..|s|] == [0] + s[..|s| - 1];
      LeadingZero(s[..|s| - 1]);
    }
  }

  /** Contents octets of a non-negative INTEGER (X.690 section 8.3). */
  function NatContents(n: nat): seq<byte> {
    var b := Minimal(n);
    if b == [] || b[0] >= 128 then [0] + b else b
  }

  /** Section 8.3.2 for a positive value: sign bit clear, and the first nine
      bits not all zero. */
  ghost predicate IsMinimalPositive(c: seq<byte>) {
    c != [] && c[0] < 128 && (c[0] == 0 ==> |c| > 1 && c[1] >= 128)
  }

  lemma NatContentsIsMinimal(n: nat)
    requires n > 0
    ensures IsMinimalPositive(NatContents(n)) && Value(NatContents(n)) == n
  {
    ValueOfMinimal(n);
    LeadingZero(Minimal(n));
  }

  lemma MinimalIsNatContents(c: seq<byte>)
    requires IsMinimalPositive(c)
    ensures Value(c) > 0 && NatContents(Value(c)) == c
  {
    if c[0] == 0 {
      assert c == [0] + c[1..];
      LeadingZero(c[1..]);
      MinimalOfValue(c[1..]);
    } else {
      MinimalOfValue(c);
    }
  }

  /** Length octets in the shortest form (sections 8.1.3 and 10.1); None when
      even the long form has no room. */
  function LengthOctets(n: nat): Option<seq<byte>> {
    if n < 128 then Some([n])
    else if |Minimal(n)| > 126 then None
    else Some([128 + |Minimal(n)|] + Minimal(n))
  }

  function Tlv(tag: byte, contents: seq<byte>): Option<seq<byte>> {
    match LengthOctets(|contents|)
    case None => None
    case Some(l) => Some([tag] + l + contents)
  }

  /** Reads length octets; `strict` refuses forms that are not the shortest. */
  function TakeLength(s: seq<byte>, strict: bool): Option<(nat, seq<byte>)> {
    if s == [] then None
    else if s[0] < 128 then Some((s[0], s[1..]))
    else
      var k := s[0] - 128;
      if k == 0 || k > 126 || |s| < 1 + k then None
      else if strict && (s[1] == 0 || Value(s[1..1 + k]) < 128) then None
      else Some((Value(s[1..1 + k]), s[1 + k..]))
  }

  function TakeTlv(tag: byte, s: seq<byte>, strict: bool): Option<(seq<byte>, seq<byte>)> {
    if s == [] || s[0] != tag then None
    else
      match TakeLength(s[1..], strict)
      case None => None
      case Some((n, rest)) => if |rest| < n then None else Some((rest[..n], rest[n..]))
  }

  lemma TakeOfLength(n: nat, rest: seq<byte>, strict: bool)
    requires LengthOctets(n).Some?
    ensures TakeLength(LengthOctets(n).value + rest, strict) == Some((n, rest))
  {
    var l := LengthOctets(n).value;
    if n >= 128 {
      var b := Minimal(n);
      ValueOfMinimal(n);
      assert (l + rest)[1..1 + |b|] == b && (l + rest)[1 + |b|..] == rest;
    } else {
      assert (l + rest)[1..] == rest;
    }
  }

  lemma LengthOfTake(s: seq<byte>)
    requires TakeLength(s, true).Some?
    ensures LengthOctets(TakeLength(s, true).value.0).Some?
    ensures s == LengthOctets(TakeLength(s, true).value.0).value + TakeLength(s, true).value.1
  {
    hide Value, Minimal;
    if s[0] >= 128 {
      var k := s[0] - 128;
      MinimalOfValue(s[1..1 + k]);
      assert s == [s[0]] + s[1..1 + k] + s[1 + k..];
    } else {
      assert s == [s[0]] + s[1..];
    }
  }

  lemma TakeOfTlv(tag: byte, contents: seq<byte>, rest: seq<byte>, strict: bool)
    requires Tlv(tag, contents).Some?
    ensures TakeTlv(tag, Tlv(tag, contents).value + rest, strict) == Some((contents, rest))
  {
    var l := LengthOctets(|contents|).value;
    var s := Tlv(tag, contents).value + rest;
    assert s[1..] == l + (contents + rest);
    TakeOfLength(|contents|, contents + rest, strict);
  }

  /** A strict reader accepts nothing but what the encoder writes. */
  lemma TlvOfTake(tag: byte, s: seq<byte>)
    requires TakeTlv(tag, s, true).Some?
    ensures Tlv(tag, TakeTlv(tag, s, true).value.0).Some?
    ensures s == Tlv(tag, TakeTlv(tag, s, true).value.0).value + TakeTlv(tag, s, true).value.1
  {
    hide TakeLength, LengthOctets;
    LengthOfTake(s[1..]);
    var (n, rest) := TakeLength(s[1..], true).value;
    var l := LengthOctets(n).value;
    assert s == [tag] + (l + rest);
    assert [tag] + (l + rest) == [tag] + l + rest[..n] + rest[n..];
  }

  // ----- SEQUENCE { r INTEGER, s INTEGER }

  function TwoTlvs(a: Option<seq<byte>>, b: Option<seq<byte>>): Option<seq<byte>> {
    if a.None? || b.None? then None else Some(a.value + b.value)
  }

  /** i2d_ECDSA_SIG for non-negative components. */
  function EncodeSignature(r: nat, s: nat): Option<seq<byte>> {
    match TwoTlvs(Tlv(INTEGER, NatContents(r)), Tlv(INTEGER, NatContents(s)))
    case None => None
    case Some(body) => Tlv(SEQUENCE, body)
  }

  /** The contents octets of both INTEGERs and what follows the SEQUENCE. */
  function TakeSignature(s: seq<byte>, strict: bool): Option<(seq<byte>, seq<byte>, seq<byte>)> {
    match TakeTlv(SEQUENCE, s, strict)
    case None => None
    case Some((body, rest)) =>
      match TakeTlv(INTEGER, body, strict)
      case None => None
      case Some((c, tail)) =>
        match TakeTlv(INTEGER, tail, strict)
        case None => None
        case Some((d, end)) => if end != [] then None else Some((c, d, rest))
  }

  /** The bytes follow the DER rules for a pair of positive INTEGERs and
      nothing follows them. */
  ghost predicate IsDerSignature(der: seq<byte>) {
    match TakeSignature(der, true)
    case None => false
    case Some((c, d, rest)) => rest == [] && IsMinimalPositive(c) && IsMinimalPositive(d)
  }

  lemma TakeOfSignature(r: nat, s: nat, rest: seq<byte>, strict: bool)
    requires EncodeSignature(r, s).Some?
    ensures TakeSignature(EncodeSignature(r, s).value + rest, strict) == Some((NatContents(r), NatContents(s), rest))
  {
    var a, b := Tlv(INTEGER, NatContents(r)).value, Tlv(INTEGER, NatContents(s)).value;
    TakeOfTlv(SEQUENCE, a + b, rest, strict);
    TakeOfTlv(INTEGER, NatContents(r), b, strict);
    assert b + [] == b;
    TakeOfTlv(INTEGER, NatContents(s), [], strict);
  }

  /** The encoding of a pair is unique. */
  lemma EncodingIsUnique(r: nat, s: nat, r': nat, s': nat)
    requires EncodeSignature(r, s).Some? && EncodeSignature(r, s) == EncodeSignature(r', s')
    ensures r == r' && s == s'
  {
    TakeOfSignature(r, s, [], true);
    TakeOfSignature(r', s', [], true);
    ValueOfContents(r);
    ValueOfContents(r');
    ValueOfContents(s);
    ValueOfContents(s');
  }

  lemma ValueOfContents(n: nat)
    ensures Value(NatContents(n)) == n
  {
    ValueOfMinimal(n);
    LeadingZero(Minimal(n));
  }

  ghost predicate Encodes(r: int, s: int, der: seq<byte>) {
    r > 0 && s > 0 && EncodeSignature(r, s) == Some(der)
  }

  lemma RulesGiveEncoding(der: seq<byte>)
    requires IsDerSignature(der)
    ensures exists r, s :: Encodes(r, s, der)
  {
    var (c, d, rest) := TakeSignature(der, true).value;
    TlvOfTake(SEQUENCE, der);
    var body := TakeTlv(SEQUENCE, der, true).value.0;
    TlvOfTake(INTEGER, body);
    var tail := TakeTlv(INTEGER, body, true).value.1;
    TlvOfTake(INTEGER, tail);
    MinimalIsNatContents(c);
    MinimalIsNatContents(d);
    assert tail == Tlv(INTEGER, d).value by { assert tail == Tlv(INTEGER, d).value + []; }
    assert der == Tlv(SEQUENCE, body).value by { assert der == Tlv(SEQUENCE, body).value + []; }
    assert Encodes(Value(c), Value(d), der);
  }

  lemma EncodingObeysRules(r: int, s: int, der: seq<byte>)
    requires Encodes(r, s, der)
    ensures IsDerSignature(der)
  {
    assert der + [] == der;
    TakeOfSignature(r, s, [], true);
    NatContentsIsMinimal(r);
    NatContentsIsMinimal(s);
  }

  /** The DER rules and the encoder describe the same byte strings. */
  lemma DerRulesAreEncodings(der: seq<byte>)
    ensures IsDerSignature(der) <==> exists r, s :: Encodes(r, s, der)
  {
    if IsDerSignature(der) {
      RulesGiveEncoding(der);
    }
    forall r, s | Encodes(r, s, der)
      ensures IsDerSignature(der)
    {
      EncodingObeysRules(r, s, der);
    }
  }

  // ----- the check, with whatever decoder the library has

  /** d2i_ECDSA_SIG: the two integers and the number of bytes consumed.  It may
      accept encodings that are not DER. */
  type Decoder = seq<byte> -> Option<(int, int, nat)>

  /** All that is asked of it: an encoder's output, if it is not too long for
      the length argument, is decoded. */
  ghost predicate DecodesEncodings(d2i: Decoder) {
    forall r: nat, s: nat ::
      r > 0 && s > 0 && EncodeSignature(r, s).Some? && |EncodeSignature(r, s).value| <= LONG_MAX ==>
        d2i(EncodeSignature(r, s).value) == Some((r, s, |EncodeSignature(r, s).value|))
  }

  /** Decoded completely, positive, and re-encoded to the same bytes. */
  predicate ValidSignature(d2i: Decoder, der: seq<byte>) {
    && 0 < |der| <= LONG_MAX
    && d2i(der).Some?
    && var (r, s, used) := d2i(der).value;
       used == |der| && r > 0 && s > 0 && EncodeSignature(r, s) == Some(der)
  }

  /** sm2_signature_der_is_valid. */
  method SignatureIsValid(d2i: Decoder, der: seq<byte>) returns (valid: bool)
    ensures valid <==> ValidSignature(d2i, der)
  {
    if |der| == 0 || |der| > LONG_MAX {
      return false;
    }
    var decoded := d2i(der);
    if decoded.None? || decoded.value.2 != |der| {
      return false;
    }
    var (r, s, _) := decoded.value;
    if r <= 0 || s <= 0 {
      return false;
    }
    var canonical := EncodeSignature(r, s);
    if canonical.None? || canonical.value != der {
      return false;
    }
    return true;
  }

  /** Full consumption, positivity and re-encoding together accept a byte
      string iff it follows the DER rules for some r > 0 and s > 0, whatever
      else the decoder accepts. */
  lemma AcceptsExactlyDer(d2i: Decoder, der: seq<byte>)
    requires DecodesEncodings(d2i) && |der| <= LONG_MAX
    ensures ValidSignature(d2i, der) <==> exists r, s :: Encodes(r, s, der)
    ensures ValidSignature(d2i, der) <==> IsDerSignature(der)
  {
    DerRulesAreEncodings(der);
    forall r, s | Encodes(r, s, der)
      ensures ValidSignature(d2i, der)
    {
      assert der + [] == der;
    }
    if ValidSignature(d2i, der) {
      var (r, s, _) := d2i(der).value;
      assert Encodes(r, s, der);
    }
  }

  /** A decoder with padded integers and lengths in any long form: it obeys the
      law, so the law does not say that the decoder is strict. */
  function LenientDecode(s: seq<byte>): Option<(int, int, nat)> {
    match TakeSignature(s, false)
    case None => None
    case Some((c, d, rest)) =>
      if c == [] || d == [] || |rest| > |s| then None
      else Some((SignedValue(c), SignedValue(d), |s| - |rest|))
  }

  function SignedValue(c: seq<byte>): int
    requires c != []
  {
    if c[0] >= 128 then Value(c) - Pow256(|c|) else Value(c)
  }

  lemma LenientReads(s: seq<byte>, c: seq<byte>, d: seq<byte>, rest: seq<byte>)
    requires TakeSignature(s, false) == Some((c, d, rest)) && c != [] && d != [] && |rest| <= |s|
    ensures LenientDecode(s) == Some((SignedValue(c), SignedValue(d), |s| - |rest|))
  {
  }

  lemma SignedValueOfContents(n: nat)
    requires n > 0
    ensures NatContents(n) != [] && SignedValue(NatContents(n)) == n
  {
    NatContentsIsMinimal(n);
  }

  lemma LenientDecodesOne(r: nat, s: nat, e: seq<byte>, rest: seq<byte>)
    requires r > 0 && s > 0 && EncodeSignature(r, s) == Some(e)
    ensures LenientDecode(e + rest) == Some((r, s, |e|))
  {
    var c, d := NatContents(r), NatContents(s);
    assert TakeSignature(e + rest, false) == Some((c, d, rest)) by {
      TakeOfSignature(r, s, rest, false);
    }
    assert c != [] && d != [] && SignedValue(c) == r && SignedValue(d) == s by {
      SignedValueOfContents(r);
      SignedValueOfContents(s);
    }
    LenientReads(e + rest, c, d, rest);
  }

  lemma LenientDecodesEncodings()
    ensures DecodesEncodings(LenientDecode)
  {
    forall r: nat, s: nat | r > 0 && s > 0 && EncodeSignature(r, s).Some?
      ensures LenientDecode(EncodeSignature(r, s).value) == Some((r, s, |EncodeSignature(r, s).value|))
    {
      var e := EncodeSignature(r, s).value;
      LenientDecodesOne(r, s, e, []);
      assert e + [] == e;
    }
  }

  /** (1, 1) with a padded r: the lenient decoder reads it, the check refuses
      it, because its encoding is one byte shorter. */
  lemma PaddedFormIsRefused()
    ensures var padded: seq<byte> := [0x30, 0x07, 0x02, 0x02, 0x00, 0x01, 0x02, 0x01, 0x01];
            LenientDecode(padded) == Some((1, 1, 9)) && !ValidSignature(LenientDecode, padded)
  {
    var padded: seq<byte> := [0x30, 0x07, 0x02, 0x02, 0x00, 0x01, 0x02, 0x01, 0x01];
    PaddedBody();
    assert padded[1..][1..] == PADDED_BODY && PADDED_BODY[..7] == PADDED_BODY && PADDED_BODY[7..] == [];
    assert TakeTlv(SEQUENCE, padded, false) == Some((PADDED_BODY, []));
    assert Minimal(1) == [1] && |Tlv(INTEGER, NatContents(1)).value| == 3;
    assert |EncodeSignature(1, 1).value| == 8;
  }

  const PADDED_BODY: seq<byte> := [0x02, 0x02, 0x00, 0x01, 0x02, 0x01, 0x01]

  lemma PaddedBody()
    ensures TakeTlv(INTEGER, PADDED_BODY, false) == Some(([0x00, 0x01], [0x02, 0x01, 0x01]))
    ensures TakeTlv(INTEGER, [0x02, 0x01, 0x01], false) == Some(([0x01], []))
    ensures SignedValue([0x00, 0x01]) == 1 == SignedValue([0x01])
  {
    var four: seq<byte> := [0x00, 0x01, 0x02, 0x01, 0x01];
    assert PADDED_BODY[1..][1..] == four && four[..2] == [0x00, 0x01] && four[2..] == [0x02, 0x01, 0x01];
    var tail: seq<byte> := [0x02, 0x01, 0x01];
    var one: seq<byte> := [0x01];
    assert tail[1..][1..] == one && one[..1] == one && one[1..] == [];
    assert [0x00, 0x01][..1] == [0x00] && [0x00][..0] == [] && one[..0] == [];
  }
}
