/** The library operations that the repository calls, as one record of
    functions.  Nothing is assumed of them except the laws named below. */
module Library {
  import opened Bytes
  import opened Der

  const DILITHIUM_PUBLIC_KEY_BYTES: nat := 1312
  const DILITHIUM_SECRET_KEY_BYTES: nat := 2560
  const DILITHIUM_SIGNATURE_BYTES: nat := 2420
  const SM2_PUBLIC_KEY_BYTES: nat := 65

  type DilithiumPublic = s: seq<byte> | |s| == DILITHIUM_PUBLIC_KEY_BYTES
    witness seq(DILITHIUM_PUBLIC_KEY_BYTES, _ => 0)
  type DilithiumSecret = s: seq<byte> | |s| == DILITHIUM_SECRET_KEY_BYTES
    witness seq(DILITHIUM_SECRET_KEY_BYTES, _ => 0)

  /** The private half of an EVP key, named by whatever identifies it. */
  type Sm2Secret = seq<byte>

  /** The public half of an EVP key: its type and its encoded point. */
  datatype EvpPublic = EvpPublic(isSm2: bool, point: seq<byte>)

  datatype Lib = Lib(
    sm3: seq<byte> -> seq<byte>,
    sha256: seq<byte> -> seq<byte>,
    dilithiumSign: (DilithiumSecret, seq<byte>, nat) -> Option<seq<byte>>,   // the last is the randomness
    dilithiumVerify: (DilithiumPublic, seq<byte>, seq<byte>) -> bool,
    sm2Sign: (Sm2Secret, seq<byte>, nat) -> Option<seq<byte>>,
    sm2Verify: (EvpPublic, seq<byte>, seq<byte>) -> bool,
    sm2PublicOf: Sm2Secret -> EvpPublic,
    sm2PrivateOk: Sm2Secret -> bool,               // EVP_PKEY_private_check
    onCurve: seq<byte> -> bool,
    d2i: Decoder)
}

/** Composite keys: Dilithium2 key first, then the uncompressed SM2 point. */
module CompositeKey {
  import opened Bytes
  import opened Library

  const COMPOSITE_PUBLIC_KEY_BYTES: nat := DILITHIUM_PUBLIC_KEY_BYTES + SM2_PUBLIC_KEY_BYTES

  datatype PrivateKey = PrivateKey(sm2: Option<Sm2Secret>, dilithium: DilithiumSecret)

  datatype PublicKey = PublicKey(sm2: Option<EvpPublic>, dilithium: DilithiumPublic)

  /** A usable SM2 point: the right type, size and form. */
  predicate WellFormedPoint(e: EvpPublic) {
    e.isSm2 && |e.point| == SM2_PUBLIC_KEY_BYTES && e.point[0] == 0x04
  }

  /** composite_serialize_public_key. */
  function SerializePublicKey(key: PublicKey): Option<seq<byte>> {
    if key.sm2.None? || !WellFormedPoint(key.sm2.value) then None
    else Some(key.dilithium + key.sm2.value.point)
  }

  /** composite_parse_public_key, with the library's public-key check. */
  function ParsePublicKey(lib: Lib, s: seq<byte>): Option<PublicKey> {
    if |s| != COMPOSITE_PUBLIC_KEY_BYTES then None
    else
      var point := s[DILITHIUM_PUBLIC_KEY_BYTES..];
      if point[0] != 0x04 || !lib.onCurve(point) then None
      else Some(PublicKey(Some(EvpPublic(true, point)), s[..DILITHIUM_PUBLIC_KEY_BYTES]))
  }

  lemma ParseOfSerializedKey(lib: Lib, key: PublicKey)
    requires SerializePublicKey(key).Some?
    ensures ParsePublicKey(lib, SerializePublicKey(key).value)
         == if lib.onCurve(key.sm2.value.point) then Some(key) else None
  {
    var s := SerializePublicKey(key).value;
    assert s[..DILITHIUM_PUBLIC_KEY_BYTES] == key.dilithium;
    assert s[DILITHIUM_PUBLIC_KEY_BYTES..] == key.sm2.value.point;
  }

  lemma SerializeOfParsedKey(lib: Lib, s: seq<byte>)
    requires ParsePublicKey(lib, s).Some?
    ensures SerializePublicKey(ParsePublicKey(lib, s).value) == Some(s)
  {
    assert s == s[..DILITHIUM_PUBLIC_KEY_BYTES] + s[DILITHIUM_PUBLIC_KEY_BYTES..];
  }

  /** What makes two keys a pair: each component's signatures verify. */
  ghost predicate Matching(lib: Lib, secret: PrivateKey, public: PublicKey) {
    && secret.sm2.Some? && public.sm2.Some?
    && (forall m, nonce, sig :: lib.dilithiumSign(secret.dilithium, m, nonce) == Some(sig) ==>
          lib.dilithiumVerify(public.dilithium, m, sig))
    && (forall m, nonce, sig :: lib.sm2Sign(secret.sm2.value, m, nonce) == Some(sig) ==>
          lib.sm2Verify(public.sm2.value, m, sig))
  }
}

/** The composite signature core: the domain-separated message M', the raw
    concatenation of the two component signatures, sign and verify. */
module CompositeSignature {
  import opened Bytes
  import opened Der
  import opened Library
  import opened CompositeKey

  const MAX_CONTEXT_BYTES: nat := 255
  const SM3_BYTES: nat := 32

  function Ascii(s: string): (r: seq<byte>)
    requires forall i :: 0 <= i < |s| ==> s[i] as int < 256
    ensures |r| == |s|
  {
    if s == [] then [] else
      Ascii(s[..|s| - 1]) + [s[|s| - 1] as int]
  }

  function Prefix(): (r: seq<byte>)
    ensures |r| == 32
  {
    Ascii("CompositeAlgorithmSignatures2025")
  }

  function Label(): (r: seq<byte>)
    ensures |r| == 26
  {
    Ascii("COMPSIG-DILITHIUM2-SM2-SM3")
  }

  /** M' = prefix || label || one byte of length || context || SM3(message). */
  function MPrime(lib: Lib, message: seq<byte>, context: seq<byte>): Option<seq<byte>> {
    if |context| > MAX_CONTEXT_BYTES || |lib.sm3(message)| != SM3_BYTES then None
    else Some(Prefix() + Label() + [|context|] + context + lib.sm3(message))
  }

  /** M' determines the context and the digest. */
  lemma MPrimeIsInjective(lib: Lib, m1: seq<byte>, c1: seq<byte>, m2: seq<byte>, c2: seq<byte>)
    requires MPrime(lib, m1, c1).Some? && MPrime(lib, m1, c1) == MPrime(lib, m2, c2)
    ensures c1 == c2 && lib.sm3(m1) == lib.sm3(m2)
  {
    var head := Prefix() + Label();
    var a, b := MPrime(lib, m1, c1).value, MPrime(lib, m2, c2).value;
    assert a == head + ([|c1|] + c1 + lib.sm3(m1)) && b == head + ([|c2|] + c2 + lib.sm3(m2));
    assert a[58] == |c1| && b[58] == |c2|;
    assert a[59..59 + |c1|] == c1 && b[59..59 + |c2|] == c2;
    assert a[59 + |c1|..] == lib.sm3(m1) && b[59 + |c2|..] == lib.sm3(m2);
  }

  /** composite_build_message: fills a buffer at a moving offset. */
  method BuildMessage(lib: Lib, message: seq<byte>, context: seq<byte>) returns (r: Option<seq<byte>>)
    ensures r == MPrime(lib, message, context)
    ensures r.Some? <==> |context| <= 255 && |lib.sm3(message)| == 32
    ensures r.Some? ==>
              r.value == Ascii("CompositeAlgorithmSignatures2025") + Ascii("COMPSIG-DILITHIUM2-SM2-SM3")
                         + [|context|] + context + lib.sm3(message)
    ensures r.Some? ==> |r.value| == 32 + 26 + 1 + |context| + 32
  {
    if |context| > MAX_CONTEXT_BYTES {
      return None;
    }
    var digest := lib.sm3(message);
    if |digest| != SM3_BYTES {
      return None;
    }
    var length := |Prefix()| + |Label()| + 1 + |context| + |digest|;
    var output := new byte[length];
    var offset := 0;
    CopyInto(output, offset, Prefix());
    offset := offset + |Prefix()|;
    assert output[..offset] == Prefix();
    CopyInto(output, offset, Label());
    offset := offset + |Label()|;
    assert output[..offset] == Prefix() + Label();
    output[offset] := |context|;
    offset := offset + 1;
    assert output[..offset] == Prefix() + Label() + [|context|];
    CopyInto(output, offset, context);
    offset := offset + |context|;
    assert output[..offset] == Prefix() + Label() + [|context|] + context;
    CopyInto(output, offset, digest);
    offset := offset + |digest|;
    assert output[..offset] == Prefix() + Label() + [|context|] + context + digest;
    assert output[..offset] == output[..];
    return Some(output[..]);
  }

  // ----- raw concatenation

  function Serialize(lib: Lib, dilithium: seq<byte>, sm2Der: seq<byte>): Option<seq<byte>> {
    if |dilithium| != DILITHIUM_SIGNATURE_BYTES || !ValidSignature(lib.d2i, sm2Der) then None
    else Some(dilithium + sm2Der)
  }

  function Parse(lib: Lib, signature: seq<byte>): Option<(seq<byte>, seq<byte>)> {
    if |signature| <= DILITHIUM_SIGNATURE_BYTES
       || !ValidSignature(lib.d2i, signature[DILITHIUM_SIGNATURE_BYTES..])
    then None
    else Some((signature[..DILITHIUM_SIGNATURE_BYTES], signature[DILITHIUM_SIGNATURE_BYTES..]))
  }

  lemma ParseOfSerialize(lib: Lib, dilithium: seq<byte>, sm2Der: seq<byte>)
    requires Serialize(lib, dilithium, sm2Der).Some?
    ensures Parse(lib, Serialize(lib, dilithium, sm2Der).value) == Some((dilithium, sm2Der))
  {
    var s := dilithium + sm2Der;
    assert s[..DILITHIUM_SIGNATURE_BYTES] == dilithium && s[DILITHIUM_SIGNATURE_BYTES..] == sm2Der;
  }

  lemma SerializeOfParse(lib: Lib, signature: seq<byte>)
    requires Parse(lib, signature).Some?
    ensures Serialize(lib, Parse(lib, signature).value.0, Parse(lib, signature).value.1) == Some(signature)
  {
    assert signature == signature[..DILITHIUM_SIGNATURE_BYTES] + signature[DILITHIUM_SIGNATURE_BYTES..];
  }

  /** Over a decoder that reads encodings, a composite signature parses iff it
      is 2420 bytes followed by the DER of a positive pair. */
  lemma ParsesIffDer(lib: Lib, signature: seq<byte>)
    requires DecodesEncodings(lib.d2i) && |signature| <= LONG_MAX
    ensures Parse(lib, signature).Some?
       <==> |signature| > DILITHIUM_SIGNATURE_BYTES && IsDerSignature(signature[DILITHIUM_SIGNATURE_BYTES..])
  {
    if |signature| > DILITHIUM_SIGNATURE_BYTES {
      AcceptsExactlyDer(lib.d2i, signature[DILITHIUM_SIGNATURE_BYTES..]);
    }
  }

  /** composite_serialize_signature. */
  method SerializeSignature(lib: Lib, dilithium: seq<byte>, sm2Der: seq<byte>) returns (r: Option<seq<byte>>)
    ensures r == Serialize(lib, dilithium, sm2Der)
  {
    if |dilithium| != DILITHIUM_SIGNATURE_BYTES {
      return None;
    }
    var valid := SignatureIsValid(lib.d2i, sm2Der);
    if !valid {
      return None;
    }
    var output := Joined(dilithium, sm2Der);
    return Some(output);
  }

  /** composite_parse_signature: the outputs are cleared first and point into
      the input afterwards. */
  method ParseSignature(lib: Lib, signature: seq<byte>) returns (ok: bool, dilithium: seq<byte>, sm2Der: seq<byte>)
    ensures ok <==> Parse(lib, signature).Some?
    ensures ok <==> |signature| > 2420 && ValidSignature(lib.d2i, signature[2420..])
    ensures ok ==> |dilithium| == 2420
    ensures ok ==> signature == dilithium + sm2Der && Serialize(lib, dilithium, sm2Der) == Some(signature)
    ensures !ok ==> dilithium == [] == sm2Der
  {
    ok, dilithium, sm2Der := false, [], [];
    if |signature| <= DILITHIUM_SIGNATURE_BYTES {
      return;
    }
    ok := SignatureIsValid(lib.d2i, signature[DILITHIUM_SIGNATURE_BYTES..]);
    if ok {
      SerializeOfParse(lib, signature);
      dilithium, sm2Der := signature[..DILITHIUM_SIGNATURE_BYTES], signature[DILITHIUM_SIGNATURE_BYTES..];
    }
  }

  /** One allocation and two copies. */
  method Joined(a: seq<byte>, b: seq<byte>) returns (r: seq<byte>)
    ensures r == a + b
  {
    var output := new byte[|a| + |b|];
    CopyInto(output, 0, a);
    CopyInto(output, |a|, b);
    return output[..];
  }

  // ----- sign and verify

  /** What composite_sign returns. */
  function Sign(lib: Lib, key: PrivateKey, message: seq<byte>, context: seq<byte>, nonce: nat): Option<seq<byte>> {
    if key.sm2.None? || MPrime(lib, message, context).None? then None
    else
      var m := MPrime(lib, message, context).value;
      match (lib.dilithiumSign(key.dilithium, m, nonce), lib.sm2Sign(key.sm2.value, m, nonce))
      case (Some(d), Some(s)) => Serialize(lib, d, s)
      case (_, _) => None
  }

  /** composite_sign: the parts sign the same M' and are joined. */
  method SignMessage(lib: Lib, key: PrivateKey, message: seq<byte>, context: seq<byte>, nonce: nat)
    returns (signature: Option<seq<byte>>)
    ensures signature == Sign(lib, key, message, context, nonce)
    ensures signature.Some? ==> |signature.value| > DILITHIUM_SIGNATURE_BYTES && Parse(lib, signature.value).Some?
  {
    if key.sm2.None? {
      return None;
    }
    var m := BuildMessage(lib, message, context);
    if m.None? {
      return None;
    }
    var dilithium := lib.dilithiumSign(key.dilithium, m.value, nonce);
    if dilithium.None? {
      return None;
    }
    var sm2 := lib.sm2Sign(key.sm2.value, m.value, nonce);
    if sm2.None? {
      return None;
    }
    signature := SerializeSignature(lib, dilithium.value, sm2.value);
    if signature.Some? {
      ParseOfSerialize(lib, dilithium.value, sm2.value);
    }
  }

  datatype VerifyResult = VerifyResult(formatValid: bool, dilithiumValid: bool, sm2Valid: bool, compositeValid: bool)

  /** The strict AND: the parts verify over the same M'. */
  ghost predicate Verifies(lib: Lib, key: PublicKey, message: seq<byte>, context: seq<byte>, signature: seq<byte>) {
    && key.sm2.Some? && Parse(lib, signature).Some? && MPrime(lib, message, context).Some?
    && var (d, s) := Parse(lib, signature).value;
       var m := MPrime(lib, message, context).value;
       lib.dilithiumVerify(key.dilithium, m, d) && lib.sm2Verify(key.sm2.value, m, s)
  }

  /** composite_verify_detailed. */
  method VerifyDetailed(lib: Lib, key: PublicKey, message: seq<byte>, context: seq<byte>, signature: seq<byte>)
    returns (result: VerifyResult)
    ensures result.compositeValid <==> Verifies(lib, key, message, context, signature)
    ensures result.compositeValid <==> result.formatValid && result.dilithiumValid && result.sm2Valid
    ensures result.formatValid <==> key.sm2.Some? && Parse(lib, signature).Some?
    ensures result.dilithiumValid <==>
              result.formatValid && MPrime(lib, message, context).Some?
              && lib.dilithiumVerify(key.dilithium, MPrime(lib, message, context).value,
                                     signature[..DILITHIUM_SIGNATURE_BYTES])
    ensures result.sm2Valid <==>
              result.formatValid && MPrime(lib, message, context).Some?
              && lib.sm2Verify(key.sm2.value, MPrime(lib, message, context).value,
                               signature[DILITHIUM_SIGNATURE_BYTES..])
  {
    result := VerifyResult(false, false, false, false);
    if key.sm2.None? {
      return;
    }
    var parsed, d, s := ParseSignature(lib, signature);
    if !parsed {
      return;
    }
    ParseOfSerialize(lib, d, s);
    result := result.(formatValid := true);
    var m := BuildMessage(lib, message, context);
    if m.None? {
      return;
    }
    result := result.(dilithiumValid := lib.dilithiumVerify(key.dilithium, m.value, d));
    result := result.(sm2Valid := lib.sm2Verify(key.sm2.value, m.value, s));
    result := result.(compositeValid := result.dilithiumValid && result.sm2Valid);
  }

  /** What a key signs, its partner verifies. */
  lemma SignedVerifies(lib: Lib, secret: PrivateKey, public: PublicKey, message: seq<byte>, context: seq<byte>, nonce: nat)
    requires Matching(lib, secret, public)
    requires Sign(lib, secret, message, context, nonce).Some?
    ensures Verifies(lib, public, message, context, Sign(lib, secret, message, context, nonce).value)
  {
    var m := MPrime(lib, message, context).value;
    var d, s := lib.dilithiumSign(secret.dilithium, m, nonce).value, lib.sm2Sign(secret.sm2.value, m, nonce).value;
    ParseOfSerialize(lib, d, s);
  }
}

/** The older two-component interface as an adapter over the composite core. */
module LegacySignature {
  import opened Bytes
  import opened Library
  import opened CompositeKey
  import opened CompositeSignature

  class HybridSignature {
    var sm2: seq<byte>
    var dilithium: seq<byte>

    constructor ()
      ensures IsCleared()
    {
      sm2, dilithium := [], [];
    }

    predicate IsCleared()
      reads this
    {
      sm2 == [] && dilithium == []
    }

    /** hybrid_signature_cleanup. */
    method Cleanup()
      modifies this
      ensures IsCleared()
    {
      sm2, dilithium := [], [];
    }
  }

  /** hybrid_sign: rejoining the parts gives the composite signature of the
      same message under the empty context. */
  method HybridSign(lib: Lib, sm2Secret: Option<Sm2Secret>, dilithiumSecret: seq<byte>, message: seq<byte>,
                    nonce: nat, signature: HybridSignature)
    returns (ok: bool)
    modifies signature
    ensures ok <==> |dilithiumSecret| == DILITHIUM_SECRET_KEY_BYTES
                    && Sign(lib, PrivateKey(sm2Secret, dilithiumSecret), message, [], nonce).Some?
    ensures ok ==> Serialize(lib, signature.dilithium, signature.sm2)
                   == Sign(lib, PrivateKey(sm2Secret, dilithiumSecret), message, [], nonce)
    ensures ok ==> signature.dilithium != [] && signature.sm2 != []
    ensures !ok ==> signature.IsCleared()
  {
    signature.Cleanup();
    if sm2Secret.None? || |dilithiumSecret| != DILITHIUM_SECRET_KEY_BYTES {
      return false;
    }
    var serialized := SignMessage(lib, PrivateKey(sm2Secret, dilithiumSecret), message, [], nonce);
    if serialized.None? {
      return false;
    }
    var dilithium, sm2;
    ok, dilithium, sm2 := ParseSignature(lib, serialized.value);
    if ok {
      signature.dilithium, signature.sm2 := dilithium, sm2;
    }
  }

  /** What hybrid_verify accepts. */
  ghost predicate LegacyVerifies(lib: Lib, sm2Public: Option<EvpPublic>, dilithiumPublic: seq<byte>,
                                 message: seq<byte>, dilithium: seq<byte>, sm2: seq<byte>)
  {
    |dilithiumPublic| == DILITHIUM_PUBLIC_KEY_BYTES
    && exists whole :: Serialize(lib, dilithium, sm2) == Some(whole)
                    && Verifies(lib, PublicKey(sm2Public, dilithiumPublic), message, [], whole)
  }

  /** hybrid_verify: rejoins the parts and verifies under the empty context. */
  method HybridVerify(lib: Lib, sm2Public: Option<EvpPublic>, dilithiumPublic: seq<byte>, message: seq<byte>,
                      signature: HybridSignature)
    returns (valid: bool)
    ensures valid <==> LegacyVerifies(lib, sm2Public, dilithiumPublic, message, signature.dilithium, signature.sm2)
  {
    if sm2Public.None? || |dilithiumPublic| != DILITHIUM_PUBLIC_KEY_BYTES {
      return false;
    }
    var serialized := SerializeSignature(lib, signature.dilithium, signature.sm2);
    if serialized.None? {
      return false;
    }
    var result := VerifyDetailed(lib, PublicKey(sm2Public, dilithiumPublic), message, [], serialized.value);
    return result.compositeValid;
  }

  /** Both interfaces give the same verdict: on the parts of any composite
      signature hybrid_verify is composite_verify, and on parts that do not
      join to one it fails. */
  lemma LegacyAgrees(lib: Lib, key: PublicKey, message: seq<byte>, dilithium: seq<byte>, sm2: seq<byte>)
    ensures Serialize(lib, dilithium, sm2).None? ==>
              !LegacyVerifies(lib, key.sm2, key.dilithium, message, dilithium, sm2)
    ensures forall whole :: Parse(lib, whole) == Some((dilithium, sm2)) ==>
              (LegacyVerifies(lib, key.sm2, key.dilithium, message, dilithium, sm2)
               <==> Verifies(lib, key, message, [], whole))
  {
    forall whole | Parse(lib, whole) == Some((dilithium, sm2))
      ensures LegacyVerifies(lib, key.sm2, key.dilithium, message, dilithium, sm2)
         <==> Verifies(lib, key, message, [], whole)
    {
      SerializeOfParse(lib, whole);
    }
  }
}
