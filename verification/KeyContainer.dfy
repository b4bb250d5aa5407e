/** The authenticated container that holds the Dilithium2 keys: a fixed layout
    with the header as additional authenticated data. */
module KeyContainer {
  import opened Bytes
  import opened Library

  const SALT_BYTES: nat := 16
  const IV_BYTES: nat := 12
  const TAG_BYTES: nat := 16
  const ITERATIONS: nat := 200000
  const HEADER_BYTES: nat := 8 + 4 + SALT_BYTES + IV_BYTES + 4
  const PLAINTEXT_BYTES: nat := 8 + DILITHIUM_PUBLIC_KEY_BYTES + DILITHIUM_SECRET_KEY_BYTES
  const FILE_BYTES: nat := HEADER_BYTES + PLAINTEXT_BYTES + TAG_BYTES

  /** "HPQCDK01" */
  const STORE_MAGIC: seq<byte> := [0x48, 0x50, 0x51, 0x43, 0x44, 0x4b, 0x30, 0x31]
  /** "DIL2K001" */
  const PLAINTEXT_MAGIC: seq<byte> := [0x44, 0x49, 0x4c, 0x32, 0x4b, 0x30, 0x30, 0x31]

  type Salt = s: seq<byte> | |s| == SALT_BYTES witness seq(SALT_BYTES, _ => 0)
  type Iv = s: seq<byte> | |s| == IV_BYTES witness seq(IV_BYTES, _ => 0)

  /** Key derivation, AES-256-GCM and encrypted PKCS#8, with their results
      None when the library call fails. */
  datatype StoreLib = StoreLib(
    derive: (string, Salt) -> Option<seq<byte>>,
    seal: (seq<byte>, Iv, seq<byte>, seq<byte>) -> Option<(seq<byte>, seq<byte>)>,
    unseal: (seq<byte>, Iv, seq<byte>, seq<byte>, seq<byte>) -> Option<seq<byte>>,
    pemEncode: (Sm2Secret, string, nat) -> seq<byte>,
    pemDecode: (seq<byte>, string) -> Option<Sm2Secret>,
    passwordRoom: nat)   // the buffer that the PEM reader hands to the password callback

  /** Decryption undoes encryption, with the same key, IV and header. */
  ghost predicate Unseals(lib: StoreLib) {
    forall key, iv, aad, plain, box :: lib.seal(key, iv, aad, plain) == Some(box) ==>
      lib.unseal(key, iv, aad, box.0, box.1) == Some(plain)
  }

  /** The same for PKCS#8, asked only for passphrases that the reader can get. */
  ghost predicate ReadsPem(lib: StoreLib) {
    forall secret, pass, nonce :: PasswordGiven(pass, lib.passwordRoom) == Some(pass) ==>
      lib.pemDecode(lib.pemEncode(secret, pass, nonce), pass) == Some(secret)
  }

  ghost predicate Undoes(lib: StoreLib) { Unseals(lib) && ReadsPem(lib) }

  /** password_callback: None when the passphrase does not fit the buffer. */
  function PasswordGiven(pass: string, room: nat): Option<string> {
    if room == 0 || |pass| > room then None else Some(pass)
  }

  /** PEM_read_PrivateKey with that callback. */
  function ReadPem(lib: StoreLib, file: seq<byte>, pass: string): Option<Sm2Secret> {
    match PasswordGiven(pass, lib.passwordRoom)
    case None => None
    case Some(password) => lib.pemDecode(file, password)
  }

  // ----- put_u32_be and get_u32_be

  function U32Be(value: nat): (s: seq<byte>)
    requires value < 0x100000000
    ensures |s| == 4
  {
    [value / 0x1000000 % 256, value / 0x10000 % 256, value / 0x100 % 256, value % 256]
  }

  function GetU32Be(s: seq<byte>): nat
    requires |s| == 4
  {
    var (a: int, b: int, c: int, d: int) := (s[0], s[1], s[2], s[3]);
    a * 0x1000000 + b * 0x10000 + c * 0x100 + d
  }

  lemma U32IsBigEndian(value: nat, s: seq<byte>)
    requires value < 0x100000000 && |s| == 4
    ensures value < Pow256(4) && U32Be(value) == Put(4, value)
    ensures GetU32Be(s) == Value(s)
  {
    Widths();
    var v1, v2, v3 := value / 256, value / 256 / 256, value / 256 / 256 / 256;
    assert v2 == value / 0x10000 && v3 == value / 0x1000000;
    assert Put(1, v3) == Put(0, v3 / 256) + [v3 % 256];
    assert Put(2, v2) == Put(1, v3) + [v2 % 256];
    assert Put(3, v1) == Put(2, v2) + [v1 % 256];
    assert s[..3][..2] == s[..2] && s[..2][..1] == s[..1] && s[..1][..0] == [];
    assert Value(s[..1]) == s[0] && Value(s[..2]) == 256 * Value(s[..1]) + s[1];
    assert Value(s[..3]) == 256 * Value(s[..2]) + s[2];
  }

  lemma U32RoundTrip(value: nat, s: seq<byte>)
    requires value < 0x100000000 && |s| == 4
    ensures GetU32Be(U32Be(value)) == value
    ensures GetU32Be(s) < 0x100000000 && U32Be(GetU32Be(s)) == s
  {
    Widths();
    U32IsBigEndian(value, U32Be(value));
    ValueOfPut(4, value);
    PutOfValue(s);
    U32IsBigEndian(value, s);
    U32IsBigEndian(Value(s), s);
  }

  // ----- layout

  function Header(salt: Salt, iv: Iv): (h: seq<byte>)
    ensures |h| == HEADER_BYTES
  {
    STORE_MAGIC + U32Be(ITERATIONS) + salt + iv + U32Be(PLAINTEXT_BYTES)
  }

  function Plaintext(public: DilithiumPublic, secret: DilithiumSecret): (p: seq<byte>)
    ensures |p| == PLAINTEXT_BYTES
  {
    PLAINTEXT_MAGIC + public + secret
  }

  /** The whole file: None when a library call fails. */
  function Container(lib: StoreLib, pass: string, salt: Salt, iv: Iv,
                     public: DilithiumPublic, secret: DilithiumSecret): (r: Option<seq<byte>>)
    ensures r.Some? ==> |r.value| == FILE_BYTES
  {
    match lib.derive(pass, salt)
    case None => None
    case Some(key) =>
      match lib.seal(key, iv, Header(salt, iv), Plaintext(public, secret))
      case None => None
      case Some((cipher, tag)) =>
        if |cipher| != PLAINTEXT_BYTES || |tag| != TAG_BYTES then None
        else Some(Header(salt, iv) + cipher + tag)
  }

  /** encrypt_dilithium_payload: writes every field at its offset. */
  method EncryptPayload(lib: StoreLib, public: DilithiumPublic, secret: DilithiumSecret, pass: string,
                        random: Option<(Salt, Iv)>, output: array<byte>)
    returns (ok: bool)
    requires output.Length == FILE_BYTES
    modifies output
    ensures ok <==> random.Some? && Container(lib, pass, random.value.0, random.value.1, public, secret).Some?
    ensures ok ==> Container(lib, pass, random.value.0, random.value.1, public, secret) == Some(output[..])
  {
    WriteFixedFields(output);
    if random.None? {
      return false;
    }
    var (salt, iv) := random.value;
    WriteSaltAndIv(output, salt, iv);
    var key := lib.derive(pass, salt);
    if key.None? {
      return false;
    }
    var box := lib.seal(key.value, iv, output[..HEADER_BYTES], Plaintext(public, secret));
    if box.None? || |box.value.0| != PLAINTEXT_BYTES || |box.value.1| != TAG_BYTES {
      return false;
    }
    WriteBody(output, Header(salt, iv), box.value.0, box.value.1);
    return true;
  }

  method WriteFixedFields(output: array<byte>)
    requires output.Length == FILE_BYTES
    modifies output
    ensures output[..12] == STORE_MAGIC + U32Be(ITERATIONS) && output[40..44] == U32Be(PLAINTEXT_BYTES)
  {
    hide U32Be;
    CopyInto(output, 0, STORE_MAGIC);
    CopyInto(output, 8, U32Be(ITERATIONS));
    assert output[..12] == STORE_MAGIC + U32Be(ITERATIONS);
    CopyInto(output, HEADER_BYTES - 4, U32Be(PLAINTEXT_BYTES));
    assert output[..12] == STORE_MAGIC + U32Be(ITERATIONS);
  }

  method WriteSaltAndIv(output: array<byte>, salt: Salt, iv: Iv)
    requires output.Length == FILE_BYTES
    requires output[..12] == STORE_MAGIC + U32Be(ITERATIONS) && output[40..44] == U32Be(PLAINTEXT_BYTES)
    modifies output
    ensures output[..HEADER_BYTES] == Header(salt, iv)
  {
    hide U32Be;
    ghost var front, last := output[..12], output[40..44];
    CopyInto(output, 12, salt);
    assert output[..28] == front + salt && output[40..44] == last;
    CopyInto(output, 12 + SALT_BYTES, iv);
    assert output[..40] == front + salt + iv && output[40..44] == last;
    assert output[..HEADER_BYTES] == output[..40] + output[40..44];
  }

  method WriteBody(output: array<byte>, ghost header: seq<byte>, cipher: seq<byte>, tag: seq<byte>)
    requires output.Length == FILE_BYTES && |cipher| == PLAINTEXT_BYTES && |tag| == TAG_BYTES
    requires output[..HEADER_BYTES] == header
    modifies output
    ensures output[..] == header + cipher + tag
  {
    CopyInto(output, HEADER_BYTES, cipher);
    assert output[..HEADER_BYTES + PLAINTEXT_BYTES] == header + cipher;
    CopyInto(output, HEADER_BYTES + PLAINTEXT_BYTES, tag);
    assert output[..] == output[..HEADER_BYTES + PLAINTEXT_BYTES] + tag;
  }

  /** Every field of a container at its offset; what is sealed is the plaintext
      magic and both keys, with the first 44 bytes as associated data. */
  lemma ContainerLayout(lib: StoreLib, pass: string, salt: Salt, iv: Iv, public: DilithiumPublic, secret: DilithiumSecret)
    requires Container(lib, pass, salt, iv, public, secret).Some?
    ensures var file := Container(lib, pass, salt, iv, public, secret).value;
            && |file| == 3940 && file[..8] == [0x48, 0x50, 0x51, 0x43, 0x44, 0x4b, 0x30, 0x31]
            && file[8..12] == [0x00, 0x03, 0x0d, 0x40] && file[12..28] == salt && file[28..40] == iv
            && file[40..44] == [0x00, 0x00, 0x0f, 0x28]
            && lib.derive(pass, salt).Some?
            && lib.seal(lib.derive(pass, salt).value, iv, file[..44],
                        [0x44, 0x49, 0x4c, 0x32, 0x4b, 0x30, 0x30, 0x31] + public + secret)
               == Some((file[44..3924], file[3924..]))
  {
    var file := Container(lib, pass, salt, iv, public, secret).value;
    var key := lib.derive(pass, salt).value;
    var (cipher, tag) := lib.seal(key, iv, Header(salt, iv), Plaintext(public, secret)).value;
    HeaderFields(salt, iv, cipher + tag);
    assert file == Header(salt, iv) + (cipher + tag);
    assert file[8..12] == U32Be(ITERATIONS) && file[40..44] == U32Be(PLAINTEXT_BYTES);
    assert file[HEADER_BYTES..3924] == cipher && file[3924..] == tag;
  }

  /** A file opens to two keys iff the header is right and the body unseals,
      under the key of its salt, to the plaintext magic and those keys. */
  lemma OpensMeans(lib: StoreLib, pass: string, file: seq<byte>, public: DilithiumPublic, secret: DilithiumSecret)
    ensures Contents(lib, pass, file) == Some((public, secret))
            <==>
            && |file| == 3940 && file[..8] == [0x48, 0x50, 0x51, 0x43, 0x44, 0x4b, 0x30, 0x31]
            && file[8..12] == [0x00, 0x03, 0x0d, 0x40] && file[40..44] == [0x00, 0x00, 0x0f, 0x28]
            && lib.derive(pass, file[12..28]).Some?
            && lib.unseal(lib.derive(pass, file[12..28]).value, file[28..40], file[..44], file[44..3924], file[3924..])
               == Some([0x44, 0x49, 0x4c, 0x32, 0x4b, 0x30, 0x30, 0x31] + public + secret)
  {
    var plain := PLAINTEXT_MAGIC + public + secret;
    assert plain[..8] == PLAINTEXT_MAGIC && plain[8..1320] == public && plain[1320..] == secret;
    if |file| == FILE_BYTES {
      U32RoundTrip(ITERATIONS, file[8..12]);
      U32RoundTrip(PLAINTEXT_BYTES, file[40..44]);
    }
    if Contents(lib, pass, file) == Some((public, secret)) {
      var body := lib.unseal(lib.derive(pass, file[12..28]).value, file[28..40], file[..44], file[44..3924], file[3924..]).value;
      assert body == body[..8] + body[8..1320] + body[1320..];
    }
  }

  /** What a file opens to. */
  function Contents(lib: StoreLib, pass: string, file: seq<byte>): Option<(DilithiumPublic, DilithiumSecret)> {
    if |file| != FILE_BYTES || file[..8] != STORE_MAGIC
       || GetU32Be(file[8..12]) != ITERATIONS || GetU32Be(file[40..44]) != PLAINTEXT_BYTES
    then None
    else
      match lib.derive(pass, file[12..28])
      case None => None
      case Some(key) =>
        match lib.unseal(key, file[28..40], file[..HEADER_BYTES], file[HEADER_BYTES..3924], file[3924..])
        case None => None
        case Some(plain) =>
          if |plain| != PLAINTEXT_BYTES || plain[..8] != PLAINTEXT_MAGIC then None
          else Some((plain[8..1320], plain[1320..]))
  }

  /** decrypt_dilithium_payload. */
  method DecryptPayload(lib: StoreLib, input: seq<byte>, pass: string)
    returns (r: Option<(DilithiumPublic, DilithiumSecret)>)
    requires |input| == FILE_BYTES
    ensures r == Contents(lib, pass, input)
  {
    if input[..8] != STORE_MAGIC || GetU32Be(input[8..12]) != ITERATIONS
       || GetU32Be(input[HEADER_BYTES - 4..HEADER_BYTES]) != PLAINTEXT_BYTES {
      return None;
    }
    var salt, iv := input[12..12 + SALT_BYTES], input[28..28 + IV_BYTES];
    var key := lib.derive(pass, salt);
    if key.None? {
      return None;
    }
    var cipher := input[HEADER_BYTES..HEADER_BYTES + PLAINTEXT_BYTES];
    var tag := input[HEADER_BYTES + PLAINTEXT_BYTES..];
    var plain := lib.unseal(key.value, iv, input[..HEADER_BYTES], cipher, tag);
    if plain.None? || |plain.value| != PLAINTEXT_BYTES || plain.value[..8] != PLAINTEXT_MAGIC {
      return None;
    }
    return Some((plain.value[8..8 + DILITHIUM_PUBLIC_KEY_BYTES], plain.value[8 + DILITHIUM_PUBLIC_KEY_BYTES..]));
  }

  /** A container opens, under its passphrase, to the keys put into it. */
  lemma ContainerOpens(lib: StoreLib, pass: string, salt: Salt, iv: Iv, public: DilithiumPublic, secret: DilithiumSecret)
    requires Unseals(lib)
    requires Container(lib, pass, salt, iv, public, secret).Some?
    ensures Contents(lib, pass, Container(lib, pass, salt, iv, public, secret).value) == Some((public, secret))
  {
    var file := Container(lib, pass, salt, iv, public, secret).value;
    var key := lib.derive(pass, salt).value;
    var (cipher, tag) := lib.seal(key, iv, Header(salt, iv), Plaintext(public, secret)).value;
    HeaderFields(salt, iv, cipher + tag);
    assert file == Header(salt, iv) + (cipher + tag);
    assert file[HEADER_BYTES..3924] == cipher && file[3924..] == tag;
    var plain := Plaintext(public, secret);
    assert plain[..8] == PLAINTEXT_MAGIC && plain[8..1320] == public && plain[1320..] == secret;
  }

  lemma HeaderFields(salt: Salt, iv: Iv, body: seq<byte>)
    ensures var file := Header(salt, iv) + body;
            && file[..8] == STORE_MAGIC && file[12..28] == salt && file[28..40] == iv
            && file[..HEADER_BYTES] == Header(salt, iv)
            && GetU32Be(file[8..12]) == ITERATIONS && GetU32Be(file[40..44]) == PLAINTEXT_BYTES
  {
    var file := Header(salt, iv) + body;
    assert file[8..12] == U32Be(ITERATIONS) && file[40..44] == U32Be(PLAINTEXT_BYTES);
  }

  /** A file that opens has exactly the header that its salt and IV give. */
  lemma OpensOnlyWithHeader(lib: StoreLib, pass: string, file: seq<byte>)
    requires Contents(lib, pass, file).Some?
    ensures |file| == FILE_BYTES && file[..HEADER_BYTES] == Header(file[12..28], file[28..40])
  {
    U32RoundTrip(ITERATIONS, file[8..12]);
    U32RoundTrip(PLAINTEXT_BYTES, file[40..44]);
    assert file[..HEADER_BYTES] == file[..8] + file[8..12] + file[12..28] + file[28..40] + file[40..44];
  }
}
