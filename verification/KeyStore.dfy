/** The key store as file operations, each of which may fail and between any
    two of which the process may crash.  `history` records the files after
    every operation, so a statement about all of its entries is a statement
    about every crash. */
module Disks {
  import opened Bytes

  datatype Role = Ca | Server | Encryption

  datatype FileName = Sm2File(role: Role) | DilithiumFile(role: Role)

  type Files = map<FileName, seq<byte>>

  class Disk {
    var files: Files
    ghost var history: seq<Files>
    ghost var faults: nat         // operations that failed for outside reasons
    ghost var unlinkFaults: nat   // those of them that were unlinks

    ghost predicate Valid()
      reads this
    {
      history != [] && history[|history| - 1] == files
    }

    /** What every operation keeps of the records. */
    twostate predicate Extends()
      reads this
    {
      old(history) <= history && old(faults) <= faults && old(unlinkFaults) <= unlinkFaults
    }

    constructor (initial: Files)
      ensures Valid() && files == initial && history == [initial] && faults == unlinkFaults == 0
    {
      files, history, faults, unlinkFaults := initial, [initial], 0, 0;
    }

    /** An outside failure that changes no file. */
    ghost method Fault()
      modifies this`faults
      ensures faults == old(faults) + 1
    {
      faults := faults + 1;
    }

    /** open with O_CREAT and O_EXCL. */
    method CreateExclusive(f: FileName) returns (ok: bool)
      requires Valid()
      modifies this
      ensures Valid() && history == old(history) + [files]
      ensures faults >= old(faults) && unlinkFaults == old(unlinkFaults)
      ensures ok ==> f !in old(files) && files == old(files)[f := []]
      ensures !ok ==> files == old(files) && (f in files || faults > old(faults))
    {
      var fails: bool := *;
      ok := f !in files && !fails;
      if ok {
        files := files[f := []];
      } else {
        Fault();
      }
      history := history + [files];
    }

    /** write: appends some of the data, or fails. */
    method Write(f: FileName, data: seq<byte>) returns (count: int)
      requires Valid() && f in files && data != []
      modifies this
      ensures Valid() && history == old(history) + [files]
      ensures faults >= old(faults) && unlinkFaults == old(unlinkFaults)
      ensures count <= |data|
      ensures count > 0 ==> files == old(files)[f := old(files)[f] + data[..count]]
      ensures count <= 0 ==> files == old(files) && faults > old(faults)
    {
      count := *;
      if count > |data| {
        count := |data|;
      }
      if count > 0 {
        files := files[f := files[f] + data[..count]];
      } else {
        Fault();
      }
      history := history + [files];
    }

    /** fflush, fsync, fclose, fdopen, read permission and the like: success or
        failure, and no change to the files. */
    method Attempt() returns (ok: bool)
      modifies this`faults
      ensures ok ==> faults == old(faults)
      ensures !ok ==> faults > old(faults)
    {
      ok := *;
      if !ok {
        Fault();
      }
    }

    method Unlink(f: FileName)
      requires Valid()
      modifies this
      ensures Valid() && history == old(history) + [files]
      ensures faults >= old(faults) && unlinkFaults >= old(unlinkFaults)
      ensures files == old(files) || files == old(files) - {f}
      ensures unlinkFaults == old(unlinkFaults) ==> files == old(files) - {f}
    {
      var fails: bool := *;
      if fails {
        Fault();
        unlinkFaults := unlinkFaults + 1;
      } else {
        files := files - {f};
      }
      history := history + [files];
    }

    /** read: some of what follows `offset`, or failure. */
    method Read(f: FileName, offset: nat, max: nat) returns (data: seq<byte>)
      requires Valid() && f in files && max > 0
      modifies this`faults
      ensures faults >= old(faults)
      ensures |data| <= max && offset + |data| <= |files[f]| + (if data == [] then offset else 0)
      ensures data != [] ==> data == files[f][offset..offset + |data|] && faults == old(faults)
      ensures data == [] ==> faults > old(faults) || offset >= |files[f]|
    {
      var count: int := *;
      var available := |files[f]| - offset;
      if count > max {
        count := max;
      }
      if count > available {
        count := available;
      }
      if count > 0 {
        return files[f][offset..offset + count];
      }
      Fault();
      return [];
    }
  }
}

/** hybrid_key_store_save, _load and _status over such a disk. */
module KeyStore {
  import opened Bytes
  import opened Library
  import opened CompositeKey
  import opened CompositeSignature
  import opened KeyContainer
  import opened Disks

  datatype Status = Missing | Complete | Incomplete

  predicate PassphraseValid(pass: string) { 12 <= |pass| <= 0x7fff_ffff }

  function StoreStatus(files: Files, role: Role): Status {
    if Sm2File(role) !in files && DilithiumFile(role) !in files then Missing
    else if Sm2File(role) in files && DilithiumFile(role) in files then Complete
    else Incomplete
  }

  /** The files of all other names. */
  function Others(files: Files, role: Role): Files {
    files - {Sm2File(role), DilithiumFile(role)}
  }

  // ----- what a store holds

  type KeyPair = (PrivateKey, PublicKey)

  /** What load would return from these files, if nothing outside fails. */
  function Stored(lib: Lib, store: StoreLib, files: Files, role: Role, pass: string): Option<KeyPair> {
    if StoreStatus(files, role) != Complete then None
    else
      match (LoadedSm2(lib, store, files[Sm2File(role)], pass), Contents(store, pass, files[DilithiumFile(role)]))
      case (Some(secret), Some((public, dilithium))) =>
        Some((PrivateKey(Some(secret), dilithium), PublicKey(Some(lib.sm2PublicOf(secret)), public)))
      case (_, _) => None
  }

  /** A private key that load_sm2_private_key lets through. */
  predicate Sm2Passes(lib: Lib, secret: Sm2Secret) {
    lib.sm2PublicOf(secret).isSm2 && lib.sm2PrivateOk(secret)
  }

  /** What load_sm2_private_key makes of a file. */
  function LoadedSm2(lib: Lib, store: StoreLib, file: seq<byte>, pass: string): Option<Sm2Secret> {
    match ReadPem(store, file, pass)
    case None => None
    case Some(secret) => if Sm2Passes(lib, secret) then Some(secret) else None
  }

  /** When a saved key can be loaded again: its passphrase fits the reader's
      buffer and it passes the checks of the loader. */
  predicate Reloads(lib: Lib, store: StoreLib, secret: Sm2Secret, pass: string) {
    PasswordGiven(pass, store.passwordRoom).Some? && Sm2Passes(lib, secret)
  }

  lemma SavedSm2(lib: Lib, store: StoreLib, secret: Sm2Secret, pass: string, nonce: nat)
    requires ReadsPem(store)
    ensures LoadedSm2(lib, store, store.pemEncode(secret, pass, nonce), pass)
         == if Reloads(lib, store, secret, pass) then Some(secret) else None
    ensures Reloads(lib, store, secret, pass)
       <==> 0 < store.passwordRoom && |pass| <= store.passwordRoom
            && lib.sm2PublicOf(secret).isSm2 && lib.sm2PrivateOk(secret)
  {
  }

  /** A passphrase longer than the buffer loads nothing, from whatever files;
      and some such passphrase passes the store's own check, unless the buffer
      is as large as that check allows. */
  lemma LongPassphraseLoadsNothing(lib: Lib, store: StoreLib, files: Files, role: Role)
    ensures forall pass: string :: |pass| > store.passwordRoom ==> Stored(lib, store, files, role, pass).None?
    ensures store.passwordRoom < 0x7fff_ffff ==>
              exists pass: string :: PassphraseValid(pass) && |pass| > store.passwordRoom
  {
    if store.passwordRoom < 0x7fff_ffff {
      var n := if store.passwordRoom < 11 then 12 else store.passwordRoom + 1;
      var pass := seq(n, _ => 'x');
      assert PassphraseValid(pass) && |pass| > store.passwordRoom;
    }
  }

  /** The pair that a store can give back: its SM2 public key is derived from
      the private one, because only the private one is written. */
  function Kept(lib: Lib, pair: KeyPair): KeyPair {
    if pair.0.sm2.None? then pair else (pair.0, pair.1.(sm2 := Some(lib.sm2PublicOf(pair.0.sm2.value))))
  }

  /** All or nothing: load fails or gives the pair being saved. */
  ghost predicate AllOrNothing(lib: Lib, store: StoreLib, files: Files, role: Role, pass: string, pair: KeyPair) {
    Stored(lib, store, files, role, pass).None? || Stored(lib, store, files, role, pass) == Some(Kept(lib, pair))
  }

  /** Files that saving may leave behind at any moment: nobody else's files
      change, and a Dilithium2 file beside an SM2 file means that the SM2 file
      is whole and the Dilithium2 file is a prefix of the container. */
  ghost predicate MidSave(before: Files, now: Files, role: Role, pem: seq<byte>, container: seq<byte>) {
    && Others(now, role) == Others(before, role)
    && (StoreStatus(now, role) == Complete ==> now[Sm2File(role)] == pem && now[DilithiumFile(role)] <= container)
  }

  ghost predicate AllMidSave(history: seq<Files>, from: nat, before: Files, role: Role,
                             pem: seq<byte>, container: seq<byte>)
  {
    forall i :: from <= i < |history| ==> MidSave(before, history[i], role, pem, container)
  }

  /** A prefix of a container is too short to load unless it is all of it. */
  lemma MidSaveIsAllOrNothing(lib: Lib, store: StoreLib, before: Files, now: Files, role: Role, pair: KeyPair,
                              pass: string, nonce: nat, random: Option<(Salt, Iv)>, container: seq<byte>)
    requires Undoes(store) && pair.0.sm2.Some?
    requires container != [] ==> ContainerFor(store, pair, pass, random) == Some(container)
    requires MidSave(before, now, role, store.pemEncode(pair.0.sm2.value, pass, nonce), container)
    ensures AllOrNothing(lib, store, now, role, pass, pair)
    ensures StoreStatus(now, role) == Complete && container != [] && now[DilithiumFile(role)] == container ==>
              Stored(lib, store, now, role, pass)
              == if Reloads(lib, store, pair.0.sm2.value, pass) then Some(Kept(lib, pair)) else None
  {
    SavedSm2(lib, store, pair.0.sm2.value, pass, nonce);
    if StoreStatus(now, role) == Complete && |now[DilithiumFile(role)]| == FILE_BYTES {
      assert now[DilithiumFile(role)] == container;
      ContainerOpens(store, pass, random.value.0, random.value.1, pair.1.dilithium, pair.0.dilithium);
    }
  }

  /** A saved store gives the caller's own pair back iff the key can be loaded
      again and the caller's SM2 public key is the one that belongs to the
      private key, because only the private one is written. */
  lemma SavedPairComesBack(lib: Lib, store: StoreLib, files: Files, role: Role, pair: KeyPair,
                           pass: string, nonce: nat, random: Option<(Salt, Iv)>)
    requires Undoes(store) && pair.0.sm2.Some? && ContainerFor(store, pair, pass, random).Some?
    requires StoreStatus(files, role) == Complete
    requires files[Sm2File(role)] == store.pemEncode(pair.0.sm2.value, pass, nonce)
    requires files[DilithiumFile(role)] == ContainerFor(store, pair, pass, random).value
    ensures Stored(lib, store, files, role, pass) == Some(pair)
       <==> Reloads(lib, store, pair.0.sm2.value, pass) && pair.1.sm2 == Some(lib.sm2PublicOf(pair.0.sm2.value))
  {
    MidSaveIsAllOrNothing(lib, store, files, files, role, pair, pass, nonce, random,
                          ContainerFor(store, pair, pass, random).value);
  }

  lemma PartsAreMidSave(before: Files, h: seq<Files>, from: nat, role: Role, pem: seq<byte>, container: seq<byte>)
    requires StoreStatus(before, role) == Missing
    ensures AllPartOf(h, from, before, Sm2File(role), pem) ==> AllMidSave(h, from, before, role, pem, container)
    ensures AllPartOf(h, from, before[Sm2File(role) := pem], DilithiumFile(role), container) ==>
              AllMidSave(h, from, before, role, pem, container)
  {
    forall now | PartOf(before, now, Sm2File(role), pem)
      ensures MidSave(before, now, role, pem, container)
    {
      OthersFollow(before, now, role, Sm2File(role));
      assert DilithiumFile(role) !in now - {Sm2File(role)};
    }
    forall now | PartOf(before[Sm2File(role) := pem], now, DilithiumFile(role), container)
      ensures MidSave(before, now, role, pem, container)
    {
      OthersFollow(before[Sm2File(role) := pem], now, role, DilithiumFile(role));
      assert Others(before[Sm2File(role) := pem], role) == Others(before, role);
      assert Sm2File(role) in now - {DilithiumFile(role)} && (now - {DilithiumFile(role)})[Sm2File(role)] == pem;
    }
  }

  lemma OthersFollow(before: Files, now: Files, role: Role, f: FileName)
    requires f == Sm2File(role) || f == DilithiumFile(role)
    requires now - {f} == before - {f}
    ensures Others(now, role) == Others(before, role)
  {
    assert Others(now, role) == (now - {f}) - {Sm2File(role), DilithiumFile(role)};
    assert Others(before, role) == (before - {f}) - {Sm2File(role), DilithiumFile(role)};
  }

  // ----- the write and read loops

  /** `f` is absent or holds a prefix of `data`, and nothing else differs. */
  ghost predicate PartOf(before: Files, now: Files, f: FileName, data: seq<byte>) {
    now - {f} == before - {f} && (f in now ==> now[f] <= data)
  }

  ghost predicate AllPartOf(history: seq<Files>, from: nat, before: Files, f: FileName, data: seq<byte>) {
    forall i :: from <= i < |history| ==> PartOf(before, history[i], f, data)
  }

  /** write_all: a loop over partial writes into a new file. */
  method WriteAll(disk: Disk, f: FileName, data: seq<byte>, ghost before: Files) returns (ok: bool)
    requires disk.Valid() && disk.files == before[f := []]
    modifies disk
    ensures disk.Valid() && disk.Extends() && disk.unlinkFaults == old(disk.unlinkFaults)
    ensures AllPartOf(disk.history, |old(disk.history)|, before, f, data)
    ensures PartOf(before, disk.files, f, data)
    ensures ok ==> disk.files == before[f := data]
    ensures !ok ==> disk.faults > old(disk.faults)
  {
    var offset := 0;
    while offset < |data|
      invariant offset <= |data| && disk.Valid() && disk.Extends() && disk.unlinkFaults == old(disk.unlinkFaults)
      invariant disk.files == before[f := data[..offset]]
      invariant AllPartOf(disk.history, |old(disk.history)|, before, f, data)
    {
      var written := disk.Write(f, data[offset..]);
      if written <= 0 {
        return false;
      }
      assert data[..offset + written] == data[..offset] + data[offset..][..written];
      offset := offset + written;
      assert PartOf(before, before[f := data[..offset]], f, data);
    }
    assert data[..offset] == data;
    return true;
  }

  /** read_all. */
  method ReadAll(disk: Disk, f: FileName, length: nat) returns (r: Option<seq<byte>>)
    requires disk.Valid() && f in disk.files
    modifies disk`faults
    ensures disk.faults >= old(disk.faults)
    ensures r.Some? ==> length <= |disk.files[f]| && r.value == disk.files[f][..length]
    ensures r.None? ==> disk.faults > old(disk.faults) || |disk.files[f]| < length
  {
    var buffer: seq<byte> := [];
    while |buffer| < length
      invariant |buffer| <= length && |buffer| <= |disk.files[f]| && buffer == disk.files[f][..|buffer|]
      invariant disk.Valid() && disk.faults >= old(disk.faults)
    {
      var data := disk.Read(f, |buffer|, length - |buffer|);
      if data == [] {
        return None;
      }
      buffer := buffer + data;
    }
    return Some(buffer);
  }

  // ----- saving

  /** The steps that both private-key files share: create, write, fsync and
      close.  `extra` stands for fdopen. */
  method WriteNew(disk: Disk, f: FileName, data: seq<byte>, extra: bool) returns (created: bool, ok: bool)
    requires disk.Valid()
    modifies disk
    ensures disk.Valid() && disk.Extends() && disk.unlinkFaults == old(disk.unlinkFaults)
    ensures created ==> f !in old(disk.files)
    ensures created ==> AllPartOf(disk.history, |old(disk.history)|, old(disk.files), f, data)
    ensures created ==> PartOf(old(disk.files), disk.files, f, data)
    ensures !created ==> !ok && disk.files == old(disk.files) && disk.history == old(disk.history) + [disk.files]
    ensures ok ==> disk.files == old(disk.files)[f := data]
    ensures !ok ==> f in old(disk.files) || disk.faults > old(disk.faults)
  {
    created := disk.CreateExclusive(f);
    ok := created;
    if !created {
      return;
    }
    assert PartOf(old(disk.files), disk.files, f, data);
    if extra {
      ok := disk.Attempt();
    }
    if ok {
      ok := WriteAll(disk, f, data, old(disk.files));
    }
    if ok {
      ok := disk.Attempt();                            // fflush and fsync
    }
    if ok {
      ok := disk.Attempt();                            // close
    }
  }

  /** save_sm2_private_key: removes what it created when a later step fails. */
  method SaveSm2(disk: Disk, role: Role, pem: seq<byte>) returns (ok: bool)
    requires disk.Valid()
    modifies disk
    ensures disk.Valid() && disk.Extends()
    ensures Sm2File(role) in old(disk.files) ==> !ok && disk.files == old(disk.files)
    ensures Sm2File(role) in old(disk.files) ==> disk.history == old(disk.history) + [disk.files]
    ensures Sm2File(role) !in old(disk.files) ==>
              AllPartOf(disk.history, |old(disk.history)|, old(disk.files), Sm2File(role), pem)
              && PartOf(old(disk.files), disk.files, Sm2File(role), pem)
    ensures ok ==> disk.files == old(disk.files)[Sm2File(role) := pem]
    ensures ok ==> disk.unlinkFaults == old(disk.unlinkFaults)
    ensures !ok && disk.unlinkFaults == old(disk.unlinkFaults) ==> disk.files == old(disk.files)
    ensures !ok ==> Sm2File(role) in old(disk.files) || disk.faults > old(disk.faults)
  {
    var f := Sm2File(role);
    var created;
    created, ok := WriteNew(disk, f, pem, true);
    if created && !ok {
      disk.Unlink(f);
      RestoredByUnlink(old(disk.files), disk.files, f);
    }
  }

  lemma RestoredByUnlink(before: Files, now: Files, f: FileName)
    ensures f !in before && f !in now && now - {f} == before - {f} ==> now == before
  {
    if f !in before && f !in now && now - {f} == before - {f} {
      assert before - {f} == before && now - {f} == now;
    }
  }

  /** save_dilithium_private_key: removes the file whenever it fails. */
  method SaveDilithium(store: StoreLib, disk: Disk, role: Role, pair: KeyPair, pass: string,
                       random: Option<(Salt, Iv)>)
    returns (ok: bool, ghost container: seq<byte>)
    requires disk.Valid() && DilithiumFile(role) !in disk.files
    modifies disk
    ensures disk.Valid() && disk.Extends()
    ensures AllPartOf(disk.history, |old(disk.history)|, old(disk.files), DilithiumFile(role), container)
    ensures PartOf(old(disk.files), disk.files, DilithiumFile(role), container)
    ensures container != [] ==> ContainerFor(store, pair, pass, random) == Some(container)
    ensures ok ==> container != [] && disk.files == old(disk.files)[DilithiumFile(role) := container]
    ensures ok ==> disk.unlinkFaults == old(disk.unlinkFaults)
    ensures !ok && disk.unlinkFaults == old(disk.unlinkFaults) ==> disk.files == old(disk.files)
    ensures !ok ==> disk.faults > old(disk.faults) || ContainerFor(store, pair, pass, random).None?
  {
    var f := DilithiumFile(role);
    var fileData := new byte[FILE_BYTES];
    container := [];
    ok := EncryptPayload(store, pair.1.dilithium, pair.0.dilithium, pass, random, fileData);
    if ok {
      container := fileData[..];
      var created;
      created, ok := WriteNew(disk, f, fileData[..], false);
    }
    if !ok {
      disk.Unlink(f);
      RestoredByUnlink(old(disk.files), disk.files, f);
    }
  }

  function ContainerFor(store: StoreLib, pair: KeyPair, pass: string, random: Option<(Salt, Iv)>): Option<seq<byte>> {
    if random.None? then None
    else Container(store, pass, random.value.0, random.value.1, pair.1.dilithium, pair.0.dilithium)
  }

  // ----- the whole store

  function Challenge(): seq<byte> { Ascii("hybrid-key-store-self-test") }

  ghost predicate SelfTest(lib: Lib, pair: KeyPair, nonce: nat) {
    Sign(lib, pair.0, Challenge(), [], nonce).Some?
    && Verifies(lib, pair.1, Challenge(), [], Sign(lib, pair.0, Challenge(), [], nonce).value)
  }

  /** keypair_self_test. */
  method KeypairSelfTest(lib: Lib, pair: KeyPair, nonce: nat) returns (ok: bool)
    ensures ok <==> SelfTest(lib, pair, nonce)
    ensures ok <==>
              && Sign(lib, pair.0, Ascii("hybrid-key-store-self-test"), [], nonce).Some?
              && Verifies(lib, pair.1, Ascii("hybrid-key-store-self-test"), [],
                          Sign(lib, pair.0, Ascii("hybrid-key-store-self-test"), [], nonce).value)
  {
    var signature := SignMessage(lib, pair.0, Challenge(), [], nonce);
    if signature.None? {
      return false;
    }
    var result := VerifyDetailed(lib, pair.1, Challenge(), [], signature.value);
    return result.compositeValid;
  }

  /** The two files of an empty store, one after the other, and the removal of
      both when something fails. */
  method SaveFiles(store: StoreLib, disk: Disk, role: Role, pair: KeyPair, pass: string, pem: seq<byte>,
                   random: Option<(Salt, Iv)>)
    returns (ok: bool, ghost container: seq<byte>)
    requires disk.Valid() && StoreStatus(disk.files, role) == Missing
    modifies disk
    ensures disk.Valid() && disk.Extends()
    ensures container != [] ==> ContainerFor(store, pair, pass, random) == Some(container)
    ensures AllMidSave(disk.history, |old(disk.history)|, old(disk.files), role, pem, container)
    ensures MidSave(old(disk.files), disk.files, role, pem, container)
    ensures ok ==> container != []
                   && disk.files == old(disk.files)[Sm2File(role) := pem][DilithiumFile(role) := container]
    ensures !ok && disk.unlinkFaults == old(disk.unlinkFaults) ==> disk.files == old(disk.files)
    ensures !ok ==> disk.faults > old(disk.faults) || ContainerFor(store, pair, pass, random).None?
  {
    ghost var before, start := disk.files, |disk.history|;
    container := [];
    ok := SaveSm2(disk, role, pem);
    PartsAreMidSave(before, disk.history, start, role, pem, container);
    PartsAreMidSave(before, [disk.files], 0, role, pem, container);
    var sm2Saved := ok;
    if ok {
      ghost var middle := |disk.history|;
      ghost var sofar := disk.history;
      ok, container := SaveDilithium(store, disk, role, pair, pass, random);
      PartsAreMidSave(before, sofar, start, role, pem, container);
      PartsAreMidSave(before, disk.history, middle, role, pem, container);
      PartsAreMidSave(before, [disk.files], 0, role, pem, container);
    }
    if !ok {
      RemoveBoth(disk, role, sm2Saved, before, pem, container);
    }
  }

  /** The cleanup after a failure: the SM2 file if it was saved, then the
      Dilithium2 file. */
  method RemoveBoth(disk: Disk, role: Role, sm2Saved: bool, ghost before: Files, ghost pem: seq<byte>,
                    ghost container: seq<byte>)
    requires disk.Valid() && MidSave(before, disk.files, role, pem, container)
    modifies disk
    ensures disk.Valid() && disk.Extends()
    ensures AllMidSave(disk.history, |old(disk.history)|, before, role, pem, container)
    ensures MidSave(before, disk.files, role, pem, container)
    ensures disk.unlinkFaults == old(disk.unlinkFaults) ==>
              disk.files == if sm2Saved then old(disk.files) - {Sm2File(role)} - {DilithiumFile(role)}
                            else old(disk.files) - {DilithiumFile(role)}
  {
    if sm2Saved {
      UnlinkKeepsMidSave(before, disk.files, role, pem, container, Sm2File(role));
      disk.Unlink(Sm2File(role));
    }
    UnlinkKeepsMidSave(before, disk.files, role, pem, container, DilithiumFile(role));
    disk.Unlink(DilithiumFile(role));
  }

  lemma UnlinkKeepsMidSave(before: Files, now: Files, role: Role, pem: seq<byte>, container: seq<byte>, f: FileName)
    requires MidSave(before, now, role, pem, container)
    requires f == Sm2File(role) || f == DilithiumFile(role)
    ensures MidSave(before, now - {f}, role, pem, container)
  {
    OthersFollow(now, now - {f}, role, f);
  }

  /** hybrid_key_store_save.  A crash after any operation leaves a store that
      loads to nothing or to the pair; a failure without a failed unlink leaves
      no store; and only an empty store is written to. */
  method Save(lib: Lib, store: StoreLib, disk: Disk, role: Role, pair: KeyPair, pass: string,
              signNonce: nat, pemNonce: nat, random: Option<(Salt, Iv)>)
    returns (ok: bool)
    requires disk.Valid() && Undoes(store)
    modifies disk
    ensures disk.Valid() && disk.Extends()
    ensures Sm2File(role) in old(disk.files) || DilithiumFile(role) in old(disk.files) ==>
              !ok && disk.files == old(disk.files) && disk.history == old(disk.history)
    ensures forall i :: |old(disk.history)| <= i < |disk.history| ==>
              && Others(disk.history[i], role) == Others(old(disk.files), role)
              && AllOrNothing(lib, store, disk.history[i], role, pass, pair)
              && pair.0.sm2.Some?
              && (|| Stored(lib, store, disk.history[i], role, pass) == None
                  || Stored(lib, store, disk.history[i], role, pass)
                     == Some((pair.0, PublicKey(Some(lib.sm2PublicOf(pair.0.sm2.value)), pair.1.dilithium))))
    ensures Others(disk.files, role) == Others(old(disk.files), role)
    ensures ok ==> StoreStatus(disk.files, role) == Complete && pair.0.sm2.Some?
    ensures ok ==>
              Stored(lib, store, disk.files, role, pass)
              == if Reloads(lib, store, pair.0.sm2.value, pass) then Some(Kept(lib, pair)) else None
    ensures !ok && disk.unlinkFaults == old(disk.unlinkFaults) ==> disk.files == old(disk.files)
    ensures ok ==> 12 <= |pass| <= 0x7fff_ffff
    ensures ok ==> PassphraseValid(pass) && SelfTest(lib, pair, signNonce) && ContainerFor(store, pair, pass, random).Some?
    ensures disk.faults == old(disk.faults) && StoreStatus(old(disk.files), role) == Missing ==>
              (ok <==> PassphraseValid(pass) && SelfTest(lib, pair, signNonce)
                       && ContainerFor(store, pair, pass, random).Some?)
  {
    hide Stored, ContainerFor, Others, Reloads;
    if !PassphraseValid(pass) {
      return false;
    }
    ok := KeypairSelfTest(lib, pair, signNonce);
    if !ok {
      return;
    }
    ok := disk.Attempt();                              // ensure_private_directory
    if !ok || StoreStatus(disk.files, role) != Missing {
      return false;
    }
    ghost var before, start := disk.files, |disk.history|;
    var pem := store.pemEncode(pair.0.sm2.value, pass, pemNonce);
    ghost var container;
    ok, container := SaveFiles(store, disk, role, pair, pass, pem, random);
    EveryStateIsAllOrNothing(lib, store, before, disk.history, start, role, pair, pass, pemNonce, random, container);
    MidSaveIsAllOrNothing(lib, store, before, disk.files, role, pair, pass, pemNonce, random, container);
  }

  lemma EveryStateIsAllOrNothing(lib: Lib, store: StoreLib, before: Files, h: seq<Files>, from: nat, role: Role,
                                 pair: KeyPair, pass: string, nonce: nat, random: Option<(Salt, Iv)>,
                                 container: seq<byte>)
    requires Undoes(store) && pair.0.sm2.Some?
    requires container != [] ==> ContainerFor(store, pair, pass, random) == Some(container)
    requires AllMidSave(h, from, before, role, store.pemEncode(pair.0.sm2.value, pass, nonce), container)
    ensures forall i :: from <= i < |h| ==>
              Others(h[i], role) == Others(before, role) && AllOrNothing(lib, store, h[i], role, pass, pair)
  {
    forall i | from <= i < |h|
      ensures Others(h[i], role) == Others(before, role) && AllOrNothing(lib, store, h[i], role, pass, pair)
    {
      MidSaveIsAllOrNothing(lib, store, before, h[i], role, pair, pass, nonce, random, container);
    }
  }

  /** The PEM part of load_sm2_private_key: type and private-key check. */
  method LoadSm2(lib: Lib, store: StoreLib, file: seq<byte>, pass: string) returns (r: Option<Sm2Secret>)
    ensures r == LoadedSm2(lib, store, file, pass)
    ensures r.Some? <==>
              && 0 < store.passwordRoom && |pass| <= store.passwordRoom && store.pemDecode(file, pass).Some?
              && var secret := store.pemDecode(file, pass).value;
                 lib.sm2PublicOf(secret).isSm2 && lib.sm2PrivateOk(secret)
    ensures r.Some? ==> r == store.pemDecode(file, pass)
  {
    r := ReadPem(store, file, pass);
    if r.None? || !lib.sm2PublicOf(r.value).isSm2 {
      return None;
    }
    if !lib.sm2PrivateOk(r.value) {
      r := None;
    }
  }

  /** hybrid_key_store_load. */
  method Load(lib: Lib, store: StoreLib, disk: Disk, role: Role, pass: string, signNonce: nat)
    returns (r: Option<KeyPair>)
    requires disk.Valid()
    modifies disk`faults
    ensures disk.faults >= old(disk.faults)
    ensures r.Some? ==> r == Stored(lib, store, disk.files, role, pass) && SelfTest(lib, r.value, signNonce)
    ensures r.Some? ==> 12 <= |pass| <= store.passwordRoom && |pass| <= 0x7fff_ffff
    ensures r.Some? ==> PassphraseValid(pass) && StoreStatus(disk.files, role) == Complete
    ensures r.None? && disk.faults == old(disk.faults) && PassphraseValid(pass) ==>
              match Stored(lib, store, disk.files, role, pass)
              case None => true
              case Some(pair) => !SelfTest(lib, pair, signNonce)
  {
    if !PassphraseValid(pass) {
      return None;
    }
    var ok := disk.Attempt();                          // ensure_private_directory
    if !ok || StoreStatus(disk.files, role) != Complete {
      return None;
    }
    ok := disk.Attempt();                              // secure_regular_file, fopen
    if !ok {
      return None;
    }
    var secret := LoadSm2(lib, store, disk.files[Sm2File(role)], pass);
    if secret.None? {
      return None;
    }
    ok := disk.Attempt();                              // secure_regular_file, open
    if !ok || |disk.files[DilithiumFile(role)]| != FILE_BYTES {
      return None;
    }
    var fileData := ReadAll(disk, DilithiumFile(role), FILE_BYTES);
    if fileData.None? {
      return None;
    }
    assert fileData.value == disk.files[DilithiumFile(role)];
    var keys := DecryptPayload(store, fileData.value, pass);
    if keys.None? {
      return None;
    }
    var pair := (PrivateKey(secret, keys.value.1), PublicKey(Some(lib.sm2PublicOf(secret.value)), keys.value.0));
    ok := KeypairSelfTest(lib, pair, signNonce);
    return if ok then Some(pair) else None;
  }

  /** hybrid_sm2_key_store_save: the SM2-only store of the encryption key. */
  method SaveSm2Store(lib: Lib, store: StoreLib, disk: Disk, role: Role, secret: Sm2Secret, pass: string, pemNonce: nat)
    returns (ok: bool)
    requires disk.Valid() && Undoes(store)
    modifies disk
    ensures disk.Valid() && disk.Extends()
    ensures Sm2File(role) in old(disk.files) ==>
              !ok && disk.files == old(disk.files) && disk.history == old(disk.history)
    ensures forall i :: |old(disk.history)| <= i < |disk.history| ==>
              disk.history[i] - {Sm2File(role)} == old(disk.files) - {Sm2File(role)}
    ensures disk.files - {Sm2File(role)} == old(disk.files) - {Sm2File(role)}
    ensures ok ==> Sm2File(role) in disk.files
                   && LoadedSm2(lib, store, disk.files[Sm2File(role)], pass)
                      == if Reloads(lib, store, secret, pass) then Some(secret) else None
    ensures ok ==> PassphraseValid(pass) && lib.sm2PublicOf(secret).isSm2
    ensures disk.faults == old(disk.faults) && Sm2File(role) !in old(disk.files) ==>
              (ok <==> PassphraseValid(pass) && lib.sm2PublicOf(secret).isSm2)
    ensures !ok && disk.unlinkFaults == old(disk.unlinkFaults) ==> disk.files == old(disk.files)
  {
    if !lib.sm2PublicOf(secret).isSm2 || !PassphraseValid(pass) || Sm2File(role) in disk.files {
      return false;
    }
    ok := disk.Attempt();                              // ensure_private_directory
    if ok {
      SavedSm2(lib, store, secret, pass, pemNonce);
      ok := SaveSm2(disk, role, store.pemEncode(secret, pass, pemNonce));
    }
  }
}
