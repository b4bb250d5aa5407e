/** The key lifecycle of the demo-chain tool: one run as a step, and whole
    sequences of runs that may fail or crash anywhere. */
module KeyLifecycle {
  import opened Bytes
  import opened Library
  import opened KeyContainer
  import opened Disks
  import opened KeyStore

  /** The CA and server key files. */
  function KeyFiles(files: Files): Files {
    Others(files, Encryption)
  }

  predicate HasKeyFile(files: Files) {
    StoreStatus(files, Ca) != Missing || StoreStatus(files, Server) != Missing
  }

  /** Neither empty nor complete: what the tool refuses. */
  predicate HalfPresent(files: Files) {
    HasKeyFile(files) && !(StoreStatus(files, Ca) == Complete && StoreStatus(files, Server) == Complete)
  }

  /** Server keys are written only after the CA keys are complete. */
  ghost predicate CaComesFirst(files: Files) {
    StoreStatus(files, Server) != Missing ==> StoreStatus(files, Ca) == Complete
  }

  /** What one run, crashed or not, may make of the files. */
  ghost predicate RunMayLeave(before: Files, after: Files) {
    && (HasKeyFile(before) ==> KeyFiles(after) == KeyFiles(before))
    && (CaComesFirst(before) ==> CaComesFirst(after))
    && (Sm2File(Encryption) in before ==>
          Sm2File(Encryption) in after && after[Sm2File(Encryption)] == before[Sm2File(Encryption)])
  }

  lemma FilesOfOneRole(before: Files, after: Files, role: Role)
    requires Others(after, role) == Others(before, role)
    ensures forall other :: other != role ==> StoreStatus(after, other) == StoreStatus(before, other)
    ensures forall f: FileName :: f.role != role ==> (f in after <==> f in before) && (f in after ==> after[f] == before[f])
  {
    forall f: FileName | f.role != role
      ensures (f in after <==> f in before) && (f in after ==> after[f] == before[f])
    {
      assert f in after <==> f in Others(after, role);
      assert f in before <==> f in Others(before, role);
    }
  }

  lemma OnlyEncryptionChanged(before: Files, after: Files)
    requires after - {Sm2File(Encryption)} == before - {Sm2File(Encryption)}
    ensures KeyFiles(after) == KeyFiles(before)
  {
    OthersFollow(before, after, Encryption, Sm2File(Encryption));
  }

  /** Unchanged key files, and an encryption file that is the old one or new. */
  lemma MayLeave(start: Files, middle: Files, after: Files)
    requires RunMayLeave(start, middle)
    requires after - {Sm2File(Encryption)} == middle - {Sm2File(Encryption)}
    requires Sm2File(Encryption) in middle ==> after == middle
    ensures RunMayLeave(start, after)
  {
    OnlyEncryptionChanged(middle, after);
    FilesOfOneRole(middle, after, Encryption);
  }

  lemma CaSaving(start: Files, after: Files)
    requires !HasKeyFile(start) && Others(after, Ca) == Others(start, Ca)
    ensures RunMayLeave(start, after) && StoreStatus(after, Server) == Missing
  {
    FilesOfOneRole(start, after, Ca);
  }

  lemma ServerSaving(start: Files, middle: Files, after: Files)
    requires !HasKeyFile(start) && Others(middle, Ca) == Others(start, Ca)
    requires StoreStatus(middle, Ca) == Complete && Others(after, Server) == Others(middle, Server)
    ensures RunMayLeave(start, after) && StoreStatus(after, Ca) == Complete
  {
    FilesOfOneRole(start, middle, Ca);
    FilesOfOneRole(middle, after, Server);
  }

  /** What a run is given: key material, if generation succeeds, the randomness
      of each step, and what the certificate files and checks make of the keys
      in use. */
  datatype Inputs = Inputs(pass: string, ca: Option<KeyPair>, server: Option<KeyPair>, encryption: Option<Sm2Secret>,
                           nonce: nat, caRandom: Option<(Salt, Iv)>, serverRandom: Option<(Salt, Iv)>,
                           chainMatches: (KeyPair, KeyPair) -> bool, encryptionMatches: Sm2Secret -> bool,
                           writesChain: (KeyPair, KeyPair, Option<Sm2Secret>) -> bool)

  /** The keys that a run works with. */
  datatype KeysInUse = KeysInUse(ca: KeyPair, server: KeyPair, loaded: bool)

  /** The pair passes its self-test and gets a container. */
  ghost predicate Savable(lib: Lib, store: StoreLib, pair: KeyPair, pass: string, nonce: nat, random: Option<(Salt, Iv)>) {
    SelfTest(lib, pair, nonce) && ContainerFor(store, pair, pass, random).Some?
  }

  /** The keys of a run in which nothing outside fails. */
  ghost function PlannedKeys(lib: Lib, store: StoreLib, files: Files, inp: Inputs): Option<KeysInUse> {
    if !PassphraseValid(inp.pass) then None
    else if !HasKeyFile(files) then
      match (inp.ca, inp.server)
      case (Some(ca), Some(server)) =>
        if Savable(lib, store, ca, inp.pass, inp.nonce, inp.caRandom)
           && Savable(lib, store, server, inp.pass, inp.nonce, inp.serverRandom)
        then Some(KeysInUse(ca, server, false)) else None
      case (_, _) => None
    else
      match (Stored(lib, store, files, Ca, inp.pass), Stored(lib, store, files, Server, inp.pass))
      case (Some(ca), Some(server)) =>
        if SelfTest(lib, ca, inp.nonce) && SelfTest(lib, server, inp.nonce) && inp.chainMatches(ca, server)
        then Some(KeysInUse(ca, server, true)) else None
      case (_, _) => None
  }

  lemma FreshPlan(lib: Lib, store: StoreLib, files: Files, inp: Inputs)
    requires !HasKeyFile(files)
    ensures PlannedKeys(lib, store, files, inp)
         == if PassphraseValid(inp.pass) && inp.ca.Some? && inp.server.Some?
               && Savable(lib, store, inp.ca.value, inp.pass, inp.nonce, inp.caRandom)
               && Savable(lib, store, inp.server.value, inp.pass, inp.nonce, inp.serverRandom)
            then Some(KeysInUse(inp.ca.value, inp.server.value, false)) else None
  {
  }

  /** The encryption key of such a run. */
  ghost function PlannedEncryption(lib: Lib, store: StoreLib, files: Files, loaded: bool, inp: Inputs): Option<Sm2Secret> {
    if Sm2File(Encryption) !in files then
      if inp.encryption.Some? && PassphraseValid(inp.pass) && lib.sm2PublicOf(inp.encryption.value).isSm2
      then inp.encryption else None
    else
      match LoadedSm2(lib, store, files[Sm2File(Encryption)], inp.pass)
      case None => None
      case Some(secret) =>
        if loaded && PassphraseValid(inp.pass) && inp.encryptionMatches(secret) then Some(secret) else None
  }

  /** What each store holds after a run has saved new pairs. */
  ghost predicate HoldsPair(lib: Lib, store: StoreLib, files: Files, role: Role, pair: KeyPair, pass: string) {
    && pair.0.sm2.Some?
    && Stored(lib, store, files, role, pass)
       == if Reloads(lib, store, pair.0.sm2.value, pass) then Some(Kept(lib, pair)) else None
  }

  lemma StoredElsewhere(lib: Lib, store: StoreLib, before: Files, after: Files, role: Role, other: Role, pass: string)
    requires Others(after, role) == Others(before, role) && other != role
    ensures Stored(lib, store, after, other, pass) == Stored(lib, store, before, other, pass)
    ensures StoreStatus(after, other) == StoreStatus(before, other)
  {
    FilesOfOneRole(before, after, role);
    assert Sm2File(other).role != role && DilithiumFile(other).role != role;
  }

  ghost predicate AllMayLeave(history: seq<Files>, from: nat, start: Files) {
    forall i :: from <= i < |history| ==> RunMayLeave(start, history[i])
  }

  /** The CA and server part of main: generate both, load both, or refuse. */
  method PrepareKeys(lib: Lib, store: StoreLib, disk: Disk, inp: Inputs) returns (keys: Option<KeysInUse>)
    requires disk.Valid() && Undoes(store)
    modifies disk
    ensures disk.Valid() && disk.Extends()
    ensures AllMayLeave(disk.history, |old(disk.history)|, old(disk.files))
    ensures RunMayLeave(old(disk.files), disk.files)
    ensures HasKeyFile(old(disk.files)) ==> disk.files == old(disk.files)
    ensures Sm2File(Encryption) in disk.files <==> Sm2File(Encryption) in old(disk.files)
    ensures HalfPresent(old(disk.files)) ==> keys.None?
    ensures HasKeyFile(old(disk.files)) && |inp.pass| > store.passwordRoom ==> keys.None?
    ensures keys.Some? ==> keys == PlannedKeys(lib, store, old(disk.files), inp)
    ensures keys.Some? ==> StoreStatus(disk.files, Ca) == Complete && StoreStatus(disk.files, Server) == Complete
    ensures keys.Some? && !keys.value.loaded ==>
              && HoldsPair(lib, store, disk.files, Ca, keys.value.ca, inp.pass)
              && HoldsPair(lib, store, disk.files, Server, keys.value.server, inp.pass)
    ensures disk.faults == old(disk.faults) ==> keys == PlannedKeys(lib, store, old(disk.files), inp)
  {
    var caStatus, serverStatus := StoreStatus(disk.files, Ca), StoreStatus(disk.files, Server);
    if caStatus == Missing && serverStatus == Missing {
      keys := GenerateKeys(lib, store, disk, inp);
    } else if caStatus == Complete && serverStatus == Complete {
      keys := LoadKeys(lib, store, disk, inp);
    } else {
      keys := None;
    }
  }

  /** Both pairs are generated before either is saved; the CA is saved first. */
  method GenerateKeys(lib: Lib, store: StoreLib, disk: Disk, inp: Inputs) returns (keys: Option<KeysInUse>)
    requires disk.Valid() && Undoes(store) && !HasKeyFile(disk.files)
    modifies disk
    ensures disk.Valid() && disk.Extends()
    ensures AllMayLeave(disk.history, |old(disk.history)|, old(disk.files))
    ensures RunMayLeave(old(disk.files), disk.files)
    ensures Sm2File(Encryption) in disk.files <==> Sm2File(Encryption) in old(disk.files)
    ensures keys.Some? ==> keys == PlannedKeys(lib, store, old(disk.files), inp)
    ensures keys.Some? ==> StoreStatus(disk.files, Ca) == Complete && StoreStatus(disk.files, Server) == Complete
    ensures keys.Some? ==>
              && HoldsPair(lib, store, disk.files, Ca, keys.value.ca, inp.pass)
              && HoldsPair(lib, store, disk.files, Server, keys.value.server, inp.pass)
    ensures disk.faults == old(disk.faults) ==> keys == PlannedKeys(lib, store, old(disk.files), inp)
  {
    hide Stored, SelfTest, ContainerFor, Reloads, Kept, AllOrNothing, PassphraseValid;
    FreshPlan(lib, store, disk.files, inp);
    hide PlannedKeys;
    ghost var start := disk.files;
    if inp.ca.None? || inp.server.None? {
      return None;
    }
    var ok := Save(lib, store, disk, Ca, inp.ca.value, inp.pass, inp.nonce, inp.nonce, inp.caRandom);
    CaSavingAll(start, disk.history, |old(disk.history)|);
    CaSaving(start, disk.files);
    FilesOfOneRole(start, disk.files, Ca);
    if !ok {
      return None;
    }
    ghost var middle, sofar := disk.files, disk.history;
    assert StoreStatus(disk.files, Server) == Missing;
    ok := Save(lib, store, disk, Server, inp.server.value, inp.pass, inp.nonce, inp.nonce, inp.serverRandom);
    ServerSavingAll(start, middle, disk.history, |sofar|);
    ServerSaving(start, middle, disk.files);
    StoredElsewhere(lib, store, middle, disk.files, Server, Ca, inp.pass);
    FilesOfOneRole(middle, disk.files, Server);
    return if ok then Some(KeysInUse(inp.ca.value, inp.server.value, false)) else None;
  }

  lemma CaSavingAll(start: Files, h: seq<Files>, from: nat)
    requires !HasKeyFile(start) && forall i :: from <= i < |h| ==> Others(h[i], Ca) == Others(start, Ca)
    ensures AllMayLeave(h, from, start)
  {
    forall i | from <= i < |h|
      ensures RunMayLeave(start, h[i])
    {
      CaSaving(start, h[i]);
    }
  }

  lemma ServerSavingAll(start: Files, middle: Files, h: seq<Files>, from: nat)
    requires !HasKeyFile(start) && Others(middle, Ca) == Others(start, Ca) && StoreStatus(middle, Ca) == Complete
    requires forall i :: from <= i < |h| ==> Others(h[i], Server) == Others(middle, Server)
    ensures AllMayLeave(h, from, start)
  {
    forall i | from <= i < |h|
      ensures RunMayLeave(start, h[i])
    {
      ServerSaving(start, middle, h[i]);
    }
  }

  method LoadKeys(lib: Lib, store: StoreLib, disk: Disk, inp: Inputs) returns (keys: Option<KeysInUse>)
    requires disk.Valid() && HasKeyFile(disk.files)
    modifies disk`faults
    ensures disk.Extends()
    ensures keys.Some? ==> keys == PlannedKeys(lib, store, disk.files, inp) && |inp.pass| <= store.passwordRoom
    ensures disk.faults == old(disk.faults) ==> keys == PlannedKeys(lib, store, disk.files, inp)
  {
    hide Stored, LoadedSm2, Contents, SelfTest, PassphraseValid;
    var ca := Load(lib, store, disk, Ca, inp.pass, inp.nonce);
    if ca.None? {
      return None;
    }
    var server := Load(lib, store, disk, Server, inp.pass, inp.nonce);
    if server.None? || !inp.chainMatches(ca.value, server.value) {
      return None;
    }
    return Some(KeysInUse(ca.value, server.value, true));
  }

  /** The TLCP encryption key part of main. */
  method PrepareEncryptionKey(lib: Lib, store: StoreLib, disk: Disk, inp: Inputs, loaded: bool)
    returns (key: Option<Sm2Secret>)
    requires disk.Valid() && Undoes(store)
    modifies disk
    ensures disk.Valid() && disk.Extends()
    ensures Sm2File(Encryption) in old(disk.files) ==>
              disk.files == old(disk.files) && disk.history == old(disk.history)
    ensures forall i :: |old(disk.history)| <= i < |disk.history| ==>
              disk.history[i] - {Sm2File(Encryption)} == old(disk.files) - {Sm2File(Encryption)}
    ensures disk.files - {Sm2File(Encryption)} == old(disk.files) - {Sm2File(Encryption)}
    ensures Sm2File(Encryption) in old(disk.files) && key.Some? ==>
              && loaded && inp.encryptionMatches(key.value)
              && LoadedSm2(lib, store, old(disk.files)[Sm2File(Encryption)], inp.pass) == key
    ensures Sm2File(Encryption) !in old(disk.files) && key.Some? ==>
              key == inp.encryption && lib.sm2PublicOf(key.value).isSm2
    ensures disk.faults == old(disk.faults) && Sm2File(Encryption) in old(disk.files) && loaded && 12 <= |inp.pass| <= 0x7fff_ffff ==>
              match LoadedSm2(lib, store, old(disk.files)[Sm2File(Encryption)], inp.pass)
              case None => key.None?
              case Some(secret) => key.Some? <==> inp.encryptionMatches(secret)
    ensures disk.faults == old(disk.faults) && Sm2File(Encryption) !in old(disk.files) && 12 <= |inp.pass| <= 0x7fff_ffff ==>
              (key.Some? <==> inp.encryption.Some? && lib.sm2PublicOf(inp.encryption.value).isSm2)
    ensures key.Some? ==> key == PlannedEncryption(lib, store, old(disk.files), loaded, inp)
    ensures key.Some? ==> Sm2File(Encryption) in disk.files
                          && LoadedSm2(lib, store, disk.files[Sm2File(Encryption)], inp.pass)
                             == if Reloads(lib, store, key.value, inp.pass) then key else None
    ensures disk.faults == old(disk.faults) ==> key == PlannedEncryption(lib, store, old(disk.files), loaded, inp)
  {
    if Sm2File(Encryption) !in disk.files {
      if inp.encryption.None? {
        return None;
      }
      var ok := SaveSm2Store(lib, store, disk, Encryption, inp.encryption.value, inp.pass, inp.nonce);
      return if ok then inp.encryption else None;
    }
    var ok := disk.Attempt();                          // private directory and regular file
    if !ok || !loaded {
      return None;
    }
    key := LoadSm2(lib, store, disk.files[Sm2File(Encryption)], inp.pass);
    if key.None? || !PassphraseValid(inp.pass) || !inp.encryptionMatches(key.value) {
      return None;
    }
  }

  /** main: after any crash or failure only allowed files are left; a run that
      succeeds has used the generated pairs, each now in its own store, or the
      stored ones; and without outside failures it succeeds iff planned. */
  method Run(lib: Lib, store: StoreLib, disk: Disk, withEncryption: bool, inp: Inputs)
    returns (success: bool, keys: Option<KeysInUse>)
    requires disk.Valid() && Undoes(store)
    modifies disk
    ensures disk.Valid() && disk.Extends()
    ensures AllMayLeave(disk.history, |old(disk.history)|, old(disk.files))
    ensures RunMayLeave(old(disk.files), disk.files)
    ensures HalfPresent(old(disk.files)) ==> !success
    ensures HasKeyFile(old(disk.files)) && |inp.pass| > store.passwordRoom ==> !success
    ensures success ==> StoreStatus(disk.files, Ca) == Complete && StoreStatus(disk.files, Server) == Complete
    ensures success && withEncryption ==> Sm2File(Encryption) in disk.files
    // fresh pairs
    ensures success && !HasKeyFile(old(disk.files)) ==>
              && keys.Some? && inp.ca == Some(keys.value.ca) && inp.server == Some(keys.value.server)
              && keys.value.ca.0.sm2.Some? && keys.value.server.0.sm2.Some?
              && Stored(lib, store, disk.files, Ca, inp.pass)
                 == (if Reloads(lib, store, keys.value.ca.0.sm2.value, inp.pass)
                     then Some(Kept(lib, keys.value.ca)) else None)
              && Stored(lib, store, disk.files, Server, inp.pass)
                 == (if Reloads(lib, store, keys.value.server.0.sm2.value, inp.pass)
                     then Some(Kept(lib, keys.value.server)) else None)
    // pairs that were there
    ensures success && HasKeyFile(old(disk.files)) ==>
              && keys.Some? && Stored(lib, store, old(disk.files), Ca, inp.pass) == Some(keys.value.ca)
              && Stored(lib, store, old(disk.files), Server, inp.pass) == Some(keys.value.server)
              && inp.chainMatches(keys.value.ca, keys.value.server)
    // when it succeeds
    ensures disk.faults == old(disk.faults) ==>
              (success <==>
                 && PlannedKeys(lib, store, old(disk.files), inp).Some?
                 && var k := PlannedKeys(lib, store, old(disk.files), inp).value;
                    var e := PlannedEncryption(lib, store, old(disk.files), k.loaded, inp);
                    (withEncryption ==> e.Some?) && inp.writesChain(k.ca, k.server, if withEncryption then e else None))
  {
    hide Stored, Reloads, Kept, LoadedSm2, SelfTest, Savable;
    keys := None;
    if |inp.pass| < 12 {
      return false, None;
    }
    var ok := disk.Attempt();                          // key directories
    if !ok {
      return false, None;
    }
    keys := PrepareKeys(lib, store, disk, inp);
    if keys.None? {
      return false, None;
    }
    var encryption: Option<Sm2Secret> := None;
    if withEncryption {
      ghost var start, middle, sofar := old(disk.files), disk.files, disk.history;
      encryption := PrepareEncryptionKey(lib, store, disk, inp, keys.value.loaded);
      forall i | |sofar| <= i < |disk.history|
        ensures RunMayLeave(start, disk.history[i])
      {
        MayLeave(start, middle, disk.history[i]);
      }
      MayLeave(start, middle, disk.files);
      OnlyEncryptionChanged(middle, disk.files);
      StoredElsewhere(lib, store, middle, disk.files, Encryption, Ca, inp.pass);
      StoredElsewhere(lib, store, middle, disk.files, Encryption, Server, inp.pass);
      if encryption.None? {
        return false, keys;
      }
    }
    success := inp.writesChain(keys.value.ca, keys.value.server, encryption);
  }

  /** The plan, spelled out: a fresh root needs both pairs generated, tested and
      encrypted; existing stores must both open, pass their tests and match the
      certificates; anything half-present is refused. */
  lemma PlanMeans(lib: Lib, store: StoreLib, files: Files, inp: Inputs)
    ensures PlannedKeys(lib, store, files, inp).Some? ==> 12 <= |inp.pass| <= 0x7fff_ffff
    ensures StoreStatus(files, Ca) == Missing == StoreStatus(files, Server) && 12 <= |inp.pass| <= 0x7fff_ffff ==>
              (PlannedKeys(lib, store, files, inp).Some? <==>
                 && inp.ca.Some? && inp.server.Some?
                 && SelfTest(lib, inp.ca.value, inp.nonce) && SelfTest(lib, inp.server.value, inp.nonce)
                 && ContainerFor(store, inp.ca.value, inp.pass, inp.caRandom).Some?
                 && ContainerFor(store, inp.server.value, inp.pass, inp.serverRandom).Some?)
    ensures StoreStatus(files, Ca) == Complete == StoreStatus(files, Server) && 12 <= |inp.pass| <= 0x7fff_ffff ==>
              (PlannedKeys(lib, store, files, inp).Some? <==>
                 match (Stored(lib, store, files, Ca, inp.pass), Stored(lib, store, files, Server, inp.pass))
                 case (Some(a), Some(b)) =>
                   SelfTest(lib, a, inp.nonce) && SelfTest(lib, b, inp.nonce) && inp.chainMatches(a, b)
                 case (_, _) => false)
    ensures StoreStatus(files, Ca) != StoreStatus(files, Server) || StoreStatus(files, Ca) == Incomplete ==>
              PlannedKeys(lib, store, files, inp).None?
  {
  }

  // ----- sequences of runs

  /** The files before the first run and after each run or crash. */
  ghost predicate IsRunSequence(states: seq<Files>) {
    forall i :: 0 <= i < |states| - 1 ==> RunMayLeave(states[i], states[i + 1])
  }

  /** Once any CA or server key file exists, no later run creates, replaces or
      removes one, however runs fail or crash. */
  lemma {:induction false} KeysAreNeverReplaced(states: seq<Files>, i: nat, j: nat)
    requires IsRunSequence(states) && i <= j < |states| && HasKeyFile(states[i])
    ensures KeyFiles(states[j]) == KeyFiles(states[i]) && HasKeyFile(states[j])
    ensures HalfPresent(states[i]) <==> HalfPresent(states[j])
    decreases j - i
  {
    if i < j {
      KeysAreNeverReplaced(states, i, j - 1);
      FilesOfOneRole(states[j - 1], states[j], Encryption);
    }
  }

  /** From an empty root, server keys never stand without complete CA keys. */
  lemma {:induction false} CaAlwaysFirst(states: seq<Files>, j: nat)
    requires IsRunSequence(states) && j < |states| && !HasKeyFile(states[0])
    ensures CaComesFirst(states[j])
  {
    if j > 0 {
      CaAlwaysFirst(states, j - 1);
    }
  }

  lemma {:induction false} EncryptionKeyIsNeverReplaced(states: seq<Files>, i: nat, j: nat)
    requires IsRunSequence(states) && i <= j < |states| && Sm2File(Encryption) in states[i]
    ensures Sm2File(Encryption) in states[j]
    ensures states[j][Sm2File(Encryption)] == states[i][Sm2File(Encryption)]
    decreases j - i
  {
    if i < j {
      EncryptionKeyIsNeverReplaced(states, i, j - 1);
    }
  }
}
