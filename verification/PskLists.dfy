/** The client's PSKs as TLS 1.3 connection state: four parallel lists, two of
    them serialized (identities per RFC 8446 section 4.2.11, keys as one-byte
    vectors), and the update that keeps only the PSKs of the cipher suite that
    a HelloRetryRequest selected. */
module PskLists {
  import opened Bytes

  datatype PskKind = External | Resumption

  type Identity = s: seq<byte> | 1 <= |s| < 0x10000 witness [0]
  type Age = n: nat | n < 0x100000000
  type Key = s: seq<byte> | |s| < 0x100

  datatype Psk = Psk(identity: Identity, age: Age, key: Key, suite: int, kind: PskKind)

  /** `opaque identity<1..2^16-1>; uint32 obfuscated_ticket_age`. */
  function PutIdentity(identity: Identity, age: Age): (s: seq<byte>)
    ensures |s| == 2 + |identity| + 4
  {
    Widths();
    PutVec(2, identity) + Put(4, age)
  }

  function TakeIdentity(s: seq<byte>): Option<(Identity, Age, seq<byte>)> {
    Widths();
    if TakeVec(2, s).None? then None
    else
      PutOfTakeVec(2, s);
      var (identity, tail) := TakeVec(2, s).value;
      if identity == [] || TakeInt(4, tail).None? then None
      else
        PutOfTakeInt(4, tail);
        Some((identity, TakeInt(4, tail).value.0, TakeInt(4, tail).value.1))
  }

  function PutKey(key: Key): (s: seq<byte>)
    ensures |s| == 1 + |key|
  {
    Widths();
    PutVec(1, key)
  }

  function TakeKey(s: seq<byte>): Option<(Key, seq<byte>)> {
    Widths();
    if TakeVec(1, s).None? then None
    else
      PutOfTakeVec(1, s);
      Some((TakeVec(1, s).value.0, TakeVec(1, s).value.1))
  }

  lemma TakeOfPutKey(key: Key, rest: seq<byte>)
    ensures TakeKey(PutKey(key) + rest) == Some((key, rest))
  {
    Widths();
    TakeOfPutVec(1, key, rest);
  }

  lemma PutOfTakeKey(s: seq<byte>)
    requires TakeKey(s).Some?
    ensures s == PutKey(TakeKey(s).value.0) + TakeKey(s).value.1
  {
    Widths();
    PutOfTakeVec(1, s);
  }

  lemma TakeOfPutIdentity(identity: Identity, age: Age, rest: seq<byte>)
    ensures TakeIdentity(PutIdentity(identity, age) + rest) == Some((identity, age, rest))
  {
    Widths();
    assert PutIdentity(identity, age) + rest == PutVec(2, identity) + (Put(4, age) + rest);
    TakeOfPutVec(2, identity, Put(4, age) + rest);
    TakeOfPutInt(4, age, rest);
  }

  lemma PutOfTakeIdentity(s: seq<byte>)
    requires TakeIdentity(s).Some?
    ensures var (identity, age, rest) := TakeIdentity(s).value;
            s == PutIdentity(identity, age) + rest
  {
    Widths();
    PutOfTakeVec(2, s);
    var (identity, tail) := TakeVec(2, s).value;
    PutOfTakeInt(4, tail);
    var (age, rest) := TakeInt(4, tail).value;
    assert PutIdentity(identity, age) + rest == PutVec(2, identity) + (Put(4, age) + rest);
  }

  // ----- the four lists as one list of PSKs

  /** None when an entry does not decode or bytes are left over. */
  function Decode(ids: seq<byte>, keys: seq<byte>, suites: seq<int>, kinds: seq<PskKind>): Option<seq<Psk>>
    requires |suites| == |kinds|
  {
    if suites == [] then
      if ids == [] && keys == [] then Some([]) else None
    else
      match (TakeIdentity(ids), TakeKey(keys))
      case (Some((identity, age, idRest)), Some((key, keyRest))) =>
        Prepend([Psk(identity, age, key, suites[0], kinds[0])],
                Decode(idRest, keyRest, suites[1..], kinds[1..]))
      case (_, _) => None
  }

  function EncodeIds(ps: seq<Psk>): seq<byte> {
    if ps == [] then [] else PutIdentity(ps[0].identity, ps[0].age) + EncodeIds(ps[1..])
  }

  function EncodeKeys(ps: seq<Psk>): seq<byte> {
    if ps == [] then [] else PutKey(ps[0].key) + EncodeKeys(ps[1..])
  }

  function Suites(ps: seq<Psk>): (r: seq<int>)
    ensures |r| == |ps|
  {
    seq(|ps|, i requires 0 <= i < |ps| => ps[i].suite)
  }

  function Kinds(ps: seq<Psk>): (r: seq<PskKind>)
    ensures |r| == |ps|
  {
    seq(|ps|, i requires 0 <= i < |ps| => ps[i].kind)
  }

  lemma {:induction false} EncodeSnoc(ps: seq<Psk>, p: Psk)
    ensures EncodeIds(ps + [p]) == EncodeIds(ps) + PutIdentity(p.identity, p.age)
    ensures EncodeKeys(ps + [p]) == EncodeKeys(ps) + PutKey(p.key)
  {
    if ps == [] {
      assert ps + [p] == [p] && [p][1..] == [];
    } else {
      EncodeSnoc(ps[1..], p);
      assert (ps + [p])[1..] == ps[1..] + [p];
      IdsSnoc(PutIdentity(ps[0].identity, ps[0].age), EncodeIds(ps[1..]), PutIdentity(p.identity, p.age));
      IdsSnoc(PutKey(ps[0].key), EncodeKeys(ps[1..]), PutKey(p.key));
    }
  }

  lemma IdsSnoc(a: seq<byte>, b: seq<byte>, c: seq<byte>)
    ensures a + (b + c) == (a + b) + c
  {
  }

  /** Four lists written from PSKs decode back to those PSKs. */
  lemma {:induction false} DecodeOfEncode(ps: seq<Psk>)
    ensures Decode(EncodeIds(ps), EncodeKeys(ps), Suites(ps), Kinds(ps)) == Some(ps)
  {
    if ps != [] {
      var p, rest := ps[0], ps[1..];
      TakeOfPutIdentity(p.identity, p.age, EncodeIds(rest));
      TakeOfPutKey(p.key, EncodeKeys(rest));
      SuitesFront(ps);
      DecodeOfEncode(rest);
      assert ps == [p] + rest;
    }
  }

  /** The four lists are determined by what they decode to. */
  lemma {:induction false} EncodeOfDecode(ids: seq<byte>, keys: seq<byte>, suites: seq<int>, kinds: seq<PskKind>)
    requires |suites| == |kinds|
    requires Decode(ids, keys, suites, kinds).Some?
    ensures var ps := Decode(ids, keys, suites, kinds).value;
            EncodeIds(ps) == ids && EncodeKeys(ps) == keys
            && Suites(ps) == suites && Kinds(ps) == kinds
    decreases |suites|
  {
    if suites != [] {
      PutOfTakeIdentity(ids);
      PutOfTakeKey(keys);
      var idRest, keyRest := TakeIdentity(ids).value.2, TakeKey(keys).value.1;
      EncodeOfDecode(idRest, keyRest, suites[1..], kinds[1..]);
      var ps := Decode(ids, keys, suites, kinds).value;
      assert ps[1..] == Decode(idRest, keyRest, suites[1..], kinds[1..]).value;
      SuitesFront(ps);
      assert suites == [suites[0]] + suites[1..] && kinds == [kinds[0]] + kinds[1..];
    }
  }

  lemma SuitesFront(ps: seq<Psk>)
    requires ps != []
    ensures Suites(ps) == [ps[0].suite] + Suites(ps[1..]) && Kinds(ps) == [ps[0].kind] + Kinds(ps[1..])
  {
  }

  /** The PSKs of one cipher suite, in order. */
  function OfSuite(ps: seq<Psk>, suite: int): seq<Psk> {
    if ps == [] then []
    else OfSuite(ps[..|ps| - 1], suite) + (if ps[|ps| - 1].suite == suite then [ps[|ps| - 1]] else [])
  }

  lemma OfSuiteStep(ps: seq<Psk>, p: Psk, suite: int)
    ensures OfSuite(ps + [p], suite) == if p.suite == suite then OfSuite(ps, suite) + [p] else OfSuite(ps, suite)
  {
    assert (ps + [p])[..|ps|] == ps;
  }

  /** Where the PSKs of a suite stand. */
  function Positions(ps: seq<Psk>, suite: int): seq<nat> {
    if ps == [] then []
    else Positions(ps[..|ps| - 1], suite) + (if ps[|ps| - 1].suite == suite then [|ps| - 1] else [])
  }

  lemma {:induction false} PositionsIncrease(ps: seq<Psk>, suite: int)
    ensures forall i :: 0 <= i < |Positions(ps, suite)| ==> Positions(ps, suite)[i] < |ps|
    ensures forall i, j :: 0 <= i < j < |Positions(ps, suite)| ==> Positions(ps, suite)[i] < Positions(ps, suite)[j]
  {
    if ps != [] {
      PositionsIncrease(ps[..|ps| - 1], suite);
    }
  }

  /** OfSuite is the sublist at those positions, so each key, suite and kind
      stays with its own identity. */
  lemma {:induction false} OfSuiteIsSublist(ps: seq<Psk>, suite: int)
    ensures |OfSuite(ps, suite)| == |Positions(ps, suite)| <= |ps|
    ensures forall i :: 0 <= i < |OfSuite(ps, suite)| ==>
              Positions(ps, suite)[i] < |ps| && OfSuite(ps, suite)[i] == ps[Positions(ps, suite)[i]]
              && OfSuite(ps, suite)[i].suite == suite
  {
    if ps != [] {
      OfSuiteIsSublist(ps[..|ps| - 1], suite);
    }
  }

  /** Every PSK of the suite is kept, wherever it stands and however often. */
  lemma {:induction false} OfSuiteIsComplete(ps: seq<Psk>, suite: int)
    ensures forall i :: 0 <= i < |ps| && ps[i].suite == suite ==> i in Positions(ps, suite)
    ensures forall p <- ps :: p.suite == suite ==> p in OfSuite(ps, suite)
  {
    if ps != [] {
      var front, last := ps[..|ps| - 1], ps[|ps| - 1];
      OfSuiteIsComplete(front, suite);
      assert ps == front + [last];
      forall i | 0 <= i < |ps| && ps[i].suite == suite
        ensures i in Positions(ps, suite)
      {
        if i < |front| {
          assert front[i] == ps[i];
        } else {
          assert Positions(ps, suite)[|Positions(front, suite)|] == i;
        }
      }
    }
  }

  /** The bytes of one entry: two of length, the identity, four of age. */
  lemma EntryBytes(identity: Identity, age: Age)
    ensures var s, n := PutIdentity(identity, age), |identity|;
            s[0] as int * 256 + s[1] as int == n && s[2..2 + n] == identity && Value(s[2 + n..]) == age
  {
    Widths();
    var s, n := PutIdentity(identity, age), |identity|;
    assert Put(1, n / 256) == Put(0, n / 256 / 256) + [n / 256 % 256];
    assert Put(2, n) == [n / 256, n % 256];
    assert s[2 + n..] == Put(4, age);
    ValueOfPut(4, age);
  }

  /** Keeping some of the PSKs never takes more bytes. */
  lemma {:induction false} OfSuiteIsNoLonger(ps: seq<Psk>, suite: int)
    ensures |EncodeIds(OfSuite(ps, suite))| <= |EncodeIds(ps)|
    ensures |EncodeKeys(OfSuite(ps, suite))| <= |EncodeKeys(ps)|
  {
    if ps != [] {
      var front, last := ps[..|ps| - 1], ps[|ps| - 1];
      OfSuiteIsNoLonger(front, suite);
      assert ps == front + [last];
      EncodeSnoc(front, last);
      EncodeSnoc(OfSuite(front, suite), last);
      OfSuiteStep(front, last, suite);
    }
  }

  lemma {:induction false} OfSuiteTwice(ps: seq<Psk>, suite: int)
    requires forall p <- ps :: p.suite == suite
    ensures OfSuite(ps, suite) == ps
  {
    if ps != [] {
      OfSuiteTwice(ps[..|ps| - 1], suite);
    }
  }

  lemma KindsAre(ps: seq<Psk>, kind: PskKind)
    ensures (forall k <- Kinds(ps) :: k == kind) <==> (forall p <- ps :: p.kind == kind)
  {
    assert forall i :: 0 <= i < |ps| ==> Kinds(ps)[i] == ps[i].kind && Kinds(ps)[i] in Kinds(ps) && ps[i] in ps;
  }

  /** An all-external list stays all-external, and becomes empty iff no PSK
      belongs to the suite. */
  lemma KeepsExternal(ps: seq<Psk>, suite: int)
    requires forall p <- ps :: p.kind == External
    ensures forall p <- OfSuite(ps, suite) :: p.kind == External && p.suite == suite
    ensures OfSuite(ps, suite) != [] <==> exists p <- ps :: p.suite == suite
  {
    OfSuiteIsSublist(ps, suite);
    OfSuiteIsComplete(ps, suite);
    if OfSuite(ps, suite) != [] {
      assert OfSuite(ps, suite)[0] == ps[Positions(ps, suite)[0]];
    }
  }

  // ----- the connection's buffers

  class PskTable {
    const identities: array<byte>
    const keys: array<byte>
    const suites: array<int>
    const kinds: array<PskKind>
    var identitiesLen: nat
    var keysLen: nat
    var count: nat

    ghost const Repr: set<object> := {this, identities, keys, suites, kinds}

    ghost predicate Valid()
      reads this
    {
      identities != keys
      && identitiesLen <= identities.Length && keysLen <= keys.Length
      && count <= suites.Length == kinds.Length
    }

    constructor (identitiesSize: nat, keysSize: nat, capacity: nat)
      ensures Valid() && fresh(Repr)
      ensures identities.Length == identitiesSize && keys.Length == keysSize
      ensures suites.Length == kinds.Length == capacity
      ensures identitiesLen == keysLen == count == 0
    {
      identities := new byte[identitiesSize];
      keys := new byte[keysSize];
      suites := new int[capacity];
      kinds := new PskKind[capacity](_ => External);
      identitiesLen, keysLen, count := 0, 0, 0;
    }

    /** What the four lists hold: None for serialized lists that do not fit
        the counts. */
    ghost function Contents(): Option<seq<Psk>>
      requires Valid()
      reads Repr
    {
      Decode(identities[..identitiesLen], keys[..keysLen], suites[..count], kinds[..count])
    }

    /** The loop of the update: copies the matching PSKs into the temporary
        buffers, which are as large as the buffers they are read from. */
    method CollectSuite(cipherSuite: int, tmp: PskTable) returns (ret: int)
      requires Valid() && tmp.Valid() && Repr !! tmp.Repr && SameSizes(tmp)
      requires tmp.identitiesLen == tmp.keysLen == tmp.count == 0
      modifies tmp, tmp.identities, tmp.keys, tmp.kinds
      ensures tmp.Valid()
      ensures ret == (if Contents().Some? then 1 else -1)
      ensures ret == 1 ==> tmp.HoldsEncoding(OfSuite(Contents().value, cipherSuite))
      ensures ret == 1 ==> tmp.identitiesLen <= identitiesLen && tmp.keysLen <= keysLen && tmp.count <= count
    {
      var idCursor, keyCursor := identities[..identitiesLen], keys[..keysLen];
      ghost var allSuites, allKinds, all := suites[..count], kinds[..count], Contents();
      ghost var done: seq<Psk> := [];
      PrependNothing(all);
      assert allSuites[0..] == allSuites && allKinds[0..] == allKinds;
      assert tmp.HoldsEncoding(OfSuite([], cipherSuite));
      hide Decode, TakeIdentity, TakeKey, PutIdentity, PutKey, OfSuite, EncodeIds, EncodeKeys;
      for i := 0 to count
        invariant tmp.Valid()
        invariant all == Prepend(done, Decode(idCursor, keyCursor, allSuites[i..], allKinds[i..]))
        invariant tmp.HoldsEncoding(OfSuite(done, cipherSuite))
        invariant tmp.identitiesLen + |idCursor| <= identitiesLen && tmp.keysLen + |keyCursor| <= keysLen
        invariant tmp.count <= i
      {
        var id, key := TakeIdentity(idCursor), TakeKey(keyCursor);
        DecodeStep(done, idCursor, keyCursor, allSuites[i..], allKinds[i..]);
        if id.None? || key.None? {
          return -1;
        }
        idCursor, keyCursor := id.value.2, key.value.1;
        ghost var psk := Psk(id.value.0, id.value.1, key.value.0, suites[i], kinds[i]);
        assert allSuites[i..][1..] == allSuites[i + 1..] && allKinds[i..][1..] == allKinds[i + 1..];
        OfSuiteStep(done, psk, cipherSuite);
        if suites[i] == cipherSuite {
          tmp.Push(id.value.0, id.value.1, key.value.0, kinds[i], psk, OfSuite(done, cipherSuite));
        }
        done := done + [psk];
      }
      DecodeEnd(done, idCursor, keyCursor);
      return if idCursor != [] || keyCursor != [] then -1 else 1;
    }

    ghost predicate SameSizes(other: PskTable)
    {
      identities.Length == other.identities.Length && keys.Length == other.keys.Length
      && suites.Length == other.suites.Length && kinds.Length == other.kinds.Length
    }

    /** The serialized lists and the kinds are those of `ps`; the suite list
        is not looked at. */
    ghost predicate HoldsEncoding(ps: seq<Psk>)
      requires Valid()
      reads Repr
    {
      count == |ps| && identities[..identitiesLen] == EncodeIds(ps)
      && keys[..keysLen] == EncodeKeys(ps) && kinds[..count] == Kinds(ps)
    }

    /** Appends one entry to the serialized lists. */
    method Push(identity: Identity, age: Age, key: Key, kind: PskKind, ghost psk: Psk, ghost ps: seq<Psk>)
      requires Valid() && HoldsEncoding(ps) && count < kinds.Length
      requires identitiesLen + 6 + |identity| <= identities.Length && keysLen + 1 + |key| <= keys.Length
      requires psk.identity == identity && psk.age == age && psk.key == key && psk.kind == kind
      modifies this, identities, keys, kinds
      ensures Valid() && count == old(count) + 1
      ensures identitiesLen == old(identitiesLen) + 6 + |identity| && keysLen == old(keysLen) + 1 + |key|
      ensures HoldsEncoding(ps + [psk])
    {
      identitiesLen := Append(identities, identitiesLen, PutIdentity(identity, age));
      keysLen := Append(keys, keysLen, PutKey(key));
      kinds[count] := kind;
      count := count + 1;
      EncodeSnoc(ps, psk);
      assert kinds[..count] == old(kinds[..count]) + [kind];
    }

    /** tls13_client_hello_again_psk_update: keeps the PSKs whose suite is the
        one that the server chose, or fails and changes nothing. */
    method KeepSuite(cipherSuite: int) returns (ret: int)
      requires Valid()
      modifies Repr
      ensures Valid()
      ensures ret == (if old(Contents()).Some? then 1 else -1)
      ensures ret == 1 ==> Contents() == Some(OfSuite(old(Contents()).value, cipherSuite))
      ensures ret == 1 ==> identitiesLen <= old(identitiesLen) && keysLen <= old(keysLen) && count <= old(count)
      ensures ret != 1 ==> unchanged(Repr)
    {
      var tmp := new PskTable(identities.Length, keys.Length, kinds.Length);
      assert tmp.HoldsEncoding([]);
      ret := CollectSuite(cipherSuite, tmp);
      if ret != 1 {
        return;
      }
      ghost var kept := OfSuite(Contents().value, cipherSuite);
      OfSuiteIsSublist(Contents().value, cipherSuite);
      WriteBack(tmp, cipherSuite, kept);
      DecodeOfEncode(kept);
      return 1;
    }

    /** Copies the temporary lists over the connection's. */
    method WriteBack(tmp: PskTable, cipherSuite: int, ghost ps: seq<Psk>)
      requires Valid() && tmp.Valid() && Repr !! tmp.Repr && SameSizes(tmp)
      requires tmp.HoldsEncoding(ps) && forall p <- ps :: p.suite == cipherSuite
      modifies Repr
      ensures Valid() && HoldsEncoding(ps) && suites[..count] == Suites(ps)
      ensures identitiesLen == tmp.identitiesLen && keysLen == tmp.keysLen && count == tmp.count
    {
      CopyInto(identities, 0, tmp.identities[..tmp.identitiesLen]);
      CopyInto(keys, 0, tmp.keys[..tmp.keysLen]);
      identitiesLen, keysLen := tmp.identitiesLen, tmp.keysLen;
      assert identities[..identitiesLen] == EncodeIds(ps) && keys[..keysLen] == EncodeKeys(ps);
      SetSuites(tmp.kinds, tmp.count, cipherSuite);
      count := tmp.count;
      assert suites[..count] == Suites(ps);
    }

    /** The loop that stores the suite and the kinds. */
    method SetSuites(from: array<PskKind>, n: nat, cipherSuite: int)
      requires n <= suites.Length == kinds.Length == from.Length && from != kinds
      modifies suites, kinds
      ensures kinds[..n] == from[..n] && forall k :: 0 <= k < n ==> suites[k] == cipherSuite
    {
      for i := 0 to n
        invariant forall k :: 0 <= k < i ==> kinds[k] == from[k] && suites[k] == cipherSuite
      {
        suites[i] := cipherSuite;
        kinds[i] := from[i];
      }
    }
  }

  /** Decoding one entry more. */
  lemma DecodeStep(done: seq<Psk>, ids: seq<byte>, keys: seq<byte>, suites: seq<int>, kinds: seq<PskKind>)
    requires |suites| == |kinds| > 0
    ensures TakeIdentity(ids).None? || TakeKey(keys).None? ==> Decode(ids, keys, suites, kinds).None?
    ensures TakeIdentity(ids).Some? && TakeKey(keys).Some? ==>
              var (identity, age, idRest) := TakeIdentity(ids).value;
              var (key, keyRest) := TakeKey(keys).value;
              |PutIdentity(identity, age)| + |idRest| == |ids| && |PutKey(key)| + |keyRest| == |keys|
              && Prepend(done, Decode(ids, keys, suites, kinds))
                 == Prepend(done + [Psk(identity, age, key, suites[0], kinds[0])],
                            Decode(idRest, keyRest, suites[1..], kinds[1..]))
  {
    if TakeIdentity(ids).Some? && TakeKey(keys).Some? {
      PutOfTakeIdentity(ids);
      PutOfTakeKey(keys);
      var (identity, age, idRest) := TakeIdentity(ids).value;
      var (key, keyRest) := TakeKey(keys).value;
      PrependStep(done, Psk(identity, age, key, suites[0], kinds[0]), Decode(idRest, keyRest, suites[1..], kinds[1..]));
    }
  }

  lemma DecodeEnd(done: seq<Psk>, ids: seq<byte>, keys: seq<byte>)
    ensures Prepend(done, Decode(ids, keys, [], [])) == if ids == [] && keys == [] then Some(done) else None
  {
    assert done + [] == done;
  }

  /** Appends to the used part of a buffer and returns the new length. */
  method Append(buf: array<byte>, used: nat, data: seq<byte>) returns (newUsed: nat)
    requires used + |data| <= buf.Length
    modifies buf
    ensures newUsed == used + |data|
    ensures buf[..newUsed] == old(buf[..used]) + data
  {
    CopyInto(buf, used, data);
    return used + |data|;
  }
}
