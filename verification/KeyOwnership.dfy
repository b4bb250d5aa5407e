/** Who owns the EVP keys that composite keys point to.  A private and a public
    key made together share one reference-counted object; every operation keeps
    the count of each object equal to the number of places that hold it. */
module KeyOwnership {
  import opened Bytes
  import opened Library
  import opened CompositeKey

  /** Reference counts of the live objects. */
  type Refs = map<nat, nat>

  /** Each live object is held, and counted once for every holder. */
  ghost predicate Balances(refs: Refs, holders: multiset<nat>) {
    forall id :: (id in refs <==> id in holders) && (id in refs ==> refs[id] == holders[id])
  }

  function Held(sm2: Option<nat>): multiset<nat> {
    if sm2.None? then multiset{} else multiset{sm2.value}
  }

  function Released(refs: Refs, id: nat): Refs
    requires id in refs
  {
    if refs[id] <= 1 then refs - {id} else refs[id := refs[id] - 1]
  }

  /** The holders determine the counts: no object leaks and none is freed while
      it is held. */
  lemma BalanceIsUnique(r1: Refs, r2: Refs, holders: multiset<nat>)
    requires Balances(r1, holders) && Balances(r2, holders)
    ensures r1 == r2
  {
    assert forall id :: id in r1 <==> id in r2;
    assert forall id :: id in r1 ==> r1[id] == r2[id];
  }

  class EvpHeap {
    var refs: Refs
    var keys: map<nat, EvpPublic>   // the public part of every object ever made
    var next: nat

    ghost predicate Valid()
      reads this
    {
      forall id :: (id in refs ==> id < next && refs[id] > 0) && (id in keys ==> id < next)
    }

    constructor ()
      ensures Valid() && refs == map[] && Balances(refs, multiset{})
    {
      refs, keys, next := map[], map[], 0;
    }

    /** A library call that makes an object with one reference, or fails. */
    method Make(succeeds: bool, key: EvpPublic) returns (id: Option<nat>)
      requires Valid()
      modifies this
      ensures Valid() && (id.Some? <==> succeeds)
      ensures id.None? ==> refs == old(refs) && keys == old(keys)
      ensures id.Some? ==> id.value !in old(refs) && id.value !in old(keys)
                           && refs == old(refs)[id.value := 1] && keys == old(keys)[id.value := key]
    {
      if !succeeds {
        return None;
      }
      id := Some(next);
      refs, keys, next := refs[next := 1], keys[next := key], next + 1;
    }

    /** EVP_PKEY_up_ref. */
    method UpRef(id: nat, succeeds: bool)
      requires Valid() && id in refs
      modifies this`refs
      ensures Valid() && refs == if succeeds then old(refs)[id := old(refs)[id] + 1] else old(refs)
    {
      if succeeds {
        refs := refs[id := refs[id] + 1];
      }
    }

    /** EVP_PKEY_free, which must not be given a dead object. */
    method Free(id: Option<nat>)
      requires Valid() && (id.Some? ==> id.value in refs)
      modifies this`refs
      ensures Valid() && refs == if id.Some? then Released(old(refs), id.value) else old(refs)
    {
      if id.Some? {
        refs := Released(refs, id.value);
      }
    }
  }

  function ClearedSecret(): DilithiumSecret { seq(DILITHIUM_SECRET_KEY_BYTES, _ => 0) }

  function ClearedPublic(): DilithiumPublic { seq(DILITHIUM_PUBLIC_KEY_BYTES, _ => 0) }

  class PrivateKeySlot {
    var sm2: Option<nat>
    var dilithium: DilithiumSecret

    /** hybrid_private_key_init. */
    constructor ()
      ensures sm2 == None && dilithium == ClearedSecret()
    {
      sm2, dilithium := None, ClearedSecret();
    }

    /** hybrid_private_key_cleanup: gives up what the slot holds. */
    method Cleanup(heap: EvpHeap, ghost others: multiset<nat>)
      requires heap.Valid() && Balances(heap.refs, others + Held(sm2))
      modifies this, heap`refs
      ensures heap.Valid() && Balances(heap.refs, others)
      ensures sm2 == None && dilithium == ClearedSecret()
    {
      heap.Free(sm2);
      sm2, dilithium := None, ClearedSecret();
    }
  }

  class PublicKeySlot {
    var sm2: Option<nat>
    var dilithium: DilithiumPublic

    /** hybrid_public_key_init. */
    constructor ()
      ensures sm2 == None && dilithium == ClearedPublic()
    {
      sm2, dilithium := None, ClearedPublic();
    }

    /** hybrid_public_key_cleanup. */
    method Cleanup(heap: EvpHeap, ghost others: multiset<nat>)
      requires heap.Valid() && Balances(heap.refs, others + Held(sm2))
      modifies this, heap`refs
      ensures heap.Valid() && Balances(heap.refs, others)
      ensures sm2 == None && dilithium == ClearedPublic()
    {
      heap.Free(sm2);
      sm2, dilithium := None, ClearedPublic();
    }

    /** The composite key that the slot stands for. */
    function Value(heap: EvpHeap): PublicKey
      requires sm2.Some? ==> sm2.value in heap.keys
      reads this, heap
    {
      PublicKey(if sm2.Some? then Some(heap.keys[sm2.value]) else None, dilithium)
    }
  }

  /** What the library calls of a key generation give. */
  datatype Generated = Generated(sm2: Option<EvpPublic>, upRefs: bool, dilithium: Option<(DilithiumPublic, DilithiumSecret)>)

  lemma OneMoreHolder(refs: Refs, holders: multiset<nat>, id: nat)
    requires Balances(refs, holders)
    ensures id !in refs ==> Balances(refs[id := 1], holders + multiset{id})
    ensures id in refs ==> Balances(refs[id := refs[id] + 1], holders + multiset{id})
  {
  }

  lemma OneHolderLess(refs: Refs, holders: multiset<nat>, id: nat)
    requires Balances(refs, holders + multiset{id})
    ensures id in refs && Balances(Released(refs, id), holders)
  {
  }

  /** The two new keys of composite_key_generate, or neither. */
  method MakePair(heap: EvpHeap, lib: Generated, ghost held: multiset<nat>)
    returns (ok: bool, private: PrivateKeySlot, public: PublicKeySlot)
    requires heap.Valid() && Balances(heap.refs, held)
    modifies heap
    ensures fresh(private) && fresh(public)
    ensures heap.Valid() && Balances(heap.refs, held + Held(public.sm2) + Held(private.sm2))
    ensures ok <==> lib.sm2.Some? && lib.upRefs && lib.dilithium.Some?
    ensures ok ==> private.sm2.Some? && private.sm2 == public.sm2 && private.sm2.value !in held
    ensures ok ==> private.sm2.value in heap.keys && heap.keys[private.sm2.value] == lib.sm2.value
    ensures ok ==> lib.dilithium == Some((public.dilithium, private.dilithium))
    ensures !ok ==> private.sm2 == None == public.sm2
  {
    hide Balances;
    private := new PrivateKeySlot();
    public := new PublicKeySlot();
    ok := lib.sm2.Some?;
    private.sm2 := heap.Make(ok, if ok then lib.sm2.value else EvpPublic(false, []));
    if !ok {
      assert held + multiset{} + multiset{} == held;
      return;
    }
    var id := private.sm2.value;
    NewIsNotHeld(old(heap.refs), held, id);
    OneMoreHolder(old(heap.refs), held, id);
    ghost var refs := heap.refs;
    heap.UpRef(id, lib.upRefs);
    ok := lib.upRefs;
    if ok {
      OneMoreHolder(refs, held + multiset{id}, id);
      public.sm2 := private.sm2;
      ok := lib.dilithium.Some?;
    }
    assert held + multiset{} + multiset{id} == held + multiset{id};
    if ok {
      public.dilithium, private.dilithium := lib.dilithium.value.0, lib.dilithium.value.1;
    } else {
      private.Cleanup(heap, held + Held(public.sm2));
      public.Cleanup(heap, held);
      assert held + multiset{} + multiset{} == held;
    }
  }

  lemma NewIsNotHeld(refs: Refs, holders: multiset<nat>, id: nat)
    requires Balances(refs, holders) && id !in refs
    ensures id !in holders
  {
  }

  /** composite_key_generate: both slots get the new pair and share its EVP
      object, or nothing changes; `others` are the holders elsewhere. */
  method Generate(heap: EvpHeap, private: PrivateKeySlot, public: PublicKeySlot, lib: Generated,
                  ghost others: multiset<nat>)
    returns (ok: bool)
    requires heap.Valid() && Balances(heap.refs, others + Held(private.sm2) + Held(public.sm2))
    modifies heap, private, public
    ensures heap.Valid() && Balances(heap.refs, others + Held(private.sm2) + Held(public.sm2))
    ensures ok <==> lib.sm2.Some? && lib.upRefs && lib.dilithium.Some?
    ensures ok ==> private.sm2.Some? && private.sm2 == public.sm2
    ensures ok ==> private.sm2.value !in others && private.sm2.value in heap.refs && heap.refs[private.sm2.value] == 2
    ensures ok ==> private.sm2.value in heap.keys && heap.keys[private.sm2.value] == lib.sm2.value
    ensures ok ==> lib.dilithium == Some((public.dilithium, private.dilithium))
    ensures !ok ==> heap.refs == old(heap.refs) && unchanged(private) && unchanged(public)
  {
    hide Balances;
    ghost var p, q := Held(private.sm2), Held(public.sm2);
    ghost var before := heap.refs;
    var newPrivate, newPublic;
    ok, newPrivate, newPublic := MakePair(heap, lib, others + p + q);
    if !ok {
      Rearrange(others, p, q, multiset{});
      BalanceIsUnique(heap.refs, before, others + p + q);
      return;
    }
    ghost var n := multiset{newPrivate.sm2.value};
    Rearrange(others, p, q, n);
    private.Cleanup(heap, others + q + n + n);
    public.Cleanup(heap, others + n + n);
    private.sm2, private.dilithium := newPrivate.sm2, newPrivate.dilithium;
    public.sm2, public.dilithium := newPublic.sm2, newPublic.dilithium;
    TwoHolders(heap.refs, others, newPrivate.sm2.value);
  }

  lemma Rearrange(a: multiset<nat>, p: multiset<nat>, q: multiset<nat>, n: multiset<nat>)
    ensures a + p + q + n + n == a + q + n + n + p
    ensures a + q + n + n == a + n + n + q
    ensures n == multiset{} ==> a + p + q + n + n == a + p + q
    ensures a + p + n == a + n + p
  {
  }

  lemma TwoHolders(refs: Refs, others: multiset<nat>, id: nat)
    requires id !in others && Balances(refs, others + multiset{id} + multiset{id})
    ensures id in refs && refs[id] == 2
  {
  }

  /** composite_parse_public_key: the slot's old key is given up only for a key
      that parsed; `creates` is whether EVP_PKEY_fromdata works. */
  method ParseInto(lib: Lib, heap: EvpHeap, s: seq<byte>, creates: bool, slot: PublicKeySlot,
                   ghost others: multiset<nat>)
    returns (ok: bool)
    requires heap.Valid() && Balances(heap.refs, others + Held(slot.sm2))
    modifies heap, slot
    ensures heap.Valid() && Balances(heap.refs, others + Held(slot.sm2))
    ensures ok <==> creates && ParsePublicKey(lib, s).Some?
    ensures ok ==> slot.sm2.Some? && slot.sm2.value in heap.keys && Some(slot.Value(heap)) == ParsePublicKey(lib, s)
    ensures !ok ==> heap.refs == old(heap.refs) && unchanged(slot)
  {
    if |s| != COMPOSITE_PUBLIC_KEY_BYTES {
      return false;
    }
    hide Balances;
    ghost var held, before := others + Held(slot.sm2), heap.refs;
    var point := s[DILITHIUM_PUBLIC_KEY_BYTES..];
    if point[0] != 0x04 {
      return false;
    }
    var key := heap.Make(creates, EvpPublic(true, point));
    if key.None? {
      return false;
    }
    OneMoreHolder(before, held, key.value);
    if !lib.onCurve(point) {
      OneHolderLess(heap.refs, held, key.value);
      heap.Free(key);
      BalanceIsUnique(heap.refs, before, held);
      return false;
    }
    Rearrange(others, Held(slot.sm2), multiset{}, Held(key));
    slot.Cleanup(heap, others + Held(key));
    slot.sm2, slot.dilithium := key, s[..DILITHIUM_PUBLIC_KEY_BYTES];
    return true;
  }

  /** composite_serialize_public_key: one buffer and two copies. */
  method SerializeFrom(heap: EvpHeap, slot: PublicKeySlot) returns (serialized: Option<seq<byte>>)
    requires slot.sm2.Some? ==> slot.sm2.value in heap.keys
    ensures serialized == SerializePublicKey(slot.Value(heap))
    ensures serialized.Some? <==>
              slot.sm2.Some? && heap.keys[slot.sm2.value].isSm2 && |heap.keys[slot.sm2.value].point| == 65
              && heap.keys[slot.sm2.value].point[0] == 0x04
    ensures serialized.Some? ==>
              |serialized.value| == 1377 && serialized.value[..1312] == slot.dilithium
              && serialized.value[1312..] == heap.keys[slot.sm2.value].point
  {
    if slot.sm2.None? {
      return None;
    }
    var output := new byte[COMPOSITE_PUBLIC_KEY_BYTES];
    CopyInto(output, 0, slot.dilithium);
    var key := heap.keys[slot.sm2.value];
    if !WellFormedPoint(key) {
      return None;
    }
    assert output[..DILITHIUM_PUBLIC_KEY_BYTES] == slot.dilithium;
    CopyInto(output, DILITHIUM_PUBLIC_KEY_BYTES, key.point);
    assert output[..] == slot.dilithium + key.point;
    return Some(output[..]);
  }

  /** A key that was parsed and serialized again gives the same bytes, and its
      slot still balances. */
  method ParseAndSerialize(lib: Lib, heap: EvpHeap, s: seq<byte>, slot: PublicKeySlot, ghost others: multiset<nat>)
    returns (again: Option<seq<byte>>)
    requires heap.Valid() && Balances(heap.refs, others + Held(slot.sm2))
    modifies heap, slot
    ensures heap.Valid() && Balances(heap.refs, others + Held(slot.sm2))
    ensures again == if ParsePublicKey(lib, s).Some? then Some(s) else None
  {
    var ok := ParseInto(lib, heap, s, true, slot, others);
    if !ok {
      return None;
    }
    SerializeOfParsedKey(lib, s);
    again := SerializeFrom(heap, slot);
  }
}
