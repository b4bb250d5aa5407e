/** Byte strings, big-endian integers and length-prefixed vectors, as TLS
    (RFC 8446 section 3) and the key-store container use them. */
module Bytes {
  type byte = b: int | 0 <= b < 256
  type u16 = x: int | 0 <= x < 0x10000

  datatype Option<+T> = None | Some(value: T)

  function Pow256(k: nat): (p: nat)
    ensures p >= 1
  {
    if k == 0 then 1 else 256 * Pow256(k - 1)
  }

  /** The big-endian value of a byte string. */
  function Value(s: seq<byte>): nat {
    if s == [] then 0 else 256 * Value(s[..|s| - 1]) + s[|s| - 1]
  }

  /** `n` written big-endian in exactly `k` bytes. */
  function Put(k: nat, n: nat): (s: seq<byte>)
    requires n < Pow256(k)
    ensures |s| == k
  {
    if k == 0 then [] else Put(k - 1, n / 256) + [n % 256]
  }

  lemma {:induction false} ValueBound(s: seq<byte>)
    ensures Value(s) < Pow256(|s|)
  {
    if s != [] {
      ValueBound(s[..|s| - 1]);
    }
  }

  lemma {:induction false} ValueOfPut(k: nat, n: nat)
    requires n < Pow256(k)
    ensures Value(Put(k, n)) == n
  {
    if k > 0 {
      ValueOfPut(k - 1, n / 256);
      assert Put(k, n)[..k - 1] == Put(k - 1, n / 256);
    }
  }

  lemma {:induction false} PutOfValue(s: seq<byte>)
    ensures Value(s) < Pow256(|s|)
    ensures Put(|s|, Value(s)) == s
  {
    ValueBound(s);
    if s != [] {
      var front := s[..|s| - 1];
      PutOfValue(front);
      assert Value(s) / 256 == Value(front) && Value(s) % 256 == s[|s| - 1];
      assert s == front + [s[|s| - 1]];
    }
  }

  lemma Widths()
    ensures Pow256(1) == 0x100 && Pow256(2) == 0x10000
    ensures Pow256(3) == 0x1000000 && Pow256(4) == 0x100000000
  {
    assert Pow256(1) == 256 * Pow256(0);
    assert Pow256(2) == 256 * Pow256(1);
    assert Pow256(3) == 256 * Pow256(2);
    assert Pow256(4) == 256 * Pow256(3);
  }

  // ----- vectors: k bytes of length, then that many bytes of data

  function PutVec(k: nat, data: seq<byte>): seq<byte>
    requires |data| < Pow256(k)
  {
    Put(k, |data|) + data
  }

  /** Reads a vector from the front of `s`: its data and what follows it. */
  function TakeVec(k: nat, s: seq<byte>): Option<(seq<byte>, seq<byte>)> {
    if |s| < k then None
    else
      var n := Value(s[..k]);
      if |s| - k < n then None else Some((s[k..k + n], s[k + n..]))
  }

  lemma TakeOfPutVec(k: nat, data: seq<byte>, rest: seq<byte>)
    requires |data| < Pow256(k)
    ensures TakeVec(k, PutVec(k, data) + rest) == Some((data, rest))
  {
    var s := PutVec(k, data) + rest;
    assert s[..k] == Put(k, |data|);
    ValueOfPut(k, |data|);
    assert s[k..k + |data|] == data;
    assert s[k + |data|..] == rest;
  }

  lemma PutOfTakeVec(k: nat, s: seq<byte>)
    requires TakeVec(k, s).Some?
    ensures |TakeVec(k, s).value.0| < Pow256(k)
    ensures s == PutVec(k, TakeVec(k, s).value.0) + TakeVec(k, s).value.1
  {
    PutOfValue(s[..k]);
    var n := Value(s[..k]);
    assert s == s[..k] + s[k..k + n] + s[k + n..];
  }

  /** Reads `k` bytes as an integer from the front of `s`. */
  function TakeInt(k: nat, s: seq<byte>): Option<(nat, seq<byte>)> {
    if |s| < k then None else Some((Value(s[..k]), s[k..]))
  }

  lemma TakeOfPutInt(k: nat, n: nat, rest: seq<byte>)
    requires n < Pow256(k)
    ensures TakeInt(k, Put(k, n) + rest) == Some((n, rest))
  {
    var s := Put(k, n) + rest;
    assert s[..k] == Put(k, n) && s[k..] == rest;
    ValueOfPut(k, n);
  }

  lemma PutOfTakeInt(k: nat, s: seq<byte>)
    requires TakeInt(k, s).Some?
    ensures TakeInt(k, s).value.0 < Pow256(k)
    ensures s == Put(k, TakeInt(k, s).value.0) + TakeInt(k, s).value.1
  {
    PutOfValue(s[..k]);
    assert s == s[..k] + s[k..];
  }

  // ----- lists read one element at a time

  /** What has been read, in front of what is still to be read. */
  function Prepend<T>(done: seq<T>, rest: Option<seq<T>>): Option<seq<T>> {
    if rest.None? then None else Some(done + rest.value)
  }

  lemma PrependNothing<T>(rest: Option<seq<T>>)
    ensures Prepend([], rest) == rest
  {
    if rest.Some? {
      assert [] + rest.value == rest.value;
    }
  }

  lemma PrependTwice<T>(done: seq<T>, next: seq<T>, rest: Option<seq<T>>)
    ensures Prepend(done, Prepend(next, rest)) == Prepend(done + next, rest)
  {
    if rest.Some? {
      assert done + (next + rest.value) == done + next + rest.value;
    }
  }

  lemma PrependStep<T>(done: seq<T>, x: T, rest: Option<seq<T>>)
    ensures Prepend(done, Prepend([x], rest)) == Prepend(done + [x], rest)
  {
    PrependTwice(done, [x], rest);
  }

  // ----- writing into a buffer

  /** memcpy: overwrites `buf` from `offset` on with `data` and nothing else. */
  method CopyInto(buf: array<byte>, offset: nat, data: seq<byte>)
    requires offset + |data| <= buf.Length
    modifies buf
    ensures buf[..] == old(buf[..offset]) + data + old(buf[offset + |data|..])
  {
    for i := 0 to |data|
      invariant buf[..] == old(buf[..offset]) + data[..i] + old(buf[offset + i..])
    {
      buf[offset + i] := data[i];
      assert data[..i + 1] == data[..i] + [data[i]];
    }
    assert data[..|data|] == data;
  }
}
