/** Bytes, flow keys and the XOR of two keys of equal length. */
module Bytes {

  type byte = bv8

  /** A flow key, or a fragment of one, by value. */
  type Key = seq<byte>

  /** `b` folded into `a`; positions past the end of `b` stay as they are. */
  function Xor(a: Key, b: Key): (r: Key)
    ensures |r| == |a|
  {
    seq(|a|, i requires 0 <= i < |a| => if i < |b| then a[i] ^ b[i] else a[i])
  }

  lemma XorSelf(a: Key, b: Key)
    ensures Xor(Xor(a, b), b) == a
  {
  }

  lemma XorSwap(a: Key, b: Key, c: Key)
    ensures Xor(Xor(a, b), c) == Xor(Xor(a, c), b)
  {
  }

  /** XOR of two keys byte by byte, in place of the first. */
  method XorInto(a: Key, b: Key) returns (r: Key)
    requires |a| == |b|
    ensures r == Xor(a, b)
  {
    r := a;
    for i := 0 to |b|
      invariant |r| == |a|
      invariant forall j | 0 <= j < i :: r[j] == a[j] ^ b[j]
      invariant forall j | i <= j < |a| :: r[j] == a[j]
    {
      r := r[i := r[i] ^ b[i]];
    }
  }

  /** The byte with value i. */
  function ByteOf(i: nat): byte
    requires i < 256
  {
    if i == 0 then 0 else ByteOf(i - 1) + 1
  }

  /** The value of a byte, bit by bit. */
  ghost function ValueOf(b: byte): nat {
    BitValue(b, 1, 1) + BitValue(b, 2, 2) + BitValue(b, 4, 4) + BitValue(b, 8, 8)
    + BitValue(b, 16, 16) + BitValue(b, 32, 32) + BitValue(b, 64, 64) + BitValue(b, 128, 128)
  }

  ghost function BitValue(b: byte, mask: byte, value: nat): nat {
    if b & mask != 0 then value else 0
  }

  lemma ValueOfNext(b: byte)
    ensures b != 255 ==> ValueOf(b + 1) == ValueOf(b) + 1
    ensures ValueOf(b) <= 255 && (ValueOf(b) == 255 ==> b == 255)
  {
  }

  lemma {:induction false} ValueOfByteOf(i: nat)
    requires i < 256
    ensures ValueOf(ByteOf(i)) == i
  {
    if i > 0 {
      ValueOfByteOf(i - 1);
      ValueOfNext(ByteOf(i - 1));
      assert ValueOf(255) == 255;
    }
  }

  ghost predicate NoDup<T>(s: seq<T>) {
    s == [] || (s[|s| - 1] !in s[..|s| - 1] && NoDup(s[..|s| - 1]))
  }

  lemma {:induction false} NoDupIndex<T>(s: seq<T>)
    ensures NoDup(s) <==> forall i, j | 0 <= i < j < |s| :: s[i] != s[j]
  {
    if s != [] {
      var n := |s| - 1;
      NoDupIndex(s[..n]);
      if s[n] in s[..n] {
        var i :| 0 <= i < n && s[i] == s[n];
      } else {
        assert forall i | 0 <= i < n :: s[i] == s[..n][i];
        assert forall i, j | 0 <= i < j < n :: s[i] == s[..n][i] && s[j] == s[..n][j];
      }
    }
  }

  lemma SubsetSize<T>(a: set<T>, b: set<T>)
    requires a <= b
    ensures |a| <= |b|
  {
    assert b == a + (b - a);
  }
}
