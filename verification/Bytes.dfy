/** Bytes, and copying them. */
module Bytes {

  newtype byte = x: int | 0 <= x < 256

  /** `s` with `bytes` written over it from `at` on. */
  function Spliced(s: seq<byte>, at: nat, bytes: seq<byte>): (r: seq<byte>)
    requires at + |bytes| <= |s|
    ensures |r| == |s|
  {
    s[..at] + bytes + s[at + |bytes|..]
  }

  /** `memcpy`, or `memmove`, into a block from `at` on. */
  method Copy(target: array<byte>, at: nat, bytes: seq<byte>)
    requires at + |bytes| <= target.Length
    modifies target
    ensures target[..] == Spliced(old(target[..]), at, bytes)
  {
    forall i | 0 <= i < |bytes| {
      target[at + i] := bytes[i];
    }
    ghost var r := Spliced(old(target[..]), at, bytes);
    assert forall i :: 0 <= i < |r| ==> target[i] == r[i];
  }

  lemma SplicedAt(s: seq<byte>, at: nat, bytes: seq<byte>, k: nat)
    requires at + |bytes| <= |s| && k < |s|
    ensures Spliced(s, at, bytes)[k] == if at <= k < at + |bytes| then bytes[k - at] else s[k]
  {
  }

  /** Bytes before the written ones stay. */
  lemma SplicedBefore(s: seq<byte>, at: nat, bytes: seq<byte>, lo: nat, hi: nat)
    requires at + |bytes| <= |s| && lo <= hi <= at
    ensures Spliced(s, at, bytes)[lo..hi] == s[lo..hi]
  {
    var r := Spliced(s, at, bytes);
    forall k | lo <= k < hi
      ensures r[k] == s[k]
    {
      SplicedAt(s, at, bytes, k);
    }
    SameSlice(r, s, lo, hi);
  }

  /** The written bytes are there. */
  lemma SplicedWithin(s: seq<byte>, at: nat, bytes: seq<byte>)
    requires at + |bytes| <= |s|
    ensures Spliced(s, at, bytes)[at..at + |bytes|] == bytes
    ensures Spliced(s, at, bytes)[..at + |bytes|] == s[..at] + bytes
  {
    var r := Spliced(s, at, bytes);
    forall k | 0 <= k < at + |bytes|
      ensures r[k] == (s[..at] + bytes)[k]
    {
      SplicedAt(s, at, bytes, k);
    }
  }

  /** Sequences that agree from `lo` to `hi` have the same slice there. */
  lemma SameSlice(x: seq<byte>, y: seq<byte>, lo: nat, hi: nat)
    requires lo <= hi <= |x| && hi <= |y| && forall k :: lo <= k < hi ==> x[k] == y[k]
    ensures x[lo..hi] == y[lo..hi]
  {
    assert forall k :: 0 <= k < hi - lo ==> x[lo..hi][k] == x[lo + k] && y[lo..hi][k] == y[lo + k];
  }

  // ------------------------------------------------------------ numbers in bytes

  /** The low 16 bits of `v`, high byte first, stand at `at`. */
  predicate Spells16(s: seq<byte>, at: nat, v: int) {
    at + 2 <= |s| && s[at] as int == v / 256 % 256 && s[at + 1] as int == v % 256
  }

  /** The low 32 bits of `v`, high byte first, stand at `at`. */
  predicate Spells32(s: seq<byte>, at: nat, v: int) {
    Spells16(s, at, v / 65536) && Spells16(s, at + 2, v)
  }

  /** The low 32 bits of `v`, low byte first, stand at `at`. */
  predicate SpellsLow32(s: seq<byte>, at: nat, v: int) {
    && at + 4 <= |s|
    && s[at] as int == v % 256 && s[at + 1] as int == v / 256 % 256
    && s[at + 2] as int == v / 65536 % 256 && s[at + 3] as int == v / 16777216 % 256
  }
}
