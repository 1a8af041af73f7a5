/** Bytes, big-endian fields and ASCII case, shared by every module. */
module Wire {

  datatype Option<+T> = None | Some(value: T)

  type Byte = b: int | 0 <= b < 0x100
  type U16 = v: int | 0 <= v < 0x1_0000
  type U32 = v: int | 0 <= v < 0x1_0000_0000

  /** A packet, and also a name: the source keeps both as runs of bytes. */
  type Packet = seq<Byte>
  type Name = seq<Byte>

  const DOT: Byte := 46

  function U16At(p: Packet, off: nat): U16
    requires off + 2 <= |p|
  {
    (p[off] as int) * 0x100 + p[off + 1]
  }

  function U32At(p: Packet, off: nat): U32
    requires off + 4 <= |p|
  {
    (p[off] as int) * 0x100_0000 + (p[off + 1] as int) * 0x1_0000 + (p[off + 2] as int) * 0x100 + p[off + 3]
  }

  function U16Bytes(v: U16): (b: Packet)
    ensures |b| == 2 && U16At(b, 0) == v
  {
    [v / 0x100, v % 0x100]
  }

  function U32Bytes(v: U32): (b: Packet)
    ensures |b| == 4 && U32At(b, 0) == v
  {
    U16Bytes(v / 0x1_0000) + U16Bytes(v % 0x1_0000)
  }

  /** The packet with `patch` written over the bytes at `off`. */
  function Patch(p: Packet, off: nat, patch: Packet): (r: Packet)
    requires off + |patch| <= |p|
    ensures |r| == |p|
    ensures forall i :: 0 <= i < |p| ==> r[i] == if off <= i < off + |patch| then patch[i - off] else p[i]
  {
    p[..off] + patch + p[off + |patch|..]
  }

  function Lower(b: Byte): Byte {
    if 65 <= b <= 90 then b + 32 else b
  }

  function LowerAll(s: Packet): (r: Packet)
    ensures |r| == |s|
    ensures forall i :: 0 <= i < |s| ==> r[i] == Lower(s[i])
  {
    seq(|s|, i requires 0 <= i < |s| => Lower(s[i]))
  }

  predicate NoUpper(s: Packet) {
    forall i :: 0 <= i < |s| ==> !(65 <= s[i] <= 90)
  }

  /** Two bytes are alike in lower case exactly if they are the same, or the same letter in two cases. */
  lemma {:induction false} SameLetter(a: Byte, b: Byte)
    ensures Lower(a) == Lower(b) <==>
      a == b || ('A' <= a as char <= 'Z' && b == a + 32) || ('A' <= b as char <= 'Z' && a == b + 32)
    ensures 'a' <= a as char <= 'z' ==> Lower(a) == a
  {
  }

  /** `q` agrees with `p` on every byte from `lo` up to `hi`. */
  predicate SameRange(p: Packet, q: Packet, lo: nat, hi: nat) {
    hi <= |p| && hi <= |q| && forall i :: lo <= i < hi ==> p[i] == q[i]
  }

  ghost predicate Distinct<T(!new)>(s: seq<T>) { forall i, j :: 0 <= i < j < |s| ==> s[i] != s[j] }

  lemma {:induction false} SameU16(p: Packet, q: Packet, off: nat)
    requires SameRange(p, q, off, off + 2)
    ensures U16At(p, off) == U16At(q, off)
  {
  }

  lemma {:induction false} SliceAfter(head: Packet, a: Packet, i: nat, j: nat)
    requires i <= j <= |a|
    ensures (head + a)[|head| + i..|head| + j] == a[i..j]
  {
    var s, n := head + a, |head|;
    forall k | 0 <= k < j - i ensures s[n + i..n + j][k] == a[i..j][k] { assert s[n + i + k] == a[i + k]; }
  }

  function Zeros(n: nat): (z: Packet)
    ensures |z| == n && forall i :: 0 <= i < n ==> z[i] == 0
  {
    seq(n, _ => 0)
  }
}
