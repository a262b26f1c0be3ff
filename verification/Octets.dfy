/** Byte strings, C strings and the big-endian integers shared by every wire and file format. */
module Octets {
  type byte = x: int | 0 <= x < 256
  type Bytes = seq<byte>
  type u32 = x: int | 0 <= x < 0x1_0000_0000

  /** A password-table salt. */
  type Salt = s: Bytes | |s| == 16 witness seq(16, _ => 0)
  /** A 32-byte hash or symmetric key. */
  type Digest = s: Bytes | |s| == 32 witness seq(32, _ => 0)

  datatype Option<+T> = None | Some(value: T)

  /** Parsing lists element by element: any failure fails the whole. */
  function Prepend<T>(x: Option<T>, xs: Option<seq<T>>): Option<seq<T>> {
    if x.Some? && xs.Some? then Some([x.value] + xs.value) else None
  }

  function Append<T>(xs: Option<seq<T>>, ys: Option<seq<T>>): Option<seq<T>> {
    if xs.Some? && ys.Some? then Some(xs.value + ys.value) else None
  }

  lemma PrependAppend<T>(x: Option<T>, xs: Option<seq<T>>, ys: Option<seq<T>>)
    ensures Append(Prepend(x, xs), ys) == Prepend(x, Append(xs, ys))
  {
    if x.Some? && xs.Some? && ys.Some? {
      Regroup([x.value], xs.value, ys.value);
    }
  }

  lemma AppendNothing<T>(x: Option<T>, xs: Option<seq<T>>)
    ensures Append(Some([]), xs) == xs
    ensures Prepend(x, Some([])) == (if x.Some? then Some([x.value]) else None)
  {
    if xs.Some? {
      assert [] + xs.value == xs.value;
    }
    if x.Some? {
      assert [x.value] + [] == [x.value];
    }
  }

  lemma Regroup<T>(a: seq<T>, b: seq<T>, c: seq<T>)
    ensures a + (b + c) == (a + b) + c
    ensures a + ([] + c) == a + c
  {
    assert [] + c == c;
  }

  lemma HeadFirst<T>(a: seq<T>, b: seq<T>)
    requires a != []
    ensures a == [a[0]] + a[1..] && a + b == [a[0]] + (a[1..] + b)
  {
  }

  const UINT32_MAX := 0xFFFF_FFFF
  const UINT16_MAX := 0xFFFF
  const INT_MAX := 0x7FFF_FFFF

  /** Position of the first `x`, or the length when there is none. */
  function IndexOf(b: Bytes, x: byte): (i: nat)
    ensures i <= |b|
    ensures x !in b[..i]
    ensures i < |b| ==> b[i] == x
  {
    if b == [] || b[0] == x then 0 else 1 + IndexOf(b[1..], x)
  }

  lemma IndexOfUnique(b: Bytes, x: byte, i: nat)
    requires i <= |b| && x !in b[..i] && (i < |b| ==> b[i] == x)
    ensures IndexOf(b, x) == i
  {
    var j := IndexOf(b, x);
    assert forall k | 0 <= k < i :: b[..i][k] != x;
    assert forall k | 0 <= k < j :: b[..j][k] != x;
  }

  /** What a C string function sees of a buffer: everything before the first zero byte. */
  function CStr(b: Bytes): (s: Bytes)
    ensures s <= b
    ensures 0 !in s
    ensures |s| < |b| ==> b[|s|] == 0
  {
    b[..IndexOf(b, 0)]
  }

  lemma CStrOfClean(b: Bytes)
    requires 0 !in b
    ensures CStr(b) == b
  {
    assert b[..|b|] == b;
    IndexOfUnique(b, 0, |b|);
  }

  function Be32(n: u32): (b: Bytes)
    ensures |b| == 4
  {
    [n / 0x100_0000, n / 0x1_0000 % 256, n / 0x100 % 256, n % 256]
  }

  function FromBe32(b: Bytes): u32
    requires |b| == 4
  {
    b[0] as int * 0x100_0000 + b[1] as int * 0x1_0000 + b[2] as int * 0x100 + b[3]
  }

  lemma Be32RoundTrip(n: u32)
    ensures FromBe32(Be32(n)) == n
  {
    assert n / 0x1_0000 == n / 0x100_0000 * 256 + n / 0x1_0000 % 256;
    assert n / 0x100 == n / 0x1_0000 * 256 + n / 0x100 % 256;
    assert n == n / 0x100 * 256 + n % 256;
  }

  lemma Be32Onto(b: Bytes)
    requires |b| == 4
    ensures Be32(FromBe32(b)) == b
  {
    var n := FromBe32(b);
    assert n / 0x100 == b[0] as int * 0x1_0000 + b[1] as int * 0x100 + b[2];
    assert n / 0x1_0000 == b[0] as int * 0x100 + b[1];
    assert n / 0x100_0000 == b[0];
  }

  function Be16(n: int): (b: Bytes)
    requires 0 <= n < 0x1_0000
    ensures |b| == 2
  {
    [n / 256, n % 256]
  }

  function FromBe16(b: Bytes): int
    requires |b| == 2
  {
    b[0] as int * 256 + b[1]
  }

  /** `memcpy` of `src` to offset `at` of `dst`. */
  method CopyInto(dst: array<byte>, at: nat, src: Bytes)
    requires at + |src| <= dst.Length
    modifies dst
    ensures dst[..at] == old(dst[..at])
    ensures dst[..at + |src|] == old(dst[..at]) + src
    ensures dst[at + |src|..] == old(dst[at + |src|..])
  {
    for i := 0 to |src|
      invariant dst[..at] == old(dst[..at])
      invariant dst[at..at + i] == src[..i]
      invariant dst[at + i..] == old(dst[at + i..])
    {
      ghost var before := dst[at + i..];
      dst[at + i] := src[i];
      assert dst[at..at + i + 1] == dst[at..at + i] + [src[i]];
      assert src[..i + 1] == src[..i] + [src[i]];
      assert dst[at + i + 1..] == before[1..];
    }
    assert dst[..at + |src|] == dst[..at] + dst[at..at + |src|];
  }

  // ---------- what the integer formats mean ----------

  /** The number a byte string writes in base 256, most significant byte first. */
  function BigEndian(b: Bytes): nat {
    if b == [] then 0 else 256 * BigEndian(b[..|b| - 1]) + b[|b| - 1] as int
  }

  lemma {:induction false} BigEndianAppend(b: Bytes, x: byte)
    ensures BigEndian(b + [x]) == 256 * BigEndian(b) + x as int
  {
    assert (b + [x])[..|b|] == b;
  }

  /** The 32-bit fields of every format here are in network order. */
  lemma NetworkOrder32(n: u32)
    ensures BigEndian(Be32(n)) == n
  {
    var a, b, c, d: byte := n / 0x100_0000, n / 0x1_0000 % 256, n / 0x100 % 256, n % 256;
    BigEndianOfFour(a, b, c, d);
    Be32RoundTrip(n);
  }

  /** And so is the 16-bit status of a response. */
  lemma NetworkOrder16(m: int)
    requires 0 <= m <= UINT16_MAX
    ensures BigEndian(Be16(m)) == m
  {
    var x, y: byte := m / 256, m % 256;
    BigEndianAppend([], x);
    BigEndianAppend([x], y);
    assert [] + [x] == [x] && [x] + [y] == [x, y];
  }

  lemma BigEndianOfFour(a: byte, b: byte, c: byte, d: byte)
    ensures BigEndian([a, b, c, d]) == FromBe32([a, b, c, d])
  {
    BigEndianAppend([], a);
    BigEndianAppend([a], b);
    BigEndianAppend([a, b], c);
    BigEndianAppend([a, b, c], d);
    assert [] + [a] == [a] && [a] + [b] == [a, b] && [a, b] + [c] == [a, b, c] && [a, b, c] + [d] == [a, b, c, d];
  }
}
