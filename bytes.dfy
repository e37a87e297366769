/** Fixed-width integers and their little-endian byte encodings, as laid out in
    memory by the x86-64 targets the client is built for. */
module Bytes {

  type byte = x: int | 0 <= x < 0x100
  type u8 = byte
  type u16 = x: int | 0 <= x < 0x1_0000
  type u64 = x: int | 0 <= x < 0x1_0000_0000_0000_0000
  type i8 = x: int | -0x80 <= x < 0x80
  type i64 = x: int | -0x8000_0000_0000_0000 <= x < 0x8000_0000_0000_0000

  /** A 32-byte public key or identity field (`uint8_t[32]`). */
  type Key = s: seq<byte> | |s| == 32 witness Zeros(32)

  /** `n` zero bytes (what `memset(p, 0, n)` leaves behind). */
  function Zeros(n: nat): (z: seq<byte>)
    ensures |z| == n
    ensures forall i :: 0 <= i < n ==> z[i] == 0
  {
    seq(n, i => 0)
  }

  /** A slice taken wholly from the left operand of a concatenation. */
  lemma SliceOfAppendLeft(a: seq<byte>, b: seq<byte>, i: nat, j: nat)
    requires i <= j <= |a|
    ensures (a + b)[i..j] == a[i..j]
  {
    assert forall k :: 0 <= k < j - i ==> (a + b)[i..j][k] == a[i..j][k];
  }

  /** A slice taken wholly from the right operand of a concatenation. */
  lemma SliceOfAppendRight(a: seq<byte>, b: seq<byte>, i: nat, j: nat)
    requires |a| <= i <= j <= |a| + |b|
    ensures (a + b)[i..j] == b[i - |a|..j - |a|]
  {
    assert forall k :: 0 <= k < j - i ==> (a + b)[i..j][k] == b[i - |a|..j - |a|][k];
  }

  /** A slice whose every byte is zero is a run of zeros. */
  lemma ZerosSlice(s: seq<byte>, i: nat, j: nat)
    requires i <= j <= |s|
    requires forall k :: i <= k < j ==> s[k] == 0
    ensures s[i..j] == Zeros(j - i)
  {
  }

  /** A slice that agrees with `src` byte by byte is `src`. */
  lemma SliceIs(s: seq<byte>, i: nat, src: seq<byte>)
    requires i + |src| <= |s|
    requires forall k :: 0 <= k < |src| ==> s[i + k] == src[k]
    ensures s[i..i + |src|] == src
  {
  }

  function Pow256(n: nat): (r: nat)
    ensures r >= 1
  {
    if n == 0 then 1 else 256 * Pow256(n - 1)
  }

  /** The `n` least significant bytes of `x`, least significant first. */
  function LE(x: nat, n: nat): (s: seq<byte>)
    ensures |s| == n
  {
    if n == 0 then [] else [x % 256] + LE(x / 256, n - 1)
  }

  /** The number whose little-endian encoding is `s`. */
  function FromLE(s: seq<byte>): (x: nat)
    ensures x < Pow256(|s|)
  {
    if s == [] then 0 else s[0] + 256 * FromLE(s[1..])
  }

  lemma {:induction false} FromLEOfLE(x: nat, n: nat)
    requires x < Pow256(n)
    ensures FromLE(LE(x, n)) == x
  {
    if n > 0 {
      var s := LE(x, n);
      assert s[1..] == LE(x / 256, n - 1);
      assert x / 256 < Pow256(n - 1);
      FromLEOfLE(x / 256, n - 1);
    }
  }

  lemma {:induction false} LEOfFromLE(s: seq<byte>)
    ensures LE(FromLE(s), |s|) == s
  {
    if s != [] {
      var x := FromLE(s);
      assert x % 256 == s[0] && x / 256 == FromLE(s[1..]);
      LEOfFromLE(s[1..]);
    }
  }

  lemma {:induction false} FromLEOfZeros(n: nat)
    ensures FromLE(Zeros(n)) == 0
  {
    if n > 0 {
      assert Zeros(n)[1..] == Zeros(n - 1);
      FromLEOfZeros(n - 1);
    }
  }

  lemma {:induction false} LEInjective(x: nat, y: nat, n: nat)
    requires x < Pow256(n) && y < Pow256(n)
    requires LE(x, n) == LE(y, n)
    ensures x == y
  {
    FromLEOfLE(x, n);
    FromLEOfLE(y, n);
  }

  /** Two's-complement reinterpretation of a signed 64-bit value as unsigned. */
  function I64Bits(x: i64): (u: u64)
    ensures x >= 0 ==> u == x
    ensures x < 0 ==> u >= 0x8000_0000_0000_0000
  {
    if x < 0 then x + 0x1_0000_0000_0000_0000 else x
  }

  function I64OfBits(u: u64): (x: i64)
    ensures I64Bits(x) == u
  {
    if u < 0x8000_0000_0000_0000 then u else u - 0x1_0000_0000_0000_0000
  }

  function I8Bits(x: i8): (u: u8)
    ensures x >= 0 ==> u == x
  {
    if x < 0 then x + 0x100 else x
  }

  function I8OfBits(u: u8): (x: i8)
    ensures I8Bits(x) == u
  {
    if u < 0x80 then u else u - 0x100
  }

  lemma Pow256Values()
    ensures Pow256(1) == 0x100 && Pow256(2) == 0x1_0000
    ensures Pow256(8) == 0x1_0000_0000_0000_0000
  {
  }

  /** Encoding of a `uint64_t` field. */
  function U64Bytes(x: u64): (b: seq<byte>)
    ensures |b| == 8
    ensures U64Of(b) == x
  {
    Pow256Values();
    FromLEOfLE(x, 8);
    LE(x, 8)
  }

  /** The `uint64_t` whose eight bytes are `b`. */
  function U64Of(b: seq<byte>): (x: u64)
    requires |b| == 8
  {
    Pow256Values();
    FromLE(b)
  }

  /** Eight zero bytes hold the `uint64_t` zero. */
  lemma U64OfZeros()
    ensures U64Of(Zeros(8)) == 0
  {
    FromLEOfZeros(8);
  }

  lemma U64BytesOf(b: seq<byte>)
    requires |b| == 8
    ensures U64Bytes(U64Of(b)) == b
  {
    LEOfFromLE(b);
  }

  function U16Bytes(x: u16): (b: seq<byte>)
    ensures |b| == 2
    ensures U16Of(b) == x
  {
    Pow256Values();
    FromLEOfLE(x, 2);
    LE(x, 2)
  }

  function U16Of(b: seq<byte>): (x: u16)
    requires |b| == 2
  {
    Pow256Values();
    FromLE(b)
  }

  lemma U16BytesOf(b: seq<byte>)
    requires |b| == 2
    ensures U16Bytes(U16Of(b)) == b
  {
    LEOfFromLE(b);
  }

  function I64Bytes(x: i64): (b: seq<byte>)
    ensures |b| == 8
    ensures I64Of(b) == x
  {
    U64Bytes(I64Bits(x))
  }

  function I64Of(b: seq<byte>): (x: i64)
    requires |b| == 8
  {
    I64OfBits(U64Of(b))
  }

  lemma I64BytesOf(b: seq<byte>)
    requires |b| == 8
    ensures I64Bytes(I64Of(b)) == b
  {
    U64BytesOf(b);
  }
}
