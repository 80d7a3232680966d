/** Machine integers, bit operations on naturals, and big-endian fields.
    Bytes are mathematical integers with a range; shifts and masks are written as
    division, multiplication and remainder by powers of two. */
module Bytes {
  type byte = x: int | 0 <= x < 0x100
  type u16 = x: int | 0 <= x < 0x1_0000
  type u32 = x: int | 0 <= x < 0x1_0000_0000
  type u64 = x: int | 0 <= x < 0x1_0000_0000_0000_0000
  type i64 = x: int | -0x8000_0000_0000_0000 <= x < 0x8000_0000_0000_0000

  const TWO_16: int := 0x1_0000
  const TWO_32: int := 0x1_0000_0000
  const TWO_64: int := 0x1_0000_0000_0000_0000

  /** Two's complement: the 64-bit signed value of an integer. */
  function WrapI64(x: int): i64 {
    if x % TWO_64 < TWO_64 / 2 then x % TWO_64 else x % TWO_64 - TWO_64
  }

  lemma WrapNear(x: int)
    requires -TWO_64 <= x < TWO_64
    ensures WrapI64(x) == if x > 0x7FFF_FFFF_FFFF_FFFF then x - TWO_64 else if x < -0x8000_0000_0000_0000 then x + TWO_64 else x
  {}

  lemma WrapMultiple(x: int)
    ensures (x - WrapI64(x)) % TWO_64 == 0
  {}

  function Pow2(k: nat): (p: nat)
    ensures p >= 1
  {
    if k == 0 then 1 else 2 * Pow2(k - 1)
  }

  /** Bit `k` of the binary expansion of `x`. */
  predicate Bit(x: nat, k: nat) {
    if k == 0 then x % 2 == 1 else Bit(x / 2, k - 1)
  }

  /** Bitwise exclusive or of two naturals of any width. */
  function Xor(a: nat, b: nat): nat
    decreases a + b
  {
    if a == 0 && b == 0 then 0 else (a % 2 + b % 2) % 2 + 2 * Xor(a / 2, b / 2)
  }

  /** Bitwise inclusive or of two naturals of any width. */
  function Or(a: nat, b: nat): nat
    decreases a + b
  {
    if a == 0 && b == 0 then 0
    else (if a % 2 == 1 || b % 2 == 1 then 1 else 0) + 2 * Or(a / 2, b / 2)
  }

  /** One binary digit of `Xor`, also where both arguments are zero. */
  lemma XorStep(a: nat, b: nat)
    ensures Xor(a, b) % 2 == (a % 2 + b % 2) % 2 && Xor(a, b) / 2 == Xor(a / 2, b / 2)
  {}

  lemma {:induction false} BitXor(a: nat, b: nat, k: nat)
    ensures Bit(Xor(a, b), k) == (Bit(a, k) != Bit(b, k))
    decreases k
  {
    hide Xor;
    XorStep(a, b);
    if k > 0 { BitXor(a / 2, b / 2, k - 1); }
  }

  lemma {:induction false} XorBound(a: nat, b: nat, k: nat)
    requires a < Pow2(k) && b < Pow2(k)
    ensures Xor(a, b) < Pow2(k)
    decreases k
  {
    if k > 0 && (a != 0 || b != 0) { XorBound(a / 2, b / 2, k - 1); }
  }

  lemma {:induction false} OrBound(a: nat, b: nat, k: nat)
    requires a < Pow2(k) && b < Pow2(k)
    ensures Or(a, b) < Pow2(k)
    decreases k
  {
    if k > 0 && (a != 0 || b != 0) { OrBound(a / 2, b / 2, k - 1); }
  }

  lemma XorOfZeros()
    ensures Xor(0, 0) == 0
  {}

  lemma {:induction false} XorCancels(a: nat, b: nat)
    ensures Xor(Xor(a, b), b) == a
    decreases a + b
  {
    hide Xor;
    var x := Xor(a, b);
    XorStep(a, b);
    XorStep(x, b);
    if a == 0 && b == 0 { XorOfZeros(); } else { XorCancels(a / 2, b / 2); }
  }

  lemma {:induction false} XorIsZero(a: nat, b: nat)
    ensures Xor(a, b) == 0 <==> a == b
    decreases a + b
  {
    if a != 0 || b != 0 { XorIsZero(a / 2, b / 2); }
  }

  lemma {:induction false} OrIsZero(a: nat, b: nat)
    ensures Or(a, b) == 0 <==> a == 0 && b == 0
    decreases a + b
  {
    if a != 0 || b != 0 { OrIsZero(a / 2, b / 2); }
  }

  lemma Pow2Byte()
    ensures Pow2(8) == 256 && Pow2(7) == 128
  {
    assert Pow2(4) == 16;
  }

  function XorByte(a: byte, b: byte): byte {
    Pow2Byte();
    XorBound(a, b, 8);
    Xor(a, b)
  }

  function OrByte(a: byte, b: byte): byte {
    Pow2Byte();
    OrBound(a, b, 8);
    Or(a, b)
  }

  function Zeros(n: nat): (s: seq<byte>)
    ensures |s| == n && forall i :: 0 <= i < n ==> s[i] == 0
  {
    seq(n, _ => 0)
  }

  lemma SliceOfSlice(s: seq<byte>, a: nat, b: nat, c: nat, d: nat)
    requires a <= b <= |s| && c <= d <= b - a
    ensures s[a..b][c..d] == s[a + c..a + d]
  {
    var inner := s[a..b];
    assert forall i :: 0 <= i < d - c ==> inner[c..d][i] == inner[c + i] == s[a + c + i];
  }

  /** `s` with `src` written over it from offset `at`. */
  function Splice(s: seq<byte>, at: nat, src: seq<byte>): (r: seq<byte>)
    requires at + |src| <= |s|
    ensures |r| == |s|
  {
    s[..at] + src + s[at + |src|..]
  }

  lemma SpliceAdjacent(s: seq<byte>, at: nat, a: seq<byte>, b: seq<byte>)
    requires at + |a| + |b| <= |s|
    ensures Splice(Splice(s, at, a), at + |a|, b) == Splice(s, at, a + b)
  {}

  lemma SpliceNothing(s: seq<byte>, at: nat)
    requires at <= |s|
    ensures Splice(s, at, []) == s
  {}

  lemma SpliceAtStart(s: seq<byte>, src: seq<byte>)
    requires |src| <= |s|
    ensures Splice(s, 0, src)[..|src|] == src
  {}

  lemma SpliceIntoZeros(n: nat, src: seq<byte>, m: nat)
    requires |src| <= m <= n
    ensures Splice(Zeros(n), 0, src)[..m] == src + Zeros(m - |src|)
  {}

  lemma SpliceFromStart(s: seq<byte>, at: nat, src: seq<byte>)
    requires at + |src| <= |s|
    ensures Splice(s, at, src) == Splice(s, 0, s[..at] + src)
    ensures Splice(s, at, src)[..at + |src|] == s[..at] + src
  {}

  lemma SpliceOver(s: seq<byte>, at: nat, a: seq<byte>, b: seq<byte>)
    requires at + |a| <= |s| && |b| == |a|
    ensures Splice(Splice(s, at, a), at, b) == Splice(s, at, b)
  {}

  /** memcpy of a whole string to offset `at`. */
  method CopyTo(dst: array<byte>, at: nat, src: seq<byte>)
    requires at + |src| <= dst.Length
    modifies dst
    ensures dst[..] == Splice(old(dst[..]), at, src)
  {
    forall i | 0 <= i < |src| {
      dst[at + i] := src[i];
    }
  }

  // Big-endian fields, most significant byte first.

  function Be16(v: u16): (s: seq<byte>)
    ensures |s| == 2
  {
    [v / 0x100, v % 0x100]
  }

  function Be32(v: u32): (s: seq<byte>)
    ensures |s| == 4
  {
    Be16(v / TWO_16) + Be16(v % TWO_16)
  }

  function Be64(v: u64): (s: seq<byte>)
    ensures |s| == 8
  {
    Be32(v / TWO_32) + Be32(v % TWO_32)
  }

  function Rd16(s: seq<byte>, i: nat): u16
    requires i + 2 <= |s|
  {
    s[i] as int * 0x100 + s[i + 1] as int
  }

  function Rd32(s: seq<byte>, i: nat): u32
    requires i + 4 <= |s|
  {
    Rd16(s, i) * TWO_16 + Rd16(s, i + 2)
  }

  function Rd64(s: seq<byte>, i: nat): u64
    requires i + 8 <= |s|
  {
    Rd32(s, i) * TWO_32 + Rd32(s, i + 4)
  }

  /** The most significant byte goes first. */
  lemma MostSignificantFirst(v: u16)
    ensures Be16(v) == [v / 256, v % 256]
    ensures Be32(0x0102_0304) == [1, 2, 3, 4] && Be64(0x0102_0304_0506_0708) == [1, 2, 3, 4, 5, 6, 7, 8]
  {}

  lemma Rd16Be16(s: seq<byte>, i: nat, v: u16)
    requires i + 2 <= |s| && s[i..i + 2] == Be16(v)
    ensures Rd16(s, i) == v
  {
    assert s[i] == s[i..i + 2][0] && s[i + 1] == s[i..i + 2][1];
  }

  lemma Rd32Be32(s: seq<byte>, i: nat, v: u32)
    requires i + 4 <= |s| && s[i..i + 4] == Be32(v)
    ensures Rd32(s, i) == v
  {
    assert s[i..i + 2] == s[i..i + 4][..2] == Be16(v / TWO_16);
    assert s[i + 2..i + 4] == s[i..i + 4][2..] == Be16(v % TWO_16);
    Rd16Be16(s, i, v / TWO_16);
    Rd16Be16(s, i + 2, v % TWO_16);
  }

  lemma Rd64Be64(s: seq<byte>, i: nat, v: u64)
    requires i + 8 <= |s| && s[i..i + 8] == Be64(v)
    ensures Rd64(s, i) == v
  {
    assert s[i..i + 4] == s[i..i + 8][..4] == Be32(v / TWO_32);
    assert s[i + 4..i + 8] == s[i..i + 8][4..] == Be32(v % TWO_32);
    Rd32Be32(s, i, v / TWO_32);
    Rd32Be32(s, i + 4, v % TWO_32);
  }

  lemma Be16Rd16(s: seq<byte>, i: nat)
    requires i + 2 <= |s|
    ensures Be16(Rd16(s, i)) == s[i..i + 2]
  {}

  lemma Be32Rd32(s: seq<byte>, i: nat)
    requires i + 4 <= |s|
    ensures Be32(Rd32(s, i)) == s[i..i + 4]
  {
    hide Be16, Rd16;
    Be16Rd16(s, i);
    Be16Rd16(s, i + 2);
    assert Rd32(s, i) / TWO_16 == Rd16(s, i) && Rd32(s, i) % TWO_16 == Rd16(s, i + 2);
    assert s[i..i + 4] == s[i..i + 2] + s[i + 2..i + 4];
  }

  lemma Be64Rd64(s: seq<byte>, i: nat)
    requires i + 8 <= |s|
    ensures Be64(Rd64(s, i)) == s[i..i + 8]
  {
    hide Be32, Rd32;
    Be32Rd32(s, i);
    Be32Rd32(s, i + 4);
    assert Rd64(s, i) / TWO_32 == Rd32(s, i) && Rd64(s, i) % TWO_32 == Rd32(s, i + 4);
    assert s[i..i + 8] == s[i..i + 4] + s[i + 4..i + 8];
  }
}
