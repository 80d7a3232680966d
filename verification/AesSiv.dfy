/** AEAD_AES_SIV_CMAC_256 (main/nts_aes_siv.c) against RFC 5297 sections 2.3-2.7.
    AES-CMAC and the AES-CTR keystream are arbitrary functions. */
module AesSiv {
  import opened Bytes
  import opened Esp

  const KEY_LEN: nat := 32
  const TAG_LEN: nat := 16

  type Block = b: seq<byte> | |b| == 16 witness Zeros(16)
  type Key = k: seq<byte> | |k| == KEY_LEN witness Zeros(32)

  /** `cmac(k, m)` is AES-CMAC; `keystream(k, iv, i)` is byte `i` of the CTR keystream. */
  datatype Prims = Prims(cmac: (Block, seq<byte>) -> Block, keystream: (Block, Block, nat) -> byte)

  // ---------------------------------------------------------------- blocks

  function XorSeq(a: seq<byte>, b: seq<byte>): (r: seq<byte>)
    requires |a| == |b|
    ensures |r| == |a|
  {
    seq(|a|, i requires 0 <= i < |a| => XorByte(a[i], b[i]))
  }

  /** Bit by bit, the result is one where exactly one of the two is. */
  lemma XorSeqBits(a: seq<byte>, b: seq<byte>, i: nat, j: nat)
    requires i < |a| == |b|
    ensures Bit(XorSeq(a, b)[i], j) == (Bit(a[i], j) != Bit(b[i], j))
  {
    BitXor(a[i], b[i], j);
  }

  /** Bit shifted out of byte `i` of a block, 0 beyond its end. */
  function CarryInto(b: Block, i: nat): byte
    requires i < 16
  {
    if i == 15 then 0 else b[i + 1] / 128
  }

  /** Byte `i` of a block shifted left by one bit; the shift leaves bit 0 clear, so or-ing the carry
      in is addition. */
  function Shifted(b: Block, i: nat): byte
    requires i < 16
  {
    b[i] * 2 % 256 + CarryInto(b, i)
  }

  /** What the byte loop of `dbl_block` leaves in byte `i`. */
  function DblByte(b: Block, i: nat): byte
    requires i < 16
  {
    if i == 15 && b[0] >= 128 then XorByte(Shifted(b, i), 0x87) else Shifted(b, i)
  }

  function Dbl(b: Block): Block {
    seq(16, i requires 0 <= i < 16 => DblByte(b, i))
  }

  /** Coefficient of x^k when a block is read as a polynomial over GF(2), section 2.3 of RFC 5297. */
  predicate Coefficient(b: Block, k: nat)
    requires k < 128
  {
    Bit(b[15 - k / 8], k % 8)
  }

  lemma {:induction false} BitIgnoresHigher(x: nat, m: nat, w: nat, k: nat)
    requires k < w
    ensures Bit(x + m * Pow2(w), k) == Bit(x, k)
    decreases w
  {
    var n := m * Pow2(w - 1);
    assert m * Pow2(w) == 2 * n;
    assert (x + 2 * n) / 2 == x / 2 + n && (x + 2 * n) % 2 == x % 2;
    if k > 0 { BitIgnoresHigher(x / 2, m, w - 1, k - 1); }
  }

  lemma TopBit(x: byte)
    ensures Bit(x, 7) == (x >= 128)
  {
    var x1 := x / 2;
    var x2 := x1 / 2;
    var x3 := x2 / 2;
    var x4 := x3 / 2;
    var x5 := x4 / 2;
    var x6 := x5 / 2;
    assert Bit(x, 7) == Bit(x1, 6) == Bit(x2, 5) == Bit(x3, 4) == Bit(x4, 3) == Bit(x5, 2) == Bit(x6, 1);
    assert Bit(x6, 1) == Bit(x6 / 2, 0);
  }

  lemma ShiftedByteBits(x: byte, carry: byte, j: nat)
    requires carry <= 1 && j < 8
    ensures Bit(x * 2 % 256 + carry, j) == if j == 0 then carry == 1 else Bit(x, j - 1)
  {
    var y := x * 2 % 256 + carry;
    assert y / 2 == x % 128 && y % 2 == carry;
    if j > 0 {
      Pow2Byte();
      BitIgnoresHigher(x % 128, x / 128, 7, j - 1);
    }
  }

  lemma ReductionBits(j: nat)
    requires j < 8
    ensures Bit(0x87, j) == (j == 0 || j == 1 || j == 2 || j == 7)
  {
    assert Bit(0x87, 0) && Bit(0x87, 1) && Bit(0x87, 2);
    TopBit(0x87);
    assert !Bit(16, 0) && !Bit(16, 1) && !Bit(16, 2) && !Bit(16, 3);
    assert 0x87 / 2 / 2 / 2 == 16;
    if 3 <= j < 7 { assert Bit(0x87, j) == Bit(16, j - 3); }
  }

  /** The byte loop is multiplication by x in GF(2^128) with the reduction polynomial
      x^128 + x^7 + x^2 + x + 1. */
  lemma DblIsFieldDoubling(b: Block, k: nat)
    requires k < 128
    ensures Coefficient(Dbl(b), k)
         == ((k > 0 && Coefficient(b, k - 1))
             != (Coefficient(b, 127) && (k == 0 || k == 1 || k == 2 || k == 7)))
  {
    var i, j := 15 - k / 8, k % 8;
    var carry := CarryInto(b, i);
    ShiftedByteBits(b[i], carry, j);
    TopBit(b[0]);
    if i < 15 { TopBit(b[i + 1]); }
    if i == 15 {
      ReductionBits(j);
      BitXor(b[15] as int * 2 % 256 + carry as int, 0x87, j);
    }
  }

  // ---------------------------------------------------------------- S2V

  /** The string padded with one bit and zeros to a block. */
  function Pad(s: seq<byte>): Block
    requires |s| < 16
  {
    s + [0x80] + Zeros(15 - |s|)
  }

  /** Exclusive or of a block onto the last 16 bytes of a string. */
  function XorEnd(s: seq<byte>, d: Block): (r: seq<byte>)
    requires |s| >= 16
    ensures |r| == |s|
  {
    s[..|s| - 16] + XorSeq(s[|s| - 16..], d)
  }

  /** The chained value D after the vector components before the last, section 2.4 of RFC 5297. */
  function S2vChain(p: Prims, k: Block, strings: seq<seq<byte>>): Block {
    if strings == [] then p.cmac(k, Zeros(16))
    else XorSeq(Dbl(S2vChain(p, k, strings[..|strings| - 1])), p.cmac(k, strings[|strings| - 1]))
  }

  /** S2V over a vector of strings, section 2.4 of RFC 5297. */
  function S2v(p: Prims, k: Block, strings: seq<seq<byte>>): Block
    requires strings != []
  {
    var d := S2vChain(p, k, strings[..|strings| - 1]);
    var last := strings[|strings| - 1];
    p.cmac(k, if |last| >= 16 then XorEnd(last, d) else XorSeq(Pad(last), Dbl(d)))
  }

  /** The vector the code authenticates: an empty associated-data string is skipped, not hashed. */
  function Vector(ad: seq<byte>, nonce: Block, plaintext: seq<byte>): seq<seq<byte>> {
    (if ad == [] then [] else [ad]) + [nonce, plaintext]
  }

  function Tag(p: Prims, k: Key, ad: seq<byte>, nonce: Block, plaintext: seq<byte>): Block {
    S2v(p, k[..16], Vector(ad, nonce, plaintext))
  }

  lemma ChainExtends(p: Prims, k: Block, strings: seq<seq<byte>>, x: seq<byte>)
    ensures S2vChain(p, k, strings + [x]) == XorSeq(Dbl(S2vChain(p, k, strings)), p.cmac(k, x))
  {
    assert (strings + [x])[..|strings|] == strings;
  }

  lemma TagEndsChain(p: Prims, key: Key, ad: seq<byte>, nonce: Block, plaintext: seq<byte>)
    ensures var d := S2vChain(p, key[..16], (if ad == [] then [] else [ad]) + [nonce]);
      Tag(p, key, ad, nonce, plaintext)
        == p.cmac(key[..16], if |plaintext| >= 16 then XorEnd(plaintext, d) else XorSeq(Pad(plaintext), Dbl(d)))
  {
    var strings := (if ad == [] then [] else [ad]) + [nonce];
    var all := Vector(ad, nonce, plaintext);
    assert all[..|all| - 1] == strings && all[|all| - 1] == plaintext;
    hide S2vChain, XorEnd, XorSeq, Dbl, Pad;
  }

  // ---------------------------------------------------------------- CTR and AEAD

  /** The synthetic IV with bits 63 and 31 cleared, section 2.5 of RFC 5297. */
  function CtrIv(tag: Block): Block {
    tag[8 := tag[8] % 128][12 := tag[12] % 128]
  }

  /** Of the 128 bits exactly the two that section 2.5 of RFC 5297 names are cleared. */
  lemma CtrIvClearsTwoBits(tag: Block, k: nat)
    requires k < 128
    ensures Coefficient(CtrIv(tag), k) == (Coefficient(tag, k) && k != 63 && k != 31)
  {
    var i, j := 15 - k / 8, k % 8;
    if i == 8 || i == 12 {
      LowBits(tag[i], j);
    }
  }

  lemma LowBits(x: byte, j: nat)
    requires j < 8
    ensures Bit(x % 128, j) == (Bit(x, j) && j != 7)
  {
    var y: byte := if x >= 128 then x - 128 else x;
    assert x % 128 == y;
    TopBit(x);
    TopBit(y);
    Pow2Byte();
    hide Bit, Pow2;
    if x != y {
      assert y + 1 * Pow2(7) == x;
      if j < 7 { BitIgnoresHigher(y, 1, 7, j); }
    }
  }

  function Ctr(p: Prims, k: Block, tag: Block, input: seq<byte>): (r: seq<byte>)
    ensures |r| == |input|
  {
    seq<byte>(|input|, i requires 0 <= i < |input| => XorByte(input[i], p.keystream(k, CtrIv(tag), i)))
  }

  function Seal(p: Prims, k: Key, ad: seq<byte>, nonce: Block, plaintext: seq<byte>): (c: seq<byte>)
    ensures |c| == TAG_LEN + |plaintext|
  {
    var tag := Tag(p, k, ad, nonce, plaintext);
    tag + Ctr(p, k[16..], tag, plaintext)
  }

  function Open(p: Prims, k: Key, ad: seq<byte>, nonce: Block, input: seq<byte>): Result<seq<byte>> {
    if |input| < TAG_LEN then Err(INVALID_SIZE)
    else
      var plaintext := Ctr(p, k[16..], input[..16], input[16..]);
      if Tag(p, k, ad, nonce, plaintext) == input[..16] then Ok(plaintext) else Err(INVALID_CRC)
  }

  lemma CtrCancels(p: Prims, k: Block, tag: Block, s: seq<byte>)
    ensures Ctr(p, k, tag, Ctr(p, k, tag, s)) == s
  {
    var once := Ctr(p, k, tag, s);
    forall i | 0 <= i < |s| ensures Ctr(p, k, tag, once)[i] == s[i] {
      XorCancels(s[i], p.keystream(k, CtrIv(tag), i));
    }
  }

  /** Opening accepts exactly the sealings of what it returns. */
  lemma OpenIffSealed(p: Prims, k: Key, ad: seq<byte>, nonce: Block, input: seq<byte>, plaintext: seq<byte>)
    ensures Open(p, k, ad, nonce, input) == Ok(plaintext)
       <==> input == Seal(p, k, ad, nonce, plaintext)
  {
    if |input| >= TAG_LEN {
      assert input == input[..16] + input[16..];
      CtrCancels(p, k[16..], input[..16], input[16..]);
      CtrCancels(p, k[16..], input[..16], plaintext);
      var sealed := Seal(p, k, ad, nonce, plaintext);
      assert sealed[..16] == Tag(p, k, ad, nonce, plaintext);
      assert sealed[16..] == Ctr(p, k[16..], sealed[..16], plaintext);
    }
  }

  /** The tag is RFC 5297's S2V over (AD, nonce, plaintext) for nonempty associated data; for empty
      associated data the code omits that component, so it is S2V over (nonce, plaintext). */
  lemma TagIsS2v(p: Prims, k: Key, ad: seq<byte>, nonce: Block, plaintext: seq<byte>)
    ensures ad != [] ==> Tag(p, k, ad, nonce, plaintext) == S2v(p, k[..16], [ad, nonce, plaintext])
    ensures ad == [] ==> Tag(p, k, ad, nonce, plaintext) == S2v(p, k[..16], [nonce, plaintext])
  {
    assert [ad] + [nonce, plaintext] == [ad, nonce, plaintext];
    var none: seq<seq<byte>> := [];
    assert none + [nonce, plaintext] == [nonce, plaintext];
  }

  /** The tag written out: from the CMAC of the zero block, doubled and combined with the CMACs of associated
      data, if there are any, and nonce; then the plaintext with that on its last 16 bytes, or padded with a
      one bit and combined with its double. All CMACs are under the first half of the key. */
  lemma TagWrittenOut(p: Prims, key: Key, ad: seq<byte>, nonce: Block, plaintext: seq<byte>)
    ensures var k: Block, n := key[..16], |plaintext|;
      var zero := p.cmac(k, [0, 0, 0, 0, 0, 0, 0, 0, 0, 0, 0, 0, 0, 0, 0, 0]);
      var d := XorSeq(Dbl(if ad == [] then zero else XorSeq(Dbl(zero), p.cmac(k, ad))), p.cmac(k, nonce));
      Tag(p, key, ad, nonce, plaintext)
        == if n >= 16 then p.cmac(k, plaintext[..n - 16] + XorSeq(plaintext[n - 16..], d))
           else p.cmac(k, XorSeq(plaintext + [128] + seq(15 - n, _ => 0), Dbl(d)))
  {
    var k: Block := key[..16];
    hide Dbl, XorSeq, S2v;
    TagEndsChain(p, key, ad, nonce, plaintext);
    ChainExtends(p, k, if ad == [] then [] else [ad], nonce);
    ChainExtends(p, k, [], ad);
    assert [] + [ad] == [ad];
    assert Zeros(16) == [0, 0, 0, 0, 0, 0, 0, 0, 0, 0, 0, 0, 0, 0, 0, 0];
    if |plaintext| < 16 { assert Pad(plaintext) == plaintext + [128] + seq(15 - |plaintext|, _ => 0); }
  }

  /** A sealed text is its tag and then, bit by bit, the plaintext combined with the keystream that the second
      half of the key gives from the cleared tag on. */
  lemma CiphertextIsMasked(p: Prims, key: Key, ad: seq<byte>, nonce: Block, plaintext: seq<byte>, i: nat, j: nat)
    requires i < |plaintext| && j < 8
    ensures var sealed := Seal(p, key, ad, nonce, plaintext);
      var tag: Block := sealed[..16];
      && tag == Tag(p, key, ad, nonce, plaintext)
      && Bit(sealed[16 + i], j)
           == (Bit(plaintext[i], j)
               != Bit(p.keystream(key[16..], CtrIv(tag), i), j))
  {
    var sealed := Seal(p, key, ad, nonce, plaintext);
    var tag: Block := sealed[..16];
    hide Tag, CtrIv, Bit;
    BitXor(plaintext[i], p.keystream(key[16..], CtrIv(tag), i), j);
  }

  // ---------------------------------------------------------------- the C routines

  /** `output` may be `left` or `right`, as the padding branch of S2V uses it. */
  method XorBlock(output: array<byte>, left: array<byte>, right: array<byte>)
    requires output.Length == left.Length == right.Length == 16
    modifies output
    ensures output[..] == XorSeq(old(left[..]), old(right[..]))
  {
    for i := 0 to 16
      invariant forall k :: i <= k < 16 ==> left[k] == old(left[k]) && right[k] == old(right[k])
      invariant forall k :: 0 <= k < i ==> output[k] == XorByte(old(left[k]), old(right[k]))
    {
      output[i] := XorByte(left[i], right[i]);
    }
  }

  method DblBlock(output: array<byte>, input: array<byte>)
    requires output.Length == input.Length == 16
    modifies output
    ensures output[..] == Dbl(old(input[..]))
  {
    hide XorByte;
    ghost var b: Block := input[..];
    var carry: byte := 0;
    for i := 16 downto 0
      invariant carry == if i == 16 then 0 else b[i] / 128
      invariant input[..i] == b[..i]
      invariant forall k :: i <= k < 16 ==> output[k] == Shifted(b, k)
    {
      assert input[i] == input[..i + 1][i] == b[i];
      var nextCarry: byte := input[i] / 128;
      output[i] := input[i] * 2 % 256 + carry;
      carry := nextCarry;
    }
    if carry != 0 {
      output[15] := XorByte(output[15], 0x87);
    }
    assert forall k :: 0 <= k < 16 ==> output[k] == DblByte(b, k);
  }

  method ConstantTimeEqual(left: seq<byte>, right: seq<byte>, length: nat) returns (equal: bool)
    requires length <= |left| && length <= |right|
    ensures equal <==> left[..length] == right[..length]
  {
    var difference: byte := 0;
    for i := 0 to length
      invariant difference == 0 <==> left[..i] == right[..i]
    {
      var d := XorByte(left[i], right[i]);
      XorIsZero(left[i], right[i]);
      OrIsZero(difference, d);
      assert left[..i + 1] == left[..i] + [left[i]] && right[..i + 1] == right[..i] + [right[i]];
      difference := OrByte(difference, d);
    }
    equal := difference == 0;
  }

  /** One step `D = dbl(D) xor CMAC(component)`. */
  method Absorb(p: Prims, k: Block, d: array<byte>, tmp: array<byte>, cmacValue: array<byte>, component: seq<byte>)
    requires d.Length == tmp.Length == cmacValue.Length == 16
    requires d != tmp && d != cmacValue && tmp != cmacValue
    modifies d, tmp, cmacValue
    ensures d[..] == XorSeq(Dbl(old(d[..])), p.cmac(k, component))
  {
    CopyTo(cmacValue, 0, p.cmac(k, component));
    assert cmacValue[..] == p.cmac(k, component);
    DblBlock(tmp, d);
    XorBlock(d, tmp, cmacValue);
  }

  /** The last component: exclusive or onto its end, or pad a short one. */
  method FinishTag(p: Prims, k: Block, d: array<byte>, plaintext: seq<byte>) returns (tag: Block)
    requires d.Length == 16
    ensures tag == p.cmac(k, if |plaintext| >= 16 then XorEnd(plaintext, d[..]) else XorSeq(Pad(plaintext), Dbl(d[..])))
  {
    hide XorByte, Dbl;
    var n := |plaintext|;
    if n >= 16 {
      var buffer := new byte[n](i requires 0 <= i < n => plaintext[i]);
      for i := 0 to 16
        invariant d[..] == old(d[..])
        invariant forall j :: 0 <= j < n ==>
          buffer[j] == if n - 16 <= j < n - 16 + i then XorByte(plaintext[j], d[j - (n - 16)]) else plaintext[j]
      {
        buffer[n - 16 + i] := XorByte(buffer[n - 16 + i], d[i]);
      }
      assert buffer[..] == XorEnd(plaintext, d[..]);
      tag := p.cmac(k, buffer[..]);
    } else {
      var padded, tmp := new byte[16](_ => 0), new byte[16](_ => 0);
      CopyTo(padded, 0, plaintext);
      padded[n] := 0x80;
      assert padded[..] == Pad(plaintext);
      DblBlock(tmp, d);
      XorBlock(padded, padded, tmp);
      tag := p.cmac(k, padded[..]);
    }
  }

  method ComputeTag(p: Prims, key: Key, ad: seq<byte>, nonce: Block, plaintext: seq<byte>) returns (tag: Block)
    ensures tag == Tag(p, key, ad, nonce, plaintext)
  {
    var k: Block := key[..16];
    var d, tmp, cmacValue := new byte[16](_ => 0), new byte[16](_ => 0), new byte[16](_ => 0);
    CopyTo(d, 0, p.cmac(k, Zeros(16)));
    assert d[..] == S2vChain(p, k, []);
    hide S2vChain, Tag, XorSeq, Dbl, XorEnd, Pad, Splice;
    TagEndsChain(p, key, ad, nonce, plaintext);
    ghost var before := if ad == [] then [] else [ad];
    if |ad| > 0 {
      Absorb(p, k, d, tmp, cmacValue, ad);
      ChainExtends(p, k, [], ad);
      assert [] + [ad] == [ad];
    }
    Absorb(p, k, d, tmp, cmacValue, nonce);
    ChainExtends(p, k, before, nonce);
    tag := FinishTag(p, k, d, plaintext);
  }

  /** `nts_aes_siv_encrypt` into `output[at..at + capacity]`. */
  method Encrypt(p: Prims, key: Key, ad: seq<byte>, nonce: Block, plaintext: seq<byte>,
                 output: array<byte>, at: nat, capacity: nat)
    returns (err: EspErr, outputLen: nat)
    requires at + capacity <= output.Length
    modifies output
    ensures outputLen == TAG_LEN + |plaintext|
    ensures err == if capacity < outputLen then INVALID_SIZE else OK
    ensures err != OK ==> output[..] == old(output[..])
    ensures err == OK ==> output[..] == Splice(old(output[..]), at, Seal(p, key, ad, nonce, plaintext))
  {
    outputLen := TAG_LEN + |plaintext|;
    if capacity < outputLen {
      return INVALID_SIZE, outputLen;
    }
    var tag := ComputeTag(p, key, ad, nonce, plaintext);
    CopyTo(output, at, tag);
    var body := Ctr(p, key[16..], tag, plaintext);
    CopyTo(output, at + TAG_LEN, body);
    SpliceAdjacent(old(output[..]), at, tag, body);
    err := OK;
  }

  /** `nts_aes_siv_decrypt` into `plaintext[..capacity]`; a rejected plaintext is wiped. */
  method Decrypt(p: Prims, key: Key, ad: seq<byte>, nonce: Block, input: seq<byte>,
                 plaintext: array<byte>, capacity: nat)
    returns (err: EspErr, plaintextLen: nat)
    requires capacity <= plaintext.Length
    modifies plaintext
    ensures |input| < TAG_LEN ==> err == INVALID_SIZE && plaintextLen == capacity
    ensures |input| >= TAG_LEN ==> 
      plaintextLen == if capacity < |input| - TAG_LEN || err == OK then |input| - TAG_LEN else capacity
    ensures |input| >= TAG_LEN && capacity < |input| - TAG_LEN ==> err == INVALID_SIZE
    ensures err == INVALID_SIZE ==> plaintext[..] == old(plaintext[..])
    ensures TAG_LEN <= |input| <= TAG_LEN + capacity ==>
      match Open(p, key, ad, nonce, input)
      case Ok(text) => err == OK && |text| == plaintextLen && plaintext[..] == Splice(old(plaintext[..]), 0, text)
      case Err(e) => err == e && plaintext[..] == Splice(old(plaintext[..]), 0, Zeros(|input| - TAG_LEN))
  {
    plaintextLen := capacity;
    if |input| < TAG_LEN {
      return INVALID_SIZE, plaintextLen;
    }
    var ciphertextLen := |input| - TAG_LEN;
    if capacity < ciphertextLen {
      return INVALID_SIZE, ciphertextLen;
    }
    var text := Ctr(p, key[16..], input[..16], input[16..]);
    CopyTo(plaintext, 0, text);
    var expected := ComputeTag(p, key, ad, nonce, text);
    var received := input[..16];
    var valid := ConstantTimeEqual(received, expected, 16);
    assert received[..16] == received && expected[..16] == expected;
    if !valid {
      CopyTo(plaintext, 0, Zeros(ciphertextLen));
      SpliceOver(old(plaintext[..]), 0, text, Zeros(ciphertextLen));
      return INVALID_CRC, plaintextLen;
    }
    return OK, ciphertextLen;
  }
}
