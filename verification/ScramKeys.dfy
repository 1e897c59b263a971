/** HMAC (RFC 2104 section 2) and the Hi function (RFC 5802 section 2.2), over an unspecified hash. */
module ScramKeys {
  import opened Base64
  import opened Bits

  /** What is known of SHA-1: twenty bytes for every text. */
  ghost predicate TwentyBytes(h: string -> string) {
    forall s :: |h(s)| == 20 && Bytes(h(s))
  }

  type Sha1 = h: string -> string | TwentyBytes(h)
    witness (s: string) => seq(20, i => 'a')

  /** The low byte of an exclusive or. */
  function XorChar(a: char, b: nat): (c: char)
    ensures c as int < 256
  {
    LowBound(Xor(a as nat, b), 8);
    Byte();
    Low(Xor(a as nat, b), 8) as char
  }

  lemma XorCharValue(a: char, b: nat)
    ensures XorChar(a, b) as nat == Low(Xor(a as nat, b), 8)
  {
    LowBound(Xor(a as nat, b), 8);
    Byte();
  }

  function XorBytes(a: string, b: string): (r: string)
    requires |a| == |b|
    ensures |r| == |a| && Bytes(r)
  {
    seq(|a|, i requires 0 <= i < |a| => XorChar(a[i], b[i] as nat))
  }

  lemma XorCharTwice(a: char, b: char)
    requires a as int < 256 && b as int < 256
    ensures XorChar(XorChar(a, b as nat), b as nat) == a
  {
    hide Xor, Low, Pow2;
    Byte();
    LowBound(a as nat, 8);
    LowBound(b as nat, 8);
    XorLow(a as nat, b as nat, 8);
    XorCharValue(a, b as nat);
    XorTwice(a as nat, b as nat);
  }

  lemma XorBytesTwice(a: string, b: string)
    requires |a| == |b| && Bytes(a) && Bytes(b)
    ensures XorBytes(XorBytes(a, b), b) == a
  {
    forall i | 0 <= i < |a|
      ensures XorBytes(XorBytes(a, b), b)[i] == a[i]
    {
      XorCharTwice(a[i], b[i]);
    }
  }

  // HMAC

  /** The key, hashed if it is longer than a block, and filled up with null bytes. */
  function BlockKey(sha: Sha1, key: string): (k: string)
    ensures |k| == 64
  {
    var short := if |key| > 64 then sha(key) else key;
    short + seq(64 - |short|, i => '\0')
  }

  function XorPad(block: string, pad: nat): (r: string)
    ensures |r| == |block|
  {
    seq(|block|, i requires 0 <= i < |block| => XorChar(block[i], pad))
  }

  /** H( (K ^ opad) + H( (K ^ ipad) + text ) ). */
  function Hmac(sha: Sha1, key: string, text: string): (r: string)
    ensures |r| == 20 && Bytes(r)
  {
    var k := BlockKey(sha, key);
    var inner := sha(XorPad(k, 0x36) + text);
    TwentyBytesOf(sha, XorPad(k, 0x5c) + inner);
    sha(XorPad(k, 0x5c) + inner)
  }

  lemma TwentyBytesOf(sha: Sha1, s: string)
    ensures |sha(s)| == 20 && Bytes(sha(s))
  {
  }

  /** The block is the key, filled up with null bytes, but for the bits of these numbers, which are turned round. */
  predicate Turned(block: string, key: string, bits: set<nat>) {
    |block| == 64 && |key| <= 64 &&
    forall k, j: nat | 0 <= k < 64 && j < 8 ::
      (Bit(block[k] as nat, j) != Bit(if k < |key| then key[k] as nat else 0, j)) <==> j in bits
  }

  /**
   * Two hashes, the inner one of the text behind a block in which bits 1, 2, 4 and 5 of the key are turned round, the
   * outer one of the inner one behind a block in which bits 2, 3, 4 and 6 are; a long key is hashed before.
   */
  lemma HmacBlocks(sha: Sha1, key: string, text: string)
    ensures
      var k := if |key| > 64 then sha(key) else key;
      exists inner, outer | Turned(inner, k, {1, 2, 4, 5}) && Turned(outer, k, {2, 3, 4, 6}) ::
        Hmac(sha, key, text) == sha(outer + sha(inner + text))
  {
    hide Turned;
    TwentyBytesOf(sha, key);
    var k := if |key| > 64 then sha(key) else key;
    var b := BlockKey(sha, key);
    Padded(k, b, 0x36, {1, 2, 4, 5});
    Padded(k, b, 0x5c, {2, 3, 4, 6});
    PadBits();
    assert Hmac(sha, key, text) == sha(XorPad(b, 0x5c) + sha(XorPad(b, 0x36) + text));
  }

  lemma PadBits()
    ensures forall j: nat | j < 8 :: Bit(0x36, j) <==> j in {1, 2, 4, 5}
    ensures forall j: nat | j < 8 :: Bit(0x5c, j) <==> j in {2, 3, 4, 6}
  {
    hide Bit;
    FourBits(0x36);
    FourBits(0x3);
    FourBits(0x5c);
    FourBits(0x5);
    forall j: nat | j < 8
      ensures Bit(0x36, j) <==> j in {1, 2, 4, 5}
      ensures Bit(0x5c, j) <==> j in {2, 3, 4, 6}
    {
      if j >= 4 {
        UpperBits(0x36, j);
        UpperBits(0x5c, j);
      }
    }
  }

  lemma Padded(key: string, block: string, pad: nat, bits: set<nat>)
    requires |key| <= 64 && block == key + seq(64 - |key|, i => '\0')
    ensures (forall j: nat | j < 8 :: Bit(pad, j) <==> j in bits) ==> Turned(XorPad(block, pad), key, bits)
  {
    hide Bit, XorChar;
    if forall j: nat | j < 8 :: Bit(pad, j) <==> j in bits {
      forall k, j: nat | 0 <= k < 64 && j < 8
        ensures (Bit(XorPad(block, pad)[k] as nat, j) != Bit(if k < |key| then key[k] as nat else 0, j)) <==> j in bits
      {
        BitOfChar(block[k], pad, j);
      }
    }
  }

  lemma BitOfChar(a: char, b: nat, j: nat)
    ensures j < 8 ==> (Bit(XorChar(a, b) as nat, j) <==> Bit(a as nat, j) != Bit(b, j))
  {
    hide Bit, Xor, Low;
    XorCharValue(a, b);
    BitOfLow(Xor(a as nat, b), 8, j);
    BitOfXor(a as nat, b, j);
  }

  /** ClientBase::hmac. */
  method ComputeHmac(sha: Sha1, key: string, text: string) returns (r: string)
    ensures r == Hmac(sha, key, text)
  {
    var key_ := key;
    if |key_| > 64 {
      key_ := sha(key_);
    }
    TwentyBytesOf(sha, key);
    var ipad := new char[65](i => if 0 <= i < |key_| then key_[i] else '\0');
    var opad := new char[65](i => if 0 <= i < |key_| then key_[i] else '\0');
    ghost var k := BlockKey(sha, key);
    assert forall i | 0 <= i < 64 :: ipad[i] == k[i] && opad[i] == k[i];
    for i := 0 to 64
      invariant forall j | 0 <= j < i :: ipad[j] == XorChar(k[j], 0x36) && opad[j] == XorChar(k[j], 0x5c)
      invariant forall j | i <= j < 64 :: ipad[j] == k[j] && opad[j] == k[j]
    {
      ipad[i] := XorChar(ipad[i], 0x36);
      opad[i] := XorChar(opad[i], 0x5c);
    }
    assert ipad[..64] == XorPad(k, 0x36) && opad[..64] == XorPad(k, 0x5c);
    key_ := sha(ipad[..64] + text);
    r := sha(opad[..64] + key_);
  }

  // Hi

  const FIRST_BLOCK := "\0\0\0\U{0001}"

  /** INT(1) of RFC 5802: the number one in four bytes, the highest first. */
  lemma FirstBlockIsOne()
    ensures |FIRST_BLOCK| == 4
    ensures ((FIRST_BLOCK[0] as int * 256 + FIRST_BLOCK[1] as int) * 256 + FIRST_BLOCK[2] as int) * 256
            + FIRST_BLOCK[3] as int == 1
  {
  }

  /** Ui of RFC 5802. */
  function U(sha: Sha1, str: string, salt: string, i: nat): (r: string)
    requires i > 0
    ensures |r| == 20 && Bytes(r)
  {
    Hmac(sha, str, if i == 1 then salt + FIRST_BLOCK else U(sha, str, salt, i - 1))
  }

  function Zeros(): string {
    seq(20, i => '\0')
  }

  /** U1 XOR ... XOR Ui, byte by byte; no count at all leaves null bytes. */
  function Hi(sha: Sha1, str: string, salt: string, i: int): (r: string)
    ensures |r| == 20 && Bytes(r)
  {
    if i <= 0 then Zeros() else XorBytes(Hi(sha, str, salt, i - 1), U(sha, str, salt, i))
  }

  /** A char promoted to a 32-bit int: the upper bytes repeat the sign bit. */
  function Promoted(c: char): nat
    requires c as int < 256
  {
    if c as int < 128 then c as nat else c as nat + 0xFFFF_FF00
  }

  /** The sign extension does not reach the low byte. */
  lemma PromotedXor(x: nat, c: char)
    requires c as int < 256
    ensures Low(Xor(x, Promoted(c)), 8) == Low(Xor(Low(x, 8), c as nat), 8)
  {
    hide Xor, Low, Pow2;
    Byte();
    XorLow(x, Promoted(c), 8);
    XorLow(Low(x, 8), c as nat, 8);
    LowBound(x, 8);
    LowBound(Low(x, 8), 8);
    LowOfSum(c as nat, 0xFF_FFFF, 8);
    assert Low(Promoted(c), 8) == Low(c as nat, 8);
  }

  lemma UStep(sha: Sha1, str: string, salt: string, i: nat)
    requires i > 0
    ensures U(sha, str, salt, i) == Hmac(sha, str, if i == 1 then salt + FIRST_BLOCK else U(sha, str, salt, i - 1))
  {
  }

  /** One byte of one round. */
  lemma HiStep(sha: Sha1, str: string, salt: string, i: nat, j: nat, x: nat)
    requires j < 20 && Low(x, 8) == Hi(sha, str, salt, i)[j] as nat
    ensures Low(Xor(x, Promoted(U(sha, str, salt, i + 1)[j])), 8) == Hi(sha, str, salt, i + 1)[j] as nat
  {
    hide Xor, Low, Pow2, U, Promoted;
    var c := U(sha, str, salt, i + 1)[j];
    PromotedXor(x, c);
    XorCharValue(Hi(sha, str, salt, i)[j], c as nat);
    assert Hi(sha, str, salt, i + 1)[j] == XorChar(Hi(sha, str, salt, i)[j], c as nat);
  }

  lemma CharOf(x: nat, c: char)
    requires x < 256 && x == c as nat
    ensures x as char == c
  {
    assert c == c as nat as char;
  }

  lemma HiStart(sha: Sha1, str: string, salt: string, iter: int)
    ensures Low(0, 8) == 0 && forall j | 0 <= j < 20 :: Hi(sha, str, salt, 0)[j] == '\0'
    ensures iter < 0 ==> Hi(sha, str, salt, iter) == Hi(sha, str, salt, 0)
  {
    Byte();
    LowBound(0, 8);
  }

  /** ClientBase::hi, which collects sign-extended characters in an array of ints. */
  method ComputeHi(sha: Sha1, str: string, salt: string, iter: int) returns (n: string)
    ensures n == Hi(sha, str, salt, iter)
  {
    hide Xor, Low, U, Hi, Promoted, Hmac;
    HiStart(sha, str, salt, iter);
    var xored := new nat[20](i => 0);
    var tmp := salt + FIRST_BLOCK;
    var i := 0;
    while i < iter
      invariant 0 <= i && (i <= iter || i == 0)
      invariant tmp == if i == 0 then salt + FIRST_BLOCK else U(sha, str, salt, i)
      invariant forall j | 0 <= j < 20 :: Low(xored[j], 8) == Hi(sha, str, salt, i)[j] as nat
    {
      tmp := ComputeHmac(sha, str, tmp);
      UStep(sha, str, salt, i + 1);
      for j := 0 to 20
        invariant forall k | 0 <= k < j :: Low(xored[k], 8) == Hi(sha, str, salt, i + 1)[k] as nat
        invariant forall k | j <= k < 20 :: Low(xored[k], 8) == Hi(sha, str, salt, i)[k] as nat
      {
        HiStep(sha, str, salt, i, j, xored[j]);
        xored[j] := Xor(xored[j], Promoted(tmp[j]));
      }
      i := i + 1;
    }
    assert Hi(sha, str, salt, i) == Hi(sha, str, salt, iter);
    n := "";
    for k := 0 to 20
      invariant n == Hi(sha, str, salt, iter)[..k]
      invariant forall j | 0 <= j < 20 :: Low(xored[j], 8) == Hi(sha, str, salt, iter)[j] as nat
    {
      LowBound(xored[k], 8);
      Byte();
      CharOf(Low(xored[k], 8), Hi(sha, str, salt, iter)[k]);
      n := n + [Low(xored[k], 8) as char];
    }
  }
}
