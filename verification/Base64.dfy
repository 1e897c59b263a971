/** Base64 (RFC 3548 section 3): both loops, and the grouping into 24 bits that they amount to. */
module Base64 {

  /** A std::string seen as bytes: no character is beyond 255. */
  predicate Bytes(s: string) {
    forall i | 0 <= i < |s| :: s[i] as int < 256
  }

  const PAD := '='

  /** The value of a character outside the alphabet: npos cut to one byte. */
  const NP: nat := 255

  /** The alphabet: A to Z, a to z, 0 to 9, plus and slash. */
  function Alphabet64(v: nat): char
    requires v < 64
  {
    if v < 26 then 'A' + v as char
    else if v < 52 then 'a' + (v - 26) as char
    else if v < 62 then '0' + (v - 52) as char
    else if v == 62 then '+' else '/'
  }

  function Table64(c: char): (v: nat)
    ensures v < 64 || v == NP
  {
    if 'A' <= c <= 'Z' then (c - 'A') as nat
    else if 'a' <= c <= 'z' then 26 + (c - 'a') as nat
    else if '0' <= c <= '9' then 52 + (c - '0') as nat
    else if c == '+' then 62 else if c == '/' then 63 else NP
  }

  lemma TableOfAlphabet(v: nat)
    requires v < 64
    ensures Table64(Alphabet64(v)) == v
    ensures Alphabet64(v) != PAD
  {
  }
  lemma AlphabetOfTable(c: char)
    requires Table64(c) != NP
    ensures Table64(c) < 64 && Alphabet64(Table64(c)) == c
  {
  }

  /** Table 1 of RFC 3548. */
  const TABLE_1 := "ABCDEFGHIJKLM" + "NOPQRSTUVWXYZ" + "abcdefghijklm" + "nopqrstuvwxyz" + "0123456789+/"

  lemma AlphabetIsTable1(v: nat)
    requires v < 64
    ensures |TABLE_1| == 64 && Alphabet64(v) == TABLE_1[v]
  {
    if v < 13 {
      assert TABLE_1[v] == "ABCDEFGHIJKLM"[v];
    } else if v < 26 {
      assert TABLE_1[v] == "NOPQRSTUVWXYZ"[v - 13];
    } else if v < 39 {
      assert TABLE_1[v] == "abcdefghijklm"[v - 26];
    } else if v < 52 {
      assert TABLE_1[v] == "nopqrstuvwxyz"[v - 39];
    } else {
      assert TABLE_1[v] == "0123456789+/"[v - 52];
    }
  }

  // Encoding

  /** Three bytes side by side. */
  function Group(b0: nat, b1: nat, b2: nat): (g: nat)
    requires b0 < 256 && b1 < 256 && b2 < 256
    ensures g < 0x100_0000
  {
    b0 * 0x1_0000 + b1 * 0x100 + b2
  }

  /** The four six-bit digits of a group, highest first. */
  function Digits(g: nat): (s: string)
    requires g < 0x100_0000
    ensures |s| == 4
  {
    [Alphabet64(g / 64 / 64 / 64), Alphabet64(g / 64 / 64 % 64), Alphabet64(g / 64 % 64), Alphabet64(g % 64)]
  }

  /** RFC 3548: each three bytes become four digits; a last group of one or two bytes is padded. */
  function Encoded(b: string): (s: string)
    requires Bytes(b)
  {
    if |b| == 0 then ""
    else if |b| == 1 then Digits(Group(b[0] as nat, 0, 0))[..2] + "=="
    else if |b| == 2 then Digits(Group(b[0] as nat, b[1] as nat, 0))[..3] + "="
    else Digits(Group(b[0] as nat, b[1] as nat, b[2] as nat)) + Encoded(b[3..])
  }

  lemma DigitsOfGroup(b0: nat, b1: nat, b2: nat)
    requires b0 < 256 && b1 < 256 && b2 < 256
    ensures
      var g := Group(b0, b1, b2);
      && g / 64 / 64 / 64 == b0 / 4
      && g / 64 / 64 % 64 == b0 % 4 * 16 + b1 / 16
      && g / 64 % 64 == b1 % 16 * 4 + b2 / 64
      && g % 64 == b2 % 64
  {
    Div64(Group(b0, b1, b2), b0 * 1024 + b1 * 4 + b2 / 64, b2 % 64);
    Div64(b0 * 1024 + b1 * 4 + b2 / 64, b0 * 16 + b1 / 16, b1 % 16 * 4 + b2 / 64);
    Div64(b0 * 16 + b1 / 16, b0 / 4, b0 % 4 * 16 + b1 / 16);
  }

  lemma Div64(x: nat, q: nat, r: nat)
    requires x == 64 * q + r && r < 64
    ensures x / 64 == q && x % 64 == r
  {
  }

  /** The same four digits, as the shifts and masks of encode64 give them. */
  function Shifted(b0: nat, b1: nat, b2: nat): string
    requires b0 < 256 && b1 < 256 && b2 < 256
  {
    [Alphabet64(b0 / 4), Alphabet64(b0 % 4 * 16 + b1 / 16), Alphabet64(b1 % 16 * 4 + b2 / 64), Alphabet64(b2 % 64)]
  }

  lemma ShiftedDigits(b0: nat, b1: nat, b2: nat)
    requires b0 < 256 && b1 < 256 && b2 < 256
    ensures Digits(Group(b0, b1, b2)) == Shifted(b0, b1, b2)
  {
    hide Alphabet64;
    DigitsOfGroup(b0, b1, b2);
  }

  lemma EncodedShifted(b: string)
    requires Bytes(b)
    ensures |b| == 0 ==> Encoded(b) == ""
    ensures |b| == 1 ==> Encoded(b) == Shifted(b[0] as nat, 0, 0)[..2] + "=="
    ensures |b| == 2 ==> Encoded(b) == Shifted(b[0] as nat, b[1] as nat, 0)[..3] + "="
    ensures |b| > 2 ==> Encoded(b) == Shifted(b[0] as nat, b[1] as nat, b[2] as nat) + Encoded(b[3..])
  {
    hide Digits, Group, Shifted;
    if |b| == 1 {
      ShiftedDigits(b[0] as nat, 0, 0);
    } else if |b| == 2 {
      ShiftedDigits(b[0] as nat, b[1] as nat, 0);
    } else if |b| > 2 {
      ShiftedDigits(b[0] as nat, b[1] as nat, b[2] as nat);
    }
  }

  /** Base64::encode64. The index moves on inside the loop body too; shifts and masks are arithmetic. */
  method Encode64(input: string) returns (encoded: string)
    requires Bytes(input)
    ensures encoded == Encoded(input)
  {
    hide Encoded, Alphabet64;
    encoded := "";
    EncodedShifted("");
    var length := |input|;
    var i := 0;
    while i < length
      invariant i <= length ==> encoded + Encoded(input[i..]) == Encoded(input)
      invariant i > length ==> encoded == Encoded(input)
      decreases length - i
    {
      ghost var rest := input[i..];
      EncodedShifted(rest);
      var c := input[i] as nat / 4;
      encoded := encoded + [Alphabet64(c)];

      c := input[i] as nat % 4 * 16;
      i := i + 1;
      if i < length {
        c := c + input[i] as nat / 16;
      }
      encoded := encoded + [Alphabet64(c)];

      if i < length {
        c := input[i] as nat % 16 * 4;
        i := i + 1;
        if i < length {
          c := c + input[i] as nat / 64;
        }
        encoded := encoded + [Alphabet64(c)];
      } else {
        i := i + 1;
        encoded := encoded + [PAD];
      }

      if i < length {
        c := input[i] as nat % 64;
        encoded := encoded + [Alphabet64(c)];
        assert rest[3..] == input[i + 1..];
      } else {
        encoded := encoded + [PAD];
      }
      i := i + 1;
    }
  }

  // Decoding

  /** (c << 2) | ((d >> 4) & 0x3) */
  function Byte0(c: nat, d: nat): (b: char)
    ensures b as int < 256
  {
    (c * 4 % 256 + d / 16 % 4) as char
  }

  /** ((d << 4) & 0xf0) | ((c >> 2) & 0xf) */
  function Byte1(d: nat, c: nat): (b: char)
    ensures b as int < 256
  {
    (d % 16 * 16 + c / 4 % 16) as char
  }

  /** ((c << 6) & 0xc0) | d, where d is a digit or has all bits set */
  function Byte2(c: nat, d: nat): (b: char)
    requires d < 64 || d == NP
    ensures b as int < 256
  {
    if d == NP then NP as char else (c % 4 * 64 + d) as char
  }

  /**
   * What four digits at a time decode to, on every string: characters outside the alphabet count as
   * npos, the end of the string reads as a null character, and a padding character ends the text.
   */
  function Decoded(s: string): (b: string)
  {
    if s == "" then ""
    else
      var c, d := Table64(s[0]), if |s| > 1 then Table64(s[1]) else NP;
      if |s| <= 2 || s[2] == PAD then [Byte0(c, d)]
      else if |s| == 3 || s[3] == PAD then [Byte0(c, d), Byte1(d, Table64(s[2]))]
      else [Byte0(c, d), Byte1(d, Table64(s[2])), Byte2(Table64(s[2]), Table64(s[3]))] + Decoded(s[4..])
  }

  /** The characters of the constant string, which ends in a null character. */
  function CharAt(s: string, i: nat): char
    requires i <= |s|
  {
    if i < |s| then s[i] else '\0'
  }

  lemma DecodedGroup(s: string)
    requires s != ""
    ensures
      var c, d := Table64(s[0]), Table64(CharAt(s, 1));
      if |s| <= 2 || s[2] == PAD then Decoded(s) == [Byte0(c, d)]
      else if |s| == 3 || s[3] == PAD then Decoded(s) == [Byte0(c, d), Byte1(d, Table64(s[2]))]
      else Decoded(s) == [Byte0(c, d), Byte1(d, Table64(s[2])), Byte2(Table64(s[2]), Table64(s[3]))] + Decoded(s[4..])
  {
    assert Table64('\0') == NP;
    hide Byte0, Byte1, Byte2, Table64;
  }

  lemma OneByOne(before: string, b0: char, b1: char, b2: char, rest: string)
    ensures before + [b0] + [b1] + [b2] + rest == before + ([b0, b1, b2] + rest)
  {
    assert before + [b0] + [b1] + [b2] == before + [b0, b1, b2];
    assert before + [b0, b1, b2] + rest == before + ([b0, b1, b2] + rest);
  }

  /** Base64::decode64. */
  method Decode64(input: string) returns (decoded: string)
    ensures decoded == Decoded(input)
  {
    assert Decoded("") == "";
    hide Decoded, Byte0, Byte1, Byte2, Table64;
    decoded := "";
    var length := |input|;
    var i := 0;
    while i < length
      invariant i <= length ==> decoded + Decoded(input[i..]) == Decoded(input)
      invariant i > length ==> decoded == Decoded(input)
      decreases length - i
    {
      ghost var before := decoded;
      DecodedGroup(input[i..]);
      assert i + 4 <= length ==> input[i..][4..] == input[i + 4..];
      var c := Table64(CharAt(input, i));
      i := i + 1;
      var d := Table64(CharAt(input, i));
      decoded := decoded + [Byte0(c, d)];
      i := i + 1;
      if i < length {
        if input[i] == PAD {
          break;
        }
        c := Table64(input[i]);
        decoded := decoded + [Byte1(d, c)];
      }
      i := i + 1;
      if i < length {
        if input[i] == PAD {
          break;
        }
        ghost var d0 := d;
        d := Table64(input[i]);
        decoded := decoded + [Byte2(c, d)];
        OneByOne(before, Byte0(Table64(input[i - 3]), d0), Byte1(d0, c), Byte2(c, d), Decoded(input[i + 1..]));
      }
      i := i + 1;
    }
  }

  lemma {:induction false} DecodedBytes(s: string)
    ensures Bytes(Decoded(s))
  {
    if |s| <= 3 {
    } else {
      DecodedBytes(s[4..]);
    }
  }

  // What the two are for

  lemma {:induction false} DecodeEncode(b: string)
    requires Bytes(b)
    ensures Decoded(Encoded(b)) == b
  {
    hide Digits, Group, Byte0, Byte1, Byte2, Alphabet64;
    if b == "" {
    } else {
      var b0, b1, b2 := b[0] as nat, if |b| > 1 then b[1] as nat else 0, if |b| > 2 then b[2] as nat else 0;
      GroupDecodes(b0, b1, b2);
      if |b| >= 3 {
        DecodeEncode(b[3..]);
        var g := Digits(Group(b0, b1, b2));
        assert Encoded(b)[4..] == Encoded(b[3..]);
        assert forall k | 0 <= k < 4 :: Encoded(b)[k] == g[k] && g[k] != PAD;
      }
    }
  }

  /** Text behind an encoding is decoded too, unless padding ends the encoding. */
  lemma {:induction false} DecodeBehind(b: string, t: string)
    requires Bytes(b)
    ensures Decoded(Encoded(b) + t) == if |b| % 3 == 0 then b + Decoded(t) else b
  {
    hide Digits, Group, Byte0, Byte1, Byte2, Alphabet64, Table64, Encoded, Decoded;
    if b == "" {
      NothingEncoded(t);
      assert b + Decoded(t) == Decoded(t);
    } else {
      var b0, b1, b2 := b[0] as nat, if |b| > 1 then b[1] as nat else 0, if |b| > 2 then b[2] as nat else 0;
      GroupDecodes(b0, b1, b2);
      var e, g := Encoded(b) + t, Digits(Group(b0, b1, b2));
      FirstGroup(b, t, g, b0, b1, b2);
      DecodedGroup(e);
      if |b| >= 3 {
        DecodeBehind(b[3..], t);
        FirstThree(b, Decoded(t));
      } else if |b| == 1 {
        assert b == [b[0]];
      } else {
        assert b == [b[0], b[1]];
      }
    }
  }

  lemma NothingEncoded(t: string)
    ensures Encoded("") + t == t
  {
  }

  lemma FirstThree(b: string, d: string)
    requires |b| >= 3
    ensures b == [b[0], b[1], b[2]] + b[3..] && b + d == [b[0], b[1], b[2]] + (b[3..] + d)
  {
    assert b == [b[0], b[1], b[2]] + b[3..];
  }

  /** The first four characters of an encoding with text behind it. */
  lemma FirstGroup(b: string, t: string, g: string, b0: nat, b1: nat, b2: nat)
    requires Bytes(b) && b != "" && b0 == b[0] as nat && |g| == 4
    requires b1 == (if |b| > 1 then b[1] as nat else 0) && b2 == (if |b| > 2 then b[2] as nat else 0)
    requires b1 < 256 && b2 < 256 && g == Digits(Group(b0, b1, b2))
    ensures
      var e := Encoded(b) + t;
      && |e| >= 4 && e[0] == g[0] && e[1] == g[1] && CharAt(e, 1) == g[1]
      && (if |b| == 1 then e[2] == PAD else e[2] == g[2])
      && (if |b| <= 2 then e[3] == PAD else e[3] == g[3])
      && (|b| >= 3 ==> e[4..] == Encoded(b[3..]) + t)
  {
    hide Digits, Group;
    if |b| >= 3 {
      assert Encoded(b) == g + Encoded(b[3..]);
      assert g + Encoded(b[3..]) + t == g + (Encoded(b[3..]) + t);
    }
  }

  lemma GroupDecodes(b0: nat, b1: nat, b2: nat)
    requires b0 < 256 && b1 < 256 && b2 < 256
    ensures
      var s := Digits(Group(b0, b1, b2));
      && (forall k | 0 <= k < 4 :: s[k] != PAD && Table64(s[k]) < 64)
      && Byte0(Table64(s[0]), Table64(s[1])) == b0 as char
      && Byte1(Table64(s[1]), Table64(s[2])) == b1 as char
      && Byte2(Table64(s[2]), Table64(s[3])) == b2 as char
  {
    hide Digits, Group, Byte0, Byte1, Byte2, Table64, Alphabet64;
    ShiftedDigits(b0, b1, b2);
    TableOfAlphabet(b0 / 4);
    TableOfAlphabet(b0 % 4 * 16 + b1 / 16);
    TableOfAlphabet(b1 % 16 * 4 + b2 / 64);
    TableOfAlphabet(b2 % 64);
    BytesOfDigits(b0, b1, b2);
  }

  lemma BytesOfDigits(b0: nat, b1: nat, b2: nat)
    requires b0 < 256 && b1 < 256 && b2 < 256
    ensures Byte0(b0 / 4, b0 % 4 * 16 + b1 / 16) == b0 as char
    ensures Byte1(b0 % 4 * 16 + b1 / 16, b1 % 16 * 4 + b2 / 64) == b1 as char
    ensures Byte2(b1 % 16 * 4 + b2 / 64, b2 % 64) == b2 as char
  {
    assert (b0 % 4 * 16 + b1 / 16) / 16 == b0 % 4;
    assert (b0 % 4 * 16 + b1 / 16) % 16 == b1 / 16;
    assert (b1 % 16 * 4 + b2 / 64) / 4 == b1 % 16;
    assert (b1 % 16 * 4 + b2 / 64) % 4 == b2 / 64;
  }

  lemma {:induction false} EncodedLength(b: string)
    requires Bytes(b)
    ensures |Encoded(b)| == (|b| + 2) / 3 * 4
  {
    hide Digits, Group;
    if |b| <= 2 {
    } else {
      EncodedLength(b[3..]);
    }
  }

  predicate InAlphabet(c: char) {
    Table64(c) != NP
  }

  /** Base64 text as RFC 3548 wants it: whole groups of digits, the unused bits of a padded one zero. */
  predicate Canonical(s: string) {
    s == ""
    || (|s| == 4 && InAlphabet(s[0]) && InAlphabet(s[1]) && Table64(s[1]) % 16 == 0 && s[2] == s[3] == PAD)
    || (|s| == 4 && InAlphabet(s[0]) && InAlphabet(s[1]) && InAlphabet(s[2]) && Table64(s[2]) % 4 == 0 && s[3] == PAD)
    || (|s| >= 4 && (forall k | 0 <= k < 4 :: InAlphabet(s[k])) && Canonical(s[4..]))
  }

  lemma {:induction false} EncodedIsCanonical(b: string)
    requires Bytes(b)
    ensures Canonical(Encoded(b))
  {
    hide Digits, Group, Byte0, Byte1, Byte2, Table64;
    if b == "" {
    } else {
      var b0, b1, b2 := b[0] as nat, if |b| > 1 then b[1] as nat else 0, if |b| > 2 then b[2] as nat else 0;
      ShiftedDigits(b0, b1, b2);
      GroupDecodes(b0, b1, b2);
      TableOfAlphabet(b0 % 4 * 16 + b1 / 16);
      TableOfAlphabet(b1 % 16 * 4 + b2 / 64);
      if |b| >= 3 {
        EncodedIsCanonical(b[3..]);
        assert Encoded(b)[4..] == Encoded(b[3..]);
      }
    }
  }

  /** Encoding undoes decoding exactly on canonical text. */
  lemma EncodeDecode(s: string)
    ensures (DecodedBytes(s); Encoded(Decoded(s)) == s) <==> Canonical(s)
  {
    DecodedBytes(s);
    EncodedIsCanonical(Decoded(s));
    if Canonical(s) {
      EncodeDecodeCanonical(s);
    }
  }

  lemma {:induction false} EncodeDecodeCanonical(s: string)
    requires Canonical(s)
    ensures (DecodedBytes(s); Encoded(Decoded(s)) == s)
  {
    hide Byte0, Byte1, Byte2, Digits, Group, Alphabet64;
    DecodedBytes(s);
    if s == "" {
    } else {
      var v2, v3 := if s[2] == PAD then 0 else Table64(s[2]), if s[3] == PAD then 0 else Table64(s[3]);
      DigitsEncode(s[0], s[1], v2, v3);
      if s[3] != PAD {
        DecodedBytes(s[4..]);
        EncodeDecodeCanonical(s[4..]);
        assert Decoded(s)[3..] == Decoded(s[4..]);
        AlphabetOfTable(s[2]);
        AlphabetOfTable(s[3]);
        assert s == [s[0], s[1], s[2], s[3]] + s[4..];
      } else if s[2] != PAD {
        AlphabetOfTable(s[2]);
        PaddedBytes(Table64(s[1]), v2);
      } else {
        PaddedBytes(Table64(s[1]), v2);
      }
    }
  }

  lemma PaddedBytes(v1: nat, v2: nat)
    requires v2 < 64
    ensures v1 % 16 == 0 && v2 == 0 ==> Byte1(v1, v2) == 0 as char
    ensures v2 % 4 == 0 ==> Byte2(v2, 0) == 0 as char
  {
  }

  lemma DigitsEncode(s0: char, s1: char, v2: nat, v3: nat)
    requires InAlphabet(s0) && InAlphabet(s1) && v2 < 64 && v3 < 64
    ensures
      var b0, b1, b2 := Byte0(Table64(s0), Table64(s1)), Byte1(Table64(s1), v2), Byte2(v2, v3);
      Digits(Group(b0 as nat, b1 as nat, b2 as nat)) == [s0, s1, Alphabet64(v2), Alphabet64(v3)]
  {
    AlphabetOfTable(s0);
    AlphabetOfTable(s1);
    DigitsOfBytes(Table64(s0), Table64(s1), v2, v3);
    var b0, b1, b2 := Byte0(Table64(s0), Table64(s1)), Byte1(Table64(s1), v2), Byte2(v2, v3);
    DigitsOfGroup(b0 as nat, b1 as nat, b2 as nat);
  }

  lemma DigitsOfBytes(v0: nat, v1: nat, v2: nat, v3: nat)
    requires v0 < 64 && v1 < 64 && v2 < 64 && v3 < 64
    ensures
      var b0, b1, b2 := Byte0(v0, v1) as nat, Byte1(v1, v2) as nat, Byte2(v2, v3) as nat;
      b0 / 4 == v0 && b0 % 4 * 16 + b1 / 16 == v1 && b1 % 16 * 4 + b2 / 64 == v2 && b2 % 64 == v3
  {
    hide Byte0, Byte1, Byte2;
    ByteValues(v0, v1, v2, v3);
    SplitByte(v0, v1 / 16, 4);
    SplitByte(v1 % 16, v2 / 4, 16);
    SplitByte(v2 % 4, v3, 64);
    assert v1 == v1 / 16 * 16 + v1 % 16 && v2 == v2 / 4 * 4 + v2 % 4;
  }

  lemma ByteValues(v0: nat, v1: nat, v2: nat, v3: nat)
    requires v0 < 64 && v1 < 64 && v2 < 64 && v3 < 64
    ensures Byte0(v0, v1) as nat == v0 * 4 + v1 / 16
    ensures Byte1(v1, v2) as nat == v1 % 16 * 16 + v2 / 4
    ensures Byte2(v2, v3) as nat == v2 % 4 * 64 + v3
  {
  }

  /** The two parts of a byte whose lower part counts to `n`. */
  lemma SplitByte(hi: nat, lo: nat, n: nat)
    requires n in {4, 16, 64} && lo < n
    ensures (hi * n + lo) / n == hi && (hi * n + lo) % n == lo
  {
  }

  // The digits as numbers

  /** What digits stand for: a number in base 64. */
  function DigitsNumber(s: string): nat {
    if s == "" then 0 else DigitsNumber(s[..|s| - 1]) * 64 + Table64(s[|s| - 1])
  }

  lemma OneDigit(s: string)
    ensures |s| == 1 ==> DigitsNumber(s) == Table64(s[0])
  {
    if |s| == 1 {
      assert s[..0] == "";
    }
  }

  lemma SomeDigits(s: string)
    requires 2 <= |s| <= 4
    ensures
      DigitsNumber(s) ==
      if |s| == 2 then Table64(s[0]) * 64 + Table64(s[1])
      else if |s| == 3 then (Table64(s[0]) * 64 + Table64(s[1])) * 64 + Table64(s[2])
      else ((Table64(s[0]) * 64 + Table64(s[1])) * 64 + Table64(s[2])) * 64 + Table64(s[3])
  {
    hide DigitsNumber, Table64;
    OneDigit(s[..1]);
    LastDigit(s[..2]);
    assert s[..2][..1] == s[..1];
    if |s| >= 3 {
      LastDigit(s[..3]);
      assert s[..3][..2] == s[..2];
    }
    if |s| == 4 {
      LastDigit(s);
    }
    assert s[..|s|] == s;
  }

  lemma LastDigit(s: string)
    requires s != ""
    ensures DigitsNumber(s) == DigitsNumber(s[..|s| - 1]) * 64 + Table64(s[|s| - 1])
  {
  }

  lemma DigitsOfNumber(g: nat)
    requires g < 0x100_0000
    ensures DigitsNumber(Digits(g)) == g
    ensures g % 64 == 0 ==> DigitsNumber(Digits(g)[..3]) == g / 64
    ensures g % 64 == 0 && g / 64 % 64 == 0 ==> DigitsNumber(Digits(g)[..2]) == g / 64 / 64
  {
    hide DigitsNumber, Table64, Alphabet64;
    var s := Digits(g);
    SomeDigits(s);
    SomeDigits(s[..3]);
    SomeDigits(s[..2]);
    TableOfAlphabet(g / 64 / 64 / 64);
    TableOfAlphabet(g / 64 / 64 % 64);
    TableOfAlphabet(g / 64 % 64);
    TableOfAlphabet(g % 64);
  }

  /**
   * Section 4 of RFC 3548: wherever three bytes stand, their number is that of four digits; a last byte alone is
   * the number of two digits with four more bits, two last ones that of three with two more bits, and padding
   * makes them four characters.
   */
  lemma {:induction false} DigitsAreBytes(b: string, i: nat)
    requires Bytes(b) && 3 * i < |b|
    ensures |Encoded(b)| >= 4 * i + 4
    ensures
      var s, rest := Encoded(b)[4 * i..4 * i + 4], b[3 * i..];
      if |rest| == 1 then s[2..] == "==" && DigitsNumber(s[..2]) == rest[0] as nat * 0x10
      else if |rest| == 2 then s[3..] == "=" && DigitsNumber(s[..3]) == (rest[0] as nat * 0x100 + rest[1] as nat) * 4
      else DigitsNumber(s) == (rest[0] as nat * 0x100 + rest[1] as nat) * 0x100 + rest[2] as nat
    decreases i
  {
    hide Digits, DigitsNumber;
    if i > 0 {
      DigitsAreBytes(b[3..], i - 1);
      assert b[3..][3 * (i - 1)..] == b[3 * i..];
      var s := Digits(Group(b[0] as nat, b[1] as nat, b[2] as nat));
      assert Encoded(b) == s + Encoded(b[3..]);
      assert Encoded(b)[4 * i..4 * i + 4] == Encoded(b[3..])[4 * (i - 1)..4 * (i - 1) + 4];
    } else {
      FirstBytes(b);
      assert b[0..] == b;
    }
  }

  lemma FirstBytes(b: string)
    requires Bytes(b) && b != ""
    ensures |Encoded(b)| >= 4
    ensures
      var s := Encoded(b)[..4];
      if |b| == 1 then s[2..] == "==" && DigitsNumber(s[..2]) == b[0] as nat * 0x10
      else if |b| == 2 then s[3..] == "=" && DigitsNumber(s[..3]) == (b[0] as nat * 0x100 + b[1] as nat) * 4
      else DigitsNumber(s) == (b[0] as nat * 0x100 + b[1] as nat) * 0x100 + b[2] as nat
  {
    hide Digits, DigitsNumber, Group;
    if |b| == 1 {
      var g := Group(b[0] as nat, 0, 0);
      var d := Digits(g);
      DigitsOfNumber(g);
      ShortGroup(b[0] as nat, 0);
      assert Encoded(b)[..4] == d[..2] + "==" && (d[..2] + "==")[..2] == d[..2];
    } else if |b| == 2 {
      var g := Group(b[0] as nat, b[1] as nat, 0);
      var d := Digits(g);
      DigitsOfNumber(g);
      ShortGroup(b[0] as nat, b[1] as nat);
      assert Encoded(b)[..4] == d[..3] + "=" && (d[..3] + "=")[..3] == d[..3];
    } else {
      var g := Group(b[0] as nat, b[1] as nat, b[2] as nat);
      DigitsOfNumber(g);
      GroupNumber(b[0] as nat, b[1] as nat, b[2] as nat);
      assert Encoded(b)[..4] == Digits(g);
    }
  }

  lemma GroupNumber(b0: nat, b1: nat, b2: nat)
    requires b0 < 256 && b1 < 256 && b2 < 256
    ensures Group(b0, b1, b2) == (b0 * 0x100 + b1) * 0x100 + b2
  {
  }

  lemma ShortGroup(b0: nat, b1: nat)
    requires b0 < 256 && b1 < 256
    ensures
      var g := Group(b0, b1, 0);
      g % 64 == 0 && g / 64 == (b0 * 0x100 + b1) * 4 && (b1 == 0 ==> g / 64 % 64 == 0 && g / 64 / 64 == b0 * 0x10)
  {
    Div64(Group(b0, b1, 0), (b0 * 0x100 + b1) * 4, 0);
    if b1 == 0 {
      Div64(b0 * 0x400, b0 * 0x10, 0);
    }
  }
}
