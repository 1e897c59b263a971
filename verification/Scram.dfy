/** SCRAM-SHA-1 (RFC 5802): the client's messages, and a server that checks and answers them. */
module Scram {
  import opened Base64
  import opened CxxString
  import opened Decimal

  // Reading the server's first message

  datatype ServerFirst = ServerFirst(nonce: string, salt: string, iterations: int)

  /** The message a server sends; RFC 5802 lets extensions follow. */
  function FirstMessage(nonce: string, salt: string, iterations: nat, extensions: string): string
    requires Bytes(salt)
  {
    "r=" + nonce + (",s=" + Encoded(salt) + (",i=" + (Numeral(iterations) + extensions)))
  }

  /** What the three searches of processSASLChallenge cut out, with the wrap-around of its subtractions. */
  function Parsed(decoded: string): (r: Challenge)
  {
    match (Find(decoded, "r=", 0), Find(decoded, "s=", 0), Find(decoded, "i=", 0))
    case (Some(posn), Some(poss), Some(posi)) =>
      Message(ServerFirst(
        Substr(decoded, posn + 2, SizeSub(SizeSub(poss, posn), 3)),
        Decoded(Substr(decoded, poss + 2, SizeSub(SizeSub(posi, poss), 3))),
        Atoi(Substr(decoded, posi + 2, |decoded| - posi - 2))))
    case _ => Malformed
  }

  datatype Challenge = Malformed | Message(value: ServerFirst)

  /** No `c` in the text stands right before an equals sign. */
  predicate NoKey(s: string, c: char) {
    forall j | 0 <= j < |s| - 1 :: !(s[j] == c && s[j + 1] == '=')
  }

  lemma {:induction false} CanonicalHasNoKey(s: string)
    requires Canonical(s)
    ensures NoKey(s, 'i') && ',' !in s
  {
    if s == "" {
    } else {
      assert Table64('i') == 34 && Table64(',') == NP;
      if |s| > 4 || s[3] != PAD {
        CanonicalHasNoKey(s[4..]);
        assert s[4..] != "" ==> InAlphabet(s[4..][0]);
        assert forall j | 4 <= j < |s| :: s[j] == s[4..][j - 4];
      }
    }
  }

  /** Base64 text never holds i and an equals sign: what stands before padding has low bits zero, i has not. */
  lemma EncodedHasNoKey(b: string)
    requires Bytes(b)
    ensures NoKey(Encoded(b), 'i') && ',' !in Encoded(b)
  {
    EncodedIsCanonical(b);
    CanonicalHasNoKey(Encoded(b));
  }

  /** A two-character text is found where its first pair of characters is. */
  lemma FirstPair(s: string, pat: string, k: nat)
    requires |pat| == 2 && k + 1 < |s| && s[k] == pat[0] && s[k + 1] == pat[1]
    requires forall j | 0 <= j < k :: !(s[j] == pat[0] && s[j + 1] == pat[1])
    ensures Find(s, pat, 0) == Some(k)
  {
    hide Find, At;
    PairAt(s, pat, k);
    forall j | 0 <= j < k
      ensures !At(s, j, pat)
    {
      PairAt(s, pat, j);
    }
    FindIs(s, pat, 0, k);
  }

  lemma PairAt(s: string, pat: string, j: nat)
    requires |pat| == 2 && j + 1 < |s|
    ensures At(s, j, pat) <==> s[j] == pat[0] && s[j + 1] == pat[1]
  {
    assert s[j..j + 2] == [s[j], s[j + 1]] && pat == [pat[0], pat[1]];
  }

  /** The message by position: nonce, salt text and the rest between their keys. */
  ghost predicate Layout(s: string, nonce: string, e: string, rest: string) {
    var n, m := |nonce|, |e|;
    && |s| == n + m + 8 + |rest|
    && s[0] == 'r' && s[1] == '='
    && (forall j | 0 <= j < n :: s[2 + j] == nonce[j])
    && s[n + 2] == ',' && s[n + 3] == 's' && s[n + 4] == '='
    && (forall j | 0 <= j < m :: s[n + 5 + j] == e[j])
    && s[n + m + 5] == ',' && s[n + m + 6] == 'i' && s[n + m + 7] == '='
    && s[2..2 + n] == nonce && s[n + 5..n + 5 + m] == e && s[n + m + 8..] == rest
  }

  lemma LaidOut(s: string, nonce: string, e: string, rest: string)
    requires s == "r=" + nonce + (",s=" + e + (",i=" + rest))
    ensures Layout(s, nonce, e, rest)
  {
  }

  lemma NonceFound(s: string, nonce: string, e: string, rest: string)
    requires Layout(s, nonce, e, rest)
    ensures Find(s, "r=", 0) == Some(0)
    ensures NoKey(nonce, 's') ==> Find(s, "s=", 0) == Some(|nonce| + 3)
  {
    hide Find;
    FirstPair(s, "r=", 0);
    if NoKey(nonce, 's') {
      var n := |nonce|;
      forall j | 0 <= j < n + 3
        ensures !(s[j] == 's' && s[j + 1] == '=')
      {
        if 2 <= j < n + 1 {
          assert s[j] == nonce[j - 2] && s[j + 1] == nonce[j - 1];
          assert !(nonce[j - 2] == 's' && nonce[j - 2 + 1] == '=');
        }
      }
      FirstPair(s, "s=", n + 3);
    }
  }

  lemma CountFound(s: string, nonce: string, e: string, rest: string)
    requires Layout(s, nonce, e, rest) && NoKey(nonce, 'i') && NoKey(e, 'i')
    ensures Find(s, "i=", 0) == Some(|nonce| + |e| + 6)
  {
    hide Find;
    var n, m := |nonce|, |e|;
    forall j | 0 <= j < n + m + 6
      ensures !(s[j] == 'i' && s[j + 1] == '=')
    {
      if 2 <= j < n + 1 {
        assert s[j] == nonce[j - 2] && s[j + 1] == nonce[j - 2 + 1];
      } else if n + 5 <= j < n + m + 4 {
        assert s[j] == e[j - n - 5] && s[j + 1] == e[j - n - 5 + 1];
      }
    }
    FirstPair(s, "i=", n + m + 6);
  }

  lemma CutAsFound(s: string, nonce: string, e: string, rest: string, poss: nat, posi: nat)
    requires Layout(s, nonce, e, rest) && |s| < NPOS && poss == |nonce| + 3 && posi == |nonce| + |e| + 6
    requires Find(s, "r=", 0) == Some(0) && Find(s, "s=", 0) == Some(poss) && Find(s, "i=", 0) == Some(posi)
    ensures Parsed(s) == Message(ServerFirst(nonce, Decoded(e), Atoi(rest)))
  {
    hide Find, Decoded, Atoi, SizeSub, Substr;
    assert SizeSub(SizeSub(poss, 0), 3) == |nonce| by {
      SizeSubValue(poss, 0);
      SizeSubValue(poss, 3);
    }
    assert SizeSub(SizeSub(posi, poss), 3) == |e| by {
      SizeSubValue(posi, poss);
      SizeSubValue(posi - poss, 3);
    }
    LayoutCuts(s, nonce, e, rest);
    ParsedAt(s, poss, posi);
  }

  lemma ParsedAt(s: string, poss: nat, posi: nat)
    requires Find(s, "r=", 0) == Some(0) && Find(s, "s=", 0) == Some(poss) && Find(s, "i=", 0) == Some(posi)
    ensures Parsed(s) == Message(ServerFirst(
      Substr(s, 2, SizeSub(SizeSub(poss, 0), 3)), Decoded(Substr(s, poss + 2, SizeSub(SizeSub(posi, poss), 3))),
      Atoi(Substr(s, posi + 2, |s| - posi - 2))))
  {
  }

  lemma LayoutCuts(s: string, nonce: string, e: string, rest: string)
    requires Layout(s, nonce, e, rest)
    ensures Substr(s, 2, |nonce|) == nonce && Substr(s, |nonce| + 5, |e|) == e
    ensures Substr(s, |nonce| + |e| + 8, |s| - (|nonce| + |e| + 6) - 2) == rest
  {
  }

  /** For every nonce: it is recovered if and only if it holds no s before an equals sign. */
  lemma NonceRecovered(nonce: string, salt: string, iterations: nat, extensions: string)
    requires Bytes(salt) && |FirstMessage(nonce, salt, iterations, extensions)| < NPOS
    ensures
      var p := Parsed(FirstMessage(nonce, salt, iterations, extensions));
      p.Message? && (p.value.nonce == nonce <==> NoKey(nonce, 's'))
  {
    hide Find, Encoded, Decoded, Numeral, Atoi, SizeSub, Substr;
    var s := FirstMessage(nonce, salt, iterations, extensions);
    var e, rest := Encoded(salt), Numeral(iterations) + extensions;
    LaidOut(s, nonce, e, rest);
    NonceFound(s, nonce, e, rest);
    KeyFound(s, nonce, e, rest);
    NonceCut(s, nonce, e, rest, Find(s, "s=", 0).value);
    SomePair(s, "i=", |nonce| + |e| + 6);
  }

  lemma KeyFound(s: string, nonce: string, e: string, rest: string)
    requires Layout(s, nonce, e, rest)
    ensures Find(s, "s=", 0).Some? && 2 <= Find(s, "s=", 0).value <= |nonce| + 3
    ensures !NoKey(nonce, 's') ==> Find(s, "s=", 0).value < |nonce| + 1
  {
    hide Find;
    SomePair(s, "s=", |nonce| + 3);
    var poss := Find(s, "s=", 0).value;
    FindFirst(s, "s=", 0);
    AtElement(s, poss, "s=", 0);
    if !NoKey(nonce, 's') {
      var j :| 0 <= j < |nonce| - 1 && nonce[j] == 's' && nonce[j + 1] == '=';
      assert s[2 + j] == nonce[j] && s[2 + (j + 1)] == nonce[j + 1];
      SomePair(s, "s=", 2 + j);
    }
  }

  lemma NonceCut(s: string, nonce: string, e: string, rest: string, poss: nat)
    requires Layout(s, nonce, e, rest) && |s| < NPOS && 2 <= poss <= |nonce| + 3
    ensures Substr(s, 2, SizeSub(SizeSub(poss, 0), 3)) == nonce <==> poss == |nonce| + 3
  {
    SizeSubValue(poss, 0);
    SizeSubValue(poss, 3);
    if poss == 2 {
      assert |Substr(s, 2, SizeSub(2, 3))| == |s| - 2;
    } else {
      assert |Substr(s, 2, poss - 3)| == poss - 3;
    }
  }

  lemma SomePair(s: string, pat: string, k: nat)
    requires |pat| == 2 && k + 1 < |s| && s[k] == pat[0] && s[k + 1] == pat[1]
    ensures Find(s, pat, 0).Some? && Find(s, pat, 0).value <= k
  {
    hide Find, At;
    PairAt(s, pat, k);
    FindFirst(s, pat, 0);
  }

  // A nonce with i= in it

  lemma NoKeyFind(s: string)
    ensures NoKey(s, 'i') <==> Find(s, "i=", 0).None?
  {
    hide Find, At;
    FindFirst(s, "i=", 0);
    if j :| 0 <= j < |s| - 1 && s[j] == 'i' && s[j + 1] == '=' {
      SomePair(s, "i=", j);
    }
    match Find(s, "i=", 0)
    case None =>
    case Some(k) => PairAt(s, "i=", k);
  }

  /** The first i= of the message is that of the nonce, if it has one. */
  lemma CountInNonce(s: string, nonce: string, e: string, rest: string, j: nat)
    requires Layout(s, nonce, e, rest) && Find(nonce, "i=", 0) == Some(j)
    ensures Find(s, "i=", 0) == Some(j + 2)
  {
    hide Find, At;
    FindFirst(nonce, "i=", 0);
    PairAt(nonce, "i=", j);
    assert s[2 + j] == nonce[j] && s[2 + (j + 1)] == nonce[j + 1];
    forall k | 0 <= k < j + 2
      ensures !(s[k] == 'i' && s[k + 1] == '=')
    {
      if k >= 2 {
        PairAt(nonce, "i=", k - 2);
        assert s[k] == nonce[k - 2] && s[k + 1] == nonce[k - 2 + 1];
      }
    }
    FirstPair(s, "i=", j + 2);
  }

  /** With an i= in the nonce, whatever else is in it: the count is what atoi makes of the text behind it. */
  lemma CountFromNonce(nonce: string, salt: string, iterations: nat, extensions: string, j: nat)
    requires Bytes(salt) && Find(nonce, "i=", 0) == Some(j)
    requires |FirstMessage(nonce, salt, iterations, extensions)| < NPOS
    ensures j + 4 <= |FirstMessage(nonce, salt, iterations, extensions)|
    ensures
      var first := FirstMessage(nonce, salt, iterations, extensions);
      var p := Parsed(first);
      p.Message? && p.value.iterations == Atoi(first[j + 4..])
  {
    hide Find, Encoded, Decoded, Numeral, Atoi, SizeSub, FirstMessage, Layout, Parsed, NoKey;
    var s := FirstMessage(nonce, salt, iterations, extensions);
    var e, rest := Encoded(salt), Numeral(iterations) + extensions;
    MessageLaidOut(nonce, salt, iterations, extensions);
    NonceFound(s, nonce, e, rest);
    KeyFound(s, nonce, e, rest);
    CountInNonce(s, nonce, e, rest, j);
    ParsedCount(s, j + 2);
  }

  lemma ParsedCount(s: string, posi: nat)
    requires Find(s, "r=", 0).Some? && Find(s, "s=", 0).Some? && Find(s, "i=", 0) == Some(posi)
    ensures posi + 2 <= |s| && Parsed(s).Message? && Parsed(s).value.iterations == Atoi(s[posi + 2..])
  {
    hide Find, Decoded, Atoi, SizeSub;
    assert Substr(s, posi + 2, |s| - posi - 2) == s[posi + 2..];
  }

  /**
   * The salt of such a message: its text does not end where the count begins, and what follows it is decoded
   * too, unless the salt's encoding is padded.
   */
  lemma SaltFromNonce(nonce: string, salt: string, iterations: nat, extensions: string, j: nat)
    requires Bytes(salt) && |FirstMessage(nonce, salt, iterations, extensions)| < NPOS
    ensures
      var p := Parsed(FirstMessage(nonce, salt, iterations, extensions));
      NoKey(nonce, 's') && Find(nonce, "i=", 0) == Some(j) ==>
        p.Message? && p.value.nonce == nonce && (p.value.salt == salt <==> |salt| % 3 != 0)
  {
    hide Find, Encoded, Decoded, Atoi, SizeSub, Substr, NoKey, Layout, Parsed, FirstMessage, Numeral;
    if NoKey(nonce, 's') && Find(nonce, "i=", 0) == Some(j) {
      var s, e := FirstMessage(nonce, salt, iterations, extensions), Encoded(salt);
      var rest, poss, posi := Numeral(iterations) + extensions, |nonce| + 3, j + 2;
      MessageLaidOut(nonce, salt, iterations, extensions);
      NonceFound(s, nonce, e, rest);
      CountInNonce(s, nonce, e, rest, j);
      LayoutSize(s, nonce, e, rest);
      Wrapped(|nonce|, j, |s|);
      ParsedAt(s, poss, posi);
      LayoutCuts(s, nonce, e, rest);
      var t := s[|nonce| + |e| + 5..];
      RestOfLayout(s, nonce, e, rest, SizeSub(SizeSub(posi, poss), 3));
      DecodeBehind(salt, t);
      SomeDecoded(t);
      assert |salt| % 3 == 0 ==> |salt + Decoded(t)| > |salt|;
    }
  }

  lemma LayoutSize(s: string, nonce: string, e: string, rest: string)
    requires Layout(s, nonce, e, rest)
    ensures |s| >= |nonce| + |e| + 8
  {
  }

  /** The subtractions, where the count is found inside a nonce of length `n`. */
  lemma Wrapped(n: nat, j: nat, size: nat)
    requires j + 2 <= n && n + 8 <= size < NPOS
    ensures SizeSub(SizeSub(n + 3, 0), 3) == n
    ensures SizeSub(SizeSub(j + 2, n + 3), 3) >= size - n - 5
  {
    SizeSubValue(n + 3, 0);
    SizeSubValue(n + 3, 3);
    SizeSubValue(j + 2, n + 3);
    SizeSubValue(SizeSub(j + 2, n + 3), 3);
  }

  lemma SomeDecoded(t: string)
    requires t != ""
    ensures Decoded(t) != ""
  {
    hide Byte0, Byte1, Byte2, Table64;
  }

  lemma RestOfLayout(s: string, nonce: string, e: string, rest: string, n: nat)
    requires Layout(s, nonce, e, rest) && n >= |s| - |nonce| - 5
    ensures Substr(s, |nonce| + 5, n) == e + s[|nonce| + |e| + 5..] && s[|nonce| + |e| + 5..] != ""
  {
    assert n == |s| - |nonce| - 5 ==> s[|nonce| + 5..|nonce| + 5 + n] == s[|nonce| + 5..];
    assert s[|nonce| + 5..] == s[|nonce| + 5..|nonce| + 5 + |e|] + s[|nonce| + |e| + 5..];
  }

  /**
   * Whether the client reads the message as the server means it: no s= in the nonce; and if there is an i= in
   * it, the salt's encoding is padded and the text behind that i= gives the same count.
   */
  predicate Recovered(nonce: string, salt: string, iterations: nat, extensions: string)
    requires Bytes(salt)
  {
    && NoKey(nonce, 's')
    && match Find(nonce, "i=", 0)
       case None => iterations <= INT_MAX
       case Some(j) =>
         var first := FirstMessage(nonce, salt, iterations, extensions);
         |salt| % 3 != 0 && j + 4 <= |first| && Atoi(first[j + 4..]) == iterations
  }

  /** For every nonce, salt and count: the three searches recover them if and only if Recovered holds. */
  lemma ParsesFirstMessage(nonce: string, salt: string, iterations: nat, extensions: string)
    requires Bytes(salt) && (extensions == "" || !IsDigit(extensions[0]))
    requires |FirstMessage(nonce, salt, iterations, extensions)| < NPOS
    ensures Parsed(FirstMessage(nonce, salt, iterations, extensions)) == Message(ServerFirst(nonce, salt, iterations))
            <==> Recovered(nonce, salt, iterations, extensions)
  {
    hide Find, Encoded, Decoded, Numeral, Atoi, NoKey, Parsed, FirstMessage;
    NonceRecovered(nonce, salt, iterations, extensions);
    match Find(nonce, "i=", 0)
    case None =>
      NoKeyFind(nonce);
      if NoKey(nonce, 's') {
        ParsesPlain(nonce, salt, iterations, extensions);
      }
    case Some(j) =>
      CountFromNonce(nonce, salt, iterations, extensions, j);
      SaltFromNonce(nonce, salt, iterations, extensions, j);
  }

  lemma MessageLaidOut(nonce: string, salt: string, iterations: nat, extensions: string)
    requires Bytes(salt)
    ensures Layout(FirstMessage(nonce, salt, iterations, extensions), nonce, Encoded(salt),
                   Numeral(iterations) + extensions)
  {
    hide Encoded, Numeral;
    LaidOut(FirstMessage(nonce, salt, iterations, extensions), nonce, Encoded(salt), Numeral(iterations) + extensions);
  }

  lemma ParsesPlain(nonce: string, salt: string, iterations: nat, extensions: string)
    requires Bytes(salt) && (extensions == "" || !IsDigit(extensions[0]))
    requires |FirstMessage(nonce, salt, iterations, extensions)| < NPOS
    requires NoKey(nonce, 's') && NoKey(nonce, 'i')
    ensures Parsed(FirstMessage(nonce, salt, iterations, extensions)) == Message(ServerFirst(nonce, salt, iterations))
            <==> iterations <= INT_MAX
  {
    hide Find, Encoded, Decoded, Numeral, Atoi, NoKey, FirstMessage;
    var s := FirstMessage(nonce, salt, iterations, extensions);
    var e, rest := Encoded(salt), Numeral(iterations) + extensions;
    MessageLaidOut(nonce, salt, iterations, extensions);
    NonceFound(s, nonce, e, rest);
    EncodedHasNoKey(salt);
    CountFound(s, nonce, e, rest);
    CutAsFound(s, nonce, e, rest, |nonce| + 3, |nonce| + |e| + 6);
    DecodeEncode(salt);
    AtoiNumeral(iterations, extensions);
  }

  /** A nonce with i= in it that is read well all the same. */
  lemma LuckyNonce(salt: string)
    requires Bytes(salt) && |salt| == 1
    ensures |FirstMessage("i=1", salt, 1, "")| < NPOS && Recovered("i=1", salt, 1, "")
  {
    hide Encoded, Numeral, Find;
    assert NoKey("i=1", 's');
    PairAt("i=1", "i=", 0);
    FindIs("i=1", "i=", 0, 0);
    MessageLaidOut("i=1", salt, 1, "");
    EncodedLength(salt);
    var s := FirstMessage("i=1", salt, 1, "");
    assert |Numeral(1)| == 1 by { OneDigit(); }
    assert s[4] == "i=1"[2] && s[5] == ',';
    ReadOne(s[4..]);
  }

  lemma OneDigit()
    ensures Numeral(1) == "1"
  {
  }

  lemma ReadOne(t: string)
    requires |t| > 1 && t[0] == '1' && t[1] == ','
    ensures Atoi(t) == 1
  {
    assert ReadDigits(t, 0) == ReadDigits(t[1..], 1) == 1;
    assert Trimmed(t) == t;
    AtoiOfAtol(t);
  }
}
