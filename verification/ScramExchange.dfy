/** SCRAM-SHA-1 (RFC 5802): the client's answers, checked by a server that keeps only the derived keys. */
module ScramExchange {
  import opened Base64
  import opened CxxString
  import opened Decimal
  import opened Scram
  import opened ScramKeys

  /** prep::saslprep without libidn refuses a text for its length only. */
  predicate Prepares(s: string) {
    |s| <= 1023
  }

  /** The GS2 header; the option of channel binding is withdrawn when the mechanism using it is not available. */
  function Gs2Header(plusAvailable: bool, authzid: string): string {
    (if plusAvailable then "n," else "y,") + (if authzid != "" && Prepares(authzid) then "a=" + authzid else "") + ","
  }

  /** The name to authenticate by. */
  function ChosenName(authcid: string, username: string): string {
    if authcid != "" && Prepares(authcid) then authcid else if Prepares(username) then username else ""
  }

  function FirstBare(authcid: string, username: string, nonce: string): string {
    "n=" + ChosenName(authcid, username) + (",r=" + nonce)
  }

  /** The client's final message without its proof: the channel binding data is always that of n,, */
  function WithoutProof(nonce: string): string {
    "c=biws" + (",r=" + nonce)
  }

  function AuthMessage(bare: string, first: string, withoutProof: string): string {
    bare + "," + first + "," + withoutProof
  }

  function ClientKey(sha: Sha1, password: string, p: ServerFirst): (k: string)
    ensures |k| == 20 && Bytes(k)
  {
    Hmac(sha, Hi(sha, password, p.salt, p.iterations), "Client Key")
  }

  function ServerKey(sha: Sha1, password: string, p: ServerFirst): string {
    Hmac(sha, Hi(sha, password, p.salt, p.iterations), "Server Key")
  }

  function StoredKey(sha: Sha1, password: string, p: ServerFirst): string {
    sha(ClientKey(sha, password, p))
  }

  /** ClientKey XOR HMAC( StoredKey, AuthMessage ). */
  function Proof(sha: Sha1, password: string, p: ServerFirst, auth: string): (r: string)
    ensures |r| == 20 && Bytes(r)
  {
    XorBytes(ClientKey(sha, password, p), Hmac(sha, StoredKey(sha, password, p), auth))
  }

  function Final(sha: Sha1, password: string, bare: string, first: string, p: ServerFirst): string {
    var w := WithoutProof(p.nonce);
    w + ",p=" + Encoded(Proof(sha, password, p, AuthMessage(bare, first, w)))
  }

  function Signature(sha: Sha1, password: string, bare: string, first: string, p: ServerFirst): string {
    Hmac(sha, ServerKey(sha, password, p), AuthMessage(bare, first, WithoutProof(p.nonce)))
  }

  /** Whether the server's last message is accepted, `signature` being the one expected. */
  predicate Accepts(signature: string, payload: string) {
    var decoded := Decoded(payload);
    |decoded| >= 3 && Decoded(decoded[2..]) == signature
  }

  class Client {
    const sha: Sha1
    var gs2Header: string
    var firstBare: string
    var serverSignature: string

    constructor (sha: Sha1)
      ensures this.sha == sha
    {
      this.sha := sha;
      gs2Header, firstBare, serverSignature := "", "", "";
    }

    /** The SCRAM-SHA-1 case of startSASL. */
    method Start(plusAvailable: bool, authzid: string, authcid: string, username: string, nonce: string)
      returns (auth: string)
      requires Bytes(authzid) && Bytes(authcid) && Bytes(username) && Bytes(nonce)
      modifies this
      ensures gs2Header == Gs2Header(plusAvailable, authzid) && firstBare == FirstBare(authcid, username, nonce)
      ensures Bytes(gs2Header) && Bytes(firstBare) && auth == Encoded(gs2Header + firstBare)
      ensures
        var zid, name := MeantIdentity(authzid), MeantName(authcid, username);
        ReadAuth(Decoded(auth)) == AuthRead(if plusAvailable then "n" else "y", zid, FirstRead(name, nonce))
        <==> Unescaped(zid) && Unescaped(name)
    {
      hide Encoded, Decoded, Bytes, ReadAuth, MeantIdentity, MeantName, Unescaped;
      HeaderBytes(plusAvailable, authzid);
      BareBytes(authcid, username, nonce);
      BothBytes(Gs2Header(plusAvailable, authzid), FirstBare(authcid, username, nonce));
      gs2Header := if plusAvailable then "n," else "y,";
      if authzid != "" && Prepares(authzid) {
        gs2Header := gs2Header + ("a=" + authzid);
      }
      gs2Header := gs2Header + ",";
      assert gs2Header == Gs2Header(plusAvailable, authzid);
      firstBare := "n=";
      if authcid != "" && Prepares(authcid) {
        firstBare := firstBare + authcid;
      } else if Prepares(username) {
        firstBare := firstBare + username;
      }
      firstBare := firstBare + (",r=" + nonce);
      assert firstBare == FirstBare(authcid, username, nonce);
      auth := Encode64(gs2Header + firstBare);
      DecodeEncode(gs2Header + firstBare);
      StartRead(plusAvailable, authzid, authcid, username, nonce);
    }

    /** The SCRAM-SHA-1 case of processSASLChallenge; the answer stays empty if the challenge cannot be read. */
    method ProcessChallenge(challenge: string, password: string) returns (response: string)
      modifies `serverSignature
      ensures
        var decoded := Decoded(challenge);
        var parsed := Parsed(decoded);
        if parsed.Malformed? || !Prepares(password) then response == "" && serverSignature == old(serverSignature)
        else
          var final := Final(sha, password, firstBare, decoded, parsed.value);
          && Bytes(final) && response == Encoded(final)
          && serverSignature == Signature(sha, password, firstBare, decoded, parsed.value)
    {
      hide Hmac, Hi, Encoded, Decoded, Parsed, XorChar, XorBytes, Bytes, Final, WithoutProof, AuthMessage, Proof;
      hide ClientKey, ServerKey, StoredKey, Signature;
      var decoded := Decode64(challenge);
      var parsed := Parsed(decoded);
      if parsed.Malformed? || !Prepares(password) {
        return "";
      }
      var p := parsed.value;
      ParsedBytes(challenge);
      var saltedPwd := ComputeHi(sha, password, p.salt, p.iterations);
      var ck := ComputeHmac(sha, saltedPwd, "Client Key");
      var storedKey := sha(ck);
      var tmp := "c=biws";
      tmp := tmp + (",r=" + p.nonce);
      var authMessage := firstBare + "," + decoded + "," + tmp;
      var clientSignature := ComputeHmac(sha, storedKey, authMessage);
      var clientProof := new char[20](i requires 0 <= i < |ck| => ck[i]);
      for i := 0 to 20
        invariant forall j | 0 <= j < i :: clientProof[j] == XorChar(ck[j], clientSignature[j] as nat)
        invariant forall j | i <= j < 20 :: clientProof[j] == ck[j]
      {
        clientProof[i] := XorChar(clientProof[i], clientSignature[i] as nat);
      }
      Xored(ck, clientSignature, clientProof[..]);
      var serverKey := ComputeHmac(sha, saltedPwd, "Server Key");
      serverSignature := ComputeHmac(sha, serverKey, authMessage);
      var proof := Encode64(clientProof[..]);
      tmp := tmp + ",p=" + proof;
      FinalBytes(p.nonce, clientProof[..]);
      Answer(sha, password, firstBare, decoded, p);
      response := Encode64(tmp);
    }

    /** The SCRAM part of processSASLSuccess. */
    method ProcessSuccess(payload: string) returns (ok: bool)
      ensures ok == Accepts(serverSignature, payload)
    {
      var decoded := Decode64(payload);
      if |decoded| < 3 {
        return false;
      }
      var sent := Decode64(decoded[2..]);
      return sent == serverSignature;
    }
  }

  lemma BothBytes(a: string, b: string)
    requires Bytes(a) && Bytes(b)
    ensures Bytes(a + b)
  {
  }

  lemma HeaderBytes(plusAvailable: bool, authzid: string)
    requires Bytes(authzid)
    ensures Bytes(Gs2Header(plusAvailable, authzid))
  {
  }

  lemma BareBytes(authcid: string, username: string, nonce: string)
    requires Bytes(authcid) && Bytes(username) && Bytes(nonce)
    ensures Bytes(FirstBare(authcid, username, nonce))
  {
  }

  lemma Xored(a: string, b: string, c: string)
    requires |a| == |b| == |c| && forall j | 0 <= j < |c| :: c[j] == XorChar(a[j], b[j] as nat)
    ensures c == XorBytes(a, b)
  {
    hide XorChar;
  }

  /** The answer, spelled out. */
  lemma Answer(sha: Sha1, password: string, bare: string, first: string, p: ServerFirst)
    ensures
      var salted := Hi(sha, password, p.salt, p.iterations);
      var ck := Hmac(sha, salted, "Client Key");
      var w := "c=biws" + (",r=" + p.nonce);
      var auth := bare + "," + first + "," + w;
      var proof := XorBytes(ck, Hmac(sha, sha(ck), auth));
      && Final(sha, password, bare, first, p) == w + ",p=" + Encoded(proof)
      && Signature(sha, password, bare, first, p) == Hmac(sha, Hmac(sha, salted, "Server Key"), auth)
  {
    hide Hmac, Hi, Encoded, XorBytes;
  }

  lemma ParsedBytes(challenge: string)
    ensures
      var parsed := Parsed(Decoded(challenge));
      parsed.Message? ==> Bytes(parsed.value.nonce)
  {
    hide Decoded, Find, SizeSub;
    DecodedBytes(challenge);
  }

  lemma {:induction false} EncodedBytes(b: string)
    requires Bytes(b)
    ensures Bytes(Encoded(b))
  {
    EncodedIsCanonical(b);
    CanonicalBytes(Encoded(b));
  }

  lemma {:induction false} CanonicalBytes(s: string)
    requires Canonical(s)
    ensures Bytes(s)
  {
    if |s| <= 4 {
    } else {
      CanonicalBytes(s[4..]);
      assert s == s[..4] + s[4..];
    }
  }

  lemma FinalBytes(nonce: string, proof: string)
    requires Bytes(nonce) && Bytes(proof)
    ensures Bytes("c=biws" + (",r=" + nonce) + ",p=" + Encoded(proof))
  {
    hide Encoded;
    EncodedBytes(proof);
  }

  // The server

  /**
   * A server that follows RFC 5802, for one exchange: the channel binding data must be that of the GS2
   * header it was sent, the nonce its own, and the proof must give back a key with the stored hash.
   */
  predicate ServerAccepts(sha: Sha1, storedKey: string, gs2: string, bare: string, first: string,
                          nonce: string, final: string)
    requires Bytes(gs2)
  {
    var w := "c=" + Encoded(gs2) + (",r=" + nonce);
    && w + ",p=" <= final
    && var proof := Decoded(final[|w| + 3..]);
       |proof| == 20 && sha(XorBytes(proof, Hmac(sha, storedKey, AuthMessage(bare, first, w)))) == storedKey
  }

  lemma PlainHeader()
    ensures Encoded("n,,") == "biws"
  {
    EncodedShifted("n,,");
    Codes();
  }

  lemma Codes()
    ensures Shifted(110, 44, 44) == "biws"
  {
  }

  /** Biws is what the header without channel binding and authorization identity encodes to, and no other. */
  lemma Biws(gs2: string)
    requires Bytes(gs2)
    ensures Encoded(gs2) == "biws" <==> gs2 == "n,,"
  {
    hide Encoded, Decoded;
    PlainHeader();
    DecodeEncode(gs2);
    DecodeEncode("n,,");
  }

  /** The header is the plain one just if the channel binding mechanism is available and no identity is asked for. */
  lemma PlainHeaderSent(plusAvailable: bool, authzid: string)
    ensures Gs2Header(plusAvailable, authzid) == "n,,"
      <==> plusAvailable && (authzid == "" || !Prepares(authzid))
  {
    var h := Gs2Header(plusAvailable, authzid);
    assert h[0] == if plusAvailable then 'n' else 'y';
    if authzid != "" && Prepares(authzid) {
      assert |h| > 3;
    }
  }

  lemma CommaSplit(a: string, b: string, x: string, y: string)
    requires ',' !in a && ',' !in b && a + ([','] + x) <= b + ([','] + y)
    ensures a == b && x <= y
  {
    var s, t := a + ([','] + x), b + ([','] + y);
    assert s[|a|] == ',' && forall i | 0 <= i < |a| :: s[i] == a[i];
    assert t[|b|] == ',' && forall i | 0 <= i < |b| :: t[i] == b[i];
    assert |a| == |b|;
    assert s[..|a|] == a && t[..|b|] == b;
    assert s[|a| + 1..] == x && t[|a| + 1..] == y;
    assert t[..|s|] == s && t[..|s|][|a| + 1..] == y[..|x|];
  }

  /** What the beginning the server wants says about the client's answer. */
  lemma SameFields(e: string, nonce: string, n: string, proof: string)
    requires ',' !in e && ("c=" + e + (",r=" + nonce)) + ",p=" <= ("c=biws" + (",r=" + n)) + ",p=" + proof
    ensures e == "biws" && nonce + ([','] + "p=") <= n + ([','] + ("p=" + proof))
  {
    var s, t := "r=" + nonce + ",p=", "r=" + n + ",p=" + proof;
    assert ("c=" + e + (",r=" + nonce)) + ",p=" == ("c=" + e) + ([','] + s);
    assert ("c=biws" + (",r=" + n)) + ",p=" + proof == "c=biws" + ([','] + t);
    CommaSplit("c=" + e, "c=biws", s, t);
    assert ("c=" + e)[2..] == "biws";
    assert s[2..] == nonce + ([','] + "p=") && t[2..] == n + ([','] + ("p=" + proof));
  }

  /** A nonce that is cut at an s= inside it is not the one the server looks for. */
  lemma WrongNonce(nonce: string, n: string, proof: string)
    requires ',' !in nonce && n != nonce && (n <= nonce || nonce + ",s=" <= n)
    ensures !(nonce + ([','] + "p=") <= n + ([','] + ("p=" + proof)))
  {
    var s, t := nonce + ([','] + "p="), n + ([','] + ("p=" + proof));
    if nonce + ",s=" <= n {
      assert (nonce + ",s=")[|nonce| + 1] == 's';
      assert s[|nonce| + 1] == 'p' && t[|nonce| + 1] == n[|nonce| + 1];
    } else if s <= t {
      CommaSplit(nonce, n, "p=", "p=" + proof);
    }
  }

  /** Where the nonce ends that the client reads, if an s= inside it is found first. */
  lemma MisreadNonce(nonce: string, salt: string, iterations: nat, extensions: string)
    requires Bytes(salt) && |FirstMessage(nonce, salt, iterations, extensions)| < NPOS && !NoKey(nonce, 's')
    ensures
      var p := Parsed(FirstMessage(nonce, salt, iterations, extensions));
      p.Message? && p.value.nonce != nonce && (p.value.nonce <= nonce || nonce + ",s=" <= p.value.nonce)
  {
    hide Find, Encoded, Decoded, Numeral, Atoi, SizeSub, Substr, NoKey;
    NonceRecovered(nonce, salt, iterations, extensions);
    var s := FirstMessage(nonce, salt, iterations, extensions);
    var e, rest := Encoded(salt), Numeral(iterations) + extensions;
    LaidOut(s, nonce, e, rest);
    NonceFound(s, nonce, e, rest);
    KeyFound(s, nonce, e, rest);
    MisreadCut(s, nonce, e, rest, Find(s, "s=", 0).value);
  }

  lemma MisreadCut(s: string, nonce: string, e: string, rest: string, poss: nat)
    requires Layout(s, nonce, e, rest) && |s| < NPOS && 2 <= poss < |nonce| + 1
    ensures
      var n := Substr(s, 2, SizeSub(SizeSub(poss, 0), 3));
      n <= nonce || nonce + ",s=" <= n
  {
    SizeSubValue(poss, 0);
    SizeSubValue(poss, 3);
    var n := Substr(s, 2, SizeSub(SizeSub(poss, 0), 3));
    if poss == 2 {
      assert n == s[2..];
    } else {
      assert n == s[2..poss - 1];
    }
  }

  lemma ServerReads(w: string, e: string)
    ensures w + ",p=" <= w + ",p=" + e && (w + ",p=" + e)[|w| + 3..] == e
  {
  }

  /** Whether the proof made with what the client read gives back a key with the hash the server stored. */
  predicate KeysMatch(sha: Sha1, password: string, read: ServerFirst, sent: ServerFirst, auth: string) {
    var stored := StoredKey(sha, password, sent);
    sha(XorBytes(Proof(sha, password, read, auth), Hmac(sha, stored, auth))) == stored
  }

  /** The server's exclusive or undoes the client's: the key itself is recovered. */
  lemma KeyRecovered(sha: Sha1, password: string, p: ServerFirst, auth: string)
    ensures XorBytes(Proof(sha, password, p, auth), Hmac(sha, StoredKey(sha, password, p), auth)) ==
            ClientKey(sha, password, p)
    ensures KeysMatch(sha, password, p, p, auth)
  {
    hide Hmac, Hi, XorBytes;
    XorBytesTwice(ClientKey(sha, password, p), Hmac(sha, StoredKey(sha, password, p), auth));
  }

  /** With the plain header and the right nonce only the keys decide. */
  lemma PlainAccepted(sha: Sha1, password: string, bare: string, first: string, read: ServerFirst, sent: ServerFirst)
    requires read.nonce == sent.nonce
    ensures ServerAccepts(sha, StoredKey(sha, password, sent), "n,,", bare, first, sent.nonce,
                          Final(sha, password, bare, first, read))
            <==> KeysMatch(sha, password, read, sent, AuthMessage(bare, first, WithoutProof(sent.nonce)))
  {
    hide Encoded, Decoded, Hmac, Hi, XorBytes, StoredKey, ClientKey, Proof;
    PlainHeader();
    var w := WithoutProof(sent.nonce);
    var proof := Proof(sha, password, read, AuthMessage(bare, first, w));
    DecodeEncode(proof);
    ServerReads(w, Encoded(proof));
    assert "c=" + "biws" == "c=biws";
  }

  /** With another header or nonce the client is refused. */
  lemma RefusedOtherwise(sha: Sha1, password: string, stored: string, gs2: string, bare: string, first: string,
                nonce: string, read: ServerFirst)
    requires Bytes(gs2) && ',' !in nonce
    requires read.nonce != nonce ==> read.nonce <= nonce || nonce + ",s=" <= read.nonce
    requires gs2 != "n,," || read.nonce != nonce
    ensures !ServerAccepts(sha, stored, gs2, bare, first, nonce, Final(sha, password, bare, first, read))
  {
    hide Encoded, Decoded, Hmac, Hi, XorBytes, StoredKey, ClientKey, Proof;
    var proof := Encoded(Proof(sha, password, read, AuthMessage(bare, first, WithoutProof(read.nonce))));
    if ("c=" + Encoded(gs2) + (",r=" + nonce)) + ",p=" <= ("c=biws" + (",r=" + read.nonce)) + ",p=" + proof {
      EncodedHasNoKey(gs2);
      SameFields(Encoded(gs2), nonce, read.nonce, proof);
      Biws(gs2);
      WrongNonce(nonce, read.nonce, proof);
    }
  }

  /**
   * A server that holds the keys of the same password, for every nonce without commas and every salt and
   * count: it accepts the client's proof if and only if the client's header is the one its answer repeats
   * unseen, n,,, no s= stands in the nonce, and the keys match; and they do whenever the client has read the
   * message as it was meant. Where it has not, only the hash can make them match.
   */
  lemma Agreement(sha: Sha1, password: string, gs2: string, bare: string,
                  nonce: string, salt: string, iterations: nat, extensions: string)
    requires Bytes(gs2) && Bytes(salt) && (extensions == "" || !IsDigit(extensions[0]))
    requires |FirstMessage(nonce, salt, iterations, extensions)| < NPOS && ',' !in nonce
    ensures
      var first, sent := FirstMessage(nonce, salt, iterations, extensions), ServerFirst(nonce, salt, iterations);
      var p := Parsed(first);
      && p.Message?
      && (ServerAccepts(sha, StoredKey(sha, password, sent), gs2, bare, first, nonce,
                        Final(sha, password, bare, first, p.value))
          <==> gs2 == "n,," && NoKey(nonce, 's')
               && KeysMatch(sha, password, p.value, sent, AuthMessage(bare, first, WithoutProof(nonce))))
      && (Recovered(nonce, salt, iterations, extensions) ==>
          KeysMatch(sha, password, p.value, sent, AuthMessage(bare, first, WithoutProof(nonce))))
  {
    hide FirstMessage, NoKey, Parsed, Final, ServerAccepts, KeysMatch, Recovered, AuthMessage, Encoded, StoredKey;
    var first, sent := FirstMessage(nonce, salt, iterations, extensions), ServerFirst(nonce, salt, iterations);
    var stored := StoredKey(sha, password, sent);
    NonceRecovered(nonce, salt, iterations, extensions);
    ParsesFirstMessage(nonce, salt, iterations, extensions);
    var read := Parsed(first).value;
    KeyRecovered(sha, password, sent, AuthMessage(bare, first, WithoutProof(nonce)));
    if !NoKey(nonce, 's') {
      MisreadNonce(nonce, salt, iterations, extensions);
      RefusedOtherwise(sha, password, stored, gs2, bare, first, nonce, read);
    } else if gs2 != "n,," {
      RefusedOtherwise(sha, password, stored, gs2, bare, first, nonce, read);
    } else {
      PlainAccepted(sha, password, bare, first, read, sent);
    }
  }

  lemma Verifier(e: string)
    ensures ("v=" + e)[2..] == e
    ensures Bytes(e) ==> Bytes("v=" + e)
  {
  }

  /** Of the messages that carry some text as their verifier, only that with the expected signature is accepted. */
  lemma SuccessChecked(signature: string, sent: string)
    requires Bytes(sent)
    ensures Bytes("v=" + Encoded(sent))
    ensures Accepts(signature, Encoded("v=" + Encoded(sent))) <==> sent == signature && sent != ""
  {
    hide Encoded, Decoded, Bytes;
    var e := Encoded(sent);
    EncodedBytes(sent);
    Verifier(e);
    DecodeEncode(sent);
    DecodeEncode("v=" + e);
    EncodedLength(sent);
  }

  /** What the server proves its own key with, over the header it was sent. */
  function ServerSignature(sha: Sha1, serverKey: string, gs2: string, bare: string, first: string,
                           nonce: string): string
    requires Bytes(gs2)
  {
    Hmac(sha, serverKey, AuthMessage(bare, first, "c=" + Encoded(gs2) + (",r=" + nonce)))
  }

  /**
   * The client that has read the message as it was meant in turn accepts a verifier if and only if it is the
   * signature of a server that holds the key of the same password, salt and count, and saw the same messages.
   */
  lemma ServerChecked(sha: Sha1, password: string, bare: string,
                      nonce: string, salt: string, iterations: nat, extensions: string, sent: string)
    requires Bytes(salt) && Bytes(sent) && sent != "" && (extensions == "" || !IsDigit(extensions[0]))
    requires |FirstMessage(nonce, salt, iterations, extensions)| < NPOS
    ensures Bytes("v=" + Encoded(sent))
    ensures
      var first := FirstMessage(nonce, salt, iterations, extensions);
      var key := ServerKey(sha, password, ServerFirst(nonce, salt, iterations));
      var p := Parsed(first);
      Recovered(nonce, salt, iterations, extensions) ==>
      && p.Message?
      && (Accepts(Signature(sha, password, bare, first, p.value), Encoded("v=" + Encoded(sent)))
          <==> sent == ServerSignature(sha, key, "n,,", bare, first, nonce))
  {
    hide FirstMessage, Recovered, Parsed, ServerKey, Encoded, Hmac, Decoded, Accepts;
    ParsesFirstMessage(nonce, salt, iterations, extensions);
    var first, p := FirstMessage(nonce, salt, iterations, extensions), ServerFirst(nonce, salt, iterations);
    SuccessChecked(Signature(sha, password, bare, first, p), sent);
    PlainHeader();
    assert "c=" + "biws" == "c=biws";
  }

  // The server reads the first message

  datatype FirstRead = Refused | FirstRead(name: string, nonce: string)

  datatype Saslname = NotAName | Name(value: string)

  /** RFC 5802: in a name, =2C stands for a comma and =3D for an equals sign, which it may not hold themselves. */
  function ReadName(s: string): Saslname {
    if s == "" then Name("")
    else if s[0] == ',' then NotAName
    else if s[0] != '=' then (match ReadName(s[1..]) case NotAName => NotAName case Name(t) => Name([s[0]] + t))
    else if |s| < 3 then NotAName
    else
      match (ReadName(s[3..]), s[1..3])
      case (NotAName, _) => NotAName
      case (Name(t), code) => if code == "2C" then Name("," + t) else if code == "3D" then Name("=" + t) else NotAName
  }

  /** The text up to the first comma. */
  function BeforeComma(s: string): (r: string)
    ensures r <= s
  {
    if s == "" || s[0] == ',' then "" else [s[0]] + BeforeComma(s[1..])
  }

  function ReadFirst(bare: string): FirstRead {
    if !("n=" <= bare) then Refused
    else
      var name := BeforeComma(bare[2..]);
      var rest := bare[2 + |name|..];
      if !(",r=" <= rest) || ReadName(name).NotAName? then Refused else FirstRead(ReadName(name).value, rest[3..])
  }

  lemma {:induction false} CommaEnds(user: string, rest: string)
    ensures |BeforeComma(user + ([','] + rest))| <= |user|
    ensures ',' !in user <==> |BeforeComma(user + ([','] + rest))| == |user|
  {
    if user == "" {
      assert user + ([','] + rest) == [','] + rest;
    } else if user[0] == ',' {
    } else {
      assert (user + ([','] + rest))[1..] == user[1..] + ([','] + rest);
      CommaEnds(user[1..], rest);
    }
  }

  lemma {:induction false} ReadNameShorter(s: string)
    ensures ReadName(s).Name? ==> |ReadName(s).value| <= |s|
    ensures ',' !in s && '=' !in s ==> ReadName(s) == Name(s)
    ensures '=' in s && ReadName(s).Name? ==> |ReadName(s).value| < |s|
  {
    if s == "" {
    } else {
      assert s == [s[0]] + s[1..];
      if s[0] != '=' {
        ReadNameShorter(s[1..]);
      } else if |s| >= 3 {
        ReadNameShorter(s[3..]);
      }
    }
  }

  /**
   * The server reads the name and the nonce the client means if and only if the name holds neither a comma
   * nor an equals sign: the client does not escape them.
   */
  lemma NameRead(user: string, nonce: string)
    ensures ReadFirst("n=" + user + (",r=" + nonce)) == FirstRead(user, nonce) <==> ',' !in user && '=' !in user
  {
    hide ReadName, BeforeComma;
    var bare := "n=" + user + (",r=" + nonce);
    var behind := user + ([','] + ("r=" + nonce));
    assert bare[2..] == behind;
    CommaEnds(user, "r=" + nonce);
    var name := BeforeComma(behind);
    ReadNameShorter(name);
    if ',' !in user {
      assert name == behind[..|name|] == user;
      assert bare[2 + |name|..] == ",r=" + nonce;
    } else {
      assert |bare[2 + |name|..]| > |nonce| + 3;
    }
  }

  /** Neither of the two characters that a name has to escape. */
  predicate Unescaped(s: string) {
    ',' !in s && '=' !in s
  }

  /** The name a user is to be known by, the given identity first, as far as one is short enough. */
  function MeantName(authcid: string, username: string): string {
    if 0 < |authcid| <= 1023 then authcid
    else if |username| <= 1023 then username
    else ""
  }

  /** From what the client sends, the server reads the name and the nonce it means, just if nothing needs escaping. */
  lemma BareRead(authcid: string, username: string, nonce: string)
    ensures
      var name := MeantName(authcid, username);
      ReadFirst(FirstBare(authcid, username, nonce)) == FirstRead(name, nonce) <==> Unescaped(name)
  {
    hide ReadFirst;
    NameRead(MeantName(authcid, username), nonce);
  }

  datatype AuthRead = NoAuth | AuthRead(flag: string, authzid: string, first: FirstRead)

  /** The server splits the GS2 header off: a flag, the identity to act as, if there is one, and the message. */
  function ReadAuth(s: string): AuthRead {
    var flag := BeforeComma(s);
    if |flag| == |s| then NoAuth else ReadIdentity(flag, s[|flag| + 1..])
  }

  function ReadIdentity(flag: string, s: string): AuthRead {
    var a := BeforeComma(s);
    if |a| == |s| || (a != "" && !("a=" <= a)) then NoAuth
    else
      var first := ReadFirst(s[|a| + 1..]);
      if a == "" then AuthRead(flag, "", first)
      else
        match ReadName(a[2..])
        case NotAName => NoAuth
        case Name(z) => AuthRead(flag, z, first)
  }

  lemma IdentityRead(flag: string, zid: string, bare: string, first: FirstRead)
    ensures
      var s := (if zid == "" then "" else "a=" + zid) + ([','] + bare);
      ReadIdentity(flag, s) == AuthRead(flag, zid, first) <==> Unescaped(zid) && ReadFirst(bare) == first
  {
    hide ReadFirst, ReadName, ReadIdentity, Unescaped;
    if zid == "" {
      NoIdentityRead(flag, bare);
      assert Unescaped("") by { NothingUnescaped(); }
    } else {
      SomeIdentityRead(flag, zid, bare, first);
    }
  }

  lemma NothingUnescaped()
    ensures Unescaped("")
  {
  }

  lemma NoIdentityRead(flag: string, bare: string)
    ensures ReadIdentity(flag, "" + ([','] + bare)) == AuthRead(flag, "", ReadFirst(bare))
  {
    hide ReadFirst, BeforeComma;
    var s := "" + ([','] + bare);
    CommaEnds("", bare);
    assert BeforeComma(s) == "" && s[1..] == bare;
  }

  lemma SomeIdentityRead(flag: string, zid: string, bare: string, first: FirstRead)
    requires zid != ""
    ensures
      ReadIdentity(flag, ("a=" + zid) + ([','] + bare)) == AuthRead(flag, zid, first)
      <==> Unescaped(zid) && ReadFirst(bare) == first
  {
    hide ReadFirst, ReadName, BeforeComma;
    var a := "a=" + zid;
    var s := a + ([','] + bare);
    CommaEnds(a, bare);
    var b := BeforeComma(s);
    assert ',' in a <==> ',' in zid;
    if ',' !in a {
      assert b == s[..|a|] == a && s[|a| + 1..] == bare && a[2..] == zid;
      ReadNameShorter(zid);
    } else if "a=" <= b {
      ReadNameShorter(b[2..]);
    }
  }

  /** The identity to act as that is sent, if it can be. */
  function MeantIdentity(authzid: string): string {
    if |authzid| <= 1023 then authzid else ""
  }

  /**
   * What the client sends to start with, decoded: the server reads the flag, the identity to act as and the name
   * and nonce that are meant if and only if nothing in the two names needs escaping.
   */
  lemma StartRead(plusAvailable: bool, authzid: string, authcid: string, username: string, nonce: string)
    ensures
      var zid, name := MeantIdentity(authzid), MeantName(authcid, username);
      ReadAuth(Gs2Header(plusAvailable, authzid) + FirstBare(authcid, username, nonce))
        == AuthRead(if plusAvailable then "n" else "y", zid, FirstRead(name, nonce))
      <==> Unescaped(zid) && Unescaped(name)
  {
    hide ReadIdentity, ReadFirst, BeforeComma, FirstBare, MeantName, Unescaped;
    var zid, bare := MeantIdentity(authzid), FirstBare(authcid, username, nonce);
    var flag := if plusAvailable then "n" else "y";
    var t := (if zid == "" then "" else "a=" + zid) + ([','] + bare);
    var s := Gs2Header(plusAvailable, authzid) + bare;
    BareRead(authcid, username, nonce);
    IdentityRead(flag, zid, bare, FirstRead(MeantName(authcid, username), nonce));
    assert s == flag + ([','] + t);
    CommaEnds(flag, t);
    assert s[..1] == flag && s[2..] == t;
    assert BeforeComma(s) == flag && ReadAuth(s) == ReadIdentity(flag, t);
  }
}
