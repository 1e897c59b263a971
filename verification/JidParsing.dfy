/** JIDs: cutting an address into node, server and resource, and putting it together again. */
module JidParsing {
  import opened CxxString

  datatype Parts = Parts(node: string, server: string, resource: string)

  /** The bare address, node@server. */
  function Bare(p: Parts): string {
    (if p.node != "" then p.node + "@" else "") + p.server
  }

  /** The full address, node@server/resource. */
  function Full(p: Parts): string {
    Bare(p) + if p.resource != "" then "/" + p.resource else ""
  }

  function AtSign(jid: string): (r: Index) {
    Find(jid, "@", 0)
  }

  /** The first slash that does not lie before the at sign. */
  function Slash(jid: string): (r: Index)
    ensures r.Some? && AtSign(jid).Some? ==> AtSign(jid).value < r.value
  {
    var at := AtSign(jid);
    FindFirst(jid, "@", 0);
    FindFirst(jid, "/", if at.Some? then at.value else 0);
    Find(jid, "/", if at.Some? then at.value else 0)
  }

  function NodeText(jid: string): string {
    if AtSign(jid).Some? then jid[..AtSign(jid).value] else ""
  }

  function ServerText(jid: string): string {
    var start := if AtSign(jid).Some? then AtSign(jid).value + 1 else 0;
    if Slash(jid).Some? then jid[start..Slash(jid).value] else jid[start..]
  }

  function ResourceText(jid: string): string {
    if Slash(jid).Some? then jid[Slash(jid).value + 1..] else ""
  }

  /** The three texts an address consists of. */
  function Cut(jid: string): Parts {
    Parts(NodeText(jid), ServerText(jid), ResourceText(jid))
  }

  /** What prep::nodeprep, nameprep and resourceprep refuse when built without libidn. */
  predicate TooLong(s: string) {
    |s| > 1023
  }

  class Jid {
    var username: string
    var server: string
    var serverRaw: string
    var resource: string
    var bare: string
    var full: string
    var valid: bool

    constructor (jid: string)
      requires |jid| < NPOS
      ensures valid <==>
        jid != "" && !TooLong(NodeText(jid)) && !TooLong(ServerText(jid)) && !TooLong(ResourceText(jid))
      ensures valid ==> Parts(username, server, resource) == Cut(jid) && serverRaw == ServerText(jid)
      ensures valid ==> bare == Bare(Cut(jid)) && full == Full(Cut(jid))
      ensures !valid ==> bare == full == resource == ""
      ensures !valid ==> username == if TooLong(NodeText(jid)) then "" else NodeText(jid)
      ensures !valid ==> serverRaw == if TooLong(NodeText(jid)) then "" else ServerText(jid)
      ensures !valid ==> server == if TooLong(NodeText(jid)) || TooLong(ServerText(jid)) then "" else ServerText(jid)
    {
      username, server, serverRaw, resource, bare, full, valid := "", "", "", "", "", "", true;
      new;
      var _ := SetJid(jid);
    }

    /**
     * JID::setJID. A part the address does not have keeps the value it had before, and so do the parts behind
     * one that is too long, and both printed forms then.
     */
    method SetJid(jid: string) returns (ok: bool)
      requires |jid| < NPOS
      modifies this
      ensures ok == valid
      ensures ok <==> jid != "" && !TooLong(NodeText(jid)) && !TooLong(ServerText(jid)) && !TooLong(ResourceText(jid))
      ensures jid == "" ==> username == server == serverRaw == resource == bare == full == ""
      ensures jid != "" ==>
        username == if AtSign(jid).Some? && !TooLong(NodeText(jid)) then NodeText(jid) else old(username)
      ensures jid != "" ==>
        serverRaw == if !TooLong(NodeText(jid)) then ServerText(jid) else old(serverRaw)
      ensures jid != "" ==>
        server == if !TooLong(NodeText(jid)) && !TooLong(ServerText(jid)) then ServerText(jid) else old(server)
      ensures jid != "" ==> resource == if ok && Slash(jid).Some? then ResourceText(jid) else old(resource)
      ensures ok ==> bare == Bare(Parts(username, server, resource)) && full == Full(Parts(username, server, resource))
      ensures !ok && jid != "" ==> bare == old(bare) && full == old(full)
    {
      hide Find, SizeSub;
      if jid == "" {
        bare, full, server, username, serverRaw, resource := "", "", "", "", "", "";
        valid := false;
        return false;
      }
      var at := Position(Find(jid, "@", 0));
      var slash := Position(Find(jid, "/", if at == NPOS then 0 else at));
      if at != NPOS {
        valid, username := Prep(Substr(jid, 0, at), username);
        if !valid {
          return false;
        }
      }
      serverRaw := Substr(jid, if at == NPOS then 0 else at + 1, SizeSub(SizeSub(slash, at), 1));
      ServerSubstr(jid);
      valid, server := Prep(serverRaw, server);
      if !valid {
        return false;
      }
      if slash != NPOS {
        valid, resource := Prep(Substr(jid, slash + 1, NPOS), resource);
        if !valid {
          return false;
        }
      }
      SetBare();
      SetFull();
      return valid;
    }

    /** The prep functions without libidn: the text itself, or the old value if the text is too long. */
    static method Prep(s: string, out: string) returns (ok: bool, prepped: string)
      ensures ok == !TooLong(s) && prepped == if ok then s else out
    {
      if |s| > 1023 {
        return false, out;
      }
      return true, s;
    }

    method SetBare()
      modifies `bare
      ensures bare == Bare(Parts(username, server, resource))
    {
      bare := if username != "" then username + "@" else "";
      bare := bare + server;
    }

    method SetFull()
      modifies `full
      ensures full == bare + if resource != "" then "/" + resource else ""
    {
      full := bare;
      if resource != "" {
        full := full + ("/" + resource);
      }
    }
  }

  /** The wrap-around of slash - at - 1 cuts out the server, whichever of the separators is missing. */
  lemma ServerSubstr(jid: string)
    requires |jid| < NPOS
    ensures
      var at, slash := Position(AtSign(jid)), Position(Slash(jid));
      Substr(jid, if at == NPOS then 0 else at + 1, SizeSub(SizeSub(slash, at), 1)) == ServerText(jid)
  {
    var at, slash := Position(AtSign(jid)), Position(Slash(jid));
    SizeSubValue(slash, at);
    SizeSubValue(SizeSub(slash, at), 1);
    var n := SizeSub(SizeSub(slash, at), 1);
    if at == NPOS {
      assert n == slash;
    } else if slash != NPOS {
      assert n == slash - (at + 1);
    } else {
      assert n == NPOS - at - 1 >= |jid| - (at + 1);
    }
  }

  lemma {:induction false} FindOne(s: string, c: char, from: nat)
    ensures match Find(s, [c], from)
            case None => from <= |s| ==> c !in s[from..]
            case Some(k) => s[k] == c && c !in s[from..k]
    decreases |s| - from
  {
    if from >= |s| || s[from] == c {
    } else {
      FindOne(s, c, from + 1);
    }
  }

  lemma AtChar(s: string, j: nat, c: char)
    requires j < |s|
    ensures At(s, j, [c]) <==> s[j] == c
  {
    assert s[j..j + 1] == [s[j]];
  }

  /** A single character is found at `k` if it is there and nowhere in between. */
  lemma FoundAt(s: string, c: char, from: nat, k: nat)
    requires from <= k < |s| && s[k] == c && c !in s[from..k]
    ensures Find(s, [c], from) == Some(k)
  {
    hide Find, At;
    forall j | from <= j < k
      ensures !At(s, j, [c])
    {
      assert s[j] == s[from..k][j - from];
      AtChar(s, j, c);
    }
    AtChar(s, k, c);
    FindIs(s, [c], from, k);
  }

  /** A character is found where it is or before. */
  lemma NotAfter(s: string, c: char, from: nat, k: nat)
    requires from <= k < |s| && s[k] == c
    ensures Find(s, [c], from).Some? && Find(s, [c], from).value <= k
  {
    hide Find, At;
    AtChar(s, k, c);
    FindFirst(s, [c], from);
  }

  /**
   * Cutting the printed address gives the parts back exactly if no at sign is in the node and no slash in the
   * server, and, where there is no node, no at sign anywhere: setJID looks for the first at sign even behind a
   * slash.
   */
  lemma CutFull(p: Parts)
    ensures Cut(Full(p)) == p <==>
            '@' !in p.node && '/' !in p.server && (p.node != "" || ('@' !in p.server && '@' !in p.resource))
  {
    hide Find, At, Full, Cut;
    var jid := Full(p);
    if p.node == "" {
      CutWithoutNode(p, jid);
    } else {
      CutWithNode(p, jid);
    }
  }

  lemma CutWithNode(p: Parts, jid: string)
    requires p.node != "" && jid == Full(p)
    ensures Cut(jid) == p <==> '@' !in p.node && '/' !in p.server
  {
    hide Find, At, Full;
    var n := |p.node|;
    FullParts(p, jid, n + 1);
    NodeInFront(p, jid);
    if '@' in p.node {
      var k :| 0 <= k < n && p.node[k] == '@';
      NotAfter(jid, '@', 0, k);
    } else {
      FoundAt(jid, '@', 0, n);
      if '/' in p.server {
        SlashInServer(p, jid, n, n + 1);
      } else {
        SlashBehind(p, jid, n, n + 1);
      }
    }
  }

  lemma NodeInFront(p: Parts, jid: string)
    requires p.node != "" && jid == Full(p)
    ensures |jid| > |p.node| && jid[0..|p.node|] == p.node && jid[|p.node|] == '@'
    ensures forall k | 0 <= k < |p.node| :: jid[k] == p.node[k]
  {
  }

  /** A slash in the server ends it too early. */
  lemma SlashInServer(p: Parts, jid: string, from: nat, n: nat)
    requires jid == Full(p) && '/' in p.server
    requires n == if p.node != "" then |p.node| + 1 else 0
    requires from == if n > 0 then n - 1 else 0
    ensures Find(jid, "/", from).Some? && Find(jid, "/", from).value < n + |p.server|
  {
    hide Find, At, Full;
    FullParts(p, jid, n);
    var k :| 0 <= k < |p.server| && p.server[k] == '/';
    assert jid[n..n + |p.server|][k] == jid[n + k] == '/';
    NotAfter(jid, '/', from, n + k);
  }

  lemma CutWithoutNode(p: Parts, jid: string)
    requires p.node == "" && jid == Full(p)
    ensures Cut(jid) == p <==> '/' !in p.server && '@' !in p.server && '@' !in p.resource
  {
    hide Find, At, Full;
    FullParts(p, jid, 0);
    FindOne(jid, '@', 0);
    NoNode(p, jid);
    if '@' in p.server || '@' in p.resource {
      assert AtSign(jid).Some?;
      AtFirst(p, jid);
    } else if '/' in p.server {
      SlashInServer(p, jid, 0, 0);
    } else {
      SlashBehind(p, jid, 0, 0);
    }
  }

  lemma NoNode(p: Parts, jid: string)
    requires p.node == "" && jid == Full(p)
    ensures '@' in jid[0..] <==> '@' in p.server || '@' in p.resource
  {
    var r := if p.resource != "" then "/" + p.resource else "";
    assert jid == p.server + r && jid[0..] == jid;
    assert '@' in r <==> '@' in p.resource;
  }

  /** With an at sign and no node, what stands before it is read as a node, or the server is read without it. */
  lemma AtFirst(p: Parts, jid: string)
    requires p.node == "" && jid == Full(p) && AtSign(jid).Some?
    ensures Cut(jid) != p
  {
    hide Find, At, Full;
    FullParts(p, jid, 0);
    FindOne(jid, '@', 0);
    if AtSign(jid).value == 0 {
      FirstIsServer(p, jid);
      if '/' in p.server {
        SlashInServer(p, jid, 0, 0);
      } else {
        SlashBehind(p, jid, 0, 0);
      }
    }
  }

  lemma FirstIsServer(p: Parts, jid: string)
    requires p.node == "" && jid == Full(p) && jid != "" && jid[0] == '@'
    ensures p.server != "" && p.server[0] == '@'
  {
  }

  /** Where the parts are in the printed address. */
  lemma FullParts(p: Parts, jid: string, n: nat)
    requires jid == Full(p) && n == if p.node != "" then |p.node| + 1 else 0
    ensures n + |p.server| <= |jid| && jid[n..n + |p.server|] == p.server
    ensures n > 0 ==> jid[n - 1] == '@'
    ensures if p.resource == "" then |jid| == n + |p.server|
            else |jid| > n + |p.server| && jid[n + |p.server|] == '/' && jid[n + |p.server| + 1..] == p.resource
  {
  }

  lemma SlashBehind(p: Parts, jid: string, from: nat, n: nat)
    requires jid == Full(p) && '/' !in p.server
    requires n == if p.node != "" then |p.node| + 1 else 0
    requires from == if n > 0 then n - 1 else 0
    ensures n + |p.server| <= |jid|
    ensures Find(jid, "/", from) == if p.resource != "" then Some(n + |p.server|) else None
    ensures jid[n..n + |p.server|] == p.server
    ensures p.resource != "" ==> jid[n + |p.server| + 1..] == p.resource
    ensures p.resource == "" ==> jid[n..] == p.server
  {
    hide Find, At, Full;
    FullParts(p, jid, n);
    var end := n + |p.server|;
    NoSlash(jid, p.server, from, n, end);
    if p.resource != "" {
      FoundAt(jid, '/', from, end);
    } else {
      assert jid[from..] == jid[from..end] && jid[n..] == jid[n..end];
      FindOne(jid, '/', from);
    }
  }

  lemma NoSlash(jid: string, server: string, from: nat, n: nat, end: nat)
    requires from <= n <= end <= |jid| && jid[n..end] == server && '/' !in server
    requires from == if n > 0 then n - 1 else 0
    requires n > 0 ==> jid[n - 1] == '@'
    ensures '/' !in jid[from..end]
  {
    forall k | from <= k < end
      ensures jid[k] != '/'
    {
      if k >= n {
        assert jid[k] == server[k - n];
      }
    }
  }

  /** Printing the parts gives the address back exactly if no separator stands before or after nothing. */
  lemma FullCut(jid: string)
    ensures Full(Cut(jid)) == jid <==>
            AtSign(jid) != Some(0) && !(Slash(jid).Some? && Slash(jid).value == |jid| - 1)
  {
    var p, n := Cut(jid), if Slash(jid).Some? then Slash(jid).value else |jid|;
    BareCut(jid, n);
    if Slash(jid).Some? {
      SlashSplits(jid, n);
      assert |Full(p)| == |Bare(p)| + if n == |jid| - 1 then 0 else 1 + |p.resource|;
    } else {
      assert jid[..n] == jid;
    }
  }

  lemma BareCut(jid: string, n: nat)
    requires n == if Slash(jid).Some? then Slash(jid).value else |jid|
    ensures AtSign(jid) != Some(0) ==> Bare(Cut(jid)) == jid[..n]
    ensures AtSign(jid) == Some(0) ==> |Bare(Cut(jid))| == n - 1
  {
    FindOne(jid, '@', 0);
    if AtSign(jid).Some? {
      var at := AtSign(jid).value;
      assert jid[..n] == jid[..at] + "@" + jid[at + 1..n];
    }
  }

  lemma SlashSplits(jid: string, n: nat)
    requires Slash(jid) == Some(n)
    ensures n < |jid| && jid == jid[..n] + ("/" + jid[n + 1..])
  {
    FindOne(jid, '/', if AtSign(jid).Some? then AtSign(jid).value else 0);
  }

  /** On an object used before, setJID gives a fresh object's address exactly if nothing old shines through. */
  lemma StaleParts(jid: string, username: string, resource: string)
    ensures
      var p := Parts(if AtSign(jid).Some? then NodeText(jid) else username, ServerText(jid),
                     if Slash(jid).Some? then ResourceText(jid) else resource);
      Full(p) == Full(Cut(jid)) <==> (AtSign(jid).Some? || username == "") && (Slash(jid).Some? || resource == "")
  {
    var p := Parts(if AtSign(jid).Some? then NodeText(jid) else username, ServerText(jid),
                   if Slash(jid).Some? then ResourceText(jid) else resource);
    assert |Full(p)| >= |Full(Cut(jid))|;
  }
}
