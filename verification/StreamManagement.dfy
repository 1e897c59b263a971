/**
 * Stream Management (XEP-0198), client side: the numbered retransmission queue, the counter of handled
 * stanzas and the context they depend on.
 */
module StreamManagement {

  /** A stanza is its XML text. */
  type Stanza = string

  /** SMContext, in the order of its declaration: the order is what the tests below compare by. */
  datatype Context = Invalid | Failed | Enable | Resume | Enabled | Resumed

  function Rank(ctx: Context): nat {
    match ctx
    case Invalid => 0 case Failed => 1 case Enable => 2 case Resume => 3 case Enabled => 4 case Resumed => 5
  }

  predicate Active(ctx: Context) {
    Rank(ctx) >= Rank(Enabled)
  }

  /** What travels on the stream: stanzas and the elements of Stream Management. */
  datatype Node =
    | EnableRequest(resume: bool)
    | EnabledReply(id: string, mayResume: string)
    | ResumeRequest(h: int, previd: string)
    | ResumedReply(h: int, previd: string)
    | FailedReply
    | Ack(h: int)
    | AckRequest
    | StanzaNode(stanza: Stanza)

  /** The fields of the client, with what it wrote to its connection and handed to its handlers. */
  datatype ClientState = ClientState(
    ctx: Context, wanted: bool, resume: bool, id: string, sent: nat, handled: int, queue: map<int, Stanza>,
    connected: bool, wire: seq<Node>, delivered: seq<Stanza>)

  // The queue as the ordered map it is

  lemma SomeElement<T>(s: set<T>) returns (x: T)
    requires s != {}
    ensures x in s
  {
    x :| x in s;
  }

  predicate IsLeast(s: set<int>, k: int) {
    k in s && forall j | j in s :: k <= j
  }

  lemma {:induction false} HasLeast(s: set<int>, k: int)
    requires k in s
    ensures exists l :: IsLeast(s, l)
    decreases |set j | j in s && j < k|
  {
    var low := set j | j in s && j < k;
    if low == {} {
      assert forall j | j in s :: j < k ==> j in low;
      assert IsLeast(s, k);
    } else {
      var j := SomeElement(low);
      var lower := set i | i in s && i < j;
      assert low == lower + (low - lower) && j in low - lower;
      HasLeast(s, j);
    }
  }

  lemma SomeLeast(s: set<int>)
    requires s != {}
    ensures exists l :: IsLeast(s, l)
  {
    var k := SomeElement(s);
    HasLeast(s, k);
  }

  /** The key an iterator over a map with these keys comes to first. */
  function Least(s: set<int>): (k: int)
    requires s != {}
    ensures IsLeast(s, k)
  {
    SomeLeast(s);
    var k :| IsLeast(s, k);
    k
  }

  function Above(s: set<int>, h: int): set<int> {
    set k | k in s && k > h
  }

  /** The values of these keys, in the order an iterator comes to them. */
  function Values(m: map<int, Stanza>, s: set<int>): seq<Stanza>
    requires s <= m.Keys
    decreases |s|
  {
    if s == {} then [] else [m[Least(s)]] + Values(m, s - {Least(s)})
  }

  function AsNodes(xs: seq<Stanza>): (r: seq<Node>)
    ensures |r| == |xs|
  {
    seq(|xs|, i requires 0 <= i < |xs| => StanzaNode(xs[i]))
  }

  lemma NodesCons(x: Stanza, xs: seq<Stanza>)
    ensures AsNodes([x] + xs) == [StanzaNode(x)] + AsNodes(xs)
  {
  }

  /** The queue while the iterator has the keys of `rest` still before it. */
  function Kept(m: map<int, Stanza>, h: int, rest: set<int>): map<int, Stanza> {
    map k | k in m && (k > h || k in rest) :: m[k]
  }

  /** What the pass has still to write. */
  function Pending(m: map<int, Stanza>, h: int, rest: set<int>): seq<Node>
    requires rest <= m.Keys
  {
    AsNodes(Values(m, Above(rest, h)))
  }

  lemma Assoc<T>(a: seq<T>, b: seq<T>, c: seq<T>)
    ensures a + (b + c) == (a + b) + c
  {
  }

  lemma KeptStep(m: map<int, Stanza>, h: int, rest: set<int>, it: int)
    requires it in rest && rest <= m.Keys
    ensures it in Kept(m, h, rest) && Kept(m, h, rest)[it] == m[it]
    ensures Kept(m, h, rest - {it}) == if it <= h then Kept(m, h, rest) - {it} else Kept(m, h, rest)
  {
  }

  lemma PendingStep(m: map<int, Stanza>, h: int, rest: set<int>, it: int)
    requires rest != {} && rest <= m.Keys && it == Least(rest)
    ensures Pending(m, h, rest) ==
            if it <= h then Pending(m, h, rest - {it}) else [StanzaNode(m[it])] + Pending(m, h, rest - {it})
  {
    hide Least, AsNodes;
    AboveStep(rest, h, it);
    if it > h {
      NodesCons(m[it], Values(m, Above(rest - {it}, h)));
    }
  }

  lemma AboveStep(rest: set<int>, h: int, it: int)
    requires rest != {} && it == Least(rest)
    ensures it <= h ==> Above(rest, h) == Above(rest - {it}, h)
    ensures it > h ==> Above(rest, h) != {} && Least(Above(rest, h)) == it
    ensures it > h ==> Above(rest, h) - {it} == Above(rest - {it}, h)
  {
    hide Least;
    if it > h {
      assert it in Above(rest, h);
      assert Least(Above(rest, h)) <= it;
    }
  }

  lemma PassEnds(m: map<int, Stanza>, h: int)
    ensures Kept(m, h, m.Keys) == m && Kept(m, h, {}) == map k | k in m && k > h :: m[k]
    ensures Pending(m, h, {}) == []
  {
    assert Above({}, h) == {};
  }

  // What each operation makes of the state

  /** send( const std::string& ): nothing is written unless the connection is up. */
  function Written(c: ClientState, nodes: seq<Node>): ClientState {
    if c.connected then c.(wire := c.wire + nodes) else c
  }

  /** std::map::insert: a key that is there already keeps its value. */
  function Inserted(m: map<int, Stanza>, k: int, x: Stanza): map<int, Stanza> {
    if k in m then m else m[k := x]
  }

  function AfterSend(c: ClientState, x: Stanza): ClientState {
    var w := Written(c, [StanzaNode(x)]);
    if Active(c.ctx) then w.(sent := c.sent + 1, queue := Inserted(c.queue, c.sent + 1, x)) else w
  }

  function AfterSends(c: ClientState, xs: seq<Stanza>): ClientState
    decreases |xs|
  {
    if xs == [] then c else AfterSends(AfterSend(c, xs[0]), xs[1..])
  }

  /** The acknowledged stanzas leave the queue; on a resend the others are written again, in order. */
  function AfterCheck(c: ClientState, h: int, resend: bool): ClientState {
    if !Active(c.ctx) || h < 0 then c
    else
      Written(c.(queue := map k | k in c.queue && k > h :: c.queue[k]),
              if resend then AsNodes(Values(c.queue, Above(c.queue.Keys, h))) else [])
  }

  function AfterStreamManagement(c: ClientState): ClientState {
    if !c.wanted then c
    else match c.ctx
      case Invalid => Written(c, [EnableRequest(c.resume)]).(ctx := Enable, handled := 0)
      case Enabled => Written(c, [ResumeRequest(c.handled, c.id)]).(ctx := Resume)
      case _ => c
  }

  /** The application turns Stream Management on or off; `bound` says whether a resource is bound. */
  function AfterSetting(c: ClientState, enable: bool, resume: bool, bound: bool): ClientState {
    if !enable then c.(wanted := false, resume := false, id := "")
    else
      var d := c.(wanted := true, resume := resume);
      if bound then AfterStreamManagement(d) else d
  }

  function AfterAckRequest(c: ClientState): ClientState {
    if Active(c.ctx) then Written(c, [Ack(c.handled)]) else c
  }

  predicate MayResume(id: string, attribute: string) {
    (attribute == "true" || attribute == "1") && id != ""
  }

  /** A received node; `replies` is what the application sends from inside its onConnect handler. */
  function AfterNode(c: ClientState, n: Node, replies: seq<Stanza>): ClientState {
    match n
    case EnabledReply(id, mayResume) => c.(ctx := Enabled, id := id, resume := MayResume(id, mayResume))
    case ResumedReply(h, previd) =>
      if c.ctx == Resume && previd == c.id then AfterCheck(AfterSends(c.(ctx := Resumed), replies), h, true) else c
    case FailedReply => c.(ctx := Failed)
    case Ack(h) => AfterCheck(c, h, false)
    case AckRequest => AfterAckRequest(c)
    case StanzaNode(x) =>
      c.(delivered := c.delivered + [x], handled := if Active(c.ctx) then c.handled + 1 else c.handled)
    case _ => c
  }

  class Client {
    var smContext: Context
    var smWanted: bool
    var smResume: bool
    var smId: string
    var smSent: nat
    var smHandled: int
    var smQueue: map<int, Stanza>
    var connected: bool
    var wire: seq<Node>
    var delivered: seq<Stanza>

    function State(): ClientState
      reads this
    {
      ClientState(smContext, smWanted, smResume, smId, smSent, smHandled, smQueue, connected, wire, delivered)
    }

    /** An object whose stream is up and has its resource bound, before Stream Management. */
    constructor ()
      ensures State() == ClientState(Invalid, false, false, "", 0, 0, map[], true, [], [])
    {
      smContext, smWanted, smResume, smId, smSent, smHandled, smQueue := Invalid, false, false, "", 0, 0, map[];
      connected, wire, delivered := true, [], [];
    }

    method Write(n: Node)
      modifies `wire
      ensures State() == Written(old(State()), [n])
    {
      if connected {
        wire := wire + [n];
      }
    }

    /** ClientBase::send( Tag*, bool, bool ) for a stanza. */
    method SendTag(x: Stanza, queue: bool)
      modifies `wire, `smSent, `smQueue
      ensures State() == if queue then AfterSend(old(State()), x) else Written(old(State()), [StanzaNode(x)])
    {
      Write(StanzaNode(x));
      if queue && Rank(smContext) >= Rank(Enabled) {
        smSent := smSent + 1;
        if smSent !in smQueue {
          smQueue := smQueue[smSent := x];
        }
      }
    }

    /** ClientBase::checkQueue: one pass over the ordered map, erasing behind the iterator. */
    method CheckQueue(handled: int, resend: bool)
      modifies `wire, `smSent, `smQueue
      ensures State() == AfterCheck(old(State()), handled, resend)
    {
      hide Least, Values, AsNodes, Kept, Pending, AfterSend, Inserted;
      if Rank(smContext) < Rank(Enabled) || handled < 0 {
        return;
      }
      ghost var q, goal := smQueue, if resend then wire + AfterResend(State(), handled) else wire;
      PassEnds(q, handled);
      Resent(State(), handled);
      var rest := smQueue.Keys; // the keys from the iterator on
      while rest != {}
        invariant rest <= q.Keys && smQueue == Kept(q, handled, rest)
        invariant smSent == old(smSent)
        invariant connected && resend ==> wire + Pending(q, handled, rest) == goal
        invariant !(connected && resend) ==> wire == old(wire)
        decreases |rest|
      {
        var it := Least(rest);
        KeptStep(q, handled, rest, it);
        PendingStep(q, handled, rest, it);
        Assoc(wire, [StanzaNode(q[it])], Pending(q, handled, rest - {it}));
        if it <= handled {
          smQueue := smQueue - {it};
        } else if resend && it > handled {
          SendTag(smQueue[it], false);
        }
        rest := rest - {it};
      }
      assert wire + [] == wire;
    }

    /** ClientBase::sendQueue: the stanzas that were sent but not acknowledged, oldest first. */
    method SendQueue() returns (l: seq<Stanza>)
      ensures l == Values(smQueue, smQueue.Keys)
    {
      hide Least;
      l := [];
      var rest := smQueue.Keys;
      while rest != {}
        invariant rest <= smQueue.Keys
        invariant l + Values(smQueue, rest) == Values(smQueue, smQueue.Keys)
        decreases |rest|
      {
        var it := Least(rest);
        Assoc(l, [smQueue[it]], Values(smQueue, rest - {it}));
        l := l + [smQueue[it]];
        rest := rest - {it};
      }
    }

    /** Client::setStreamManagement. */
    method SetStreamManagement(enable: bool, resume: bool, bound: bool)
      modifies this
      ensures State() == AfterSetting(old(State()), enable, resume, bound)
    {
      smWanted, smResume := enable, resume;
      if !smWanted {
        smId, smResume := "", false;
        return;
      }
      if smWanted && bound {
        SendStreamManagement();
      }
    }

    /** Client::sendStreamManagement. */
    method SendStreamManagement()
      modifies this
      ensures State() == AfterStreamManagement(old(State()))
    {
      if !smWanted {
        return;
      }
      if smContext == Invalid {
        Write(EnableRequest(smResume));
        smContext := Enable;
        smHandled := 0;
      } else if smContext == Enabled {
        Write(ResumeRequest(smHandled, smId));
        smContext := Resume;
      }
    }

    /** Client::ackStreamManagement. */
    method AckStreamManagement()
      modifies this
      ensures State() == AfterAckRequest(old(State()))
    {
      if Rank(smContext) >= Rank(Enabled) {
        Write(Ack(smHandled));
      }
    }

    /** Client::connected on a resumed stream: the application's onConnect handler runs, and may send. */
    method Connected(replies: seq<Stanza>)
      modifies this
      ensures State() == AfterSends(old(State()), replies)
    {
      var i := 0;
      while i < |replies|
        invariant 0 <= i <= |replies|
        invariant AfterSends(State(), replies[i..]) == AfterSends(old(State()), replies)
      {
        SendTag(replies[i], true);
        i := i + 1;
      }
    }

    /** Client::handleNormalNode and, for stanzas, ClientBase::handleTag. */
    method HandleNode(n: Node, replies: seq<Stanza>)
      modifies this
      ensures State() == AfterNode(old(State()), n, replies)
    {
      match n
      case EnabledReply(id, mayResume) =>
        smContext := Enabled;
        smId := id;
        smResume := MayResume(id, mayResume);
      case ResumedReply(h, previd) =>
        if smContext == Resume {
          if previd == smId {
            smContext := Resumed;
            Connected(replies);
            CheckQueue(h, true);
          }
        }
      case Ack(h) =>
        if Rank(smContext) >= Rank(Enabled) {
          CheckQueue(h, false);
        }
      case AckRequest =>
        AckStreamManagement();
      case FailedReply =>
        smContext := Failed;
      case StanzaNode(x) =>
        delivered := delivered + [x];
        if Rank(smContext) >= Rank(Enabled) {
          smHandled := smHandled + 1;
        }
      case _ =>
    }

    /** ClientBase::handleDisconnect: the link is lost; the queue and the counters stay. */
    method HandleDisconnect()
      modifies this
      ensures State() == old(State()).(connected := false, wire := [])
    {
      connected, wire := false, [];
    }

    /** A new stream is up and authenticated, and in a context that is not active a resource is bound again. */
    method HandleReconnect()
      modifies this
      ensures State() == AfterStreamManagement(old(State()).(connected := true))
    {
      connected := true;
      SendStreamManagement();
    }
  }

  /** What a resend writes. */
  function AfterResend(c: ClientState, h: int): seq<Node> {
    AsNodes(Values(c.queue, Above(c.queue.Keys, h)))
  }

  lemma Resent(c: ClientState, h: int)
    ensures Pending(c.queue, h, c.queue.Keys) == AfterResend(c, h)
  {
  }

  // The algebra of acknowledgements

  /** Two acknowledgements amount to the higher one, in either order. */
  lemma ChecksCombine(c: ClientState, a: int, b: int)
    requires a >= 0 && b >= 0
    ensures AfterCheck(AfterCheck(c, a, false), b, false) == AfterCheck(c, if a > b then a else b, false)
  {
    hide Values, AsNodes;
    if Active(c.ctx) {
      var m := if a > b then a else b;
      assert AfterCheck(AfterCheck(c, a, false), b, false).queue == AfterCheck(c, m, false).queue;
      assert Written(c, []) == c;
      assert c.wire + [] + [] == c.wire;
    }
  }

  /** An acknowledgement changes nothing if and only if no queued stanza has its number or a lower one. */
  lemma StaleCheck(c: ClientState, h: int)
    requires Active(c.ctx) && h >= 0
    ensures AfterCheck(c, h, false) == c <==> forall k | k in c.queue :: k > h
  {
    hide Values, AsNodes;
    assert c.wire + [] == c.wire;
    if forall k | k in c.queue :: k > h {
      assert AfterCheck(c, h, false).queue == c.queue;
    } else {
      var k :| k in c.queue && k <= h;
      assert k !in AfterCheck(c, h, false).queue;
    }
  }
}
