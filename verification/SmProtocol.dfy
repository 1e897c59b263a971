/**
 * Stream Management between the client and a server that follows XEP-0198, over links that keep order
 * but can be cut: what every run keeps.
 */
module SmProtocol {
  import opened StreamManagement

  /** The server's session: what it handled, everything it sent since it was enabled, its link to the client. */
  datatype Server = Server(
    enabled: bool, attached: bool, handled: seq<Stanza>, sent: seq<Stanza>, wire: seq<Node>)

  const SESSION := "id"
  const ENABLED := EnabledReply(SESSION, "true")

  /**
   * Both ends, with two records for the properties: the stanzas the application sent since the stream
   * was enabled, and the highest acknowledgement the client has seen.
   */
  datatype System = System(c: ClientState, s: Server, appSent: seq<Stanza>, acked: nat)

  datatype Step =
    | Bound                        // the resource is bound, or the stream is up again
    | AppSend(x: Stanza)           // the application sends, online or while the link is down
    | ClientAck                    // the application volunteers an acknowledgement
    | ClientReads(replies: seq<Stanza>)
    | ServerReads
    | ServerRefuses                // the server answers a resume request with failed
    | ServerSends(x: Stanza)
    | ServerAcks
    | ServerAsks
    | LinkLoss

  const Start :=
    System(ClientState(Invalid, true, true, "", 0, 0, map[], true, [], []), Server(false, false, [], [], []), [], 0)

  /**
   * A session may be resumed once, and not after a link lost while it is being resumed: no branch of
   * sendStreamManagement leads on from CtxSMResumed or CtxSMResume.
   */
  predicate Allowed(y: System, step: Step) {
    match step
    case Bound => (y.c.ctx == Invalid && y.c.connected) || (y.c.ctx == Enabled && !y.c.connected)
    case AppSend(_) => Active(y.c.ctx)
    case ClientAck => true
    case ClientReads(replies) => y.c.connected && y.s.wire != [] && replies == []
    case ServerReads => y.c.connected && y.c.wire != []
    case ServerRefuses => y.c.connected && y.c.wire != [] && y.c.wire[0].ResumeRequest?
    case ServerSends(_) => y.s.enabled
    case ServerAcks => y.s.attached
    case ServerAsks => y.s.attached
    case LinkLoss => y.c.connected
  }

  // The server's side

  function Answered(s: Server, nodes: seq<Node>): Server {
    s.(wire := s.wire + nodes)
  }

  /** On a resume request the server says what it handled and sends everything after `h` again. */
  function ServerOn(s: Server, n: Node): Server {
    match n
    case EnableRequest(_) => Answered(s.(enabled := true, attached := true), [ENABLED])
    case ResumeRequest(h, previd) =>
      if previd == SESSION && 0 <= h <= |s.sent|
      then Answered(s.(attached := true), [ResumedReply(|s.handled|, previd)] + AsNodes(s.sent[h..]))
      else Answered(s, [FailedReply])
    case AckRequest => Answered(s, [Ack(|s.handled|)])
    case StanzaNode(x) => s.(handled := s.handled + [x])
    case _ => s
  }

  /** The number an acknowledging node carries, once the client takes notice of it. */
  function Acked(y: System, n: Node): nat {
    match n
    case Ack(h) => if Active(y.c.ctx) && h > y.acked then h else y.acked
    case ResumedReply(h, previd) => if y.c.ctx == Resume && previd == y.c.id && h > y.acked then h else y.acked
    case _ => y.acked
  }

  /** What a step does, whether or not it is allowed. */
  function After(y: System, step: Step): System {
    match step
    case Bound => y.(c := AfterStreamManagement(y.c.(connected := true)))
    case AppSend(x) => y.(c := AfterSend(y.c, x), appSent := y.appSent + [x])
    case ClientAck => y.(c := AfterAckRequest(y.c))
    case ClientReads(replies) =>
      if y.s.wire == [] then y else
      var n := y.s.wire[0];
      y.(c := AfterNode(y.c, n, replies), s := y.s.(wire := y.s.wire[1..]), acked := Acked(y, n))
    case ServerReads =>
      if y.c.wire == [] then y else
      y.(c := y.c.(wire := y.c.wire[1..]), s := ServerOn(y.s, y.c.wire[0]))
    case ServerRefuses =>
      if y.c.wire == [] then y else
      y.(c := y.c.(wire := y.c.wire[1..]), s := Answered(y.s, [FailedReply]))
    case ServerSends(x) =>
      y.(s := y.s.(sent := y.s.sent + [x], wire := if y.s.attached then y.s.wire + [StanzaNode(x)] else y.s.wire))
    case ServerAcks => y.(s := Answered(y.s, [Ack(|y.s.handled|)]))
    case ServerAsks => y.(s := Answered(y.s, [AckRequest]))
    case LinkLoss => y.(c := y.c.(connected := false, wire := []), s := y.s.(attached := false, wire := []))
  }

  /** A run: steps that are not allowed do not happen. */
  function Run(y: System, steps: seq<Step>): System
    decreases |steps|
  {
    if steps == [] then y
    else Run(if Allowed(y, steps[0]) then After(y, steps[0]) else y, steps[1..])
  }

  // Reading a link

  function Stanzas(w: seq<Node>): seq<Stanza> {
    if w == [] then []
    else (if w[0].StanzaNode? then [w[0].stanza] else []) + Stanzas(w[1..])
  }

  /** No node of the link starts, resumes or refuses a session; no acknowledgement is above `n`. */
  predicate Plain(w: seq<Node>, n: nat) {
    forall i | 0 <= i < |w| ::
      w[i].StanzaNode? || w[i].AckRequest? || (w[i].Ack? && 0 <= w[i].h <= n)
  }

  lemma {:induction false} StanzasAppend(v: seq<Node>, w: seq<Node>)
    ensures Stanzas(v + w) == Stanzas(v) + Stanzas(w)
  {
    if v == [] {
      assert v + w == w;
    } else {
      assert (v + w)[1..] == v[1..] + w;
      StanzasAppend(v[1..], w);
    }
  }

  lemma {:induction false} StanzasOfNodes(xs: seq<Stanza>)
    ensures Stanzas(AsNodes(xs)) == xs
  {
    if xs == [] {
    } else {
      assert AsNodes(xs)[1..] == AsNodes(xs[1..]);
      StanzasOfNodes(xs[1..]);
    }
  }

  // The invariant

  /** The queue holds the sent stanzas above the highest acknowledgement, each under its number. */
  ghost predicate QueueShape(c: ClientState, appSent: seq<Stanza>, acked: nat) {
    && c.sent == |appSent|
    && acked <= |appSent|
    && Numbered(c.queue, appSent, acked)
  }

  ghost predicate Numbered(queue: map<int, Stanza>, appSent: seq<Stanza>, acked: nat) {
    && (forall k :: k in queue <==> acked < k <= |appSent|)
    && forall k | k in queue :: queue[k] == appSent[k - 1]
  }

  /** Neither side ever handles a stanza twice, out of order or without its predecessors. */
  predicate Prefixes(y: System) {
    && y.s.handled <= y.appSent
    && y.acked <= |y.s.handled|
    && y.c.delivered <= y.s.sent
    && y.c.handled == |y.c.delivered|
  }

  predicate Untouched(y: System) {
    y.appSent == [] && y.s.handled == [] && y.c.delivered == []
  }

  /** What the two links hold, in each phase of the session. */
  predicate Links(y: System)
    requires Prefixes(y)
  {
    var c, s := y.c, y.s;
    if !c.connected then
      c.wire == [] && s.wire == [] && !s.attached && (c.ctx in {Invalid, Enable} ==> Untouched(y))
    else match c.ctx
      case Invalid => c.wire == [] && s.wire == [] && !s.attached && !s.enabled && s.sent == [] && Untouched(y)
      case Enable =>
        && Untouched(y)
        && if !s.enabled then c.wire == [EnableRequest(true)] && s.wire == [] && !s.attached && s.sent == []
           else c.wire == [] && s.attached && Greeted(s.wire, ENABLED, 0, s.sent)
      case Resume =>
        || (c.wire == [ResumeRequest(c.handled, SESSION)] && s.wire == [] && !s.attached)
        || (c.wire == [] && s.wire == [FailedReply] && !s.attached)
        || (c.wire == [] && s.attached
            && Greeted(s.wire, ResumedReply(|s.handled|, SESSION), |s.handled|, s.sent[|c.delivered|..]))
      case Failed => c.wire == [] && s.wire == [] && !s.attached
      case _ =>
        && s.attached && s.enabled
        && Plain(c.wire, |s.sent|) && Stanzas(c.wire) == y.appSent[|s.handled|..]
        && Plain(s.wire, |s.handled|) && Stanzas(s.wire) == s.sent[|c.delivered|..]
  }

  /** The link starts with the greeting; the stanzas behind it are the given ones. */
  predicate Greeted(w: seq<Node>, greeting: Node, n: nat, xs: seq<Stanza>) {
    w != [] && w[0] == greeting && Plain(w[1..], n) && Stanzas(w[1..]) == xs
  }

  ghost predicate Inv(y: System) {
    && QueueShape(y.c, y.appSent, y.acked)
    && Prefixes(y)
    && Links(y)
    && y.c.wanted && (y.c.ctx == Invalid ==> y.c.resume)
    && (y.c.ctx in {Enabled, Resumed, Resume} ==> y.c.id == SESSION && y.s.enabled)
  }

  // The queue

  lemma QueueAfterSend(c: ClientState, x: Stanza, appSent: seq<Stanza>, acked: nat)
    requires Active(c.ctx) && QueueShape(c, appSent, acked)
    ensures QueueShape(AfterSend(c, x), appSent + [x], acked)
  {
  }

  lemma QueueAfterCheck(c: ClientState, h: int, resend: bool, appSent: seq<Stanza>, acked: nat)
    requires Active(c.ctx) && 0 <= h <= |appSent| && QueueShape(c, appSent, acked)
    ensures QueueShape(AfterCheck(c, h, resend), appSent, if h > acked then h else acked)
  {
    hide Values, AsNodes;
  }

  /** A resend writes exactly the stanzas above the acknowledged number, oldest first. */
  lemma {:induction false} ValuesOfQueue(queue: map<int, Stanza>, appSent: seq<Stanza>, acked: nat, lo: nat)
    requires Numbered(queue, appSent, acked) && acked <= lo <= |appSent|
    ensures Values(queue, Above(queue.Keys, lo)) == appSent[lo..]
    decreases |appSent| - lo
  {
    hide Least;
    var keys := Above(queue.Keys, lo);
    if lo < |appSent| {
      assert lo + 1 in keys;
      assert Least(keys) == lo + 1;
      assert keys - {lo + 1} == Above(queue.Keys, lo + 1);
      ValuesOfQueue(queue, appSent, acked, lo + 1);
      assert appSent[lo..] == [appSent[lo]] + appSent[lo + 1..];
    } else {
      assert keys == {};
    }
  }

  // Every step keeps the invariant

  lemma AppendPlain(w: seq<Node>, nodes: seq<Node>, n: nat)
    requires Plain(w, n) && Plain(nodes, n)
    ensures Plain(w + nodes, n) && Stanzas(w + nodes) == Stanzas(w) + Stanzas(nodes)
  {
    StanzasAppend(w, nodes);
  }

  lemma AppendGreeted(w: seq<Node>, greeting: Node, n: nat, xs: seq<Stanza>, nodes: seq<Node>)
    requires Greeted(w, greeting, n, xs) && Plain(nodes, n)
    ensures Greeted(w + nodes, greeting, n, xs + Stanzas(nodes))
  {
    assert (w + nodes)[1..] == w[1..] + nodes;
    AppendPlain(w[1..], nodes, n);
  }

  lemma KeptByBound(y: System)
    requires Inv(y) && Allowed(y, Bound)
    ensures Inv(After(y, Bound))
  {
  }

  lemma KeptByAppSend(y: System, x: Stanza)
    requires Inv(y) && Allowed(y, AppSend(x))
    ensures Inv(After(y, AppSend(x)))
  {
    QueueAfterSend(y.c, x, y.appSent, y.acked);
    if y.c.connected {
      AppendPlain(y.c.wire, [StanzaNode(x)], |y.s.sent|);
      assert Stanzas([StanzaNode(x)]) == [x];
      assert (y.appSent + [x])[|y.s.handled|..] == y.appSent[|y.s.handled|..] + [x];
    }
  }

  lemma KeptByClientAck(y: System)
    requires Inv(y)
    ensures Inv(y.(c := AfterAckRequest(y.c)))
  {
    hide Stanzas;
    if y.c.connected && Active(y.c.ctx) {
      var n := Ack(y.c.handled);
      NoStanza(n);
      assert Plain([n], |y.s.sent|);
      AppendPlain(y.c.wire, [n], |y.s.sent|);
      assert Stanzas(y.c.wire) + [] == Stanzas(y.c.wire);
    }
  }

  lemma NoStanza(n: Node)
    ensures !n.StanzaNode? ==> Stanzas([n]) == []
  {
    assert [n][1..] == [];
  }

  /** A control node of the server's, added to its link. */
  lemma KeptByAnswer(y: System, n: Node)
    requires Inv(y) && y.s.attached && (n.AckRequest? || n == Ack(|y.s.handled|))
    ensures Inv(y.(s := Answered(y.s, [n])))
  {
    assert Stanzas([n]) == [] && forall xs: seq<Stanza> :: xs + [] == xs;
    if y.c.ctx == Enable {
      AppendGreeted(y.s.wire, ENABLED, 0, y.s.sent, [n]);
    } else if y.c.ctx == Resume {
      AppendGreeted(y.s.wire, ResumedReply(|y.s.handled|, SESSION), |y.s.handled|, y.s.sent[|y.c.delivered|..], [n]);
    } else {
      AppendPlain(y.s.wire, [n], |y.s.handled|);
    }
  }

  lemma KeptByServerSend(y: System, x: Stanza)
    requires Inv(y) && y.s.enabled
    ensures Inv(After(y, ServerSends(x)))
  {
    assert (y.s.sent + [x])[|y.c.delivered|..] == y.s.sent[|y.c.delivered|..] + [x];
    assert Stanzas([StanzaNode(x)]) == [x];
    if !y.s.attached {
    } else if y.c.ctx == Enable {
      AppendGreeted(y.s.wire, ENABLED, 0, y.s.sent, [StanzaNode(x)]);
    } else if y.c.ctx == Resume {
      AppendGreeted(y.s.wire, ResumedReply(|y.s.handled|, SESSION), |y.s.handled|, y.s.sent[|y.c.delivered|..],
                    [StanzaNode(x)]);
    } else {
      AppendPlain(y.s.wire, [StanzaNode(x)], |y.s.handled|);
    }
  }

  lemma KeptByResumeRequest(y: System)
    requires Inv(y) && Allowed(y, ServerReads) && y.c.wire[0].ResumeRequest?
    ensures Inv(After(y, ServerReads))
  {
    hide Stanzas, AsNodes;
    var again := y.s.sent[y.c.wire[0].h..];
    StanzasOfNodes(again);
    NodesArePlain(again, |y.s.handled|);
    assert (y.s.wire + ([ResumedReply(|y.s.handled|, SESSION)] + AsNodes(again)))[1..] == AsNodes(again);
  }

  lemma KeptByHandling(y: System)
    requires Inv(y) && Allowed(y, ServerReads) && y.c.wire[0].StanzaNode?
    ensures Inv(After(y, ServerReads))
  {
    assert y.appSent[|y.s.handled|..][0] == y.c.wire[0].stanza;
    assert y.appSent[|y.s.handled|..][1..] == y.appSent[|y.s.handled| + 1..];
  }

  lemma KeptByServerRead(y: System)
    requires Inv(y) && Allowed(y, ServerReads)
    ensures Inv(After(y, ServerReads))
  {
    hide Inv, Stanzas, ServerOn, AsNodes;
    match y.c.wire[0]
    case EnableRequest(_) => KeptByEnabling(y);
    case ResumeRequest(_, _) => KeptByResumeRequest(y);
    case StanzaNode(_) => KeptByHandling(y);
    case _ => KeptByControl(y);
  }

  lemma KeptByEnabling(y: System)
    requires Inv(y) && Allowed(y, ServerReads) && y.c.wire[0].EnableRequest?
    ensures Inv(After(y, ServerReads))
  {
    hide Stanzas;
    assert y.s.wire + [ENABLED] == [ENABLED] && [ENABLED][1..] == [];
    assert Stanzas([]) == [] by { StanzasOfNodes([]); assert AsNodes([]) == []; }
  }

  lemma KeptByControl(y: System)
    requires Inv(y) && Allowed(y, ServerReads)
    requires !y.c.wire[0].EnableRequest? && !y.c.wire[0].ResumeRequest? && !y.c.wire[0].StanzaNode?
    ensures Inv(After(y, ServerReads))
  {
    var read := y.(c := y.c.(wire := y.c.wire[1..]));
    assert Inv(read);
    if y.c.wire[0].AckRequest? {
      hide Inv;
      KeptByAnswer(read, Ack(|y.s.handled|));
    }
  }

  /** The resumption: what the client writes again is just what the server has not handled. */
  lemma KeptByResumption(y: System, h: int, previd: string)
    requires Inv(y) && y.c.connected && y.s.wire != [] && y.s.wire[0] == ResumedReply(h, previd)
    ensures Inv(After(y, ClientReads([])))
  {
    hide Values, AsNodes, Stanzas;
    var d := y.c.(ctx := Resumed);
    QueueAfterCheck(d, h, true, y.appSent, y.acked);
    ValuesOfQueue(y.c.queue, y.appSent, y.acked, h);
    StanzasOfNodes(y.appSent[h..]);
    assert y.c.wire + AsNodes(y.appSent[h..]) == AsNodes(y.appSent[h..]);
    NodesArePlain(y.appSent[h..], |y.s.sent|);
  }

  lemma NodesArePlain(xs: seq<Stanza>, n: nat)
    ensures Plain(AsNodes(xs), n)
  {
  }

  lemma KeptByAckRead(y: System, h: int)
    requires Inv(y) && y.c.connected && y.s.wire != [] && y.s.wire[0] == Ack(h)
    ensures Inv(After(y, ClientReads([])))
  {
    hide Values, AsNodes;
    QueueAfterCheck(y.c, h, false, y.appSent, y.acked);
    assert y.c.wire + [] == y.c.wire;
  }

  lemma KeptByDelivery(y: System, x: Stanza)
    requires Inv(y) && y.c.connected && y.s.wire != [] && y.s.wire[0] == StanzaNode(x)
    ensures Inv(After(y, ClientReads([])))
  {
    assert y.s.sent[|y.c.delivered|..][0] == x;
    assert y.s.sent[|y.c.delivered|..][1..] == y.s.sent[|y.c.delivered| + 1..];
  }

  lemma KeptByClientRead(y: System)
    requires Inv(y) && y.c.connected && y.s.wire != []
    ensures Inv(After(y, ClientReads([])))
  {
    match y.s.wire[0]
    case ResumedReply(h, previd) => KeptByResumption(y, h, previd);
    case Ack(h) => KeptByAckRead(y, h);
    case AckRequest => KeptByClientAck(y.(s := y.s.(wire := y.s.wire[1..])));
    case StanzaNode(x) => KeptByDelivery(y, x);
    case _ =>
  }

  lemma KeptByStep(y: System, step: Step)
    requires Inv(y) && Allowed(y, step)
    ensures Inv(After(y, step))
  {
    match step
    case Bound => KeptByBound(y);
    case AppSend(x) => KeptByAppSend(y, x);
    case ClientAck => KeptByClientAck(y);
    case ClientReads(_) => KeptByClientRead(y);
    case ServerReads => KeptByServerRead(y);
    case ServerRefuses =>
    case ServerSends(x) => KeptByServerSend(y, x);
    case ServerAcks => KeptByAnswer(y, Ack(|y.s.handled|));
    case ServerAsks => KeptByAnswer(y, AckRequest);
    case LinkLoss =>
  }

  // What holds of every run

  lemma {:induction false} KeptByRun(y: System, steps: seq<Step>)
    requires Inv(y)
    ensures Inv(Run(y, steps))
    decreases |steps|
  {
    if steps == [] {
    } else {
      if Allowed(y, steps[0]) {
        KeptByStep(y, steps[0]);
        KeptByRun(After(y, steps[0]), steps[1..]);
      } else {
        KeptByRun(y, steps[1..]);
      }
    }
  }

  lemma EveryRun(steps: seq<Step>)
    ensures Inv(Run(Start, steps))
  {
    KeptByRun(Start, steps);
  }

  /**
   * On every run, whatever is lost with the links: the server handles the stanzas sent since the stream
   * was enabled once each and in order, the client handles the server's so, and its counter says how many.
   */
  lemma ExactlyOnce(steps: seq<Step>)
    ensures
      var y := Run(Start, steps);
      y.s.handled <= y.appSent && y.c.delivered <= y.s.sent && y.c.handled == |y.c.delivered|
  {
    EveryRun(steps);
  }

  /**
   * While a session's link is up, and so right after a resumption, the stanzas in flight are exactly
   * those not handled yet, in both directions: once they arrive, nothing is missing.
   */
  lemma InFlight(steps: seq<Step>)
    ensures
      var y := Run(Start, steps);
      y.c.connected && Active(y.c.ctx) ==>
        y.s.handled + Stanzas(y.c.wire) == y.appSent && y.c.delivered + Stanzas(y.s.wire) == y.s.sent
  {
    EveryRun(steps);
    var y := Run(Start, steps);
    assert y.s.handled == y.appSent[..|y.s.handled|] && y.c.delivered == y.s.sent[..|y.c.delivered|];
  }

  /** In every reachable state, sendQueue gives the sent stanzas but for some the server has handled. */
  lemma NothingLost(steps: seq<Step>)
    ensures
      var y := Run(Start, steps);
      && y.acked <= |y.s.handled|
      && y.s.handled[..y.acked] + Values(y.c.queue, y.c.queue.Keys) == y.appSent
  {
    hide Run;
    EveryRun(steps);
    Unacknowledged(Run(Start, steps));
  }

  lemma Unacknowledged(y: System)
    requires Inv(y)
    ensures y.acked <= |y.s.handled| && y.s.handled[..y.acked] + Values(y.c.queue, y.c.queue.Keys) == y.appSent
  {
    hide Links, Values;
    AllAbove(y.c.queue, y.appSent, y.acked);
    ValuesOfQueue(y.c.queue, y.appSent, y.acked, y.acked);
    assert y.s.handled[..y.acked] == y.appSent[..y.acked];
  }

  lemma AllAbove(queue: map<int, Stanza>, appSent: seq<Stanza>, acked: nat)
    requires Numbered(queue, appSent, acked)
    ensures Above(queue.Keys, acked) == queue.Keys
  {
  }

  // Why the steps need their guards

  function Unguarded(y: System, steps: seq<Step>): System
    decreases |steps|
  {
    if steps == [] then y else Unguarded(After(y, steps[0]), steps[1..])
  }

  function Sends(xs: seq<Stanza>): seq<Step> {
    seq(|xs|, i requires 0 <= i < |xs| => AppSend(xs[i]))
  }

  function Reads(n: nat): seq<Step> {
    seq(n, i => ServerReads)
  }

  lemma {:induction false} SendsAre(y: System, xs: seq<Stanza>)
    ensures Unguarded(y, Sends(xs)) == y.(c := AfterSends(y.c, xs), appSent := y.appSent + xs)
    decreases |xs|
  {
    hide AfterSend;
    if xs == [] {
      assert y.appSent + [] == y.appSent;
    } else {
      assert Sends(xs)[1..] == Sends(xs[1..]);
      SendsAre(After(y, AppSend(xs[0])), xs[1..]);
      assert y.appSent + [xs[0]] + xs[1..] == y.appSent + xs;
    }
  }

  lemma {:induction false} SentUnnumbered(c: ClientState, xs: seq<Stanza>)
    requires c.connected && !Active(c.ctx)
    ensures AfterSends(c, xs) == c.(wire := c.wire + AsNodes(xs))
    decreases |xs|
  {
    if xs == [] {
      assert c.wire + [] == c.wire;
    } else {
      SentUnnumbered(AfterSend(c, xs[0]), xs[1..]);
      assert xs == [xs[0]] + xs[1..];
      NodesCons(xs[0], xs[1..]);
      assert c.wire + [StanzaNode(xs[0])] + AsNodes(xs[1..]) == c.wire + AsNodes(xs);
    }
  }

  /**
   * Stanzas sent between the enable request and its answer are written, but get no number: the numbering
   * stays right if and only if there are none.
   */
  lemma SendWhileEnabling(y: System, xs: seq<Stanza>)
    requires Inv(y) && y.c.connected && y.c.ctx == Enable
    ensures
      var z := Unguarded(y, Sends(xs));
      && (QueueShape(z.c, z.appSent, z.acked) <==> xs == [])
      && (Inv(z) <==> xs == [])
  {
    SendsAre(y, xs);
    SentUnnumbered(y.c, xs);
    if xs == [] {
      assert Unguarded(y, Sends(xs)) == y;
    }
  }

  lemma {:induction false} ReadStanzas(y: System, xs: seq<Stanza>, rest: seq<Node>)
    requires y.c.wire == AsNodes(xs) + rest
    ensures Unguarded(y, Reads(|xs|)) == y.(c := y.c.(wire := rest), s := y.s.(handled := y.s.handled + xs))
    decreases |xs|
  {
    if xs == [] {
      assert y.s.handled + [] == y.s.handled && AsNodes(xs) + rest == rest;
    } else {
      assert xs == [xs[0]] + xs[1..];
      NodesCons(xs[0], xs[1..]);
      assert y.c.wire == [StanzaNode(xs[0])] + (AsNodes(xs[1..]) + rest);
      assert Reads(|xs|)[1..] == Reads(|xs[1..]|);
      ReadStanzas(After(y, ServerReads), xs[1..], rest);
      assert y.s.handled + [xs[0]] + xs[1..] == y.s.handled + xs;
    }
  }

  /** The state when the server has read all and the client its answer. */
  lemma WindowClosed(y: System, xs: seq<Stanza>)
    requires Inv(y) && y.c.connected && y.c.ctx == Enable
    ensures
      var window := Unguarded(y, Sends(xs));
      var z := After(Unguarded(window, Reads(|window.c.wire|)), ClientReads([]));
      && z.s.handled == xs && z.c.wire == [] && z.c.ctx == Enabled && z.c.connected
      && QueueShape(z.c, [], 0)
  {
    hide Unguarded, AsNodes;
    SendsAre(y, xs);
    SentUnnumbered(y.c, xs);
    var window := Unguarded(y, Sends(xs));
    NothingQueued(y.c, y.acked);
    assert [] + xs == xs;
    if y.s.enabled {
      assert window.c.wire == AsNodes(xs) == AsNodes(xs) + [];
      ReadStanzas(window, xs, []);
    } else {
      assert window.c.wire == [EnableRequest(true)] + AsNodes(xs);
      assert window.c.wire[1..] == AsNodes(xs) == AsNodes(xs) + [];
      assert Reads(|window.c.wire|)[1..] == Reads(|xs|);
      var first := After(window, ServerReads);
      assert first.s.wire == [] + [ENABLED];
      FirstStep(window, Reads(|window.c.wire|));
      ReadStanzas(first, xs, []);
    }
  }

  lemma NothingQueued(c: ClientState, acked: nat)
    requires QueueShape(c, [], acked)
    ensures c.sent == 0 && c.queue == map[]
  {
    if c.queue.Keys != {} {
      var k := SomeElement(c.queue.Keys);
      assert false;
    }
  }

  lemma FirstStep(y: System, steps: seq<Step>)
    requires steps != []
    ensures Unguarded(y, steps) == Unguarded(After(y, steps[0]), steps[1..])
  {
  }

  /**
   * What comes of it: the server counts the stanzas xs of the window, the client does not. When the server
   * has handled m of the next stanzas ys and acknowledges, the client takes |xs| stanzas too many, as far as
   * there are that many, for acknowledged, and no resumption will send them again.
   */
  lemma EarlyAcknowledged(y: System, xs: seq<Stanza>, ys: seq<Stanza>, m: nat)
    requires Inv(y) && y.c.connected && y.c.ctx == Enable && m <= |ys|
    ensures
      var window := Unguarded(y, Sends(xs));
      var closed := After(Unguarded(window, Reads(|window.c.wire|)), ClientReads([]));
      var z := Unguarded(Unguarded(closed, Sends(ys)), Reads(m));
      var c := AfterNode(z.c, Ack(|z.s.handled|), []);
      && z.s.handled == xs + ys[..m]
      && Values(c.queue, c.queue.Keys) == (if |xs| + m <= |ys| then ys[|xs| + m..] else [])
      && (Values(c.queue, c.queue.Keys) == ys[m..] <==> xs == [] || m == |ys|)
  {
    hide Unguarded, AsNodes, Values, Sends, Reads, AfterNode, Inv, QueueShape;
    WindowClosed(y, xs);
    var window := Unguarded(y, Sends(xs));
    var closed := After(Unguarded(window, Reads(|window.c.wire|)), ClientReads([]));
    assert AsNodes([]) + AsNodes([]) == [] && [] + ys == ys && xs + [] == xs;
    NextHandled(closed, [], 0, [], [], ys, m);
    var z := Unguarded(Unguarded(closed, Sends(ys)), Reads(m));
    AcknowledgedQueue(z.c, ys, 0, |z.s.handled|);
    assert |ys[m..]| == |ys| - m;
    assert |xs| + m <= |ys| ==> |ys[|xs| + m..]| == |ys| - |xs| - m;
  }

  /** The client sends ys; the server handles what is on the link, `rest`, and n of those behind it. */
  lemma NextHandled(y: System, sent: seq<Stanza>, acked: nat, rest: seq<Stanza>, missed: seq<Stanza>,
                    ys: seq<Stanza>, n: nat)
    requires Active(y.c.ctx) && y.c.connected && QueueShape(y.c, sent, acked) && n <= |missed + ys|
    requires y.c.wire == AsNodes(rest) + AsNodes(missed)
    ensures
      var z := Unguarded(Unguarded(y, Sends(ys)), Reads(|rest| + n));
      && z.s.handled == y.s.handled + rest + (missed + ys)[..n]
      && QueueShape(z.c, sent + ys, acked) && Active(z.c.ctx)
  {
    hide Unguarded, AsNodes, Sends, Reads, Numbered;
    SendsAre(y, ys);
    SendsQueued(y.c, ys, sent, acked);
    var behind := missed + ys;
    var read, left := rest + behind[..n], behind[n..];
    assert behind[..n] + left == behind;
    assert read + left == rest + behind;
    NodesSplit(missed, ys);
    NodesSplit(rest, behind);
    NodesSplit(read, left);
    ReadStanzas(Unguarded(y, Sends(ys)), read, AsNodes(left));
    assert y.s.handled + rest + behind[..n] == y.s.handled + read;
  }

  lemma NodesSplit(xs: seq<Stanza>, ys: seq<Stanza>)
    ensures AsNodes(xs + ys) == AsNodes(xs) + AsNodes(ys)
  {
  }

  lemma AcknowledgedQueue(c: ClientState, sent: seq<Stanza>, acked: nat, h: nat)
    requires Active(c.ctx) && QueueShape(c, sent, acked) && acked <= h
    ensures
      var d := AfterNode(c, Ack(h), []);
      Values(d.queue, d.queue.Keys) == if h <= |sent| then sent[h..] else []
  {
    hide AsNodes, Values;
    var d := AfterNode(c, Ack(h), []);
    if h <= |sent| {
      assert Numbered(d.queue, sent, h);
      AllAbove(d.queue, sent, h);
      ValuesOfQueue(d.queue, sent, h, h);
    } else {
      assert d.queue.Keys == {};
      NoValues(d.queue);
    }
  }

  lemma NoValues(m: map<int, Stanza>)
    requires m.Keys == {}
    ensures Values(m, m.Keys) == []
  {
  }

  /** A resume request is under way, and the server has not refused it. */
  ghost predicate Resuming(y: System) {
    Inv(y) && y.c.connected && y.c.ctx == Resume && y.s.wire != [FailedReply]
  }

  /**
   * The window closes after the application has sent xs in it. If the server has not read the request yet, the
   * first k are sent before it does, and it handles m of them before the client reads the answer.
   */
  function ThroughWindow(y: System, xs: seq<Stanza>, k: nat, m: nat): System
    requires m <= k <= |xs|
  {
    if y.c.wire == [] then After(Unguarded(y, Sends(xs)), ClientReads([]))
    else After(Unguarded(Unguarded(Unguarded(y, Sends(xs[..k])), Reads(1 + m)), Sends(xs[k..])), ClientReads([]))
  }

  /** The client at the end of the window: what was sent in it has no number, and the resend comes behind it. */
  lemma ResumedBehind(c: ClientState, xs: seq<Stanza>, h: nat, sent: seq<Stanza>, acked: nat)
    requires c.connected && c.ctx == Resume && QueueShape(c, sent, acked) && acked <= h <= |sent|
    ensures
      var d := AfterNode(AfterSends(c, xs), ResumedReply(h, c.id), []);
      && d.wire == c.wire + AsNodes(xs) + AsNodes(sent[h..])
      && d.ctx == Resumed && d.connected && QueueShape(d, sent, h)
  {
    hide AsNodes, Values;
    SentUnnumbered(c, xs);
    var d := AfterSends(c, xs).(ctx := Resumed);
    assert AfterSends(d, []) == d;
    QueueAfterCheck(d, h, true, sent, acked);
    ValuesOfQueue(c.queue, sent, acked, h);
  }

  /** The server's half of the window, while the request has not been read. */
  lemma RequestRead(y: System, a: seq<Stanza>, m: nat)
    requires Inv(y) && y.c.connected && y.c.ctx == Resume && y.c.wire != [] && m <= |a|
    ensures
      var z := Unguarded(Unguarded(y, Sends(a)), Reads(1 + m));
      && z.c == y.c.(wire := AsNodes(a[m..])) && z.appSent == y.appSent + a
      && z.s.handled == y.s.handled + a[..m]
      && z.s.wire != [] && z.s.wire[0] == ResumedReply(|y.s.handled|, SESSION)
  {
    hide Unguarded, AsNodes, Sends, Stanzas;
    SendsAre(y, a);
    SentUnnumbered(y.c, a);
    var sent := Unguarded(y, Sends(a));
    var request := ResumeRequest(y.c.handled, SESSION);
    assert sent.c.wire == [request] + AsNodes(a) && sent.c.wire[1..] == AsNodes(a);
    var read := After(sent, ServerReads);
    assert read.s.wire == [ResumedReply(|y.s.handled|, SESSION)] + AsNodes(y.s.sent[y.c.handled..]);
    assert Reads(1 + m)[1..] == Reads(m);
    FirstStep(sent, Reads(1 + m));
    assert a == a[..m] + a[m..];
    NodesSplit(a[..m], a[m..]);
    ReadStanzas(read, a[..m], AsNodes(a[m..]));
  }

  /** The stanzas that come before the missed ones, and how many of them the server has handled. */
  lemma WindowPassed(y: System, xs: seq<Stanza>, k: nat, m: nat)
    requires Resuming(y) && m <= k <= |xs|
    ensures
      var z, n := ThroughWindow(y, xs, k, m), if y.c.wire == [] then 0 else m;
      && z.s.handled == y.s.handled + xs[..n] && z.appSent == y.appSent + xs
      && z.c.wire == AsNodes(xs[n..]) + AsNodes(y.appSent[|y.s.handled|..])
      && z.c.ctx == Resumed && z.c.connected && QueueShape(z.c, y.appSent, |y.s.handled|)
  {
    hide Unguarded, AsNodes, Sends, Reads, Stanzas, AfterNode, AfterSends;
    var h := |y.s.handled|;
    if y.c.wire == [] {
      SendsAre(y, xs);
      ResumedBehind(y.c, xs, h, y.appSent, y.acked);
      assert [] + AsNodes(xs) == AsNodes(xs) && xs[..0] == [] && xs[0..] == xs;
      assert y.s.handled + [] == y.s.handled;
    } else {
      var a, b := xs[..k], xs[k..];
      RequestRead(y, a, m);
      var read := Unguarded(Unguarded(y, Sends(a)), Reads(1 + m));
      SendsAre(read, b);
      ResumedBehind(read.c, b, h, y.appSent, y.acked);
      assert a[..m] == xs[..m] && xs[m..] == a[m..] + b;
      NodesSplit(a[m..], b);
      assert y.appSent + a + b == y.appSent + xs by { assert a + b == xs; }
    }
  }

  /**
   * Stanzas sent between the resume request and its answer are written at once but not queued: the server
   * handles them before those it has missed. Nothing is lost or out of order if and only if that order is
   * the same, which for stanzas unlike the missed ones means that there are none of either.
   */
  lemma SendWhileResuming(y: System, xs: seq<Stanza>, k: nat, m: nat)
    requires Resuming(y) && m <= k <= |xs|
    ensures
      var z, missed := ThroughWindow(y, xs, k, m), y.appSent[|y.s.handled|..];
      && (z.s.handled + Stanzas(z.c.wire) == z.appSent <==> xs + missed == missed + xs)
      && ((forall x | x in xs :: x !in missed) ==> (xs + missed == missed + xs <==> xs == [] || missed == []))
  {
    hide ThroughWindow, AsNodes, Stanzas;
    WindowPassed(y, xs, k, m);
    var missed, n := y.appSent[|y.s.handled|..], if y.c.wire == [] then 0 else m;
    StanzasAppend(AsNodes(xs[n..]), AsNodes(missed));
    StanzasOfNodes(xs[n..]);
    StanzasOfNodes(missed);
    assert y.appSent == y.s.handled + missed && xs == xs[..n] + xs[n..];
    assert y.s.handled + xs[..n] + (xs[n..] + missed) == y.s.handled + (xs + missed);
    assert y.s.handled + missed + xs == y.s.handled + (missed + xs);
    SameBehind(y.s.handled, xs + missed, missed + xs);
    Commute(xs, missed);
  }

  lemma Commute<T>(a: seq<T>, b: seq<T>)
    ensures (forall x | x in a :: x !in b) ==> (a + b == b + a <==> a == [] || b == [])
  {
    if a != [] && b != [] {
      assert a[0] in a && b[0] in b && (a + b)[0] == a[0] && (b + a)[0] == b[0];
    } else if a == [] {
      assert a + b == b == b + a;
    } else {
      assert a + b == a == b + a;
    }
  }

  lemma SameBehind<T>(a: seq<T>, b: seq<T>, c: seq<T>)
    ensures a + b == a + c <==> b == c
  {
    assert (a + b)[|a|..] == b && (a + c)[|a|..] == c;
  }

  /**
   * What comes of it: the server counts the stanzas xs of the window, the client does not. When the server has
   * handled them and n of those behind, the missed ones and the next ones ys, and acknowledges, the client takes
   * |xs| stanzas too many for acknowledged, as far as there are that many: its queue is what the server has still
   * to handle if and only if there was nothing in the window or nothing is left.
   */
  lemma EarlyAfterResuming(y: System, xs: seq<Stanza>, k: nat, m: nat, ys: seq<Stanza>, n: nat)
    requires Resuming(y) && m <= k <= |xs| && n <= |y.appSent| - |y.s.handled| + |ys|
    ensures
      var behind, rest := y.appSent[|y.s.handled|..] + ys, if y.c.wire == [] then |xs| else |xs| - m;
      var z := Unguarded(Unguarded(ThroughWindow(y, xs, k, m), Sends(ys)), Reads(rest + n));
      var c := AfterNode(z.c, Ack(|z.s.handled|), []);
      && z.s.handled == y.s.handled + xs + behind[..n]
      && Values(c.queue, c.queue.Keys) == (if |xs| + n <= |behind| then behind[|xs| + n..] else [])
      && (Values(c.queue, c.queue.Keys) == behind[n..] <==> xs == [] || n == |behind|)
  {
    hide ThroughWindow, Unguarded, AsNodes, Values, Sends, Reads, AfterNode, QueueShape, Links;
    WindowPassed(y, xs, k, m);
    var h, r := |y.s.handled|, if y.c.wire == [] then 0 else m;
    var missed, closed := y.appSent[h..], ThroughWindow(y, xs, k, m);
    NextHandled(closed, y.appSent, h, xs[r..], missed, ys, n);
    var z := Unguarded(Unguarded(closed, Sends(ys)), Reads(|xs| - r + n));
    var behind := missed + ys;
    assert closed.s.handled + xs[r..] == y.s.handled + xs by { assert xs[..r] + xs[r..] == xs; }
    assert y.appSent + ys == y.appSent[..h] + behind;
    assert |z.s.handled| == h + |xs| + n;
    AcknowledgedAhead(z.c, y.appSent[..h], behind, |xs|, n);
  }

  /** The client's queue when an acknowledgement counts e stanzas too many. */
  lemma AcknowledgedAhead(c: ClientState, before: seq<Stanza>, behind: seq<Stanza>, e: nat, n: nat)
    requires Active(c.ctx) && QueueShape(c, before + behind, |before|) && n <= |behind|
    ensures
      var d := AfterNode(c, Ack(|before| + e + n), []);
      && Values(d.queue, d.queue.Keys) == (if e + n <= |behind| then behind[e + n..] else [])
      && (Values(d.queue, d.queue.Keys) == behind[n..] <==> e == 0 || n == |behind|)
  {
    hide AfterNode, Values, QueueShape;
    AcknowledgedQueue(c, before + behind, |before|, |before| + e + n);
    assert |behind[n..]| == |behind| - n;
    if e + n <= |behind| {
      assert (before + behind)[|before| + e + n..] == behind[e + n..];
    }
  }

  /** A run that comes to such a window: what is sent in it arrives before what was lost with the link. */
  lemma ReorderedRun(lost: Stanza, x: Stanza)
    ensures
      var y := Run(Start, [Bound, ServerReads, ClientReads([]), AppSend(lost), LinkLoss, Bound]);
      && Resuming(y)
      && var z := ThroughWindow(y, [x], 1, 1);
         z.appSent == [lost, x] && z.s.handled == [x] && z.c.wire == [StanzaNode(lost)]
  {
    hide Run, ThroughWindow, Inv;
    var steps := [Bound, ServerReads, ClientReads([]), AppSend(lost), LinkLoss, Bound];
    EveryRun(steps);
    LostOnce(lost);
    var y := Run(Start, steps);
    WindowPassed(y, [x], 1, 1);
    assert [] + [x][..1] == [x] && AsNodes([x][1..]) == [] && y.appSent[0..] == [lost];
    assert [] + AsNodes([lost]) == [StanzaNode(lost)] && [lost] + [x] == [lost, x];
  }

  lemma LostOnce(lost: Stanza)
    ensures
      Run(Start, [Bound, ServerReads, ClientReads([]), AppSend(lost), LinkLoss, Bound]) ==
      System(ClientWith(Resume, map[1 := lost], true, [ResumeRequest(0, SESSION)]), Server(true, false, [], [], []),
             [lost], 0)
  {
    hide Run, AfterNode, AfterSend, After;
    var steps := [Bound, ServerReads, ClientReads([]), AppSend(lost), LinkLoss, Bound];
    WhatIsSent(lost);
    assert steps[1..][1..] == steps[2..] && steps[2..][1..] == steps[3..] && steps[3..][1..] == [LinkLoss, Bound];
    FirstOfRun(Start, steps);
    FirstOfRun(After(Start, Bound), steps[1..]);
    FirstOfRun(AskedAndAnswered(), steps[2..]);
    FirstOfRun(After(AskedAndAnswered(), ClientReads([])), steps[3..]);
    LostAndBack(lost);
  }

  lemma LostAndBack(lost: Stanza)
    ensures
      Run(OnceSent(lost), [LinkLoss, Bound]) ==
      System(ClientWith(Resume, map[1 := lost], true, [ResumeRequest(0, SESSION)]), Server(true, false, [], [], []),
             [lost], 0)
  {
    hide Run;
    var y := OnceSent(lost);
    assert [LinkLoss, Bound][1..] == [Bound] && [Bound][1..] == [];
    FirstOfRun(y, [LinkLoss, Bound]);
    FirstOfRun(After(y, LinkLoss), [Bound]);
    FirstOfRun(After(After(y, LinkLoss), Bound), []);
    assert [] + [ResumeRequest(0, SESSION)] == [ResumeRequest(0, SESSION)];
  }

  function AskedAndAnswered(): System {
    System(ClientState(Enable, true, true, "", 0, 0, map[], true, [], []), Server(true, true, [], [], [ENABLED]), [], 0)
  }

  function OnceSent(lost: Stanza): System {
    System(ClientWith(Enabled, map[1 := lost], true, [StanzaNode(lost)]), Server(true, true, [], [], []), [lost], 0)
  }

  lemma WhatIsSent(lost: Stanza)
    ensures Allowed(After(Start, Bound), ServerReads)
    ensures After(After(Start, Bound), ServerReads) == AskedAndAnswered()
    ensures Allowed(After(AskedAndAnswered(), ClientReads([])), AppSend(lost))
    ensures After(After(AskedAndAnswered(), ClientReads([])), AppSend(lost)) == OnceSent(lost)
  {
    assert After(Start, Bound).c.wire == [EnableRequest(true)] && [EnableRequest(true)][1..] == [];
    assert [] + [ENABLED] == [ENABLED] && [ENABLED][1..] == [];
    assert [] + [StanzaNode(lost)] == [StanzaNode(lost)] && [] + [lost] == [lost];
  }

  lemma FirstOfRun(y: System, steps: seq<Step>)
    ensures Run(y, steps) == if steps == [] then y
                             else Run(if Allowed(y, steps[0]) then After(y, steps[0]) else y, steps[1..])
  {
  }

  /**
   * A run with one such stanza: an acknowledgement covers one stanza too many, and the next one is lost with
   * the link.
   */
  lemma LostAfterEnabling(x: Stanza, lost: Stanza)
    ensures
      var window := After(After(Start, Bound), AppSend(x));
      var counted := Unguarded(window, [ServerReads, ServerReads, ClientReads([]), AppSend(lost)]);
      var lossy := Unguarded(counted, [ServerAcks, ClientReads([]), LinkLoss]);
      var z := Unguarded(lossy, [Bound, ServerReads, ClientReads([])]);
      z.appSent == [x, lost] && z.s.handled == [x] && z.c.ctx == Resumed && z.c.wire == [] && z.c.queue == map[]
  {
    CountedOnOneSide(x, lost);
    AcknowledgedTooEarly(x, lost);
    ResumedWithoutIt(x, lost);
  }

  /** The states that run goes through. */
  function ClientWith(ctx: Context, queue: map<int, Stanza>, connected: bool, wire: seq<Node>): ClientState {
    ClientState(ctx, true, true, SESSION, 1, 0, queue, connected, wire, [])
  }

  function Counted(x: Stanza, lost: Stanza): System {
    var c := ClientWith(Enabled, map[1 := lost], true, [StanzaNode(lost)]);
    System(c, Server(true, true, [x], [], []), [x, lost], 0)
  }

  lemma CountedOnOneSide(x: Stanza, lost: Stanza)
    ensures Unguarded(After(After(Start, Bound), AppSend(x)),
                      [ServerReads, ServerReads, ClientReads([]), AppSend(lost)]) == Counted(x, lost)
  {
    hide Unguarded;
    var y1 := After(After(Start, Bound), AppSend(x));
    var y2 := System(y1.c.(wire := []), Server(true, true, [x], [], [ENABLED]), [x], 0);
    ReadByServer(x);
    var steps := [ServerReads, ServerReads, ClientReads([]), AppSend(lost)];
    assert steps[1..] == [ServerReads, ClientReads([]), AppSend(lost)];
    assert steps[1..][1..] == [ClientReads([]), AppSend(lost)] && steps[1..][1..][1..] == [AppSend(lost)];
    FirstStep(y1, steps);
    FirstStep(After(y1, ServerReads), steps[1..]);
    FirstStep(y2, [ClientReads([]), AppSend(lost)]);
    LastStep(After(y2, ClientReads([])), AppSend(lost));
    EnabledAndSent(y2, x, lost);
  }

  lemma LastStep(y: System, step: Step)
    ensures Unguarded(y, [step]) == After(y, step)
  {
    assert [step][1..] == [];
  }

  lemma ReadByServer(x: Stanza)
    ensures
      var y := After(After(Start, Bound), AppSend(x));
      After(After(y, ServerReads), ServerReads) ==
      System(y.c.(wire := []), Server(true, true, [x], [], [ENABLED]), [x], 0)
  {
    var y := After(After(Start, Bound), AppSend(x));
    assert y.c.wire == [EnableRequest(true), StanzaNode(x)];
    assert y.c.wire[1..] == [StanzaNode(x)] && [StanzaNode(x)][1..] == [];
    assert [] + [ENABLED] == [ENABLED] && [] + [x] == [x] && y.appSent == [x];
  }

  lemma EnabledAndSent(y: System, x: Stanza, lost: Stanza)
    requires y.c == ClientState(Enable, true, true, "", 0, 0, map[], true, [], [])
    requires y.s == Server(true, true, [x], [], [ENABLED]) && y.appSent == [x] && y.acked == 0
    ensures After(After(y, ClientReads([])), AppSend(lost)) ==
            Counted(x, lost)
  {
    assert y.s.wire[1..] == [] && [] + [StanzaNode(lost)] == [StanzaNode(lost)] && [x] + [lost] == [x, lost];
  }

  lemma AcknowledgedTooEarly(x: Stanza, lost: Stanza)
    ensures
      Unguarded(Counted(x, lost), [ServerAcks, ClientReads([]), LinkLoss]) ==
      System(ClientWith(Enabled, map[], false, []), Server(true, false, [x], [], []), [x, lost], 1)
  {
    hide Unguarded, Values, AsNodes;
    var y := Counted(x, lost);
    var steps := [ServerAcks, ClientReads([]), LinkLoss];
    assert steps[1..] == [ClientReads([]), LinkLoss] && steps[1..][1..] == [LinkLoss];
    var y1 := After(y, ServerAcks);
    assert y1.s.wire == [Ack(1)] && [Ack(1)][1..] == [];
    FirstStep(y, steps);
    FirstStep(y1, steps[1..]);
    var y2 := After(y1, ClientReads([]));
    assert y2.c.queue == map[];
    LastStep(y2, LinkLoss);
  }

  lemma ResumedWithoutIt(x: Stanza, lost: Stanza)
    ensures
      var y := System(ClientWith(Enabled, map[], false, []), Server(true, false, [x], [], []), [x, lost], 1);
      Unguarded(y, [Bound, ServerReads, ClientReads([])]) ==
      System(ClientWith(Resumed, map[], true, []), Server(true, true, [x], [], []), [x, lost], 1)
  {
    hide Unguarded;
    var y := System(ClientWith(Enabled, map[], false, []), Server(true, false, [x], [], []), [x, lost], 1);
    var steps := [Bound, ServerReads, ClientReads([])];
    assert steps[1..] == [ServerReads, ClientReads([])] && steps[1..][1..] == [ClientReads([])];
    var y1 := After(y, Bound);
    assert y1.c.wire == [ResumeRequest(0, SESSION)];
    FirstStep(y, steps);
    FirstStep(y1, steps[1..]);
    var y2 := After(y1, ServerReads);
    assert y2.s.wire == [ResumedReply(1, SESSION)] && y2.c.wire == [];
    LastStep(y2, ClientReads([]));
    assert Above({}, 1) == {} && y2.s.wire[1..] == [];
  }

  /**
   * What the application sends from inside onConnect on a resumed stream is written, queued and then
   * written again by the resend: the stanzas in flight are right if and only if it sends nothing there.
   */
  lemma SendOnResumed(y: System, h: int, previd: string, replies: seq<Stanza>)
    requires Inv(y) && y.c.connected && y.s.wire != [] && y.s.wire[0] == ResumedReply(h, previd)
    ensures
      var z := After(y, ClientReads(replies));
      Stanzas(z.c.wire) == (y.appSent + replies)[|y.s.handled|..] <==> replies == []
  {
    hide Values, AsNodes, Stanzas;
    var c, all := y.c.(ctx := Resumed), y.appSent + replies;
    SendsQueued(c, replies, y.appSent, y.acked);
    var d := AfterSends(c, replies);
    ValuesOfQueue(d.queue, all, y.acked, h);
    StanzasAppend(c.wire + AsNodes(replies), AsNodes(all[h..]));
    StanzasOfNodes(all[h..]);
    StanzasOfNodes(replies);
    assert c.wire + AsNodes(replies) == AsNodes(replies);
    assert After(y, ClientReads(replies)).c.wire == c.wire + AsNodes(replies) + AsNodes(all[h..]);
    assert |Stanzas(After(y, ClientReads(replies)).c.wire)| == |replies| + |all[h..]|;
    assert [] + all[h..] == all[h..];
  }

  lemma {:induction false} SendsQueued(c: ClientState, xs: seq<Stanza>, appSent: seq<Stanza>, acked: nat)
    requires Active(c.ctx) && c.connected && QueueShape(c, appSent, acked)
    ensures
      var d := AfterSends(c, xs);
      && QueueShape(d, appSent + xs, acked) && d.wire == c.wire + AsNodes(xs)
      && d == c.(sent := d.sent, queue := d.queue, wire := d.wire)
    decreases |xs|
  {
    if xs == [] {
      assert appSent + xs == appSent && c.wire + AsNodes(xs) == c.wire;
    } else {
      QueueAfterSend(c, xs[0], appSent, acked);
      SendsQueued(AfterSend(c, xs[0]), xs[1..], appSent + [xs[0]], acked);
      assert appSent + [xs[0]] + xs[1..] == appSent + xs;
      assert AsNodes(xs) == [StanzaNode(xs[0])] + AsNodes(xs[1..]);
    }
  }
}
