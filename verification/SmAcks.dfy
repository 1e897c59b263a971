/**
 * Stream Management, the other direction of the acknowledgements: what the client tells the server about the
 * stanzas it handled, and what a server may forget for it.
 */
module SmAcks {
  import opened SmProtocol
  import opened StreamManagement

  /**
   * The server's memory, the number acknowledged and the stanzas behind it; with two records for the properties:
   * the numbers it was told, and the numbers of stanzas delivered whenever the client told one, without those lost
   * with a link.
   */
  datatype Memory = Memory(acked: nat, kept: seq<Stanza>, heard: seq<int>, told: seq<int>)

  const Empty := Memory(0, [], [], [])

  /** The server forgets what the client has handled. */
  function Forgetting(m: Memory, h: int): Memory {
    if m.acked <= h <= m.acked + |m.kept| then m.(acked := h, kept := m.kept[h - m.acked..]) else m
  }

  /** Acknowledgements and resume requests tell the server how many stanzas the client has handled. */
  function Counts(w: seq<Node>): seq<int> {
    if w == [] then [] else CountOf(w[0]) + Counts(w[1..])
  }

  function CountOf(n: Node): seq<int> {
    match n
    case Ack(h) => [h]
    case ResumeRequest(h, _) => [h]
    case _ => []
  }

  /** The steps in which the client has to tell the server a number. */
  predicate Tells(y: System, step: Step) {
    match step
    case ClientAck => y.c.connected && Active(y.c.ctx)
    case ClientReads(_) => y.c.connected && Active(y.c.ctx) && y.s.wire != [] && y.s.wire[0].AckRequest?
    case Bound => y.c.ctx == Enabled
    case _ => false
  }

  /** The memory after a step. */
  function Remembering(y: System, m: Memory, step: Step): Memory {
    var m := if Tells(y, step) then m.(told := m.told + [|y.c.delivered|]) else m;
    match step
    case ServerSends(x) => m.(kept := m.kept + [x])
    case ServerReads => if y.c.wire == [] then m else Reading(m, y.c.wire[0])
    case LinkLoss => m.(told := m.heard)
    case ServerRefuses => m.(told := m.heard)
    case _ => m
  }

  function Reading(m: Memory, n: Node): Memory {
    if CountOf(n) == [] then m else Forgetting(m, CountOf(n)[0]).(heard := m.heard + CountOf(n))
  }

  /** The memory at the end of a run that goes on from here. */
  function Memories(y: System, m: Memory, steps: seq<Step>): Memory
    decreases |steps|
  {
    if steps == [] then m
    else if Allowed(y, steps[0]) then Memories(After(y, steps[0]), Remembering(y, m, steps[0]), steps[1..])
    else Memories(y, m, steps[1..])
  }

  // The invariant

  predicate Rising(l: seq<int>, n: nat) {
    && (forall i | 0 <= i < |l| :: 0 <= l[i] <= n)
    && forall i, j | 0 <= i < j < |l| :: l[i] <= l[j]
  }

  function Last(l: seq<int>): int {
    if l == [] then 0 else l[|l| - 1]
  }

  /** What the server heard and what is on the way to it are the numbers delivered when they were written. */
  predicate Books(y: System, m: Memory) {
    && m.heard + Counts(y.c.wire) == m.told && Rising(m.told, |y.c.delivered|)
    && Last(m.heard) == m.acked <= |y.s.sent| && m.kept == y.s.sent[m.acked..]
  }

  lemma {:induction false} CountsAppend(v: seq<Node>, w: seq<Node>)
    ensures Counts(v + w) == Counts(v) + Counts(w)
  {
    if v == [] {
      assert v + w == w;
    } else {
      assert (v + w)[1..] == v[1..] + w;
      CountsAppend(v[1..], w);
    }
  }

  lemma CountOfOne(n: Node)
    ensures Counts([n]) == CountOf(n)
  {
    assert [n][1..] == [] && CountOf(n) + [] == CountOf(n);
  }

  lemma {:induction false} NoCounts(xs: seq<Stanza>)
    ensures Counts(AsNodes(xs)) == []
  {
    if xs == [] {
    } else {
      assert AsNodes(xs)[1..] == AsNodes(xs[1..]);
      NoCounts(xs[1..]);
    }
  }

  // What the client writes

  /** Whenever it tells a number, it is the number of stanzas delivered; it tells none otherwise. */
  lemma Written(y: System, step: Step)
    requires Inv(y) && Allowed(y, step) && !step.ServerReads? && !step.ServerRefuses? && !step.LinkLoss?
    ensures Counts(After(y, step).c.wire) == Counts(y.c.wire) + if Tells(y, step) then [|y.c.delivered|] else []
  {
    hide Links, QueueShape, Values, AsNodes, Counts;
    var w := y.c.wire;
    assert Counts(w) + [] == Counts(w);
    match step
    case Bound =>
      CountsAppend(w, [EnableRequest(y.c.resume)]);
      CountsAppend(w, [ResumeRequest(y.c.handled, y.c.id)]);
      CountOfOne(EnableRequest(y.c.resume));
      CountOfOne(ResumeRequest(y.c.handled, y.c.id));
    case AppSend(x) =>
      CountsAppend(w, [StanzaNode(x)]);
      CountOfOne(StanzaNode(x));
    case ClientAck =>
      CountsAppend(w, [Ack(y.c.handled)]);
      CountOfOne(Ack(y.c.handled));
    case ClientReads(_) => ReadWritten(y);
    case _ =>
  }

  lemma ReadWritten(y: System)
    requires Inv(y) && Allowed(y, ClientReads([]))
    ensures
      Counts(After(y, ClientReads([])).c.wire) ==
      Counts(y.c.wire) + if Tells(y, ClientReads([])) then [|y.c.delivered|] else []
  {
    hide Links, QueueShape, Values, AsNodes, Counts;
    var w := y.c.wire;
    assert Counts(w) + [] == Counts(w) && w + [] == w;
    match y.s.wire[0]
    case ResumedReply(h, previd) =>
      var d := y.c.(ctx := Resumed);
      assert AfterSends(d, []) == d;
      var again := Values(y.c.queue, Above(y.c.queue.Keys, h));
      CountsAppend(w, AsNodes(again));
      NoCounts(again);
    case AckRequest =>
      CountsAppend(w, [Ack(y.c.handled)]);
      CountOfOne(Ack(y.c.handled));
    case _ =>
  }

  // Every step keeps the books

  lemma KeptByReading(y: System, m: Memory)
    requires Inv(y) && Allowed(y, ServerReads) && Books(y, m)
    ensures Books(After(y, ServerReads), Remembering(y, m, ServerReads))
  {
    hide Links, QueueShape, ServerOn;
    var n, rest := y.c.wire[0], Counts(y.c.wire[1..]);
    SentStays(y.s, n);
    if CountOf(n) == [] {
      assert Counts(y.c.wire) == rest;
    } else {
      var h := CountOf(n)[0];
      assert m.told == m.heard + [h] + rest;
      assert m.told[|m.heard|] == h;
      assert m.acked <= h by {
        if m.heard != [] {
          assert m.told[|m.heard| - 1] == Last(m.heard);
        }
      }
      assert y.s.sent[m.acked..][h - m.acked..] == y.s.sent[h..];
    }
  }

  lemma SentStays(s: Server, n: Node)
    ensures ServerOn(s, n).sent == s.sent
  {
  }

  lemma KeptByWriting(y: System, m: Memory, step: Step)
    requires Inv(y) && Allowed(y, step) && Books(y, m)
    requires !step.ServerReads? && !step.ServerRefuses? && !step.LinkLoss?
    ensures Books(After(y, step), Remembering(y, m, step))
  {
    hide Inv, Counts, AfterNode;
    Written(y, step);
    DeliveredGrows(y, step);
    if step.ServerSends? {
      assert (y.s.sent + [step.x])[m.acked..] == y.s.sent[m.acked..] + [step.x];
    }
    var told := Remembering(y, m, step).told;
    assert m.heard + (Counts(y.c.wire) + [|y.c.delivered|]) == m.told + [|y.c.delivered|];
    assert Counts(y.c.wire) + [] == Counts(y.c.wire);
  }

  lemma DeliveredGrows(y: System, step: Step)
    ensures |After(y, step).c.delivered| >= |y.c.delivered|
    ensures !step.ServerSends? && !step.ServerReads? ==> After(y, step).s.sent == y.s.sent
  {
    hide Values, AsNodes;
    if step.ClientReads? && y.s.wire != [] {
      SendsDeliverNothing(y.c.(ctx := Resumed), step.replies);
    }
  }

  lemma {:induction false} SendsDeliverNothing(c: ClientState, xs: seq<Stanza>)
    ensures AfterSends(c, xs).delivered == c.delivered
    decreases |xs|
  {
    if xs == [] {
    } else {
      SendsDeliverNothing(AfterSend(c, xs[0]), xs[1..]);
    }
  }

  lemma KeptByLoss(y: System, m: Memory, step: Step)
    requires Inv(y) && Allowed(y, step) && Books(y, m) && (step.LinkLoss? || step.ServerRefuses?)
    ensures Books(After(y, step), Remembering(y, m, step))
  {
    assert After(y, step).c.wire == [];
    assert m.heard == m.told[..|m.heard|] && m.heard + [] == m.heard;
  }

  lemma BooksKept(y: System, m: Memory, step: Step)
    requires Inv(y) && Allowed(y, step) && Books(y, m)
    ensures Books(After(y, step), Remembering(y, m, step))
  {
    hide Inv, Books, After, Remembering, Allowed;
    match step
    case ServerReads => KeptByReading(y, m);
    case ServerRefuses => KeptByLoss(y, m, step);
    case LinkLoss => KeptByLoss(y, m, step);
    case _ => KeptByWriting(y, m, step);
  }

  lemma {:induction false} BooksOfRun(y: System, m: Memory, steps: seq<Step>)
    requires Inv(y) && Books(y, m)
    ensures Inv(Run(y, steps)) && Books(Run(y, steps), Memories(y, m, steps))
    decreases |steps|
  {
    hide Inv, Books, After, Remembering, Allowed;
    if steps == [] {
    } else if Allowed(y, steps[0]) {
      KeptByStep(y, steps[0]);
      BooksKept(y, m, steps[0]);
      BooksOfRun(After(y, steps[0]), Remembering(y, m, steps[0]), steps[1..]);
    } else {
      BooksOfRun(y, m, steps[1..]);
    }
  }

  // What holds of every run

  lemma Reached(steps: seq<Step>)
    ensures Inv(Run(Start, steps)) && Books(Run(Start, steps), Memories(Start, Empty, steps))
  {
    assert Start.s.sent[0..] == [];
    BooksOfRun(Start, Empty, steps);
  }

  /**
   * On every run the numbers the server was told, followed by those on the way to it, are those of the stanzas
   * delivered at the moments the client had to tell, and the last one is what it takes for acknowledged. What the
   * client got, followed by what the server keeps behind that, is all the server sent: nothing is forgotten that
   * may still have to be sent again.
   */
  lemma AcksAreTrue(steps: seq<Step>)
    ensures
      var y, m := Run(Start, steps), Memories(Start, Empty, steps);
      && m.heard + Counts(y.c.wire) == m.told && m.acked == Last(m.heard)
      && m.acked <= |y.c.delivered| <= m.acked + |m.kept|
      && y.c.delivered + m.kept[|y.c.delivered| - m.acked..] == y.s.sent
  {
    hide Run, Memories, Counts, Links, QueueShape;
    Reached(steps);
    var y, m := Run(Start, steps), Memories(Start, Empty, steps);
    if m.heard != [] {
      assert m.told[|m.heard| - 1] == Last(m.heard);
    }
    var n := |y.c.delivered|;
    assert y.s.sent[m.acked..][n - m.acked..] == y.s.sent[n..];
    assert y.s.sent == y.s.sent[..n] + y.s.sent[n..];
  }

  /**
   * In every reachable state with a session's link up, an answer to the server's request, and an acknowledgement
   * the application volunteers, tell exactly the number of stanzas delivered; so does the request to resume.
   */
  lemma ToldTruly(steps: seq<Step>)
    ensures
      var y := Run(Start, steps);
      && (y.c.connected && Active(y.c.ctx) ==>
          && After(y, ClientAck).c.wire == y.c.wire + [Ack(|y.c.delivered|)]
          && (y.s.wire != [] && y.s.wire[0].AckRequest? ==>
              After(y, ClientReads([])).c.wire == y.c.wire + [Ack(|y.c.delivered|)]))
      && (!y.c.connected && y.c.ctx == Enabled ==>
          After(y, Bound).c.wire == [ResumeRequest(|y.c.delivered|, SESSION)])
  {
    hide Run;
    EveryRun(steps);
  }

  /**
   * A server that remembers nothing but that number and what it keeps can send again on a resumption all that has
   * to be: it is what the client has not got.
   */
  lemma ResentFromMemory(steps: seq<Step>)
    ensures
      var y, m := Run(Start, steps), Memories(Start, Empty, steps);
      Allowed(y, ServerReads) && y.c.wire[0].ResumeRequest? ==>
        var z, kept := After(y, ServerReads), Remembering(y, m, ServerReads).kept;
        && z.s.wire == [ResumedReply(|y.s.handled|, SESSION)] + AsNodes(kept)
        && y.c.delivered + kept == y.s.sent
  {
    hide Run, Memories, Books, Inv, Allowed, After, Remembering;
    Reached(steps);
    FromMemory(Run(Start, steps), Memories(Start, Empty, steps));
  }

  lemma FromMemory(y: System, m: Memory)
    requires Inv(y) && Books(y, m)
    ensures
      Allowed(y, ServerReads) && y.c.wire[0].ResumeRequest? ==>
        var z, kept := After(y, ServerReads), Remembering(y, m, ServerReads).kept;
        && z.s.wire == [ResumedReply(|y.s.handled|, SESSION)] + AsNodes(kept)
        && y.c.delivered + kept == y.s.sent
  {
    hide Counts, AsNodes, QueueShape, Forgetting, Stanzas, Plain, Rising;
    if Allowed(y, ServerReads) && y.c.wire[0].ResumeRequest? {
      var h := |y.c.delivered|;
      WhenResuming(y);
      KeptByReading(y, m);
      assert Last(m.heard + [h]) == h;
      var reply := [ResumedReply(|y.s.handled|, SESSION)] + AsNodes(y.s.sent[h..]);
      assert [] + reply == reply;
      assert y.s.sent == y.s.sent[..h] + y.s.sent[h..];
    }
  }

  lemma WhenResuming(y: System)
    requires Inv(y) && Allowed(y, ServerReads) && y.c.wire[0].ResumeRequest?
    ensures y.c.wire == [ResumeRequest(|y.c.delivered|, SESSION)] && y.s.wire == []
  {
    hide QueueShape, Stanzas;
  }
}
