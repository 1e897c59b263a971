/**
 * BOSH (XEP-0124), sending: the send buffer, the request ids, the window of open requests and the two
 * lists of connections.
 */
module BoshSend {
  import opened BoshReceive

  datatype ConnState = Disconnected | Connecting | Connected

  /** A body that went out: its request id, the data wrapped in it, whether it asks for a stream restart. */
  datatype Request = Request(rid: nat, payload: string, restart: bool)

  /** The connections are numbered; `next` is the number of the one to be created next. */
  datatype Bosh = Bosh(
    state: ConnState, rid: nat, open: int, max: int, buffer: string, restart: bool, mode: Mode,
    active: seq<nat>, pool: seq<nat>, next: nat, log: seq<Request>)

  /**
   * What the surroundings contribute to one call: the connections that are up, whether the transport
   * takes the request, and whether too little time has passed since the last one.
   */
  datatype Env = Env(up: set<nat>, takes: bool, tooSoon: bool)

  // What each operation makes of the state

  /** getConnection and activateConnection: the new state and the connection to send on, if there is one. */
  function AfterGet(b: Bosh, env: Env): (Bosh, bool) {
    if b.open > 0 && b.open >= b.max then (b, false)
    else if b.mode == Pipelining && b.active != [] then (b, true)
    else if b.pool != [] then
      var conn, rest := b.pool[0], b.pool[1..];
      if conn in env.up then (b.(pool := rest, active := b.active + [conn]), true)
      else (b.(pool := rest + [conn]), false)
    else if b.mode != Pipelining && b.active != [] then (b.(pool := b.pool + [b.next], next := b.next + 1), false)
    else (b, false)
  }

  function AfterRequest(b: Bosh, r: Request, env: Env): (Bosh, bool) {
    var (g, found) := AfterGet(b, env);
    if found && env.takes then (g.(open := g.open + 1, log := g.log + [r]), true) else (g, false)
  }

  function AfterSendXml(b: Bosh, env: Env): Bosh {
    if b.state != Connected || (b.buffer == "" && env.tooSoon && b.open > 0) then b
    else
      var r := Request(b.rid + 1, if b.restart then "" else b.buffer, b.restart);
      var (g, sent) := AfterRequest(b.(rid := b.rid + 1), r, env);
      if sent then g.(buffer := "", restart := false) else g.(rid := b.rid)
  }

  predicate IsRestart(data: string) {
    "<?" <= data
  }

  /** Data that send adds to the buffer. */
  predicate IsPayload(b: Bosh, data: string) {
    b.state != Disconnected && !IsRestart(data) && data != "</stream:stream>"
  }

  function AfterSend(b: Bosh, data: string, env: Env): Bosh {
    if b.state == Disconnected then b
    else if IsRestart(data) then AfterSendXml(b.(restart := true), env)
    else if data == "</stream:stream>" then b
    else AfterSendXml(b.(buffer := b.buffer + data), env)
  }

  /** A response was taken out of the receive buffer: putConnection, and one request less is open. */
  function AfterResponse(b: Bosh): Bosh
    requires b.active != []
  {
    var b := b.(open := b.open - 1);
    if b.mode == Pipelining then b else b.(active := b.active[1..], pool := b.pool + [b.active[0]])
  }

  /** The transport is up: the session is asked for, under a request id chosen at random. */
  function AfterConnect(b: Bosh, rid: nat, env: Env): Bosh {
    if b.state == Connecting then AfterRequest(b.(rid := rid), Request(rid, "", false), env).0 else b
  }

  const FRESH_BOSH := Bosh(Disconnected, 0, 0, 2, "", false, Pipelining, [], [0], 1, [])

  class ConnectionBosh {
    var state: ConnState
    var rid: nat
    var openRequests: int
    var maxOpenRequests: int
    var sendBuffer: string
    var streamRestart: bool
    var connMode: Mode
    var activeConnections: seq<nat>
    var connectionPool: seq<nat>
    var nextConnection: nat
    var log: seq<Request>

    function State(): Bosh
      reads this
    {
      Bosh(state, rid, openRequests, maxOpenRequests, sendBuffer, streamRestart, connMode,
           activeConnections, connectionPool, nextConnection, log)
    }

    /** The object as the constructor leaves it: one connection, in the pool. */
    constructor ()
      ensures State() == FRESH_BOSH
    {
      state, rid, openRequests, maxOpenRequests := Disconnected, 0, 0, 2;
      sendBuffer, streamRestart, connMode := "", false, Pipelining;
      activeConnections, connectionPool, nextConnection, log := [], [0], 1, [];
    }

    method ActivateConnection(env: Env) returns (ok: bool)
      requires connectionPool != []
      modifies this
      ensures
        var b, conn, rest := old(State()), old(connectionPool)[0], old(connectionPool)[1..];
        && ok == (conn in env.up)
        && State() == if ok then b.(pool := rest, active := b.active + [conn]) else b.(pool := rest + [conn])
    {
      var conn := connectionPool[0];
      connectionPool := connectionPool[1..];
      if conn in env.up {
        activeConnections := activeConnections + [conn];
        return true;
      }
      connectionPool := connectionPool + [conn];
      return false;
    }

    method GetConnection(env: Env) returns (ok: bool)
      modifies this
      ensures (State(), ok) == AfterGet(old(State()), env)
    {
      if openRequests > 0 && openRequests >= maxOpenRequests {
        return false;
      }
      ok := false;
      match connMode {
        case Pipelining =>
          if activeConnections != [] {
            return true;
          } else if connectionPool != [] {
            ok := ActivateConnection(env);
          }
        case _ =>
          if connectionPool != [] {
            ok := ActivateConnection(env);
          } else if activeConnections != [] {
            connectionPool := connectionPool + [nextConnection];
            nextConnection := nextConnection + 1;
          }
      }
    }

    /** Puts the connection a response came on back where the mode wants it. */
    method PutConnection()
      requires activeConnections != []
      modifies this
      ensures var b := old(State());
              State() == if b.mode == Pipelining then b else b.(active := b.active[1..], pool := b.pool + [b.active[0]])
    {
      var conn := activeConnections[0];
      if connMode != Pipelining {
        activeConnections := activeConnections[1..];
        connectionPool := connectionPool + [conn];
      }
    }

    method SendRequest(r: Request, env: Env) returns (ok: bool)
      modifies this
      ensures (State(), ok) == AfterRequest(old(State()), r, env)
    {
      ok := GetConnection(env);
      if !ok {
        return;
      }
      if env.takes {
        openRequests := openRequests + 1;
        log := log + [r];
        return true;
      }
      return false;
    }

    /** ConnectionBOSH::handleConnect. */
    method HandleConnect(random: nat, env: Env)
      modifies this
      ensures State() == AfterConnect(old(State()), random, env)
    {
      hide AfterGet;
      if state == Connecting {
        rid := random;
        var _ := SendRequest(Request(rid, "", false), env);
      }
    }

    method SendXml(env: Env)
      modifies this
      ensures State() == AfterSendXml(old(State()), env)
    {
      hide AfterGet;
      if state != Connected {
        return;
      }
      if sendBuffer == "" {
        if env.tooSoon && openRequests > 0 {
          return;
        }
      }
      rid := rid + 1;
      var r := Request(rid, if streamRestart then "" else sendBuffer, streamRestart);
      RequestKeepsRid(State(), r, env);
      var sent := SendRequest(r, env);
      if sent {
        sendBuffer := "";
        streamRestart := false;
      } else {
        rid := rid - 1;
      }
    }

    /** ConnectionBOSH::send. */
    method Send(data: string, env: Env) returns (ok: bool)
      modifies this
      ensures ok == (old(state) != Disconnected)
      ensures State() == AfterSend(old(State()), data, env)
    {
      if state == Disconnected {
        return false;
      }
      if |data| >= 2 && data[..2] == "<?" {
        streamRestart := true;
        SendXml(env);
        return true;
      } else if data == "</stream:stream>" {
        return true;
      }
      sendBuffer := sendBuffer + data;
      SendXml(env);
      return true;
    }

    /** The part of handleReceivedData that accounts for one response. */
    method Response()
      requires activeConnections != []
      modifies this
      ensures State() == AfterResponse(old(State()))
    {
      PutConnection();
      openRequests := openRequests - 1;
    }
  }

  lemma RequestKeepsRid(b: Bosh, r: Request, env: Env)
    ensures AfterRequest(b, r, env).0.rid == b.rid
  {
  }

  // Runs

  datatype Step =
    | Send(data: string, env: Env)
    | Poll(env: Env)             // recv: an empty request, or another try for the buffer
    | Response                   // a response is consumed
    | Limit(requests: int)       // the server announces how many requests it takes
    | Fallback                   // a connection was closed, or the server speaks HTTP/1.0
    | BodyRead                   // a body element is read: a restart still waiting is taken as answered
    | Opened                     // the server names the session
    | Closed                     // the server ends the session

  /** The state, with all data handed to send since the session is up, and the responses consumed. */
  datatype Run = Run(b: Bosh, given: string, answered: nat)

  function After(r: Run, step: Step): Run {
    match step
    case Send(data, env) =>
      r.(b := AfterSend(r.b, data, env), given := if IsPayload(r.b, data) then r.given + data else r.given)
    case Poll(env) => if r.b.open == 0 || r.b.buffer != "" then r.(b := AfterSendXml(r.b, env)) else r
    case Response => if r.b.active != [] then r.(b := AfterResponse(r.b), answered := r.answered + 1) else r
    case Limit(n) => if n < r.b.max then r.(b := r.b.(max := n)) else r
    case Fallback => r.(b := r.b.(mode := LegacyHTTP))
    case BodyRead => r.(b := r.b.(restart := false))
    case Opened => r.(b := r.b.(state := Connected))
    case Closed => r.(b := r.b.(state := Disconnected))
  }

  function Steps(r: Run, steps: seq<Step>): Run
    decreases |steps|
  {
    if steps == [] then r else Steps(After(r, steps[0]), steps[1..])
  }

  function Payloads(log: seq<Request>): string {
    if log == [] then "" else Payloads(log[..|log| - 1]) + log[|log| - 1].payload
  }

  /** There is a connection to send on: an active one under pipelining, or the first of the pool is up. */
  predicate Ready(b: Bosh, env: Env) {
    (b.mode == Pipelining && b.active != []) || (b.pool != [] && b.pool[0] in env.up)
  }

  /**
   * What has to be the case for sendXML to put a request on the wire: the session is up, an empty request
   * does not come too soon, the window has room, and a connection is there and takes the request.
   */
  predicate Goes(b: Bosh, env: Env) {
    && b.state == Connected && !(b.buffer == "" && env.tooSoon && b.open > 0)
    && (b.open <= 0 || b.open < b.max)
    && Ready(b, env) && env.takes
  }

  /** The step puts a restart request on the wire while data waits in the buffer. */
  predicate DropsData(r: Run, step: Step) {
    match step
    case Send(data, env) =>
      if IsRestart(data) then r.b.buffer != "" && Goes(r.b.(restart := true), env)
      else
        && data != "</stream:stream>" && r.b.restart && r.b.buffer + data != ""
        && Goes(r.b.(buffer := r.b.buffer + data), env)
    case Poll(env) => r.b.restart && r.b.buffer != "" && Goes(r.b, env)
    case _ => false
  }

  /** No data is lost: what went out, followed by what waits, is what was given. */
  predicate Conserved(r: Run) {
    Payloads(r.b.log) + r.b.buffer == r.given
  }

  lemma SendXmlData(b: Bosh, env: Env)
    ensures
      var a := AfterSendXml(b, env);
      if Goes(b, env) then
        a.log == b.log + [Request(b.rid + 1, if b.restart then "" else b.buffer, b.restart)]
        && a.buffer == "" && a.rid == b.rid + 1 && a.open == b.open + 1
      else a.log == b.log && a.buffer == b.buffer && a.rid == b.rid && a.open == b.open
  {
  }

  /** A call of sendXML keeps all data exactly if it does not send a restart over a filled buffer. */
  lemma SendXmlConserves(b: Bosh, env: Env)
    ensures
      var a := AfterSendXml(b, env);
      Payloads(a.log) + a.buffer == Payloads(b.log) + b.buffer <==> !(b.restart && b.buffer != "" && Goes(b, env))
  {
    SendXmlData(b, env);
    var a := AfterSendXml(b, env);
    if Goes(b, env) {
      assert a.log[..|a.log| - 1] == b.log;
      assert |Payloads(b.log) + b.buffer| == |Payloads(b.log)| + |b.buffer|;
    }
  }

  /** A step conserves the data if and only if it does not send a restart over a filled buffer. */
  lemma StepConserves(r: Run, step: Step)
    requires Conserved(r)
    ensures Conserved(After(r, step)) <==> !DropsData(r, step)
  {
    hide AfterSendXml, Goes, Payloads;
    match step
    case Send(data, env) =>
      if r.b.state == Disconnected {
        NotGoing(r.b, data, env);
      } else if IsRestart(data) {
        SendXmlData(r.b.(restart := true), env);
        SendXmlConserves(r.b.(restart := true), env);
      } else {
        SendXmlData(r.b.(buffer := r.b.buffer + data), env);
        SendXmlConserves(r.b.(buffer := r.b.buffer + data), env);
        assert Payloads(r.b.log) + (r.b.buffer + data) == r.given + data;
      }
    case Poll(env) => SendXmlConserves(r.b, env);
    case _ =>
  }

  lemma NotGoing(b: Bosh, data: string, env: Env)
    requires b.state == Disconnected
    ensures !Goes(b.(restart := true), env) && !Goes(b.(buffer := b.buffer + data), env)
  {
  }

  predicate NeverDrops(r: Run, steps: seq<Step>)
    decreases |steps|
  {
    steps == [] || (!DropsData(r, steps[0]) && NeverDrops(After(r, steps[0]), steps[1..]))
  }

  /**
   * Over every run in which no restart goes out over a filled buffer, the payloads on the wire followed
   * by the buffer are all the data given to send, whichever attempts fail.
   */
  lemma {:induction false} Conservation(r: Run, steps: seq<Step>)
    requires Conserved(r) && NeverDrops(r, steps)
    ensures Conserved(Steps(r, steps))
    decreases |steps|
  {
    if steps == [] {
    } else {
      StepConserves(r, steps[0]);
      Conservation(After(r, steps[0]), steps[1..]);
    }
  }

  // Request ids, the window and the connections

  /** The requests carry the ids after `first` without a gap, and the open ones are those not answered. */
  predicate Counted(r: Run, first: nat) {
    && r.b.rid == first + |r.b.log|
    && (forall i | 0 <= i < |r.b.log| :: r.b.log[i].rid == first + 1 + i)
    && r.b.open == |r.b.log| - r.answered
  }

  /** Every connection ever made is in just one of the lists, once; none is lost. */
  ghost predicate Pooled(b: Bosh) {
    Once(All(b), b.next)
  }

  ghost predicate Once(all: multiset<nat>, next: nat) {
    forall i: nat :: all[i] == if i < next then 1 else 0
  }

  /** Moving the first of one list to the end of another, or of the same, keeps all of them. */
  lemma Moved(s: seq<nat>, t: seq<nat>)
    requires s != []
    ensures multiset(t + [s[0]]) + multiset(s[1..]) == multiset(t) + multiset(s)
    ensures multiset(s[1..] + [s[0]]) == multiset(s)
  {
    assert s == [s[0]] + s[1..];
    assert multiset(s) == multiset([s[0]]) + multiset(s[1..]);
  }

  function All(b: Bosh): multiset<nat> {
    multiset(b.active) + multiset(b.pool)
  }

  /** getConnection moves connections, or makes one new one. */
  lemma GetMoves(b: Bosh, env: Env)
    ensures
      var g := AfterGet(b, env).0;
      || (g.next == b.next && All(g) == All(b))
      || (g.next == b.next + 1 && All(g) == All(b) + multiset{b.next})
  {
    hide All;
    if b.pool != [] {
      Activated(b);
    }
    Created(b);
  }

  /** The first of the pool becomes active, or goes to the end of the pool. */
  lemma Activated(b: Bosh)
    requires b.pool != []
    ensures All(b.(pool := b.pool[1..], active := b.active + [b.pool[0]])) == All(b)
    ensures All(b.(pool := b.pool[1..] + [b.pool[0]])) == All(b)
  {
    Moved(b.pool, b.active);
  }

  lemma Created(b: Bosh)
    ensures All(b.(pool := b.pool + [b.next], next := b.next + 1)) == All(b) + multiset{b.next}
  {
  }

  lemma GetPooled(b: Bosh, env: Env)
    requires Pooled(b)
    ensures Pooled(AfterGet(b, env).0)
  {
    hide AfterGet;
    GetMoves(b, env);
    StillPooled(b, AfterGet(b, env).0);
  }

  lemma StillPooled(b: Bosh, g: Bosh)
    requires Pooled(b)
    requires (g.next == b.next && All(g) == All(b)) || (g.next == b.next + 1 && All(g) == All(b) + multiset{b.next})
    ensures Pooled(g)
  {
    hide All;
    forall i: nat
      ensures All(g)[i] == if i < g.next then 1 else 0
    {
      assert All(b)[i] == if i < b.next then 1 else 0;
    }
  }

  lemma SendXmlPooled(b: Bosh, env: Env)
    requires Pooled(b)
    ensures Pooled(AfterSendXml(b, env))
  {
    hide AfterGet, Pooled;
    var next := b.(rid := b.rid + 1);
    SamePool(b, next);
    GetPooled(next, env);
    SamePool(AfterGet(next, env).0, AfterSendXml(b, env));
  }

  lemma SamePool(b: Bosh, g: Bosh)
    requires Pooled(b)
    ensures g.active == b.active && g.pool == b.pool && g.next == b.next ==> Pooled(g)
  {
    hide Once;
  }

  lemma ResponsePooled(b: Bosh)
    requires b.active != [] && Pooled(b)
    ensures Pooled(AfterResponse(b))
  {
    hide Once;
    Moved(b.active, b.pool);
    assert All(AfterResponse(b)) == All(b);
  }

  ghost predicate Orderly(r: Run, first: nat) {
    Counted(r, first) && Pooled(r.b)
  }

  lemma SendXmlOrderly(r: Run, b: Bosh, env: Env, given: string, first: nat)
    requires Orderly(r, first) && b.log == r.b.log && b.rid == r.b.rid && b.open == r.b.open && b.max == r.b.max
    requires Pooled(b)
    ensures
      var a := AfterSendXml(b, env);
      && Orderly(Run(a, given, r.answered), first)
      && (|a.log| > |r.b.log| ==> |a.log| == |r.b.log| + 1 && (r.b.open <= 0 || r.b.open < r.b.max))
  {
    hide AfterSendXml, Ready, Pooled;
    SendXmlData(b, env);
    SendXmlPooled(b, env);
  }

  lemma ResponseOrderly(r: Run, first: nat)
    requires Orderly(r, first)
    ensures Orderly(After(r, Step.Response), first) && After(r, Step.Response).b.log == r.b.log
  {
    hide Pooled;
    if r.b.active != [] {
      ResponsePooled(r.b);
    }
  }

  lemma StepOrderly(r: Run, step: Step, first: nat)
    requires Orderly(r, first)
    ensures Orderly(After(r, step), first)
    ensures |After(r, step).b.log| > |r.b.log| ==>
      |After(r, step).b.log| == |r.b.log| + 1 && (r.b.open <= 0 || r.b.open < r.b.max)
  {
    hide Once, AfterSendXml, AfterResponse;
    match step
    case Send(data, env) =>
      var b := if IsRestart(data) then r.b.(restart := true) else r.b.(buffer := r.b.buffer + data);
      SamePool(r.b, b);
      SendXmlOrderly(r, b, env, After(r, step).given, first);
    case Poll(env) => SendXmlOrderly(r, r.b, env, r.given, first);
    case Response => ResponseOrderly(r, first);
    case _ =>
  }

  /**
   * Over every run, however many attempts fail: the ids on the wire are consecutive, the open requests
   * are those sent and not answered, and the two lists hold every connection exactly once. By StepOrderly
   * a step sends at most one request, and only when none is open or fewer than the server allows.
   */
  lemma {:induction false} EveryRun(r: Run, steps: seq<Step>, first: nat)
    requires Orderly(r, first)
    ensures Orderly(Steps(r, steps), first)
    decreases |steps|
  {
    if steps == [] {
    } else {
      StepOrderly(r, steps[0], first);
      EveryRun(After(r, steps[0]), steps[1..], first);
    }
  }

  /** A fresh object that connects is where such runs begin, whether or not the request for the session goes out. */
  lemma RunsBegin(rid: nat, env: Env)
    requires rid > 0
    ensures
      var r := Run(AfterConnect(FRESH_BOSH.(state := Connecting), rid, env), "", 0);
      Conserved(r) && Served(r.b) && Orderly(r, if r.b.log == [] then rid else rid - 1)
  {
    var b := FRESH_BOSH.(state := Connecting);
    assert multiset([0]) == multiset{0} && multiset([0][1..] + [0]) == multiset{0};
    GetPooled(b.(rid := rid), env);
    assert [Request(rid, "", false)][..0] == [];
  }

  /**
   * Every open request has a connection to be answered on: under pipelining one serves them all, else
   * each has its own.
   */
  predicate Served(b: Bosh) {
    if b.mode == Pipelining then b.open > 0 ==> b.active != [] else b.open <= |b.active|
  }

  /**
   * A step keeps that if and only if it does not give up pipelining while more requests are open than
   * connections active: then answers are left over that no connection is put back for.
   */
  lemma StepServed(r: Run, step: Step)
    requires Served(r.b)
    ensures Served(After(r, step).b) <==> !(step.Fallback? && r.b.mode == Pipelining && r.b.open > |r.b.active|)
  {
    match step
    case Send(data, env) =>
      var b := if IsRestart(data) then r.b.(restart := true) else r.b.(buffer := r.b.buffer + data);
      SendXmlServed(b, env);
    case Poll(env) => SendXmlServed(r.b, env);
    case _ =>
  }

  lemma SendXmlServed(b: Bosh, env: Env)
    requires Served(b)
    ensures Served(AfterSendXml(b, env))
  {
  }

  // Received data

  /** The steps that received responses amount to, `puts` being the modes their connections are put back under. */
  function Answers(mode: Mode, puts: seq<Mode>, last: Mode): seq<Step>
    decreases |puts|
  {
    if puts == [] then (if last != mode then [Fallback] else [])
    else (if puts[0] != mode then [Fallback] else []) + ([Step.Response] + Answers(puts[0], puts[1..], last))
  }

  lemma {:induction false} StepsAppend(r: Run, a: seq<Step>, b: seq<Step>)
    ensures Steps(r, a + b) == Steps(Steps(r, a), b)
    decreases |a|
  {
    hide After;
    if a == [] {
      assert a + b == b;
    } else {
      assert (a + b)[1..] == a[1..] + b;
      StepsAppend(After(r, a[0]), a[1..], b);
    }
  }

  lemma OneStep(r: Run, step: Step)
    ensures Steps(r, [step]) == After(r, step) && Steps(r, []) == r
  {
    hide After;
    assert [step][1..] == [];
  }

  lemma {:induction false} Answered(r: Run, puts: seq<Mode>, last: Mode)
    requires FallingBack(r.b.mode, puts, last) && Served(r.b) && |puts| <= r.b.open
    requires last == r.b.mode || r.b.open <= |r.b.active|
    ensures
      var z := Steps(r, Answers(r.b.mode, puts, last));
      && z.b.mode == last && z.b.open == r.b.open - |puts| && z.answered == r.answered + |puts|
      && Served(z.b) && z.b.log == r.b.log
    decreases |puts|
  {
    var back := if puts == [] then last else puts[0];
    var first := if back != r.b.mode then [Fallback] else [];
    var f := if back != r.b.mode then After(r, Fallback) else r;
    OneStep(r, Fallback);
    if puts == [] {
      assert Steps(r, first) == f;
    } else {
      var more := Answers(puts[0], puts[1..], last);
      StepsAppend(r, first, [Step.Response] + more);
      StepsAppend(f, [Step.Response], more);
      OneStep(f, Step.Response);
      LastMode(back, puts[1..], last);
      Answered(After(f, Step.Response), puts[1..], last);
    }
  }

  lemma {:induction false} LastMode(mode: Mode, puts: seq<Mode>, last: Mode)
    requires FallingBack(mode, puts, last)
    ensures last == mode || last == LegacyHTTP
    decreases |puts|
  {
    if puts == [] {
    } else {
      LastMode(puts[0], puts[1..], last);
    }
  }

  /**
   * One call of handleReceivedData, for both sides of it: every body fed to the parser closes one open request,
   * whose connection is put back under the mode recorded, and the mode ends as the receiver leaves it, provided
   * every open request has a connection, also where the call falls back to HTTP/1.0.
   */
  lemma ReceivedData(r: Run, d: Received, data: string)
    requires d.mode == r.b.mode && !d.hung && Served(r.b)
    ensures
      var e := AfterData(d, data);
      var puts := NewPuts(d, e);
      |puts| <= r.b.open && (e.mode == d.mode || r.b.open <= |r.b.active|) ==>
        var z := Steps(r, Answers(d.mode, puts, e.mode));
        && z.b.mode == e.mode && z.b.open == r.b.open - (|e.bodies| - |d.bodies|) && Served(z.b)
        && z.answered == r.answered + (|e.bodies| - |d.bodies|)
  {
    hide Deframed, Served, Steps, Answers;
    PutsFallBack(d.(buffer := d.buffer + data));
    var e := AfterData(d, data);
    var puts := NewPuts(d, e);
    if |puts| <= r.b.open && (e.mode == d.mode || r.b.open <= |r.b.active|) {
      Answered(r, puts, e.mode);
    }
  }

  // Both sides together

  /** The sending side with the receiving one, on the same connections. */
  datatype Session = Session(run: Run, received: Received)

  datatype Event =
    | Local(step: Step)          // a step that does not come from received data
    | Data(data: string)         // a call of handleReceivedData

  /** What responses bring about comes with the data; a closed connection changes the mode of both sides. */
  function AfterEvent(s: Session, event: Event): Session {
    match event
    case Local(Response) => s
    case Local(Fallback) => Session(After(s.run, Fallback), s.received.(mode := LegacyHTTP))
    case Local(step) => s.(run := After(s.run, step))
    case Data(data) =>
      var e := AfterData(s.received, data);
      Session(Steps(s.run, Answers(s.received.mode, NewPuts(s.received, e), e.mode)), e)
  }

  /**
   * The server answers no request that is not open, and pipelining is not given up with more requests open than
   * connections active.
   */
  predicate Fair(s: Session, event: Event) {
    match event
    case Local(Fallback) => s.run.b.mode == Pipelining ==> s.run.b.open <= |s.run.b.active|
    case Local(_) => true
    case Data(data) =>
      var e := AfterData(s.received, data);
      |NewPuts(s.received, e)| <= s.run.b.open && (e.mode == s.received.mode || s.run.b.open <= |s.run.b.active|)
  }

  /**
   * Both sides agree on the mode; every body fed has closed one request; every open request has a connection;
   * and the sending side is in order.
   */
  ghost predicate Together(s: Session, first: nat) {
    && Orderly(s.run, first) && Served(s.run.b)
    && s.run.b.mode == s.received.mode && s.run.answered == |s.received.bodies|
  }

  /** A fresh object that connects, with its receiving side. */
  lemma SessionsBegin(rid: nat, env: Env)
    requires rid > 0
    ensures
      var r := Run(AfterConnect(FRESH_BOSH.(state := Connecting), rid, env), "", 0);
      Together(Session(r, FRESH), if r.b.log == [] then rid else rid - 1)
  {
    RunsBegin(rid, env);
  }

  lemma KeptByData(s: Session, data: string, first: nat)
    requires Together(s, first) && Fair(s, Data(data))
    ensures Together(AfterEvent(s, Data(data)), first)
  {
    hide Deframed, Served, Steps, Answers, Orderly, AfterData;
    var e := AfterData(s.received, data);
    var steps := Answers(s.received.mode, NewPuts(s.received, e), e.mode);
    EveryRun(s.run, steps, first);
    DataPuts(s.received, data);
    Answered(s.run, NewPuts(s.received, e), e.mode);
  }

  lemma DataPuts(d: Received, data: string)
    ensures
      var e := AfterData(d, data);
      |NewPuts(d, e)| == |e.bodies| - |d.bodies| && FallingBack(d.mode, NewPuts(d, e), e.mode)
  {
    hide Deframed;
    PutsFallBack(d.(buffer := d.buffer + data));
  }

  lemma KeptByLocal(s: Session, step: Step, first: nat)
    requires Together(s, first) && Fair(s, Local(step)) && !step.Response?
    ensures Together(AfterEvent(s, Local(step)), first)
  {
    hide Orderly, Served, AfterSendXml;
    StepOrderly(s.run, step, first);
    StepServed(s.run, step);
    StepMode(s.run, step);
  }

  /** Only a fallback changes the mode, and only responses answer. */
  lemma StepMode(r: Run, step: Step)
    ensures After(r, step).b.mode == if step.Fallback? then LegacyHTTP else r.b.mode
    ensures !step.Response? ==> After(r, step).answered == r.answered
  {
  }

  function Events(s: Session, events: seq<Event>): Session
    decreases |events|
  {
    if events == [] then s else Events(AfterEvent(s, events[0]), events[1..])
  }

  predicate AllFair(s: Session, events: seq<Event>)
    decreases |events|
  {
    events == [] || (Fair(s, events[0]) && AllFair(AfterEvent(s, events[0]), events[1..]))
  }

  /**
   * Over every interleaving of sending and receiving, data being cut into chunks anywhere: the ids on the wire are
   * consecutive, the open requests are those sent less the bodies fed to the parser, each of them has a connection
   * to be answered on, and the lists hold every connection exactly once.
   */
  lemma {:induction false} EverySession(s: Session, events: seq<Event>, first: nat)
    requires Together(s, first) && AllFair(s, events)
    ensures Together(Events(s, events), first)
    ensures Events(s, events).run.b.open == |Events(s, events).run.b.log| - |Events(s, events).received.bodies|
    decreases |events|
  {
    hide AfterEvent, Fair, Served;
    if events == [] {
    } else {
      match events[0]
      case Local(step) =>
        if step.Response? {
          NoEvent(s, step);
        } else {
          KeptByLocal(s, step, first);
        }
        EverySession(AfterEvent(s, events[0]), events[1..], first);
      case Data(data) =>
        KeptByData(s, data, first);
        EverySession(AfterEvent(s, events[0]), events[1..], first);
    }
  }

  lemma NoEvent(s: Session, step: Step)
    ensures step.Response? ==> AfterEvent(s, Local(step)) == s
  {
  }

  // Two runs on which things go wrong

  const WILLING := Env({0}, true, false)

  /** A fresh object that has asked for its session. */
  function Connecting5(): Run {
    Run(AfterConnect(FRESH_BOSH.(state := Connecting), 5, WILLING), "", 0)
  }

  /** One connection, under pipelining, with this many requests open and these sent. */
  function Busy(state: ConnState, rid: nat, open: int, buffer: string, log: seq<Request>): Bosh {
    Bosh(state, rid, open, 2, buffer, false, Pipelining, [0], [], 1, log)
  }

  const ASKED := Request(5, "", false)
  const SENT_A := Request(6, "a", false)

  lemma Began()
    ensures Connecting5() == Run(Busy(Connecting, 5, 1, "", [ASKED]), "", 0)
    ensures After(Connecting5(), Opened) == Run(Busy(Connected, 5, 1, "", [ASKED]), "", 0)
  {
    assert [] + [ASKED] == [ASKED] && [] + [0] == [0] && [0][1..] == [];
  }

  lemma SentA()
    ensures After(After(Connecting5(), Opened), Send("a", WILLING)) ==
            Run(Busy(Connected, 6, 2, "", [ASKED, SENT_A]), "a", 0)
  {
    hide Connecting5;
    Began();
    assert "" + "a" == "a" && !IsRestart("a") && [ASKED] + [SENT_A] == [ASKED, SENT_A];
  }

  lemma SentB()
    ensures
      var r := Run(Busy(Connected, 6, 2, "", [ASKED, SENT_A]), "a", 0);
      After(After(r, Send("b", WILLING)), Step.Response) ==
      Run(Busy(Connected, 6, 1, "b", [ASKED, SENT_A]), "ab", 1)
  {
    assert "" + "b" == "b" && "a" + "b" == "ab" && !IsRestart("b");
  }

  lemma StepsFirst(r: Run, steps: seq<Step>)
    requires steps != []
    ensures Steps(r, steps) == Steps(After(r, steps[0]), steps[1..])
  {
    hide After;
  }

  /** Two requests open on one connection that is closed: the second has none to be answered on. */
  lemma UnservedRun()
    ensures
      var r := Connecting5();
      Served(r.b) && !Served(Steps(r, [Opened, Send("a", WILLING), Fallback]).b)
  {
    hide Steps, Connecting5, AfterSend;
    Began();
    SentA();
    var r, a := Connecting5(), Send("a", WILLING);
    var steps := [Opened, a, Fallback];
    assert steps[1..] == [a, Fallback] && steps[1..][1..] == [Fallback];
    StepsFirst(r, steps);
    StepsFirst(After(r, Opened), steps[1..]);
    OneStep(After(After(r, Opened), a), Fallback);
  }

  /** Data that waits for the window when a restart is asked for. */
  lemma DroppedRun()
    ensures
      var r := Connecting5();
      var z := Steps(r, [Opened, Send("a", WILLING), Send("b", WILLING), Step.Response]);
      Conserved(z) && DropsData(z, Send("<?", WILLING)) && !Conserved(After(z, Send("<?", WILLING)))
  {
    hide DropsData, After, Connecting5, Steps, Conserved;
    var r, a, b := Connecting5(), Send("a", WILLING), Send("b", WILLING);
    var steps := [Opened, a, b, Step.Response];
    assert steps[1..] == [a, b, Step.Response] && steps[1..][1..] == [b, Step.Response];
    assert steps[1..][1..][1..] == [Step.Response];
    SentA();
    SentB();
    StepsFirst(r, steps);
    StepsFirst(After(r, Opened), steps[1..]);
    StepsFirst(After(After(r, Opened), a), steps[1..][1..]);
    OneStep(After(After(After(r, Opened), a), b), Step.Response);
    Waiting();
    StepConserves(Steps(r, steps), Send("<?", WILLING));
  }

  lemma Waiting()
    ensures
      var z := Run(Busy(Connected, 6, 1, "b", [ASKED, SENT_A]), "ab", 1);
      Conserved(z) && DropsData(z, Send("<?", WILLING))
  {
    assert [ASKED, SENT_A][..1] == [ASKED] && [ASKED][..0] == [];
    assert Payloads([ASKED]) == Payloads([]) + "";
    assert Payloads([ASKED, SENT_A]) == Payloads([ASKED]) + "a";
    assert "a" + "b" == "ab";
  }
}
