/** BOSH (XEP-0124): that waiting data goes out in the end, and the window the server announced. */
module BoshProgress {
  import opened BoshReceive
  import opened BoshSend

  // The window

  /** The window is the least the server ever announced, or what it was before. */
  lemma {:induction false} LeastLimit(r: Run, steps: seq<Step>)
    ensures
      var max := Steps(r, steps).b.max;
      && max <= r.b.max && (forall i | 0 <= i < |steps| && steps[i].Limit? :: max <= steps[i].requests)
      && (max == r.b.max || exists i :: 0 <= i < |steps| && steps[i] == Limit(max))
    decreases |steps|
  {
    hide After;
    if steps == [] {
    } else {
      var max := Steps(r, steps).b.max;
      OneLimit(r, steps[0]);
      LeastLimit(After(r, steps[0]), steps[1..]);
      assert forall i | 1 <= i < |steps| :: steps[i] == steps[1..][i - 1];
      if max != After(r, steps[0]).b.max {
        var i :| 0 <= i < |steps[1..]| && steps[1..][i] == Limit(max);
        assert steps[i + 1] == Limit(max);
      }
    }
  }

  lemma OneLimit(r: Run, step: Step)
    ensures
      After(r, step).b.max == if step.Limit? && step.requests < r.b.max then step.requests else r.b.max
  {
  }

  // Trying again

  function Polls(n: nat, env: Env): (s: seq<Step>)
    ensures |s| == n
  {
    seq(n, i => Poll(env))
  }

  lemma FirstPoll(r: Run, n: nat, env: Env)
    ensures Steps(r, Polls(n + 1, env)) == Steps(After(r, Poll(env)), Polls(n, env))
    ensures Steps(r, Polls(0, env)) == r
  {
    hide After;
    assert Polls(n + 1, env)[1..] == Polls(n, env);
  }

  /** Data waits for nothing but a connection: the session is up and the window has room. */
  predicate Waits(b: Bosh) {
    b.state == Connected && b.buffer != "" && (b.open <= 0 || b.open < b.max)
  }

  /** Nothing can be sent on but what is in the pool. */
  predicate PoolOnly(b: Bosh) {
    b.pool != [] && (b.mode == Pipelining ==> b.active == [])
  }

  lemma NextInPool(r: Run, env: Env)
    requires Waits(r.b) && PoolOnly(r.b)
    ensures
      var a, conn := After(r, Poll(env)), r.b.pool[0];
      if conn !in env.up then a == r.(b := r.b.(pool := r.b.pool[1..] + [conn]))
      else if !env.takes then a.b.log == r.b.log && a.b.buffer == r.b.buffer
      else
        && a.b.log == r.b.log + [Request(r.b.rid + 1, if r.b.restart then "" else r.b.buffer, r.b.restart)]
        && a.b.buffer == "" && a.b.rid == r.b.rid + 1
  {
  }

  /**
   * If number i is the first connection of the pool that is up, the buffer goes out with poll number i and not
   * before: those that are not up are tried in turn, and go to the end.
   */
  lemma {:induction false} Progress(r: Run, env: Env, i: nat)
    requires Waits(r.b) && PoolOnly(r.b) && env.takes
    requires i < |r.b.pool| && r.b.pool[i] in env.up && forall j | 0 <= j < i :: r.b.pool[j] !in env.up
    ensures Steps(r, Polls(i, env)).b.log == r.b.log && Steps(r, Polls(i, env)).b.buffer == r.b.buffer
    ensures
      var z := Steps(r, Polls(i + 1, env));
      && z.b.log == r.b.log + [Request(r.b.rid + 1, if r.b.restart then "" else r.b.buffer, r.b.restart)]
      && z.b.buffer == "" && z.given == r.given
    decreases i
  {
    hide Steps, After, Polls;
    NextInPool(r, env);
    GivenStays(r, env);
    FirstPoll(r, i, env);
    if i == 0 {
      FirstPoll(After(r, Poll(env)), 0, env);
    } else {
      var a := After(r, Poll(env));
      assert a.b.pool == r.b.pool[1..] + [r.b.pool[0]];
      FirstPoll(r, i - 1, env);
      Progress(a, env, i - 1);
    }
  }

  lemma GivenStays(r: Run, env: Env)
    ensures After(r, Poll(env)).given == r.given
  {
  }

  /** If none of them is up, no number of polls sends anything, and nothing is lost. */
  lemma {:induction false} NoProgress(r: Run, env: Env, n: nat)
    requires Waits(r.b) && PoolOnly(r.b) && forall c | c in r.b.pool :: c !in env.up
    ensures
      var z := Steps(r, Polls(n, env));
      z.b.log == r.b.log && z.b.buffer == r.b.buffer && z.b.rid == r.b.rid && multiset(z.b.pool) == multiset(r.b.pool)
    decreases n
  {
    hide Steps, After, Polls;
    if n == 0 {
      FirstPoll(r, 0, env);
    } else {
      NextInPool(r, env);
      FirstPoll(r, n - 1, env);
      var a := After(r, Poll(env));
      assert r.b.pool == [r.b.pool[0]] + r.b.pool[1..];
      assert forall c | c in a.b.pool :: c in r.b.pool;
      NoProgress(a, env, n - 1);
    }
  }

  /**
   * Without pipelining, and with every connection busy, a try makes a new connection, and the next one sends on it
   * if it is up by then.
   */
  lemma NewConnection(r: Run, env: Env)
    requires Waits(r.b) && r.b.mode != Pipelining && r.b.pool == [] && r.b.active != []
    ensures
      var a := After(r, Poll(env));
      && a == r.(b := r.b.(pool := [r.b.next], next := r.b.next + 1))
      && (env.takes && r.b.next in env.up ==>
          var z := After(a, Poll(env));
          z.b.buffer == "" && z.b.active == r.b.active + [r.b.next] && |z.b.log| == |r.b.log| + 1)
  {
    assert [] + [r.b.next] == [r.b.next];
  }
}
