/** Stream Management turned on and off by the application: when a session is asked for, and when it can be resumed. */
module SmSettings {
  import opened SmProtocol
  import opened StreamManagement

  /** A call of setStreamManagement. */
  datatype Setting = Setting(enable: bool, resume: bool)

  /** Such calls while no resource is bound. */
  function Settings(c: ClientState, l: seq<Setting>): ClientState
    decreases |l|
  {
    if l == [] then c else Settings(AfterSetting(c, l[0].enable, l[0].resume, false), l[1..])
  }

  /** Stream Management stayed on. */
  predicate NeverOff(l: seq<Setting>) {
    forall i | 0 <= i < |l| :: l[i].enable
  }

  /** The last call counts for what is wanted; the session id survives if and only if no call turned it off. */
  lemma {:induction false} SettingsAre(c: ClientState, l: seq<Setting>)
    ensures
      var d := Settings(c, l);
      && d == c.(wanted := d.wanted, resume := d.resume, id := d.id)
      && d.wanted == (if l == [] then c.wanted else l[|l| - 1].enable)
      && d.resume == (if l == [] then c.resume else l[|l| - 1].enable && l[|l| - 1].resume)
      && d.id == (if NeverOff(l) then c.id else "")
    decreases |l|
  {
    if l == [] {
    } else {
      var d := AfterSetting(c, l[0].enable, l[0].resume, false);
      SettingsAre(d, l[1..]);
      assert l == [l[0]] + l[1..];
      assert NeverOff(l) <==> l[0].enable && NeverOff(l[1..]);
    }
  }

  /**
   * However often Stream Management is set while the link of a session is down: on the next link the session is
   * asked for if and only if it is on at the end, and the server resumes it if and only if it was never turned off.
   */
  lemma Resumable(y: System, l: seq<Setting>)
    requires Inv(y) && y.c.ctx == Enabled && !y.c.connected
    ensures
      var z := After(y.(c := Settings(y.c, l)), Bound);
      var on := l == [] || l[|l| - 1].enable;
      var s := After(z, ServerReads).s;
      && z.c.wire == (if on then [ResumeRequest(|y.c.delivered|, if NeverOff(l) then SESSION else "")] else [])
      && (s.attached <==> NeverOff(l))
      && (s.wire != [] && s.wire[0].ResumedReply? <==> NeverOff(l))
  {
    hide Inv, Settings, ServerOn, NeverOff, AfterStreamManagement;
    WhileDown(y);
    ClientBack(y.c, l);
    OffAtEnd(l);
    ServerAnswers(y.s, y.c.handled, if NeverOff(l) then SESSION else "");
  }

  lemma ClientBack(c: ClientState, l: seq<Setting>)
    requires c.ctx == Enabled && c.wire == [] && c.wanted
    ensures
      var d := AfterStreamManagement(Settings(c, l).(connected := true));
      var on := l == [] || l[|l| - 1].enable;
      d.wire == if on then [ResumeRequest(c.handled, if NeverOff(l) then c.id else "")] else []
  {
    hide Settings, NeverOff;
    SettingsAre(c, l);
    var n := ResumeRequest(c.handled, if NeverOff(l) then c.id else "");
    assert [] + [n] == [n];
  }

  lemma WhileDown(y: System)
    requires Inv(y) && y.c.ctx == Enabled && !y.c.connected
    ensures y.c.wire == [] && y.s.wire == [] && !y.s.attached && y.c.wanted && y.c.id == SESSION
    ensures y.c.handled == |y.c.delivered| <= |y.s.sent|
  {
  }

  lemma OffAtEnd(l: seq<Setting>)
    ensures NeverOff(l) && l != [] ==> l[|l| - 1].enable
  {
  }

  lemma ServerAnswers(s: Server, h: nat, previd: string)
    requires s.wire == [] && h <= |s.sent|
    ensures
      var a := ServerOn(s, ResumeRequest(h, previd));
      && a.wire != [] && (a.wire[0].ResumedReply? <==> previd == SESSION)
      && a.attached == (s.attached || previd == SESSION)
  {
    hide AsNodes;
    var reply := [ResumedReply(|s.handled|, previd)] + AsNodes(s.sent[h..]);
    assert [] + reply == reply && reply[0].ResumedReply? && [] + [FailedReply] == [FailedReply];
  }

  /** Turned on with a resource bound, the client enables at once, asking for what it was told to ask for. */
  lemma TurnedOn(c: ClientState, resume: bool)
    requires c.connected && c.ctx == Invalid
    ensures
      var d := AfterSetting(c, true, resume, true);
      && d.wire == c.wire + [EnableRequest(resume)] && d.ctx == Enable
      && d == AfterStreamManagement(AfterSetting(c, true, resume, false))
  {
  }

  /**
   * The client notes whether the server lets the session be resumed, which takes an id and one of two values,
   * but asks for it on the next link in either case.
   */
  lemma AsksAnyway(c: ClientState, id: string, attribute: string)
    requires c.wanted
    ensures
      var d := AfterNode(c, EnabledReply(id, attribute), []);
      && (d.resume <==> id != "" && attribute in {"true", "1"})
      && AfterStreamManagement(d.(connected := true, wire := [])).wire == [ResumeRequest(c.handled, id)]
  {
    assert [] + [ResumeRequest(c.handled, id)] == [ResumeRequest(c.handled, id)];
  }
}
