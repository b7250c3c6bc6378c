/**
 * What every call of the resumable RPC system comes to.  Safety alone would let a call wait for
 * ever; here, on a connection that stays up, every call that waits is answered whatever the order
 * in which messages arrive and the service answers, and after any failure one reconnection is
 * enough.
 */
module ResumableRpcLiveness {
  import opened RpcTypes
  import opened AsrvResumable
  import opened ResumableRpc
  import opened ResumableRpcSafety

  /** Both ends use the same connection, and neither has seen its end. */
  predicate Live(s: State) { Attached(s) && !s.srv.eof && !s.ceof }

  /** A message arrives, or the service answers a call. */
  predicate Delivers(cfg: Config, step: Step) {
    step.ServerRecv? || step.ClientRecv? || (step.Reply? && |step.data| <= cfg.pktsize)
  }

  ghost predicate DeliveryRun(cfg: Config, steps: seq<Step>) {
    forall i :: 0 <= i < |steps| ==> Delivers(cfg, steps[i])
  }

  /** Nothing is left to arrive or to answer. */
  ghost predicate Quiet(cfg: Config, s: State) {
    forall step :: Delivers(cfg, step) ==> !Enabled(cfg, s, step)
  }

  ghost function Unanswered(rtab: Table): set<Xid> { set x | x in rtab && rtab[x].res.None? }

  /** A call on its way may have to be received, answered and delivered. */
  ghost function Work(s: State): nat { 3 * |s.c2s| + 2 * |Unanswered(s.srv.rtab)| + |s.s2c| }

  /** No waiting call is forgotten, and no answer is changed. */
  ghost predicate Progress(s: State, t: State) {
    && (forall x :: x in s.calls ==> x in t.calls || x in t.done)
    && (forall x :: x in s.done ==> x in t.done && t.done[x] == s.done[x])
    && (forall x :: x in s.answers ==> x in t.answers && t.answers[x] == s.answers[x])
  }

  // ----- every delivery is progress

  lemma Fewer(a: set<Xid>, b: set<Xid>)
    requires a <= b
    ensures |a| <= |b|
  {
    var rest := b - a;
    assert b == a + rest;
  }

  /** An arriving call is new and to be answered, or its reply, if there is one, is sent again. */
  lemma CallMoves(cfg: Config, srv: Srv, x: Xid)
    requires Inv(srv)
    ensures var o := IsReplay(cfg, srv, x);
      && o.srv.eof == srv.eof
      && 2 * |Unanswered(o.srv.rtab)| + |o.frames| <= 2 * |Unanswered(srv.rtab)| + 2
  {
    var o := IsReplay(cfg, srv, x);
    if x !in srv.rtab {
      UnknownCall(cfg, srv, x);
      Fewer(Unanswered(o.srv.rtab), Unanswered(srv.rtab) + {x});
    } else {
      KnownCall(cfg, srv, x);
      Fewer(Unanswered(o.srv.rtab), Unanswered(srv.rtab));
    }
  }

  lemma CallArrives(cfg: Config, s: State)
    requires Inv(s.srv) && Enabled(cfg, s, ServerRecv)
    ensures var t := Apply(cfg, s, ServerRecv);
      && Work(t) < Work(s) && Progress(s, t) && t.answers == s.answers && (Live(s) ==> Live(t))
  {
    if s.c2s[0].Call? {
      CallMoves(cfg, s.srv, s.c2s[0].xid);
    }
  }

  lemma ServiceAnswers(cfg: Config, s: State, x: Xid, data: Bytes)
    requires Inv(s.srv) && s.srv.acked <= s.srv.sent && TableData(cfg, s.srv.rtab, s.answers)
    requires cfg.sndbufsz <= 0 && Pending(s, x) && |data| <= cfg.pktsize
    ensures var t := Apply(cfg, s, Reply(x, data));
      && Work(t) < Work(s) && Progress(s, t) && x !in s.answers && t.answers == s.answers[x := data]
      && (Live(s) ==> Live(t))
  {
    var t := Apply(cfg, s, Reply(x, data));
    ReplyHasEffect(cfg, s, x, data);
    var u := Unanswered(s.srv.rtab);
    assert x in u;
    Fewer(Unanswered(t.srv.rtab), u - {x});
  }

  lemma ReplyArrives(cfg: Config, s: State)
    requires Wf(s.srv) && ClientInv(s.born, s.calls, s.done) && Enabled(cfg, s, ClientRecv)
    ensures var t := Apply(cfg, s, ClientRecv);
      && Work(t) < Work(s) && Progress(s, t) && t.answers == s.answers && (Live(s) ==> Live(t))
  {
  }

  lemma Delivery(cfg: Config, s: State, step: Step)
    requires SysInv(cfg, s) && cfg.sndbufsz <= 0 && Live(s) && Enabled(cfg, s, step) && Delivers(cfg, step)
    ensures var t := Apply(cfg, s, step); SysInv(cfg, t) && Live(t) && Work(t) < Work(s) && Progress(s, t)
  {
    StepKeeps(cfg, s, step);
    match step
    case ServerRecv => CallArrives(cfg, s);
    case ClientRecv => ReplyArrives(cfg, s);
    case Reply(x, data) => ServiceAnswers(cfg, s, x, data);
  }

  // ----- the end of all deliveries

  /** What stands between the state and quiet. */
  ghost predicate Idle(s: State) { s.c2s == [] && s.s2c == [] && Unanswered(s.srv.rtab) == {} }

  lemma QuietExactly(cfg: Config, s: State)
    requires SysInv(cfg, s) && Live(s)
    ensures Quiet(cfg, s) <==> Idle(s)
  {
    if s.s2c != [] {
      assert s.s2c[0] in s.s2c;
      assert Delivers(cfg, ClientRecv) && Enabled(cfg, s, ClientRecv);
    } else if s.c2s != [] {
      assert Delivers(cfg, ServerRecv) && Enabled(cfg, s, ServerRecv);
    } else if Unanswered(s.srv.rtab) != {} {
      var x :| x in Unanswered(s.srv.rtab);
      assert Delivers(cfg, Reply(x, [])) && Enabled(cfg, s, Reply(x, []));
    } else {
      forall step | Delivers(cfg, step) ensures !Enabled(cfg, s, step) {
        if step.Reply? { assert step.xid !in Unanswered(s.srv.rtab); }
      }
    }
  }

  /** On a live connection a call that waits is on its way, being served, or its reply is. */
  lemma SomewhereUnderWay(cfg: Config, s: State, x: Xid)
    requires SysInv(cfg, s) && Live(s) && x in s.calls
    ensures InFlight(s.c2s, x) || Pending(s, x) || (x in s.answers && exists m :: m in s.s2c && m.what == Result(x, s.answers[x]))
  {
    if !InFlight(s.c2s, x) && !Pending(s, x) {
      assert x in s.handed && x in s.srv.rtab;
      assert Off(s.srv.rtab, x) > ReadOf(s);
      assert SMsg(s.sconn, Result(x, s.srv.rtab[x].res.value), Off(s.srv.rtab, x)) in s.s2c;
    }
  }

  lemma NoCallLeft(cfg: Config, s: State)
    requires SysInv(cfg, s) && Live(s) && Quiet(cfg, s)
    ensures s.calls == []
  {
    QuietExactly(cfg, s);
    if s.calls != [] {
      var x := s.calls[0];
      assert x !in Unanswered(s.srv.rtab);
      SomewhereUnderWay(cfg, s, x);
      assert false;
    }
  }

  /** The caller has the answer of the service, which saw the call once. */
  ghost predicate Served(t: State, x: Xid) {
    && x in t.done && x in t.answers && t.done[x] == t.answers[x]
    && x in t.handed && t.handed[x] == 1
  }

  ghost predicate AllServed(s: State, t: State) { t.calls == [] && forall x :: x in s.calls ==> Served(t, x) }

  lemma QuietServes(cfg: Config, s: State, t: State)
    requires SysInv(cfg, t) && Live(t) && Progress(s, t) && Quiet(cfg, t)
    ensures AllServed(s, t)
  {
    NoCallLeft(cfg, t);
  }

  lemma ProgressOn(s: State, r: State, t: State)
    requires Progress(s, r) && Progress(r, t)
    ensures Progress(s, t)
  {
  }

  /**
   * On a connection that stays up, in whatever order messages arrive and calls are answered: there
   * are only so many deliveries, and when none is left every call that waited has been served.
   */
  lemma {:induction false} Settles(cfg: Config, s: State, steps: seq<Step>)
    requires SysInv(cfg, s) && cfg.sndbufsz <= 0 && Live(s) && DeliveryRun(cfg, steps)
    requires RunFrom(cfg, s, steps).Some?
    ensures var t := RunFrom(cfg, s, steps).value;
      && SysInv(cfg, t) && Live(t) && |steps| + Work(t) <= Work(s) && Progress(s, t)
      && (Quiet(cfg, t) ==> AllServed(s, t))
    decreases |steps|
  {
    if steps == [] {
      if Quiet(cfg, s) { QuietServes(cfg, s, s); }
    } else {
      var r := Apply(cfg, s, steps[0]);
      Delivery(cfg, s, steps[0]);
      Settles(cfg, r, steps[1..]);
      var t := RunFrom(cfg, r, steps[1..]).value;
      ProgressOn(s, r, t);
      if Quiet(cfg, t) { QuietServes(cfg, s, t); }
    }
  }

  // ----- after a failure

  lemma TwoResumes(cfg: Config, s: State) returns (r: State, t: State)
    requires Wf(s.srv) && s.cconn <= s.sconn
    ensures Enabled(cfg, s, ServerResume(0, 0)) && r == Apply(cfg, s, ServerResume(0, 0)) && Wf(r.srv)
    ensures Enabled(cfg, r, ClientResume) && t == Apply(cfg, r, ClientResume) && Live(t)
    ensures RunFrom(cfg, s, [ServerResume(0, 0), ClientResume]) == Some(t)
    ensures t.calls == s.calls && t.done == s.done && t.answers == s.answers && t.handed == s.handed
  {
    var steps := [ServerResume(0, 0), ClientResume];
    ApplyWf(cfg, s, steps[0]);
    r := Apply(cfg, s, steps[0]);
    t := Apply(cfg, r, ClientResume);
    assert steps[1..] == [ClientResume] && steps[1..][1..] == [];
    assert RunFrom(cfg, r, steps[1..]) == Some(t);
  }

  /** One reconnection, and the connection is live with every waiting call on its way. */
  lemma Reconnects(cfg: Config, s: State) returns (t: State)
    requires SysInv(cfg, s) && cfg.sndbufsz <= 0
    ensures RunFrom(cfg, s, [ServerResume(0, 0), ClientResume]) == Some(t) && SysInv(cfg, t) && Live(t)
    ensures t.calls == s.calls && t.done == s.done && t.answers == s.answers && t.handed == s.handed
  {
    var r;
    r, t := TwoResumes(cfg, s);
    StepKeeps(cfg, s, ServerResume(0, 0));
    StepKeeps(cfg, r, ClientResume);
  }

  /** The answers of the service that were not there yet. */
  ghost predicate AnswersBy(s: State, t: State, service: Xid -> Bytes) {
    forall x :: x in t.answers ==> t.answers[x] == if x in s.answers then s.answers[x] else service(x)
  }

  ghost predicate AnswersFit(cfg: Config, service: Xid -> Bytes) {
    forall x :: |service(x)| <= cfg.pktsize
  }

  /** One more delivery, if there is any to make. */
  lemma NextDelivery(cfg: Config, s: State, service: Xid -> Bytes) returns (step: Step)
    requires SysInv(cfg, s) && cfg.sndbufsz <= 0 && Live(s) && !Quiet(cfg, s) && AnswersFit(cfg, service)
    ensures Delivers(cfg, step) && Enabled(cfg, s, step) && AnswersBy(s, Apply(cfg, s, step), service)
  {
    QuietExactly(cfg, s);
    if s.s2c != [] {
      step := ClientRecv;
      assert s.s2c[0] in s.s2c;
      ReplyArrives(cfg, s);
    } else if s.c2s != [] {
      step := ServerRecv;
      CallArrives(cfg, s);
    } else {
      var x :| x in Unanswered(s.srv.rtab);
      step := Reply(x, service(x));
      ServiceAnswers(cfg, s, x, service(x));
    }
  }

  lemma AnswersOn(s: State, r: State, t: State, service: Xid -> Bytes)
    requires AnswersBy(s, r, service) && AnswersBy(r, t, service) && Progress(s, r)
    ensures AnswersBy(s, t, service)
  {
  }

  /** Deliveries until none is left. */
  lemma {:induction false} DeliverAll(cfg: Config, s: State, service: Xid -> Bytes) returns (steps: seq<Step>, t: State)
    requires SysInv(cfg, s) && cfg.sndbufsz <= 0 && Live(s) && AnswersFit(cfg, service)
    ensures DeliveryRun(cfg, steps) && RunFrom(cfg, s, steps) == Some(t) && Quiet(cfg, t) && AnswersBy(s, t, service)
    decreases Work(s)
  {
    if Quiet(cfg, s) {
      steps, t := [], s;
    } else {
      var step := NextDelivery(cfg, s, service);
      Delivery(cfg, s, step);
      var r, more := Apply(cfg, s, step), [];
      more, t := DeliverAll(cfg, r, service);
      steps := [step] + more;
      assert steps[1..] == more;
      AnswersOn(s, r, t, service);
    }
  }

  /**
   * After every run, wherever its connections broke, the two ends can reconnect once and deliver
   * what is left, and then every call that waited has the answer that the service had given before,
   * or else gives now, and the service has seen it once.
   */
  lemma Recovers(cfg: Config, past: seq<Step>, service: Xid -> Bytes) returns (more: seq<Step>)
    requires BenignRun(cfg, past) && cfg.sndbufsz <= 0 && Run(cfg, past).Some? && AnswersFit(cfg, service)
    ensures |more| >= 2 && more[..2] == [ServerResume(0, 0), ClientResume] && DeliveryRun(cfg, more[2..])
    ensures var s, r := Run(cfg, past).value, Run(cfg, past + more);
      r.Some? && AllServed(s, r.value) && AnswersBy(s, r.value, service)
  {
    var s := Run(cfg, past).value;
    Reachable(cfg, past);
    var two := [ServerResume(0, 0), ClientResume];
    var u := Reconnects(cfg, s);
    var rest, t := DeliverAll(cfg, u, service);
    Settles(cfg, u, rest);
    more := two + rest;
    assert more[..2] == two && more[2..] == rest;
    RunConcat(cfg, s, two, rest);
    RunConcat(cfg, Init(), past, more);
  }
}
