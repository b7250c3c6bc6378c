/**
 * Whole runs of an RPC client, plain or resumable: calls, replies, timeouts, cancellations, end of
 * file and moves to other transports, in any order, with callbacks that issue, cancel and fail calls,
 * while other clients use the same xid tables (arpc/aclnt.C).
 */
module AclntRuns {
  import opened RpcTypes
  import opened AclntFail
  import opened AclntCalls

  datatype Event =
    | Act(op: Op)                                   // the user issues, times, cancels or fails calls
    | Reply(x: Xid, rightSource: bool, ops: Ops)    // a reply; the callback of its call does `ops`
    | Garbled(x: Xid, rightSource: bool, handled: bool, script: Script, ops: Ops)  // it cannot be decoded
    | Lapse(c: Id, ops: Ops)                        // a timeout
    | Broken(atEnd: bool, handled: bool, script: Script)  // end of file, or a malformed message
    | Move(newxi: Xhinfo)                           // resume
    | OtherFiles(at: Xhinfo, x: Xid, owner: Owner)  // another client issues a call
    | OtherDrops(at: Xhinfo, x: Xid)                // or one of its calls ends

  /** What stops a run: a dangling pointer in `fail`, or the assertion of `start`. */
  datatype Outcome = Done | Dangling | Clash

  /** The client has entries in the table of its own transport alone. */
  ghost predicate Elsewhere(a: Aclnt, all: set<Xhinfo>)
    reads a, all
  {
    forall y :: y in all && y != a.xi ==> NoEntry(y.xidtab, a)
  }

  ghost predicate Running(a: Aclnt, all: set<Xhinfo>)
    reads a, all, a.xi
  {
    a.Valid() && !a.stopped && a.xi in all && Elsewhere(a, all)
  }

  ghost predicate Known(e: Event, all: set<Xhinfo>) {
    match e
    case Move(y) => y in all
    case OtherFiles(y, _, _) => y in all
    case OtherDrops(y, _) => y in all
    case _ => true
  }

  /** Callbacks are kept, no call returns to the list, and no call changes its xid. */
  ghost predicate Goes(s: Sim, xids: map<Id, Xid>, t: Sim, xids': map<Id, Xid>) {
    Onward(s, t) && Extends(xids, xids')
  }

  lemma GoesOn(s: Sim, xs: map<Id, Xid>, t: Sim, ys: map<Id, Xid>, u: Sim, zs: map<Id, Xid>)
    requires Goes(s, xs, t, ys) && Goes(t, ys, u, zs)
    ensures Goes(s, xs, u, zs)
  {
  }

  /** The callback of call `c`, which has just ended. */
  lemma EndedStep(s: Sim, c: Id)
    requires Wf(s) && c in s.calls
    ensures Onward(s, Ended(s, c)) && Wf(Ended(s, c))
  {
    DroppedStep(s, c);
  }

  /** What matters of a client at a moment. */
  datatype Snap = Snap(m: Mode, s: Sim, xids: map<Id, Xid>)

  ghost function Crash(u: Snap, dangling: bool): (v: Snap) { u.(s := u.s.(crashed := dangling)) }

  ghost function Seen(a: Aclnt): (u: Snap)
    reads a, a.xi
  {
    Snap(a.In(), a.Now(), a.xids)
  }

  /** Call `c` is outstanding under the xid. */
  ghost predicate Has(u: Snap, x: Xid, c: Id) { c in u.s.calls && c in u.xids && u.xids[c] == x }

  /** The call with this xid, if the client has one outstanding, ends, and its callback does `ops`. */
  ghost predicate Replied(u: Snap, x: Xid, ops: Ops, t: Sim) {
    if exists c :: Has(u, x, c) then exists c :: Has(u, x, c) && t == DoOps(u.m, Ended(u.s, c), ops, 0) else t == u.s
  }

  /** The event leads from `u` to `v`. */
  ghost predicate Leads(u: Snap, e: Event, v: Snap) {
    match e
    case Act(op) => v.m == u.m && v.s == DoOp(u.m, u.s, op)
    case Reply(x, rightSource, ops) => v.m == u.m && if rightSource then Replied(u, x, ops, v.s) else v.s == u.s
    case Garbled(x, rightSource, handled, script, ops) =>
      && v.m == u.m
      && if !rightSource then v.s == u.s
         else if !u.m.resumable then Replied(u, x, ops, v.s)
         else if exists c :: Has(u, x, c) then v.s == DoOp(u.m, u.s, Refail(handled, script))
         else v.s == u.s
    case Lapse(c, ops) => v.m == u.m && v.s == if c in u.s.tmo then DoOps(u.m, Ended(u.s, c), ops, 0) else u.s
    case Broken(atEnd, handled, script) =>
      v.m == Mode(u.m.resumable, u.m.ateof || atEnd) && v.s == DoOp(v.m, u.s, Refail(handled, script))
    case Move(_) => v.m.resumable == u.m.resumable && v.s == u.s && v.xids == u.xids
    case _ => v == u
  }

  predicate EventCancels(e: Event, c: Id) {
    match e
    case Act(op) => Cancels(op, c)
    case Reply(_, _, ops) => OpsCancel(ops, 0, c)
    case Garbled(_, _, _, script, ops) => OpsCancel(ops, 0, c) || CancelsIn(script, 0, c)
    case Lapse(_, ops) => OpsCancel(ops, 0, c)
    case Broken(_, _, script) => CancelsIn(script, 0, c)
    case _ => false
  }

  lemma EndedHolds(m: Mode, s: Sim, d: Id, ops: Ops, c: Id)
    requires Wf(s) && d in s.calls && !OpsCancel(ops, 0, c)
    ensures Held(s, DoOps(m, Ended(s, d), ops, 0), c)
  {
    EndedStep(s, d);
    OpsHold(m, Ended(s, d), ops, 0, c);
    assert Held(s, Ended(s, d), c) by {
      assert d in Ended(s, d).log by { assert Ended(s, d).log[|s.log|] == d; }
    }
    HeldTrans(s, Ended(s, d), DoOps(m, Ended(s, d), ops, 0), c);
  }

  /** An event that does not cancel a call leaves it outstanding or calls it back. */
  lemma EventHolds(u: Snap, e: Event, v: Snap, c: Id)
    requires Wf(u.s) && Leads(u, e, v) && !EventCancels(e, c)
    ensures Held(u.s, v.s, c)
  {
    match e
    case Act(op) => OpHolds(u.m, u.s, op, c);
    case Reply(x, rightSource, ops) => if v.s != u.s { RepliedHolds(u, x, ops, v.s, c); }
    case Garbled(x, rightSource, handled, script, ops) =>
      if v.s != u.s {
        if u.m.resumable { OpHolds(u.m, u.s, Refail(handled, script), c); } else { RepliedHolds(u, x, ops, v.s, c); }
      }
    case Lapse(d, ops) => if d in u.s.tmo { EndedHolds(u.m, u.s, d, ops, c); }
    case Broken(_, handled, script) => OpHolds(v.m, u.s, Refail(handled, script), c);
    case _ =>
  }

  lemma RepliedHolds(u: Snap, x: Xid, ops: Ops, t: Sim, c: Id)
    requires Wf(u.s) && Replied(u, x, ops, t) && !OpsCancel(ops, 0, c)
    ensures Held(u.s, t, c)
  {
    if exists d :: Has(u, x, d) {
      var d :| Has(u, x, d) && t == DoOps(u.m, Ended(u.s, d), ops, 0);
      EndedHolds(u.m, u.s, d, ops, c);
    }
  }

  /** A reply from the right source calls the call with its xid back, whatever the callback then does. */
  lemma ReplyCallsBack(u: Snap, x: Xid, ops: Ops, v: Snap, c: Id)
    requires Wf(u.s) && Named(u.s, u.xids) && Has(u, x, c) && Leads(u, Reply(x, true, ops), v)
    ensures c in v.s.log && c !in v.s.calls
  {
    var d :| Has(u, x, d) && v.s == DoOps(u.m, Ended(u.s, d), ops, 0);
    EndedStep(u.s, c);
    assert Ended(u.s, c).log[|u.s.log|] == c;
    OpsStep(u.m, Ended(u.s, c), ops, 0);
    assert c in Ended(u.s, c).log;
  }

  /** An event, or nothing where it cannot occur. */
  method Happen(a: Aclnt, e: Event, ghost all: set<Xhinfo>) returns (outcome: Outcome)
    requires Running(a, all) && Known(e, all)
    modifies a, all
    ensures a.Kept() && Goes(old(a.Now()), old(a.xids), a.Now(), a.xids)
    ensures outcome != Clash ==> Running(a, all)
    ensures Leads(old(Seen(a)), e, Crash(Seen(a), outcome == Dangling))
    ensures outcome == Clash <==> e.Move? && !NoClash(a.calls, a.xids, old(e.newxi.xidtab), a)
    ensures outcome == Clash ==> !NoClash(a.calls, a.xids, a.xi.xidtab, a)
    ensures a.xi == if e.Move? then e.newxi else old(a.xi)
    ensures e.OtherFiles? && e.x !in old(e.at.xidtab) && e.owner.client != a ==>
      e.at.xidtab == old(e.at.xidtab)[e.x := e.owner]
    ensures e.OtherDrops? && e.x in old(e.at.xidtab) && old(e.at.xidtab)[e.x].client != a ==>
      e.at.xidtab == old(e.at.xidtab) - {e.x}
  {
    outcome := Done;
    match e
    case Act(op) =>
      OpStep(a.In(), a.Now(), op);
      var crashed := a.Perform(op);
      outcome := if crashed then Dangling else Done;
    case Reply(x, rightSource, ops) => outcome := OnReply(a, x, rightSource, true, false, Script([]), ops, all);
    case Garbled(x, rightSource, handled, script, ops) =>
      outcome := OnReply(a, x, rightSource, false, handled, script, ops, all);
    case Lapse(c, ops) => outcome := OnLapse(a, c, ops, all);
    case Broken(atEnd, handled, script) =>
      a.xi.ateof := a.xi.ateof || atEnd;
      OpStep(a.In(), a.Now(), Refail(handled, script));
      var crashed := a.FailUnlessKept(handled, script);
      outcome := if crashed then Dangling else Done;
    case Move(y) =>
      ghost var tab := y.xidtab;
      var ok := a.Resume(y);
      ClashStays(a.calls, a.xids, tab, y.xidtab, a);
      outcome := if ok then Done else Clash;
    case OtherFiles(y, _, _) => OnOthers(a, y, e, all);
    case OtherDrops(y, _) => OnOthers(a, y, e, all);
  }

  /** Another client issues a call, or one of its calls ends. */
  method OnOthers(a: Aclnt, y: Xhinfo, e: Event, ghost all: set<Xhinfo>)
    requires Running(a, all) && y in all && (e.OtherFiles? || e.OtherDrops?)
    modifies y`xidtab
    ensures Running(a, all)
    ensures e.OtherFiles? ==>
      y.xidtab == if e.x !in old(y.xidtab) && e.owner.client != a then old(y.xidtab)[e.x := e.owner] else old(y.xidtab)
    ensures e.OtherDrops? ==>
      y.xidtab == if e.x in old(y.xidtab) && old(y.xidtab)[e.x].client != a then old(y.xidtab) - {e.x} else old(y.xidtab)
  {
    if e.OtherFiles? {
      if e.x !in y.xidtab && e.owner.client != a {
        y.xidtab := y.xidtab[e.x := e.owner];
      }
    } else if e.x in y.xidtab && y.xidtab[e.x].client != a {
      y.xidtab := y.xidtab - {e.x};
    }
  }

  lemma ClashStays(calls: seq<Id>, xids: map<Id, Xid>, tab: XidTab, tab': XidTab, me: Aclnt)
    requires OthersKept(tab, tab', me)
    ensures !NoClash(calls, xids, tab, me) ==> !NoClash(calls, xids, tab', me)
  {
  }

  method OnReply(a: Aclnt, x: Xid, rightSource: bool, decodes: bool, handled: bool, script: Script, ops: Ops,
                 ghost all: set<Xhinfo>) returns (outcome: Outcome)
    requires Running(a, all)
    modifies a, all
    ensures Running(a, all) && Goes(old(a.Now()), old(a.xids), a.Now(), a.xids) && outcome != Clash
    ensures a.xi == old(a.xi) && a.xi.ateof == old(a.xi.ateof)
    ensures Leads(old(Seen(a)), if decodes then Reply(x, rightSource, ops) else Garbled(x, rightSource, handled, script, ops),
                  Crash(Seen(a), outcome == Dangling))
  {
    outcome := Done;
    ghost var u, s, xs := Seen(a), a.Now(), a.xids;
    assert forall d :: d in s.calls ==> d in xs;
    OpStep(a.In(), s, Refail(handled, script));
    var c, crashed := a.Dispatch(x, rightSource, decodes, handled, script);
    if c.Some? && (decodes || !a.resumable) {
      EndedStep(s, c.value);
      outcome := After(a, ops, s, xs, all);
    } else if crashed {
      outcome := Dangling;
    }
    ReplyLeads(u, x, rightSource, decodes, handled, script, ops, c, Crash(Seen(a), outcome == Dangling));
  }

  lemma ReplyLeads(u: Snap, x: Xid, rightSource: bool, decodes: bool, handled: bool, script: Script, ops: Ops,
                   c: Option<Id>, v: Snap)
    requires forall d :: d in u.s.calls ==> d in u.xids
    requires c.Some? <==> rightSource && exists d :: d in u.s.calls && u.xids[d] == x
    requires v.m == u.m && (c.None? ==> v.s == u.s)
    requires c.Some? && (decodes || !u.m.resumable) ==>
      c.value in u.s.calls && u.xids[c.value] == x && v.s == DoOps(u.m, Ended(u.s, c.value), ops, 0)
    requires c.Some? && !decodes && u.m.resumable ==> v.s == DoOp(u.m, u.s, Refail(handled, script))
    ensures Leads(u, if decodes then Reply(x, rightSource, ops) else Garbled(x, rightSource, handled, script, ops), v)
  {
    if c.Some? {
      var d :| d in u.s.calls && u.xids[d] == x;
      assert Has(u, x, d);
      assert decodes || !u.m.resumable ==> Has(u, x, c.value);
    } else {
      assert rightSource ==> forall d :: !Has(u, x, d);
    }
  }

  method OnLapse(a: Aclnt, c: Id, ops: Ops, ghost all: set<Xhinfo>) returns (outcome: Outcome)
    requires Running(a, all)
    modifies a, all
    ensures Running(a, all) && Goes(old(a.Now()), old(a.xids), a.Now(), a.xids) && outcome != Clash
    ensures a.xi == old(a.xi) && a.xi.ateof == old(a.xi.ateof)
    ensures Leads(old(Seen(a)), Lapse(c, ops), Crash(Seen(a), outcome == Dangling))
  {
    outcome := Done;
    if c in a.tmo {
      ghost var s, xs := a.Now(), a.xids;
      EndedStep(s, c);
      a.Expire(c);
      outcome := After(a, ops, s, xs, all);
    }
  }

  /** The callback of a call that has ended. */
  method After(a: Aclnt, ops: Ops, ghost s: Sim, ghost xs: map<Id, Xid>, ghost all: set<Xhinfo>)
    returns (outcome: Outcome)
    requires Running(a, all) && Goes(s, xs, a.Now(), a.xids)
    modifies a, all
    ensures Running(a, all) && Goes(s, xs, a.Now(), a.xids) && outcome != Clash
    ensures a.xi == old(a.xi) && a.xi.ateof == old(a.xi.ateof)
    ensures a.Now().(crashed := outcome == Dangling) == DoOps(a.In(), old(a.Now()), ops, 0)
  {
    ghost var t, ys := a.Now(), a.xids;
    OpsStep(a.In(), t, ops, 0);
    var crashed := a.Callback(ops);
    GoesOn(s, xs, t, ys, a.Now(), a.xids);
    outcome := if crashed then Dangling else Done;
  }

  /** The call was made before and was neither outstanding nor called back, or an event cancels it. */
  ghost predicate Excused(u: Snap, events: seq<Event>, c: Id) {
    || (c < u.s.made && c !in u.s.calls && c !in u.s.log)
    || exists i :: 0 <= i < |events| && EventCancels(events[i], c)
  }

  /** The events lead through the moments of `history`. */
  ghost predicate Passes(history: seq<Snap>, events: seq<Event>) {
    && 0 < |history| <= |events| + 1
    && forall i :: 0 <= i < |history| - 1 ==> Leads(history[i], events[i], history[i + 1])
  }

  /** No call is lost: at the end it is outstanding or has been called back, unless it is excused. */
  ghost predicate NoneLost(u: Snap, events: seq<Event>, t: Sim) {
    forall c: nat :: c < t.made ==> c in t.calls || c in t.log || Excused(u, events, c)
  }

  lemma OneMoreEvent(history: seq<Snap>, events: seq<Event>, i: nat, v: Snap)
    requires Passes(history, events) && |history| == i + 1 && i < |events|
    requires var u := history[i]; Wf(u.s) && Leads(u, events[i], v)
    requires NoneLost(history[0], events, history[i].s)
    ensures Passes(history + [v], events) && NoneLost(history[0], events, v.s)
  {
    var u := history[i];
    forall c: nat | c < v.s.made && !(exists j :: 0 <= j < |events| && EventCancels(events[j], c))
      ensures c in v.s.calls || c in v.s.log || Excused(history[0], events, c)
    {
      assert !EventCancels(events[i], c);
      EventHolds(u, events[i], v, c);
    }
  }

  /**
   * In every run, however it ends: the client goes through exactly what the events say, so that every
   * call made is outstanding or has been called back unless it was cancelled; each callback is made at
   * most once, none is ever forgotten, a call that has left the list does not return to it and keeps
   * its xid; and unless the assertion of `start` fails, list and xid table hold the same calls, each
   * under its own nonzero xid.
   */
  method Run(a: Aclnt, events: seq<Event>, ghost all: set<Xhinfo>) returns (outcome: Outcome, ghost history: seq<Snap>)
    requires Running(a, all) && forall i :: 0 <= i < |events| ==> Known(events[i], all)
    modifies a, all
    ensures Distinct(a.log) && old(a.log) <= a.log
    ensures a.Kept() && Goes(old(a.Now()), old(a.xids), a.Now(), a.xids)
    ensures outcome != Clash ==> Running(a, all)
    ensures Passes(history, events) && history[0] == old(Seen(a))
    ensures history[|history| - 1] == Crash(Seen(a), outcome == Dangling)
    ensures outcome == Done ==> |history| == |events| + 1
    ensures outcome == Clash ==>
      |history| > 1 && events[|history| - 2].Move? && !NoClash(a.calls, a.xids, a.xi.xidtab, a)
    ensures NoneLost(old(Seen(a)), events, a.Now())
  {
    outcome, history := Done, [Seen(a)];
    var i := 0;
    while i < |events| && outcome == Done
      invariant i <= |events| && a.Kept() && Goes(old(a.Now()), old(a.xids), a.Now(), a.xids)
      invariant outcome != Clash ==> Running(a, all)
      invariant Passes(history, events) && |history| == i + 1 && history[0] == old(Seen(a))
      invariant history[i] == Crash(Seen(a), outcome == Dangling)
      invariant outcome == Clash ==> i > 0 && events[i - 1].Move? && !NoClash(a.calls, a.xids, a.xi.xidtab, a)
      invariant NoneLost(history[0], events, history[i].s)
    {
      assert Known(events[i], all);
      ghost var s, xs := a.Now(), a.xids;
      outcome := Happen(a, events[i], all);
      GoesOn(old(a.Now()), old(a.xids), s, xs, a.Now(), a.xids);
      OneMoreEvent(history, events, i, Crash(Seen(a), outcome == Dangling));
      history := history + [Crash(Seen(a), outcome == Dangling)];
      i := i + 1;
    }
  }

  /** A client with two outstanding calls. */
  method TwoCalls(resumable: bool) returns (a: Aclnt)
    ensures fresh(a) && fresh(a.xi) && a.Valid() && !a.stopped && a.resumable == resumable && !a.xi.ateof
    ensures a.Now() == Sim([0, 1], {}, 2, [], false)
  {
    var xi := new Xhinfo();
    a := new Aclnt(xi, resumable);
    a.NewCall([1]);
    a.NewCall([2]);
  }

  /** The dangling pointer of `fail` on an actual client: the callback of the first of two calls
      cancels the second. */
  method CancelDangles(resumable: bool) returns (dangling: bool)
    ensures dangling
  {
    var a := TwoCalls(resumable);
    var ops := Ops([Cancel(1)]);
    assert Ends(a.In(), ops.all[0], 1);
    dangling := a.Fail(Script([ops]));
  }

  /** And on a resumable client at end of file whose fail callback does not keep the calls: the
      callback of the first one issues a call. */
  method IssueDangles() returns (dangling: bool)
    ensures dangling
  {
    var a := TwoCalls(true);
    a.xi.ateof := true;
    var ops := Ops([Issue([3], false, Script([]))]);
    assert Ends(a.In(), ops.all[0], 1);
    dangling := a.Fail(Script([ops]));
  }
}
