/**
 * What the callbacks of an RPC client do to its calls (arpc/aclnt.C): they issue and cancel calls,
 * and they may fail all calls again, from within the loop that fails them. The loop keeps a pointer
 * to the call after the one it is failing; this module tells exactly when that call is gone.
 * Calls are numbered in the order in which they are made.
 */
module AclntFail {
  import opened RpcTypes

  type Id = nat

  /**
   * What a callback does. `Issue`: a call; the generator yields `random`. A resumable client at end
   * of file fails its calls first (arpc/aclnt.C:641-646), and so does `Refail`, unless its fail
   * callback keeps them (`handled`); the callbacks of the calls that fail then do `nested`.
   */
  datatype Op =
    | Issue(random: seq<Xid>, handled: bool, nested: Script)
    | Arm(c: Id)
    | Cancel(c: Id)
    | Refail(handled: bool, nested: Script)

  /** What one callback does, in turn. */
  datatype Ops = Ops(all: seq<Op>)

  /** What the callbacks of the calls that fail one after the other do; those after the last, nothing. */
  datatype Script = Script(rounds: seq<Ops>)

  /** An `aclnt_resumable` or a plain `aclnt`; its transport is at end of file. */
  datatype Mode = Mode(resumable: bool, ateof: bool)

  /**
   * The calls outstanding, those of them that have a timeout, how many were made, and whose callbacks
   * were made, in order; `crashed` when a loop holds a pointer to a call that is gone.
   */
  datatype Sim = Sim(calls: seq<Id>, tmo: set<Id>, made: nat, log: seq<Id>, crashed: bool)

  function Issued(s: Sim): (t: Sim) { s.(calls := s.calls + [s.made], made := s.made + 1) }

  /** A plain client at end of file calls back at once. */
  function Refused(s: Sim): (t: Sim) { s.(made := s.made + 1, log := s.log + [s.made]) }

  function Fired(s: Sim): (t: Sim)
    requires s.calls != []
  {
    s.(calls := s.calls[1..], tmo := s.tmo - {s.calls[0]}, log := s.log + [s.calls[0]])
  }

  /** A call leaves the list without its callback. */
  function Dropped(s: Sim, c: Id): (t: Sim) { s.(calls := Without(s.calls, c), tmo := s.tmo - {c}) }

  /** A call leaves the list and is called back. */
  function Ended(s: Sim, c: Id): (t: Sim) { Dropped(s, c).(log := s.log + [c]) }

  function DoOp(m: Mode, s: Sim, op: Op): (t: Sim)
    decreases op, 0, 0
  {
    if s.crashed then s
    else
      match op
      case Arm(c) => if c in s.calls then s.(tmo := s.tmo + {c}) else s
      case Cancel(c) => Dropped(s, c)
      case Refail(handled, nested) => if m.resumable && handled then s else DoFail(m, s, nested, 0)
      case Issue(_, handled, nested) =>
        if !m.ateof then Issued(s)
        else if !m.resumable then Refused(s)
        else
          var t := if handled then s else DoFail(m, s, nested, 0);
          if t.crashed then t else Issued(t)
  }

  function DoOps(m: Mode, s: Sim, ops: Ops, i: nat): (t: Sim)
    requires i <= |ops.all|
    decreases ops, |ops.all| - i, 0
  {
    if i == |ops.all| then s else DoOps(m, DoOp(m, s, ops.all[i]), ops, i + 1)
  }

  /** The loop of arpc/aclnt.C:567-571, from round `i` of the script on. */
  function DoFail(m: Mode, s: Sim, script: Script, i: nat): (t: Sim)
    requires i <= |script.rounds|
    decreases script, |script.rounds| - i, |s.calls|
  {
    if s.crashed || s.calls == [] then s
    else
      var t := if i < |script.rounds| then DoOps(m, Fired(s), script.rounds[i], 0) else Fired(s);
      if t.crashed || |s.calls| == 1 then t
      else if s.calls[1] !in t.calls then t.(crashed := true)
      else if i < |script.rounds| then DoFail(m, t, script, i + 1)
      else DoFail(m, t, script, i)
  }

  // What is kept throughout.

  ghost predicate Ascending(s: seq<Id>) {
    forall i, j :: 0 <= i < j < |s| ==> s[i] < s[j]
  }

  /** In issue order; no callback was made twice, or for a call that is outstanding. */
  ghost predicate Wf(s: Sim) {
    && Ascending(s.calls) && Distinct(s.log)
    && (forall c :: c in s.calls ==> c < s.made && c !in s.log)
    && (forall c :: c in s.tmo ==> c in s.calls)
    && (forall c :: c in s.log ==> c < s.made)
  }

  /** No callback is forgotten, no call that had left the list returns to it, and callbacks are made
      only for calls that were outstanding or are new. */
  ghost predicate Onward(s: Sim, t: Sim) {
    && s.made <= t.made && s.log <= t.log
    && (forall c :: c in t.calls ==> c in s.calls || c >= s.made)
    && (forall c :: c in t.log ==> c in s.log || c in s.calls || c >= s.made)
  }

  /** Calls that were outstanding are called back in the order of issue, and before those that still are. */
  ghost predicate InOrder(s: Sim, t: Sim) {
    && |s.log| <= |t.log|
    && (forall i, j :: |s.log| <= i < j < |t.log| && t.log[i] in s.calls && t.log[j] in s.calls ==>
          t.log[i] < t.log[j])
    && (forall i, d :: |s.log| <= i < |t.log| && t.log[i] in s.calls && d in s.calls && d in t.calls ==>
          t.log[i] < d)
  }

  ghost predicate Step(s: Sim, t: Sim) { Wf(t) && Onward(s, t) && InOrder(s, t) }

  lemma StepTrans(s: Sim, t: Sim, u: Sim)
    requires Wf(s) && Step(s, t) && Step(t, u)
    ensures Step(s, u)
  {
    OrderTrans(s, t, u);
  }

  lemma OrderTrans(s: Sim, t: Sim, u: Sim)
    requires Wf(s) && Step(s, t) && Step(t, u)
    ensures InOrder(s, u)
  {
    forall i | |s.log| <= i < |u.log| && u.log[i] in s.calls ensures i < |t.log| || u.log[i] in t.calls {
      LaterFired(s, t, u, i);
    }
    forall i | 0 <= i < |t.log| ensures u.log[i] == t.log[i] {
      assert t.log == u.log[..|t.log|];
    }
  }

  /** A call of `s` whose callback is made after `t` was still outstanding in `t`. */
  lemma LaterFired(s: Sim, t: Sim, u: Sim, i: nat)
    requires Step(s, t) && Step(t, u) && i < |u.log| && u.log[i] in s.calls && Wf(s)
    ensures i < |t.log| || u.log[i] in t.calls
  {
    if i >= |t.log| {
      assert u.log[i] in u.log;
      assert forall j :: 0 <= j < |t.log| ==> u.log[j] == t.log[j];
    }
  }

  lemma IssuedStep(s: Sim)
    requires Wf(s)
    ensures Step(s, Issued(s))
  {
    assert s.made !in s.calls && s.made !in s.log;
    assert forall i :: 0 <= i < |s.calls| ==> s.calls[i] in s.calls;
  }

  lemma RefusedStep(s: Sim)
    requires Wf(s)
    ensures Step(s, Refused(s))
  {
    assert s.made !in s.calls && s.made !in s.log;
  }

  lemma FiredStep(s: Sim)
    requires Wf(s) && s.calls != []
    ensures Step(s, Fired(s)) && s.calls[0] in Fired(s).log
    ensures forall c :: c in s.calls ==> c == s.calls[0] || c in Fired(s).calls
    ensures s.calls[0] !in Fired(s).calls
  {
    var c, rest, t := s.calls[0], s.calls[1..], Fired(s);
    assert c in s.calls && s.calls == [c] + rest;
    assert forall d :: d in s.calls <==> d == c || d in rest;
    assert forall i :: 0 <= i < |rest| ==> rest[i] == s.calls[i + 1] && c < rest[i];
    assert c !in rest && c !in s.log;
    assert t.log[|s.log|] == c;
    assert forall d :: d in t.log <==> d in s.log || d == c;
  }

  lemma DroppedStep(s: Sim, c: Id)
    requires Wf(s)
    ensures Step(s, Dropped(s, c))
  {
    var r := Without(s.calls, c);
    forall i, j | 0 <= i < j < |r| ensures r[i] < r[j] {
      var k, l := WithoutOrder(s.calls, c, i, j);
    }
  }

  lemma {:induction false} OpStep(m: Mode, s: Sim, op: Op)
    requires Wf(s)
    ensures Step(s, DoOp(m, s, op))
    decreases op, 0, 0
  {
    if !s.crashed {
      match op
      case Arm(_) =>
      case Cancel(c) => DroppedStep(s, c);
      case Refail(handled, nested) => FailStep(m, s, nested, 0);
      case Issue(_, handled, nested) =>
        if !m.ateof {
          IssuedStep(s);
        } else if !m.resumable {
          RefusedStep(s);
        } else {
          FailStep(m, s, nested, 0);
          var t := if handled then s else DoFail(m, s, nested, 0);
          IssuedStep(t);
          StepTrans(s, t, Issued(t));
        }
    }
  }

  lemma {:induction false} OpsStep(m: Mode, s: Sim, ops: Ops, i: nat)
    requires Wf(s) && i <= |ops.all|
    ensures Step(s, DoOps(m, s, ops, i))
    decreases ops, |ops.all| - i, 0
  {
    if i < |ops.all| {
      var t := DoOp(m, s, ops.all[i]);
      OpStep(m, s, ops.all[i]);
      OpsStep(m, t, ops, i + 1);
      StepTrans(s, t, DoOps(m, t, ops, i + 1));
    }
  }

  lemma {:induction false} FailStep(m: Mode, s: Sim, script: Script, i: nat)
    requires Wf(s) && i <= |script.rounds|
    ensures Step(s, DoFail(m, s, script, i))
    decreases script, |script.rounds| - i, |s.calls|
  {
    if !s.crashed && s.calls != [] {
      FiredStep(s);
      var f := Fired(s);
      if i < |script.rounds| {
        OpsStep(m, f, script.rounds[i], 0);
        var t := DoOps(m, f, script.rounds[i], 0);
        StepTrans(s, f, t);
        if !t.crashed && |s.calls| > 1 && s.calls[1] in t.calls {
          FailStep(m, t, script, i + 1);
          StepTrans(s, t, DoFail(m, t, script, i + 1));
        }
      } else if |s.calls| > 1 {
        FailStep(m, f, script, i);
        StepTrans(s, f, DoFail(m, f, script, i));
      }
    }
  }

  // What becomes of every call.

  /** The operation, or one in a loop that it starts, cancels call `c`. */
  predicate Cancels(op: Op, c: Id)
    decreases op, 0
  {
    match op
    case Cancel(d) => d == c
    case Arm(_) => false
    case Refail(_, nested) => CancelsIn(nested, 0, c)
    case Issue(_, _, nested) => CancelsIn(nested, 0, c)
  }

  predicate OpsCancel(ops: Ops, i: nat, c: Id)
    requires i <= |ops.all|
    decreases ops, |ops.all| - i
  {
    i < |ops.all| && (Cancels(ops.all[i], c) || OpsCancel(ops, i + 1, c))
  }

  /** Some callback from round `i` on does. */
  predicate CancelsIn(script: Script, i: nat, c: Id)
    requires i <= |script.rounds|
    decreases script, |script.rounds| - i
  {
    i < |script.rounds| && (OpsCancel(script.rounds[i], 0, c) || CancelsIn(script, i + 1, c))
  }

  /** Call `c` is outstanding or was called back, unless it was made and neither before. */
  ghost predicate Held(s: Sim, t: Sim, c: Id) {
    c < t.made ==> c in t.calls || c in t.log || (c < s.made && c !in s.calls && c !in s.log)
  }

  lemma HeldTrans(s: Sim, t: Sim, u: Sim, c: Id)
    requires Held(s, t, c) && Held(t, u, c)
    ensures Held(s, u, c)
  {
  }

  /** A call that an operation makes, or finds outstanding, is outstanding after it or has been
      called back, unless the operation cancels it. */
  lemma {:induction false} OpHolds(m: Mode, s: Sim, op: Op, c: Id)
    requires Wf(s) && !Cancels(op, c)
    ensures Held(s, DoOp(m, s, op), c)
    decreases op, 0, 0
  {
    if !s.crashed && (op.Refail? || (op.Issue? && m.ateof && m.resumable)) {
      FailHolds(m, s, op.nested, 0, c);
    }
    if op.Issue? && !s.crashed {
      var t := if m.ateof && m.resumable && !op.handled then DoFail(m, s, op.nested, 0) else s;
      HeldTrans(s, t, DoOp(m, s, op), c);
    }
  }

  lemma {:induction false} OpsHold(m: Mode, s: Sim, ops: Ops, i: nat, c: Id)
    requires Wf(s) && i <= |ops.all| && !OpsCancel(ops, i, c)
    ensures Held(s, DoOps(m, s, ops, i), c)
    decreases ops, |ops.all| - i, 0
  {
    if i < |ops.all| {
      var t := DoOp(m, s, ops.all[i]);
      OpHolds(m, s, ops.all[i], c);
      OpStep(m, s, ops.all[i]);
      OpsHold(m, t, ops, i + 1, c);
      HeldTrans(s, t, DoOps(m, t, ops, i + 1), c);
    }
  }

  lemma FiredHolds(s: Sim, c: Id)
    requires Wf(s) && s.calls != []
    ensures Held(s, Fired(s), c)
  {
    FiredStep(s);
  }

  lemma {:induction false} FailHolds(m: Mode, s: Sim, script: Script, i: nat, c: Id)
    requires Wf(s) && i <= |script.rounds| && !CancelsIn(script, i, c)
    ensures Held(s, DoFail(m, s, script, i), c)
    decreases script, |script.rounds| - i, |s.calls|
  {
    if !s.crashed && s.calls != [] {
      FiredHolds(s, c);
      FiredStep(s);
      var f := Fired(s);
      if i < |script.rounds| {
        OpsStep(m, f, script.rounds[i], 0);
        OpsHold(m, f, script.rounds[i], 0, c);
        var t := DoOps(m, f, script.rounds[i], 0);
        HeldTrans(s, f, t, c);
        if !t.crashed && |s.calls| > 1 && s.calls[1] in t.calls {
          FailHolds(m, t, script, i + 1, c);
          HeldTrans(s, t, DoFail(m, t, script, i + 1), c);
        }
      } else if |s.calls| > 1 {
        FailHolds(m, f, script, i, c);
        HeldTrans(s, f, DoFail(m, f, script, i), c);
      }
    }
  }

  /**
   * What one operation does where it fails no calls: a cancelled call goes without a callback, a
   * timeout is set for an outstanding call, a new call is the last one, and at end of file a plain
   * client's is called back instead.
   */
  lemma OpExact(m: Mode, s: Sim, op: Op)
    requires Wf(s) && !s.crashed && !Sweeps(m, op)
    ensures var t := DoOp(m, s, op);
      && !t.crashed
      && t.made == s.made + (if op.Issue? then 1 else 0)
      && t.log == s.log + (if op.Issue? && m.ateof && !m.resumable then [s.made] else [])
      && (op.Issue? ==> t.calls == s.calls + if m.ateof && !m.resumable then [] else [s.made])
      && (op.Cancel? ==> forall d :: d in t.calls <==> d in s.calls && d != op.c)
      && (op.Arm? || op.Refail? ==> t.calls == s.calls)
      && forall d :: d in t.tmo <==> d in t.calls && (d in s.tmo || op == Arm(d))
  {
  }

  /** A call is made in any case: unless a loop fails first, it is outstanding or called back at once. */
  lemma IssueExact(m: Mode, s: Sim, op: Op)
    requires Wf(s) && !s.crashed && op.Issue?
    ensures var t := DoOp(m, s, op);
      && (!m.ateof || (m.resumable && op.handled) ==>
            !t.crashed && t.calls == s.calls + [s.made] && t.log == s.log && t.made == s.made + 1)
      && (m.ateof && !m.resumable ==>
            !t.crashed && t.calls == s.calls && t.log == s.log + [s.made] && t.made == s.made + 1)
      && (m.ateof && m.resumable && !t.crashed ==> t.calls != [] && t.calls[|t.calls| - 1] == t.made - 1)
  {
  }

  /** Callbacks that do nothing: every call is called back, in the order of issue. */
  lemma {:induction false} PlainFail(m: Mode, s: Sim)
    requires Wf(s) && !s.crashed
    ensures DoFail(m, s, Script([]), 0) == Sim([], {}, s.made, s.log + s.calls, false)
    decreases |s.calls|
  {
    if s.calls != [] {
      FiredStep(s);
      assert s.log + s.calls == Fired(s).log + Fired(s).calls;
      if |s.calls| > 1 {
        PlainFail(m, Fired(s));
      }
    }
  }

  /** What a callback does in turn is what its parts do. */
  lemma {:induction false} OpsInTurn(m: Mode, s: Sim, ops: Ops, op: Op, i: nat)
    requires i <= |ops.all|
    ensures DoOps(m, s, Ops(ops.all + [op]), i) == DoOp(m, DoOps(m, s, ops, i), op)
    decreases |ops.all| - i
  {
    var more := Ops(ops.all + [op]);
    if i < |ops.all| {
      OpsInTurn(m, DoOp(m, s, ops.all[i]), ops, op, i + 1);
    } else {
      assert more.all[i] == op;
      assert DoOps(m, DoOp(m, s, op), more, i + 1) == DoOp(m, s, op);
    }
  }

  // When a call is gone.

  /** The operation fails all calls: a resumable client issues a call at end of file, or `fail` is
      called, and no fail callback keeps the calls. */
  predicate Sweeps(m: Mode, op: Op) {
    || (op.Refail? && !(m.resumable && op.handled))
    || (op.Issue? && m.resumable && m.ateof && !op.handled)
  }

  /** The operation cancels call `c`, or fails all calls. */
  predicate Ends(m: Mode, op: Op, c: Id) { op == Cancel(c) || Sweeps(m, op) }

  /** One of the operations from `i` on does. */
  predicate EndsOne(m: Mode, ops: Ops, i: nat, c: Id) {
    exists j :: i <= j < |ops.all| && Ends(m, ops.all[j], c)
  }

  ghost predicate Gone(s: Sim, c: Id) { s.crashed || c !in s.calls }

  lemma StaysGone(s: Sim, t: Sim, c: Id)
    requires Onward(s, t) && c < s.made && c !in s.calls
    ensures c !in t.calls
  {
  }

  /** Failing all calls ends every one of them, or leaves a dangling pointer. */
  lemma {:induction false} FailEnds(m: Mode, s: Sim, script: Script, i: nat, c: Id)
    requires Wf(s) && i <= |script.rounds| && c in s.calls
    ensures Gone(DoFail(m, s, script, i), c)
    decreases script, |script.rounds| - i, |s.calls|
  {
    if !s.crashed {
      FiredStep(s);
      var f := Fired(s);
      var t := if i < |script.rounds| then DoOps(m, f, script.rounds[i], 0) else f;
      if i < |script.rounds| {
        OpsStep(m, f, script.rounds[i], 0);
      }
      if !t.crashed && |s.calls| > 1 && s.calls[1] in t.calls {
        var next := if i < |script.rounds| then i + 1 else i;
        FailStep(m, t, script, next);
        if c in t.calls {
          FailEnds(m, t, script, next, c);
        } else {
          StaysGone(t, DoFail(m, t, script, next), c);
        }
      } else if |s.calls| == 1 {
        assert c == s.calls[0];
        if !t.crashed {
          StaysGone(f, t, c);
        }
      }
    }
  }

  lemma {:induction false} OpEnds(m: Mode, s: Sim, op: Op, c: Id)
    requires Wf(s) && c in s.calls && !s.crashed
    ensures Gone(DoOp(m, s, op), c) <==> Ends(m, op, c)
  {
    if Sweeps(m, op) {
      FailEnds(m, s, op.nested, 0, c);
      var t := DoFail(m, s, op.nested, 0);
      FailStep(m, s, op.nested, 0);
      if op.Issue? && !t.crashed {
        IssuedStep(t);
        assert c != t.made;
      }
    }
  }

  /** A call that was outstanding is gone after a callback if and only if one of its operations
      cancels it or fails all calls. */
  lemma {:induction false} OpsEnd(m: Mode, s: Sim, ops: Ops, i: nat, c: Id)
    requires Wf(s) && i <= |ops.all| && c in s.calls && !s.crashed
    ensures Gone(DoOps(m, s, ops, i), c) <==> EndsOne(m, ops, i, c)
    decreases |ops.all| - i
  {
    if i < |ops.all| {
      var t := DoOp(m, s, ops.all[i]);
      OpEnds(m, s, ops.all[i], c);
      OpStep(m, s, ops.all[i]);
      if Gone(t, c) {
        StillGone(m, t, ops, i + 1, c);
      } else {
        OpsEnd(m, t, ops, i + 1, c);
        assert forall j :: i <= j < |ops.all| && Ends(m, ops.all[j], c) ==> j > i;
      }
    }
  }

  lemma {:induction false} Crashed(m: Mode, s: Sim, ops: Ops, i: nat)
    requires s.crashed && i <= |ops.all|
    ensures DoOps(m, s, ops, i) == s
    decreases |ops.all| - i
  {
    if i < |ops.all| {
      Crashed(m, s, ops, i + 1);
    }
  }

  lemma StillGone(m: Mode, s: Sim, ops: Ops, i: nat, c: Id)
    requires Wf(s) && i <= |ops.all| && Gone(s, c) && c < s.made
    ensures Gone(DoOps(m, s, ops, i), c)
  {
    if s.crashed {
      Crashed(m, s, ops, i);
    } else {
      OpsStep(m, s, ops, i);
      StaysGone(s, DoOps(m, s, ops, i), c);
    }
  }

  // The loop of `fail`.

  function OpsAt(script: Script, i: nat): (ops: Ops) {
    if i < |script.rounds| then script.rounds[i] else Ops([])
  }

  function After(m: Mode, s: Sim, script: Script, i: nat): (t: Sim)
    requires s.calls != []
  {
    DoOps(m, Fired(s), OpsAt(script, i), 0)
  }

  function Next(script: Script, i: nat): (j: nat) { if i < |script.rounds| then i + 1 else i }

  /**
   * Whether the loop comes to hold a dangling pointer, from round `i` on: some callback cancels the
   * call after its own or fails all calls, or the last callback fails calls that it made itself, and
   * that goes wrong.
   */
  function Dangles(m: Mode, s: Sim, script: Script, i: nat): (d: bool)
    requires i <= |script.rounds|
    decreases |script.rounds| - i, |s.calls|
  {
    if s.crashed || s.calls == [] then s.crashed
    else if |s.calls| == 1 then After(m, s, script, i).crashed
    else if EndsOne(m, OpsAt(script, i), 0, s.calls[1]) then true
    else if i < |script.rounds| then Dangles(m, After(m, s, script, i), script, i + 1)
    else false
  }

  /** One round: the saved successor survives if and only if no operation of the callback ends it, and
      then it is the first call. */
  lemma RoundExact(m: Mode, s: Sim, ops: Ops)
    requires Wf(s) && !s.crashed && |s.calls| > 1
    ensures var t := DoOps(m, Fired(s), ops, 0);
      && (Gone(t, s.calls[1]) <==> EndsOne(m, ops, 0, s.calls[1]))
      && (!Gone(t, s.calls[1]) ==> t.calls != [] && t.calls[0] == s.calls[1])
  {
    var f, c := Fired(s), s.calls[1];
    FiredStep(s);
    assert f.calls[0] == c && c in f.calls;
    OpsEnd(m, f, ops, 0, c);
    OpsStep(m, f, ops, 0);
    var t := DoOps(m, f, ops, 0);
    if !Gone(t, c) {
      FirstStays(f.calls, t.calls, f.made);
    }
  }

  /** The smallest call that remains is the first. */
  lemma FirstStays(calls: seq<Id>, calls': seq<Id>, made: nat)
    requires Ascending(calls) && Ascending(calls') && calls != [] && calls[0] in calls' && calls[0] < made
    requires forall c :: c in calls' ==> c in calls || c >= made
    ensures calls'[0] == calls[0]
  {
    assert calls'[0] in calls';
    var i :| 0 <= i < |calls'| && calls'[i] == calls[0];
  }

  lemma {:induction false} FailExact(m: Mode, s: Sim, script: Script, i: nat)
    requires Wf(s) && i <= |script.rounds|
    ensures DoFail(m, s, script, i).crashed <==> Dangles(m, s, script, i)
    decreases |script.rounds| - i, |s.calls|
  {
    if !s.crashed && |s.calls| > 1 {
      RoundExact(m, s, OpsAt(script, i));
      FiredStep(s);
      OpsStep(m, Fired(s), OpsAt(script, i), 0);
      if !Gone(After(m, s, script, i), s.calls[1]) {
        if i < |script.rounds| {
          FailExact(m, After(m, s, script, i), script, i + 1);
        } else {
          FailExact(m, Fired(s), script, i);
          NoneLeft(m, Fired(s), script, i);
        }
      }
    }
  }

  lemma {:induction false} NoneLeft(m: Mode, s: Sim, script: Script, i: nat)
    requires i == |script.rounds| && !s.crashed
    ensures !Dangles(m, s, script, i)
  {
  }

  /** Some callback from round `i` on cancels call `c`. */
  ghost predicate CancelledBy(c: Id, script: Script, i: nat) {
    exists j :: i <= j < |script.rounds| && Cancel(c) in script.rounds[j].all
  }

  /** Unless a pointer dangles, every outstanding call is called back, or cancelled by a callback. */
  lemma {:induction false} AllServed(m: Mode, s: Sim, script: Script, i: nat, c: Id)
    requires Wf(s) && !s.crashed && i <= |script.rounds| && c in s.calls && !DoFail(m, s, script, i).crashed
    ensures c in DoFail(m, s, script, i).log || CancelledBy(c, script, i)
    decreases |script.rounds| - i, |s.calls|
  {
    FiredStep(s);
    var f, ops, next := Fired(s), OpsAt(script, i), Next(script, i);
    OpsStep(m, f, ops, 0);
    var t := DoOps(m, f, ops, 0);
    if |s.calls| == 1 {
      assert c == s.calls[0] && c in f.log;
    } else {
      RoundExact(m, s, ops);
      FailStep(m, t, script, next);
      if c == s.calls[0] {
        assert c in f.log;
      } else if c in t.calls {
        AllServed(m, t, script, next, c);
      } else {
        OpsEnd(m, f, ops, 0, c);
        NotSwept(m, ops, s.calls[1], c);
      }
    }
  }

  /** Operations that spare one call and end another cancel it. */
  lemma NotSwept(m: Mode, ops: Ops, spared: Id, c: Id)
    requires !EndsOne(m, ops, 0, spared) && EndsOne(m, ops, 0, c)
    ensures Cancel(c) in ops.all
  {
    var j :| 0 <= j < |ops.all| && Ends(m, ops.all[j], c);
    assert !Ends(m, ops.all[j], spared);
  }

  /** The callbacks neither cancel calls nor fail them all. */
  ghost predicate Calm(m: Mode, script: Script) {
    forall i, j :: 0 <= i < |script.rounds| && 0 <= j < |script.rounds[i].all| ==>
      !script.rounds[i].all[j].Cancel? && !Sweeps(m, script.rounds[i].all[j])
  }

  lemma {:induction false} CalmOps(m: Mode, s: Sim, ops: Ops, i: nat)
    requires !s.crashed && i <= |ops.all| && forall j :: 0 <= j < |ops.all| ==> !Sweeps(m, ops.all[j])
    ensures !DoOps(m, s, ops, i).crashed
    decreases |ops.all| - i
  {
    if i < |ops.all| {
      assert !Sweeps(m, ops.all[i]);
      CalmOps(m, DoOp(m, s, ops.all[i]), ops, i + 1);
    }
  }

  /** Then nothing dangles. */
  lemma {:induction false} CalmSafe(m: Mode, s: Sim, script: Script, i: nat)
    requires !s.crashed && i <= |script.rounds| && Calm(m, script)
    ensures !Dangles(m, s, script, i)
    decreases |script.rounds| - i, |s.calls|
  {
    if s.calls != [] {
      CalmOps(m, Fired(s), OpsAt(script, i), 0);
      if i < |script.rounds| {
        CalmSafe(m, After(m, s, script, i), script, i + 1);
      }
    }
  }
}
