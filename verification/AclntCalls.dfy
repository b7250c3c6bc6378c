/**
 * The calls of an RPC client (arpc/aclnt.C): the list of outstanding calls, the table of xids that
 * all clients of a transport share, and the callbacks. Every operation does to the calls what
 * `AclntFail` says, and keeps list and table in step.
 */
module AclntCalls {
  import opened RpcTypes
  import opened AclntFail

  /** An entry of the xid table: a call of some client. */
  datatype Owner = Owner(client: Aclnt, id: Id)

  type XidTab = map<Xid, Owner>

  /** The part of `xhinfo` that clients share. */
  class Xhinfo {
    var xidtab: XidTab
    var ateof: bool

    constructor ()
      ensures xidtab == map[] && !ateof
    {
      xidtab, ateof := map[], false;
    }
  }

  /** The outstanding calls have distinct nonzero xids; a call keeps its xid for good. */
  ghost predicate Named(s: Sim, xids: map<Id, Xid>) {
    && (forall c :: c in s.calls ==> c in xids && xids[c] != 0)
    && (forall c, d :: c in s.calls && d in s.calls && c != d ==> xids[c] != xids[d])
    && (forall c :: c in xids ==> c < s.made)
  }

  ghost predicate Extends(xids: map<Id, Xid>, xids': map<Id, Xid>) {
    forall c :: c in xids ==> c in xids' && xids'[c] == xids[c]
  }

  /** The entries of client `me` in the table are exactly the calls of its list. */
  ghost predicate Filed(tab: XidTab, me: Aclnt, calls: seq<Id>, xids: map<Id, Xid>) {
    && (forall c :: c in calls ==> c in xids && xids[c] in tab && tab[xids[c]] == Owner(me, c))
    && (forall x :: x in tab && tab[x].client == me ==> tab[x].id in calls && tab[x].id in xids && xids[tab[x].id] == x)
  }

  ghost predicate NoEntry(tab: XidTab, me: Aclnt) { forall x :: x in tab ==> tab[x].client != me }

  /** The entries of the other clients are the same in both tables. */
  ghost predicate OthersKept(tab: XidTab, tab': XidTab, me: Aclnt) {
    && (forall x :: x in tab && tab[x].client != me ==> x in tab' && tab'[x] == tab[x])
    && (forall x :: x in tab' && tab'[x].client != me ==> x in tab && tab'[x] == tab[x])
  }

  lemma OthersTrans(a: XidTab, b: XidTab, c: XidTab, me: Aclnt)
    requires OthersKept(a, b, me) && OthersKept(b, c, me)
    ensures OthersKept(a, c, me)
  {
  }

  /** None of the calls has an xid that another client uses. */
  ghost predicate NoClash(calls: seq<Id>, xids: map<Id, Xid>, tab: XidTab, me: Aclnt) {
    forall c :: c in calls ==> c in xids && (xids[c] in tab ==> tab[xids[c]].client == me)
  }

  /** Some number is not in use: the generator comes to one. */
  lemma Unused(tab: XidTab) returns (x: Xid)
    ensures x != 0 && x !in tab
  {
    x := Bound(tab.Keys) + 1;
  }

  ghost function Bound(s: set<Xid>): (b: nat)
    ensures forall x :: x in s ==> x <= b
  {
    if s == {} then 0
    else
      var x :| x in s;
      var b := Bound(s - {x});
      assert forall y :: y in s ==> y == x || y in s - {x};
      if x > b then x else b
  }

  class Aclnt {
    const resumable: bool
    var xi: Xhinfo
    var calls: seq<Id>
    var xids: map<Id, Xid>
    var tmo: set<Id>
    var stopped: bool
    var made: nat
    /** The calls whose callback has been made, in order. */
    var log: seq<Id>

    ghost function Now(): (s: Sim)
      reads this
    {
      Sim(calls, tmo, made, log, false)
    }

    ghost function In(): (m: Mode)
      reads this, xi
    {
      Mode(resumable, xi.ateof)
    }

    /** The client's own bookkeeping, whatever the table holds. */
    ghost predicate Kept()
      reads this
    {
      Wf(Now()) && Named(Now(), xids)
    }

    ghost predicate Valid()
      reads this, xi
    {
      Kept() && if stopped then NoEntry(xi.xidtab, this) else Filed(xi.xidtab, this, calls, xids)
    }

    /** arpc/aclnt.C:230-235 */
    constructor (x: Xhinfo, resumable: bool)
      ensures Valid() && xi == x && this.resumable == resumable && !stopped
      ensures Now() == Sim([], {}, 0, [], false) && xids == map[]
    {
      this.resumable := resumable;
      xi := x;
      calls, xids, tmo, stopped, made, log := [], map[], {}, false, 0, [];
      new;
    }

    /**
     * arpc/aclnt.C:92-100: the first of the generator's numbers that is neither zero nor in use.
     * Where `random` has none the generator goes on until it yields one.
     */
    method GenXid(random: seq<Xid>) returns (x: Xid)
      ensures x != 0 && x !in xi.xidtab
      ensures forall i :: 0 <= i < |random| && random[i] != 0 && random[i] !in xi.xidtab ==>
        exists j :: 0 <= j <= i && x == random[j]
    {
      var i := 0;
      while i < |random| && (random[i] in xi.xidtab || random[i] == 0)
        invariant i <= |random| && forall j :: 0 <= j < i ==> random[j] == 0 || random[j] in xi.xidtab
      {
        i := i + 1;
      }
      if i < |random| {
        return random[i];
      }
      ghost var some := Unused(xi.xidtab);
      x :| x != 0 && x !in xi.xidtab;
    }

    /** arpc/aclnt.C:59-64, 92-100: a new call is filed under a number that is not in use. */
    method NewCall(random: seq<Xid>)
      requires Valid() && !stopped
      modifies this`calls, this`xids, this`made, xi`xidtab
      ensures Valid() && OthersKept(old(xi.xidtab), xi.xidtab, this) && Extends(old(xids), xids)
      ensures Now() == Issued(old(Now()))
    {
      IssuedStep(Now());
      var x := GenXid(random);
      var c := made;
      assert c !in calls && c !in xids;
      calls, xids, made := calls + [c], xids[c := x], made + 1;
      xi.xidtab := xi.xidtab[x := Owner(this, c)];
    }

    /** arpc/aclnt.C:66-74: the destructor of a call. */
    method Delete(c: Id)
      requires Valid() && c in calls
      modifies this`calls, this`tmo, xi`xidtab
      ensures Valid() && OthersKept(old(xi.xidtab), xi.xidtab, this)
      ensures calls == Without(old(calls), c) && tmo == old(tmo) - {c}
    {
      DroppedStep(Now(), c);
      calls := Without(calls, c);
      tmo := tmo - {c};
      var x := xids[c];
      if x in xi.xidtab && xi.xidtab[x] == Owner(this, c) {
        xi.xidtab := xi.xidtab - {x};
      }
    }

    /** arpc/aclnt.C:134-140; what the callback does comes after. */
    method Finish(c: Id)
      requires Valid() && c in calls
      modifies this`calls, this`tmo, this`log, xi`xidtab
      ensures Valid() && OthersKept(old(xi.xidtab), xi.xidtab, this)
      ensures calls == Without(old(calls), c) && log == old(log) + [c] && tmo == old(tmo) - {c}
    {
      Delete(c);
      log := log + [c];
    }

    /** arpc/aclnt.C:84-90: a timeout for a call that has none. */
    method Timeout(c: Id)
      requires Valid() && c in calls && c !in tmo
      modifies this`tmo
      ensures Valid() && tmo == old(tmo) + {c}
    {
      tmo := tmo + {c};
    }

    /** arpc/aclnt.h:44 */
    method Expire(c: Id)
      requires Valid() && c in tmo
      modifies this`calls, this`tmo, this`log, xi`xidtab
      ensures Valid() && OthersKept(old(xi.xidtab), xi.xidtab, this)
      ensures calls == Without(old(calls), c) && log == old(log) + [c] && tmo == old(tmo) - {c}
    {
      Finish(c);
    }

    /** One thing that a callback does; `crashed` if a loop came to hold a dangling pointer. */
    method Perform(op: Op) returns (crashed: bool)
      requires Valid() && !stopped
      modifies this`calls, this`xids, this`made, this`log, this`tmo, xi`xidtab
      ensures Valid() && OthersKept(old(xi.xidtab), xi.xidtab, this) && Extends(old(xids), xids)
      ensures Now().(crashed := crashed) == DoOp(In(), old(Now()), op)
      decreases op, 0
    {
      crashed := false;
      match op
      case Arm(c) =>
        if c in calls && c !in tmo {
          Timeout(c);
        }
      case Cancel(c) =>
        if c in calls {
          Delete(c);
        }
      case Refail(handled, nested) =>
        if !(resumable && handled) {
          crashed := Fail(nested);
        }
      case Issue(random, handled, nested) => crashed := Call(random, handled, nested);
    }

    /**
     * arpc/aclnt.C:356-359, 411-430: at end of file a plain client calls back at once; a resumable
     * one asks its fail callback, fails its calls unless that keeps them, and then issues the call.
     */
    method Call(random: seq<Xid>, handled: bool, nested: Script) returns (crashed: bool)
      requires Valid() && !stopped
      modifies this`calls, this`xids, this`made, this`log, this`tmo, xi`xidtab
      ensures Valid() && OthersKept(old(xi.xidtab), xi.xidtab, this) && Extends(old(xids), xids)
      ensures Now().(crashed := crashed) == DoOp(In(), old(Now()), Issue(random, handled, nested))
      ensures !xi.ateof || (resumable && handled) ==>
        !crashed && calls == old(calls) + [old(made)] && log == old(log) && made == old(made) + 1
      ensures xi.ateof && !resumable ==>
        !crashed && calls == old(calls) && log == old(log) + [old(made)] && made == old(made) + 1
      ensures xi.ateof && resumable && !crashed ==> calls != [] && calls[|calls| - 1] == made - 1
      decreases nested, 2
    {
      IssueExact(In(), Now(), Issue(random, handled, nested));
      crashed := false;
      if xi.ateof {
        if !resumable {
          RefusedStep(Now());
          log, made := log + [made], made + 1;
          return;
        }
        if !handled {
          crashed := Fail(nested);
          if crashed {
            return;
          }
        }
      }
      ghost var tab := xi.xidtab;
      NewCall(random);
      OthersTrans(old(xi.xidtab), tab, xi.xidtab, this);
    }

    /** The user's part of a callback. */
    method Callback(ops: Ops) returns (crashed: bool)
      requires Valid() && !stopped
      modifies this`calls, this`xids, this`made, this`log, this`tmo, xi`xidtab
      ensures Valid() && OthersKept(old(xi.xidtab), xi.xidtab, this) && Extends(old(xids), xids)
      ensures Now().(crashed := crashed) == DoOps(In(), old(Now()), ops, 0)
      decreases ops, 0
    {
      crashed := false;
      var i := 0;
      ghost var whole := DoOps(In(), Now(), ops, 0);
      while i < |ops.all|
        invariant i <= |ops.all| && !crashed && Valid() && OthersKept(old(xi.xidtab), xi.xidtab, this)
        invariant Extends(old(xids), xids) && DoOps(In(), Now(), ops, i) == whole
      {
        ghost var tab, s := xi.xidtab, Now();
        crashed := Perform(ops.all[i]);
        OthersTrans(old(xi.xidtab), tab, xi.xidtab, this);
        if crashed {
          Crashed(In(), DoOp(In(), s, ops.all[i]), ops, i + 1);
          return;
        }
        i := i + 1;
      }
    }

    /**
     * A round of the loop of arpc/aclnt.C:568-571: the first call ends, its callback does what the
     * script says, and the successor saved before is next. It is a dangling pointer exactly if an
     * operation of the callback cancels that call or fails all calls. The callback of the last call
     * has no successor to lose, but may itself fail the calls that it has made.
     */
    method FailRound(script: Script, i: nat) returns (next: Option<Id>, crashed: bool)
      requires Valid() && !stopped && calls != [] && i <= |script.rounds|
      modifies this`calls, this`xids, this`made, this`log, this`tmo, xi`xidtab
      ensures Valid() && OthersKept(old(xi.xidtab), xi.xidtab, this) && Extends(old(xids), xids)
      ensures next == if |old(calls)| > 1 then Some(old(calls)[1]) else None
      ensures crashed <==>
        if next.Some? then EndsOne(In(), OpsAt(script, i), 0, next.value)
        else After(In(), old(Now()), script, i).crashed
      ensures Now().(crashed := false) == After(In(), old(Now()), script, i).(crashed := false)
      ensures !crashed ==> Now() == After(In(), old(Now()), script, i)
      ensures !crashed && next.Some? ==> calls != [] && calls[0] == next.value
      decreases script, 0
    {
      ghost var s := Now();
      next := if |calls| > 1 then Some(calls[1]) else None;
      WithoutFirst(calls);
      Finish(calls[0]);
      assert Now() == Fired(s);
      ghost var tab := xi.xidtab;
      crashed := false;
      if i < |script.rounds| {
        crashed := Callback(script.rounds[i]);
        OthersTrans(old(xi.xidtab), tab, xi.xidtab, this);
      }
      if |s.calls| > 1 {
        RoundExact(In(), s, OpsAt(script, i));
      }
      crashed := crashed || (next.Some? && next.value !in calls);
    }

    /**
     * arpc/aclnt.C:564-574: every outstanding call fails. A pointer comes to dangle exactly if in some
     * round the callback cancels the next call or fails all calls (`Dangles`); if none does, every
     * call is called back, or cancelled by a callback.
     */
    method Fail(script: Script) returns (crashed: bool)
      requires Valid() && !stopped
      modifies this`calls, this`xids, this`made, this`log, this`tmo, xi`xidtab
      ensures Valid() && OthersKept(old(xi.xidtab), xi.xidtab, this) && Extends(old(xids), xids)
      ensures Now().(crashed := crashed) == DoFail(In(), old(Now()), script, 0)
      ensures crashed <==> Dangles(In(), old(Now()), script, 0)
      ensures !crashed ==> forall c :: c in old(calls) ==> c in log || CancelledBy(c, script, 0)
      ensures !crashed ==> forall c :: c in old(calls) ==> c !in calls
      ensures script == Script([]) ==> !crashed && calls == [] && log == old(log) + old(calls)
      decreases script, 1
    {
      ghost var whole := DoFail(In(), Now(), script, 0);
      EveryCall(In(), Now(), script);
      PlainFail(In(), Now());
      crashed := false;
      var i := 0;
      var rb := if calls == [] then None else Some(calls[0]);
      while rb.Some?
        invariant i <= |script.rounds| && !crashed && Valid() && OthersKept(old(xi.xidtab), xi.xidtab, this)
        invariant Extends(old(xids), xids)
        invariant rb.Some? ==> calls != [] && calls[0] == rb.value && DoFail(In(), Now(), script, i) == whole
        invariant rb.None? ==> Now() == whole
        decreases |script.rounds| - i, |calls|
      {
        ghost var tab, s := xi.xidtab, Now();
        RoundIs(In(), s, script, i);
        rb, crashed := FailRound(script, i);
        OthersTrans(old(xi.xidtab), tab, xi.xidtab, this);
        if crashed {
          return;
        }
        i := if i < |script.rounds| then i + 1 else i;
      }
    }

    /** arpc/aclnt.C:633-638: a resumable client asks its fail callback first. */
    method FailUnlessKept(handled: bool, script: Script) returns (crashed: bool)
      requires Valid() && !stopped
      modifies this`calls, this`xids, this`made, this`log, this`tmo, xi`xidtab
      ensures Valid() && OthersKept(old(xi.xidtab), xi.xidtab, this) && Extends(old(xids), xids)
      ensures Now().(crashed := crashed) == DoOp(In(), old(Now()), Refail(handled, script))
    {
      crashed := false;
      if !(resumable && handled) {
        crashed := Fail(script);
      }
    }

    /**
     * arpc/aclnt.C:576-604: a reply with this xid. It ends the call that the table has for the xid,
     * if it is one of this client's; but a resumable client that cannot decode the result fails all
     * its calls, unless its fail callback keeps them (arpc/aclnt.h:240).
     */
    method Dispatch(x: Xid, rightSource: bool, decodes: bool, handled: bool, script: Script)
      returns (c: Option<Id>, crashed: bool)
      requires Valid() && !stopped
      modifies this`calls, this`xids, this`made, this`log, this`tmo, xi`xidtab
      ensures Valid() && OthersKept(old(xi.xidtab), xi.xidtab, this) && Extends(old(xids), xids)
      ensures c.Some? <==> rightSource && exists d :: d in old(calls) && old(xids)[d] == x
      ensures c.None? ==> Now() == old(Now()) && !crashed
      ensures c.Some? && (decodes || !resumable) ==> c.value in old(calls) && old(xids)[c.value] == x && !crashed
      ensures c.Some? && (decodes || !resumable) ==>
        Now() == Ended(old(Now()), c.value)
      ensures c.Some? && !decodes && resumable ==>
        Now().(crashed := crashed) == DoOp(In(), old(Now()), Refail(handled, script))
    {
      c, crashed := None, false;
      if x in xi.xidtab && rightSource && xi.xidtab[x].client == this {
        c := Some(xi.xidtab[x].id);
        if decodes || !resumable {
          Finish(c.value);
        } else {
          crashed := FailUnlessKept(handled, script);
        }
      }
    }

    /** The loop of arpc/aclnt.C:271-276; its assertion always holds. */
    method Unfile()
      requires Kept() && Filed(xi.xidtab, this, calls, xids)
      modifies xi`xidtab
      ensures NoEntry(xi.xidtab, this) && OthersKept(old(xi.xidtab), xi.xidtab, this)
    {
      ghost var rest := calls;
      var i := 0;
      while i < |calls|
        invariant i <= |calls| && rest == calls[i..] && Filed(xi.xidtab, this, rest, xids)
        invariant OthersKept(old(xi.xidtab), xi.xidtab, this)
      {
        Suffix(calls, i);
        assert xi.xidtab[xids[calls[i]]] == Owner(this, calls[i]);
        Unfiled(xi.xidtab, this, rest, xids, old(xi.xidtab));
        xi.xidtab := xi.xidtab - {xids[calls[i]]};
        rest := rest[1..];
        i := i + 1;
      }
    }

    /** arpc/aclnt.C:262-278 */
    method Stop()
      requires Valid()
      modifies this`stopped, xi`xidtab
      ensures Valid() && stopped && OthersKept(old(xi.xidtab), xi.xidtab, this)
    {
      if !stopped {
        Unfile();
        stopped := true;
      }
    }

    /**
     * The loop of arpc/aclnt.C:253-258; its assertion holds throughout exactly if no call in the
     * list has an xid that the table has in use.
     */
    method File() returns (ok: bool)
      requires Kept() && NoEntry(xi.xidtab, this)
      modifies xi`xidtab
      ensures OthersKept(old(xi.xidtab), xi.xidtab, this)
      ensures ok <==> NoClash(calls, xids, old(xi.xidtab), this)
      ensures ok ==> Filed(xi.xidtab, this, calls, xids)
    {
      ok := true;
      ghost var done: seq<Id> := [];
      var i := 0;
      while i < |calls|
        invariant i <= |calls| && done == calls[..i] && Filed(xi.xidtab, this, done, xids)
        invariant OthersKept(old(xi.xidtab), xi.xidtab, this)
        invariant NoClash(done, xids, old(xi.xidtab), this)
      {
        var c := calls[i];
        assert calls[..i + 1] == done + [c] && c in calls;
        ClashIsOld(old(xi.xidtab), xi.xidtab, this, calls, xids, i);
        if xids[c] in xi.xidtab {
          return false;
        }
        FiledMore(old(xi.xidtab), xi.xidtab, this, done, xids, c);
        xi.xidtab := xi.xidtab[xids[c] := Owner(this, c)];
        done := done + [c];
        i := i + 1;
      }
      assert done == calls;
    }

    /** arpc/aclnt.C:245-260 */
    method Start() returns (ok: bool)
      requires Valid()
      modifies this`stopped, xi`xidtab
      ensures OthersKept(old(xi.xidtab), xi.xidtab, this)
      ensures ok <==> !old(stopped) || NoClash(calls, xids, old(xi.xidtab), this)
      ensures ok ==> Valid() && !stopped
    {
      ok := true;
      if stopped {
        ok := File();
        stopped := false;
      }
    }

    /**
     * arpc/aclnt.C:656-677 without the retransmission: the calls move to the table of a transport,
     * which may be the one in use. They keep their order and their xids, and no entry of another
     * client changes. A client has entries only in the table of its own transport.
     */
    method Resume(newxi: Xhinfo) returns (ok: bool)
      requires Valid() && (newxi != xi ==> NoEntry(newxi.xidtab, this))
      modifies this`xi, this`stopped, xi`xidtab, newxi`xidtab
      ensures xi == newxi && Kept()
      ensures OthersKept(old(newxi.xidtab), newxi.xidtab, this) && OthersKept(old(xi.xidtab), old(xi).xidtab, this)
      ensures ok <==> NoClash(calls, xids, old(newxi.xidtab), this)
      ensures ok ==> Valid() && !stopped
      ensures old(xi) != newxi ==> NoEntry(old(xi).xidtab, this)
    {
      Stop();
      xi := newxi;
      ok := Start();
    }
  }

  lemma WithoutFirst(s: seq<Id>)
    requires s != [] && Ascending(s)
    ensures Without(s, s[0]) == s[1..]
  {
    assert s[0] !in s[1..];
  }

  lemma EveryCall(m: Mode, s: Sim, script: Script)
    requires Wf(s) && !s.crashed
    ensures var t := DoFail(m, s, script, 0);
      && (t.crashed <==> Dangles(m, s, script, 0))
      && (!t.crashed ==> forall c :: c in s.calls ==> c !in t.calls && (c in t.log || CancelledBy(c, script, 0)))
  {
    FailExact(m, s, script, 0);
    var t := DoFail(m, s, script, 0);
    if !t.crashed {
      forall c | c in s.calls ensures c !in t.calls && (c in t.log || CancelledBy(c, script, 0)) {
        AllServed(m, s, script, 0, c);
        FailEnds(m, s, script, 0, c);
      }
    }
  }

  /** The loop of `fail` goes on after a round, or ends with it. */
  lemma RoundIs(m: Mode, s: Sim, script: Script, i: nat)
    requires Wf(s) && !s.crashed && s.calls != [] && i <= |script.rounds|
    ensures var t, whole := After(m, s, script, i), DoFail(m, s, script, i);
      if |s.calls| == 1 then whole == t
      else if EndsOne(m, OpsAt(script, i), 0, s.calls[1]) then whole == t.(crashed := true)
      else whole == DoFail(m, t, script, Next(script, i))
  {
    if |s.calls| > 1 {
      RoundExact(m, s, OpsAt(script, i));
    }
  }

  /** Taking the first call out of the table. */
  lemma Unfiled(tab: XidTab, me: Aclnt, calls: seq<Id>, xids: map<Id, Xid>, was: XidTab)
    requires calls != [] && Filed(tab, me, calls, xids) && Distinct(calls) && OthersKept(was, tab, me)
    requires forall c, d :: c in calls && d in calls && c != d ==> xids[c] != xids[d]
    ensures var tab' := tab - {xids[calls[0]]}; Filed(tab', me, calls[1..], xids) && OthersKept(was, tab', me)
  {
    assert calls == [calls[0]] + calls[1..] && calls[0] !in calls[1..];
  }

  /** While the calls are filed one by one, a clash of xids is a clash with an entry that was there. */
  lemma ClashIsOld(was: XidTab, tab: XidTab, me: Aclnt, calls: seq<Id>, xids: map<Id, Xid>, i: nat)
    requires i < |calls| && Distinct(calls) && NoEntry(was, me)
    requires Filed(tab, me, calls[..i], xids) && OthersKept(was, tab, me)
    requires forall c, d :: c in calls && d in calls && c != d ==> c in xids && d in xids && xids[c] != xids[d]
    requires calls[i] in xids
    ensures xids[calls[i]] in tab <==> xids[calls[i]] in was
  {
    var c := calls[i];
    assert c !in calls[..i];
    if xids[c] in tab && tab[xids[c]].client == me {
      assert tab[xids[c]].id in calls[..i];
    }
  }

  lemma FiledMore(was: XidTab, tab: XidTab, me: Aclnt, calls: seq<Id>, xids: map<Id, Xid>, c: Id)
    requires Filed(tab, me, calls, xids) && OthersKept(was, tab, me) && c in xids && xids[c] !in tab
    ensures var tab' := tab[xids[c] := Owner(me, c)]; Filed(tab', me, calls + [c], xids) && OthersKept(was, tab', me)
  {
  }

  lemma Suffix(s: seq<Id>, i: nat)
    requires i < |s| && Ascending(s)
    ensures s[i..][0] == s[i] && s[i..][1..] == s[i + 1..] && s[i] in s[i..] && Distinct(s[i..])
    ensures forall c :: c in s[i..] ==> c in s
  {
  }
}
