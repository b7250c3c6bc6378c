/**
 * The backoff queue as it runs (async/backoff.h:50-123). Whatever its callbacks do, every call is a
 * run of the steps of `Backoff`, so that what is proved of all runs holds of it.
 */
module BackoffQueue {
  import opened RpcTypes
  import opened Backoff
  import opened BackoffSafety
  import opened BackoffPass

  /** What a callback may do: take time, and call back into the queue as its callers must. */
  predicate Allowed(step: Step) {
    step.Tick? || step.Start? || step.Remove? || step.KeepTrying?
  }

  class Tmoq {
    const c: Config
    var queue: seq<seq<Item>>
    var pending: seq<Option<int>>
    var place: map<Id, Place>
    var hist: map<Id, seq<Event>>
    var clock: int
    ghost var running: Option<Pass>

    ghost function Abs(): (s: State)
      reads this
    {
      State(queue, pending, place, hist, clock, running)
    }

    ghost predicate Valid()
      reads this
    {
      c.maxsend > 0 && Wf(c, Abs())
    }

    constructor (c: Config, clock: int)
      requires c.maxsend > 0
      ensures Valid() && this.c == c && Abs() == Init(c, clock)
    {
      this.c, this.clock := c, clock;
      queue, pending := seq(c.maxsend, _ => []), seq(c.maxsend, _ => None);
      place, hist, running := map[], map[], None;
    }

    /** async/backoff.h:67-73 */
    method ScheduleQueue(q: nat)
      requires q < |queue| && q < |pending|
      modifies this`pending
      ensures Abs() == Schedq(old(Abs()), q)
    {
      if pending[q].None? && queue[q] != [] {
        pending := pending[q := Some(queue[q][0].tm)];
      }
    }

    /** async/backoff.h:90-99, `xmit` included */
    method InsertAt(p: Id, q: nat, now: int)
      requires |queue| == |pending| == c.maxsend && q < c.maxsend
      modifies this
      ensures Abs() == Insert(c, old(Abs()), p, q, now)
    {
      var base := if now != 0 then now else clock;
      var tm := base + Delay(c, q);
      place := place[p := Waiting(q, tm)];
      queue := queue[q := queue[q] + [Item(p, tm)]];
      ScheduleQueue(q);
      hist := hist[p := (if p in hist then hist[p] else []) + [Xmit(q, base, clock)]];
    }

    /** async/backoff.h:114-122 */
    method RemoveEntry(p: Id)
      requires Valid() && Enabled(c, Abs(), Remove(p))
      modifies this
      ensures Abs() == Apply(c, old(Abs()), Remove(p))
    {
      if p in place && place[p].Waiting? {
        var Waiting(q, tm) := place[p];
        queue := queue[q := Without(queue[q], Item(p, tm))];
        place := place[p := Removed(q, tm)];
      }
    }

    /** async/backoff.h:107-122, or the passing of time */
    method Call(step: Step)
      requires Valid() && Allowed(step) && Enabled(c, Abs(), step)
      modifies this
      ensures Valid() && Abs() == Apply(c, old(Abs()), step)
    {
      ApplyWf(c, Abs(), step);
      match step
      case Tick(secs) => clock := clock + secs;
      case Start(p) =>
        hist := hist - {p};
        InsertAt(p, 0, 0);
      case Remove(p) => RemoveEntry(p);
      case KeepTrying(p) => InsertAt(p, c.maxsend - 1, 0);
    }

    /** A callback does `ops` in turn, up to one that breaks the conditions on callers. */
    method Callback(ops: seq<Step>) returns (ok: bool, done: nat)
      requires Valid()
      modifies this
      ensures done <= |ops| && ok == (done == |ops|)
      ensures Valid() && RunFrom(c, old(Abs()), ops[..done], Abs()) && running == old(running)
      ensures forall i :: 0 <= i < done ==> Allowed(ops[i])
      ensures !ok ==> !(Allowed(ops[done]) && Enabled(c, Abs(), ops[done]))
    {
      ok, done := true, 0;
      while ok && done < |ops|
        invariant done <= |ops| && Valid() && RunFrom(c, old(Abs()), ops[..done], Abs()) && running == old(running)
        invariant forall i :: 0 <= i < done ==> Allowed(ops[i])
        invariant !ok ==> done < |ops| && !(Allowed(ops[done]) && Enabled(c, Abs(), ops[done]))
        decreases |ops| - done, ok
      {
        ok := Allowed(ops[done]) && MayCall(ops[done]);
        if ok {
          Follow(c, old(Abs()), ops[..done], Abs(), ops[done]);
          assert ops[..done + 1] == ops[..done] + [ops[done]];
          Call(ops[done]);
          done := done + 1;
        }
      }
    }

    predicate MayCall(step: Step)
      requires Allowed(step)
      reads this
      ensures Valid() ==> (MayCall(step) <==> Enabled(c, Abs(), step))
    {
      match step
      case Tick(_) => true
      case Start(p) => p in place ==> !place[p].Waiting?
      case Remove(p) => p in place ==> !place[p].Removed?
      case KeepTrying(p) => p in place ==> place[p].Expired?
    }

    /** One round of the loop of async/backoff.h:79-87. */
    method MoveFirst(q: nat, now: int)
      requires Valid() && running == Some(Pass(q, now)) && More(Abs())
      modifies this
      ensures Valid() && Abs() == Apply(c, old(Abs()), Iterate)
    {
      ApplyWf(c, Abs(), Iterate);
      var p := queue[q][0].id;
      queue := queue[q := queue[q][1..]];
      if q < c.maxsend - 1 {
        InsertAt(p, q + 1, now);
      } else {
        place := place[p := Expired];
        hist := hist[p := (if p in hist then hist[p] else []) + [Timeout(now, clock)]];
      }
    }

    /**
     * The round after `i` others: the first entry moves, and its callback does what the script says.
     * The steps are those of the script as far as the callback keeps to the conditions on callers.
     */
    method Round(q: nat, now: int, script: seq<seq<Step>>, i: nat, ghost s: State) returns (ok: bool, ghost trace: seq<Step>)
      requires Valid() && running == Some(Pass(q, now)) && More(Abs()) && RunFrom(c, s, [Fire(q)] + Rounds(script, i), Abs())
      modifies this
      ensures Valid() && running == old(running) && RunFrom(c, s, trace, Abs())
      ensures ok ==> trace == [Fire(q)] + Rounds(script, i + 1)
      ensures ok ==> forall j :: 0 <= j < |OpsAt(script, i)| ==> Allowed(OpsAt(script, i)[j])
      ensures !ok ==> Stuck(c, q, script, i, trace, Abs())
      ensures i >= |script| ==> |queue[q]| < |old(queue)[q]|
    {
      ghost var before := [Fire(q)] + Rounds(script, i) + [Iterate];
      MoveOn(q, now, s, [Fire(q)] + Rounds(script, i));
      var done;
      ghost var mid := Abs();
      ok, done := Callback(OpsAt(script, i));
      Joined(c, s, before, mid, OpsAt(script, i)[..done], Abs());
      trace := before + OpsAt(script, i)[..done];
      RoundEnds(c, q, script, i, done, trace, Abs());
    }

    /** The first entry moves, in a run. */
    method MoveOn(q: nat, now: int, ghost s: State, ghost before: seq<Step>)
      requires Valid() && running == Some(Pass(q, now)) && More(Abs()) && RunFrom(c, s, before, Abs())
      modifies this
      ensures Valid() && running == old(running) && RunFrom(c, s, before + [Iterate], Abs())
      ensures |queue[q]| < |old(queue)[q]|
    {
      Follow(c, s, before, Abs(), Iterate);
      MoveFirst(q, now);
    }

    /**
     * async/backoff.h:61-65 with `runq` and `schedq`: the timer of level `q` goes off. The callback
     * of the i-th entry to move does `script[i]`, and nothing after the script's end. Unless a callback
     * breaks the conditions on callers, the steps are: the timer goes off, `n` rounds with what their
     * callbacks do, and the pass is over, with no entry left to move.
     */
    method Tcb(q: nat, script: seq<seq<Step>>) returns (ok: bool, ghost n: nat, ghost trace: seq<Step>)
      requires Valid() && Enabled(c, Abs(), Fire(q))
      modifies this
      ensures Valid() && RunFrom(c, old(Abs()), trace, Abs())
      ensures ok ==> running.None? && trace == [Fire(q)] + Rounds(script, n) + [Finish] && AllAllowed(script, n)
      ensures !ok ==> n < |script| && Stuck(c, q, script, n, trace, Abs())
      ensures ok && EntryInv(c, old(Abs())) ==> AllTreated(c, q, old(Abs()), Abs(), script, n)
    {
      ghost var s := Abs();
      n, trace, ok := 0, [Fire(q)], true;
      Follow(c, s, [], s, Fire(q));
      assert [] + [Fire(q)] == [Fire(q)] + Rounds(script, 0) == [Fire(q)];
      pending := pending[q := None];
      running := Some(Pass(q, clock));
      var now, i := clock, 0;
      while queue[q] != [] && queue[q][0].tm <= now
        invariant Valid() && running == Some(Pass(q, now)) && n == i
        invariant RunFrom(c, s, trace, Abs()) && trace == [Fire(q)] + Rounds(script, i) && AllAllowed(script, i)
        decreases if i < |script| then |script| - i else 0, |queue[q]|
      {
        ok, trace := Round(q, now, script, i, s);
        if !ok {
          return;
        }
        i, n := i + 1, n + 1;
      }
      Follow(c, s, trace, Abs(), Finish);
      trace := trace + [Finish];
      ScheduleQueue(q);
      running := None;
      if EntryInv(c, s) {
        TreatsAll(c, s, q, script, n, Abs());
      }
    }
  }

  function OpsAt(script: seq<seq<Step>>, i: nat): (ops: seq<Step>) { if i < |script| then script[i] else [] }

  /** `n` rounds of a pass, each with what its callback does. */
  function Rounds(script: seq<seq<Step>>, n: nat): (steps: seq<Step>) {
    if n == 0 then [] else Rounds(script, n - 1) + [Iterate] + OpsAt(script, n - 1)
  }

  /** What a round adds to a trace, whether or not its callback got to its end. */
  lemma RoundEnds(c: Config, q: nat, script: seq<seq<Step>>, i: nat, done: nat, trace: seq<Step>, t: State)
    requires done <= |OpsAt(script, i)| && Wf(c, t)
    requires trace == [Fire(q)] + Rounds(script, i) + [Iterate] + OpsAt(script, i)[..done]
    requires done < |OpsAt(script, i)| ==> !(Allowed(OpsAt(script, i)[done]) && Enabled(c, t, OpsAt(script, i)[done]))
    ensures done == |OpsAt(script, i)| ==> trace == [Fire(q)] + Rounds(script, i + 1)
    ensures done < |OpsAt(script, i)| ==> Stuck(c, q, script, i, trace, t)
  {
    if done == |OpsAt(script, i)| {
      assert OpsAt(script, i)[..done] == OpsAt(script, i);
      assert [Fire(q)] + Rounds(script, i) + [Iterate] + OpsAt(script, i)
        == [Fire(q)] + (Rounds(script, i) + [Iterate] + OpsAt(script, i));
    } else {
      assert StuckAt(c, q, script, i, trace, t, done);
    }
  }

  ghost predicate AllAllowed(script: seq<seq<Step>>, n: nat) {
    forall i, j :: 0 <= i < n && i < |script| && 0 <= j < |script[i]| ==> Allowed(script[i][j])
  }

  /** No callback of the first `n` rounds names the entry. */
  ghost predicate Unnamed(script: seq<seq<Step>>, n: nat, p: Id) {
    forall i, j :: 0 <= i < n && i < |script| && 0 <= j < |script[i]| ==> !Names(script[i][j], p)
  }

  /** In round `n` the callback got as far as a step that its caller must not make. */
  ghost predicate Stuck(c: Config, q: nat, script: seq<seq<Step>>, n: nat, trace: seq<Step>, t: State) {
    n < |script| && Wf(c, t) && exists k :: StuckAt(c, q, script, n, trace, t, k)
  }

  ghost predicate StuckAt(c: Config, q: nat, script: seq<seq<Step>>, n: nat, trace: seq<Step>, t: State, k: nat)
    requires n < |script| && Wf(c, t)
  {
    && k < |script[n]| && trace == [Fire(q)] + Rounds(script, n) + [Iterate] + script[n][..k]
    && !(Allowed(script[n][k]) && Enabled(c, t, script[n][k]))
  }

  /** The entry is due at place `i` of its level, and so are all before it. */
  ghost predicate Reached(items: seq<Item>, now: int, p: Id, i: nat) {
    i < |items| && items[i].id == p && forall j :: 0 <= j <= i ==> items[j].tm <= now
  }

  /**
   * What a pass over level `q` does to an entry that no callback names: if it was due there, and so
   * were all before it, it has been transmitted at the next level or has timed out; if it was not due
   * there, it is as it was.
   */
  ghost predicate Treated(c: Config, q: nat, s: State, t: State, p: Id)
    requires q < |s.queue|
  {
    && (forall i :: Reached(s.queue[q], s.clock, p, i) ==> Advanced(c, q, s, t, p))
    && (p in s.place && !(s.place[p].Waiting? && s.place[p].q == q && s.place[p].tm <= s.clock) ==>
          p in t.place && t.place[p] == s.place[p] && p in s.hist && p in t.hist && t.hist[p] == s.hist[p])
  }

  ghost predicate Advanced(c: Config, q: nat, s: State, t: State, p: Id) {
    p in s.hist && p in t.hist && p in t.place && exists at :: AdvancedAt(c, q, s, t, p, at)
  }

  ghost predicate AdvancedAt(c: Config, q: nat, s: State, t: State, p: Id, at: int)
    requires p in s.hist && p in t.hist && p in t.place
  {
    && s.clock <= at <= t.clock
    && t.hist[p] == s.hist[p] + [if q + 1 < c.maxsend then Xmit(q + 1, Base(s.clock, at), at) else Timeout(s.clock, at)]
    && t.place[p] == if q + 1 < c.maxsend then Waiting(q + 1, Base(s.clock, at) + Delay(c, q + 1)) else Expired
  }

  ghost predicate AllTreated(c: Config, q: nat, s: State, t: State, script: seq<seq<Step>>, n: nat) {
    q < |s.queue| && forall p :: Unnamed(script, n, p) ==> Treated(c, q, s, t, p)
  }

  lemma {:induction false} RoundsSpare(script: seq<seq<Step>>, n: nat, p: Id)
    requires AllAllowed(script, n) && Unnamed(script, n, p)
    ensures Spares(Rounds(script, n), p)
  {
    if n > 0 {
      RoundsSpare(script, n - 1, p);
    }
  }

  lemma Treats(c: Config, s: State, q: nat, script: seq<seq<Step>>, n: nat, t: State, p: Id)
    requires PassRun(c, s, q, Rounds(script, n), t) && q < |s.queue| && AllAllowed(script, n) && Unnamed(script, n, p)
    ensures Treated(c, q, s, t, p)
  {
    var mid := Rounds(script, n);
    RoundsSpare(script, n, p);
    forall i | Reached(s.queue[q], s.clock, p, i) ensures Advanced(c, q, s, t, p) {
      var at := DueMove(c, s, q, mid, t, p, i);
      assert AdvancedAt(c, q, s, t, p, at);
    }
    if p in s.place && !(s.place[p].Waiting? && s.place[p].q == q && s.place[p].tm <= s.clock) {
      OthersStay(c, s, q, mid, t, p);
    }
  }

  lemma TreatsAll(c: Config, s: State, q: nat, script: seq<seq<Step>>, n: nat, t: State)
    requires PassRun(c, s, q, Rounds(script, n), t) && q < |s.queue| && AllAllowed(script, n)
    ensures AllTreated(c, q, s, t, script, n)
  {
    forall p | Unnamed(script, n, p) ensures Treated(c, q, s, t, p) {
      Treats(c, s, q, script, n, t, p);
    }
  }

  /** A run may go on with an enabled step. */
  lemma Follow(c: Config, s: State, steps: seq<Step>, t: State, step: Step)
    requires RunFrom(c, s, steps, t) && Wf(c, t) && Enabled(c, t, step)
    ensures c.maxsend > 0 && Wf(c, Apply(c, t, step)) && RunFrom(c, s, steps + [step], Apply(c, t, step))
  {
    var u := OneStep(c, t, step);
    Joined(c, s, steps, t, [step], u);
  }
}
