/**
 * What a timer that goes off does to the entries of its level (async/backoff.h:61-88): those that are
 * due are transmitted on entering the next level or time out, once each, and no others are touched.
 */
module BackoffPass {
  import opened RpcTypes
  import opened Powers
  import opened Backoff
  import opened BackoffSafety

  /** A step of a pass: a round of its loop, or what a callback may do. */
  predicate During(step: Step) { !step.Fire? && !step.Finish? }

  /** The steps of a pass leave entry `p` to itself. */
  ghost predicate Spares(steps: seq<Step>, p: Id) {
    forall i :: 0 <= i < |steps| ==> During(steps[i]) && !Names(steps[i], p)
  }

  /** The items at the front that are due. */
  function Due(items: seq<Item>, now: int): (d: seq<Item>) {
    if items == [] || items[0].tm > now then [] else [items[0]] + Due(items[1..], now)
  }

  lemma {:induction false} DueIs(items: seq<Item>, now: int, i: nat)
    requires i < |items| && forall j :: 0 <= j <= i ==> items[j].tm <= now
    ensures items[i] in Due(items, now)
    decreases i
  {
    if i > 0 {
      DueIs(items[1..], now, i - 1);
    }
  }

  lemma {:induction false} DueAppended(items: seq<Item>, now: int, x: Item, y: Item)
    requires x in Due(items, now)
    ensures x in Due(items + [y], now)
    decreases |items|
  {
    assert (items + [y])[1..] == items[1..] + [y];
    if x != items[0] {
      DueAppended(items[1..], now, x, y);
    }
  }

  lemma {:induction false} DueWithout(items: seq<Item>, now: int, x: Item, y: Item)
    requires x in Due(items, now) && x != y
    ensures x in Due(Without(items, y), now)
    decreases |items|
  {
    if items[0] == y || x != items[0] {
      DueWithout(items[1..], now, x, y);
    }
  }

  /** The entry is queued, and the loop is bound to reach it. */
  ghost predicate Awaits(s: State, p: Id, q: nat, tm: int, now: int, h: seq<Event>) {
    && s.running == Some(Pass(q, now)) && q < |s.queue|
    && p in s.place && s.place[p] == Waiting(q, tm) && p in s.hist && s.hist[p] == h
    && Item(p, tm) in Due(s.queue[q], now)
  }

  /** The entry is not one that the loop moves. */
  ghost predicate Rests(s: State, p: Id, q: nat, now: int, at: Place, h: seq<Event>) {
    && s.running == Some(Pass(q, now)) && q < |s.queue|
    && p in s.place && s.place[p] == at && p in s.hist && s.hist[p] == h
    && !(at.Waiting? && at.q == q && at.tm <= now)
  }

  lemma RestsOn(c: Config, s: State, step: Step, p: Id, q: nat, now: int, at: Place, h: seq<Event>)
    requires c.maxsend > 0 && Wf(c, s) && EntryInv(c, s) && Enabled(c, s, step) && During(step) && !Names(step, p)
    requires Rests(s, p, q, now, at, h)
    ensures Rests(Apply(c, s, step), p, q, now, at, h) && s.clock <= Apply(c, s, step).clock
  {
    if step.Iterate? {
      var x := s.queue[q][0];
      assert x in s.queue[q] && s.place[x.id] == Waiting(q, x.tm);
      MoveKeeps(c, s, p);
    }
  }

  /** A round of the loop touches one entry. */
  lemma MoveKeeps(c: Config, s: State, p: Id)
    requires Wf(c, s) && s.running.Some? && More(s) && p != s.queue[s.running.value.q][0].id
    requires p in s.place && p in s.hist
    ensures var t := Move(c, s);
      && p in t.place && t.place[p] == s.place[p] && p in t.hist && t.hist[p] == s.hist[p]
      && t.running == s.running && t.clock == s.clock && |t.queue| == |s.queue|
      && t.queue[s.running.value.q] == s.queue[s.running.value.q][1..]
  {
    var Pass(q, now) := s.running.value;
    MoveIs(c, s);
    if q < c.maxsend - 1 {
      InsertFields(c, s.(queue := s.queue[q := s.queue[q][1..]]), s.queue[q][0].id, q + 1, now);
    }
  }

  /** What entry `p` sees when it is moved: the next transmission, or the timeout. */
  function Moved(c: Config, q: nat, now: int, at: int): (e: Event) {
    if q + 1 < c.maxsend then Xmit(q + 1, Base(now, at), at) else Timeout(now, at)
  }

  function Beyond(c: Config, q: nat, now: int, at: int): (e: Place) {
    if q + 1 < c.maxsend then Waiting(q + 1, Base(now, at) + Delay(c, q + 1)) else Expired
  }

  /** What a caller does or the passing of time leaves it waiting. */
  lemma AwaitsOn(c: Config, s: State, step: Step, p: Id, q: nat, tm: int, now: int, h: seq<Event>)
    requires c.maxsend > 0 && Wf(c, s) && Enabled(c, s, step) && During(step) && !Names(step, p) && !step.Iterate?
    requires Awaits(s, p, q, tm, now, h)
    ensures Awaits(Apply(c, s, step), p, q, tm, now, h) && s.clock <= Apply(c, s, step).clock
  {
    match step
    case Tick(_) =>
    case Start(x) => AwaitsInsert(c, s.(hist := s.hist - {x}), x, 0, p, q, tm, now, h);
    case KeepTrying(x) => AwaitsInsert(c, s, x, c.maxsend - 1, p, q, tm, now, h);
    case Remove(x) =>
      if x in s.place && s.place[x].Waiting? && s.place[x].q == q {
        DueWithout(s.queue[q], now, Item(p, tm), Item(x, s.place[x].tm));
      }
  }

  /** A round of the loop moves it, or comes nearer to it. */
  lemma AwaitsMove(c: Config, s: State, p: Id, q: nat, tm: int, now: int, h: seq<Event>)
    requires c.maxsend > 0 && Wf(c, s) && Members(s.queue, s.place) && s.running.Some? && More(s)
    requires Awaits(s, p, q, tm, now, h)
    ensures var t := Move(c, s);
      && t.clock == s.clock
      && if s.queue[q][0].id == p then Rests(t, p, q, now, Beyond(c, q, now, s.clock), h + [Moved(c, q, now, s.clock)])
         else Awaits(t, p, q, tm, now, h)
  {
    var x := s.queue[q][0];
    if x.id == p {
      assert x in s.queue[q];
      FirstMoves(c, s, q, now);
    } else {
      MoveKeeps(c, s, p);
    }
  }

  lemma FirstMoves(c: Config, s: State, q: nat, now: int)
    requires Wf(c, s) && s.running == Some(Pass(q, now)) && More(s) && s.queue[q][0].id in s.hist
    ensures var t, p := Move(c, s), s.queue[q][0].id;
      && t.place == s.place[p := Beyond(c, q, now, s.clock)] && t.running == s.running && |t.queue| == |s.queue|
      && p in t.hist && t.hist[p] == s.hist[p] + [Moved(c, q, now, s.clock)] && t.clock == s.clock
  {
    MoveIs(c, s);
    if q < c.maxsend - 1 {
      InsertFields(c, s.(queue := s.queue[q := s.queue[q][1..]]), s.queue[q][0].id, q + 1, now);
    }
  }

  lemma AwaitsInsert(c: Config, s: State, x: Id, l: nat, p: Id, q: nat, tm: int, now: int, h: seq<Event>)
    requires |s.queue| == |s.pending| == c.maxsend && l < c.maxsend && x != p && Awaits(s, p, q, tm, now, h)
    ensures Awaits(Insert(c, s, x, l, 0), p, q, tm, now, h)
  {
    InsertFields(c, s, x, l, 0);
    if l == q {
      DueAppended(s.queue[q], now, Item(p, tm), Item(x, Base(0, s.clock) + Delay(c, l)));
    }
  }

  lemma {:induction false} RestsThrough(c: Config, s: State, mid: seq<Step>, t: State, p: Id, q: nat, now: int,
                                        at: Place, h: seq<Event>)
    requires c.maxsend > 0 && EntryInv(c, s) && RunFrom(c, s, mid, t) && Spares(mid, p) && Rests(s, p, q, now, at, h)
    ensures Rests(t, p, q, now, at, h) && s.clock <= t.clock
    decreases |mid|
  {
    if mid != [] {
      EntryStep(c, s, mid[0]);
      RestsOn(c, s, mid[0], p, q, now, at, h);
      RestsThrough(c, Apply(c, s, mid[0]), mid[1..], t, p, q, now, at, h);
    }
  }

  /** The loop does not end before it has come to the entry. */
  lemma AwaitsNotDone(c: Config, s: State, p: Id, q: nat, tm: int, now: int, h: seq<Event>)
    requires Wf(c, s) && Awaits(s, p, q, tm, now, h)
    ensures !Enabled(c, s, Finish)
  {
  }

  lemma MovedThrough(c: Config, s: State, mid: seq<Step>, t: State, p: Id, q: nat, tm: int, now: int, h: seq<Event>)
    requires c.maxsend > 0 && Wf(c, s) && EntryInv(c, s) && Enabled(c, s, Iterate) && EntryInv(c, Move(c, s))
    requires RunFrom(c, Move(c, s), mid, t) && Spares(mid, p)
    requires Awaits(s, p, q, tm, now, h) && s.queue[q][0].id == p
    ensures s.clock <= t.clock && Rests(t, p, q, now, Beyond(c, q, now, s.clock), h + [Moved(c, q, now, s.clock)])
  {
    AwaitsMove(c, s, p, q, tm, now, h);
    RestsThrough(c, Move(c, s), mid, t, p, q, now, Beyond(c, q, now, s.clock), h + [Moved(c, q, now, s.clock)]);
  }

  lemma AwaitsStill(c: Config, s: State, step: Step, p: Id, q: nat, tm: int, now: int, h: seq<Event>)
    requires c.maxsend > 0 && Wf(c, s) && Members(s.queue, s.place) && Enabled(c, s, step) && During(step) && !Names(step, p)
    requires Awaits(s, p, q, tm, now, h) && (step.Iterate? ==> s.queue[q][0].id != p)
    ensures Awaits(Apply(c, s, step), p, q, tm, now, h) && s.clock <= Apply(c, s, step).clock
  {
    if step.Iterate? {
      AwaitsMove(c, s, p, q, tm, now, h);
    } else {
      AwaitsOn(c, s, step, p, q, tm, now, h);
    }
  }

  /** By the end of the loop the entry has moved. */
  lemma {:induction false} AwaitsThrough(c: Config, s: State, mid: seq<Step>, t: State, p: Id, q: nat, tm: int, now: int,
                                         h: seq<Event>) returns (at: int)
    requires c.maxsend > 0 && EntryInv(c, s) && RunFrom(c, s, mid, t) && Spares(mid, p)
    requires Awaits(s, p, q, tm, now, h) && Wf(c, t) && Enabled(c, t, Finish)
    ensures s.clock <= at <= t.clock && Rests(t, p, q, now, Beyond(c, q, now, at), h + [Moved(c, q, now, at)])
    decreases |mid|
  {
    if mid == [] {
      AwaitsNotDone(c, t, p, q, tm, now, h);
      assert false;
    } else {
      var r := Apply(c, s, mid[0]);
      EntryStep(c, s, mid[0]);
      if mid[0].Iterate? && s.queue[q][0].id == p {
        at := s.clock;
        MovedThrough(c, s, mid[1..], t, p, q, tm, now, h);
      } else {
        AwaitsStill(c, s, mid[0], p, q, tm, now, h);
        at := AwaitsThrough(c, r, mid[1..], t, p, q, tm, now, h);
      }
    }
  }

  /** The run of a whole pass over level `q`. */
  ghost predicate PassRun(c: Config, s: State, q: nat, mid: seq<Step>, t: State) {
    c.maxsend > 0 && EntryInv(c, s) && RunFrom(c, s, [Fire(q)] + mid + [Finish], t)
  }

  lemma PassParts(c: Config, s: State, q: nat, mid: seq<Step>, t: State) returns (r: State, u: State)
    requires PassRun(c, s, q, mid, t)
    ensures Wf(c, s) && Enabled(c, s, Fire(q)) && r == Apply(c, s, Fire(q)) && EntryInv(c, r) && RunFrom(c, r, mid, u)
    ensures Wf(c, u) && Enabled(c, u, Finish) && t == Apply(c, u, Finish)
  {
    var steps := [Fire(q)] + mid + [Finish];
    assert steps[1..] == mid + [Finish];
    EntryStep(c, s, Fire(q));
    r := Apply(c, s, Fire(q));
    u := LastApart(c, r, mid, Finish, t);
  }

  lemma {:induction false} LastApart(c: Config, s: State, mid: seq<Step>, last: Step, t: State) returns (u: State)
    requires RunFrom(c, s, mid + [last], t)
    ensures c.maxsend > 0 && RunFrom(c, s, mid, u) && Wf(c, u) && Enabled(c, u, last) && t == Apply(c, u, last)
    decreases |mid|
  {
    if mid == [] {
      u := s;
      assert ([] + [last])[1..] == [];
    } else {
      assert (mid + [last])[1..] == mid[1..] + [last];
      u := LastApart(c, Apply(c, s, mid[0]), mid[1..], last, t);
    }
  }

  /**
   * An entry of the level that is due, and none before it is not, is transmitted once on entering
   * the next level, or times out, unless a callback names it.
   */
  lemma DueMove(c: Config, s: State, q: nat, mid: seq<Step>, t: State, p: Id, i: nat) returns (at: int)
    requires PassRun(c, s, q, mid, t) && Spares(mid, p)
    requires q < |s.queue| && i < |s.queue[q]| && s.queue[q][i].id == p
    requires forall j :: 0 <= j <= i ==> s.queue[q][j].tm <= s.clock
    ensures s.clock <= at <= t.clock && p in s.hist && p in t.hist && p in t.place
    ensures t.hist[p] == s.hist[p] + [if q + 1 < c.maxsend then Xmit(q + 1, Base(s.clock, at), at) else Timeout(s.clock, at)]
    ensures t.place[p] ==
      if q + 1 < c.maxsend then Waiting(q + 1, Base(s.clock, at) + Delay(c, q + 1)) else Expired
  {
    var r, u := PassParts(c, s, q, mid, t);
    var x := s.queue[q][i];
    assert x in s.queue[q];
    DueIs(s.queue[q], s.clock, i);
    at := AwaitsThrough(c, r, mid, u, p, q, x.tm, s.clock, s.hist[p]);
  }

  /** An entry that is at another level, or not due, or not queued, is left as it is. */
  lemma OthersStay(c: Config, s: State, q: nat, mid: seq<Step>, t: State, p: Id)
    requires PassRun(c, s, q, mid, t) && Spares(mid, p)
    requires p in s.place && !(s.place[p].Waiting? && s.place[p].q == q && s.place[p].tm <= s.clock)
    ensures p in s.hist && p in t.hist && t.hist[p] == s.hist[p]
    ensures p in t.place && t.place[p] == s.place[p]
  {
    var r, u := PassParts(c, s, q, mid, t);
    RestsThrough(c, r, mid, u, p, q, s.clock, s.place[p], s.hist[p]);
  }

  /** A timer that goes off is gone, and does not go off again before another one is set. */
  lemma TimerGone(c: Config, s: State, q: nat)
    requires c.maxsend > 0 && Wf(c, s) && Enabled(c, s, Fire(q))
    ensures var t := Apply(c, s, Fire(q));
      && t.pending[q] == None && t.queue == s.queue
      && forall r :: 0 <= r < c.maxsend && r != q ==> t.pending[r] == s.pending[r]
  {
  }

  /** An entry that is not queued sees nothing more until a caller names it. */
  lemma {:induction false} UnqueuedSilent(c: Config, s: State, steps: seq<Step>, t: State, p: Id)
    requires c.maxsend > 0 && EntryInv(c, s) && RunFrom(c, s, steps, t)
    requires forall i :: 0 <= i < |steps| ==> !Names(steps[i], p)
    requires p in s.place && !s.place[p].Waiting?
    ensures p in t.place && t.place[p] == s.place[p] && p in s.hist && p in t.hist && t.hist[p] == s.hist[p]
    decreases |steps|
  {
    if steps != [] {
      EntryStep(c, s, steps[0]);
      UnqueuedStep(c, s, steps[0], p);
      UnqueuedSilent(c, Apply(c, s, steps[0]), steps[1..], t, p);
    }
  }

  lemma UnqueuedStep(c: Config, s: State, step: Step, p: Id)
    requires c.maxsend > 0 && Wf(c, s) && EntryInv(c, s) && Enabled(c, s, step) && !Names(step, p)
    requires p in s.place && !s.place[p].Waiting?
    ensures var t := Apply(c, s, step); p in t.place && t.place[p] == s.place[p] && p in t.hist && t.hist[p] == s.hist[p]
  {
    if step.Iterate? {
      var x := s.queue[s.running.value.q][0];
      assert x in s.queue[s.running.value.q];
      MoveKeeps(c, s, p);
    }
  }

  /** After its removal an entry sees nothing more, in no run, until it is started again. */
  lemma RemovedSilent(c: Config, s: State, p: Id, steps: seq<Step>, t: State)
    requires c.maxsend > 0 && Wf(c, s) && EntryInv(c, s) && Enabled(c, s, Remove(p)) && p in s.place
    requires RunFrom(c, Apply(c, s, Remove(p)), steps, t) && forall i :: 0 <= i < |steps| ==> !Names(steps[i], p)
    ensures p in s.hist && p in t.hist && t.hist[p] == s.hist[p]
  {
    EntryStep(c, s, Remove(p));
    UnqueuedSilent(c, Apply(c, s, Remove(p)), steps, t, p);
  }

  /** Starting an entry and keeping it on transmit it at once, and queue it for as long as its level has it. */
  lemma Transmitted(c: Config, s: State, step: Step)
    requires c.maxsend > 0 && Wf(c, s) && Enabled(c, s, step) && (step.Start? || step.KeepTrying?)
    ensures var t, p, q := Apply(c, s, step), step.p, if step.Start? then 0 else c.maxsend - 1;
      && p in t.place && t.place[p] == Waiting(q, s.clock + c.minto * Pow2(q))
      && p in t.hist && t.hist[p] == (if step.KeepTrying? && p in s.hist then s.hist[p] else []) + [Xmit(q, s.clock, s.clock)]
      && t.queue[q] == s.queue[q] + [Item(p, s.clock + c.minto * Pow2(q))]
      && t.clock == s.clock
  {
    if step.Start? {
      InsertFields(c, s.(hist := s.hist - {step.p}), step.p, 0, 0);
    } else {
      InsertFields(c, s, step.p, c.maxsend - 1, 0);
    }
  }
}
