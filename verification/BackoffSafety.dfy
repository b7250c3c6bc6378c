/** What every run of the backoff queue keeps, and the schedule it gives to each entry. */
module BackoffSafety {
  import opened RpcTypes
  import opened Powers
  import opened Backoff

  // The entries: each is queued where it says it is, once, and its history fits its place.

  ghost predicate MembersBut(queue: seq<seq<Item>>, place: map<Id, Place>, except: Option<Id>) {
    && (forall q, x :: 0 <= q < |queue| && x in queue[q] ==>
         Some(x.id) != except && x.id in place && place[x.id] == Waiting(q, x.tm))
    && (forall p :: p in place && Some(p) != except && place[p].Waiting? ==>
         place[p].q < |queue| && Item(p, place[p].tm) in queue[place[p].q])
    && (forall q :: 0 <= q < |queue| ==> Distinct(queue[q]))
  }

  ghost predicate Members(queue: seq<seq<Item>>, place: map<Id, Place>) {
    MembersBut(queue, place, None)
  }

  lemma Idle(queue: seq<seq<Item>>, place: map<Id, Place>, p: Id)
    requires Members(queue, place) && (p in place ==> !place[p].Waiting?)
    ensures MembersBut(queue, place, Some(p))
  {
  }

  lemma Queued(queue: seq<seq<Item>>, place: map<Id, Place>, p: Id, q: nat, tm: int)
    requires MembersBut(queue, place, Some(p)) && q < |queue|
    ensures Members(queue[q := queue[q] + [Item(p, tm)]], place[p := Waiting(q, tm)])
  {
    var queue' := queue[q := queue[q] + [Item(p, tm)]];
    assert Item(p, tm) !in queue[q];
    assert Item(p, tm) in queue'[q];
    forall r | 0 <= r < |queue'| ensures Distinct(queue'[r]) {
      assert Distinct(queue[r]);
    }
  }

  lemma Settled(queue: seq<seq<Item>>, place: map<Id, Place>, p: Id, to: Place)
    requires MembersBut(queue, place, Some(p)) && !to.Waiting?
    ensures Members(queue, place[p := to])
  {
  }

  lemma Taken(queue: seq<seq<Item>>, place: map<Id, Place>, q: nat)
    requires Members(queue, place) && q < |queue| && queue[q] != []
    ensures MembersBut(queue[q := queue[q][1..]], place, Some(queue[q][0].id))
  {
    var items, p := queue[q], queue[q][0].id;
    var queue' := queue[q := items[1..]];
    assert Distinct(items) && items[0] in items;
    forall r: int, x: Item | 0 <= r < |queue'| && x in queue'[r] ensures x.id != p {
      assert x in queue[r];
      assert r == q ==> x != items[0];
    }
    forall r | r in place && r != p && place[r].Waiting? ensures Item(r, place[r].tm) in queue'[place[r].q] {
      assert Item(r, place[r].tm) in queue[place[r].q];
    }
  }

  lemma Unlinked(queue: seq<seq<Item>>, place: map<Id, Place>, p: Id)
    requires Members(queue, place) && p in place && place[p].Waiting?
    ensures place[p].q < |queue|
    ensures var e := place[p];
      MembersBut(queue[e.q := Without(queue[e.q], Item(p, e.tm))], place, Some(p))
  {
    var e := place[p];
    var queue' := queue[e.q := Without(queue[e.q], Item(p, e.tm))];
    assert Distinct(queue[e.q]);
    WithoutDistinct(queue[e.q], Item(p, e.tm));
    assert forall r, x :: 0 <= r < |queue'| && x in queue'[r] ==> x in queue[r];
  }

  /** An entry's first event, and what may follow an event. */
  ghost predicate First(c: Config, e: Event) {
    e.Xmit? && (e.retry == 0 || e.retry == c.maxsend - 1) && e.base <= e.at
  }

  ghost predicate Follows(c: Config, a: Event, b: Event) {
    && b.base <= b.at && a.at <= b.at
    && if a.Timeout? then b.Xmit? && b.retry == c.maxsend - 1
       else
         && a.base + Delay(c, a.retry) <= b.base
         && if a.retry + 1 < c.maxsend then b.Xmit? && b.retry == a.retry + 1 else b.Timeout?
  }

  ghost predicate Legal(c: Config, h: seq<Event>) {
    && h != [] && First(c, h[0])
    && forall i :: 0 < i < |h| ==> Follows(c, h[i - 1], h[i])
  }

  ghost predicate Fits(c: Config, h: seq<Event>, e: Place, clock: int) {
    && Legal(c, h)
    && var last := h[|h| - 1];
      && last.at <= clock
      && if e.Expired? then last.Timeout?
         else last.Xmit? && last.retry == e.q < c.maxsend && e.tm == last.base + Delay(c, e.q)
  }

  ghost predicate HistInv(c: Config, place: map<Id, Place>, hist: map<Id, seq<Event>>, clock: int) {
    && place.Keys == hist.Keys
    && forall p :: p in place ==> Fits(c, hist[p], place[p], clock)
  }

  ghost predicate HistBut(c: Config, place: map<Id, Place>, hist: map<Id, seq<Event>>, clock: int, except: Id) {
    && place.Keys + {except} == hist.Keys + {except}
    && forall p :: p in place && p != except ==> Fits(c, hist[p], place[p], clock)
  }

  /** The history `h`, empty for an entry not started before, may go on with `e`. */
  ghost predicate GoesOn(c: Config, h: seq<Event>, e: Event) {
    if h == [] then First(c, e) else Legal(c, h) && Follows(c, h[|h| - 1], e)
  }

  lemma Extended(c: Config, h: seq<Event>, e: Event, to: Place, clock: int)
    requires GoesOn(c, h, e) && e.at <= clock
    requires if to.Expired? then e.Timeout?
             else e.Xmit? && e.retry == to.q < c.maxsend && to.tm == e.base + Delay(c, to.q)
    ensures Fits(c, h + [e], to, clock)
  {
    var h' := h + [e];
    assert h'[|h'| - 1] == e;
  }

  lemma HistExtended(c: Config, place: map<Id, Place>, hist: map<Id, seq<Event>>, clock: int, p: Id, h: seq<Event>, to: Place)
    requires HistBut(c, place, hist, clock, p) && Fits(c, h, to, clock)
    ensures HistInv(c, place[p := to], hist[p := h], clock)
  {
  }

  ghost predicate EntryInv(c: Config, s: State) {
    && Members(s.queue, s.place)
    && HistInv(c, s.place, s.hist, s.clock)
    && (s.running.Some? ==> s.running.value.now <= s.clock)
  }

  /** Inserting an entry whose history so far, if any, allows it to enter level `q` then. */
  lemma InsertEntry(c: Config, s: State, p: Id, q: nat, now: int)
    requires |s.queue| == |s.pending| == c.maxsend && q < c.maxsend
    requires MembersBut(s.queue, s.place, Some(p)) && HistBut(c, s.place, s.hist, s.clock, p)
    requires GoesOn(c, Events(s, p), Xmit(q, Base(now, s.clock), s.clock))
    requires s.running.Some? ==> s.running.value.now <= s.clock
    ensures EntryInv(c, Insert(c, s, p, q, now))
  {
    var e := Xmit(q, Base(now, s.clock), s.clock);
    var tm := e.base + Delay(c, q);
    Queued(s.queue, s.place, p, q, tm);
    Extended(c, Events(s, p), e, Waiting(q, tm), s.clock);
    HistExtended(c, s.place, s.hist, s.clock, p, Events(s, p) + [e], Waiting(q, tm));
    InsertFields(c, s, p, q, now);
  }

  lemma InsertFields(c: Config, s: State, p: Id, q: nat, now: int)
    requires |s.queue| == |s.pending| == c.maxsend && q < c.maxsend
    ensures var r, tm := Insert(c, s, p, q, now), Base(now, s.clock) + Delay(c, q);
      && r.queue == s.queue[q := s.queue[q] + [Item(p, tm)]]
      && r.place == s.place[p := Waiting(q, tm)]
      && r.hist == s.hist[p := Events(s, p) + [Xmit(q, Base(now, s.clock), s.clock)]]
      && r.clock == s.clock && r.running == s.running
  {
  }

  lemma EntryStep(c: Config, s: State, step: Step)
    requires c.maxsend > 0 && Wf(c, s) && EntryInv(c, s) && Enabled(c, s, step)
    ensures EntryInv(c, Apply(c, s, step))
  {
    match step
    case Tick(_) =>
    case Start(p) => EntryStart(c, s, p);
    case Remove(p) => EntryRemove(c, s, p);
    case KeepTrying(p) => EntryKeep(c, s, p);
    case Fire(_) =>
    case Iterate => EntryMove(c, s);
    case Finish =>
  }

  lemma EntryStart(c: Config, s: State, p: Id)
    requires c.maxsend > 0 && Wf(c, s) && EntryInv(c, s) && Enabled(c, s, Start(p))
    ensures EntryInv(c, Apply(c, s, Start(p)))
  {
    Idle(s.queue, s.place, p);
    InsertEntry(c, s.(hist := s.hist - {p}), p, 0, 0);
  }

  lemma EntryKeep(c: Config, s: State, p: Id)
    requires c.maxsend > 0 && Wf(c, s) && EntryInv(c, s) && Enabled(c, s, KeepTrying(p))
    ensures EntryInv(c, Apply(c, s, KeepTrying(p)))
  {
    Idle(s.queue, s.place, p);
    assert p in s.hist ==> Fits(c, s.hist[p], s.place[p], s.clock);
    InsertEntry(c, s, p, c.maxsend - 1, 0);
  }

  lemma EntryRemove(c: Config, s: State, p: Id)
    requires c.maxsend > 0 && Wf(c, s) && EntryInv(c, s) && Enabled(c, s, Remove(p))
    ensures EntryInv(c, Apply(c, s, Remove(p)))
  {
    if p in s.place && s.place[p].Waiting? {
      Unlinked(s.queue, s.place, p);
      var e := s.place[p];
      Settled(s.queue[e.q := Without(s.queue[e.q], Item(p, e.tm))], s.place, p, Removed(e.q, e.tm));
      assert Fits(c, s.hist[p], Removed(e.q, e.tm), s.clock);
    }
  }

  /** An entry whose deadline has come at level `q` may go on to the next level, or time out. */
  lemma DueGoesOn(c: Config, h: seq<Event>, q: nat, tm: int, now: int, clock: int)
    requires Fits(c, h, Waiting(q, tm), clock) && tm <= now <= clock
    ensures if q + 1 < c.maxsend then GoesOn(c, h, Xmit(q + 1, Base(now, clock), clock))
            else GoesOn(c, h, Timeout(now, clock))
  {
  }

  lemma EntryMove(c: Config, s: State)
    requires c.maxsend > 0 && Wf(c, s) && EntryInv(c, s) && s.running.Some? && More(s)
    ensures EntryInv(c, Move(c, s))
  {
    var Pass(q, now) := s.running.value;
    var p := s.queue[q][0].id;
    var taken := s.(queue := s.queue[q := s.queue[q][1..]]);
    EntryTaken(c, s, q, now, p, taken);
    MoveIs(c, s);
    EntryGoesOn(c, taken, p, q, now, Move(c, s));
  }

  lemma EntryGoesOn(c: Config, s: State, p: Id, q: nat, now: int, t: State)
    requires |s.queue| == |s.pending| == c.maxsend && q < c.maxsend
    requires MembersBut(s.queue, s.place, Some(p)) && HistBut(c, s.place, s.hist, s.clock, p)
    requires if q + 1 < c.maxsend then GoesOn(c, Events(s, p), Xmit(q + 1, Base(now, s.clock), s.clock))
             else GoesOn(c, Events(s, p), Timeout(now, s.clock))
    requires s.running.Some? ==> s.running.value.now <= s.clock
    requires t == if q < c.maxsend - 1 then Insert(c, s, p, q + 1, now)
                  else s.(place := s.place[p := Expired], hist := s.hist[p := Events(s, p) + [Timeout(now, s.clock)]])
    ensures EntryInv(c, t)
  {
    if q < c.maxsend - 1 {
      InsertEntry(c, s, p, q + 1, now);
    } else {
      EntryExpire(c, s, p, now);
    }
  }

  /** The first entry of a level, once it is due, may be taken out and go on. */
  lemma EntryTaken(c: Config, s: State, q: nat, now: int, p: Id, taken: State)
    requires Wf(c, s) && EntryInv(c, s) && q < c.maxsend && s.queue[q] != []
    requires s.queue[q][0].id == p && s.queue[q][0].tm <= now <= s.clock
    requires taken == s.(queue := s.queue[q := s.queue[q][1..]])
    ensures MembersBut(taken.queue, taken.place, Some(p)) && HistBut(c, taken.place, taken.hist, taken.clock, p)
    ensures if q + 1 < c.maxsend then GoesOn(c, Events(taken, p), Xmit(q + 1, Base(now, s.clock), s.clock))
            else GoesOn(c, Events(taken, p), Timeout(now, s.clock))
  {
    var x := s.queue[q][0];
    assert x in s.queue[q] && s.place[p] == Waiting(q, x.tm);
    assert Fits(c, s.hist[p], s.place[p], s.clock);
    DueGoesOn(c, s.hist[p], q, x.tm, now, s.clock);
    Taken(s.queue, s.place, q);
  }

  lemma MoveIs(c: Config, s: State)
    requires Wf(c, s) && s.running.Some? && More(s)
    ensures var Pass(q, now) := s.running.value;
      var p := s.queue[q][0].id;
      var taken := s.(queue := s.queue[q := s.queue[q][1..]]);
      Move(c, s) == if q < c.maxsend - 1 then Insert(c, taken, p, q + 1, now)
                    else taken.(place := taken.place[p := Expired],
                                hist := taken.hist[p := Events(taken, p) + [Timeout(now, taken.clock)]])
  {
  }

  lemma EntryExpire(c: Config, s: State, p: Id, now: int)
    requires MembersBut(s.queue, s.place, Some(p)) && HistBut(c, s.place, s.hist, s.clock, p)
    requires GoesOn(c, Events(s, p), Timeout(now, s.clock))
    requires s.running.Some? ==> s.running.value.now <= s.clock
    ensures EntryInv(c, s.(place := s.place[p := Expired],
                           hist := s.hist[p := Events(s, p) + [Timeout(now, s.clock)]]))
  {
    var e := Timeout(now, s.clock);
    Extended(c, Events(s, p), e, Expired, s.clock);
    HistExtended(c, s.place, s.hist, s.clock, p, Events(s, p) + [e], Expired);
    Settled(s.queue, s.place, p, Expired);
  }

  // The levels: sorted by deadline, and watched by a timer that is not late.

  ghost predicate Sorted(items: seq<Item>) {
    forall i, j :: 0 <= i < j < |items| ==> items[i].tm <= items[j].tm
  }

  /** No deadline of the level is before `t`. */
  ghost predicate From(items: seq<Item>, t: int) {
    forall x :: x in items ==> t <= x.tm
  }

  ghost predicate UpTo(items: seq<Item>, t: int) {
    forall x :: x in items ==> x.tm <= t
  }

  /** `limit` is the earliest deadline that an entry inserted from now on can get. */
  ghost predicate LevelInv(items: seq<Item>, pending: Option<int>, limit: int, here: bool) {
    && Sorted(items) && UpTo(items, limit)
    && (pending.Some? ==> pending.value <= limit && From(items, pending.value))
    && (items != [] ==> pending.Some? || here)
  }

  /** The pass under way, while it has an entry to move. */
  ghost function Busy(queue: seq<seq<Item>>, running: Option<Pass>): (b: Option<Pass>) {
    if running.Some? && running.value.q < |queue| && queue[running.value.q] != []
       && queue[running.value.q][0].tm <= running.value.now
    then running else None
  }

  /** The deadline of an entry that is inserted now: a busy pass reckons with its own time. */
  ghost function Limit(c: Config, q: nat, clock: int, busy: Option<Pass>): int {
    Delay(c, q) + if busy.Some? && busy.value.q + 1 == q then Base(busy.value.now, clock) else clock
  }

  ghost predicate Here(running: Option<Pass>, q: nat) { running.Some? && running.value.q == q }

  ghost predicate Levels(c: Config, queue: seq<seq<Item>>, pending: seq<Option<int>>, clock: int,
                         running: Option<Pass>, busy: Option<Pass>)
    requires |queue| == |pending| == c.maxsend
  {
    forall q :: 0 <= q < c.maxsend ==> LevelInv(queue[q], pending[q], Limit(c, q, clock, busy), Here(running, q))
  }

  ghost predicate LevelsInv(c: Config, s: State, busy: Option<Pass>)
    requires |s.queue| == |s.pending| == c.maxsend
  {
    && (s.running.Some? ==> s.running.value.now <= s.clock)
    && Levels(c, s.queue, s.pending, s.clock, s.running, busy)
  }

  ghost predicate TimerInv(c: Config, s: State)
    requires |s.queue| == |s.pending| == c.maxsend
  {
    LevelsInv(c, s, Busy(s.queue, s.running))
  }

  /** With `after` for `busy`, no deadline is reckoned earlier. */
  ghost predicate NoSooner(clock: int, busy: Option<Pass>, after: Option<Pass>) {
    after == busy || if after.Some? then busy.None? && Base(after.value.now, clock) >= clock
                     else Base(busy.value.now, clock) <= clock
  }

  /** Deadlines to come may be later than was reckoned. */
  lemma Relaxed(c: Config, s: State, busy: Option<Pass>)
    requires |s.queue| == |s.pending| == c.maxsend && LevelsInv(c, s, busy)
    requires NoSooner(s.clock, busy, Busy(s.queue, s.running))
    ensures TimerInv(c, s)
  {
    var b := Busy(s.queue, s.running);
    assert forall q :: 0 <= q < c.maxsend ==> Limit(c, q, s.clock, busy) <= Limit(c, q, s.clock, b);
  }

  /**
   * `keeptrying` comes at the time that the queue reckons with: not, after a callback has taken
   * time, from within a pass over the level before the last that still has an entry to move.
   */
  ghost predicate Punctual(c: Config, s: State, step: Step) {
    step.KeepTrying? && s.running.Some? && s.running.value.q + 2 == c.maxsend && Busy(s.queue, s.running).Some? ==>
      s.running.value.now == 0 || s.running.value.now == s.clock
  }

  lemma Appended(items: seq<Item>, pending: Option<int>, limit: int, here: bool, p: Id)
    requires LevelInv(items, pending, limit, here)
    ensures var items' := items + [Item(p, limit)];
      LevelInv(items', if pending.None? then Some(items'[0].tm) else pending, limit, here)
  {
    assert forall i :: 0 <= i < |items| ==> items[i] in items;
  }

  lemma Scheduled(items: seq<Item>, pending: Option<int>, limit: int, here: bool)
    requires LevelInv(items, pending, limit, here)
    ensures LevelInv(items, if pending.None? && items != [] then Some(items[0].tm) else pending, limit, false)
  {
    assert items != [] ==> items[0] in items;
  }

  lemma Shortened(items: seq<Item>, pending: Option<int>, limit: int, here: bool, x: Item)
    requires LevelInv(items, pending, limit, here)
    ensures LevelInv(Without(items, x), pending, limit, here)
  {
    var r := Without(items, x);
    forall i, j | 0 <= i < j < |r| ensures r[i].tm <= r[j].tm {
      var k, l := WithoutOrder(items, x, i, j);
    }
  }

  lemma Beheaded(items: seq<Item>, pending: Option<int>, limit: int)
    requires LevelInv(items, pending, limit, true) && items != []
    ensures LevelInv(items[1..], pending, limit, true)
  {
  }

  /** One level is exchanged for another. */
  lemma LevelPut(c: Config, s: State, busy: Option<Pass>, q: nat, items: seq<Item>, pending: Option<int>, r: State)
    requires |s.queue| == |s.pending| == c.maxsend && q < c.maxsend && LevelsInv(c, s, busy)
    requires LevelInv(items, pending, Limit(c, q, s.clock, busy), Here(s.running, q))
    requires r.queue == s.queue[q := items] && r.pending == s.pending[q := pending]
    requires r.clock == s.clock && r.running == s.running
    ensures LevelsInv(c, r, busy)
  {
  }

  lemma InsertPending(c: Config, s: State, p: Id, q: nat, now: int)
    requires |s.queue| == |s.pending| == c.maxsend && q < c.maxsend
    ensures var items := s.queue[q] + [Item(p, Base(now, s.clock) + Delay(c, q))];
      Insert(c, s, p, q, now).pending ==
        s.pending[q := if s.pending[q].None? then Some(items[0].tm) else s.pending[q]]
  {
  }

  lemma InsertLevel(c: Config, s: State, busy: Option<Pass>, p: Id, q: nat, now: int)
    requires |s.queue| == |s.pending| == c.maxsend && LevelsInv(c, s, busy) && q < c.maxsend
    requires Base(now, s.clock) + Delay(c, q) == Limit(c, q, s.clock, busy)
    ensures LevelsInv(c, Insert(c, s, p, q, now), busy)
  {
    var limit := Limit(c, q, s.clock, busy);
    var items := s.queue[q] + [Item(p, limit)];
    Appended(s.queue[q], s.pending[q], limit, Here(s.running, q), p);
    InsertFields(c, s, p, q, now);
    InsertPending(c, s, p, q, now);
    LevelPut(c, s, busy, q, items, if s.pending[q].None? then Some(items[0].tm) else s.pending[q],
             Insert(c, s, p, q, now));
  }

  /** An entry inserted at the current time gives the pass under way nothing to move before that time. */
  lemma StillBusy(queue: seq<seq<Item>>, running: Option<Pass>, clock: int, q: nat, x: Item)
    requires q < |queue| && x.tm >= clock && (running.Some? ==> running.value.now <= clock)
    ensures NoSooner(clock, Busy(queue, running), Busy(queue[q := queue[q] + [x]], running))
  {
  }

  lemma InsertedNow(c: Config, s: State, q: nat, x: Item, r: State)
    requires |s.queue| == |r.queue| == |r.pending| == c.maxsend && q < c.maxsend
    requires LevelsInv(c, r, Busy(s.queue, s.running)) && x.tm >= s.clock
    requires r.queue == s.queue[q := s.queue[q] + [x]] && r.clock == s.clock && r.running == s.running
    ensures TimerInv(c, r)
  {
    StillBusy(s.queue, s.running, s.clock, q, x);
    Relaxed(c, r, Busy(s.queue, s.running));
  }

  /** An entry may be inserted at the current time where the queue reckons with that time. */
  lemma TimerInsert(c: Config, s: State, p: Id, q: nat)
    requires |s.queue| == |s.pending| == c.maxsend && q < c.maxsend && TimerInv(c, s)
    requires Limit(c, q, s.clock, Busy(s.queue, s.running)) == s.clock + Delay(c, q)
    ensures TimerInv(c, Insert(c, s, p, q, 0))
  {
    InsertLevel(c, s, Busy(s.queue, s.running), p, q, 0);
    InsertFields(c, s, p, q, 0);
    InsertedNow(c, s, q, Item(p, s.clock + Delay(c, q)), Insert(c, s, p, q, 0));
  }

  lemma TimerStart(c: Config, s: State, p: Id)
    requires |s.queue| == |s.pending| == c.maxsend > 0 && TimerInv(c, s)
    ensures TimerInv(c, Insert(c, s, p, 0, 0))
  {
    TimerInsert(c, s, p, 0);
  }

  lemma TimerKeep(c: Config, s: State, p: Id)
    requires |s.queue| == |s.pending| == c.maxsend > 0 && TimerInv(c, s) && Punctual(c, s, KeepTrying(p))
    ensures TimerInv(c, Insert(c, s, p, c.maxsend - 1, 0))
  {
    TimerInsert(c, s, p, c.maxsend - 1);
  }

  lemma TimerRemove(c: Config, s: State, p: Id)
    requires Wf(c, s) && TimerInv(c, s) && p in s.place && s.place[p].Waiting?
    ensures TimerInv(c, Unlink(s, p))
  {
    var busy, e, r := Busy(s.queue, s.running), s.place[p], Unlink(s, p);
    var items := s.queue[e.q];
    Shortened(items, s.pending[e.q], Limit(c, e.q, s.clock, busy), Here(s.running, e.q), Item(p, e.tm));
    assert LevelsInv(c, r, busy);
    HeadLater(items, Item(p, e.tm));
    Relaxed(c, r, busy);
  }

  /** What is left of a sorted level begins no earlier. */
  lemma HeadLater(items: seq<Item>, x: Item)
    requires Sorted(items)
    ensures var r := Without(items, x); r != [] ==> items != [] && items[0].tm <= r[0].tm
  {
    var r := Without(items, x);
    if r != [] {
      assert r[0] in r && r[0] in items;
    }
  }

  lemma TimerStep(c: Config, s: State, step: Step)
    requires c.maxsend > 0 && Wf(c, s) && TimerInv(c, s) && Enabled(c, s, step) && Punctual(c, s, step)
    ensures TimerInv(c, Apply(c, s, step))
  {
    match step
    case Tick(_) =>
    case Start(p) => TimerStart(c, s.(hist := s.hist - {p}), p);
    case Remove(p) =>
      if p in s.place && s.place[p].Waiting? {
        TimerRemove(c, s, p);
      }
    case KeepTrying(p) => TimerKeep(c, s, p);
    case Fire(q) => TimerFire(c, s, q);
    case Iterate => TimerMove(c, s);
    case Finish => TimerFinish(c, s, s.running.value.q);
  }

  lemma TimerFire(c: Config, s: State, q: nat)
    requires |s.queue| == |s.pending| == c.maxsend && TimerInv(c, s) && s.running.None? && q < c.maxsend
    ensures TimerInv(c, s.(pending := s.pending[q := None], running := Some(Pass(q, s.clock))))
  {
    Relaxed(c, s.(pending := s.pending[q := None], running := Some(Pass(q, s.clock))), None);
  }

  lemma TimerFinish(c: Config, s: State, q: nat)
    requires |s.queue| == |s.pending| == c.maxsend && TimerInv(c, s) && Here(s.running, q) && q < c.maxsend && !More(s)
    ensures TimerInv(c, Schedq(s, q).(running := None))
  {
    Scheduled(s.queue[q], s.pending[q], Limit(c, q, s.clock, None), true);
  }

  lemma TimerTake(c: Config, s: State, q: nat, busy: Option<Pass>)
    requires |s.queue| == |s.pending| == c.maxsend && LevelsInv(c, s, busy)
    requires q < c.maxsend && Here(s.running, q) && s.queue[q] != []
    ensures LevelsInv(c, s.(queue := s.queue[q := s.queue[q][1..]]), busy)
  {
    Beheaded(s.queue[q], s.pending[q], Limit(c, q, s.clock, busy));
  }

  lemma TimerMove(c: Config, s: State)
    requires c.maxsend > 0 && Wf(c, s) && TimerInv(c, s) && s.running.Some? && More(s)
    ensures TimerInv(c, Move(c, s))
  {
    var Pass(q, now) := s.running.value;
    TimerTake(c, s, q, s.running);
    var taken := s.(queue := s.queue[q := s.queue[q][1..]]);
    MoveIs(c, s);
    if q < c.maxsend - 1 {
      TimerPass(c, taken, s.queue[q][0].id, q, now);
    } else {
      MovedLevels(c, taken, Move(c, s));
    }
  }

  lemma TimerPass(c: Config, s: State, p: Id, q: nat, now: int)
    requires |s.queue| == |s.pending| == c.maxsend && LevelsInv(c, s, s.running)
    requires q < c.maxsend - 1 && s.running == Some(Pass(q, now))
    ensures TimerInv(c, Insert(c, s, p, q + 1, now))
  {
    InsertLevel(c, s, s.running, p, q + 1, now);
    InsertFields(c, s, p, q + 1, now);
    Relaxed(c, Insert(c, s, p, q + 1, now), s.running);
  }

  lemma MovedLevels(c: Config, s: State, r: State)
    requires |s.queue| == |s.pending| == c.maxsend && LevelsInv(c, s, s.running)
    requires r.queue == s.queue && r.pending == s.pending && r.running == s.running && r.clock == s.clock
    ensures TimerInv(c, r)
  {
    Relaxed(c, r, s.running);
  }

  // Whole runs.

  lemma InitInv(c: Config, clock: int)
    ensures EntryInv(c, Init(c, clock)) && TimerInv(c, Init(c, clock))
  {
  }

  ghost predicate Punctually(c: Config, s: State, steps: seq<Step>, t: State)
    requires RunFrom(c, s, steps, t)
    decreases |steps|
  {
    steps != [] ==> Punctual(c, s, steps[0]) && Punctually(c, Apply(c, s, steps[0]), steps[1..], t)
  }

  lemma {:induction false} RunKeepsEntries(c: Config, s: State, steps: seq<Step>, t: State)
    requires RunFrom(c, s, steps, t) && EntryInv(c, s)
    ensures Wf(c, t) && EntryInv(c, t)
    decreases |steps|
  {
    if steps != [] {
      EntryStep(c, s, steps[0]);
      RunKeepsEntries(c, Apply(c, s, steps[0]), steps[1..], t);
    }
  }

  lemma {:induction false} RunKeepsTimers(c: Config, s: State, steps: seq<Step>, t: State)
    requires RunFrom(c, s, steps, t) && TimerInv(c, s) && Punctually(c, s, steps, t)
    ensures Wf(c, t) && TimerInv(c, t)
    decreases |steps|
  {
    if steps != [] {
      TimerStep(c, s, steps[0]);
      RunKeepsTimers(c, Apply(c, s, steps[0]), steps[1..], t);
    }
  }

  /** A level is in order of deadline, and if it is not empty a timer goes off by its first deadline. */
  ghost predicate Watched(items: seq<Item>, pending: Option<int>) {
    Sorted(items) && (items != [] ==> pending.Some? && pending.value <= items[0].tm)
  }

  /** In every punctual run, between passes, every level is sorted and watched. */
  lemma NoEntryForgotten(c: Config, clock: int, steps: seq<Step>, t: State)
    requires RunFrom(c, Init(c, clock), steps, t) && Punctually(c, Init(c, clock), steps, t)
    ensures Wf(c, t)
    ensures forall q :: 0 <= q < c.maxsend && !Here(t.running, q) ==> Watched(t.queue[q], t.pending[q])
    ensures forall q :: 0 <= q < c.maxsend ==> Sorted(t.queue[q])
  {
    InitInv(c, clock);
    RunKeepsTimers(c, Init(c, clock), steps, t);
    assert forall q :: 0 <= q < c.maxsend && t.queue[q] != [] ==> t.queue[q][0] in t.queue[q];
  }

  // The schedule of an entry.

  /**
   * From a start on, the i-th event is transmission number i, until the timeout, and no event comes
   * before the delays that precede it have passed.
   */
  lemma {:induction false} Schedule(c: Config, h: seq<Event>, i: nat)
    requires c.maxsend > 0 && Legal(c, h) && h[0].retry == 0 && i < |h| && i <= c.maxsend
    ensures if i < c.maxsend then h[i].Xmit? && h[i].retry == i else h[i].Timeout?
    ensures h[i].base >= h[0].base + c.minto * (Pow2(i) - 1)
  {
    if i > 0 {
      Schedule(c, h, i - 1);
      assert Follows(c, h[i - 1], h[i]);
      assert c.minto * (Pow2(i - 1) - 1) + c.minto * Pow2(i - 1) == c.minto * (Pow2(i) - 1);
    }
  }

  predicate Names(step: Step, p: Id) {
    (step.Start? || step.Remove? || step.KeepTrying?) && step.p == p
  }

  /** `p` was started with the event `first`, and has been left alone since. */
  ghost predicate InLife(c: Config, s: State, p: Id, first: Event) {
    && p in s.hist && s.hist[p] != [] && s.hist[p][0] == first && |s.hist[p]| <= c.maxsend + 1
    && p in s.place && !s.place[p].Removed?
  }

  lemma LifeMove(c: Config, s: State, p: Id, first: Event)
    requires Wf(c, s) && EntryInv(c, s) && s.running.Some? && More(s)
    requires InLife(c, s, p, first) && first.Xmit? && first.retry == 0
    ensures InLife(c, Move(c, s), p, first)
  {
    var x := s.queue[s.running.value.q][0];
    assert x in s.queue[s.running.value.q];
    if x.id == p {
      Schedule(c, s.hist[p], |s.hist[p]| - 1);
    }
  }

  lemma LifeStep(c: Config, s: State, step: Step, p: Id, first: Event)
    requires c.maxsend > 0 && Wf(c, s) && EntryInv(c, s) && Enabled(c, s, step) && !Names(step, p)
    requires InLife(c, s, p, first) && first.Xmit? && first.retry == 0
    ensures InLife(c, Apply(c, s, step), p, first)
  {
    if step.Iterate? {
      LifeMove(c, s, p, first);
    }
  }

  lemma {:induction false} RunKeepsLife(c: Config, s: State, steps: seq<Step>, t: State, p: Id, first: Event)
    requires RunFrom(c, s, steps, t) && EntryInv(c, s)
    requires InLife(c, s, p, first) && first.Xmit? && first.retry == 0
    requires forall i :: 0 <= i < |steps| ==> !Names(steps[i], p)
    ensures EntryInv(c, t) && InLife(c, t, p, first)
    decreases |steps|
  {
    if steps != [] {
      EntryStep(c, s, steps[0]);
      LifeStep(c, s, steps[0], p, first);
      RunKeepsLife(c, Apply(c, s, steps[0]), steps[1..], t, p, first);
    }
  }

  /** Transmissions number 0, 1, ... from time `start` on, after the last a timeout, not too soon. */
  ghost predicate OnSchedule(c: Config, h: seq<Event>, start: int) {
    && 0 < |h| <= c.maxsend + 1 && h[0].at == start
    && forall i :: 0 <= i < |h| ==>
      && (if i < c.maxsend then h[i].Xmit? && h[i].retry == i else h[i].Timeout?)
      && h[i].at >= start + c.minto * (Pow2(i) - 1)
  }

  /** The entry is queued at the level of its last transmission, or expired after the timeout. */
  ghost predicate InStep(c: Config, s: State, p: Id)
    requires p in s.hist
  {
    && p in s.place
    && var e := s.place[p];
      if |s.hist[p]| <= c.maxsend
      then e.Waiting? && e.q == |s.hist[p]| - 1 && e.q < |s.queue| && Item(p, e.tm) in s.queue[e.q]
      else e.Expired?
  }

  lemma LifeSoFar(c: Config, t: State, p: Id, start: int)
    requires c.maxsend > 0 && EntryInv(c, t) && InLife(c, t, p, Xmit(0, start, start))
    ensures OnSchedule(c, t.hist[p], start) && InStep(c, t, p)
  {
    var h := t.hist[p];
    assert Fits(c, h, t.place[p], t.clock);
    forall i | 0 <= i < |h|
      ensures if i < c.maxsend then h[i].Xmit? && h[i].retry == i else h[i].Timeout?
      ensures h[i].at >= start + c.minto * (Pow2(i) - 1)
    {
      Schedule(c, h, i);
      assert i > 0 ==> Follows(c, h[i - 1], h[i]);
    }
  }

  lemma Started(c: Config, s: State, p: Id)
    requires c.maxsend > 0 && Wf(c, s) && EntryInv(c, s) && Enabled(c, s, Start(p))
    ensures var r := Apply(c, s, Start(p)); EntryInv(c, r) && InLife(c, r, p, Xmit(0, s.clock, s.clock))
  {
    EntryStep(c, s, Start(p));
    InsertFields(c, s.(hist := s.hist - {p}), p, 0, 0);
  }

  /**
   * In every run, an entry that is started and then neither removed nor started or kept on anew is
   * transmitted as number 0, 1, ..., maxsend - 1, in this order and once each, and then times out
   * once, no sooner than minto * (2^maxsend - 1) after the start; until then it is queued.
   */
  lemma Life(c: Config, clock: int, before: seq<Step>, s: State, p: Id, after: seq<Step>, t: State)
    requires RunFrom(c, Init(c, clock), before, s) && Wf(c, s) && Enabled(c, s, Start(p))
    requires RunFrom(c, Apply(c, s, Start(p)), after, t)
    requires forall i :: 0 <= i < |after| ==> !Names(after[i], p)
    ensures p in t.hist && OnSchedule(c, t.hist[p], s.clock) && InStep(c, t, p)
  {
    InitInv(c, clock);
    RunKeepsEntries(c, Init(c, clock), before, s);
    Started(c, s, p);
    RunKeepsLife(c, Apply(c, s, Start(p)), after, t, p, Xmit(0, s.clock, s.clock));
    LifeSoFar(c, t, p, s.clock);
  }

  // Sorted levels, exactly.

  ghost predicate AlwaysSorted(c: Config) {
    forall clock, steps, t :: RunFrom(c, Init(c, clock), steps, t) ==> AllSorted(t.queue)
  }

  ghost predicate AllSorted(queue: seq<seq<Item>>) {
    forall q :: 0 <= q < |queue| ==> Sorted(queue[q])
  }

  lemma {:induction false} Joined(c: Config, s: State, one: seq<Step>, t: State, two: seq<Step>, u: State)
    requires RunFrom(c, s, one, t) && RunFrom(c, t, two, u)
    ensures RunFrom(c, s, one + two, u)
    decreases |one|
  {
    if one == [] {
      assert one + two == two;
    } else {
      Joined(c, Apply(c, s, one[0]), one[1..], t, two, u);
      assert (one + two)[1..] == one[1..] + two;
    }
  }

  lemma OneStep(c: Config, s: State, step: Step) returns (t: State)
    requires c.maxsend > 0 && Wf(c, s) && Enabled(c, s, step)
    ensures t == Apply(c, s, step) && Wf(c, t) && RunFrom(c, s, [step], t)
  {
    t := Apply(c, s, step);
    ApplyWf(c, s, step);
    assert RunFrom(c, t, [], t) && [step][1..] == [];
  }

  /** The levels hold entry 0 alone, at level `q`. */
  ghost predicate Single(queue: seq<seq<Item>>, q: nat) {
    && q < |queue| && |queue[q]| == 1 && queue[q][0].id == 0
    && forall r :: 0 <= r < |queue| && r != q ==> queue[r] == []
  }

  ghost predicate Alone(c: Config, s: State, q: nat) {
    && c.maxsend > 0 && Wf(c, s) && TimerInv(c, s) && s.running.None? && s.clock > 0
    && Single(s.queue, q) && s.place.Keys == {0}
  }

  lemma MoveSingle(c: Config, s: State, q: nat)
    requires Wf(c, s) && Single(s.queue, q) && q + 1 < c.maxsend && s.place.Keys == {0}
    requires Here(s.running, q) && More(s)
    ensures var r := Move(c, s);
      && Single(r.queue, q + 1) && r.place.Keys == {0} && r.clock == s.clock && r.running == s.running
      && Wf(c, r) && !More(r)
  {
    var taken := s.(queue := s.queue[q := s.queue[q][1..]]);
    MoveIs(c, s);
    InsertFields(c, taken, 0, q + 1, s.running.value.now);
  }

  /** A pass begins over the level where the entry is alone, when it is due. */
  lemma Begin(c: Config, s: State, q: nat) returns (steps: seq<Step>, t: State)
    requires Alone(c, s, q)
    ensures RunFrom(c, s, steps, t) && Wf(c, t) && TimerInv(c, t)
    ensures t.queue == s.queue && t.place == s.place && t.clock > 0
    ensures t.running == Some(Pass(q, t.clock)) && More(t)
  {
    var tm := s.queue[q][0].tm;
    var wait := if tm <= s.clock then 0 else tm - s.clock;
    var u := OneStep(c, s, Tick(wait));
    TimerStep(c, s, Tick(wait));
    assert u.queue[q][0] in u.queue[q];
    t := OneStep(c, u, Fire(q));
    TimerStep(c, u, Fire(q));
    steps := [Tick(wait)] + [Fire(q)];
    Joined(c, s, [Tick(wait)], u, [Fire(q)], t);
  }

  /** The entry moves on to the next level. */
  lemma Ascend(c: Config, s: State, q: nat) returns (steps: seq<Step>, t: State)
    requires Alone(c, s, q) && q + 1 < c.maxsend
    ensures RunFrom(c, s, steps, t) && Alone(c, t, q + 1)
  {
    var u;
    steps, u := Begin(c, s, q);
    var v := OneStep(c, u, Iterate);
    TimerStep(c, u, Iterate);
    MoveSingle(c, u, q);
    Joined(c, s, steps, u, [Iterate], v);
    t := OneStep(c, v, Finish);
    TimerStep(c, v, Finish);
    Joined(c, s, steps + [Iterate], v, [Finish], t);
    steps := steps + [Iterate] + [Finish];
  }

  lemma Grounded(c: Config) returns (t: State)
    requires c.maxsend > 0
    ensures RunFrom(c, Init(c, 1), [Start(0)], t) && Alone(c, t, 0)
  {
    var s := Init(c, 1);
    InitInv(c, 1);
    t := OneStep(c, s, Start(0));
    InsertFields(c, s.(hist := s.hist - {0}), 0, 0, 0);
    TimerStep(c, s, Start(0));
  }

  lemma {:induction false} Climb(c: Config, q: nat) returns (steps: seq<Step>, t: State)
    requires q < c.maxsend
    ensures RunFrom(c, Init(c, 1), steps, t) && Alone(c, t, q)
    decreases q
  {
    if q == 0 {
      t := Grounded(c);
      steps := [Start(0)];
    } else {
      var u, more;
      steps, u := Climb(c, q - 1);
      more, t := Ascend(c, u, q - 1);
      Joined(c, Init(c, 1), steps, u, more, t);
      steps := steps + more;
    }
  }

  /**
   * Whenever a pass over the level before the last still has an entry to move and its callback has
   * taken time, keeping another entry on leaves the last level out of order.
   */
  lemma LateBreaks(c: Config, s: State, p: Id)
    requires c.maxsend > 1 && Wf(c, s) && s.running.Some? && s.running.value.q == c.maxsend - 2 && More(s)
    requires 0 != s.running.value.now < s.clock && Enabled(c, s, KeepTrying(p))
    ensures var r := Apply(c, s, KeepTrying(p));
      Wf(c, r) && Enabled(c, r, Iterate) && !AllSorted(Apply(c, r, Iterate).queue)
  {
    var q := c.maxsend - 1;
    var n := |s.queue[q]|;
    ApplyWf(c, s, KeepTrying(p));
    var r := Apply(c, s, KeepTrying(p));
    InsertFields(c, s, p, q, 0);
    var taken := r.(queue := r.queue[q - 1 := r.queue[q - 1][1..]]);
    InsertFields(c, taken, s.queue[q - 1][0].id, q, s.running.value.now);
    var last := Apply(c, r, Iterate).queue[q];
    assert last[n].tm > last[n + 1].tm;
  }

  /** From `s` on, every punctual run keeps the levels sorted. */
  ghost predicate StaysSorted(c: Config, s: State) {
    forall steps, t :: RunFrom(c, s, steps, t) && Punctually(c, s, steps, t) ==> AllSorted(t.queue)
  }

  lemma SortedOn(c: Config, s: State)
    requires c.maxsend > 0 && Wf(c, s) && TimerInv(c, s)
    ensures StaysSorted(c, s)
  {
    forall steps, t | RunFrom(c, s, steps, t) && Punctually(c, s, steps, t) ensures AllSorted(t.queue) {
      RunKeepsTimers(c, s, steps, t);
    }
  }

  /** A step is punctual exactly if the levels can stay sorted after it. */
  lemma PunctualExact(c: Config, s: State, step: Step)
    requires c.maxsend > 0 && Wf(c, s) && TimerInv(c, s) && Enabled(c, s, step)
    ensures Punctual(c, s, step) <==> StaysSorted(c, Apply(c, s, step))
  {
    ApplyWf(c, s, step);
    if Punctual(c, s, step) {
      TimerStep(c, s, step);
      SortedOn(c, Apply(c, s, step));
    } else {
      LateBreaks(c, s, step.p);
      var r := Apply(c, s, step);
      var t := OneStep(c, r, Iterate);
      assert Punctually(c, r, [Iterate], t);
    }
  }

  /** After every step of the run the levels can stay sorted. */
  ghost predicate SafeThroughout(c: Config, s: State, steps: seq<Step>, t: State)
    requires RunFrom(c, s, steps, t)
    decreases |steps|
  {
    steps != [] ==>
      var r := Apply(c, s, steps[0]);
      StaysSorted(c, r) && SafeThroughout(c, r, steps[1..], t)
  }

  lemma {:induction false} RunExact(c: Config, s: State, steps: seq<Step>, t: State)
    requires RunFrom(c, s, steps, t) && TimerInv(c, s)
    ensures Punctually(c, s, steps, t) <==> SafeThroughout(c, s, steps, t)
    decreases |steps|
  {
    if steps != [] {
      PunctualExact(c, s, steps[0]);
      if Punctual(c, s, steps[0]) {
        TimerStep(c, s, steps[0]);
        RunExact(c, Apply(c, s, steps[0]), steps[1..], t);
      }
    }
  }

  /** The punctual runs are exactly those after whose every step the levels can stay sorted. */
  lemma PunctualRuns(c: Config, clock: int, steps: seq<Step>, t: State)
    requires RunFrom(c, Init(c, clock), steps, t)
    ensures Punctually(c, Init(c, clock), steps, t) <==> SafeThroughout(c, Init(c, clock), steps, t)
  {
    InitInv(c, clock);
    RunExact(c, Init(c, clock), steps, t);
  }

  lemma LateKeepTrying(c: Config) returns (steps: seq<Step>, t: State)
    requires c.maxsend > 1
    ensures RunFrom(c, Init(c, 1), steps, t) && !AllSorted(t.queue)
  {
    var s, more, u;
    steps, s := Climb(c, c.maxsend - 2);
    more, u := Begin(c, s, c.maxsend - 2);
    Joined(c, Init(c, 1), steps, s, more, u);
    var last;
    last, t := Late(c, u);
    Joined(c, Init(c, 1), steps + more, u, last, t);
    steps := steps + more + last;
  }

  lemma Late(c: Config, s: State) returns (steps: seq<Step>, t: State)
    requires c.maxsend > 1 && Wf(c, s) && s.place.Keys == {0} && s.clock > 0
    requires s.running == Some(Pass(c.maxsend - 2, s.clock)) && More(s)
    ensures RunFrom(c, s, steps, t) && !AllSorted(t.queue)
  {
    var u := OneStep(c, s, Tick(1));
    LateBreaks(c, u, 1);
    var v := OneStep(c, u, KeepTrying(1));
    t := OneStep(c, v, Iterate);
    Joined(c, s, [Tick(1)], u, [KeepTrying(1)], v);
    Joined(c, s, [Tick(1)] + [KeepTrying(1)], v, [Iterate], t);
    steps := [Tick(1)] + [KeepTrying(1)] + [Iterate];
  }

  lemma {:induction false} OneLevelPunctual(c: Config, s: State, steps: seq<Step>, t: State)
    requires RunFrom(c, s, steps, t) && c.maxsend == 1
    ensures Punctually(c, s, steps, t)
    decreases |steps|
  {
    if steps != [] {
      OneLevelPunctual(c, Apply(c, s, steps[0]), steps[1..], t);
    }
  }

  /** Every run, punctual or not, keeps the levels sorted exactly when there is only one level. */
  lemma SortedExactly(c: Config)
    requires c.maxsend > 0
    ensures AlwaysSorted(c) <==> c.maxsend == 1
  {
    if c.maxsend > 1 {
      var steps, t := LateKeepTrying(c);
    } else {
      forall clock, steps, t | RunFrom(c, Init(c, clock), steps, t) ensures AllSorted(t.queue) {
        OneLevelPunctual(c, Init(c, clock), steps, t);
        NoEntryForgotten(c, clock, steps, t);
      }
    }
  }
}
