/**
 * The exponential-backoff queue (async/backoff.h): an entry waits at level 0, 1, ... for `minto`,
 * 2 * `minto`, ... seconds, is transmitted on entering each level, and times out after the last.
 *
 * The links of the queues are sequences here. A pass over a level runs one entry at a time, since
 * the callbacks `xmit` and `timeout` may start, remove and keep trying entries, and take time.
 */
module Backoff {
  import opened RpcTypes
  import opened Powers

  type Id = nat

  /** The template parameters. */
  datatype Config = Config(minto: nat, maxsend: nat)

  /** `minto << qn` */
  function Delay(c: Config, q: nat): (r: nat) { c.minto * Pow2(q) }

  datatype Item = Item(id: Id, tm: int)

  /** An entry that was ever inserted; `qno` is `q`, or `maxsend` once it has timed out. */
  datatype Place = Waiting(q: nat, tm: int) | Removed(q: nat, tm: int) | Expired

  /** What an entry saw: `base` is the time that the queue reckoned with, `at` the actual one. */
  datatype Event = Xmit(retry: nat, base: int, at: int) | Timeout(base: int, at: int)

  /** The loop of `runq` under way at level `q`, entered at time `now`. */
  datatype Pass = Pass(q: nat, now: int)

  datatype State = State(
    queue: seq<seq<Item>>,
    pending: seq<Option<int>>,
    place: map<Id, Place>,
    hist: map<Id, seq<Event>>,
    clock: int,
    running: Option<Pass>)

  ghost predicate Wf(c: Config, s: State) {
    && |s.queue| == |s.pending| == c.maxsend
    && (s.running.Some? ==> s.running.value.q < c.maxsend)
    && forall p :: p in s.place && s.place[p].Waiting? ==> s.place[p].q < c.maxsend
  }

  function Init(c: Config, clock: int): (s: State) {
    State(seq(c.maxsend, _ => []), seq(c.maxsend, _ => None), map[], map[], clock, None)
  }

  /** async/backoff.h:67-73; the pending timer is known by its time. */
  function Schedq(s: State, q: nat): (r: State)
    requires q < |s.queue| && q < |s.pending|
  {
    if s.pending[q].None? && s.queue[q] != [] then s.(pending := s.pending[q := Some(s.queue[q][0].tm)]) else s
  }

  /** The time that `insert` counts from: a zero `now` stands for the current time. */
  function Base(now: int, clock: int): (r: int) { if now != 0 then now else clock }

  function Events(s: State, p: Id): (h: seq<Event>) { if p in s.hist then s.hist[p] else [] }

  /** async/backoff.h:90-99 */
  function Insert(c: Config, s: State, p: Id, q: nat, now: int): (r: State)
    requires |s.queue| == |s.pending| == c.maxsend && q < c.maxsend
  {
    var base := Base(now, s.clock);
    var tm := base + Delay(c, q);
    var queued := s.(queue := s.queue[q := s.queue[q] + [Item(p, tm)]], place := s.place[p := Waiting(q, tm)]);
    Schedq(queued, q).(hist := s.hist[p := Events(s, p) + [Xmit(q, base, s.clock)]])
  }

  /** async/backoff.h:114-122, of an entry in a queue. */
  function Unlink(s: State, p: Id): (r: State)
    requires p in s.place && s.place[p].Waiting? && s.place[p].q < |s.queue|
  {
    var e := s.place[p];
    s.(queue := s.queue[e.q := Without(s.queue[e.q], Item(p, e.tm))], place := s.place[p := Removed(e.q, e.tm)])
  }

  datatype Step =
    | Tick(secs: nat)
    | Start(p: Id)
    | Remove(p: Id)
    | KeepTrying(p: Id)
    | Fire(q: nat)
    | Iterate
    | Finish

  /** The pass under way has an entry to move. */
  predicate More(s: State)
    requires s.running.Some? && s.running.value.q < |s.queue|
  {
    var Pass(q, now) := s.running.value;
    s.queue[q] != [] && s.queue[q][0].tm <= now
  }

  /**
   * What the callers and the event loop keep to: no entry is started while it is queued or removed
   * twice, `keeptrying` meets its assertion, a timer goes off when it is due, passes do not nest.
   */
  predicate Enabled(c: Config, s: State, step: Step)
    requires Wf(c, s)
  {
    match step
    case Tick(_) => true
    case Start(p) => p in s.place ==> !s.place[p].Waiting?
    case Remove(p) => p in s.place ==> !s.place[p].Removed?
    case KeepTrying(p) => p in s.place ==> s.place[p].Expired?
    case Fire(q) => s.running.None? && q < c.maxsend && s.pending[q].Some? && s.pending[q].value <= s.clock
    case Iterate => s.running.Some? && More(s)
    case Finish => s.running.Some? && !More(s)
  }

  function Apply(c: Config, s: State, step: Step): (r: State)
    requires c.maxsend > 0 && Wf(c, s) && Enabled(c, s, step)
  {
    match step
    case Tick(secs) => s.(clock := s.clock + secs)
    case Start(p) => Insert(c, s.(hist := s.hist - {p}), p, 0, 0)
    case Remove(p) => if p in s.place && s.place[p].Waiting? then Unlink(s, p) else s
    case KeepTrying(p) => Insert(c, s, p, c.maxsend - 1, 0)
    case Fire(q) => s.(pending := s.pending[q := None], running := Some(Pass(q, s.clock)))
    case Iterate => Move(c, s)
    case Finish => Schedq(s, s.running.value.q).(running := None)
  }

  /** The body of the loop of async/backoff.h:79-87. */
  function Move(c: Config, s: State): (r: State)
    requires Wf(c, s) && s.running.Some? && More(s)
  {
    var Pass(q, now) := s.running.value;
    var p := s.queue[q][0].id;
    var taken := s.(queue := s.queue[q := s.queue[q][1..]]);
    if q < c.maxsend - 1 then Insert(c, taken, p, q + 1, now)
    else taken.(place := s.place[p := Expired], hist := s.hist[p := Events(s, p) + [Timeout(now, s.clock)]])
  }

  lemma ApplyWf(c: Config, s: State, step: Step)
    requires c.maxsend > 0 && Wf(c, s) && Enabled(c, s, step)
    ensures Wf(c, Apply(c, s, step))
  {
  }

  ghost predicate RunFrom(c: Config, s: State, steps: seq<Step>, t: State)
    decreases |steps|
  {
    && c.maxsend > 0 && Wf(c, s)
    && if steps == [] then t == s
       else
         && Enabled(c, s, steps[0])
         && RunFrom(c, Apply(c, s, steps[0]), steps[1..], t)
  }
}
