/**
 * The replay cache of a server on a datagram transport: `asrv_replay` and `asrv_unreliable`
 * (arpc/asrv.C:92-98, 599-690). Pending calls and the latest `maxrsize` replies are remembered.
 */
module AsrvUnreliable {
  import opened RpcTypes

  /** What `svccb::operator==` compares. */
  datatype Request = Request(xid: Xid, prog: nat, vers: nat, proc: nat, addr: Bytes)

  /** The table, which has no reply for a call still being served, and the queue of the answered. */
  datatype Cache = Cache(rtab: map<Request, Option<Bytes>>, rq: seq<Request>)

  datatype Event =
    | Receive(r: Request)
    | Answer(r: Request, data: Bytes)
    | Dismiss(r: Request)  // a reply without result, or one that is not to be cached

  ghost predicate Wf(max: nat, s: Cache) {
    && Distinct(s.rq) && |s.rq| <= max
    && forall r :: r in s.rq <==> r in s.rtab && s.rtab[r].Some?
  }

  /** Only a pending call is answered or dismissed. */
  predicate Enabled(s: Cache, e: Event) {
    e.Receive? || (e.r in s.rtab && s.rtab[e.r].None?)
  }

  function Step(max: nat, s: Cache, e: Event): (t: Cache) {
    match e
    case Receive(r) => if r in s.rtab then s else s.(rtab := s.rtab[r := None])
    case Dismiss(r) => s.(rtab := s.rtab - {r})
    case Answer(r, data) => Evict(max, Cache(s.rtab[r := Some(data)], s.rq + [r]))
  }

  /** The loop of arpc/asrv.C:686-689. */
  function Evict(max: nat, s: Cache): (t: Cache)
    decreases |s.rq|
  {
    if |s.rq| <= max then s else Evict(max, Cache(s.rtab - {s.rq[0]}, s.rq[1..]))
  }

  /** At most one reply is one too many. */
  lemma EvictOne(max: nat, s: Cache)
    requires |s.rq| <= max + 1
    ensures Evict(max, s) == if |s.rq| <= max then s else Cache(s.rtab - {s.rq[0]}, s.rq[1..])
  {
  }

  lemma StepWf(max: nat, s: Cache, e: Event)
    requires Wf(max, s) && Enabled(s, e)
    ensures Wf(max, Step(max, s, e))
  {
    if e.Answer? {
      var u := Cache(s.rtab[e.r := Some(e.data)], s.rq + [e.r]);
      EvictOne(max, u);
      assert e.r !in s.rq && Distinct(u.rq);
      assert forall r :: r in u.rq <==> r in u.rtab && u.rtab[r].Some?;
      assert u.rq == [u.rq[0]] + u.rq[1..];
    }
  }

  /** A request dismissed, its reply being none or not to be cached, is as if it had never come: the
      table and the queue are what they were before. */
  lemma DismissedIsForgotten(max: nat, s: Cache, r: Request)
    requires Wf(max, s) && r !in s.rtab
    ensures Enabled(Step(max, s, Receive(r)), Dismiss(r))
    ensures Step(max, Step(max, s, Receive(r)), Dismiss(r)) == s
  {
    assert s.rtab[r := None] - {r} == s.rtab;
  }

  ghost predicate Runs(max: nat, s: Cache, evs: seq<Event>, t: Cache)
    decreases |evs|
  {
    if evs == [] then t == s
    else Enabled(s, evs[0]) && Runs(max, Step(max, s, evs[0]), evs[1..], t)
  }

  function Answers(evs: seq<Event>): (n: nat) {
    if evs == [] then 0 else (if evs[0].Answer? then 1 else 0) + Answers(evs[1..])
  }

  /** The reply to `r` is the `d`-th last in the queue. */
  ghost predicate Cached(s: Cache, r: Request, data: Bytes, d: nat) {
    0 < d <= |s.rq| && s.rq[|s.rq| - d] == r && r in s.rtab && s.rtab[r] == Some(data)
  }

  /** A reply moves one place towards its eviction with every other reply. */
  lemma CachedStep(max: nat, s: Cache, e: Event, r: Request, data: Bytes, d: nat)
    requires Wf(max, s) && Enabled(s, e) && Cached(s, r, data, d)
    requires e.Answer? ==> d < max
    ensures Cached(Step(max, s, e), r, data, if e.Answer? then d + 1 else d)
  {
    assert r in s.rq;
    if e.Answer? {
      EvictOne(max, Cache(s.rtab[e.r := Some(e.data)], s.rq + [e.r]));
    }
  }

  lemma {:induction false} CachedRun(max: nat, s: Cache, evs: seq<Event>, t: Cache, r: Request, data: Bytes, d: nat)
    requires Wf(max, s) && Runs(max, s, evs, t) && Cached(s, r, data, d)
    requires d + Answers(evs) <= max
    ensures Cached(t, r, data, d + Answers(evs))
    decreases |evs|
  {
    if evs != [] {
      CachedStep(max, s, evs[0], r, data, d);
      StepWf(max, s, evs[0]);
      CachedRun(max, Step(max, s, evs[0]), evs[1..], t, r, data, if evs[0].Answer? then d + 1 else d);
    }
  }

  /** What became of a call that was received and not dismissed. */
  datatype Fate = Pending | Answered(k: nat, data: Bytes)

  /** The first event that answers or dismisses `r`, if any, is an answer at `k`. */
  ghost predicate Fares(evs: seq<Event>, r: Request, f: Fate) {
    match f
    case Pending => forall i :: 0 <= i < |evs| && !evs[i].Receive? ==> evs[i].r != r
    case Answered(k, data) =>
      && k < |evs| && evs[k] == Answer(r, data)
      && forall i :: 0 <= i < k && !evs[i].Receive? ==> evs[i].r != r
  }

  ghost predicate IsPending(s: Cache, r: Request) { r in s.rtab && s.rtab[r].None? }

  lemma PendingStep(max: nat, s: Cache, e: Event, r: Request)
    requires Wf(max, s) && Enabled(s, e) && IsPending(s, r) && (e.Receive? || e.r != r)
    ensures IsPending(Step(max, s, e), r)
  {
    if e.Answer? {
      EvictOne(max, Cache(s.rtab[e.r := Some(e.data)], s.rq + [e.r]));
      assert r !in s.rq;
    }
  }

  lemma AnswerCached(max: nat, s: Cache, r: Request, data: Bytes)
    requires Wf(max, s) && IsPending(s, r) && max > 0
    ensures Cached(Step(max, s, Answer(r, data)), r, data, 1)
  {
    EvictOne(max, Cache(s.rtab[r := Some(data)], s.rq + [r]));
    assert r !in s.rq;
  }

  lemma FaresOn(evs: seq<Event>, r: Request, f: Fate)
    requires evs != [] && Fares(evs, r, f) && (f.Answered? ==> f.k > 0)
    ensures evs[0].Receive? || evs[0].r != r
    ensures Fares(evs[1..], r, if f.Pending? then f else Answered(f.k - 1, f.data))
    ensures f.Answered? ==> evs[1..][f.k..] == evs[f.k + 1..]
  {
  }

  /** A pending call stays so until it is answered; its reply stays until `max` later ones came. */
  lemma {:induction false} Remembered(max: nat, s: Cache, evs: seq<Event>, t: Cache, r: Request, f: Fate)
    requires Wf(max, s) && Runs(max, s, evs, t) && IsPending(s, r)
    requires Fares(evs, r, f) && (f.Answered? ==> Answers(evs[f.k + 1..]) < max)
    ensures r in t.rtab && t.rtab[r] == if f.Pending? then None else Some(f.data)
    decreases |evs|
  {
    if evs != [] {
      var s' := Step(max, s, evs[0]);
      StepWf(max, s, evs[0]);
      if f.Answered? && f.k == 0 {
        AnswerCached(max, s, r, f.data);
        CachedRun(max, s', evs[1..], t, r, f.data, 1);
      } else {
        FaresOn(evs, r, f);
        PendingStep(max, s, evs[0], r);
        Remembered(max, s', evs[1..], t, r, if f.Pending? then f else Answered(f.k - 1, f.data));
      }
    }
  }

  /** The first event that answers or dismisses `r`. */
  lemma {:induction false} FirstEvent(evs: seq<Event>, r: Request) returns (i: nat)
    ensures i <= |evs| && forall j :: 0 <= j < i && !evs[j].Receive? ==> evs[j].r != r
    ensures i < |evs| ==> !evs[i].Receive? && evs[i].r == r
  {
    if evs == [] || (!evs[0].Receive? && evs[0].r == r) {
      i := 0;
    } else {
      i := FirstEvent(evs[1..], r);
      assert forall j :: 0 < j < |evs| ==> evs[j] == evs[1..][j - 1];
      i := i + 1;
    }
  }

  /** The call was dismissed at `i`, or answered there and forgotten after `max` more replies. */
  ghost predicate Excuses(max: nat, evs: seq<Event>, r: Request, i: nat) {
    && i < |evs| && !evs[i].Receive? && evs[i].r == r
    && (evs[i].Answer? ==> Answers(evs[i + 1..]) >= max)
  }

  /**
   * In every run, a request that reaches the callback once does not reach it again, unless its
   * call was dismissed or at least `max` further replies were cached after its own.
   */
  lemma AtMostOnce(max: nat, s: Cache, r: Request, evs: seq<Event>, t: Cache) returns (i: nat)
    requires Wf(max, s) && r !in s.rtab && Runs(max, Step(max, s, Receive(r)), evs, t)
    requires r !in t.rtab
    ensures Excuses(max, evs, r, i)
  {
    i := FirstEvent(evs, r);
    StepWf(max, s, Receive(r));
    var u := Step(max, s, Receive(r));
    if i == |evs| {
      Remembered(max, u, evs, t, r, Pending);
    } else if evs[i].Answer? && Answers(evs[i + 1..]) < max {
      Remembered(max, u, evs, t, r, Answered(i, evs[i].data));
    }
  }

  /** The reply before the latest `max` is gone. */
  lemma Forgotten(max: nat, s: Cache, e: Event, r: Request, data: Bytes)
    requires Wf(max, s) && Enabled(s, e) && e.Answer? && Cached(s, r, data, max)
    ensures r !in Step(max, s, e).rtab
  {
    EvictOne(max, Cache(s.rtab[e.r := Some(e.data)], s.rq + [e.r]));
    assert r in s.rq;
  }

  class UnreliableServer {
    const maxrsize: nat
    var rsize: nat
    var rq: seq<Request>
    var rtab: map<Request, Option<Bytes>>
    var ateof: bool

    ghost function Abs(): (s: Cache)
      reads this
    {
      Cache(rtab, rq)
    }

    ghost predicate Valid()
      reads this
    {
      Wf(maxrsize, Abs()) && rsize == |rq|
    }

    constructor (max: nat)
      ensures Valid() && maxrsize == max && Abs() == Cache(map[], [])
    {
      maxrsize, rsize, rq, rtab, ateof := max, 0, [], map[], false;
    }

    /** arpc/asrv.C:599-606, 656-671: a request arrives; a cached reply is sent again. */
    method IsReplay(r: Request) returns (replay: bool, sent: seq<Bytes>)
      requires Valid()
      modifies this`rtab
      ensures Valid() && Abs() == Step(maxrsize, old(Abs()), Receive(r))
      ensures replay <==> r in old(rtab)
      ensures sent == if r in old(rtab) && old(rtab)[r].Some? then [old(rtab)[r].value] else []
    {
      replay, sent := r in rtab, [];
      if !replay {
        rtab := rtab[r := None];
      } else if rtab[r].Some? {
        sent := [rtab[r].value];
      }
    }

    /** arpc/asrv.C:624-653, 673-690; `x` is the reply, none for a call that is rejected or ignored. */
    method SendReply(r: Request, x: Option<Bytes>, nocache: bool) returns (sent: seq<Bytes>)
      requires Valid() && r in rtab && rtab[r].None?
      modifies this
      ensures Valid() && ateof == old(ateof)
      ensures Abs() == Step(maxrsize, old(Abs()), if x.None? || nocache then Dismiss(r) else Answer(r, x.value))
      ensures sent == if x.Some? && !ateof then [x.value] else []
    {
      sent := if x.Some? && !ateof then [x.value] else [];
      if x.None? || nocache {
        rtab := rtab - {r};
        return;
      }
      StepWf(maxrsize, Abs(), Answer(r, x.value));
      rtab := rtab[r := x];
      rsize := rsize + 1;
      rq := rq + [r];
      ghost var full := Abs();
      while rsize > maxrsize
        invariant rsize == |rq| && Evict(maxrsize, Abs()) == Evict(maxrsize, full) && ateof == old(ateof)
      {
        rtab := rtab - {rq[0]};
        rq := rq[1..];
        rsize := rsize - 1;
      }
    }
  }
}
