/**
 * The replay table and reply queue of a resumable RPC server: `asrv_replay` and
 * `asrv_resumable` (arpc/asrv.C).  Every answered call keeps its reply, together with the
 * transport byte offset of the end of the latest copy of that reply, until the server
 * believes that the client cannot ask for it again.
 *
 * The functions on `Srv` say what each operation does to the state; the class
 * `ResumableServer` carries the operations out step by step, eviction loops included.
 */
module AsrvResumable {
  import opened RpcTypes

  /** `pktsize`: longest message the transport sends.  `sndbufsz`: its send-buffer size, or a
      value <= 0 when the transport does not know. */
  datatype Config = Config(pktsize: nat, sndbufsz: int)

  /** A table entry: the cached reply (None while the call is being served) and its offset. */
  datatype Svccb = Svccb(res: Option<Bytes>, offset: nat)

  /** A reply on the wire, with the transport offset of its last byte. */
  datatype Frame = Frame(xid: Xid, data: Bytes, end: nat)

  datatype Srv = Srv(
    rtab: map<Xid, Svccb>,
    rq: seq<Xid>,
    sent: nat,      // xi->xh->get_raw_bytes_sent ()
    acked: nat,     // xi->max_acked_offset
    eof: bool)      // xi->ateof ()

  datatype Outcome = Outcome(srv: Srv, replay: bool, frames: seq<Frame>)

  /** The queue lists exactly the answered calls of the table, each once. */
  ghost predicate Wf(s: Srv) {
    && Distinct(s.rq)
    && (forall x :: x in s.rq <==> x in s.rtab && s.rtab[x].res.Some?)
  }

  /** Zero offsets first, then nondecreasing ones, none above what was sent. */
  ghost predicate Ordered(s: Srv)
    requires Wf(s)
  {
    && (forall i, j :: 0 <= i < j < |s.rq| ==> s.rtab[s.rq[i]].offset <= s.rtab[s.rq[j]].offset)
    && (forall x :: x in s.rq ==> s.rtab[x].offset <= s.sent)
  }

  // ----- what the operations compute

  /** Hand a reply to the transport.  One that is too long is not sent and counts no bytes. */
  function Send(cfg: Config, s: Srv, x: Xid, data: Bytes): (r: (Srv, seq<Frame>))
    ensures r.0.sent >= s.sent && r.0 == s.(sent := r.0.sent)
    ensures |data| <= cfg.pktsize ==> r.1 == [Frame(x, data, r.0.sent)] && r.0.sent > s.sent
    ensures |data| > cfg.pktsize ==> r.1 == [] && r.0.sent == s.sent
  {
    if |data| <= cfg.pktsize then
      var n := s.sent + |data| + 4;
      (s.(sent := n), [Frame(x, data, n)])
    else
      (s, [])
  }

  /** Take one answered call out of the table and the queue. */
  function Delsbp(s: Srv, x: Xid): Srv {
    s.(rtab := s.rtab - {x}, rq := Without(s.rq, x))
  }

  /** Evict from the front of the queue while the front offset lies in [lo, hi). */
  function EvictWhile(s: Srv, lo: nat, hi: nat): Srv
    requires Wf(s)
    decreases |s.rq|
  {
    if s.rq != [] && lo <= s.rtab[s.rq[0]].offset < hi then
      DelsbpWf(s, s.rq[0]);
      DelsbpFirst(s);
      EvictWhile(Delsbp(s, s.rq[0]), lo, hi)
    else s
  }

  /** A call message arrives. */
  function IsReplay(cfg: Config, s: Srv, x: Xid): Outcome
    requires Wf(s)
  {
    if x !in s.rtab then
      var t := s.(rtab := s.rtab[x := Svccb(None, 0)]);
      assert Wf(t);
      Outcome(EvictWhile(t, 0, 1), false, [])
    else if s.rtab[x].res.None? then
      Outcome(s, true, [])
    else
      var (t, frames) := Send(cfg, s, x, s.rtab[x].res.value);
      Outcome(t.(rtab := t.rtab[x := Svccb(s.rtab[x].res, t.sent)],
                 rq := Without(t.rq, x) + [x]), true, frames)
  }

  /** What the server takes the client to have received. */
  function KnownReceived(cfg: Config, sent: nat, acked: nat): nat {
    var est := if cfg.sndbufsz > 0 && sent > cfg.sndbufsz then sent - cfg.sndbufsz else 0;
    if est > acked then est else acked
  }

  /** The state just before `SendReply` starts to evict. */
  function Queued(cfg: Config, s: Srv, x: Xid, data: Bytes): (r: (Srv, seq<Frame>))
    requires Wf(s) && x in s.rtab && s.rtab[x].res.None?
    ensures Wf(r.0)
  {
    var (t, frames) := if s.eof then (s, []) else Send(cfg, s, x, data);
    var u := t.(rtab := t.rtab[x := Svccb(Some(data), t.sent)], rq := t.rq + [x]);
    (u, frames)
  }

  /** The service answers a pending call. */
  function SendReply(cfg: Config, s: Srv, x: Xid, data: Bytes): Outcome
    requires Wf(s) && x in s.rtab && s.rtab[x].res.None?
  {
    var (u, frames) := Queued(cfg, s, x, data);
    Outcome(EvictWhile(u, 1, KnownReceived(cfg, u.sent, u.acked)), false, frames)
  }

  /** The service rejects or ignores a pending call (a reply without a result). */
  function SendNull(s: Srv, x: Xid): Srv {
    s.(rtab := s.rtab - {x})
  }

  /** Move to a new transport that has sent `sent` bytes, `acked` of them acknowledged. */
  function Resume(s: Srv, sent: nat, acked: nat): Srv {
    s.(rtab := map x | x in s.rtab :: s.rtab[x].(offset := 0),
       sent := sent, acked := acked, eof := false)
  }

  // ----- the table and the queue agree

  lemma DelsbpWf(s: Srv, x: Xid)
    requires Wf(s)
    ensures Wf(Delsbp(s, x))
  {
    WithoutDistinct(s.rq, x);
  }

  lemma DelsbpFirst(s: Srv)
    requires Wf(s) && s.rq != []
    ensures Delsbp(s, s.rq[0]).rq == s.rq[1..]
  {
    assert s.rq[0] !in s.rq[1..];
  }

  lemma DelsbpOrdered(s: Srv, x: Xid)
    requires Wf(s) && Ordered(s)
    ensures Wf(Delsbp(s, x)) && Ordered(Delsbp(s, x))
  {
    DelsbpWf(s, x);
    var t := Delsbp(s, x);
    forall i, j | 0 <= i < j < |t.rq|
      ensures t.rtab[t.rq[i]].offset <= t.rtab[t.rq[j]].offset
    {
      var k, l := WithoutOrder(s.rq, x, i, j);
    }
  }

  /** Whatever the offsets are, eviction only forgets answered calls and keeps the two
      structures in step. */
  lemma {:induction false} EvictWhileKeeps(s: Srv, lo: nat, hi: nat)
    requires Wf(s)
    ensures var t := EvictWhile(s, lo, hi);
      && Wf(t) && t == s.(rtab := t.rtab, rq := t.rq)
      && (forall x :: x in t.rtab ==> x in s.rtab && t.rtab[x] == s.rtab[x])
      && (forall x :: x in s.rtab && x !in t.rtab ==>
            s.rtab[x].res.Some? && lo <= s.rtab[x].offset < hi)
    decreases |s.rq|
  {
    if s.rq != [] && lo <= s.rtab[s.rq[0]].offset < hi {
      DelsbpWf(s, s.rq[0]);
      DelsbpFirst(s);
      EvictWhileKeeps(Delsbp(s, s.rq[0]), lo, hi);
    }
  }

  lemma {:induction false} EvictWhileOrdered(s: Srv, lo: nat, hi: nat)
    requires Wf(s) && Ordered(s)
    ensures Wf(EvictWhile(s, lo, hi)) && Ordered(EvictWhile(s, lo, hi))
    decreases |s.rq|
  {
    if s.rq != [] && lo <= s.rtab[s.rq[0]].offset < hi {
      DelsbpOrdered(s, s.rq[0]);
      DelsbpFirst(s);
      EvictWhileOrdered(Delsbp(s, s.rq[0]), lo, hi);
    }
  }

  /** In an ordered queue the loop evicts exactly the answered calls below `hi`, provided the
      first one is not below `lo`; otherwise it evicts nothing. */
  lemma {:induction false} EvictWhileExact(s: Srv, lo: nat, hi: nat)
    requires Wf(s) && Ordered(s)
    ensures var t := EvictWhile(s, lo, hi);
      if s.rq != [] && s.rtab[s.rq[0]].offset < lo then t == s
      else forall x :: x in t.rtab <==>
             x in s.rtab && !(s.rtab[x].res.Some? && s.rtab[x].offset < hi)
    decreases |s.rq|
  {
    if s.rq != [] {
      var f := s.rq[0];
      if lo <= s.rtab[f].offset < hi {
        DelsbpWf(s, f);
        DelsbpFirst(s);
        var d := Delsbp(s, f);
        assert Ordered(d);
        EvictWhileExact(d, lo, hi);
        if d.rq != [] { assert s.rq[1] == d.rq[0]; }
      } else if lo <= s.rtab[f].offset {
        forall x | x in s.rtab && s.rtab[x].res.Some?
          ensures s.rtab[x].offset >= hi
        {
          assert x in s.rq;
        }
      }
    }
  }

  // ----- every operation keeps the queue ordered, and evicts exactly what it should

  ghost predicate Inv(s: Srv) { Wf(s) && Ordered(s) }

  /** The queue with one more answered call at its end. */
  ghost function Append(d: Srv, x: Xid, data: Bytes, n: nat): Srv {
    d.(rtab := d.rtab[x := Svccb(Some(data), n)], rq := d.rq + [x], sent := n)
  }

  lemma AppendInv(d: Srv, x: Xid, data: Bytes, n: nat)
    requires Inv(d) && x !in d.rq && n >= d.sent
    ensures Inv(Append(d, x, data, n))
  {
    var t := Append(d, x, data, n);
    assert Wf(t) by {
      assert forall y :: y in t.rq <==> y in d.rq || y == x;
    }
    forall i, j | 0 <= i < j < |t.rq|
      ensures t.rtab[t.rq[i]].offset <= t.rtab[t.rq[j]].offset
    {
      assert t.rq[i] == d.rq[i] && t.rq[i] in d.rq;
      if j < |d.rq| { assert t.rq[j] == d.rq[j]; }
    }
  }

  /** `t` differs from `s` at most in its table, its queue and a larger byte count. */
  ghost predicate Advances(s: Srv, t: Srv) {
    t == s.(rtab := t.rtab, rq := t.rq, sent := t.sent) && t.sent >= s.sent
  }

  /** Apart from `x`, the table of `t` only holds entries of `s`. */
  ghost predicate OnlyOld(s: Srv, t: Srv, x: Xid) {
    forall y :: y in t.rtab && y != x ==> y in s.rtab && t.rtab[y] == s.rtab[y]
  }

  /** The table of `t` holds the entries of `s` but for the answered calls of offset 0. */
  ghost predicate Flushed(s: map<Xid, Svccb>, t: map<Xid, Svccb>) {
    && (forall y :: y in t ==> y in s && t[y] == s[y])
    && (forall y :: y in s ==> (y in t <==> s[y].res.None? || s[y].offset > 0))
  }

  lemma Flush(u: Srv)
    requires Inv(u)
    ensures var t := EvictWhile(u, 0, 1);
      Inv(t) && t == u.(rtab := t.rtab, rq := t.rq) && Flushed(u.rtab, t.rtab)
  {
    EvictWhileKeeps(u, 0, 1);
    EvictWhileOrdered(u, 0, 1);
    EvictWhileExact(u, 0, 1);
  }

  lemma PendingInv(s: Srv, x: Xid)
    requires Inv(s) && x !in s.rtab
    ensures Inv(s.(rtab := s.rtab[x := Svccb(None, 0)]))
  {
  }

  lemma FlushedBut(s: map<Xid, Svccb>, x: Xid, t: map<Xid, Svccb>)
    requires x !in s && Flushed(s[x := Svccb(None, 0)], t)
    ensures x in t && t[x] == Svccb(None, 0)
    ensures forall y :: y in t && y != x ==> y in s && t[y] == s[y]
    ensures forall y :: y in s ==> (y in t <==> s[y].res.None? || s[y].offset > 0)
  {
    assert x in s[x := Svccb(None, 0)];
  }

  /** An unknown call is recorded as pending and flushes all answered calls left over from
      earlier connections, and nothing else. */
  lemma UnknownCall(cfg: Config, s: Srv, x: Xid)
    requires Inv(s) && x !in s.rtab
    ensures var o := IsReplay(cfg, s, x); var t := o.srv;
      && Inv(t) && Advances(s, t) && OnlyOld(s, t, x)
      && !o.replay && o.frames == [] && t.sent == s.sent
      && x in t.rtab && t.rtab[x] == Svccb(None, 0)
      && (forall y :: y in s.rtab ==>
            (y in t.rtab <==> s.rtab[y].res.None? || s.rtab[y].offset > 0))
  {
    var u := s.(rtab := s.rtab[x := Svccb(None, 0)]);
    PendingInv(s, x);
    Flush(u);
    FlushedBut(s.rtab, x, EvictWhile(u, 0, 1).rtab);
  }

  /** A cached reply moves to the end of the queue. */
  lemma Requeued(s: Srv, x: Xid, n: nat, t: Srv)
    requires Inv(s) && x in s.rtab && s.rtab[x].res.Some? && n >= s.sent
    requires t == Append(Delsbp(s, x), x, s.rtab[x].res.value, n)
    ensures Inv(t) && Advances(s, t) && OnlyOld(s, t, x) && t.rtab.Keys == s.rtab.Keys
  {
    DelsbpOrdered(s, x);
    AppendInv(Delsbp(s, x), x, s.rtab[x].res.value, n);
  }

  lemma ReplayIs(cfg: Config, s: Srv, x: Xid)
    requires Wf(s) && x in s.rtab && s.rtab[x].res.Some?
    ensures var t := IsReplay(cfg, s, x).srv; t == Append(Delsbp(s, x), x, s.rtab[x].res.value, t.sent)
  {
    var t := IsReplay(cfg, s, x).srv;
    assert t.rtab == Append(Delsbp(s, x), x, s.rtab[x].res.value, t.sent).rtab;
  }

  /** A call that is still being served changes nothing; an answered one evicts nothing, and
      its cached reply is sent again unchanged. */
  lemma KnownCall(cfg: Config, s: Srv, x: Xid)
    requires Inv(s) && x in s.rtab
    ensures var o := IsReplay(cfg, s, x); var t := o.srv;
      && Inv(t) && Advances(s, t) && OnlyOld(s, t, x)
      && o.replay && t.rtab.Keys == s.rtab.Keys && t.rtab[x].res == s.rtab[x].res
      && (s.rtab[x].res.None? ==> o.frames == [] && t == s)
      && (s.rtab[x].res.Some? && |s.rtab[x].res.value| <= cfg.pktsize ==>
            && o.frames == [Frame(x, s.rtab[x].res.value, t.sent)]
            && t.rtab[x].offset == t.sent == s.sent + |s.rtab[x].res.value| + 4)
      && (s.rtab[x].res.Some? && |s.rtab[x].res.value| > cfg.pktsize ==>
            o.frames == [] && t.rtab[x].offset == t.sent == s.sent)
      && (s.rtab[x].res.Some? ==> t.rq != [] && t.rq[|t.rq| - 1] == x)
  {
    if s.rtab[x].res.Some? {
      var t := IsReplay(cfg, s, x).srv;
      ReplayIs(cfg, s, x);
      Requeued(s, x, t.sent, t);
    }
  }

  /** Answering a call queues its reply at the current offset and never evicts that reply. */
  lemma AnsweredCall(cfg: Config, s: Srv, x: Xid, data: Bytes)
    requires Inv(s) && x in s.rtab && s.rtab[x].res.None? && s.acked <= s.sent
    ensures var o := SendReply(cfg, s, x, data); var t := o.srv;
      && Inv(t) && Advances(s, t) && OnlyOld(s, t, x)
      && x in t.rtab && t.rtab[x] == Svccb(Some(data), t.sent)
      && (!s.eof && |data| <= cfg.pktsize ==> o.frames == [Frame(x, data, t.sent)] && t.sent == s.sent + |data| + 4)
      && (s.eof || |data| > cfg.pktsize ==> o.frames == [] && t.sent == s.sent)
      && (forall y :: y in s.rtab && y !in t.rtab ==>
            && s.rtab[y].res.Some? && 0 < s.rtab[y].offset
            && (s.rtab[y].offset < s.acked || (cfg.sndbufsz > 0 && s.rtab[y].offset < t.sent - cfg.sndbufsz)))
  {
    var u := Queued(cfg, s, x, data).0;
    AppendInv(s, x, data, u.sent);
    assert u == Append(s, x, data, u.sent);
    EvictWhileKeeps(u, 1, KnownReceived(cfg, u.sent, u.acked));
    EvictWhileOrdered(u, 1, KnownReceived(cfg, u.sent, u.acked));
  }

  /** A reply left over from an earlier connection heads the queue. */
  ghost predicate LeftoverFirst(s: Srv)
    requires Wf(s)
  {
    s.rq != [] && s.rtab[s.rq[0]].offset == 0
  }

  /** If a call left over from an earlier connection heads the queue, answering a call evicts
      nothing; otherwise it evicts exactly the replies that end before the acknowledged offset or,
      where the send buffer has a known size, more than that size before the end. */
  lemma AnsweredCallEvicts(cfg: Config, s: Srv, x: Xid, data: Bytes)
    requires Inv(s) && x in s.rtab && s.rtab[x].res.None? && s.acked <= s.sent
    ensures var t := SendReply(cfg, s, x, data).srv;
      if LeftoverFirst(s) then
        t.rtab.Keys == s.rtab.Keys
      else
        forall y :: y in s.rtab ==>
          (y !in t.rtab <==>
            && s.rtab[y].res.Some?
            && (s.rtab[y].offset < s.acked || (cfg.sndbufsz > 0 && s.rtab[y].offset < t.sent - cfg.sndbufsz)))
  {
    var u := Queued(cfg, s, x, data).0;
    AppendInv(s, x, data, u.sent);
    assert u == Append(s, x, data, u.sent);
    var w := KnownReceived(cfg, u.sent, u.acked);
    EvictWhileKeeps(u, 1, w);
    EvictWhileExact(u, 1, w);
    if s.rq != [] {
      assert u.rq[0] == s.rq[0] && s.rq[0] != x;
    }
  }

  /** Dropping a call without a result, and resuming, keep the queue ordered. */
  lemma SendNullInv(s: Srv, x: Xid)
    requires Inv(s) && x in s.rtab && s.rtab[x].res.None?
    ensures Inv(SendNull(s, x)) && SendNull(s, x) == s.(rtab := SendNull(s, x).rtab)
    ensures forall y :: y in SendNull(s, x).rtab <==> y in s.rtab && y != x
  {
    var t := SendNull(s, x);
    assert forall y :: y in s.rq ==> y in t.rtab && t.rtab[y] == s.rtab[y];
  }

  lemma ResumeInv(s: Srv, sent: nat, acked: nat)
    requires Inv(s)
    ensures Inv(Resume(s, sent, acked))
    ensures var t := Resume(s, sent, acked);
      && t.sent == sent && t.acked == acked && !t.eof && t.rq == s.rq && t.rtab.Keys == s.rtab.Keys
      && forall y :: y in s.rtab ==> t.rtab[y] == Svccb(s.rtab[y].res, 0)
  {
    var t := Resume(s, sent, acked);
    assert forall y :: y in s.rq ==> y in t.rtab && t.rtab[y].offset == 0;
  }

  // ----- the operations themselves

  /** `asrv_resumable`: a table keyed by xid and a queue, updated in place. */
  class ResumableServer {
    const cfg: Config
    var rtab: map<Xid, Svccb>
    var rq: seq<Xid>
    var sent: nat
    var acked: nat
    var eof: bool

    ghost function Model(): Srv
      reads this
    {
      Srv(rtab, rq, sent, acked, eof)
    }

    constructor (cfg: Config)
      ensures this.cfg == cfg
      ensures Model() == Srv(map[], [], 0, 0, false)
    {
      this.cfg := cfg;
      rtab, rq, sent, acked, eof := map[], [], 0, 0, false;
    }

    method TransportSend(x: Xid, data: Bytes) returns (frames: seq<Frame>)
      modifies this`sent
      ensures (Model(), frames) == Send(cfg, old(Model()), x, data)
    {
      frames := [];
      if |data| <= cfg.pktsize {
        sent := sent + |data| + 4;
        frames := [Frame(x, data, sent)];
      }
    }

    method Evict(x: Xid)
      modifies this`rtab, this`rq
      ensures Model() == Delsbp(old(Model()), x)
    {
      rtab := rtab - {x};
      rq := Without(rq, x);
    }

    /** arpc/asrv.C:708-728. */
    method IsReplayCall(x: Xid) returns (replay: bool, frames: seq<Frame>)
      requires Wf(Model())
      modifies this
      ensures Outcome(Model(), replay, frames) == IsReplay(cfg, old(Model()), x)
    {
      frames := [];
      if x !in rtab {
        rtab := rtab[x := Svccb(None, 0)];
        ghost var start := Model();
        while rq != [] && rtab[rq[0]].offset == 0
          invariant Wf(Model())
          invariant EvictWhile(Model(), 0, 1) == EvictWhile(start, 0, 1)
          decreases |rq|
        {
          DelsbpWf(Model(), rq[0]);
          DelsbpFirst(Model());
          Evict(rq[0]);
        }
        return false, frames;
      }
      if rtab[x].res.Some? {
        frames := TransportSend(x, rtab[x].res.value);
        rtab := rtab[x := rtab[x].(offset := sent)];
        rq := Without(rq, x);
        rq := rq + [x];
      }
      return true, frames;
    }

    /** arpc/asrv.C:730-753, for a reply with a result. */
    method SendReplyTo(x: Xid, data: Bytes) returns (frames: seq<Frame>)
      requires Wf(Model()) && x in rtab && rtab[x].res.None?
      modifies this
      ensures Outcome(Model(), false, frames) == SendReply(cfg, old(Model()), x, data)
    {
      frames := [];
      if !eof {
        frames := TransportSend(x, data);
      }
      rtab := rtab[x := Svccb(Some(data), sent)];
      rq := rq + [x];
      ghost var u := Model();
      assert u == Queued(cfg, old(Model()), x, data).0;

      var bytesSent := sent;
      var known := 0;
      if cfg.sndbufsz > 0 && bytesSent > cfg.sndbufsz {
        known := bytesSent - cfg.sndbufsz;
      }
      if known < acked {
        known := acked;
      }
      assert known == KnownReceived(cfg, u.sent, u.acked);
      while rq != [] && rtab[rq[0]].offset != 0 && rtab[rq[0]].offset < known
        invariant Wf(Model())
        invariant EvictWhile(Model(), 1, known) == EvictWhile(u, 1, known)
        decreases |rq|
      {
        DelsbpWf(Model(), rq[0]);
        DelsbpFirst(Model());
        Evict(rq[0]);
      }
    }

    /** arpc/asrv.C:755-774: every entry loses its offset. */
    method ResumeOn(newSent: nat, newAcked: nat)
      modifies this
      ensures Model() == Resume(old(Model()), newSent, newAcked)
    {
      sent, acked, eof := newSent, newAcked, false;
      var todo := rtab.Keys;
      while todo != {}
        invariant todo <= rtab.Keys == old(rtab).Keys
        invariant forall x :: x in rtab ==>
          rtab[x] == if x in todo then old(rtab)[x] else old(rtab)[x].(offset := 0)
        invariant rq == old(rq) && sent == newSent && acked == newAcked && !eof
        decreases |todo|
      {
        var x :| x in todo;
        rtab := rtab[x := rtab[x].(offset := 0)];
        todo := todo - {x};
      }
    }
  }
}
