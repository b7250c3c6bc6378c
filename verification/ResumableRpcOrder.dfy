/**
 * The reply queue in every reachable state of the system, whatever the send-buffer size and
 * whether or not replies are too long or calls dropped: zero offsets first, then nondecreasing ones,
 * none above the bytes sent; and the client never acknowledges more than was sent.
 */
module ResumableRpcOrder {
  import opened RpcTypes
  import opened AsrvResumable
  import opened ResumableRpc
  import opened ResumableRpcSafety

  /** What keeps acknowledgments below the bytes sent: they follow what the client has read. */
  ghost predicate AckInv(s: State) {
    && s.srv.acked <= s.srv.sent && s.cconn <= s.sconn
    && FrameInv(s.s2c, s.cconn, s.sconn, s.srv.sent, ReadOf(s)) && ReadOf(s) <= s.srv.sent
    && PongInv(s.c2s, s.consumed) && (s.c2s != [] ==> Attached(s))
  }

  ghost predicate QueueInv(s: State) { Inv(s.srv) && AckInv(s) }

  /** The server goes on to send `frames`, and nothing else changes for the client. */
  lemma SentKeeps(s: State, t: State, frames: seq<SMsg>)
    requires AckInv(s) && t == s.(srv := t.srv, c2s := t.c2s, s2c := s.s2c + frames, handed := t.handed, answers := t.answers)
    requires t.srv.acked == s.srv.acked && t.srv.sent >= s.srv.sent && (t.c2s == s.c2s || (s.c2s != [] && t.c2s == s.c2s[1..]))
    requires |frames| <= 1 && (frames != [] ==>
      frames[0].conn == s.sconn && s.srv.sent < frames[0].end == t.srv.sent)
    ensures AckInv(t)
  {
    assert forall m :: m in t.s2c ==> m in s.s2c || (frames != [] && m == frames[0]);
    assert forall i :: 0 <= i < |s.s2c| ==> s.s2c[i] in s.s2c;
  }

  lemma CallKeeps(cfg: Config, s: State)
    requires QueueInv(s) && Enabled(cfg, s, ServerRecv) && s.c2s[0].Call?
    ensures QueueInv(Apply(cfg, s, ServerRecv))
  {
    var x := s.c2s[0].xid;
    var o := IsReplay(cfg, s.srv, x);
    if x in s.srv.rtab { KnownCall(cfg, s.srv, x); } else { UnknownCall(cfg, s.srv, x); }
    SentKeeps(s, Apply(cfg, s, ServerRecv), ToClient(s.sconn, o.frames));
  }

  lemma AnswerKeeps(cfg: Config, s: State, x: Xid, data: Bytes)
    requires QueueInv(s) && Enabled(cfg, s, Reply(x, data))
    ensures QueueInv(Apply(cfg, s, Reply(x, data)))
  {
    AnsweredCall(cfg, s.srv, x, data);
    SentKeeps(s, Apply(cfg, s, Reply(x, data)), ToClient(s.sconn, SendReply(cfg, s.srv, x, data).frames));
  }

  lemma ClientReads(cfg: Config, s: State)
    requires QueueInv(s) && Enabled(cfg, s, ClientRecv)
    ensures QueueInv(Apply(cfg, s, ClientRecv))
  {
    ReadFrame(s.s2c, s.cconn, s.sconn, s.srv.sent, ReadOf(s));
    assert s.s2c[0] in s.s2c;
  }

  lemma ReadFrame(s2c: seq<SMsg>, cconn: nat, sconn: nat, sent: nat, read: nat)
    requires s2c != [] && FrameInv(s2c, cconn, sconn, sent, read)
    ensures FrameInv(s2c[1..], cconn, sconn, sent, if s2c[0].conn == sconn then s2c[0].end else read)
  {
    var rest := s2c[1..];
    assert forall i :: 0 <= i < |rest| ==> rest[i] == s2c[i + 1];
  }

  lemma ClientMoves(cfg: Config, s: State)
    requires QueueInv(s) && Enabled(cfg, s, ClientResume)
    ensures QueueInv(Apply(cfg, s, ClientResume))
  {
    var t := Apply(cfg, s, ClientResume);
    forall i, j | 0 <= i < j < |t.s2c| ensures t.s2c[i].end < t.s2c[j].end {
      var k, l := OnConnOrder(s.s2c, s.sconn, i, j);
    }
  }

  lemma StepKeepsQueue(cfg: Config, s: State, step: Step)
    requires QueueInv(s) && Enabled(cfg, s, step)
    ensures QueueInv(Apply(cfg, s, step))
  {
    match step
    case ServerRecv =>
      if s.c2s[0].Call? {
        CallKeeps(cfg, s);
      } else {
        assert s.c2s[0] in s.c2s;
      }
    case Reply(x, data) => AnswerKeeps(cfg, s, x, data);
    case Drop(x) => SendNullInv(s.srv, x);
    case OtherSend(len) => SentKeeps(s, Apply(cfg, s, step), [SMsg(s.sconn, Other, s.srv.sent + len + 4)]);
    case ServerResume(sent, acked) => ResumeInv(s.srv, sent, acked);
    case ClientRecv => ClientReads(cfg, s);
    case ClientResume => ClientMoves(cfg, s);
    case _ =>
  }

  lemma {:induction false} RunKeepsQueue(cfg: Config, s: State, steps: seq<Step>)
    requires QueueInv(s)
    ensures var r := RunFrom(cfg, s, steps); r.Some? ==> QueueInv(r.value)
    decreases |steps|
  {
    if steps != [] && Enabled(cfg, s, steps[0]) {
      StepKeepsQueue(cfg, s, steps[0]);
      RunKeepsQueue(cfg, Apply(cfg, s, steps[0]), steps[1..]);
    }
  }

  /** In every run of every configuration. */
  lemma AlwaysOrdered(cfg: Config, steps: seq<Step>)
    ensures var r := Run(cfg, steps); r.Some? ==> Inv(r.value.srv) && r.value.srv.acked <= r.value.srv.sent
  {
    RunKeepsQueue(cfg, Init(), steps);
  }

  /** So whenever a call is answered, in any run, its reply survives its own eviction loop, and the
      loop evicts what it should. */
  lemma AnsweredInRun(cfg: Config, steps: seq<Step>, s: State, x: Xid, data: Bytes)
    requires Run(cfg, steps) == Some(s) && Pending(s, x)
    ensures Inv(s.srv)
    ensures var t := SendReply(cfg, s.srv, x, data).srv;
      && x in t.rtab && t.rtab[x] == Svccb(Some(data), t.sent)
      && (forall y :: y in s.srv.rtab && !LeftoverFirst(s.srv) ==>
            (y !in t.rtab <==>
              && s.srv.rtab[y].res.Some?
              && (s.srv.rtab[y].offset < s.srv.acked
                  || (cfg.sndbufsz > 0 && s.srv.rtab[y].offset < t.sent - cfg.sndbufsz))))
      && (LeftoverFirst(s.srv) ==> t.rtab.Keys == s.srv.rtab.Keys)
  {
    AlwaysOrdered(cfg, steps);
    AnsweredCall(cfg, s.srv, x, data);
    AnsweredCallEvicts(cfg, s.srv, x, data);
  }
}
