/**
 * A resumable RPC client and a resumable RPC server that talk over a succession of stream
 * connections (`aclnt_resumable`, arpc/aclnt.C; `asrv_resumable`, arpc/asrv.C), as a system of
 * steps.  A connection is FIFO in each direction; it breaks at any moment, on either side
 * independently, and what was still in flight is then lost.
 *
  * The client keeps its unanswered calls in issue order and sends them all again when it
 * moves to the next connection.
  * The server resumes first: a transport without a server refuses calls.
  * The watermark is causal.  `Pong(p)` stands for the client's answer to a call that the
 * server's own client sent in the reverse direction, ending at byte p; the client sends it
 * only after it has read that far.
 */
module ResumableRpc {
  import opened RpcTypes
  import opened AsrvResumable

  datatype CMsg = Call(xid: Xid) | Pong(off: nat)

  datatype Payload = Result(xid: Xid, data: Bytes) | Other

  /** A message to the client: its connection, its content, the offset of its last byte. */
  datatype SMsg = SMsg(conn: nat, what: Payload, end: nat)

  datatype State = State(
    // client
    born: map<Xid, nat>,       // when each xid was issued
    calls: seq<Xid>,           // unanswered calls, in issue order
    done: map<Xid, Bytes>,     // results delivered to callers
    cconn: nat,                // the connection the client uses
    ceof: bool,
    consumed: nat,             // bytes the client has read on its connection
    // server
    srv: Srv,
    sconn: nat,                // the connection the server uses
    base: nat,                 // bytes already sent when the server moved to it
    handed: map<Xid, nat>,     // how often each call was handed to the service's callback
    answers: map<Xid, Bytes>,  // what the service answered
    // network
    c2s: seq<CMsg>,            // to the server, on its current connection
    s2c: seq<SMsg>)            // to the client, on its connection and later ones

  datatype Step =
    | Issue(xid: Xid)
    | Cancel(xid: Xid)         // cancelled or timed out
    | ClientRecv
    | Ack(off: nat)
    | ClientEof
    | ClientResume
    | ServerRecv
    | Reply(xid: Xid, data: Bytes)
    | Drop(xid: Xid)           // the service rejects or ignores the call
    | OtherSend(len: nat)      // some other message leaves on the server's transport
    | ServerEof
    | ServerResume(sent: nat, acked: nat)

  predicate Attached(s: State) { s.cconn == s.sconn }

  predicate Pending(s: State, x: Xid) { x in s.srv.rtab && s.srv.rtab[x].res.None? }

  function Init(): State {
    State(map[], [], map[], 0, false, 0, Srv(map[], [], 0, 0, false), 0, 0, map[], map[], [], [])
  }

  function ToClient(conn: nat, frames: seq<Frame>): (r: seq<SMsg>)
    ensures |r| == |frames|
    ensures forall i :: 0 <= i < |r| ==>
      r[i] == SMsg(conn, Result(frames[i].xid, frames[i].data), frames[i].end)
  {
    seq(|frames|, i requires 0 <= i < |frames| =>
      SMsg(conn, Result(frames[i].xid, frames[i].data), frames[i].end))
  }

  /** Retransmission of every unanswered call, oldest first. */
  function Retransmit(calls: seq<Xid>): (r: seq<CMsg>)
    ensures |r| == |calls|
    ensures forall i :: 0 <= i < |r| ==> r[i] == Call(calls[i])
  {
    seq(|calls|, i requires 0 <= i < |calls| => Call(calls[i]))
  }

  /** The messages of one connection. */
  function OnConn(ms: seq<SMsg>, conn: nat): (r: seq<SMsg>)
    ensures forall m :: m in r <==> m in ms && m.conn == conn
  {
    if ms == [] then []
    else (if ms[0].conn == conn then [ms[0]] else []) + OnConn(ms[1..], conn)
  }

  predicate Enabled(cfg: Config, s: State, step: Step) {
    match step
    case Issue(x) => x !in s.born
    case Cancel(x) => x in s.calls
    case ClientRecv => !s.ceof && s.s2c != [] && s.s2c[0].conn == s.cconn
    case Ack(p) => !s.ceof && p <= s.consumed
    case ClientEof => true
    case ClientResume => s.cconn < s.sconn
    case ServerRecv => !s.srv.eof && s.c2s != []
    case Reply(x, _) => Pending(s, x)
    case Drop(x) => Pending(s, x)
    case OtherSend(len) => !s.srv.eof && len <= cfg.pktsize
    case ServerEof => true
    case ServerResume(sent, acked) => acked <= sent
  }

  /** What the client puts on its connection reaches the server only if the server uses it. */
  function ClientSend(s: State, m: CMsg): seq<CMsg> {
    if !s.ceof && Attached(s) then s.c2s + [m] else s.c2s
  }

  function HandTo(handed: map<Xid, nat>, x: Xid): map<Xid, nat> {
    handed[x := 1 + if x in handed then handed[x] else 0]
  }

  function Apply(cfg: Config, s: State, step: Step): State
    requires Enabled(cfg, s, step) && Wf(s.srv)
  {
    match step
    case Issue(x) =>
      s.(born := s.born[x := |s.born|], calls := s.calls + [x], c2s := ClientSend(s, Call(x)))
    case Cancel(x) =>
      s.(calls := Without(s.calls, x))
    case ClientRecv =>
      var m := s.s2c[0];
      var t := s.(s2c := s.s2c[1..], consumed := m.end);
      if m.what.Result? && m.what.xid in s.calls then
        t.(calls := Without(s.calls, m.what.xid), done := s.done[m.what.xid := m.what.data])
      else t
    case Ack(p) =>
      s.(c2s := ClientSend(s, Pong(p)))
    case ClientEof =>
      s.(ceof := true)
    case ClientResume =>
      s.(cconn := s.sconn, ceof := false, consumed := 0,
         c2s := Retransmit(s.calls), s2c := OnConn(s.s2c, s.sconn))
    case ServerRecv =>
      var t := s.(c2s := s.c2s[1..]);
      (match s.c2s[0]
       case Call(x) =>
         var o := IsReplay(cfg, s.srv, x);
         t.(srv := o.srv, handed := if o.replay then s.handed else HandTo(s.handed, x),
            s2c := s.s2c + ToClient(s.sconn, o.frames))
       case Pong(p) =>
         t.(srv := s.srv.(acked := if p > s.srv.acked then p else s.srv.acked)))
    case Reply(x, data) =>
      var o := SendReply(cfg, s.srv, x, data);
      s.(srv := o.srv, answers := s.answers[x := data],
         s2c := s.s2c + ToClient(s.sconn, o.frames))
    case Drop(x) =>
      s.(srv := SendNull(s.srv, x))
    case OtherSend(len) =>
      var n := s.srv.sent + len + 4;
      s.(srv := s.srv.(sent := n), s2c := s.s2c + [SMsg(s.sconn, Other, n)])
    case ServerEof =>
      s.(srv := s.srv.(eof := true))
    case ServerResume(sent, acked) =>
      s.(srv := Resume(s.srv, sent, acked), sconn := s.sconn + 1, base := sent, c2s := [])
  }

  /** Whatever the step, the server's table and queue stay in step, so `Apply` never gets stuck. */
  lemma ApplyWf(cfg: Config, s: State, step: Step)
    requires Enabled(cfg, s, step) && Wf(s.srv)
    ensures Wf(Apply(cfg, s, step).srv)
  {
    match step
    case ServerRecv =>
      match s.c2s[0] {
        case Call(x) =>
          if x !in s.srv.rtab {
            var t := s.srv.(rtab := s.srv.rtab[x := Svccb(None, 0)]);
            assert Wf(t);
            EvictWhileKeeps(t, 0, 1);
          } else if s.srv.rtab[x].res.Some? {
            DelsbpWf(s.srv, x);
            var t := IsReplay(cfg, s.srv, x).srv;
            assert forall y :: y in t.rq <==> y in Delsbp(s.srv, x).rq || y == x;
          }
        case Pong(p) =>
      }
    case Reply(x, data) =>
      var u := Queued(cfg, s.srv, x, data).0;
      EvictWhileKeeps(u, 1, KnownReceived(cfg, u.sent, u.acked));
    case ServerResume(sent, acked) =>
      var t := Resume(s.srv, sent, acked);
      assert forall y :: y in s.srv.rtab <==> y in t.rtab;
    case _ =>
  }

  /** The state after a run, or None if some step of it is not enabled. */
  function RunFrom(cfg: Config, s: State, steps: seq<Step>): (r: Option<State>)
    requires Wf(s.srv)
    decreases |steps|
  {
    if steps == [] then Some(s)
    else if !Enabled(cfg, s, steps[0]) then None
    else
      ApplyWf(cfg, s, steps[0]);
      RunFrom(cfg, Apply(cfg, s, steps[0]), steps[1..])
  }

  function Run(cfg: Config, steps: seq<Step>): Option<State> {
    RunFrom(cfg, Init(), steps)
  }
}
