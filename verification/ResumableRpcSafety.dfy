/**
 * What every run of the resumable RPC system keeps, however often and wherever it is
 * disconnected: each call is handed to the service at most once, and every copy of its reply
 * carries the same bytes.  The three conditions this needs are exact.
 */
module ResumableRpcSafety {
  import opened RpcTypes
  import opened AsrvResumable
  import opened ResumableRpc

  type Births = map<Xid, nat>
  type Table = map<Xid, Svccb>

  ghost predicate InFlight(c2s: seq<CMsg>, x: Xid) { Call(x) in c2s }

  /** Offset of an answered call, 0 for any other. */
  ghost function Off(rtab: Table, x: Xid): nat {
    if x in rtab && rtab[x].res.Some? then rtab[x].offset else 0
  }

  ghost predicate ClientInv(born: Births, calls: seq<Xid>, done: map<Xid, Bytes>) {
    && (forall x :: x in born ==> born[x] < |born|)
    && (forall x :: x in calls ==> x in born)
    && (forall i, j :: 0 <= i < j < |calls| ==> born[calls[i]] < born[calls[j]])
    && (forall x :: x in done ==> x in born && x !in calls)
  }

  ghost predicate HandedInv(born: Births, handed: map<Xid, nat>, rtab: Table, answers: map<Xid, Bytes>) {
    && (forall x :: x in handed ==> x in born && handed[x] == 1)
    && (forall x :: x in rtab ==> x in handed)
    && (forall x :: x in answers ==> x in handed)
  }

  ghost predicate NetInv(born: Births, c2s: seq<CMsg>) {
    && (forall x :: InFlight(c2s, x) ==> x in born)
    && (forall i, j :: 0 <= i < j < |c2s| && c2s[i].Call? && c2s[j].Call? ==>
          InFlight(c2s, c2s[i].xid) && InFlight(c2s, c2s[j].xid) && born[c2s[i].xid] < born[c2s[j].xid])
  }

  /** The crux: among the unanswered calls, and among the calls on the wire, the ones the
      server has already received are the older ones. */
  ghost predicate CallsPrefix(born: Births, calls: seq<Xid>, handed: map<Xid, nat>) {
    forall x, y :: x in calls && y in calls && x in born && y in born && born[x] < born[y] && y in handed ==>
      x in handed
  }

  ghost predicate WirePrefix(born: Births, c2s: seq<CMsg>, handed: map<Xid, nat>) {
    && (forall x, y :: InFlight(c2s, x) && InFlight(c2s, y) && x in born && y in born && born[x] < born[y] ==>
          y in handed ==> x in handed)
    && (forall i, j :: 0 <= i < j < |c2s| && c2s[i].Pong? && c2s[j].Call? ==> c2s[j].xid !in handed)
  }

  /** An unanswered call the server has not received travels ahead of all younger calls. */
  ghost predicate WireGap(born: Births, calls: seq<Xid>, c2s: seq<CMsg>, handed: map<Xid, nat>) {
    forall x, y :: x in calls && x !in handed && InFlight(c2s, y) && x in born && y in born && born[x] < born[y] ==>
      InFlight(c2s, x)
  }

  /** While the client can send to the server, no unanswered call is missing on the wire. */
  ghost predicate WireFull(calls: seq<Xid>, c2s: seq<CMsg>, handed: map<Xid, nat>) {
    forall x :: x in calls && x !in handed ==> InFlight(c2s, x)
  }

  /** A received call that the client may still ask for is in the table. */
  ghost predicate Retained(calls: seq<Xid>, handed: map<Xid, nat>, rtab: Table) {
    forall x :: x in calls && x in handed ==> x in rtab
  }

  ghost predicate WireRetained(c2s: seq<CMsg>, handed: map<Xid, nat>, rtab: Table) {
    forall x :: InFlight(c2s, x) && x in handed ==> x in rtab
  }

  /** A leftover of an earlier connection that the client still wants is about to be replayed. */
  ghost predicate Leftovers(calls: seq<Xid>, c2s: seq<CMsg>, rtab: Table) {
    forall x :: x in calls && x in rtab && rtab[x].res.Some? && rtab[x].offset == 0 ==> InFlight(c2s, x)
  }

  /** While a retransmission of a received call is on the wire, no acknowledgment of this
      connection has been processed. */
  ghost predicate EarlyAck(c2s: seq<CMsg>, handed: map<Xid, nat>, acked: nat, base: nat) {
    forall x :: InFlight(c2s, x) && x in handed ==> acked <= base
  }

  ghost predicate PongInv(c2s: seq<CMsg>, consumed: nat) {
    forall m :: m in c2s && m.Pong? ==> m.off <= consumed
  }

  ghost predicate OffsetsFrom(rtab: Table, base: nat) {
    forall x :: Off(rtab, x) > 0 ==> Off(rtab, x) >= base
  }

  /** Offsets in (0, limit) belong to calls the client has finished with. */
  ghost predicate Finished(calls: seq<Xid>, rtab: Table, limit: nat) {
    forall x :: 0 < Off(rtab, x) < limit ==> x !in calls
  }

  /** The messages on their way to the client, in order and none yet read. */
  ghost predicate FrameInv(s2c: seq<SMsg>, cconn: nat, sconn: nat, sent: nat, read: nat) {
    && (forall m :: m in s2c ==> cconn <= m.conn <= sconn)
    && (forall m :: m in s2c && m.conn == sconn ==> read < m.end <= sent)
    && (forall i, j :: 0 <= i < j < |s2c| && s2c[i].conn == sconn && s2c[j].conn == sconn ==>
          s2c[i].end < s2c[j].end)
  }

  /** A cached reply sent on this connection that the client has not read is on its way. */
  ghost predicate OnTheWay(s2c: seq<SMsg>, sconn: nat, rtab: Table, read: nat) {
    forall x :: Off(rtab, x) > read ==> SMsg(sconn, Result(x, rtab[x].res.value), Off(rtab, x)) in s2c
  }

  /** Every copy of a reply carries the service's answer. */
  ghost predicate TableData(cfg: Config, rtab: Table, answers: map<Xid, Bytes>) {
    && (forall x :: x in rtab && rtab[x].res.None? ==> x !in answers)
    && (forall x :: x in rtab && rtab[x].res.Some? ==>
          x in answers && answers[x] == rtab[x].res.value && |answers[x]| <= cfg.pktsize)
  }

  ghost predicate WireData(s2c: seq<SMsg>, answers: map<Xid, Bytes>) {
    forall m :: m in s2c && m.what.Result? ==>
      m.what.xid in answers && m.what.data == answers[m.what.xid]
  }

  ghost predicate DoneData(done: map<Xid, Bytes>, answers: map<Xid, Bytes>) {
    forall x :: x in done ==> x in answers && done[x] == answers[x]
  }

  /** What the client has read of the server's current connection. */
  ghost function ReadOf(s: State): nat { if Attached(s) then s.consumed else 0 }

  ghost predicate OrderInv(s: State) {
    && ClientInv(s.born, s.calls, s.done)
    && NetInv(s.born, s.c2s)
    && (s.c2s != [] ==> Attached(s))
    && HandedInv(s.born, s.handed, s.srv.rtab, s.answers)
  }

  ghost predicate PrefixInv(s: State) {
    && CallsPrefix(s.born, s.calls, s.handed)
    && WirePrefix(s.born, s.c2s, s.handed)
    && WireGap(s.born, s.calls, s.c2s, s.handed)
    && (Attached(s) && !s.ceof ==> WireFull(s.calls, s.c2s, s.handed))
  }

  ghost predicate RetainInv(s: State) {
    && Retained(s.calls, s.handed, s.srv.rtab)
    && (!s.srv.eof ==> WireRetained(s.c2s, s.handed, s.srv.rtab))
    && (!s.srv.eof && Attached(s) ==> Leftovers(s.calls, s.c2s, s.srv.rtab))
  }

  ghost predicate WatermarkInv(s: State) {
    && s.base <= s.srv.sent && s.srv.acked <= s.srv.sent && ReadOf(s) <= s.srv.sent
    && OffsetsFrom(s.srv.rtab, s.base)
    && PongInv(s.c2s, s.consumed)
    && (s.srv.eof ==> Finished(s.calls, s.srv.rtab, s.srv.acked))
    && (!s.srv.eof ==>
          && (s.srv.acked <= s.base || s.srv.acked <= ReadOf(s))
          && EarlyAck(s.c2s, s.handed, s.srv.acked, s.base)
          && Finished(s.calls, s.srv.rtab, ReadOf(s) + 1))
  }

  ghost predicate DownInv(s: State) {
    && s.cconn <= s.sconn
    && FrameInv(s.s2c, s.cconn, s.sconn, s.srv.sent, ReadOf(s))
    && (!s.srv.eof ==> OnTheWay(s.s2c, s.sconn, s.srv.rtab, ReadOf(s)))
  }

  ghost predicate DataInv(cfg: Config, s: State) {
    && TableData(cfg, s.srv.rtab, s.answers)
    && WireData(s.s2c, s.answers)
    && DoneData(s.done, s.answers)
  }

  ghost predicate SysInv(cfg: Config, s: State) {
    && Inv(s.srv) && OrderInv(s) && PrefixInv(s) && RetainInv(s)
    && WatermarkInv(s) && DownInv(s) && DataInv(cfg, s)
  }

  /** Steps under which the promise holds: replies fit the transport and calls are not dropped. */
  predicate Benign(cfg: Config, step: Step) {
    match step
    case Reply(_, data) => |data| <= cfg.pktsize
    case Drop(_) => false
    case _ => true
  }

  // ----- one lemma per step

  lemma IssueClient(born: Births, calls: seq<Xid>, done: map<Xid, Bytes>, x: Xid)
    requires ClientInv(born, calls, done) && x !in born
    ensures ClientInv(born[x := |born|], calls + [x], done)
  {
    var after := calls + [x];
    forall i, j | 0 <= i < j < |after|
      ensures after[i] in born[x := |born|] && after[j] in born[x := |born|]
      ensures born[x := |born|][after[i]] < born[x := |born|][after[j]]
    {
      assert calls[i] in calls;
      if j < |calls| { assert calls[j] in calls; }
    }
  }

  lemma IssueNet(born: Births, c2s: seq<CMsg>, x: Xid)
    requires NetInv(born, c2s) && x !in born && forall y :: y in born ==> born[y] < |born|
    ensures NetInv(born[x := |born|], c2s) && NetInv(born[x := |born|], c2s + [Call(x)])
  {
    var after := c2s + [Call(x)];
    assert forall y :: InFlight(after, y) <==> InFlight(c2s, y) || y == x;
    forall i, j | 0 <= i < j < |after| && after[i].Call? && after[j].Call?
      ensures InFlight(after, after[i].xid) && InFlight(after, after[j].xid)
      ensures born[x := |born|][after[i].xid] < born[x := |born|][after[j].xid]
    {
      assert InFlight(c2s, c2s[i].xid);
      if j < |c2s| { assert InFlight(c2s, c2s[j].xid); }
    }
  }

  lemma IssueOrder(s: State, t: State, x: Xid)
    requires OrderInv(s) && x !in s.born
    requires t == s.(born := s.born[x := |s.born|], calls := s.calls + [x], c2s := ClientSend(s, Call(x)))
    ensures OrderInv(t)
  {
    IssueClient(s.born, s.calls, s.done, x);
    IssueNet(s.born, s.c2s, x);
  }

  lemma IssuePrefix(s: State, t: State, x: Xid)
    requires OrderInv(s) && PrefixInv(s) && x !in s.born
    requires t == s.(born := s.born[x := |s.born|], calls := s.calls + [x], c2s := ClientSend(s, Call(x)))
    ensures PrefixInv(t)
  {
    assert forall y :: y in t.calls <==> y in s.calls || y == x;
    assert forall y :: y != x ==> (InFlight(t.c2s, y) <==> InFlight(s.c2s, y));
  }

  lemma IssueRest(s: State, t: State, x: Xid)
    requires OrderInv(s) && RetainInv(s) && WatermarkInv(s) && x !in s.born
    requires t == s.(born := s.born[x := |s.born|], calls := s.calls + [x], c2s := ClientSend(s, Call(x)))
    ensures RetainInv(t) && WatermarkInv(t)
  {
    assert forall y :: y in t.calls <==> y in s.calls || y == x;
    assert forall y :: y != x ==> (InFlight(t.c2s, y) <==> InFlight(s.c2s, y));
  }

  lemma IssueKeeps(cfg: Config, s: State, x: Xid)
    requires SysInv(cfg, s) && Enabled(cfg, s, Issue(x))
    ensures SysInv(cfg, Apply(cfg, s, Issue(x)))
  {
    var t := Apply(cfg, s, Issue(x));
    IssueOrder(s, t, x);
    IssuePrefix(s, t, x);
    IssueRest(s, t, x);
  }

  /** Fewer unanswered calls: whatever is promised of them is still true. */
  lemma ForgetCall(cfg: Config, s: State, x: Xid)
    requires SysInv(cfg, s)
    ensures SysInv(cfg, s.(calls := Without(s.calls, x)))
  {
    var t := s.(calls := Without(s.calls, x));
    assert ClientInv(t.born, t.calls, t.done) by {
      forall i, j | 0 <= i < j < |t.calls| ensures t.born[t.calls[i]] < t.born[t.calls[j]] {
        var k, l := WithoutOrder(s.calls, x, i, j);
      }
    }
  }

  lemma AckKeeps(cfg: Config, s: State, p: nat)
    requires SysInv(cfg, s) && Enabled(cfg, s, Ack(p))
    ensures SysInv(cfg, Apply(cfg, s, Ack(p)))
  {
    var t := Apply(cfg, s, Ack(p));
    assert forall y :: InFlight(t.c2s, y) <==> InFlight(s.c2s, y);
    assert NetInv(t.born, t.c2s);
    assert WirePrefix(t.born, t.c2s, t.handed);
    assert PongInv(t.c2s, t.consumed);
  }

  lemma ClientEofKeeps(cfg: Config, s: State)
    requires SysInv(cfg, s)
    ensures SysInv(cfg, Apply(cfg, s, ClientEof))
  {
  }

  lemma ServerEofKeeps(cfg: Config, s: State)
    requires SysInv(cfg, s)
    ensures SysInv(cfg, Apply(cfg, s, ServerEof))
  {
  }

  /** What moving the server to a new transport does to the state. */
  ghost predicate ServerResumeEffect(s: State, t: State) {
    && t == s.(srv := t.srv, sconn := s.sconn + 1, base := t.srv.sent, c2s := [])
    && !t.srv.eof && t.srv.acked <= t.srv.sent
    && t.srv.rtab.Keys == s.srv.rtab.Keys
    && (forall x :: x in s.srv.rtab ==> t.srv.rtab[x] == s.srv.rtab[x].(offset := 0))
  }

  lemma ServerResumeUp(s: State, t: State)
    requires OrderInv(s) && PrefixInv(s) && RetainInv(s) && DownInv(s) && ServerResumeEffect(s, t)
    ensures OrderInv(t) && PrefixInv(t) && RetainInv(t)
  {
    assert forall x :: !InFlight(t.c2s, x);
  }

  lemma ServerResumeDown(cfg: Config, s: State, t: State)
    requires WatermarkInv(s) && DownInv(s) && DataInv(cfg, s) && ServerResumeEffect(s, t)
    ensures WatermarkInv(t) && DownInv(t) && DataInv(cfg, t)
  {
    assert forall x :: Off(t.srv.rtab, x) == 0;
    assert forall x :: !InFlight(t.c2s, x);
  }

  lemma ServerResumeKeeps(cfg: Config, s: State, sent: nat, acked: nat)
    requires SysInv(cfg, s) && acked <= sent
    ensures SysInv(cfg, Apply(cfg, s, ServerResume(sent, acked)))
  {
    var t := Apply(cfg, s, ServerResume(sent, acked));
    ResumeInv(s.srv, sent, acked);
    assert ServerResumeEffect(s, t);
    ServerResumeUp(s, t);
    ServerResumeDown(cfg, s, t);
  }

  /** Keeping the messages of one connection keeps their order. */
  lemma {:induction false} OnConnOrder(ms: seq<SMsg>, conn: nat, i: nat, j: nat) returns (k: nat, l: nat)
    requires i < j < |OnConn(ms, conn)|
    ensures k < l < |ms| && ms[k] == OnConn(ms, conn)[i] && ms[l] == OnConn(ms, conn)[j]
  {
    var t := ms[1..];
    if ms[0].conn != conn {
      k, l := OnConnOrder(t, conn, i, j);
      k, l := k + 1, l + 1;
    } else if i == 0 {
      assert OnConn(ms, conn)[j] == OnConn(t, conn)[j - 1] && OnConn(t, conn)[j - 1] in t;
      l :| 0 <= l < |t| && t[l] == OnConn(ms, conn)[j];
      k, l := 0, l + 1;
    } else {
      k, l := OnConnOrder(t, conn, i - 1, j - 1);
      k, l := k + 1, l + 1;
    }
  }

  lemma ClientResumeUp(s: State, t: State)
    requires OrderInv(s) && PrefixInv(s) && RetainInv(s)
    requires s.cconn < s.sconn
    requires t == s.(cconn := s.sconn, ceof := false, consumed := 0,
                     c2s := Retransmit(s.calls), s2c := OnConn(s.s2c, s.sconn))
    ensures OrderInv(t) && PrefixInv(t) && RetainInv(t)
  {
    assert forall x :: InFlight(t.c2s, x) <==> x in s.calls;
    forall i, j | 0 <= i < j < |t.c2s|
      ensures t.c2s[i].Call? && t.c2s[j].Call?
      ensures InFlight(t.c2s, t.c2s[i].xid) && InFlight(t.c2s, t.c2s[j].xid)
      ensures t.born[t.c2s[i].xid] < t.born[t.c2s[j].xid]
    {
      assert s.calls[i] in s.calls && s.calls[j] in s.calls;
    }
  }

  lemma ClientResumeDown(s: State, t: State)
    requires WatermarkInv(s) && DownInv(s)
    requires s.cconn < s.sconn
    requires t == s.(cconn := s.sconn, ceof := false, consumed := 0,
                     c2s := Retransmit(s.calls), s2c := OnConn(s.s2c, s.sconn))
    ensures WatermarkInv(t) && DownInv(t)
  {
    forall i, j | 0 <= i < j < |t.s2c| ensures t.s2c[i].end < t.s2c[j].end {
      var k, l := OnConnOrder(s.s2c, s.sconn, i, j);
      assert t.s2c[i] in t.s2c && t.s2c[j] in t.s2c;
    }
  }

  lemma ClientResumeKeeps(cfg: Config, s: State)
    requires SysInv(cfg, s) && Enabled(cfg, s, ClientResume)
    ensures SysInv(cfg, Apply(cfg, s, ClientResume))
  {
    var t := Apply(cfg, s, ClientResume);
    ClientResumeUp(s, t);
    ClientResumeDown(s, t);
  }

  lemma OtherSendKeeps(cfg: Config, s: State, len: nat)
    requires SysInv(cfg, s) && Enabled(cfg, s, OtherSend(len))
    ensures SysInv(cfg, Apply(cfg, s, OtherSend(len)))
  {
    var t := Apply(cfg, s, OtherSend(len));
    OtherSendDown(cfg, s, t);
    assert Inv(t.srv) && OrderInv(t) && PrefixInv(t) && RetainInv(t) && WatermarkInv(t);
  }

  lemma OtherSendDown(cfg: Config, s: State, t: State)
    requires DownInv(s) && DataInv(cfg, s) && ReadOf(s) <= s.srv.sent < t.srv.sent
    requires t == s.(srv := s.srv.(sent := t.srv.sent), s2c := s.s2c + [SMsg(s.sconn, Other, t.srv.sent)])
    ensures DownInv(t) && DataInv(cfg, t)
  {
  }

  /** Reading a message of the server's connection: the reply it carries ends exactly there, so
      any cached reply that ends at or before it belongs to a finished call. */
  lemma ReadFinishes(s: State, calls: seq<Xid>)
    requires DownInv(s) && WatermarkInv(s) && Attached(s) && !s.srv.eof && s.s2c != []
    requires forall x :: x in calls ==> x in s.calls && !(s.s2c[0].what.Result? && s.s2c[0].what.xid == x)
    ensures Finished(calls, s.srv.rtab, s.s2c[0].end + 1)
    ensures OnTheWay(s.s2c[1..], s.sconn, s.srv.rtab, s.s2c[0].end)
  {
    var m := s.s2c[0];
    assert m in s.s2c;
    forall x | Off(s.srv.rtab, x) > s.consumed
      ensures Off(s.srv.rtab, x) >= m.end
      ensures Off(s.srv.rtab, x) == m.end ==> m.what.Result? && m.what.xid == x
      ensures Off(s.srv.rtab, x) > m.end ==>
        SMsg(s.sconn, Result(x, s.srv.rtab[x].res.value), Off(s.srv.rtab, x)) in s.s2c[1..]
    {
      var f := SMsg(s.sconn, Result(x, s.srv.rtab[x].res.value), Off(s.srv.rtab, x));
      assert f in s.s2c;
      var i :| 0 <= i < |s.s2c| && s.s2c[i] == f;
      if i > 0 {
        assert s.s2c[1..][i - 1] == f;
      }
    }
  }

  /** The client moves past the first message without touching its calls. */
  lemma ReadKeeps(cfg: Config, s: State, t: State)
    requires SysInv(cfg, s) && Enabled(cfg, s, ClientRecv)
    requires t == s.(s2c := s.s2c[1..], consumed := s.s2c[0].end)
    requires !(s.s2c[0].what.Result? && s.s2c[0].what.xid in s.calls)
    ensures SysInv(cfg, t)
  {
    assert s.s2c[0] in s.s2c;
    if Attached(s) && !s.srv.eof {
      ReadFinishes(s, s.calls);
    }
    assert forall i :: 0 <= i < |t.s2c| ==> t.s2c[i] == s.s2c[i + 1];
    assert FrameInv(t.s2c, t.cconn, t.sconn, t.srv.sent, ReadOf(t));
  }

  /** The caller of a finished call gets the service's answer. */
  lemma FinishCall(cfg: Config, s: State, x: Xid)
    requires SysInv(cfg, s) && x in s.born && x !in s.calls && x in s.answers
    ensures SysInv(cfg, s.(done := s.done[x := s.answers[x]]))
  {
  }

  lemma ClientRecvKeeps(cfg: Config, s: State)
    requires SysInv(cfg, s) && Enabled(cfg, s, ClientRecv)
    ensures SysInv(cfg, Apply(cfg, s, ClientRecv))
  {
    var m := s.s2c[0];
    if m.what.Result? && m.what.xid in s.calls {
      var x := m.what.xid;
      var u := s.(calls := Without(s.calls, x));
      ForgetCall(cfg, s, x);
      var v := u.(s2c := u.s2c[1..], consumed := m.end);
      ReadKeeps(cfg, u, v);
      assert m in s.s2c;
      FinishCall(cfg, v, x);
    } else {
      ReadKeeps(cfg, s, s.(s2c := s.s2c[1..], consumed := m.end));
    }
  }

  /** The first message leaves the wire; every call behind it is younger. */
  lemma TakeFirst(born: Births, c2s: seq<CMsg>)
    requires NetInv(born, c2s) && c2s != []
    ensures NetInv(born, c2s[1..])
    ensures forall y :: InFlight(c2s[1..], y) <==> InFlight(c2s, y) && c2s[0] != Call(y)
    ensures c2s[0].Call? ==> InFlight(c2s, c2s[0].xid) && c2s[0].xid in born
    ensures c2s[0].Call? ==> forall y :: InFlight(c2s[1..], y) ==> y in born && born[c2s[0].xid] < born[y]
  {
    var r := c2s[1..];
    forall y | InFlight(r, y)
      ensures InFlight(c2s, y) && c2s[0] != Call(y)
      ensures c2s[0].Call? ==> born[c2s[0].xid] < born[y]
    {
      var i :| 0 <= i < |r| && r[i] == Call(y);
      assert c2s[i + 1] == Call(y);
      assert Call(y) in c2s;
    }
    forall y | InFlight(c2s, y) && c2s[0] != Call(y) ensures InFlight(r, y) {
      var i :| 0 <= i < |c2s| && c2s[i] == Call(y);
      assert r[i - 1] == Call(y);
    }
    if c2s[0].Call? { assert c2s[0] in c2s; }
  }

  /** Behind an unknown call or an acknowledgment there is no retransmission of a received call. */
  lemma NothingSeenBehind(born: Births, c2s: seq<CMsg>, handed: map<Xid, nat>)
    requires NetInv(born, c2s) && WirePrefix(born, c2s, handed) && c2s != []
    requires c2s[0].Call? ==> c2s[0].xid !in handed
    ensures forall y :: InFlight(c2s, y) ==> y !in handed
    ensures WirePrefix(born, c2s[1..], handed)
  {
    TakeFirst(born, c2s);
    forall y | InFlight(c2s, y) ensures y !in handed {
      var i :| 0 <= i < |c2s| && c2s[i] == Call(y);
    }
  }

  lemma RecvPong(cfg: Config, s: State)
    requires SysInv(cfg, s) && Enabled(cfg, s, ServerRecv) && s.c2s[0].Pong?
    ensures SysInv(cfg, Apply(cfg, s, ServerRecv))
  {
    var t := Apply(cfg, s, ServerRecv);
    TakeFirst(s.born, s.c2s);
    NothingSeenBehind(s.born, s.c2s, s.handed);
    assert s.c2s[0] in s.c2s;
    assert PongInv(t.c2s, t.consumed);
  }

  /** An unknown call: no call that the client may still ask for is among those evicted. */
  lemma UnknownEvictsNoneNeeded(s: State, y: Xid)
    requires OrderInv(s) && PrefixInv(s) && RetainInv(s)
    requires !s.srv.eof && s.c2s != [] && s.c2s[0].Call? && s.c2s[0].xid !in s.handed
    requires y in s.srv.rtab && s.srv.rtab[y].res.Some? && s.srv.rtab[y].offset == 0
    ensures y !in s.calls && !InFlight(s.c2s, y)
  {
    NothingSeenBehind(s.born, s.c2s, s.handed);
  }

  lemma RecvUnknownPrefix(s: State, t: State, x: Xid)
    requires OrderInv(s) && PrefixInv(s)
    requires s.c2s != [] && s.c2s[0] == Call(x) && x !in s.handed
    requires t.born == s.born && t.calls == s.calls && t.c2s == s.c2s[1..]
    requires t.handed == s.handed[x := 1] && t.cconn == s.cconn && t.sconn == s.sconn && t.ceof == s.ceof
    ensures PrefixInv(t)
  {
    TakeFirst(s.born, s.c2s);
    NothingSeenBehind(s.born, s.c2s, s.handed);
    forall i | 0 <= i < |t.c2s| && t.c2s[i].Call? ensures t.c2s[i].xid !in t.handed {
      assert Call(t.c2s[i].xid) in t.c2s;
      assert InFlight(t.c2s, t.c2s[i].xid);
    }
  }

  /** What the arrival of an unknown call does to the state. */
  ghost predicate UnknownEffect(s: State, t: State, x: Xid) {
    && s.c2s != [] && s.c2s[0] == Call(x) && x !in s.handed && !s.srv.eof
    && t == s.(c2s := s.c2s[1..], srv := t.srv, handed := s.handed[x := 1])
    && t.srv == s.srv.(rtab := t.srv.rtab, rq := t.srv.rq)
    && OnlyOld(s.srv, t.srv, x) && x in t.srv.rtab && t.srv.rtab[x] == Svccb(None, 0)
    && (forall y :: y in s.srv.rtab ==>
          (y in t.srv.rtab <==> s.srv.rtab[y].res.None? || s.srv.rtab[y].offset > 0))
  }

  lemma RecvUnknownRetain(s: State, t: State, x: Xid)
    requires OrderInv(s) && PrefixInv(s) && RetainInv(s) && UnknownEffect(s, t, x)
    ensures RetainInv(t)
  {
    TakeFirst(s.born, s.c2s);
    forall y | y in s.srv.rtab && y !in t.srv.rtab ensures y !in s.calls && !InFlight(s.c2s, y) {
      UnknownEvictsNoneNeeded(s, y);
    }
    assert Leftovers(t.calls, t.c2s, t.srv.rtab);
  }

  lemma RecvUnknownWatermark(s: State, t: State, x: Xid)
    requires NetInv(s.born, s.c2s) && WatermarkInv(s) && DownInv(s) && UnknownEffect(s, t, x)
    ensures WatermarkInv(t) && DownInv(t)
  {
    TakeFirst(s.born, s.c2s);
    assert forall y :: Off(t.srv.rtab, y) > 0 ==> Off(t.srv.rtab, y) == Off(s.srv.rtab, y);
    assert PongInv(t.c2s, t.consumed);
  }

  lemma RecvUnknownData(cfg: Config, s: State, t: State, x: Xid)
    requires OrderInv(s) && DataInv(cfg, s) && UnknownEffect(s, t, x)
    ensures OrderInv(t) && DataInv(cfg, t)
  {
    TakeFirst(s.born, s.c2s);
  }

  lemma RecvUnknown(cfg: Config, s: State)
    requires SysInv(cfg, s) && Enabled(cfg, s, ServerRecv) && s.c2s[0].Call? && s.c2s[0].xid !in s.handed
    ensures SysInv(cfg, Apply(cfg, s, ServerRecv))
  {
    var x := s.c2s[0].xid;
    var t := Apply(cfg, s, ServerRecv);
    UnknownCall(cfg, s.srv, x);
    assert t.s2c == s.s2c;
    assert UnknownEffect(s, t, x);
    RecvUnknownPrefix(s, t, x);
    RecvUnknownRetain(s, t, x);
    RecvUnknownWatermark(s, t, x);
    RecvUnknownData(cfg, s, t, x);
  }

  lemma RecvKnownUp(s: State, t: State, x: Xid)
    requires OrderInv(s) && PrefixInv(s) && s.c2s != [] && s.c2s[0] == Call(x)
    requires x in s.handed && s.srv.rtab.Keys == t.srv.rtab.Keys
    requires t == s.(c2s := s.c2s[1..], srv := t.srv, s2c := t.s2c)
    ensures OrderInv(t) && PrefixInv(t)
  {
    TakeFirst(s.born, s.c2s);
    assert forall i :: 0 <= i < |t.c2s| ==> t.c2s[i] == s.c2s[i + 1];
  }

  /** What the replay of an answered call does to the state. */
  ghost predicate ReplayEffect(s: State, t: State, x: Xid) {
    && s.c2s != [] && s.c2s[0] == Call(x) && x in s.srv.rtab && s.srv.rtab[x].res.Some?
    && t == s.(c2s := s.c2s[1..], srv := t.srv, s2c := t.s2c)
    && t.srv == s.srv.(rtab := t.srv.rtab, rq := t.srv.rq, sent := t.srv.sent)
    && t.srv.sent > s.srv.sent
    && t.srv.rtab == s.srv.rtab[x := Svccb(s.srv.rtab[x].res, t.srv.sent)]
    && t.s2c == s.s2c + [SMsg(s.sconn, Result(x, s.srv.rtab[x].res.value), t.srv.sent)]
  }

  lemma ReplayRetain(s: State, t: State, x: Xid)
    requires NetInv(s.born, s.c2s) && RetainInv(s) && WatermarkInv(s) && ReplayEffect(s, t, x)
    ensures RetainInv(t) && WatermarkInv(t)
  {
    TakeFirst(s.born, s.c2s);
    assert PongInv(t.c2s, t.consumed);
    assert forall y :: y != x ==> Off(t.srv.rtab, y) == Off(s.srv.rtab, y);
  }

  lemma ReplayDown(cfg: Config, s: State, t: State, x: Xid)
    requires DownInv(s) && DataInv(cfg, s) && ReplayEffect(s, t, x) && ReadOf(s) <= s.srv.sent
    ensures DownInv(t) && DataInv(cfg, t)
  {
    assert forall y :: y != x ==> Off(t.srv.rtab, y) == Off(s.srv.rtab, y);
  }

  /** A call that is being served already: its second copy is dropped. */
  lemma PendingAgain(s: State, t: State, x: Xid)
    requires NetInv(s.born, s.c2s) && RetainInv(s) && WatermarkInv(s) && s.c2s != [] && s.c2s[0] == Call(x)
    requires x in s.srv.rtab && s.srv.rtab[x].res.None?
    requires t == s.(c2s := s.c2s[1..])
    ensures RetainInv(t) && WatermarkInv(t)
  {
    TakeFirst(s.born, s.c2s);
    assert PongInv(t.c2s, t.consumed);
  }

  lemma ReplayHasEffect(cfg: Config, s: State, x: Xid)
    requires Inv(s.srv) && Enabled(cfg, s, ServerRecv) && s.c2s[0] == Call(x)
    requires x in s.srv.rtab && s.srv.rtab[x].res.Some? && |s.srv.rtab[x].res.value| <= cfg.pktsize
    ensures var t := Apply(cfg, s, ServerRecv); Inv(t.srv) && ReplayEffect(s, t, x)
  {
    KnownCall(cfg, s.srv, x);
  }

  lemma RecvKnown(cfg: Config, s: State)
    requires SysInv(cfg, s) && Enabled(cfg, s, ServerRecv) && s.c2s[0].Call? && s.c2s[0].xid in s.handed
    ensures SysInv(cfg, Apply(cfg, s, ServerRecv))
  {
    var x := s.c2s[0].xid;
    var t := Apply(cfg, s, ServerRecv);
    TakeFirst(s.born, s.c2s);
    if s.srv.rtab[x].res.None? {
      assert t == s.(c2s := s.c2s[1..]) by { assert t.s2c == s.s2c; }
      PendingAgain(s, t, x);
    } else {
      ReplayHasEffect(cfg, s, x);
      ReplayRetain(s, t, x);
      ReplayDown(cfg, s, t, x);
    }
    RecvKnownUp(s, t, x);
  }

  lemma ReplyEvictsNoneNeeded(s: State, y: Xid)
    requires OrderInv(s) && WatermarkInv(s)
    requires y in s.srv.rtab && 0 < Off(s.srv.rtab, y) < s.srv.acked
    ensures y !in s.calls && (!s.srv.eof ==> !InFlight(s.c2s, y))
  {
  }

  /** What the service's answer to a pending call does to the state. */
  ghost predicate ReplyEffect(s: State, t: State, x: Xid, data: Bytes) {
    && Pending(s, x)
    && t == s.(srv := t.srv, answers := s.answers[x := data], s2c := t.s2c)
    && Advances(s.srv, t.srv) && OnlyOld(s.srv, t.srv, x)
    && x in t.srv.rtab && t.srv.rtab[x] == Svccb(Some(data), t.srv.sent)
    && (s.srv.eof ==> t.srv.sent == s.srv.sent && t.s2c == s.s2c)
    && (!s.srv.eof ==>
          t.srv.sent > s.srv.sent && t.s2c == s.s2c + [SMsg(s.sconn, Result(x, data), t.srv.sent)])
    && (forall y :: y in s.srv.rtab && y !in t.srv.rtab ==> 0 < Off(s.srv.rtab, y) < s.srv.acked)
  }

  lemma ReplyRetain(s: State, t: State, x: Xid, data: Bytes)
    requires OrderInv(s) && RetainInv(s) && WatermarkInv(s) && ReplyEffect(s, t, x, data)
    ensures OrderInv(t) && RetainInv(t)
  {
    forall y | y in s.srv.rtab && y !in t.srv.rtab
      ensures y !in s.calls && (!s.srv.eof ==> !InFlight(s.c2s, y))
    {
      ReplyEvictsNoneNeeded(s, y);
    }
  }

  lemma ReplyWatermark(s: State, t: State, x: Xid, data: Bytes)
    requires WatermarkInv(s) && DownInv(s) && ReplyEffect(s, t, x, data)
    ensures WatermarkInv(t) && DownInv(t)
  {
    assert Off(t.srv.rtab, x) == t.srv.sent;
    assert forall y :: y != x && Off(t.srv.rtab, y) > 0 ==> Off(t.srv.rtab, y) == Off(s.srv.rtab, y);
  }

  lemma ReplyData(cfg: Config, s: State, t: State, x: Xid, data: Bytes)
    requires DataInv(cfg, s) && ReplyEffect(s, t, x, data) && |data| <= cfg.pktsize
    ensures DataInv(cfg, t)
  {
  }

  lemma ReplyHasEffect(cfg: Config, s: State, x: Xid, data: Bytes)
    requires Inv(s.srv) && s.srv.acked <= s.srv.sent
    requires cfg.sndbufsz <= 0 && Pending(s, x) && |data| <= cfg.pktsize
    ensures var t := Apply(cfg, s, Reply(x, data)); Inv(t.srv) && ReplyEffect(s, t, x, data)
  {
    AnsweredCall(cfg, s.srv, x, data);
  }

  lemma ReplyKeeps(cfg: Config, s: State, x: Xid, data: Bytes)
    requires SysInv(cfg, s) && cfg.sndbufsz <= 0 && Pending(s, x) && |data| <= cfg.pktsize
    ensures SysInv(cfg, Apply(cfg, s, Reply(x, data)))
  {
    var t := Apply(cfg, s, Reply(x, data));
    ReplyHasEffect(cfg, s, x, data);
    ReplyRetain(s, t, x, data);
    ReplyWatermark(s, t, x, data);
    ReplyData(cfg, s, t, x, data);
  }

  // ----- the promise, over whole runs

  lemma StepKeeps(cfg: Config, s: State, step: Step)
    requires SysInv(cfg, s) && Enabled(cfg, s, step) && Benign(cfg, step) && cfg.sndbufsz <= 0
    ensures SysInv(cfg, Apply(cfg, s, step))
  {
    match step
    case Issue(x) => IssueKeeps(cfg, s, x);
    case Cancel(x) => ForgetCall(cfg, s, x);
    case ClientRecv => ClientRecvKeeps(cfg, s);
    case Ack(p) => AckKeeps(cfg, s, p);
    case ClientEof => ClientEofKeeps(cfg, s);
    case ClientResume => ClientResumeKeeps(cfg, s);
    case ServerRecv =>
      if s.c2s[0].Pong? { RecvPong(cfg, s); }
      else if s.c2s[0].xid in s.handed { RecvKnown(cfg, s); }
      else { RecvUnknown(cfg, s); }
    case Reply(x, data) => ReplyKeeps(cfg, s, x, data);
    case OtherSend(len) => OtherSendKeeps(cfg, s, len);
    case ServerEof => ServerEofKeeps(cfg, s);
    case ServerResume(sent, acked) => ServerResumeKeeps(cfg, s, sent, acked);
  }

  ghost predicate BenignRun(cfg: Config, steps: seq<Step>) {
    forall i :: 0 <= i < |steps| ==> Benign(cfg, steps[i])
  }

  lemma {:induction false} RunKeeps(cfg: Config, s: State, steps: seq<Step>)
    requires SysInv(cfg, s) && BenignRun(cfg, steps) && cfg.sndbufsz <= 0
    ensures var r := RunFrom(cfg, s, steps); r.Some? ==> SysInv(cfg, r.value)
    decreases |steps|
  {
    if steps != [] && Enabled(cfg, s, steps[0]) {
      StepKeeps(cfg, s, steps[0]);
      RunKeeps(cfg, Apply(cfg, s, steps[0]), steps[1..]);
    }
  }

  /** No call was handed to the service twice. */
  ghost predicate AtMostOnce(s: State) {
    forall x :: x in s.handed ==> s.handed[x] == 1
  }

  /** A copy of a received call that reaches the server finds the entry of that call. */
  ghost predicate ReplaysRecognized(s: State) {
    !s.srv.eof && s.c2s != [] && s.c2s[0].Call? && s.c2s[0].xid in s.handed ==>
      s.c2s[0].xid in s.srv.rtab
  }

  /** Every reply on the wire, in the cache or delivered is the one answer the service gave. */
  ghost predicate SameBytes(s: State) {
    && (forall m :: m in s.s2c && m.what.Result? ==>
          m.what.xid in s.answers && m.what.data == s.answers[m.what.xid])
    && (forall x :: x in s.srv.rtab && s.srv.rtab[x].res.Some? ==>
          x in s.answers && s.srv.rtab[x].res.value == s.answers[x])
    && (forall x :: x in s.done ==> x in s.answers && s.done[x] == s.answers[x])
  }

  /** The invariant holds in every reachable state. */
  lemma Reachable(cfg: Config, steps: seq<Step>)
    requires BenignRun(cfg, steps) && cfg.sndbufsz <= 0
    ensures var r := Run(cfg, steps); r.Some? ==> SysInv(cfg, r.value)
  {
    assert SysInv(cfg, Init()) by {
      assert forall x :: !InFlight(Init().c2s, x);
    }
    RunKeeps(cfg, Init(), steps);
  }

  /** Over every run, whatever is lost and however often the two ends resume. */
  lemma Safety(cfg: Config, steps: seq<Step>)
    requires BenignRun(cfg, steps) && cfg.sndbufsz <= 0
    ensures var r := Run(cfg, steps);
      r.Some? ==> AtMostOnce(r.value) && ReplaysRecognized(r.value) && SameBytes(r.value)
  {
    Reachable(cfg, steps);
    var r := Run(cfg, steps);
    if r.Some? && r.value.c2s != [] && r.value.c2s[0].Call? {
      TakeFirst(r.value.born, r.value.c2s);
    }
  }

  // ----- the conditions are exact

  lemma {:induction false} RunConcat(cfg: Config, s: State, a: seq<Step>, b: seq<Step>)
    requires Wf(s.srv) && RunFrom(cfg, s, a).Some?
    ensures Wf(RunFrom(cfg, s, a).value.srv)
    ensures RunFrom(cfg, s, a + b) == RunFrom(cfg, RunFrom(cfg, s, a).value, b)
    decreases |a|
  {
    if a == [] {
      assert a + b == b;
    } else {
      ApplyWf(cfg, s, a[0]);
      RunConcat(cfg, Apply(cfg, s, a[0]), a[1..], b);
      assert (a + b)[1..] == a[1..] + b;
    }
  }

  /** The server receives n messages. */
  function Receive(n: nat): (r: seq<Step>)
    ensures |r| == n && forall i :: 0 <= i < n ==> r[i] == ServerRecv
  {
    seq(n, _ => ServerRecv)
  }

  function Times(handed: map<Xid, nat>, x: Xid): (n: nat) { if x in handed then handed[x] else 0 }

  /** Another message ahead of call x: x stays unknown, and is not handed over. */
  lemma OtherFirst(cfg: Config, s: State, x: Xid)
    requires Wf(s.srv) && !s.srv.eof && x !in s.srv.rtab && s.c2s != [] && s.c2s[0] != Call(x)
    ensures var t := Apply(cfg, s, ServerRecv);
      && Wf(t.srv) && !t.srv.eof && x !in t.srv.rtab && t.c2s == s.c2s[1..]
      && Times(t.handed, x) == Times(s.handed, x)
  {
    ApplyWf(cfg, s, ServerRecv);
    if s.c2s[0].Call? && s.c2s[0].xid !in s.srv.rtab {
      var u := s.srv.(rtab := s.srv.rtab[s.c2s[0].xid := Svccb(None, 0)]);
      assert Wf(u);
      EvictWhileKeeps(u, 0, 1);
    }
  }

  lemma ThenIt(cfg: Config, s: State, x: Xid)
    requires Wf(s.srv) && !s.srv.eof && x !in s.srv.rtab && s.c2s != [] && s.c2s[0] == Call(x)
    ensures Times(Apply(cfg, s, ServerRecv).handed, x) == Times(s.handed, x) + 1
  {
  }

  /** A call that the server does not know is handed over when it arrives. */
  lemma {:induction false} ReceiveUpTo(cfg: Config, s: State, x: Xid, k: nat)
    requires Wf(s.srv) && !s.srv.eof && x !in s.srv.rtab
    requires k < |s.c2s| && s.c2s[k] == Call(x) && Call(x) !in s.c2s[..k]
    ensures var r := RunFrom(cfg, s, Receive(k + 1));
      r.Some? && Times(r.value.handed, x) == Times(s.handed, x) + 1
    decreases k
  {
    ApplyWf(cfg, s, ServerRecv);
    var t := Apply(cfg, s, ServerRecv);
    assert Receive(k + 1)[1..] == Receive(k);
    if k == 0 {
      ThenIt(cfg, s, x);
      assert RunFrom(cfg, t, Receive(0)) == Some(t);
    } else {
      assert s.c2s[0] in s.c2s[..k] && s.c2s[1..][..k - 1] == s.c2s[..k][1..];
      OtherFirst(cfg, s, x);
      ReceiveUpTo(cfg, t, x, k - 1);
    }
  }

  /** If the table loses a received call that the client still waits for, then the next
      reconnection hands it to the service again. */
  lemma LostEntryRunsAgain(cfg: Config, s: State, x: Xid) returns (k: nat, steps: seq<Step>)
    requires Wf(s.srv) && s.cconn <= s.sconn
    requires x in s.calls && x in s.handed && x !in s.srv.rtab
    ensures k < |s.calls| && s.calls[k] == x
    ensures steps == [ServerResume(0, 0), ClientResume] + Receive(k + 1)
    ensures var r := RunFrom(cfg, s, steps); r.Some? && Times(r.value.handed, x) == s.handed[x] + 1
  {
    k := FirstOf(s.calls, x);
    var two := [ServerResume(0, 0), ClientResume];
    steps := two + Receive(k + 1);
    ApplyWf(cfg, s, two[0]);
    var s1 := Apply(cfg, s, two[0]);
    ApplyWf(cfg, s1, two[1]);
    var s2 := Apply(cfg, s1, two[1]);
    assert two[1..] == [ClientResume] && two[1..][1..] == [];
    assert RunFrom(cfg, s1, two[1..]) == Some(s2);
    RunConcat(cfg, s, two, Receive(k + 1));
    assert forall i :: 0 <= i < k ==> s2.c2s[i] == Call(s.calls[i]);
    ReceiveUpTo(cfg, s2, x, k);
  }

  lemma {:induction false} FirstOf(calls: seq<Xid>, x: Xid) returns (k: nat)
    requires x in calls
    ensures k < |calls| && calls[k] == x && x !in calls[..k]
  {
    if calls[0] == x {
      k := 0;
    } else {
      k := FirstOf(calls[1..], x);
      assert calls[..k + 1] == [calls[0]] + calls[1..][..k];
      k := k + 1;
    }
  }

  /** What a run may contain besides replies that fit. */
  datatype Policy = Policy(oversize: bool, drops: bool)

  predicate Permits(cfg: Config, pol: Policy, step: Step) {
    match step
    case Reply(_, data) => |data| <= cfg.pktsize || pol.oversize
    case Drop(_) => pol.drops
    case _ => true
  }

  ghost predicate PermitsRun(cfg: Config, pol: Policy, steps: seq<Step>) {
    forall i :: 0 <= i < |steps| ==> Permits(cfg, pol, steps[i])
  }

  ghost predicate AlwaysAtMostOnce(cfg: Config, pol: Policy) {
    forall steps :: PermitsRun(cfg, pol, steps) && Run(cfg, steps).Some? ==> AtMostOnce(Run(cfg, steps).value)
  }

  /** One more step at the end of a run. */
  lemma Extend(cfg: Config, steps: seq<Step>, s: State, step: Step)
    requires Run(cfg, steps) == Some(s)
    ensures Wf(s.srv)
    ensures Enabled(cfg, s, step) ==> Run(cfg, steps + [step]) == Some(Apply(cfg, s, step))
  {
    RunConcat(cfg, Init(), steps, [step]);
    if Enabled(cfg, s, step) {
      ApplyWf(cfg, s, step);
    }
  }

  /** The client has issued call 1 and the server has received it. */
  lemma OneReceived(cfg: Config) returns (steps: seq<Step>, s: State)
    ensures steps == [Issue(1), ServerRecv] && Run(cfg, steps) == Some(s)
    ensures s == Init().(born := map[1 := 0], calls := [1], handed := map[1 := 1],
                         srv := Srv(map[1 := Svccb(None, 0)], [], 0, 0, false))
  {
    Extend(cfg, [], Init(), Issue(1));
    s := Apply(cfg, Init(), Issue(1));
    assert s.c2s == [Call(1)];
    Extend(cfg, [Issue(1)], s, ServerRecv);
    s := Apply(cfg, s, ServerRecv);
    steps := [Issue(1)] + [ServerRecv];
  }

  /** The client issues call 2 and the server receives it: answered calls with offset 0 go. */
  lemma SecondReceived(cfg: Config, steps: seq<Step>, s: State) returns (more: seq<Step>, t: State)
    requires Run(cfg, steps) == Some(s) && Inv(s.srv) && !s.srv.eof
    requires s.calls == [1] && s.cconn == s.sconn && !s.ceof && s.c2s == []
    requires 2 !in s.born && 2 !in s.srv.rtab
    ensures more == steps + [Issue(2)] + [ServerRecv] && Run(cfg, more) == Some(t)
    ensures t.calls == [1, 2] && t.cconn == t.sconn && (1 in s.handed ==> 1 in t.handed && t.handed[1] == s.handed[1])
    ensures t.srv == IsReplay(cfg, s.srv, 2).srv
  {
    Extend(cfg, steps, s, Issue(2));
    var u := Apply(cfg, s, Issue(2));
    assert u.c2s == [Call(2)];
    Extend(cfg, steps + [Issue(2)], u, ServerRecv);
    t := Apply(cfg, u, ServerRecv);
    more := steps + [Issue(2)] + [ServerRecv];
  }

  /** Glue: a permitted run that loses call 1 extends to one that executes call 1 twice. */
  lemma LosesCall(cfg: Config, pol: Policy, steps: seq<Step>, s: State)
    requires PermitsRun(cfg, pol, steps) && Run(cfg, steps) == Some(s)
    requires s.cconn == s.sconn && s.calls != [] && s.calls[0] == 1
    requires 1 in s.handed && s.handed[1] == 1 && 1 !in s.srv.rtab
    ensures !AlwaysAtMostOnce(cfg, pol)
  {
    RunConcat(cfg, Init(), steps, []);
    var k, more := LostEntryRunsAgain(cfg, s, 1);
    RunConcat(cfg, Init(), steps, more);
    var all := steps + more;
    assert PermitsRun(cfg, pol, all);
    assert Run(cfg, all).value.handed[1] == 2;
    assert !AtMostOnce(Run(cfg, all).value);
  }

  /** A service that may drop calls: the dropped call is executed again. */
  lemma DropBreaks(cfg: Config, pol: Policy)
    requires pol.drops
    ensures !AlwaysAtMostOnce(cfg, pol)
  {
    var a, s := OneReceived(cfg);
    Extend(cfg, a, s, Drop(1));
    LosesCall(cfg, pol, a + [Drop(1)], Apply(cfg, s, Drop(1)));
  }

  /** Call 1 is answered by a reply the transport refuses; it gets offset 0. */
  lemma FirstRefused(cfg: Config, big: Bytes) returns (steps: seq<Step>, s: State)
    requires |big| > cfg.pktsize
    ensures steps == [Issue(1), ServerRecv] + [Reply(1, big)] && Run(cfg, steps) == Some(s)
    ensures s.calls == [1] && s.cconn == s.sconn && !s.ceof && s.c2s == [] && s.born == map[1 := 0]
    ensures s.handed == map[1 := 1] && Inv(s.srv) && !s.srv.eof
    ensures s.srv.rtab == map[1 := Svccb(Some(big), 0)]
  {
    var a, s0 := OneReceived(cfg);
    Extend(cfg, a, s0, Reply(1, big));
    AnsweredCall(cfg, s0.srv, 1, big);
    steps, s := a + [Reply(1, big)], Apply(cfg, s0, Reply(1, big));
  }

  /** The next new call evicts it. */
  lemma OversizeBreaks(cfg: Config, pol: Policy)
    requires pol.oversize
    ensures !AlwaysAtMostOnce(cfg, pol)
  {
    var big := seq(cfg.pktsize + 1, _ => 0 as byte);
    var a, s := FirstRefused(cfg, big);
    var b, u := SecondReceived(cfg, a, s);
    UnknownCall(cfg, s.srv, 2);
    LosesCall(cfg, pol, b, u);
  }

  /** k other messages leave the server. */
  function Others(k: nat): (r: seq<Step>)
    ensures |r| == k && forall i :: 0 <= i < k ==> r[i] == OtherSend(0)
  {
    seq(k, _ => OtherSend(0))
  }

  lemma {:induction false} SendOthers(cfg: Config, steps: seq<Step>, s: State, k: nat) returns (t: State)
    requires Run(cfg, steps) == Some(s) && !s.srv.eof && Inv(s.srv)
    ensures Run(cfg, steps + Others(k)) == Some(t) && Inv(t.srv)
    ensures t == s.(srv := s.srv.(sent := s.srv.sent + 4 * k), s2c := t.s2c)
  {
    if k == 0 {
      assert steps + Others(0) == steps;
      t := s;
    } else {
      var u := SendOthers(cfg, steps, s, k - 1);
      Extend(cfg, steps + Others(k - 1), u, OtherSend(0));
      t := Apply(cfg, u, OtherSend(0));
      assert steps + Others(k) == steps + Others(k - 1) + [OtherSend(0)];
    }
  }

  /** Call 1 is answered by a reply that ends at byte 4; call 2 is being served. */
  lemma FirstAnsweredSecondPending(cfg: Config, pol: Policy) returns (steps: seq<Step>, s: State)
    ensures Run(cfg, steps) == Some(s) && PermitsRun(cfg, pol, steps)
    ensures s.calls == [1, 2] && s.cconn == s.sconn && 1 in s.handed && s.handed[1] == 1
    ensures Inv(s.srv) && s.srv.acked == 0 && s.srv.sent == 4 && !s.srv.eof
    ensures s.srv.rtab == map[1 := Svccb(Some([]), 4), 2 := Svccb(None, 0)]
  {
    var a, s0 := OneReceived(cfg);
    Extend(cfg, a, s0, Reply(1, []));
    AnsweredCall(cfg, s0.srv, 1, []);
    var t := Apply(cfg, s0, Reply(1, []));
    assert t.srv.rtab == map[1 := Svccb(Some([]), 4)];
    steps, s := SecondReceived(cfg, a + [Reply(1, [])], t);
    UnknownCall(cfg, t.srv, 2);
  }

  lemma ReplyLoses(cfg: Config, pol: Policy, steps: seq<Step>, s: State)
    requires Run(cfg, steps) == Some(s) && PermitsRun(cfg, pol, steps) && Wf(s.srv) && Pending(s, 2)
    requires s.cconn == s.sconn && s.calls == [1, 2] && 1 in s.handed && s.handed[1] == 1
    requires 1 !in SendReply(cfg, s.srv, 2, []).srv.rtab
    ensures !AlwaysAtMostOnce(cfg, pol)
  {
    Extend(cfg, steps, s, Reply(2, []));
    LosesCall(cfg, pol, steps + [Reply(2, [])], Apply(cfg, s, Reply(2, [])));
  }

  /** Trusting the send-buffer size, whatever it is: enough further traffic makes the server
      forget a reply that the client never read. */
  lemma SendBufferBreaks(cfg: Config, pol: Policy)
    requires cfg.sndbufsz > 0
    ensures !AlwaysAtMostOnce(cfg, pol)
  {
    var b, u := FirstAnsweredSecondPending(cfg, pol);
    var v := SendOthers(cfg, b, u, cfg.sndbufsz);
    var c := b + Others(cfg.sndbufsz);
    LosesFirst(cfg, v.srv);
    ReplyLoses(cfg, pol, c, v);
  }

  /** Answering call 2 evicts call 1, whose reply ends at byte 4. */
  lemma LosesFirst(cfg: Config, s: Srv)
    requires Inv(s) && s.acked <= s.sent && cfg.sndbufsz > 0 && s.sent == 4 + 4 * cfg.sndbufsz && !s.eof
    requires 1 in s.rtab && s.rtab[1] == Svccb(Some([]), 4)
    requires 2 in s.rtab && s.rtab[2].res.None? && s.rtab.Keys == {1, 2}
    ensures 1 !in SendReply(cfg, s, 2, []).srv.rtab
  {
    assert 1 in s.rq;
    AnsweredCall(cfg, s, 2, []);
    AnsweredCallEvicts(cfg, s, 2, []);
  }

  /** Each call runs at most once in every run if and only if the server does not trust the
      send-buffer size, every reply fits the transport, and the service never drops a call. */
  lemma ExactConditions(cfg: Config, pol: Policy)
    ensures AlwaysAtMostOnce(cfg, pol) <==> cfg.sndbufsz <= 0 && !pol.oversize && !pol.drops
  {
    if cfg.sndbufsz > 0 {
      SendBufferBreaks(cfg, pol);
    } else if pol.oversize {
      OversizeBreaks(cfg, pol);
    } else if pol.drops {
      DropBreaks(cfg, pol);
    } else {
      forall steps | PermitsRun(cfg, pol, steps) && Run(cfg, steps).Some?
        ensures AtMostOnce(Run(cfg, steps).value)
      {
        Safety(cfg, steps);
      }
    }
  }
}
