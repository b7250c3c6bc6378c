/**
 * What acknowledging, cancelling and losing a connection mean for what comes later in the resumable
 * RPC system, in every configuration.
 */
module ResumableRpcEffects {
  import opened RpcTypes
  import opened AsrvResumable
  import opened ResumableRpc
  import opened ResumableRpcOrder

  lemma Three(cfg: Config, s: State, a: Step, b: Step, c: Step, t: State, u: State)
    requires Wf(s.srv) && Enabled(cfg, s, a) && t == Apply(cfg, s, a)
    requires Wf(t.srv) && Enabled(cfg, t, b) && u == Apply(cfg, t, b)
    requires Wf(u.srv) && Enabled(cfg, u, c)
    ensures RunFrom(cfg, s, [a, b, c]) == Some(Apply(cfg, u, c))
  {
    ApplyWf(cfg, u, c);
    assert [a, b, c][1..] == [b, c] && [b, c][1..] == [c] && [c][1..] == [];
    assert RunFrom(cfg, u, [c]) == Some(Apply(cfg, u, c));
    assert RunFrom(cfg, t, [b, c]) == RunFrom(cfg, u, [c]);
  }

  /**
   * Once an acknowledgment of what the client has read up to byte `p` has come through, the next
   * answer makes the server forget every reply that ends before `p`, unless one left over from an
   * earlier connection heads the queue.
   */
  lemma AcknowledgedGo(cfg: Config, s: State, p: nat, x: Xid, data: Bytes)
    requires QueueInv(s) && Attached(s) && !s.srv.eof && !s.ceof && s.c2s == [] && p <= s.consumed && Pending(s, x)
    ensures var r := RunFrom(cfg, s, [Ack(p), ServerRecv, Reply(x, data)]);
      && r.Some?
      && (LeftoverFirst(s.srv) ==> s.srv.rtab.Keys <= r.value.srv.rtab.Keys)
      && (!LeftoverFirst(s.srv) ==> forall y :: y in s.srv.rtab && s.srv.rtab[y].res.Some? ==>
            (s.srv.rtab[y].offset < p || s.srv.rtab[y].offset < s.srv.acked ==> y !in r.value.srv.rtab)
            && (cfg.sndbufsz <= 0 && p <= s.srv.rtab[y].offset && s.srv.acked <= s.srv.rtab[y].offset ==>
                  y in r.value.srv.rtab))
  {
    StepKeepsQueue(cfg, s, Ack(p));
    var t := Apply(cfg, s, Ack(p));
    assert t.c2s == [Pong(p)];
    StepKeepsQueue(cfg, t, ServerRecv);
    var u := Apply(cfg, t, ServerRecv);
    AnsweredCallEvicts(cfg, u.srv, x, data);
    Three(cfg, s, Ack(p), ServerRecv, Reply(x, data), t, u);
  }

  /** A call that is no longer waited for, and has no result, never gets one. */
  lemma {:induction false} NeverDelivered(cfg: Config, s: State, x: Xid, steps: seq<Step>)
    requires Wf(s.srv) && x in s.born && x !in s.calls && x !in s.done
    ensures var r := RunFrom(cfg, s, steps); r.Some? ==> x !in r.value.calls && x !in r.value.done
    decreases |steps|
  {
    if steps != [] && Enabled(cfg, s, steps[0]) {
      ApplyWf(cfg, s, steps[0]);
      NeverDelivered(cfg, Apply(cfg, s, steps[0]), x, steps[1..]);
    }
  }

  /** So no run delivers a result to a call after its cancellation. */
  lemma CancelIsFinal(cfg: Config, s: State, x: Xid, steps: seq<Step>)
    requires Wf(s.srv) && x in s.born && x in s.calls && x !in s.done
    ensures Enabled(cfg, s, Cancel(x)) && forall y :: y in s.calls && y != x ==> y in Apply(cfg, s, Cancel(x)).calls
    ensures var r := RunFrom(cfg, s, [Cancel(x)] + steps); r.Some? ==> x !in r.value.calls && x !in r.value.done
  {
    ApplyWf(cfg, s, Cancel(x));
    assert ([Cancel(x)] + steps)[1..] == steps;
    NeverDelivered(cfg, Apply(cfg, s, Cancel(x)), x, steps);
  }

  /** After its end of file the server receives nothing, and what it answers stays with it. */
  lemma ServerSilent(cfg: Config, s: State, x: Xid, data: Bytes)
    requires QueueInv(s) && Pending(s, x)
    ensures var t := Apply(cfg, s, ServerEof);
      && !Enabled(cfg, t, ServerRecv) && Enabled(cfg, t, Reply(x, data))
      && var u := Apply(cfg, t, Reply(x, data));
        u.s2c == s.s2c && x in u.srv.rtab && u.srv.rtab[x].res == Some(data)
  {
    AnsweredCall(cfg, Apply(cfg, s, ServerEof).srv, x, data);
  }

  /** After its end of file the client receives nothing, and calls made then wait for the next connection. */
  lemma ClientSilent(cfg: Config, s: State, x: Xid)
    requires Wf(s.srv) && x !in s.born
    ensures var t := Apply(cfg, s, ClientEof);
      && !Enabled(cfg, t, ClientRecv)
      && var u := Apply(cfg, t, Issue(x)); u.c2s == s.c2s && u.calls == s.calls + [x]
  {
  }
}
