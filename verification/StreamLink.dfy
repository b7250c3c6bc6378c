/**
 * A sender and a receiver joined by a byte stream (arpc/axprt_pipe.C): whatever is sent, however
 * much the kernel takes and returns, and whenever the receive callback is set or unset, the two
 * objects go through the steps of `StreamFraming.Conn`, so that what is proved of all its runs
 * holds of them.
 */
module StreamLink {
  import opened RpcTypes
  import opened StreamFraming

  /** What happens to the pair: a message is sent, of which the kernel takes `now` bytes at once and
      `later` in the output loop; output goes on; input arrives; the callback is set or unset. */
  datatype Action =
    | SendMsg(m: Msg, now: nat, later: nat)
    | MoreOutput(k: nat)
    | Arrive(n: nat, limit: nat)
    | SetCallback(on: bool, limit: nat)

  lemma {:induction false} RunJoin(pktsize: PktSize, c: Conn, a: seq<Step>, d: Conn, b: seq<Step>)
    requires RunFrom(pktsize, c, a) == Some(d)
    ensures RunFrom(pktsize, c, a + b) == RunFrom(pktsize, d, b)
    decreases |a|
  {
    if a == [] {
      assert a + b == b;
    } else {
      RunJoin(pktsize, Apply(pktsize, c, a[0]), a[1..], d, b);
      assert (a + b)[1..] == a[1..] + b;
    }
  }

  lemma OneMore(pktsize: PktSize, c: Conn, a: seq<Step>, d: Conn, step: Step)
    requires RunFrom(pktsize, c, a) == Some(d) && Enabled(pktsize, d, step)
    ensures RunFrom(pktsize, c, a + [step]) == Some(Apply(pktsize, d, step))
  {
    RunJoin(pktsize, c, a, d, [step]);
    assert [step][1..] == [];
  }

  /** What an action does to the connection; nothing if the state does not allow it. */
  ghost predicate Does(pktsize: PktSize, action: Action, c: Conn, d: Conn) {
    match action
    case SendMsg(m, now, later) =>
      if |m| > pktsize then d == c
      else Moves(pktsize, Apply(pktsize, c, Send(m)), Taken(|c.out|, |m| + 4, now, later), d)
    case MoreOutput(k) => Moves(pktsize, c, if k < |c.out| then k else |c.out|, d)
    case Arrive(n, limit) =>
      if Enabled(pktsize, c, Read(n, limit)) then d == Apply(pktsize, c, Read(n, limit)) else d == c
    case SetCallback(on, limit) =>
      if Enabled(pktsize, c, SetCb(on, limit)) then d == Apply(pktsize, c, SetCb(on, limit)) else d == c
  }

  /** `n` bytes of the queue go on the wire. */
  ghost predicate Moves(pktsize: PktSize, c: Conn, n: nat, d: Conn) {
    n <= |c.out| && d == Apply(pktsize, c, Write(n))
  }

  /** The messages of the actions that are not too long. */
  function Accepted(pktsize: PktSize, actions: seq<Action>): (ms: seq<Msg>) {
    if actions == [] then []
    else
      var last := actions[|actions| - 1];
      Accepted(pktsize, actions[..|actions| - 1]) + if last.SendMsg? && |last.m| <= pktsize then [last.m] else []
  }

  class Link {
    const pktsize: PktSize
    const tx: Sender
    const rx: Receiver
    var wire: Bytes            // written and not yet read
    var sent: seq<Msg>         // accepted by the sender
    var holds: bool            // every closing assertion so far was true

    ghost predicate Valid() {
      tx.pktsize == pktsize && rx.pktsize == pktsize
    }

    ghost function Abs(): (c: Conn)
      reads this, tx, rx
    {
      Conn(sent, tx.out, wire, rx.pktbuf, rx.cb, rx.delivered, rx.eof, holds)
    }

    constructor (pktsize: PktSize)
      ensures Valid() && this.pktsize == pktsize && fresh(tx) && fresh(rx) && Abs() == Start()
    {
      this.pktsize := pktsize;
      tx := new Sender(pktsize);
      rx := new Receiver(pktsize);
      wire, sent, holds := [], [], true;
    }

    /** A message that is too long is refused; another is a step `Send` and a step `Write`. */
    method SendMessage(m: Msg, now: nat, later: nat) returns (ok: bool, ghost n: nat)
      requires Valid()
      modifies this`wire, this`sent, tx
      ensures ok == (|m| <= pktsize) && (!ok ==> Abs() == old(Abs()))
      ensures ok ==> n == Taken(|old(tx.out)|, |m| + 4, now, later) <= |old(tx.out) + Record(m)|
      ensures ok ==> Abs() == Apply(pktsize, Apply(pktsize, old(Abs()), Send(m)), Write(n))
    {
      ghost var all := tx.out + Record(m);
      var written;
      ok, written := tx.SendV(m, now, later);
      n := |written|;
      if ok {
        assert written == all[..n] && tx.out == all[n..];
        wire := wire + written;
        sent := sent + [m];
      }
    }

    method Flush(k: nat) returns (ghost n: nat)
      requires Valid()
      modifies this`wire, tx`out
      ensures n == (if k < |old(tx.out)| then k else |old(tx.out)|) && Abs() == Apply(pktsize, old(Abs()), Write(n))
    {
      ghost var all := tx.out;
      var written := tx.Output(k);
      n := |written|;
      assert written == all[..n] && tx.out == all[n..];
      wire := wire + written;
    }

    method Arrives(n: nat, limit: nat)
      requires Valid() && Enabled(pktsize, Abs(), Read(n, limit))
      modifies this`wire, this`holds, rx
      ensures Abs() == Apply(pktsize, old(Abs()), Read(n, limit))
    {
      var chunk := wire[..n];
      wire := wire[n..];
      var h := rx.Input(chunk, limit);
      holds := holds && (rx.eof || h);
    }

    method Set(on: bool, limit: nat)
      requires Valid() && Enabled(pktsize, Abs(), SetCb(on, limit))
      modifies this`holds, rx
      ensures Abs() == Apply(pktsize, old(Abs()), SetCb(on, limit))
    {
      var some := |rx.pktbuf| > 0;
      ghost var buf := rx.pktbuf;
      var h := rx.SetRcb(on, limit);
      if on && some {
        holds := holds && (rx.eof || h);
      } else {
        assert buf == [] || !on;
      }
    }

    /**
     * Any sequence of actions; one that the state does not allow is left out.  The connection goes
     * through what the actions say, and what was sent is what they send.
     */
    method Run(actions: seq<Action>) returns (ghost steps: seq<Step>, ghost history: seq<Conn>)
      requires Valid() && Abs() == Start()
      modifies this, tx, rx
      ensures RunFrom(pktsize, Start(), steps) == Some(Abs()) && Lossless(Abs())
      ensures |history| == |actions| + 1 && history[0] == Start() && history[|actions|] == Abs()
      ensures forall i :: 0 <= i < |actions| ==> Does(pktsize, actions[i], history[i], history[i + 1])
      ensures sent == Accepted(pktsize, actions)
    {
      steps, history := [], [Abs()];
      for i := 0 to |actions|
        invariant RunFrom(pktsize, Start(), steps) == Some(Abs())
        invariant |history| == i + 1 && history[0] == Start() && history[i] == Abs()
        invariant forall j :: 0 <= j < i ==> Does(pktsize, actions[j], history[j], history[j + 1])
        invariant sent == Accepted(pktsize, actions[..i])
      {
        steps := Act(actions[i], steps);
        history := history + [Abs()];
        assert actions[..i + 1][..i] == actions[..i];
      }
      assert actions[..|actions|] == actions;
      Conservation(pktsize, steps);
    }

    method Act(action: Action, ghost before: seq<Step>) returns (ghost steps: seq<Step>)
      requires Valid() && RunFrom(pktsize, Start(), before) == Some(Abs())
      modifies this, tx, rx
      ensures RunFrom(pktsize, Start(), steps) == Some(Abs()) && Does(pktsize, action, old(Abs()), Abs())
      ensures sent == old(sent) + if action.SendMsg? && |action.m| <= pktsize then [action.m] else []
    {
      steps := before;
      ghost var c := Abs();
      match action
      case SendMsg(m, now, later) =>
        var ok;
        ghost var n;
        ok, n := SendMessage(m, now, later);
        if ok {
          OneMore(pktsize, Start(), before, c, Send(m));
          OneMore(pktsize, Start(), before + [Send(m)], Apply(pktsize, c, Send(m)), Write(n));
          steps := before + [Send(m)] + [Write(n)];
        }
      case MoreOutput(k) =>
        ghost var n := Flush(k);
        OneMore(pktsize, Start(), before, c, Write(n));
        steps := before + [Write(n)];
      case Arrive(n, limit) =>
        if rx.cb && !rx.eof && limit > 0 && n <= |wire| && |rx.pktbuf| + n <= pktsize + 4 {
          OneMore(pktsize, Start(), before, c, Read(n, limit));
          Arrives(n, limit);
          steps := before + [Read(n, limit)];
        }
      case SetCallback(on, limit) =>
        if !rx.eof && limit > 0 {
          OneMore(pktsize, Start(), before, c, SetCb(on, limit));
          Set(on, limit);
          steps := before + [SetCb(on, limit)];
        }
    }
  }
}
