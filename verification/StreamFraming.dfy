/**
 * Record marking on a byte stream (`axprt_pipe`, arpc/axprt_pipe.C): each message is preceded by
 * four bytes, its length with the top bit set (the last-fragment bit of section 11 of RFC 5531).
 * The sender may be able to write any part of what it has; the receiver may get the stream in
 * any chunks, and its callback may be unset and set again at any time.
 */
module StreamFraming {
  import opened RpcTypes
  import opened Powers
  import opened BigEndian

  /** Longest message that is sent, `pktsize`; the receive buffer holds 4 bytes more. */
  type PktSize = n: nat | 8 <= n < 0x8000_0000 witness 8

  // ----- the format

  lemma FirstWord(v: nat, rest: Bytes)
    requires v < TWO_TO_32
    ensures Unword((Word(v) + rest)[..4]) == v
  {
    WordUnword(v);
    assert (Word(v) + rest)[..4] == Word(v);
  }

  /** A message whose length fits the 31 bits of the marker. */
  type Msg = m: Bytes | |m| < 0x8000_0000

  ghost predicate Sendable(pktsize: PktSize, ms: seq<Msg>) {
    forall i :: 0 <= i < |ms| ==> |ms[i]| <= pktsize
  }

  /** A message as it goes on the wire. */
  function Record(m: Msg): (r: Bytes)
    ensures |r| == |m| + 4
  {
    Word(0x8000_0000 + |m|) + m
  }

  function Stream(ms: seq<Msg>): Bytes {
    if ms == [] then [] else Record(ms[0]) + Stream(ms[1..])
  }

  lemma {:induction false} StreamCat(a: seq<Msg>, b: seq<Msg>)
    ensures Stream(a + b) == Stream(a) + Stream(b)
  {
    if a == [] {
      assert a + b == b;
    } else {
      assert (a + b)[0] == a[0] && (a + b)[1..] == a[1..] + b;
      StreamCat(a[1..], b);
      assert Record(a[0]) + (Stream(a[1..]) + Stream(b)) == (Record(a[0]) + Stream(a[1..])) + Stream(b);
    }
  }

  // ----- taking packets out of the receive buffer

  datatype Parsed = More | Bad | Packet(m: Msg, rest: Bytes)

  /** arpc/axprt_pipe.C:300-323 without the callback; a zero word, a missing top bit and a
      length above pktsize break the connection. */
  function GetPkt(pktsize: PktSize, buf: Bytes): Parsed {
    if |buf| < 4 then More
    else
      var v := Unword(buf[..4]);
      if v < 0x8000_0000 || v - 0x8000_0000 > pktsize then Bad
      else
        var len := v - 0x8000_0000;
        if |buf| - 4 < len then More else Packet(buf[4..4 + len], buf[4 + len..])
  }

  /** What a receive buffer holds is told by its first word, `v`: too little of it, no record, or one. */
  lemma GetPktExact(pktsize: PktSize, buf: Bytes)
    ensures var p := GetPkt(pktsize, buf);
      if |buf| < 4 then p == More
      else
        var v := buf[0] as nat * 0x100_0000 + buf[1] as nat * 0x1_0000 + buf[2] as nat * 0x100 + buf[3] as nat;
        && (p == Bad <==> v < 0x8000_0000 || v > 0x8000_0000 + pktsize)
        && (p == More <==> 0x8000_0000 <= v <= 0x8000_0000 + pktsize && |buf| < 4 + (v - 0x8000_0000))
        && (p.Packet? ==> |p.m| == v - 0x8000_0000 && buf == buf[..4] + p.m + p.rest)
  {
    if |buf| >= 4 {
      UnwordWord(buf[..4]);
      NetworkOrder(Unword(buf[..4]), buf[..4]);
      assert buf == buf[..4] + buf[4..];
    }
  }

  /** What is delivered and what stays in the buffer when the callback unsets itself after
      `limit` packets. */
  datatype Drained = Drained(ms: seq<Msg>, rest: Bytes, bad: bool)

  function Drain(pktsize: PktSize, buf: Bytes, limit: nat): (d: Drained)
    ensures |d.ms| <= limit
    decreases limit
  {
    if limit == 0 then Drained([], buf, false)
    else
      match GetPkt(pktsize, buf)
      case More => Drained([], buf, false)
      case Bad => Drained([], buf, true)
      case Packet(m, rest) =>
        var d := Drain(pktsize, rest, limit - 1);
        Drained([m] + d.ms, d.rest, d.bad)
  }

  /** One packet is taken, `got` having been taken before. */
  lemma DrainTakes(pktsize: PktSize, buf: Bytes, limit: nat, m: Msg, rest: Bytes, got: seq<Msg>)
    requires limit > 0 && GetPkt(pktsize, buf) == Packet(m, rest)
    ensures var d, e := Drain(pktsize, buf, limit), Drain(pktsize, rest, limit - 1);
      got + d.ms == (got + [m]) + e.ms && d.rest == e.rest && d.bad == e.bad
  {
    Assoc(got, [m], Drain(pktsize, rest, limit - 1).ms);
  }

  /** Packets are taken until the limit, or the buffer begins with less than a record or with no record. */
  lemma {:induction false} DrainStops(pktsize: PktSize, buf: Bytes, limit: nat)
    ensures var d := Drain(pktsize, buf, limit);
      && (d.bad <==> |d.ms| < limit && GetPkt(pktsize, d.rest) == Bad)
      && (!d.bad && |d.ms| < limit ==> GetPkt(pktsize, d.rest) == More)
    decreases limit
  {
    if limit > 0 && GetPkt(pktsize, buf).Packet? {
      DrainStops(pktsize, GetPkt(pktsize, buf).rest, limit - 1);
    }
  }

  /** A buffer that begins with a whole record. */
  lemma GetPktRecord(pktsize: PktSize, m: Msg, rest: Bytes)
    requires |m| <= pktsize
    ensures GetPkt(pktsize, Record(m) + rest) == Packet(m, rest)
  {
    var buf := Record(m) + rest;
    FirstWord(0x8000_0000 + |m|, m + rest);
    assert buf == Word(0x8000_0000 + |m|) + (m + rest);
    assert buf[4..4 + |m|] == m && buf[4 + |m|..] == rest;
  }

  /** A buffer that ends within its first record. */
  lemma GetPktPartial(pktsize: PktSize, m: Msg, buf: Bytes)
    requires |m| <= pktsize && buf < Record(m)
    ensures GetPkt(pktsize, buf) == More
  {
    if |buf| >= 4 {
      var v := 0x8000_0000 + |m|;
      assert buf[..4] == Record(m)[..4] == Word(v);
      FirstWord(v, buf[4..]);
      assert buf == Word(v) + buf[4..];
    }
  }

  /** A prefix of r + s is a proper prefix of r, or r and a prefix of s. */
  lemma SplitPrefix(buf: Bytes, r: Bytes, s: Bytes)
    requires buf <= r + s
    ensures buf < r || (r <= buf && buf == r + buf[|r|..] && buf[|r|..] <= s)
  {
    if |buf| >= |r| {
      assert buf[..|r|] == (r + s)[..|r|] == r;
      assert buf[|r|..] == (r + s)[|r|..|buf|] == s[..|buf| - |r|];
    } else {
      assert buf == (r + s)[..|buf|] == r[..|buf|];
    }
  }

  /** `d` is a correct way to take packets out of `buf`, the beginning of the stream of `ms`. */
  ghost predicate DrainOk(buf: Bytes, ms: seq<Msg>, limit: nat, d: Drained) {
    && !d.bad && d.ms <= ms
    && buf == Stream(d.ms) + d.rest && d.rest <= Stream(ms[|d.ms|..])
    && (|d.ms| < limit ==> d.rest == [] || (|d.ms| < |ms| && |d.rest| < 4 + |ms[|d.ms|]|))
  }

  /** Nothing can be taken. */
  lemma DrainNone(pktsize: PktSize, buf: Bytes, ms: seq<Msg>, limit: nat)
    requires Sendable(pktsize, ms) && buf <= Stream(ms)
    requires limit == 0 || ms == [] || |buf| < |Record(ms[0])|
    ensures Drain(pktsize, buf, limit) == Drained([], buf, false)
    ensures DrainOk(buf, ms, limit, Drained([], buf, false))
  {
    assert ms[0..] == ms;
    if limit > 0 && ms != [] {
      SplitPrefix(buf, Record(ms[0]), Stream(ms[1..]));
      GetPktPartial(pktsize, ms[0], buf);
    }
  }

  lemma DrainRecord(pktsize: PktSize, m: Msg, tail: Bytes, limit: nat, e: Drained)
    requires |m| <= pktsize && limit > 0 && e == Drain(pktsize, tail, limit - 1)
    ensures Drain(pktsize, Record(m) + tail, limit) == Drained([m] + e.ms, e.rest, e.bad)
  {
    GetPktRecord(pktsize, m, tail);
  }

  /** One packet more is taken. */
  lemma DrainCons(m: Msg, rest: seq<Msg>, limit: nat, tail: Bytes, e: Drained)
    requires limit > 0 && DrainOk(tail, rest, limit - 1, e)
    ensures DrainOk(Record(m) + tail, [m] + rest, limit, Drained([m] + e.ms, e.rest, e.bad))
  {
    var ms, got := [m] + rest, [m] + e.ms;
    assert got[1..] == e.ms && ms[|got|..] == rest[|e.ms|..];
    Assoc(Record(m), Stream(e.ms), e.rest);
  }

  /** The buffer begins with the whole first record. */
  lemma FirstRecord(buf: Bytes, ms: seq<Msg>) returns (rest: seq<Msg>, tail: Bytes)
    requires ms != [] && buf <= Stream(ms) && |buf| >= |Record(ms[0])|
    ensures ms == [ms[0]] + rest && buf == Record(ms[0]) + tail && tail <= Stream(rest)
  {
    rest, tail := ms[1..], buf[|Record(ms[0])|..];
    SplitPrefix(buf, Record(ms[0]), Stream(rest));
  }

  /** Packets come out whole, in order, and nothing is lost or invented. */
  lemma {:induction false} DrainStream(pktsize: PktSize, buf: Bytes, ms: seq<Msg>, limit: nat) returns (d: Drained)
    requires Sendable(pktsize, ms) && buf <= Stream(ms)
    ensures d == Drain(pktsize, buf, limit) && DrainOk(buf, ms, limit, d)
    decreases limit
  {
    if limit == 0 || ms == [] || |buf| < |Record(ms[0])| {
      d := Drained([], buf, false);
      DrainNone(pktsize, buf, ms, limit);
    } else {
      var rest, tail := FirstRecord(buf, ms);
      var e := DrainStream(pktsize, tail, rest, limit - 1);
      d := Drained([ms[0]] + e.ms, e.rest, e.bad);
      DrainRecord(pktsize, ms[0], tail, limit, e);
      DrainCons(ms[0], rest, limit, tail, e);
    }
  }

  /** How much the kernel takes of a record of `n` bytes behind `queued` ones: if there are none, up to
      `now` bytes at once, and then up to `later`. */
  function Taken(queued: nat, n: nat, now: nat, later: nat): (k: nat) {
    var first := if queued > 0 then 0 else if now < n then now else n;
    if later < queued + n - first then first + later else queued + n
  }

  // ----- the two ends, updated in place

  class Sender {
    const pktsize: PktSize
    var out: Bytes             // queued, not yet written
    var rawBytesSent: nat

    constructor (pktsize: PktSize)
      ensures this.pktsize == pktsize && out == [] && rawBytesSent == 0
    {
      this.pktsize, out, rawBytesSent := pktsize, [], 0;
    }

    /** arpc/axprt_pipe.C:183-226.  The kernel takes `now` bytes of the first write, if there is
        one, and `later` bytes in the output loop. */
    method SendV(m: Msg, now: nat, later: nat) returns (ok: bool, written: Bytes)
      modifies this
      ensures ok == (|m| <= pktsize)
      ensures !ok ==> written == [] && out == old(out) && rawBytesSent == old(rawBytesSent)
      ensures ok ==> written + out == old(out) + Record(m) && rawBytesSent == old(rawBytesSent) + |m| + 4
      ensures ok ==> |written| == Taken(|old(out)|, |m| + 4, now, later)
      ensures ok && out != [] ==> |written| == later + if old(out) == [] then now else 0
    {
      written := [];
      if |m| > pktsize {
        return false, written;
      }
      rawBytesSent := rawBytesSent + |m| + 4;
      var header := Word(0x8000_0000 + |m|);
      if out == [] {
        var v := header + m;
        var skip := if now < |v| then now else |v|;
        written := v[..skip];
        out := v[skip..];
      } else {
        out := out + header;
        out := out + m;
      }
      ghost var before, first := out, written;
      assert first + before == old(out) + Record(m);
      var more := Output(later);
      assert first + (more + out) == (first + more) + out;
      return true, written + more;
    }

    /** arpc/axprt_pipe.C:228-262. */
    method Output(k: nat) returns (written: Bytes)
      modifies this`out
      ensures written + out == old(out) && |written| == if k < |old(out)| then k else |old(out)|
    {
      var n := if k < |out| then k else |out|;
      written := out[..n];
      out := out[n..];
    }
  }

  class Receiver {
    const pktsize: PktSize
    var pktbuf: Bytes          // the first pktlen bytes of the buffer
    var cb: bool               // a receive callback is set
    var eof: bool
    var delivered: seq<Msg>

    constructor (pktsize: PktSize)
      ensures this.pktsize == pktsize && pktbuf == [] && !cb && !eof && delivered == []
    {
      this.pktsize, pktbuf, cb, eof, delivered := pktsize, [], false, false, [];
    }

    /** arpc/axprt_pipe.C:371-398.  The callback unsets itself after `limit` packets, if that many
        arrive.  `holds` is the truth of the closing assertion. */
    method CallGetPkt(limit: nat) returns (holds: bool)
      requires limit > 0
      modifies this
      ensures var d := Drain(pktsize, old(pktbuf), if old(cb) then limit else 0);
        && delivered == old(delivered) + d.ms && pktbuf == d.rest
        && cb == (old(cb) && |d.ms| < limit) && eof == (old(eof) || d.bad)
        && (!d.bad ==> holds == (|d.rest| < pktsize))
    {
      ghost var on, d := cb, Drain(pktsize, pktbuf, if cb then limit else 0);
      ghost var got: seq<Msg> := [];
      var left: nat := limit;
      while cb
        invariant var e := Drain(pktsize, pktbuf, if on then left else 0);
          d.ms == got + e.ms && d.rest == e.rest && d.bad == e.bad
        invariant delivered == old(delivered) + got && eof == old(eof)
        invariant |got| + left == limit && on == old(cb) && cb == (on && left > 0)
        decreases left
      {
        match GetPkt(pktsize, pktbuf) {
          case More =>
            return |pktbuf| < pktsize;
          case Bad =>
            eof := true;
            return false;
          case Packet(m, rest) =>
            DrainTakes(pktsize, pktbuf, left, m, rest, got);
            pktbuf := rest;
            delivered := delivered + [m];
            got := got + [m];
            left := left - 1;
            if left == 0 {
              cb := false;
            }
        }
      }
      holds := |pktbuf| < pktsize;
    }

    /** arpc/axprt_pipe.C:331-353, for a successful read of `chunk`. */
    method Input(chunk: Bytes, limit: nat) returns (holds: bool)
      requires limit > 0 && |pktbuf| + |chunk| <= pktsize + 4
      modifies this
      ensures var d := Drain(pktsize, old(pktbuf) + chunk, if old(cb) then limit else 0);
        && delivered == old(delivered) + d.ms && pktbuf == d.rest
        && cb == (old(cb) && |d.ms| < limit) && eof == (old(eof) || d.bad)
        && (!d.bad ==> holds == (|d.rest| < pktsize))
    {
      pktbuf := pktbuf + chunk;
      holds := CallGetPkt(limit);
    }

    /** arpc/axprt_pipe.C:72-88, while the connection is open. */
    method SetRcb(on: bool, limit: nat) returns (holds: bool)
      requires limit > 0
      modifies this
      ensures var d := Drain(pktsize, old(pktbuf), if on then limit else 0);
        && delivered == old(delivered) + d.ms && pktbuf == d.rest
        && cb == (on && |d.ms| < limit) && eof == (old(eof) || d.bad)
        && (!d.bad && on && old(pktbuf) != [] ==> holds == (|d.rest| < pktsize))
    {
      cb := on;
      holds := true;
      if cb && |pktbuf| > 0 {
        holds := CallGetPkt(limit);
      }
    }
  }

  // ----- a connection: any partial writes, any chunks, any (un)setting of the callback

  datatype Conn = Conn(
    sent: seq<Msg>,            // accepted by the sender
    out: Bytes,                // queued at the sender
    wire: Bytes,               // written, not yet read
    buf: Bytes,                // in the receive buffer
    cb: bool,
    delivered: seq<Msg>,       // handed to the receiver's callback
    bad: bool,                 // the receiver gave up on the stream
    holds: bool)               // every closing assertion so far was true

  datatype Step = Send(m: Msg) | Write(n: nat) | Read(n: nat, limit: nat) | SetCb(on: bool, limit: nat)

  function Start(): Conn { Conn([], [], [], [], false, [], false, true) }

  predicate Enabled(pktsize: PktSize, c: Conn, step: Step) {
    match step
    case Send(m) => |m| <= pktsize
    case Write(n) => n <= |c.out|
    case Read(n, limit) => c.cb && !c.bad && limit > 0 && n <= |c.wire| && |c.buf| + n <= pktsize + 4
    case SetCb(_, limit) => !c.bad && limit > 0
  }

  /** The packet loop on buffer `b`, with callback `on`. */
  function Deliver(pktsize: PktSize, c: Conn, b: Bytes, on: bool, limit: nat): Conn {
    var d := Drain(pktsize, b, if on then limit else 0);
    c.(buf := d.rest, delivered := c.delivered + d.ms, cb := on && |d.ms| < limit, bad := d.bad,
       holds := c.holds && (d.bad || |d.rest| < pktsize))
  }

  function Apply(pktsize: PktSize, c: Conn, step: Step): Conn
    requires Enabled(pktsize, c, step)
  {
    match step
    case Send(m) => c.(sent := c.sent + [m], out := c.out + Record(m))
    case Write(n) => c.(out := c.out[n..], wire := c.wire + c.out[..n])
    case Read(n, limit) => Deliver(pktsize, c.(wire := c.wire[n..]), c.buf + c.wire[..n], c.cb, limit)
    case SetCb(on, limit) => if on && c.buf != [] then Deliver(pktsize, c, c.buf, on, limit) else c.(cb := on)
  }

  function RunFrom(pktsize: PktSize, c: Conn, steps: seq<Step>): Option<Conn>
    decreases |steps|
  {
    if steps == [] then Some(c)
    else if !Enabled(pktsize, c, steps[0]) then None
    else RunFrom(pktsize, Apply(pktsize, c, steps[0]), steps[1..])
  }

  /** Delivered, buffered, in transit and queued: together exactly what was sent. */
  ghost predicate Lossless(c: Conn) {
    && Stream(c.delivered) + (c.buf + (c.wire + c.out)) == Stream(c.sent)
    && c.delivered <= c.sent && !c.bad
    && c.buf + (c.wire + c.out) == Stream(c.sent[|c.delivered|..])
  }

  ghost predicate ConnInv(pktsize: PktSize, c: Conn) {
    Sendable(pktsize, c.sent) && c.delivered <= c.sent && !c.bad
    && c.buf + (c.wire + c.out) == Stream(c.sent[|c.delivered|..])
  }

  lemma SendKeeps(pktsize: PktSize, c: Conn, m: Msg)
    requires ConnInv(pktsize, c) && |m| <= pktsize
    ensures ConnInv(pktsize, Apply(pktsize, c, Send(m)))
  {
    var t := Apply(pktsize, c, Send(m));
    var rest := c.sent[|c.delivered|..];
    assert t.sent[|t.delivered|..] == rest + [m];
    StreamCat(rest, [m]);
    assert Stream([m]) == Record(m);
    assert t.buf + (t.wire + t.out) == (c.buf + (c.wire + c.out)) + Record(m);
  }

  lemma Regroup(head: Bytes, tail: Bytes, b: Bytes, rest: Bytes, all: Bytes, others: Bytes)
    requires b == head + tail && b + rest == all && all == head + others
    ensures tail + rest == others
  {
    assert all == head + (tail + rest);
    assert tail + rest == all[|head|..] == others;
  }

  lemma PrefixStep(sent: seq<Msg>, delivered: seq<Msg>, ms: seq<Msg>)
    requires delivered <= sent && ms <= sent[|delivered|..]
    ensures delivered + ms <= sent && sent[|delivered + ms|..] == sent[|delivered|..][|ms|..]
  {
    var todo := sent[|delivered|..];
    assert sent == delivered + todo && todo == ms + todo[|ms|..];
    assert sent == (delivered + ms) + todo[|ms|..];
  }

  /** Draining the front of a stream leaves a stream. */
  lemma DrainRest(pktsize: PktSize, b: Bytes, rest: Bytes, todo: seq<Msg>, n: nat)
    requires Sendable(pktsize, todo) && b + rest == Stream(todo)
    ensures var d := Drain(pktsize, b, n);
      !d.bad && d.ms <= todo && d.rest + rest == Stream(todo[|d.ms|..])
  {
    assert b <= Stream(todo);
    var d := DrainStream(pktsize, b, todo, n);
    var others := todo[|d.ms|..];
    assert todo == d.ms + others;
    StreamCat(d.ms, others);
    Regroup(Stream(d.ms), d.rest, b, rest, Stream(todo), Stream(others));
  }

  lemma DeliverKeeps(pktsize: PktSize, c: Conn, b: Bytes, rest: Bytes, on: bool, limit: nat)
    requires Sendable(pktsize, c.sent) && c.delivered <= c.sent && !c.bad
    requires rest == c.wire + c.out && b + rest == Stream(c.sent[|c.delivered|..])
    ensures ConnInv(pktsize, Deliver(pktsize, c, b, on, limit))
  {
    var n := if on then limit else 0;
    DrainRest(pktsize, b, rest, c.sent[|c.delivered|..], n);
    PrefixStep(c.sent, c.delivered, Drain(pktsize, b, n).ms);
  }

  lemma StepKeeps(pktsize: PktSize, c: Conn, step: Step)
    requires ConnInv(pktsize, c) && Enabled(pktsize, c, step)
    ensures ConnInv(pktsize, Apply(pktsize, c, step))
  {
    match step
    case Send(m) => SendKeeps(pktsize, c, m);
    case Write(n) =>
      assert (c.wire + c.out[..n]) + c.out[n..] == c.wire + c.out;
    case Read(n, limit) =>
      assert (c.buf + c.wire[..n]) + (c.wire[n..] + c.out) == c.buf + (c.wire + c.out);
      DeliverKeeps(pktsize, c.(wire := c.wire[n..]), c.buf + c.wire[..n], c.wire[n..] + c.out, c.cb, limit);
    case SetCb(on, limit) =>
      DeliverKeeps(pktsize, c, c.buf, c.wire + c.out, on, limit);
  }

  lemma {:induction false} RunKeeps(pktsize: PktSize, c: Conn, steps: seq<Step>)
    requires ConnInv(pktsize, c)
    ensures var r := RunFrom(pktsize, c, steps); r.Some? ==> ConnInv(pktsize, r.value)
    decreases |steps|
  {
    if steps != [] && Enabled(pktsize, c, steps[0]) {
      StepKeeps(pktsize, c, steps[0]);
      RunKeeps(pktsize, Apply(pktsize, c, steps[0]), steps[1..]);
    }
  }

  /** Over every run nothing is lost, duplicated, reordered or altered. */
  lemma Conservation(pktsize: PktSize, steps: seq<Step>)
    ensures var r := RunFrom(pktsize, Start(), steps); r.Some? ==> Lossless(r.value)
  {
    RunKeeps(pktsize, Start(), steps);
    var r := RunFrom(pktsize, Start(), steps);
    if r.Some? {
      var c := r.value;
      assert c.sent == c.delivered + c.sent[|c.delivered|..];
      StreamCat(c.delivered, c.sent[|c.delivered|..]);
    }
  }

  /** The callback of a connection gets at most `limit` packets, and stays set if it gets fewer; the
      connection is given up if what is then in the buffer is no record, and no bytes are read after that. */
  lemma ReadExactly(pktsize: PktSize, c: Conn, n: nat, limit: nat)
    requires Enabled(pktsize, c, Read(n, limit))
    ensures var t := Apply(pktsize, c, Read(n, limit));
      && c.delivered <= t.delivered && |t.delivered| <= |c.delivered| + limit
      && (t.cb <==> |t.delivered| < |c.delivered| + limit)
      && (t.bad <==> t.cb && GetPkt(pktsize, t.buf) == Bad)
      && (t.bad ==> forall k, l :: !Enabled(pktsize, t, Read(k, l)))
  {
    DrainStops(pktsize, c.buf + c.wire[..n], limit);
  }

  // ----- nothing is held back

  /** The messages that the steps send. */
  function Sends(steps: seq<Step>): (ms: seq<Msg>) {
    if steps == [] then [] else (if steps[0].Send? then [steps[0].m] else []) + Sends(steps[1..])
  }

  /** What was sent is what the steps say, in their order. */
  lemma {:induction false} SentExactly(pktsize: PktSize, c: Conn, steps: seq<Step>)
    ensures var r := RunFrom(pktsize, c, steps); r.Some? ==> r.value.sent == c.sent + Sends(steps)
    decreases |steps|
  {
    if steps != [] && Enabled(pktsize, c, steps[0]) {
      SentExactly(pktsize, Apply(pktsize, c, steps[0]), steps[1..]);
      Assoc(c.sent, if steps[0].Send? then [steps[0].m] else [], Sends(steps[1..]));
    }
  }

  /** The buffer holds less than the next message's record. */
  ghost predicate Short(c: Conn) {
    c.buf == [] || (|c.delivered| < |c.sent| && |c.buf| < 4 + |c.sent[|c.delivered|]|)
  }

  /** A callback that takes any number of packets leaves no whole record in the buffer. */
  lemma DeliverDrains(pktsize: PktSize, c: Conn, b: Bytes, rest: Bytes, limit: nat)
    requires Sendable(pktsize, c.sent) && c.delivered <= c.sent && !c.bad && limit > |c.sent|
    requires rest == c.wire + c.out && b + rest == Stream(c.sent[|c.delivered|..])
    ensures var d := Deliver(pktsize, c, b, true, limit);
      ConnInv(pktsize, d) && d.cb && Short(d) && d.wire == c.wire && d.out == c.out && d.sent == c.sent
  {
    var todo := c.sent[|c.delivered|..];
    DeliverKeeps(pktsize, c, b, rest, true, limit);
    assert b <= Stream(todo);
    var e := DrainStream(pktsize, b, todo, limit);
    PrefixStep(c.sent, c.delivered, e.ms);
    assert |e.ms| < |todo| ==> todo[|e.ms|] == c.sent[|c.delivered| + |e.ms|];
  }

  /** What is left to read is read byte by byte. */
  function ReadAll(n: nat, limit: nat): (steps: seq<Step>) {
    if n == 0 then [] else [Read(1, limit)] + ReadAll(n - 1, limit)
  }

  lemma StreamBegins(ms: seq<Msg>)
    ensures ms == [] || |Stream(ms)| >= 4 + |ms[0]|
  {
  }

  lemma {:induction false} ReadsAll(pktsize: PktSize, c: Conn, limit: nat) returns (d: Conn)
    requires ConnInv(pktsize, c) && c.cb && Short(c) && c.out == [] && limit > |c.sent|
    ensures RunFrom(pktsize, c, ReadAll(|c.wire|, limit)) == Some(d) && d.delivered == d.sent == c.sent
    decreases |c.wire|
  {
    if c.wire == [] {
      d := c;
      ReadsNone(pktsize, c);
    } else {
      ReadsOne(pktsize, c, limit);
      d := ReadsAll(pktsize, Apply(pktsize, c, Read(1, limit)), limit);
      assert ReadAll(|c.wire|, limit)[1..] == ReadAll(|c.wire| - 1, limit);
    }
  }

  lemma ReadsNone(pktsize: PktSize, c: Conn)
    requires ConnInv(pktsize, c) && Short(c) && c.out == [] && c.wire == []
    ensures c.delivered == c.sent
  {
    assert c.buf + (c.wire + c.out) == c.buf;
    StreamBegins(c.sent[|c.delivered|..]);
  }

  lemma ReadsOne(pktsize: PktSize, c: Conn, limit: nat)
    requires ConnInv(pktsize, c) && c.cb && Short(c) && c.out == [] && limit > |c.sent| && c.wire != []
    ensures Enabled(pktsize, c, Read(1, limit))
    ensures var u := Apply(pktsize, c, Read(1, limit));
      ConnInv(pktsize, u) && u.cb && Short(u) && u.out == [] && u.sent == c.sent && |u.wire| == |c.wire| - 1
  {
    var b, e := c.buf + c.wire[..1], c.(wire := c.wire[1..]);
    assert b + (e.wire + e.out) == c.buf + (c.wire + c.out);
    DeliverDrains(pktsize, e, b, e.wire + e.out, limit);
  }

  /**
   * From every state of every run: once a callback is set that does not unset itself, the kernel takes
   * what is queued, and the bytes arrive, be it one by one, every message sent has been delivered.
   */
  lemma AllDelivered(pktsize: PktSize, steps: seq<Step>, c: Conn, limit: nat) returns (more: seq<Step>, d: Conn)
    requires RunFrom(pktsize, Start(), steps) == Some(c) && limit > |c.sent|
    ensures more == [SetCb(true, limit)] + [Write(|c.out|)] + ReadAll(|c.wire| + |c.out|, limit)
    ensures RunFrom(pktsize, c, more) == Some(d) && d.delivered == d.sent == c.sent
  {
    RunKeeps(pktsize, Start(), steps);
    var u, v := Opened(pktsize, c, limit);
    d := ReadsAll(pktsize, v, limit);
    var last := ReadAll(|c.wire| + |c.out|, limit);
    more := [SetCb(true, limit)] + [Write(|c.out|)] + last;
    TwoThen(pktsize, c, SetCb(true, limit), u, Write(|c.out|), v, last);
  }

  /** The callback is set, and the queue written out. */
  lemma Opened(pktsize: PktSize, c: Conn, limit: nat) returns (u: Conn, v: Conn)
    requires ConnInv(pktsize, c) && limit > |c.sent|
    ensures Enabled(pktsize, c, SetCb(true, limit)) && u == Apply(pktsize, c, SetCb(true, limit))
    ensures Enabled(pktsize, u, Write(|c.out|)) && v == Apply(pktsize, u, Write(|c.out|))
    ensures ConnInv(pktsize, v) && v.cb && Short(v) && v.out == [] && v.sent == c.sent && |v.wire| == |c.wire| + |c.out|
  {
    u := Apply(pktsize, c, SetCb(true, limit));
    if c.buf != [] {
      DeliverDrains(pktsize, c, c.buf, c.wire + c.out, limit);
    }
    StepKeeps(pktsize, c, SetCb(true, limit));
    StepKeeps(pktsize, u, Write(|u.out|));
    v := Apply(pktsize, u, Write(|u.out|));
  }

  lemma TwoThen(pktsize: PktSize, c: Conn, a: Step, u: Conn, b: Step, v: Conn, rest: seq<Step>)
    requires Enabled(pktsize, c, a) && u == Apply(pktsize, c, a) && Enabled(pktsize, u, b) && v == Apply(pktsize, u, b)
    ensures RunFrom(pktsize, c, [a] + [b] + rest) == RunFrom(pktsize, v, rest)
  {
    var more := [a] + [b] + rest;
    assert more[1..] == [b] + rest && more[1..][1..] == rest;
    assert RunFrom(pktsize, u, more[1..]) == RunFrom(pktsize, v, more[1..][1..]);
  }

  // ----- the closing assertion, pktlen < pktsize

  predicate GoodLength(pktsize: PktSize, n: nat) { 0 < n <= pktsize - 4 }

  ghost predicate GoodInv(pktsize: PktSize, c: Conn) {
    && ConnInv(pktsize, c) && c.holds && |c.buf| < pktsize
    && (forall i :: 0 <= i < |c.sent| ==> GoodLength(pktsize, |c.sent[i]|))
  }

  lemma DeliverHolds(pktsize: PktSize, b: Bytes, rest: Bytes, todo: seq<Msg>, limit: nat)
    requires b + rest == Stream(todo) && limit > 0 && |b| <= pktsize + 4
    requires forall i :: 0 <= i < |todo| ==> GoodLength(pktsize, |todo[i]|)
    ensures |Drain(pktsize, b, limit).rest| < pktsize
  {
    assert b <= Stream(todo);
    var d := DrainStream(pktsize, b, todo, limit);
    if |d.ms| == limit {
      assert d.ms[0] == todo[0];
      assert |Stream(d.ms)| >= |Record(d.ms[0])|;
    }
  }

  lemma StepHolds(pktsize: PktSize, c: Conn, step: Step)
    requires GoodInv(pktsize, c) && Enabled(pktsize, c, step)
    requires step.Send? ==> GoodLength(pktsize, |step.m|)
    ensures GoodInv(pktsize, Apply(pktsize, c, step))
  {
    StepKeeps(pktsize, c, step);
    match step
    case Read(n, limit) =>
      var b, rest := c.buf + c.wire[..n], c.wire[n..] + c.out;
      assert b + rest == c.buf + (c.wire + c.out);
      DeliverHolds(pktsize, b, rest, c.sent[|c.delivered|..], limit);
    case SetCb(on, limit) =>
      DeliverHolds(pktsize, c.buf, c.wire + c.out, c.sent[|c.delivered|..], limit);
    case _ =>
  }

  /** Every message of the run has an admissible length. */
  ghost predicate Lengths(ok: nat -> bool, steps: seq<Step>) {
    forall i :: 0 <= i < |steps| && steps[i].Send? ==> ok(|steps[i].m|)
  }

  ghost predicate AlwaysHolds(pktsize: PktSize, ok: nat -> bool) {
    forall steps :: Lengths(ok, steps) && RunFrom(pktsize, Start(), steps).Some? ==>
      RunFrom(pktsize, Start(), steps).value.holds
  }

  lemma {:induction false} RunHolds(pktsize: PktSize, ok: nat -> bool, c: Conn, steps: seq<Step>)
    requires GoodInv(pktsize, c) && Lengths(ok, steps)
    requires forall n: nat :: ok(n) && n <= pktsize ==> GoodLength(pktsize, n)
    ensures var r := RunFrom(pktsize, c, steps); r.Some? ==> r.value.holds
    decreases |steps|
  {
    if steps != [] && Enabled(pktsize, c, steps[0]) {
      StepHolds(pktsize, c, steps[0]);
      RunHolds(pktsize, ok, Apply(pktsize, c, steps[0]), steps[1..]);
    }
  }

  /** A message within 3 bytes of the limit or at it: all but its last byte overfill the bound. */
  lemma LongBreaks(pktsize: PktSize, ok: nat -> bool, n: nat)
    requires ok(n) && pktsize - 4 < n <= pktsize
    ensures !AlwaysHolds(pktsize, ok)
  {
    var m: Msg := seq(n, _ => 0 as byte);
    var steps := [Send(m), Write(n + 3), SetCb(true, 1), Read(n + 3, 1)];
    var c1 := Apply(pktsize, Start(), steps[0]);
    var c2 := Apply(pktsize, c1, steps[1]);
    assert c2.wire == Record(m)[..n + 3];
    var c3 := Apply(pktsize, c2, steps[2]);
    var b := [] + c3.wire[..n + 3];
    assert b == Record(m)[..n + 3];
    GetPktPartial(pktsize, m, b);
    var c4 := Apply(pktsize, c3, steps[3]);
    assert Drain(pktsize, b, 1) == Drained([], b, false);
    assert !c4.holds;
    RunOne(pktsize, c3, steps[3..], c4);
    RunOne(pktsize, c2, steps[2..], c3);
    RunOne(pktsize, c1, steps[1..], c2);
    RunOne(pktsize, Start(), steps, c1);
    assert Lengths(ok, steps);
  }

  lemma RunOne(pktsize: PktSize, c: Conn, steps: seq<Step>, c': Conn)
    requires steps != [] && Enabled(pktsize, c, steps[0]) && Apply(pktsize, c, steps[0]) == c'
    ensures RunFrom(pktsize, c, steps) == RunFrom(pktsize, c', steps[1..])
  {
  }

  /** Empty messages: a full buffer of which the callback takes just one leaves pktsize bytes. */
  function Empties(k: nat): (r: seq<Step>)
    ensures |r| == k && forall i :: 0 <= i < k ==> r[i] == Send([])
  {
    seq(k, _ => Send([]))
  }

  lemma {:induction false} SendEmpties(pktsize: PktSize, c: Conn, k: nat, more: seq<Step>) returns (c': Conn)
    ensures RunFrom(pktsize, c, Empties(k) + more) == RunFrom(pktsize, c', more)
    ensures c' == c.(sent := c'.sent, out := c'.out) && c.out <= c'.out && |c'.out| == |c.out| + 4 * k
    ensures k > 0 ==> c'.out[|c.out|..|c.out| + 4] == Record([])
    decreases k
  {
    if k == 0 {
      c' := c;
      assert Empties(0) + more == more;
    } else {
      var d := Apply(pktsize, c, Send([]));
      assert (Empties(k) + more)[1..] == Empties(k - 1) + more;
      c' := SendEmpties(pktsize, d, k - 1, more);
      assert c'.out[|c.out|..|c.out| + 4] == d.out[|c.out|..|c.out| + 4];
    }
  }

  lemma EmptyBreaks(pktsize: PktSize, ok: nat -> bool)
    requires ok(0)
    ensures !AlwaysHolds(pktsize, ok)
  {
    var n := pktsize + 4;
    var more := [Write(n), SetCb(true, 1), Read(n, 1)];
    var c1 := SendEmpties(pktsize, Start(), pktsize, more);
    var c2 := Apply(pktsize, c1, more[0]);
    var c3 := Apply(pktsize, c2, more[1]);
    var b := [] + c3.wire[..n];
    assert b == c1.out[..n];
    assert b == Record([]) + b[4..];
    GetPktRecord(pktsize, [], b[4..]);
    var c4 := Apply(pktsize, c3, more[2]);
    assert !c4.holds;
    RunOne(pktsize, c3, more[2..], c4);
    RunOne(pktsize, c2, more[1..], c3);
    RunOne(pktsize, c1, more, c2);
    var steps := Empties(pktsize) + more;
    assert Lengths(ok, steps);
    assert RunFrom(pktsize, Start(), steps) == Some(c4);
  }

  /** The closing assertion holds in every run exactly if every admissible message that fits the
      transport is nonempty and at least 4 bytes shorter than pktsize. */
  lemma AssertionExact(pktsize: PktSize, ok: nat -> bool)
    ensures AlwaysHolds(pktsize, ok) <==> forall n: nat :: ok(n) && n <= pktsize ==> GoodLength(pktsize, n)
  {
    if forall n: nat :: ok(n) && n <= pktsize ==> GoodLength(pktsize, n) {
      forall steps | Lengths(ok, steps) && RunFrom(pktsize, Start(), steps).Some?
        ensures RunFrom(pktsize, Start(), steps).value.holds
      {
        RunHolds(pktsize, ok, Start(), steps);
      }
    } else {
      var n: nat :| ok(n) && n <= pktsize && !GoodLength(pktsize, n);
      if n == 0 { EmptyBreaks(pktsize, ok); } else { LongBreaks(pktsize, ok, n); }
    }
  }
}
