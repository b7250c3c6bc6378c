/**
 * What a traversal that fails leaves behind (arpc/rpctypes.h:450-530, arpc/xdrmisc.h:125-272): how much
 * of the input it has consumed or of the output written, and what the object then holds.
 */
module XdrFailures {
  import opened RpcTypes
  import opened Powers
  import opened BigEndian
  import opened Xdr
  import opened XdrRoundTrip

  /** A counted item of at most `max` bytes is there in full. */
  ghost predicate HasCounted(x: Bytes, max: nat) {
    |x| >= 4 && Unword(x[..4]) <= max && |x| >= 4 + Unword(x[..4]) + Padding(Unword(x[..4]))
  }

  /**
   * A scalar, string or byte array that cannot be decoded leaves the object as it was, except fixed
   * bytes of which only the padding is missing. It consumes no more than its length word or the first
   * word of two, except those fixed bytes, and a string in which there is a zero.
   */
  lemma {:induction false} LeafFails(t: Type, obj: Value, x: Bytes)
    requires Leaf(t) && !Dec(t, obj, x).ok
    ensures var d := Dec(t, obj, x);
      if t.Opaque? && |x| >= t.size then
        |x| < t.size + Padding(t.size) && d.obj == Blob(x[..t.size]) && d.rest == x[t.size..]
      else if t.Str? && HasCounted(x, t.max) then
        var n := Unword(x[..4]);
        0 in x[4..4 + n] && d.obj == obj && d.rest == x[4 + n + Padding(n)..]
      else
        && d.obj == obj
        && d.rest == if |x| < 4 || t.U32? || t.I32? || t.Boolean? || t.Opaque? then x else x[4..]
  {
  }

  /** The elements before the one that fails are decoded, it holds what its own failure left, and those
      after it are as they were. */
  ghost predicate FailedAt(dec: (Value, Bytes) -> Got, objs: seq<Value>, x: Bytes, r: GotAll, i: nat, y: Bytes) {
    && i < |objs| && |r.objs| == |objs| && r.objs[i + 1..] == objs[i + 1..]
    && DecOver(dec, objs[..i], x) == GotAll(true, r.objs[..i], y)
    && dec(objs[i], y) == Got(false, r.objs[i], r.rest)
  }

  lemma {:induction false} OverFails(dec: (Value, Bytes) -> Got, objs: seq<Value>, x: Bytes) returns (i: nat, y: Bytes)
    requires !DecOver(dec, objs, x).ok
    ensures FailedAt(dec, objs, x, DecOver(dec, objs, x), i, y)
    decreases |objs|
  {
    var first := dec(objs[0], x);
    if first.ok {
      i, y := OverFails(dec, objs[1..], first.rest);
      FailedLater(dec, objs, x, DecOver(dec, objs[1..], first.rest), i, y);
      i := i + 1;
    } else {
      i, y := 0, x;
      assert objs[..0] == [] && DecOver(dec, objs, x).objs[..0] == [];
    }
  }

  lemma FailedLater(dec: (Value, Bytes) -> Got, objs: seq<Value>, x: Bytes, r: GotAll, i: nat, y: Bytes)
    requires objs != [] && dec(objs[0], x).ok && FailedAt(dec, objs[1..], dec(objs[0], x).rest, r, i, y)
    ensures FailedAt(dec, objs, x, GotAll(false, [dec(objs[0], x).obj] + r.objs, r.rest), i + 1, y)
  {
    var first := dec(objs[0], x);
    var all := [first.obj] + r.objs;
    assert objs[..i + 1][1..] == objs[1..][..i] && objs[..i + 1][0] == objs[0];
    assert all[..i + 1] == [first.obj] + r.objs[..i];
    assert all[i + 2..] == r.objs[i + 1..] && objs[i + 2..] == objs[1..][i + 1..];
  }

  /** Elements that are pushed one by one: those before the one that fails, and it. */
  ghost predicate PushedTo(dec: (Value, Bytes) -> Got, blank: Value, n: nat, x: Bytes, r: GotAll, i: nat, y: Bytes) {
    && i < n && |r.objs| == i + 1
    && DecPush(dec, blank, i, x) == GotAll(true, r.objs[..i], y)
    && dec(blank, y) == Got(false, r.objs[i], r.rest)
  }

  lemma {:induction false} PushFails(dec: (Value, Bytes) -> Got, blank: Value, n: nat, x: Bytes) returns (i: nat, y: Bytes)
    requires !DecPush(dec, blank, n, x).ok
    ensures PushedTo(dec, blank, n, x, DecPush(dec, blank, n, x), i, y)
    decreases n
  {
    var first := dec(blank, x);
    if first.ok {
      i, y := PushFails(dec, blank, n - 1, first.rest);
      var r := DecPush(dec, blank, n - 1, first.rest);
      assert ([first.obj] + r.objs)[..i + 1] == [first.obj] + r.objs[..i];
      i := i + 1;
    } else {
      i, y := 0, x;
      assert DecPush(dec, blank, n, x).objs[..0] == [];
    }
  }

  /** An encoding that fails has written the encodings before the null string and nothing more. */
  lemma {:induction false} ChainFails(parts: seq<Put>) returns (i: nat)
    requires !Chain(parts).ok
    ensures i < |parts| && !parts[i].ok && AllOk(parts[..i])
    ensures Chain(parts).out == Flat(Outs(parts[..i])) + parts[i].out
  {
    if parts[0].ok {
      i := ChainFails(parts[1..]);
      FailsLater(parts, i);
      i := i + 1;
    } else {
      i := 0;
      assert parts[..0] == [];
    }
  }

  lemma FailsLater(parts: seq<Put>, i: nat)
    requires parts != [] && parts[0].ok && i < |parts[1..]| && AllOk(parts[1..][..i])
    requires Chain(parts[1..]).out == Flat(Outs(parts[1..][..i])) + parts[1..][i].out && !Chain(parts[1..]).ok
    ensures AllOk(parts[..i + 1]) && Chain(parts).out == Flat(Outs(parts[..i + 1])) + parts[i + 1].out
  {
    var front := parts[..i + 1];
    assert front[1..] == parts[1..][..i] && front[0] == parts[0];
    assert Outs(front)[1..] == Outs(front[1..]) && Outs(front)[0] == parts[0].out;
    Assoc(parts[0].out, Flat(Outs(front[1..])), parts[i + 1].out);
    forall j | 0 <= j < |front| ensures front[j].ok {
      if j > 0 { assert front[j] == parts[1..][..i][j - 1]; }
    }
  }

  lemma ZeroJoin(a: Bytes, b: Bytes)
    requires ZeroFrom(a, 0) && ZeroFrom(b, 0)
    ensures ZeroFrom(a + b, 0)
  {
  }

  lemma {:induction false} ZeroChain(parts: seq<Put>)
    requires AllOk(parts) && forall i :: 0 <= i < |parts| ==> ZeroFrom(parts[i].out, 0)
    ensures Chain(parts).ok && ZeroFrom(Chain(parts).out, 0)
  {
    if parts != [] {
      ZeroChain(parts[1..]);
      ZeroJoin(parts[0].out, Chain(parts[1..]).out);
    }
  }

  /** What a new object holds, and so an element that is pushed before it is decoded: all zeros on the wire. */
  lemma {:induction false} FreshIsZero(t: Type)
    ensures Enc(t, Fresh(t)).ok && ZeroFrom(Enc(t, Fresh(t)).out, 0)
    decreases t
  {
    if t.Array? {
      FreshIsZero(t.elem);
      ZeroChain(Parts(t.elem, Fresh(t).elems));
    } else if t.Vec? {
      WordZero();
      assert Parts(t.elem, Fresh(t).elems) == [];
    } else if t.Ptr? {
      WordZero();
    } else {
      FreshLeaf(t);
    }
  }

  lemma WordZero()
    ensures ZeroFrom(Word(0), 0) && ZeroFrom(Long(0), 0)
  {
  }

  lemma {:induction false} FreshLeaf(t: Type)
    requires Leaf(t)
    ensures Enc(t, Fresh(t)).ok && ZeroFrom(Enc(t, Fresh(t)).out, 0)
  {
    WordZero();
  }

  /** A null string itself writes nothing. */
  lemma NullWritesNothing(max: Bound)
    ensures Enc(Str(max), NullStr) == Put(false, [])
  {
  }
}
