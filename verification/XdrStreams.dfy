/**
 * The traversals as they run: an encoding stream that bytes are appended to and a decoding stream
 * that bytes are taken from (arpc/rpctypes.h:450-594, arpc/xdrmisc.h:125-272).
 */
module XdrStreams {
  import opened RpcTypes
  import opened Powers
  import opened BigEndian
  import opened Xdr

  /** An XDR in mode XDR_ENCODE, which never runs out of room (arpc/xdr_suio.C). */
  class Encoder {
    var out: Bytes

    constructor ()
      ensures out == []
    {
      out := [];
    }

    method PutInt(n: nat)
      requires n < TWO_TO_32
      modifies this
      ensures out == old(out) + Word(n)
    {
      out := out + Word(n);
    }

    method PutPadBytes(b: Bytes)
      modifies this
      ensures out == old(out) + PadBytes(b)
      ensures |out| == |old(out)| + (|b| + 3) / 4 * 4 && old(out) + b <= out && ZeroFrom(out, |old(out) + b|)
    {
      if |b| != 0 {
        out := out + b;
        var pad := Padding(|b|);
        if pad != 0 {
          out := out + [0, 0, 0][..pad];
        }
      }
    }

    method PutLong(n: nat)
      requires n < TWO_TO_64
      modifies this
      ensures out == old(out) + Long(n)
    {
      PutInt(n / TWO_TO_32);
      PutInt(n % TWO_TO_32);
    }

    method Traverse(t: Type, v: Value) returns (ok: bool)
      requires Has(t, v)
      modifies this
      ensures ok == Enc(t, v).ok
      ensures out == old(out) + Enc(t, v).out
      decreases t, 0
    {
      ok := true;
      if t.Array? {
        ok := TraverseAll(t.elem, v.elems);
      } else if t.Vec? {
        PutInt(|v.elems|);
        ok := TraverseAll(t.elem, v.elems);
        Assoc(old(out), Word(|v.elems|), Chain(Parts(t.elem, v.elems)).out);
      } else if t.Ptr? {
        PutInt(if v.Ref? then 1 else 0);
        if v.Ref? {
          ok := Traverse(t.target, v.target);
          Assoc(old(out), Word(1), Enc(t.target, v.target).out);
        }
      } else {
        ok := TraverseLeaf(t, v);
      }
    }

    method TraverseLeaf(t: Type, v: Value) returns (ok: bool)
      requires Leaf(t) && Has(t, v)
      modifies this
      ensures ok == Enc(t, v).ok
      ensures out == old(out) + Enc(t, v).out
    {
      ok := true;
      match t
      case U32 => PutInt(v.n);
      case U64 => PutLong(v.n);
      case I32 => PutInt(Unsigned(v.n, TWO_TO_31));
      case I64 => PutLong(Unsigned(v.n, TWO_TO_63));
      case Boolean => PutInt(if v.b then 1 else 0);
      case Opaque(_) => PutPadBytes(v.bytes);
      case Variable(_) => PutInt(|v.bytes|); PutPadBytes(v.bytes);
      case Str(_) =>
        ok := !v.NullStr?;
        if ok {
          PutInt(|v.chars|);
          PutPadBytes(v.chars);
        }
    }

    method TraverseAll(t: Type, vs: seq<Value>) returns (ok: bool)
      requires HasAll(t, vs)
      modifies this
      ensures Put(ok, out) == Prefixed(old(out), Chain(Parts(t, vs)))
      decreases t, 1
    {
      ghost var parts := Parts(t, vs);
      ghost var whole := Prefixed(out, Chain(parts));
      ok := true;
      var i := 0;
      assert parts[0..] == parts;
      while ok && i < |vs|
        invariant 0 <= i <= |vs|
        invariant whole == if ok then Prefixed(out, Chain(parts[i..])) else Put(false, out)
        decreases |vs| - i
      {
        ChainStep(parts, i, out);
        ok := Traverse(t, vs[i]);
        i := i + 1;
      }
    }
  }

  /** The same outcome after `done` had been written. */
  ghost function Prefixed(done: Bytes, r: Put): (p: Put) {
    Put(r.ok, done + r.out)
  }

  ghost function PrefixedAll(done: seq<Value>, r: GotAll): (p: GotAll) {
    GotAll(r.ok, done + r.objs, r.rest)
  }

  lemma ChainStep(parts: seq<Put>, i: nat, done: Bytes)
    requires i < |parts|
    ensures Prefixed(done, Chain(parts[i..])) ==
      if parts[i].ok then Prefixed(done + parts[i].out, Chain(parts[i + 1..]))
      else Put(false, done + parts[i].out)
  {
    assert parts[i..][1..] == parts[i + 1..];
  }

  lemma OverStep(dec: (Value, Bytes) -> Got, objs: seq<Value>, done: seq<Value>, x: Bytes)
    requires |done| < |objs|
    ensures var r := dec(objs[|done|], x);
      PrefixedAll(done, DecOver(dec, objs[|done|..], x)) ==
      if r.ok then PrefixedAll(done + [r.obj], DecOver(dec, objs[|done| + 1..], r.rest))
      else GotAll(false, done + [r.obj] + objs[|done| + 1..], r.rest)
  {
    assert objs[|done|..][1..] == objs[|done| + 1..];
  }

  lemma PushStep(dec: (Value, Bytes) -> Got, blank: Value, n: nat, done: seq<Value>, x: Bytes)
    requires 0 < n
    ensures var r := dec(blank, x);
      PrefixedAll(done, DecPush(dec, blank, n, x)) ==
      if r.ok then PrefixedAll(done + [r.obj], DecPush(dec, blank, n - 1, r.rest))
      else GotAll(false, done + [r.obj], r.rest)
  {
  }

  lemma Dropped(x: Bytes, n: nat, k: nat)
    requires n <= |x|
    ensures n + k <= |x| ==> x[n..][k..] == x[n + k..]
  {
  }

  /** An XDR in mode XDR_DECODE over a memory buffer. */
  class Decoding {
    var left: Bytes

    constructor (msg: Bytes)
      ensures left == msg
    {
      left := msg;
    }

    method GetBytes(n: nat) returns (ok: bool, b: Bytes)
      modifies this
      ensures ok == (n <= |old(left)|)
      ensures ok ==> b == old(left)[..n] && left == old(left)[n..]
      ensures !ok ==> left == old(left)
    {
      ok, b := n <= |left|, [];
      if ok {
        b, left := left[..n], left[n..];
      }
    }

    method GetInt() returns (ok: bool, n: nat)
      modifies this
      ensures ok == (4 <= |old(left)|)
      ensures ok ==> n == Unword(old(left)[..4]) && left == old(left)[4..]
      ensures !ok ==> left == old(left)
    {
      var b;
      ok, b := GetBytes(4);
      n := if ok then Unword(b) else 0;
    }

    method GetLong() returns (ok: bool, n: nat)
      modifies this
      ensures n < TWO_TO_64
      ensures Got(ok, Num(n), left) == DecLong(Num(n), old(left), 0)
    {
      var hi, lo;
      n := 0;
      ok, hi := GetInt();
      if ok {
        ok, lo := GetInt();
        if ok {
          assert old(left)[4..][..4] == old(left)[4..8];
          n := hi * TWO_TO_32 + lo;
        }
      }
    }

    /** Takes the bytes that a length word announces, with their padding. */
    method GetCounted(max: Bound) returns (ok: bool, b: Bytes)
      modifies this
      ensures match CountOf(old(left), max)
        case None => !ok && left == AfterCount(old(left))
        case Some(n) => ok && b == old(left)[4..4 + n] && left == old(left)[4 + n + Padding(n)..]
    {
      b := [];
      var n;
      ok, n := GetInt();
      if ok {
        ok := n <= max;
        if ok {
          ok, b := GetBytes(n + Padding(n));
          if ok {
            b := b[..n];
          }
        }
      }
    }

    method Traverse(t: Type, obj: Value) returns (ok: bool, v: Value)
      modifies this
      ensures Got(ok, v, left) == Dec(t, obj, old(left))
      decreases t, 0
    {
      v := obj;
      match t
      case Array(_, elem) =>
        var vs;
        ok, vs := TraverseOver(elem, Slots(t, obj));
        v := List(vs);
      case Vec(max, elem) =>
        var n;
        ok, n := GetInt();
        if ok {
          ok := n <= max;
          if ok {
            var vs;
            ok, vs := TraverseVec(elem, Slots(t, obj), n);
            v := List(vs);
          }
        }
      case Ptr(target) =>
        var n;
        ok, n := GetInt();
        if ok {
          if n != 0 {
            ok, v := Traverse(target, if obj.Ref? then obj.target else Fresh(target));
            v := Ref(v);
          } else {
            v := Nil;
          }
        }
      case _ => ok, v := TraverseLeaf(t, obj);
    }

    method TraverseLeaf(t: Type, obj: Value) returns (ok: bool, v: Value)
      requires Leaf(t)
      modifies this
      ensures Got(ok, v, left) == Dec(t, obj, old(left))
    {
      v := obj;
      match t
      case U32 =>
        var n;
        ok, n := GetInt();
        if ok { v := Num(n); }
      case U64 =>
        var n;
        ok, n := GetLong();
        if ok { v := Num(n); }
      case I32 =>
        var n;
        ok, n := GetInt();
        if ok { v := Num(Signed(n, TWO_TO_31)); }
      case I64 =>
        var n;
        ok, n := GetLong();
        if ok { v := Num(Signed(n, TWO_TO_63)); }
      case Boolean =>
        var n;
        ok, n := GetInt();
        if ok { v := Flag(n != 0); }
      case Opaque(n) => ok, v := TraverseOpaque(n, Padding(n), obj);
      case Variable(max) => ok, v := TraverseBlob(max, obj);
      case Str(max) => ok, v := TraverseText(max, obj);
    }

    method TraverseBlob(max: Bound, obj: Value) returns (ok: bool, v: Value)
      modifies this
      ensures Got(ok, v, left) == DecBlob(max, obj, old(left))
    {
      v := obj;
      var b;
      ok, b := GetCounted(max);
      if ok { v := Blob(b); }
    }

    method TraverseText(max: Bound, obj: Value) returns (ok: bool, v: Value)
      modifies this
      ensures Got(ok, v, left) == DecText(max, obj, old(left))
    {
      v := obj;
      var b;
      ok, b := GetCounted(max);
      if ok {
        ok := 0 !in b;
        if ok { v := Text(b); }
      }
    }

    method TraverseOpaque(n: nat, pad: nat, obj: Value) returns (ok: bool, v: Value)
      modifies this
      ensures Got(ok, v, left) == DecOpaque(n, pad, obj, old(left))
    {
      v := obj;
      var b;
      ok, b := GetBytes(n);
      if ok {
        v := Blob(b);
        ok, b := GetBytes(pad);
        Dropped(old(left), n, pad);
      }
    }

    /** The loop over the elements that are there already. */
    method TraverseOver(t: Type, objs: seq<Value>) returns (ok: bool, vs: seq<Value>)
      modifies this
      ensures GotAll(ok, vs, left) == DecOver(Decoder(t), objs, old(left))
      decreases t, 1
    {
      ghost var whole := DecOver(Decoder(t), objs, left);
      ok, vs := true, [];
      assert objs[0..] == objs;
      while ok && |vs| < |objs|
        invariant |vs| <= |objs|
        invariant whole ==
          if ok then PrefixedAll(vs, DecOver(Decoder(t), objs[|vs|..], left))
          else GotAll(false, vs + objs[|vs|..], left)
        decreases |objs| - |vs|
      {
        OverStep(Decoder(t), objs, vs, left);
        var v;
        ok, v := Traverse(t, objs[|vs|]);
        vs := vs + [v];
      }
      vs := vs + objs[|vs|..];
    }

    /** The loop that pushes elements back and decodes into each. */
    method TraversePush(t: Type, n: nat) returns (ok: bool, vs: seq<Value>)
      modifies this
      ensures GotAll(ok, vs, left) == DecPush(Decoder(t), Fresh(t), n, old(left))
      decreases t, 1
    {
      ghost var whole := DecPush(Decoder(t), Fresh(t), n, left);
      ok, vs := true, [];
      var i := n;
      while ok && i > 0
        invariant 0 <= i <= n
        invariant whole ==
          if ok then PrefixedAll(vs, DecPush(Decoder(t), Fresh(t), i, left)) else GotAll(false, vs, left)
        decreases i
      {
        PushStep(Decoder(t), Fresh(t), i, vs, left);
        var v;
        ok, v := Traverse(t, Fresh(t));
        vs := vs + [v];
        i := i - 1;
      }
    }

    method TraverseVec(t: Type, objs: seq<Value>, n: nat) returns (ok: bool, vs: seq<Value>)
      modifies this
      ensures GotAll(ok, vs, left) == DecVec(Decoder(t), objs, Fresh(t), n, old(left))
      decreases t, 2
    {
      var kept := if n < |objs| then objs[..n] else objs;
      ok, vs := TraverseOver(t, kept);
      if ok {
        var more;
        ok, more := TraversePush(t, n - |kept|);
        vs := vs + more;
      }
    }
  }
}
