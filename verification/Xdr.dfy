/**
 * The XDR traversal of RPC objects: `rpc_traverse` over an encoding stream and over a decoding
 * stream (arpc/rpctypes.h:432-594, arpc/xdrmisc.h:125-272).
 *
 * A `Type` is a C++ type built from the traversable templates; a `Value` is the content of an
 * object of such a type. The source passes objects by reference; here their content goes in and
 * comes out, so that what a failed traversal leaves behind in the object is part of the model.
 */
module Xdr {
  import opened RpcTypes
  import opened Powers
  import opened BigEndian

  const RPC_INFINITY := 0x7fff_ffff

  /** The size of an opaque or the bound of a string or vector; `RPC_INFINITY` is the largest. */
  type Bound = n: nat | n <= RPC_INFINITY

  datatype Type =
    | U32
    | U64
    | I32
    | I64
    | Boolean
    | Opaque(size: Bound)
    | Variable(max: Bound)
    | Str(max: Bound)
    | Array(size: Bound, elem: Type)
    | Vec(max: Bound, elem: Type)
    | Ptr(target: Type)

  /** A type with no element or target type. */
  ghost predicate Leaf(t: Type) { !t.Array? && !t.Vec? && !t.Ptr? }

  datatype Value =
    | Num(n: int)
    | Flag(b: bool)
    | Blob(bytes: Bytes)
    | NullStr
    | Text(chars: Bytes)
    | List(elems: seq<Value>)
    | Nil
    | Ref(target: Value)

  /** The objects that the C++ types and the assertions of their classes allow. */
  ghost predicate Has(t: Type, v: Value)
    decreases t, 0
  {
    match t
    case U32 => v.Num? && 0 <= v.n < TWO_TO_32
    case U64 => v.Num? && 0 <= v.n < TWO_TO_64
    case I32 => v.Num? && -TWO_TO_31 <= v.n < TWO_TO_31
    case I64 => v.Num? && -TWO_TO_63 <= v.n < TWO_TO_63
    case Boolean => v.Flag?
    case Opaque(n) => v.Blob? && |v.bytes| == n
    case Variable(max) => v.Blob? && |v.bytes| <= max
    case Str(max) => v.NullStr? || (v.Text? && |v.chars| <= max && 0 !in v.chars)
    case Array(n, elem) => v.List? && |v.elems| == n && HasAll(elem, v.elems)
    case Vec(max, elem) => v.List? && |v.elems| <= max && HasAll(elem, v.elems)
    case Ptr(target) => v.Nil? || (v.Ref? && Has(target, v.target))
  }

  ghost predicate HasAll(t: Type, vs: seq<Value>)
    decreases t, 1
  {
    forall i :: 0 <= i < |vs| ==> Has(t, vs[i])
  }

  /** No null string is anywhere inside. */
  ghost predicate NoNullStr(v: Value) {
    match v
    case NullStr => false
    case List(vs) => forall i :: 0 <= i < |vs| ==> NoNullStr(vs[i])
    case Ref(target) => NoNullStr(target)
    case _ => true
  }

  // The wire format, by itself.

  function Padding(n: nat): (p: nat)
    ensures p < 4 && (n + p) % 4 == 0
  {
    (4 - n % 4) % 4
  }

  /** The integer that a word stands for in two's complement of twice `half`. */
  function Signed(n: nat, half: int): (r: int)
    requires n < 2 * half
    ensures -half <= r < half
  {
    if n < half then n else n - 2 * half
  }

  function Unsigned(n: int, half: int): (r: nat)
    requires -half <= n < half
    ensures r < 2 * half && Signed(r, half) == n
  {
    if n < 0 then n + 2 * half else n
  }

  /**
   * `w` is a wire form of `v`. It differs from what the encoder writes only in that the padding
   * may hold any bytes and any nonzero word stands for true.
   */
  ghost predicate Denotes(t: Type, w: Bytes, v: Value)
    decreases t, 0
  {
    match t
    case U32 => |w| == 4 && v == Num(Unword(w))
    case U64 => |w| == 8 && v == Num(Unword(w[..4]) * TWO_TO_32 + Unword(w[4..]))
    case I32 => |w| == 4 && v == Num(Signed(Unword(w), TWO_TO_31))
    case I64 => |w| == 8 && v == Num(Signed(Unword(w[..4]) * TWO_TO_32 + Unword(w[4..]), TWO_TO_63))
    case Boolean => |w| == 4 && v == Flag(Unword(w) != 0)
    case Opaque(n) => |w| == n + Padding(n) && v == Blob(w[..n])
    case Variable(max) => Counted(w, max) && v == Blob(w[4..][..Unword(w[..4])])
    case Str(max) =>
      Counted(w, max) && v == Text(w[4..][..Unword(w[..4])]) && 0 !in v.chars
    case Array(n, elem) => v.List? && |v.elems| == n && DenotesAll(WireForm(elem), w, v.elems)
    case Vec(max, elem) =>
      && 4 <= |w|
      && v.List?
      && |v.elems| == Unword(w[..4]) <= max
      && DenotesAll(WireForm(elem), w[4..], v.elems)
    case Ptr(target) =>
      && 4 <= |w|
      && if Unword(w[..4]) == 0 then v == Nil && |w| == 4
         else v.Ref? && Denotes(target, w[4..], v.target)
  }

  /** A length word of at most `max`, that many bytes, and padding. */
  ghost predicate Counted(w: Bytes, max: nat) {
    4 <= |w| && var n := Unword(w[..4]); n <= max && |w| == 4 + n + Padding(n)
  }

  ghost function WireForm(t: Type): (f: (Bytes, Value) -> bool)
    decreases t, 1
  {
    (w, v) => Denotes(t, w, v)
  }

  function Flat(ws: seq<Bytes>): (r: Bytes) {
    if ws == [] then [] else ws[0] + Flat(ws[1..])
  }

  ghost predicate Each(form: (Bytes, Value) -> bool, ws: seq<Bytes>, vs: seq<Value>) {
    |ws| == |vs| && forall i :: 0 <= i < |vs| ==> form(ws[i], vs[i])
  }

  /** `w` is made of wire forms of the elements, one after the other. */
  ghost predicate DenotesAll(form: (Bytes, Value) -> bool, w: Bytes, vs: seq<Value>) {
    exists ws :: Each(form, ws, vs) && w == Flat(ws)
  }

  /** The bytes from place `i` on are zero. */
  ghost predicate ZeroFrom(w: Bytes, i: nat) {
    forall j :: i <= j < |w| ==> w[j] == 0
  }

  /**
   * `w` is the wire form of `v` that section 4 of RFC 4506 prescribes: the padding is zero, true is
   * the word 1, and so is the mark of an object that is present.
   */
  ghost predicate Canonical(t: Type, w: Bytes, v: Value)
    decreases t, 0
  {
    match t
    case Boolean => |w| == 4 && v.Flag? && Unword(w) == if v.b then 1 else 0
    case Opaque(n) => Denotes(t, w, v) && ZeroFrom(w, n)
    case Variable(_) => Denotes(t, w, v) && ZeroFrom(w, 4 + |v.bytes|)
    case Str(_) => Denotes(t, w, v) && ZeroFrom(w, 4 + |v.chars|)
    case Array(n, elem) => v.List? && |v.elems| == n && DenotesAll(CanonicalForm(elem), w, v.elems)
    case Vec(max, elem) =>
      && 4 <= |w|
      && v.List?
      && |v.elems| == Unword(w[..4]) <= max
      && DenotesAll(CanonicalForm(elem), w[4..], v.elems)
    case Ptr(target) =>
      && 4 <= |w|
      && if v.Nil? then |w| == 4 && Unword(w) == 0
         else v.Ref? && Unword(w[..4]) == 1 && Canonical(target, w[4..], v.target)
    case _ => Denotes(t, w, v)
  }

  ghost function CanonicalForm(t: Type): (f: (Bytes, Value) -> bool)
    decreases t, 1
  {
    (w, v) => Canonical(t, w, v)
  }

  // Encoding.

  /** Whether a traversal succeeded, and the bytes it wrote. */
  datatype Put = Put(ok: bool, out: Bytes)

  function PadBytes(b: Bytes): (r: Bytes)
    ensures |r| == |b| + Padding(|b|) && |r| % 4 == 0
    ensures r[..|b|] == b
  {
    b + [0, 0, 0][..Padding(|b|)]
  }

  function Long(n: nat): (r: Bytes)
    requires n < TWO_TO_64
    ensures |r| == 8
  {
    Word(n / TWO_TO_32) + Word(n % TWO_TO_32)
  }

  function Enc(t: Type, v: Value): (r: Put)
    requires Has(t, v)
    decreases t, 0
  {
    match t
    case U32 => Put(true, Word(v.n))
    case U64 => Put(true, Long(v.n))
    case I32 => Put(true, Word(Unsigned(v.n, TWO_TO_31)))
    case I64 => Put(true, Long(Unsigned(v.n, TWO_TO_63)))
    case Boolean => Put(true, Word(if v.b then 1 else 0))
    case Opaque(_) => Put(true, PadBytes(v.bytes))
    case Variable(_) => Put(true, Word(|v.bytes|) + PadBytes(v.bytes))
    case Str(_) => if v.NullStr? then Put(false, []) else Put(true, Word(|v.chars|) + PadBytes(v.chars))
    case Array(_, elem) => Chain(Parts(elem, v.elems))
    case Vec(_, elem) =>
      var r := Chain(Parts(elem, v.elems));
      Put(r.ok, Word(|v.elems|) + r.out)
    case Ptr(target) =>
      if v.Nil? then Put(true, Word(0))
      else
        var r := Enc(target, v.target);
        Put(r.ok, Word(1) + r.out)
  }

  /** The traversals of the elements by themselves. */
  function Parts(t: Type, vs: seq<Value>): (r: seq<Put>)
    requires HasAll(t, vs)
    ensures |r| == |vs|
    decreases t, 2
  {
    seq(|vs|, i requires 0 <= i < |vs| => Enc(t, vs[i]))
  }

  /** One after the other, up to the first that fails. */
  function Chain(parts: seq<Put>): (r: Put) {
    if parts == [] then Put(true, [])
    else if !parts[0].ok then parts[0]
    else
      var rest := Chain(parts[1..]);
      Put(rest.ok, parts[0].out + rest.out)
  }

  // Decoding.

  /** Whether a traversal succeeded, what the object then holds, and the input not yet read. */
  datatype Got = Got(ok: bool, obj: Value, rest: Bytes)

  /** The same for the elements of a sequence. */
  datatype GotAll = GotAll(ok: bool, objs: seq<Value>, rest: Bytes)

  /** What the default constructor leaves in an object. */
  function Fresh(t: Type): (v: Value)
    ensures Has(t, v)
    decreases t
  {
    match t
    case U32 => Num(0)
    case U64 => Num(0)
    case I32 => Num(0)
    case I64 => Num(0)
    case Boolean => Flag(false)
    case Opaque(n) => Blob(seq(n, _ => 0))
    case Variable(_) => Blob([])
    case Str(_) => Text([])
    case Array(n, elem) => var e := Fresh(elem); List(seq(n, _ => e))
    case Vec(_, _) => List([])
    case Ptr(_) => Nil
  }

  function DecLong(obj: Value, x: Bytes, half: nat): (r: Got)
    requires half == 0 || half == TWO_TO_63
  {
    if |x| < 4 then Got(false, obj, x)
    else if |x| < 8 then Got(false, obj, x[4..])
    else
      var n := Unword(x[..4]) * TWO_TO_32 + Unword(x[4..8]);
      Got(true, Num(if half == 0 then n else Signed(n, half)), x[8..])
  }

  /** `Some(n)` when a length word of at most `max` and the padded bytes it announces are there. */
  function CountOf(x: Bytes, max: nat): (r: Option<nat>)
    ensures r.Some? ==> 4 + r.value + Padding(r.value) <= |x|
  {
    if |x| < 4 then None
    else
      var n := Unword(x[..4]);
      if n > max || |x| < 4 + n + Padding(n) then None else Some(n)
  }

  /** What a failed read of counted bytes has consumed: at most the length word. */
  function AfterCount(x: Bytes): (r: Bytes) {
    if |x| < 4 then x else x[4..]
  }

  /** Fixed bytes and then `pad` more; if only those are missing the object is already overwritten. */
  function DecOpaque(n: nat, pad: nat, obj: Value, x: Bytes): (r: Got) {
    if |x| < n then Got(false, obj, x)
    else if |x| < n + pad then Got(false, Blob(x[..n]), x[n..])
    else Got(true, Blob(x[..n]), x[n + pad..])
  }

  function DecBlob(max: nat, obj: Value, x: Bytes): (r: Got) {
    match CountOf(x, max)
    case None => Got(false, obj, AfterCount(x))
    case Some(n) => Got(true, Blob(x[4..4 + n]), x[4 + n + Padding(n)..])
  }

  /** Counted bytes, none of them zero. */
  function DecText(max: nat, obj: Value, x: Bytes): (r: Got) {
    match CountOf(x, max)
    case None => Got(false, obj, AfterCount(x))
    case Some(n) =>
      var rest := x[4 + n + Padding(n)..];
      if 0 in x[4..4 + n] then Got(false, obj, rest) else Got(true, Text(x[4..4 + n]), rest)
  }

  function Dec(t: Type, obj: Value, x: Bytes): (r: Got)
    decreases t, 0
  {
    match t
    case U32 => if |x| < 4 then Got(false, obj, x) else Got(true, Num(Unword(x[..4])), x[4..])
    case U64 => DecLong(obj, x, 0)
    case I32 =>
      if |x| < 4 then Got(false, obj, x) else Got(true, Num(Signed(Unword(x[..4]), TWO_TO_31)), x[4..])
    case I64 => DecLong(obj, x, TWO_TO_63)
    case Boolean => if |x| < 4 then Got(false, obj, x) else Got(true, Flag(Unword(x[..4]) != 0), x[4..])
    case Opaque(n) => DecOpaque(n, Padding(n), obj, x)
    case Variable(max) => DecBlob(max, obj, x)
    case Str(max) => DecText(max, obj, x)
    case Array(_, elem) =>
      var r := DecOver(Decoder(elem), Slots(t, obj), x);
      Got(r.ok, List(r.objs), r.rest)
    case Vec(max, elem) =>
      if |x| < 4 then Got(false, obj, x)
      else
        var n := Unword(x[..4]);
        if n > max then Got(false, obj, x[4..])
        else
          var r := DecVec(Decoder(elem), Slots(t, obj), Fresh(elem), n, x[4..]);
          Got(r.ok, List(r.objs), r.rest)
    case Ptr(target) =>
      if |x| < 4 then Got(false, obj, x)
      else if Unword(x[..4]) == 0 then Got(true, Nil, x[4..])
      else
        var r := Dec(target, if obj.Ref? then obj.target else Fresh(target), x[4..]);
        Got(r.ok, Ref(r.obj), r.rest)
  }

  /** The elements an object already has; an object always has the form its type gives it. */
  function Slots(t: Type, obj: Value): (r: seq<Value>)
    requires t.Array? || t.Vec?
    ensures t.Array? ==> |r| == t.size
    ensures Has(t, obj) ==> r == obj.elems
  {
    if obj.List? && (t.Vec? || |obj.elems| == t.size) then obj.elems else Fresh(t).elems
  }

  function Decoder(t: Type): (f: (Value, Bytes) -> Got)
    decreases t, 1
  {
    (obj, x) => Dec(t, obj, x)
  }

  /** Decoding over existing elements; a failure leaves those after it as they were. */
  function DecOver(dec: (Value, Bytes) -> Got, objs: seq<Value>, x: Bytes): (r: GotAll)
    ensures |r.objs| == |objs|
    decreases |objs|
  {
    if objs == [] then GotAll(true, [], x)
    else
      var first := dec(objs[0], x);
      if !first.ok then GotAll(false, [first.obj] + objs[1..], first.rest)
      else
        var r := DecOver(dec, objs[1..], first.rest);
        GotAll(r.ok, [first.obj] + r.objs, r.rest)
  }

  /** Decoding into `n` elements pushed one by one; a failure leaves its element as the last one. */
  function DecPush(dec: (Value, Bytes) -> Got, blank: Value, n: nat, x: Bytes): (r: GotAll)
    ensures |r.objs| <= n
    decreases n
  {
    if n == 0 then GotAll(true, [], x)
    else
      var first := dec(blank, x);
      if !first.ok then GotAll(false, [first.obj], first.rest)
      else
        var r := DecPush(dec, blank, n - 1, first.rest);
        GotAll(r.ok, [first.obj] + r.objs, r.rest)
  }

  /** A vector is cut to `n` elements or, after decoding over those it has, extended to `n`. */
  function DecVec(dec: (Value, Bytes) -> Got, objs: seq<Value>, blank: Value, n: nat, x: Bytes): (r: GotAll)
    ensures |r.objs| <= n
  {
    var kept := if n < |objs| then objs[..n] else objs;
    var r := DecOver(dec, kept, x);
    if !r.ok then r
    else
      var s := DecPush(dec, blank, n - |kept|, r.rest);
      GotAll(s.ok, r.objs + s.objs, s.rest)
  }
}
