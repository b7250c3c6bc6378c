/**
 * What the XDR traversals promise: the decoder accepts exactly the wire forms and returns what
 * they denote whatever the target object held, and the encoder writes a wire form of its object.
 */
module XdrRoundTrip {
  import opened RpcTypes
  import opened Powers
  import opened BigEndian
  import opened Xdr

  // The encoder writes a wire form.

  lemma Cut(a: Bytes, b: Bytes)
    ensures (a + b)[..|a|] == a && (a + b)[|a|..] == b
  {
  }

  lemma LongParts(n: nat)
    requires n < TWO_TO_64
    ensures Unword(Long(n)[..4]) * TWO_TO_32 + Unword(Long(n)[4..]) == n
  {
    Cut(Word(n / TWO_TO_32), Word(n % TWO_TO_32));
    WordUnword(n / TWO_TO_32);
    WordUnword(n % TWO_TO_32);
  }

  lemma CountedPadded(b: Bytes, max: Bound)
    requires |b| <= max
    ensures var w := Word(|b|) + PadBytes(b);
      Counted(w, max) && Unword(w[..4]) == |b| && w[4..][..|b|] == b
  {
    WordUnword(|b|);
    Cut(Word(|b|), PadBytes(b));
  }

  lemma {:induction false} EncodeDenotes(t: Type, v: Value)
    requires Has(t, v) && Enc(t, v).ok
    ensures Denotes(t, Enc(t, v).out, v)
    decreases t, 0
  {
    match t
    case U32 => WordUnword(v.n);
    case U64 => LongParts(v.n);
    case I32 => WordUnword(Unsigned(v.n, TWO_TO_31));
    case I64 => LongParts(Unsigned(v.n, TWO_TO_63));
    case Boolean => WordUnword(0); WordUnword(1);
    case Opaque(_) =>
    case Variable(max) => CountedPadded(v.bytes, max);
    case Str(max) => CountedPadded(v.chars, max);
    case Array(_, elem) => EncodeDenotesAll(elem, v.elems);
    case Vec(_, elem) =>
      EncodeDenotesAll(elem, v.elems);
      WordUnword(|v.elems|);
      Cut(Word(|v.elems|), Chain(Parts(elem, v.elems)).out);
    case Ptr(target) =>
      WordUnword(0);
      WordUnword(1);
      if v.Ref? {
        EncodeDenotes(target, v.target);
        Cut(Word(1), Enc(target, v.target).out);
      }
  }

  lemma {:induction false} EncodeDenotesAll(t: Type, vs: seq<Value>)
    requires HasAll(t, vs) && Chain(Parts(t, vs)).ok
    ensures DenotesAll(WireForm(t), Chain(Parts(t, vs)).out, vs)
    decreases t, 1
  {
    var parts := Parts(t, vs);
    ChainOk(parts);
    forall i | 0 <= i < |vs| ensures WireForm(t)(Outs(parts)[i], vs[i]) {
      assert parts[i] == Enc(t, vs[i]) && parts[i].ok;
      EncodeDenotes(t, vs[i]);
    }
    assert Each(WireForm(t), Outs(parts), vs);
  }

  // It is the canonical one, and the only canonical one.

  lemma {:induction false} EncodesCanonically(t: Type, v: Value)
    requires Has(t, v) && Enc(t, v).ok
    ensures Canonical(t, Enc(t, v).out, v)
    decreases t, 0
  {
    match t
    case Boolean => WordUnword(0); WordUnword(1);
    case Opaque(_) => EncodeDenotes(t, v);
    case Variable(_) => EncodeDenotes(t, v); PadZero(Word(|v.bytes|), v.bytes);
    case Str(_) => EncodeDenotes(t, v); PadZero(Word(|v.chars|), v.chars);
    case Array(_, elem) => EncodesAllCanonically(elem, v.elems);
    case Vec(_, elem) =>
      EncodesAllCanonically(elem, v.elems);
      WordUnword(|v.elems|);
      Cut(Word(|v.elems|), Chain(Parts(elem, v.elems)).out);
    case Ptr(target) =>
      WordUnword(0);
      WordUnword(1);
      if v.Ref? {
        EncodesCanonically(target, v.target);
        Cut(Word(1), Enc(target, v.target).out);
      }
    case _ => EncodeDenotes(t, v);
  }

  lemma PadZero(head: Bytes, b: Bytes)
    ensures ZeroFrom(head + PadBytes(b), |head| + |b|)
  {
  }

  lemma {:induction false} EncodesAllCanonically(t: Type, vs: seq<Value>)
    requires HasAll(t, vs) && Chain(Parts(t, vs)).ok
    ensures DenotesAll(CanonicalForm(t), Chain(Parts(t, vs)).out, vs)
    decreases t, 1
  {
    var parts := Parts(t, vs);
    ChainOk(parts);
    forall i | 0 <= i < |vs| ensures CanonicalForm(t)(Outs(parts)[i], vs[i]) {
      assert parts[i] == Enc(t, vs[i]) && parts[i].ok;
      EncodesCanonically(t, vs[i]);
    }
    assert Each(CanonicalForm(t), Outs(parts), vs);
  }

  lemma {:induction false} CanonicalIsEncoding(t: Type, w: Bytes, v: Value)
    requires Has(t, v) && Canonical(t, w, v)
    ensures Enc(t, v) == Put(true, w)
    decreases t, 0
  {
    match t
    case Array(_, elem) => CanonicalAre(elem, w, v.elems);
    case Vec(_, elem) =>
      CanonicalAre(elem, w[4..], v.elems);
      UnwordWord(w[..4]);
    case Ptr(target) =>
      UnwordWord(w[..4]);
      assert w == w[..4] + w[4..];
      if v.Ref? {
        CanonicalIsEncoding(target, w[4..], v.target);
      } else {
        assert w[..4] == w;
      }
    case _ => CanonicalLeaf(t, w, v);
  }

  lemma {:induction false} CanonicalAre(t: Type, w: Bytes, vs: seq<Value>)
    requires HasAll(t, vs) && DenotesAll(CanonicalForm(t), w, vs)
    ensures Chain(Parts(t, vs)) == Put(true, w)
    decreases t, 1
  {
    var ws :| Each(CanonicalForm(t), ws, vs) && w == Flat(ws);
    var parts := Parts(t, vs);
    forall i | 0 <= i < |vs| ensures parts[i] == Put(true, ws[i]) {
      CanonicalIsEncoding(t, ws[i], vs[i]);
    }
    ChainOk(parts);
    assert Outs(parts) == ws;
  }

  lemma {:induction false} CanonicalLeaf(t: Type, w: Bytes, v: Value)
    requires Leaf(t) && Has(t, v) && Canonical(t, w, v)
    ensures Enc(t, v) == Put(true, w)
  {
    match t
    case U32 => UnwordWord(w);
    case I32 => UnwordWord(w);
    case U64 => LongIs(w, v.n);
    case I64 => LongIs(w, Unsigned(v.n, TWO_TO_63));
    case Boolean => UnwordWord(w);
    case Opaque(n) => PadIs(w, v.bytes);
    case Variable(_) => UnwordWord(w[..4]); PadIs(w[4..], v.bytes); assert w == w[..4] + w[4..];
    case Str(_) => UnwordWord(w[..4]); PadIs(w[4..], v.chars); assert w == w[..4] + w[4..];
  }

  lemma LongIs(w: Bytes, n: nat)
    requires |w| == 8 && n == Unword(w[..4]) * TWO_TO_32 + Unword(w[4..])
    ensures n < TWO_TO_64 && Long(n) == w
  {
    UnwordWord(w[..4]);
    UnwordWord(w[4..]);
    assert n / TWO_TO_32 == Unword(w[..4]) && n % TWO_TO_32 == Unword(w[4..]);
    assert w == w[..4] + w[4..];
  }

  lemma PadIs(w: Bytes, b: Bytes)
    requires |w| == |b| + Padding(|b|) && w[..|b|] == b && ZeroFrom(w, |b|)
    ensures PadBytes(b) == w
  {
  }

  /** What the encoder writes is the canonical wire form, and there is no other. */
  lemma EncodeExact(t: Type, v: Value, w: Bytes)
    requires Has(t, v)
    ensures Enc(t, v) == Put(true, w) <==> Canonical(t, w, v)
  {
    if Enc(t, v) == Put(true, w) {
      EncodesCanonically(t, v);
    } else if Canonical(t, w, v) {
      CanonicalIsEncoding(t, w, v);
      assert false;
    }
  }

  function Outs(parts: seq<Put>): (ws: seq<Bytes>)
    ensures |ws| == |parts|
  {
    seq(|parts|, i requires 0 <= i < |parts| => parts[i].out)
  }

  ghost predicate AllOk(parts: seq<Put>) {
    forall i :: 0 <= i < |parts| ==> parts[i].ok
  }

  lemma {:induction false} ChainOk(parts: seq<Put>)
    ensures Chain(parts).ok <==> AllOk(parts)
    ensures AllOk(parts) ==> Chain(parts).out == Flat(Outs(parts))
  {
    if parts != [] {
      ChainOk(parts[1..]);
      assert Outs(parts)[1..] == Outs(parts[1..]);
      assert forall i :: 1 <= i < |parts| ==> parts[i] == parts[1..][i - 1];
    }
  }

  lemma {:induction false} ChainAligned(parts: seq<Put>)
    requires forall i :: 0 <= i < |parts| ==> |parts[i].out| % 4 == 0
    ensures |Chain(parts).out| % 4 == 0
  {
    if parts != [] {
      ChainAligned(parts[1..]);
    }
  }

  // The encoder fails exactly on null strings, and keeps the stream aligned even then.

  lemma {:induction false} EncodeSucceeds(t: Type, v: Value)
    requires Has(t, v)
    ensures Enc(t, v).ok <==> NoNullStr(v)
    ensures |Enc(t, v).out| % 4 == 0
    decreases t, 0
  {
    match t
    case Array(_, elem) => EncodeSucceedsAll(elem, v.elems);
    case Vec(_, elem) =>
      EncodeSucceedsAll(elem, v.elems);
      Aligned(Word(|v.elems|), Chain(Parts(elem, v.elems)).out);
    case Ptr(target) =>
      if v.Ref? {
        EncodeSucceeds(target, v.target);
        Aligned(Word(1), Enc(target, v.target).out);
      }
    case _ => LeafSucceeds(t, v);
  }

  lemma Aligned(head: Bytes, tail: Bytes)
    requires |head| == 4 && |tail| % 4 == 0
    ensures |head + tail| % 4 == 0
  {
  }

  lemma {:induction false} LeafSucceeds(t: Type, v: Value)
    requires Leaf(t) && Has(t, v)
    ensures Enc(t, v).ok <==> !v.NullStr?
    ensures |Enc(t, v).out| % 4 == 0
  {
    match t
    case Opaque(_) => WordThen(PadBytes(v.bytes));
    case Variable(_) => WordThen(PadBytes(v.bytes));
    case Str(_) => if v.Text? { WordThen(PadBytes(v.chars)); }
    case _ => WordThen([]);
  }

  lemma {:induction false} WordThen(b: Bytes)
    requires |b| % 4 == 0
    ensures forall w: Bytes :: |w| == 4 ==> |w + b| % 4 == 0
  {
  }

  lemma {:induction false} EncodeSucceedsAll(t: Type, vs: seq<Value>)
    requires HasAll(t, vs)
    ensures Chain(Parts(t, vs)).ok <==> NoNullStr(List(vs))
    ensures |Chain(Parts(t, vs)).out| % 4 == 0
    decreases t, 1
  {
    var parts := Parts(t, vs);
    forall i | 0 <= i < |vs| ensures (parts[i].ok <==> NoNullStr(vs[i])) && |parts[i].out| % 4 == 0 {
      EncodeSucceeds(t, vs[i]);
    }
    ChainOk(parts);
    ChainAligned(parts);
  }

  // What a wire form denotes.

  lemma {:induction false} DenotedIsLegal(t: Type, w: Bytes, v: Value)
    requires Denotes(t, w, v)
    ensures Has(t, v) && NoNullStr(v)
    ensures |Enc(t, v).out| == |w|
    decreases t, 0
  {
    match t
    case Array(_, elem) => DenotedAreLegal(elem, w, v.elems);
    case Vec(_, elem) => DenotedAreLegal(elem, w[4..], v.elems);
    case Ptr(target) => if v.Ref? { DenotedIsLegal(target, w[4..], v.target); }
    case _ =>
  }

  lemma {:induction false} DenotedAreLegal(t: Type, w: Bytes, vs: seq<Value>)
    requires DenotesAll(WireForm(t), w, vs)
    ensures HasAll(t, vs) && NoNullStr(List(vs))
    ensures |Chain(Parts(t, vs)).out| == |w|
    decreases t, 1
  {
    var ws :| Each(WireForm(t), ws, vs) && w == Flat(ws);
    forall i | 0 <= i < |vs| ensures Has(t, vs[i]) && NoNullStr(vs[i]) && |Enc(t, vs[i]).out| == |ws[i]| {
      DenotedIsLegal(t, ws[i], vs[i]);
    }
    EncodeSucceedsAll(t, vs);
    ChainOk(Parts(t, vs));
    FlatLength(Outs(Parts(t, vs)), ws);
  }

  lemma {:induction false} FlatLength(us: seq<Bytes>, ws: seq<Bytes>)
    requires |us| == |ws| && forall i :: 0 <= i < |us| ==> |us[i]| == |ws[i]|
    ensures |Flat(us)| == |Flat(ws)|
  {
    if us != [] {
      FlatLength(us[1..], ws[1..]);
    }
  }

  lemma {:induction false} FlatJoin(us: seq<Bytes>, ws: seq<Bytes>)
    ensures Flat(us + ws) == Flat(us) + Flat(ws)
  {
    if us == [] {
      assert us + ws == ws;
    } else {
      FlatJoin(us[1..], ws);
      assert (us + ws)[1..] == us[1..] + ws;
    }
  }

  // The decoder accepts every wire form, whatever the target object held.

  ghost predicate Accepts(dec: (Value, Bytes) -> Got, form: (Bytes, Value) -> bool) {
    forall obj, w, v, tail :: form(w, v) ==> dec(obj, w + tail) == Got(true, v, tail)
  }

  lemma {:induction false} DecodeAccepts(t: Type, obj: Value, w: Bytes, v: Value, tail: Bytes)
    requires Denotes(t, w, v)
    ensures Dec(t, obj, w + tail) == Got(true, v, tail)
    decreases t, 0
  {
    match t
    case Array(_, elem) =>
      DecoderAccepts(elem);
      var ws :| Each(WireForm(elem), ws, v.elems) && w == Flat(ws);
      AcceptsOver(Decoder(elem), WireForm(elem), Slots(t, obj), ws, v.elems, tail);
    case Vec(_, elem) =>
      HeadWord(w, tail);
      DecoderAccepts(elem);
      var ws :| Each(WireForm(elem), ws, v.elems) && w[4..] == Flat(ws);
      AcceptsVec(Decoder(elem), WireForm(elem), Slots(t, obj), Fresh(elem), ws, v.elems, tail);
    case Ptr(target) =>
      HeadWord(w, tail);
      if v.Ref? {
        DecodeAccepts(target, if obj.Ref? then obj.target else Fresh(target), w[4..], v.target, tail);
      } else {
        assert w[4..] + tail == tail;
      }
    case _ => LeafAccepts(t, obj, w, v, tail);
  }

  lemma {:induction false} LeafAccepts(t: Type, obj: Value, w: Bytes, v: Value, tail: Bytes)
    requires Leaf(t) && Denotes(t, w, v)
    ensures Dec(t, obj, w + tail) == Got(true, v, tail)
  {
    match t
    case U64 => AcceptsLong(w, tail);
    case I64 => AcceptsLong(w, tail);
    case Opaque(_) => OpaqueAccepts(t, obj, w, v, tail);
    case Variable(_) => CountedAccepts(t, obj, w, v, tail);
    case Str(_) => CountedAccepts(t, obj, w, v, tail);
    case _ => Cut(w, tail);
  }

  lemma {:induction false} OpaqueAccepts(t: Type, obj: Value, w: Bytes, v: Value, tail: Bytes)
    requires t.Opaque? && Denotes(t, w, v)
    ensures Dec(t, obj, w + tail) == Got(true, v, tail)
  {
    Cut(w, tail);
    assert (w + tail)[..t.size] == w[..t.size];
  }

  lemma {:induction false} CountedAccepts(t: Type, obj: Value, w: Bytes, v: Value, tail: Bytes)
    requires (t.Variable? || t.Str?) && Denotes(t, w, v)
    ensures Dec(t, obj, w + tail) == Got(true, v, tail)
  {
    Cut(w, tail);
    AcceptsCounted(w, tail);
  }

  lemma HeadWord(w: Bytes, tail: Bytes)
    requires 4 <= |w|
    ensures (w + tail)[..4] == w[..4] && (w + tail)[4..] == w[4..] + tail
  {
  }

  lemma DecoderAccepts(t: Type)
    ensures Accepts(Decoder(t), WireForm(t))
    decreases t, 1
  {
    forall obj, w, v, tail | WireForm(t)(w, v) ensures Decoder(t)(obj, w + tail) == Got(true, v, tail) {
      DecodeAccepts(t, obj, w, v, tail);
    }
  }

  lemma AcceptsLong(w: Bytes, tail: Bytes)
    requires |w| == 8
    ensures var x := w + tail; x[..4] == w[..4] && x[4..8] == w[4..] && x[8..] == tail
  {
  }

  lemma AcceptsCounted(w: Bytes, tail: Bytes)
    requires 4 <= |w|
    ensures var x := w + tail; var n := Unword(w[..4]);
      x[..4] == w[..4] && (4 + n <= |w| ==> x[4..4 + n] == w[4..][..n])
  {
  }

  lemma {:induction false} AcceptsOver(
    dec: (Value, Bytes) -> Got, form: (Bytes, Value) -> bool,
    objs: seq<Value>, ws: seq<Bytes>, vs: seq<Value>, tail: Bytes)
    requires Accepts(dec, form)
    requires |objs| == |vs| && Each(form, ws, vs)
    ensures DecOver(dec, objs, Flat(ws) + tail) == GotAll(true, vs, tail)
    decreases |objs|
  {
    if vs == [] {
      assert Flat(ws) + tail == tail;
    } else {
      assert Flat(ws) + tail == ws[0] + (Flat(ws[1..]) + tail);
      AcceptsOver(dec, form, objs[1..], ws[1..], vs[1..], tail);
    }
  }

  lemma {:induction false} AcceptsPush(
    dec: (Value, Bytes) -> Got, form: (Bytes, Value) -> bool,
    blank: Value, ws: seq<Bytes>, vs: seq<Value>, tail: Bytes)
    requires Accepts(dec, form)
    requires Each(form, ws, vs)
    ensures DecPush(dec, blank, |vs|, Flat(ws) + tail) == GotAll(true, vs, tail)
    decreases |vs|
  {
    if vs == [] {
      assert Flat(ws) + tail == tail;
    } else {
      assert Flat(ws) + tail == ws[0] + (Flat(ws[1..]) + tail);
      AcceptsPush(dec, form, blank, ws[1..], vs[1..], tail);
    }
  }

  lemma AcceptsVec(
    dec: (Value, Bytes) -> Got, form: (Bytes, Value) -> bool,
    objs: seq<Value>, blank: Value, ws: seq<Bytes>, vs: seq<Value>, tail: Bytes)
    requires Accepts(dec, form)
    requires Each(form, ws, vs)
    ensures DecVec(dec, objs, blank, |vs|, Flat(ws) + tail) == GotAll(true, vs, tail)
  {
    var kept := if |vs| < |objs| then objs[..|vs|] else objs;
    var k := |kept|;
    Halves(ws, k, tail);
    assert vs == vs[..k] + vs[k..];
    AcceptsOver(dec, form, kept, ws[..k], vs[..k], Flat(ws[k..]) + tail);
    AcceptsPush(dec, form, blank, ws[k..], vs[k..], tail);
  }

  lemma {:induction false} Halves(ws: seq<Bytes>, k: nat, tail: Bytes)
    requires k <= |ws|
    ensures Flat(ws) + tail == Flat(ws[..k]) + (Flat(ws[k..]) + tail)
  {
    assert ws == ws[..k] + ws[k..];
    FlatTail(ws[..k], ws[k..], tail);
  }

  lemma {:induction false} FlatTail(us: seq<Bytes>, ws: seq<Bytes>, tail: Bytes)
    ensures Flat(us + ws) + tail == Flat(us) + (Flat(ws) + tail)
  {
    FlatJoin(us, ws);
    Assoc(Flat(us), Flat(ws), tail);
  }

  // Whatever the decoder accepts is a wire form of what it returns.

  /** `w` is a wire form of what was decoded from `x`, and what follows it is the rest. */
  ghost predicate Reads(form: (Bytes, Value) -> bool, x: Bytes, r: Got, w: Bytes) {
    form(w, r.obj) && x == w + r.rest
  }

  ghost predicate Sound(dec: (Value, Bytes) -> Got, form: (Bytes, Value) -> bool) {
    forall obj, x :: dec(obj, x).ok ==> exists w :: Reads(form, x, dec(obj, x), w)
  }

  lemma {:induction false} DecodeSound(t: Type, obj: Value, x: Bytes) returns (w: Bytes)
    requires Dec(t, obj, x).ok
    ensures Denotes(t, w, Dec(t, obj, x).obj) && x == w + Dec(t, obj, x).rest
    decreases t, 0
  {
    match t
    case Array(_, elem) =>
      DecoderSound(elem);
      var ws := SoundOver(Decoder(elem), WireForm(elem), Slots(t, obj), x);
      w := Flat(ws);
    case Vec(_, elem) =>
      DecoderSound(elem);
      var ws := SoundVec(Decoder(elem), WireForm(elem), Slots(t, obj), Fresh(elem), Unword(x[..4]), x[4..]);
      w := AfterWord(x, Flat(ws), Dec(t, obj, x).rest);
    case Ptr(target) =>
      if Unword(x[..4]) == 0 {
        w := AfterWord(x, [], x[4..]);
      } else {
        var u := DecodeSound(target, if obj.Ref? then obj.target else Fresh(target), x[4..]);
        w := AfterWord(x, u, Dec(t, obj, x).rest);
      }
    case _ => w := LeafSound(t, obj, x);
  }

  lemma AfterWord(x: Bytes, u: Bytes, rest: Bytes) returns (w: Bytes)
    requires 4 <= |x| && x[4..] == u + rest
    ensures |w| == 4 + |u| && w[..4] == x[..4] && w[4..] == u && x == w + rest
  {
    w := x[..4] + u;
    assert x == x[..4] + x[4..];
  }

  lemma {:induction false} LeafSound(t: Type, obj: Value, x: Bytes) returns (w: Bytes)
    requires Leaf(t) && Dec(t, obj, x).ok
    ensures Denotes(t, w, Dec(t, obj, x).obj) && x == w + Dec(t, obj, x).rest
  {
    match t
    case U32 => w := Front(x, 4);
    case U64 => w := Front(x, 8); assert w[..4] == x[..4] && w[4..] == x[4..8];
    case I32 => w := Front(x, 4);
    case I64 => w := Front(x, 8); assert w[..4] == x[..4] && w[4..] == x[4..8];
    case Boolean => w := Front(x, 4);
    case Opaque(n) => w := Front(x, n + Padding(n)); assert w[..n] == x[..n];
    case Variable(_) => w := CountedSound(t, obj, x);
    case Str(_) => w := CountedSound(t, obj, x);
  }

  lemma {:induction false} CountedSound(t: Type, obj: Value, x: Bytes) returns (w: Bytes)
    requires (t.Variable? || t.Str?) && Dec(t, obj, x).ok
    ensures Denotes(t, w, Dec(t, obj, x).obj) && x == w + Dec(t, obj, x).rest
  {
    w := SoundCounted(x, t.max);
  }

  lemma Front(x: Bytes, n: nat) returns (w: Bytes)
    requires n <= |x|
    ensures w == x[..n] && x == w + x[n..]
  {
    w := x[..n];
  }

  lemma DecoderSound(t: Type)
    ensures Sound(Decoder(t), WireForm(t))
    decreases t, 1
  {
    forall obj, x | Decoder(t)(obj, x).ok ensures exists w :: Reads(WireForm(t), x, Decoder(t)(obj, x), w) {
      var w := DecodeSound(t, obj, x);
      assert Reads(WireForm(t), x, Decoder(t)(obj, x), w);
    }
  }

  lemma SoundCounted(x: Bytes, max: nat) returns (w: Bytes)
    requires CountOf(x, max).Some?
    ensures var n := CountOf(x, max).value;
      && Counted(w, max) && Unword(w[..4]) == n
      && w[4..][..n] == x[4..4 + n]
      && x == w + x[4 + n + Padding(n)..]
  {
    var n := CountOf(x, max).value;
    w := x[..4 + n + Padding(n)];
    assert w[..4] == x[..4];
  }

  lemma {:induction false} SoundOver(
    dec: (Value, Bytes) -> Got, form: (Bytes, Value) -> bool, objs: seq<Value>, x: Bytes)
    returns (ws: seq<Bytes>)
    requires Sound(dec, form)
    requires DecOver(dec, objs, x).ok
    ensures var d := DecOver(dec, objs, x); x == Flat(ws) + d.rest && Each(form, ws, d.objs)
    decreases |objs|
  {
    if objs == [] {
      ws := [];
    } else {
      var first := dec(objs[0], x);
      var u :| Reads(form, x, first, u);
      var s := SoundOver(dec, form, objs[1..], first.rest);
      ws := [u] + s;
      assert ws[1..] == s;
      Assoc(u, Flat(s), DecOver(dec, objs, x).rest);
    }
  }

  lemma {:induction false} SoundPush(
    dec: (Value, Bytes) -> Got, form: (Bytes, Value) -> bool, blank: Value, n: nat, x: Bytes)
    returns (ws: seq<Bytes>)
    requires Sound(dec, form)
    requires DecPush(dec, blank, n, x).ok
    ensures var d := DecPush(dec, blank, n, x);
      x == Flat(ws) + d.rest && Each(form, ws, d.objs) && |d.objs| == n
    decreases n
  {
    if n == 0 {
      ws := [];
    } else {
      var first := dec(blank, x);
      var u :| Reads(form, x, first, u);
      var s := SoundPush(dec, form, blank, n - 1, first.rest);
      ws := [u] + s;
      assert ws[1..] == s;
      Assoc(u, Flat(s), DecPush(dec, blank, n, x).rest);
    }
  }

  lemma SoundVec(
    dec: (Value, Bytes) -> Got, form: (Bytes, Value) -> bool, objs: seq<Value>, blank: Value, n: nat, x: Bytes)
    returns (ws: seq<Bytes>)
    requires Sound(dec, form)
    requires DecVec(dec, objs, blank, n, x).ok
    ensures var d := DecVec(dec, objs, blank, n, x);
      x == Flat(ws) + d.rest && Each(form, ws, d.objs) && |d.objs| == n
  {
    var kept := if n < |objs| then objs[..n] else objs;
    var r := DecOver(dec, kept, x);
    var us := SoundOver(dec, form, kept, x);
    var ss := SoundPush(dec, form, blank, n - |kept|, r.rest);
    ws := us + ss;
    FlatJoin(us, ss);
    Assoc(Flat(us), Flat(ss), DecVec(dec, objs, blank, n, x).rest);
  }

  // Main results.

  /** Decoding inverts encoding, leaves what follows untouched, and ignores the target's content. */
  lemma RoundTrip(t: Type, v: Value, obj: Value, tail: Bytes)
    requires Has(t, v) && NoNullStr(v)
    ensures Enc(t, v).ok && Dec(t, obj, Enc(t, v).out + tail) == Got(true, v, tail)
  {
    EncodeSucceeds(t, v);
    EncodeDenotes(t, v);
    DecodeAccepts(t, obj, Enc(t, v).out, v, tail);
  }

  /** The decoder succeeds exactly on the inputs that start with a wire form, and returns its value. */
  lemma DecodeExact(t: Type, obj: Value, x: Bytes, v: Value, rest: Bytes)
    ensures Dec(t, obj, x) == Got(true, v, rest) <==> exists w :: Denotes(t, w, v) && x == w + rest
  {
    if Dec(t, obj, x) == Got(true, v, rest) {
      var w := DecodeSound(t, obj, x);
    }
    if w :| Denotes(t, w, v) && x == w + rest {
      DecodeAccepts(t, obj, w, v, rest);
    }
  }

  /** Decoding over an existing object succeeds when decoding into a fresh one does, with the same value. */
  lemma TargetIrrelevant(t: Type, obj: Value, x: Bytes)
    ensures Dec(t, obj, x).ok == Dec(t, Fresh(t), x).ok
    ensures Dec(t, obj, x).ok ==> Dec(t, obj, x) == Dec(t, Fresh(t), x)
  {
    if Dec(t, obj, x).ok {
      var w := DecodeSound(t, obj, x);
      DecodeAccepts(t, Fresh(t), w, Dec(t, obj, x).obj, Dec(t, obj, x).rest);
    }
    if Dec(t, Fresh(t), x).ok {
      var w := DecodeSound(t, Fresh(t), x);
      DecodeAccepts(t, obj, w, Dec(t, Fresh(t), x).obj, Dec(t, Fresh(t), x).rest);
    }
  }

  /** A decoded object encodes again, into as many bytes as were read, a multiple of four. */
  lemma Reencodes(t: Type, obj: Value, x: Bytes)
    requires Dec(t, obj, x).ok
    ensures var d := Dec(t, obj, x);
      && Has(t, d.obj) && Enc(t, d.obj).ok
      && |x| == |Enc(t, d.obj).out| + |d.rest|
      && |Enc(t, d.obj).out| % 4 == 0
  {
    var d := Dec(t, obj, x);
    var w := DecodeSound(t, obj, x);
    DenotedIsLegal(t, w, d.obj);
    EncodeSucceeds(t, d.obj);
  }

  /** No encoding is a proper prefix of another one, and distinct objects have distinct encodings. */
  lemma PrefixFree(t: Type, v: Value, u: Value, tail: Bytes)
    requires Has(t, v) && Has(t, u) && NoNullStr(v) && NoNullStr(u)
    requires Enc(t, v).out + tail == Enc(t, u).out
    ensures v == u && tail == []
  {
    RoundTrip(t, v, v, tail);
    RoundTrip(t, u, v, []);
    assert Enc(t, u).out + [] == Enc(t, u).out;
  }

  /** A truncated message is refused. */
  lemma TruncatedRefused(t: Type, v: Value, obj: Value, n: nat)
    requires Has(t, v) && NoNullStr(v) && n < |Enc(t, v).out|
    ensures !Dec(t, obj, Enc(t, v).out[..n]).ok
  {
    RoundTrip(t, v, obj, []);
    assert Enc(t, v).out + [] == Enc(t, v).out;
    Extends(t, obj, Enc(t, v).out, n);
  }

  /** What decodes from the first `n` bytes decodes from all of them, and leaves the others over. */
  lemma Extends(t: Type, obj: Value, x: Bytes, n: nat)
    requires n <= |x|
    ensures var d := Dec(t, obj, x[..n]); d.ok ==> Dec(t, obj, x) == Got(true, d.obj, d.rest + x[n..])
  {
    if Dec(t, obj, x[..n]).ok {
      var w := DecodeSound(t, obj, x[..n]);
      var rest := Dec(t, obj, x[..n]).rest;
      Rejoin(x, n, w, rest);
      DecodeAccepts(t, obj, w, Dec(t, obj, x[..n]).obj, rest + x[n..]);
    }
  }

  lemma Rejoin(x: Bytes, n: nat, w: Bytes, rest: Bytes)
    requires n <= |x| && x[..n] == w + rest
    ensures x == w + (rest + x[n..])
  {
    assert x == x[..n] + x[n..];
    Assoc(w, rest, x[n..]);
  }
}
