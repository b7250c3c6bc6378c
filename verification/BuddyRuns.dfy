/**
 * Conservation over whole runs of the buddy allocator: the blocks in use and the free units
 * always partition the managed space.  `Drive` makes an allocator go through any sequence of
 * requests and keeps track of the blocks in use.
 */
module BuddyRuns {
  import opened RpcTypes
  import opened Powers
  import opened BuddyBlocks
  import opened Msb
  import opened Bbuddy

  datatype Block = Block(h: nat, p: nat)

  /** `size`: managed space in units.  `live`: blocks handed out and not given back. */
  datatype State = State(size: nat, free: set<nat>, live: set<Block>)

  datatype Step = Alloc(b: Block) | Dealloc(b: Block) | Extend(size: nat)

  ghost predicate Enabled(s: State, step: Step) {
    match step
    case Alloc(b) => BlockFree(s.free, b.h, b.p)
    case Dealloc(b) => b in s.live
    case Extend(n) => n >= s.size
  }

  /** lo, ..., hi - 1 */
  ghost function Interval(lo: nat, hi: nat): (r: set<nat>)
    ensures forall u: nat :: u in r <==> lo <= u < hi
  {
    if hi <= lo then {} else Interval(lo, hi - 1) + {hi - 1}
  }

  ghost function Apply(s: State, step: Step): State {
    match step
    case Alloc(b) => s.(free := s.free - Units(b.h, b.p), live := s.live + {b})
    case Dealloc(b) => s.(free := s.free + Units(b.h, b.p), live := s.live - {b})
    case Extend(n) => s.(size := n, free := s.free + Interval(s.size, n))
  }

  ghost predicate Holds(b: Block, u: nat) { Up(u, b.h) == b.p }

  /** No unit belongs to two live blocks, or to a live block and the free space; and every
      managed unit belongs to one of them. */
  ghost predicate Partition(s: State) {
    && (forall b, u: nat :: b in s.live && Holds(b, u) ==> u !in s.free && u < s.size)
    && (forall b, c, u: nat :: b in s.live && c in s.live && Holds(b, u) && Holds(c, u) ==> b == c)
    && (forall u :: u in s.free ==> u < s.size)
    && (forall u: nat :: u < s.size && u !in s.free ==> exists b :: b in s.live && Holds(b, u))
  }

  ghost predicate ValidRun(s: State, steps: seq<Step>)
    decreases |steps|
  {
    steps == [] || (Enabled(s, steps[0]) && ValidRun(Apply(s, steps[0]), steps[1..]))
  }

  ghost function After(s: State, steps: seq<Step>): State
    decreases |steps|
  {
    if steps == [] then s else After(Apply(s, steps[0]), steps[1..])
  }

  lemma AllocKeeps(s: State, b: Block)
    requires Partition(s) && Enabled(s, Alloc(b))
    ensures Partition(Apply(s, Alloc(b)))
    ensures b !in s.live
  {
    UnitsUpAll(b.h, b.p);
    UpLow(b.p, b.h);
    assert Holds(b, Low(b.p, b.h));
    var t := Apply(s, Alloc(b));
    forall u: nat | u < t.size && u !in t.free ensures exists c :: c in t.live && Holds(c, u) {
      if u in s.free {
        assert b in t.live && Holds(b, u);
      } else {
        var c :| c in s.live && Holds(c, u);
        assert c in t.live;
      }
    }
  }

  lemma DeallocKeeps(s: State, b: Block)
    requires Partition(s) && Enabled(s, Dealloc(b))
    ensures Partition(Apply(s, Dealloc(b)))
    ensures s.free !! Units(b.h, b.p)
  {
    UnitsUpAll(b.h, b.p);
    var t := Apply(s, Dealloc(b));
    forall u | u in t.free ensures u < t.size {
      if u !in s.free { assert Holds(b, u); }
    }
    forall u: nat | u < t.size && u !in t.free ensures exists c :: c in t.live && Holds(c, u) {
      var c :| c in s.live && Holds(c, u);
      assert c in t.live;
    }
  }

  lemma ExtendKeeps(s: State, n: nat)
    requires Partition(s) && n >= s.size
    ensures Partition(Apply(s, Extend(n)))
  {
    var t := Apply(s, Extend(n));
    forall u: nat | u < t.size && u !in t.free ensures exists c :: c in t.live && Holds(c, u) {
      var c :| c in s.live && Holds(c, u);
    }
  }

  /** Over every run, from a partition of the space on. */
  lemma {:induction false} Conservation(s: State, steps: seq<Step>)
    requires Partition(s) && ValidRun(s, steps)
    ensures Partition(After(s, steps))
    decreases |steps|
  {
    if steps != [] {
      match steps[0] {
        case Alloc(b) => AllocKeeps(s, b);
        case Dealloc(b) => DeallocKeeps(s, b);
        case Extend(n) => ExtendKeeps(s, n);
      }
      Conservation(Apply(s, steps[0]), steps[1..]);
    }
  }

  // ----- the allocator itself

  /** A request: allocate n bytes, give back the k-th allocation still held, grow. */
  datatype Request = Get(n: nat) | Return(k: nat) | Resize(ts: nat)

  /** The sizes fit a size_t. */
  ghost predicate Representable(r: Request) {
    match r
    case Get(n) => n < TWO_TO_64
    case Return(_) => true
    case Resize(ts) => ts < TWO_TO_64
  }

  /** An allocation as its holder knows it. */
  datatype Held = Held(off: nat, len: nat)

  ghost function Top(a: Allocator): nat
    requires a.log2min <= a.log2max
  {
    a.log2max - a.log2min
  }

  /** The managed units, the free ones and the blocks held. */
  ghost function Space(a: Allocator, live: set<Block>): State
    requires a.log2min <= a.log2max
    reads a, a.fm
  {
    State(Low(a.fm.blocks, Top(a)), a.free, live)
  }

  /** The allocation is of a whole block of its size class. */
  ghost predicate Fits(a: Allocator, x: Held, b: Block) {
    && 0 < x.len < TWO_TO_64 && a.SizeClass(x.len) <= a.log2max
    && b == Block(a.SizeClass(x.len) - a.log2min, Up(x.off, a.SizeClass(x.len)))
    && x.off == Low(b.p, a.SizeClass(x.len))
  }

  /** Allocation i holds block i, and no two hold the same one. */
  ghost predicate Holding(a: Allocator, held: seq<Held>, blocks: seq<Block>) {
    |held| == |blocks| && Distinct(blocks) && forall i :: 0 <= i < |held| ==> Fits(a, held[i], blocks[i])
  }

  /** Blocks held and free units partition the managed space of a valid allocator. */
  ghost predicate Sound(a: Allocator, held: seq<Held>, blocks: seq<Block>)
    reads a, a.fm, a.fm.repr
  {
    a.Valid() && Holding(a, held, blocks) && Partition(Space(a, Elements(blocks)))
  }

  /** What callers can tell: their allocations, the free units, and the space in blocks of the largest size. */
  datatype Moment = Moment(held: seq<Held>, free: set<nat>, blocks: nat)

  ghost function Seen(a: Allocator, held: seq<Held>): (u: Moment)
    reads a, a.fm
  {
    Moment(held, a.free, a.fm.blocks)
  }

  /** The units of an allocation. */
  ghost function UnitsOf(a: Allocator, x: Held): (r: set<nat>)
    requires 0 < x.len < TWO_TO_64 && x.off >= 0 && a.SizeClass(x.len) >= a.log2min
  {
    Units(a.SizeClass(x.len) - a.log2min, Up(x.off, a.SizeClass(x.len)))
  }

  /** No block can be had for so many bytes. */
  ghost predicate Denied(a: Allocator, n: nat, free: set<nat>)
    requires n < TWO_TO_64
  {
    n == 0 || a.SizeClass(n) > a.log2max || NoneFreeAt(free, a.SizeClass(n) - a.log2min)
  }

  /** The request leads from `u` to `v`; one that the source does not allow leads nowhere. */
  ghost predicate Leads(a: Allocator, r: Request, u: Moment, v: Moment)
    requires Representable(r)
  {
    match r
    case Get(n) =>
      if Denied(a, n, u.free) then v == u
      else exists off: nat :: Gets(a, Held(off, n), u, v)
    case Return(k) =>
      if k >= |u.held| then v == u
      else
        && v.held == u.held[..k] + u.held[k + 1..] && v.blocks == u.blocks
        && 0 < u.held[k].len < TWO_TO_64
        && UnitsOf(a, u.held[k]) !! u.free && v.free == u.free + UnitsOf(a, u.held[k])
    case Resize(t) =>
      if Up(t, a.log2max) < u.blocks then v == u
      else
        && v.held == u.held && v.blocks == Up(t, a.log2max) && a.log2min <= a.log2max
        && v.free == u.free + Interval(Low(u.blocks, Top(a)), Low(v.blocks, Top(a)))
  }

  /** The allocation is of units that were free, at a multiple of its class's size. */
  ghost predicate Gets(a: Allocator, x: Held, u: Moment, v: Moment) {
    && 0 < x.len < TWO_TO_64 && v.held == u.held + [x] && v.blocks == u.blocks
    && x.off == Low(Up(x.off, a.SizeClass(x.len)), a.SizeClass(x.len))
    && UnitsOf(a, x) <= u.free && v.free == u.free - UnitsOf(a, x)
  }

  /** A block whose units are managed is in the range of its map. */
  lemma InRoom(blocks: nat, top: nat, b: Block)
    requires b.h <= top && forall u: nat :: Holds(b, u) ==> u < Low(blocks, top)
    ensures b.p < Low(blocks, top - b.h)
  {
    UpLow(b.p, b.h);
    assert Holds(b, Low(b.p, b.h));
    LowAdd(blocks, top - b.h, b.h);
    UpBelow(Low(b.p, b.h), Low(blocks, top - b.h), b.h);
  }

  lemma LeadsGet(a: Allocator, n: nat, r: int, u: Moment, v: Moment)
    requires n < TWO_TO_64 && r >= -1 && v.blocks == u.blocks
    requires r == -1 <==> Denied(a, n, u.free)
    requires r == -1 ==> v.held == u.held && v.free == u.free
    requires r >= 0 ==>
      var p := Up(r, a.SizeClass(n));
      && r == Low(p, a.SizeClass(n)) && BlockFree(u.free, a.SizeClass(n) - a.log2min, p)
      && v.held == u.held + [Held(r, n)] && v.free == u.free - Units(a.SizeClass(n) - a.log2min, p)
    ensures Leads(a, Get(n), u, v)
  {
    if r >= 0 {
      UnitsUpAll(a.SizeClass(n) - a.log2min, Up(r, a.SizeClass(n)));
      assert Gets(a, Held(r, n), u, v);
    }
  }

  lemma LeadsReturn(a: Allocator, k: nat, b: Block, u: Moment, v: Moment)
    requires k < |u.held| && Fits(a, u.held[k], b) && u.free !! Units(b.h, b.p)
    requires v == Moment(u.held[..k] + u.held[k + 1..], u.free + Units(b.h, b.p), u.blocks)
    ensures Leads(a, Return(k), u, v)
  {
  }

  /** One more allocation. */
  lemma Gained(a: Allocator, x: Held, held: seq<Held>, blocks: seq<Block>, s: State) returns (b: Block)
    requires a.log2min <= a.log2max && Holding(a, held, blocks) && Partition(s) && s.live == Elements(blocks)
    requires 0 < x.len < TWO_TO_64 && a.SizeClass(x.len) <= a.log2max
    requires var p := Up(x.off, a.SizeClass(x.len));
      x.off == Low(p, a.SizeClass(x.len)) && BlockFree(s.free, a.SizeClass(x.len) - a.log2min, p)
    ensures b == Block(a.SizeClass(x.len) - a.log2min, Up(x.off, a.SizeClass(x.len)))
    ensures Holding(a, held + [x], blocks + [b])
    ensures Partition(State(s.size, s.free - Units(b.h, b.p), Elements(blocks + [b])))
  {
    b := Block(a.SizeClass(x.len) - a.log2min, Up(x.off, a.SizeClass(x.len)));
    AllocKeeps(s, b);
    assert Elements(blocks + [b]) == Elements(blocks) + {b};
    assert Apply(s, Alloc(b)) == State(s.size, s.free - Units(b.h, b.p), Elements(blocks + [b]));
    assert b !in blocks;
  }

  method GetBlock(a: Allocator, n: nat, held: seq<Held>, ghost blocks: seq<Block>)
    returns (held': seq<Held>, ghost blocks': seq<Block>)
    requires Sound(a, held, blocks) && n < TWO_TO_64
    modifies a`free, a`spaceleft, a.fm.repr
    ensures Sound(a, held', blocks') && a.fm.repr == old(a.fm.repr)
    ensures Leads(a, Get(n), old(Seen(a, held)), Seen(a, held'))
  {
    ghost var before := Space(a, Elements(blocks));
    var r := a.Alloc(n);
    held', blocks' := held, blocks;
    if r >= 0 {
      ghost var b := Gained(a, Held(r, n), held, blocks, before);
      held', blocks' := held + [Held(r, n)], blocks + [b];
      assert Space(a, Elements(blocks')) == State(before.size, before.free - Units(b.h, b.p), Elements(blocks + [b]));
    } else {
      assert Space(a, Elements(blocks')) == before;
    }
    LeadsGet(a, n, r, old(Seen(a, held)), Seen(a, held'));
  }

  method ReturnBlock(a: Allocator, k: nat, held: seq<Held>, ghost blocks: seq<Block>)
    returns (held': seq<Held>, ghost blocks': seq<Block>)
    requires Sound(a, held, blocks) && k < |held|
    modifies a`free, a`spaceleft, a.fm.repr
    ensures Sound(a, held', blocks') && a.fm.repr == old(a.fm.repr)
    ensures Leads(a, Return(k), old(Seen(a, held)), Seen(a, held'))
  {
    ghost var before, b := Space(a, Elements(blocks)), blocks[k];
    HeldBlock(a, held, blocks, k, before, a.fm.blocks);
    FreeHeld(a, held[k], b);
    held', blocks' := held[..k] + held[k + 1..], blocks[..k] + blocks[k + 1..];
    Dropped(a, held, blocks, k);
    assert Space(a, Elements(blocks')) == Apply(before, Dealloc(b));
    LeadsReturn(a, k, b, old(Seen(a, held)), Seen(a, held'));
  }

  method FreeHeld(a: Allocator, x: Held, ghost b: Block)
    requires a.Valid() && Fits(a, x, b) && b.p < a.fm.Room(b.h) && a.free !! Units(b.h, b.p)
    modifies a`free, a`spaceleft, a.fm.repr
    ensures a.Valid() && a.fm.repr == old(a.fm.repr) && a.fm.blocks == old(a.fm.blocks)
    ensures a.free == old(a.free) + Units(b.h, b.p)
  {
    a.Dealloc(x.off, x.len);
  }

  /** A block held can be given back. */
  lemma HeldBlock(a: Allocator, held: seq<Held>, blocks: seq<Block>, k: nat, s: State, room: nat)
    requires a.log2min <= a.log2max && Holding(a, held, blocks) && k < |held|
    requires Partition(s) && s.live == Elements(blocks) && s.size == Low(room, Top(a))
    ensures var b := blocks[k];
      && Fits(a, held[k], b) && b.p < Low(room, Top(a) - b.h) && s.free !! Units(b.h, b.p)
      && Partition(Apply(s, Dealloc(b)))
  {
    var b := blocks[k];
    assert Fits(a, held[k], b);
    assert b in s.live && b.h <= Top(a);
    DeallocKeeps(s, b);
    LiveInRoom(s, room, Top(a), b);
  }

  lemma LiveInRoom(s: State, blocks: nat, top: nat, b: Block)
    requires Partition(s) && b in s.live && b.h <= top && s.size == Low(blocks, top)
    ensures b.p < Low(blocks, top - b.h)
  {
    InRoom(blocks, top, b);
  }

  lemma Dropped(a: Allocator, held: seq<Held>, blocks: seq<Block>, k: nat)
    requires Holding(a, held, blocks) && k < |blocks|
    ensures var h, r := held[..k] + held[k + 1..], blocks[..k] + blocks[k + 1..];
      Holding(a, h, r) && Elements(r) == Elements(blocks) - {blocks[k]}
  {
    var h, r := held[..k] + held[k + 1..], blocks[..k] + blocks[k + 1..];
    Cut(blocks, k);
    forall j | 0 <= j < |h| ensures Fits(a, h[j], r[j]) {
      var i := if j < k then j else j + 1;
      assert h[j] == held[i] && r[j] == blocks[i] && Fits(a, held[i], blocks[i]);
    }
  }

  lemma Cut(s: seq<Block>, k: nat)
    requires k < |s| && Distinct(s)
    ensures var r := s[..k] + s[k + 1..]; Distinct(r) && Elements(r) == Elements(s) - {s[k]}
  {
    var r := s[..k] + s[k + 1..];
    assert forall j :: 0 <= j < |r| ==> r[j] == s[if j < k then j else j + 1];
    assert s == s[..k] + [s[k]] + s[k + 1..];
  }

  lemma AddsInterval(was: set<nat>, free: set<nat>, lo: nat, hi: nat)
    requires forall u: nat :: u in free <==> u in was || lo <= u < hi
    ensures free == was + Interval(lo, hi)
  {
  }

  method Grow(a: Allocator, ts: nat, held: seq<Held>, ghost blocks: seq<Block>)
    requires Sound(a, held, blocks) && ts < TWO_TO_64 && Up(ts, a.log2max) >= a.fm.blocks
    modifies a`free, a`spaceleft, a`totsize, a.fm.repr
    ensures Sound(a, held, blocks) && a.fm.repr == old(a.fm.repr)
    ensures Leads(a, Resize(ts), old(Seen(a, held)), Seen(a, held))
  {
    ghost var before := Space(a, Elements(blocks));
    a.SetTotSize(ts);
    ghost var size := Low(a.fm.blocks, Top(a));
    RangeAsBlocks(old(a.fm.blocks), a.fm.blocks, Top(a));
    AddsInterval(before.free, a.free, before.size, size);
    ExtendKeeps(before, size);
  }

  /**
   * Any sequence of allocations, returns and growth, from a new allocator on: in the end, as after
   * each request, the allocations held and the free units partition the managed space, and
   * `spaceleft` is the size of the free units.  A return of nothing and a shrinking size, which
   * the source does not allow, are skipped.
   */
  method Drive(ts: nat, minalloc: nat, maxalloc: nat, script: seq<Request>)
    returns (a: Allocator, held: seq<Held>, ghost blocks: seq<Block>, ghost history: seq<Moment>)
    requires ts < TWO_TO_64 && 2 <= minalloc < TWO_TO_64 && 0 < maxalloc <= 0x4000_0000
    requires Log2c(minalloc) <= Log2c(maxalloc)
    requires forall i :: 0 <= i < |script| ==> Representable(script[i])
    ensures Sound(a, held, blocks) && a.spaceleft == |a.free| * Pow2(a.log2min)
    ensures |history| == |script| + 1 && history[|script|] == Seen(a, held)
    ensures history[0].held == [] && history[0].blocks == Up(ts, a.log2max)
    ensures a.log2min == Log2c(minalloc) && a.log2max == Log2c(maxalloc)
    ensures forall i :: 0 <= i < |script| ==> Leads(a, script[i], history[i], history[i + 1])
  {
    a := new Allocator(ts, minalloc, maxalloc);
    held, blocks, history := [], [], [Seen(a, [])];
    for i := 0 to |script|
      invariant Sound(a, held, blocks) && fresh(a) && fresh(a.fm.repr)
      invariant |history| == i + 1 && history[i] == Seen(a, held)
      invariant history[0].held == [] && history[0].blocks == Up(ts, a.log2max)
      invariant forall j :: 0 <= j < i ==> Leads(a, script[j], history[j], history[j + 1])
    {
      assert Representable(script[i]);
      held, blocks := Serve(a, script[i], held, blocks);
      history := history + [Seen(a, held)];
    }
  }

  method Serve(a: Allocator, r: Request, held: seq<Held>, ghost blocks: seq<Block>)
    returns (held': seq<Held>, ghost blocks': seq<Block>)
    requires Sound(a, held, blocks) && Representable(r)
    modifies a, a.fm.repr
    ensures Sound(a, held', blocks') && a.fm.repr == old(a.fm.repr)
    ensures Leads(a, r, old(Seen(a, held)), Seen(a, held'))
  {
    held', blocks' := held, blocks;
    match r
    case Get(n) => held', blocks' := GetBlock(a, n, held, blocks);
    case Return(k) =>
      if k < |held| {
        held', blocks' := ReturnBlock(a, k, held, blocks);
      }
    case Resize(t) =>
      if Low(Up(t, a.log2max), a.log2max) >= a.totsize {
        LowOrder(Up(t, a.log2max), a.fm.blocks, a.log2max);
        Grow(a, t, held, blocks);
      } else if Up(t, a.log2max) >= a.fm.blocks {
        LowRises(a.fm.blocks, Up(t, a.log2max), a.log2max);
      }
  }

  lemma LowRises(p: nat, q: nat, h: nat)
    requires p <= q
    ensures Low(p, h) <= Low(q, h)
  {
    LowPow2(p, h);
    LowPow2(q, h);
  }

  lemma LowOrder(p: nat, q: nat, h: nat)
    requires Low(p, h) >= Low(q, h)
    ensures p >= q
  {
    LowPow2(p, h);
    LowPow2(q, h);
  }
}
