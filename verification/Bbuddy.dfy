/**
 * The binary buddy allocator (async/bbuddy.C): one bitmap of free blocks per size class.  `free`
 * is the set of free units of the smallest size; in every reachable state the bitmaps record
 * exactly its maximal free blocks, whatever the history.
 */
module Bbuddy {
  import opened BuddyBlocks
  import opened Powers
  import opened FreeMaps
  import opened Msb

  /** Halving a taken block (i + 1, p / 2): the upper half is to be freed on its own. */
  lemma SplitStep(all: set<nat>, free: set<nat>, i: nat, p: nat)
    requires p % 2 == 0 && Units(i + 1, p / 2) <= all && free == all - Units(i + 1, p / 2)
    ensures free !! Units(i, p + 1) && !BlockFree(free, i, Buddy(p + 1))
    ensures Units(i, p) <= all && free + Units(i, p + 1) == all - Units(i, p)
  {
    Merge(i, p);
    assert Buddy(p) == p + 1 && Buddy(p + 1) == p;
    UnitsUpAll(i, p);
    UpLow(p, i);
    assert Low(p, i) !in free;
  }

  /** Coalescing: the buddy (i, p ^ 1) is taken so that it can be freed together with (i, p). */
  lemma CoalesceStep(maps: seq<set<nat>>, all: set<nat>, free: set<nat>, top: nat, i: nat, p: nat)
    requires Canonical(maps, free, top) && i < top && Buddy(p) in maps[i]
    requires free !! Units(i, p) && all == free + Units(i, p)
    ensures Canonical(maps[i := maps[i] - {Buddy(p)}], free - Units(i, Buddy(p)), top)
    ensures free - Units(i, Buddy(p)) !! Units(i + 1, p / 2)
    ensures all == (free - Units(i, Buddy(p))) + Units(i + 1, p / 2)
  {
    Take(maps, free, top, i, Buddy(p));
    Merge(i, p);
    assert Maximal(free, top, i, Buddy(p));
    UnitsUpAll(i, Buddy(p));
    assert Units(i, Buddy(p)) <= free;
  }

  lemma Distribute(a: nat, b: nat, c: nat)
    ensures (a + b) * c == a * c + c * b
  {
  }

  /** The buddy of a block in range is in range, and so is the block they form. */
  lemma HalfRoom(blocks: nat, d: nat, p: nat)
    requires d > 0 && p < Low(blocks, d)
    ensures Buddy(p) < Low(blocks, d) && p / 2 < Low(blocks, d - 1)
  {
    LowDouble(blocks, d - 1);
  }

  /** A block that is not free has no bit. */
  lemma NoBit(maps: seq<set<nat>>, free: set<nat>, top: nat, h: nat, p: nat)
    requires Canonical(maps, free, top) && h <= top && free !! Units(h, p)
    ensures p !in maps[h] && !BlockFree(free, h, p)
  {
    UnitsUpAll(h, p);
    UpLow(p, h);
    assert Low(p, h) !in free;
    assert !Maximal(free, top, h, p);
  }

  /** All units of a recorded block are free. */
  lemma RecordedFree(maps: seq<set<nat>>, free: set<nat>, top: nat, h: nat, p: nat)
    requires Canonical(maps, free, top) && h <= top && p in maps[h]
    ensures BlockFree(free, h, p) && Units(h, p) <= free
  {
    assert Maximal(free, top, h, p);
    UnitsUpAll(h, p);
  }

  class Allocator {
    const log2min: nat
    const log2max: nat
    const fm: FreeMaps
    var totsize: nat
    var spaceleft: int
    ghost var free: set<nat>        // the free units

    ghost predicate Consistent()
      reads this, fm, fm.repr
    {
      && 1 <= log2min <= log2max <= 30 && this !in fm.repr
      && fm.Valid() && |fm.maps| == log2max - log2min + 1
      && Canonical(fm.maps, free, log2max - log2min)
      && (forall u :: u in free ==> u < Low(fm.blocks, log2max - log2min))
    }

    /** The size class of a request of n > 0 bytes: the least class that holds it. */
    function SizeClass(n: nat): (sn: nat)
      requires 0 < n < TWO_TO_64
      ensures sn >= log2min && n <= Pow2(sn)
      ensures forall k: nat :: k >= log2min && n <= Pow2(k) ==> sn <= k
    {
      var sn := Log2c(n);
      if sn < log2min then
        Pow2Grows(sn, log2min);
        log2min
      else
        sn
    }

    /** The space left is the total size of the free blocks. */
    ghost predicate Accounted()
      reads this, fm, fm.repr
    {
      Consistent() && spaceleft == |free| * Pow2(log2min)
    }

    ghost predicate Valid()
      reads this, fm, fm.repr
    {
      Accounted() && totsize == Low(fm.blocks, log2max)
    }

    /** async/bbuddy.C:127-135. */
    constructor (ts: nat, minalloc: nat, maxalloc: nat)
      requires ts < TWO_TO_64 && 2 <= minalloc && 0 < maxalloc <= 0x4000_0000
      requires minalloc < TWO_TO_64 && Log2c(minalloc) <= Log2c(maxalloc)
      ensures Valid() && fresh(fm.repr)
      ensures log2min == Log2c(minalloc) && log2max == Log2c(maxalloc)
      ensures fm.blocks == Up(ts, log2max) && forall u: nat :: u in free <==> u < Low(fm.blocks, log2max - log2min)
    {
      log2min, log2max := Log2c(minalloc), Log2c(maxalloc);
      fm := new FreeMaps(Log2c(maxalloc) - Log2c(minalloc) + 1);
      totsize, spaceleft, free := 0, 0, {};
      new;
      ClassRange(minalloc, maxalloc);
      NothingFree(fm.maps, log2max - log2min);
      LowPow2(0, log2max);
      SetTotSize(ts);
      LowPow2(0, log2max - log2min);
    }

    /** Halve a taken block and record its upper half. */
    method SplitOnce(i: nat, q: nat, ghost all: set<nat>)
      requires Consistent() && i < log2max - log2min && q < fm.Room(i + 1)
      requires Units(i + 1, q) <= all && free == all - Units(i + 1, q)
      modifies this`free, fm.repr
      ensures Consistent() && fm.repr == old(fm.repr) && fm.blocks == old(fm.blocks)
      ensures 2 * q < fm.Room(i) && Units(i, 2 * q) <= all && free == all - Units(i, 2 * q)
    {
      ghost var left := all - Units(i, 2 * q);
      SplitStep(all, free, i, 2 * q);
      HalvesFit(fm.blocks, log2max - log2min, i, q);
      RecordBlock(i, 2 * q + 1, left);
    }

    /** Take a recorded block. */
    method TakeBlock(g: nat, p: nat)
      requires Consistent() && g <= log2max - log2min && p in fm.maps[g] && p < fm.Room(g)
      modifies this`free, fm.repr
      ensures Consistent() && fm.repr == old(fm.repr) && fm.blocks == old(fm.blocks)
      ensures fm.maps == old(fm.maps)[g := old(fm.maps)[g] - {p}]
      ensures Units(g, p) <= old(free) && free == old(free) - Units(g, p)
    {
      RecordedFree(fm.maps, free, log2max - log2min, g, p);
      Take(fm.maps, free, log2max - log2min, g, p);
      fm.ClrBit(g, p);
      free := free - Units(g, p);
    }

    /** async/bbuddy.C:191-200: take a recorded block and give back what is not needed. */
    method Split(g: nat, p0: nat, h: nat) returns (p: nat)
      requires Consistent() && h <= g <= log2max - log2min && p0 in fm.maps[g] && p0 < fm.Room(g)
      modifies this`free, fm.repr
      ensures Consistent() && fm.repr == old(fm.repr) && fm.blocks == old(fm.blocks)
      ensures Units(h, p) <= old(free) && free == old(free) - Units(h, p) && p == Low(p0, g - h)
    {
      ghost var all := free;
      TakeBlock(g, p0);
      p := p0;
      var i: nat := g;
      while i > h
        invariant h <= i <= g
        invariant Consistent() && fm.repr == old(fm.repr) && fm.blocks == old(fm.blocks)
        invariant p < fm.Room(i) && p == Low(p0, g - i)
        invariant Units(i, p) <= all && free == all - Units(i, p)
      {
        LowDouble(p0, g - i);
        i := i - 1;
        SplitOnce(i, p, all);
        p := 2 * p;
      }
    }

    /** Record a block whose buddy is not free. */
    method RecordBlock(h: nat, p: nat, ghost all: set<nat>)
      requires Consistent() && h <= log2max - log2min && p < fm.Room(h)
      requires free !! Units(h, p) && all == free + Units(h, p)
      requires h < log2max - log2min ==> !BlockFree(free, h, Buddy(p))
      modifies this`free, fm.repr
      ensures Consistent() && fm.repr == old(fm.repr) && fm.blocks == old(fm.blocks) && free == all
    {
      ghost var top := log2max - log2min;
      NoBit(fm.maps, free, top, h, p);
      Give(fm.maps, free, top, h, p);
      UnitsInRange(fm.blocks, top, h, p);
      fm.SetBit(h, p);
      free := free + Units(h, p);
    }

    /** One round of coalescing: the buddy is free, so the two are freed as one larger block. */
    method CoalesceOnce(i: nat, p: nat, ghost all: set<nat>)
      requires Consistent() && i < log2max - log2min && p < fm.Room(i) && Buddy(p) < fm.Room(i)
      requires free !! Units(i, p) && all == free + Units(i, p) && Buddy(p) in fm.maps[i]
      modifies this`free, fm.repr
      ensures Consistent() && fm.repr == old(fm.repr) && fm.blocks == old(fm.blocks)
      ensures free !! Units(i + 1, p / 2) && all == free + Units(i + 1, p / 2)
    {
      CoalesceStep(fm.maps, all, free, log2max - log2min, i, p);
      TakeBlock(i, Buddy(p));
    }

    /** The block is freed together with its buddy if that is free, and recorded by itself otherwise. */
    method Coalesce(i: nat, p: nat, ghost all: set<nat>) returns (joined: bool)
      requires Consistent() && i < log2max - log2min && p < fm.Room(i)
      requires free !! Units(i, p) && all == free + Units(i, p)
      modifies this`free, fm.repr
      ensures Consistent() && fm.repr == old(fm.repr) && fm.blocks == old(fm.blocks)
      ensures joined <==> Buddy(p) in old(fm.maps)[i]
      ensures joined ==> p / 2 < fm.Room(i + 1) && free !! Units(i + 1, p / 2) && all == free + Units(i + 1, p / 2)
      ensures !joined ==> free == all
    {
      ghost var top: nat := log2max - log2min;
      HalfRoom(fm.blocks, top - i, p);
      joined := fm.GetBit(i, Buddy(p));
      if joined {
        CoalesceOnce(i, p, all);
      } else {
        BuddyNotFree(fm.maps, free, top, i, p);
        RecordBlock(i, p, all);
      }
    }

    /** async/bbuddy.C:218-228: record a freed block, coalescing it with its buddies. */
    method Release(h: nat, p0: nat)
      requires Consistent() && h <= log2max - log2min && p0 < fm.Room(h) && free !! Units(h, p0)
      modifies this`free, fm.repr
      ensures Consistent() && fm.repr == old(fm.repr) && fm.blocks == old(fm.blocks)
      ensures free == old(free) + Units(h, p0)
    {
      var p: nat, i: nat := p0, h;
      ghost var top: nat, all := log2max - log2min, free + Units(h, p0);
      while i < log2max - log2min
        invariant h <= i <= top
        invariant Consistent() && fm.repr == old(fm.repr) && fm.blocks == old(fm.blocks)
        invariant p < fm.Room(i) && free !! Units(i, p) && all == free + Units(i, p)
      {
        var joined := Coalesce(i, p, all);
        if !joined {
          return;
        }
        i := i + 1;
        p := p / 2;
      }
      RecordBlock(i, p, all);
    }

    /** async/bbuddy.C:205-229.  What the caller gives back is a block of the size class of `len`,
        inside the managed space, no part of which is free. */
    method Dealloc(off: nat, len: nat)
      requires Accounted() && 0 < len < TWO_TO_64 && SizeClass(len) <= log2max
      requires var h, p := SizeClass(len) - log2min, Up(off, SizeClass(len));
        off == Low(p, SizeClass(len)) && p < fm.Room(h) && free !! Units(h, p)
      modifies this`free, this`spaceleft, fm.repr
      ensures Accounted() && fm.repr == old(fm.repr) && fm.blocks == old(fm.blocks)
      ensures free == old(free) + Units(SizeClass(len) - log2min, Up(off, SizeClass(len)))
    {
      var sn := Log2c(len);
      if sn < log2min {
        sn := log2min;
      }
      assert sn == SizeClass(len);
      var pos := Up(off, sn);
      FreeBlock(sn - log2min, pos);
    }

    method FreeBlock(h: nat, p: nat)
      requires Accounted() && h <= log2max - log2min && p < fm.Room(h) && free !! Units(h, p)
      modifies this`free, this`spaceleft, fm.repr
      ensures Accounted() && fm.repr == old(fm.repr) && fm.blocks == old(fm.blocks)
      ensures free == old(free) + Units(h, p)
    {
      spaceleft := spaceleft + Pow2(log2min + h);
      ClassSize(free, h, p);
      Release(h, p);
    }

    /** The bytes of a block of class log2min + h, and of a free space with and without it. */
    lemma ClassSize(rest: set<nat>, h: nat, p: nat)
      requires rest !! Units(h, p)
      ensures |rest + Units(h, p)| * Pow2(log2min) == |rest| * Pow2(log2min) + Pow2(log2min + h)
    {
      UnitsSize(h, p);
      Pow2Add(log2min, h);
      assert |rest + Units(h, p)| == |rest| + Pow2(h);
      Distribute(|rest|, Pow2(h), Pow2(log2min));
    }

    lemma TakenSize(all: set<nat>, h: nat, p: nat)
      requires Units(h, p) <= all
      ensures |all| * Pow2(log2min) == |all - Units(h, p)| * Pow2(log2min) + Pow2(log2min + h)
      ensures BlockFree(all, h, p) && !NoneFreeAt(all, h)
    {
      ClassSize(all - Units(h, p), h, p);
      assert (all - Units(h, p)) + Units(h, p) == all;
      UnitsUpAll(h, p);
    }

    /** Some free block of height h, if there is one. */
    method AllocBlock(h: nat) returns (ok: bool, p: nat)
      requires Accounted() && h <= log2max - log2min
      modifies this`free, this`spaceleft, fm.repr
      ensures Accounted() && fm.repr == old(fm.repr) && fm.blocks == old(fm.blocks)
      ensures !ok <==> NoneFreeAt(old(free), h)
      ensures !ok ==> free == old(free)
      ensures ok ==> BlockFree(old(free), h, p) && free == old(free) - Units(h, p) && Best(old(fm.maps), h, p)
    {
      var g;
      g, p := fm.FindFrom(h);
      if g > log2max - log2min {
        NoneFree(fm.maps, free, log2max - log2min, h);
        return false, 0;
      }
      ghost var q: nat := p;
      p := Split(g, p, h);
      assert BestAt(old(fm.maps), h, p, g, q);
      TakenSize(old(free), h, p);
      spaceleft := spaceleft - Pow2(log2min + h);
      ok := true;
    }

    /** async/bbuddy.C:174-203: -1 exactly if the size is 0 or too large, or no aligned block of
        its class is entirely free; otherwise such a block, which stops being free. */
    method Alloc(n: nat) returns (r: int)
      requires Valid() && n < TWO_TO_64
      modifies this`free, this`spaceleft, fm.repr
      ensures Valid() && fm.repr == old(fm.repr) && fm.blocks == old(fm.blocks)
      ensures r >= -1 && (r == -1 ==> free == old(free))
      ensures r == -1 <==>
        n == 0 || SizeClass(n) > log2max || NoneFreeAt(old(free), SizeClass(n) - log2min)
      ensures r >= 0 ==>
        var p := Up(r, SizeClass(n));
        && r == Low(p, SizeClass(n))
        && BlockFree(old(free), SizeClass(n) - log2min, p)
        && free == old(free) - Units(SizeClass(n) - log2min, p)
        && Best(old(fm.maps), SizeClass(n) - log2min, p)
    {
      var sn := Log2c(n);
      if sn == -1 {
        return -1;     // (u_int) -1 exceeds log2maxalloc
      }
      if sn < log2min {
        sn := log2min;
      }
      if sn > log2max {
        return -1;
      }
      var ok, pos := AllocBlock(sn - log2min);
      if !ok {
        return -1;
      }
      UpLow(pos, sn);
      r := Low(pos, sn);
    }

    /** async/bbuddy.C:137-167: the managed space grows to the whole blocks of the largest size
        that fit ts; the new space is free and nothing else changes. */
    method SetTotSize(ts: nat)
      requires Valid() && Up(ts, log2max) >= fm.blocks && ts < TWO_TO_64
      modifies this`free, this`spaceleft, this`totsize, fm.repr
      ensures Valid() && fm.repr == old(fm.repr) && fm.blocks == Up(ts, log2max)
      ensures forall u: nat :: u in free <==>
        u in old(free) || Low(old(fm.blocks), log2max - log2min) <= u < Low(fm.blocks, log2max - log2min)
    {
      var target := Up(ts, log2max);
      ghost var top, first := log2max - log2min, fm.blocks;
      RangeAsBlocks(first, target, top);
      fm.Grow(target);
      NoSmallBit(first, log2max);    // so the loop of async/bbuddy.C:152-159 leaves at once
      LowNext(first, target, log2max);
      FreeFrom(target, first);
      totsize := Low(target, log2max);
    }

    /** async/bbuddy.C:160-163: free the blocks of the largest size from block `first` on. */
    method FreeFrom(target: nat, ghost first: nat)
      requires Accounted() && first <= target == fm.blocks && totsize == Low(first, log2max)
      requires Below(free, log2max - log2min, first)
      modifies this`free, this`spaceleft, fm.repr
      ensures Accounted() && fm.repr == old(fm.repr) && fm.blocks == old(fm.blocks)
      ensures FilledTo(old(free), free, log2max - log2min, first, target)
    {
      ghost var top: nat := log2max - log2min;
      var o := totsize;
      ghost var b: nat := first;
      LowNext(b, target, log2max);
      while o < Low(target, log2max)
        invariant first <= b <= target && o == Low(b, log2max)
        invariant Accounted() && fm.repr == old(fm.repr) && fm.blocks == target
        invariant FilledTo(old(free), free, top, first, b)
        decreases target - b
      {
        LowNext(b, target, log2max);
        FillNext(old(free), free, top, first, b);
        o := FreeLargest(o, b);
        b := b + 1;
      }
      LowNext(b, target, log2max);
    }

    method FreeLargest(o: nat, ghost b: nat) returns (next: nat)
      requires Accounted() && o == Low(b, log2max) && b < fm.blocks && free !! Units(log2max - log2min, b)
      modifies this`free, this`spaceleft, fm.repr
      ensures Accounted() && fm.repr == old(fm.repr) && fm.blocks == old(fm.blocks)
      ensures free == old(free) + Units(log2max - log2min, b) && next == Low(b + 1, log2max)
    {
      LargestSize(log2max);
      UpLow(b, log2max);
      LowNext(b, b, log2max);
      Dealloc(o, Pow2(log2max));
      next := o + Pow2(log2max);
    }
  }

  /** All these units are in largest blocks before block `b`. */
  ghost predicate Below(units: set<nat>, top: nat, b: nat) {
    forall u :: u in units ==> Up(u, top) < b
  }

  /** The largest blocks from `first` to `b` have been freed. */
  ghost predicate FilledTo(was: set<nat>, free: set<nat>, top: nat, first: nat, b: nat) {
    forall u: nat :: u in free <==> u in was || first <= Up(u, top) < b
  }

  lemma FillNext(was: set<nat>, free: set<nat>, top: nat, first: nat, b: nat)
    requires FilledTo(was, free, top, first, b) && first <= b && Below(was, top, first)
    ensures free !! Units(top, b) && FilledTo(was, free + Units(top, b), top, first, b + 1)
  {
    UnitsUpAll(top, b);
  }

  /** A request for the largest block is in the largest class. */
  lemma LargestSize(m: nat)
    requires m <= 30
    ensures 0 < Pow2(m) < TWO_TO_64 && Log2c(Pow2(m)) == m
  {
    Pow2Grows(m, 32);
    Pow8();
    Pow2Add(8, 8);
    Pow2Add(16, 16);
  }

  lemma ClassRange(minalloc: nat, maxalloc: nat)
    requires 2 <= minalloc < TWO_TO_64 && 0 < maxalloc <= 0x4000_0000
    ensures Log2c(minalloc) >= 1 && 0 <= Log2c(maxalloc) <= 30
  {
    Pow8();
    Pow2Add(8, 8);
    Pow2Add(16, 8);
    assert Pow2(6) == 64;
    Pow2Add(24, 6);
  }

  lemma NothingFree(maps: seq<set<nat>>, top: nat)
    requires |maps| == top + 1 && forall i :: 0 <= i <= top ==> maps[i] == {}
    ensures Canonical(maps, {}, top)
  {
    forall h, p: nat | 0 <= h <= top ensures p in maps[h] <==> Maximal({}, top, h, p) {
      UpLow(p, h);
    }
  }

  /** If no map of class h or above records a block, no block of class h is free. */
  lemma NoneFree(maps: seq<set<nat>>, free: set<nat>, top: nat, h: nat)
    requires Canonical(maps, free, top) && h <= top && forall g :: h <= g <= top ==> maps[g] == {}
    ensures NoneFreeAt(free, h)
  {
    forall q: nat ensures !BlockFree(free, h, q) {
      if BlockFree(free, h, q) {
        var g := RecordedAbove(maps, free, top, h, q);
      }
    }
  }

  lemma UnitsInRange(blocks: nat, top: nat, h: nat, p: nat)
    requires h <= top && p < Low(blocks, top - h)
    ensures forall u :: u in Units(h, p) ==> u < Low(blocks, top)
  {
    forall u | u in Units(h, p) ensures u < Low(blocks, top) {
      UnitsUp(h, p, u);
      UpBelow(p, blocks, top - h);
      UpAdd(u, h, top - h);
      UpBelow(u, blocks, top);
    }
  }

  /** The units between two sizes are those of the whole blocks between them. */
  lemma RangeAsBlocks(first: nat, target: nat, top: nat)
    requires first <= target
    ensures forall u: nat :: u < Low(first, top) <==> Up(u, top) < first
    ensures forall u: nat :: u < Low(target, top) <==> Up(u, top) < target
    ensures Low(first, top) <= Low(target, top)
  {
    forall u: nat ensures (u < Low(first, top) <==> Up(u, top) < first) && (u < Low(target, top) <==> Up(u, top) < target) {
      UpBelow(u, first, top);
      UpBelow(u, target, top);
    }
    LowMonotone(first, target, top);
  }

  /** Block (h, p) is the first part of a recorded block, and none of the blocks recorded from class `h` on is smaller. */
  ghost predicate Best(maps: seq<set<nat>>, h: nat, p: nat) {
    exists g: nat, q: nat :: BestAt(maps, h, p, g, q)
  }

  ghost predicate BestAt(maps: seq<set<nat>>, h: nat, p: nat, g: nat, q: nat) {
    h <= g < |maps| && NoneIn(maps, h, g) && q in maps[g] && p == Low(q, g - h)
  }

  /** The halves of a block within the space are within it. */
  lemma HalvesFit(blocks: nat, top: nat, i: nat, q: nat)
    requires i < top && q < Low(blocks, top - (i + 1))
    ensures 2 * q < 2 * q + 1 < Low(blocks, top - i)
  {
    LowDouble(blocks, top - i - 1);
  }

  lemma LowNext(b: nat, target: nat, m: nat)
    ensures Low(b + 1, m) == Low(b, m) + Pow2(m)
    ensures Low(b, m) < Low(target, m) <==> b < target
  {
    LowPow2(b, m);
    LowPow2(b + 1, m);
    if b < target {
      LowPow2(b + 1, m);
      LowMonotone(b + 1, target, m);
    } else {
      LowMonotone(target, b, m);
    }
  }

  /** Every set bit of a multiple of 2^m is at index m or above. */
  lemma NoSmallBit(b: nat, m: nat)
    ensures forall n: nat :: Up(Low(b, m), n) % 2 == 1 ==> n >= m
  {
    forall n: nat | Up(Low(b, m), n) % 2 == 1 ensures n >= m {
      if n < m {
        LowAdd(b, m - n, n);
        UpLow(Low(b, m - n), n);
        LowDouble(b, m - n - 1);
      }
    }
  }
}
