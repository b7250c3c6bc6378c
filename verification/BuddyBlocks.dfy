/**
 * Blocks of a binary buddy system (async/bbuddy.C), in units of the smallest block.  Block
 * (h, p) consists of the units u whose h-fold half is p; its buddy is (h, p ^ 1) and the two
 * together are block (h + 1, p / 2).  What free maps should record, for any set of free units,
 * is the set of maximal free blocks.
 */
module BuddyBlocks {
  import opened Powers

  /** u >> h */
  function Up(u: nat, h: nat): nat
    decreases h
  {
    if h == 0 then u else Up(u / 2, h - 1)
  }

  /** p << h */
  function Low(p: nat, h: nat): nat
    decreases h
  {
    if h == 0 then p else Low(2 * p, h - 1)
  }

  /** p ^ 1 */
  function Buddy(p: nat): nat {
    if p % 2 == 0 then p + 1 else p - 1
  }

  lemma {:induction false} UpAdd(u: nat, a: nat, b: nat)
    ensures Up(Up(u, a), b) == Up(u, a + b)
    decreases a
  {
    if a > 0 { UpAdd(u / 2, a - 1, b); }
  }

  lemma UpHalf(u: nat, h: nat)
    ensures Up(u, h + 1) == Up(u, h) / 2
  {
    UpAdd(u, h, 1);
    assert Up(Up(u, h), 1) == Up(u, h) / 2;
  }

  lemma {:induction false} UpLow(p: nat, h: nat)
    ensures Up(Low(p, h), h) == p
    decreases h
  {
    if h > 0 {
      UpLow(2 * p, h - 1);
      UpHalf(Low(p, h), h - 1);
    }
  }

  lemma {:induction false} UpBelow(u: nat, q: nat, h: nat)
    ensures u < Low(q, h) <==> Up(u, h) < q
    decreases h
  {
    if h > 0 {
      UpBelow(u, 2 * q, h - 1);
      UpHalf(u, h - 1);
    }
  }

  lemma {:induction false} LowAdd(p: nat, a: nat, b: nat)
    ensures Low(Low(p, a), b) == Low(p, a + b)
    decreases a
  {
    if a > 0 { LowAdd(2 * p, a - 1, b); }
  }

  // ----- free blocks

  /** Every unit of the block is free. */
  ghost predicate BlockFree(free: set<nat>, h: nat, p: nat) {
    forall u: nat :: Up(u, h) == p ==> u in free
  }

  /** No block of height h is free. */
  ghost predicate NoneFreeAt(free: set<nat>, h: nat) {
    forall p: nat :: !BlockFree(free, h, p)
  }

  /** A free block that is not part of a larger free block. */
  ghost predicate Maximal(free: set<nat>, top: nat, h: nat, p: nat) {
    h <= top && BlockFree(free, h, p) && (h < top ==> !BlockFree(free, h + 1, p / 2))
  }

  /** The maps record exactly the maximal free blocks of heights 0..top. */
  ghost predicate Canonical(maps: seq<set<nat>>, free: set<nat>, top: nat) {
    && |maps| == top + 1
    && (forall h, p: nat {:trigger Maximal(free, top, h, p)} ::
          0 <= h <= top ==> (p in maps[h] <==> Maximal(free, top, h, p)))
  }

  /** The units of a block. */
  ghost function Units(h: nat, p: nat): set<nat>
    decreases h
  {
    if h == 0 then {p} else Units(h - 1, 2 * p) + Units(h - 1, 2 * p + 1)
  }

  lemma {:induction false} UnitsUp(h: nat, p: nat, u: nat)
    ensures u in Units(h, p) <==> Up(u, h) == p
    decreases h
  {
    if h > 0 {
      UnitsUp(h - 1, 2 * p, u);
      UnitsUp(h - 1, 2 * p + 1, u);
      UpHalf(u, h - 1);
    }
  }

  lemma UnitsUpAll(h: nat, p: nat)
    ensures forall u: nat :: u in Units(h, p) <==> Up(u, h) == p
  {
    forall u: nat ensures u in Units(h, p) <==> Up(u, h) == p {
      UnitsUp(h, p, u);
    }
  }

  /** A block inside a free block is free. */
  lemma FreeInside(free: set<nat>, h: nat, p: nat, g: nat)
    requires g <= h && BlockFree(free, h, Up(p, h - g))
    ensures BlockFree(free, g, p)
  {
    forall u: nat | Up(u, g) == p ensures u in free {
      UpAdd(u, g, h - g);
    }
  }

  /** A block is free exactly if both halves are. */
  lemma FreeHalves(free: set<nat>, h: nat, p: nat)
    ensures BlockFree(free, h + 1, p) <==> BlockFree(free, h, 2 * p) && BlockFree(free, h, 2 * p + 1)
  {
    forall u: nat ensures Up(u, h + 1) == Up(u, h) / 2 { UpHalf(u, h); }
  }

  /** No block around a maximal free block is free. */
  lemma NothingAbove(free: set<nat>, top: nat, h: nat, p: nat, g: nat)
    requires Maximal(free, top, h, p) && h < g <= top
    ensures !BlockFree(free, g, Up(p, g - h))
  {
    if BlockFree(free, g, Up(p, g - h)) {
      assert Up(p / 2, g - h - 1) == Up(p, g - h);
      FreeInside(free, g, p / 2, h + 1);
    }
  }

  // ----- taking a block out of the free space

  /** Blocks (h, p) and (g, q) have a unit in common only if one contains the other. */
  lemma Meet(u: nat, h: nat, g: nat)
    requires h <= g
    ensures Up(Up(u, h), g - h) == Up(u, g)
  {
    UpAdd(u, h, g - h);
  }

  lemma TakenFree(free: set<nat>, h: nat, p: nat, g: nat, q: nat)
    requires BlockFree(free, h, p)
    ensures BlockFree(free - Units(h, p), g, q) <==>
      BlockFree(free, g, q) && (if h <= g then Up(p, g - h) != q else Up(q, h - g) != p)
  {
    UnitsUpAll(h, p);
    var rest := free - Units(h, p);
    if h <= g && Up(p, g - h) == q {
      UpLow(p, h);
      Meet(Low(p, h), h, g);
      assert Low(p, h) !in rest && Up(Low(p, h), g) == q;
    } else if h > g && Up(q, h - g) == p {
      UpLow(q, g);
      Meet(Low(q, g), g, h);
      assert Low(q, g) !in rest && Up(Low(q, g), g) == q;
    } else {
      forall u: nat | Up(u, g) == q ensures Up(u, h) != p {
        if h <= g { Meet(u, h, g); } else { Meet(u, g, h); }
      }
    }
  }

  lemma TakenMaximal(free: set<nat>, top: nat, h: nat, p: nat, g: nat, q: nat)
    requires Maximal(free, top, h, p) && g <= top
    ensures Maximal(free - Units(h, p), top, g, q) <==> Maximal(free, top, g, q) && (g, q) != (h, p)
  {
    var rest := free - Units(h, p);
    TakenFree(free, h, p, g, q);
    if g < top { TakenFree(free, h, p, g + 1, q / 2); }
    if h <= g {
      if h < g { NothingAbove(free, top, h, p, g); }
      if g < top {
        NothingAbove(free, top, h, p, g + 1);
      }
    } else if Up(q, h - g) == p {
      assert Up(q / 2, h - g - 1) == p;
      FreeInside(free, h, q / 2, g + 1);
    } else {
      assert Up(q / 2, h - (g + 1)) == Up(q, h - g);
    }
  }

  /** Taking a recorded block: clear its bit and the maps are right again. */
  lemma Take(maps: seq<set<nat>>, free: set<nat>, top: nat, h: nat, p: nat)
    requires Canonical(maps, free, top) && h <= top && p in maps[h]
    ensures Canonical(maps[h := maps[h] - {p}], free - Units(h, p), top)
  {
    var maps' := maps[h := maps[h] - {p}];
    forall g, q: nat | 0 <= g <= top ensures q in maps'[g] <==> Maximal(free - Units(h, p), top, g, q) {
      TakenMaximal(free, top, h, p, g, q);
    }
  }

  // ----- giving a block back

  /** A freed block whose buddy is not free is maximal. */
  lemma GivenMaximal(free: set<nat>, top: nat, h: nat, p: nat)
    requires h <= top && free !! Units(h, p) && (h < top ==> !BlockFree(free, h, Buddy(p)))
    ensures Maximal(free + Units(h, p), top, h, p)
  {
    UnitsUpAll(h, p);
    var full := free + Units(h, p);
    if h < top && BlockFree(full, h + 1, p / 2) {
      FreeHalves(full, h, p / 2);
      assert BlockFree(full, h, Buddy(p));
    }
  }

  /** Giving back a block whose buddy is not free: set its bit. */
  lemma Give(maps: seq<set<nat>>, free: set<nat>, top: nat, h: nat, p: nat)
    requires Canonical(maps, free, top) && h <= top
    requires free !! Units(h, p) && (h < top ==> !BlockFree(free, h, Buddy(p)))
    ensures Canonical(maps[h := maps[h] + {p}], free + Units(h, p), top)
  {
    var full, maps' := free + Units(h, p), maps[h := maps[h] + {p}];
    GivenMaximal(free, top, h, p);
    assert full - Units(h, p) == free;
    forall g, q: nat | 0 <= g <= top ensures q in maps'[g] <==> Maximal(full, top, g, q) {
      TakenMaximal(full, top, h, p, g, q);
    }
  }

  /** If the buddy's bit is not set, the buddy is not free. */
  lemma BuddyNotFree(maps: seq<set<nat>>, free: set<nat>, top: nat, h: nat, p: nat)
    requires Canonical(maps, free, top) && h < top && free !! Units(h, p) && Buddy(p) !in maps[h]
    ensures !BlockFree(free, h, Buddy(p))
  {
    if BlockFree(free, h, Buddy(p)) {
      assert !Maximal(free, top, h, Buddy(p));
      assert Buddy(p) / 2 == p / 2;
      FreeHalves(free, h, p / 2);
      UnitsUpAll(h, p);
      UpLow(p, h);
    }
  }

  /** A block and its buddy make up the next larger block. */
  lemma Merge(h: nat, p: nat)
    ensures Units(h + 1, p / 2) == Units(h, p) + Units(h, Buddy(p))
    ensures Units(h, p) !! Units(h, Buddy(p))
  {
    UnitsUpAll(h, p);
    UnitsUpAll(h, Buddy(p));
  }

  // ----- what the maps tell

  /** Every free block lies in a recorded one. */
  lemma {:induction false} RecordedAbove(maps: seq<set<nat>>, free: set<nat>, top: nat, h: nat, p: nat) returns (g: nat)
    requires Canonical(maps, free, top) && h <= top && BlockFree(free, h, p)
    ensures h <= g <= top && Up(p, g - h) in maps[g]
    decreases top - h
  {
    if Maximal(free, top, h, p) {
      g := h;
      assert Up(p, 0) == p;
    } else {
      g := RecordedAbove(maps, free, top, h + 1, p / 2);
      assert Up(p / 2, g - h - 1) == Up(p, g - h);
    }
  }

  /** Two correct records of the same free space are the same: the maps do not depend on history. */
  lemma Unique(maps: seq<set<nat>>, maps': seq<set<nat>>, free: set<nat>, top: nat)
    requires Canonical(maps, free, top) && Canonical(maps', free, top)
    ensures maps == maps'
  {
    forall h | 0 <= h <= top ensures maps[h] == maps'[h] {
      forall p: nat ensures p in maps[h] <==> p in maps'[h] {
        assert p in maps[h] <==> Maximal(free, top, h, p);
      }
    }
  }

  /** And the maps determine the free space: a unit is free exactly if a recorded block covers it,
      and no two do. */
  lemma UnitRecorded(maps: seq<set<nat>>, free: set<nat>, top: nat, u: nat)
    requires Canonical(maps, free, top)
    ensures u in free <==> exists h :: 0 <= h <= top && Up(u, h) in maps[h]
    ensures forall g, h :: 0 <= g <= h <= top && Up(u, g) in maps[g] && Up(u, h) in maps[h] ==> g == h
  {
    forall g, h | 0 <= g < h <= top && Up(u, h) in maps[h] ensures Up(u, g) !in maps[g] {
      assert Maximal(free, top, h, Up(u, h));
      UpAdd(u, g, h - g);
      if Maximal(free, top, g, Up(u, g)) {
        NothingAbove(free, top, g, Up(u, g), h);
      }
    }
    if u in free {
      assert BlockFree(free, 0, u) by {
        assert forall v: nat :: Up(v, 0) == v;
      }
      var g := RecordedAbove(maps, free, top, 0, u);
    } else {
      forall h | 0 <= h <= top ensures Up(u, h) !in maps[h] {
        assert !Maximal(free, top, h, Up(u, h));
      }
    }
  }

  // ----- sizes

  lemma {:induction false} UnitsSize(h: nat, p: nat)
    ensures |Units(h, p)| == Pow2(h)
    decreases h
  {
    if h > 0 {
      UnitsSize(h - 1, 2 * p);
      UnitsSize(h - 1, 2 * p + 1);
      Merge(h - 1, 2 * p);
    }
  }

  lemma {:induction false} LowPow2(p: nat, h: nat)
    ensures Low(p, h) == p * Pow2(h)
    decreases h
  {
    if h > 0 { LowPow2(2 * p, h - 1); }
  }

  lemma {:induction false} Pow2Add(a: nat, b: nat)
    ensures Pow2(a + b) == Pow2(a) * Pow2(b)
    decreases a
  {
    if a > 0 { Pow2Add(a - 1, b); }
  }
}
