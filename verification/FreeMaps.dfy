/** The array of free-block bitmaps of a buddy allocator, `bbuddy::freemaps` (async/bbuddy.C). */
module FreeMaps {
  import opened BuddyBlocks
  import opened Bbfree

  class FreeMaps {
    var table: seq<BbFree>
    ghost var maps: seq<set<nat>>   // what the bitmaps hold
    ghost var blocks: nat           // the space they describe, in blocks of the largest size
    ghost var repr: set<object>

    /** The bitmaps are sound and separate, and each has room for every block of its class. */
    ghost predicate Valid()
      reads this, repr
    {
      && this in repr && |table| == |maps| > 0
      && (forall i :: 0 <= i < |table| ==> table[i] in repr)
      && (forall i :: 0 <= i < |table| ==>
            table[i].Valid() && table[i].bits == maps[i] && table[i].nbits == Room(i))
      && (forall i, j :: 0 <= i < j < |table| ==> table[i] != table[j])
    }

    /** How many blocks of class i there are. */
    ghost function Room(i: nat): nat
      requires i < |maps|
      reads this
    {
      Low(blocks, |maps| - 1 - i)
    }

    constructor (n: nat)
      requires n > 0
      ensures Valid() && fresh(repr) && blocks == 0 && |maps| == n && forall i :: 0 <= i < n ==> maps[i] == {}
    {
      table, maps, blocks := [], seq(n, _ => {}), 0;
      repr := {this};
      new;
      var i := 0;
      while i < n
        invariant i <= n && |table| == i && |maps| == n && blocks == 0
        invariant forall j :: 0 <= j < n ==> maps[j] == {}
        invariant this in repr && fresh(repr)
        invariant forall j :: 0 <= j < i ==> table[j] in repr
        invariant forall j :: 0 <= j < i ==> table[j].Valid() && table[j].bits == {} && table[j].nbits == 0
        invariant forall j, l :: 0 <= j < l < i ==> table[j] != table[l]
      {
        var f := new BbFree();
        repr := repr + {f};
        table := table + [f];
        i := i + 1;
      }
      forall j | 0 <= j < n ensures Room(j) == 0 {
        LowPow2(0, n - 1 - j);
      }
    }

    function GetBit(h: nat, p: nat): (b: bool)
      requires Valid() && h < |maps| && p < Room(h)
      reads this, repr
      ensures b <==> p in maps[h]
    {
      table[h].GetBit(p)
    }

    method SetBit(h: nat, p: nat)
      requires Valid() && h < |maps| && p < Room(h) && p !in maps[h]
      modifies repr
      ensures Valid() && repr == old(repr) && blocks == old(blocks)
      ensures maps == old(maps)[h := old(maps)[h] + {p}]
    {
      table[h].SetBit(p);
      maps := maps[h := maps[h] + {p}];
    }

    method ClrBit(h: nat, p: nat)
      requires Valid() && h < |maps| && p < Room(h) && p in maps[h]
      modifies repr
      ensures Valid() && repr == old(repr) && blocks == old(blocks)
      ensures maps == old(maps)[h := old(maps)[h] - {p}]
    {
      table[h].ClrBit(p);
      maps := maps[h := maps[h] - {p}];
    }

    method FindBit(h: nat) returns (found: bool, p: nat)
      requires Valid() && h < |maps|
      modifies repr
      ensures Valid() && repr == old(repr) && blocks == old(blocks) && maps == old(maps)
      ensures found <==> maps[h] != {}
      ensures found ==> p in maps[h] && p < Room(h)
    {
      found, p := table[h].FindBit();
    }

    /** async/bbuddy.C:185-195: a block in the lowest nonempty map from h on. */
    method FindFrom(h: nat) returns (g: nat, p: nat)
      requires Valid() && h < |maps|
      modifies repr
      ensures Valid() && repr == old(repr) && blocks == old(blocks) && maps == old(maps)
      ensures g < |maps| ==> h <= g && p in maps[g] && p < Room(g)
      ensures NoneIn(maps, h, g)
    {
      ghost var was := maps;
      g := h;
      var found;
      found, p := FindBit(g);
      while !found
        invariant h <= g < |was| && Valid() && repr == old(repr) && blocks == old(blocks) && maps == was
        invariant NoneIn(was, h, g)
        invariant if found then p in was[g] && p < Room(g) else was[g] == {}
        decreases |was| - g
      {
        NoneInNext(was, h, g);
        g := g + 1;
        if g >= |table| {
          return;
        }
        found, p := FindBit(g);
      }
    }

    /** async/bbuddy.C:144-148: room for more blocks; no bit changes. */
    method Grow(newBlocks: nat)
      requires Valid() && newBlocks >= blocks
      modifies repr
      ensures Valid() && repr == old(repr) && maps == old(maps) && blocks == newBlocks
    {
      ghost var n: nat, was: nat := |table|, blocks;
      var o := Low(newBlocks, |table| - 1);
      var i := 0;
      blocks := newBlocks;
      while i < |table|
        invariant i <= |table| && table == old(table) && maps == old(maps) && blocks == newBlocks && repr == old(repr)
        invariant i < n ==> o == Low(newBlocks, n - 1 - i)
        invariant forall j :: 0 <= j < |table| ==>
          table[j].Valid() && table[j].bits == maps[j] && table[j].nbits == Low(if j < i then newBlocks else was, n - 1 - j)
      {
        LowMonotone(was, newBlocks, n - 1 - i);
        NextRoom(newBlocks, n, i, o);
        table[i].Init(o);
        o := o / 2;
        i := i + 1;
      }
    }
  }

  /** No block is recorded in the classes from `lo` to `hi`. */
  ghost predicate NoneIn(maps: seq<set<nat>>, lo: nat, hi: nat) {
    forall i :: lo <= i < hi && i < |maps| ==> maps[i] == {}
  }

  lemma NoneInNext(maps: seq<set<nat>>, lo: nat, hi: nat)
    requires NoneIn(maps, lo, hi) && (hi < |maps| ==> maps[hi] == {})
    ensures NoneIn(maps, lo, hi + 1)
  {
  }

  /** The next larger class has half as many blocks. */
  lemma NextRoom(blocks: nat, n: nat, i: nat, o: nat)
    requires i < n && o == Low(blocks, n - 1 - i)
    ensures i + 1 < n ==> o / 2 == Low(blocks, n - 1 - (i + 1))
  {
    if i + 1 < n {
      LowDouble(blocks, n - 1 - (i + 1));
    }
  }

  lemma {:induction false} LowDouble(q: nat, h: nat)
    ensures Low(q, h + 1) == 2 * Low(q, h)
    decreases h
  {
    if h > 0 { LowDouble(2 * q, h - 1); }
  }

  lemma {:induction false} LowMonotone(p: nat, q: nat, h: nat)
    requires p <= q
    ensures Low(p, h) <= Low(q, h)
    decreases h
  {
    if h > 0 { LowMonotone(2 * p, 2 * q, h - 1); }
  }
}
