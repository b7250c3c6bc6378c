/**
 * The intrusive hash table (async/ihash.h:76-285, async/ihash.C:43-75): entries linked into bucket
 * chains in place, and the rehash that relinks all of them. `mem` is a ghost copy of the links of
 * the entries, `chains` names the entries of each bucket in order.
 */
module Ihash {
  import opened RpcTypes
  import opened Powers
  import opened Msb
  import opened IhashShape

  /** async/ihash.C:29-39 */
  function Exp2Primes(): (r: seq<nat>)
    ensures |r| == 33
  {
    [0x1,
     0x2, 0x3, 0x7, 0xd,
     0x1f, 0x3d, 0x7f, 0xfb,
     0x1fd, 0x3fd, 0x7f7, 0xffd,
     0x1fff, 0x3ffd, 0x7fed, 0xfff1,
     0x1ffff, 0x3fffb, 0x7ffff, 0xffffd,
     0x1ffff7, 0x3ffffd, 0x7ffff1, 0xfffffd,
     0x1ffffd9, 0x3fffffb, 0x7ffffd9, 0xfffffc7,
     0x1ffffffd, 0x3fffffdd, 0x7fffffff, 0xfffffffb]
  }

  /** The next size in the table of primes exceeds every size up to the power of two before it. */
  lemma PrimesGrow(k: nat)
    requires k < 32
    ensures Exp2Primes()[k + 1] > Pow2(k)
  {
    SomePowers();
  }

  lemma SomePowers()
    ensures Pow2(0) == 1 && Pow2(4) == 0x10 && Pow2(8) == 0x100 && Pow2(12) == 0x1000 && Pow2(16) == 0x1_0000
    ensures Pow2(20) == 0x10_0000 && Pow2(24) == 0x100_0000 && Pow2(28) == 0x1000_0000 && Pow2(31) == 0x8000_0000
  {
  }

  /** async/ihash.C:50-54: the number of buckets after growing from `buckets`. */
  function NewSize(buckets: nat, wanted: nat): (r: nat)
    requires buckets < TWO_TO_64
    requires wanted < buckets || wanted == 0 ==> buckets <= TWO_TO_31
    ensures r >= wanted && r >= buckets && (wanted == 0 ==> r > buckets && r >= 3)
    ensures r == wanted || r < TWO_TO_32
    ensures wanted == 0 || wanted < buckets ==> r == 3 || r in Exp2Primes()
  {
    if wanted == 0 || wanted < buckets then
      var i := Log2c(buckets) + 1;
      PrimeAbove(buckets);
      var r := Exp2Primes()[i];
      if r < 3 then 3 else r
    else wanted
  }

  lemma PrimeAbove(buckets: nat)
    requires buckets <= TWO_TO_31
    ensures 0 <= Log2c(buckets) + 1 < 33 && buckets < Exp2Primes()[Log2c(buckets) + 1] < TWO_TO_32
  {
    SomePowers();
    if buckets > 0 {
      PrimesGrow(Log2c(buckets));
    }
  }

  ghost function Members(chains: seq<seq<Entry>>): set<Entry> {
    set b, n | 0 <= b < |chains| && n in chains[b] :: n
  }

  ghost predicate Agrees(m: Mem)
    reads m.Keys
  {
    forall n {:trigger m[n]} :: n in m ==> m[n] == Cell(n.val, n.next, n.pprev)
  }

  /** A table of links with its buckets, chains and entries. */
  ghost predicate Holds(m: Mem, slots: seq<Entry?>, chains: seq<seq<Entry>>) {
    Table(m, slots, chains) && m.Keys == Members(chains)
  }

  lemma MembersPush(chains: seq<seq<Entry>>, b: nat, n: Entry)
    requires b < |chains|
    ensures Members(chains[b := [n] + chains[b]]) == Members(chains) + {n}
  {
    var chains' := chains[b := [n] + chains[b]];
    assert n in chains'[b];
    forall x | x in Members(chains) ensures x in Members(chains') {
      var c :| 0 <= c < |chains| && x in chains[c];
      assert x in chains'[c];
    }
  }

  lemma PushHolds(m: Mem, m': Mem, slots: seq<Entry?>, chains: seq<seq<Entry>>, b: nat, n: Entry, val: nat)
    requires Holds(m, slots, chains) && b < |chains| && n !in m
    requires Pushed(m, m', chains[b], b, n, val) && val % |chains| == b
    ensures Holds(m', slots[b := n], chains[b := [n] + chains[b]])
  {
    assert In(n, chains) ==> n in Members(chains);
    PushTable(m, m', slots, chains, b, n, val);
    MembersPush(chains, b, n);
  }

  method PushLinks(t: array<Entry?>, b: nat, n: Entry, val: nat, ghost m: Mem, ghost s: seq<Entry>)
    returns (ghost m': Mem)
    requires Agrees(m) && n !in m && b < t.Length && t[b] == Head(s) && (s != [] ==> s[0] in m)
    modifies t, n, m.Keys
    ensures Agrees(m') && Pushed(m, m', s, b, n, val) && t[..] == old(t[..])[b := n]
    ensures forall x :: x in m ==> m'[x].val == m[x].val
  {
    var np := t[b];
    if np != null {
      np.pprev := NextOf(n);
    }
    n.val := val;
    n.next := np;
    n.pprev := Slot(b);
    t[b] := n;
    m' := map x | x in m.Keys + {n} :: Cell(x.val, x.next, x.pprev);
  }

  /** Puts `n` at the head of bucket `b` (async/ihash.h:126-134, async/ihash.C:65-69). */
  method PushFront(t: array<Entry?>, b: nat, n: Entry, val: nat, ghost m: Mem, ghost chains: seq<seq<Entry>>)
    returns (ghost m': Mem, ghost chains': seq<seq<Entry>>)
    requires Agrees(m) && Holds(m, t[..], chains) && n !in m
    requires b < t.Length && val % t.Length == b
    modifies t, n, m.Keys
    ensures Agrees(m') && m'.Keys == m.Keys + {n} && t[..] == old(t[..])[b := n]
    ensures chains' == chains[b := [n] + chains[b]] && Holds(m', t[..], chains')
    ensures m'[n].val == val && SameVals(m, m', m.Keys)
  {
    ghost var slots := t[..];
    assert Linked(m, slots[b], chains[b], b) && slots[b] == t[b];
    m' := PushLinks(t, b, n, val, m, chains[b]);
    PushHolds(m, m', slots, chains, b, n, val);
    chains' := chains[b := [n] + chains[b]];
  }

  /** The entries keep their hash values. */
  ghost predicate SameVals(m: Mem, m': Mem, ns: set<Entry>) {
    ns <= m.Keys && ns <= m'.Keys && forall n :: n in ns ==> m'[n].val == m[n].val
  }

  /** `m` has the entries of `m0` and `done`, with the hash values that they had before. */
  ghost predicate Moved(m0: Mem, m: Mem, was: Mem, done: set<Entry>) {
    m.Keys == m0.Keys + done && SameVals(m0, m, m0.Keys) && SameVals(was, m, done)
  }

  /** These entries still have the links that they had. */
  ghost predicate Untouched(was: Mem, ns: set<Entry>)
    reads ns
  {
    forall n :: n in ns ==> n in was && was[n] == Cell(n.val, n.next, n.pprev)
  }

  method MoveOne(p: Entry, t: array<Entry?>, ghost was: Mem, ghost m0: Mem, ghost m: Mem, ghost done: set<Entry>,
                 ghost chains: seq<seq<Entry>>)
    returns (np: Entry?, ghost m': Mem, ghost chains': seq<seq<Entry>>)
    requires p !in m && p in was && was[p] == Cell(p.val, p.next, p.pprev)
    requires t.Length > 0 && Agrees(m) && Holds(m, t[..], chains) && Moved(m0, m, was, done)
    modifies t, p, m.Keys
    ensures Agrees(m') && Holds(m', t[..], chains') && Moved(m0, m', was, done + {p})
    ensures np == was[p].next
  {
    var ni := p.val % t.Length;
    np := p.next;
    m', chains' := PushFront(t, ni, p, p.val, m, chains);
    MovedMore(m0, m, m', was, done, p);
  }

  lemma MovedMore(m0: Mem, m: Mem, m': Mem, was: Mem, done: set<Entry>, p: Entry)
    requires Moved(m0, m, was, done) && m'.Keys == m.Keys + {p} && p !in m && p in was
    requires m'[p].val == was[p].val && SameVals(m, m', m.Keys)
    ensures Moved(m0, m', was, done + {p})
  {
  }

  /** The inner loop of async/ihash.C:60-70: the entries of one old chain go into the new table. */
  method MoveChain(head: Entry?, t: array<Entry?>, ghost s: seq<Entry>, ghost was: Mem, ghost m0: Mem,
                   ghost chains0: seq<seq<Entry>>)
    returns (ghost m: Mem, ghost chains: seq<seq<Entry>>)
    requires head == Head(s) && Chained(was, s) && Elements(s) !! m0.Keys && Untouched(was, Elements(s))
    requires t.Length > 0 && Agrees(m0) && Holds(m0, t[..], chains0)
    modifies t, m0.Keys, Elements(s)
    ensures Agrees(m) && Holds(m, t[..], chains) && Moved(m0, m, was, Elements(s))
  {
    m, chains := m0, chains0;
    ghost var rest, todo, all := s, Elements(s), Elements(s);
    var p := head;
    while p != null
      invariant p == Head(rest) && Chained(was, rest) && todo == Elements(rest)
      invariant Agrees(m) && Holds(m, t[..], chains) && Moved(m0, m, was, all - todo)
      invariant todo <= all && todo !! m.Keys && Untouched(was, todo)
      decreases |rest|
    {
      Onward(was, rest);
      ghost var left := todo - {p};
      OneDone(all, todo, p);
      p, m, chains := MoveOne(p, t, was, m0, m, all - todo, chains);
      todo, rest := left, rest[1..];
    }
    assert all - todo == all;
  }

  lemma OneDone(all: set<Entry>, todo: set<Entry>, p: Entry)
    requires p in todo && todo <= all
    ensures all - todo + {p} == all - (todo - {p})
  {
  }

  /** `s` is a chain, as far as its forward links go. */
  ghost predicate Chained(m: Mem, s: seq<Entry>) { Distinct(s) && NextLinked(m, s) }

  lemma Onward(m: Mem, s: seq<Entry>)
    requires s != [] && Chained(m, s)
    ensures s[0] in Elements(s) && s[0] in m && m[s[0]].next == Head(s[1..])
    ensures Chained(m, s[1..]) && Elements(s[1..]) == Elements(s) - {s[0]}
  {
    var t := s[1..];
    forall j | 0 <= j < |t| ensures m[t[j]].next == Head(t[j + 1..]) {
      assert t[j] == s[j + 1] && t[j + 1..] == s[j + 2..] && m[s[j + 1]].next == Head(s[j + 2..]);
    }
    assert s == [s[0]] + t;
  }

  /** An empty table of `n` buckets. */
  lemma EmptyHolds(n: nat)
    requires n > 0
    ensures Holds(map[], seq(n, _ => null), seq(n, _ => []))
  {
  }

  lemma MembersNext(chains: seq<seq<Entry>>, i: nat)
    requires i < |chains|
    ensures Members(chains[..i + 1]) == Members(chains[..i]) + Elements(chains[i])
  {
    var a, b := chains[..i], chains[..i + 1];
    forall x | x in Members(a) + Elements(chains[i]) ensures x in Members(b) {
      if x in Members(a) {
        var c :| 0 <= c < |a| && x in a[c];
        assert x in b[c];
      } else {
        assert x in b[i];
      }
    }
    forall x | x in Members(b) ensures x in Members(a) + Elements(chains[i]) {
      var c :| 0 <= c < |b| && x in b[c];
      assert c < i ==> x in a[c];
    }
  }

  /** The entries of a bucket are in none before it. */
  lemma MembersApart(m: Mem, slots: seq<Entry?>, chains: seq<seq<Entry>>, i: nat)
    requires Holds(m, slots, chains) && i < |chains|
    ensures Elements(chains[i]) !! Members(chains[..i]) && Elements(chains[i]) <= m.Keys
  {
    assert Linked(m, slots[i], chains[i], i);
    forall c | 0 <= c < i ensures Elements(chains[i]) !! Elements(chains[..i][c]) {
      OtherBucket(m, slots, chains, c, i);
    }
  }

  lemma BucketChain(m: Mem, slots: seq<Entry?>, chains: seq<seq<Entry>>, i: nat)
    requires Table(m, slots, chains) && i < |chains|
    ensures slots[i] == Head(chains[i]) && Chained(m, chains[i])
  {
    assert Linked(m, slots[i], chains[i], i);
  }

  lemma MovedVals(m0: Mem, m: Mem, was: Mem, done: set<Entry>)
    requires Moved(m0, m, was, done) && SameVals(was, m0, m0.Keys)
    ensures SameVals(was, m, m.Keys)
  {
  }

  /** The loops of async/ihash.C:59-70: every entry of `tab` goes into the empty table `ntab`. */
  method MoveAll(tab: array<Entry?>, ntab: array<Entry?>, ghost was: Mem, ghost chains: seq<seq<Entry>>)
    returns (ghost m: Mem, ghost nchains: seq<seq<Entry>>)
    requires tab != ntab && ntab.Length > 0 && ntab[..] == seq(ntab.Length, _ => null)
    requires Agrees(was) && Holds(was, tab[..], chains)
    modifies ntab, was.Keys
    ensures Agrees(m) && Holds(m, ntab[..], nchains) && m.Keys == was.Keys && SameVals(was, m, m.Keys)
  {
    ghost var slots := tab[..];
    m, nchains := map[], seq(ntab.Length, _ => []);
    EmptyHolds(ntab.Length);
    for i := 0 to tab.Length
      invariant tab[..] == slots && Agrees(m) && Holds(m, ntab[..], nchains)
      invariant m.Keys == Members(chains[..i]) <= was.Keys && SameVals(was, m, m.Keys)
      invariant Untouched(was, was.Keys - m.Keys)
    {
      MembersApart(was, slots, chains, i);
      MembersNext(chains, i);
      BucketChain(was, slots, chains, i);
      ghost var m0 := m;
      m, nchains := MoveChain(tab[i], ntab, chains[i], was, m0, nchains);
      MovedVals(m0, m, was, Elements(chains[i]));
    }
    assert chains[..|chains|] == chains;
  }

  ghost predicate HashedBy(m: Mem, hash: int -> nat) { forall n :: n in m ==> m[n].val == hash(n.key) }

  /** The checks of async/ihash.h:100-114, the back links, and that there is room. */
  ghost predicate Sound(m: Mem, slots: seq<Entry?>, chains: seq<seq<Entry>>, entries: nat, hash: int -> nat) {
    && Holds(m, slots, chains) && HashedBy(m, hash) && entries == |m.Keys|
    && 3 <= |slots| < TWO_TO_64 && entries < |slots|
  }

  lemma SoundAfter(m: Mem, slots: seq<Entry?>, chains: seq<seq<Entry>>, entries: nat, hash: int -> nat,
                   m': Mem, slots': seq<Entry?>, chains': seq<seq<Entry>>, entries': nat)
    requires Sound(m, slots, chains, entries, hash) && Holds(m', slots', chains')
    requires forall n :: n in m' ==> m'[n].val == if n in m then m[n].val else hash(n.key)
    requires |slots| <= |slots'| < TWO_TO_64 && entries' == |m'.Keys| < |slots'|
    ensures Sound(m', slots', chains', entries', hash)
  {
  }

  lemma SoundPush(m: Mem, slots: seq<Entry?>, chains: seq<seq<Entry>>, entries: nat, hash: int -> nat,
                  m': Mem, slots': seq<Entry?>, chains': seq<seq<Entry>>, n: Entry)
    requires Sound(m, slots, chains, entries, hash) && Holds(m', slots', chains')
    requires n !in m && m'.Keys == m.Keys + {n} && SameVals(m, m', m.Keys) && m'[n].val == hash(n.key)
    requires |slots| == |slots'| && entries + 1 < |slots|
    ensures Sound(m', slots', chains', entries + 1, hash)
  {
    OneMore(m.Keys, n);
  }

  lemma SoundDrop(m: Mem, slots: seq<Entry?>, chains: seq<seq<Entry>>, entries: nat, hash: int -> nat,
                  m': Mem, slots': seq<Entry?>, chains': seq<seq<Entry>>, n: Entry)
    requires Sound(m, slots, chains, entries, hash) && Holds(m', slots', chains')
    requires n in m && m'.Keys == m.Keys - {n} && SameVals(m, m', m'.Keys) && |slots| == |slots'|
    ensures entries > 0 && Sound(m', slots', chains', entries - 1, hash)
  {
    OneLess(m.Keys, n);
  }

  lemma OneLess(s: set<Entry>, n: Entry)
    requires n in s
    ensures |s| > 0 && |s - {n}| == |s| - 1
  {
  }

  lemma OneMore(s: set<Entry>, n: Entry)
    requires n !in s
    ensures |s + {n}| == |s| + 1
  {
  }

  class HashTable {
    const hash: int -> nat
    var tab: array<Entry?>
    var entries: nat
    ghost var mem: Mem
    ghost var chains: seq<seq<Entry>>

    ghost predicate Valid()
      reads this, tab, mem.Keys
    {
      Agrees(mem) && Sound(mem, tab[..], chains, entries, hash)
    }

    constructor (hash: int -> nat)
      ensures Valid() && this.hash == hash && mem == map[] && fresh(tab)
    {
      this.hash := hash;
      tab := new Entry?[3](_ => null);
      entries := 0;
      mem, chains := map[], seq(3, _ => []);
      new;
      EmptyHolds(3);
      assert tab[..] == seq(3, _ => null);
    }

    /**
     * async/ihash.C:43-75. Every entry is relinked into a new array of buckets; none is lost, and
     * each keeps its hash value.
     */
    method Reserve(sz: nat)
      requires Valid() && sz < TWO_TO_64 && (sz < tab.Length ==> tab.Length <= TWO_TO_31)
      modifies this, mem.Keys
      ensures Valid() && mem.Keys == old(mem).Keys && fresh(tab) && entries == old(entries)
      ensures tab.Length >= sz && (sz == 0 ==> tab.Length > old(tab.Length))
      ensures sz >= old(tab.Length) && sz > 0 ==> tab.Length == sz
      ensures sz < old(tab.Length) || sz == 0 ==> tab.Length == 3 || tab.Length in Exp2Primes()
    {
      var nbuckets := NewSize(tab.Length, sz);
      var ntab := new Entry?[nbuckets](_ => null);
      assert ntab[..] == seq(nbuckets, _ => null);
      ghost var slots := tab[..];
      ghost var m, c := MoveAll(tab, ntab, mem, chains);
      SoundAfter(mem, slots, chains, entries, hash, m, ntab[..], c, entries);
      Install(ntab, m, c, entries);
    }

    /** Records what the table now is. */
    method Install(t: array<Entry?>, ghost m: Mem, ghost c: seq<seq<Entry>>, n: nat)
      requires Agrees(m) && Sound(m, t[..], c, n, hash)
      modifies this
      ensures tab == t && mem == m && chains == c && entries == n && Valid()
    {
      ghost var slots := t[..];
      tab, mem, chains, entries := t, m, c, n;
      assert tab[..] == slots;
    }

    /** async/ihash.h:116-137, 265; the source reads past the table of primes beyond 2^31 buckets. */
    method Insert(elm: Entry)
      requires Valid() && elm !in mem && (entries + 1 >= tab.Length ==> tab.Length <= TWO_TO_31)
      modifies this, tab, mem.Keys, elm
      ensures Valid() && mem.Keys == old(mem).Keys + {elm} && (tab == old(tab) || fresh(tab))
    {
      if entries + 1 >= tab.Length {
        Reserve(0);
      }
      Link(elm);
    }

    /** async/ihash.h:123-134: there is room for one more entry. */
    method Link(elm: Entry)
      requires Valid() && elm !in mem && entries + 1 < tab.Length
      modifies this, tab, mem.Keys, elm
      ensures Valid() && mem.Keys == old(mem).Keys + {elm} && tab == old(tab) && elm.val == hash(elm.key)
      ensures var b := elm.val % tab.Length; chains == old(chains)[b := [elm] + old(chains)[b]]
    {
      ghost var slots := tab[..];
      var hval := hash(elm.key);
      ghost var m, c := PushFront(tab, hval % tab.Length, elm, hval, mem, chains);
      SoundPush(mem, slots, chains, entries, hash, m, tab[..], c, elm);
      Install(tab, m, c, entries + 1);
    }

    /** async/ihash.h:181-192: the entry is unlinked through its back link alone. */
    method Remove(elm: Entry)
      requires Valid() && elm in mem
      modifies this, tab, mem.Keys
      ensures Valid() && mem.Keys == old(mem).Keys - {elm} && tab == old(tab) && CutOut(old(chains), elm, chains)
    {
      ghost var slots := tab[..];
      ghost var m, c := Unlink(tab, elm, mem, chains);
      SoundDrop(mem, slots, chains, entries, hash, m, tab[..], c, elm);
      Install(tab, m, c, entries - 1);
    }

    /** async/ihash.h:139-146: the first entry of the bucket with this hash value. */
    method LookupVal(hval: nat) returns (elm: Entry?, ghost k: nat)
      requires Valid()
      ensures var s := chains[hval % tab.Length]; FirstFrom(mem, s, hval, 0, k) && elm == At(s, k)
    {
      ghost var s, slots := chains[hval % tab.Length], tab[..];
      assert Linked(mem, slots[hval % tab.Length], s, hval % tab.Length);
      elm := tab[hval % tab.Length];
      k := 0;
      while elm != null && elm.val != hval
        invariant k <= |s| && elm == At(s, k) && NoneIn(mem, s, hval, 0, k)
        decreases |s| - k
      {
        NextInChain(mem, tab[..], chains, hval % tab.Length, k);
        elm := elm.next;
        k := k + 1;
      }
      assert elm != null ==> mem[s[k]] == Cell(elm.val, elm.next, elm.pprev);
    }

    /** async/ihash.h:148-153: the next entry with the hash value of `elm`, which is at `k0`. */
    method NextVal(elm: Entry, ghost k0: nat) returns (next: Entry?, ghost k: nat)
      requires Valid() && elm in mem && elm == At(chains[elm.val % tab.Length], k0)
      ensures var s := chains[elm.val % tab.Length]; FirstFrom(mem, s, elm.val, k0 + 1, k) && next == At(s, k)
    {
      var hval := elm.val;
      ghost var s, slots := chains[hval % tab.Length], tab[..];
      assert Linked(mem, slots[hval % tab.Length], s, hval % tab.Length);
      NextInChain(mem, tab[..], chains, hval % tab.Length, k0);
      next := elm.next;
      k := k0 + 1;
      while next != null && next.val != hval
        invariant k0 < k <= |s| && next == At(s, k) && NoneIn(mem, s, hval, k0 + 1, k)
        decreases |s| - k
      {
        NextInChain(mem, tab[..], chains, hval % tab.Length, k);
        next := next.next;
        k := k + 1;
      }
      assert next != null ==> mem[s[k]] == Cell(next.val, next.next, next.pprev);
    }

    /** async/ihash.h:270-278, `operator[]`: the first entry with this key. */
    method Get(key: int) returns (v: Entry?, ghost k: nat)
      requires Valid()
      ensures var s := chains[hash(key) % tab.Length]; FirstKey(s, key, 0, k) && v == At(s, k)
    {
      ghost var s := chains[hash(key) % tab.Length];
      v, k := LookupVal(hash(key));
      ValSkip(mem, tab[..], chains, hash, key, 0, k);
      while v != null && key != v.key
        invariant k <= |s| && v == At(s, k) && NoKeyIn(s, key, 0, k)
        invariant v != null ==> v in mem && v.val == hash(key)
        decreases |s| - k
      {
        ghost var k0 := k;
        v, k := NextVal(v, k);
        ValSkip(mem, tab[..], chains, hash, key, k0 + 1, k);
      }
    }

    /** async/ihash.h:280-285: the next entry with the key of `v`, which is at `k0`. */
    method NextKeq(v: Entry, ghost k0: nat) returns (next: Entry?, ghost k: nat)
      requires Valid() && v in mem && v == At(chains[hash(v.key) % tab.Length], k0)
      ensures var s := chains[hash(v.key) % tab.Length]; FirstKey(s, v.key, k0 + 1, k) && next == At(s, k)
    {
      ghost var s := chains[hash(v.key) % tab.Length];
      assert mem[v].val == hash(v.key);
      next, k := NextVal(v, k0);
      ValSkip(mem, tab[..], chains, hash, v.key, k0 + 1, k);
      while next != null && v.key != next.key
        invariant k0 < k <= |s| && next == At(s, k) && NoKeyIn(s, v.key, k0 + 1, k)
        invariant next != null ==> next in mem && next.val == hash(v.key)
        decreases |s| - k
      {
        ghost var k1 := k;
        next, k := NextVal(next, k);
        ValSkip(mem, tab[..], chains, hash, v.key, k1 + 1, k);
      }
    }

    /** `operator[]` and then `nextkeq` until null: exactly the entries with the key, once each. */
    method Equals(key: int) returns (found: seq<Entry>)
      requires Valid()
      ensures Distinct(found) && forall n :: n in found <==> n in mem && n.key == key
    {
      ghost var s := chains[hash(key) % tab.Length];
      var v;
      ghost var k;
      v, k := Get(key);
      found := [];
      SkipMatches(s, key, 0, k);
      assert s[0..] == s;
      Inside(mem, tab[..], chains, hash(key) % tab.Length);
      while v != null
        invariant k <= |s| && v == At(s, k) && (v != null ==> v.key == key)
        invariant found + Matches(s[k..], key) == Matches(s, key)
        decreases |s| - k
      {
        var e: Entry := v;
        ghost var k0 := k;
        v, k := NextKeq(e, k);
        MatchStep(s, key, k0, k, found);
        found := found + [e];
      }
      assert s[k..] == [] && found == Matches(s, key);
      AllMatches(mem, tab[..], chains, hash, key);
    }

    /** The scans of async/ihash.h:196-198 and 211-213: the first entry from bucket `i0` on. */
    method FirstIn(i0: nat) returns (n: Entry?, ghost b: nat)
      requires Valid() && i0 <= tab.Length
      ensures i0 <= b <= |chains| && Flat(chains[i0..]) == Flat(chains[b..]) && n == Head(Flat(chains[b..]))
      ensures if n == null then b == |chains| else b < |chains| && chains[b] != [] && n == chains[b][0]
    {
      ghost var slots := tab[..];
      var i := i0;
      while i < tab.Length && tab[i] == null
        invariant i0 <= i <= tab.Length && Flat(chains[i0..]) == Flat(chains[i..])
      {
        assert Linked(mem, slots[i], chains[i], i) && chains[i] == [];
        assert chains[i..][1..] == chains[i + 1..];
        i := i + 1;
      }
      b := i;
      n := null;
      if i < tab.Length {
        assert Linked(mem, slots[i], chains[i], i) && chains[i..][0] == chains[i];
        n := tab[i];
      }
    }

    /** async/ihash.h:194-200 */
    method First() returns (n: Entry?, ghost b: nat)
      requires Valid()
      ensures b <= |chains| && Flat(chains) == Flat(chains[b..]) && n == Head(Flat(chains))
      ensures if n == null then Flat(chains) == [] else b < |chains| && chains[b] != [] && n == chains[b][0]
    {
      n, b := null, 0;
      assert chains[0..] == chains;
      FlatExact(mem, tab[..], chains);
      if entries != 0 {
        n, b := FirstIn(0);
      } else {
        assert mem.Keys == {};
        NoElements(Flat(chains));
      }
    }

    /** async/ihash.h:208-215: what follows `n`, which is at position `k0` of its bucket. */
    method Next(n: Entry, ghost k0: nat) returns (next: Entry?, ghost b: nat, ghost k: nat)
      requires Valid() && n in mem && n == At(chains[n.val % tab.Length], k0)
      ensures Rest(chains, n.val % tab.Length, k0) == [n] + Rest(chains, b, k)
      ensures if next == null then Rest(chains, b, k) == [] else b < |chains| && next == At(chains[b], k)
    {
      ghost var c := n.val % tab.Length;
      NextInChain(mem, tab[..], chains, c, k0);
      RestStep(chains, c, k0);
      if n.next != null {
        next, b, k := n.next, c, k0 + 1;
      } else {
        k := 0;
        next, b := FirstIn(n.val % tab.Length + 1);
        RestBucket(chains, b);
      }
    }

    /** `first` and then `next` until null: every entry, once each. */
    method All() returns (all: seq<Entry>)
      requires Valid()
      ensures Distinct(all) && Elements(all) == mem.Keys
    {
      ghost var b: nat, k: nat := 0, 0;
      var n;
      n, b := First();
      all := [];
      FlatExact(mem, tab[..], chains);
      RestBucket(chains, b);
      while n != null
        invariant n != null ==> b < |chains| && n == At(chains[b], k)
        invariant all + Rest(chains, b, k) == Flat(chains)
        invariant n == null ==> Rest(chains, b, k) == []
        decreases |Rest(chains, b, k)|
      {
        var e: Entry := n;
        Home(mem, tab[..], chains, b, k);
        n, b, k := Next(e, k);
        Regroup(all, e, Rest(chains, b, k));
        all := all + [e];
      }
      assert all + [] == all;
    }
  }

  lemma NoElements(s: seq<Entry>)
    ensures Elements(s) == {} <==> s == []
  {
    assert s != [] ==> s[0] in Elements(s);
  }

  lemma Regroup(a: seq<Entry>, n: Entry, b: seq<Entry>)
    ensures a + ([n] + b) == a + [n] + b
  {
  }

  ghost function Flat(chains: seq<seq<Entry>>): seq<Entry> {
    if chains == [] then [] else chains[0] + Flat(chains[1..])
  }

  /** The entries from position `k` of bucket `b` on, in the order of the buckets. */
  ghost function Rest(chains: seq<seq<Entry>>, b: nat, k: nat): seq<Entry> {
    if b < |chains| && k <= |chains[b]| then chains[b][k..] + Flat(chains[b + 1..]) else []
  }

  lemma RestStep(chains: seq<seq<Entry>>, b: nat, k: nat)
    requires b < |chains| && k < |chains[b]|
    ensures Rest(chains, b, k) == [chains[b][k]] + Rest(chains, b, k + 1)
    ensures k + 1 == |chains[b]| ==> Rest(chains, b, k + 1) == Flat(chains[b + 1..])
  {
    SplitAt(chains[b], k, Flat(chains[b + 1..]));
  }

  lemma SplitAt(s: seq<Entry>, k: nat, t: seq<Entry>)
    requires k < |s|
    ensures s[k..] + t == [s[k]] + (s[k + 1..] + t)
    ensures k + 1 == |s| ==> s[k + 1..] + t == t
  {
    assert s[k..] == [s[k]] + s[k + 1..];
  }

  lemma RestBucket(chains: seq<seq<Entry>>, b: nat)
    requires b <= |chains|
    ensures Rest(chains, b, 0) == Flat(chains[b..])
  {
    if b < |chains| {
      assert chains[b..][1..] == chains[b + 1..] && chains[b][0..] == chains[b];
    }
  }

  lemma NextInChain(m: Mem, slots: seq<Entry?>, chains: seq<seq<Entry>>, b: nat, k: nat)
    requires Holds(m, slots, chains) && b < |chains| && k < |chains[b]|
    ensures chains[b][k] in m && m[chains[b][k]].next == At(chains[b], k + 1)
  {
    assert Linked(m, slots[b], chains[b], b) && m[chains[b][k]].next == Head(chains[b][k + 1..]);
  }

  lemma Home(m: Mem, slots: seq<Entry?>, chains: seq<seq<Entry>>, b: nat, k: nat)
    requires Holds(m, slots, chains) && b < |chains| && k < |chains[b]|
    ensures chains[b][k] in m && m[chains[b][k]].val % |chains| == b
  {
    assert Linked(m, slots[b], chains[b], b) && Hashed(m, chains[b], b, |chains|);
  }

  lemma {:induction false} FlatMembers(chains: seq<seq<Entry>>, b: nat)
    requires b <= |chains|
    ensures Elements(Flat(chains[b..])) == Members(chains[b..])
    decreases |chains| - b
  {
    if b < |chains| {
      FlatMembers(chains, b + 1);
      var c, d := chains[b..], chains[b + 1..];
      assert c[1..] == d;
      assert Elements(Flat(c)) == Elements(chains[b]) + Elements(Flat(d));
      forall n | n in Elements(chains[b]) + Members(d) ensures n in Members(c) {
        if n in Members(d) {
          var i :| 0 <= i < |d| && n in d[i];
          assert n in c[i + 1];
        } else {
          assert n in c[0];
        }
      }
      forall n | n in Members(c) ensures n in Elements(chains[b]) + Members(d) {
        var i :| 0 <= i < |c| && n in c[i];
        assert i > 0 ==> n in d[i - 1];
      }
    }
  }

  lemma {:induction false} FlatDistinct(m: Mem, slots: seq<Entry?>, chains: seq<seq<Entry>>, b: nat)
    requires Table(m, slots, chains) && b <= |chains|
    ensures Distinct(Flat(chains[b..]))
    decreases |chains| - b
  {
    if b < |chains| {
      FlatDistinct(m, slots, chains, b + 1);
      FlatMembers(chains, b + 1);
      var s, d := chains[b], chains[b + 1..];
      assert chains[b..][1..] == d;
      assert Linked(m, slots[b], s, b);
      forall i | 0 <= i < |d| ensures Elements(d[i]) !! Elements(s) {
        OtherBucket(m, slots, chains, b, b + 1 + i);
      }
      assert Members(d) !! Elements(s);
      JoinDistinct(s, Flat(d));
    }
  }

  lemma JoinDistinct(s: seq<Entry>, t: seq<Entry>)
    requires Distinct(s) && Distinct(t) && Elements(t) !! Elements(s)
    ensures Distinct(s + t)
  {
    assert forall i :: 0 <= i < |s| ==> s[i] in Elements(s);
    assert forall i :: 0 <= i < |t| ==> t[i] in Elements(t);
  }

  lemma FlatExact(m: Mem, slots: seq<Entry?>, chains: seq<seq<Entry>>)
    requires Holds(m, slots, chains)
    ensures Distinct(Flat(chains)) && Elements(Flat(chains)) == m.Keys
  {
    FlatDistinct(m, slots, chains, 0);
    FlatMembers(chains, 0);
    assert chains[0..] == chains;
  }

  ghost function At(s: seq<Entry>, k: nat): Entry? { if k < |s| then s[k] else null }

  ghost predicate NoneIn(m: Mem, s: seq<Entry>, hval: nat, lo: nat, hi: nat) {
    hi <= |s| && forall j :: lo <= j < hi ==> s[j] in m && m[s[j]].val != hval
  }

  /** Position `k` is the first from `lo` on that has the hash value, or the end. */
  ghost predicate FirstFrom(m: Mem, s: seq<Entry>, hval: nat, lo: nat, k: nat) {
    lo <= k && NoneIn(m, s, hval, lo, k) && (k < |s| ==> s[k] in m && m[s[k]].val == hval)
  }

  ghost predicate NoKeyIn(s: seq<Entry>, key: int, lo: nat, hi: nat) {
    hi <= |s| && forall j :: lo <= j < hi ==> s[j].key != key
  }

  ghost predicate FirstKey(s: seq<Entry>, key: int, lo: nat, k: nat) {
    lo <= k && NoKeyIn(s, key, lo, k) && (k < |s| ==> s[k].key == key)
  }

  /** An entry with another hash value has another key. */
  lemma ValSkip(m: Mem, slots: seq<Entry?>, chains: seq<seq<Entry>>, hash: int -> nat, key: int, lo: nat, hi: nat)
    requires Holds(m, slots, chains) && HashedBy(m, hash) && |chains| > 0
    requires NoneIn(m, chains[hash(key) % |chains|], hash(key), lo, hi)
    ensures NoKeyIn(chains[hash(key) % |chains|], key, lo, hi)
  {
  }

  /** The entries with this key, in the order of the chain. */
  ghost function Matches(s: seq<Entry>, key: int): seq<Entry> {
    if s == [] then [] else (if s[0].key == key then [s[0]] else []) + Matches(s[1..], key)
  }

  lemma {:induction false} SkipMatches(s: seq<Entry>, key: int, lo: nat, hi: nat)
    requires lo <= hi && NoKeyIn(s, key, lo, hi)
    ensures Matches(s[lo..], key) == Matches(s[hi..], key)
    decreases hi - lo
  {
    if lo < hi {
      SkipMatches(s, key, lo + 1, hi);
      assert s[lo..][1..] == s[lo + 1..];
    }
  }

  lemma MatchStep(s: seq<Entry>, key: int, k: nat, next: nat, found: seq<Entry>)
    requires k < |s| && s[k].key == key && FirstKey(s, key, k + 1, next)
    ensures found + [s[k]] + Matches(s[next..], key) == found + Matches(s[k..], key)
  {
    SkipMatches(s, key, k + 1, next);
    assert s[k..][1..] == s[k + 1..];
  }

  lemma Inside(m: Mem, slots: seq<Entry?>, chains: seq<seq<Entry>>, b: nat)
    requires Holds(m, slots, chains) && b < |chains|
    ensures forall n :: n in chains[b] ==> n in m
  {
    assert Linked(m, slots[b], chains[b], b);
  }

  lemma {:induction false} MatchesExact(s: seq<Entry>, key: int)
    requires Distinct(s)
    ensures Distinct(Matches(s, key)) && forall n :: n in Matches(s, key) <==> n in s && n.key == key
  {
    if s != [] {
      MatchesExact(s[1..], key);
    }
  }

  lemma AllMatches(m: Mem, slots: seq<Entry?>, chains: seq<seq<Entry>>, hash: int -> nat, key: int)
    requires Holds(m, slots, chains) && HashedBy(m, hash) && |chains| > 0
    ensures var found := Matches(chains[hash(key) % |chains|], key);
      Distinct(found) && forall n :: n in found <==> n in m && n.key == key
  {
    var b := hash(key) % |chains|;
    assert Linked(m, slots[b], chains[b], b);
    MatchesExact(chains[b], key);
    forall n | n in m && n.key == key ensures n in chains[b] {
      var c, k := Find(m, slots, chains, n);
    }
  }

  /** Where an entry is. */
  lemma Find(m: Mem, slots: seq<Entry?>, chains: seq<seq<Entry>>, n: Entry) returns (b: nat, k: nat)
    requires Holds(m, slots, chains) && n in m
    ensures b < |chains| && k < |chains[b]| && chains[b][k] == n && b == m[n].val % |chains|
  {
    b :| 0 <= b < |chains| && n in chains[b];
    k :| 0 <= k < |chains[b]| && chains[b][k] == n;
    assert Hashed(m, chains[b], b, |chains|);
  }

  method UnlinkLinks(t: array<Entry?>, n: Entry, ghost b: nat, ghost k: nat, ghost m: Mem, ghost s: seq<Entry>)
    returns (ghost m': Mem)
    requires Agrees(m) && b < t.Length && Linked(m, t[b], s, b) && k < |s| && s[k] == n
    modifies t, m.Keys
    ensures Agrees(m') && Dropped(m, m', s, k)
    ensures t[..] == if k == 0 then old(t[..])[b := Head(s[1..])] else old(t[..])
  {
    assert n in m && m[n].pprev == Place(s, b, k) && m[n].next == Head(s[k + 1..]);
    if n.next != null {
      n.next.pprev := n.pprev;
    }
    if n.pprev.Slot? {
      t[n.pprev.i] := n.next;
    } else {
      n.pprev.n.next := n.next;
    }
    m' := map x | x in m.Keys - {n} :: Cell(x.val, x.next, x.pprev);
  }

  /** One entry is cut out of its chain, and the others keep their order. */
  ghost predicate CutOut(chains: seq<seq<Entry>>, n: Entry, chains': seq<seq<Entry>>) {
    exists b: nat, k: nat :: CutAt(chains, n, chains', b, k)
  }

  ghost predicate CutAt(chains: seq<seq<Entry>>, n: Entry, chains': seq<seq<Entry>>, b: nat, k: nat) {
    && b < |chains| && k < |chains[b]| && chains[b][k] == n
    && chains' == chains[b := chains[b][..k] + chains[b][k + 1..]]
  }

  method Unlink(t: array<Entry?>, n: Entry, ghost m: Mem, ghost chains: seq<seq<Entry>>)
    returns (ghost m': Mem, ghost chains': seq<seq<Entry>>)
    requires Agrees(m) && Holds(m, t[..], chains) && n in m
    modifies t, m.Keys
    ensures Agrees(m') && Holds(m', t[..], chains') && m'.Keys == m.Keys - {n} && SameVals(m, m', m'.Keys)
    ensures CutOut(chains, n, chains')
  {
    ghost var slots := t[..];
    ghost var b, k := Find(m, slots, chains, n);
    ghost var s := chains[b];
    assert Linked(m, slots[b], s, b) && slots[b] == t[b];
    m' := UnlinkLinks(t, n, b, k, m, s);
    DropHolds(m, m', slots, chains, b, k);
    chains' := chains[b := s[..k] + s[k + 1..]];
    assert CutAt(chains, n, chains', b, k);
  }

  lemma DropHolds(m: Mem, m': Mem, slots: seq<Entry?>, chains: seq<seq<Entry>>, b: nat, k: nat)
    requires Holds(m, slots, chains) && b < |chains| && k < |chains[b]| && Dropped(m, m', chains[b], k)
    ensures var s := chains[b];
      Holds(m', if k == 0 then slots[b := Head(s[1..])] else slots, chains[b := s[..k] + s[k + 1..]])
  {
    DropTable(m, m', slots, chains, b, k);
    var s := chains[b];
    var chains' := chains[b := s[..k] + s[k + 1..]];
    CutDistinct(s, k);
    forall x | x in Members(chains) && x != s[k] ensures x in Members(chains') {
      var c :| 0 <= c < |chains| && x in chains[c];
      assert x in chains'[c];
    }
    forall x | x in Members(chains') ensures x in Members(chains) && x != s[k] {
      var c :| 0 <= c < |chains'| && x in chains'[c];
      assert x in chains[c];
      if c != b {
        OtherBucket(m, slots, chains, b, c);
      }
    }
  }
}