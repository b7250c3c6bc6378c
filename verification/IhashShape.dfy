/**
 * The chains of the intrusive hash table (async/ihash.h, async/ihash.C): which links a table with
 * given chains has, and what one insertion or removal does to them.
 */
module IhashShape {
  import opened RpcTypes

  /** `pprev`: the place that points to an entry, a bucket or the `next` field of another entry. */
  datatype Ref = Slot(i: nat) | NextOf(n: Entry)

  /** An element with its `_ihash_entry`. */
  class Entry {
    const key: int
    var val: nat
    var next: Entry?
    var pprev: Ref

    constructor (key: int)
      ensures this.key == key
    {
      this.key := key;
      val, next, pprev := 0, null, Slot(0);
    }
  }

  datatype Cell = Cell(val: nat, next: Entry?, pprev: Ref)

  /** A snapshot of the links. */
  type Mem = map<Entry, Cell>

  ghost function Head(s: seq<Entry>): Entry? { if s == [] then null else s[0] }

  ghost predicate AllIn(s: seq<Entry>, m: Mem) { forall n :: n in s ==> n in m }

  ghost predicate NextLinked(m: Mem, s: seq<Entry>) {
    && AllIn(s, m)
    && forall j {:trigger m[s[j]]} :: 0 <= j < |s| ==> m[s[j]].next == Head(s[j + 1..])
  }

  /** The place that points to position `j` of the chain of bucket `b`. */
  ghost function Place(s: seq<Entry>, b: nat, j: nat): Ref
    requires j <= |s|
  {
    if j == 0 then Slot(b) else NextOf(s[j - 1])
  }

  ghost predicate PrevLinked(m: Mem, s: seq<Entry>, b: nat) {
    && AllIn(s, m)
    && forall j {:trigger m[s[j]]} :: 0 <= j < |s| ==> m[s[j]].pprev == Place(s, b, j)
  }

  /** `s` is the chain of bucket `b`, whose head is `slot`. */
  ghost predicate Linked(m: Mem, slot: Entry?, s: seq<Entry>, b: nat) {
    slot == Head(s) && NextLinked(m, s) && PrevLinked(m, s, b) && Distinct(s)
  }

  /** Every entry of the chain belongs into bucket `b` of `buckets`. */
  ghost predicate Hashed(m: Mem, s: seq<Entry>, b: nat, buckets: nat) {
    buckets > 0 && forall n :: n in s ==> n in m && m[n].val % buckets == b
  }

  ghost predicate Table(m: Mem, slots: seq<Entry?>, chains: seq<seq<Entry>>) {
    && |slots| == |chains|
    && forall b :: 0 <= b < |chains| ==>
      Linked(m, slots[b], chains[b], b) && Hashed(m, chains[b], b, |chains|)
  }

  ghost predicate In(n: Entry, chains: seq<seq<Entry>>) {
    exists b :: 0 <= b < |chains| && n in chains[b]
  }

  /** The entry's fields changed, nothing else. */
  ghost predicate Frame(m: Mem, m': Mem, s: seq<Entry>) {
    forall n :: n in s ==> n in m && n in m' && m'[n] == m[n]
  }

  lemma LinkedFrame(m: Mem, m': Mem, slot: Entry?, s: seq<Entry>, b: nat, buckets: nat)
    requires Linked(m, slot, s, b) && Hashed(m, s, b, buckets) && Frame(m, m', s)
    ensures Linked(m', slot, s, b) && Hashed(m', s, b, buckets)
  {
  }

  // Insertion at the head of a chain.

  /** The writes of async/ihash.h:128-134. */
  ghost predicate Pushed(m: Mem, m': Mem, s: seq<Entry>, b: nat, n: Entry, val: nat) {
    && m'.Keys == m.Keys + {n}
    && m'[n] == Cell(val, Head(s), Slot(b))
    && (s != [] ==> s[0] in m && m'[s[0]] == m[s[0]].(pprev := NextOf(n)))
    && forall x :: x in m && x != n && x != Head(s) ==> m'[x] == m[x]
  }

  lemma PushLinked(m: Mem, m': Mem, slot: Entry?, s: seq<Entry>, b: nat, n: Entry, val: nat, buckets: nat)
    requires Linked(m, slot, s, b) && Hashed(m, s, b, buckets) && n !in s
    requires Pushed(m, m', s, b, n, val) && val % buckets == b
    ensures Linked(m', n, [n] + s, b) && Hashed(m', [n] + s, b, buckets)
  {
    var r := [n] + s;
    assert r[1..] == s;
    forall j | 0 <= j < |r|
      ensures r[j] in m' && m'[r[j]].next == Head(r[j + 1..]) && m'[r[j]].pprev == Place(r, b, j)
    {
      if j > 0 {
        PushAt(m, m', s, b, n, val, j);
      }
    }
    PushDistinct(s, n);
    assert forall x :: x in s ==> x in m && m'[x].val == m[x].val;
  }

  lemma PushAt(m: Mem, m': Mem, s: seq<Entry>, b: nat, n: Entry, val: nat, j: nat)
    requires NextLinked(m, s) && PrevLinked(m, s, b) && Distinct(s) && n !in s && 0 < j <= |s|
    requires Pushed(m, m', s, b, n, val)
    ensures var r := [n] + s;
      r[j] in m' && m'[r[j]].next == Head(r[j + 1..]) && m'[r[j]].pprev == Place(r, b, j)
  {
    var r := [n] + s;
    assert r[j] == s[j - 1] && r[j + 1..] == s[j..] && s[j - 1] in m;
    assert m[s[j - 1]].next == Head(s[j..]) && m[s[j - 1]].pprev == Place(s, b, j - 1);
  }

  lemma PushDistinct(s: seq<Entry>, n: Entry)
    requires Distinct(s) && n !in s
    ensures Distinct([n] + s)
  {
  }

  lemma PushTable(m: Mem, m': Mem, slots: seq<Entry?>, chains: seq<seq<Entry>>, b: nat, n: Entry, val: nat)
    requires Table(m, slots, chains) && b < |chains| && !In(n, chains)
    requires Pushed(m, m', chains[b], b, n, val) && val % |chains| == b
    ensures Table(m', slots[b := n], chains[b := [n] + chains[b]])
  {
    PushLinked(m, m', slots[b], chains[b], b, n, val, |chains|);
    forall c | 0 <= c < |chains| && c != b
      ensures Linked(m', slots[c], chains[c], c) && Hashed(m', chains[c], c, |chains|)
    {
      OtherBucket(m, slots, chains, b, c);
      LinkedFrame(m, m', slots[c], chains[c], c, |chains|);
    }
  }

  /** Chains of different buckets have no entry in common. */
  lemma OtherBucket(m: Mem, slots: seq<Entry?>, chains: seq<seq<Entry>>, b: nat, c: nat)
    requires Table(m, slots, chains) && b < |chains| && c < |chains| && b != c
    ensures forall n :: n in chains[c] ==> n !in chains[b] && n in m
  {
    assert Hashed(m, chains[b], b, |chains|) && Hashed(m, chains[c], c, |chains|);
  }

  // Removal from a chain.

  /** What becomes of a cell when the entry at position `k` of the chain `s` goes. */
  ghost function Closed(c: Cell, x: Entry, s: seq<Entry>, k: nat, pprev: Ref): Cell
    requires k < |s|
  {
    Cell(c.val, if k > 0 && x == s[k - 1] then Head(s[k + 1..]) else c.next,
      if k + 1 < |s| && x == s[k + 1] then pprev else c.pprev)
  }

  /** The writes of async/ihash.h:189-191. */
  ghost predicate Dropped(m: Mem, m': Mem, s: seq<Entry>, k: nat)
    requires k < |s|
  {
    && s[k] in m && m'.Keys == m.Keys - {s[k]}
    && forall x :: x in m' ==> m'[x] == Closed(m[x], x, s, k, m[s[k]].pprev)
  }

  lemma DropNext(m: Mem, m': Mem, s: seq<Entry>, k: nat, j: nat)
    requires NextLinked(m, s) && Distinct(s) && k < |s| && j + 1 < |s|
    requires Dropped(m, m', s, k)
    ensures var r := s[..k] + s[k + 1..]; r[j] in m' && m'[r[j]].next == Head(r[j + 1..])
  {
    var r := s[..k] + s[k + 1..];
    var i := if j < k then j else j + 1;
    assert r[j] == s[i] && s[i] in m && m[s[i]].next == Head(s[i + 1..]);
    if j + 1 < k {
      assert r[j + 1] == s[i + 1];
    } else {
      assert r[j + 1..] == if j + 1 == k then s[k + 1..] else s[i + 1..];
    }
  }

  lemma DropPrev(m: Mem, m': Mem, s: seq<Entry>, b: nat, k: nat, j: nat)
    requires PrevLinked(m, s, b) && Distinct(s) && k < |s| && j + 1 < |s|
    requires Dropped(m, m', s, k)
    ensures var r := s[..k] + s[k + 1..];
      r[j] in m' && m'[r[j]].pprev == Place(r, b, j)
  {
    var r := s[..k] + s[k + 1..];
    if j < k {
      assert r[j] == s[j] && m[s[j]].pprev == Place(s, b, j);
      assert k + 1 < |s| ==> s[j] != s[k + 1];
      assert j > 0 ==> r[j - 1] == s[j - 1];
    } else if j == k {
      assert r[j] == s[k + 1] && s[k + 1] in m && m[s[k]].pprev == Place(s, b, k);
      assert k > 0 ==> r[k - 1] == s[k - 1];
    } else {
      assert r[j] == s[j + 1] && m[s[j + 1]].pprev == Place(s, b, j + 1);
      assert s[j + 1] != s[k + 1] && s[j + 1] != s[k] && r[j - 1] == s[j];
    }
  }

  lemma DropLinked(m: Mem, m': Mem, slot: Entry?, s: seq<Entry>, b: nat, k: nat, buckets: nat)
    requires Linked(m, slot, s, b) && Hashed(m, s, b, buckets) && k < |s|
    requires Dropped(m, m', s, k)
    ensures var r := s[..k] + s[k + 1..];
      Linked(m', if k == 0 then Head(s[1..]) else slot, r, b) && Hashed(m', r, b, buckets)
  {
    var r := s[..k] + s[k + 1..];
    forall j | 0 <= j < |r|
      ensures r[j] in m' && m'[r[j]].next == Head(r[j + 1..])
      ensures m'[r[j]].pprev == Place(r, b, j)
    {
      DropNext(m, m', s, k, j);
      DropPrev(m, m', s, b, k, j);
    }
    CutDistinct(s, k);
  }

  lemma CutDistinct(s: seq<Entry>, k: nat)
    requires Distinct(s) && k < |s|
    ensures var r := s[..k] + s[k + 1..];
      Distinct(r) && forall x :: x in r <==> x in s && x != s[k]
  {
    var r := s[..k] + s[k + 1..];
    assert forall j :: 0 <= j < |r| ==> r[j] == s[if j < k then j else j + 1];
    assert s == s[..k] + [s[k]] + s[k + 1..];
  }

  lemma DropTable(m: Mem, m': Mem, slots: seq<Entry?>, chains: seq<seq<Entry>>, b: nat, k: nat)
    requires Table(m, slots, chains) && b < |chains| && k < |chains[b]|
    requires Dropped(m, m', chains[b], k)
    ensures var s := chains[b];
      Table(m', if k == 0 then slots[b := Head(s[1..])] else slots, chains[b := s[..k] + s[k + 1..]])
  {
    DropLinked(m, m', slots[b], chains[b], b, k, |chains|);
    forall c | 0 <= c < |chains| && c != b
      ensures Linked(m', slots[c], chains[c], c) && Hashed(m', chains[c], c, |chains|)
    {
      OtherBucket(m, slots, chains, b, c);
      LinkedFrame(m, m', slots[c], chains[c], c, |chains|);
    }
  }
}
