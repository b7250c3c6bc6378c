/**
 * The ordering of DNS SRV records (async/dnsparse.C:546-608): by priority, and within a priority
 * in a random order that favours weight, as RFC 2782 asks.
 */
module SrvShuffle {
  import opened RpcTypes
  import opened Powers

  /** The fields that the order depends on, and which record it is. */
  datatype Srv = Srv(prio: nat, weight: nat, port: nat)

  ghost predicate Fields16(s: seq<Srv>) {
    forall i :: 0 <= i < |s| ==> s[i].prio < TWO_TO_16 && s[i].weight < TWO_TO_16
  }

  /** async/dnsparse.C:546-553 */
  function Compare(a: Srv, b: Srv): (d: int) {
    if a.prio != b.prio then a.prio - b.prio else b.weight - a.weight
  }

  predicate Sorted(s: seq<Srv>) {
    forall i, j :: 0 <= i < j < |s| ==> Compare(s[i], s[j]) <= 0
  }

  /** Records of one class are shuffled with each other. */
  predicate SameClass(a: Srv, b: Srv) { a.prio == b.prio && (a.weight == 0 <==> b.weight == 0) }

  /** By priority, and nonzero weights before zero weights. */
  ghost predicate Ordered(s: seq<Srv>) {
    forall i, j :: 0 <= i < j < |s| ==>
      s[i].prio < s[j].prio || (s[i].prio == s[j].prio && (s[i].weight != 0 || s[j].weight == 0))
  }

  /** The records as they come out of `qsort`. */
  ghost predicate Listed(s: seq<Srv>) { Fields16(s) && Sorted(s) }

  // The weighted draw.

  function Sum(s: seq<Srv>): (n: nat) {
    if s == [] then 0 else s[0].weight + Sum(s[1..])
  }

  /** The record that the scan of async/dnsparse.C:596-597 stops at. */
  function Pick(s: seq<Srv>, r: nat): (i: nat)
    requires 0 < r <= Sum(s)
    ensures i < |s|
  {
    if s[0].weight < r then 1 + Pick(s[1..], r - s[0].weight) else 0
  }

  lemma {:induction false} SumSplit(s: seq<Srv>, k: nat)
    requires k <= |s|
    ensures Sum(s) == Sum(s[..k]) + Sum(s[k..])
    decreases k
  {
    if k == 0 {
      assert s[..0] == [] && s[0..] == s;
    } else {
      SumSplit(s[1..], k - 1);
      assert s[..k][1..] == s[1..][..k - 1] && s[1..][k - 1..] == s[k..];
    }
  }

  /** The draw `r` picks record `i` exactly if it lies in the share of the total that is `i`'s. */
  lemma {:induction false} PickShare(s: seq<Srv>, r: nat, i: nat)
    requires 0 < r <= Sum(s) && i < |s|
    ensures Pick(s, r) == i <==> Sum(s[..i]) < r <= Sum(s[..i]) + s[i].weight
    decreases |s|
  {
    if i == 0 {
      assert s[..0] == [];
    } else {
      assert s[..i][1..] == s[1..][..i - 1];
      if s[0].weight < r {
        PickShare(s[1..], r - s[0].weight, i - 1);
      }
    }
  }

  /** How many of the draws 1, ..., `n` pick record `i`. */
  function Draws(s: seq<Srv>, i: nat, n: nat): (c: nat)
    requires n <= Sum(s)
  {
    if n == 0 then 0 else Draws(s, i, n - 1) + if Pick(s, n) == i then 1 else 0
  }

  lemma {:induction false} DrawsShare(s: seq<Srv>, i: nat, n: nat)
    requires i < |s| && n <= Sum(s)
    ensures var lo := Sum(s[..i]);
      Draws(s, i, n) == if n <= lo then 0 else if n <= lo + s[i].weight then n - lo else s[i].weight
    decreases n
  {
    if n > 0 {
      DrawsShare(s, i, n - 1);
      PickShare(s, n, i);
    }
  }

  /** Of the `Sum(s)` equally likely draws, exactly `s[i].weight` pick record `i`. */
  lemma FairShare(s: seq<Srv>, i: nat)
    requires i < |s|
    ensures Draws(s, i, Sum(s)) == s[i].weight
  {
    SumSplit(s, i);
    assert Sum(s[i..]) >= s[i].weight;
    DrawsShare(s, i, Sum(s));
  }

  // Shuffling a stretch of records.

  ghost predicate SameClasses(s: seq<Srv>, t: seq<Srv>) {
    |s| == |t| && forall i :: 0 <= i < |s| ==> SameClass(t[i], s[i])
  }

  lemma {:induction false} SumUpdate(s: seq<Srv>, i: nat, x: Srv)
    requires i < |s|
    ensures Sum(s[i := x]) == Sum(s) - s[i].weight + x.weight
    decreases i
  {
    if i > 0 {
      SumUpdate(s[1..], i - 1, x);
      assert s[i := x][1..] == s[1..][i - 1 := x];
    } else {
      assert s[0 := x][1..] == s[1..];
    }
  }

  /** After a swap with its first record, the rest of a stretch weighs what it did less that record. */
  lemma SumAfterSwap(t: seq<Srv>, lo: nat, hi: nat, j: nat)
    requires lo <= j < hi <= |t|
    ensures var u := t[lo := t[j]][j := t[lo]];
      Sum(u[lo + 1..hi]) == Sum(t[lo..hi]) - t[j].weight
  {
    var u := t[lo := t[j]][j := t[lo]];
    var a := t[lo..hi];
    var b := a[0 := a[j - lo]];
    SumUpdate(a, 0, a[j - lo]);
    SumUpdate(b, j - lo, a[0]);
    assert u[lo..hi] == b[j - lo := a[0]];
    assert u[lo..hi][1..] == u[lo + 1..hi];
  }

  method Swap(a: array<Srv>, i: nat, j: nat)
    requires i < a.Length && j < a.Length
    modifies a
    ensures a[..] == old(a[..])[i := old(a[j])][j := old(a[i])]
  {
    a[i], a[j] := a[j], a[i];
  }

  // The order of a class, given the random numbers that are drawn.

  /** `rnd(k, n)` is the k-th number of the generator, reduced modulo n. */
  type Random = f: (nat, nat) -> nat | forall k, n :: n > 0 ==> f(k, n) < n witness (k, n) => 0

  ghost predicate OneClass(s: seq<Srv>) { forall i, j :: 0 <= i < |s| && 0 <= j < |s| ==> SameClass(s[i], s[j]) }

  /** The number of records of a class, or the sum of their weights if they are not zero. */
  function Total(s: seq<Srv>): (n: nat)
    requires s != []
    ensures n > 0
  {
    if s[0].weight == 0 then |s| else Sum(s)
  }

  /** Which record of a class comes first: evenly among zero weights, by weight otherwise. */
  function Choice(s: seq<Srv>, r: nat): (i: nat)
    requires s != [] && r < Total(s)
    ensures i < |s|
  {
    if s[0].weight == 0 then r else Pick(s, r + 1)
  }

  function Exchanged(s: seq<Srv>, i: nat): (t: seq<Srv>)
    requires i < |s|
    ensures |t| == |s|
  {
    s[0 := s[i]][i := s[0]]
  }

  function GroupOrder(s: seq<Srv>, rnd: Random, k: nat): (t: seq<Srv>)
    decreases |s|
  {
    if |s| <= 1 then s
    else
      var u := Exchanged(s, Choice(s, rnd(k, Total(s))));
      [u[0]] + GroupOrder(u[1..], rnd, k + 1)
  }

  lemma ExchangedClass(s: seq<Srv>, i: nat)
    requires OneClass(s) && i < |s|
    ensures OneClass(Exchanged(s, i))
  {
  }

  /** The order is a permutation. */
  lemma {:induction false} GroupOrderPermutes(s: seq<Srv>, rnd: Random, k: nat)
    ensures multiset(GroupOrder(s, rnd, k)) == multiset(s)
    decreases |s|
  {
    if |s| > 1 {
      var head, tail := GroupStep(s, rnd, k);
      GroupOrderPermutes(tail, rnd, k + 1);
      Cons(head, GroupOrder(tail, rnd, k + 1), tail);
    }
  }

  lemma GroupStep(s: seq<Srv>, rnd: Random, k: nat) returns (head: Srv, tail: seq<Srv>)
    requires |s| > 1
    ensures |tail| == |s| - 1 && multiset([head] + tail) == multiset(s)
    ensures GroupOrder(s, rnd, k) == [head] + GroupOrder(tail, rnd, k + 1)
  {
    var i := Choice(s, rnd(k, Total(s)));
    var u := Exchanged(s, i);
    SwapPermutes(s, i);
    head, tail := u[0], u[1..];
    assert u == [head] + tail;
  }

  lemma SwapPermutes(s: seq<Srv>, i: nat)
    requires i < |s|
    ensures multiset(Exchanged(s, i)) == multiset(s)
  {
  }

  lemma Cons(x: Srv, a: seq<Srv>, b: seq<Srv>)
    requires multiset(a) == multiset(b)
    ensures multiset([x] + a) == multiset([x] + b)
  {
  }

  /** The record that a draw of `rnd` puts first: by its number among zero weights, otherwise the one in
      whose share of the total weight it lies. It changes places with the first, and so on with the rest. */
  lemma GroupExact(s: seq<Srv>, rnd: Random, k: nat) returns (i: nat)
    requires OneClass(s) && |s| > 1
    ensures i < |s| && GroupOrder(s, rnd, k) == [s[i]] + GroupOrder(s[0 := s[i]][i := s[0]][1..], rnd, k + 1)
    ensures s[0].weight == 0 ==> i == rnd(k, |s|)
    ensures s[0].weight != 0 ==> Sum(s[..i]) <= rnd(k, Sum(s)) < Sum(s[..i]) + s[i].weight
  {
    var r := rnd(k, Total(s));
    i := Choice(s, r);
    if s[0].weight != 0 {
      PickShare(s, r + 1, i);
    }
  }

  // Fairness of the first place.

  /** The generator whose next number is `r`. */
  function Fixed(r: nat): (rnd: Random) { (k: nat, n: nat) => if r < n then r else 0 }

  /** What record `x` counts for in a class: once for each time it is there, or its weight. */
  function Shares(s: seq<Srv>, x: Srv): (n: nat) {
    if s == [] then 0 else (if s[0] != x then 0 else if x.weight == 0 then 1 else x.weight) + Shares(s[1..], x)
  }

  /** How many of the draws 0, ..., `n` - 1 put record `x` first. */
  function Firsts(s: seq<Srv>, k: nat, x: Srv, n: nat): (c: nat)
    requires s != []
  {
    if n == 0 then 0
    else
      var t := GroupOrder(s, Fixed(n - 1), k);
      Firsts(s, k, x, n - 1) + if t != [] && t[0] == x then 1 else 0
  }

  /** The first record when the draw is `r`. */
  lemma FirstIs(s: seq<Srv>, k: nat, r: nat)
    requires OneClass(s) && s != [] && r < Total(s)
    ensures var t := GroupOrder(s, Fixed(r), k); t != [] && t[0] == s[Choice(s, r)]
  {
    assert Fixed(r)(k, Total(s)) == r;
  }

  /** Of the first `n` records of zero weight, those that are `x`. */
  lemma {:induction false} FirstsZero(s: seq<Srv>, k: nat, x: Srv, n: nat)
    requires OneClass(s) && s != [] && s[0].weight == 0 && n <= |s|
    ensures Firsts(s, k, x, n) == Shares(s[..n], x)
    decreases n
  {
    if n > 0 {
      FirstsZero(s, k, x, n - 1);
      FirstIs(s, k, n - 1);
      SharesMore(s[..n - 1], s[n - 1], x);
      assert s[..n] == s[..n - 1] + [s[n - 1]];
      assert SameClass(s[n - 1], s[0]);
    }
  }

  lemma {:induction false} SharesMore(s: seq<Srv>, y: Srv, x: Srv)
    ensures Shares(s + [y], x) == Shares(s, x) + if y != x then 0 else if x.weight == 0 then 1 else x.weight
  {
    if s != [] {
      SharesMore(s[1..], y, x);
      assert (s + [y])[1..] == s[1..] + [y];
    } else {
      assert s + [y] == [y] && [y][1..] == [];
    }
  }

  /** What the first `n` units of weight contribute to `x`. */
  function Units(s: seq<Srv>, x: Srv, n: nat): (c: nat)
    requires n <= Sum(s)
  {
    if s == [] then 0
    else if n <= s[0].weight then if s[0] == x then n else 0
    else (if s[0] == x then s[0].weight else 0) + Units(s[1..], x, n - s[0].weight)
  }

  lemma {:induction false} UnitsMore(s: seq<Srv>, x: Srv, n: nat)
    requires 0 < n <= Sum(s)
    ensures Units(s, x, n) == Units(s, x, n - 1) + if s[Pick(s, n)] == x then 1 else 0
    decreases |s|
  {
    if s[0].weight < n {
      UnitsMore(s[1..], x, n - s[0].weight);
      if n - 1 == s[0].weight {
        UnitsNone(s[1..], x);
      }
    }
  }

  lemma UnitsNone(s: seq<Srv>, x: Srv)
    ensures Units(s, x, 0) == 0
  {
  }

  lemma {:induction false} UnitsAll(s: seq<Srv>, x: Srv)
    requires forall i :: 0 <= i < |s| ==> s[i].weight != 0
    ensures Units(s, x, Sum(s)) == Shares(s, x)
  {
    if s != [] {
      UnitsAll(s[1..], x);
      if Sum(s[1..]) == 0 {
        UnitsNone(s[1..], x);
      }
    }
  }

  lemma {:induction false} FirstsWeighted(s: seq<Srv>, k: nat, x: Srv, n: nat)
    requires OneClass(s) && s != [] && s[0].weight != 0 && n <= Sum(s)
    ensures Firsts(s, k, x, n) == Units(s, x, n)
    decreases n
  {
    if n == 0 {
      UnitsNone(s, x);
    } else {
      FirstsWeighted(s, k, x, n - 1);
      FirstIs(s, k, n - 1);
      UnitsMore(s, x, n);
    }
  }

  /**
   * Of the equally likely draws from a class, as many put a record first as its weight, or exactly one
   * if the weights are zero, for each time that the record is there.
   */
  lemma FairFirst(s: seq<Srv>, k: nat, x: Srv)
    requires OneClass(s) && s != []
    ensures Firsts(s, k, x, if s[0].weight == 0 then |s| else Sum(s)) == Shares(s, x)
  {
    if s[0].weight == 0 {
      FirstsZero(s, k, x, |s|);
      assert s[..|s|] == s;
    } else {
      FirstsWeighted(s, k, x, Sum(s));
      assert forall i :: 0 <= i < |s| ==> SameClass(s[i], s[0]);
      UnitsAll(s, x);
    }
  }

  /** The scan of async/dnsparse.C:596-597, which never leaves the class. */
  method Scan(a: array<Srv>, base: nat, hi: nat, r0: nat) returns (n: nat)
    requires base < hi <= a.Length && 0 < r0 <= Sum(a[base..hi])
    ensures n == base + Pick(a[base..hi], r0) && n < hi
  {
    var r := r0;
    n := base;
    while a[n].weight < r
      invariant base <= n < hi && 0 < r <= Sum(a[n..hi])
      invariant base + Pick(a[base..hi], r0) == n + Pick(a[n..hi], r)
      decreases hi - n
    {
      assert a[n..hi][0] == a[n] && a[n..hi][1..] == a[n + 1..hi];
      assert |a[n + 1..hi]| > 0;
      r := r - a[n].weight;
      n := n + 1;
    }
    assert a[n..hi][0] == a[n];
  }

  lemma SwapSlice(s: seq<Srv>, base: nat, hi: nat, i: nat)
    requires base + i < hi <= |s|
    ensures s[base := s[base + i]][base + i := s[base]] == s[..base] + Exchanged(s[base..hi], i) + s[hi..]
  {
  }

  /** The draw `r` is for record `i` of the class. */
  ghost predicate Drawn(s: seq<Srv>, r: nat, i: nat) {
    i < |s| && if s[0].weight == 0 then i == r else Sum(s[..i]) <= r < Sum(s[..i]) + s[i].weight
  }

  /** The record that the draw is for has changed places with the first one left, and no other has moved. */
  ghost predicate DrawnFirst(s: seq<Srv>, t: seq<Srv>, base: nat, hi: nat, r: nat)
    requires base < hi <= |s|
  {
    exists i :: base <= i < hi && Drawn(s[base..hi], r, i - base) && t == s[base := s[i]][i := s[base]]
  }

  lemma DrawnChoice(s: seq<Srv>, r: nat)
    requires s != [] && r < Total(s)
    ensures Drawn(s, r, Choice(s, r))
  {
    if s[0].weight != 0 {
      PickShare(s, r + 1, Choice(s, r));
    }
  }

  /** One draw: the choice of what is left of a class changes places with its first record. */
  method Draw(a: array<Srv>, base: nat, hi: nat, r: nat)
    requires base < hi <= a.Length && OneClass(a[base..hi]) && r < Total(a[base..hi])
    modifies a
    ensures a[..] == old(a[..])[..base] + Exchanged(old(a[base..hi]), Choice(old(a[base..hi]), r)) + old(a[..])[hi..]
    ensures DrawnFirst(old(a[..]), a[..], base, hi, r)
  {
    ghost var s := a[base..hi];
    assert s[0] == a[base];
    var which;
    if a[base].weight == 0 {
      which := base + r;
    } else {
      which := Scan(a, base, hi, r + 1);
    }
    assert which == base + Choice(s, r);
    DrawnChoice(s, r);
    SwapSlice(a[..], base, hi, which - base);
    Swap(a, base, which);
  }

  lemma TotalOne(s: seq<Srv>)
    requires |s| == 1
    ensures Total(s) == if s[0].weight == 0 then 1 else s[0].weight
  {
    assert s[1..] == [] && Sum(s[1..]) == 0;
  }

  lemma TotalAfter(s: seq<Srv>, i: nat)
    requires OneClass(s) && i < |s| && |s| > 1
    ensures var u := Exchanged(s, i);
      OneClass(u[1..]) && Total(u[1..]) == Total(s) - if s[0].weight == 0 then 1 else u[0].weight
  {
    ExchangedClass(s, i);
    var u := Exchanged(s, i);
    assert SameClass(u[1], s[0]) by {
      assert SameClass(u[1], u[0]) && SameClass(u[i], u[0]) && u[i] == s[0];
    }
    SumAfterSwap(s, 0, |s|, i);
    assert s[0..|s|] == s && u[1..|s|] == u[1..];
  }

  /** The record drawn comes next in the order, and then the order of the rest. */
  lemma GroupNext(left: seq<Srv>, rnd: Random, k: nat, done: seq<Srv>) returns (first: Srv, rest: seq<Srv>)
    requires |left| > 1
    ensures Exchanged(left, Choice(left, rnd(k, Total(left)))) == [first] + rest && |rest| == |left| - 1
    ensures done + GroupOrder(left, rnd, k) == (done + [first]) + GroupOrder(rest, rnd, k + 1)
  {
    var u := Exchanged(left, Choice(left, rnd(k, Total(left))));
    first, rest := u[0], u[1..];
    Assoc(done, [first], GroupOrder(rest, rnd, k + 1));
  }

  /** A round of the loop: a draw, and the total of what is then left. */
  method DrawNext(a: array<Srv>, base: nat, hi: nat, totweight: nat, r: nat,
                  ghost before: seq<Srv>, ghost done: seq<Srv>, ghost left: seq<Srv>, ghost after: seq<Srv>)
    returns (rest: nat)
    requires base + 1 < hi <= a.Length && |left| == hi - base && OneClass(left) && r < totweight == Total(left)
    requires a[..] == before + done + left + after && base == |before + done|
    modifies a
    ensures var u := Exchanged(left, Choice(left, r));
      a[..] == before + (done + [u[0]]) + u[1..] + after && OneClass(u[1..]) && rest == Total(u[1..])
  {
    ghost var u := Exchanged(left, Choice(left, r));
    TotalAfter(left, Choice(left, r));
    Ends(a[..], before, done, left, after, base, hi);
    var zero := a[base].weight == 0;
    Draw(a, base, hi, r);
    Placed(a[..], before, done, u, after, base, hi);
    rest := totweight - if zero then 1 else a[base].weight;
  }

  /** Part of a class is in order, `done`, and the rest is still to be drawn from. */
  ghost predicate Shuffling(s: seq<Srv>, before: seq<Srv>, done: seq<Srv>, left: seq<Srv>, after: seq<Srv>, order: seq<Srv>,
                            rnd: Random, k: nat, base: nat, hi: nat, totweight: nat) {
    && s == before + done + left + after && base == |before + done| && hi == base + |left|
    && left != [] && OneClass(left) && totweight == Total(left)
    && done + GroupOrder(left, rnd, k) == order
  }

  /** A round of the loop. */
  method ShuffleNext(a: array<Srv>, base: nat, hi: nat, tot0: nat, rnd: Random, k: nat, ghost before: seq<Srv>,
                     ghost done0: seq<Srv>, ghost left0: seq<Srv>, ghost after: seq<Srv>, ghost order: seq<Srv>)
    returns (totweight: nat, ghost done: seq<Srv>, ghost left: seq<Srv>)
    requires Shuffling(a[..], before, done0, left0, after, order, rnd, k, base, hi, tot0) && base + 1 < hi <= a.Length
    modifies a
    ensures Shuffling(a[..], before, done, left, after, order, rnd, k + 1, base + 1, hi, totweight)
  {
    ghost var first, rest := GroupNext(left0, rnd, k, done0);
    totweight := DrawNext(a, base, hi, tot0, rnd(k, tot0), before, done0, left0, after);
    done, left := done0 + [first], rest;
  }

  lemma ShuffleBegins(s: seq<Srv>, rnd: Random, k: nat, base: nat, hi: nat)
    requires base < hi <= |s| && OneClass(s[base..hi])
    ensures var left := s[base..hi];
      Shuffling(s, s[..base], [], left, s[hi..], GroupOrder(left, rnd, k), rnd, k, base, hi, Total(left))
  {
    assert s == s[..base] + [] + s[base..hi] + s[hi..];
  }

  lemma ShuffleDone(s: seq<Srv>, before: seq<Srv>, done: seq<Srv>, left: seq<Srv>, after: seq<Srv>, order: seq<Srv>,
                    rnd: Random, k: nat, base: nat, hi: nat, totweight: nat)
    requires Shuffling(s, before, done, left, after, order, rnd, k, base, hi, totweight) && |left| == 1
    ensures s == before + order + after && totweight == if s[base].weight == 0 then 1 else s[base].weight
  {
    Assembled(before, done, left, after);
    TotalOne(left);
  }

  /**
   * The inner loops of async/dnsparse.C:576-585 and 593-602: the class from `base0` to `hi` is put
   * in the order that the random numbers give.
   */
  method ShuffleClass(a: array<Srv>, base0: nat, hi: nat, tot0: nat, rnd: Random, k0: nat) returns (k: nat)
    requires base0 < hi <= a.Length && OneClass(a[base0..hi]) && tot0 == Total(a[base0..hi])
    modifies a
    ensures a[..] == old(a[..])[..base0] + GroupOrder(old(a[base0..hi]), rnd, k0) + old(a[..])[hi..]
    ensures k == k0 + (hi - base0 - 1)
  {
    ghost var before, after, order := a[..base0], a[hi..], GroupOrder(a[base0..hi], rnd, k0);
    var base: nat, totweight: nat := base0, tot0;
    k := k0;
    ghost var done: seq<Srv>, left := [], a[base0..hi];
    ShuffleBegins(a[..], rnd, k0, base0, hi);
    while base + 1 < hi
      invariant base0 <= base < hi && k == k0 + (base - base0)
      invariant Shuffling(a[..], before, done, left, after, order, rnd, k, base, hi, totweight)
    {
      totweight, done, left := ShuffleNext(a, base, hi, totweight, rnd, k, before, done, left, after, order);
      base, k := base + 1, k + 1;
    }
    ShuffleDone(a[..], before, done, left, after, order, rnd, k, base, hi, totweight);
    assert totweight == if a[base].weight == 0 then 1 else a[base].weight;
  }

  lemma Ends(s: seq<Srv>, before: seq<Srv>, done: seq<Srv>, left: seq<Srv>, after: seq<Srv>, base: nat, hi: nat)
    requires s == before + done + left + after && base == |before + done| && hi == base + |left|
    ensures s[..base] == before + done && s[base..hi] == left && s[hi..] == after
    ensures left != [] ==> s[base] == left[0]
  {
  }

  lemma Assembled(before: seq<Srv>, done: seq<Srv>, left: seq<Srv>, after: seq<Srv>)
    ensures before + done + left + after == before + (done + left) + after
  {
  }

  lemma Placed(s: seq<Srv>, before: seq<Srv>, done: seq<Srv>, u: seq<Srv>, after: seq<Srv>, base: nat, hi: nat)
    requires s == before + done + u + after && u != [] && base == |before + done| && hi == base + |u|
    ensures s == before + (done + [u[0]]) + u[1..] + after
    ensures s[base] == u[0] && s[base + 1..hi] == u[1..]
  {
    assert u == [u[0]] + u[1..];
  }

  // All classes, one after the other.

  /** How many records at the front are of the first one's class. */
  function ClassLength(s: seq<Srv>): (n: nat)
    requires s != []
    ensures 0 < n <= |s|
  {
    Lead(s, 1)
  }

  lemma ClassExact(s: seq<Srv>)
    requires s != []
    ensures var n := ClassLength(s); OneClass(s[..n]) && (n < |s| ==> !SameClass(s[n], s[0]))
  {
    Leading(s, 1);
  }

  function Lead(s: seq<Srv>, k: nat): (n: nat)
    requires 0 < k <= |s|
    ensures k <= n <= |s|
    decreases |s| - k
  {
    if k < |s| && SameClass(s[k], s[0]) then Lead(s, k + 1) else k
  }

  lemma {:induction false} Leading(s: seq<Srv>, k: nat)
    requires 0 < k <= |s| && forall i :: 0 <= i < k ==> SameClass(s[i], s[0])
    ensures forall i :: 0 <= i < Lead(s, k) ==> SameClass(s[i], s[0])
    ensures Lead(s, k) < |s| ==> !SameClass(s[Lead(s, k)], s[0])
    decreases |s| - k
  {
    if k < |s| && SameClass(s[k], s[0]) {
      Leading(s, k + 1);
    }
  }

  function RandomOrder(s: seq<Srv>, rnd: Random, k: nat): (t: seq<Srv>)
    decreases |s|, 1
  {
    if s == [] then [] else ClassFirst(s, ClassLength(s), rnd, k)
  }

  /** The first `n` records are put in order, then what comes after them. */
  function ClassFirst(s: seq<Srv>, n: nat, rnd: Random, k: nat): (t: seq<Srv>)
    requires 0 < n <= |s|
    decreases |s|, 0
  {
    GroupOrder(s[..n], rnd, k) + RandomOrder(s[n..], rnd, k + n - 1)
  }

  lemma {:induction false} ClassNext(s: seq<Srv>, rnd: Random, k: nat, n: nat, next: nat, front: seq<Srv>, rest: seq<Srv>)
    requires 0 < n <= |s| && next == k + n - 1 && front == s[..n] && rest == s[n..]
    ensures ClassFirst(s, n, rnd, k) == GroupOrder(front, rnd, k) + RandomOrder(rest, rnd, next)
  {
  }

  /** The first class, and what comes after it. */
  lemma {:induction false} Unfold(s: seq<Srv>, rnd: Random, k: nat, n: nat, next: nat, front: seq<Srv>, rest: seq<Srv>)
    requires s != [] && n == ClassLength(s) && next == k + n - 1 && front == s[..n] && rest == s[n..]
    ensures RandomOrder(s, rnd, k) == GroupOrder(front, rnd, k) + RandomOrder(rest, rnd, next)
  {
    ClassNext(s, rnd, k, n, next, front, rest);
  }

  lemma {:induction false} LeadIs(s: seq<Srv>, k: nat, n: nat)
    requires 0 < k <= n <= |s| && forall j :: 0 <= j < n ==> SameClass(s[j], s[0])
    requires n < |s| ==> !SameClass(s[n], s[0])
    ensures Lead(s, k) == n
    decreases n - k
  {
    if k < n {
      LeadIs(s, k + 1, n);
    }
  }

  /** Each class as a whole, of one priority and of zero or nonzero weights, is put in its order, and the
      classes stay in theirs. */
  lemma ClassByClass(front: seq<Srv>, rest: seq<Srv>, rnd: Random, k: nat)
    requires front != []
    requires forall i :: 0 <= i < |front| ==> front[i].prio == front[0].prio && (front[i].weight == 0 <==> front[0].weight == 0)
    requires rest != [] ==> rest[0].prio != front[0].prio || (rest[0].weight == 0 <==> front[0].weight != 0)
    ensures RandomOrder(front + rest, rnd, k) == GroupOrder(front, rnd, k) + RandomOrder(rest, rnd, k + |front| - 1)
  {
    var s, n: nat := front + rest, |front|;
    assert forall j :: 0 <= j < n ==> s[j] == front[j];
    LeadIs(s, 1, n);
    assert s[..n] == front && s[n..] == rest;
    Unfold(s, rnd, k, n, k + n - 1, front, rest);
  }

  /** Sorted is: by priority, and by falling weight within a priority. */
  lemma SortedMeans(s: seq<Srv>)
    ensures Sorted(s) <==> forall i, j :: 0 <= i < j < |s| ==>
      s[i].prio < s[j].prio || (s[i].prio == s[j].prio && s[i].weight >= s[j].weight)
  {
    forall i, j | 0 <= i < j < |s|
      ensures Compare(s[i], s[j]) <= 0 <==>
        s[i].prio < s[j].prio || (s[i].prio == s[j].prio && s[i].weight >= s[j].weight)
    {
    }
  }

  lemma ClassesKept(s: seq<Srv>, t: seq<Srv>)
    requires OneClass(s) && multiset(t) == multiset(s)
    ensures SameClasses(s, t)
  {
    assert |s| == |multiset(s)| && |t| == |multiset(t)|;
    forall i | 0 <= i < |s| ensures SameClass(t[i], s[i]) {
      assert t[i] in multiset(t);
      assert t[i] in s;
    }
  }

  /** The result is a permutation, and each place keeps the class of its record. */
  lemma {:induction false} RandomOrderPermutes(s: seq<Srv>, rnd: Random, k: nat)
    ensures multiset(RandomOrder(s, rnd, k)) == multiset(s) && SameClasses(s, RandomOrder(s, rnd, k))
    decreases |s|
  {
    if s != [] {
      var front, rest, a, next := FirstClass(s, rnd, k);
      RandomOrderPermutes(rest, rnd, next);
      Join(front, a, rest, RandomOrder(rest, rnd, next));
    }
  }

  lemma FirstClass(s: seq<Srv>, rnd: Random, k: nat)
    returns (front: seq<Srv>, rest: seq<Srv>, a: seq<Srv>, next: nat)
    requires s != []
    ensures s == front + rest && |rest| < |s| && multiset(a) == multiset(front) && SameClasses(front, a)
    ensures RandomOrder(s, rnd, k) == a + RandomOrder(rest, rnd, next)
  {
    var n: nat := ClassLength(s);
    front, rest, next := s[..n], s[n..], k + n - 1;
    a := GroupOrder(front, rnd, k);
    Unfold(s, rnd, k, n, next, front, rest);
    ClassExact(s);
    GroupKept(front, rnd, k);
  }

  lemma GroupKept(s: seq<Srv>, rnd: Random, k: nat)
    requires OneClass(s)
    ensures multiset(GroupOrder(s, rnd, k)) == multiset(s) && SameClasses(s, GroupOrder(s, rnd, k))
  {
    GroupOrderPermutes(s, rnd, k);
    ClassesKept(s, GroupOrder(s, rnd, k));
  }

  lemma Join(s: seq<Srv>, a: seq<Srv>, t: seq<Srv>, b: seq<Srv>)
    requires SameClasses(s, a) && SameClasses(t, b) && multiset(a) == multiset(s) && multiset(b) == multiset(t)
    ensures SameClasses(s + t, a + b) && multiset(a + b) == multiset(s + t)
  {
  }

  /** Sorted records come out as a permutation by priority, nonzero weights before zero weights. */
  lemma RandomOrderOrdered(s: seq<Srv>, rnd: Random, k: nat)
    requires Sorted(s)
    ensures multiset(RandomOrder(s, rnd, k)) == multiset(s) && Ordered(RandomOrder(s, rnd, k))
  {
    RandomOrderPermutes(s, rnd, k);
    var t := RandomOrder(s, rnd, k);
    forall i, j | 0 <= i < j < |t|
      ensures t[i].prio < t[j].prio || (t[i].prio == t[j].prio && (t[i].weight != 0 || t[j].weight == 0))
    {
      assert Compare(s[i], s[j]) <= 0 && SameClass(t[i], s[i]) && SameClass(t[j], s[j]);
    }
  }

  lemma SumAppend(s: seq<Srv>, x: Srv)
    ensures Sum(s + [x]) == Sum(s) + x.weight
  {
    SumSplit(s + [x], |s|);
    assert (s + [x])[..|s|] == s && (s + [x])[|s|..] == [x];
    assert [x][1..] == [] && Sum([x]) == x.weight;
  }

  /**
   * The scans of async/dnsparse.C:573-575 and 588-591 for the end of a class. The total fits the
   * source's 32 bits, for as many records as a message can hold.
   */
  method FindClass(a: array<Srv>, base: nat) returns (hi: nat, totweight: nat)
    requires base < a.Length < TWO_TO_16 && Listed(a[base..])
    ensures base < hi <= a.Length && hi - base == ClassLength(a[base..])
    ensures totweight == Total(a[base..hi]) && totweight < TWO_TO_32 && OneClass(a[base..hi])
  {
    ghost var s := a[base..];
    hi := base + 1;
    totweight := if a[base].weight == 0 then 1 else a[base].weight;
    TotalOne(a[base..hi]);
    while hi < a.Length && a[hi].prio == a[base].prio && (a[base].weight == 0 || a[hi].weight != 0)
      invariant base < hi <= a.Length && Lead(s, 1) == Lead(s, hi - base)
      invariant totweight == Total(a[base..hi]) <= (hi - base) * 0xffff
    {
      assert s[hi - base] == a[hi] && s[0] == a[base] && Compare(s[0], s[hi - base]) <= 0;
      assert a[base..hi + 1] == a[base..hi] + [a[hi]];
      SumAppend(a[base..hi], a[hi]);
      totweight := totweight + if a[base].weight == 0 then 1 else a[hi].weight;
      hi := hi + 1;
    }
    assert s[0] == a[base] && (hi < a.Length ==> s[hi - base] == a[hi]);
    ClassExact(s);
    assert s[..hi - base] == a[base..hi];
  }

  /**
   * async/dnsparse.C:565-608, after the records have been sorted: class by class, each is put in
   * the order that the random numbers give.
   */
  method RandomizeSorted(a: array<Srv>, rnd: Random)
    requires a.Length < TWO_TO_16 && Listed(a[..])
    modifies a
    ensures a[..] == RandomOrder(old(a[..]), rnd, 0)
  {
    ghost var whole := RandomOrder(a[..], rnd, 0);
    ghost var done: seq<Srv>, left, todo := [], a[..], whole;
    var base: nat, k: nat := 0, 0;
    while base < a.Length
      invariant base == |done| <= a.Length && a[..] == done + left && Listed(left)
      invariant todo == RandomOrder(left, rnd, k) && done + todo == whole
    {
      ghost var next: nat := k + ClassLength(left) - 1;
      ghost var group, rest, more := NextGroup(left, rnd, k, ClassLength(left), next);
      base, k := NextClass(a, base, rnd, k, done, left);
      assert k == next && todo == group + more;
      Assoc(done, group, more);
      done, left, todo := done + group, rest, more;
    }
    assert left == [] && todo == [];
  }

  lemma Suffix(s: seq<Srv>, n: nat)
    requires Listed(s) && n <= |s|
    ensures Listed(s[n..])
  {
  }

  /** A round of the outer loop. */
  method NextClass(a: array<Srv>, base: nat, rnd: Random, k0: nat, ghost done: seq<Srv>, ghost left: seq<Srv>)
    returns (hi: nat, k: nat)
    requires base == |done| < a.Length < TWO_TO_16 && a[..] == done + left && Listed(left)
    modifies a
    ensures var n := ClassLength(left);
      a[..] == done + GroupOrder(left[..n], rnd, k0) + left[n..] && hi == base + n && k == k0 + n - 1
  {
    var totweight;
    Split(a[..], done, left, base);
    hi, totweight := FindClass(a, base);
    Front(a[..], done, left, base, hi);
    ghost var front, rest := left[..hi - base], left[hi - base..];
    assert a[base..hi] == front && a[..base] == done && a[hi..] == rest;
    k := ShuffleClass(a, base, hi, totweight, rnd, k0);
    assert a[..] == done + GroupOrder(front, rnd, k0) + rest;
  }

  lemma NextGroup(left: seq<Srv>, rnd: Random, k: nat, n: nat, next: nat)
    returns (group: seq<Srv>, rest: seq<Srv>, more: seq<Srv>)
    requires left != [] && n == ClassLength(left) && Listed(left) && next == k + n - 1
    ensures group == GroupOrder(left[..n], rnd, k) && rest == left[n..] && |group| == n && Listed(rest)
    ensures more == RandomOrder(rest, rnd, next) && RandomOrder(left, rnd, k) == group + more
  {
    var front := left[..n];
    group, rest := GroupOrder(front, rnd, k), left[n..];
    more := RandomOrder(rest, rnd, next);
    Unfold(left, rnd, k, n, next, front, rest);
    Suffix(left, n);
    GroupOrderLength(front, rnd, k);
  }

  lemma {:induction false} GroupOrderLength(s: seq<Srv>, rnd: Random, k: nat)
    ensures |GroupOrder(s, rnd, k)| == |s|
    decreases |s|
  {
    if |s| > 1 {
      var head, tail := GroupStep(s, rnd, k);
      GroupOrderLength(tail, rnd, k + 1);
    }
  }

  lemma Split(s: seq<Srv>, done: seq<Srv>, left: seq<Srv>, base: nat)
    requires s == done + left && base == |done|
    ensures s[base..] == left && s[..base] == done
  {
  }

  lemma Front(s: seq<Srv>, done: seq<Srv>, left: seq<Srv>, base: nat, hi: nat)
    requires s == done + left && base == |done| <= hi <= |s|
    ensures s[base..hi] == left[..hi - base] && s[hi..] == left[hi - base..]
  {
  }

  // Sorting first.

  function InsertInto(x: Srv, s: seq<Srv>): (t: seq<Srv>)
  {
    if s == [] || Compare(x, s[0]) <= 0 then [x] + s else [s[0]] + InsertInto(x, s[1..])
  }

  lemma {:induction false} InsertSorted(x: Srv, s: seq<Srv>)
    requires Sorted(s)
    ensures Sorted(InsertInto(x, s)) && multiset(InsertInto(x, s)) == multiset(s) + multiset{x}
  {
    if s != [] && Compare(x, s[0]) > 0 {
      var t := InsertInto(x, s[1..]);
      InsertSorted(x, s[1..]);
      assert s == [s[0]] + s[1..];
      forall j | 0 <= j < |t| ensures Compare(s[0], t[j]) <= 0 {
        assert t[j] in multiset(t);
        assert t[j] == x || t[j] in s[1..];
      }
    }
  }

  lemma {:induction false} CanSort(s: seq<Srv>) returns (t: seq<Srv>)
    ensures Sorted(t) && multiset(t) == multiset(s)
  {
    if s == [] {
      t := [];
    } else {
      t := CanSort(s[1..]);
      InsertSorted(s[0], t);
      t := InsertInto(s[0], t);
      assert s == [s[0]] + s[1..];
    }
  }

  /** `qsort` with `srvrec_cmp`: the records in some order that is sorted. */
  method Qsort(a: array<Srv>)
    modifies a
    ensures Sorted(a[..]) && multiset(a[..]) == multiset(old(a[..]))
  {
    ghost var some := CanSort(a[..]);
    var s: seq<Srv> :| Sorted(s) && multiset(s) == multiset(a[..]);
    SameSize(s, a[..]);
    forall i | 0 <= i < a.Length {
      a[i] := s[i];
    }
    assert a[..] == s;
  }

  lemma SameSize(s: seq<Srv>, t: seq<Srv>)
    requires multiset(s) == multiset(t)
    ensures |s| == |t|
  {
    assert |s| == |multiset(s)| && |t| == |multiset(t)|;
  }

  lemma FieldsPermuted(s: seq<Srv>, t: seq<Srv>)
    requires Fields16(s) && multiset(s) == multiset(t)
    ensures Fields16(t)
  {
    forall i | 0 <= i < |t| ensures t[i].prio < TWO_TO_16 && t[i].weight < TWO_TO_16 {
      assert t[i] in multiset(t);
      assert t[i] in s;
    }
  }

  /**
   * async/dnsparse.C:555-608: any records come out as a permutation by priority, nonzero weights
   * before zero weights, in the order that the random numbers give to them once sorted.
   */
  method Randomize(a: array<Srv>, rnd: Random) returns (ghost sorted: seq<Srv>)
    requires a.Length < TWO_TO_16 && Fields16(a[..])
    modifies a
    ensures multiset(a[..]) == multiset(old(a[..])) && Ordered(a[..])
    ensures Sorted(sorted) && multiset(sorted) == multiset(old(a[..])) && a[..] == RandomOrder(sorted, rnd, 0)
  {
    ghost var was := a[..];
    Qsort(a);
    sorted := a[..];
    FieldsPermuted(was, sorted);
    RandomizeSorted(a, rnd);
    RandomOrderOrdered(sorted, rnd, 0);
  }
}
