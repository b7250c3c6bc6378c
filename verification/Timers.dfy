/**
 * The timers of the event loop (async/core.C:287-325, async/core.C:377-404): a pass fires the due
 * timers while their callbacks insert and remove timers in the tree that the pass walks through.
 */
module Timers {
  import opened RpcTypes
  import opened ItreeShape
  import opened Itree

  /**
   * What a callback does to the timers. It names a timer to remove by the order of creation; a
   * number that was never given out stands for a null pointer.
   */
  datatype Op = Add(ts: int) | Remove(handle: nat)

  // What callbacks do, by numbers.

  /** The times for which timers are set, in turn. */
  function Times(ops: seq<Op>): (ts: seq<int>) {
    if ops == [] then [] else (if ops[0].Add? then [ops[0].ts] else []) + Times(ops[1..])
  }

  lemma {:induction false} TimesCat(a: seq<Op>, b: seq<Op>)
    ensures Times(a + b) == Times(a) + Times(b)
  {
    if a == [] {
      assert a + b == b;
    } else {
      TimesFirst(a + b, a[0], a[1..] + b);
      TimesFirst(a, a[0], a[1..]);
      TimesCat(a[1..], b);
      Assoc(if a[0].Add? then [a[0].ts] else [], Times(a[1..]), Times(b));
    }
  }

  lemma TimesFirst(ops: seq<Op>, op: Op, rest: seq<Op>)
    requires ops == [op] + rest
    ensures Times(ops) == (if op.Add? then [op.ts] else []) + Times(rest)
  {
    assert ops[1..] == rest;
  }

  lemma TimesPrefix(ops: seq<Op>, j: nat)
    requires j <= |ops|
    ensures |Times(ops[..j])| <= |Times(ops)|
  {
    TimesCat(ops[..j], ops[j..]);
    assert ops == ops[..j] + ops[j..];
  }

  /** Operation `j` removes timer number `h`, where `n` timers had been set before the first one. */
  ghost predicate Takes(n: nat, ops: seq<Op>, j: nat, h: nat) {
    j < |ops| && ops[j] == Remove(h) && h < n + |Times(ops[..j])|
  }

  ghost predicate Taken(n: nat, ops: seq<Op>, h: nat) { exists j: nat :: Takes(n, ops, j, h) }

  lemma TakesCat(n: nat, a: seq<Op>, b: seq<Op>, h: nat, j: nat)
    ensures j < |a| ==> (Takes(n, a + b, j, h) <==> Takes(n, a, j, h))
    ensures j >= |a| ==> (Takes(n, a + b, j, h) <==> Takes(n + |Times(a)|, b, j - |a|, h))
  {
    if j < |a| {
      assert (a + b)[..j] == a[..j];
    } else if j < |a + b| {
      assert (a + b)[..j] == a + b[..j - |a|];
      TimesCat(a, b[..j - |a|]);
    }
  }

  lemma TakenCat(n: nat, a: seq<Op>, b: seq<Op>, h: nat)
    ensures Taken(n, a + b, h) <==> Taken(n, a, h) || Taken(n + |Times(a)|, b, h)
  {
    forall j: nat
      ensures j < |a| ==> (Takes(n, a + b, j, h) <==> Takes(n, a, j, h))
      ensures j >= |a| ==> (Takes(n, a + b, j, h) <==> Takes(n + |Times(a)|, b, j - |a|, h))
    {
      TakesCat(n, a, b, h, j);
    }
    if Taken(n + |Times(a)|, b, h) {
      var j: nat :| Takes(n + |Times(a)|, b, j, h);
      assert Takes(n, a + b, |a| + j, h) by { TakesCat(n, a, b, h, |a| + j); }
    }
  }

  lemma TakenBefore(n: nat, ops: seq<Op>, h: nat)
    requires Taken(n, ops, h)
    ensures h < n + |Times(ops)|
  {
    var j :| Takes(n, ops, j, h);
    TimesPrefix(ops, j);
  }

  /** The operations set `added`, one timer more in `hs` for each, and remove `removed`. */
  ghost predicate Tied(hs0: seq<Node>, hs: seq<Node>, added: set<Node>, removed: set<Node>, ops: seq<Op>) {
    && hs0 <= hs && |hs| == |hs0| + |Times(ops)|
    && (forall i :: 0 <= i < |Times(ops)| ==> hs[|hs0| + i].key == Times(ops)[i])
    && added == Elements(hs[|hs0|..])
    && removed <= Elements(hs)
    && (forall h: nat :: h < |hs| ==> (hs[h] in removed <==> Taken(|hs0|, ops, h)))
  }

  lemma TiedNone(hs: seq<Node>)
    ensures Tied(hs, hs, {}, {}, [])
  {
    assert forall h :: !Taken(|hs|, [], h);
  }

  lemma TiedTrans(hs0: seq<Node>, hs1: seq<Node>, hs2: seq<Node>, added: set<Node>, removed: set<Node>, ops: seq<Op>,
                  more: set<Node>, less: set<Node>, ops2: seq<Op>)
    requires Tied(hs0, hs1, added, removed, ops) && Tied(hs1, hs2, more, less, ops2) && Distinct(hs2)
    ensures Tied(hs0, hs2, added + more, removed + less, ops + ops2)
  {
    TimesCat(ops, ops2);
    assert hs2[|hs0|..] == hs1[|hs0|..] + hs2[|hs1|..];
    assert Elements(hs1) <= Elements(hs2) by { assert hs2 == hs1 + hs2[|hs1|..]; }
    forall h: nat | h < |hs2| ensures hs2[h] in removed + less <==> Taken(|hs0|, ops + ops2, h) {
      TakenCat(|hs0|, ops, ops2, h);
      if h < |hs1| {
        assert hs2[h] == hs1[h];
      } else {
        NotBefore(hs1, hs2, h);
        if Taken(|hs0|, ops, h) { TakenBefore(|hs0|, ops, h); }
      }
    }
  }

  lemma NotBefore(hs1: seq<Node>, hs2: seq<Node>, h: nat)
    requires hs1 <= hs2 && Distinct(hs2) && |hs1| <= h < |hs2|
    ensures hs2[h] !in hs1
  {
    assert forall i :: 0 <= i < |hs1| ==> hs1[i] == hs2[i];
  }

  /** Besides, the timers in the tree, `was` before, are then `now`. */
  ghost predicate Did(hs0: seq<Node>, hs: seq<Node>, was: set<Node>, now: set<Node>, added: set<Node>, removed: set<Node>,
                      ops: seq<Op>) {
    && Tied(hs0, hs, added, removed, ops)
    && removed <= was + added && now == was + added - removed
  }

  lemma DidNone(hs: seq<Node>, was: set<Node>)
    ensures Did(hs, hs, was, was, {}, {}, [])
  {
    TiedNone(hs);
  }

  lemma DidTrans(hs0: seq<Node>, hs1: seq<Node>, hs2: seq<Node>, was: set<Node>, mid: set<Node>, now: set<Node>,
                 added: set<Node>, removed: set<Node>, ops: seq<Op>, more: set<Node>, less: set<Node>, ops2: seq<Op>)
    requires Did(hs0, hs1, was, mid, added, removed, ops) && Did(hs1, hs2, mid, now, more, less, ops2)
    requires Distinct(hs2) && was <= Elements(hs0)
    ensures Did(hs0, hs2, was, now, added + more, removed + less, ops + ops2)
  {
    TiedTrans(hs0, hs1, hs2, added, removed, ops, more, less, ops2);
    AddedAreNew(hs1, hs2, more);
    assert Elements(hs0) <= Elements(hs1) by { assert hs1 == hs0 + hs1[|hs0|..]; }
    assert added <= Elements(hs1) by { assert hs1 == hs0 + hs1[|hs0|..]; }
    SetsOn(was, added, removed, more, less, now);
  }

  lemma AddedAreNew(hs: seq<Node>, hs': seq<Node>, more: set<Node>)
    requires hs <= hs' && Distinct(hs') && more == Elements(hs'[|hs|..])
    ensures more !! Elements(hs)
  {
    forall x | x in more ensures x !in hs {
      var g: nat :| g < |hs'[|hs|..]| && hs'[|hs|..][g] == x;
      NotBefore(hs, hs', |hs| + g);
    }
  }

  lemma SetsOn(was: set<Node>, added: set<Node>, removed: set<Node>, more: set<Node>, less: set<Node>, now: set<Node>)
    requires more !! was + added && less <= was + added - removed + more && removed <= was + added
    requires now == was + added - removed + more - less
    ensures now == was + (added + more) - (removed + less) && removed + less <= was + (added + more)
  {
  }

  lemma TiedAdd(hs: seq<Node>, to: Node, ts: int)
    requires to.key == ts
    ensures Tied(hs, hs + [to], {to}, {}, [Add(ts)])
  {
    assert Times([Add(ts)]) == [ts] by { assert [Add(ts)][1..] == []; }
    assert (hs + [to])[|hs|..] == [to];
    assert forall h :: !Taken(|hs|, [Add(ts)], h);
  }

  /** A removal by the number of a timer that was set, or by a null pointer. */
  lemma TiedRemove(hs: seq<Node>, h: nat)
    requires Distinct(hs)
    ensures Tied(hs, hs, {}, if h < |hs| then {hs[h]} else {}, [Remove(h)])
  {
    var ops := [Remove(h)];
    assert Times(ops) == [] by { assert ops[1..] == []; }
    assert ops[..0] == [];
    forall g: nat | g < |hs| ensures Taken(|hs|, ops, g) <==> g == h {
      if g == h { assert Takes(|hs|, ops, 0, g); }
    }
  }

  lemma DidAdd(hs: seq<Node>, to: Node, ts: int, was: set<Node>)
    requires to.key == ts
    ensures Did(hs, hs + [to], was, was + {to}, {to}, {}, [Add(ts)])
  {
    TiedAdd(hs, to, ts);
  }

  lemma DidRemove(hs: seq<Node>, h: nat, was: set<Node>)
    requires Distinct(hs)
    ensures h < |hs| && hs[h] in was ==> Did(hs, hs, was, was - {hs[h]}, {}, {hs[h]}, [Remove(h)])
    ensures h >= |hs| ==> Did(hs, hs, was, was, {}, {}, [Remove(h)])
  {
    TiedRemove(hs, h);
  }

  // The order of the timers, and the place of a pass in it.

  /** What both orders have is in the same order in both. */
  ghost predicate Agrees(s: seq<Node>, t: seq<Node>) {
    forall i, j, a, b :: AgreeAt(s, t, i, j, a, b)
  }

  ghost predicate AgreeAt(s: seq<Node>, t: seq<Node>, i: int, j: int, a: int, b: int) {
    0 <= i < j < |s| && 0 <= a < |t| && 0 <= b < |t| && s[i] == t[a] && s[j] == t[b] ==> a < b
  }

  lemma AgreesSelf(s: seq<Node>)
    requires Distinct(s)
    ensures Agrees(s, s)
  {
  }

  lemma AgreesInsert(s: seq<Node>, t: seq<Node>, pos: nat, z: Node)
    requires Agrees(s, t) && pos <= |s| && z !in t
    ensures Agrees(s[..pos] + [z] + s[pos..], t)
  {
    var r := s[..pos] + [z] + s[pos..];
    forall i, j, a, b ensures AgreeAt(r, t, i, j, a, b) {
      assert AgreeAt(s, t, if i < pos then i else i - 1, if j < pos then j else j - 1, a, b);
    }
  }

  lemma AgreesRemove(s: seq<Node>, t: seq<Node>, pos: nat)
    requires Agrees(s, t) && pos < |s|
    ensures Agrees(s[..pos] + s[pos + 1..], t)
  {
    var r := s[..pos] + s[pos + 1..];
    forall i, j, a, b ensures AgreeAt(r, t, i, j, a, b) {
      assert AgreeAt(s, t, if i < pos then i else i + 1, if j < pos then j else j + 1, a, b);
    }
  }

  /**
   * `tp` stands at position `k` of the order `s`, behind its end when null; those before it are
   * `before`.
   */
  ghost predicate Cursor(s: seq<Node>, tp: Node?, k: nat, before: set<Node>) {
    && k <= |s|
    && (if tp == null then k == |s| else k < |s| && s[k] == tp)
    && Elements(s[..k]) == before
  }

  /** Those of the timers that a cursor on `tp` has passed. */
  ghost function Behind(zs: set<Node>, tp: Node?): (r: set<Node>) {
    set z | z in zs && (tp == null || z.key < tp.key)
  }

  lemma OneMoreOp(hs0: seq<Node>, hs: seq<Node>, hs': seq<Node>, was: set<Node>, mid: set<Node>, now: set<Node>,
                  added: set<Node>, removed: set<Node>, ops: seq<Op>, i: nat, more: set<Node>, less: set<Node>,
                  before: set<Node>, tp: Node?)
    requires i < |ops| && Distinct(hs') && was <= Elements(hs0)
    requires Did(hs0, hs, was, mid, added, removed, ops[..i]) && Did(hs, hs', mid, now, more, less, [ops[i]])
    ensures Did(hs0, hs', was, now, added + more, removed + less, ops[..i + 1])
    ensures before + Behind(added, tp) + Behind(more, tp) == before + Behind(added + more, tp)
  {
    DidTrans(hs0, hs, hs', was, mid, now, added, removed, ops[..i], more, less, [ops[i]]);
    assert ops[..i + 1] == ops[..i] + [ops[i]];
  }

  /** Inserting another timer moves the cursor along with the timer it stands on. */
  lemma CursorInsert(s: seq<Node>, tp: Node?, k: nat, before: set<Node>, z: Node, pos: nat) returns (k': nat)
    requires Cursor(s, tp, k, before) && pos <= |s| && AllAtMost(s[..pos], z.key) && AllAbove(s[pos..], z.key)
    ensures Cursor(s[..pos] + [z] + s[pos..], tp, k', before + Behind({z}, tp))
  {
    var r := s[..pos] + [z] + s[pos..];
    if pos <= k {
      k' := k + 1;
      assert tp != null ==> s[k] in s[pos..];
      assert r[..k'] == s[..pos] + [z] + s[pos..k];
      assert s[..k] == s[..pos] + s[pos..k];
      assert Elements(r[..k']) == Elements(s[..k]) + {z};
    } else {
      k' := k;
      assert s[k] in s[..pos];
      assert r[..k] == s[..k];
    }
  }

  /** Removing the timer at the cursor leaves the cursor on its successor. */
  lemma CursorAdvance(s: seq<Node>, tp: Node, k: nat, before: set<Node>, ntp: Node?)
    requires Cursor(s, tp, k, before)
    requires ntp == if k + 1 < |s| then s[k + 1] else null
    ensures Cursor(s[..k] + s[k + 1..], ntp, k, before)
  {
    var r := s[..k] + s[k + 1..];
    assert r[..k] == s[..k];
    assert k + 1 < |s| ==> r[k] == s[k + 1];
  }

  lemma CursorNode(t: Tree, tp: Node, k: nat, before: set<Node>)
    requires Cursor(Inorder(t), tp, k, before)
    ensures tp in Nodes(t)
  {
    InorderNodes(t);
    assert tp in Elements(Inorder(t));
  }

  lemma OnePlace(t: Tree, i: nat, j: nat)
    requires Sep(t) && i < |Inorder(t)| && j < |Inorder(t)| && Inorder(t)[i] == Inorder(t)[j]
    ensures i == j
  {
    SepDistinct(t);
  }

  lemma Advances(t: Tree, t': Tree, tp: Node, k: nat, at: nat, pos: nat, before: set<Node>, ntp: Node?, order0: seq<Node>)
    requires Sep(t) && Cursor(Inorder(t), tp, k, before) && Agrees(Inorder(t), order0)
    requires at < |Inorder(t)| && Inorder(t)[at] == tp && pos < |Inorder(t)| && Inorder(t)[pos] == tp
    requires ntp == if at + 1 < |Inorder(t)| then Inorder(t)[at + 1] else null
    requires Inorder(t') == Inorder(t)[..pos] + Inorder(t)[pos + 1..]
    ensures Cursor(Inorder(t'), ntp, k, before) && Agrees(Inorder(t'), order0)
  {
    OnePlace(t, at, k);
    OnePlace(t, pos, k);
    CursorAdvance(Inorder(t), tp, k, before, ntp);
    AgreesRemove(Inorder(t), order0, k);
  }

  lemma CursorFirst(s: seq<Node>)
    ensures Cursor(s, if s == [] then null else s[0], 0, {})
  {
  }

  /** Once the cursor is past the due timers, none but those it passed is due. */
  lemma CursorEnd(s: seq<Node>, tp: Node?, k: nat, before: set<Node>, now: int)
    requires Cursor(s, tp, k, before) && Sorted(s)
    requires tp != null ==> tp.key > now
    ensures forall n :: n in s && n !in before ==> n.key > now
  {
    assert forall i :: 0 <= i < k ==> s[i] in Elements(s[..k]);
  }

  lemma {:induction false} SepDistinct(t: Tree)
    requires Sep(t)
    ensures Distinct(Inorder(t))
  {
    if t.T? {
      SepDistinct(t.l);
      SepDistinct(t.r);
      InorderNodes(t.l);
      InorderNodes(t.r);
      var a, b := Inorder(t.l), Inorder(t.r);
      assert forall i :: 0 <= i < |a| ==> a[i] in Elements(a);
      assert forall i :: 0 <= i < |b| ==> b[i] in Elements(b);
    }
  }

  /** The timers in the tree are those set, less those removed and those fired. */
  ghost predicate Balance(tree: set<Node>, set0: set<Node>, added: set<Node>, removed: set<Node>, fired: seq<Node>) {
    && set0 !! added
    && removed <= set0 + added
    && Elements(fired) <= set0 + added
    && removed !! Elements(fired)
    && tree == set0 + added - removed - Elements(fired)
  }

  /** A timer that is not before the end of those set for its time is not there. */
  lemma ScannedAll(s: seq<Node>, k: nat, tp: Node?, n: Node)
    requires Sorted(s) && k <= |s| && n !in s[..k]
    requires if tp == null then n !in s else k < |s| && s[k] == tp && tp.key > n.key
    ensures n !in s
  {
    assert s == s[..k] + s[k..];
    assert forall i :: k <= i < |s| ==> s[i].key >= s[k].key;
  }

  lemma Skip(s: seq<Node>, k: nat, n: Node)
    requires k < |s| && n !in s[..k] && n != s[k]
    ensures n !in s[..k + 1]
  {
    assert s[..k + 1] == s[..k] + [s[k]];
  }

  lemma SetMore(was: set<Node>, added: set<Node>, removed: set<Node>, x: Node)
    requires removed <= was + added && x !in was + added
    ensures was + added - removed + {x} == was + (added + {x}) - removed
  {
  }

  lemma SetFewer(was: set<Node>, added: set<Node>, removed: set<Node>, x: Node)
    ensures was + added - removed - {x} == was + added - (removed + {x})
  {
  }

  class TimerCore {
    const timecbs: RbTree
    var altered: bool
    /** Every timer ever set, in order of creation: the pointers that callers hold. */
    var handles: seq<Node>

    ghost predicate Valid()
      reads this, timecbs, timecbs.mem.Keys
    {
      timecbs.Valid() && Distinct(handles) && forall n :: n in Nodes(timecbs.shape) ==> n in handles
    }

    ghost function Order(): (s: seq<Node>)
      reads timecbs
    {
      Inorder(timecbs.shape)
    }

    ghost function Set(): (s: set<Node>)
      reads timecbs
    {
      Nodes(timecbs.shape)
    }

    constructor ()
      ensures Valid() && Order() == [] && fresh(timecbs)
    {
      timecbs := new RbTree();
      altered, handles := false, [];
    }

    /** async/core.C:287-295; the timer goes behind those set for the same time. */
    method Timecb(ts: int) returns (to: Node, ghost pos: nat)
      requires Valid()
      modifies this`handles, timecbs, timecbs.mem.Keys
      ensures Valid() && fresh(to) && to.key == ts && Set() == old(Set()) + {to}
      ensures pos <= |old(Order())| && Order() == old(Order())[..pos] + [to] + old(Order())[pos..]
      ensures AllAtMost(old(Order())[..pos], ts) && AllAbove(old(Order())[pos..], ts)
      ensures handles == old(handles) + [to]
    {
      to := new Node(ts);
      pos := timecbs.Insert(to);
      handles := handles + [to];
    }

    /**
     * The scan of async/core.C:319-321, from the first timer set for the same time: it reaches
     * `to` if and only if the timer is in the tree, and panics otherwise.
     */
    method Scan(to: Node) returns (found: bool)
      requires Valid()
      ensures found <==> to in Set()
    {
      ghost var s := Order();
      InorderNodes(timecbs.shape);
      assert Elements(s) == Set();
      ghost var at;
      var tp;
      tp, at := timecbs.Search(to.key);
      while tp != to
        invariant at <= |s| && to !in s[..at]
        invariant if tp == null then to !in s else at < |s| && s[at] == tp && tp in Elements(s) && tp.key >= to.key
        decreases |s| - at
      {
        if tp == null || tp.key != to.key {
          ScannedAll(s, at, tp, to);
          return false;
        }
        ghost var pos;
        SepDistinct(timecbs.shape);
        tp, pos := timecbs.Successor(tp);
        assert pos == at;
        Skip(s, at, to);
        at := at + 1;
      }
      found := true;
    }

    /** async/core.C:313-325; removing a timer that is not set panics. The others keep their order. */
    method TimecbRemove(to: Node?) returns (panicked: bool, ghost pos: nat)
      requires Valid()
      modifies this`altered, timecbs, timecbs.mem.Keys
      ensures Valid()
      ensures panicked <==> to != null && to !in old(Set())
      ensures to == null || panicked ==> Order() == old(Order()) && Set() == old(Set()) && altered == old(altered)
      ensures to != null && !panicked ==> Set() == old(Set()) - {to} && altered
      ensures to != null && !panicked ==> pos < |old(Order())| && old(Order())[pos] == to
      ensures to != null && !panicked ==> Order() == old(Order())[..pos] + old(Order())[pos + 1..]
    {
      panicked, pos := false, 0;
      if to != null {
        var found := Scan(to);
        if found {
          altered := true;
          pos := timecbs.Delete(to);
        } else {
          panicked := true;
        }
      }
    }

    /** An operation of a callback; removing a timer that is not set panics. */
    method Perform(op: Op, ghost ntp: Node?, ghost k0: nat, ghost before: set<Node>, ghost order0: seq<Node>)
      returns (panicked: bool, ghost added: set<Node>, ghost removed: set<Node>, ghost k: nat)
      requires Valid() && Agrees(Order(), order0) && (!altered ==> Cursor(Order(), ntp, k0, before))
      modifies this, timecbs, timecbs.mem.Keys
      ensures Valid() && fresh(added) && Agrees(Order(), order0)
      ensures altered <==> old(altered) || removed != {}
      ensures !altered ==> Cursor(Order(), ntp, k, before + Behind(added, ntp))
      ensures panicked ==> handles == old(handles) && Set() == old(Set()) && added == removed == {}
      ensures panicked <==> op.Remove? && op.handle < |old(handles)| && old(handles)[op.handle] !in old(Set())
      ensures !panicked ==> Did(old(handles), handles, old(Set()), Set(), added, removed, [op])
    {
      panicked, added, removed, k := false, {}, {}, k0;
      if op.Add? {
        ghost var s := Order();
        var to; ghost var pos;
        to, pos := Timecb(op.ts);
        AgreesInsert(s, order0, pos, to);
        if !altered {
          k := CursorInsert(s, ntp, k, before, to, pos);
        }
        DidAdd(old(handles), to, op.ts, old(Set()));
        added := {to};
      } else {
        DidRemove(handles, op.handle, Set());
        if op.handle < |handles| {
          ghost var s := Order();
          var to := handles[op.handle];
          ghost var pos;
          panicked, pos := TimecbRemove(to);
          if !panicked {
            AgreesRemove(s, order0, pos);
            removed := {to};
          }
        }
      }
    }

    /** What a callback that began with the timers `set0`, of the handles `hs0`, has done after `i` operations. */
    ghost predicate Within(hs0: seq<Node>, set0: set<Node>, ops: seq<Op>, i: nat, added: set<Node>, removed: set<Node>,
                           ntp: Node?, k: nat, before: set<Node>, order0: seq<Node>)
      reads this, timecbs, timecbs.mem.Keys
    {
      && Valid() && Agrees(Order(), order0) && i <= |ops| && set0 <= Elements(hs0)
      && Did(hs0, handles, set0, Set(), added, removed, ops[..i])
      && (altered <==> removed != {})
      && (!altered ==> Cursor(Order(), ntp, k, before + Behind(added, ntp)))
    }

    /** The next operation of a callback. */
    method Next(ops: seq<Op>, i: nat, ghost hs0: seq<Node>, ghost set0: set<Node>, ghost added: set<Node>,
                ghost removed: set<Node>, ghost ntp: Node?, ghost k0: nat, ghost before: set<Node>, ghost order0: seq<Node>)
      returns (panicked: bool, ghost more: set<Node>, ghost less: set<Node>, ghost k: nat)
      requires Within(hs0, set0, ops, i, added, removed, ntp, k0, before, order0) && i < |ops|
      modifies this, timecbs, timecbs.mem.Keys
      ensures fresh(more) && fresh(Set() - old(Set()))
      ensures if panicked then Bad(ops, i, handles, Set()) && more == less == {}
                 && Within(hs0, set0, ops, i, added, removed, ntp, k, before, order0)
              else Within(hs0, set0, ops, i + 1, added + more, removed + less, ntp, k, before, order0)
    {
      ghost var hs, tree := handles, Set();
      panicked, more, less, k := Perform(ops[i], ntp, k0, before + Behind(added, ntp), order0);
      if !panicked {
        OneMoreOp(hs0, hs, handles, set0, tree, Set(), added, removed, ops, i, more, less, before, ntp);
      }
    }

    /**
     * A callback: a sequence of settings and removals, up to one that panics. Unless it removes a timer,
     * the cursor of the pass stays where it was.
     */
    method Callback(ops: seq<Op>, ghost ntp: Node?, ghost k0: nat, ghost before: set<Node>, ghost order0: seq<Node>)
      returns (panicked: bool, ghost done: nat, ghost added: set<Node>, ghost removed: set<Node>, ghost k: nat)
      requires Valid() && !altered && Cursor(Order(), ntp, k0, before) && Agrees(Order(), order0)
      modifies this, timecbs, timecbs.mem.Keys
      ensures Valid() && fresh(added) && Agrees(Order(), order0)
      ensures altered <==> removed != {}
      ensures !altered ==> Cursor(Order(), ntp, k, before + Behind(added, ntp))
      ensures done <= |ops| && Did(old(handles), handles, old(Set()), Set(), added, removed, ops[..done])
      ensures if panicked then Bad(ops, done, handles, Set()) else done == |ops|
    {
      ghost var hs0, set0 := handles, Set();
      panicked, done, added, removed, k := false, 0, {}, {}, k0;
      DidNone(hs0, set0);
      var i := 0;
      while i < |ops|
        invariant i == done && fresh(added) && fresh(Set() - old(Set()))
        invariant Within(hs0, set0, ops, i, added, removed, ntp, k, before, order0)
      {
        ghost var more, less;
        panicked, more, less, k := Next(ops, i, hs0, set0, added, removed, ntp, k, before, order0);
        if panicked {
          return;
        }
        added, removed := added + more, removed + less;
        i, done := i + 1, done + 1;
      }
    }

    /** The next timer to serve is taken out of the tree, after its successor has been saved. */
    method TakeOut(tp: Node, ghost k: nat, ghost before: set<Node>, ghost order0: seq<Node>) returns (ntp: Node?)
      requires Valid() && Cursor(Order(), tp, k, before) && Agrees(Order(), order0)
      modifies this`altered, timecbs, timecbs.mem.Keys
      ensures Valid() && !altered && tp in old(Set()) && Set() == old(Set()) - {tp}
      ensures Cursor(Order(), ntp, k, before) && Agrees(Order(), order0)
    {
      ghost var t, at, pos := timecbs.shape, 0, 0;
      CursorNode(t, tp, k, before);
      ntp, at := timecbs.Successor(tp);
      pos := timecbs.Delete(tp);
      altered := false;
      Advances(t, timecbs.shape, tp, k, at, pos, before, ntp, order0);
    }

    /** One round of the loop of async/core.C:387-403: `tp` is taken out and its callback runs. */
    method Fire(tp: Node, ops: seq<Op>, ghost k0: nat, ghost before: set<Node>, ghost order0: seq<Node>)
      returns (panicked: bool, next: Node?, ghost done: nat, ghost added: set<Node>, ghost removed: set<Node>, ghost k: nat)
      requires Valid() && Cursor(Order(), tp, k0, before) && Agrees(Order(), order0)
      modifies this, timecbs, timecbs.mem.Keys
      ensures Valid() && fresh(added) && Agrees(Order(), order0)
      ensures tp in old(Set())
      ensures Cursor(Order(), next, k, if removed != {} then {} else before + Behind(added, next))
      ensures done <= |ops| && Did(old(handles), handles, old(Set()) - {tp}, Set(), added, removed, ops[..done])
      ensures if panicked then Bad(ops, done, handles, Set()) else done == |ops|
    {
      var ntp := TakeOut(tp, k0, before, order0);
      panicked, done, added, removed, k := Callback(ops, ntp, k0, before, order0);
      if altered {
        next := timecbs.First();
        k := 0;
        CursorFirst(Order());
      } else {
        next := ntp;
      }
    }

    /** A pass that began with the timers `order0`, of the handles `hs0`, is under way: its next timer is `tp`. */
    ghost predicate Underway(hs0: seq<Node>, order0: seq<Node>, script: seq<seq<Op>>, now: int, log: Log, tp: Node?, k: nat,
                             before: set<Node>)
      reads this, timecbs, timecbs.mem.Keys
    {
      && Valid() && LogInv(hs0, handles, order0, Set(), script, now, log)
      && log.performed == Flat(script[..|log.fired|])
      && Cursor(Order(), tp, k, before) && Agrees(Order(), order0)
      && Passed(handles, |hs0|, log.starts, script, log.fired, tp, before, Set())
    }

    /** A round of a pass. */
    method Round(tp: Node, ghost hs0: seq<Node>, ghost order0: seq<Node>, script: seq<seq<Op>>, i: nat, ghost now: int,
                 ghost log: Log, ghost k: nat, ghost before: set<Node>)
      returns (panicked: bool, next: Node?, ghost log': Log, ghost k': nat, ghost before': set<Node>, ghost more: set<Node>)
      requires Underway(hs0, order0, script, now, log, tp, k, before) && tp.key <= now && i == |log.fired| < |script|
      modifies this, timecbs, timecbs.mem.Keys
      ensures Valid() && LogInv(hs0, handles, order0, Set(), script, now, log')
      ensures log'.added == log.added + more && fresh(more)
      ensures |log'.fired| == i + 1
      ensures if panicked then BadRound(script, i + 1, log'.performed, handles, Set())
              else Underway(hs0, order0, script, now, log', next, k', before')
    {
      ghost var s, tree, hs, done, less := Order(), Set(), handles, 0, {};
      InorderNodes(timecbs.shape);
      SepDistinct(timecbs.shape);
      panicked, next, done, more, less, k' := Fire(tp, script[i], k, before, order0);
      before' := if less != {} then {} else before + Behind(more, next);
      log' := LogRound(hs0, hs, handles, order0, s, tree, Set(), script, now, log, tp, k, before, done, more, less);
      if panicked {
        assert BadAt(script, i + 1, log'.performed, handles, Set(), done);
      } else {
        PassedOn(hs0, hs, handles, s, tree, Set(), script, now, order0, log, tp, next, k, before, before', done, more, less);
        FlatMore(script, i);
        assert script[i][..done] == script[i];
      }
    }

    /**
     * async/core.C:377-404: a pass at time `now`, in which the i-th timer to fire does `script[i]`.
     * It stays unfinished when the script ends first: callbacks can keep a pass going for ever.
     */
    method TimecbCheck(now: int, script: seq<seq<Op>>) returns (outcome: Outcome, ghost log: Log)
      requires Valid()
      modifies this, timecbs, timecbs.mem.Keys
      ensures Valid() && fresh(log.added) && LogInv(old(handles), handles, old(Order()), Set(), script, now, log)
      ensures outcome != Panicked ==> log.performed == Flat(script[..|log.fired|])
      ensures outcome == Ended ==> AllServed(old(Set()), log.fired, log.removed, now)
      ensures outcome == Ended ==>
        ServedExactly(handles, |old(handles)|, old(Set()), log, script, now)
      ensures outcome == Unfinished ==> |log.fired| == |script| && exists n :: n in Set() && n.key <= now
      ensures outcome == Panicked ==> BadRound(script, |log.fired|, log.performed, handles, Set())
    {
      ghost var order0, hs0, k, before := Order(), handles, 0, {};
      ghost var news: set<Node> := {};
      log := Log([], news, {}, [], []);
      var i := 0;
      var tp := timecbs.First();
      Begun(handles, timecbs.shape, script, now, tp);
      InorderNodes(timecbs.shape);
      while tp != null && tp.key <= now
        invariant Underway(hs0, order0, script, now, log, tp, k, before) && i == |log.fired| <= |script|
        invariant log.added == news && fresh(news)
        decreases |script| - i
      {
        if i == |script| {
          CursorNode(timecbs.shape, tp, k, before);
          return Unfinished, log;
        }
        var panicked;
        ghost var more;
        panicked, tp, log, k, before, more := Round(tp, hs0, order0, script, i, now, log, k, before);
        news := news + more;
        if panicked {
          return Panicked, log;
        }
        i := i + 1;
      }
      outcome := Ended;
      InorderNodes(timecbs.shape);
      PassDone(Order(), tp, k, order0, now, hs0, handles, script, before, log);
    }
  }

  /**
   * The history of a pass: the timers that fired, those set and those removed by callbacks, what the
   * callbacks did, and how many timers had ever been set when each round began.
   */
  datatype Log = Log(fired: seq<Node>, added: set<Node>, removed: set<Node>, performed: seq<Op>, starts: seq<nat>)

  /**
   * What the history has to do with the timers and the script: no timer fires twice or too soon, the
   * timers in the tree are those that were in it, `order0`, and those added, less those removed and
   * those that fired; those that were in it fire in their order; the callbacks add and remove exactly
   * what their operations say.
   */
  ghost predicate LogInv(hs0: seq<Node>, hs: seq<Node>, order0: seq<Node>, tree: set<Node>, script: seq<seq<Op>>, now: int,
                         log: Log) {
    && PassInv(tree, Elements(order0), order0, log.added, log.removed, log.fired, now)
    && InTimeOrder(log.fired, Elements(order0))
    && Tied(hs0, hs, log.added, log.removed, log.performed)
    && Begins(log.starts, |hs0|, script, |log.fired|)
    && Elements(order0) <= Elements(hs0)
  }

  lemma Begun(hs: seq<Node>, t: Tree, script: seq<seq<Op>>, now: int, tp: Node?)
    requires Sep(t) && Sorted(Inorder(t)) && Nodes(t) <= Elements(hs)
    requires tp == if Inorder(t) == [] then null else Inorder(t)[0]
    ensures LogInv(hs, hs, Inorder(t), Nodes(t), script, now, Log([], {}, {}, [], []))
    ensures Agrees(Inorder(t), Inorder(t)) && Cursor(Inorder(t), tp, 0, {})
    ensures Passed(hs, |hs|, [], script, [], tp, {}, Nodes(t)) && Flat(script[..0]) == []
  {
    PassBegins(t, now);
    InorderNodes(t);
    TiedNone(hs);
    CursorFirst(Inorder(t));
    assert script[..0] == [];
  }

  /** The history after a round. */
  lemma LogRound(hs0: seq<Node>, hs: seq<Node>, hs': seq<Node>, order0: seq<Node>, s: seq<Node>, tree: set<Node>,
                 tree': set<Node>, script: seq<seq<Op>>, now: int, log: Log, tp: Node, k: nat, before: set<Node>, done: nat,
                 more: set<Node>, less: set<Node>) returns (log': Log)
    requires LogInv(hs0, hs, order0, tree, script, now, log) && tree == Elements(s) && |log.fired| < |script|
    requires log.performed == Flat(script[..|log.fired|]) && done <= |script[|log.fired|]|
    requires Cursor(s, tp, k, before) && Agrees(s, order0) && tp.key <= now && Distinct(hs') && tree <= Elements(hs)
    requires Passed(hs, |hs0|, log.starts, script, log.fired, tp, before, tree)
    requires Did(hs, hs', tree - {tp}, tree', more, less, script[|log.fired|][..done])
    ensures LogInv(hs0, hs', order0, tree', script, now, log')
    ensures log' == Log(log.fired + [tp], log.added + more, log.removed + less,
                        Flat(script[..|log.fired|]) + script[|log.fired|][..done], log.starts + [|hs|])
  {
    var i := |log.fired|;
    log' := Log(log.fired + [tp], log.added + more, log.removed + less, log.performed + script[i][..done], log.starts + [|hs|]);
    PassedAreNew(hs0, hs, log.starts, script, log.fired, tp, before, tree, Elements(order0));
    AddedAreNew(hs, hs', more);
    AddedBefore(hs0, hs, log.added);
    PassRound(s, tree', Elements(order0), order0, log.added, log.removed, log.fired, tp, before, more, less, k, now);
    TiedTrans(hs0, hs, hs', log.added, log.removed, log.performed, more, less, script[i][..done]);
    BeginsMore(log.starts, |hs0|, script, i, |hs|);
  }

  lemma AddedBefore(hs0: seq<Node>, hs: seq<Node>, added: set<Node>)
    requires hs0 <= hs && added == Elements(hs[|hs0|..])
    ensures added <= Elements(hs) && Elements(hs0) <= Elements(hs)
  {
    assert hs == hs0 + hs[|hs0|..];
  }

  /** Where the pass stands after a round. */
  lemma PassedOn(hs0: seq<Node>, hs: seq<Node>, hs': seq<Node>, s: seq<Node>, tree: set<Node>, tree': set<Node>,
                 script: seq<seq<Op>>, now: int, order0: seq<Node>, log: Log, tp: Node, next: Node?, k: nat,
                 before: set<Node>, before': set<Node>, done: nat, more: set<Node>, less: set<Node>)
    requires LogInv(hs0, hs, order0, tree, script, now, log) && tree == Elements(s) && |log.fired| < |script|
    requires log.performed == Flat(script[..|log.fired|])
    requires Cursor(s, tp, k, before) && Distinct(s) && Distinct(hs') && tree <= Elements(hs)
    requires Passed(hs, |hs0|, log.starts, script, log.fired, tp, before, tree)
    requires done == |script[|log.fired|]| && Did(hs, hs', tree - {tp}, tree', more, less, script[|log.fired|][..done])
    requires before' == if less != {} then {} else before + Behind(more, next)
    ensures Passed(hs', |hs0|, log.starts + [|hs|], script, log.fired + [tp], next, before', tree')
  {
    var i := |log.fired|;
    assert script[i][..done] == script[i];
    BeginsMore(log.starts, |hs0|, script, i, |hs|);
    FlatMore(script, i);
    BeginsGrowTo(log.starts, |hs0|, script, i, |hs|);
    AddedAreNew(hs, hs', more);
    AddedBefore(hs0, hs, log.added);
    CursorApart(s, tp, k, before);
    PassedRound(hs, hs', |hs0|, log.starts, script, log.fired, tp, next, before, before', tree, tree', more, less);
  }

  lemma CursorApart(s: seq<Node>, tp: Node, k: nat, before: set<Node>)
    requires Cursor(s, tp, k, before) && Distinct(s)
    ensures tp in s && tp !in before && before <= Elements(s)
  {
  }

  /** The callback comes to remove a timer that is not set. */
  ghost predicate Bad(ops: seq<Op>, done: nat, hs: seq<Node>, tree: set<Node>) {
    && done < |ops| && ops[done].Remove? && ops[done].handle < |hs| && hs[ops[done].handle] !in tree
  }

  /** In the last of `n` rounds it does. */
  ghost predicate BadRound(script: seq<seq<Op>>, n: nat, performed: seq<Op>, hs: seq<Node>, tree: set<Node>) {
    && 0 < n <= |script|
    && exists done: nat :: BadAt(script, n, performed, hs, tree, done)
  }

  ghost predicate BadAt(script: seq<seq<Op>>, n: nat, performed: seq<Op>, hs: seq<Node>, tree: set<Node>, done: nat)
    requires 0 < n <= |script|
  {
    Bad(script[n - 1], done, hs, tree) && performed == Flat(script[..n - 1]) + script[n - 1][..done]
  }

  function Flat(script: seq<seq<Op>>): (ops: seq<Op>) {
    if script == [] then [] else Flat(script[..|script| - 1]) + script[|script| - 1]
  }

  lemma FlatMore(script: seq<seq<Op>>, i: nat)
    requires i < |script|
    ensures Flat(script[..i + 1]) == Flat(script[..i]) + script[i]
  {
    assert script[..i + 1][..i] == script[..i];
  }

  // Which timers a pass serves.

  /** `starts[i]` timers had been set when round `i` began, the callbacks before having done all they were to do. */
  ghost predicate Begins(starts: seq<nat>, n: nat, script: seq<seq<Op>>, rounds: nat) {
    && |starts| == rounds <= |script|
    && forall i :: 0 <= i < rounds ==> starts[i] == n + |Times(Flat(script[..i]))|
  }

  lemma BeginsMore(starts: seq<nat>, n: nat, script: seq<seq<Op>>, i: nat, m: nat)
    requires Begins(starts, n, script, i) && i < |script| && m == n + |Times(Flat(script[..i]))|
    ensures Begins(starts + [m], n, script, i + 1)
  {
  }

  /** They grow from `n` up to at most `m`. */
  ghost predicate Growing(starts: seq<nat>, n: nat, m: nat) {
    && (starts != [] ==> starts[0] == n)
    && (forall i, j :: 0 <= i <= j < |starts| ==> starts[i] <= starts[j])
    && (forall i :: 0 <= i < |starts| ==> starts[i] <= m)
  }

  lemma {:induction false} FlatGrows(script: seq<seq<Op>>, i: nat, j: nat)
    requires i <= j <= |script|
    ensures |Times(Flat(script[..i]))| <= |Times(Flat(script[..j]))|
    decreases j
  {
    if i < j {
      FlatGrows(script, i, j - 1);
      FlatMore(script, j - 1);
      TimesCat(Flat(script[..j - 1]), script[j - 1]);
    }
  }

  lemma BeginsGrowTo(starts: seq<nat>, n: nat, script: seq<seq<Op>>, rounds: nat, m: nat)
    requires Begins(starts, n, script, rounds) && m == n + |Times(Flat(script[..rounds]))|
    ensures Growing(starts, n, m) && Growing(starts + [m], n, m)
  {
    assert script[..0] == [];
    forall i, j | 0 <= i <= j < |starts| ensures starts[i] <= starts[j] { FlatGrows(script, i, j); }
    forall i | 0 <= i < |starts| ensures starts[i] <= m { FlatGrows(script, i, rounds); }
  }

  /** Timer number `h` was set in round `i`. */
  ghost predicate SetIn(starts: seq<nat>, i: nat, h: nat) {
    i < |starts| && starts[i] <= h && (i + 1 < |starts| ==> h < starts[i + 1])
  }

  /** Round `j` removes a timer, so that the pass starts again from the first. */
  ghost predicate Restarts(starts: seq<nat>, script: seq<seq<Op>>, j: nat) {
    j < |starts| && j < |script| && exists h: nat :: Taken(starts[j], script[j], h)
  }

  ghost predicate RestartsSince(starts: seq<nat>, script: seq<seq<Op>>, i: nat) {
    exists j: nat :: i <= j && Restarts(starts, script, j)
  }

  /** The pass, now at `tp`, comes to a timer of time `key` set in round `i`, or has done so. */
  ghost predicate Comes(starts: seq<nat>, script: seq<seq<Op>>, fired: seq<Node>, tp: Node?, key: int, i: nat) {
    || RestartsSince(starts, script, i)
    || (if i + 1 < |fired| then fired[i + 1].key <= key else tp != null && tp.key <= key)
  }

  ghost predicate Ahead(n: nat, starts: seq<nat>, script: seq<seq<Op>>, fired: seq<Node>, tp: Node?, key: int, h: nat) {
    h < n || exists i: nat :: SetIn(starts, i, h) && Comes(starts, script, fired, tp, key, i)
  }

  /** The timers that the cursor has passed are those set too late for this pass, and none of them has fired. */
  ghost predicate Passed(hs: seq<Node>, n: nat, starts: seq<nat>, script: seq<seq<Op>>, fired: seq<Node>, tp: Node?,
                         before: set<Node>, tree: set<Node>) {
    forall h: nat :: h < |hs| ==> PassedOne(hs[h], n, starts, script, fired, tp, before, tree, h)
  }

  ghost predicate PassedOne(x: Node, n: nat, starts: seq<nat>, script: seq<seq<Op>>, fired: seq<Node>, tp: Node?,
                            before: set<Node>, tree: set<Node>, h: nat) {
    && (x in before <==> x in tree && !Ahead(n, starts, script, fired, tp, x.key, h))
    && (x in fired ==> Ahead(n, starts, script, fired, tp, x.key, h))
  }

  /** Every timer set since the pass began was set in some round. */
  lemma {:induction false} SetSometime(starts: seq<nat>, r: nat, h: nat) returns (i: nat)
    requires r < |starts| && starts[0] <= h && (r + 1 < |starts| ==> h < starts[r + 1])
    ensures i <= r && SetIn(starts, i, h)
    decreases r
  {
    if starts[r] <= h {
      i := r;
    } else {
      i := SetSometime(starts, r - 1, h);
    }
  }

  /** A round that removes a timer: the pass will come to all timers. */
  lemma AllAhead(starts: seq<nat>, n: nat, m: nat, script: seq<seq<Op>>, fired: seq<Node>, next: Node?, key: int, h: nat)
    requires starts != [] && Growing(starts, n, m) && Restarts(starts, script, |starts| - 1)
    ensures Ahead(n, starts, script, fired, next, key, h)
  {
    if h >= n {
      var i := SetSometime(starts, |starts| - 1, h);
      assert RestartsSince(starts, script, i);
    }
  }

  /** A round that removes none: nothing changes for a timer set before it. */
  lemma StillAhead(starts: seq<nat>, n: nat, m: nat, script: seq<seq<Op>>, fired: seq<Node>, tp: Node, next: Node?,
                   key: int, h: nat)
    requires Growing(starts, n, m) && |fired| == |starts| && h < m
    requires !Restarts(starts + [m], script, |starts|)
    ensures Ahead(n, starts + [m], script, fired + [tp], next, key, h) <==> Ahead(n, starts, script, fired, tp, key, h)
  {
    var starts', fired' := starts + [m], fired + [tp];
    forall i | 0 <= i < |starts|
      ensures SetIn(starts', i, h) <==> SetIn(starts, i, h)
      ensures Comes(starts', script, fired', next, key, i) <==> Comes(starts, script, fired, tp, key, i)
    {
      assert forall j :: Restarts(starts', script, j) <==> Restarts(starts, script, j);
    }
    assert !SetIn(starts', |starts|, h);
  }

  /** The pass will come to a timer set in the round just done exactly if it is not before the next one. */
  lemma AheadNow(starts: seq<nat>, n: nat, m: nat, script: seq<seq<Op>>, fired: seq<Node>, next: Node?, key: int, h: nat)
    requires Growing(starts + [m], n, m) && |fired| == |starts| + 1 && n <= m <= h
    requires !Restarts(starts + [m], script, |starts|)
    ensures Ahead(n, starts + [m], script, fired, next, key, h) <==> next != null && next.key <= key
  {
    var r := |starts|;
    forall i: nat | i < r ensures !SetIn(starts + [m], i, h) {
      assert (starts + [m])[i + 1] <= m;
    }
    assert SetIn(starts + [m], r, h);
    assert !RestartsSince(starts + [m], script, r);
  }

  lemma RestartsExactly(hs: seq<Node>, hs': seq<Node>, starts: seq<nat>, script: seq<seq<Op>>, more: set<Node>, less: set<Node>)
    requires |starts| < |script| && Tied(hs, hs', more, less, script[|starts|])
    ensures Restarts(starts + [|hs|], script, |starts|) <==> less != {}
  {
    var ops := script[|starts|];
    assert (starts + [|hs|])[|starts|] == |hs|;
    if less != {} {
      var x :| x in less;
      var h: nat :| h < |hs'| && hs'[h] == x;
      assert Taken(|hs|, ops, h);
    }
    if h: nat :| Taken(|hs|, ops, h) {
      TakenBefore(|hs|, ops, h);
      assert hs'[h] in less;
    }
  }

  /** A round: `tp` fires, its callback sets `more` and removes `less`, and the pass goes on to `next`. */
  lemma PassedRound(hs: seq<Node>, hs': seq<Node>, n: nat, starts: seq<nat>, script: seq<seq<Op>>, fired: seq<Node>,
                    tp: Node, next: Node?, before: set<Node>, before': set<Node>, tree: set<Node>, tree': set<Node>,
                    more: set<Node>, less: set<Node>)
    requires |starts| == |fired| < |script| && n <= |hs| && Distinct(hs')
    requires Growing(starts, n, |hs|) && Growing(starts + [|hs|], n, |hs|)
    requires Tied(hs, hs', more, less, script[|starts|]) && more !! Elements(hs)
    requires tree <= Elements(hs) && before <= tree && Elements(fired) <= Elements(hs)
    requires Passed(hs, n, starts, script, fired, tp, before, tree) && tp in tree && tp !in before
    requires tree' == tree - {tp} + more - less && before' == if less != {} then {} else before + Behind(more, next)
    ensures Passed(hs', n, starts + [|hs|], script, fired + [tp], next, before', tree')
  {
    var starts', fired' := starts + [|hs|], fired + [tp];
    RestartsExactly(hs, hs', starts, script, more, less);
    forall h: nat | h < |hs'| ensures PassedOne(hs'[h], n, starts', script, fired', next, before', tree', h) {
      if less != {} {
        AllAhead(starts', n, |hs|, script, fired', next, hs'[h].key, h);
      } else if h < |hs| {
        OldOne(hs, hs', n, starts, script, fired, tp, next, before, tree, more, h);
      } else {
        NewOne(hs, hs', n, starts, script, fired, tp, next, before, tree, more, h);
      }
    }
  }

  lemma OldOne(hs: seq<Node>, hs': seq<Node>, n: nat, starts: seq<nat>, script: seq<seq<Op>>, fired: seq<Node>,
               tp: Node, next: Node?, before: set<Node>, tree: set<Node>, more: set<Node>, h: nat)
    requires |starts| == |fired| && Growing(starts, n, |hs|) && Distinct(hs') && hs <= hs' && h < |hs|
    requires !Restarts(starts + [|hs|], script, |starts|) && more == Elements(hs'[|hs|..])
    requires PassedOne(hs[h], n, starts, script, fired, tp, before, tree, h) && tp !in before
    requires hs[h] == tp ==> hs[h] in tree
    ensures PassedOne(hs'[h], n, starts + [|hs|], script, fired + [tp], next, before + Behind(more, next),
                      tree - {tp} + more, h)
  {
    StillAhead(starts, n, |hs|, script, fired, tp, next, hs[h].key, h);
    assert forall i :: |hs| <= i < |hs'| ==> hs'[i] != hs'[h];
    assert hs'[h] == hs[h] && hs'[h] !in more;
  }

  lemma NewOne(hs: seq<Node>, hs': seq<Node>, n: nat, starts: seq<nat>, script: seq<seq<Op>>, fired: seq<Node>,
               tp: Node, next: Node?, before: set<Node>, tree: set<Node>, more: set<Node>, h: nat)
    requires |starts| == |fired| && Growing(starts + [|hs|], n, |hs|) && n <= |hs| <= h < |hs'| && hs <= hs' && Distinct(hs')
    requires !Restarts(starts + [|hs|], script, |starts|) && more == Elements(hs'[|hs|..]) && tp in hs
    requires more !! tree && more !! before && more !! Elements(fired)
    ensures PassedOne(hs'[h], n, starts + [|hs|], script, fired + [tp], next, before + Behind(more, next),
                      tree - {tp} + more, h)
  {
    AheadNow(starts, n, |hs|, script, fired + [tp], next, hs'[h].key, h);
    NotBefore(hs, hs', h);
    assert hs'[h] in more by { assert hs'[|hs|..][h - |hs|] == hs'[h]; }
  }

  /** At the end: of the timers set before or during the pass and not removed, those that were due have
      fired, unless they were set too late: before the next timer to fire, and no timer was removed since. */
  ghost predicate ServedExactly(hs: seq<Node>, n: nat, set0: set<Node>, log: Log, script: seq<seq<Op>>, now: int) {
    forall h: nat :: h < |hs| ==> ServedOne(hs[h], h, n, set0, log, script, now)
  }

  ghost predicate InTime(starts: seq<nat>, script: seq<seq<Op>>, fired: seq<Node>, key: int, h: nat) {
    exists i: nat :: SetIn(starts, i, h) &&
      (RestartsSince(starts, script, i) || (i + 1 < |fired| && fired[i + 1].key <= key))
  }

  datatype Outcome = Ended | Panicked | Unfinished

  /** Of the timers that were set when the pass began, an earlier one fires first. */
  ghost predicate InTimeOrder(fired: seq<Node>, waiting: set<Node>) {
    forall i, j :: 0 <= i < j < |fired| && fired[i] in waiting && fired[j] in waiting ==> fired[i].key <= fired[j].key
  }

  /** Those still in the tree come later in the order than those that fired. */
  ghost predicate Later(fired: seq<Node>, tree: set<Node>, order0: seq<Node>) {
    forall i, a, b :: LaterAt(fired, tree, order0, i, a, b)
  }

  ghost predicate LaterAt(fired: seq<Node>, tree: set<Node>, order0: seq<Node>, i: int, a: int, b: int) {
    0 <= i < |fired| && 0 <= a < |order0| && 0 <= b < |order0| && fired[i] == order0[a] && order0[b] in tree ==> a < b
  }

  /** Every timer of `waiting` that is due has fired, unless it was removed. */
  ghost predicate AllServed(waiting: set<Node>, fired: seq<Node>, removed: set<Node>, now: int) {
    forall n :: n in waiting && n.key <= now ==> n in fired || n in removed
  }

  /** What holds of the timers in the tree and of the history after every round of a pass. */
  ghost predicate PassInv(tree: set<Node>, waiting: set<Node>, order0: seq<Node>, added: set<Node>, removed: set<Node>,
                          fired: seq<Node>, now: int) {
    && Distinct(fired) && AllAtMost(fired, now)
    && Balance(tree, waiting, added, removed, fired)
    && Sorted(order0) && Distinct(order0) && Elements(order0) == waiting
    && Agrees(fired, order0) && Later(fired, tree, order0)
  }

  lemma PassBegins(t: Tree, now: int)
    requires Sep(t) && Sorted(Inorder(t))
    ensures PassInv(Nodes(t), Nodes(t), Inorder(t), {}, {}, [], now) && Agrees(Inorder(t), Inorder(t))
  {
    SepDistinct(t);
    InorderNodes(t);
    AgreesSelf(Inorder(t));
  }

  /** The order of those that were set when the pass began is one of time. */
  lemma TimeOrder(fired: seq<Node>, order0: seq<Node>, waiting: set<Node>)
    requires Sorted(order0) && Elements(order0) == waiting && Agrees(fired, order0)
    ensures InTimeOrder(fired, waiting)
  {
    forall i, j | 0 <= i < j < |fired| && fired[i] in waiting && fired[j] in waiting ensures fired[i].key <= fired[j].key {
      var a :| 0 <= a < |order0| && order0[a] == fired[i];
      var b :| 0 <= b < |order0| && order0[b] == fired[j];
      assert AgreeAt(fired, order0, i, j, a, b);
    }
  }

  /** A round: the timer under the cursor fires, and its callback sets `more` and removes `less`. */
  lemma PassRound(s: seq<Node>, after: set<Node>, waiting: set<Node>, order0: seq<Node>, added: set<Node>,
                  removed: set<Node>, fired: seq<Node>, tp: Node, before: set<Node>, more: set<Node>, less: set<Node>,
                  k: nat, now: int)
    requires PassInv(Elements(s), waiting, order0, added, removed, fired, now) && Agrees(s, order0)
    requires Cursor(s, tp, k, before) && before !! waiting && tp.key <= now
    requires more !! waiting + added && less <= Elements(s) - {tp} + more
    requires after == Elements(s) - {tp} + more - less
    ensures PassInv(after, waiting, order0, added + more, removed + less, fired + [tp], now)
    ensures InTimeOrder(fired + [tp], waiting)
  {
    assert tp in Elements(s);
    LaterFire(fired, s, tp, k, before, order0);
    BalanceRound(Elements(s), after, waiting, added, removed, fired, tp, more, less);
    TimeOrder(fired + [tp], order0, waiting);
    forall i, a, b ensures LaterAt(fired + [tp], after, order0, i, a, b) {
      assert LaterAt(fired + [tp], Elements(s) - {tp}, order0, i, a, b);
      assert 0 <= b < |order0| ==> order0[b] in waiting;
    }
  }

  lemma LaterFire(fired: seq<Node>, s: seq<Node>, tp: Node, k: nat, before: set<Node>, order0: seq<Node>)
    requires Cursor(s, tp, k, before) && before !! Elements(order0) && Agrees(s, order0)
    requires Agrees(fired, order0) && Later(fired, Elements(s), order0)
    ensures Agrees(fired + [tp], order0) && Later(fired + [tp], Elements(s) - {tp}, order0)
  {
    assert tp in Elements(s);
    forall i, j, a, b ensures AgreeAt(fired + [tp], order0, i, j, a, b) {
      assert AgreeAt(fired, order0, i, j, a, b) && LaterAt(fired, Elements(s), order0, i, a, b);
    }
    forall i, a, b ensures LaterAt(fired + [tp], Elements(s) - {tp}, order0, i, a, b) {
      if 0 <= a < |order0| && 0 <= b < |order0| && tp == order0[a] && order0[b] in Elements(s) - {tp} {
        var j :| 0 <= j < |s| && s[j] == order0[b];
        assert order0[b] in Elements(order0);
        assert forall i :: 0 <= i < k ==> s[i] in Elements(s[..k]);
        assert AgreeAt(s, order0, k, j, a, b);
      }
      assert LaterAt(fired, Elements(s), order0, i, a, b);
    }
  }

  /** Those that the cursor has passed were set after the pass began. */
  lemma PassedAreNew(hs0: seq<Node>, hs: seq<Node>, starts: seq<nat>, script: seq<seq<Op>>, fired: seq<Node>, tp: Node?,
                     before: set<Node>, tree: set<Node>, waiting: set<Node>)
    requires Passed(hs, |hs0|, starts, script, fired, tp, before, tree) && hs0 <= hs
    requires forall x :: x in waiting ==> x in hs0
    ensures before !! waiting
  {
    forall x | x in waiting ensures x !in before {
      var h: nat :| h < |hs0| && hs0[h] == x;
      assert hs[h] == x && PassedOne(hs[h], |hs0|, starts, script, fired, tp, before, tree, h);
    }
  }

  /** Once the cursor is past the due timers, all that the pass can come to have been served. */
  lemma PassDone(s: seq<Node>, tp: Node?, k: nat, order0: seq<Node>, now: int, hs0: seq<Node>, hs: seq<Node>,
                 script: seq<seq<Op>>, before: set<Node>, log: Log)
    requires LogInv(hs0, hs, order0, Elements(s), script, now, log)
    requires Cursor(s, tp, k, before) && Sorted(s) && Distinct(hs) && (tp != null ==> tp.key > now)
    requires Passed(hs, |hs0|, log.starts, script, log.fired, tp, before, Elements(s))
    ensures AllServed(Elements(order0), log.fired, log.removed, now)
    ensures ServedExactly(hs, |hs0|, Elements(order0), log, script, now)
  {
    PassedAreNew(hs0, hs, log.starts, script, log.fired, tp, before, Elements(s), Elements(order0));
    CursorEnd(s, tp, k, before, now);
    forall h: nat | h < |hs| ensures ServedOne(hs[h], h, |hs0|, Elements(order0), log, script, now) {
      ServedHere(s, tp, order0, now, hs0, hs, script, before, log, h);
    }
    assert forall n :: n in Elements(order0) ==> n in Elements(s) || n in log.removed || n in Elements(log.fired);
  }

  ghost predicate ServedOne(x: Node, h: nat, n: nat, set0: set<Node>, log: Log, script: seq<seq<Op>>, now: int) {
    x in log.fired <==>
      && (x in set0 || h >= n) && x.key <= now && x !in log.removed
      && (h < n || InTime(log.starts, script, log.fired, x.key, h))
  }

  lemma ServedHere(s: seq<Node>, tp: Node?, order0: seq<Node>, now: int, hs0: seq<Node>, hs: seq<Node>,
                   script: seq<seq<Op>>, before: set<Node>, log: Log, h: nat)
    requires LogInv(hs0, hs, order0, Elements(s), script, now, log) && Distinct(hs) && h < |hs|
    requires (tp != null ==> tp.key > now) && forall n :: n in s && n !in before ==> n.key > now
    requires PassedOne(hs[h], |hs0|, log.starts, script, log.fired, tp, before, Elements(s), h)
    ensures ServedOne(hs[h], h, |hs0|, Elements(order0), log, script, now)
  {
    var x := hs[h];
    AddedFrom(hs0, hs, log.added, h);
    assert x in Elements(order0) + log.added <==> x in s || x in log.removed || x in Elements(log.fired);
    if x.key <= now {
      AheadAtEnd(|hs0|, log.starts, script, log.fired, tp, x.key, h, now);
    }
    assert x in log.fired ==> x in Elements(log.fired) && x.key <= now;
  }

  lemma AddedFrom(hs0: seq<Node>, hs: seq<Node>, added: set<Node>, h: nat)
    requires hs0 <= hs && Distinct(hs) && added == Elements(hs[|hs0|..]) && h < |hs|
    ensures hs[h] in added <==> h >= |hs0|
  {
    if h >= |hs0| { assert hs[|hs0|..][h - |hs0|] == hs[h]; }
    if hs[h] in added {
      var g: nat :| g < |hs[|hs0|..]| && hs[|hs0|..][g] == hs[h];
      assert hs[|hs0| + g] == hs[h];
    }
  }

  lemma AheadAtEnd(n: nat, starts: seq<nat>, script: seq<seq<Op>>, fired: seq<Node>, tp: Node?, key: int, h: nat, now: int)
    requires (tp != null ==> tp.key > now) && key <= now
    ensures Ahead(n, starts, script, fired, tp, key, h) <==> h < n || InTime(starts, script, fired, key, h)
  {
  }

  /** The balance after a timer has fired and its callback has set `more` and removed `less`. */
  lemma BalanceRound(before: set<Node>, after: set<Node>, set0: set<Node>, added: set<Node>, removed: set<Node>,
                     fired: seq<Node>, tp: Node, more: set<Node>, less: set<Node>)
    requires Balance(before, set0, added, removed, fired) && tp in before && Distinct(fired)
    requires more !! set0 + added && less <= before - {tp} + more
    requires after == before - {tp} + more - less
    ensures Balance(after, set0, added + more, removed + less, fired + [tp]) && Distinct(fired + [tp])
  {
    assert Elements(fired + [tp]) == Elements(fired) + {tp};
    assert forall i :: 0 <= i < |fired| ==> fired[i] in Elements(fired);
  }
}
