/**
 * Nodes of the intrusive red-black tree (async/itree.C, async/itree.h) and the shapes they form.
 * A `Tree` is the shape below a link; a `Ctx` is the shape around one, from the link up to the
 * root.  Both name the nodes they are made of, so that a shape says what the links must be.
 */
module ItreeShape {
  import opened RpcTypes

  datatype Color = Black | Red

  /** `__itree_entry_private` together with the key of its container.  The tree only compares
      nodes, and any total preorder on them is the order of some integer rank. */
  class Node {
    const key: int
    var up: Node?
    var left: Node?
    var right: Node?
    var color: Color

    constructor (key: int)
      ensures this.key == key
    {
      this.key := key;
      up, left, right, color := null, null, null, Red;
    }
  }

  datatype Tree = Leaf | T(l: Tree, n: Node, c: Color, r: Tree)

  /** `InL(n, c, r, up)`: the hole is n's left link, r is its right subtree; `InR` likewise. */
  datatype Ctx = Top | InL(n: Node, c: Color, r: Tree, up: Ctx) | InR(l: Tree, n: Node, c: Color, up: Ctx)

  ghost function Plug(k: Ctx, t: Tree): Tree {
    match k
    case Top => t
    case InL(n, c, r, up) => Plug(up, T(t, n, c, r))
    case InR(l, n, c, up) => Plug(up, T(l, n, c, t))
  }

  ghost function Depth(k: Ctx): nat {
    if k.Top? then 0 else 1 + Depth(k.up)
  }

  // ----- nodes and order

  ghost function Nodes(t: Tree): set<Node> {
    if t.Leaf? then {} else Nodes(t.l) + {t.n} + Nodes(t.r)
  }

  ghost function CtxNodes(k: Ctx): set<Node> {
    match k
    case Top => {}
    case InL(n, c, r, up) => {n} + Nodes(r) + CtxNodes(up)
    case InR(l, n, c, up) => {n} + Nodes(l) + CtxNodes(up)
  }

  /** No node occurs twice. */
  ghost predicate Sep(t: Tree) {
    t.T? ==>
      && t.n !in Nodes(t.l) && t.n !in Nodes(t.r) && Nodes(t.l) !! Nodes(t.r)
      && Sep(t.l) && Sep(t.r)
  }

  ghost predicate CtxSep(k: Ctx) {
    match k
    case Top => true
    case InL(n, c, r, up) =>
      n !in Nodes(r) && n !in CtxNodes(up) && Nodes(r) !! CtxNodes(up) && Sep(r) && CtxSep(up)
    case InR(l, n, c, up) =>
      n !in Nodes(l) && n !in CtxNodes(up) && Nodes(l) !! CtxNodes(up) && Sep(l) && CtxSep(up)
  }

  ghost predicate ZipSep(k: Ctx, t: Tree) {
    Sep(t) && CtxSep(k) && Nodes(t) !! CtxNodes(k)
  }

  ghost function Inorder(t: Tree): seq<Node> {
    if t.Leaf? then [] else Inorder(t.l) + [t.n] + Inorder(t.r)
  }

  ghost function Before(k: Ctx): seq<Node> {
    match k
    case Top => []
    case InL(n, c, r, up) => Before(up)
    case InR(l, n, c, up) => Before(up) + Inorder(l) + [n]
  }

  ghost function After(k: Ctx): seq<Node> {
    match k
    case Top => []
    case InL(n, c, r, up) => [n] + Inorder(r) + After(up)
    case InR(l, n, c, up) => After(up)
  }

  lemma {:induction false} InorderNodes(t: Tree)
    ensures Nodes(t) == Elements(Inorder(t))
  {
    if t.T? {
      InorderNodes(t.l);
      InorderNodes(t.r);
    }
  }

  // ----- what the links must be

  /** The linking fields of one node. */
  datatype Links = Links(up: Node?, left: Node?, right: Node?, color: Color)

  /** The links of all nodes of a tree. */
  type Mem = map<Node, Links>

  ghost predicate Rep(m: Mem, t: Tree, p: Node?, up: Node?): (b: bool)
    ensures b ==> p == Ref(t)
  {
    match t
    case Leaf => p == null
    case T(l, n, c, r) =>
      && p == n && n in m && m[n].color == c && m[n].up == up
      && Rep(m, l, m[n].left, n) && Rep(m, r, m[n].right, n)
  }

  /** The link to a tree. */
  ghost function Ref(t: Tree): (p: Node?)
    ensures p != null ==> p in Nodes(t)
  {
    if t.Leaf? then null else t.n
  }

  /** The node whose link is the hole, `above` at the top. */
  ghost function Parent(k: Ctx, above: Node?): Node? {
    if k.Top? then above else k.n
  }

  /** Around a hole that holds `hole`, from there to a top node `top` whose parent is `above`. */
  ghost predicate RepCtx(m: Mem, k: Ctx, hole: Node?, top: Node?, above: Node?) {
    match k
    case Top => top == hole
    case InL(n, c, r, up) =>
      && n in m && m[n].left == hole && m[n].color == c && m[n].up == Parent(up, above)
      && Rep(m, r, m[n].right, n) && RepCtx(m, up, n, top, above)
    case InR(l, n, c, up) =>
      && n in m && m[n].right == hole && m[n].color == c && m[n].up == Parent(up, above)
      && Rep(m, l, m[n].left, n) && RepCtx(m, up, n, top, above)
  }

  /** The links are those of tree `t` in context `k`, below `root`. */
  ghost predicate RepZip(m: Mem, k: Ctx, t: Tree, root: Node?) {
    Rep(m, t, Ref(t), Parent(k, null)) && RepCtx(m, k, Ref(t), root, null)
  }

  lemma {:induction false} RepKeys(m: Mem, t: Tree, p: Node?, up: Node?)
    requires Rep(m, t, p, up)
    ensures Nodes(t) <= m.Keys
  {
    if t.T? {
      RepKeys(m, t.l, m[t.n].left, t.n);
      RepKeys(m, t.r, m[t.n].right, t.n);
    }
  }

  /** Links of other nodes do not matter. */
  lemma {:induction false} FrameRep(m: Mem, m': Mem, t: Tree, p: Node?, up: Node?)
    requires Rep(m, t, p, up)
    requires forall n :: n in Nodes(t) && n in m ==> n in m' && m'[n] == m[n]
    ensures Rep(m', t, p, up)
  {
    if t.T? {
      FrameRep(m, m', t.l, m[t.n].left, t.n);
      FrameRep(m, m', t.r, m[t.n].right, t.n);
    }
  }

  lemma {:induction false} FrameCtx(m: Mem, m': Mem, k: Ctx, hole: Node?, top: Node?, above: Node?)
    requires RepCtx(m, k, hole, top, above)
    requires forall n :: n in CtxNodes(k) && n in m ==> n in m' && m'[n] == m[n]
    ensures RepCtx(m', k, hole, top, above)
  {
    match k
    case Top =>
    case InL(n, c, r, up) =>
      FrameRep(m, m', r, m[n].right, n);
      FrameCtx(m, m', up, n, top, above);
    case InR(l, n, c, up) =>
      FrameRep(m, m', l, m[n].left, n);
      FrameCtx(m, m', up, n, top, above);
  }

  /** A tree hangs from one node: it can be given another parent. */
  lemma AdoptRep(m: Mem, m': Mem, t: Tree, p: Node?, up: Node?, newUp: Node?)
    requires Rep(m, t, p, up) && Sep(t)
    requires forall n :: n in Nodes(t) && n != p && n in m ==> n in m' && m'[n] == m[n]
    requires p != null ==> p in m && p in m' && m'[p] == m[p].(up := newUp)
    ensures Rep(m', t, p, newUp)
  {
    if t.T? {
      FrameRep(m, m', t.l, m[t.n].left, t.n);
      FrameRep(m, m', t.r, m[t.n].right, t.n);
    }
  }

  /** `m'` is `m` with the link around the hole set to `y`. */
  ghost predicate Relinked(m: Mem, m': Mem, k: Ctx, y: Node?, root: Node?, root': Node?) {
    match k
    case Top => root' == y
    case InL(n, _, _, _) => root' == root && n in m && n in m' && m'[n] == m[n].(left := y)
    case InR(_, n, _, _) => root' == root && n in m && n in m' && m'[n] == m[n].(right := y)
  }

  lemma RelinkCtx(m: Mem, m': Mem, k: Ctx, x: Node?, y: Node?, root: Node?, root': Node?)
    requires RepCtx(m, k, x, root, null) && CtxSep(k)
    requires Relinked(m, m', k, y, root, root')
    requires forall n :: n in CtxNodes(k) && n != Parent(k, null) && n in m ==> n in m' && m'[n] == m[n]
    ensures RepCtx(m', k, y, root', null)
  {
    match k
    case Top =>
    case InL(n, c, r, up) =>
      FrameRep(m, m', r, m[n].right, n);
      FrameCtx(m, m', up, n, root, null);
    case InR(l, n, c, up) =>
      FrameRep(m, m', l, m[n].left, n);
      FrameCtx(m, m', up, n, root, null);
  }

  // ----- red-black shapes

  ghost function BH(t: Tree): nat {
    if t.Leaf? then 0 else BH(t.l) + BlackOne(t.c)
  }

  ghost function BlackOne(c: Color): nat { if c == Black then 1 else 0 }

  /** Every path has the same number of black nodes. */
  ghost predicate Bal(t: Tree) {
    t.T? ==> Bal(t.l) && Bal(t.r) && BH(t.l) == BH(t.r)
  }

  /** A missing node counts as black. */
  ghost function ColorOf(t: Tree): Color { if t.Leaf? then Black else t.c }

  /** No red node has a red child. */
  ghost predicate NoRR(t: Tree) {
    t.T? ==>
      && (t.c == Red ==> ColorOf(t.l) == Black && ColorOf(t.r) == Black)
      && NoRR(t.l) && NoRR(t.r)
  }

  ghost predicate RB(t: Tree) { Bal(t) && NoRR(t) && ColorOf(t) == Black }

  /** The context balances a subtree of black height h. */
  ghost predicate CtxBal(k: Ctx, h: nat) {
    match k
    case Top => true
    case InL(n, c, r, up) => Bal(r) && BH(r) == h && CtxBal(up, h + BlackOne(c))
    case InR(l, n, c, up) => Bal(l) && BH(l) == h && CtxBal(up, h + BlackOne(c))
  }

  /** The context has no red-red edge if the hole's root has colour `hc`. */
  ghost predicate CtxNoRR(k: Ctx, hc: Color) {
    match k
    case Top => true
    case InL(n, c, r, up) =>
      NoRR(r) && (c == Red ==> hc == Black && ColorOf(r) == Black) && CtxNoRR(up, c)
    case InR(l, n, c, up) =>
      NoRR(l) && (c == Red ==> hc == Black && ColorOf(l) == Black) && CtxNoRR(up, c)
  }

  /** The outermost node, if there is one, is black. */
  ghost predicate TopBlack(k: Ctx) {
    k.Top? || (if k.up.Top? then k.c == Black else TopBlack(k.up))
  }

  ghost function Blacken(t: Tree): Tree {
    if t.Leaf? then Leaf else t.(c := Black)
  }

  // ----- a tree in its context is the whole tree

  lemma {:induction false} PlugNodes(k: Ctx, t: Tree)
    ensures Nodes(Plug(k, t)) == Nodes(t) + CtxNodes(k)
    decreases k
  {
    match k
    case Top =>
    case InL(n, c, r, up) => PlugNodes(up, T(t, n, c, r));
    case InR(l, n, c, up) => PlugNodes(up, T(l, n, c, t));
  }

  lemma Regrouped<A>(b: seq<A>, l: seq<A>, n: seq<A>, r: seq<A>, a: seq<A>)
    ensures b + (l + n + r) + a == b + l + (n + r + a) == b + l + n + r + a
  {
  }

  lemma {:induction false} PlugInorder(k: Ctx, t: Tree)
    ensures Inorder(Plug(k, t)) == Before(k) + Inorder(t) + After(k)
    decreases k
  {
    match k
    case Top =>
    case InL(n, c, r, up) =>
      PlugInorder(up, T(t, n, c, r));
      Regrouped(Before(up), Inorder(t), [n], Inorder(r), After(up));
    case InR(l, n, c, up) =>
      PlugInorder(up, T(l, n, c, t));
      Regrouped(Before(up), Inorder(l), [n], Inorder(t), After(up));
  }

  lemma {:induction false} PlugSep(k: Ctx, t: Tree)
    ensures ZipSep(k, t) <==> Sep(Plug(k, t))
    decreases k
  {
    match k
    case Top =>
    case InL(n, c, r, up) =>
      PlugSep(up, T(t, n, c, r));
      assert ZipSep(k, t) <==> ZipSep(up, T(t, n, c, r));
    case InR(l, n, c, up) =>
      PlugSep(up, T(l, n, c, t));
      assert ZipSep(k, t) <==> ZipSep(up, T(l, n, c, t));
  }

  lemma {:induction false} PlugRep(m: Mem, k: Ctx, t: Tree, root: Node?)
    ensures Rep(m, Plug(k, t), root, null) <==> RepZip(m, k, t, root)
    decreases k
  {
    match k
    case Top =>
    case InL(n, c, r, up) =>
      PlugRep(m, up, T(t, n, c, r), root);
    case InR(l, n, c, up) =>
      PlugRep(m, up, T(l, n, c, t), root);
  }

  lemma {:induction false} PlugBal(k: Ctx, t: Tree)
    ensures Bal(Plug(k, t)) <==> Bal(t) && CtxBal(k, BH(t))
    decreases k
  {
    match k
    case Top =>
    case InL(n, c, r, up) => PlugBal(up, T(t, n, c, r));
    case InR(l, n, c, up) => PlugBal(up, T(l, n, c, t));
  }

  lemma {:induction false} PlugNoRR(k: Ctx, t: Tree)
    ensures NoRR(Plug(k, t)) <==> NoRR(t) && CtxNoRR(k, ColorOf(t))
    decreases k
  {
    match k
    case Top =>
    case InL(n, c, r, up) => PlugNoRR(up, T(t, n, c, r));
    case InR(l, n, c, up) => PlugNoRR(up, T(l, n, c, t));
  }

  lemma {:induction false} PlugTop(k: Ctx, t: Tree)
    ensures k.Top? || (ColorOf(Plug(k, t)) == Black <==> TopBlack(k))
    decreases k
  {
    match k
    case Top =>
    case InL(n, c, r, up) => PlugTop(up, T(t, n, c, r));
    case InR(l, n, c, up) => PlugTop(up, T(l, n, c, t));
  }

  /** The same links, seen from another place in the tree. */
  lemma Refocus(m: Mem, k: Ctx, t: Tree, k': Ctx, t': Tree, root: Node?)
    requires RepZip(m, k, t, root) && ZipSep(k, t) && Plug(k, t) == Plug(k', t')
    ensures RepZip(m, k', t', root) && ZipSep(k', t')
  {
    PlugRep(m, k, t, root);
    PlugRep(m, k', t', root);
    PlugSep(k, t);
    PlugSep(k', t');
  }

  /** A node gets another colour. */
  lemma PaintZip(m: Mem, k: Ctx, t: Tree, c: Color, root: Node?)
    requires RepZip(m, k, t, root) && ZipSep(k, t) && t.T?
    ensures t.n in m && RepZip(m[t.n := m[t.n].(color := c)], k, t.(c := c), root) && ZipSep(k, t.(c := c))
  {
    var m' := m[t.n := m[t.n].(color := c)];
    FrameRep(m, m', t.l, m[t.n].left, t.n);
    FrameRep(m, m', t.r, m[t.n].right, t.n);
    FrameCtx(m, m', k, t.n, root, null);
  }

  // ----- contexts within contexts

  /** The inner context j placed in the hole of k. */
  ghost function Append(j: Ctx, k: Ctx): Ctx {
    match j
    case Top => k
    case InL(n, c, r, up) => InL(n, c, r, Append(up, k))
    case InR(l, n, c, up) => InR(l, n, c, Append(up, k))
  }

  lemma {:induction false} AppendPlug(j: Ctx, k: Ctx, t: Tree)
    ensures Plug(Append(j, k), t) == Plug(k, Plug(j, t))
    decreases j
  {
    match j
    case Top =>
    case InL(n, c, r, up) => AppendPlug(up, k, T(t, n, c, r));
    case InR(l, n, c, up) => AppendPlug(up, k, T(l, n, c, t));
  }

  /** The hole lies at the end of left links only. */
  ghost predicate AllLeft(j: Ctx) { j.Top? || (j.InL? && AllLeft(j.up)) }

  lemma {:induction false} AllLeftBefore(j: Ctx)
    requires AllLeft(j)
    ensures Before(j) == []
  {
    if !j.Top? { AllLeftBefore(j.up); }
  }

  /** Every node of a tree is the root of one of its subtrees. */
  lemma {:induction false} FocusOn(t: Tree, z: Node, k0: Ctx) returns (k: Ctx, s: Tree)
    requires z in Nodes(t)
    ensures Plug(k, s) == Plug(k0, t) && s.T? && s.n == z
    decreases t
  {
    if t.n == z {
      k, s := k0, t;
    } else if z in Nodes(t.l) {
      k, s := FocusOn(t.l, z, InL(t.n, t.c, t.r, k0));
    } else {
      k, s := FocusOn(t.r, z, InR(t.l, t.n, t.c, k0));
    }
  }

  // ----- sorted order

  ghost predicate Sorted(s: seq<Node>) {
    forall i, j :: 0 <= i < j < |s| ==> s[i].key <= s[j].key
  }

  ghost predicate AllAtMost(s: seq<Node>, key: int) { forall n :: n in s ==> n.key <= key }

  ghost predicate AllAtLeast(s: seq<Node>, key: int) { forall n :: n in s ==> n.key >= key }

  ghost predicate AllAbove(s: seq<Node>, key: int) { forall n :: n in s ==> n.key > key }

  /** In a sorted sequence, what stands before n is at most n and what stands after it at least. */
  lemma SortedAround(a: seq<Node>, n: Node, b: seq<Node>)
    requires Sorted(a + [n] + b)
    ensures forall m :: m in a ==> m.key <= n.key
    ensures forall m :: m in b ==> n.key <= m.key
  {
    var s := a + [n] + b;
    assert s[|a|] == n;
    forall m | m in a ensures m.key <= n.key {
      var i :| 0 <= i < |a| && a[i] == m;
      assert s[i] == m;
    }
    forall m | m in b ensures n.key <= m.key {
      var i :| 0 <= i < |b| && b[i] == m;
      assert s[|a| + 1 + i] == m;
    }
  }

  /** The root of the subtree in focus splits the whole order. */
  lemma FocusOrder(k: Ctx, t: Tree)
    requires t.T?
    ensures Inorder(Plug(k, t)) == (Before(k) + Inorder(t.l)) + [t.n] + (Inorder(t.r) + After(k))
  {
    PlugInorder(k, t);
    Regrouped(Before(k), Inorder(t.l), [t.n], Inorder(t.r), After(k));
  }

  /** In a sorted tree, the root of the subtree in focus separates what is before it from what
      is after it. */
  lemma AroundFocus(k: Ctx, t: Tree)
    requires t.T? && Sorted(Inorder(Plug(k, t)))
    ensures AllAtMost(Before(k), t.n.key) && AllAtMost(Inorder(t.l), t.n.key)
    ensures AllAtLeast(Inorder(t.r), t.n.key) && AllAtLeast(After(k), t.n.key)
  {
    FocusOrder(k, t);
    SortedAround(Before(k) + Inorder(t.l), t.n, Inorder(t.r) + After(k));
  }

  /** Putting z between what is at most z and what is above it keeps the order sorted. */
  lemma SortedInsert(a: seq<Node>, z: Node, b: seq<Node>)
    requires Sorted(a + b) && AllAtMost(a, z.key) && AllAbove(b, z.key)
    ensures Sorted(a + [z] + b)
  {
    var s, r := a + b, a + [z] + b;
    forall i, j | 0 <= i < j < |r| ensures r[i].key <= r[j].key {
      if i != |a| && j != |a| {
        assert r[i] == s[if i < |a| then i else i - 1] && r[j] == s[if j < |a| then j else j - 1];
      }
    }
  }

  lemma SortedRemove(a: seq<Node>, z: Node, b: seq<Node>)
    requires Sorted(a + [z] + b)
    ensures Sorted(a + b)
  {
    var r, s := a + b, a + [z] + b;
    forall i, j | 0 <= i < j < |r| ensures r[i].key <= r[j].key {
      assert r[i] == s[if i < |a| then i else i + 1] && r[j] == s[if j < |a| then j else j + 1];
    }
  }
}
