/**
 * The intrusive red-black tree with parent links (async/itree.C): rotations, insertion with its
 * fix-up loop, deletion with its fix-up loop, all on linked nodes updated in place.  `mem` is a
 * ghost copy of the links of the tree's nodes; ghost parameters name the shape around the nodes
 * that a method works on.
 */
module Itree {
  import opened RpcTypes
  import opened ItreeShape
  import opened ItreeBalance

  /** Both sides of a rotation hold the same nodes, in the same order. */
  lemma RotateSep(k: Ctx, a: Tree, x: Node, cx: Color, b: Tree, y: Node, cy: Color, c: Tree)
    ensures ZipSep(k, T(a, x, cx, T(b, y, cy, c))) <==> ZipSep(k, T(T(a, x, cx, b), y, cy, c))
    ensures ZipSep(k, T(a, x, cx, T(b, y, cy, c))) ==> Apart(k, a, x, b, y, c)
  {
    var p, q := T(b, y, cy, c), T(a, x, cx, b);
    assert Nodes(p) == Nodes(b) + {y} + Nodes(c) && Nodes(q) == Nodes(a) + {x} + Nodes(b);
    assert Sep(p) <==> y !in Nodes(b) && y !in Nodes(c) && Nodes(b) !! Nodes(c) && Sep(b) && Sep(c);
    assert Sep(q) <==> x !in Nodes(a) && x !in Nodes(b) && Nodes(a) !! Nodes(b) && Sep(a) && Sep(b);
    assert Nodes(T(a, x, cx, p)) == Nodes(T(q, y, cy, c)) == Nodes(a) + {x} + Nodes(b) + {y} + Nodes(c);
  }

  /** The parts of a rotation share no node. */
  ghost predicate Apart(k: Ctx, a: Tree, x: Node, b: Tree, y: Node, c: Tree) {
    && x != y && Nodes(a) !! Nodes(b) && Nodes(a) !! Nodes(c) && Nodes(b) !! Nodes(c)
    && CtxNodes(k) !! Nodes(a) && CtxNodes(k) !! Nodes(b) && CtxNodes(k) !! Nodes(c)
    && x !in CtxNodes(k) && x !in Nodes(a) && x !in Nodes(b) && x !in Nodes(c)
    && y !in CtxNodes(k) && y !in Nodes(a) && y !in Nodes(b) && y !in Nodes(c)
    && Sep(a) && Sep(b) && Sep(c) && CtxSep(k)
  }

  /** The link around the hole holds x, and nothing beside it does. */
  ghost predicate Holds(m: Mem, k: Ctx, x: Node, root: Node?) {
    match k
    case Top => root == x
    case InL(n, _, _, _) => n in m && m[n].left == x && m[n].right != x
    case InR(_, n, _, _) => n in m && m[n].right == x && m[n].left != x
  }

  lemma HoldsRef(m: Mem, k: Ctx, x: Node, root: Node?)
    requires RepCtx(m, k, x, root, null) && x !in CtxNodes(k)
    ensures Holds(m, k, x, root)
    ensures !k.Top? ==> k.n in CtxNodes(k)
  {
    match k
    case Top =>
    case InL(n, c, r, up) => assert Rep(m, r, m[n].right, n);
    case InR(l, n, c, up) => assert Rep(m, l, m[n].left, n);
  }

  /** What a rotation writes: x and y change places, the subtree at w between them changes
      sides, and the link that held x holds y. */
  ghost predicate RotateWrites(m: Mem, m': Mem, k: Ctx, x: Node, y: Node, w: Node?,
                               root: Node?, root': Node?, xl: Links, yl: Links) {
    && m'.Keys == m.Keys && x in m && y in m
    && m'[x] == xl.(up := y) && m'[y] == yl.(up := m[x].up)
    && (w != null ==> w in m && m'[w] == m[w].(up := x))
    && Relinked(m, m', k, y, root, root')
    && (forall n :: n in m && n != x && n != y && n != w && n != Parent(k, null) ==> m'[n] == m[n])
  }

  /** After those writes the context holds y, and the three subtrees are still in place. */
  lemma RotateCtx(m: Mem, m': Mem, k: Ctx, x: Node, y: Node, w: Node?, root: Node?, root': Node?,
                  xl: Links, yl: Links)
    requires RotateWrites(m, m', k, x, y, w, root, root', xl, yl) && RepCtx(m, k, x, root, null) && CtxSep(k)
    requires x !in CtxNodes(k) && y !in CtxNodes(k) && (w != null ==> w !in CtxNodes(k))
    ensures RepCtx(m', k, y, root', null)
  {
    RelinkCtx(m, m', k, x, y, root, root');
  }

  lemma RotateOuter(m: Mem, m': Mem, k: Ctx, x: Node, y: Node, w: Node?, root: Node?, root': Node?,
                    xl: Links, yl: Links, t: Tree, p: Node?, up: Node?)
    requires RotateWrites(m, m', k, x, y, w, root, root', xl, yl) && Rep(m, t, p, up)
    requires x !in Nodes(t) && y !in Nodes(t) && (w != null ==> w !in Nodes(t)) && CtxNodes(k) !! Nodes(t)
    ensures Rep(m', t, p, up)
  {
    assert !k.Top? ==> k.n in CtxNodes(k);
    FrameRep(m, m', t, p, up);
  }

  lemma RotateInner(m: Mem, m': Mem, k: Ctx, x: Node, y: Node, root: Node?, root': Node?,
                    xl: Links, yl: Links, b: Tree, up: Node?)
    requires RotateWrites(m, m', k, x, y, Ref(b), root, root', xl, yl) && Rep(m, b, Ref(b), up) && Sep(b)
    requires x !in Nodes(b) && y !in Nodes(b) && CtxNodes(k) !! Nodes(b)
    ensures Rep(m', b, Ref(b), x)
  {
    assert !k.Top? ==> k.n in CtxNodes(k);
    AdoptRep(m, m', b, Ref(b), up, x);
  }

  /** Left rotation: the shape T(a, x, T(b, y, c)) becomes T(T(a, x, b), y, c). */
  lemma LeftRotated(m: Mem, m': Mem, k: Ctx, a: Tree, x: Node, cx: Color, b: Tree, y: Node, cy: Color, c: Tree,
                    root: Node?, root': Node?)
    requires RepZip(m, k, T(a, x, cx, T(b, y, cy, c)), root) && Apart(k, a, x, b, y, c) && x in m && y in m
    requires RotateWrites(m, m', k, x, y, Ref(b), root, root', m[x].(right := Ref(b)), m[y].(left := x))
    ensures RepZip(m', k, T(T(a, x, cx, b), y, cy, c), root')
  {
    var xl, yl := m[x].(right := Ref(b)), m[y].(left := x);
    assert Rep(m, T(b, y, cy, c), y, x) && Rep(m, b, m[y].left, y);
    RotateCtx(m, m', k, x, y, Ref(b), root, root', xl, yl);
    RotateOuter(m, m', k, x, y, Ref(b), root, root', xl, yl, a, m[x].left, x);
    RotateOuter(m, m', k, x, y, Ref(b), root, root', xl, yl, c, m[y].right, y);
    RotateInner(m, m', k, x, y, root, root', xl, yl, b, y);
    assert Rep(m', T(a, x, cx, b), x, y);
  }

  /** Right rotation: T(T(a, x, b), y, c) becomes T(a, x, T(b, y, c)). */
  lemma RightRotated(m: Mem, m': Mem, k: Ctx, a: Tree, x: Node, cx: Color, b: Tree, y: Node, cy: Color, c: Tree,
                     root: Node?, root': Node?)
    requires RepZip(m, k, T(T(a, x, cx, b), y, cy, c), root) && Apart(k, a, x, b, y, c) && x in m && y in m
    requires RotateWrites(m, m', k, y, x, Ref(b), root, root', m[y].(left := Ref(b)), m[x].(right := y))
    ensures RepZip(m', k, T(a, x, cx, T(b, y, cy, c)), root')
  {
    var xl, yl := m[x].(right := y), m[y].(left := Ref(b));
    assert Rep(m, T(a, x, cx, b), x, y) && Rep(m, b, m[x].right, x);
    RotateCtx(m, m', k, y, x, Ref(b), root, root', yl, xl);
    RotateOuter(m, m', k, y, x, Ref(b), root, root', yl, xl, a, m[x].left, x);
    RotateOuter(m, m', k, y, x, Ref(b), root, root', yl, xl, c, m[y].right, y);
    RotateInner(m, m', k, y, x, root, root', yl, xl, b, x);
    assert Rep(m', T(b, y, cy, c), y, x);
  }

  /** What the links say about the side on which a node hangs. */
  lemma Sides(m: Mem, k: Ctx, t: Tree, root: Node?)
    requires RepZip(m, k, t, root) && ZipSep(k, t) && t.T?
    ensures t.n in m && m[t.n].up == Parent(k, null) && m[t.n].color == t.c
    ensures m[t.n].left == Ref(t.l) && m[t.n].right == Ref(t.r)
    ensures k.Top? <==> root == t.n
    ensures !k.Top? ==> k.n in m && m[k.n].color == k.c
    ensures k.InL? ==> m[k.n].left == t.n && m[k.n].right == Ref(k.r) && Ref(k.r) != t.n
    ensures k.InR? ==> m[k.n].right == t.n && m[k.n].left == Ref(k.l) && Ref(k.l) != t.n
  {
    assert Rep(m, t.l, m[t.n].left, t.n) && Rep(m, t.r, m[t.n].right, t.n);
    if !k.Top? {
      assert Rep(m, Sibling(k), if k.InL? then m[k.n].right else m[k.n].left, k.n);
      TopNotInside(m, k, t.n, root);
    }
  }

  /** The links around a hole that may be empty, next to a sibling that is there. */
  lemma HoleSides(m: Mem, k: Ctx, t: Tree, root: Node?)
    requires RepZip(m, k, t, root) && ZipSep(k, t) && !k.Top? && Sibling(k).T?
    ensures k.n in m && m[k.n].color == k.c && root != Ref(t)
    ensures m[k.n].left == Ref(t) <==> k.InL?
    ensures k.InL? ==> m[k.n].right == k.r.n
    ensures k.InR? ==> m[k.n].left == k.l.n && m[k.n].right == Ref(t)
    ensures var w := Sibling(k);
      && w.n in m && m[w.n].color == w.c && m[w.n].left == Ref(w.l) && m[w.n].right == Ref(w.r)
      && (w.l.T? ==> w.l.n in m && m[w.l.n].color == w.l.c)
      && (w.r.T? ==> w.r.n in m && m[w.r.n].color == w.r.c)
  {
    var w := Sibling(k);
    assert Rep(m, w, if k.InL? then m[k.n].right else m[k.n].left, k.n);
    assert Rep(m, w.l, m[w.n].left, w.n) && Rep(m, w.r, m[w.n].right, w.n);
    TopNotInside(m, k, Ref(t), root);
  }

  /** What the loops need to know about the node in focus, if there is one. */
  lemma FocusFacts(m: Mem, k: Ctx, t: Tree, root: Node?)
    requires RepZip(m, k, t, root) && ZipSep(k, t)
    ensures k.Top? <==> root == Ref(t)
    ensures t.T? ==> t.n in m && m[t.n].up == Parent(k, null) && m[t.n].color == t.c
  {
    if t.T? {
      Sides(m, k, t, root);
    } else if !k.Top? {
      TopNotInside(m, k, null, root);
    }
  }

  /** Rounds the deletion loop may still take. */
  ghost function Todo(k: Ctx, t: Tree): nat {
    if ColorOf(t) == Red then 0 else Depth(k) + 1
  }

  /** Below the top, the top node is another node. */
  lemma {:induction false} TopNotInside(m: Mem, k: Ctx, hole: Node?, root: Node?)
    requires RepCtx(m, k, hole, root, null) && !k.Top?
    ensures root in CtxNodes(k)
  {
    if !k.up.Top? {
      TopNotInside(m, k.up, k.n, root);
    }
  }

  /** The links to the sibling and its colour. */
  lemma UncleColor(m: Mem, k: Ctx, t: Tree, root: Node?)
    requires RepZip(m, k, t, root) && !k.Top?
    ensures k.n in m
    ensures var y := if k.InL? then m[k.n].right else m[k.n].left;
      y == Ref(Sibling(k)) && (y != null ==> y in m && m[y].color == ColorOf(Sibling(k)))
  {
    ChildColor(m, Sibling(k), if k.InL? then m[k.n].right else m[k.n].left, k.n);
  }

  /** The colour of a linked node, black if there is none. */
  lemma ChildColor(m: Mem, t: Tree, p: Node?, up: Node?)
    requires Rep(m, t, p, up)
    ensures p != null ==> p in m && m[p].color == ColorOf(t) && t.T?
    ensures p == null ==> ColorOf(t) == Black
  {
  }

  /** A red leaf in the place of a missing node: nothing is out of order but perhaps its parent's
      colour. */
  lemma InsertStart(k: Ctx, z: Node)
    requires RB(Plug(k, Leaf))
    ensures InsertInv(k, T(Leaf, z, Red, Leaf))
    ensures Inorder(Plug(k, Leaf)) == Before(k) + After(k) && CtxNodes(k) == Nodes(Plug(k, Leaf))
  {
    PlugNodes(k, Leaf);
    PlugInorder(k, Leaf);
    PlugBal(k, Leaf);
    PlugNoRR(k, Leaf);
    PlugTop(k, Leaf);
  }

  /** The order of the tree with the new leaf, of whatever colour. */
  lemma InsertOrder(k: Ctx, z: Node, c: Color)
    ensures Inorder(Plug(k, T(Leaf, z, c, Leaf))) == Before(k) + [z] + After(k)
  {
    PlugInorder(k, T(Leaf, z, c, Leaf));
  }

  lemma InsertEnd(s: Tree, t: Tree, k: Ctx, z: Node)
    requires Inorder(s) == Before(k) + After(k) && Inorder(t) == Before(k) + [z] + After(k) && Sorted(Inorder(s))
    requires AllAtMost(Before(k), z.key) && AllAbove(After(k), z.key)
    ensures Sorted(Inorder(t)) && Nodes(t) == Nodes(s) + {z}
  {
    SortedInsert(Before(k), z, After(k));
    NodesByOrder(s, t, Before(k), z, After(k));
  }

  lemma DeleteEnd(s: Tree, t: Tree, a: seq<Node>, z: Node, b: seq<Node>)
    requires Inorder(s) == a + [z] + b && Inorder(t) == a + b && Sorted(Inorder(s))
    ensures Sorted(Inorder(t)) && Nodes(s) == Nodes(t) + {z}
    ensures |a| < |Inorder(s)| && Inorder(s)[|a|] == z
    ensures Inorder(t) == Inorder(s)[..|a|] + Inorder(s)[|a| + 1..]
  {
    SortedRemove(a, z, b);
    NodesByOrder(t, s, a, z, b);
    assert (a + [z] + b)[..|a|] == a && (a + [z] + b)[|a| + 1..] == b;
  }

  lemma MoreElements(s: seq<Node>, s': seq<Node>, a: seq<Node>, z: Node, b: seq<Node>)
    requires s == a + b && s' == a + [z] + b
    ensures Elements(s') == Elements(s) + {z}
  {
  }

  /** One more element in the order, one more node in the tree. */
  lemma NodesByOrder(t: Tree, t': Tree, a: seq<Node>, z: Node, b: seq<Node>)
    requires Inorder(t) == a + b && Inorder(t') == a + [z] + b
    ensures Nodes(t') == Nodes(t) + {z}
  {
    InorderNodes(t);
    InorderNodes(t');
    MoreElements(Inorder(t), Inorder(t'), a, z, b);
  }

  /** What taking y out writes: its only child x, if any, hangs where y hung. */
  ghost predicate SpliceWrites(m: Mem, m': Mem, k: Ctx, y: Node, x: Node?, root: Node?, root': Node?) {
    && m'.Keys == m.Keys - {y}
    && Relinked(m, m', k, x, root, root')
    && (x != null ==> x in m && x in m' && m'[x] == m[x].(up := Parent(k, null)))
    && (forall n :: n in m && n != y && n != Parent(k, null) && n != x ==> n in m' && m'[n] == m[n])
  }

  /** A node with at most one child gives its place to that child. */
  lemma SpliceZip(m: Mem, m': Mem, k: Ctx, t: Tree, xs: Tree, root: Node?, root': Node?)
    requires RepZip(m, k, t, root) && ZipSep(k, t) && t.T?
    requires (t.l.Leaf? && xs == t.r) || (t.r.Leaf? && xs == t.l)
    requires SpliceWrites(m, m', k, t.n, Ref(xs), root, root')
    ensures RepZip(m', k, xs, root') && ZipSep(k, xs)
  {
    assert !k.Top? ==> k.n in CtxNodes(k);
    assert Rep(m, xs, Ref(xs), t.n) && Sep(xs) && Nodes(xs) <= Nodes(t) && t.n !in Nodes(xs);
    RelinkCtx(m, m', k, t.n, Ref(xs), root, root');
    AdoptRep(m, m', xs, Ref(xs), t.n, Parent(k, null));
  }

  /** What putting y in the place of z writes. */
  ghost predicate ReplaceWrites(m: Mem, m': Mem, k: Ctx, z: Node, l: Node?, r: Node?, y: Node, root: Node?, root': Node?) {
    && m'.Keys == m.Keys - {z} + {y}
    && Relinked(m, m', k, y, root, root') && z in m && m'[y] == m[z]
    && (l != null ==> l in m && l in m' && m'[l] == m[l].(up := y))
    && (r != null ==> r in m && r in m' && m'[r] == m[r].(up := y))
    && (forall n :: n in m && n != z && n != Parent(k, null) && n != l && n != r ==> n in m' && m'[n] == m[n])
  }

  /** Node y takes over the place and the colour of node z. */
  lemma ReplaceZip(m: Mem, m': Mem, k: Ctx, t: Tree, y: Node, root: Node?, root': Node?)
    requires RepZip(m, k, t, root) && ZipSep(k, t) && t.T? && y !in m && y !in Nodes(t) && y !in CtxNodes(k)
    requires ReplaceWrites(m, m', k, t.n, Ref(t.l), Ref(t.r), y, root, root')
    ensures RepZip(m', k, t.(n := y), root') && ZipSep(k, t.(n := y))
  {
    assert !k.Top? ==> k.n in CtxNodes(k);
    RelinkCtx(m, m', k, t.n, y, root, root');
    AdoptRep(m, m', t.l, Ref(t.l), t.n, y);
    AdoptRep(m, m', t.r, Ref(t.r), t.n, y);
  }

  lemma OutsideZip(m: Mem, k: Ctx, t: Tree, root: Node?, y: Node)
    requires RepZip(m, k, t, root) && y !in m
    ensures y !in Nodes(t) && y !in CtxNodes(k)
  {
    PlugRep(m, k, t, root);
    RepKeys(m, Plug(k, t), root, null);
    PlugNodes(k, t);
  }

  /** The order after the successor has moved. */
  lemma MovedOrder(j: Ctx, l: Tree, y: Node, c: Color, k: Ctx, ty: Tree, r: Tree)
    requires AllLeft(j) && ty.T? && ty.l.Leaf? && ty.n == y && Plug(j, ty) == r
    ensures Inorder(Plug(Below(j, l, y, c, k), ty.r)) == (Before(k) + Inorder(l)) + (Inorder(r) + After(k))
  {
    AllLeftBefore(j);
    PlugInorder(j, ty);
    assert Inorder(ty) == [y] + Inorder(ty.r);
    assert Inorder(r) == [y] + Inorder(ty.r) + After(j);
    BelowOrder(j, l, y, c, k, ty.r);
    Cats(Before(k) + Inorder(l), [y], Inorder(ty.r), After(j), After(k));
  }

  lemma AttachZip(m: Mem, m': Mem, k: Ctx, z: Node, c: Color, root: Node?, root': Node?)
    requires RepZip(m, k, Leaf, root) && ZipSep(k, Leaf) && z !in m && z !in CtxNodes(k)
    requires Relinked(m, m', k, z, root, root') && z in m' && m'[z] == Links(Parent(k, null), null, null, c)
    requires forall n :: n in m && n != Parent(k, null) ==> n in m' && m'[n] == m[n]
    ensures RepZip(m', k, T(Leaf, z, c, Leaf), root') && ZipSep(k, T(Leaf, z, c, Leaf))
  {
    RelinkCtx(m, m', k, null, z, root, root');
  }

  class RbTree {
    var root: Node?
    ghost var mem: Mem
    ghost var shape: Tree

    /** The checks of async/itree.C:300-348, and that the ghost shape is the tree at `root`. */
    ghost predicate Valid()
      reads this, mem.Keys
    {
      && Agree() && Rep(mem, shape, root, null) && Sep(shape) && mem.Keys == Nodes(shape)
      && RB(shape) && Sorted(Inorder(shape))
    }

    constructor ()
      ensures Valid() && shape == Leaf
    {
      root, mem, shape := null, map[], Leaf;
    }

    /** `mem` records the links as they are. */
    ghost predicate Agree()
      reads this, mem.Keys
    {
      forall n :: n in mem ==> mem[n] == Links(n.up, n.left, n.right, n.color)
    }

    ghost function Snapshot(ns: set<Node>): Mem
      reads ns
    {
      map n | n in ns :: Links(n.up, n.left, n.right, n.color)
    }

    method LeftRotateLinks(x: Node, ghost k: Ctx, ghost y: Node, ghost w: Node?)
      requires Agree() && x in mem && y in mem && mem[x].right == y && mem[y].left == w
      requires Holds(mem, k, x, root) && mem[x].up == Parent(k, null)
      requires x != y && w !in {x, y} && (w != null ==> w in mem)
      requires Parent(k, null) !in {x, y} && (w != null ==> Parent(k, null) != w)
      modifies this, mem.Keys
      ensures Agree()
      ensures RotateWrites(old(mem), mem, k, x, y, w, old(root), root,
                           old(mem[x]).(right := w), old(mem[y]).(left := x))
    {
      var y := x.right;
      x.right := y.left;
      if x.right != null {
        y.left.up := x;
      }
      y.up := x.up;
      if x.up == null {
        root := y;
      } else if x == x.up.left {
        x.up.left := y;
      } else {
        x.up.right := y;
      }
      y.left := x;
      x.up := y;
      mem := Snapshot(mem.Keys);
    }

    method RightRotateLinks(y: Node, ghost k: Ctx, ghost x: Node, ghost w: Node?)
      requires Agree() && x in mem && y in mem && mem[y].left == x && mem[x].right == w
      requires Holds(mem, k, y, root) && mem[y].up == Parent(k, null)
      requires x != y && w !in {x, y} && (w != null ==> w in mem)
      requires Parent(k, null) !in {x, y} && (w != null ==> Parent(k, null) != w)
      modifies this, mem.Keys
      ensures Agree()
      ensures RotateWrites(old(mem), mem, k, y, x, w, old(root), root,
                           old(mem[y]).(left := w), old(mem[x]).(right := y))
    {
      var x := y.left;
      y.left := x.right;
      if y.left != null {
        x.right.up := y;
      }
      x.up := y.up;
      if y.up == null {
        root := x;
      } else if y == y.up.right {
        y.up.right := x;
      } else {
        y.up.left := x;
      }
      x.right := y;
      y.up := x;
      mem := Snapshot(mem.Keys);
    }

    /** Turn x's right child y into x's parent; async/itree.C:46-61. */
    method LeftRotate(x: Node, ghost k: Ctx, ghost a: Tree, ghost cx: Color,
                      ghost b: Tree, ghost y: Node, ghost cy: Color, ghost c: Tree)
      requires Agree() && RepZip(mem, k, T(a, x, cx, T(b, y, cy, c)), root)
      requires ZipSep(k, T(a, x, cx, T(b, y, cy, c)))
      modifies this, mem.Keys
      ensures Agree() && mem.Keys == old(mem).Keys
      ensures RepZip(mem, k, T(T(a, x, cx, b), y, cy, c), root)
      ensures ZipSep(k, T(T(a, x, cx, b), y, cy, c))
      ensures Inorder(Plug(k, T(T(a, x, cx, b), y, cy, c))) == Inorder(Plug(k, T(a, x, cx, T(b, y, cy, c))))
    {
      RotateInorder(k, a, x, cx, b, y, cy, c);
      RotateSep(k, a, x, cx, b, y, cy, c);
      HoldsRef(mem, k, x, root);
      assert Rep(mem, T(b, y, cy, c), mem[x].right, x) && Rep(mem, b, mem[y].left, y);
      ghost var m, r := mem, root;
      LeftRotateLinks(x, k, y, Ref(b));
      LeftRotated(m, mem, k, a, x, cx, b, y, cy, c, r, root);
    }

    /** Turn y's left child x into y's parent; async/itree.C:63-78. */
    method RightRotate(y: Node, ghost k: Ctx, ghost a: Tree, ghost x: Node, ghost cx: Color,
                       ghost b: Tree, ghost cy: Color, ghost c: Tree)
      requires Agree() && RepZip(mem, k, T(T(a, x, cx, b), y, cy, c), root)
      requires ZipSep(k, T(T(a, x, cx, b), y, cy, c))
      modifies this, mem.Keys
      ensures Agree() && mem.Keys == old(mem).Keys
      ensures RepZip(mem, k, T(a, x, cx, T(b, y, cy, c)), root)
      ensures ZipSep(k, T(a, x, cx, T(b, y, cy, c)))
      ensures Inorder(Plug(k, T(a, x, cx, T(b, y, cy, c)))) == Inorder(Plug(k, T(T(a, x, cx, b), y, cy, c)))
    {
      RotateInorder(k, a, x, cx, b, y, cy, c);
      RotateSep(k, a, x, cx, b, y, cy, c);
      HoldsRef(mem, k, y, root);
      assert Rep(mem, T(a, x, cx, b), mem[y].left, y) && Rep(mem, b, mem[x].right, x);
      ghost var m, r := mem, root;
      RightRotateLinks(y, k, x, Ref(b));
      RightRotated(m, mem, k, a, x, cx, b, y, cy, c, r, root);
    }

    method Paint(n: Node, c: Color, ghost k: Ctx, ghost t: Tree)
      requires Agree() && RepZip(mem, k, t, root) && ZipSep(k, t) && t.T? && t.n == n
      modifies this`mem, n`color
      ensures Agree() && mem.Keys == old(mem).Keys
      ensures RepZip(mem, k, t.(c := c), root) && ZipSep(k, t.(c := c))
      ensures Inorder(Plug(k, t.(c := c))) == Inorder(Plug(k, t))
    {
      PaintInorder(k, t, c);
      PaintZip(mem, k, t, c, root);
      n.color := c;
      mem := mem[n := mem[n].(color := c)];
    }

    /** Red uncle y: recolour the parent p, y and the grandparent gp. */
    method FixPush(p: Node, y: Node, gp: Node, ghost k: Ctx, ghost t: Tree)
      returns (ghost k': Ctx, ghost t': Tree)
      requires Agree() && RepZip(mem, k, t, root) && ZipSep(k, t) && InsertInv(k, t)
      requires !k.Top? && k.c == Red && !k.up.Top? && Sibling(k.up).T? && Sibling(k.up).c == Red
      requires p == k.n && gp == k.up.n && y == Sibling(k.up).n
      modifies this, mem.Keys
      ensures Agree() && mem.Keys == old(mem).Keys
      ensures RepZip(mem, k', t', root) && ZipSep(k', t') && InsertInv(k', t') && t'.n == gp
      ensures Inorder(Plug(k', t')) == Inorder(Plug(k, t)) && Depth(k') < Depth(k)
    {
      PushInv(k, t);
      ghost var tp := OneUp(k, t);
      ghost var ty := Sibling(k.up);
      Refocus(mem, k, t, k.up, tp, root);
      Paint(p, Black, k.up, tp);
      tp := tp.(c := Black);
      ghost var ky := Across(k.up, tp);
      Refocus(mem, k.up, tp, ky, ty, root);
      Paint(y, Black, ky, ty);
      ty := ty.(c := Black);
      ghost var tg := OneUp(ky, ty);
      Refocus(mem, ky, ty, k.up.up, tg, root);
      Paint(gp, Red, k.up.up, tg);
      k', t' := k.up.up, tg.(c := Red);
    }

    /** Inner grandchild x of gp below its left child p: rotate p down. */
    method FixInnerLeft(p: Node, ghost k: Ctx, ghost t: Tree)
      returns (ghost k': Ctx, ghost t': Tree)
      requires Agree() && RepZip(mem, k, t, root) && ZipSep(k, t) && InsertInv(k, t)
      requires k.InR? && k.c == Red && k.n == p && !k.up.Top?
      modifies this, mem.Keys
      ensures Agree() && mem.Keys == old(mem).Keys
      ensures RepZip(mem, k', t', root) && ZipSep(k', t') && InsertInv(k', t') && t'.n == p
      ensures k'.InL? && k'.c == Red && k'.up == k.up
      ensures Inorder(Plug(k', t')) == Inorder(Plug(k, t))
    {
      InnerLeftInv(k.l, p, k.up, t.l, t.n, t.r);
      Refocus(mem, k, t, k.up, OneUp(k, t), root);
      LeftRotate(p, k.up, k.l, Red, t.l, t.n, Red, t.r);
      k', t' := InL(t.n, Red, t.r, k.up), T(k.l, p, Red, t.l);
      Refocus(mem, k.up, OneUp(k', t'), k', t', root);
    }

    method FixInnerRight(p: Node, ghost k: Ctx, ghost t: Tree)
      returns (ghost k': Ctx, ghost t': Tree)
      requires Agree() && RepZip(mem, k, t, root) && ZipSep(k, t) && InsertInv(k, t)
      requires k.InL? && k.c == Red && k.n == p && !k.up.Top?
      modifies this, mem.Keys
      ensures Agree() && mem.Keys == old(mem).Keys
      ensures RepZip(mem, k', t', root) && ZipSep(k', t') && InsertInv(k', t') && t'.n == p
      ensures k'.InR? && k'.c == Red && k'.up == k.up
      ensures Inorder(Plug(k', t')) == Inorder(Plug(k, t))
    {
      InnerRightInv(k.r, p, k.up, t.l, t.n, t.r);
      Refocus(mem, k, t, k.up, OneUp(k, t), root);
      RightRotate(p, k.up, t.l, t.n, Red, t.r, Red, k.r);
      k', t' := InR(t.l, t.n, Red, k.up), T(t.r, p, Red, k.r);
      Refocus(mem, k.up, OneUp(k', t'), k', t', root);
    }

    /** Outer grandchild of gp below its left child q, black uncle: rotate gp down. */
    method FixOuterLeft(q: Node, gp: Node, ghost k: Ctx, ghost t: Tree)
      returns (ghost k': Ctx)
      requires Agree() && RepZip(mem, k, t, root) && ZipSep(k, t) && InsertInv(k, t)
      requires k.InL? && k.c == Red && k.n == q && k.up.InL? && k.up.n == gp && ColorOf(k.up.r) == Black
      modifies this, mem.Keys
      ensures Agree() && mem.Keys == old(mem).Keys
      ensures RepZip(mem, k', t, root) && ZipSep(k', t) && InsertInv(k', t)
      ensures Inorder(Plug(k', t)) == Inorder(Plug(k, t)) && Depth(k') < Depth(k)
    {
      RedParent(k, t);
      ghost var u, s, up := k.r, k.up.r, k.up.up;
      OuterLeftInv(q, u, gp, s, up, t);
      ghost var tq := OneUp(k, t);
      Refocus(mem, k, t, k.up, tq, root);
      Paint(q, Black, k.up, tq);
      tq := tq.(c := Black);
      ghost var tg := OneUp(k.up, tq);
      Refocus(mem, k.up, tq, up, tg, root);
      Paint(gp, Red, up, tg);
      RightRotate(gp, up, t, q, Black, u, Red, s);
      k' := InL(q, Black, T(u, gp, Red, s), up);
      Refocus(mem, up, OneUp(k', t), k', t, root);
    }

    method FixOuterRight(q: Node, gp: Node, ghost k: Ctx, ghost t: Tree)
      returns (ghost k': Ctx)
      requires Agree() && RepZip(mem, k, t, root) && ZipSep(k, t) && InsertInv(k, t)
      requires k.InR? && k.c == Red && k.n == q && k.up.InR? && k.up.n == gp && ColorOf(k.up.l) == Black
      modifies this, mem.Keys
      ensures Agree() && mem.Keys == old(mem).Keys
      ensures RepZip(mem, k', t, root) && ZipSep(k', t) && InsertInv(k', t)
      ensures Inorder(Plug(k', t)) == Inorder(Plug(k, t)) && Depth(k') < Depth(k)
    {
      RedParent(k, t);
      ghost var u, s, up := k.l, k.up.l, k.up.up;
      OuterRightInv(q, u, gp, s, up, t);
      ghost var tq := OneUp(k, t);
      Refocus(mem, k, t, k.up, tq, root);
      Paint(q, Black, k.up, tq);
      tq := tq.(c := Black);
      ghost var tg := OneUp(k.up, tq);
      Refocus(mem, k.up, tq, up, tg, root);
      Paint(gp, Red, up, tg);
      LeftRotate(gp, up, s, Red, u, q, Black, t);
      k' := InR(T(s, gp, Red, u), q, Black, up);
      Refocus(mem, up, OneUp(k', t), k', t, root);
    }

    /** Black uncle, and the parent is gp's left child: one or two rotations. */
    method FixLeft(x0: Node, ghost k0: Ctx, ghost t0: Tree)
      returns (x: Node, ghost k: Ctx, ghost t: Tree)
      requires Agree() && RepZip(mem, k0, t0, root) && ZipSep(k0, t0) && InsertInv(k0, t0) && t0.n == x0
      requires !k0.Top? && k0.c == Red && k0.up.InL? && ColorOf(Sibling(k0.up)) == Black
      modifies this, mem.Keys
      ensures Agree() && mem.Keys == old(mem).Keys
      ensures RepZip(mem, k, t, root) && ZipSep(k, t) && InsertInv(k, t) && t.n == x
      ensures Inorder(Plug(k, t)) == Inorder(Plug(k0, t0)) && Depth(k) < Depth(k0)
    {
      x, k, t := x0, k0, t0;
      Sides(mem, k, t, root);
      if x == x.up.right {
        x := x.up;
        k, t := FixInnerLeft(x, k, t);
        Sides(mem, k, t, root);
      }
      Refocus(mem, k, t, k.up, OneUp(k, t), root);
      Sides(mem, k.up, OneUp(k, t), root);
      k := FixOuterLeft(x.up, x.up.up, k, t);
    }

    /** Black uncle, and the parent is gp's right child: one or two rotations. */
    method FixRight(x0: Node, ghost k0: Ctx, ghost t0: Tree)
      returns (x: Node, ghost k: Ctx, ghost t: Tree)
      requires Agree() && RepZip(mem, k0, t0, root) && ZipSep(k0, t0) && InsertInv(k0, t0) && t0.n == x0
      requires !k0.Top? && k0.c == Red && k0.up.InR? && ColorOf(Sibling(k0.up)) == Black
      modifies this, mem.Keys
      ensures Agree() && mem.Keys == old(mem).Keys
      ensures RepZip(mem, k, t, root) && ZipSep(k, t) && InsertInv(k, t) && t.n == x
      ensures Inorder(Plug(k, t)) == Inorder(Plug(k0, t0)) && Depth(k) < Depth(k0)
    {
      x, k, t := x0, k0, t0;
      Sides(mem, k, t, root);
      if x == x.up.left {
        x := x.up;
        k, t := FixInnerRight(x, k, t);
        Sides(mem, k, t, root);
      }
      Refocus(mem, k, t, k.up, OneUp(k, t), root);
      Sides(mem, k.up, OneUp(k, t), root);
      k := FixOuterRight(x.up, x.up.up, k, t);
    }

    /** One round of the loop, for a red parent. */
    method InsertFixStep(x0: Node, ghost k0: Ctx, ghost t0: Tree)
      returns (x: Node, ghost k: Ctx, ghost t: Tree)
      requires Agree() && RepZip(mem, k0, t0, root) && ZipSep(k0, t0) && InsertInv(k0, t0) && t0.n == x0
      requires !k0.Top? && k0.c == Red && !k0.up.Top?
      modifies this, mem.Keys
      ensures Agree() && mem.Keys == old(mem).Keys
      ensures RepZip(mem, k, t, root) && ZipSep(k, t) && InsertInv(k, t) && t.n == x
      ensures Inorder(Plug(k, t)) == Inorder(Plug(k0, t0)) && Depth(k) < Depth(k0)
    {
      x, k, t := x0, k0, t0;
      Sides(mem, k, t, root);
      Refocus(mem, k, t, k.up, OneUp(k, t), root);
      Sides(mem, k.up, OneUp(k, t), root);
      UncleColor(mem, k.up, OneUp(k, t), root);
      var gp := x.up.up;
      if x.up == gp.left {
        var y := gp.right;
        if y != null && y.color == Red {
          k, t := FixPush(x.up, y, gp, k, t);
          x := gp;
        } else {
          x, k, t := FixLeft(x, k, t);
        }
      } else {
        var y := gp.left;
        if y != null && y.color == Red {
          k, t := FixPush(x.up, y, gp, k, t);
          x := gp;
        } else {
          x, k, t := FixRight(x, k, t);
        }
      }
    }

    /** async/itree.C:83-129. */
    method InsertFix(x0: Node, ghost k0: Ctx, ghost t0: Tree) returns (ghost shape: Tree)
      requires Agree() && RepZip(mem, k0, t0, root) && ZipSep(k0, t0)
      requires t0.T? && t0.n == x0 && InsertInv(k0, t0.(c := Red))
      modifies this, mem.Keys
      ensures Agree() && mem.Keys == old(mem).Keys
      ensures Rep(mem, shape, root, null) && Sep(shape) && RB(shape)
      ensures Inorder(shape) == Inorder(Plug(k0, t0))
    {
      var x := x0;
      Paint(x, Red, k0, t0);
      ghost var k, t := k0, t0.(c := Red);
      Sides(mem, k, t, root);
      while x.up != null && x.up.color == Red
        invariant Agree() && mem.Keys == old(mem).Keys
        invariant RepZip(mem, k, t, root) && ZipSep(k, t) && InsertInv(k, t) && t.n == x
        invariant x in mem && x.up == Parent(k, null) && (!k.Top? ==> k.n in mem && k.n.color == k.c)
        invariant Inorder(Plug(k, t)) == Inorder(Plug(k0, t0))
        decreases Depth(k)
      {
        RedParent(k, t);
        x, k, t := InsertFixStep(x, k, t);
        Sides(mem, k, t, root);
      }
      InsertDone(k, t);
      ghost var whole := Plug(k, t);
      Refocus(mem, k, t, Top, whole, root);
      PlugShape(k, t);
      Paint(root, Black, Top, whole);
      shape := Blacken(whole);
    }

    /** z becomes the node at the hole of k, below y; async/itree.C:143-149. */
    method Attach(z: Node, y: Node?, goLeft: bool, ghost k: Ctx) returns (ghost c: Color)
      requires Agree() && RepZip(mem, k, Leaf, root) && ZipSep(k, Leaf) && z !in mem && CtxNodes(k) <= mem.Keys
      requires y == Parent(k, null) && (goLeft <==> k.InL?) && z.left == null && z.right == null
      modifies this`root, this`mem, mem.Keys, z
      ensures Agree() && mem.Keys == old(mem).Keys + {z}
      ensures RepZip(mem, k, T(Leaf, z, c, Leaf), root) && ZipSep(k, T(Leaf, z, c, Leaf))
    {
      ghost var m, r := mem, root;
      z.up := y;
      if y == null {
        root := z;
      } else if goLeft {
        y.left := z;
      } else {
        y.right := z;
      }
      mem := Snapshot(mem.Keys + {z});
      c := z.color;
      AttachZip(m, mem, k, z, c, r, root);
    }

    /** The search has ended at the hole of k: attach z there and restore the balance. */
    method InsertFinish(z: Node, y: Node?, goLeft: bool, ghost k: Ctx)
      requires Valid() && z !in Nodes(shape)
      requires RepZip(mem, k, Leaf, root) && ZipSep(k, Leaf) && Plug(k, Leaf) == shape
      requires AllAtMost(Before(k), z.key) && AllAbove(After(k), z.key)
      requires y == Parent(k, null) && (goLeft <==> k.InL?) && z.left == null && z.right == null
      modifies this, mem.Keys, z
      ensures Valid() && Nodes(shape) == old(Nodes(shape)) + {z}
      ensures Inorder(shape) == Before(k) + [z] + After(k) && old(Inorder(shape)) == Before(k) + After(k)
    {
      ghost var s := shape;
      InsertStart(k, z);
      ghost var c := Attach(z, y, goLeft, k);
      ghost var t := InsertFix(z, k, T(Leaf, z, c, Leaf));
      InsertOrder(k, z, c);
      InsertEnd(s, t, k, z);
      shape := t;
    }

    /** The search loop of async/itree.C:138-142: the empty link after every element that
        compares less than or equal to the key. */
    method FindSlot(key: int) returns (y: Node?, goLeft: bool, ghost k: Ctx)
      requires Valid()
      ensures RepZip(mem, k, Leaf, root) && ZipSep(k, Leaf) && Plug(k, Leaf) == shape
      ensures AllAtMost(Before(k), key) && AllAbove(After(k), key)
      ensures y == Parent(k, null) && (goLeft <==> k.InL?)
    {
      y := null;
      var x := root;
      var cmpres := 0;
      ghost var t := shape;
      k := Top;
      while x != null
        invariant RepZip(mem, k, t, root) && ZipSep(k, t) && Plug(k, t) == shape
        invariant x == Ref(t) && y == Parent(k, null) && (cmpres < 0 <==> k.InL?)
        invariant AllAtMost(Before(k), key) && AllAbove(After(k), key)
        decreases t
      {
        Sides(mem, k, t, root);
        AroundFocus(k, t);
        y := x;
        cmpres := key - x.key;
        if cmpres < 0 {
          x := x.left;
          Refocus(mem, k, t, InL(t.n, t.c, t.r, k), t.l, root);
          k, t := InL(t.n, t.c, t.r, k), t.l;
        } else {
          x := x.right;
          Refocus(mem, k, t, InR(t.l, t.n, t.c, k), t.r, root);
          k, t := InR(t.l, t.n, t.c, k), t.r;
        }
      }
      goLeft := cmpres < 0;
    }

    /** async/itree.C:131-151: z goes after every element that is at most z. */
    method Insert(z: Node) returns (ghost pos: nat)
      requires Valid() && z !in Nodes(shape)
      modifies this, mem.Keys, z
      ensures Valid() && Nodes(shape) == old(Nodes(shape)) + {z}
      ensures pos <= |old(Inorder(shape))|
      ensures Inorder(shape) == old(Inorder(shape))[..pos] + [z] + old(Inorder(shape))[pos..]
      ensures AllAtMost(old(Inorder(shape))[..pos], z.key) && AllAbove(old(Inorder(shape))[pos..], z.key)
    {
      z.left := null;
      z.right := null;
      ghost var k;
      var y, goLeft;
      y, goLeft, k := FindSlot(z.key);
      InsertFinish(z, y, goLeft, k);
      pos := |Before(k)|;
      assert (Before(k) + After(k))[..pos] == Before(k) && (Before(k) + After(k))[pos..] == After(k);
    }

    /** Red sibling w of the left child of p: rotate p down. */
    method UnredSiblingLeft(p: Node, wn: Node, ghost k: Ctx, ghost t: Tree) returns (ghost k': Ctx)
      requires Agree() && RepZip(mem, k, t, root) && ZipSep(k, t) && DeleteInv(k, t)
      requires k.InL? && k.n == p && k.r.T? && k.r.c == Red && k.r.n == wn
      modifies this, mem.Keys
      ensures Agree() && mem.Keys == old(mem).Keys
      ensures RepZip(mem, k', t, root) && ZipSep(k', t) && DeleteInv(k', t)
      ensures k'.InL? && k'.n == p && k'.c == Red && ColorOf(Sibling(k')) == Black && k'.up.up == k.up && !k'.up.Top?
      ensures Inorder(Plug(k', t)) == Inorder(Plug(k, t))
    {
      ghost var w, up := k.r, k.up;
      RedSiblingLeft(p, k.c, w.l, w.n, w.r, up, t);
      ghost var kw := Across(k, t);
      Refocus(mem, k, t, kw, w, root);
      Paint(wn, Black, kw, w);
      ghost var tp := OneUp(kw, w.(c := Black));
      Refocus(mem, kw, w.(c := Black), up, tp, root);
      Paint(p, Red, up, tp);
      LeftRotate(p, up, t, Red, w.l, w.n, Black, w.r);
      k' := InL(p, Red, w.l, InL(w.n, Black, w.r, up));
      Refocus(mem, up, OneUp(k'.up, OneUp(k', t)), k', t, root);
    }

    /** Black sibling w, black outer nephew, red inner nephew v: rotate w down. */
    method InnerToOuterLeft(wn: Node, vn: Node, ghost k: Ctx, ghost t: Tree) returns (ghost k': Ctx)
      requires Agree() && RepZip(mem, k, t, root) && ZipSep(k, t) && DeleteInv(k, t)
      requires k.InL? && k.r.T? && k.r.c == Black && k.r.n == wn
      requires var w := k.r; ColorOf(w.r) == Black && w.l.T? && w.l.c == Red && w.l.n == vn
      modifies this, mem.Keys
      ensures Agree() && mem.Keys == old(mem).Keys
      ensures RepZip(mem, k', t, root) && ZipSep(k', t) && DeleteInv(k', t)
      ensures k'.InL? && k'.n == k.n && k'.c == k.c && k'.up == k.up
      ensures var w := Sibling(k'); w.T? && w.c == Black && ColorOf(w.r) == Red && w.n == vn
      ensures Inorder(Plug(k', t)) == Inorder(Plug(k, t))
    {
      ghost var w := k.r;
      ghost var v := w.l;
      InnerNephewLeft(k.n, k.c, v.l, v.n, v.r, wn, w.r, k.up, t);
      ghost var kw := Across(k, t);
      ghost var kv := InL(wn, Black, w.r, kw);
      Refocus(mem, k, t, kv, v, root);
      Paint(vn, Black, kv, v);
      ghost var tw := OneUp(kv, v.(c := Black));
      Refocus(mem, kv, v.(c := Black), kw, tw, root);
      Paint(wn, Red, kw, tw);
      RightRotate(wn, kw, v.l, v.n, Black, v.r, Red, w.r);
      k' := Reframe(k, k.c, T(v.l, v.n, Black, T(v.r, wn, Red, w.r)));
      Refocus(mem, kw, T(v.l, v.n, Black, T(v.r, wn, Red, w.r)), k', t, root);
    }

    /** Black sibling w with a red outer nephew: rotate p down and stop. */
    method OuterStopLeft(p: Node, wn: Node, fn: Node, ghost k: Ctx, ghost t: Tree) returns (ghost whole: Tree)
      requires Agree() && RepZip(mem, k, t, root) && ZipSep(k, t) && DeleteInv(k, t) && ColorOf(t) == Black
      requires k.InL? && k.n == p && p.color == k.c && k.r.T? && k.r.c == Black && k.r.n == wn
      requires var w := k.r; w.r.T? && w.r.c == Red && w.r.n == fn
      modifies this, mem.Keys
      ensures Agree() && mem.Keys == old(mem).Keys
      ensures RepZip(mem, Top, whole, root) && ZipSep(Top, whole) && RB(whole) && whole.T?
      ensures Inorder(whole) == Inorder(Plug(k, t))
    {
      ghost var w, up := k.r, k.up;
      OuterNephewLeft(p, k.c, w.l, wn, w.r, up, t);
      ghost var kw := Across(k, t);
      Refocus(mem, k, t, kw, w, root);
      Paint(wn, p.color, kw, w);
      ghost var tp := OneUp(kw, w.(c := k.c));
      Refocus(mem, kw, w.(c := k.c), up, tp, root);
      Paint(p, Black, up, tp);
      kw := Reframe(kw, Black, t);
      ghost var kf := InR(w.l, wn, k.c, kw);
      Refocus(mem, up, tp.(c := Black), kf, w.r, root);
      Paint(fn, Black, kf, w.r);
      Refocus(mem, kf, Blacken(w.r), up, OneUp(kw, OneUp(kf, Blacken(w.r))), root);
      LeftRotate(p, up, t, Black, w.l, wn, k.c, Blacken(w.r));
      ghost var u := T(T(t, p, Black, w.l), wn, k.c, Blacken(w.r));
      whole := Plug(up, u);
      PlugShape(up, u);
      Refocus(mem, up, u, Top, whole, root);
    }

    /** Red sibling w of the right child of p: rotate p down. */
    method UnredSiblingRight(p: Node, wn: Node, ghost k: Ctx, ghost t: Tree) returns (ghost k': Ctx)
      requires Agree() && RepZip(mem, k, t, root) && ZipSep(k, t) && DeleteInv(k, t)
      requires k.InR? && k.n == p && k.l.T? && k.l.c == Red && k.l.n == wn
      modifies this, mem.Keys
      ensures Agree() && mem.Keys == old(mem).Keys
      ensures RepZip(mem, k', t, root) && ZipSep(k', t) && DeleteInv(k', t)
      ensures k'.InR? && k'.n == p && k'.c == Red && ColorOf(Sibling(k')) == Black && k'.up.up == k.up && !k'.up.Top?
      ensures Inorder(Plug(k', t)) == Inorder(Plug(k, t))
    {
      ghost var w, up := k.l, k.up;
      RedSiblingRight(p, k.c, w.l, w.n, w.r, up, t);
      ghost var kw := Across(k, t);
      Refocus(mem, k, t, kw, w, root);
      Paint(wn, Black, kw, w);
      ghost var tp := OneUp(kw, w.(c := Black));
      Refocus(mem, kw, w.(c := Black), up, tp, root);
      Paint(p, Red, up, tp);
      RightRotate(p, up, w.l, w.n, Black, w.r, Red, t);
      k' := InR(w.r, p, Red, InR(w.l, w.n, Black, up));
      Refocus(mem, up, OneUp(k'.up, OneUp(k', t)), k', t, root);
    }

    /** Black sibling w, black outer nephew, red inner nephew v: rotate w down. */
    method InnerToOuterRight(wn: Node, vn: Node, ghost k: Ctx, ghost t: Tree) returns (ghost k': Ctx)
      requires Agree() && RepZip(mem, k, t, root) && ZipSep(k, t) && DeleteInv(k, t)
      requires k.InR? && k.l.T? && k.l.c == Black && k.l.n == wn
      requires var w := k.l; ColorOf(w.l) == Black && w.r.T? && w.r.c == Red && w.r.n == vn
      modifies this, mem.Keys
      ensures Agree() && mem.Keys == old(mem).Keys
      ensures RepZip(mem, k', t, root) && ZipSep(k', t) && DeleteInv(k', t)
      ensures k'.InR? && k'.n == k.n && k'.c == k.c && k'.up == k.up
      ensures var w := Sibling(k'); w.T? && w.c == Black && ColorOf(w.l) == Red && w.n == vn
      ensures Inorder(Plug(k', t)) == Inorder(Plug(k, t))
    {
      ghost var w := k.l;
      ghost var v := w.r;
      InnerNephewRight(k.n, k.c, w.l, wn, v.l, v.n, v.r, k.up, t);
      ghost var kw := Across(k, t);
      ghost var kv := InR(w.l, wn, Black, kw);
      Refocus(mem, k, t, kv, v, root);
      Paint(vn, Black, kv, v);
      ghost var tw := OneUp(kv, v.(c := Black));
      Refocus(mem, kv, v.(c := Black), kw, tw, root);
      Paint(wn, Red, kw, tw);
      LeftRotate(wn, kw, w.l, Red, v.l, v.n, Black, v.r);
      k' := Reframe(k, k.c, T(T(w.l, wn, Red, v.l), v.n, Black, v.r));
      Refocus(mem, kw, T(T(w.l, wn, Red, v.l), v.n, Black, v.r), k', t, root);
    }

    /** Black sibling w with a red outer nephew: rotate p down and stop. */
    method OuterStopRight(p: Node, wn: Node, fn: Node, ghost k: Ctx, ghost t: Tree) returns (ghost whole: Tree)
      requires Agree() && RepZip(mem, k, t, root) && ZipSep(k, t) && DeleteInv(k, t) && ColorOf(t) == Black
      requires k.InR? && k.n == p && p.color == k.c && k.l.T? && k.l.c == Black && k.l.n == wn
      requires var w := k.l; w.l.T? && w.l.c == Red && w.l.n == fn
      modifies this, mem.Keys
      ensures Agree() && mem.Keys == old(mem).Keys
      ensures RepZip(mem, Top, whole, root) && ZipSep(Top, whole) && RB(whole) && whole.T?
      ensures Inorder(whole) == Inorder(Plug(k, t))
    {
      ghost var w, up := k.l, k.up;
      OuterNephewRight(p, k.c, w.l, wn, w.r, up, t);
      ghost var kw := Across(k, t);
      Refocus(mem, k, t, kw, w, root);
      Paint(wn, p.color, kw, w);
      ghost var tp := OneUp(kw, w.(c := k.c));
      Refocus(mem, kw, w.(c := k.c), up, tp, root);
      Paint(p, Black, up, tp);
      kw := Reframe(kw, Black, t);
      ghost var kf := InL(wn, k.c, w.r, kw);
      Refocus(mem, up, tp.(c := Black), kf, w.l, root);
      Paint(fn, Black, kf, w.l);
      Refocus(mem, kf, Blacken(w.l), up, OneUp(kw, OneUp(kf, Blacken(w.l))), root);
      RightRotate(p, up, Blacken(w.l), wn, k.c, w.r, Black, t);
      ghost var u := T(Blacken(w.l), wn, k.c, T(w.r, p, Black, t));
      whole := Plug(up, u);
      PlugShape(up, u);
      Refocus(mem, up, u, Top, whole, root);
    }

    /** Black sibling with black children turns red. */
    method PullUp(wn: Node, ghost k: Ctx, ghost t: Tree) returns (ghost t': Tree)
      requires Agree() && RepZip(mem, k, t, root) && ZipSep(k, t) && DeleteInv(k, t) && ColorOf(t) == Black
      requires !k.Top? && Sibling(k).T? && Sibling(k).n == wn && Sibling(k).c == Black
      requires ColorOf(Sibling(k).l) == Black && ColorOf(Sibling(k).r) == Black
      modifies this, mem.Keys
      ensures Agree() && mem.Keys == old(mem).Keys
      ensures RepZip(mem, k.up, t', root) && ZipSep(k.up, t') && DeleteInv(k.up, t')
      ensures t'.T? && t'.n == k.n && t'.c == k.c
      ensures Inorder(Plug(k.up, t')) == Inorder(Plug(k, t))
    {
      PullInv(k, t);
      ghost var w, kw := Sibling(k), Across(k, t);
      Refocus(mem, k, t, kw, w, root);
      Paint(wn, Red, kw, w);
      t' := OneUp(kw, w.(c := Red));
      Refocus(mem, kw, w.(c := Red), k.up, t', root);
    }

    /** One round of the loop for a left child of p whose sibling is black. */
    method BlackSiblingLeft(p: Node, ghost k0: Ctx, ghost t0: Tree)
      returns (x: Node?, ghost k: Ctx, ghost t: Tree)
      requires Agree() && RepZip(mem, k0, t0, root) && ZipSep(k0, t0) && DeleteInv(k0, t0)
      requires ColorOf(t0) == Black && k0.InL? && k0.n == p && ColorOf(Sibling(k0)) == Black
      modifies this, mem.Keys
      ensures Agree() && mem.Keys == old(mem).Keys
      ensures RepZip(mem, k, t, root) && ZipSep(k, t) && DeleteInv(k, t) && x == Ref(t) && t.T?
      ensures Inorder(Plug(k, t)) == Inorder(Plug(k0, t0))
      ensures k.Top? || (k == k0.up && t.c == k0.c)
    {
      k, t := k0, t0;
      SiblingExists(k, t);
      HoleSides(mem, k, t, root);
      var w := p.right;
      if (w.left == null || w.left.color == Black) && (w.right == null || w.right.color == Black) {
        t := PullUp(w, k, t);
        k := k.up;
        x := p;
      } else {
        if w.right == null || w.right.color == Black {
          k := InnerToOuterLeft(w, w.left, k, t);
          HoleSides(mem, k, t, root);
          w := p.right;
        }
        t := OuterStopLeft(p, w, w.right, k, t);
        k := Top;
        x := root;
        DoneInv(t);
      }
    }

    /** One round of the loop for a left child of p. */
    method DeleteStepLeft(p: Node, ghost k0: Ctx, ghost t0: Tree)
      returns (x: Node?, ghost k: Ctx, ghost t: Tree)
      requires Agree() && RepZip(mem, k0, t0, root) && ZipSep(k0, t0) && DeleteInv(k0, t0)
      requires ColorOf(t0) == Black && k0.InL? && k0.n == p
      modifies this, mem.Keys
      ensures Agree() && mem.Keys == old(mem).Keys
      ensures RepZip(mem, k, t, root) && ZipSep(k, t) && DeleteInv(k, t) && x == Ref(t) && t.T?
      ensures Inorder(Plug(k, t)) == Inorder(Plug(k0, t0)) && Todo(k, t) < Todo(k0, t0)
    {
      k, t := k0, t0;
      SiblingExists(k, t);
      HoleSides(mem, k, t, root);
      var w := p.right;
      if w.color == Red {
        k := UnredSiblingLeft(p, w, k, t);
      }
      x, k, t := BlackSiblingLeft(p, k, t);
    }

    /** One round of the loop for a right child of p whose sibling is black. */
    method BlackSiblingRight(p: Node, ghost k0: Ctx, ghost t0: Tree)
      returns (x: Node?, ghost k: Ctx, ghost t: Tree)
      requires Agree() && RepZip(mem, k0, t0, root) && ZipSep(k0, t0) && DeleteInv(k0, t0)
      requires ColorOf(t0) == Black && k0.InR? && k0.n == p && ColorOf(Sibling(k0)) == Black
      modifies this, mem.Keys
      ensures Agree() && mem.Keys == old(mem).Keys
      ensures RepZip(mem, k, t, root) && ZipSep(k, t) && DeleteInv(k, t) && x == Ref(t) && t.T?
      ensures Inorder(Plug(k, t)) == Inorder(Plug(k0, t0))
      ensures k.Top? || (k == k0.up && t.c == k0.c)
    {
      k, t := k0, t0;
      SiblingExists(k, t);
      HoleSides(mem, k, t, root);
      var w := p.left;
      if (w.right == null || w.right.color == Black) && (w.left == null || w.left.color == Black) {
        t := PullUp(w, k, t);
        k := k.up;
        x := p;
      } else {
        if w.left == null || w.left.color == Black {
          k := InnerToOuterRight(w, w.right, k, t);
          HoleSides(mem, k, t, root);
          w := p.left;
        }
        t := OuterStopRight(p, w, w.left, k, t);
        k := Top;
        x := root;
        DoneInv(t);
      }
    }

    /** One round of the loop for a right child of p. */
    method DeleteStepRight(p: Node, ghost k0: Ctx, ghost t0: Tree)
      returns (x: Node?, ghost k: Ctx, ghost t: Tree)
      requires Agree() && RepZip(mem, k0, t0, root) && ZipSep(k0, t0) && DeleteInv(k0, t0)
      requires ColorOf(t0) == Black && k0.InR? && k0.n == p
      modifies this, mem.Keys
      ensures Agree() && mem.Keys == old(mem).Keys
      ensures RepZip(mem, k, t, root) && ZipSep(k, t) && DeleteInv(k, t) && x == Ref(t) && t.T?
      ensures Inorder(Plug(k, t)) == Inorder(Plug(k0, t0)) && Todo(k, t) < Todo(k0, t0)
    {
      k, t := k0, t0;
      SiblingExists(k, t);
      HoleSides(mem, k, t, root);
      var w := p.left;
      if w.color == Red {
        k := UnredSiblingRight(p, w, k, t);
      }
      x, k, t := BlackSiblingRight(p, k, t);
    }

    /** async/itree.C:193-257. */
    method DeleteFixup(x0: Node?, p0: Node?, ghost k0: Ctx, ghost t0: Tree) returns (ghost shape': Tree)
      requires Agree() && RepZip(mem, k0, t0, root) && ZipSep(k0, t0) && DeleteInv(k0, t0)
      requires x0 == Ref(t0) && p0 == Parent(k0, null)
      modifies this, mem.Keys
      ensures Agree() && mem.Keys == old(mem).Keys
      ensures Rep(mem, shape', root, null) && Sep(shape') && RB(shape')
      ensures Inorder(shape') == Inorder(Plug(k0, t0))
    {
      var x, p := x0, p0;
      ghost var k, t := k0, t0;
      FocusFacts(mem, k, t, root);
      while x != root && (x == null || x.color == Black)
        invariant Agree() && mem.Keys == old(mem).Keys
        invariant RepZip(mem, k, t, root) && ZipSep(k, t) && DeleteInv(k, t) && x == Ref(t)
        invariant x == null ==> p == Parent(k, null)
        invariant x in mem || x == null
        invariant x != null ==> x.up == Parent(k, null) && x.color == t.c
        invariant k.Top? <==> x == root
        invariant Inorder(Plug(k, t)) == Inorder(Plug(k0, t0))
        decreases Todo(k, t)
      {
        if x != null {
          p := x.up;
        }
        SiblingExists(k, t);
        HoleSides(mem, k, t, root);
        if x == p.left {
          x, k, t := DeleteStepLeft(p, k, t);
        } else {
          x, k, t := DeleteStepRight(p, k, t);
        }
        FocusFacts(mem, k, t, root);
      }
      DeleteDone(k, t);
      if x != null {
        Paint(x, Black, k, t);
      }
      shape' := Plug(k, Blacken(t));
      Refocus(mem, k, Blacken(t), Top, shape', root);
    }

    method SpliceLinks(y: Node, ghost k: Ctx) returns (x: Node?, p: Node?)
      requires Agree() && y in mem && mem[y].up == Parent(k, null) && Holds(mem, k, y, root)
      requires var l, r := mem[y].left, mem[y].right;
        && (l == null || r == null) && y != l && y != r && Parent(k, null) != y
        && (l != null ==> l in mem && l != Parent(k, null)) && (r != null ==> r in mem && r != Parent(k, null))
      modifies this, mem.Keys
      ensures Agree() && p == Parent(k, null)
      ensures x == (if old(mem[y]).left != null then old(mem[y]).left else old(mem[y]).right)
      ensures SpliceWrites(old(mem), mem, k, y, x, old(root), root) && y.color == old(y.color)
    {
      p := y.up;
      x := y.left;
      if x == null {
        x := y.right;
      }
      if x != null {
        x.up := p;
      }
      if p == null {
        root := x;
      } else if y == p.left {
        p.left := x;
      } else {
        p.right := x;
      }
      mem := Snapshot(mem.Keys - {y});
    }

    /** Take y, which has at most one child, out of the tree; async/itree.C:266-275. */
    method Splice(y: Node, ghost k: Ctx, ghost t: Tree) returns (x: Node?, p: Node?, ghost xs: Tree)
      requires Agree() && RepZip(mem, k, t, root) && ZipSep(k, t) && t.T? && t.n == y
      requires t.l.Leaf? || t.r.Leaf?
      modifies this, mem.Keys
      ensures Agree() && mem.Keys == old(mem).Keys - {y}
      ensures xs == if t.l.T? then t.l else t.r
      ensures RepZip(mem, k, xs, root) && ZipSep(k, xs) && x == Ref(xs) && p == Parent(k, null)
      ensures y.color == t.c
    {
      Sides(mem, k, t, root);
      HoldsRef(mem, k, y, root);
      assert Rep(mem, t.l, mem[y].left, y) && Rep(mem, t.r, mem[y].right, y);
      ghost var m, r := mem, root;
      x, p := SpliceLinks(y, k);
      xs := if t.l.T? then t.l else t.r;
      SpliceZip(m, mem, k, t, xs, r, root);
    }

    method ReplaceLinks(z: Node, y: Node, ghost k: Ctx)
      requires Agree() && z in mem && y !in mem && mem[z].up == Parent(k, null) && Holds(mem, k, z, root)
      requires var l, r := mem[z].left, mem[z].right; var p := Parent(k, null);
        && z != l && z != r && p != z && (l != null ==> l in mem && l != p && l != r) && (r != null ==> r in mem && r != p)
      modifies this, mem.Keys, y
      ensures Agree()
      ensures ReplaceWrites(old(mem), mem, k, z, old(mem[z]).left, old(mem[z]).right, y, old(root), root)
    {
      assert y != z && y != z.up && y != z.left && y != z.right;
      var pz := z.up;
      if pz != null {
        if z == pz.left {
          pz.left := y;
        } else {
          pz.right := y;
        }
      } else {
        root := y;
      }
      pz := z.left;
      if pz != null {
        pz.up := y;
      }
      pz := z.right;
      if pz != null {
        pz.up := y;
      }
      y.up, y.left, y.right, y.color := z.up, z.left, z.right, z.color;
      mem := Snapshot(mem.Keys - {z} + {y});
      assert Relinked(old(mem), mem, k, y, old(root), root);
    }

    /** y takes the place of z; async/itree.C:277-291. */
    method Replace(z: Node, y: Node, ghost k: Ctx, ghost t: Tree)
      requires Agree() && RepZip(mem, k, t, root) && ZipSep(k, t) && t.T? && t.n == z
      requires y !in mem && y !in Nodes(t) && y !in CtxNodes(k)
      modifies this, mem.Keys, y
      ensures Agree() && mem.Keys == old(mem).Keys - {z} + {y}
      ensures RepZip(mem, k, t.(n := y), root) && ZipSep(k, t.(n := y))
    {
      Sides(mem, k, t, root);
      HoldsRef(mem, k, z, root);
      assert Rep(mem, t.l, mem[z].left, z) && Rep(mem, t.r, mem[z].right, z);
      ghost var m, r := mem, root;
      ReplaceLinks(z, y, k);
      ReplaceZip(m, mem, k, t, y, r, root);
    }

    /** async/itree.C:153-160. */
    method Minimum(x0: Node, ghost t: Tree, ghost up: Node?) returns (x: Node, ghost j: Ctx, ghost s: Tree)
      requires Agree() && Rep(mem, t, x0, up)
      ensures Plug(j, s) == t && AllLeft(j) && s.T? && s.n == x && s.l.Leaf?
    {
      x := x0;
      j, s := Top, t;
      ghost var u := up;
      while x.left != null
        invariant Plug(j, s) == t && AllLeft(j) && s.T? && s.n == x && Rep(mem, s, x, u)
        decreases s
      {
        assert Rep(mem, s.l, mem[x].left, x);
        u := x;
        j, s := InL(s.n, s.c, s.r, j), s.l;
        x := x.left;
      }
      assert Rep(mem, s.l, mem[x].left, x);
    }

    /** Delete a node with at most one child. */
    method DeleteSimple(z: Node, ghost k: Ctx, ghost t: Tree)
      requires Agree() && RepZip(mem, k, t, root) && ZipSep(k, t) && RB(Plug(k, t))
      requires t.T? && t.n == z && (t.l.Leaf? || t.r.Leaf?)
      modifies this, mem.Keys
      ensures Agree() && mem.Keys == old(mem).Keys - {z}
      ensures Rep(mem, shape, root, null) && Sep(shape) && RB(shape)
      ensures Inorder(shape) == (Before(k) + Inorder(t.l)) + (Inorder(t.r) + After(k))
    {
      ghost var xs := if t.l.T? then t.l else t.r;
      SpliceOrder(k, t, xs);
      var x, p;
      x, p, xs := Splice(z, k, t);
      if z.color == Black {
        SpliceBlack(k, t, xs);
        shape := DeleteFixup(x, p, k, xs);
      } else {
        SpliceRed(k, t, xs);
        shape := Plug(k, xs);
        Refocus(mem, k, xs, Top, shape, root);
      }
    }

    /** z has two children: its successor y leaves its own place; async/itree.C:265-275. */
    method TakeSuccessor(z: Node, ghost k: Ctx, ghost t: Tree)
      returns (y: Node, x: Node?, p: Node?, ghost j: Ctx, ghost ty: Tree)
      requires Agree() && RepZip(mem, k, t, root) && ZipSep(k, t) && t.T? && t.n == z && t.l.T? && t.r.T?
      modifies this, mem.Keys
      ensures Agree() && mem.Keys == old(mem).Keys - {y} && y in old(mem) && y != z
      ensures AllLeft(j) && ty.T? && ty.l.Leaf? && ty.n == y && Plug(j, ty) == t.r && y.color == ty.c
      ensures x == Ref(ty.r) && p == Parent(Below(j, t.l, z, t.c, k), null) && (p == z <==> j.Top?)
      ensures var tz := T(t.l, z, t.c, Plug(j, ty.r)); RepZip(mem, k, tz, root) && ZipSep(k, tz)
    {
      assert Rep(mem, t.r, mem[z].right, z);
      y, j, ty := Minimum(z.right, t.r, z);
      ghost var kz := Below(j, t.l, z, t.c, k);
      AppendPlug(j, InR(t.l, z, t.c, k), ty);
      Refocus(mem, k, t, kz, ty, root);
      Sides(mem, kz, ty, root);
      PlugNodes(j, ty);
      ghost var xs;
      x, p, xs := Splice(y, kz, ty);
      AppendPlug(j, InR(t.l, z, t.c, k), xs);
      Refocus(mem, kz, xs, k, T(t.l, z, t.c, Plug(j, xs)), root);
    }

    /** ... and takes z's; async/itree.C:277-294. */
    method MoveSuccessor(z: Node, ghost k: Ctx, ghost t: Tree)
      returns (x: Node?, p: Node?, c: Color, ghost j: Ctx, ghost ty: Tree)
      requires Agree() && RepZip(mem, k, t, root) && ZipSep(k, t) && t.T? && t.n == z && t.l.T? && t.r.T?
      modifies this, mem.Keys
      ensures Agree() && mem.Keys == old(mem).Keys - {z}
      ensures AllLeft(j) && ty.T? && ty.l.Leaf? && Plug(j, ty) == t.r && c == ty.c && x == Ref(ty.r)
      ensures p == Parent(Below(j, t.l, ty.n, t.c, k), null)
      ensures var tz := T(t.l, ty.n, t.c, Plug(j, ty.r)); RepZip(mem, k, tz, root) && ZipSep(k, tz)
    {
      var y;
      y, x, p, j, ty := TakeSuccessor(z, k, t);
      c := y.color;
      ghost var tz := T(t.l, z, t.c, Plug(j, ty.r));
      OutsideZip(mem, k, tz, root, y);
      Replace(z, y, k, tz);
      if p == z {
        p := y;
      }
    }

    /** Whatever colour left the successor's old place, the balance is restored. */
    method FinishDouble(x: Node?, p: Node?, c: Color, ghost z: Node, ghost k: Ctx, ghost t: Tree,
                        ghost j: Ctx, ghost ty: Tree)
      requires Agree() && RB(Plug(k, t)) && t.T? && t.n == z
      requires AllLeft(j) && ty.T? && ty.l.Leaf? && Plug(j, ty) == t.r && c == ty.c && x == Ref(ty.r)
      requires var ky := Below(j, t.l, ty.n, t.c, k);
        p == Parent(ky, null) && RepZip(mem, ky, ty.r, root) && ZipSep(ky, ty.r)
      modifies this, mem.Keys
      ensures Agree() && mem.Keys == old(mem).Keys
      ensures Rep(mem, shape, root, null) && Sep(shape) && RB(shape)
      ensures Inorder(shape) == Inorder(Plug(Below(j, t.l, ty.n, t.c, k), ty.r))
    {
      ghost var kz, ky := Below(j, t.l, z, t.c, k), Below(j, t.l, ty.n, t.c, k);
      AppendPlug(j, InR(t.l, z, t.c, k), ty);
      if c == Black {
        SpliceBlack(kz, ty, ty.r);
        RenameDeleteInv(j, t.l, z, ty.n, t.c, k, ty.r);
        shape := DeleteFixup(x, p, ky, ty.r);
      } else {
        SpliceRed(kz, ty, ty.r);
        RenameRB(j, t.l, z, ty.n, t.c, k, ty.r);
        shape := Plug(ky, ty.r);
        Refocus(mem, ky, ty.r, Top, shape, root);
      }
    }

    /** Delete a node with two children. */
    method DeleteDouble(z: Node, ghost k: Ctx, ghost t: Tree)
      requires Agree() && RepZip(mem, k, t, root) && ZipSep(k, t) && RB(Plug(k, t))
      requires t.T? && t.n == z && t.l.T? && t.r.T?
      modifies this, mem.Keys
      ensures Agree() && mem.Keys == old(mem).Keys - {z}
      ensures Rep(mem, shape, root, null) && Sep(shape) && RB(shape)
      ensures Inorder(shape) == (Before(k) + Inorder(t.l)) + (Inorder(t.r) + After(k))
    {
      ghost var j, ty;
      var x, p, c;
      x, p, c, j, ty := MoveSuccessor(z, k, t);
      AppendPlug(j, InR(t.l, ty.n, t.c, k), ty.r);
      Refocus(mem, k, T(t.l, ty.n, t.c, Plug(j, ty.r)), Below(j, t.l, ty.n, t.c, k), ty.r, root);
      FinishDouble(x, p, c, z, k, t, j, ty);
      MovedOrder(j, t.l, ty.n, t.c, k, ty, t.r);
    }

    /** async/itree.C:259-298: the order loses exactly z. */
    method Delete(z: Node) returns (ghost pos: nat)
      requires Valid() && z in Nodes(shape)
      modifies this, mem.Keys
      ensures Valid() && Nodes(shape) == old(Nodes(shape)) - {z}
      ensures pos < |old(Inorder(shape))| && old(Inorder(shape))[pos] == z
      ensures Inorder(shape) == old(Inorder(shape))[..pos] + old(Inorder(shape))[pos + 1..]
    {
      ghost var k, t := FocusOn(shape, z, Top);
      ghost var s := shape;
      ghost var a, b := Before(k) + Inorder(t.l), Inorder(t.r) + After(k);
      FocusOrder(k, t);
      Refocus(mem, Top, shape, k, t, root);
      Sides(mem, k, t, root);
      if z.left != null && z.right != null {
        DeleteDouble(z, k, t);
      } else {
        DeleteSimple(z, k, t);
      }
      RepKeys(mem, shape, root, null);
      pos := |a|;
      DeleteEnd(s, shape, a, z, b);
    }

    /** async/itree.C:162-171: the next element in order, null after the last. */
    method Successor(x: Node) returns (y: Node?, ghost pos: nat)
      requires Valid() && x in Nodes(shape)
      ensures pos < |Inorder(shape)| && Inorder(shape)[pos] == x
      ensures y == if pos + 1 < |Inorder(shape)| then Inorder(shape)[pos + 1] else null
    {
      ghost var k, t := FocusOn(shape, x, Top);
      Refocus(mem, Top, shape, k, t, root);
      Sides(mem, k, t, root);
      FocusOrder(k, t);
      pos := |Before(k) + Inorder(t.l)|;
      assert Rep(mem, t.r, mem[x].right, x);
      if x.right != null {
        ghost var j, s;
        y, j, s := Minimum(x.right, t.r, x);
        AllLeftBefore(j);
        PlugInorder(j, s);
        assert Inorder(t.r)[0] == y;
      } else {
        y := ClimbRight(x, k, t);
      }
    }

    /** The first element after the subtree in focus. */
    method ClimbRight(x0: Node, ghost k0: Ctx, ghost t0: Tree) returns (y: Node?)
      requires Agree() && RepZip(mem, k0, t0, root) && ZipSep(k0, t0) && t0.T? && t0.n == x0
      ensures y == if After(k0) == [] then null else After(k0)[0]
    {
      var x := x0;
      ghost var k, t := k0, t0;
      Sides(mem, k, t, root);
      y := x.up;
      while y != null && x == y.right
        invariant RepZip(mem, k, t, root) && ZipSep(k, t) && t.T? && t.n == x
        invariant x in mem && y == Parent(k, null) && (y != null ==> y in mem && (x == y.right <==> k.InR?))
        invariant After(k) == After(k0)
        decreases Depth(k)
      {
        Refocus(mem, k, t, k.up, OneUp(k, t), root);
        k, t := k.up, OneUp(k, t);
        Sides(mem, k, t, root);
        x := y;
        y := y.up;
      }
    }

    /** async/itree.C:173-180. */
    method Maximum(x0: Node, ghost t: Tree, ghost up: Node?) returns (x: Node)
      requires Agree() && Rep(mem, t, x0, up)
      ensures Inorder(t) != [] && x == Inorder(t)[|Inorder(t)| - 1]
    {
      x := x0;
      ghost var s, u, a := t, up, [];
      while x.right != null
        invariant s.T? && s.n == x && Rep(mem, s, x, u) && Inorder(t) == a + Inorder(s)
        decreases s
      {
        assert Rep(mem, s.r, mem[x].right, x);
        u := x;
        a := a + (Inorder(s.l) + [s.n]);
        s := s.r;
        x := x.right;
      }
      assert Rep(mem, s.r, mem[x].right, x);
    }

    /** async/itree.C:182-191: the previous element in order, null before the first. */
    method Predecessor(x: Node) returns (y: Node?, ghost pos: nat)
      requires Valid() && x in Nodes(shape)
      ensures pos < |Inorder(shape)| && Inorder(shape)[pos] == x
      ensures y == if pos > 0 then Inorder(shape)[pos - 1] else null
    {
      ghost var k, t := FocusOn(shape, x, Top);
      Refocus(mem, Top, shape, k, t, root);
      Sides(mem, k, t, root);
      FocusOrder(k, t);
      pos := |Before(k) + Inorder(t.l)|;
      assert Rep(mem, t.l, mem[x].left, x);
      if x.left != null {
        y := Maximum(x.left, t.l, x);
      } else {
        y := ClimbLeft(x, k, t);
      }
    }

    /** The last element before the subtree in focus. */
    method ClimbLeft(x0: Node, ghost k0: Ctx, ghost t0: Tree) returns (y: Node?)
      requires Agree() && RepZip(mem, k0, t0, root) && ZipSep(k0, t0) && t0.T? && t0.n == x0
      ensures y == if Before(k0) == [] then null else Before(k0)[|Before(k0)| - 1]
    {
      var x := x0;
      ghost var k, t := k0, t0;
      Sides(mem, k, t, root);
      y := x.up;
      while y != null && x == y.left
        invariant RepZip(mem, k, t, root) && ZipSep(k, t) && t.T? && t.n == x
        invariant x in mem && y == Parent(k, null) && (y != null ==> y in mem && (x == y.left <==> k.InL?))
        invariant Before(k) == Before(k0)
        decreases Depth(k)
      {
        Refocus(mem, k, t, k.up, OneUp(k, t), root);
        k, t := k.up, OneUp(k, t);
        Sides(mem, k, t, root);
        x := y;
        y := y.up;
      }
    }

    /** async/itree.h:144-149. */
    method First() returns (n: Node?)
      requires Valid()
      ensures n == if Inorder(shape) == [] then null else Inorder(shape)[0]
    {
      n := root;
      if n != null {
        ghost var j, s;
        n, j, s := Minimum(n, shape, null);
        AllLeftBefore(j);
        PlugInorder(j, s);
      }
    }

    /** async/itree.h:162-179: the first of the elements with the given key, null if none. */
    method Search(key: int) returns (ret: Node?, ghost pos: nat)
      requires Valid()
      ensures pos <= |Inorder(shape)| && (forall n :: n in Inorder(shape)[..pos] ==> n.key < key)
      ensures if ret != null then pos < |Inorder(shape)| && ret == Inorder(shape)[pos] && ret.key == key
              else forall n :: n in Inorder(shape)[pos..] ==> n.key > key
    {
      ret := null;
      var n := root;
      ghost var k, t := Top, shape;
      while n != null
        invariant RepZip(mem, k, t, root) && ZipSep(k, t) && Plug(k, t) == shape && n == Ref(t)
        invariant forall m :: m in Before(k) ==> m.key < key
        invariant if ret != null then After(k) != [] && ret == After(k)[0] && ret.key == key
                  else AllAbove(After(k), key)
        decreases t
      {
        Sides(mem, k, t, root);
        AroundFocus(k, t);
        assert ret != null ==> ret in After(k);
        var srchres := key - n.key;
        if srchres < 0 {
          n := n.left;
          Refocus(mem, k, t, InL(t.n, t.c, t.r, k), t.l, root);
          k, t := InL(t.n, t.c, t.r, k), t.l;
        } else if srchres > 0 {
          n := n.right;
          Refocus(mem, k, t, InR(t.l, t.n, t.c, k), t.r, root);
          k, t := InR(t.l, t.n, t.c, k), t.r;
        } else {
          ret := n;
          n := n.left;
          Refocus(mem, k, t, InL(t.n, t.c, t.r, k), t.l, root);
          k, t := InL(t.n, t.c, t.r, k), t.l;
        }
      }
      PlugInorder(k, Leaf);
      pos := |Before(k)|;
      assert Inorder(shape)[..pos] == Before(k) && Inorder(shape)[pos..] == After(k);
    }

    /** async/itree.h:181-199: the first element that is not less than the key. */
    method LowerBound(key: int) returns (ret: Node?, ghost pos: nat)
      requires Valid()
      ensures pos <= |Inorder(shape)| && ret == (if pos < |Inorder(shape)| then Inorder(shape)[pos] else null)
      ensures forall n :: n in Inorder(shape)[..pos] ==> n.key < key
      ensures forall n :: n in Inorder(shape)[pos..] ==> n.key >= key
    {
      ret := null;
      var n := root;
      ghost var k, t := Top, shape;
      while n != null
        invariant RepZip(mem, k, t, root) && ZipSep(k, t) && Plug(k, t) == shape && n == Ref(t)
        invariant forall m :: m in Before(k) ==> m.key < key
        invariant forall m :: m in After(k) ==> m.key >= key
        invariant ret == if After(k) == [] then null else After(k)[0]
        decreases t
      {
        Sides(mem, k, t, root);
        AroundFocus(k, t);
        var srchres := key - n.key;
        if srchres <= 0 {
          ret := n;
          n := n.left;
          Refocus(mem, k, t, InL(t.n, t.c, t.r, k), t.l, root);
          k, t := InL(t.n, t.c, t.r, k), t.l;
        } else {
          n := n.right;
          Refocus(mem, k, t, InR(t.l, t.n, t.c, k), t.r, root);
          k, t := InR(t.l, t.n, t.c, k), t.r;
        }
      }
      PlugInorder(k, Leaf);
      pos := |Before(k)|;
      assert Inorder(shape)[..pos] == Before(k) && Inorder(shape)[pos..] == After(k);
    }

    /** async/itree.h:201-219: the last element that is not greater than the key. */
    method UpperBound(key: int) returns (ret: Node?, ghost pos: nat)
      requires Valid()
      ensures pos <= |Inorder(shape)| && ret == (if pos > 0 then Inorder(shape)[pos - 1] else null)
      ensures AllAtMost(Inorder(shape)[..pos], key) && AllAbove(Inorder(shape)[pos..], key)
    {
      ret := null;
      var n := root;
      ghost var k, t := Top, shape;
      while n != null
        invariant RepZip(mem, k, t, root) && ZipSep(k, t) && Plug(k, t) == shape && n == Ref(t)
        invariant AllAtMost(Before(k), key) && AllAbove(After(k), key)
        invariant ret == if Before(k) == [] then null else Before(k)[|Before(k)| - 1]
        decreases t
      {
        Sides(mem, k, t, root);
        var srchres := key - n.key;
        if srchres >= 0 {
          ret := n;
          n := n.right;
          BoundRight(k, t, key);
          Refocus(mem, k, t, InR(t.l, t.n, t.c, k), t.r, root);
          k, t := InR(t.l, t.n, t.c, k), t.r;
        } else {
          n := n.left;
          BoundLeft(k, t, key);
          Refocus(mem, k, t, InL(t.n, t.c, t.r, k), t.l, root);
          k, t := InL(t.n, t.c, t.r, k), t.l;
        }
      }
      PlugInorder(k, Leaf);
      pos := |Before(k)|;
      assert Inorder(shape)[..pos] == Before(k) && Inorder(shape)[pos..] == After(k);
    }
  }

  /** The focus is not greater than the key: the bound is it or an element on its right. */
  lemma BoundRight(k: Ctx, t: Tree, key: int)
    requires t.T? && Sorted(Inorder(Plug(k, t))) && t.n.key <= key
    requires AllAbove(After(k), key)
    ensures var k' := InR(t.l, t.n, t.c, k);
      && AllAtMost(Before(k'), key) && After(k') == After(k)
      && Before(k') != [] && Before(k')[|Before(k')| - 1] == t.n
  {
    AroundFocus(k, t);
  }

  /** The focus is greater than the key: the bound is on its left. */
  lemma BoundLeft(k: Ctx, t: Tree, key: int)
    requires t.T? && Sorted(Inorder(Plug(k, t))) && t.n.key > key
    requires AllAbove(After(k), key)
    ensures var k' := InL(t.n, t.c, t.r, k);
      Before(k') == Before(k) && AllAbove(After(k'), key)
  {
    AroundFocus(k, t);
  }
}
