/**
 * Why the fix-up loops of async/itree.C restore the red-black invariants: each case of each loop,
 * as a change of shape.
 */
module ItreeBalance {
  import opened ItreeShape

  /** The subtree together with its parent and its sibling. */
  ghost function OneUp(k: Ctx, t: Tree): (u: Tree)
    requires !k.Top?
    ensures Plug(k, t) == Plug(k.up, u) && u.T? && u.n == k.n && u.c == k.c
  {
    match k
    case InL(n, c, r, up) => T(t, n, c, r)
    case InR(l, n, c, up) => T(l, n, c, t)
  }

  /** The other subtree below the parent. */
  ghost function Sibling(k: Ctx): Tree
    requires !k.Top?
  {
    match k
    case InL(n, c, r, up) => r
    case InR(l, n, c, up) => l
  }

  /** Seen from the sibling: `t` moves into the context. */
  ghost function Across(k: Ctx, t: Tree): (r: Ctx)
    requires !k.Top?
    ensures !r.Top? && Plug(r, Sibling(k)) == Plug(k, t) && r.up == k.up
  {
    match k
    case InL(n, c, r, up) => InR(t, n, c, up)
    case InR(l, n, c, up) => InL(n, c, t, up)
  }

  /** The context with another sibling and another colour of the parent. */
  ghost function Reframe(k: Ctx, c: Color, s: Tree): Ctx
    requires !k.Top?
  {
    match k
    case InL(n, _, _, up) => InL(n, c, s, up)
    case InR(_, n, _, up) => InR(s, n, c, up)
  }

  lemma {:induction false} PlugShape(k: Ctx, t: Tree)
    requires t.T?
    ensures Plug(k, t).T?
    decreases k
  {
    if !k.Top? {
      PlugShape(k.up, OneUp(k, t));
    }
  }

  // ----- order

  lemma RotateInorder(k: Ctx, a: Tree, x: Node, cx: Color, b: Tree, y: Node, cy: Color, c: Tree)
    ensures Inorder(Plug(k, T(a, x, cx, T(b, y, cy, c)))) == Inorder(Plug(k, T(T(a, x, cx, b), y, cy, c)))
  {
    var t, u := T(a, x, cx, T(b, y, cy, c)), T(T(a, x, cx, b), y, cy, c);
    PlugInorder(k, t);
    PlugInorder(k, u);
    Regrouped([], Inorder(a), [x], Inorder(b), [y] + Inorder(c));
    assert Inorder(t) == Inorder(u);
  }

  lemma PaintInorder(k: Ctx, t: Tree, c: Color)
    requires t.T?
    ensures Inorder(Plug(k, t.(c := c))) == Inorder(Plug(k, t))
  {
    PlugInorder(k, t);
    PlugInorder(k, t.(c := c));
  }

  /** The red-black conditions, seen from a place in the tree. */
  ghost predicate ZipRB(k: Ctx, t: Tree) {
    && Bal(t) && NoRR(t) && CtxBal(k, BH(t)) && CtxNoRR(k, ColorOf(t))
    && (if k.Top? then ColorOf(t) == Black else TopBlack(k))
  }

  lemma PlugRB(k: Ctx, t: Tree)
    ensures RB(Plug(k, t)) <==> ZipRB(k, t)
  {
    PlugBal(k, t);
    PlugNoRR(k, t);
    PlugTop(k, t);
  }

  // ----- insertion

  /** Everything is in order except that the red root of `t` may have a red parent. */
  ghost predicate InsertInv(k: Ctx, t: Tree) {
    && t.T? && t.c == Red && Bal(t) && NoRR(t)
    && CtxBal(k, BH(t)) && CtxNoRR(k, Black) && TopBlack(k)
  }

  /** A red parent has a parent of its own, and that one is black. */
  lemma RedParent(k: Ctx, t: Tree)
    requires InsertInv(k, t) && !k.Top? && k.c == Red
    ensures !k.up.Top? && k.up.c == Black
  {
    assert CtxNoRR(k.up, Red);
  }

  /** Red uncle: recolour and go on two levels up. */
  lemma PushInv(k: Ctx, t: Tree)
    requires InsertInv(k, t) && !k.Top? && k.c == Red && !k.up.Top? && ColorOf(Sibling(k.up)) == Red
    ensures InsertInv(k.up.up, OneUp(Reframe(k.up, Red, Blacken(Sibling(k.up))), Blacken(OneUp(k, t))))
  {
    RedParent(k, t);
    var p, s := OneUp(k, t), Sibling(k.up);
    assert CtxBal(k.up, BH(p)) && CtxNoRR(k.up, Red) && TopBlack(k.up);
    assert Bal(p) && Bal(s) && BH(s) == BH(p) && NoRR(s) && NoRR(Blacken(p));
    assert CtxBal(k.up.up, BH(p) + 1) && CtxNoRR(k.up.up, Black) && TopBlack(k.up.up);
    assert Bal(Blacken(s)) && Bal(Blacken(p)) && NoRR(Blacken(s)) && BH(Blacken(s)) == BH(Blacken(p)) == BH(p) + 1;
  }

  /** Black uncle, outer grandchild: after the rotation the parent is black. */
  lemma OuterLeftInv(q: Node, u: Tree, gp: Node, s: Tree, up: Ctx, t: Tree)
    requires InsertInv(InL(q, Red, u, InL(gp, Black, s, up)), t) && ColorOf(s) == Black
    ensures InsertInv(InL(q, Black, T(u, gp, Red, s), up), t)
  {
    var k := InL(gp, Black, s, up);
    assert CtxBal(k, BH(t)) && CtxNoRR(k, Red) && TopBlack(k) && TopBlack(up);
  }

  lemma OuterRightInv(q: Node, u: Tree, gp: Node, s: Tree, up: Ctx, t: Tree)
    requires InsertInv(InR(u, q, Red, InR(s, gp, Black, up)), t) && ColorOf(s) == Black
    ensures InsertInv(InR(T(s, gp, Red, u), q, Black, up), t)
  {
    var k := InR(s, gp, Black, up);
    assert CtxBal(k, BH(t)) && CtxNoRR(k, Red) && TopBlack(k) && TopBlack(up);
  }

  /** Inner grandchild: the first rotation makes it an outer one. */
  lemma InnerLeftInv(pl: Tree, p: Node, up: Ctx, a: Tree, x: Node, b: Tree)
    requires InsertInv(InR(pl, p, Red, up), T(a, x, Red, b)) && !up.Top?
    ensures InsertInv(InL(x, Red, b, up), T(pl, p, Red, a))
  {
  }

  lemma InnerRightInv(pr: Tree, p: Node, up: Ctx, a: Tree, x: Node, b: Tree)
    requires InsertInv(InL(p, Red, pr, up), T(a, x, Red, b)) && !up.Top?
    ensures InsertInv(InR(a, x, Red, up), T(b, p, Red, pr))
  {
  }

  /** When the loop ends, blackening the root finishes the job. */
  lemma InsertDone(k: Ctx, t: Tree)
    requires InsertInv(k, t) && (k.Top? || k.c == Black)
    ensures RB(Blacken(Plug(k, t)))
  {
    PlugBal(k, t);
    PlugNoRR(k, t);
    PlugTop(k, t);
    assert k.Top? || CtxNoRR(k, Red);
  }

  // ----- deletion

  /** Everything is in order except that the paths through `t` lack one black node, and that the
      root of `t`, if red, may be next to another red node. */
  ghost predicate DeleteInv(k: Ctx, t: Tree) {
    && Bal(t) && NoRR(Blacken(t))
    && CtxBal(k, BH(t) + 1) && CtxNoRR(k, Black) && TopBlack(k)
  }

  /** The sibling is never missing. */
  lemma SiblingExists(k: Ctx, t: Tree)
    requires DeleteInv(k, t) && !k.Top?
    ensures Sibling(k).T? && Bal(Sibling(k)) && BH(Sibling(k)) == BH(t) + 1 && NoRR(Sibling(k))
    ensures CtxBal(k.up, BH(t) + 1 + BlackOne(k.c)) && CtxNoRR(k.up, k.c) && TopBlack(k.up)
    ensures k.c == Red ==> ColorOf(Sibling(k)) == Black
    ensures k.up.Top? ==> k.c == Black
  {
  }

  /** Red sibling: after the rotation the sibling is black and the parent red. */
  lemma RedSiblingLeft(p: Node, cp: Color, wl: Tree, w: Node, wr: Tree, up: Ctx, t: Tree)
    requires DeleteInv(InL(p, cp, T(wl, w, Red, wr), up), t)
    ensures DeleteInv(InL(p, Red, wl, InL(w, Black, wr, up)), t) && ColorOf(wl) == Black
  {
    SiblingExists(InL(p, cp, T(wl, w, Red, wr), up), t);
  }

  lemma RedSiblingRight(p: Node, cp: Color, wl: Tree, w: Node, wr: Tree, up: Ctx, t: Tree)
    requires DeleteInv(InR(T(wl, w, Red, wr), p, cp, up), t)
    ensures DeleteInv(InR(wr, p, Red, InR(wl, w, Black, up)), t) && ColorOf(wr) == Black
  {
    SiblingExists(InR(T(wl, w, Red, wr), p, cp, up), t);
  }

  /** Black sibling with black children: it turns red and the deficit moves up. */
  lemma PullInv(k: Ctx, t: Tree)
    requires DeleteInv(k, t) && ColorOf(t) == Black && !k.Top?
    requires ColorOf(Sibling(k)) == Black && Sibling(k).T?
    requires ColorOf(Sibling(k).l) == Black && ColorOf(Sibling(k).r) == Black
    ensures DeleteInv(k.up, OneUp(Reframe(k, k.c, Sibling(k).(c := Red)), t))
  {
    SiblingExists(k, t);
    assert Blacken(t) == t;
    assert NoRR(Sibling(k).(c := Red)) && Bal(Sibling(k).(c := Red));
    assert BH(Sibling(k).(c := Red)) == BH(t);
  }

  /** Black sibling whose outer child is black and inner child v is red: v becomes the sibling. */
  lemma InnerNephewLeft(p: Node, cp: Color, a: Tree, v: Node, b: Tree, w: Node, wr: Tree, up: Ctx, t: Tree)
    requires DeleteInv(InL(p, cp, T(T(a, v, Red, b), w, Black, wr), up), t) && ColorOf(wr) == Black
    ensures DeleteInv(InL(p, cp, T(a, v, Black, T(b, w, Red, wr)), up), t)
  {
    SiblingExists(InL(p, cp, T(T(a, v, Red, b), w, Black, wr), up), t);
    assert Bal(T(a, v, Red, b)) && NoRR(T(a, v, Red, b));
    assert Bal(T(b, w, Red, wr)) && NoRR(T(b, w, Red, wr));
    assert NoRR(T(a, v, Black, T(b, w, Red, wr))) && Bal(T(a, v, Black, T(b, w, Red, wr)));
  }

  lemma InnerNephewRight(p: Node, cp: Color, wl: Tree, w: Node, a: Tree, v: Node, b: Tree, up: Ctx, t: Tree)
    requires DeleteInv(InR(T(wl, w, Black, T(a, v, Red, b)), p, cp, up), t) && ColorOf(wl) == Black
    ensures DeleteInv(InR(T(T(wl, w, Red, a), v, Black, b), p, cp, up), t)
  {
    SiblingExists(InR(T(wl, w, Black, T(a, v, Red, b)), p, cp, up), t);
    assert Bal(T(a, v, Red, b)) && NoRR(T(a, v, Red, b));
    assert Bal(T(wl, w, Red, a)) && NoRR(T(wl, w, Red, a));
    assert NoRR(T(T(wl, w, Red, a), v, Black, b)) && Bal(T(T(wl, w, Red, a), v, Black, b));
  }

  /** Black sibling with a red outer child: one rotation makes up for the missing black node. */
  lemma OuterNephewLeft(p: Node, cp: Color, wl: Tree, w: Node, wr: Tree, up: Ctx, t: Tree)
    requires DeleteInv(InL(p, cp, T(wl, w, Black, wr), up), t) && ColorOf(t) == Black && ColorOf(wr) == Red
    ensures RB(Plug(up, T(T(t, p, Black, wl), w, cp, Blacken(wr))))
  {
    SiblingExists(InL(p, cp, T(wl, w, Black, wr), up), t);
    var l := T(t, p, Black, wl);
    assert Blacken(t) == t;
    assert Bal(l) && NoRR(l) && BH(l) == BH(t) + 1;
    assert Bal(Blacken(wr)) && NoRR(Blacken(wr)) && BH(Blacken(wr)) == BH(t) + 1;
    OuterNephew(l, w, cp, Blacken(wr), up);
  }

  lemma OuterNephewRight(p: Node, cp: Color, wl: Tree, w: Node, wr: Tree, up: Ctx, t: Tree)
    requires DeleteInv(InR(T(wl, w, Black, wr), p, cp, up), t) && ColorOf(t) == Black && ColorOf(wl) == Red
    ensures RB(Plug(up, T(Blacken(wl), w, cp, T(wr, p, Black, t))))
  {
    SiblingExists(InR(T(wl, w, Black, wr), p, cp, up), t);
    var r := T(wr, p, Black, t);
    assert Blacken(t) == t;
    assert Bal(r) && NoRR(r) && BH(r) == BH(t) + 1;
    assert Bal(Blacken(wl)) && NoRR(Blacken(wl)) && BH(Blacken(wl)) == BH(t) + 1;
    OuterNephew(Blacken(wl), w, cp, r, up);
  }

  lemma OuterNephew(l: Tree, w: Node, cp: Color, r: Tree, up: Ctx)
    requires Bal(l) && Bal(r) && NoRR(l) && NoRR(r) && BH(l) == BH(r) && l.T? && r.T? && l.c == r.c == Black
    requires CtxBal(up, BH(l) + BlackOne(cp)) && CtxNoRR(up, cp) && TopBlack(up) && (up.Top? ==> cp == Black)
    ensures RB(Plug(up, T(l, w, cp, r)))
  {
    PlugRB(up, T(l, w, cp, r));
  }

  /** When the loop ends, blackening the node in focus finishes the job. */
  lemma DeleteDone(k: Ctx, t: Tree)
    requires DeleteInv(k, t) && (k.Top? || ColorOf(t) == Red)
    ensures RB(Plug(k, Blacken(t)))
  {
    PlugRB(k, Blacken(t));
    assert Bal(Blacken(t));
  }

  /** A balanced tree is a tree in which no further fix-up is needed. */
  lemma DoneInv(t: Tree)
    requires RB(t)
    ensures DeleteInv(Top, t) && Blacken(t) == t
  {
  }

  /** A context that tolerates some colour in its hole tolerates black. */
  lemma HoleBlack(k: Ctx, hc: Color)
    requires CtxNoRR(k, hc)
    ensures CtxNoRR(k, Black)
  {
  }

  /** Taking out a black node with at most one child leaves the paths through its place one
      black node short. */
  lemma SpliceBlack(k: Ctx, t: Tree, xs: Tree)
    requires RB(Plug(k, t)) && t.T? && t.c == Black && (xs == t.r || xs == t.l)
    ensures DeleteInv(k, xs)
  {
    PlugRB(k, t);
    assert NoRR(xs) && NoRR(Blacken(xs));
  }

  lemma RedGone(k: Ctx, t: Tree, xs: Tree)
    requires ZipRB(k, t) && t.T? && t.c == Red && (xs == t.r || xs == t.l)
    ensures ZipRB(k, xs)
  {
    HoleBlack(k, Red);
  }

  /** Taking out a red one leaves the balance intact. */
  lemma SpliceRed(k: Ctx, t: Tree, xs: Tree)
    requires RB(Plug(k, t)) && t.T? && t.c == Red && (xs == t.r || xs == t.l)
    ensures RB(Plug(k, xs))
  {
    PlugRB(k, t);
    RedGone(k, t, xs);
    PlugRB(k, xs);
  }

  /** Order before and after. */
  lemma SpliceOrder(k: Ctx, t: Tree, xs: Tree)
    requires t.T?
    requires (t.l.Leaf? && xs == t.r) || (t.r.Leaf? && xs == t.l)
    ensures Inorder(Plug(k, t)) == (Before(k) + Inorder(t.l)) + [t.n] + (Inorder(t.r) + After(k))
    ensures Inorder(Plug(k, xs)) == (Before(k) + Inorder(t.l)) + (Inorder(t.r) + After(k))
  {
    FocusOrder(k, t);
    PlugInorder(k, xs);
  }

  // ----- another node in the same place

  /** The context j inside z's right subtree, inside k. */
  ghost function Below(j: Ctx, l: Tree, z: Node, c: Color, k: Ctx): Ctx {
    Append(j, InR(l, z, c, k))
  }

  /** Colours and heights do not depend on which node has them. */
  lemma {:induction false} RenameBelow(j: Ctx, l: Tree, z: Node, y: Node, c: Color, k: Ctx, h: nat, hc: Color)
    ensures CtxBal(Below(j, l, z, c, k), h) <==> CtxBal(Below(j, l, y, c, k), h)
    ensures CtxNoRR(Below(j, l, z, c, k), hc) <==> CtxNoRR(Below(j, l, y, c, k), hc)
    ensures TopBlack(Below(j, l, z, c, k)) <==> TopBlack(Below(j, l, y, c, k))
    decreases j
  {
    if !j.Top? {
      RenameBelow(j.up, l, z, y, c, k, h + BlackOne(j.c), j.c);
      assert Below(j, l, z, c, k).up == Below(j.up, l, z, c, k);
      assert Below(j, l, y, c, k).up == Below(j.up, l, y, c, k);
    }
  }

  lemma RenameDeleteInv(j: Ctx, l: Tree, z: Node, y: Node, c: Color, k: Ctx, t: Tree)
    requires DeleteInv(Below(j, l, z, c, k), t)
    ensures DeleteInv(Below(j, l, y, c, k), t)
  {
    RenameBelow(j, l, z, y, c, k, BH(t) + 1, Black);
  }

  lemma RenameRB(j: Ctx, l: Tree, z: Node, y: Node, c: Color, k: Ctx, t: Tree)
    requires RB(Plug(Below(j, l, z, c, k), t))
    ensures RB(Plug(Below(j, l, y, c, k), t))
  {
    RenameBelow(j, l, z, y, c, k, BH(t), ColorOf(t));
    PlugRB(Below(j, l, z, c, k), t);
    PlugRB(Below(j, l, y, c, k), t);
  }

  /** Order below z's right link, when its first node y is or is not there. */
  lemma BelowOrder(j: Ctx, l: Tree, z: Node, c: Color, k: Ctx, t: Tree)
    requires AllLeft(j)
    ensures Inorder(Plug(Below(j, l, z, c, k), t)) == (Before(k) + Inorder(l) + [z]) + (Inorder(t) + After(j) + After(k))
  {
    AllLeftBefore(j);
    var K := InR(l, z, c, k);
    AppendPlug(j, K, t);
    PlugInorder(j, t);
    assert Inorder(Plug(j, t)) == Inorder(t) + After(j);
    PlugInorder(K, Plug(j, t));
  }

  lemma Cats<A>(a: seq<A>, y: seq<A>, b: seq<A>, c: seq<A>, d: seq<A>)
    ensures (a + y) + (b + c + d) == a + ((y + b + c) + d)
  {
  }
}
