/**
 * The insertion fixup of src/RBTree.c on the pure view: the case dispatch of
 * fixingUpTheTree and its cases 1 to 4 as functions on a zipper (the subtree
 * rooted at the node being fixed and the frames from its parent up to the
 * root), and the proof that it turns a tree with at most one red-red
 * violation into a red-black tree with the same in-order keys.
 */
module InsertFixup {
  import opened RedBlack

  // ---------------------------------------------------------------------
  // The fixup as the C code performs it
  // ---------------------------------------------------------------------

  /** Case 3 recolouring: parent and uncle BLACK, grandparent RED; the
      result is the grandparent's subtree. */
  function Case3Lift(ctx: seq<Frame>, s: Tree): (g: Tree)
    requires |ctx| >= 2 && IsRed(Sibling(ctx[1]))
    ensures g.Node? && g.id == ctx[1].id
  {
    var p := ctx[0].(color := Black);
    var g := match ctx[1]
      case LeftHole(_, i, k, u) => LeftHole(Red, i, k, u.(color := Black))
      case RightHole(_, u, i, k) => RightHole(Red, u.(color := Black), i, k);
    PlugOne(g, PlugOne(p, s))
  }

  /** First half of case 4: when the node is an inner grandchild, rotate
      the parent so that the former parent becomes the node to finish with
      (the zipper after `leftRotate(p); node = node->left` or its mirror). */
  function Straighten(ctx: seq<Frame>, s: Tree): (r: (seq<Frame>, Tree))
    requires |ctx| >= 2 && s.Node?
    ensures |r.0| == |ctx| && r.0[1] == ctx[1] && r.0[2..] == ctx[2..] && r.1.Node?
    ensures r.0[0].LeftHole? == r.0[1].LeftHole?
  {
    match (ctx[0], ctx[1])
    case (RightHole(pc, pl, p, pk), LeftHole(_, _, _, _)) =>
      ([LeftHole(s.color, s.id, s.key, s.right)] + ctx[1..], Node(pc, pl, p, pk, s.left))
    case (LeftHole(pc, p, pk, pr), RightHole(_, _, _, _)) =>
      ([RightHole(s.color, s.left, s.id, s.key)] + ctx[1..], Node(pc, s.right, p, pk, pr))
    case _ => (ctx, s)
  }

  /** Case 4: straighten, rotate the grandparent away from the node, then
      paint the new subtree root BLACK and the former grandparent RED. */
  function Case4(ctx: seq<Frame>, s: Tree): Tree
    requires |ctx| >= 2 && s.Node?
  {
    var (c1, s1) := Straighten(ctx, s);
    var g := PlugOne(c1[1], PlugOne(c1[0], s1));
    if c1[0].LeftHole? then
      var r := RotateRight(g);
      Plug(c1[2..], r.(color := Black, right := r.right.(color := Red)))
    else
      var r := RotateLeft(g);
      Plug(c1[2..], r.(color := Black, left := r.left.(color := Red)))
  }

  /** fixingUpTheTree on the node at the root of `s`, whose ancestors are
      `ctx`. The root of a non-empty context is BLACK, so a RED parent always
      has a parent of its own. */
  function Fixup(ctx: seq<Frame>, s: Tree): Tree
    requires s.Node? && TopBlack(ctx)
    decreases |ctx|
  {
    if ctx == [] then s.(color := Black)
    else if ctx[0].color == Black then Plug(ctx, s)
    else if IsRed(Sibling(ctx[1])) then Fixup(ctx[2..], Case3Lift(ctx, s))
    else Case4(ctx, s)
  }

  // ---------------------------------------------------------------------
  // Keys
  // ---------------------------------------------------------------------

  lemma Case3Keys(ctx: seq<Frame>, s: Tree)
    requires |ctx| >= 2 && IsRed(Sibling(ctx[1]))
    ensures Keys(Plug(ctx[2..], Case3Lift(ctx, s))) == Keys(Plug(ctx, s))
  {
    assert Plug(ctx, s) == Plug(ctx[2..], PlugOne(ctx[1], PlugOne(ctx[0], s)));
    KeysReplace(ctx[2..], Case3Lift(ctx, s), PlugOne(ctx[1], PlugOne(ctx[0], s)));
  }

  lemma StraightenKeys(ctx: seq<Frame>, s: Tree)
    requires |ctx| >= 2 && s.Node?
    ensures Keys(Plug(Straighten(ctx, s).0, Straighten(ctx, s).1)) == Keys(Plug(ctx, s))
  {
    var (c1, s1) := Straighten(ctx, s);
    assert Plug(ctx, s) == Plug(ctx[1..], PlugOne(ctx[0], s));
    assert Plug(c1, s1) == Plug(ctx[1..], PlugOne(c1[0], s1)) by {
      assert c1[1..] == ctx[1..];
    }
    var a, b := PlugOne(ctx[0], s), PlugOne(c1[0], s1);
    if ctx[0].RightHole? && ctx[1].LeftHole? {
      assert b == RotateLeft(a);
      RotateLeftPreserves(a);
    } else if ctx[0].LeftHole? && ctx[1].RightHole? {
      assert b == RotateRight(a);
      RotateRightPreserves(a);
    }
    KeysReplace(ctx[1..], a, b);
  }

  lemma Case4Keys(ctx: seq<Frame>, s: Tree)
    requires |ctx| >= 2 && s.Node?
    ensures Keys(Case4(ctx, s)) == Keys(Plug(ctx, s))
  {
    var (c1, s1) := Straighten(ctx, s);
    StraightenKeys(ctx, s);
    var g := PlugOne(c1[1], PlugOne(c1[0], s1));
    assert Plug(c1, s1) == Plug(c1[2..], g);
    if c1[0].LeftHole? {
      var r := RotateRight(g);
      RotateRightPreserves(g);
      KeysReplace(c1[2..], g, r.(color := Black, right := r.right.(color := Red)));
    } else {
      var r := RotateLeft(g);
      RotateLeftPreserves(g);
      KeysReplace(c1[2..], g, r.(color := Black, left := r.left.(color := Red)));
    }
  }

  /** The fixup only restructures and recolours: the in-order sequence of
      keys of the whole tree is unchanged. */
  lemma {:induction false} FixupKeys(ctx: seq<Frame>, s: Tree)
    requires s.Node? && TopBlack(ctx)
    ensures Keys(Fixup(ctx, s)) == Keys(Plug(ctx, s))
    decreases |ctx|
  {
    if ctx == [] {
    } else if ctx[0].color == Black {
    } else if IsRed(Sibling(ctx[1])) {
      FixupKeys(ctx[2..], Case3Lift(ctx, s));
      Case3Keys(ctx, s);
    } else {
      Case4Keys(ctx, s);
    }
  }

  // ---------------------------------------------------------------------
  // Colour invariants
  // ---------------------------------------------------------------------

  /** The frames of `ctx` are red-black-correct around a hole that holds a
      subtree of black height `h` whose root is RED exactly when
      `childRed`. */
  predicate CtxOK(ctx: seq<Frame>, h: nat, childRed: bool)
    decreases |ctx|
  {
    ctx == [] ||
    (var f := ctx[0]; var t := Sibling(f);
     NoRedRed(t) && BlackBalanced(t) && BH(t) == h &&
     (f.color == Red ==> !childRed && !IsRed(t)) &&
     CtxOK(ctx[1..], h + (if f.color == Black then 1 else 0), f.color == Red))
  }

  /** The state fixingUpTheTree is entered with: the node is RED, its
      subtree is red-black apart from its root colour, and the only possible
      violation is a RED parent (or a RED root when the node is the root). */
  predicate FixupInv(ctx: seq<Frame>, s: Tree)
  {
    s.Node? && s.color == Red && NoRedRed(s) && BlackBalanced(s) &&
    CtxOK(ctx, BH(s), false) && TopBlack(ctx)
  }

  lemma {:induction false} PlugValid(ctx: seq<Frame>, s: Tree)
    requires NoRedRed(s) && BlackBalanced(s) && CtxOK(ctx, BH(s), IsRed(s))
    ensures NoRedRed(Plug(ctx, s)) && BlackBalanced(Plug(ctx, s))
    decreases |ctx|
  {
    if ctx != [] {
      var s1 := PlugOne(ctx[0], s);
      assert BH(s1) == BH(s) + (if ctx[0].color == Black then 1 else 0);
      PlugValid(ctx[1..], s1);
    }
  }

  /** Conversely, every decomposition of a tree with the colour invariants
      has a correct context. */
  lemma {:induction false} PlugDecompose(ctx: seq<Frame>, s: Tree)
    requires NoRedRed(Plug(ctx, s)) && BlackBalanced(Plug(ctx, s))
    ensures NoRedRed(s) && BlackBalanced(s) && CtxOK(ctx, BH(s), IsRed(s))
    decreases |ctx|
  {
    if ctx != [] {
      var s1 := PlugOne(ctx[0], s);
      PlugDecompose(ctx[1..], s1);
      assert BH(s1) == BH(s) + (if ctx[0].color == Black then 1 else 0);
    }
  }

  /** Where insertion attaches the new RED node: an absent child of a
      red-black tree. */
  lemma NewNodeInv(ctx: seq<Frame>, id: nat, key: int)
    requires IsRB(Plug(ctx, Leaf))
    ensures FixupInv(ctx, Node(Red, Leaf, id, key, Leaf))
  {
    PlugDecompose(ctx, Leaf);
    if ctx != [] { PlugRoot(ctx, Leaf); }
  }

  lemma Case3Inv(ctx: seq<Frame>, s: Tree)
    requires FixupInv(ctx, s) && ctx != [] && ctx[0].color == Red
    ensures |ctx| >= 2
    ensures IsRed(Sibling(ctx[1])) ==> FixupInv(ctx[2..], Case3Lift(ctx, s))
  {
    var h := BH(s);
    assert CtxOK(ctx[1..], h, true);
    if IsRed(Sibling(ctx[1])) {
      var g := Case3Lift(ctx, s);
      assert CtxOK(ctx[2..], h + 1, false) by {
        assert ctx[1..][1..] == ctx[2..];
      }
      assert BH(g) == h + 1;
    }
  }

  lemma Case4RB(ctx: seq<Frame>, s: Tree)
    requires FixupInv(ctx, s) && |ctx| >= 2 && ctx[0].color == Red
    requires !IsRed(Sibling(ctx[1]))
    ensures IsRB(Case4(ctx, s))
  {
    var h := BH(s);
    assert CtxOK(ctx[1..], h, true);
    assert ctx[1].color == Black;
    assert CtxOK(ctx[2..], h + 1, false) by {
      assert ctx[1..][1..] == ctx[2..];
    }
    var (c1, s1) := Straighten(ctx, s);
    // both the node and its parent are RED subtrees of black height h
    assert s1.color == Red && NoRedRed(s1) && BlackBalanced(s1) && BH(s1) == h;
    var t0 := Sibling(c1[0]);
    assert c1[0].color == Red && NoRedRed(t0) && BlackBalanced(t0) && BH(t0) == h && !IsRed(t0);
    var u := Sibling(c1[1]);
    assert NoRedRed(u) && BlackBalanced(u) && BH(u) == h && !IsRed(u) && c1[1].color == Black by {
      assert ctx[1..][0] == ctx[1];
    }
    var g := PlugOne(c1[1], PlugOne(c1[0], s1));
    var fin: Tree;
    if c1[0].LeftHole? {
      var r := RotateRight(g);
      fin := r.(color := Black, right := r.right.(color := Red));
      assert fin == Node(Black, s1, c1[0].id, c1[0].key, Node(Red, t0, c1[1].id, c1[1].key, u));
      assert BH(Node(Red, t0, c1[1].id, c1[1].key, u)) == h;
      assert BlackBalanced(Node(Red, t0, c1[1].id, c1[1].key, u));
      assert BH(fin) == h + 1 && BlackBalanced(fin) && NoRedRed(fin);
    } else {
      var r := RotateLeft(g);
      fin := r.(color := Black, left := r.left.(color := Red));
      assert fin == Node(Black, Node(Red, u, c1[1].id, c1[1].key, t0), c1[0].id, c1[0].key, s1);
      assert BH(fin) == h + 1 && BlackBalanced(fin) && NoRedRed(fin);
    }
    assert Case4(ctx, s) == Plug(ctx[2..], fin);
    assert NoRedRed(fin) && BlackBalanced(fin) && BH(fin) == h + 1 && !IsRed(fin);
    PlugValid(ctx[2..], fin);
    if |ctx| > 2 { PlugRoot(ctx[2..], fin); }
  }

  /** fixingUpTheTree re-establishes the three colour invariants: the root
      is BLACK, no RED node has a RED child, and black heights agree. */
  lemma {:induction false} FixupRB(ctx: seq<Frame>, s: Tree)
    requires FixupInv(ctx, s)
    ensures IsRB(Fixup(ctx, s))
    decreases |ctx|
  {
    if ctx == [] {
    } else if ctx[0].color == Black {
      assert CtxOK(ctx, BH(s), true);
      PlugValid(ctx, s);
      PlugRoot(ctx, s);
    } else {
      Case3Inv(ctx, s);
      if IsRed(Sibling(ctx[1])) {
        FixupRB(ctx[2..], Case3Lift(ctx, s));
      } else {
        Case4RB(ctx, s);
      }
    }
  }

  /** Insertion as addToRBTree performs it: a red node hung where an
      absent key belongs, then fixed up, gives an ordered red-black tree
      holding exactly the old keys and the new one. */
  lemma InsertThenFixup(T: Tree, hole: seq<Frame>, id: nat, key: int)
    requires IsRB(T) && Ascending(Keys(T)) && key !in Keys(T)
    requires Plug(hole, Leaf) == T
    requires Plug(hole, Node(Red, Leaf, id, key, Leaf)) == Insert(T, id, key)
    ensures FixupInv(hole, Node(Red, Leaf, id, key, Leaf))
    ensures var F := Fixup(hole, Node(Red, Leaf, id, key, Leaf));
      IsRB(F) && Ascending(Keys(F)) && |Keys(F)| == |Keys(T)| + 1 &&
      (forall x :: x in Keys(F) <==> x in Keys(T) || x == key)
  {
    var leaf := Node(Red, Leaf, id, key, Leaf);
    NewNodeInv(hole, id, key);
    FixupRB(hole, leaf);
    FixupKeys(hole, leaf);
    InsertAdds(T, id, key);
  }
}
