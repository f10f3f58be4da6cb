/**
 * The node store of src/RBTree.c as an arena: node records addressed by
 * index, with `parent`, `left` and `right` as optional indices (the C
 * pointers). `Linked` ties an arena to the pure tree it represents; the
 * lemmas here show which arena updates keep that tie.
 */
module Arena {
  import opened RedBlack

  /** A node pointer: absent (NULL) or an arena index. */
  datatype Ptr = Null | At(index: nat)

  /** The C `Node` struct. */
  datatype NodeRec = NodeRec(parent: Ptr, left: Ptr, right: Ptr, color: Color, data: int)

  function PtrOf(t: Tree): Ptr
  {
    if t.Leaf? then Null else At(t.id)
  }

  /** The node `p` points to, if any, has `id` as its parent. */
  ghost predicate ParentIs(N: seq<NodeRec>, p: Ptr, id: nat)
  {
    p.At? ==> p.index < |N| && N[p.index].parent == At(id)
  }

  /** The records of `N` at the ids of `t` have the colours, data and
      children of `t`, and every child points back to its parent. */
  ghost predicate Linked(N: seq<NodeRec>, t: Tree)
  {
    match t
    case Leaf => true
    case Node(c, l, i, k, r) =>
      i < |N| && N[i].color == c && N[i].data == k &&
      N[i].left == PtrOf(l) && N[i].right == PtrOf(r) &&
      ParentIs(N, PtrOf(l), i) && ParentIs(N, PtrOf(r), i) &&
      Linked(N, l) && Linked(N, r)
  }

  /** Linked for a whole tree: additionally the root has no parent. */
  ghost predicate LinkedTree(N: seq<NodeRec>, t: Tree)
  {
    Linked(N, t) && (t.Node? ==> N[t.id].parent == Null)
  }

  /** The frame's node is linked around a hole holding the node `hole`. */
  ghost predicate FrameLinked(N: seq<NodeRec>, f: Frame, hole: Ptr)
  {
    f.id < |N| && N[f.id].color == f.color && N[f.id].data == f.key &&
    (match f
     case LeftHole(_, _, _, r) => N[f.id].left == hole && N[f.id].right == PtrOf(r)
     case RightHole(_, l, _, _) => N[f.id].left == PtrOf(l) && N[f.id].right == hole) &&
    ParentIs(N, hole, f.id) && ParentIs(N, PtrOf(Sibling(f)), f.id) && Linked(N, Sibling(f))
  }

  ghost predicate LinkedCtx(N: seq<NodeRec>, ctx: seq<Frame>, hole: Ptr)
    decreases |ctx|
  {
    ctx == [] || (FrameLinked(N, ctx[0], hole) && LinkedCtx(N, ctx[1..], At(ctx[0].id)))
  }

  /** `N'` holds the same records as `N` at the given indices. */
  ghost predicate Agree(N: seq<NodeRec>, N': seq<NodeRec>, ids: set<nat>)
  {
    forall i :: i in ids && i < |N| ==> i < |N'| && N'[i] == N[i]
  }

  lemma LinkedPlugOne(N: seq<NodeRec>, f: Frame, s: Tree)
    ensures Linked(N, PlugOne(f, s)) <==> FrameLinked(N, f, PtrOf(s)) && Linked(N, s)
  {
  }

  /** A linked tree splits into a linked subtree and a linked context. */
  lemma {:induction false} LinkedPlug(N: seq<NodeRec>, ctx: seq<Frame>, s: Tree)
    ensures Linked(N, Plug(ctx, s)) <==> Linked(N, s) && LinkedCtx(N, ctx, PtrOf(s))
    decreases |ctx|
  {
    if ctx != [] {
      LinkedPlug(N, ctx[1..], PlugOne(ctx[0], s));
      LinkedPlugOne(N, ctx[0], s);
    }
  }

  lemma {:induction false} LinkedBound(N: seq<NodeRec>, t: Tree)
    requires Linked(N, t)
    ensures forall i :: i in Ids(t) ==> i < |N|
  {
    match t
    case Leaf =>
    case Node(_, l, _, _, r) => LinkedBound(N, l); LinkedBound(N, r);
  }

  /** Records outside a subtree do not matter to it. */
  lemma {:induction false} LinkedFrame(N: seq<NodeRec>, N': seq<NodeRec>, t: Tree)
    requires Linked(N, t) && Agree(N, N', Ids(t))
    ensures Linked(N', t)
  {
    match t
    case Leaf =>
    case Node(_, l, i, _, r) =>
      LinkedFrame(N, N', l);
      LinkedFrame(N, N', r);
  }

  lemma {:induction false} LinkedCtxFrame(N: seq<NodeRec>, N': seq<NodeRec>, ctx: seq<Frame>, hole: Ptr)
    requires LinkedCtx(N, ctx, hole) && Agree(N, N', CtxIds(ctx))
    requires ctx != [] && hole.At? ==> hole.index < |N'| && N'[hole.index].parent == N[hole.index].parent
    ensures LinkedCtx(N', ctx, hole)
    decreases |ctx|
  {
    if ctx != [] {
      var f := ctx[0];
      LinkedFrame(N, N', Sibling(f));
      assert Agree(N, N', CtxIds(ctx[1..]));
      LinkedCtxFrame(N, N', ctx[1..], At(f.id));
    }
  }

  /** The root record of a linked subtree may take a new parent. */
  lemma LinkedReparent(N: seq<NodeRec>, N': seq<NodeRec>, t: Tree, q: Ptr)
    requires Linked(N, t) && t.Node? && t.id < |N'| && N'[t.id] == N[t.id].(parent := q)
    requires Agree(N, N', Ids(t.left) + Ids(t.right))
    ensures Linked(N', t)
  {
    LinkedFrame(N, N', t.left);
    LinkedFrame(N, N', t.right);
  }

  /** What a linked, id-distinct decomposition says about the records of the
      subtree's root and its parent. */
  lemma Locate(N: seq<NodeRec>, ctx: seq<Frame>, s: Tree)
    requires LinkedTree(N, Plug(ctx, s)) && Distinct(Plug(ctx, s)) && s.Node?
    ensures Linked(N, s) && LinkedCtx(N, ctx, At(s.id)) && s.id < |N|
    ensures Distinct(s) && DistinctCtx(ctx) && Ids(s) !! CtxIds(ctx)
    ensures N[s.id].parent == (if ctx == [] then Null else At(ctx[0].id))
    ensures N[s.id].color == s.color && N[s.id].data == s.key
    ensures N[s.id].left == PtrOf(s.left) && N[s.id].right == PtrOf(s.right)
    ensures ctx != [] ==>
      var p := ctx[0].id;
      p < |N| && N[p].color == ctx[0].color && N[p].data == ctx[0].key &&
      Linked(N, Sibling(ctx[0])) && PtrOf(Sibling(ctx[0])) != At(s.id) &&
      (ctx[0].LeftHole? ==> N[p].left == At(s.id) && N[p].right == PtrOf(Sibling(ctx[0]))) &&
      (ctx[0].RightHole? ==> N[p].right == At(s.id) && N[p].left == PtrOf(Sibling(ctx[0])))
  {
    LinkedPlug(N, ctx, s);
    DistinctPlug(ctx, s);
  }

  /** Painting the root of the subtree in the hole. */
  lemma RecolorLinked(N: seq<NodeRec>, ctx: seq<Frame>, s: Tree, c: Color)
    requires LinkedTree(N, Plug(ctx, s)) && Distinct(Plug(ctx, s)) && s.Node?
    ensures s.id < |N|
    ensures LinkedTree(N[s.id := N[s.id].(color := c)], Plug(ctx, s.(color := c)))
    ensures Distinct(Plug(ctx, s.(color := c)))
  {
    Locate(N, ctx, s);
    var N' := N[s.id := N[s.id].(color := c)];
    var s' := s.(color := c);
    LinkedFrame(N, N', s.left);
    LinkedFrame(N, N', s.right);
    assert Linked(N', s');
    LinkedCtxFrame(N, N', ctx, At(s.id));
    LinkedPlug(N', ctx, s');
    DistinctPlug(ctx, s');
    if ctx != [] {
      PlugRoot(ctx, s);
      PlugRoot(ctx, s');
      TopInCtxIds(ctx);
    }
  }

  /** A node with a fresh id hung below the subtree's root keeps the
      whole tree id-distinct. */
  lemma HangDistinct(ctx: seq<Frame>, s: Tree, n: nat, key: int)
    requires Distinct(Plug(ctx, s)) && s.Node? && n !in Ids(Plug(ctx, s))
    ensures s.right.Leaf? ==> Distinct(Plug(ctx, s.(right := Node(Red, Leaf, n, key, Leaf))))
    ensures s.left.Leaf? ==> Distinct(Plug(ctx, s.(left := Node(Red, Leaf, n, key, Leaf))))
  {
    DistinctPlug(ctx, s);
    IdsPlug(ctx, s);
    var leaf := Node(Red, Leaf, n, key, Leaf);
    if s.right.Leaf? {
      var s' := s.(right := leaf);
      assert Ids(s') == Ids(s) + {n};
      DistinctPlug(ctx, s');
    }
    if s.left.Leaf? {
      var s' := s.(left := leaf);
      assert Ids(s') == Ids(s) + {n};
      DistinctPlug(ctx, s');
    }
  }

  /** Attaching a new RED leaf node (index |N|) as the right child of the
      subtree's root. */
  lemma AttachRightLinked(N: seq<NodeRec>, N': seq<NodeRec>, ctx: seq<Frame>, s: Tree, key: int)
    requires LinkedTree(N, Plug(ctx, s)) && Distinct(Plug(ctx, s)) && s.Node? && s.right.Leaf?
    requires |N'| == |N| + 1 && s.id < |N|
    requires N'[|N|] == NodeRec(At(s.id), Null, Null, Red, key)
    requires N'[s.id] == N[s.id].(right := At(|N|))
    requires forall i :: 0 <= i < |N| && i != s.id ==> N'[i] == N[i]
    ensures LinkedTree(N', Plug(ctx, s.(right := Node(Red, Leaf, |N|, key, Leaf))))
    ensures Distinct(Plug(ctx, s.(right := Node(Red, Leaf, |N|, key, Leaf))))
  {
    var n := |N|;
    var s' := s.(right := Node(Red, Leaf, n, key, Leaf));
    Locate(N, ctx, s);
    LinkedBound(N, Plug(ctx, s));
    LinkedFrame(N, N', s.left);
    assert Linked(N', s');
    LinkedCtxFrame(N, N', ctx, At(s.id));
    LinkedPlug(N', ctx, s');
    HangDistinct(ctx, s, n, key);
    if ctx != [] {
      PlugRoot(ctx, s);
      PlugRoot(ctx, s');
      TopInCtxIds(ctx);
    }
  }

  /** Mirror image of AttachRightLinked. */
  lemma AttachLeftLinked(N: seq<NodeRec>, N': seq<NodeRec>, ctx: seq<Frame>, s: Tree, key: int)
    requires LinkedTree(N, Plug(ctx, s)) && Distinct(Plug(ctx, s)) && s.Node? && s.left.Leaf?
    requires |N'| == |N| + 1 && s.id < |N|
    requires N'[|N|] == NodeRec(At(s.id), Null, Null, Red, key)
    requires N'[s.id] == N[s.id].(left := At(|N|))
    requires forall i :: 0 <= i < |N| && i != s.id ==> N'[i] == N[i]
    ensures LinkedTree(N', Plug(ctx, s.(left := Node(Red, Leaf, |N|, key, Leaf))))
    ensures Distinct(Plug(ctx, s.(left := Node(Red, Leaf, |N|, key, Leaf))))
  {
    var n := |N|;
    var s' := s.(left := Node(Red, Leaf, n, key, Leaf));
    Locate(N, ctx, s);
    LinkedBound(N, Plug(ctx, s));
    LinkedFrame(N, N', s.right);
    assert Linked(N', s');
    LinkedCtxFrame(N, N', ctx, At(s.id));
    LinkedPlug(N', ctx, s');
    HangDistinct(ctx, s, n, key);
    if ctx != [] {
      PlugRoot(ctx, s);
      PlugRoot(ctx, s');
      TopInCtxIds(ctx);
    }
  }

  /** The record `r` of a frame's node with its hole-side child set to `q`. */
  function WithChild(r: NodeRec, f: Frame, q: Ptr): NodeRec
  {
    if f.LeftHole? then r.(left := q) else r.(right := q)
  }

  /** The subtree part of a left rotation. */
  lemma RotateLeftSubtree(N: seq<NodeRec>, N': seq<NodeRec>, S: Tree, q: Ptr)
    requires Linked(N, S) && Distinct(S) && S.Node? && S.right.Node? && |N'| == |N|
    requires N'[S.id] == N[S.id].(right := PtrOf(S.right.left), parent := At(S.right.id))
    requires N'[S.right.id] == N[S.right.id].(parent := q, left := At(S.id))
    requires S.right.left.Node? ==> S.right.left.id < |N|
    requires S.right.left.Node? ==> N'[S.right.left.id] == N[S.right.left.id].(parent := At(S.id))
    requires Agree(N, N', Ids(S.left) + Ids(S.right.right))
    requires S.right.left.Node? ==> Agree(N, N', Ids(S.right.left.left) + Ids(S.right.left.right))
    ensures Linked(N', RotateLeft(S))
  {
    var Node(cx, a, x, kx, Node(cy, b, y, ky, c)) := S;
    LinkedFrame(N, N', a);
    LinkedFrame(N, N', c);
    if b.Node? {
      LinkedReparent(N, N', b, At(x));
    }
    assert Linked(N', Node(cx, a, x, kx, b));
  }

  /** The subtree part of a right rotation. */
  lemma RotateRightSubtree(N: seq<NodeRec>, N': seq<NodeRec>, S: Tree, q: Ptr)
    requires Linked(N, S) && Distinct(S) && S.Node? && S.left.Node? && |N'| == |N|
    requires N'[S.id] == N[S.id].(left := PtrOf(S.left.right), parent := At(S.left.id))
    requires N'[S.left.id] == N[S.left.id].(parent := q, right := At(S.id))
    requires S.left.right.Node? ==> S.left.right.id < |N|
    requires S.left.right.Node? ==> N'[S.left.right.id] == N[S.left.right.id].(parent := At(S.id))
    requires Agree(N, N', Ids(S.right) + Ids(S.left.left))
    requires S.left.right.Node? ==> Agree(N, N', Ids(S.left.right.left) + Ids(S.left.right.right))
    ensures Linked(N', RotateRight(S))
  {
    var Node(cx, Node(cy, a, y, ky, b), x, kx, c) := S;
    LinkedFrame(N, N', a);
    LinkedFrame(N, N', c);
    if b.Node? {
      LinkedReparent(N, N', b, At(x));
    }
    assert Linked(N', Node(cx, b, x, kx, c));
  }

  /** The context part of a rotation: the parent's child pointer moves from
      `x` to `y`, and `y` takes over `x`'s parent. */
  lemma RehangCtx(N: seq<NodeRec>, N': seq<NodeRec>, ctx: seq<Frame>, x: nat, y: nat)
    requires LinkedCtx(N, ctx, At(x)) && ctx != [] && DistinctCtx(ctx)
    requires ctx[0].id < |N| <= |N'| && y < |N'| && x < |N|
    requires N'[ctx[0].id] == WithChild(N[ctx[0].id], ctx[0], At(y))
    requires N'[y].parent == N[x].parent
    requires Agree(N, N', Ids(Sibling(ctx[0])) + CtxIds(ctx[1..]))
    ensures LinkedCtx(N', ctx, At(y))
  {
    var f := ctx[0];
    LinkedFrame(N, N', Sibling(f));
    assert FrameLinked(N', f, At(y));
    LinkedCtxFrame(N, N', ctx[1..], At(f.id));
  }

  /** After a rotation that changes only records of the subtree and of the
      hole's parent, the root of the whole tree still has no parent. */
  lemma RootKept(N: seq<NodeRec>, N': seq<NodeRec>, ctx: seq<Frame>, S: Tree, S': Tree)
    requires ctx != [] && LinkedTree(N, Plug(ctx, S)) && S.Node? && S'.Node?
    requires LinkedCtx(N, ctx, At(S.id)) && ctx[0].id < |N'|
    requires N'[ctx[0].id].parent == N[ctx[0].id].parent
    requires Agree(N, N', CtxIds(ctx[1..]))
    ensures var r := Plug(ctx, S'); r.Node? && r.id < |N'| && N'[r.id].parent == Null
  {
    PlugRoot(ctx, S);
    PlugRoot(ctx, S');
    TopInCtxIds(ctx);
    LinkedPlug(N, ctx, S);
    LinkedBound(N, Plug(ctx, S));
    IdsPlug(ctx, S);
  }

  /** Left rotation at the root `x` of the subtree in the hole: the records
      of `x`, of its right child `y`, of `y`'s former left child and of
      `x`'s parent take the values leftRotate gives them, and nothing else
      changes. */
  lemma RotateLeftLinked(N: seq<NodeRec>, N': seq<NodeRec>, ctx: seq<Frame>, S: Tree)
    requires LinkedTree(N, Plug(ctx, S)) && Distinct(Plug(ctx, S)) && S.Node? && S.right.Node?
    requires |N'| == |N| && S.id < |N| && S.right.id < |N|
    requires S.right.left.Node? ==> S.right.left.id < |N|
    requires ctx != [] ==> ctx[0].id < |N|
    requires N'[S.id] == N[S.id].(right := PtrOf(S.right.left), parent := At(S.right.id))
    requires N'[S.right.id] == N[S.right.id].(parent := N[S.id].parent, left := At(S.id))
    requires S.right.left.Node? ==> N'[S.right.left.id] == N[S.right.left.id].(parent := At(S.id))
    requires ctx != [] ==> N'[ctx[0].id] == WithChild(N[ctx[0].id], ctx[0], At(S.right.id))
    requires forall i :: (0 <= i < |N| && i != S.id && i != S.right.id &&
      (S.right.left.Node? ==> i != S.right.left.id) && (ctx != [] ==> i != ctx[0].id)) ==> N'[i] == N[i]
    ensures LinkedTree(N', Plug(ctx, RotateLeft(S))) && Distinct(Plug(ctx, RotateLeft(S)))
  {
    var Node(cx, a, x, kx, R) := S;
    var Node(cy, b, y, ky, c) := R;
    var S' := RotateLeft(S);
    Locate(N, ctx, S);
    LinkedBound(N, Plug(ctx, S));
    IdsPlug(ctx, S);
    assert Ids(S) == Ids(a) + {x} + (Ids(b) + {y} + Ids(c));
    if b.Node? {
      assert Distinct(S) && Distinct(b);
      assert b.id !in Ids(b.left) + Ids(b.right) && Ids(b) == Ids(b.left) + {b.id} + Ids(b.right);
    }
    RotateLeftSubtree(N, N', S, N[x].parent);
    if ctx != [] {
      assert CtxIds(ctx) == FrameIds(ctx[0]) + CtxIds(ctx[1..]);
      RehangCtx(N, N', ctx, x, y);
      RootKept(N, N', ctx, S, S');
    }
    LinkedPlug(N', ctx, S');
    RotateLeftPreserves(S);
    DistinctPlug(ctx, S');
  }

  /** Mirror image of RotateLeftLinked, for rightRotate. */
  lemma RotateRightLinked(N: seq<NodeRec>, N': seq<NodeRec>, ctx: seq<Frame>, S: Tree)
    requires LinkedTree(N, Plug(ctx, S)) && Distinct(Plug(ctx, S)) && S.Node? && S.left.Node?
    requires |N'| == |N| && S.id < |N| && S.left.id < |N|
    requires S.left.right.Node? ==> S.left.right.id < |N|
    requires ctx != [] ==> ctx[0].id < |N|
    requires N'[S.id] == N[S.id].(left := PtrOf(S.left.right), parent := At(S.left.id))
    requires N'[S.left.id] == N[S.left.id].(parent := N[S.id].parent, right := At(S.id))
    requires S.left.right.Node? ==> N'[S.left.right.id] == N[S.left.right.id].(parent := At(S.id))
    requires ctx != [] ==> N'[ctx[0].id] == WithChild(N[ctx[0].id], ctx[0], At(S.left.id))
    requires forall i :: (0 <= i < |N| && i != S.id && i != S.left.id &&
      (S.left.right.Node? ==> i != S.left.right.id) && (ctx != [] ==> i != ctx[0].id)) ==> N'[i] == N[i]
    ensures LinkedTree(N', Plug(ctx, RotateRight(S))) && Distinct(Plug(ctx, RotateRight(S)))
  {
    var Node(cx, L, x, kx, c) := S;
    var Node(cy, a, y, ky, b) := L;
    var S' := RotateRight(S);
    Locate(N, ctx, S);
    LinkedBound(N, Plug(ctx, S));
    IdsPlug(ctx, S);
    assert Ids(S) == (Ids(a) + {y} + Ids(b)) + {x} + Ids(c);
    if b.Node? {
      assert Distinct(S) && Distinct(b);
      assert b.id !in Ids(b.left) + Ids(b.right) && Ids(b) == Ids(b.left) + {b.id} + Ids(b.right);
    }
    RotateRightSubtree(N, N', S, N[x].parent);
    if ctx != [] {
      assert CtxIds(ctx) == FrameIds(ctx[0]) + CtxIds(ctx[1..]);
      RehangCtx(N, N', ctx, x, y);
      RootKept(N, N', ctx, S, S');
    }
    LinkedPlug(N', ctx, S');
    RotateRightPreserves(S);
    DistinctPlug(ctx, S');
  }

  /** The arena leftRotate leaves behind when it rotates at the root `x`
      of `S`: x's right child `y` takes x's place, x becomes y's left child
      and y's former left child `b` becomes x's right child. */
  ghost function LeftRotated(N: seq<NodeRec>, ctx: seq<Frame>, S: Tree): seq<NodeRec>
    requires S.Node? && S.right.Node? && S.id < |N| && S.right.id < |N|
    requires S.right.left.Node? ==> S.right.left.id < |N|
    requires ctx != [] ==> ctx[0].id < |N|
  {
    var x, y, b := S.id, S.right.id, S.right.left;
    var N1 := N[x := N[x].(right := PtrOf(b))];
    var N2 := if b.Node? then N1[b.id := N1[b.id].(parent := At(x))] else N1;
    var N3 := if ctx == [] then N2[y := N2[y].(parent := Null)]
              else N2[y := N2[y].(parent := At(ctx[0].id))]
                     [ctx[0].id := WithChild(N2[ctx[0].id], ctx[0], At(y))];
    var N4 := N3[y := N3[y].(left := At(x))];
    N4[x := N4[x].(parent := At(y))]
  }

  lemma LeftRotatedLinked(N: seq<NodeRec>, ctx: seq<Frame>, S: Tree)
    requires LinkedTree(N, Plug(ctx, S)) && Distinct(Plug(ctx, S)) && S.Node? && S.right.Node?
    ensures S.id < |N| && S.right.id < |N| && (S.right.left.Node? ==> S.right.left.id < |N|)
    ensures ctx != [] ==> ctx[0].id < |N|
    ensures var N' := LeftRotated(N, ctx, S);
      |N'| == |N| && LinkedTree(N', Plug(ctx, RotateLeft(S))) && Distinct(Plug(ctx, RotateLeft(S)))
  {
    Locate(N, ctx, S);
    assert Linked(N, S.right);
    var x, y, b := S.id, S.right.id, S.right.left;
    assert x != y && (b.Node? ==> b.id != x && b.id != y) by {
      assert Ids(S) == Ids(S.left) + {x} + (Ids(b) + {y} + Ids(S.right.right));
    }
    if ctx != [] {
      assert CtxIds(ctx) == FrameIds(ctx[0]) + CtxIds(ctx[1..]);
      assert ctx[0].id != x && ctx[0].id != y && (b.Node? ==> ctx[0].id != b.id);
      assert N[x].parent == At(ctx[0].id);
    }
    RotateLeftLinked(N, LeftRotated(N, ctx, S), ctx, S);
  }

  /** The arena rightRotate leaves behind: the mirror image of LeftRotated. */
  ghost function RightRotated(N: seq<NodeRec>, ctx: seq<Frame>, S: Tree): seq<NodeRec>
    requires S.Node? && S.left.Node? && S.id < |N| && S.left.id < |N|
    requires S.left.right.Node? ==> S.left.right.id < |N|
    requires ctx != [] ==> ctx[0].id < |N|
  {
    var x, y, b := S.id, S.left.id, S.left.right;
    var N1 := N[x := N[x].(left := PtrOf(b))];
    var N2 := if b.Node? then N1[b.id := N1[b.id].(parent := At(x))] else N1;
    var N3 := if ctx == [] then N2[y := N2[y].(parent := Null)]
              else N2[y := N2[y].(parent := At(ctx[0].id))]
                     [ctx[0].id := WithChild(N2[ctx[0].id], ctx[0], At(y))];
    var N4 := N3[y := N3[y].(right := At(x))];
    N4[x := N4[x].(parent := At(y))]
  }

  lemma RightRotatedLinked(N: seq<NodeRec>, ctx: seq<Frame>, S: Tree)
    requires LinkedTree(N, Plug(ctx, S)) && Distinct(Plug(ctx, S)) && S.Node? && S.left.Node?
    ensures S.id < |N| && S.left.id < |N| && (S.left.right.Node? ==> S.left.right.id < |N|)
    ensures ctx != [] ==> ctx[0].id < |N|
    ensures var N' := RightRotated(N, ctx, S);
      |N'| == |N| && LinkedTree(N', Plug(ctx, RotateRight(S))) && Distinct(Plug(ctx, RotateRight(S)))
  {
    Locate(N, ctx, S);
    assert Linked(N, S.left);
    var x, y, b := S.id, S.left.id, S.left.right;
    assert x != y && (b.Node? ==> b.id != x && b.id != y) by {
      assert Ids(S) == (Ids(S.left.left) + {y} + Ids(b)) + {x} + Ids(S.right);
    }
    if ctx != [] {
      assert CtxIds(ctx) == FrameIds(ctx[0]) + CtxIds(ctx[1..]);
      assert ctx[0].id != x && ctx[0].id != y && (b.Node? ==> ctx[0].id != b.id);
      assert N[x].parent == At(ctx[0].id);
    }
    RotateRightLinked(N, RightRotated(N, ctx, S), ctx, S);
  }
}
