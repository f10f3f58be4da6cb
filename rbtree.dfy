/**
 * The red-black tree of src/RBTree.c as a class over a node arena.
 *
 * `nodes` holds every node that was ever linked in (the C heap cells),
 * `root` is the C `tree->root` and `size` the C `tree->size`. The ghost
 * field `Shape` is the pure tree the arena spells out; every method states
 * its effect on `Shape` through the functions of `RedBlack` and
 * `InsertFixup`, whose properties are proved there.
 */
module RBTree {
  import opened RedBlack
  import opened InsertFixup
  import opened Arena
  import opened Nullable

  /** The tree's comparison function, fixed to the order of int keys:
      negative, zero or positive as `a` is below, equal to or above `b`. */
  function Compare(a: int, b: int): (r: int)
    ensures r == 0 <==> a == b
    ensures r < 0 <==> a < b
    ensures r > 0 <==> a > b
  {
    if a < b then -1 else if a > b then 1 else 0
  }

  class RBTree {
    var nodes: seq<NodeRec>
    var root: Ptr
    var size: int
    /** Whether the tree was created with a destructor for its elements. */
    const hasFreeFunc: bool
    ghost var Shape: Tree

    /** The arena spells out `Shape` and `root` points at its root. */
    ghost predicate Wf()
      reads this
    {
      LinkedTree(nodes, Shape) && Distinct(Shape) && root == PtrOf(Shape)
    }

    /** A well-formed, ordered red-black tree whose size is counted. */
    ghost predicate Valid()
      reads this
    {
      Wf() && Ascending(Keys(Shape)) && IsRB(Shape) &&
      size == |nodes| == |Keys(Shape)|
    }

    /** The elements in ascending order. */
    ghost function Elements(): seq<int>
      reads this
    {
      Keys(Shape)
    }

    /** newRBTree: an empty tree. */
    constructor (hasFreeFunc: bool)
      ensures Valid() && root == Null && size == 0 && Elements() == []
      ensures this.hasFreeFunc == hasFreeFunc
    {
      nodes := [];
      root := Null;
      size := 0;
      this.hasFreeFunc := hasFreeFunc;
      Shape := Leaf;
    }

    /** The step shared by both rotations: `y` takes the place of `x` under
        x's parent (the node of `ctx[0]`), or as the root when `x` has no
        parent. */
    method Reattach(x: nat, y: nat, ghost ctx: seq<Frame>)
      requires x < |nodes| && y < |nodes|
      requires nodes[x].parent == (if ctx == [] then Null else At(ctx[0].id))
      requires ctx != [] ==> (ctx[0].id < |nodes| && ctx[0].id != y &&
        (ctx[0].LeftHole? <==> nodes[ctx[0].id].left == At(x)))
      modifies this
      ensures size == old(size) && Shape == old(Shape)
      ensures ctx == [] ==>
        root == At(y) && nodes == old(nodes)[y := old(nodes)[y].(parent := Null)]
      ensures ctx != [] ==>
        root == old(root) &&
        nodes == old(nodes)[y := old(nodes)[y].(parent := At(ctx[0].id))]
                           [ctx[0].id := WithChild(old(nodes)[ctx[0].id], ctx[0], At(y))]
    {
      if nodes[x].parent.Null? {
        root := At(y);
        nodes := nodes[y := nodes[y].(parent := Null)];
      } else {
        nodes := nodes[y := nodes[y].(parent := nodes[x].parent)];
        var p := nodes[y].parent.index;
        if nodes[p].left == At(x) {
          nodes := nodes[p := nodes[p].(left := At(y))];
        } else {
          nodes := nodes[p := nodes[p].(right := At(y))];
        }
      }
    }

    /** leftRotate: `x` is the root of `S`, sitting in context `ctx`. */
    method LeftRotate(x: nat, ghost ctx: seq<Frame>, ghost S: Tree)
      requires Wf() && Shape == Plug(ctx, S) && S.Node? && S.id == x && S.right.Node?
      modifies this
      ensures Wf() && Shape == Plug(ctx, RotateLeft(S))
      ensures root == (if ctx == [] then At(S.right.id) else old(root))
      ensures size == old(size) && |nodes| == |old(nodes)|
    {
      Locate(nodes, ctx, S);
      LeftRotatedLinked(nodes, ctx, S);
      ghost var N0 := nodes;
      ghost var b := S.right.left;
      assert Linked(nodes, S.right);
      var newNode := nodes[x].right;
      var y := newNode.index;
      if newNode.At? {
        nodes := nodes[x := nodes[x].(right := nodes[y].left)];
      }
      assert nodes == N0[x := N0[x].(right := PtrOf(b))];
      if nodes[x].right.At? {
        var c := nodes[x].right.index;
        nodes := nodes[c := nodes[c].(parent := At(x))];
      }
      Reattach(x, y, ctx);
      nodes := nodes[y := nodes[y].(left := At(x))];
      nodes := nodes[x := nodes[x].(parent := newNode)];
      assert nodes == LeftRotated(N0, ctx, S);
      ghost var S' := RotateLeft(S);
      if ctx != [] {
        PlugRoot(ctx, S);
        PlugRoot(ctx, S');
      }
      Shape := Plug(ctx, S');
    }

    /** rightRotate: the mirror image of LeftRotate. */
    method RightRotate(x: nat, ghost ctx: seq<Frame>, ghost S: Tree)
      requires Wf() && Shape == Plug(ctx, S) && S.Node? && S.id == x && S.left.Node?
      modifies this
      ensures Wf() && Shape == Plug(ctx, RotateRight(S))
      ensures root == (if ctx == [] then At(S.left.id) else old(root))
      ensures size == old(size) && |nodes| == |old(nodes)|
    {
      Locate(nodes, ctx, S);
      RightRotatedLinked(nodes, ctx, S);
      ghost var N0 := nodes;
      ghost var b := S.left.right;
      assert Linked(nodes, S.left);
      var temp := nodes[x].left;
      var y := temp.index;
      nodes := nodes[x := nodes[x].(left := nodes[y].right)];
      assert nodes == N0[x := N0[x].(left := PtrOf(b))];
      if nodes[x].left.At? {
        var c := nodes[x].left.index;
        nodes := nodes[c := nodes[c].(parent := At(x))];
      }
      Reattach(x, y, ctx);
      nodes := nodes[y := nodes[y].(right := At(x))];
      nodes := nodes[x := nodes[x].(parent := temp)];
      assert nodes == RightRotated(N0, ctx, S);
      ghost var S' := RotateRight(S);
      if ctx != [] {
        PlugRoot(ctx, S);
        PlugRoot(ctx, S');
      }
      Shape := Plug(ctx, S');
    }

    /** getSibling: the other child of n's parent, Null at the root. */
    method GetSibling(n: nat, ghost ctx: seq<Frame>, ghost s: Tree) returns (sib: Ptr)
      requires Wf() && Shape == Plug(ctx, s) && s.Node? && s.id == n
      ensures sib == (if ctx == [] then Null else PtrOf(Sibling(ctx[0])))
    {
      Locate(nodes, ctx, s);
      var p := nodes[n].parent;
      if p.Null? {
        return Null;
      }
      if nodes[p.index].left == At(n) {
        return nodes[p.index].right;
      }
      return nodes[p.index].left;
    }

    /** Paints node `n`, the root of `s`, with colour `c`. */
    method Paint(n: nat, c: Color, ghost ctx: seq<Frame>, ghost s: Tree)
      requires Wf() && Shape == Plug(ctx, s) && s.Node? && s.id == n
      modifies this
      ensures Wf() && Shape == Plug(ctx, s.(color := c))
      ensures size == old(size) && |nodes| == |old(nodes)|
    {
      RecolorLinked(nodes, ctx, s, c);
      nodes := nodes[n := nodes[n].(color := c)];
      if ctx != [] {
        PlugRoot(ctx, s);
        PlugRoot(ctx, s.(color := c));
      }
      Shape := Plug(ctx, s.(color := c));
    }

    /** caseOneInsert: a node without a parent is painted black. */
    method CaseOneInsert(n: nat, ghost ctx: seq<Frame>, ghost s: Tree)
      requires Wf() && Shape == Plug(ctx, s) && s.Node? && s.id == n
      modifies this
      ensures Wf() && Shape == (if ctx == [] then s.(color := Black) else old(Shape))
      ensures size == old(size) && |nodes| == |old(nodes)|
    {
      Locate(nodes, ctx, s);
      if nodes[n].parent.Null? {
        Paint(n, Black, ctx, s);
        Paint(root.index, Black, ctx, s.(color := Black));
      }
    }

    /** fixingUpTheTree: restores the colour rules after the red node `n`,
        the root of `s`, was hung into context `ctx`. */
    method FixingUpTheTree(n: nat, ghost ctx: seq<Frame>, ghost s: Tree) returns (r: int)
      requires Wf() && Shape == Plug(ctx, s) && s.Node? && s.id == n && TopBlack(ctx)
      modifies this
      ensures Wf() && Shape == Fixup(ctx, s) && r == 1
      ensures size == old(size) && |nodes| == |old(nodes)|
      decreases |ctx|, 1
    {
      Locate(nodes, ctx, s);
      if nodes[n].parent.Null? {
        CaseOneInsert(n, ctx, s);
        return 1;
      }
      var p := nodes[n].parent.index;
      if nodes[p].color == Black {
        return 1;
      }
      assert |ctx| >= 2;
      ghost var ps := PlugOne(ctx[0], s);
      assert Shape == Plug(ctx[1..], ps);
      Locate(nodes, ctx[1..], ps);
      var uncle := GetSibling(p, ctx[1..], ps);
      assert Linked(nodes, Sibling(ctx[1]));
      if uncle.At? && nodes[uncle.index].color == Red {
        CaseThreeInsert(n, ctx, s);
        return 1;
      }
      CaseFourInsert(n, ctx, s);
      return 1;
    }

    /** caseThreeInsert: parent and uncle are red; both turn black, the
        grandparent turns red and is fixed up in turn. */
    method CaseThreeInsert(n: nat, ghost ctx: seq<Frame>, ghost s: Tree)
      requires Wf() && Shape == Plug(ctx, s) && s.Node? && s.id == n && TopBlack(ctx)
      requires |ctx| >= 2 && IsRed(Sibling(ctx[1]))
      modifies this
      ensures Wf() && Shape == Fixup(ctx[2..], Case3Lift(ctx, s))
      ensures size == old(size) && |nodes| == |old(nodes)|
      decreases |ctx|, 0
    {
      Locate(nodes, ctx, s);
      ghost var ps := PlugOne(ctx[0], s);
      assert Shape == Plug(ctx[1..], ps);
      Locate(nodes, ctx[1..], ps);
      var g := nodes[nodes[n].parent.index].parent.index;
      var p := nodes[n].parent.index;
      Paint(p, Black, ctx[1..], ps);
      ghost var ps' := PlugOne(ctx[0].(color := Black), s);
      assert ps.(color := Black) == ps';
      var uncle := GetSibling(p, ctx[1..], ps');
      ghost var u := Sibling(ctx[1]);
      ghost var uctx := [Flip(ctx[1], ps')] + ctx[2..];
      assert PlugOne(Flip(ctx[1], ps'), u) == PlugOne(ctx[1], ps');
      assert uctx[1..] == ctx[2..] && ctx[1..][1..] == ctx[2..];
      assert Shape == Plug(uctx, u);
      Paint(uncle.index, Black, uctx, u);
      ghost var gs := PlugOne(Flip(ctx[1], ps'), u.(color := Black));
      assert Shape == Plug(ctx[2..], gs);
      Paint(g, Red, ctx[2..], gs);
      assert gs.(color := Red) == Case3Lift(ctx, s);
      var _ := FixingUpTheTree(g, ctx[2..], Case3Lift(ctx, s));
    }

    /** caseFourInsert: the parent is red and the uncle black; a zig-zag is
        first straightened by rotating at the parent, then the grandparent
        is rotated and the two nodes swap colours. */
    method CaseFourInsert(n: nat, ghost ctx: seq<Frame>, ghost s: Tree)
      requires Wf() && Shape == Plug(ctx, s) && s.Node? && s.id == n && |ctx| >= 2
      modifies this
      ensures Wf() && Shape == Case4(ctx, s)
      ensures size == old(size) && |nodes| == |old(nodes)|
    {
      Locate(nodes, ctx, s);
      ghost var ps := PlugOne(ctx[0], s);
      assert Shape == Plug(ctx[1..], ps);
      Locate(nodes, ctx[1..], ps);
      var node := n;
      var p := nodes[node].parent.index;
      var g := nodes[p].parent.index;
      ghost var c1, s1 := Straighten(ctx, s).0, Straighten(ctx, s).1;
      if nodes[p].right == At(node) && nodes[g].left == At(p) {
        LeftRotate(p, ctx[1..], ps);
        assert Shape == Plug(c1, s1);
        Locate(nodes, c1, s1);
        node := nodes[node].left.index;
      } else if nodes[p].left == At(node) && nodes[g].right == At(p) {
        RightRotate(p, ctx[1..], ps);
        assert Shape == Plug(c1, s1);
        Locate(nodes, c1, s1);
        node := nodes[node].right.index;
      } else {
        assert c1 == ctx && s1 == s;
      }
      assert node == s1.id;
      ghost var ps1 := PlugOne(c1[0], s1);
      ghost var G := PlugOne(c1[1], ps1);
      assert Shape == Plug(c1[2..], G) by {
        assert c1[1..][1..] == c1[2..];
      }
      Locate(nodes, c1, s1);
      Locate(nodes, c1[1..], ps1);
      p := nodes[node].parent.index;
      g := nodes[p].parent.index;
      if nodes[p].left == At(node) {
        RightRotate(g, c1[2..], G);
        ghost var r := RotateRight(G);
        Paint(p, Black, c1[2..], r);
        ghost var top := RightHole(Black, r.left, r.id, r.key);
        assert Shape == Plug([top] + c1[2..], r.right) by {
          assert ([top] + c1[2..])[1..] == c1[2..];
        }
        Paint(g, Red, [top] + c1[2..], r.right);
        assert ([top] + c1[2..])[1..] == c1[2..];
      } else {
        LeftRotate(g, c1[2..], G);
        ghost var r := RotateLeft(G);
        Paint(p, Black, c1[2..], r);
        ghost var top := LeftHole(Black, r.id, r.key, r.right);
        assert Shape == Plug([top] + c1[2..], r.left) by {
          assert ([top] + c1[2..])[1..] == c1[2..];
        }
        Paint(g, Red, [top] + c1[2..], r.left);
        assert ([top] + c1[2..])[1..] == c1[2..];
      }
    }

    /** Hangs a new red node holding `data` as the right child of `cur`,
        the root of `sub` (lines 285-286 of addToRBTree). */
    method HangRight(cur: nat, data: int, ghost ctx: seq<Frame>, ghost sub: Tree)
      requires Wf() && Shape == Plug(ctx, sub) && sub.Node? && sub.id == cur && sub.right.Leaf?
      modifies this
      ensures Wf() && size == old(size) && |nodes| == |old(nodes)| + 1
      ensures Shape == Plug([RightHole(sub.color, sub.left, sub.id, sub.key)] + ctx,
                            Node(Red, Leaf, |old(nodes)|, data, Leaf))
    {
      Locate(nodes, ctx, sub);
      ghost var N := nodes;
      var newNode := |nodes|;
      nodes := nodes + [NodeRec(At(cur), Null, Null, Red, data)];
      nodes := nodes[cur := nodes[cur].(right := At(newNode))];
      AttachRightLinked(N, nodes, ctx, sub, data);
      ghost var leaf := Node(Red, Leaf, newNode, data, Leaf);
      ghost var hole := [RightHole(sub.color, sub.left, sub.id, sub.key)] + ctx;
      assert hole[1..] == ctx;
      PlugRoot(hole, Leaf);
      PlugRoot(hole, leaf);
      Shape := Plug(hole, leaf);
    }

    /** Mirror image of HangRight (lines 295-296 of addToRBTree). */
    method HangLeft(cur: nat, data: int, ghost ctx: seq<Frame>, ghost sub: Tree)
      requires Wf() && Shape == Plug(ctx, sub) && sub.Node? && sub.id == cur && sub.left.Leaf?
      modifies this
      ensures Wf() && size == old(size) && |nodes| == |old(nodes)| + 1
      ensures Shape == Plug([LeftHole(sub.color, sub.id, sub.key, sub.right)] + ctx,
                            Node(Red, Leaf, |old(nodes)|, data, Leaf))
    {
      Locate(nodes, ctx, sub);
      ghost var N := nodes;
      var newNode := |nodes|;
      nodes := nodes + [NodeRec(At(cur), Null, Null, Red, data)];
      nodes := nodes[cur := nodes[cur].(left := At(newNode))];
      AttachLeftLinked(N, nodes, ctx, sub, data);
      ghost var leaf := Node(Red, Leaf, newNode, data, Leaf);
      ghost var hole := [LeftHole(sub.color, sub.id, sub.key, sub.right)] + ctx;
      assert hole[1..] == ctx;
      PlugRoot(hole, Leaf);
      PlugRoot(hole, leaf);
      Shape := Plug(hole, leaf);
    }

    /** The body of addToRBTree once `tree` and `data` are known to be
        non-null: 1 when `data` was absent and is now stored, 0 (and no
        change) when it was already present. */
    method Add(data: int) returns (r: int)
      requires Valid()
      modifies this
      ensures Valid()
      ensures r == (if data in old(Elements()) then 0 else 1)
      ensures r == 0 ==> nodes == old(nodes) && root == old(root) && Shape == old(Shape)
      ensures r == 1 ==> forall x :: x in Elements() <==> x in old(Elements()) || x == data
      ensures size == old(size) + r
    {
      ghost var T := Shape;
      var newNode := |nodes|;
      var curNode := root;
      if curNode.Null? {
        assert Shape == Leaf && nodes == [];
        nodes := nodes + [NodeRec(Null, Null, Null, Black, data)];
        root := At(newNode);
        Shape := Node(Black, Leaf, newNode, data, Leaf);
        assert Linked(nodes, Shape.left) && Linked(nodes, Shape.right);
        size := size + 1;
        return 1;
      }
      ghost var ctx: seq<Frame> := [];
      ghost var sub := Shape;
      ghost var hole: seq<Frame> := [];
      ghost var leaf := Node(Red, Leaf, newNode, data, Leaf);
      while curNode.At?
        invariant nodes == old(nodes) && root == old(root) && size == old(size) && Shape == T
        invariant sub.Node? && curNode == At(sub.id) && T == Plug(ctx, sub)
        invariant Ascending(Keys(sub))
        invariant data in Keys(T) <==> data in Keys(sub)
        invariant Plug(ctx, Insert(sub, newNode, data)) == Insert(T, newNode, data)
        decreases Size(sub)
      {
        Locate(nodes, ctx, sub);
        MemberSide(sub, data);
        var cur := curNode.index;
        var relation := Compare(data, nodes[cur].data);
        if relation == 0 {
          return 0;
        }
        if relation > 0 {
          DescendRight(ctx, sub, newNode, data);
          if nodes[cur].right.Null? {
            HangRight(cur, data, ctx, sub);
            hole := [RightHole(sub.color, sub.left, sub.id, sub.key)] + ctx;
            assert data !in Keys(T) && Plug(hole, Leaf) == T;
            assert Plug(hole, leaf) == Insert(T, newNode, data);
            assert |nodes| == |Keys(T)| + 1;
            break;
          }
          ctx := [RightHole(sub.color, sub.left, sub.id, sub.key)] + ctx;
          sub := sub.right;
          curNode := nodes[cur].right;
        }
        if relation < 0 {
          DescendLeft(ctx, sub, newNode, data);
          if nodes[cur].left.Null? {
            HangLeft(cur, data, ctx, sub);
            hole := [LeftHole(sub.color, sub.id, sub.key, sub.right)] + ctx;
            assert data !in Keys(T) && Plug(hole, Leaf) == T;
            assert Plug(hole, leaf) == Insert(T, newNode, data);
            assert |nodes| == |Keys(T)| + 1;
            break;
          }
          ctx := [LeftHole(sub.color, sub.id, sub.key, sub.right)] + ctx;
          sub := sub.left;
          curNode := nodes[cur].left;
        }
      }
      InsertThenFixup(T, hole, newNode, data);
      var _ := FixingUpTheTree(newNode, hole, leaf);
      size := size + 1;
      assert Shape == Fixup(hole, leaf);
      return 1;
    }

    /** traverseInOrder: the elements handed to the visitor, in call order. */
    method TraverseInOrder(node: Ptr, ghost sub: Tree) returns (visited: seq<int>)
      requires Linked(nodes, sub) && node == PtrOf(sub)
      ensures visited == Keys(sub)
      decreases sub
    {
      if node.Null? {
        return [];
      }
      var before := TraverseInOrder(nodes[node.index].left, sub.left);
      var here := nodes[node.index].data;
      var after := TraverseInOrder(nodes[node.index].right, sub.right);
      visited := before + [here] + after;
    }

    /** freeTreeHelper: the nodes released, children before parents, and
        the payloads handed to the destructor (none without one). */
    method FreeTreeHelper(node: Ptr, ghost sub: Tree) returns (freed: seq<int>, released: seq<nat>)
      requires Linked(nodes, sub) && node == PtrOf(sub)
      ensures released == PostOrderIds(sub)
      ensures freed == (if hasFreeFunc then PostOrderKeys(sub) else [])
      decreases sub
    {
      if node.Null? {
        return [], [];
      }
      var freedLeft, releasedLeft := FreeTreeHelper(nodes[node.index].left, sub.left);
      var freedRight, releasedRight := FreeTreeHelper(nodes[node.index].right, sub.right);
      freed := freedLeft + freedRight;
      if hasFreeFunc {
        freed := freed + [nodes[node.index].data];
      }
      released := releasedLeft + releasedRight + [node.index];
    }
  }

  /** addToRBTree: 0 for a null tree or null data, otherwise as Add. */
  method AddToRBTree(tree: RBTree?, data: Option<int>) returns (r: int)
    requires tree != null ==> tree.Valid()
    modifies tree
    ensures tree != null ==> tree.Valid()
    ensures tree == null || data.None? ==> r == 0
    ensures tree != null && data.None? ==> unchanged(tree)
    ensures tree != null && data.Some? ==>
      r == (if data.value in old(tree.Elements()) then 0 else 1) &&
      tree.size == old(tree.size) + r &&
      (forall x :: x in tree.Elements() <==> x in old(tree.Elements()) || x == data.value)
    ensures tree != null && data.Some? && r == 0 ==>
      tree.nodes == old(tree.nodes) && tree.root == old(tree.root) && tree.Shape == old(tree.Shape)
  {
    if data.None? {
      return 0;
    }
    if tree == null {
      return 0;
    }
    r := tree.Add(data.value);
  }

  /** containsRBTree: -1 for a null tree, else 1 or 0 as `data` is stored
      or not. */
  method ContainsRBTree(tree: RBTree?, data: int) returns (r: int)
    requires tree != null ==> tree.Valid()
    ensures tree == null ==> r == -1
    ensures tree != null ==> (r == 1 <==> data in tree.Elements()) && (r == 0 <==> data !in tree.Elements())
  {
    if tree == null {
      return -1;
    }
    var curNode := tree.root;
    ghost var sub := tree.Shape;
    while curNode.At?
      invariant Linked(tree.nodes, sub) && curNode == PtrOf(sub) && Ascending(Keys(sub))
      invariant data in tree.Elements() <==> data in Keys(sub)
      decreases Size(sub)
    {
      MemberSide(sub, data);
      var relation := Compare(data, tree.nodes[curNode.index].data);
      if relation == 0 {
        return 1;
      }
      if relation > 0 {
        curNode := tree.nodes[curNode.index].right;
        sub := sub.right;
      }
      if relation < 0 {
        curNode := tree.nodes[curNode.index].left;
        sub := sub.left;
      }
    }
    return 0;
  }

  /** forEachRBTree: 0 for a null tree; otherwise 1, with the visitor
      called once per element in ascending order. */
  method ForEachRBTree(tree: RBTree?) returns (r: int, visited: seq<int>)
    requires tree != null ==> tree.Valid()
    ensures tree == null ==> r == 0 && visited == []
    ensures tree != null ==> r == 1 && visited == tree.Elements()
    ensures tree != null ==> Ascending(visited) && |visited| == tree.size
  {
    if tree == null {
      return 0, [];
    }
    visited := tree.TraverseInOrder(tree.root, tree.Shape);
    return 1, visited;
  }

  /** freeRBTree: every node is released exactly once, and the destructor,
      if any, receives every element exactly once. */
  method FreeRBTree(tree: RBTree) returns (freed: seq<int>, released: seq<nat>)
    requires tree.Valid()
    ensures NoDuplicates(released) && |released| == tree.size
    ensures forall i :: i in released <==> i in Ids(tree.Shape)
    ensures tree.hasFreeFunc ==> multiset(freed) == multiset(tree.Elements())
    ensures !tree.hasFreeFunc ==> freed == []
  {
    freed, released := tree.FreeTreeHelper(tree.root, tree.Shape);
    PostOrderReleasesEachOnce(tree.Shape);
    PostOrderKeysPermutation(tree.Shape);
    SizeIsKeyCount(tree.Shape);
  }
}
