/**
 * The pure view of the red-black tree: a value tree whose nodes carry the
 * arena index (`id`) of the node record they stand for, its colour and its
 * key, and zipper contexts that locate a subtree inside a whole tree.
 */
module RedBlack {

  datatype Color = Red | Black

  datatype Tree = Leaf | Node(color: Color, left: Tree, id: nat, key: int, right: Tree)

  /** One step from a subtree up to its parent: the parent's colour, id, key,
      and the parent's other child. `LeftHole` means the subtree is the
      parent's left child. */
  datatype Frame =
    | LeftHole(color: Color, id: nat, key: int, right: Tree)
    | RightHole(color: Color, left: Tree, id: nat, key: int)

  // ---------------------------------------------------------------------
  // Contents
  // ---------------------------------------------------------------------

  /** In-order sequence of keys. */
  function Keys(t: Tree): seq<int>
  {
    match t
    case Leaf => []
    case Node(_, l, _, k, r) => Keys(l) + [k] + Keys(r)
  }

  /** Arena indices used by the nodes of `t`. */
  function Ids(t: Tree): set<nat>
  {
    match t
    case Leaf => {}
    case Node(_, l, i, _, r) => Ids(l) + {i} + Ids(r)
  }

  /** Every node of `t` has its own arena index. */
  predicate Distinct(t: Tree)
  {
    match t
    case Leaf => true
    case Node(_, l, i, _, r) =>
      Distinct(l) && Distinct(r) && i !in Ids(l) && i !in Ids(r) && Ids(l) !! Ids(r)
  }

  predicate Ascending(s: seq<int>)
  {
    forall i, j :: 0 <= i < j < |s| ==> s[i] < s[j]
  }

  /** Number of nodes. */
  function Size(t: Tree): nat
  {
    match t
    case Leaf => 0
    case Node(_, l, _, _, r) => Size(l) + 1 + Size(r)
  }

  lemma {:induction false} SizeIsKeyCount(t: Tree)
    ensures |Keys(t)| == Size(t)
  {
    match t
    case Leaf =>
    case Node(_, l, _, _, r) => SizeIsKeyCount(l); SizeIsKeyCount(r);
  }

  lemma AscendingConcat(a: seq<int>, k: int, b: seq<int>)
    requires Ascending(a) && Ascending(b)
    requires forall x :: x in a ==> x < k
    requires forall x :: x in b ==> k < x
    ensures Ascending(a + [k] + b)
  {
    var s := a + [k] + b;
    forall i, j | 0 <= i < j < |s| ensures s[i] < s[j] {
      if j < |a| {
      } else if i < |a| {
        assert s[i] in a;
        if j > |a| { assert s[j] in b; }
      } else if i == |a| {
        assert s[j] in b;
      } else {
        assert s[i] == b[i - |a| - 1] && s[j] == b[j - |a| - 1];
      }
    }
  }

  lemma AscendingSplit(a: seq<int>, k: int, b: seq<int>)
    requires Ascending(a + [k] + b)
    ensures Ascending(a) && Ascending(b)
    ensures forall x :: x in a ==> x < k
    ensures forall x :: x in b ==> k < x
  {
    var s := a + [k] + b;
    forall i, j | 0 <= i < j < |b| ensures b[i] < b[j] {
      assert b[i] == s[|a| + 1 + i] && b[j] == s[|a| + 1 + j];
    }
    forall x | x in a ensures x < k {
      var i :| 0 <= i < |a| && a[i] == x;
      assert s[i] == x && s[|a|] == k;
    }
    forall x | x in b ensures k < x {
      var i :| 0 <= i < |b| && b[i] == x;
      assert s[|a| + 1 + i] == x && s[|a|] == k;
    }
    forall i, j | 0 <= i < j < |a| ensures a[i] < a[j] {
      assert a[i] == s[i] && a[j] == s[j];
    }
  }

  // ---------------------------------------------------------------------
  // Red-black invariants
  // ---------------------------------------------------------------------

  predicate IsRed(t: Tree)
  {
    t.Node? && t.color == Red
  }

  /** No RED node has a RED child. */
  predicate NoRedRed(t: Tree)
  {
    match t
    case Leaf => true
    case Node(c, l, _, _, r) =>
      NoRedRed(l) && NoRedRed(r) && (c == Red ==> !IsRed(l) && !IsRed(r))
  }

  /** Black nodes on the leftmost path, the node itself included. */
  function BH(t: Tree): nat
  {
    match t
    case Leaf => 0
    case Node(c, l, _, _, _) => BH(l) + (if c == Black then 1 else 0)
  }

  /** Both children of every node have the same black height. */
  predicate BlackBalanced(t: Tree)
  {
    match t
    case Leaf => true
    case Node(_, l, _, _, r) => BlackBalanced(l) && BlackBalanced(r) && BH(l) == BH(r)
  }

  /** The three colour invariants of a red-black tree. */
  predicate IsRB(t: Tree)
  {
    !IsRed(t) && NoRedRed(t) && BlackBalanced(t)
  }

  /** Black nodes met when following `path` (false = left, true = right)
      from the root. */
  function BlacksOnPath(t: Tree, path: seq<bool>): nat
  {
    match t
    case Leaf => 0
    case Node(c, l, _, _, r) =>
      (if c == Black then 1 else 0) +
      (if path == [] then 0 else BlacksOnPath(if path[0] then r else l, path[1..]))
  }

  /** `path` leads from the root exactly to an absent child. */
  predicate ReachesLeaf(t: Tree, path: seq<bool>)
  {
    match t
    case Leaf => path == []
    case Node(_, l, _, _, r) => path != [] && ReachesLeaf(if path[0] then r else l, path[1..])
  }

  /** Every root-to-absent-child path of a black-balanced tree meets the same
      number of BLACK nodes. */
  lemma {:induction false} BalancedPathsAgree(t: Tree, path: seq<bool>)
    requires BlackBalanced(t) && ReachesLeaf(t, path)
    ensures BlacksOnPath(t, path) == BH(t)
  {
    match t
    case Leaf =>
    case Node(c, l, _, _, r) =>
      BalancedPathsAgree(if path[0] then r else l, path[1..]);
  }

  // ---------------------------------------------------------------------
  // Zipper contexts
  // ---------------------------------------------------------------------

  function PlugOne(f: Frame, s: Tree): (t: Tree)
    ensures t.Node? && t.id == f.id && t.color == f.color
  {
    match f
    case LeftHole(c, i, k, r) => Node(c, s, i, k, r)
    case RightHole(c, l, i, k) => Node(c, l, i, k, s)
  }

  /** The other child of the frame's node. */
  function Sibling(f: Frame): Tree
  {
    match f
    case LeftHole(_, _, _, r) => r
    case RightHole(_, l, _, _) => l
  }

  /** The whole tree obtained by putting `s` in the hole of `ctx`. */
  function Plug(ctx: seq<Frame>, s: Tree): Tree
    decreases |ctx|
  {
    if ctx == [] then s else Plug(ctx[1..], PlugOne(ctx[0], s))
  }

  /** The frame of the same node with the hole moved to the other child;
      `t` becomes that other child. */
  function Flip(f: Frame, t: Tree): Frame
  {
    match f
    case LeftHole(c, i, k, _) => RightHole(c, t, i, k)
    case RightHole(c, _, i, k) => LeftHole(c, i, k, t)
  }

  function FrameIds(f: Frame): set<nat>
  {
    {f.id} + Ids(Sibling(f))
  }

  function CtxIds(ctx: seq<Frame>): set<nat>
    decreases |ctx|
  {
    if ctx == [] then {} else FrameIds(ctx[0]) + CtxIds(ctx[1..])
  }

  predicate DistinctCtx(ctx: seq<Frame>)
    decreases |ctx|
  {
    ctx == [] ||
    (Distinct(Sibling(ctx[0])) && ctx[0].id !in Ids(Sibling(ctx[0])) &&
     FrameIds(ctx[0]) !! CtxIds(ctx[1..]) && DistinctCtx(ctx[1..]))
  }

  /** The root of a non-empty context is its last frame. */
  predicate TopBlack(ctx: seq<Frame>)
  {
    ctx == [] || ctx[|ctx| - 1].color == Black
  }

  lemma {:induction false} PlugRoot(ctx: seq<Frame>, s: Tree)
    requires ctx != []
    ensures Plug(ctx, s).Node? && Plug(ctx, s).color == ctx[|ctx| - 1].color
    ensures Plug(ctx, s).id == ctx[|ctx| - 1].id
    decreases |ctx|
  {
    if |ctx| > 1 {
      PlugRoot(ctx[1..], PlugOne(ctx[0], s));
    }
  }

  lemma {:induction false} TopInCtxIds(ctx: seq<Frame>)
    requires ctx != []
    ensures ctx[|ctx| - 1].id in CtxIds(ctx)
    ensures |ctx| > 1 ==> ctx[|ctx| - 1].id in CtxIds(ctx[1..])
    decreases |ctx|
  {
    if |ctx| > 1 {
      TopInCtxIds(ctx[1..]);
    }
  }

  lemma {:induction false} IdsPlug(ctx: seq<Frame>, s: Tree)
    ensures Ids(Plug(ctx, s)) == Ids(s) + CtxIds(ctx)
    decreases |ctx|
  {
    if ctx != [] {
      IdsPlug(ctx[1..], PlugOne(ctx[0], s));
      match ctx[0]
      case LeftHole(_, _, _, _) =>
      case RightHole(_, _, _, _) =>
    }
  }

  /** A tree decomposed by a context has distinct ids exactly when the
      subtree, the context and their id sets do. */
  lemma {:induction false} DistinctPlug(ctx: seq<Frame>, s: Tree)
    ensures Distinct(Plug(ctx, s)) <==> Distinct(s) && DistinctCtx(ctx) && Ids(s) !! CtxIds(ctx)
    decreases |ctx|
  {
    if ctx != [] {
      var s1 := PlugOne(ctx[0], s);
      DistinctPlug(ctx[1..], s1);
      match ctx[0]
      case LeftHole(_, _, _, _) =>
      case RightHole(_, _, _, _) =>
    }
  }

  /** Replacing the subtree in the hole by one with the same keys keeps the
      in-order sequence of the whole tree. */
  lemma {:induction false} KeysReplace(ctx: seq<Frame>, s: Tree, s': Tree)
    requires Keys(s) == Keys(s')
    ensures Keys(Plug(ctx, s)) == Keys(Plug(ctx, s'))
    decreases |ctx|
  {
    if ctx != [] {
      KeysReplace(ctx[1..], PlugOne(ctx[0], s), PlugOne(ctx[0], s'));
    }
  }

  // ---------------------------------------------------------------------
  // Rotations
  // ---------------------------------------------------------------------

  /** The right child `y` of `t` becomes the subtree root and `t` its left
      child; `y`'s former left child moves to `t`'s right. Colours stay
      with their nodes. */
  function RotateLeft(t: Tree): Tree
    requires t.Node? && t.right.Node?
  {
    var Node(cx, a, x, kx, Node(cy, b, y, ky, c)) := t;
    Node(cy, Node(cx, a, x, kx, b), y, ky, c)
  }

  /** Mirror image of RotateLeft. */
  function RotateRight(t: Tree): Tree
    requires t.Node? && t.left.Node?
  {
    var Node(cx, Node(cy, a, y, ky, b), x, kx, c) := t;
    Node(cy, a, y, ky, Node(cx, b, x, kx, c))
  }

  lemma RotateLeftPreserves(t: Tree)
    requires t.Node? && t.right.Node?
    ensures Keys(RotateLeft(t)) == Keys(t)
    ensures Ids(RotateLeft(t)) == Ids(t)
    ensures Distinct(RotateLeft(t)) == Distinct(t)
    ensures Size(RotateLeft(t)) == Size(t)
  {
    var Node(cx, a, x, kx, Node(cy, b, y, ky, c)) := t;
    RegroupKeys(Keys(a), kx, Keys(b), ky, Keys(c));
    assert Ids(RotateLeft(t)) == (Ids(a) + {x} + Ids(b)) + {y} + Ids(c);
    assert Ids(t) == Ids(a) + {x} + (Ids(b) + {y} + Ids(c));
    DistinctThree(cx, a, x, kx, cy, b, y, ky, c);
  }

  /** The nodes of `t` in order, each as its id, colour and key. */
  function InOrder(t: Tree): seq<(nat, Color, int)>
  {
    match t
    case Leaf => []
    case Node(c, l, i, k, r) => InOrder(l) + [(i, c, k)] + InOrder(r)
  }

  /** Rotations move no node out of its in-order place and change no
      node's colour or key. */
  lemma RotationsKeepInOrder(t: Tree)
    requires t.Node?
    ensures t.right.Node? ==> InOrder(RotateLeft(t)) == InOrder(t)
    ensures t.left.Node? ==> InOrder(RotateRight(t)) == InOrder(t)
  {
    if t.right.Node? {
      var Node(cx, a, x, kx, Node(cy, b, y, ky, c)) := t;
      RegroupKeys(InOrder(a), (x, cx, kx), InOrder(b), (y, cy, ky), InOrder(c));
    }
    if t.left.Node? {
      var Node(cx, Node(cy, a, y, ky, b), x, kx, c) := t;
      RegroupKeys(InOrder(a), (y, cy, ky), InOrder(b), (x, cx, kx), InOrder(c));
    }
  }

  /** The in-order sequence does not depend on how it is grouped. */
  lemma RegroupKeys<T>(a: seq<T>, k1: T, b: seq<T>, k2: T, c: seq<T>)
    ensures (a + [k1] + b) + [k2] + c == a + [k1] + (b + [k2] + c)
  {
  }

  /** Both ways of hanging three subtrees under two nodes are id-distinct
      under the same condition. */
  lemma DistinctThree(cx: Color, a: Tree, x: nat, kx: int, cy: Color, b: Tree, y: nat, ky: int, c: Tree)
    ensures var all := Distinct(a) && Distinct(b) && Distinct(c) && x != y &&
        x !in Ids(a) + Ids(b) + Ids(c) && y !in Ids(a) + Ids(b) + Ids(c) &&
        Ids(a) !! Ids(b) && Ids(a) !! Ids(c) && Ids(b) !! Ids(c);
      Distinct(Node(cx, a, x, kx, Node(cy, b, y, ky, c))) == all &&
      Distinct(Node(cy, Node(cx, a, x, kx, b), y, ky, c)) == all
  {
    var inner := Node(cy, b, y, ky, c);
    assert Ids(inner) == Ids(b) + {y} + Ids(c);
    var low := Node(cx, a, x, kx, b);
    assert Ids(low) == Ids(a) + {x} + Ids(b);
  }

  lemma RotateRightPreserves(t: Tree)
    requires t.Node? && t.left.Node?
    ensures Keys(RotateRight(t)) == Keys(t)
    ensures Ids(RotateRight(t)) == Ids(t)
    ensures Distinct(RotateRight(t)) == Distinct(t)
    ensures Size(RotateRight(t)) == Size(t)
  {
    var Node(cx, Node(cy, a, y, ky, b), x, kx, c) := t;
    RegroupKeys(Keys(a), ky, Keys(b), kx, Keys(c));
    assert Ids(RotateRight(t)) == Ids(a) + {y} + (Ids(b) + {x} + Ids(c));
    assert Ids(t) == (Ids(a) + {y} + Ids(b)) + {x} + Ids(c);
    DistinctThree(cy, a, y, ky, cx, b, x, kx, c);
  }

  // ---------------------------------------------------------------------
  // Plain binary-search-tree insertion of a RED node
  // ---------------------------------------------------------------------

  function Insert(t: Tree, id: nat, key: int): Tree
  {
    match t
    case Leaf => Node(Red, Leaf, id, key, Leaf)
    case Node(c, l, i, k, r) =>
      if key < k then Node(c, Insert(l, id, key), i, k, r)
      else if key > k then Node(c, l, i, k, Insert(r, id, key))
      else t
  }

  /** Inserting a key that is absent from an ordered tree keeps it ordered
      and adds exactly that key and that id. */
  lemma {:induction false} InsertAdds(t: Tree, id: nat, key: int)
    requires Ascending(Keys(t)) && key !in Keys(t)
    ensures Ascending(Keys(Insert(t, id, key)))
    ensures forall x :: x in Keys(Insert(t, id, key)) <==> x in Keys(t) || x == key
    ensures |Keys(Insert(t, id, key))| == |Keys(t)| + 1
    ensures Ids(Insert(t, id, key)) == Ids(t) + {id}
  {
    match t
    case Leaf =>
    case Node(c, l, i, k, r) =>
      AscendingSplit(Keys(l), k, Keys(r));
      if key < k {
        InsertAdds(l, id, key);
        AscendingConcat(Keys(Insert(l, id, key)), k, Keys(r));
      } else {
        InsertAdds(r, id, key);
        AscendingConcat(Keys(l), k, Keys(Insert(r, id, key)));
      }
  }

  /** Stepping from a node into its right child: the zipper still spells
      the same tree, and inserting in the child inserts in the whole. */
  lemma DescendRight(ctx: seq<Frame>, sub: Tree, id: nat, key: int)
    requires sub.Node? && key > sub.key
    ensures var c := [RightHole(sub.color, sub.left, sub.id, sub.key)] + ctx;
      Plug(c, sub.right) == Plug(ctx, sub) &&
      Plug(c, Insert(sub.right, id, key)) == Plug(ctx, Insert(sub, id, key))
  {
    var c := [RightHole(sub.color, sub.left, sub.id, sub.key)] + ctx;
    assert c[1..] == ctx;
  }

  /** Mirror image of DescendRight. */
  lemma DescendLeft(ctx: seq<Frame>, sub: Tree, id: nat, key: int)
    requires sub.Node? && key < sub.key
    ensures var c := [LeftHole(sub.color, sub.id, sub.key, sub.right)] + ctx;
      Plug(c, sub.left) == Plug(ctx, sub) &&
      Plug(c, Insert(sub.left, id, key)) == Plug(ctx, Insert(sub, id, key))
  {
    var c := [LeftHole(sub.color, sub.id, sub.key, sub.right)] + ctx;
    assert c[1..] == ctx;
  }

  /** In an ordered tree, a key lies in a node's subtree exactly when it is
      the node's key or lies in the side the comparison selects. */
  lemma MemberSide(t: Tree, key: int)
    requires t.Node? && Ascending(Keys(t))
    ensures Ascending(Keys(t.left)) && Ascending(Keys(t.right))
    ensures key < t.key ==> (key in Keys(t) <==> key in Keys(t.left))
    ensures key > t.key ==> (key in Keys(t) <==> key in Keys(t.right))
  {
    AscendingSplit(Keys(t.left), t.key, Keys(t.right));
  }

  // ---------------------------------------------------------------------
  // Post-order teardown
  // ---------------------------------------------------------------------

  /** Ids in the order freeTreeHelper releases the nodes: children first. */
  function PostOrderIds(t: Tree): seq<nat>
  {
    match t
    case Leaf => []
    case Node(_, l, i, _, r) => PostOrderIds(l) + PostOrderIds(r) + [i]
  }

  /** Keys in the same post-order. */
  function PostOrderKeys(t: Tree): seq<int>
  {
    match t
    case Leaf => []
    case Node(_, l, _, k, r) => PostOrderKeys(l) + PostOrderKeys(r) + [k]
  }

  predicate NoDuplicates(s: seq<nat>)
  {
    forall i, j :: 0 <= i < j < |s| ==> s[i] != s[j]
  }

  /** Post-order releases every node of an id-distinct tree exactly once. */
  lemma {:induction false} PostOrderReleasesEachOnce(t: Tree)
    requires Distinct(t)
    ensures NoDuplicates(PostOrderIds(t))
    ensures forall i :: i in PostOrderIds(t) <==> i in Ids(t)
    ensures |PostOrderIds(t)| == Size(t)
  {
    match t
    case Leaf =>
    case Node(_, l, i, _, r) =>
      PostOrderReleasesEachOnce(l);
      PostOrderReleasesEachOnce(r);
      var a, b := PostOrderIds(l), PostOrderIds(r);
      var s := a + b + [i];
      forall x, y | 0 <= x < y < |s| ensures s[x] != s[y] {
        if y < |a| {
        } else if x < |a| {
          assert s[x] in a;
          if y < |a| + |b| { assert s[y] == b[y - |a|]; assert s[y] in b; }
        } else if y < |a| + |b| {
          assert s[x] == b[x - |a|] && s[y] == b[y - |a|];
        } else {
          assert s[x] == b[x - |a|];
          assert s[x] in b;
        }
      }
  }

  /** The payloads handed to the destructor are exactly the stored keys. */
  lemma {:induction false} PostOrderKeysPermutation(t: Tree)
    ensures multiset(PostOrderKeys(t)) == multiset(Keys(t))
  {
    match t
    case Leaf =>
    case Node(_, l, _, k, r) =>
      PostOrderKeysPermutation(l);
      PostOrderKeysPermutation(r);
  }
}
