/**
 * One axis of the bimap: the AVL tree threaded through one half of every
 * node.  The Java class repeats each tree routine twice, once for
 * `leftHalf` and once for `rightHalf` (`leftRotateLeft`/`rightRotateLeft`,
 * `leftFix`/`rightFix`, `leftFind`/`rightFind`, ...); here each routine is a
 * single method of `Axis`, and the bimap owns one `Axis` per side.
 *
 * `halves` is the store of this axis's halves, indexed by node handle; the
 * ghost field `tree` is the tree those links spell out.
 */
module Axes {
  import opened KeyOrder
  import opened Trees
  import opened Arena
  import opened AxisProofs

  class Axis {
    var halves: seq<Half>
    ghost var tree: Tree

    ghost predicate Valid()
      reads this
    {
      AxisOk(halves, tree)
    }

    /** The axis with only the sentinel `rootParent` in it. */
    constructor()
      ensures Valid() && tree == Leaf && |halves| == 1
    {
      halves := [Half("", Null, Null, Null, 1)];
      tree := Leaf;
    }

    /** The handle of the root, `Null` when the axis is empty. */
    function RootHandle(): (r: int)
      reads this
      requires Valid()
      ensures r == Root(tree)
      ensures r == Null <==> Items(tree) == []
    {
      halves[Sentinel].right
    }

    // -------------------------------------------------------------------
    // Search and in-order stepping
    // -------------------------------------------------------------------

    /**
     * Binary search from the root (`leftFind`/`rightFind`): the node holding
     * `k` on this axis, or `Null` when no node does.
     */
    method Find(k: string) returns (x: int)
      requires Valid()
      ensures x == Null <==> k !in Keys(tree)
      ensures x != Null ==> 0 < x && Entry(x, k) in Items(tree)
    {
      x := halves[Sentinel].right;
      ghost var t, p := tree, Sentinel;
      while x != Null
        invariant Linked(halves, t, p) && x == Root(t) && Ascending(Items(t))
        invariant forall e :: e in Items(t) ==> e in Items(tree)
        invariant k in Keys(tree) ==> k in Keys(t)
        decreases t
      {
        KeysNode(t, k);
        AscendingNode(t);
        var c := Compare(k, halves[x].key);
        if c < 0 {
          x := halves[x].left;
          p, t := t.id, t.left;
        } else if c > 0 {
          x := halves[x].right;
          p, t := t.id, t.right;
        } else {
          return;
        }
      }
    }

    /** The leftmost node of the stored subtree `S` rooted at `x` (`leftMin`). */
    method Leftmost(x: int, ghost p: int, ghost S: Tree) returns (m: int)
      requires Linked(halves, S, p) && S.Node? && S.id == x
      ensures m == Items(S)[0].id
    {
      m := x;
      ghost var t, q := S, p;
      while halves[m].left != Null
        invariant Linked(halves, t, q) && t.Node? && m == t.id && Items(t)[0] == Items(S)[0]
        decreases t
      {
        m := halves[m].left;
        q, t := t.id, t.left;
      }
    }

    /** The rightmost node of the stored subtree `S` rooted at `x` (`leftMax`). */
    method Rightmost(x: int, ghost p: int, ghost S: Tree) returns (m: int)
      requires Linked(halves, S, p) && S.Node? && S.id == x
      ensures m == Items(S)[|Items(S)| - 1].id
    {
      m := x;
      ghost var t, q := S, p;
      while halves[m].right != Null
        invariant Linked(halves, t, q) && t.Node? && m == t.id
        invariant Items(t)[|Items(t)| - 1] == Items(S)[|Items(S)| - 1]
        decreases t
      {
        m := halves[m].right;
        q, t := t.id, t.right;
      }
    }

    /**
     * The in-order successor (`leftNext`) of the entry at position `i`, or of
     * the sentinel when `i` is -1.  The Java code climbs past the root into a
     * null parent when there is no successor, so callers ask only when there is one.
     */
    method Next(x: int, ghost i: int) returns (n: int)
      requires Valid() && -1 <= i < |Items(tree)| - 1
      requires x == if i < 0 then Sentinel else Items(tree)[i].id
      ensures n == Items(tree)[i + 1].id
    {
      ghost var ctx: seq<Frame>, S := [], tree;
      if 0 <= i {
        ctx, S := Locate([], tree, i).0, Locate([], tree, i).1;
        PositionFacts(halves, tree, ctx, S, i);
      }
      ghost var below := if i < 0 then tree else S.right;
      if halves[x].right != Null {
        n := Leftmost(halves[x].right, x, below);
        if 0 <= i {
          assert Items(tree)[i + 1] == Items(S.right)[0];
        }
      } else {
        var that := x;
        ghost var c, T := ctx, S;
        while that == halves[halves[that].parent].right
          invariant Plugged(halves, c, T) && Plug(c, T) == tree && T.Node? && that == T.id
          invariant Items(tree) == Before(c) + Items(T) + After(c) && |Before(c)| + |Items(T)| == i + 1
          decreases |c|
        {
          PluggedApart(halves, c, T);
          PluggedFacts(halves, c, T);
          if c == [] {
            assert false;
          }
          PlugUp(halves, c[0], c[1..], T);
          ItemsPlug(c[1..], Fill(c[0], T));
          that := halves[that].parent;
          c, T := c[1..], Fill(c[0], T);
        }
        PluggedApart(halves, c, T);
        PluggedFacts(halves, c, T);
        n := halves[that].parent;
      }
    }

    /**
     * The in-order predecessor (`leftPrev`) of the entry at position `i`, or
     * the sentinel for the first entry.
     */
    method Prev(x: int, ghost i: int) returns (n: int)
      requires Valid() && 0 <= i < |Items(tree)|
      requires x == Items(tree)[i].id
      ensures n == if i == 0 then Sentinel else Items(tree)[i - 1].id
    {
      ghost var (ctx, S) := Locate([], tree, i);
      PositionFacts(halves, tree, ctx, S, i);
      if halves[x].left != Null {
        n := Rightmost(halves[x].left, x, S.left);
        assert Items(tree)[i - 1] == Items(S.left)[|Items(S.left)| - 1];
      } else {
        var that := x;
        ghost var c, T := ctx, S;
        while that == halves[halves[that].parent].left
          invariant Plugged(halves, c, T) && Plug(c, T) == tree && T.Node? && that == T.id
          invariant Items(tree) == Before(c) + Items(T) + After(c) && |Before(c)| == i
          decreases |c|
        {
          PluggedApart(halves, c, T);
          PluggedFacts(halves, c, T);
          PlugUp(halves, c[0], c[1..], T);
          ItemsPlug(c[1..], Fill(c[0], T));
          that := halves[that].parent;
          c, T := c[1..], Fill(c[0], T);
        }
        PluggedApart(halves, c, T);
        PluggedFacts(halves, c, T);
        n := halves[that].parent;
      }
    }

    /**
     * Whether an entry follows position `i` (-1 standing for the sentinel the
     * iterator starts at): the entry-set iterator's `hasNext`.
     */
    method HasNextFrom(x: int, ghost i: int) returns (b: bool)
      requires Valid() && -1 <= i < |Items(tree)|
      requires x == if i < 0 then Sentinel else Items(tree)[i].id
      ensures b <==> i + 1 < |Items(tree)|
    {
      LinkedKeys(halves, tree, Sentinel);
      if halves[x].right != Null {
        if 0 <= i {
          ghost var (ctx, S) := Locate([], tree, i);
          PositionFacts(halves, tree, ctx, S, i);
          assert |Items(S.right)| > 0;
        }
        return true;
      }
      var that := x;
      ghost var c: seq<Frame>, T := [], Leaf;
      if 0 <= i {
        ghost var r := Locate([], tree, i);
        c, T := r.0, r.1;
        PositionFacts(halves, tree, c, T, i);
      }
      while halves[that].parent != Null && that == halves[halves[that].parent].right
        invariant 0 <= that < |halves|
        invariant that == Sentinel ==> i + 1 == |Items(tree)| && halves[that].parent == Null
        invariant that != Sentinel ==>
          && Plugged(halves, c, T) && Plug(c, T) == tree && T.Node? && that == T.id
          && Items(tree) == Before(c) + Items(T) + After(c) && |Before(c)| + |Items(T)| == i + 1
        decreases if that == Sentinel then 0 else |c| + 1
      {
        PluggedApart(halves, c, T);
        PluggedFacts(halves, c, T);
        that := halves[that].parent;
        if c != [] {
          PlugUp(halves, c[0], c[1..], T);
          ItemsPlug(c[1..], Fill(c[0], T));
          c, T := c[1..], Fill(c[0], T);
        }
      }
      if that != Sentinel {
        PluggedApart(halves, c, T);
        PluggedFacts(halves, c, T);
      }
      b := halves[that].parent != Null;
    }

    /**
     * The descent of `put` (lines of the `while (true)` search): from the
     * root down to the null link where the absent key `k` belongs, returning
     * the node above that link and which of its links it is.
     */
    method Descend(k: string) returns (p: int, goLeft: bool, ghost ctx: seq<Frame>)
      requires Valid() && tree.Node? && k !in Keys(tree)
      ensures ctx != [] && Par(ctx) == p && ctx[0].goLeft == goLeft
      ensures Plugged(halves, ctx, Leaf) && Plug(ctx, Leaf) == tree
      ensures forall e :: e in Before(ctx) ==> Less(e.key, k)
      ensures forall e :: e in After(ctx) ==> Less(k, e.key)
    {
      p := halves[Sentinel].right;
      ghost var t := tree;
      ctx := [];
      while true
        invariant Plugged(halves, ctx, t) && Plug(ctx, t) == tree && t.Node? && p == t.id
        invariant Ascending(Items(t)) && Keys(t) <= Keys(tree)
        invariant forall e :: e in Before(ctx) ==> Less(e.key, k)
        invariant forall e :: e in After(ctx) ==> Less(k, e.key)
        decreases t
      {
        KeysNode(t, k);
        AscendingNode(t);
        ghost var f: Frame;
        var c := Compare(k, halves[p].key);
        if c < 0 {
          f := Frame(true, t.id, t.key, t.right);
          DescendStep(ctx, t, f, k);
          DownLeft(halves, ctx, t);
          if halves[p].left == Null {
            goLeft := true;
            ctx := [f] + ctx;
            break;
          }
          p := halves[p].left;
          ctx, t := [f] + ctx, t.left;
        } else {
          f := Frame(false, t.id, t.key, t.left);
          DescendStep(ctx, t, f, k);
          DownRight(halves, ctx, t);
          if halves[p].right == Null {
            goLeft := false;
            ctx := [f] + ctx;
            break;
          }
          p := halves[p].right;
          ctx, t := [f] + ctx, t.right;
        }
      }
    }

    /**
     * One axis of the `new Node(left, right, leftNode, rightNode)` of `put`
     * and the link that follows it: a fresh half of key `k` is appended at
     * handle `n` below `p`, in the child slot the descent ended at.  When the
     * axis is empty `p` is the sentinel and the node becomes the root.
     */
    method Attach(k: string, p: int, goLeft: bool, ghost ctx: seq<Frame>) returns (n: int)
      requires Valid() && Plugged(halves, ctx, Leaf) && Plug(ctx, Leaf) == tree
      requires p == Par(ctx) && goLeft == (ctx != [] && ctx[0].goLeft)
      requires forall e :: e in Before(ctx) ==> Less(e.key, k)
      requires forall e :: e in After(ctx) ==> Less(k, e.key)
      modifies this
      ensures n == |old(halves)| && |halves| == n + 1 && halves[n].key == k
      ensures forall i :: 0 <= i < n ==> halves[i].key == old(halves)[i].key
      ensures tree == Plug(ctx, Node(Leaf, n, k, Leaf))
      ensures Items(tree) == Before(ctx) + [Entry(n, k)] + After(ctx)
      ensures ctx == [] ==> Valid()
      ensures ctx != [] ==> Walking(halves, tree, p, ctx[1..], Fill(ctx[0], Node(Leaf, n, k, Leaf)), Height(Fill(ctx[0], Leaf)))
    {
      AttachCorrect(halves, ctx, k);
      ghost var h := halves;
      n := |halves|;
      halves := halves + [Half(k, Null, Null, p, 1)];
      if goLeft {
        halves := halves[p := halves[p].(left := n)];
      } else {
        halves := halves[p := halves[p].(right := n)];
      }
      assert halves == Attached(h, ctx, k);
      tree := Plug(ctx, Node(Leaf, n, k, Leaf));
    }

    /**
     * One axis's share of `put` on a non-empty bimap: the descent to the
     * null link where `k` belongs, the link to a fresh node `n`, and the
     * rebalancing walk from its parent.  The Java method descends both axes,
     * then links both, then fixes both; the axes share no state, so doing one
     * axis after the other ends in the same state.
     */
    method Insert(k: string) returns (n: int)
      requires Valid() && tree.Node? && k !in Keys(tree)
      modifies this
      ensures Valid() && Grew(old(halves), old(tree), halves, tree, n, k)
    {
      var p, goLeft, ctx := Descend(k);
      ItemsPlug(ctx, Leaf);
      n := Attach(k, p, goLeft, ctx);
      Fix(p, ctx[1..], Fill(ctx[0], Node(Leaf, n, k, Leaf)), Height(Fill(ctx[0], Leaf)));
      InsertedMembers(ctx, n, k);
      Grown(old(tree), tree, Entry(n, k));
    }

    /** `clear`: the sentinel forgets the root; the old nodes stay in the store, unreachable. */
    method Clear()
      requires Valid()
      modifies this
      ensures Valid() && tree == Leaf
      ensures halves == old(halves)[Sentinel := old(halves)[Sentinel].(right := Null)]
    {
      halves := halves[Sentinel := halves[Sentinel].(right := Null)];
      tree := Leaf;
    }

    // -------------------------------------------------------------------
    // Link and height primitives
    // -------------------------------------------------------------------

    /** Store at `x` one more than the larger stored height of its children. */
    method FixHeight(x: int)
      requires 0 <= x < |halves| && IsLink(halves, halves[x].left) && IsLink(halves, halves[x].right)
      modifies this
      ensures tree == old(tree)
      ensures halves == HeightFixed(old(halves), x)
    {
      var hl := StoredHeight(halves, halves[x].left);
      var hr := StoredHeight(halves, halves[x].right);
      halves := halves[x := halves[x].(height := 1 + Max(hl, hr))];
    }

    /** Make `c` the left child of `x`, and `x` the parent of `c` unless `c` is null. */
    method SetLeft(x: int, c: int)
      requires 0 <= x < |halves| && IsLink(halves, c)
      modifies this
      ensures tree == old(tree)
      ensures halves == LeftSet(old(halves), x, c)
    {
      halves := halves[x := halves[x].(left := c)];
      if c != Null {
        halves := halves[c := halves[c].(parent := x)];
      }
    }

    /** Make `c` the right child of `x`, and `x` the parent of `c` unless `c` is null. */
    method SetRight(x: int, c: int)
      requires 0 <= x < |halves| && IsLink(halves, c)
      modifies this
      ensures tree == old(tree)
      ensures halves == RightSet(old(halves), x, c)
    {
      halves := halves[x := halves[x].(right := c)];
      if c != Null {
        halves := halves[c := halves[c].(parent := x)];
      }
    }

    /** Put `o` into the child slot of `x`'s parent that holds `x`, and hang `o` from that parent. */
    method ReplaceWith(x: int, o: int)
      requires 0 <= x < |halves| && 0 <= halves[x].parent < |halves| && 0 <= o < |halves|
      modifies this
      ensures tree == old(tree)
      ensures halves == Replaced(old(halves), x, o)
    {
      var p := halves[x].parent;
      if x == halves[p].left {
        halves := halves[p := halves[p].(left := o)];
      } else {
        halves := halves[p := halves[p].(right := o)];
      }
      halves := halves[o := halves[o].(parent := p)];
    }

    // -------------------------------------------------------------------
    // Rotations
    // -------------------------------------------------------------------

    /**
     * Rotate the subtree `S` rooted at `x` to the left: its right child takes
     * its place.  The axis now stores `Trees.RotateLeft(S)` at that position,
     * with the two moved nodes' heights recomputed.
     */
    method RotateLeft(x: int, ghost ctx: seq<Frame>, ghost S: Tree)
      requires tree == Plug(ctx, S) && Plugged(halves, ctx, S) && Apart(ctx, S)
      requires S.Node? && S.id == x && S.right.Node?
      requires Heights(halves, S.left) && Heights(halves, S.right.left) && Heights(halves, S.right.right)
      modifies this
      ensures tree == Plug(ctx, Trees.RotateLeft(S))
      ensures Plugged(halves, ctx, Trees.RotateLeft(S)) && Heights(halves, Trees.RotateLeft(S))
      ensures SameKeys(old(halves), halves)
      ensures forall i :: 0 <= i < |halves| && i !in Ids(S) ==> halves[i].height == old(halves)[i].height
    {
      ghost var h := halves;
      RotateLeftShape(h, ctx, S);
      var r := halves[x].right;
      ReplaceWith(x, r);
      ghost var h1 := halves;
      SetRight(x, halves[r].left);
      ghost var h2 := halves;
      SetLeft(r, x);
      ghost var h3 := halves;
      RotateLeftLinks(h, h1, h2, h3, ctx, S);
      FixHeight(x);
      ghost var h4 := halves;
      FixHeight(r);
      tree := Plug(ctx, Trees.RotateLeft(S));
      RotateLeftDone(h, h1, h2, h3, h4, halves, ctx, S);
    }

    /** The mirror image of `RotateLeft`: the left child of `x` takes its place. */
    method RotateRight(x: int, ghost ctx: seq<Frame>, ghost S: Tree)
      requires tree == Plug(ctx, S) && Plugged(halves, ctx, S) && Apart(ctx, S)
      requires S.Node? && S.id == x && S.left.Node?
      requires Heights(halves, S.right) && Heights(halves, S.left.left) && Heights(halves, S.left.right)
      modifies this
      ensures tree == Plug(ctx, Trees.RotateRight(S))
      ensures Plugged(halves, ctx, Trees.RotateRight(S)) && Heights(halves, Trees.RotateRight(S))
      ensures SameKeys(old(halves), halves)
      ensures forall i :: 0 <= i < |halves| && i !in Ids(S) ==> halves[i].height == old(halves)[i].height
    {
      ghost var h := halves;
      RotateRightShape(h, ctx, S);
      var l := halves[x].left;
      ReplaceWith(x, l);
      ghost var h1 := halves;
      SetLeft(x, halves[l].right);
      ghost var h2 := halves;
      SetRight(l, x);
      ghost var h3 := halves;
      RotateRightLinks(h, h1, h2, h3, ctx, S);
      FixHeight(x);
      ghost var h4 := halves;
      FixHeight(l);
      tree := Plug(ctx, Trees.RotateRight(S));
      RotateRightDone(h, h1, h2, h3, h4, halves, ctx, S);
    }

    // -------------------------------------------------------------------
    // The AVL fix-up walk
    // -------------------------------------------------------------------

    /**
     * The `-2` case of the walk: a single rotation to the left when the right
     * child's right subtree is the taller one, otherwise a rotation of the
     * right child to the right followed by one to the left.
     */
    method FixRightHeavy(that: int, ghost ctx: seq<Frame>, ghost focus: Tree, ghost hz: int)
      requires focus.Node? && that == focus.id && that != Sentinel && Walking(halves, tree, that, ctx, focus, hz)
      requires Height(focus.left) - Height(focus.right) == -2
      modifies this
      ensures var u := Rebalance(focus);
        && Walking(halves, tree, u.id, ctx, u, hz) && !Tilted(u)
        && 0 <= that < |halves| && halves[that].parent == u.id
      ensures Items(tree) == Items(old(tree)) && SameKeys(old(halves), halves)
    {
      ghost var h := halves;
      RightHeavyFacts(h, tree, ctx, focus, hz);
      var r := halves[that].right;
      if StoredHeight(halves, halves[r].right) == StoredHeight(halves, r) - 1 {
        RotateLeft(that, ctx, focus);
        assert Rebalance(focus) == Trees.RotateLeft(focus);
      } else {
        RotateRight(r, [Frame(false, focus.id, focus.key, focus.left)] + ctx, focus.right);
        ghost var h1 := halves;
        RightChildRotated(h, halves, ctx, focus);
        ghost var f := Node(focus.left, focus.id, focus.key, Trees.RotateRight(focus.right));
        RotateLeft(that, ctx, f);
        assert Rebalance(focus) == Trees.RotateLeft(f);
        HeightsKeptOutside(h, h1, halves, Ids(focus.right), Ids(focus));
      }
      WalkRotated(h, halves, old(tree), ctx, focus, hz);
    }

    /** The `2` case of the walk: the mirror image of `FixRightHeavy`. */
    method FixLeftHeavy(that: int, ghost ctx: seq<Frame>, ghost focus: Tree, ghost hz: int)
      requires focus.Node? && that == focus.id && that != Sentinel && Walking(halves, tree, that, ctx, focus, hz)
      requires Height(focus.left) - Height(focus.right) == 2
      modifies this
      ensures var u := Rebalance(focus);
        && Walking(halves, tree, u.id, ctx, u, hz) && !Tilted(u)
        && 0 <= that < |halves| && halves[that].parent == u.id
      ensures Items(tree) == Items(old(tree)) && SameKeys(old(halves), halves)
    {
      ghost var h := halves;
      LeftHeavyFacts(h, tree, ctx, focus, hz);
      var l := halves[that].left;
      if StoredHeight(halves, halves[l].left) == StoredHeight(halves, l) - 1 {
        RotateRight(that, ctx, focus);
        assert Rebalance(focus) == Trees.RotateRight(focus);
      } else {
        RotateLeft(l, [Frame(true, focus.id, focus.key, focus.right)] + ctx, focus.left);
        ghost var h1 := halves;
        LeftChildRotated(h, halves, ctx, focus);
        ghost var f := Node(Trees.RotateLeft(focus.left), focus.id, focus.key, focus.right);
        RotateRight(that, ctx, f);
        assert Rebalance(focus) == Trees.RotateRight(f);
        HeightsKeptOutside(h, h1, halves, Ids(focus.left), Ids(focus));
      }
      WalkRotated(h, halves, old(tree), ctx, focus, hz);
    }

    /**
     * Walk from `start` up to the sentinel, storing each node's height and
     * rotating where the children's heights differ by two.  After a rotation
     * the walk moves to the new root of the rotated subtree, re-visits it
     * (it is balanced) and goes on upwards.  A difference outside [-2, 2] is
     * the unreachable `AssertionError` branch.
     */
    method Fix(start: int, ghost ctx0: seq<Frame>, ghost focus0: Tree, ghost h0: int)
      requires Walking(halves, tree, start, ctx0, focus0, h0)
      modifies this
      ensures Valid()
      ensures Items(tree) == Items(old(tree))
      ensures SameKeys(old(halves), halves)
    {
      var that := start;
      ghost var ctx, focus, hz := ctx0, focus0, h0;
      WalkFacts(halves, tree, that, ctx, focus, hz);
      while halves[that].parent != Null
        invariant Walking(halves, tree, that, ctx, focus, hz)
        invariant 0 <= that < |halves| && (halves[that].parent == Null <==> that == Sentinel)
        invariant Items(tree) == Items(old(tree))
        invariant SameKeys(old(halves), halves)
        decreases (if that == Sentinel then 0 else |ctx| + 1), (if Tilted(focus) then 1 else 0)
      {
        ghost var h := halves;
        WalkFacts(h, tree, that, ctx, focus, hz);
        var d := StoredHeight(halves, halves[that].left) - StoredHeight(halves, halves[that].right);
        if -1 <= d <= 1 {
          FixHeight(that);
          WalkHeightFixed(h, halves, tree, ctx, focus, hz);
          if ctx != [] {
            ctx, focus, hz := ctx[1..], Fill(ctx[0], focus), 1 + Max(hz, Height(ctx[0].sib));
          }
        } else if d == -2 {
          FixRightHeavy(that, ctx, focus, hz);
          focus := Rebalance(focus);
        } else if d == 2 {
          FixLeftHeavy(that, ctx, focus, hz);
          focus := Rebalance(focus);
        } else {
          assert false;
        }
        that := halves[that].parent;
        WalkFacts(halves, tree, that, ctx, focus, hz);
      }
      WalkDone(halves, tree, ctx, focus, hz);
    }

    // -------------------------------------------------------------------
    // Removal (one axis of `remove(Node)`)
    // -------------------------------------------------------------------

    /**
     * Cut out the node `u`, which has at most one child: the slot of its
     * parent that held it takes that child, and the child's parent link
     * names the parent.
     */
    method SpliceOut(u: int)
      requires 0 <= u < |halves| && 0 <= halves[u].parent < |halves|
      requires IsLink(halves, halves[u].left) && IsLink(halves, halves[u].right)
      modifies this
      ensures tree == old(tree) && halves == Spliced(old(halves), u)
    {
      var p := halves[u].parent;
      var l, r := halves[u].left, halves[u].right;
      if r == Null {
        if halves[p].left == u {
          halves := halves[p := halves[p].(left := l)];
        } else {
          halves := halves[p := halves[p].(right := l)];
        }
        if l != Null {
          halves := halves[l := halves[l].(parent := p)];
        }
      } else {
        if halves[p].left == u {
          halves := halves[p := halves[p].(left := r)];
        } else {
          halves := halves[p := halves[p].(right := r)];
        }
        halves := halves[r := halves[r].(parent := p)];
      }
    }

    /**
     * Put `u` in the place of `n`: `u` takes `n`'s children and parent, the
     * parent's slot that held `n` holds `u`, and `n`'s links are cleared.
     */
    method Transplant(n: int, u: int)
      requires 0 <= n < |halves| && 0 <= u < |halves| && n != u
      requires IsLink(halves, halves[n].left) && IsLink(halves, halves[n].right)
      requires halves[n].left != n && halves[n].right != n && 0 <= halves[n].parent < |halves|
      modifies this
      ensures tree == old(tree) && halves == Transplanted(old(halves), n, u)
    {
      SetLeft(u, halves[n].left);
      SetRight(u, halves[n].right);
      var p := halves[n].parent;
      halves := halves[u := halves[u].(parent := p)];
      if n == halves[p].left {
        halves := halves[p := halves[p].(left := u)];
      } else {
        halves := halves[p := halves[p].(right := u)];
      }
      halves := halves[n := halves[n].(left := Null, right := Null, parent := Null)];
    }

    /**
     * Take the node at in-order position `i` out of this axis, as the first
     * half of `remove(Node)` does on each axis: a node with at most one child
     * is cut out; a node with two children is replaced by its in-order
     * successor, which is cut out of its own place first.  Returns the node
     * the fix-up walk starts at (`leftToFix`), together with the walk's state.
     */
    method Unlink(node: int, ghost i: int) returns (toFix: int, ghost ctx: seq<Frame>, ghost focus: Tree, ghost h0: int)
      requires Valid() && 0 <= i < |Items(tree)| && Items(tree)[i].id == node
      modifies this
      ensures SameKeys(old(halves), halves)
      ensures Items(tree) == Items(old(tree))[..i] + Items(old(tree))[i + 1..]
      ensures Walking(halves, tree, toFix, ctx, focus, h0)
    {
      ghost var cn, S := Locate([], tree, i).0, Locate([], tree, i).1;
      PositionFacts(halves, tree, cn, S, i);
      if halves[node].right != Null && halves[node].left != Null {
        toFix, ctx, focus, h0 := UnlinkInner(node, i, cn, S);
      } else {
        toFix, ctx, focus, h0 := UnlinkOuter(node, i, cn, S);
      }
    }

    /** `Unlink` for a node with at most one child: the node is cut out, the walk starts at its parent. */
    method UnlinkOuter(node: int, ghost i: int, ghost cn: seq<Frame>, ghost S: Tree)
        returns (toFix: int, ghost ctx: seq<Frame>, ghost focus: Tree, ghost h0: int)
      requires Valid() && 0 <= i < |Items(tree)|
      requires S.Node? && S.id == node && Plug(cn, S) == tree && |Before(cn)| + |Items(S.left)| == i
      requires S.left.Leaf? || S.right.Leaf?
      modifies this
      ensures SameKeys(old(halves), halves)
      ensures Items(tree) == Items(old(tree))[..i] + Items(old(tree))[i + 1..]
      ensures Walking(halves, tree, toFix, ctx, focus, h0)
    {
      ghost var h, t := halves, tree;
      PositionFacts(halves, tree, cn, S, i);
      SplicedCorrect(halves, cn, S);
      toFix := halves[node].parent;
      SpliceOut(node);
      ctx, focus, h0 := UnlinkedShallow(h, halves, t, cn, S, i);
      tree := Plug(cn, if S.right.Leaf? then S.left else S.right);
    }

    /**
     * `Unlink` for a node with two children: its successor, the leftmost node
     * of its right subtree, is cut out and put in its place.  The walk starts
     * at the successor's old parent, or at the successor itself when that
     * parent was the removed node.
     */
    method UnlinkInner(node: int, ghost i: int, ghost cn: seq<Frame>, ghost S: Tree)
        returns (toFix: int, ghost ctx: seq<Frame>, ghost focus: Tree, ghost h0: int)
      requires Valid() && 0 <= i < |Items(tree)|
      requires S.Node? && S.id == node && Plug(cn, S) == tree && |Before(cn)| + |Items(S.left)| == i
      requires S.left.Node? && S.right.Node?
      modifies this
      ensures SameKeys(old(halves), halves)
      ensures Items(tree) == Items(old(tree))[..i] + Items(old(tree))[i + 1..]
      ensures Walking(halves, tree, toFix, ctx, focus, h0)
    {
      PositionFacts(halves, tree, cn, S, i);
      ghost var bc, m := SuccessorPosition(halves, tree, cn, S);
      var unlink := Leftmost(halves[node].right, node, S.right);
      if halves[unlink].parent != node {
        toFix := halves[unlink].parent;
      } else {
        toFix := unlink;
      }
      assert toFix == if bc == [] then m.id else bc[0].id;
      ctx, focus, h0 := ReplaceBySuccessor(node, unlink, i, cn, S, bc, m);
    }

    /** The second half of `UnlinkInner`: cut the successor `u` out, then put it in place of `node`. */
    method ReplaceBySuccessor(node: int, u: int, ghost i: int, ghost cn: seq<Frame>, ghost S: Tree, ghost bc: seq<Frame>, ghost m: Tree)
        returns (ghost ctx: seq<Frame>, ghost focus: Tree, ghost h0: int)
      requires Valid() && 0 <= i < |Items(tree)|
      requires S.Node? && S.id == node && Plug(cn, S) == tree && |Before(cn)| + |Items(S.left)| == i
      requires S.right.Node? && LeftmostPath(S.right, bc, m) && m.id == u
      requires var cu := bc + [Frame(false, S.id, S.key, S.left)] + cn;
        && Plugged(halves, cu, m) && Apart(cu, m) && 0 < m.id < |halves| && halves[m.id].key == m.key
      modifies this
      ensures SameKeys(old(halves), halves)
      ensures Items(tree) == Items(old(tree))[..i] + Items(old(tree))[i + 1..]
      ensures Walking(halves, tree, if bc == [] then m.id else bc[0].id, ctx, focus, h0)
    {
      ctx, focus, h0 := SuccessorReplaced(halves, tree, cn, S, i, bc, m);
      SpliceOut(u);
      Transplant(node, u);
      tree := Plug(cn, Node(S.left, m.id, m.key, Plug(bc, m.right)));
    }
  }
}
