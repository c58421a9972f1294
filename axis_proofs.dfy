/**
 * The proofs behind the axis operations: the well-formedness of an axis, the
 * invariant of the AVL fix-up walk, the stores the link primitives leave
 * behind, and the lemmas that carry a stored tree across each of them.
 */
module AxisProofs {
  import opened KeyOrder
  import opened Trees
  import opened Arena

  /** A well-formed axis: linked below the sentinel, heights right, balanced, keys ascending. */
  ghost predicate AxisOk(h: seq<Half>, t: Tree)
  {
    && SentinelOk(h, Root(t))
    && Linked(h, t, Sentinel)
    && Heights(h, t) && Balanced(t)
    && Ascending(Items(t))
  }

  /**
   * The state of the AVL fix-up walk while it stands at node `that`: the axis
   * is the subtree `focus` plugged into the path `ctx`.  Either the walk is
   * done (`that` is the sentinel and the whole tree is good), or both
   * subtrees of `focus` are good, the node may need one rebalancing step,
   * and the path above it was balanced for a subtree of height `h0`.
   */
  ghost predicate Walking(h: seq<Half>, t: Tree, that: int, ctx: seq<Frame>, focus: Tree, h0: int)
  {
    && t == Plug(ctx, focus)
    && Plugged(h, ctx, focus)
    && Ascending(Items(t))
    && if that == Sentinel then
         ctx == [] && Good(h, focus)
       else
         && focus.Node? && focus.id == that
         && Good(h, focus.left) && Good(h, focus.right)
         && Fixable(Height(focus.left), Height(focus.right), h0)
         && CtxBalanced(ctx, h0) && CtxHeights(h, ctx)
  }

  /** The focus of the walk has children of heights that differ by two. */
  ghost predicate Tilted(focus: Tree)
  {
    focus.Node? && (Height(focus.left) - Height(focus.right) == 2 || Height(focus.left) - Height(focus.right) == -2)
  }

  lemma StoredHeightRoot(h: seq<Half>, t: Tree)
    requires Heights(h, t)
    ensures IsLink(h, Root(t)) && StoredHeight(h, Root(t)) == Height(t)
  {
  }

  /** The walk finished at the sentinel: the axis is well formed. */
  lemma WalkDone(h: seq<Half>, t: Tree, ctx: seq<Frame>, focus: Tree, h0: int)
    requires Walking(h, t, Sentinel, ctx, focus, h0)
    ensures AxisOk(h, t)
  {
  }

  /** After the height of a balanced focus is stored, the walk moves one step up. */
  lemma WalkUp(h: seq<Half>, t: Tree, ctx: seq<Frame>, focus: Tree, h0: int)
    requires focus.Node? && focus.id != Sentinel && Walking(h, t, focus.id, ctx, focus, h0)
    requires Heights(h, focus) && -1 <= Height(focus.left) - Height(focus.right) <= 1
    ensures ctx == [] ==> Walking(h, t, Sentinel, ctx, focus, h0)
    ensures ctx != [] ==>
      Walking(h, t, ctx[0].id, ctx[1..], Fill(ctx[0], focus), 1 + Max(h0, Height(ctx[0].sib)))
  {
    if ctx != [] {
      var f := ctx[0];
      PlugUp(h, f, ctx[1..], focus);
      assert [f] + ctx[1..] == ctx;
      assert Heights(h, f.sib) by { assert f == ctx[0]; }
      forall i | 0 <= i < |ctx[1..]|
        ensures Heights(h, ctx[1..][i].sib)
      {
        assert ctx[1..][i] == ctx[i + 1];
      }
      Perturbed(Height(focus), h0, Height(f.sib));
    }
  }

  // The stores the link and height primitives leave behind.

  function HeightFixed(h: seq<Half>, x: int): seq<Half>
    requires 0 <= x < |h| && IsLink(h, h[x].left) && IsLink(h, h[x].right)
  {
    h[x := h[x].(height := 1 + Max(StoredHeight(h, h[x].left), StoredHeight(h, h[x].right)))]
  }

  function LeftSet(h: seq<Half>, x: int, c: int): seq<Half>
    requires 0 <= x < |h| && IsLink(h, c)
  {
    var g := h[x := h[x].(left := c)];
    if c == Null then g else g[c := g[c].(parent := x)]
  }

  function RightSet(h: seq<Half>, x: int, c: int): seq<Half>
    requires 0 <= x < |h| && IsLink(h, c)
  {
    var g := h[x := h[x].(right := c)];
    if c == Null then g else g[c := g[c].(parent := x)]
  }

  /** The Java code asserts that `x` is one of its parent's children; any other slot gets the right one. */
  function Replaced(h: seq<Half>, x: int, o: int): seq<Half>
    requires 0 <= x < |h| && 0 <= h[x].parent < |h| && 0 <= o < |h|
  {
    var p := h[x].parent;
    var g := h[p := if x == h[p].left then h[p].(left := o) else h[p].(right := o)];
    g[o := g[o].(parent := p)]
  }

  /** The position found by `Locate` for entry `i` of a well-formed axis. */
  lemma PositionFacts(h: seq<Half>, t: Tree, ctx: seq<Frame>, S: Tree, i: int)
    requires AxisOk(h, t) && 0 <= i < |Items(t)|
    requires S.Node? && Plug(ctx, S) == t && |Before(ctx)| + |Items(S.left)| == i
    ensures Plugged(h, ctx, S) && Apart(ctx, S)
    ensures Items(t) == Before(ctx) + Items(S) + After(ctx)
    ensures Items(t)[i] == Entry(S.id, S.key)
    ensures 0 < S.id < |h| && h[S.id].left == Root(S.left) && h[S.id].right == Root(S.right)
    ensures Linked(h, S.left, S.id) && Linked(h, S.right, S.id)
    ensures forall j :: 0 <= j < |Items(S.left)| ==> Items(t)[|Before(ctx)| + j] == Items(S.left)[j]
    ensures forall j :: 0 <= j < |Items(S.right)| ==> Items(t)[i + 1 + j] == Items(S.right)[j]
  {
    PositionLinks(h, t, ctx, S);
    PositionItems(t, ctx, S, i);
  }

  /** The node at the bottom of a path through a well-formed axis is linked to its children. */
  lemma PositionLinks(h: seq<Half>, t: Tree, ctx: seq<Frame>, S: Tree)
    requires SentinelOk(h, Root(t)) && Linked(h, t, Sentinel) && Ascending(Items(t)) && S.Node? && Plug(ctx, S) == t
    ensures Plugged(h, ctx, S) && Apart(ctx, S)
    ensures 0 < S.id < |h| && h[S.id].left == Root(S.left) && h[S.id].right == Root(S.right)
    ensures Linked(h, S.left, S.id) && Linked(h, S.right, S.id)
  {
    PlugDown(h, ctx, [], S);
    assert ctx + [] == ctx;
    PluggedApart(h, ctx, S);
  }

  /** Where the entries of the subtree at the bottom of a path sit in the in-order sequence. */
  lemma {:induction false} PositionItems(t: Tree, ctx: seq<Frame>, S: Tree, i: int)
    requires S.Node? && Plug(ctx, S) == t && |Before(ctx)| + |Items(S.left)| == i
    ensures Items(t) == Before(ctx) + Items(S) + After(ctx)
    ensures 0 <= i < |Items(t)| && Items(t)[i] == Entry(S.id, S.key)
    ensures forall j :: 0 <= j < |Items(S.left)| ==> Items(t)[|Before(ctx)| + j] == Items(S.left)[j]
    ensures forall j :: 0 <= j < |Items(S.right)| ==> Items(t)[i + 1 + j] == Items(S.right)[j]
  {
    ItemsPlug(ctx, S);
    SpliceIndex(Items(t), Before(ctx), Items(S), Items(S.left), Entry(S.id, S.key), Items(S.right), After(ctx), i);
  }

  /**
   * Indexing into a sequence `s` made of five pieces, the middle one the
   * single element `x` at position `i`.
   */
  lemma {:induction false} SpliceIndex(s: seq<Entry>, b: seq<Entry>, m: seq<Entry>, l: seq<Entry>, x: Entry, r: seq<Entry>, a: seq<Entry>, i: int)
    requires s == b + m + a && m == l + [x] + r && i == |b| + |l|
    ensures |s| == i + 1 + |r| + |a| && s[i] == x
    ensures forall j :: 0 <= j < |l| ==> s[|b| + j] == l[j]
    ensures forall j :: 0 <= j < |r| ==> s[i + 1 + j] == r[j]
  {
  }

  /** One step of the descent of `put` keeps the key between everything before and everything after it. */
  lemma DescendStep(ctx: seq<Frame>, t: Tree, f: Frame, k: string)
    requires t.Node? && Ascending(Items(t)) && k != t.key
    requires f == if Less(k, t.key) then Frame(true, t.id, t.key, t.right) else Frame(false, t.id, t.key, t.left)
    requires forall e :: e in Before(ctx) ==> Less(e.key, k)
    requires forall e :: e in After(ctx) ==> Less(k, e.key)
    ensures forall e :: e in Before([f] + ctx) ==> Less(e.key, k)
    ensures forall e :: e in After([f] + ctx) ==> Less(k, e.key)
  {
    AscendingNode(t);
    LessTotal(k, t.key);
    var c := [f] + ctx;
    assert c[0] == f && c[1..] == ctx;
    if Less(k, t.key) {
      forall e | e in Items(t.right)
        ensures Less(k, e.key)
      {
        LessTransitive(k, t.key, e.key);
      }
    } else {
      forall e | e in Items(t.left)
        ensures Less(e.key, k)
      {
        LessTransitive(e.key, t.key, k);
      }
    }
  }

  /** What the walk's invariant says about the handles at the node it stands on. */
  lemma WalkFacts(h: seq<Half>, t: Tree, that: int, ctx: seq<Frame>, focus: Tree, h0: int)
    requires Walking(h, t, that, ctx, focus, h0)
    ensures 0 <= that < |h| && (h[that].parent == Null <==> that == Sentinel)
    ensures that != Sentinel ==>
      && Apart(ctx, focus) && Par(ctx) !in Ids(focus)
      && (forall x :: x in Ids(focus) ==> 0 < x < |h|)
      && h[that].left == Root(focus.left) && h[that].right == Root(focus.right) && h[that].parent == Par(ctx)
      && IsLink(h, h[that].left) && IsLink(h, h[that].right)
      && StoredHeight(h, h[that].left) == Height(focus.left)
      && StoredHeight(h, h[that].right) == Height(focus.right)
    ensures that != Sentinel && focus.right.Node? ==>
      && h[Root(focus.right)].right == Root(focus.right.right) && IsLink(h, Root(focus.right.right))
      && StoredHeight(h, Root(focus.right.right)) == Height(focus.right.right)
    ensures that != Sentinel && focus.left.Node? ==>
      && h[Root(focus.left)].left == Root(focus.left.left) && IsLink(h, Root(focus.left.left))
      && StoredHeight(h, Root(focus.left.left)) == Height(focus.left.left)
  {
    PluggedApart(h, ctx, focus);
    if that != Sentinel {
      PluggedFacts(h, ctx, focus);
      StoredHeightRoot(h, focus.left);
      StoredHeightRoot(h, focus.right);
      if focus.right.Node? {
        assert Linked(h, focus.right, that);
        StoredHeightRoot(h, focus.right.right);
      }
      if focus.left.Node? {
        assert Linked(h, focus.left, that);
        StoredHeightRoot(h, focus.left.left);
      }
    }
  }

  /** A balanced node whose height has just been stored: the walk moves to its parent. */
  lemma WalkHeightFixed(h: seq<Half>, h': seq<Half>, t: Tree, ctx: seq<Frame>, focus: Tree, h0: int)
    requires focus.Node? && focus.id != Sentinel && Walking(h, t, focus.id, ctx, focus, h0)
    requires -1 <= Height(focus.left) - Height(focus.right) <= 1
    requires 0 <= focus.id < |h| && IsLink(h, h[focus.id].left) && IsLink(h, h[focus.id].right)
    requires h' == HeightFixed(h, focus.id)
    ensures SameKeys(h, h') && h'[focus.id].parent == Par(ctx)
    ensures ctx == [] ==> Walking(h', t, Sentinel, ctx, focus, h0)
    ensures ctx != [] ==> Walking(h', t, ctx[0].id, ctx[1..], Fill(ctx[0], focus), 1 + Max(h0, Height(ctx[0].sib)))
  {
    HeightFixedWalking(h, h', t, ctx, focus, h0);
    WalkUp(h', t, ctx, focus, h0);
  }

  /** Storing the height of the focus keeps the walk where it is, now with the focus's height right. */
  lemma HeightFixedWalking(h: seq<Half>, h': seq<Half>, t: Tree, ctx: seq<Frame>, focus: Tree, h0: int)
    requires focus.Node? && focus.id != Sentinel && Walking(h, t, focus.id, ctx, focus, h0)
    requires 0 <= focus.id < |h| && IsLink(h, h[focus.id].left) && IsLink(h, h[focus.id].right)
    requires h' == HeightFixed(h, focus.id)
    ensures SameKeys(h, h') && h'[focus.id].parent == Par(ctx)
    ensures Walking(h', t, focus.id, ctx, focus, h0) && Heights(h', focus)
  {
    HeightFixedLinks(h, h', t, ctx, focus, h0);
    HeightFixedHeights(h, h', t, ctx, focus, h0);
  }

  lemma HeightFixedLinks(h: seq<Half>, h': seq<Half>, t: Tree, ctx: seq<Frame>, focus: Tree, h0: int)
    requires focus.Node? && focus.id != Sentinel && Walking(h, t, focus.id, ctx, focus, h0)
    requires 0 <= focus.id < |h| && IsLink(h, h[focus.id].left) && IsLink(h, h[focus.id].right)
    requires h' == HeightFixed(h, focus.id)
    ensures SameKeys(h, h') && h'[focus.id].parent == Par(ctx) && Plugged(h', ctx, focus)
  {
    var x := focus.id;
    WalkFacts(h, t, x, ctx, focus, h0);
    CtxLinkedIds(h, ctx, x);
    assert SameLinksOn(h, h', Ids(focus));
    assert SameLinksOn(h, h', CtxIds(ctx) + {Sentinel});
    LinkedFrame(h, h', focus, Par(ctx));
    CtxFrame(h, h', ctx, x);
  }

  lemma HeightFixedHeights(h: seq<Half>, h': seq<Half>, t: Tree, ctx: seq<Frame>, focus: Tree, h0: int)
    requires focus.Node? && focus.id != Sentinel && Walking(h, t, focus.id, ctx, focus, h0)
    requires 0 <= focus.id < |h| && IsLink(h, h[focus.id].left) && IsLink(h, h[focus.id].right)
    requires h' == HeightFixed(h, focus.id)
    ensures Heights(h', focus.left) && Heights(h', focus.right) && CtxHeights(h', ctx) && Heights(h', focus)
  {
    var x := focus.id;
    WalkFacts(h, t, x, ctx, focus, h0);
    CtxLinkedIds(h, ctx, x);
    HeightsFrame(h, h', focus.left);
    HeightsFrame(h, h', focus.right);
    CtxHeightsFrame(h, h', ctx);
  }

  /** A tilted node rebalanced by rotations: the walk stands on the new root of that subtree. */
  lemma WalkRotated(h: seq<Half>, h': seq<Half>, t: Tree, ctx: seq<Frame>, focus: Tree, h0: int)
    requires focus.Node? && focus.id != Sentinel && Walking(h, t, focus.id, ctx, focus, h0) && Tilted(focus)
    requires Plugged(h', ctx, Rebalance(focus)) && Heights(h', Rebalance(focus))
    requires SameKeys(h, h')
    requires forall i :: 0 <= i < |h| && i !in Ids(focus) ==> h'[i].height == h[i].height
    ensures var u := Rebalance(focus);
      && u.Node? && !Tilted(u) && Items(u) == Items(focus) && Items(Plug(ctx, u)) == Items(t)
      && 0 <= focus.id < |h'| && h'[focus.id].parent == u.id
      && Walking(h', Plug(ctx, u), u.id, ctx, u, h0)
  {
    var u := Rebalance(focus);
    RebalancedTop(focus, h0);
    WalkFacts(h, t, focus.id, ctx, focus, h0);
    CtxLinkedIds(h, ctx, focus.id);
    ItemsPlug(ctx, focus);
    ItemsPlug(ctx, u);
    CtxHeightsFrame(h, h', ctx);
    assert Linked(h', u, Par(ctx));
    assert Linked(h', u.left, u.id) && Linked(h', u.right, u.id);
  }

  /**
   * Rebalancing a tilted node gives a node that is not tilted, holds the
   * same entries, keeps the old node as one of its children, and is fixable
   * against the height the path above was balanced for.
   */
  lemma RebalancedTop(focus: Tree, h0: int)
    requires focus.Node? && Balanced(focus.left) && Balanced(focus.right) && Tilted(focus)
    requires Fixable(Height(focus.left), Height(focus.right), h0)
    ensures var u := Rebalance(focus);
      && u.Node? && !Tilted(u) && Items(u) == Items(focus) && Ids(u) == Ids(focus)
      && Balanced(u.left) && Balanced(u.right) && Fixable(Height(u.left), Height(u.right), h0)
      && ((u.left.Node? && u.left.id == focus.id) || (u.right.Node? && u.right.id == focus.id))
  {
    RebalanceCorrect(focus);
  }

  /**
   * The first half of a double rotation at a right-heavy node: its right
   * child has been rotated right.  The node is again a stored position, ready
   * for the rotation to the left.
   */
  lemma RightChildRotated(h: seq<Half>, h': seq<Half>, ctx: seq<Frame>, focus: Tree)
    requires focus.Node? && focus.right.Node? && focus.right.left.Node?
    requires Plugged(h, ctx, focus) && Apart(ctx, focus) && Heights(h, focus.left)
    requires forall x :: x in Ids(focus) ==> 0 < x < |h|
    requires Plugged(h', [Frame(false, focus.id, focus.key, focus.left)] + ctx, Trees.RotateRight(focus.right))
    requires Heights(h', Trees.RotateRight(focus.right))
    requires |h'| == |h| && forall i :: 0 <= i < |h| && i !in Ids(focus.right) ==> h'[i].height == h[i].height
    ensures var f := Node(focus.left, focus.id, focus.key, Trees.RotateRight(focus.right));
      && Plug([Frame(false, focus.id, focus.key, focus.left)] + ctx, Trees.RotateRight(focus.right)) == Plug(ctx, f)
      && Plugged(h', ctx, f) && Apart(ctx, f) && Ids(f) == Ids(focus)
      && Heights(h', f.left) && Heights(h', f.right.left) && Heights(h', f.right.right)
  {
    var f := Node(focus.left, focus.id, focus.key, Trees.RotateRight(focus.right));
    DownRight(h', ctx, f);
    PlugUp(h', Frame(false, focus.id, focus.key, focus.left), ctx, f.right);
    UniqueRotateRight(focus.right);
    HeightsFrame(h, h', focus.left);
  }

  /** Two steps that each keep the stored heights outside a set keep them outside the larger set. */
  lemma HeightsKeptOutside(h: seq<Half>, h1: seq<Half>, h2: seq<Half>, a: set<int>, b: set<int>)
    requires a <= b && |h1| == |h| && |h2| == |h1|
    requires forall i :: 0 <= i < |h| && i !in a ==> h1[i].height == h[i].height
    requires forall i :: 0 <= i < |h1| && i !in b ==> h2[i].height == h1[i].height
    ensures forall i :: 0 <= i < |h| && i !in b ==> h2[i].height == h[i].height
  {
  }

  /** What a left-heavy focus of the walk offers the rotations that rebalance it. */
  lemma LeftHeavyFacts(h: seq<Half>, t: Tree, ctx: seq<Frame>, focus: Tree, hz: int)
    requires focus.Node? && focus.id != Sentinel && Walking(h, t, focus.id, ctx, focus, hz)
    requires Height(focus.left) - Height(focus.right) == 2
    ensures var x, l := focus.id, Root(focus.left);
      && focus.left.Node? && 0 < x < |h| && h[x].left == l && 0 < l < |h| && IsLink(h, h[l].left)
      && StoredHeight(h, l) == Height(focus.left) && StoredHeight(h, h[l].left) == Height(focus.left.left)
      && (Height(focus.left.left) != Height(focus.left) - 1 ==> focus.left.right.Node?)
    ensures Plugged(h, ctx, focus) && Apart(ctx, focus) && (forall x :: x in Ids(focus) ==> 0 < x < |h|)
    ensures Heights(h, focus.right) && Heights(h, focus.left.left) && Heights(h, focus.left.right)
    ensures var c := [Frame(true, focus.id, focus.key, focus.right)] + ctx;
      Plug(c, focus.left) == t && Plugged(h, c, focus.left) && Apart(c, focus.left)
  {
    WalkFacts(h, t, focus.id, ctx, focus, hz);
    DownLeft(h, ctx, focus);
  }

  /** What a right-heavy focus of the walk offers the rotations that rebalance it. */
  lemma RightHeavyFacts(h: seq<Half>, t: Tree, ctx: seq<Frame>, focus: Tree, hz: int)
    requires focus.Node? && focus.id != Sentinel && Walking(h, t, focus.id, ctx, focus, hz)
    requires Height(focus.left) - Height(focus.right) == -2
    ensures var x, r := focus.id, Root(focus.right);
      && focus.right.Node? && 0 < x < |h| && h[x].right == r && 0 < r < |h| && IsLink(h, h[r].right)
      && StoredHeight(h, r) == Height(focus.right) && StoredHeight(h, h[r].right) == Height(focus.right.right)
      && (Height(focus.right.right) != Height(focus.right) - 1 ==> focus.right.left.Node?)
    ensures Plugged(h, ctx, focus) && Apart(ctx, focus) && (forall x :: x in Ids(focus) ==> 0 < x < |h|)
    ensures Heights(h, focus.left) && Heights(h, focus.right.left) && Heights(h, focus.right.right)
    ensures var c := [Frame(false, focus.id, focus.key, focus.left)] + ctx;
      Plug(c, focus.right) == t && Plugged(h, c, focus.right) && Apart(c, focus.right)
  {
    WalkFacts(h, t, focus.id, ctx, focus, hz);
    DownRight(h, ctx, focus);
  }

  lemma LeftChildRotated(h: seq<Half>, h': seq<Half>, ctx: seq<Frame>, focus: Tree)
    requires focus.Node? && focus.left.Node? && focus.left.right.Node?
    requires Plugged(h, ctx, focus) && Apart(ctx, focus) && Heights(h, focus.right)
    requires forall x :: x in Ids(focus) ==> 0 < x < |h|
    requires Plugged(h', [Frame(true, focus.id, focus.key, focus.right)] + ctx, Trees.RotateLeft(focus.left))
    requires Heights(h', Trees.RotateLeft(focus.left))
    requires |h'| == |h| && forall i :: 0 <= i < |h| && i !in Ids(focus.left) ==> h'[i].height == h[i].height
    ensures var f := Node(Trees.RotateLeft(focus.left), focus.id, focus.key, focus.right);
      && Plug([Frame(true, focus.id, focus.key, focus.right)] + ctx, Trees.RotateLeft(focus.left)) == Plug(ctx, f)
      && Plugged(h', ctx, f) && Apart(ctx, f) && Ids(f) == Ids(focus)
      && Heights(h', f.right) && Heights(h', f.left.left) && Heights(h', f.left.right)
  {
    var f := Node(Trees.RotateLeft(focus.left), focus.id, focus.key, focus.right);
    DownLeft(h', ctx, f);
    PlugUp(h', Frame(true, focus.id, focus.key, focus.right), ctx, f.left);
    UniqueRotateLeft(focus.left);
    HeightsFrame(h, h', focus.right);
  }



  // ---------------------------------------------------------------------
  // The proof of the rotations, in three steps: the handles involved, the
  // writes the primitives make, and the tree those writes store.
  // ---------------------------------------------------------------------

  lemma RotateLeftShape(h: seq<Half>, ctx: seq<Frame>, S: Tree)
    requires Plugged(h, ctx, S) && Apart(ctx, S) && S.Node? && S.right.Node?
    requires Heights(h, S.left) && Heights(h, S.right.left) && Heights(h, S.right.right)
    ensures var x, y, p, rb := S.id, S.right.id, Par(ctx), Root(S.right.left);
      && 0 < x < |h| && 0 < y < |h| && 0 <= p < |h| && IsLink(h, rb)
      && x != y && p != x && p != y && rb != x && rb != y && rb != p
      && h[x].right == y && h[x].parent == p && h[y].left == rb && h[y].parent == x
      && (x == h[p].left || x == h[p].right)
      && (x == h[p].left <==> ctx != [] && ctx[0].goLeft)
      && IsLink(h, h[x].left) && IsLink(h, h[y].right) && h[y].right != x
  {
    PluggedFacts(h, ctx, S);
    assert Linked(h, S.right, S.id);
    assert Unique(S.right);
    assert Ids(S.right) == Ids(S.right.left) + {S.right.id} + Ids(S.right.right);
    if S.right.left.Node? {
      assert S.right.left.id in Ids(S.right.left);
    }
    StoredHeightRoot(h, S.left);
    StoredHeightRoot(h, S.right.right);
  }

  /** The five stores of a left rotation at `S` leave the rotated subtree stored in its place. */
  lemma RotateLeftDone(h: seq<Half>, h1: seq<Half>, h2: seq<Half>, h3: seq<Half>, h4: seq<Half>, h5: seq<Half>,
                         ctx: seq<Frame>, S: Tree)
    requires S.Node? && S.right.Node?
    requires Plugged(h, ctx, S) && Apart(ctx, S) && Heights(h, S.left) && Heights(h, S.right.left) && Heights(h, S.right.right)
    requires var x, y, p, rb := S.id, S.right.id, Par(ctx), Root(S.right.left);
      && 0 < x < |h| && 0 < y < |h| && 0 <= p < |h| && IsLink(h, rb)
      && x != y && p != x && p != y && rb != x && rb != y && rb != p
      && h[x].right == y && h[x].parent == p && h[y].left == rb
      && (x == h[p].left <==> ctx != [] && ctx[0].goLeft)
      && IsLink(h, h[x].left) && IsLink(h, h[y].right) && h[y].right != x
      && h1 == Replaced(h, x, y)
      && h2 == RightSet(h1, x, h1[y].left)
      && h3 == LeftSet(h2, y, x)
      && h4 == HeightFixed(h3, x)
      && IsLink(h4, h4[y].left) && IsLink(h4, h4[y].right)
      && h5 == HeightFixed(h4, y)
    ensures Plugged(h5, ctx, Trees.RotateLeft(S)) && Heights(h5, Trees.RotateLeft(S))
    ensures SameKeys(h, h5)
    ensures forall i :: 0 <= i < |h5| && i !in Ids(S) ==> h5[i].height == h[i].height
  {
    RotateLeftWrites(h, h1, h2, h3, h4, h5, ctx, S);
    RotatedLeft(h, h5, ctx, S);
  }

  lemma RotateLeftWrites(h: seq<Half>, h1: seq<Half>, h2: seq<Half>, h3: seq<Half>, h4: seq<Half>, h5: seq<Half>,
                         ctx: seq<Frame>, S: Tree)
    requires S.Node? && S.right.Node?
    requires var x, y, p, rb := S.id, S.right.id, Par(ctx), Root(S.right.left);
      && 0 < x < |h| && 0 < y < |h| && 0 <= p < |h| && IsLink(h, rb)
      && x != y && p != x && p != y && rb != x && rb != y && rb != p
      && h[x].right == y && h[x].parent == p && h[y].left == rb
      && (x == h[p].left <==> ctx != [] && ctx[0].goLeft)
      && IsLink(h, h[x].left) && IsLink(h, h[y].right) && h[y].right != x
      && h1 == Replaced(h, x, y)
      && h2 == RightSet(h1, x, h1[y].left)
      && h3 == LeftSet(h2, y, x)
      && h4 == HeightFixed(h3, x)
      && IsLink(h4, h4[y].left) && IsLink(h4, h4[y].right)
      && h5 == HeightFixed(h4, y)
    ensures LeftRotatedStore(h, h5, ctx, S)
  {
    var x, y, rb := S.id, S.right.id, Root(S.right.left);
    RotateLeftLinks(h, h1, h2, h3, ctx, S);
    assert StoredHeight(h3, h[x].left) == StoredHeight(h, h[x].left) && StoredHeight(h3, rb) == StoredHeight(h, rb);
    assert h4[y] == h3[y] && StoredHeight(h4, h[y].right) == StoredHeight(h, h[y].right);
  }

  /** The three link writes of a left rotation at `S`: `x` hangs under `y`, which takes its place. */
  lemma RotateLeftLinks(h: seq<Half>, h1: seq<Half>, h2: seq<Half>, h3: seq<Half>, ctx: seq<Frame>, S: Tree)
    requires S.Node? && S.right.Node?
    requires var x, y, p, rb := S.id, S.right.id, Par(ctx), Root(S.right.left);
      && 0 < x < |h| && 0 < y < |h| && 0 <= p < |h| && IsLink(h, rb)
      && x != y && p != x && p != y && rb != x && rb != y && rb != p
      && h[x].right == y && h[x].parent == p && h[y].left == rb
      && (x == h[p].left <==> ctx != [] && ctx[0].goLeft)
      && h1 == Replaced(h, x, y)
      && h2 == RightSet(h1, x, h1[y].left)
      && h3 == LeftSet(h2, y, x)
    ensures var x, y, p, rb := S.id, S.right.id, Par(ctx), Root(S.right.left);
      && |h3| == |h| && (forall i :: 0 <= i < |h| ==> h3[i].height == h[i].height && h3[i].key == h[i].key)
      && h3[x] == h[x].(right := rb, parent := y) && h3[y] == h[y].(left := x, parent := p)
      && (rb != Null ==> h3[rb] == h[rb].(parent := x))
      && h3[p] == Hang(h[p], ctx, y)
      && (forall i :: 0 <= i < |h| && i != x && i != y && i != p && i != rb ==> h3[i] == h[i])
  {
  }

  /** The pointwise effect of a left rotation at `S` on the store. */
  ghost predicate LeftRotatedStore(h: seq<Half>, h': seq<Half>, ctx: seq<Frame>, S: Tree)
    requires S.Node? && S.right.Node?
  {
    var x, y, p, rb := S.id, S.right.id, Par(ctx), Root(S.right.left);
    && 0 < x < |h| && 0 < y < |h| && 0 <= p < |h| && IsLink(h, rb)
    && IsLink(h, h[x].left) && IsLink(h, h[y].right)
    && |h'| == |h|
    && Links(h'[x]) == Links(h[x]).(right := rb, parent := y)
    && h'[x].height == 1 + Max(StoredHeight(h, h[x].left), StoredHeight(h, rb))
    && Links(h'[y]) == Links(h[y]).(left := x, parent := p)
    && h'[y].height == 1 + Max(h'[x].height, StoredHeight(h, h[y].right))
    && (rb != Null ==> h'[rb] == h[rb].(parent := x))
    && h'[p] == Hang(h[p], ctx, y)
    && (forall i :: 0 <= i < |h| && i != x && i != y && i != p && i != rb ==> h'[i] == h[i])
  }

  /** The three subtrees a left rotation moves, and the handles around them. */
  lemma RotateLeftParts(h: seq<Half>, ctx: seq<Frame>, S: Tree)
    requires Plugged(h, ctx, S) && Apart(ctx, S) && S.Node? && S.right.Node?
    ensures var x, y, p, rb := S.id, S.right.id, Par(ctx), Root(S.right.left);
      var A, B, C := S.left, S.right.left, S.right.right;
      && Linked(h, A, x) && Linked(h, B, y) && Linked(h, C, y) && Unique(B)
      && Ids(S) == Ids(A) + {x} + Ids(B) + {y} + Ids(C)
      && (forall i :: i in Ids(S) ==> 0 < i < |h|)
      && (forall i :: i in CtxIds(ctx) ==> 0 < i < |h|)
      && 0 <= p < |h| && p !in Ids(S)
      && x !in Ids(A) && x !in Ids(B) && x !in Ids(C) && y !in Ids(A) && y !in Ids(B) && y !in Ids(C)
      && rb !in Ids(A) && rb !in Ids(C) && (B.Node? ==> rb in Ids(B))
      && x !in CtxIds(ctx) && y !in CtxIds(ctx) && rb !in CtxIds(ctx)
  {
    PluggedFacts(h, ctx, S);
    assert Linked(h, S.right, S.id);
    assert Unique(S.right);
    if S.right.left.Node? {
      assert S.right.left.id in Ids(S.right.left);
    }
  }

  /** The subtrees a left rotation moves are stored again, under their new parents. */
  lemma RotatedLeftParts(h: seq<Half>, h': seq<Half>, ctx: seq<Frame>, S: Tree)
    requires Plugged(h, ctx, S) && Apart(ctx, S) && S.Node? && S.right.Node?
    requires Heights(h, S.left) && Heights(h, S.right.left) && Heights(h, S.right.right)
    requires LeftRotatedStore(h, h', ctx, S)
    ensures var x, y := S.id, S.right.id;
      && Linked(h', S.left, x) && Linked(h', S.right.left, x) && Linked(h', S.right.right, y)
      && Heights(h', S.left) && Heights(h', S.right.left) && Heights(h', S.right.right)
      && Rewired(h, h', ctx, y)
  {
    var x, y, p, rb := S.id, S.right.id, Par(ctx), Root(S.right.left);
    var A, B, C := S.left, S.right.left, S.right.right;
    RotateLeftParts(h, ctx, S);
    Untouched(h, h', Ids(A), x, y, p, rb);
    Untouched(h, h', Ids(B) - {rb}, x, y, p, rb);
    Untouched(h, h', Ids(C), x, y, p, rb);
    Untouched(h, h', CtxIds(ctx) + {Sentinel} - {p}, x, y, p, rb);
    LinkedFrame(h, h', A, x);
    LinkedRehung(h, h', B, y, x);
    LinkedFrame(h, h', C, y);
    if rb != Null {
      assert SameHeightsOn(h, h', {rb});
    }
    HeightsFrame(h, h', A);
    HeightsFrame(h, h', B);
    HeightsFrame(h, h', C);
  }

  lemma RotatedLeft(h: seq<Half>, h': seq<Half>, ctx: seq<Frame>, S: Tree)
    requires Plugged(h, ctx, S) && Apart(ctx, S) && S.Node? && S.right.Node?
    requires Heights(h, S.left) && Heights(h, S.right.left) && Heights(h, S.right.right)
    requires LeftRotatedStore(h, h', ctx, S)
    ensures Plugged(h', ctx, Trees.RotateLeft(S)) && Heights(h', Trees.RotateLeft(S))
    ensures SameKeys(h, h')
    ensures forall i :: 0 <= i < |h'| && i !in Ids(S) ==> h'[i].height == h[i].height
  {
    var x, y := S.id, S.right.id;
    var A, B, C := S.left, S.right.left, S.right.right;
    RotatedLeftParts(h, h', ctx, S);
    StoredHeightRoot(h, A);
    StoredHeightRoot(h, B);
    StoredHeightRoot(h, C);
    RotateLeftParts(h, ctx, S);
    var u := Trees.RotateLeft(S);
    assert Linked(h, S.right, x);
    assert h'[y].key == h[y].key && h'[y].right == Root(C) && h'[y].left == x && h'[y].parent == Par(ctx);
    assert Linked(h', u.left, y);
    assert Heights(h', u.left);
    assert Linked(h', u, Par(ctx));
    Reattach(h, h', ctx, S, u);
  }

  lemma RotateRightShape(h: seq<Half>, ctx: seq<Frame>, S: Tree)
    requires Plugged(h, ctx, S) && Apart(ctx, S) && S.Node? && S.left.Node?
    requires Heights(h, S.right) && Heights(h, S.left.left) && Heights(h, S.left.right)
    ensures var x, y, p, lb := S.id, S.left.id, Par(ctx), Root(S.left.right);
      && 0 < x < |h| && 0 < y < |h| && 0 <= p < |h| && IsLink(h, lb)
      && x != y && p != x && p != y && lb != x && lb != y && lb != p
      && h[x].left == y && h[x].parent == p && h[y].right == lb && h[y].parent == x
      && (x == h[p].left || x == h[p].right)
      && (x == h[p].left <==> ctx != [] && ctx[0].goLeft)
      && IsLink(h, h[x].right) && IsLink(h, h[y].left) && h[y].left != x
  {
    PluggedFacts(h, ctx, S);
    assert Linked(h, S.left, S.id);
    assert Unique(S.left);
    assert Ids(S.left) == Ids(S.left.left) + {S.left.id} + Ids(S.left.right);
    if S.left.right.Node? {
      assert S.left.right.id in Ids(S.left.right);
    }
    StoredHeightRoot(h, S.right);
    StoredHeightRoot(h, S.left.left);
  }

  /** The five stores of a right rotation at `S` leave the rotated subtree stored in its place. */
  lemma RotateRightDone(h: seq<Half>, h1: seq<Half>, h2: seq<Half>, h3: seq<Half>, h4: seq<Half>, h5: seq<Half>,
                         ctx: seq<Frame>, S: Tree)
    requires S.Node? && S.left.Node?
    requires Plugged(h, ctx, S) && Apart(ctx, S) && Heights(h, S.right) && Heights(h, S.left.left) && Heights(h, S.left.right)
    requires var x, y, p, lb := S.id, S.left.id, Par(ctx), Root(S.left.right);
      && 0 < x < |h| && 0 < y < |h| && 0 <= p < |h| && IsLink(h, lb)
      && x != y && p != x && p != y && lb != x && lb != y && lb != p
      && h[x].left == y && h[x].parent == p && h[y].right == lb
      && (x == h[p].left <==> ctx != [] && ctx[0].goLeft)
      && IsLink(h, h[x].right) && IsLink(h, h[y].left) && h[y].left != x
      && h1 == Replaced(h, x, y)
      && h2 == LeftSet(h1, x, h1[y].right)
      && h3 == RightSet(h2, y, x)
      && h4 == HeightFixed(h3, x)
      && IsLink(h4, h4[y].left) && IsLink(h4, h4[y].right)
      && h5 == HeightFixed(h4, y)
    ensures Plugged(h5, ctx, Trees.RotateRight(S)) && Heights(h5, Trees.RotateRight(S))
    ensures SameKeys(h, h5)
    ensures forall i :: 0 <= i < |h5| && i !in Ids(S) ==> h5[i].height == h[i].height
  {
    RotateRightWrites(h, h1, h2, h3, h4, h5, ctx, S);
    RotatedRight(h, h5, ctx, S);
  }

  lemma RotateRightWrites(h: seq<Half>, h1: seq<Half>, h2: seq<Half>, h3: seq<Half>, h4: seq<Half>, h5: seq<Half>,
                          ctx: seq<Frame>, S: Tree)
    requires S.Node? && S.left.Node?
    requires var x, y, p, lb := S.id, S.left.id, Par(ctx), Root(S.left.right);
      && 0 < x < |h| && 0 < y < |h| && 0 <= p < |h| && IsLink(h, lb)
      && x != y && p != x && p != y && lb != x && lb != y && lb != p
      && h[x].left == y && h[x].parent == p && h[y].right == lb
      && (x == h[p].left <==> ctx != [] && ctx[0].goLeft)
      && IsLink(h, h[x].right) && IsLink(h, h[y].left) && h[y].left != x
      && h1 == Replaced(h, x, y)
      && h2 == LeftSet(h1, x, h1[y].right)
      && h3 == RightSet(h2, y, x)
      && h4 == HeightFixed(h3, x)
      && IsLink(h4, h4[y].left) && IsLink(h4, h4[y].right)
      && h5 == HeightFixed(h4, y)
    ensures RightRotatedStore(h, h5, ctx, S)
  {
    var x, y, lb := S.id, S.left.id, Root(S.left.right);
    RotateRightLinks(h, h1, h2, h3, ctx, S);
    assert StoredHeight(h3, h[x].right) == StoredHeight(h, h[x].right) && StoredHeight(h3, lb) == StoredHeight(h, lb);
    assert h4[y] == h3[y] && StoredHeight(h4, h[y].left) == StoredHeight(h, h[y].left);
  }

  /** The three link writes of a right rotation at `S`: `x` hangs under `y`, which takes its place. */
  lemma RotateRightLinks(h: seq<Half>, h1: seq<Half>, h2: seq<Half>, h3: seq<Half>, ctx: seq<Frame>, S: Tree)
    requires S.Node? && S.left.Node?
    requires var x, y, p, lb := S.id, S.left.id, Par(ctx), Root(S.left.right);
      && 0 < x < |h| && 0 < y < |h| && 0 <= p < |h| && IsLink(h, lb)
      && x != y && p != x && p != y && lb != x && lb != y && lb != p
      && h[x].left == y && h[x].parent == p && h[y].right == lb
      && (x == h[p].left <==> ctx != [] && ctx[0].goLeft)
      && h1 == Replaced(h, x, y)
      && h2 == LeftSet(h1, x, h1[y].right)
      && h3 == RightSet(h2, y, x)
    ensures var x, y, p, lb := S.id, S.left.id, Par(ctx), Root(S.left.right);
      && |h3| == |h| && (forall i :: 0 <= i < |h| ==> h3[i].height == h[i].height && h3[i].key == h[i].key)
      && h3[x] == h[x].(left := lb, parent := y) && h3[y] == h[y].(right := x, parent := p)
      && (lb != Null ==> h3[lb] == h[lb].(parent := x))
      && h3[p] == Hang(h[p], ctx, y)
      && (forall i :: 0 <= i < |h| && i != x && i != y && i != p && i != lb ==> h3[i] == h[i])
  {
  }

  /** The pointwise effect of a right rotation at `S` on the store. */
  ghost predicate RightRotatedStore(h: seq<Half>, h': seq<Half>, ctx: seq<Frame>, S: Tree)
    requires S.Node? && S.left.Node?
  {
    var x, y, p, lb := S.id, S.left.id, Par(ctx), Root(S.left.right);
    && 0 < x < |h| && 0 < y < |h| && 0 <= p < |h| && IsLink(h, lb)
    && IsLink(h, h[x].right) && IsLink(h, h[y].left)
    && |h'| == |h|
    && Links(h'[x]) == Links(h[x]).(left := lb, parent := y)
    && h'[x].height == 1 + Max(StoredHeight(h, lb), StoredHeight(h, h[x].right))
    && Links(h'[y]) == Links(h[y]).(right := x, parent := p)
    && h'[y].height == 1 + Max(StoredHeight(h, h[y].left), h'[x].height)
    && (lb != Null ==> h'[lb] == h[lb].(parent := x))
    && h'[p] == Hang(h[p], ctx, y)
    && (forall i :: 0 <= i < |h| && i != x && i != y && i != p && i != lb ==> h'[i] == h[i])
  }

  /** The three subtrees a right rotation moves, and the handles around them. */
  lemma RotateRightParts(h: seq<Half>, ctx: seq<Frame>, S: Tree)
    requires Plugged(h, ctx, S) && Apart(ctx, S) && S.Node? && S.left.Node?
    ensures var x, y, p, lb := S.id, S.left.id, Par(ctx), Root(S.left.right);
      var A, B, C := S.left.left, S.left.right, S.right;
      && Linked(h, A, y) && Linked(h, B, y) && Linked(h, C, x) && Unique(B)
      && Ids(S) == Ids(A) + {y} + Ids(B) + {x} + Ids(C)
      && (forall i :: i in Ids(S) ==> 0 < i < |h|)
      && (forall i :: i in CtxIds(ctx) ==> 0 < i < |h|)
      && 0 <= p < |h| && p !in Ids(S)
      && x !in Ids(A) && x !in Ids(B) && x !in Ids(C) && y !in Ids(A) && y !in Ids(B) && y !in Ids(C)
      && lb !in Ids(A) && lb !in Ids(C) && (B.Node? ==> lb in Ids(B))
      && x !in CtxIds(ctx) && y !in CtxIds(ctx) && lb !in CtxIds(ctx)
  {
    PluggedFacts(h, ctx, S);
    assert Linked(h, S.left, S.id);
    assert Unique(S.left);
    if S.left.right.Node? {
      assert S.left.right.id in Ids(S.left.right);
    }
  }

  /** The subtrees a right rotation moves are stored again, under their new parents. */
  lemma RotatedRightParts(h: seq<Half>, h': seq<Half>, ctx: seq<Frame>, S: Tree)
    requires Plugged(h, ctx, S) && Apart(ctx, S) && S.Node? && S.left.Node?
    requires Heights(h, S.right) && Heights(h, S.left.left) && Heights(h, S.left.right)
    requires RightRotatedStore(h, h', ctx, S)
    ensures var x, y := S.id, S.left.id;
      && Linked(h', S.left.left, y) && Linked(h', S.left.right, x) && Linked(h', S.right, x)
      && Heights(h', S.left.left) && Heights(h', S.left.right) && Heights(h', S.right)
      && Rewired(h, h', ctx, y)
  {
    var x, y, p, lb := S.id, S.left.id, Par(ctx), Root(S.left.right);
    var A, B, C := S.left.left, S.left.right, S.right;
    RotateRightParts(h, ctx, S);
    Untouched(h, h', Ids(A), x, y, p, lb);
    Untouched(h, h', Ids(B) - {lb}, x, y, p, lb);
    Untouched(h, h', Ids(C), x, y, p, lb);
    Untouched(h, h', CtxIds(ctx) + {Sentinel} - {p}, x, y, p, lb);
    LinkedFrame(h, h', A, y);
    LinkedRehung(h, h', B, y, x);
    LinkedFrame(h, h', C, x);
    if lb != Null {
      assert SameHeightsOn(h, h', {lb});
    }
    HeightsFrame(h, h', A);
    HeightsFrame(h, h', B);
    HeightsFrame(h, h', C);
  }

  lemma RotatedRight(h: seq<Half>, h': seq<Half>, ctx: seq<Frame>, S: Tree)
    requires Plugged(h, ctx, S) && Apart(ctx, S) && S.Node? && S.left.Node?
    requires Heights(h, S.right) && Heights(h, S.left.left) && Heights(h, S.left.right)
    requires RightRotatedStore(h, h', ctx, S)
    ensures Plugged(h', ctx, Trees.RotateRight(S)) && Heights(h', Trees.RotateRight(S))
    ensures SameKeys(h, h')
    ensures forall i :: 0 <= i < |h'| && i !in Ids(S) ==> h'[i].height == h[i].height
  {
    var x, y := S.id, S.left.id;
    var A, B, C := S.left.left, S.left.right, S.right;
    RotatedRightParts(h, h', ctx, S);
    StoredHeightRoot(h, A);
    StoredHeightRoot(h, B);
    StoredHeightRoot(h, C);
    RotateRightParts(h, ctx, S);
    var u := Trees.RotateRight(S);
    assert Linked(h, S.left, x);
    assert h'[y].key == h[y].key && h'[y].left == Root(A) && h'[y].right == x && h'[y].parent == Par(ctx);
    assert Linked(h', u.right, y);
    assert Heights(h', u.right);
    assert Linked(h', u, Par(ctx));
    Reattach(h, h', ctx, S, u);
  }

  /** Writes confined to four handles leave every other node as it was. */
  lemma Untouched(h: seq<Half>, h': seq<Half>, s: set<int>, a: int, b: int, c: int, d: int)
    requires |h'| == |h| && forall i :: 0 <= i < |h| && i != a && i != b && i != c && i != d ==> h'[i] == h[i]
    requires forall i :: i in s ==> 0 <= i < |h|
    requires a !in s && b !in s && c !in s && d !in s
    ensures SameLinksOn(h, h', s) && SameHeightsOn(h, h', s)
  {
  }

  /** What a stored position of a uniquely-keyed axis says about the handles around it. */
  lemma PluggedFacts(h: seq<Half>, ctx: seq<Frame>, S: Tree)
    requires Plugged(h, ctx, S) && Apart(ctx, S)
    ensures |h| > 0 && 0 <= Par(ctx) < |h|
    ensures forall x :: x in Ids(S) ==> 0 < x < |h|
    ensures forall x :: x in CtxIds(ctx) ==> 0 < x < |h|
    ensures Par(ctx) !in Ids(S)
    ensures S.Node? ==> (S.id == h[Par(ctx)].left <==> ctx != [] && ctx[0].goLeft)
    ensures S.Node? ==> (S.id == h[Par(ctx)].left || S.id == h[Par(ctx)].right)
    ensures S.Node? ==> (S.id == h[Par(ctx)].right <==> ctx == [] || !ctx[0].goLeft)
  {
    LinkedIds(h, S, Par(ctx));
    CtxLinkedIds(h, ctx, Root(S));
    if ctx != [] {
      assert Par(ctx) in CtxIds(ctx);
      if S.Node? && ctx[0].sib.Node? {
        assert ctx[0].sib.id in Ids(ctx[0].sib);
      }
    }
  }

  // ---------------------------------------------------------------------
  // Insertion: a fresh node hung at the bottom of the search path
  // ---------------------------------------------------------------------

  /**
   * The store after `put` appends the half of a fresh node of key `k` at
   * handle `|h|` (height 1, no children, the parent the search ended at) and
   * hangs it in the empty child slot at the bottom of `ctx`.
   */
  function Attached(h: seq<Half>, ctx: seq<Frame>, k: string): seq<Half>
    requires 0 <= Par(ctx) < |h|
  {
    var g := h + [Half(k, Null, Null, Par(ctx), 1)];
    g[Par(ctx) := Hang(g[Par(ctx)], ctx, |h|)]
  }

  /** The links of a fresh node hung at the bottom of a stored path spell out the grown tree. */
  lemma AttachStored(h: seq<Half>, ctx: seq<Frame>, k: string)
    requires Plugged(h, ctx, Leaf) && Apart(ctx, Leaf)
    ensures 0 <= Par(ctx) < |h|
    ensures var h' := Attached(h, ctx, k);
      && |h'| == |h| + 1 && h'[|h|] == Half(k, Null, Null, Par(ctx), 1)
      && (forall i :: 0 <= i < |h| ==> h'[i].key == h[i].key && h'[i].height == h[i].height)
      && Plugged(h', ctx, Node(Leaf, |h|, k, Leaf))
  {
    var n, L := |h|, Node(Leaf, |h|, k, Leaf);
    var g := h + [Half(k, Null, Null, Par(ctx), 1)];
    PluggedFacts(h, ctx, Leaf);
    var h' := Attached(h, ctx, k);
    assert SameLinksOn(h, g, CtxIds(ctx) + {Sentinel});
    CtxFrame(h, g, ctx, Null);
    assert Rewired(g, h', ctx, n);
    assert Linked(h', L, Par(ctx));
    Reattach(g, h', ctx, Leaf, L);
  }

  /**
   * A fresh node hung where the search for its key ended keeps the keys in
   * order and leaves the walk to start at its parent, whose subtree grew by at
   * most one level; hung below the sentinel it makes a well-formed axis.
   */
  lemma {:induction false} AttachCorrect(h: seq<Half>, ctx: seq<Frame>, k: string)
    requires AxisOk(h, Plug(ctx, Leaf)) && Plugged(h, ctx, Leaf)
    requires forall e :: e in Before(ctx) ==> Less(e.key, k)
    requires forall e :: e in After(ctx) ==> Less(k, e.key)
    ensures 0 <= Par(ctx) < |h|
    ensures var h', L := Attached(h, ctx, k), Node(Leaf, |h|, k, Leaf);
      && |h'| == |h| + 1 && h'[|h|].key == k
      && (forall i :: 0 <= i < |h| ==> h'[i].key == h[i].key)
      && Items(Plug(ctx, L)) == Before(ctx) + [Entry(|h|, k)] + After(ctx)
      && (ctx == [] ==> AxisOk(h', L))
      && (ctx != [] ==>
            Walking(h', Plug(ctx, L), ctx[0].id, ctx[1..], Fill(ctx[0], L), Height(Fill(ctx[0], Leaf))))
  {
    var n, L := |h|, Node(Leaf, |h|, k, Leaf);
    PluggedApart(h, ctx, Leaf);
    AttachStored(h, ctx, k);
    var h' := Attached(h, ctx, k);
    assert Heights(h', Leaf);
    assert Heights(h', L);
    HeightsPlug(h, ctx, Leaf);
    CtxHeightsFrame(h, h', ctx);
    AttachOrder(ctx, L);
    BalancedPlug(ctx, Leaf);
    if ctx != [] {
      AttachWalk(h', ctx, L);
    }
  }

  /** The walk after an insertion starts at the parent of the new leaf node `L`. */
  lemma AttachWalk(h: seq<Half>, ctx: seq<Frame>, L: Tree)
    requires ctx != [] && L.Node? && L.left.Leaf? && L.right.Leaf?
    requires Plugged(h, ctx, L) && Heights(h, L) && CtxHeights(h, ctx) && CtxBalanced(ctx, 0)
    requires Ascending(Items(Plug(ctx, L)))
    ensures Walking(h, Plug(ctx, L), ctx[0].id, ctx[1..], Fill(ctx[0], L), Height(Fill(ctx[0], Leaf)))
  {
    var f := ctx[0];
    assert [f] + ctx[1..] == ctx;
    PlugUp(h, f, ctx[1..], L);
    assert Heights(h, f.sib);
    Perturbed(1, 0, Height(f.sib));
    forall i | 0 <= i < |ctx[1..]|
      ensures Heights(h, ctx[1..][i].sib)
    {
      assert ctx[1..][i] == ctx[i + 1];
    }
  }

  /** The in-order entries after an insertion: the new entry between those before and after its slot. */
  lemma {:induction false} AttachOrder(ctx: seq<Frame>, L: Tree)
    requires L.Node? && L.left.Leaf? && L.right.Leaf? && Ascending(Items(Plug(ctx, Leaf)))
    requires forall e :: e in Before(ctx) ==> Less(e.key, L.key)
    requires forall e :: e in After(ctx) ==> Less(L.key, e.key)
    ensures Items(Plug(ctx, L)) == Before(ctx) + [Entry(L.id, L.key)] + After(ctx)
    ensures Ascending(Items(Plug(ctx, L)))
  {
    var b, a, e := Before(ctx), After(ctx), Entry(L.id, L.key);
    ItemsPlug(ctx, Leaf);
    assert Items(Plug(ctx, Leaf)) == b + a by {
      assert b + Items(Leaf) + a == b + a;
    }
    AscendingInsert(b, e, a);
    ItemsPlug(ctx, L);
    assert Items(L) == [e];
  }

  // ---------------------------------------------------------------------
  // Removal: splicing a node with at most one child out of its place, and
  // moving the in-order successor into the place of a node with two
  // ---------------------------------------------------------------------

  /**
   * The store after the node `u`, which has at most one child, is cut out:
   * its parent's slot that held `u` now holds `u`'s child, whose parent
   * link now names `u`'s parent.  `u`'s own half is left as it was.
   */
  function Spliced(h: seq<Half>, u: int): seq<Half>
    requires 0 <= u < |h| && 0 <= h[u].parent < |h| && IsLink(h, h[u].left) && IsLink(h, h[u].right)
  {
    var p := h[u].parent;
    var c := if h[u].right == Null then h[u].left else h[u].right;
    var g := h[p := if h[p].left == u then h[p].(left := c) else h[p].(right := c)];
    if c == Null then g else g[c := g[c].(parent := p)]
  }

  /**
   * The store after `u` takes the place of `n`: `u` gets `n`'s children and
   * parent, the parent's slot that held `n` holds `u`, and `n`'s links are
   * cleared.  `u` keeps its own stored height; the fix-up walk recomputes it.
   */
  function Transplanted(h: seq<Half>, n: int, u: int): seq<Half>
    requires 0 <= n < |h| && 0 <= u < |h| && n != u
    requires IsLink(h, h[n].left) && IsLink(h, h[n].right) && h[n].left != n && h[n].right != n
    requires 0 <= h[n].parent < |h|
  {
    var h1 := LeftSet(h, u, h[n].left);
    var h2 := RightSet(h1, u, h1[n].right);
    var p := h2[n].parent;
    var h3 := h2[u := h2[u].(parent := p)];
    var h4 := h3[p := if n == h3[p].left then h3[p].(left := u) else h3[p].(right := u)];
    h4[n := h4[n].(left := Null, right := Null, parent := Null)]
  }

  /** Cutting out a stored node with at most one child leaves that child in its place. */
  lemma SplicedCorrect(h: seq<Half>, ctx: seq<Frame>, S: Tree)
    requires Plugged(h, ctx, S) && Apart(ctx, S) && S.Node? && (S.left.Leaf? || S.right.Leaf?)
    ensures 0 < S.id < |h| && 0 <= h[S.id].parent < |h| && IsLink(h, h[S.id].left) && IsLink(h, h[S.id].right)
    ensures var h' := Spliced(h, S.id);
      SameKeysHeights(h, h') && Plugged(h', ctx, if S.right.Leaf? then S.left else S.right)
  {
    var x, p := S.id, Par(ctx);
    var c := if S.right.Leaf? then S.left else S.right;
    PluggedFacts(h, ctx, S);
    LinkedIds(h, S, p);
    var h' := Spliced(h, x);
    assert Rewired(h, h', ctx, Root(c));
    LinkedRehung(h, h', c, x, p);
    Reattach(h, h', ctx, S, c);
  }

  /** The handles a transplant touches: `u`, the old root, its children and its parent. */
  ghost predicate TransplantShape(h: seq<Half>, ctx: seq<Frame>, S: Tree, u: int)
  {
    S.Node? &&
    var x, p, a, b := S.id, Par(ctx), Root(S.left), Root(S.right);
    && 0 < x < |h| && 0 < u < |h| && 0 <= p < |h| && IsLink(h, a) && IsLink(h, b)
    && h[x].left == a && h[x].right == b && h[x].parent == p
    && u != x && u != p && u != a && u != b && x != p && x != a && x != b && p != a && p != b
    && (a != Null ==> a != b)
    && (x == h[p].left <==> ctx != [] && ctx[0].goLeft)
  }

  /** The store a transplant of `u` into the place of the root of `S` leaves, node by node. */
  ghost predicate TransplantedStore(h: seq<Half>, h': seq<Half>, ctx: seq<Frame>, S: Tree, u: int)
    requires TransplantShape(h, ctx, S, u)
  {
    var x, p, a, b := S.id, Par(ctx), Root(S.left), Root(S.right);
    && |h'| == |h|
    && h'[u] == h[u].(left := a, right := b, parent := p)
    && h'[x] == h[x].(left := Null, right := Null, parent := Null)
    && (a != Null ==> h'[a] == h[a].(parent := u))
    && (b != Null ==> h'[b] == h[b].(parent := u))
    && h'[p] == Hang(h[p], ctx, u)
    && forall i :: 0 <= i < |h| && i != u && i != x && i != a && i != b && i != p ==> h'[i] == h[i]
  }

  lemma TransplantShapeHolds(h: seq<Half>, ctx: seq<Frame>, S: Tree, u: int)
    requires Plugged(h, ctx, S) && Apart(ctx, S) && S.Node?
    requires 0 < u < |h| && u !in Ids(S) && u !in CtxIds(ctx)
    ensures TransplantShape(h, ctx, S, u)
  {
    PluggedFacts(h, ctx, S);
    LinkedIds(h, S, Par(ctx));
    if ctx != [] {
      assert Par(ctx) in CtxIds(ctx);
    }
  }

  lemma TransplantedWrites(h: seq<Half>, ctx: seq<Frame>, S: Tree, u: int)
    requires TransplantShape(h, ctx, S, u)
    ensures TransplantedStore(h, Transplanted(h, S.id, u), ctx, S, u)
  {
  }

  /**
   * A node `u` from outside a stored subtree `S` put in the place of its root:
   * the subtree with `u` at its root is stored there.
   */
  lemma TransplantedCorrect(h: seq<Half>, ctx: seq<Frame>, S: Tree, u: int)
    requires Plugged(h, ctx, S) && Apart(ctx, S) && S.Node?
    requires 0 < u < |h| && u !in Ids(S) && u !in CtxIds(ctx)
    ensures 0 < S.id < |h| && IsLink(h, h[S.id].left) && IsLink(h, h[S.id].right)
    ensures h[S.id].left != S.id && h[S.id].right != S.id && 0 <= h[S.id].parent < |h|
    ensures var h' := Transplanted(h, S.id, u);
      SameKeysHeights(h, h') && Plugged(h', ctx, Node(S.left, u, h[u].key, S.right))
  {
    TransplantShapeHolds(h, ctx, S, u);
    TransplantedWrites(h, ctx, S, u);
    TransplantedStored(h, Transplanted(h, S.id, u), ctx, S, u);
  }

  lemma TransplantedStored(h: seq<Half>, h': seq<Half>, ctx: seq<Frame>, S: Tree, u: int)
    requires Plugged(h, ctx, S) && Apart(ctx, S) && S.Node?
    requires 0 < u < |h| && u !in Ids(S) && u !in CtxIds(ctx)
    requires TransplantShape(h, ctx, S, u) && TransplantedStore(h, h', ctx, S, u)
    ensures SameKeysHeights(h, h') && Plugged(h', ctx, Node(S.left, u, h[u].key, S.right))
  {
    var x, p := S.id, Par(ctx);
    var S' := Node(S.left, u, h[u].key, S.right);
    PluggedFacts(h, ctx, S);
    LinkedIds(h, S, p);
    LinkedRehung(h, h', S.left, x, u);
    LinkedRehung(h, h', S.right, x, u);
    assert Linked(h', S', p);
    assert Rewired(h, h', ctx, u);
    Reattach(h, h', ctx, S, S');
  }

  /**
   * Removing the node `S` with at most one child: once its child is stored in
   * its place, entry `i` has left the in-order sequence and the walk starts
   * at the old parent, whose subtree lost at most one level.
   */
  lemma UnlinkedShallow(h: seq<Half>, h': seq<Half>, t: Tree, cn: seq<Frame>, S: Tree, i: int)
      returns (ctx: seq<Frame>, focus: Tree, h0: int)
    requires AxisOk(h, t) && 0 <= i < |Items(t)|
    requires S.Node? && Plug(cn, S) == t && |Before(cn)| + |Items(S.left)| == i
    requires S.left.Leaf? || S.right.Leaf?
    requires SameKeysHeights(h, h') && Plugged(h', cn, if S.right.Leaf? then S.left else S.right)
    ensures var t' := Plug(cn, if S.right.Leaf? then S.left else S.right);
      && Items(t') == Items(t)[..i] + Items(t)[i + 1..]
      && Walking(h', t', Par(cn), ctx, focus, h0)
  {
    ShallowItems(t, cn, S, i);
    KeptHeights(h, h', t);
    ctx, focus, h0 := ShallowWalk(h', cn, S);
  }

  /** Replacing `S`, which has at most one child, by that child drops entry `i` from the in-order sequence. */
  lemma ShallowItems(t: Tree, cn: seq<Frame>, S: Tree, i: int)
    requires Ascending(Items(t)) && 0 <= i < |Items(t)|
    requires S.Node? && Plug(cn, S) == t && |Before(cn)| + |Items(S.left)| == i
    requires S.left.Leaf? || S.right.Leaf?
    ensures var t' := Plug(cn, if S.right.Leaf? then S.left else S.right);
      Items(t') == Items(t)[..i] + Items(t)[i + 1..] && Ascending(Items(t'))
  {
    var c := if S.right.Leaf? then S.left else S.right;
    assert Items(S) == Items(S.left) + [Entry(S.id, S.key)] + Items(S.right);
    assert Items(c) == Items(S.left) + Items(S.right);
    DropMiddle(Items(S), Items(c), Items(S.left), Entry(S.id, S.key), Items(S.right));
    ItemsReplaced(cn, S, c, |Items(S.left)|);
    AscendingDrop(Items(Plug(cn, c)), Items(t), i);
  }

  lemma DropMiddle(s: seq<Entry>, s': seq<Entry>, a: seq<Entry>, e: Entry, b: seq<Entry>)
    requires s == a + [e] + b && s' == a + b
    ensures DropsAt(s', s, |a|)
  {
    assert s[..|a|] == a && s[|a| + 1..] == b;
  }

  lemma ShallowWalk(h: seq<Half>, cn: seq<Frame>, S: Tree) returns (ctx: seq<Frame>, focus: Tree, h0: int)
    requires S.Node? && (S.left.Leaf? || S.right.Leaf?)
    requires Heights(h, Plug(cn, S)) && Balanced(Plug(cn, S))
    requires var c := if S.right.Leaf? then S.left else S.right;
      Plugged(h, cn, c) && Ascending(Items(Plug(cn, c)))
    ensures var c := if S.right.Leaf? then S.left else S.right;
      Walking(h, Plug(cn, c), Par(cn), ctx, focus, h0)
  {
    var c := if S.right.Leaf? then S.left else S.right;
    HeightsPlug(h, cn, S);
    BalancedPlug(cn, S);
    if cn == [] {
      ctx, focus, h0 := [], c, 0;
    } else {
      ctx, focus, h0 := cn[1..], Fill(cn[0], c), Height(Fill(cn[0], S));
      ShallowWalkUp(h, cn, S);
    }
  }

  lemma ShallowWalkUp(h: seq<Half>, cn: seq<Frame>, S: Tree)
    requires cn != [] && S.Node? && (S.left.Leaf? || S.right.Leaf?)
    requires Heights(h, S) && Balanced(S) && CtxHeights(h, cn) && CtxBalanced(cn, Height(S))
    requires var c := if S.right.Leaf? then S.left else S.right;
      Plugged(h, cn, c) && Ascending(Items(Plug(cn, c)))
    ensures var c := if S.right.Leaf? then S.left else S.right;
      Walking(h, Plug(cn, c), cn[0].id, cn[1..], Fill(cn[0], c), Height(Fill(cn[0], S)))
  {
    if S.right.Leaf? {
      WalkUpFrom(h, cn, S, S.left);
    } else {
      WalkUpFrom(h, cn, S, S.right);
    }
  }

  /** The walk starts at the parent of `S` once `S` has been replaced by `c`, one level lower or the same. */
  lemma WalkUpFrom(h: seq<Half>, cn: seq<Frame>, S: Tree, c: Tree)
    requires cn != [] && Good(h, c) && -1 <= Height(c) - Height(S) <= 1
    requires CtxHeights(h, cn) && CtxBalanced(cn, Height(S))
    requires Plugged(h, cn, c) && Ascending(Items(Plug(cn, c)))
    ensures Walking(h, Plug(cn, c), cn[0].id, cn[1..], Fill(cn[0], c), Height(Fill(cn[0], S)))
  {
    LinkedUp(h, cn, c);
    BalanceUp(cn, S, c);
  }

  /** One step up a stored path: the parent frame filled with `c` is stored above the rest of the path. */
  lemma LinkedUp(h: seq<Half>, cn: seq<Frame>, c: Tree)
    requires cn != [] && CtxHeights(h, cn) && Plugged(h, cn, c)
    ensures Plug(cn, c) == Plug(cn[1..], Fill(cn[0], c)) && Plugged(h, cn[1..], Fill(cn[0], c))
    ensures 0 < cn[0].id && Heights(h, cn[0].sib) && CtxHeights(h, cn[1..])
  {
    var f, up := cn[0], cn[1..];
    assert [f] + up == cn;
    PlugUp(h, f, up, c);
    forall j | 0 <= j < |up|
      ensures Heights(h, up[j].sib)
    {
      assert up[j] == cn[j + 1];
    }
  }

  /** One step up a balanced path, after the subtree `S` there was replaced by `c`. */
  lemma BalanceUp(cn: seq<Frame>, S: Tree, c: Tree)
    requires cn != [] && -1 <= Height(c) - Height(S) <= 1 && CtxBalanced(cn, Height(S))
    ensures Balanced(cn[0].sib) && CtxBalanced(cn[1..], Height(Fill(cn[0], S)))
    ensures var F := Fill(cn[0], c); Fixable(Height(F.left), Height(F.right), Height(Fill(cn[0], S)))
  {
    CtxBalancedHead(cn, Height(S));
    FillHeights(cn[0], S, c);
    Perturbed(Height(c), Height(S), Height(cn[0].sib));
  }

  lemma CtxBalancedHead(cn: seq<Frame>, h0: int)
    requires cn != [] && CtxBalanced(cn, h0)
    ensures Balanced(cn[0].sib) && -1 <= h0 - Height(cn[0].sib) <= 1
    ensures CtxBalanced(cn[1..], 1 + Max(h0, Height(cn[0].sib)))
  {
  }

  lemma FillHeights(f: Frame, S: Tree, c: Tree)
    ensures Height(Fill(f, S)) == 1 + Max(Height(S), Height(f.sib))
    ensures Height(Fill(f, c).left) == if f.goLeft then Height(c) else Height(f.sib)
    ensures Height(Fill(f, c).right) == if f.goLeft then Height(f.sib) else Height(c)
  {
  }

  /** The in-order successor `m` of a node `S` with two children, and its stored position. */
  lemma SuccessorPosition(h: seq<Half>, t: Tree, cn: seq<Frame>, S: Tree) returns (bc: seq<Frame>, m: Tree)
    requires AxisOk(h, t) && Plug(cn, S) == t && Plugged(h, cn, S)
    requires S.Node? && S.right.Node?
    ensures LeftmostPath(S.right, bc, m) && m.id == Items(S.right)[0].id
    ensures var cu := bc + [Frame(false, S.id, S.key, S.left)] + cn;
      && Plug(cu, m) == t && Plugged(h, cu, m) && Apart(cu, m)
      && 0 < m.id < |h| && h[m.id].left == Null && h[m.id].key == m.key
      && IsLink(h, h[m.id].right) && h[m.id].parent == Par(cu) && 0 <= Par(cu) < |h|
      && Par(cu) == (if bc == [] then S.id else bc[0].id)
      && (bc != [] ==> bc[0].id != S.id)
  {
    bc, m := MinPath(S.right).0, MinPath(S.right).1;
    var F := Frame(false, S.id, S.key, S.left);
    var cu := bc + [F] + cn;
    assert cu == bc + ([F] + cn);
    DownRight(h, cn, S);
    PlugDown(h, bc, [F] + cn, m);
    PlugConcat(bc, [F] + cn, m);
    PluggedApart(h, cu, m);
    PluggedFacts(h, cu, m);
    LinkedIds(h, m.right, m.id);
    if bc != [] {
      assert cu[0] == bc[0] && cu[1..] == bc[1..] + ([F] + cn);
      CtxIdsConcat(bc[1..], [F] + cn);
      assert ([F] + cn)[0] == F;
    }
  }

  /**
   * Removing the node `S` with two children, first half: its in-order
   * successor `m` (the leftmost node of its right subtree) has been cut out
   * of its own place; `S` now has the right subtree without `m`.
   */
  lemma DeepSpliced(h: seq<Half>, h1: seq<Half>, t: Tree, cn: seq<Frame>, S: Tree, i: int, bc: seq<Frame>, m: Tree)
    requires Ascending(Items(t)) && 0 <= i < |Items(t)|
    requires S.Node? && Plug(cn, S) == t && |Before(cn)| + |Items(S.left)| == i
    requires S.right.Node? && LeftmostPath(S.right, bc, m)
    requires Apart(bc + [Frame(false, S.id, S.key, S.left)] + cn, m) && 0 < m.id < |h| && h[m.id].key == m.key
    requires SameKeysHeights(h, h1) && Plugged(h1, bc + [Frame(false, S.id, S.key, S.left)] + cn, m.right)
    ensures var S1 := Node(S.left, S.id, S.key, Plug(bc, m.right));
      && Plugged(h1, cn, S1) && Apart(cn, S1)
      && 0 < m.id < |h1| && m.id !in Ids(S1) && m.id !in CtxIds(cn) && h1[m.id].key == m.key
  {
    DeepSplicedLinks(h1, cn, S, bc, m);
    DeepSplicedOrder(t, cn, S, i, bc, m);
    PluggedApart(h1, cn, Node(S.left, S.id, S.key, Plug(bc, m.right)));
    SuccessorApart(cn, S, bc, m);
  }

  lemma DeepSplicedLinks(h1: seq<Half>, cn: seq<Frame>, S: Tree, bc: seq<Frame>, m: Tree)
    requires S.Node? && m.Node? && Plugged(h1, bc + [Frame(false, S.id, S.key, S.left)] + cn, m.right)
    ensures Plugged(h1, cn, Node(S.left, S.id, S.key, Plug(bc, m.right)))
  {
    var F := Frame(false, S.id, S.key, S.left);
    assert bc + [F] + cn == bc + ([F] + cn);
    PlugDown(h1, bc, [F] + cn, m.right);
    PlugUp(h1, F, cn, Plug(bc, m.right));
  }

  lemma DeepSplicedOrder(t: Tree, cn: seq<Frame>, S: Tree, i: int, bc: seq<Frame>, m: Tree)
    requires Ascending(Items(t)) && 0 <= i < |Items(t)|
    requires S.Node? && Plug(cn, S) == t && |Before(cn)| + |Items(S.left)| == i
    requires S.right.Node? && LeftmostPath(S.right, bc, m)
    ensures Ascending(Items(Plug(cn, Node(S.left, S.id, S.key, Plug(bc, m.right)))))
  {
    SuccessorItems(S, bc, m);
    ItemsReplaced(cn, S, Node(S.left, S.id, S.key, Plug(bc, m.right)), |Items(S.left)| + 1);
    AscendingDrop(Items(Plug(cn, Node(S.left, S.id, S.key, Plug(bc, m.right)))), Items(t), i + 1);
  }

  /**
   * Removing the node `S` with two children on one axis: its successor `m` is
   * spliced out of its place and then transplanted into the place of `S`.
   */
  lemma SuccessorReplaced(h: seq<Half>, t: Tree, cn: seq<Frame>, S: Tree, i: int, bc: seq<Frame>, m: Tree)
      returns (ctx: seq<Frame>, focus: Tree, h0: int)
    requires AxisOk(h, t) && 0 <= i < |Items(t)|
    requires S.Node? && Plug(cn, S) == t && |Before(cn)| + |Items(S.left)| == i
    requires S.right.Node? && LeftmostPath(S.right, bc, m)
    requires var cu := bc + [Frame(false, S.id, S.key, S.left)] + cn;
      && Plugged(h, cu, m) && Apart(cu, m) && 0 < m.id < |h| && h[m.id].key == m.key
    ensures 0 <= m.id < |h| && 0 <= h[m.id].parent < |h| && IsLink(h, h[m.id].left) && IsLink(h, h[m.id].right)
    ensures var h1 := Spliced(h, m.id);
      && 0 <= S.id < |h1| && 0 <= m.id < |h1| && S.id != m.id
      && IsLink(h1, h1[S.id].left) && IsLink(h1, h1[S.id].right)
      && h1[S.id].left != S.id && h1[S.id].right != S.id && 0 <= h1[S.id].parent < |h1|
    ensures var h2 := Transplanted(Spliced(h, m.id), S.id, m.id);
      var t' := Plug(cn, Node(S.left, m.id, m.key, Plug(bc, m.right)));
      && SameKeys(h, h2)
      && Items(t') == Items(t)[..i] + Items(t)[i + 1..]
      && Walking(h2, t', if bc == [] then m.id else bc[0].id, ctx, focus, h0)
  {
    SplicedCorrect(h, bc + [Frame(false, S.id, S.key, S.left)] + cn, m);
    var h1 := Spliced(h, m.id);
    DeepSpliced(h, h1, t, cn, S, i, bc, m);
    TransplantedCorrect(h1, cn, Node(S.left, S.id, S.key, Plug(bc, m.right)), m.id);
    var h2 := Transplanted(h1, S.id, m.id);
    SameKeysHeightsTrans(h, h1, h2);
    var t';
    t', ctx, focus, h0 := DeepTransplanted(h, h2, t, cn, S, i, bc, m);
  }

  /**
   * Removing the node `S` with two children, second half: the successor `m`
   * stands in the place of `S`.  Entry `i` has left the in-order sequence.
   */
  lemma DeepTransplanted(h: seq<Half>, h2: seq<Half>, t: Tree, cn: seq<Frame>, S: Tree, i: int, bc: seq<Frame>, m: Tree)
      returns (t': Tree, ctx: seq<Frame>, focus: Tree, h0: int)
    requires AxisOk(h, t) && 0 <= i < |Items(t)|
    requires S.Node? && Plug(cn, S) == t && |Before(cn)| + |Items(S.left)| == i
    requires S.right.Node? && LeftmostPath(S.right, bc, m)
    requires SameKeysHeights(h, h2) && Plugged(h2, cn, Node(S.left, m.id, m.key, Plug(bc, m.right)))
    ensures t' == Plug(cn, Node(S.left, m.id, m.key, Plug(bc, m.right)))
    ensures Items(t') == Items(t)[..i] + Items(t)[i + 1..]
    ensures Walking(h2, t', if bc == [] then m.id else bc[0].id, ctx, focus, h0)
  {
    t' := Plug(cn, Node(S.left, m.id, m.key, Plug(bc, m.right)));
    DeepItems(t, cn, S, i, bc, m);
    KeptHeights(h, h2, t);
    ctx, focus, h0 := SuccessorWalk(h2, cn, S, bc, m);
  }

  /** Putting the successor `m` in the place of `S` drops entry `i` from the in-order sequence. */
  lemma DeepItems(t: Tree, cn: seq<Frame>, S: Tree, i: int, bc: seq<Frame>, m: Tree)
    requires Ascending(Items(t)) && 0 <= i < |Items(t)|
    requires S.Node? && Plug(cn, S) == t && |Before(cn)| + |Items(S.left)| == i
    requires S.right.Node? && LeftmostPath(S.right, bc, m)
    ensures var t' := Plug(cn, Node(S.left, m.id, m.key, Plug(bc, m.right)));
      Items(t') == Items(t)[..i] + Items(t)[i + 1..] && Ascending(Items(t'))
  {
    SuccessorItems(S, bc, m);
    ItemsReplaced(cn, S, Node(S.left, m.id, m.key, Plug(bc, m.right)), |Items(S.left)|);
    AscendingDrop(Items(Plug(cn, Node(S.left, m.id, m.key, Plug(bc, m.right)))), Items(t), i);
  }

  /** The entries of the right subtree of `S`: its leftmost node `m`, then the rest once `m` is cut out. */
  lemma SuccessorFirst(S: Tree, bc: seq<Frame>, m: Tree)
    requires S.Node? && S.right.Node? && LeftmostPath(S.right, bc, m)
    ensures Items(S.right) == [Entry(m.id, m.key)] + Items(Plug(bc, m.right))
  {
    var e, r := Entry(m.id, m.key), Items(m.right);
    BeforeAllLeft(bc);
    ItemsPlug(bc, m);
    ItemsPlug(bc, m.right);
    assert Items(m) == [e] + r by {
      assert m.left == Leaf;
    }
    InFront(Items(Plug(bc, m)), Items(Plug(bc, m.right)), Before(bc), e, r, After(bc));
  }

  lemma InFront(p: seq<Entry>, q: seq<Entry>, b: seq<Entry>, e: Entry, r: seq<Entry>, a: seq<Entry>)
    requires b == [] && p == b + ([e] + r) + a && q == b + r + a
    ensures p == [e] + q
  {
    assert p == [e] + (r + a);
  }

  /** The entries of `S` with `S` or its successor `m` dropped, as the two halves of a removal leave them. */
  lemma SuccessorItems(S: Tree, bc: seq<Frame>, m: Tree)
    requires S.Node? && S.right.Node? && LeftmostPath(S.right, bc, m)
    ensures |Items(S)| >= |Items(S.left)| + 2
    ensures DropsAt(Items(Node(S.left, S.id, S.key, Plug(bc, m.right))), Items(S), |Items(S.left)| + 1)
    ensures DropsAt(Items(Node(S.left, m.id, m.key, Plug(bc, m.right))), Items(S), |Items(S.left)|)
  {
    SuccessorFirst(S, bc, m);
    var l, e, rest := Items(S.left), Entry(m.id, m.key), Items(Plug(bc, m.right));
    assert Items(S) == l + [Entry(S.id, S.key)] + ([e] + rest);
    DropNear(Items(S), Items(Node(S.left, S.id, S.key, Plug(bc, m.right))), Items(Node(S.left, m.id, m.key, Plug(bc, m.right))),
      l, Entry(S.id, S.key), e, rest);
  }

  lemma DropNear(s: seq<Entry>, sa: seq<Entry>, sb: seq<Entry>, l: seq<Entry>, a: Entry, b: Entry, rest: seq<Entry>)
    requires s == l + [a] + ([b] + rest) && sa == l + [a] + rest && sb == l + [b] + rest
    ensures |s| >= |l| + 2 && DropsAt(sa, s, |l| + 1) && DropsAt(sb, s, |l|)
  {
    assert s[..|l| + 1] == l + [a] && s[|l| + 2..] == rest;
    assert s[..|l|] == l && s[|l| + 1..] == [b] + rest;
  }

  /** The successor is the only node that leaves the right subtree, and it is not found elsewhere. */
  lemma SuccessorApart(cn: seq<Frame>, S: Tree, bc: seq<Frame>, m: Tree)
    requires S.Node? && m.Node? && Apart(bc + [Frame(false, S.id, S.key, S.left)] + cn, m)
    ensures var S1 := Node(S.left, S.id, S.key, Plug(bc, m.right));
      m.id !in Ids(S1) && m.id !in CtxIds(cn)
  {
    var F := Frame(false, S.id, S.key, S.left);
    CtxIdsConcat(bc, [F] + cn);
    assert bc + [F] + cn == bc + ([F] + cn);
    assert ([F] + cn)[0] == F && ([F] + cn)[1..] == cn;
    IdsPlug(bc, m.right);
    assert m.id in Ids(m);
  }

  /**
   * The walk after the successor `m` took the place of `S`: it starts where
   * `m` was cut out, at `m`'s old parent, or at `m` itself in the place of
   * `S` when `m` was the right child of `S`.
   */
  lemma SuccessorWalk(h: seq<Half>, cn: seq<Frame>, S: Tree, bc: seq<Frame>, m: Tree)
      returns (ctx: seq<Frame>, focus: Tree, h0: int)
    requires S.Node? && S.right.Node? && LeftmostPath(S.right, bc, m)
    requires Heights(h, Plug(cn, S)) && Balanced(Plug(cn, S))
    requires var S2 := Node(S.left, m.id, m.key, Plug(bc, m.right));
      Plugged(h, cn, S2) && Ascending(Items(Plug(cn, S2)))
    ensures var t' := Plug(cn, Node(S.left, m.id, m.key, Plug(bc, m.right)));
      Walking(h, t', if bc == [] then m.id else bc[0].id, ctx, focus, h0)
  {
    var F := Frame(false, S.id, S.key, S.left);
    var cu := bc + [F] + cn;
    DownRight(h, cn, S);
    PlugConcat(bc, [F] + cn, m);
    assert cu == bc + ([F] + cn);
    HeightsPlug(h, cu, m);
    BalancedPlug(cu, m);
    HeightsPlug(h, cn, S);
    BalancedPlug(cn, S);
    if bc == [] {
      ctx, focus, h0 := cn, Node(S.left, m.id, m.key, m.right), Height(S);
      Perturbed(Height(m.right), Height(S.right), Height(S.left));
    } else {
      ctx, focus, h0 := bc[1..] + [Frame(false, m.id, m.key, S.left)] + cn, Fill(bc[0], m.right), Height(Fill(bc[0], m));
      SuccessorWalkBelow(h, cn, S, bc, m);
    }
  }

  /** `SuccessorWalk` when `m` lay deeper than the right child of `S`: the walk starts at `m`'s old parent. */
  lemma SuccessorWalkBelow(h: seq<Half>, cn: seq<Frame>, S: Tree, bc: seq<Frame>, m: Tree)
    requires S.Node? && S.right.Node? && LeftmostPath(S.right, bc, m) && bc != []
    requires Heights(h, Plug(cn, S)) && Balanced(Plug(cn, S))
    requires var S2 := Node(S.left, m.id, m.key, Plug(bc, m.right));
      Plugged(h, cn, S2) && Ascending(Items(Plug(cn, S2)))
    ensures var F' := Frame(false, m.id, m.key, S.left);
      Walking(h, Plug(cn, Node(S.left, m.id, m.key, Plug(bc, m.right))), bc[0].id,
              bc[1..] + [F'] + cn, Fill(bc[0], m.right), Height(Fill(bc[0], m)))
  {
    SuccessorReplugged(h, cn, S, bc, m);
    SuccessorBalance(h, cn, S, bc, m);
  }

  /** The tree with the successor moved, seen from the old parent of the successor. */
  lemma SuccessorReplugged(h: seq<Half>, cn: seq<Frame>, S: Tree, bc: seq<Frame>, m: Tree)
    requires S.Node? && bc != [] && m.Node?
    requires Plugged(h, cn, Node(S.left, m.id, m.key, Plug(bc, m.right)))
    ensures var cv := bc[1..] + [Frame(false, m.id, m.key, S.left)] + cn;
      && Plug(cv, Fill(bc[0], m.right)) == Plug(cn, Node(S.left, m.id, m.key, Plug(bc, m.right)))
      && Plugged(h, cv, Fill(bc[0], m.right))
  {
    var F' := Frame(false, m.id, m.key, S.left);
    var cv := bc + [F'] + cn;
    var B' := Plug(bc, m.right);
    assert ([F'] + cn)[0] == F' && ([F'] + cn)[1..] == cn;
    PlugUp(h, F', cn, B');
    PlugDown(h, bc, [F'] + cn, m.right);
    PlugConcat(bc, [F'] + cn, m.right);
    assert cv == bc + ([F'] + cn);
    assert cv == [bc[0]] + cv[1..] && cv[1..] == bc[1..] + [F'] + cn;
    PlugUp(h, bc[0], cv[1..], m.right);
  }

  /** Heights and balance around the old parent of the successor, which lost one level below it at most. */
  lemma SuccessorBalance(h: seq<Half>, cn: seq<Frame>, S: Tree, bc: seq<Frame>, m: Tree)
    requires S.Node? && S.right.Node? && LeftmostPath(S.right, bc, m) && bc != []
    requires Heights(h, Plug(cn, S)) && Balanced(Plug(cn, S))
    ensures var cv := bc[1..] + [Frame(false, m.id, m.key, S.left)] + cn;
      var f, h0 := Fill(bc[0], m.right), Height(Fill(bc[0], m));
      && f.Node? && f.id == bc[0].id
      && Good(h, f.left) && Good(h, f.right) && Fixable(Height(f.left), Height(f.right), h0)
      && CtxBalanced(cv, h0) && CtxHeights(h, cv)
  {
    var F, F' := Frame(false, S.id, S.key, S.left), Frame(false, m.id, m.key, S.left);
    var cu, cv := bc + [F] + cn, bc + [F'] + cn;
    SuccessorPathGood(h, cn, S, bc, m);
    SwappedFrame(bc, F, F', cn);
    CtxBalancedSiblings(cu, cv, Height(m));
    CtxBalancedHead(cv, Height(m));
    CtxHeightsTail(h, cv);
    FillHeights(bc[0], m, m.right);
    assert Height(m) == 1 + Height(m.right);
    Perturbed(Height(m.right), Height(m), Height(bc[0].sib));
  }

  /** Along the path down to the successor `m`, heights are stored and the tree is balanced. */
  lemma SuccessorPathGood(h: seq<Half>, cn: seq<Frame>, S: Tree, bc: seq<Frame>, m: Tree)
    requires S.Node? && S.right.Node? && LeftmostPath(S.right, bc, m)
    requires Heights(h, Plug(cn, S)) && Balanced(Plug(cn, S))
    ensures var cu := bc + [Frame(false, S.id, S.key, S.left)] + cn;
      Good(h, m) && CtxHeights(h, cu) && CtxBalanced(cu, Height(m))
  {
    var F := Frame(false, S.id, S.key, S.left);
    var cu := bc + [F] + cn;
    DownRight(h, cn, S);
    PlugConcat(bc, [F] + cn, m);
    assert cu == bc + ([F] + cn);
    HeightsPlug(h, cu, m);
    BalancedPlug(cu, m);
  }

  /** Two paths that differ in one frame with the same sibling and direction. */
  lemma SwappedFrame(bc: seq<Frame>, F: Frame, F': Frame, cn: seq<Frame>)
    requires bc != [] && F.sib == F'.sib && F.goLeft == F'.goLeft
    ensures var cu, cv := bc + [F] + cn, bc + [F'] + cn;
      SameSiblings(cu, cv) && cv[0] == bc[0] && cv[1..] == bc[1..] + [F'] + cn
  {
    var cu, cv := bc + [F] + cn, bc + [F'] + cn;
    forall j | 0 <= j < |cu|
      ensures cu[j].sib == cv[j].sib && cu[j].goLeft == cv[j].goLeft
    {
      if j < |bc| {
        assert cu[j] == bc[j] == cv[j];
      } else if j == |bc| {
        assert cu[j] == F && cv[j] == F';
      } else {
        assert cu[j] == cn[j - |bc| - 1] == cv[j];
      }
    }
  }

  lemma CtxHeightsTail(h: seq<Half>, c: seq<Frame>)
    requires c != [] && CtxHeights(h, c)
    ensures Heights(h, c[0].sib) && CtxHeights(h, c[1..])
  {
    forall j | 0 <= j < |c[1..]|
      ensures Heights(h, c[1..][j].sib)
    {
      assert c[1..][j] == c[j + 1];
    }
  }

  /** The entries of an axis after a fresh entry is hung into an empty slot. */
  lemma InsertedMembers(ctx: seq<Frame>, n: nat, k: string)
    ensures forall e :: e in Items(Plug(ctx, Node(Leaf, n, k, Leaf))) <==> e in Items(Plug(ctx, Leaf)) || e == Entry(n, k)
  {
    ItemsPlug(ctx, Leaf);
    ItemsPlug(ctx, Node(Leaf, n, k, Leaf));
  }

  lemma IdsAsSet(t: Tree)
    ensures Ids(t) == set e | e in Items(t) :: e.id
  {
    IdsItems(t);
  }

  /** Entry sets that differ by one entry differ by its handle and its key. */
  lemma ChangedSets(s: seq<Entry>, s': seq<Entry>, x: Entry)
    requires forall e :: e in s' <==> e in s || e == x
    ensures (set e | e in s' :: e.id) == (set e | e in s :: e.id) + {x.id}
    ensures (set e | e in s' :: e.key) == (set e | e in s :: e.key) + {x.key}
  {
    assert x in s';
  }

  /** The handles and keys of an axis that gained the entry `x`. */
  lemma Grown(t: Tree, t': Tree, x: Entry)
    requires forall e :: e in Items(t') <==> e in Items(t) || e == x
    ensures Ids(t') == Ids(t) + {x.id} && Keys(t') == Keys(t) + {x.key}
  {
    IdsAsSet(t);
    IdsAsSet(t');
    ChangedSets(Items(t), Items(t'), x);
  }

  /**
   * The store `h'` and tree `t'` are `h` and `t` with one fresh node `n`,
   * keyed `k`, appended to the store and hung into the tree; the keys of the
   * older nodes are as they were.
   */
  ghost predicate Grew(h: seq<Half>, t: Tree, h': seq<Half>, t': Tree, n: int, k: string)
  {
    && n == |h| && |h'| == n + 1 && h'[n].key == k
    && (forall i :: 0 <= i < n ==> h'[i].key == h[i].key)
    && (forall e :: e in Items(t') ==> e in Items(t) || e == Entry(n, k))
    && Ids(t') == Ids(t) + {n} && Keys(t') == Keys(t) + {k}
    && |Items(t')| == |Items(t)| + 1
  }
}
