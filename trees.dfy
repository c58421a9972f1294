/**
 * The shape of one axis of the bimap as a value: a binary tree of node
 * handles and keys, the in-order sequence of its entries, AVL heights and
 * balance, the rotations and the AVL re-balancing step, and zipper contexts
 * ("the path from a subtree up to the sentinel") used to name a position in
 * the tree.  Nothing here reads the heap; the arena module ties these values
 * to the links stored in the nodes.
 */
module Trees {
  import opened KeyOrder

  /** The Java `null` link. */
  const Null: int := -1
  /** Handle of the shared sentinel `rootParent`; real nodes have handles >= 1. */
  const Sentinel: int := 0

  datatype Tree = Leaf | Node(left: Tree, id: nat, key: string, right: Tree)

  /** One element of the in-order sequence: a node handle and its key on this axis. */
  datatype Entry = Entry(id: nat, key: string)

  function Max(a: int, b: int): int
  {
    if a < b then b else a
  }

  /** The handle stored in a link that points at `t`. */
  function Root(t: Tree): int
  {
    if t.Leaf? then Null else t.id
  }

  function Height(t: Tree): nat
  {
    match t
    case Leaf => 0
    case Node(l, _, _, r) => 1 + Max(Height(l), Height(r))
  }

  /** The entries of `t` in in-order (left subtree, node, right subtree). */
  function Items(t: Tree): seq<Entry>
  {
    match t
    case Leaf => []
    case Node(l, x, k, r) => Items(l) + [Entry(x, k)] + Items(r)
  }

  ghost function Ids(t: Tree): set<int>
  {
    match t
    case Leaf => {}
    case Node(l, x, _, r) => Ids(l) + {x} + Ids(r)
  }

  /** AVL balance: at every node the children's heights differ by at most one. */
  ghost predicate Balanced(t: Tree)
  {
    match t
    case Leaf => true
    case Node(l, _, _, r) => Balanced(l) && Balanced(r) && -1 <= Height(l) - Height(r) <= 1
  }

  /** No handle occurs twice in the tree. */
  ghost predicate Unique(t: Tree)
  {
    match t
    case Leaf => true
    case Node(l, x, _, r) =>
      Unique(l) && Unique(r) && x !in Ids(l) && x !in Ids(r) && Ids(l) !! Ids(r)
  }

  /** Strictly increasing keys: the binary-search-tree order of an axis. */
  ghost predicate Ascending(s: seq<Entry>)
  {
    forall i, j :: 0 <= i < j < |s| ==> Less(s[i].key, s[j].key)
  }

  /** The keys stored in `t`. */
  ghost function Keys(t: Tree): set<string>
  {
    set e | e in Items(t) :: e.key
  }

  /** Removing one entry from an ascending sequence leaves it ascending. */
  lemma AscendingDrop(s': seq<Entry>, s: seq<Entry>, i: int)
    requires Ascending(s) && DropsAt(s', s, i)
    ensures Ascending(s')
  {
    AscendingRemove(s, i);
  }

  lemma AscendingRemove(s: seq<Entry>, i: int)
    requires Ascending(s) && 0 <= i < |s|
    ensures Ascending(s[..i] + s[i + 1..])
  {
    var r := s[..i] + s[i + 1..];
    forall a, b | 0 <= a < b < |r|
      ensures Less(r[a].key, r[b].key)
    {
      var a' := if a < i then a else a + 1;
      var b' := if b < i then b else b + 1;
      assert r[a] == s[a'] && r[b] == s[b'];
    }
  }

  /** An entry whose key lies strictly between the two halves of an ascending sequence may go between them. */
  lemma AscendingInsert(s1: seq<Entry>, e: Entry, s2: seq<Entry>)
    requires Ascending(s1 + s2)
    requires forall d :: d in s1 ==> Less(d.key, e.key)
    requires forall d :: d in s2 ==> Less(e.key, d.key)
    ensures Ascending(s1 + [e] + s2)
  {
    var s, r := s1 + s2, s1 + [e] + s2;
    var n := |s1|;
    forall a, b | 0 <= a < b < |r|
      ensures Less(r[a].key, r[b].key)
    {
      if a < n && b > n {
        assert r[a] == s[a] && r[b] == s[b - 1];
      } else if a < n && b == n {
        assert r[a] in s1;
      } else if a == n {
        assert r[b] == s2[b - n - 1];
      } else if b < n {
        assert r[a] == s[a] && r[b] == s[b];
      } else {
        assert r[a] == s[a - 1] && r[b] == s[b - 1];
      }
    }
  }

  lemma {:induction false} IdsItems(t: Tree)
    ensures forall x :: x in Ids(t) <==> exists e :: e in Items(t) && e.id == x
  {
    match t
    case Leaf =>
    case Node(l, x, k, r) =>
      IdsItems(l);
      IdsItems(r);
      assert Items(t) == Items(l) + [Entry(x, k)] + Items(r);
  }

  // ---------------------------------------------------------------------
  // Rotations and the AVL re-balancing step
  // ---------------------------------------------------------------------

  /** The right child becomes the root; the in-order sequence is kept. */
  function RotateLeft(t: Tree): (u: Tree)
    requires t.Node? && t.right.Node?
    ensures Items(u) == Items(t)
    ensures Ids(u) == Ids(t)
  {
    Node(Node(t.left, t.id, t.key, t.right.left), t.right.id, t.right.key, t.right.right)
  }

  /** The left child becomes the root; the in-order sequence is kept. */
  function RotateRight(t: Tree): (u: Tree)
    requires t.Node? && t.left.Node?
    ensures Items(u) == Items(t)
    ensures Ids(u) == Ids(t)
  {
    Node(t.left.left, t.left.id, t.left.key, Node(t.left.right, t.id, t.key, t.right))
  }

  /**
   * One step of the AVL fix-up walk at a node whose two subtrees are balanced
   * and whose heights differ by at most two: a single rotation when the taller
   * grandchild is on the outside, a double rotation when it is on the inside,
   * nothing otherwise.
   */
  function Rebalance(t: Tree): Tree
    requires t.Node? && Balanced(t.left) && Balanced(t.right)
    requires -2 <= Height(t.left) - Height(t.right) <= 2
  {
    var d := Height(t.left) - Height(t.right);
    if d == -2 then
      if Height(t.right.right) == Height(t.right) - 1 then RotateLeft(t)
      else RotateLeft(Node(t.left, t.id, t.key, RotateRight(t.right)))
    else if d == 2 then
      if Height(t.left.left) == Height(t.left) - 1 then RotateRight(t)
      else RotateRight(Node(RotateLeft(t.left), t.id, t.key, t.right))
    else t
  }

  lemma RebalanceCorrect(t: Tree)
    requires t.Node? && Balanced(t.left) && Balanced(t.right)
    requires -2 <= Height(t.left) - Height(t.right) <= 2
    ensures Balanced(Rebalance(t))
    ensures Items(Rebalance(t)) == Items(t)
    ensures Ids(Rebalance(t)) == Ids(t)
    ensures -1 <= Height(t.left) - Height(t.right) <= 1 ==>
              Rebalance(t) == t && Height(t) == 1 + Max(Height(t.left), Height(t.right))
    ensures var m := Max(Height(t.left), Height(t.right));
            m <= Height(Rebalance(t)) <= m + 1
    ensures Rebalance(t).Node?
    ensures Height(t.left) - Height(t.right) == 2 || Height(t.left) - Height(t.right) == -2 ==>
              t.id == Root(Rebalance(t).left) || t.id == Root(Rebalance(t).right)
  {
    var d := Height(t.left) - Height(t.right);
    if d == -2 {
      RebalanceRightHeavy(t);
    } else if d == 2 {
      RebalanceLeftHeavy(t);
    }
  }

  lemma RebalanceRightHeavy(t: Tree)
    requires t.Node? && Balanced(t.left) && Balanced(t.right)
    requires Height(t.left) - Height(t.right) == -2
    ensures Balanced(Rebalance(t))
    ensures Height(t.right) <= Height(Rebalance(t)) <= Height(t.right) + 1
  {
    var r := t.right;
    if Height(r.right) == Height(r) - 1 {
      assert Rebalance(t) == RotateLeft(t);
    } else {
      var rl := r.left;
      assert Height(rl) == Height(r) - 1;
      var u := RotateLeft(Node(t.left, t.id, t.key, RotateRight(r)));
      assert u == Node(Node(t.left, t.id, t.key, rl.left), rl.id, rl.key, Node(rl.right, r.id, r.key, r.right));
      assert Rebalance(t) == u;
    }
  }

  lemma RebalanceLeftHeavy(t: Tree)
    requires t.Node? && Balanced(t.left) && Balanced(t.right)
    requires Height(t.left) - Height(t.right) == 2
    ensures Balanced(Rebalance(t))
    ensures Height(t.left) <= Height(Rebalance(t)) <= Height(t.left) + 1
  {
    var l := t.left;
    if Height(l.left) == Height(l) - 1 {
      assert Rebalance(t) == RotateRight(t);
    } else {
      var lr := l.right;
      assert Height(lr) == Height(l) - 1;
      var u := RotateRight(Node(RotateLeft(l), t.id, t.key, t.right));
      assert u == Node(Node(l.left, l.id, l.key, lr.left), lr.id, lr.key, Node(lr.right, t.id, t.key, t.right));
      assert Rebalance(t) == u;
    }
  }

  /**
   * The heights `hl`, `hr` of the two subtrees of a node that the fix-up walk
   * is about to visit, and the height `h0` that node's subtree had before the
   * update began: whatever the step does, the new height stays within one of `h0`.
   */
  ghost predicate Fixable(hl: int, hr: int, h0: int)
  {
    && -2 <= hl - hr <= 2
    && (-1 <= hl - hr <= 1 ==> -1 <= 1 + Max(hl, hr) - h0 <= 1)
    && (hl - hr == 2 || hl - hr == -2 ==> Max(hl, hr) <= h0 <= Max(hl, hr) + 1)
  }

  /**
   * A node that was balanced with children of heights `hc0` and `ho`, one of
   * whose subtrees changed height by at most one (to `hc`), is fixable.
   */
  lemma Perturbed(hc: int, hc0: int, ho: int)
    requires -1 <= hc - hc0 <= 1 && -1 <= hc0 - ho <= 1
    ensures Fixable(hc, ho, 1 + Max(hc0, ho))
    ensures Fixable(ho, hc, 1 + Max(ho, hc0))
  {
  }

  // ---------------------------------------------------------------------
  // Contexts: the path from a subtree up to the sentinel, innermost first
  // ---------------------------------------------------------------------

  /**
   * One step of a path: the node `id` whose child on the path is its left
   * child when `goLeft` holds, and `sib` its other subtree.
   */
  datatype Frame = Frame(goLeft: bool, id: nat, key: string, sib: Tree)

  function Fill(f: Frame, t: Tree): Tree
  {
    if f.goLeft then Node(t, f.id, f.key, f.sib) else Node(f.sib, f.id, f.key, t)
  }

  /** The whole tree, given the path `ctx` above the subtree `t`. */
  function Plug(ctx: seq<Frame>, t: Tree): Tree
    decreases |ctx|
  {
    if ctx == [] then t else Plug(ctx[1..], Fill(ctx[0], t))
  }

  /** The handle of the parent of the subtree at the bottom of `ctx`. */
  function Par(ctx: seq<Frame>): int
  {
    if ctx == [] then Sentinel else ctx[0].id
  }

  /** The entries that precede, in in-order, the subtree at the bottom of `ctx`. */
  function Before(ctx: seq<Frame>): seq<Entry>
    decreases |ctx|
  {
    if ctx == [] then []
    else Before(ctx[1..]) + (if ctx[0].goLeft then [] else Items(ctx[0].sib) + [Entry(ctx[0].id, ctx[0].key)])
  }

  /** The entries that follow, in in-order, the subtree at the bottom of `ctx`. */
  function After(ctx: seq<Frame>): seq<Entry>
    decreases |ctx|
  {
    if ctx == [] then []
    else (if ctx[0].goLeft then [Entry(ctx[0].id, ctx[0].key)] + Items(ctx[0].sib) else []) + After(ctx[1..])
  }

  ghost function CtxIds(ctx: seq<Frame>): set<int>
    decreases |ctx|
  {
    if ctx == [] then {} else {ctx[0].id} + Ids(ctx[0].sib) + CtxIds(ctx[1..])
  }

  lemma {:induction false} ItemsPlug(ctx: seq<Frame>, t: Tree)
    ensures Items(Plug(ctx, t)) == Before(ctx) + Items(t) + After(ctx)
    decreases |ctx|
  {
    if ctx != [] {
      var f, up := ctx[0], ctx[1..];
      var e := Entry(f.id, f.key);
      assert Plug(ctx, t) == Plug(up, Fill(f, t));
      ItemsPlug(up, Fill(f, t));
      if f.goLeft {
        assert Items(Fill(f, t)) == Items(t) + ([e] + Items(f.sib));
        assert Before(ctx) == Before(up);
        assert After(ctx) == ([e] + Items(f.sib)) + After(up);
        Regroup(Before(up), Items(t), [e] + Items(f.sib), After(up));
      } else {
        assert Items(Fill(f, t)) == (Items(f.sib) + [e]) + Items(t);
        assert Before(ctx) == Before(up) + (Items(f.sib) + [e]);
        assert After(ctx) == After(up);
        Regroup(Before(up), Items(f.sib) + [e], Items(t), After(up));
      }
    }
  }

  lemma Regroup(a: seq<Entry>, b: seq<Entry>, c: seq<Entry>, d: seq<Entry>)
    ensures a + (b + c) + d == a + b + (c + d) == (a + b) + c + d
  {
  }

  lemma {:induction false} IdsPlug(ctx: seq<Frame>, t: Tree)
    ensures Ids(Plug(ctx, t)) == CtxIds(ctx) + Ids(t)
    decreases |ctx|
  {
    if ctx != [] {
      IdsPlug(ctx[1..], Fill(ctx[0], t));
    }
  }

  lemma {:induction false} PlugConcat(c1: seq<Frame>, c2: seq<Frame>, t: Tree)
    ensures Plug(c1 + c2, t) == Plug(c2, Plug(c1, t))
    decreases |c1|
  {
    if c1 != [] {
      calc {
        Plug(c1 + c2, t);
        Plug((c1 + c2)[1..], Fill((c1 + c2)[0], t));
        { assert (c1 + c2)[1..] == c1[1..] + c2 && (c1 + c2)[0] == c1[0]; }
        Plug(c1[1..] + c2, Fill(c1[0], t));
        { PlugConcat(c1[1..], c2, Fill(c1[0], t)); }
        Plug(c2, Plug(c1[1..], Fill(c1[0], t)));
      }
    } else {
      assert c1 + c2 == c2;
    }
  }

  lemma {:induction false} CtxIdsConcat(c1: seq<Frame>, c2: seq<Frame>)
    ensures CtxIds(c1 + c2) == CtxIds(c1) + CtxIds(c2)
    decreases |c1|
  {
    if c1 == [] {
      assert c1 + c2 == c2;
    } else {
      assert (c1 + c2)[0] == c1[0] && (c1 + c2)[1..] == c1[1..] + c2;
      CtxIdsConcat(c1[1..], c2);
    }
  }

  /** `s'` is `s` without its element at position `n`. */
  ghost predicate DropsAt(s': seq<Entry>, s: seq<Entry>, n: int)
  {
    0 <= n < |s| && s' == s[..n] + s[n + 1..]
  }

  /** Replacing a subtree by one with entry `j` dropped drops the matching entry of the whole tree. */
  lemma ItemsReplaced(ctx: seq<Frame>, S: Tree, S': Tree, j: int)
    requires DropsAt(Items(S'), Items(S), j)
    ensures DropsAt(Items(Plug(ctx, S')), Items(Plug(ctx, S)), |Before(ctx)| + j)
  {
    ItemsPlug(ctx, S);
    ItemsPlug(ctx, S');
    DropInside(Items(Plug(ctx, S)), Items(Plug(ctx, S')), Before(ctx), Items(S), Items(S'), After(ctx), j);
  }

  /** Dropping element `j` of the middle part `x` of `b + x + a` drops element `|b| + j` of the whole. */
  lemma DropInside(s: seq<Entry>, s': seq<Entry>, b: seq<Entry>, x: seq<Entry>, x': seq<Entry>, a: seq<Entry>, j: int)
    requires 0 <= j < |x| && s == b + x + a && x' == x[..j] + x[j + 1..] && s' == b + x' + a
    ensures DropsAt(s', s, |b| + j)
  {
    var n := |b| + j;
    assert s[..n] == b + x[..j];
    assert s[n + 1..] == x[j + 1..] + a;
  }

  /**
   * The siblings along a path are balanced, and re-attaching a subtree of
   * height `h0` at its bottom keeps every node on the path balanced.
   */
  ghost predicate CtxBalanced(ctx: seq<Frame>, h0: int)
    decreases |ctx|
  {
    ctx == [] ||
    (&& Balanced(ctx[0].sib)
     && -1 <= h0 - Height(ctx[0].sib) <= 1
     && CtxBalanced(ctx[1..], 1 + Max(h0, Height(ctx[0].sib))))
  }

  lemma {:induction false} BalancedPlug(ctx: seq<Frame>, t: Tree)
    requires Balanced(Plug(ctx, t))
    ensures Balanced(t) && CtxBalanced(ctx, Height(t))
    decreases |ctx|
  {
    if ctx != [] {
      BalancedPlug(ctx[1..], Fill(ctx[0], t));
    }
  }

  /** Two paths with the same turns and the same siblings; only the nodes on them differ. */
  ghost predicate SameSiblings(c1: seq<Frame>, c2: seq<Frame>)
  {
    |c1| == |c2| && forall i :: 0 <= i < |c1| ==> c1[i].sib == c2[i].sib && c1[i].goLeft == c2[i].goLeft
  }

  lemma {:induction false} CtxBalancedSiblings(c1: seq<Frame>, c2: seq<Frame>, h0: int)
    requires SameSiblings(c1, c2) && CtxBalanced(c1, h0)
    ensures CtxBalanced(c2, h0)
    decreases |c1|
  {
    if c1 != [] {
      CtxBalancedSiblings(c1[1..], c2[1..], 1 + Max(h0, Height(c1[0].sib)));
    }
  }

  /** A path that only ever turns left has nothing before its bottom. */
  lemma {:induction false} BeforeAllLeft(ctx: seq<Frame>)
    requires forall i :: 0 <= i < |ctx| ==> ctx[i].goLeft
    ensures Before(ctx) == []
    decreases |ctx|
  {
    if ctx != [] {
      assert ctx[0].goLeft;
      BeforeAllLeft(ctx[1..]);
    }
  }

  /** The path to the entry at in-order position `i` of `t`, below the path `ctx`. */
  function Locate(ctx: seq<Frame>, t: Tree, i: nat): (r: (seq<Frame>, Tree))
    requires i < |Items(t)|
    ensures r.1.Node? && Plug(r.0, r.1) == Plug(ctx, t)
    ensures |Before(r.0)| + |Items(r.1.left)| == |Before(ctx)| + i
    decreases t
  {
    var n := |Items(t.left)|;
    if i < n then Locate([Frame(true, t.id, t.key, t.right)] + ctx, t.left, i)
    else if i == n then (ctx, t)
    else Locate([Frame(false, t.id, t.key, t.left)] + ctx, t.right, i - n - 1)
  }

  /** `bc` is the path from the root of `t` down to its leftmost node `m`. */
  ghost predicate LeftmostPath(t: Tree, bc: seq<Frame>, m: Tree)
  {
    m.Node? && m.left.Leaf? && Plug(bc, m) == t && forall i :: 0 <= i < |bc| ==> bc[i].goLeft
  }

  /** The path from the root of `t` down to its leftmost node, which it returns. */
  function MinPath(t: Tree): (r: (seq<Frame>, Tree))
    requires t.Node?
    ensures r.1.Node? && r.1.left.Leaf? && Plug(r.0, r.1) == t
    ensures forall i :: 0 <= i < |r.0| ==> r.0[i].goLeft
    ensures Items(t)[0] == Entry(r.1.id, r.1.key)
    decreases t
  {
    if t.left.Leaf? then ([], t)
    else
      var (bc, m) := MinPath(t.left);
      PlugConcat(bc, [Frame(true, t.id, t.key, t.right)], m);
      (bc + [Frame(true, t.id, t.key, t.right)], m)
  }
}
