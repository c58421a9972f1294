/**
 * The node store of one axis.  Every Java `Node` carries one `Half` per axis;
 * here the halves of one axis live in a sequence indexed by node handle, so
 * handle `x` names the same Java node on both axes.  Handle 0 is the sentinel
 * `rootParent`, whose right link is the root of the axis.
 *
 * `Linked(h, t, p)` says that the links stored in `h` spell out exactly the
 * tree `t` hanging below the node `p`; `CtxLinked` does the same for a path
 * from a subtree up to the sentinel.  The frame lemmas say which writes to
 * the store leave these facts intact.
 */
module Arena {
  import opened KeyOrder
  import opened Trees

  /** One half of a Java `Node`: its key, child and parent links and stored height on one axis. */
  datatype Half = Half(key: string, left: int, right: int, parent: int, height: int)

  /** A half with its stored height blanked out: what the links of a node are. */
  function Links(a: Half): Half
  {
    a.(height := 0)
  }

  /** A link that is null or names a node of the store. */
  predicate IsLink(h: seq<Half>, c: int)
  {
    c == Null || 0 <= c < |h|
  }

  /** The stored height of a child link, 0 for a null link. */
  function StoredHeight(h: seq<Half>, c: int): int
    requires IsLink(h, c)
  {
    if c == Null then 0 else h[c].height
  }

  /** The links stored in `h` spell out the tree `t`, whose root's parent is `p`. */
  ghost predicate Linked(h: seq<Half>, t: Tree, p: int)
  {
    match t
    case Leaf => true
    case Node(l, x, k, r) =>
      && 0 < x < |h|
      && h[x].key == k && h[x].left == Root(l) && h[x].right == Root(r) && h[x].parent == p
      && Linked(h, l, x) && Linked(h, r, x)
  }

  /** Every node of `t` stores the height of its own subtree. */
  ghost predicate Heights(h: seq<Half>, t: Tree)
  {
    match t
    case Leaf => true
    case Node(l, x, _, r) => 0 <= x < |h| && h[x].height == Height(t) && Heights(h, l) && Heights(h, r)
  }

  /** Stored heights are right and the tree is AVL-balanced. */
  ghost predicate Good(h: seq<Half>, t: Tree)
  {
    Heights(h, t) && Balanced(t)
  }

  /** The sentinel has no parent, no left child, and `hole` as its right child (the root). */
  ghost predicate SentinelOk(h: seq<Half>, hole: int)
  {
    |h| > 0 && h[Sentinel].left == Null && h[Sentinel].right == hole && h[Sentinel].parent == Null
  }

  /** The path `ctx` is stored in `h`, with `hole` in the child slot at its bottom. */
  ghost predicate CtxLinked(h: seq<Half>, ctx: seq<Frame>, hole: int)
    decreases |ctx|
  {
    if ctx == [] then SentinelOk(h, hole)
    else
      var f := ctx[0];
      && 0 < f.id < |h|
      && h[f.id].key == f.key
      && (if f.goLeft then h[f.id].left == hole && h[f.id].right == Root(f.sib)
          else h[f.id].left == Root(f.sib) && h[f.id].right == hole)
      && h[f.id].parent == Par(ctx[1..])
      && Linked(h, f.sib, f.id)
      && CtxLinked(h, ctx[1..], f.id)
  }

  /** The whole axis `Plug(ctx, t)` is stored in `h`, seen from the position of `t`. */
  ghost predicate Plugged(h: seq<Half>, ctx: seq<Frame>, t: Tree)
  {
    CtxLinked(h, ctx, Root(t)) && Linked(h, t, Par(ctx))
  }

  /** The stored heights of every sibling along a path are right. */
  ghost predicate CtxHeights(h: seq<Half>, ctx: seq<Frame>)
  {
    forall i :: 0 <= i < |ctx| ==> Heights(h, ctx[i].sib)
  }

  /** No handle occurs twice along the path and its siblings. */
  ghost predicate CtxUnique(ctx: seq<Frame>)
    decreases |ctx|
  {
    ctx == [] ||
    (&& Unique(ctx[0].sib)
     && ctx[0].id !in Ids(ctx[0].sib)
     && ctx[0].id !in CtxIds(ctx[1..])
     && Ids(ctx[0].sib) !! CtxIds(ctx[1..])
     && CtxUnique(ctx[1..]))
  }

  /** The subtree and the path around it share no handle, and neither repeats one. */
  ghost predicate Apart(ctx: seq<Frame>, t: Tree)
  {
    Unique(t) && CtxUnique(ctx) && Ids(t) !! CtxIds(ctx)
  }

  /** The nodes named in `s` have the same links in `h` and `h'`. */
  ghost predicate SameLinksOn(h: seq<Half>, h': seq<Half>, s: set<int>)
  {
    forall x :: x in s ==> 0 <= x < |h| && 0 <= x < |h'| && Links(h'[x]) == Links(h[x])
  }

  /** The nodes named in `s` have the same stored heights in `h` and `h'`. */
  ghost predicate SameHeightsOn(h: seq<Half>, h': seq<Half>, s: set<int>)
  {
    forall x :: x in s ==> 0 <= x < |h| && 0 <= x < |h'| && h'[x].height == h[x].height
  }

  /** The parent's half with the child slot on the path's side redirected to `c`. */
  function Hang(a: Half, ctx: seq<Frame>, c: int): Half
  {
    if ctx != [] && ctx[0].goLeft then a.(left := c) else a.(right := c)
  }

  /** Two stores of the same size whose nodes hold the same keys. */
  ghost predicate SameKeys(h: seq<Half>, h': seq<Half>)
  {
    |h'| == |h| && forall i :: 0 <= i < |h| ==> h'[i].key == h[i].key
  }

  /** Two stores of the same size whose nodes hold the same keys and the same stored heights. */
  ghost predicate SameKeysHeights(h: seq<Half>, h': seq<Half>)
  {
    |h'| == |h| && forall i :: 0 <= i < |h| ==> h'[i].key == h[i].key && h'[i].height == h[i].height
  }

  lemma SameKeysHeightsTrans(h: seq<Half>, h1: seq<Half>, h2: seq<Half>)
    requires SameKeysHeights(h, h1) && SameKeysHeights(h1, h2)
    ensures SameKeysHeights(h, h2)
  {
  }

  // ---------------------------------------------------------------------
  // Moving along a path
  // ---------------------------------------------------------------------

  lemma PlugUp(h: seq<Half>, f: Frame, c: seq<Frame>, t: Tree)
    ensures Plugged(h, [f] + c, t) <==> Plugged(h, c, Fill(f, t))
  {
    assert ([f] + c)[0] == f && ([f] + c)[1..] == c;
  }

  /** Step from a subtree down to its left child. */
  lemma DownLeft(h: seq<Half>, ctx: seq<Frame>, t: Tree)
    requires t.Node?
    ensures Plug([Frame(true, t.id, t.key, t.right)] + ctx, t.left) == Plug(ctx, t)
    ensures Plugged(h, ctx, t) ==> Plugged(h, [Frame(true, t.id, t.key, t.right)] + ctx, t.left)
    ensures Apart(ctx, t) ==> Apart([Frame(true, t.id, t.key, t.right)] + ctx, t.left)
  {
    var c := [Frame(true, t.id, t.key, t.right)] + ctx;
    assert c[0] == Frame(true, t.id, t.key, t.right) && c[1..] == ctx;
    PlugUp(h, c[0], ctx, t.left);
  }

  /** Step from a subtree down to its right child. */
  lemma DownRight(h: seq<Half>, ctx: seq<Frame>, t: Tree)
    requires t.Node?
    ensures Plug([Frame(false, t.id, t.key, t.left)] + ctx, t.right) == Plug(ctx, t)
    ensures Plugged(h, ctx, t) ==> Plugged(h, [Frame(false, t.id, t.key, t.left)] + ctx, t.right)
    ensures Apart(ctx, t) ==> Apart([Frame(false, t.id, t.key, t.left)] + ctx, t.right)
  {
    var c := [Frame(false, t.id, t.key, t.left)] + ctx;
    assert c[0] == Frame(false, t.id, t.key, t.left) && c[1..] == ctx;
    PlugUp(h, c[0], ctx, t.right);
  }

  lemma {:induction false} PlugDown(h: seq<Half>, c1: seq<Frame>, c2: seq<Frame>, t: Tree)
    ensures Plugged(h, c1 + c2, t) <==> Plugged(h, c2, Plug(c1, t))
    decreases |c1|
  {
    if c1 == [] {
      assert c1 + c2 == c2;
    } else {
      assert c1 + c2 == [c1[0]] + (c1[1..] + c2);
      PlugUp(h, c1[0], c1[1..] + c2, t);
      PlugDown(h, c1[1..], c2, Fill(c1[0], t));
    }
  }

  // ---------------------------------------------------------------------
  // Handles, keys and uniqueness
  // ---------------------------------------------------------------------

  lemma {:induction false} LinkedIds(h: seq<Half>, t: Tree, p: int)
    requires Linked(h, t, p)
    ensures forall x :: x in Ids(t) ==> 0 < x < |h|
  {
    if t.Node? {
      LinkedIds(h, t.left, t.id);
      LinkedIds(h, t.right, t.id);
    }
  }

  lemma {:induction false} CtxLinkedIds(h: seq<Half>, ctx: seq<Frame>, hole: int)
    requires CtxLinked(h, ctx, hole)
    ensures |h| > 0
    ensures forall x :: x in CtxIds(ctx) ==> 0 < x < |h|
    decreases |ctx|
  {
    if ctx != [] {
      LinkedIds(h, ctx[0].sib, ctx[0].id);
      CtxLinkedIds(h, ctx[1..], ctx[0].id);
    }
  }

  /** Every entry of a stored tree names a real node holding that entry's key. */
  lemma {:induction false} LinkedKeys(h: seq<Half>, t: Tree, p: int)
    requires Linked(h, t, p)
    ensures forall e :: e in Items(t) ==> 0 < e.id < |h| && h[e.id].key == e.key
  {
    if t.Node? {
      LinkedKeys(h, t.left, t.id);
      LinkedKeys(h, t.right, t.id);
    }
  }

  /** The keys of a node's left subtree precede its own key, which precedes those of its right subtree. */
  lemma AscendingNode(t: Tree)
    requires t.Node? && Ascending(Items(t))
    ensures Ascending(Items(t.left)) && Ascending(Items(t.right))
    ensures forall e :: e in Items(t.left) ==> Less(e.key, t.key)
    ensures forall e :: e in Items(t.right) ==> Less(t.key, e.key)
  {
    var x := Entry(t.id, t.key);
    assert Items(t) == Items(t.left) + ([x] + Items(t.right));
    AscendingSplit(Items(t.left), [x] + Items(t.right));
    assert x in [x] + Items(t.right);
    AscendingSplit([x], Items(t.right));
  }

  /** Both halves of an ascending sequence are ascending, and every key of the first precedes every key of the second. */
  lemma AscendingSplit(a: seq<Entry>, b: seq<Entry>)
    requires Ascending(a + b)
    ensures Ascending(a) && Ascending(b)
    ensures forall e, f :: e in a && f in b ==> Less(e.key, f.key)
  {
    var s := a + b;
    forall i, j | 0 <= i < j < |a|
      ensures Less(a[i].key, a[j].key)
    {
      assert s[i] == a[i] && s[j] == a[j];
    }
    forall i, j | 0 <= i < j < |b|
      ensures Less(b[i].key, b[j].key)
    {
      assert s[|a| + i] == b[i] && s[|a| + j] == b[j];
    }
    forall e, f | e in a && f in b
      ensures Less(e.key, f.key)
    {
      var i :| 0 <= i < |a| && a[i] == e;
      var j :| 0 <= j < |b| && b[j] == f;
      assert s[i] == e && s[|a| + j] == f;
    }
  }

  /** Where a key of an ascending tree can be, seen from its root. */
  lemma KeysNode(t: Tree, k: string)
    requires t.Node? && Ascending(Items(t))
    ensures Keys(t.left) <= Keys(t) && Keys(t.right) <= Keys(t) && t.key in Keys(t)
    ensures k in Keys(t) && Less(k, t.key) ==> k in Keys(t.left)
    ensures k in Keys(t) && Less(t.key, k) ==> k in Keys(t.right)
  {
    AscendingNode(t);
    assert Items(t) == Items(t.left) + [Entry(t.id, t.key)] + Items(t.right);
    assert Entry(t.id, t.key) in Items(t);
    if k in Keys(t) {
      var e :| e in Items(t) && e.key == k;
      if Less(k, t.key) && e !in Items(t.left) {
        if e in Items(t.right) {
          LessAsymmetric(k, t.key);
        } else {
          LessIrreflexive(k);
        }
      }
      if Less(t.key, k) && e !in Items(t.right) {
        if e in Items(t.left) {
          LessAsymmetric(k, t.key);
        } else {
          LessIrreflexive(k);
        }
      }
    }
  }

  /** A stored tree with strictly ascending keys repeats no handle: one node holds one key. */
  lemma {:induction false} LinkedUnique(h: seq<Half>, t: Tree, p: int)
    requires Linked(h, t, p) && Ascending(Items(t))
    ensures Unique(t)
  {
    if t.Node? {
      AscendingNode(t);
      LinkedUnique(h, t.left, t.id);
      LinkedUnique(h, t.right, t.id);
      LinkedKeys(h, t.left, t.id);
      LinkedKeys(h, t.right, t.id);
      IdsItems(t.left);
      IdsItems(t.right);
      LessIrreflexive(t.key);
      if t.id in Ids(t.left) || t.id in Ids(t.right) {
        assert false;
      }
      forall y | y in Ids(t.left)
        ensures y !in Ids(t.right)
      {
        if y in Ids(t.right) {
          var e1 :| e1 in Items(t.left) && e1.id == y;
          var e2 :| e2 in Items(t.right) && e2.id == y;
          LessTransitive(e1.key, t.key, e2.key);
          LessIrreflexive(e1.key);
          assert false;
        }
      }
    }
  }

  lemma {:induction false} ApartPlug(ctx: seq<Frame>, t: Tree)
    requires Unique(Plug(ctx, t))
    ensures Apart(ctx, t)
    decreases |ctx|
  {
    if ctx != [] {
      ApartPlug(ctx[1..], Fill(ctx[0], t));
    }
  }

  /** Everything the uniqueness of a whole axis says about one position in it. */
  lemma PluggedApart(h: seq<Half>, ctx: seq<Frame>, t: Tree)
    requires Plugged(h, ctx, t) && Ascending(Items(Plug(ctx, t)))
    ensures Apart(ctx, t) && Unique(Plug(ctx, t))
    ensures forall x :: x in Ids(t) ==> 0 < x < |h|
    ensures forall x :: x in CtxIds(ctx) ==> 0 < x < |h|
    ensures |h| > 0
  {
    PlugDown(h, ctx, [], t);
    assert ctx + [] == ctx;
    LinkedUnique(h, Plug(ctx, t), Sentinel);
    ApartPlug(ctx, t);
    LinkedIds(h, t, Par(ctx));
    CtxLinkedIds(h, ctx, Root(t));
  }

  lemma {:induction false} UniqueRotateLeft(t: Tree)
    requires t.Node? && t.right.Node? && Unique(t)
    ensures Unique(RotateLeft(t))
  {
  }

  lemma {:induction false} UniqueRotateRight(t: Tree)
    requires t.Node? && t.left.Node? && Unique(t)
    ensures Unique(RotateRight(t))
  {
  }

  // ---------------------------------------------------------------------
  // Frame lemmas: what a write to the store leaves intact
  // ---------------------------------------------------------------------

  /** A stored tree survives any change that keeps the links of its own nodes. */
  lemma {:induction false} LinkedFrame(h: seq<Half>, h': seq<Half>, t: Tree, p: int)
    requires Linked(h, t, p) && SameLinksOn(h, h', Ids(t))
    ensures Linked(h', t, p)
  {
    if t.Node? {
      LinkedFrame(h, h', t.left, t.id);
      LinkedFrame(h, h', t.right, t.id);
    }
  }

  /** A stored tree moved under a new parent `p'`: only its root's parent link changed. */
  lemma LinkedRehung(h: seq<Half>, h': seq<Half>, t: Tree, p: int, p': int)
    requires Linked(h, t, p) && Unique(t)
    requires SameLinksOn(h, h', Ids(t) - {Root(t)})
    requires t.Node? ==> t.id < |h| && t.id < |h'| && Links(h'[t.id]) == Links(h[t.id]).(parent := p')
    ensures Linked(h', t, p')
  {
    if t.Node? {
      assert Ids(t.left) <= Ids(t) - {t.id} && Ids(t.right) <= Ids(t) - {t.id};
      LinkedFrame(h, h', t.left, t.id);
      LinkedFrame(h, h', t.right, t.id);
      assert h'[t.id].key == h[t.id].key && h'[t.id].left == h[t.id].left && h'[t.id].right == h[t.id].right;
    }
  }

  lemma {:induction false} HeightsFrame(h: seq<Half>, h': seq<Half>, t: Tree)
    requires Heights(h, t) && SameHeightsOn(h, h', Ids(t))
    ensures Heights(h', t)
  {
    if t.Node? {
      HeightsFrame(h, h', t.left);
      HeightsFrame(h, h', t.right);
    }
  }

  /** Stored heights survive any change of links. */
  lemma {:induction false} KeptHeights(h: seq<Half>, h': seq<Half>, t: Tree)
    requires SameKeysHeights(h, h') && Heights(h, t)
    ensures Heights(h', t)
  {
    if t.Node? {
      KeptHeights(h, h', t.left);
      KeptHeights(h, h', t.right);
    }
  }

  lemma {:induction false} CtxIdsSiblings(ctx: seq<Frame>)
    ensures forall i :: 0 <= i < |ctx| ==> Ids(ctx[i].sib) <= CtxIds(ctx) && ctx[i].id in CtxIds(ctx)
    decreases |ctx|
  {
    if ctx != [] {
      CtxIdsSiblings(ctx[1..]);
      forall i | 0 < i < |ctx|
        ensures Ids(ctx[i].sib) <= CtxIds(ctx) && ctx[i].id in CtxIds(ctx)
      {
        assert ctx[i] == ctx[1..][i - 1];
      }
    }
  }

  lemma CtxHeightsFrame(h: seq<Half>, h': seq<Half>, ctx: seq<Frame>)
    requires CtxHeights(h, ctx) && SameHeightsOn(h, h', CtxIds(ctx))
    ensures CtxHeights(h', ctx)
  {
    CtxIdsSiblings(ctx);
    forall i | 0 <= i < |ctx|
      ensures Heights(h', ctx[i].sib)
    {
      HeightsFrame(h, h', ctx[i].sib);
    }
  }

  lemma {:induction false} HeightsPlug(h: seq<Half>, ctx: seq<Frame>, t: Tree)
    requires Heights(h, Plug(ctx, t))
    ensures Heights(h, t) && CtxHeights(h, ctx)
    decreases |ctx|
  {
    if ctx != [] {
      HeightsPlug(h, ctx[1..], Fill(ctx[0], t));
      forall i | 0 < i < |ctx|
        ensures Heights(h, ctx[i].sib)
      {
        assert ctx[i] == ctx[1..][i - 1];
      }
    }
  }

  /** A stored path survives any change that keeps the links of its nodes and of the sentinel. */
  lemma {:induction false} CtxFrame(h: seq<Half>, h': seq<Half>, ctx: seq<Frame>, hole: int)
    requires CtxLinked(h, ctx, hole)
    requires SameLinksOn(h, h', CtxIds(ctx) + {Sentinel})
    ensures CtxLinked(h', ctx, hole)
    decreases |ctx|
  {
    if ctx != [] {
      LinkedFrame(h, h', ctx[0].sib, ctx[0].id);
      CtxFrame(h, h', ctx[1..], ctx[0].id);
    }
  }

  /**
   * A stored path whose bottom slot is redirected to `c`: the parent's slot on
   * the path's side changed, every other node of the path and the sentinel
   * kept their links.
   */
  ghost predicate Rewired(h: seq<Half>, h': seq<Half>, ctx: seq<Frame>, c: int)
  {
    && |h'| == |h| && 0 <= Par(ctx) < |h|
    && Links(h'[Par(ctx)]) == Links(Hang(h[Par(ctx)], ctx, c))
    && SameLinksOn(h, h', CtxIds(ctx) + {Sentinel} - {Par(ctx)})
  }

  lemma CtxRewired(h: seq<Half>, h': seq<Half>, ctx: seq<Frame>, hole: int, c: int)
    requires CtxLinked(h, ctx, hole) && CtxUnique(ctx) && Rewired(h, h', ctx, c)
    ensures CtxLinked(h', ctx, c)
  {
    if ctx != [] {
      var f := ctx[0];
      CtxLinkedIds(h, ctx, hole);
      LinkedFrame(h, h', f.sib, f.id);
      CtxFrame(h, h', ctx[1..], f.id);
    }
  }

  /**
   * The workhorse of every structural update: a new subtree `t'` stored below
   * the parent of an old subtree, with the parent's slot redirected to it and
   * the rest of the path untouched, is again a stored position of the axis.
   */
  lemma Reattach(h: seq<Half>, h': seq<Half>, ctx: seq<Frame>, t: Tree, t': Tree)
    requires Plugged(h, ctx, t) && CtxUnique(ctx)
    requires Rewired(h, h', ctx, Root(t'))
    requires Linked(h', t', Par(ctx))
    ensures Plugged(h', ctx, t')
  {
    CtxRewired(h, h', ctx, Root(t), Root(t'));
  }
}
