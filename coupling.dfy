/**
 * How the two stored axes of the tree bimap mean a `Bimap`: both axes hold
 * the same nodes, and a node pairs the key of its left half with the key of
 * its right half.  The lemmas say what removing a node from both axes and
 * attaching a fresh node to both axes do to that meaning, and they state the
 * recursive structural check of the Java class (`Node.checkInvariant`) as a
 * function that holds of every valid pair of axes.
 */
module Coupling {
  import opened KeyOrder
  import opened Trees
  import opened Arena
  import opened AxisProofs
  import opened BimapModel

  /** The left axis `lt` in store `lh` and the right axis `rt` in store `rh` hold the pairs of `m`. */
  ghost predicate Coupled(lh: seq<Half>, lt: Tree, rh: seq<Half>, rt: Tree, m: Bimap)
  {
    && |lh| == |rh|
    && Ids(lt) == Ids(rt)
    && m.left.Keys == Keys(lt) && m.right.Keys == Keys(rt)
    && Inverse(m)
    && (forall e :: e in Items(lt) ==> 0 <= e.id < |rh| && e.key in m.left && m.left[e.key] == rh[e.id].key)
  }

  // ---------------------------------------------------------------------
  // Entries of one axis
  // ---------------------------------------------------------------------

  /** In a valid axis no other entry shares the key or the handle of entry `x`. */
  lemma OnlyEntry(h: seq<Half>, t: Tree, x: Entry)
    requires AxisOk(h, t) && x in Items(t)
    ensures forall e :: e in Items(t) && (e.key == x.key || e.id == x.id) ==> e == x
  {
    LinkedKeys(h, t, Sentinel);
    var s := Items(t);
    var i :| 0 <= i < |s| && s[i] == x;
    forall e | e in s && (e.key == x.key || e.id == x.id)
      ensures e == x
    {
      var j :| 0 <= j < |s| && s[j] == e;
      if i != j {
        LessIrreflexive(e.key);
      }
    }
  }

  /** Entry sets that differ by one entry that shares nothing with the others differ by its handle and its key. */
  lemma DroppedSets(s: seq<Entry>, s': seq<Entry>, x: Entry)
    requires forall e :: e in s' <==> e in s && e != x
    requires x in s && forall e :: e in s && (e.key == x.key || e.id == x.id) ==> e == x
    ensures (set e | e in s' :: e.id) == (set e | e in s :: e.id) - {x.id}
    ensures (set e | e in s' :: e.key) == (set e | e in s :: e.key) - {x.key}
  {
    DroppedIds(s, s', x);
    DroppedKeys(s, s', x);
  }

  lemma DroppedIds(s: seq<Entry>, s': seq<Entry>, x: Entry)
    requires forall e :: e in s' <==> e in s && e != x
    requires x in s && forall e :: e in s && e.id == x.id ==> e == x
    ensures (set e | e in s' :: e.id) == (set e | e in s :: e.id) - {x.id}
  {
    var A, B := set e | e in s :: e.id, set e | e in s' :: e.id;
    forall y | y in B
      ensures y in A && y != x.id
    {
      var e :| e in s' && e.id == y;
    }
    forall y | y in A && y != x.id
      ensures y in B
    {
      var e :| e in s && e.id == y;
      assert e in s';
    }
  }

  lemma DroppedKeys(s: seq<Entry>, s': seq<Entry>, x: Entry)
    requires forall e :: e in s' <==> e in s && e != x
    requires x in s && forall e :: e in s && e.key == x.key ==> e == x
    ensures (set e | e in s' :: e.key) == (set e | e in s :: e.key) - {x.key}
  {
    var A, B := set e | e in s :: e.key, set e | e in s' :: e.key;
    forall k | k in B
      ensures k in A && k != x.key
    {
      var e :| e in s' && e.key == k;
    }
    forall k | k in A && k != x.key
      ensures k in B
    {
      var e :| e in s && e.key == k;
      assert e in s';
    }
  }

  /** The in-order position of a handle of the tree. */
  lemma IndexOf(t: Tree, x: int) returns (i: int)
    requires x in Ids(t)
    ensures 0 <= i < |Items(t)| && Items(t)[i].id == x
  {
    IdsItems(t);
    var e :| e in Items(t) && e.id == x;
    i :| 0 <= i < |Items(t)| && Items(t)[i] == e;
  }

  /** Dropping the entry at position `i` of an ascending sequence drops exactly that entry. */
  lemma DropMembers(s: seq<Entry>, i: int)
    requires 0 <= i < |s| && Ascending(s)
    ensures forall e :: e in s[..i] + s[i + 1..] <==> e in s && e != s[i]
  {
    var s' := s[..i] + s[i + 1..];
    forall e | e in s'
      ensures e in s && e != s[i]
    {
      var p :| 0 <= p < |s'| && s'[p] == e;
      if p < i {
        assert s'[p] == s[p];
        LessIrreflexive(s[i].key);
      } else {
        assert s'[p] == s[p + 1];
        LessIrreflexive(s[i].key);
      }
    }
    forall e | e in s && e != s[i]
      ensures e in s'
    {
      var p :| 0 <= p < |s| && s[p] == e;
      if p < i {
        assert s'[p] == e;
      } else {
        assert s'[p - 1] == e;
      }
    }
  }

  // ---------------------------------------------------------------------
  // Looking a key up
  // ---------------------------------------------------------------------

  /** A node found by its left key holds the partner of that key in its right half. */
  lemma LeftLookup(lh: seq<Half>, lt: Tree, rh: seq<Half>, rt: Tree, m: Bimap, x: nat, a: string)
    requires AxisOk(lh, lt) && Coupled(lh, lt, rh, rt, m) && Entry(x, a) in Items(lt)
    ensures 0 < x < |lh| && x < |rh| && x in Ids(lt) && x in Ids(rt)
    ensures LeftHas(m, a, rh[x].key) && RightHas(m, rh[x].key, a)
  {
    LinkedKeys(lh, lt, Sentinel);
    IdsItems(lt);
  }

  /** A node found by its right key holds the partner of that key in its left half. */
  lemma RightLookup(lh: seq<Half>, lt: Tree, rh: seq<Half>, rt: Tree, m: Bimap, x: nat, b: string)
    requires AxisOk(lh, lt) && AxisOk(rh, rt) && Coupled(lh, lt, rh, rt, m) && Entry(x, b) in Items(rt)
    ensures 0 < x < |lh| && x < |rh| && x in Ids(lt) && x in Ids(rt)
    ensures Entry(x, lh[x].key) in Items(lt)
    ensures RightHas(m, b, lh[x].key) && LeftHas(m, lh[x].key, b)
  {
    LinkedKeys(lh, lt, Sentinel);
    LinkedKeys(rh, rt, Sentinel);
    IdsItems(lt);
    IdsItems(rt);
    assert x in Ids(lt);
    var e :| e in Items(lt) && e.id == x;
    assert m.left[e.key] == b;
  }

  /** A key absent from an axis is absent from that direction of the bimap. */
  lemma Absent(lh: seq<Half>, lt: Tree, rh: seq<Half>, rt: Tree, m: Bimap, a: string, b: string)
    requires Coupled(lh, lt, rh, rt, m)
    ensures a !in Keys(lt) ==> a !in m.left
    ensures b !in Keys(rt) ==> b !in m.right
  {
  }

  // ---------------------------------------------------------------------
  // Removing one node from both axes
  // ---------------------------------------------------------------------

  lemma DropIds(h: seq<Half>, t: Tree, t': Tree, i: int, x: Entry)
    requires AxisOk(h, t) && 0 <= i < |Items(t)| && x == Items(t)[i]
    requires Items(t') == Items(t)[..i] + Items(t)[i + 1..]
    ensures Ids(t') == Ids(t) - {x.id}
    ensures Keys(t') == Keys(t) - {x.key}
    ensures forall e :: e in Items(t') <==> e in Items(t) && e != x
  {
    DropMembers(Items(t), i);
    OnlyEntry(h, t, x);
    IdsAsSet(t);
    IdsAsSet(t');
    DroppedSets(Items(t), Items(t'), x);
  }

  /**
   * Taking the node at left position `i` and right position `j` out of both
   * axes removes its pair from the bimap, whichever of its two keys names it.
   */
  lemma CoupledRemove(lh: seq<Half>, lt: Tree, rh: seq<Half>, rt: Tree, m: Bimap,
                      lh': seq<Half>, lt': Tree, rh': seq<Half>, rt': Tree, i: int, j: int, el: Entry, er: Entry)
    requires AxisOk(lh, lt) && AxisOk(rh, rt) && Coupled(lh, lt, rh, rt, m)
    requires 0 <= i < |Items(lt)| && 0 <= j < |Items(rt)| && el == Items(lt)[i] && er == Items(rt)[j] && el.id == er.id
    requires SameKeys(lh, lh') && SameKeys(rh, rh')
    requires Items(lt') == Items(lt)[..i] + Items(lt)[i + 1..]
    requires Items(rt') == Items(rt)[..j] + Items(rt)[j + 1..]
    ensures LeftHas(m, el.key, er.key)
    ensures Coupled(lh', lt', rh', rt', LeftRemove(m, el.key))
    ensures RightRemove(m, er.key) == LeftRemove(m, el.key)
  {
    RemoveFacts(lh, lt, rh, rt, lt', rt', i, j, el, er);
    CoupledDrop(lh, lt, rh, rt, m, lh', lt', rh', rt', el, er);
  }

  /** What taking position `i` of the left axis and position `j` of the right axis out leaves. */
  lemma RemoveFacts(lh: seq<Half>, lt: Tree, rh: seq<Half>, rt: Tree, lt': Tree, rt': Tree, i: int, j: int, el: Entry, er: Entry)
    requires AxisOk(lh, lt) && AxisOk(rh, rt)
    requires 0 <= i < |Items(lt)| && 0 <= j < |Items(rt)| && el == Items(lt)[i] && er == Items(rt)[j]
    requires Items(lt') == Items(lt)[..i] + Items(lt)[i + 1..]
    requires Items(rt') == Items(rt)[..j] + Items(rt)[j + 1..]
    ensures el in Items(lt) && 0 <= er.id < |rh| && rh[er.id].key == er.key
    ensures Dropped(lt, lt', el) && Dropped(rt, rt', er)
  {
    assert el in Items(lt) && er in Items(rt);
    LinkedKeys(rh, rt, Sentinel);
    DropIds(lh, lt, lt', i, el);
    DropIds(rh, rt, rt', j, er);
    OnlyEntry(lh, lt, el);
  }

  /** The axis `t'` is `t` without the entry `x`, which shared its handle and key with no other entry. */
  ghost predicate Dropped(t: Tree, t': Tree, x: Entry)
  {
    && Ids(t') == Ids(t) - {x.id} && Keys(t') == Keys(t) - {x.key}
    && (forall e :: e in Items(t') ==> e in Items(t) && e.key != x.key)
  }

  /** `CoupledRemove` once the entries `el` and `er` of the removed node are known to be gone. */
  lemma CoupledDrop(lh: seq<Half>, lt: Tree, rh: seq<Half>, rt: Tree, m: Bimap,
                    lh': seq<Half>, lt': Tree, rh': seq<Half>, rt': Tree, el: Entry, er: Entry)
    requires Coupled(lh, lt, rh, rt, m)
    requires el in Items(lt) && el.id == er.id && 0 <= er.id < |rh| && rh[er.id].key == er.key
    requires SameKeys(lh, lh') && SameKeys(rh, rh')
    requires Dropped(lt, lt', el) && Dropped(rt, rt', er)
    ensures LeftHas(m, el.key, er.key)
    ensures Coupled(lh', lt', rh', rt', LeftRemove(m, el.key))
    ensures RightRemove(m, er.key) == LeftRemove(m, el.key)
  {
    var a := el.key;
    var m' := LeftRemove(m, a);
    LeftRemoveCorrect(m, a);
    forall e | e in Items(lt')
      ensures 0 <= e.id < |rh'| && e.key in m'.left && m'.left[e.key] == rh'[e.id].key
    {
      assert e in Items(lt);
    }
  }

  // ---------------------------------------------------------------------
  // Attaching one fresh node to both axes
  // ---------------------------------------------------------------------

  /**
   * A node with the fresh handle `n` holding the unused keys `a` and `b`,
   * added to both axes, adds the pair `a`, `b` to the bimap.
   */
  lemma CoupledGrown(lh: seq<Half>, lt: Tree, rh: seq<Half>, rt: Tree, m: Bimap,
                     lh': seq<Half>, lt': Tree, rh': seq<Half>, rt': Tree, a: string, b: string, n: nat, m': Bimap)
    requires Coupled(lh, lt, rh, rt, m)
    requires a !in m.left && b !in m.right && m' == Bimap(m.left[a := b], m.right[b := a])
    requires Grew(lh, lt, lh', lt', n, a) && Grew(rh, rt, rh', rt', n, b)
    ensures Coupled(lh', lt', rh', rt', m')
  {
    InverseFresh(m, a, b);
    GrownEntries(lt, rh, m.left, lt', rh', a, b, n);
    FreshSets(lt, rt, m, lt', rt', a, b, n, m');
  }

  lemma FreshSets(lt: Tree, rt: Tree, m: Bimap, lt': Tree, rt': Tree, a: string, b: string, n: nat, m': Bimap)
    requires Ids(lt) == Ids(rt) && m.left.Keys == Keys(lt) && m.right.Keys == Keys(rt)
    requires m' == Bimap(m.left[a := b], m.right[b := a])
    requires Ids(lt') == Ids(lt) + {n} && Keys(lt') == Keys(lt) + {a}
    requires Ids(rt') == Ids(rt) + {n} && Keys(rt') == Keys(rt) + {b}
    ensures Ids(lt') == Ids(rt') && m'.left.Keys == Keys(lt') && m'.right.Keys == Keys(rt')
  {
    assert m'.left.Keys == m.left.Keys + {a};
    assert m'.right.Keys == m.right.Keys + {b};
  }

  /** Adding a pair whose keys are both absent keeps the two directions inverse. */
  lemma InverseFresh(m: Bimap, a: string, b: string)
    requires Inverse(m) && a !in m.left && b !in m.right
    ensures Inverse(Bimap(m.left[a := b], m.right[b := a]))
  {
  }

  /** Putting a pair whose keys are both absent evicts nothing. */
  lemma PutFresh(m: Bimap, a: string, b: string)
    requires a !in m.left && b !in m.right
    ensures Put(m, a, b) == Bimap(m.left[a := b], m.right[b := a])
  {
  }

  /** The entries of a grown left axis still name, through their ids, their partners on the right. */
  lemma GrownEntries(lt: Tree, rh: seq<Half>, d: map<string, string>,
                     lt': Tree, rh': seq<Half>, a: string, b: string, n: nat)
    requires forall e :: e in Items(lt) ==> 0 <= e.id < |rh| && e.key in d && d[e.key] == rh[e.id].key
    requires a !in d && n == |rh| && |rh'| == n + 1 && rh'[n].key == b
    requires forall k :: 0 <= k < n ==> rh'[k].key == rh[k].key
    requires forall e :: e in Items(lt') ==> e in Items(lt) || e == Entry(n, a)
    ensures forall e :: e in Items(lt') ==> 0 <= e.id < |rh'| && e.key in d[a := b] && d[a := b][e.key] == rh'[e.id].key
  {
    forall e | e in Items(lt')
      ensures 0 <= e.id < |rh'| && e.key in d[a := b] && d[a := b][e.key] == rh'[e.id].key
    {
      if e != Entry(n, a) {
        assert e in Items(lt);
      }
    }
  }

  // ---------------------------------------------------------------------
  // The entry views
  // ---------------------------------------------------------------------

  /** The pairs of one direction `d` listed in the in-order of the entries `s`. */
  ghost function Pairs(s: seq<Entry>, d: map<string, string>): (r: seq<(string, string)>)
    requires forall e :: e in s ==> e.key in d
    ensures |r| == |s|
  {
    seq(|s|, k requires 0 <= k < |s| => (s[k].key, d[s[k].key]))
  }

  /**
   * Walking a valid axis in order lists every pair of its direction exactly
   * once, in strictly increasing key order.
   */
  lemma PairsExact(h: seq<Half>, t: Tree, d: map<string, string>)
    requires AxisOk(h, t) && d.Keys == Keys(t)
    ensures forall i, j :: 0 <= i < j < |Pairs(Items(t), d)| ==> Less(Pairs(Items(t), d)[i].0, Pairs(Items(t), d)[j].0)
    ensures forall a, b :: (a, b) in Pairs(Items(t), d) <==> a in d && d[a] == b
  {
    var s := Items(t);
    var p := Pairs(s, d);
    forall a, b | a in d && d[a] == b
      ensures (a, b) in p
    {
      var e :| e in s && e.key == a;
      var k :| 0 <= k < |s| && s[k] == e;
      assert p[k] == (a, b);
    }
  }

  /** Taking the entry at position `i` out of an axis takes its pair out of the listing. */
  lemma PairsDrop(h: seq<Half>, t: Tree, d: map<string, string>, i: int)
    requires AxisOk(h, t) && d.Keys == Keys(t) && 0 <= i < |Items(t)|
    ensures var s, a := Items(t), Items(t)[i].key;
      && (forall e :: e in s[..i] + s[i + 1..] ==> e.key in d - {a})
      && Pairs(s[..i] + s[i + 1..], d - {a}) == Pairs(s, d)[..i] + Pairs(s, d)[i + 1..]
  {
    var s, a := Items(t), Items(t)[i].key;
    DropMembers(s, i);
    OnlyEntry(h, t, s[i]);
    forall e | e in s[..i] + s[i + 1..]
      ensures e.key in d - {a}
    {
    }
    PairsSlice(s, d, i);
  }

  /** Listing the pairs of a sequence without its entry `i`, from the map without that entry's key. */
  lemma PairsSlice(s: seq<Entry>, d: map<string, string>, i: int)
    requires 0 <= i < |s| && forall e :: e in s ==> e.key in d
    requires forall e :: e in s[..i] + s[i + 1..] ==> e.key in d - {s[i].key}
    ensures Pairs(s[..i] + s[i + 1..], d - {s[i].key}) == Pairs(s, d)[..i] + Pairs(s, d)[i + 1..]
  {
    var s', d' := s[..i] + s[i + 1..], d - {s[i].key};
    var p, p' := Pairs(s, d), Pairs(s', d');
    forall k | 0 <= k < |p'|
      ensures p'[k] == (p[..i] + p[i + 1..])[k]
    {
      if k < i {
        assert s'[k] == s[k];
      } else {
        assert s'[k] == s[k + 1];
      }
    }
  }

  /** Two empty axes of the same length stand for the empty bimap. */
  lemma CoupledCleared(lh: seq<Half>, rh: seq<Half>)
    requires |lh| == |rh|
    ensures Coupled(lh, Leaf, rh, Leaf, Empty())
  {
  }

  /** Every entry's key is one of the keys of its tree. */
  lemma KeysOfItems(t: Tree)
    ensures forall e :: e in Items(t) ==> e.key in Keys(t)
  {
  }

  /** The position of an entry in the in-order sequence. */
  lemma PositionOf(t: Tree, x: Entry) returns (i: int)
    requires x in Items(t)
    ensures 0 <= i < |Items(t)| && Items(t)[i] == x
  {
    i :| 0 <= i < |Items(t)| && Items(t)[i] == x;
  }

  /** Both axes are empty exactly when the bimap is. */
  lemma CoupledEmpty(lh: seq<Half>, lt: Tree, rh: seq<Half>, rt: Tree, m: Bimap)
    requires Coupled(lh, lt, rh, rt, m)
    ensures lt == Leaf <==> m.left == map[]
    ensures rt == Leaf <==> lt == Leaf
  {
    if lt.Node? {
      assert Entry(lt.id, lt.key) in Items(lt);
      assert lt.id in Ids(rt);
    } else {
      assert m.left.Keys == {};
      assert Ids(rt) == {};
    }
  }

  /** The `k`-th pair of the left view is read off one node: its left key and its right key. */
  lemma LeftPairAt(lh: seq<Half>, lt: Tree, rh: seq<Half>, rt: Tree, m: Bimap, k: int, e: Entry)
    requires AxisOk(lh, lt) && Coupled(lh, lt, rh, rt, m) && 0 <= k < |Items(lt)| && e == Items(lt)[k]
    ensures 0 < e.id < |lh| && e.id < |rh| && lh[e.id].key == e.key
    ensures Pairs(Items(lt), m.left)[k] == (lh[e.id].key, rh[e.id].key)
  {
    LinkedKeys(lh, lt, Sentinel);
    LeftLookup(lh, lt, rh, rt, m, e.id, e.key);
  }

  /**
   * The node at position `p` of one axis sits at some position of the
   * other: `i` on the left axis and `j` on the right.
   */
  lemma Positions(lh: seq<Half>, lt: Tree, rh: seq<Half>, rt: Tree, m: Bimap, onLeft: bool, p: int, x: int) returns (i: int, j: int)
    requires AxisOk(lh, lt) && AxisOk(rh, rt) && Coupled(lh, lt, rh, rt, m)
    requires 0 <= p < |Items(if onLeft then lt else rt)| && x == Items(if onLeft then lt else rt)[p].id
    ensures 0 <= i < |Items(lt)| && 0 <= j < |Items(rt)| && Items(lt)[i].id == x && Items(rt)[j].id == x
    ensures if onLeft then i == p else j == p
  {
    if onLeft {
      i := p;
      LeftLookup(lh, lt, rh, rt, m, x, Items(lt)[p].key);
      j := IndexOf(rt, x);
    } else {
      j := p;
      RightLookup(lh, lt, rh, rt, m, x, Items(rt)[p].key);
      i := PositionOf(lt, Entry(x, lh[x].key));
    }
  }

  /**
   * The pairs of the left (`onLeft`) or right entry view, in the order its
   * iterator yields them: the in-order entries of that axis, each with its
   * partner.
   */
  ghost function View(lt: Tree, rt: Tree, m: Bimap, onLeft: bool): seq<(string, string)>
    requires m.left.Keys == Keys(lt) && m.right.Keys == Keys(rt)
  {
    KeysOfItems(lt);
    KeysOfItems(rt);
    if onLeft then Pairs(Items(lt), m.left) else Pairs(Items(rt), m.right)
  }

  /**
   * Removing one node drops its pair from both views, at its position on
   * each axis, and the removal is the one keyed by the pair the view lists
   * there.
   */
  lemma ViewDrop(lh: seq<Half>, lt: Tree, rh: seq<Half>, rt: Tree, m: Bimap, lt': Tree, rt': Tree, m': Bimap,
                 i: int, j: int, el: Entry, er: Entry)
    requires AxisOk(lh, lt) && AxisOk(rh, rt) && m.left.Keys == Keys(lt) && m.right.Keys == Keys(rt)
    requires 0 <= i < |Items(lt)| && 0 <= j < |Items(rt)| && el == Items(lt)[i] && er == Items(rt)[j]
    requires LeftHas(m, el.key, er.key)
    requires m' == LeftRemove(m, el.key) && m' == RightRemove(m, er.key)
    requires Items(lt') == Items(lt)[..i] + Items(lt)[i + 1..] && Items(rt') == Items(rt)[..j] + Items(rt)[j + 1..]
    requires m'.left.Keys == Keys(lt') && m'.right.Keys == Keys(rt')
    ensures View(lt', rt', m', true) == View(lt, rt, m, true)[..i] + View(lt, rt, m, true)[i + 1..]
    ensures View(lt', rt', m', false) == View(lt, rt, m, false)[..j] + View(lt, rt, m, false)[j + 1..]
    ensures View(lt, rt, m, true)[i].0 == el.key && View(lt, rt, m, false)[j].0 == er.key
  {
    assert m'.left == m.left - {el.key} && m'.right == m.right - {er.key};
    PairsDrop(lh, lt, m.left, i);
    PairsDrop(rh, rt, m.right, j);
  }

  /**
   * One step of `putAll`: putting the pairs of the left view up to position
   * `k` is putting those before `k`, then the pair read off node `x`.
   */
  lemma PutAllStep(lh: seq<Half>, lt: Tree, rh: seq<Half>, rt: Tree, m: Bimap, m0: Bimap, k: int, x: int)
    requires AxisOk(lh, lt) && Coupled(lh, lt, rh, rt, m) && 0 <= k < |Items(lt)| && x == Items(lt)[k].id
    ensures 0 < x < |lh| && x < |rh|
    ensures forall e :: e in Items(lt) ==> e.key in m.left
    ensures PutSeq(m0, Pairs(Items(lt), m.left)[..k + 1]) == Put(PutSeq(m0, Pairs(Items(lt), m.left)[..k]), lh[x].key, rh[x].key)
  {
    KeysOfItems(lt);
    LeftPairAt(lh, lt, rh, rt, m, k, Items(lt)[k]);
    PutSeqPrefix(m0, Pairs(Items(lt), m.left), k);
  }

  /** The `k`-th pair of the right view is read off one node: its right key and its left key. */
  lemma RightPairAt(lh: seq<Half>, lt: Tree, rh: seq<Half>, rt: Tree, m: Bimap, k: int, e: Entry)
    requires AxisOk(lh, lt) && AxisOk(rh, rt) && Coupled(lh, lt, rh, rt, m) && 0 <= k < |Items(rt)| && e == Items(rt)[k]
    ensures forall d :: d in Items(rt) ==> d.key in m.right
    ensures 0 < e.id < |rh| && e.id < |lh| && rh[e.id].key == e.key
    ensures Pairs(Items(rt), m.right)[k] == (rh[e.id].key, lh[e.id].key)
  {
    KeysOfItems(rt);
    LinkedKeys(rh, rt, Sentinel);
    RightLookup(lh, lt, rh, rt, m, e.id, e.key);
  }

  /** An ascending run of entries has as many keys as entries. */
  lemma {:induction false} AscendingKeyCount(s: seq<Entry>)
    requires Ascending(s)
    ensures |set e | e in s :: e.key| == |s|
    decreases |s|
  {
    if s != [] {
      AscendingTail(s);
      AscendingKeyCount(s[1..]);
      HeadKeyFresh(s);
    }
  }

  lemma AscendingTail(s: seq<Entry>)
    requires Ascending(s) && s != []
    ensures Ascending(s[1..])
  {
    var s' := s[1..];
    forall i, j | 0 <= i < j < |s'|
      ensures Less(s'[i].key, s'[j].key)
    {
      assert s'[i] == s[i + 1] && s'[j] == s[j + 1];
    }
  }

  /** The first key of an ascending run is new to the rest of it. */
  lemma HeadKeyFresh(s: seq<Entry>)
    requires Ascending(s) && s != []
    ensures (set e | e in s :: e.key) == (set e | e in s[1..] :: e.key) + {s[0].key}
    ensures s[0].key !in (set e | e in s[1..] :: e.key)
  {
    assert s == [s[0]] + s[1..];
    forall e | e in s[1..]
      ensures e.key != s[0].key
    {
      var k :| 0 <= k < |s[1..]| && s[1..][k] == e;
      assert s[k + 1] == e;
      LessIrreflexive(s[0].key);
    }
  }

  /** A view of a valid axis holds one pair per entry of that direction. */
  lemma PairsCount(h: seq<Half>, t: Tree, d: map<string, string>)
    requires AxisOk(h, t) && d.Keys == Keys(t)
    ensures |Items(t)| == |d|
  {
    AscendingKeyCount(Items(t));
    assert |d| == |d.Keys|;
  }

  // ---------------------------------------------------------------------
  // The structural check
  // ---------------------------------------------------------------------

  /**
   * The conditions `Node.checkInvariant` puts on one half of node `x`: each
   * child points back to `x` and is on the right side of its key, the stored
   * height is one more than the larger child height, and the child heights
   * differ by at most one.
   */
  predicate LocalOk(h: seq<Half>, x: int)
  {
    && 0 <= x < |h|
    && var l, r := h[x].left, h[x].right;
    && IsLink(h, l) && IsLink(h, r)
    && (l == Null || (h[l].parent == x && Compare(h[l].key, h[x].key) < 0))
    && (r == Null || (h[r].parent == x && Compare(h[x].key, h[r].key) < 0))
    && h[x].height == Max(StoredHeight(h, l), StoredHeight(h, r)) + 1
    && -1 <= StoredHeight(h, l) - StoredHeight(h, r) <= 1
  }

  /**
   * `Node.checkInvariant` from node `x`: both halves of `x` are locally right,
   * and the check holds at the children of its left half.  Like the Java
   * method it recurses through the left axis only; `fuel` bounds the depth.
   */
  predicate CheckNode(lh: seq<Half>, rh: seq<Half>, x: int, fuel: nat)
    decreases fuel
  {
    && fuel > 0
    && LocalOk(lh, x) && LocalOk(rh, x)
    && (lh[x].left == Null || CheckNode(lh, rh, lh[x].left, fuel - 1))
    && (lh[x].right == Null || CheckNode(lh, rh, lh[x].right, fuel - 1))
  }

  /**
   * `TreeBimap.checkInvariant`: both axes are empty, or neither is and the
   * node check holds from the left root.  The depth bound is the stored
   * height of the left root, which a correct tree never exceeds.
   */
  predicate CheckAll(lh: seq<Half>, rh: seq<Half>)
  {
    && |lh| > 0 && |rh| > 0
    && var root := lh[Sentinel].right;
    || (root == Null && rh[Sentinel].right == Null)
    || (&& root != Null && rh[Sentinel].right != Null
        && 0 <= root < |lh| && lh[root].height > 0
        && CheckNode(lh, rh, root, lh[root].height))
  }

  /** Every node of a valid subtree passes the local check. */
  lemma {:induction false} LocalOkAll(h: seq<Half>, t: Tree, p: int)
    requires Linked(h, t, p) && Heights(h, t) && Balanced(t) && Ascending(Items(t))
    ensures forall x :: x in Ids(t) ==> LocalOk(h, x)
  {
    if t.Node? {
      AscendingNode(t);
      LocalOkAll(h, t.left, t.id);
      LocalOkAll(h, t.right, t.id);
      if t.left.Node? {
        assert Items(t.left) == Items(t.left.left) + [Entry(t.left.id, t.left.key)] + Items(t.left.right);
        assert Entry(t.left.id, t.left.key) in Items(t.left);
      }
      if t.right.Node? {
        assert Items(t.right) == Items(t.right.left) + [Entry(t.right.id, t.right.key)] + Items(t.right.right);
        assert Entry(t.right.id, t.right.key) in Items(t.right);
      }
      assert LocalOk(h, t.id);
    }
  }

  /** The node check holds from the root of a subtree all of whose nodes pass the local check on both axes. */
  lemma {:induction false} CheckNodeHolds(lh: seq<Half>, rh: seq<Half>, t: Tree, p: int, fuel: nat)
    requires Linked(lh, t, p) && t.Node? && fuel >= Height(t)
    requires forall x :: x in Ids(t) ==> LocalOk(lh, x) && LocalOk(rh, x)
    ensures CheckNode(lh, rh, t.id, fuel)
  {
    if t.left.Node? {
      CheckNodeHolds(lh, rh, t.left, t.id, fuel - 1);
    }
    if t.right.Node? {
      CheckNodeHolds(lh, rh, t.right, t.id, fuel - 1);
    }
  }

  /** Two valid axes holding the same nodes pass `checkInvariant`. */
  lemma CheckAllHolds(lh: seq<Half>, lt: Tree, rh: seq<Half>, rt: Tree)
    requires AxisOk(lh, lt) && AxisOk(rh, rt) && Ids(lt) == Ids(rt)
    ensures CheckAll(lh, rh)
  {
    LocalOkAll(lh, lt, Sentinel);
    LocalOkAll(rh, rt, Sentinel);
    if lt.Node? {
      assert lt.id in Ids(rt);
      CheckNodeHolds(lh, rh, lt, Sentinel, Height(lt));
    }
  }
}
