/**
 * `TreeBimap`: a bidirectional map between strings kept as two AVL trees
 * threaded through the same nodes.  Node `x` has its left half in `lt` (keyed
 * by the left key) and its right half in `rt` (keyed by the right key); the
 * sentinel `rootParent` is handle `Sentinel` on both axes.
 *
 * The ghost field `model` is the pair of maps the bimap stands for, and every
 * operation is specified by the function of `BimapModel` that also specifies
 * the reference `SimpleBimap`.
 */
module TreeBimaps {
  import opened KeyOrder
  import opened Trees
  import opened Arena
  import opened AxisProofs
  import opened Axes
  import opened BimapModel
  import opened Coupling

  class TreeBimap {
    const lt: Axis
    const rt: Axis
    var size: int
    ghost var model: Bimap

    ghost predicate Valid()
      reads this, lt, rt
    {
      && lt != rt && lt.Valid() && rt.Valid()
      && Coupled(lt.halves, lt.tree, rt.halves, rt.tree, model)
      && size == |Items(lt.tree)|
    }

    constructor()
      ensures Valid() && model == Empty() && size == 0
      ensures fresh(lt) && fresh(rt)
    {
      lt := new Axis();
      rt := new Axis();
      size := 0;
      model := Empty();
    }

    /** `checkInvariant` of the Java class, run on the two stores of halves. */
    predicate CheckInvariant()
      reads this, lt, rt
    {
      CheckAll(lt.halves, rt.halves)
    }

    /** Every valid bimap passes its own structural check. */
    lemma CheckInvariantHolds()
      requires Valid()
      ensures CheckInvariant()
    {
      CheckAllHolds(lt.halves, lt.tree, rt.halves, rt.tree);
    }

    method Size() returns (n: int)
      requires Valid()
      ensures n == |model.left| && n == |model.right|
    {
      PairsCount(lt.halves, lt.tree, model.left);
      InverseSameSize(model);
      n := size;
    }

    method IsEmpty() returns (e: bool)
      requires Valid()
      ensures e <==> model.left == map[]
      ensures e <==> model.right == map[]
    {
      PairsCount(lt.halves, lt.tree, model.left);
      InverseSameSize(model);
      e := size == 0;
    }

    /**
     * `remove(Node)`: unlink node `node` from the left axis, then from the
     * right axis, rebalance both, and count one pair less.  `i` and `j` are
     * the node's in-order positions on the two axes.
     */
    method Remove(node: int, ghost i: int, ghost j: int)
      requires Valid()
      requires 0 <= i < |Items(lt.tree)| && Items(lt.tree)[i].id == node
      requires 0 <= j < |Items(rt.tree)| && Items(rt.tree)[j].id == node
      modifies this, lt, rt
      ensures Valid()
      ensures LeftHas(old(model), old(Items(lt.tree))[i].key, old(Items(rt.tree))[j].key)
      ensures model == BimapModel.LeftRemove(old(model), old(Items(lt.tree))[i].key)
      ensures model == BimapModel.RightRemove(old(model), old(Items(rt.tree))[j].key)
      ensures Items(lt.tree) == old(Items(lt.tree))[..i] + old(Items(lt.tree))[i + 1..]
      ensures Items(rt.tree) == old(Items(rt.tree))[..j] + old(Items(rt.tree))[j + 1..]
      ensures SameKeys(old(lt.halves), lt.halves) && SameKeys(old(rt.halves), rt.halves)
    {
      ghost var lh0, lt0, rh0, rt0, m0 := lt.halves, lt.tree, rt.halves, rt.tree, model;
      ghost var el, er := Items(lt.tree)[i], Items(rt.tree)[j];
      size := size - 1;
      model := BimapModel.LeftRemove(model, el.key);
      var leftToFix, lctx, lfocus, lheight := lt.Unlink(node, i);
      var rightToFix, rctx, rfocus, rheight := rt.Unlink(node, j);
      lt.Fix(leftToFix, lctx, lfocus, lheight);
      rt.Fix(rightToFix, rctx, rfocus, rheight);
      CoupledRemove(lh0, lt0, rh0, rt0, m0, lt.halves, lt.tree, rt.halves, rt.tree, i, j, el, er);
    }

    /** `leftRemove`: drop the pair whose left key is `a` and return its right key. */
    method LeftRemove(a: string) returns (r: Option<string>)
      requires Valid()
      modifies this, lt, rt
      ensures Valid() && model == BimapModel.LeftRemove(old(model), a)
      ensures r == LeftPartner(old(model), a)
    {
      var node := lt.Find(a);
      if node != Null {
        LeftLookup(lt.halves, lt.tree, rt.halves, rt.tree, model, node, a);
        ghost var i := PositionOf(lt.tree, Entry(node, a));
        ghost var j := IndexOf(rt.tree, node);
        Remove(node, i, j);
        r := Some(rt.halves[node].key);
      } else {
        Absent(lt.halves, lt.tree, rt.halves, rt.tree, model, a, "");
        r := None;
      }
    }

    /** `rightRemove`: drop the pair whose right key is `b` and return its left key. */
    method RightRemove(b: string) returns (r: Option<string>)
      requires Valid()
      modifies this, lt, rt
      ensures Valid() && model == BimapModel.RightRemove(old(model), b)
      ensures r == RightPartner(old(model), b)
    {
      var node := rt.Find(b);
      if node != Null {
        RightLookup(lt.halves, lt.tree, rt.halves, rt.tree, model, node, b);
        ghost var i := PositionOf(lt.tree, Entry(node, lt.halves[node].key));
        ghost var j := PositionOf(rt.tree, Entry(node, b));
        Remove(node, i, j);
        r := Some(lt.halves[node].key);
      } else {
        Absent(lt.halves, lt.tree, rt.halves, rt.tree, model, "", b);
        r := None;
      }
    }

    /** `clear`: both roots become null and the count zero. */
    method Clear()
      requires Valid()
      modifies this, lt, rt
      ensures Valid() && model == Empty() && size == 0
    {
      lt.Clear();
      rt.Clear();
      size := 0;
      model := Empty();
      CoupledCleared(lt.halves, rt.halves);
    }
  
    /**
     * The empty case of `put`: one fresh node, with the sentinel as parent on
     * both axes, becomes both roots.
     */
    method PlantRoot(a: string, b: string)
      requires Valid() && model.left == map[]
      modifies this, lt, rt
      ensures Valid() && model == BimapModel.Put(old(model), a, b) && size == 1
      ensures lt.tree.Node? && lt.tree == Node(Leaf, lt.tree.id, a, Leaf) && rt.tree == Node(Leaf, lt.tree.id, b, Leaf)
    {
      CoupledEmpty(lt.halves, lt.tree, rt.halves, rt.tree, model);
      ghost var lh0, lt0, rh0, rt0, m0 := lt.halves, lt.tree, rt.halves, rt.tree, model;
      var n := lt.Attach(a, Sentinel, false, []);
      var n' := rt.Attach(b, Sentinel, false, []);
      size := size + 1;
      InsertedMembers([], n, a);
      InsertedMembers([], n, b);
      Grown(lt0, lt.tree, Entry(n, a));
      Grown(rt0, rt.tree, Entry(n, b));
      assert Grew(lh0, lt0, lt.halves, lt.tree, n, a);
      assert Grew(rh0, rt0, rt.halves, rt.tree, n, b);
      CoupledGrown(lh0, lt0, rh0, rt0, m0, lt.halves, lt.tree, rt.halves, rt.tree, a, b, n, Bimap(m0.left[a := b], m0.right[b := a]));
      model := Bimap(model.left[a := b], model.right[b := a]);
      PutFresh(m0, a, b);
    }

    /**
     * Hangs one fresh node into both axes, under left key `a` and right key
     * `b`, and rebalances each axis.  The axes then hold the bimap with the
     * pair added; the bimap's own fields are left to the caller.
     */
    method InsertPair(a: string, b: string) returns (n: int)
      requires Valid() && model.left != map[] && a !in model.left && b !in model.right
      modifies lt, rt
      ensures lt.Valid() && rt.Valid() && n >= 0
      ensures Coupled(lt.halves, lt.tree, rt.halves, rt.tree, Bimap(model.left[a := b], model.right[b := a]))
      ensures |Items(lt.tree)| == size + 1
      ensures unchanged(this)
    {
      CoupledEmpty(lt.halves, lt.tree, rt.halves, rt.tree, model);
      ghost var lh0, lt0, rh0, rt0 := lt.halves, lt.tree, rt.halves, rt.tree;
      n := lt.Insert(a);
      var n' := rt.Insert(b);
      CoupledGrown(lh0, lt0, rh0, rt0, model, lt.halves, lt.tree, rt.halves, rt.tree, a, b, n, Bimap(model.left[a := b], model.right[b := a]));
    }

    /**
     * The general case of `put` once neither key is present: one fresh node
     * is hung into both axes, each of which is then rebalanced.
     */
    method Insert(a: string, b: string)
      requires Valid() && model.left != map[] && a !in model.left && b !in model.right
      modifies this, lt, rt
      ensures Valid() && model == BimapModel.Put(old(model), a, b)
    {
      var n := InsertPair(a, b);
      PutFresh(model, a, b);
      size := size + 1;
      model := Bimap(model.left[a := b], model.right[b := a]);
    }

    /**
     * `put(a, b)`: evict the pairs that own `a` on the left or `b` on the
     * right, then add the pair.  Emptiness is tested again after the
     * evictions, which may have removed every pair.
     */
    method Put(a: string, b: string)
      requires Valid()
      modifies this, lt, rt
      ensures Valid() && model == BimapModel.Put(old(model), a, b)
    {
      CoupledEmpty(lt.halves, lt.tree, rt.halves, rt.tree, model);
      if lt.RootHandle() == Null {
        PlantRoot(a, b);
        return;
      }
      PutAfterEviction(model, a, b);
      var _ := LeftRemove(a);
      var _ := RightRemove(b);
      CoupledEmpty(lt.halves, lt.tree, rt.halves, rt.tree, model);
      if lt.RootHandle() == Null {
        PlantRoot(a, b);
      } else {
        Insert(a, b);
      }
    }

    /**
     * `put(a, b)` as written: after the evictions it descends from the left
     * root without testing it again.  `crashed` is the null dereference that
     * follows when the evictions emptied a non-empty bimap; the evictions have
     * then already happened.
     */
    method PutAsWritten(a: string, b: string) returns (crashed: bool)
      requires Valid()
      modifies this, lt, rt
      ensures Valid()
      ensures crashed <==> PutCrashes(old(model), a, b)
      ensures !crashed ==> model == BimapModel.Put(old(model), a, b)
      ensures crashed ==> model == BimapModel.RightRemove(BimapModel.LeftRemove(old(model), a), b)
    {
      CoupledEmpty(lt.halves, lt.tree, rt.halves, rt.tree, model);
      if lt.RootHandle() == Null {
        PlantRoot(a, b);
        return false;
      }
      PutAfterEviction(model, a, b);
      var _ := LeftRemove(a);
      var _ := RightRemove(b);
      CoupledEmpty(lt.halves, lt.tree, rt.halves, rt.tree, model);
      if lt.RootHandle() == Null {
        return true;
      }
      Insert(a, b);
      crashed := false;
    }

    /** `left().entrySet().contains((a, b))`: the node found by `a` has right key `b`. */
    method LeftContains(a: string, b: string) returns (c: bool)
      requires Valid()
      ensures c <==> LeftHas(model, a, b)
    {
      var node := lt.Find(a);
      if node != Null {
        LeftLookup(lt.halves, lt.tree, rt.halves, rt.tree, model, node, a);
        c := Compare(rt.halves[node].key, b) == 0;
      } else {
        Absent(lt.halves, lt.tree, rt.halves, rt.tree, model, a, "");
        c := false;
      }
    }

    /** `left().entrySet().remove((a, b))`: remove the pair when it is present. */
    method LeftRemoveEntry(a: string, b: string) returns (removed: bool)
      requires Valid()
      modifies this, lt, rt
      ensures Valid() && model == BimapModel.LeftRemoveEntry(old(model), a, b)
      ensures removed <==> LeftHas(old(model), a, b)
    {
      var node := lt.Find(a);
      if node == Null {
        Absent(lt.halves, lt.tree, rt.halves, rt.tree, model, a, "");
        return false;
      }
      LeftLookup(lt.halves, lt.tree, rt.halves, rt.tree, model, node, a);
      if Compare(rt.halves[node].key, b) == 0 {
        ghost var i := PositionOf(lt.tree, Entry(node, a));
        ghost var j := IndexOf(rt.tree, node);
        Remove(node, i, j);
        removed := true;
      } else {
        removed := false;
      }
    }

    /** `right().entrySet().contains((b, a))`: the node found by `b` has left key `a`. */
    method RightContains(b: string, a: string) returns (c: bool)
      requires Valid()
      ensures c <==> RightHas(model, b, a)
    {
      var node := rt.Find(b);
      if node != Null {
        RightLookup(lt.halves, lt.tree, rt.halves, rt.tree, model, node, b);
        c := Compare(lt.halves[node].key, a) == 0;
      } else {
        Absent(lt.halves, lt.tree, rt.halves, rt.tree, model, "", b);
        c := false;
      }
    }

    /** `right().entrySet().remove((b, a))`: remove the pair when it is present. */
    method RightRemoveEntry(b: string, a: string) returns (removed: bool)
      requires Valid()
      modifies this, lt, rt
      ensures Valid() && model == BimapModel.RightRemoveEntry(old(model), b, a)
      ensures removed <==> RightHas(old(model), b, a)
    {
      var node := rt.Find(b);
      if node == Null {
        Absent(lt.halves, lt.tree, rt.halves, rt.tree, model, "", b);
        return false;
      }
      RightLookup(lt.halves, lt.tree, rt.halves, rt.tree, model, node, b);
      if Compare(lt.halves[node].key, a) == 0 {
        ghost var i := PositionOf(lt.tree, Entry(node, a));
        ghost var j := PositionOf(rt.tree, Entry(node, b));
        Remove(node, i, j);
        removed := true;
      } else {
        removed := false;
      }
    }

    /**
     * `right().entrySet().contains` as written: the entry with key `b` and
     * value `a` is looked up by its value on the right axis and the node's
     * left key compared with its key, so it answers for the entry `(a, b)`.
     */
    method RightContainsAsWritten(b: string, a: string) returns (c: bool)
      requires Valid()
      ensures c <==> RightHas(model, a, b)
    {
      var node := rt.Find(a);
      if node != Null {
        RightLookup(lt.halves, lt.tree, rt.halves, rt.tree, model, node, a);
        c := Compare(lt.halves[node].key, b) == 0;
      } else {
        Absent(lt.halves, lt.tree, rt.halves, rt.tree, model, "", a);
        c := false;
      }
    }

    /** `right().entrySet().remove` as written: it removes the entry `(a, b)` in place of `(b, a)`. */
    method RightRemoveEntryAsWritten(b: string, a: string) returns (removed: bool)
      requires Valid()
      modifies this, lt, rt
      ensures Valid() && model == BimapModel.RightRemoveEntry(old(model), a, b)
      ensures removed <==> RightHas(old(model), a, b)
    {
      var node := rt.Find(a);
      if node == Null {
        Absent(lt.halves, lt.tree, rt.halves, rt.tree, model, "", a);
        return false;
      }
      RightLookup(lt.halves, lt.tree, rt.halves, rt.tree, model, node, a);
      if Compare(lt.halves[node].key, b) == 0 {
        ghost var i := PositionOf(lt.tree, Entry(node, b));
        ghost var j := PositionOf(rt.tree, Entry(node, a));
        Remove(node, i, j);
        removed := true;
      } else {
        removed := false;
      }
    }

    /** The pairs of the left (`onLeft`) or right view in the order its iterator yields them. */
    ghost function Entries(onLeft: bool): seq<(string, string)>
      reads this, lt, rt
      requires Valid()
    {
      View(lt.tree, rt.tree, model, onLeft)
    }

    /**
     * A view lists each of its pairs exactly once, in strictly increasing
     * key order.
     */
    lemma EntriesExact(onLeft: bool)
      requires Valid()
      ensures |Entries(onLeft)| == |model.left|
      ensures forall i, j :: 0 <= i < j < |Entries(onLeft)| ==> Less(Entries(onLeft)[i].0, Entries(onLeft)[j].0)
      ensures forall a, b :: (a, b) in Entries(onLeft) <==> if onLeft then LeftHas(model, a, b) else RightHas(model, a, b)
    {
      InverseSameSize(model);
      if onLeft {
        PairsExact(lt.halves, lt.tree, model.left);
        PairsCount(lt.halves, lt.tree, model.left);
      } else {
        PairsExact(rt.halves, rt.tree, model.right);
        PairsCount(rt.halves, rt.tree, model.right);
      }
    }

    /** Validity depends only on the bimap and its two axes. */
    twostate lemma StillValid()
      requires old(Valid()) && unchanged(this, lt, rt)
      ensures Valid()
    {
    }

    /** The left (`onLeft`) or right axis. */
    function SideOf(onLeft: bool): Axis
    {
      if onLeft then lt else rt
    }

    /**
     * The work of an entry-view iterator's `remove` on the bimap: find the
     * predecessor of the pair at position `p` of the left (`onLeft`) or right
     * view, whose node is `node`, then drop that pair.  `prev` is the
     * predecessor's node, the sentinel when there is none.
     */
    method RemoveAt(onLeft: bool, node: int, ghost p: int) returns (prev: int)
      requires Valid() && 0 <= p < |Items(SideOf(onLeft).tree)| && node == Items(SideOf(onLeft).tree)[p].id
      modifies this, lt, rt
      ensures Valid() && -1 <= p - 1 < |Items(SideOf(onLeft).tree)|
      ensures prev == if p == 0 then Sentinel else Items(SideOf(onLeft).tree)[p - 1].id
      ensures model == (if onLeft then BimapModel.LeftRemove(old(model), old(Entries(onLeft))[p].0)
                        else BimapModel.RightRemove(old(model), old(Entries(onLeft))[p].0))
      ensures Entries(onLeft) == old(Entries(onLeft))[..p] + old(Entries(onLeft))[p + 1..]
    {
      prev := SideOf(onLeft).Prev(node, p);
      if onLeft {
        LeftDropAt(node, p);
      } else {
        RightDropAt(node, p);
      }
      assert 0 < p ==> Items(SideOf(onLeft).tree)[p - 1] == old(Items(SideOf(onLeft).tree))[p - 1];
    }

    /**
     * One step of an iterator of the view `onLeft` (`leftNext` or
     * `rightNext`, then the entry built from the node reached): from the node
     * at position `p`, or the sentinel for -1, to the next node and its pair.
     */
    method Step(onLeft: bool, node: int, ghost p: int) returns (next: int, pair: (string, string))
      requires Valid() && -1 <= p && p + 1 < |Items(SideOf(onLeft).tree)|
      requires node == if p < 0 then Sentinel else Items(SideOf(onLeft).tree)[p].id
      ensures next == Items(SideOf(onLeft).tree)[p + 1].id
      ensures p + 1 < |Entries(onLeft)| && pair == Entries(onLeft)[p + 1]
    {
      next := SideOf(onLeft).Next(node, p);
      if onLeft {
        LeftPairAt(lt.halves, lt.tree, rt.halves, rt.tree, model, p + 1, Items(lt.tree)[p + 1]);
        pair := (lt.halves[next].key, rt.halves[next].key);
      } else {
        RightPairAt(lt.halves, lt.tree, rt.halves, rt.tree, model, p + 1, Items(rt.tree)[p + 1]);
        pair := (rt.halves[next].key, lt.halves[next].key);
      }
    }

    /** Drop the pair at position `p` of the left view, whose node is `node`. */
    method LeftDropAt(node: int, ghost p: int)
      requires Valid() && 0 <= p < |Items(lt.tree)| && node == Items(lt.tree)[p].id
      modifies this, lt, rt
      ensures Valid()
      ensures Items(lt.tree) == old(Items(lt.tree))[..p] + old(Items(lt.tree))[p + 1..]
      ensures model == BimapModel.LeftRemove(old(model), old(Entries(true))[p].0)
      ensures Entries(true) == old(Entries(true))[..p] + old(Entries(true))[p + 1..]
    {
      ghost var lh, ltr, rh, rtr, m := lt.halves, lt.tree, rt.halves, rt.tree, model;
      ghost var i, j := Positions(lh, ltr, rh, rtr, m, true, p, node);
      Remove(node, p, j);
      ViewDrop(lh, ltr, rh, rtr, m, lt.tree, rt.tree, model, p, j, Items(ltr)[p], Items(rtr)[j]);
    }

    /** Drop the pair at position `p` of the right view, whose node is `node`. */
    method RightDropAt(node: int, ghost p: int)
      requires Valid() && 0 <= p < |Items(rt.tree)| && node == Items(rt.tree)[p].id
      modifies this, lt, rt
      ensures Valid()
      ensures Items(rt.tree) == old(Items(rt.tree))[..p] + old(Items(rt.tree))[p + 1..]
      ensures model == BimapModel.RightRemove(old(model), old(Entries(false))[p].0)
      ensures Entries(false) == old(Entries(false))[..p] + old(Entries(false))[p + 1..]
    {
      ghost var lh, ltr, rh, rtr, m := lt.halves, lt.tree, rt.halves, rt.tree, model;
      ghost var i, j := Positions(lh, ltr, rh, rtr, m, false, p, node);
      Remove(node, i, p);
      ViewDrop(lh, ltr, rh, rtr, m, lt.tree, rt.tree, model, i, p, Items(ltr)[i], Items(rtr)[p]);
    }

    /**
     * `putAll(other)`: put the pairs of `other`'s left view, in the order its
     * iterator yields them.
     */
    method PutAll(other: TreeBimap)
      requires Valid() && other.Valid()
      requires other != this && {other.lt, other.rt} !! {lt, rt}
      modifies this, lt, rt
      ensures Valid() && model == PutSeq(old(model), other.Entries(true))
    {
      ghost var olh, olt, orh, ort, om := other.lt.halves, other.lt.tree, other.rt.halves, other.rt.tree, other.model;
      ghost var es := other.Entries(true);
      ghost var m0 := model;
      var node := Sentinel;
      ghost var k := -1;
      var more := other.lt.HasNextFrom(node, k);
      while more
        invariant Valid()
        invariant -1 <= k < |Items(olt)|
        invariant node == if k < 0 then Sentinel else Items(olt)[k].id
        invariant more <==> k + 1 < |Items(olt)|
        invariant model == PutSeq(m0, es[..k + 1])
        decreases |Items(olt)| - k
      {
        node := other.lt.Next(node, k);
        k := k + 1;
        PutAllStep(olh, olt, orh, ort, om, m0, k, node);
        Put(other.lt.halves[node].key, other.rt.halves[node].key);
        more := other.lt.HasNextFrom(node, k);
      }
      assert es[..k + 1] == es;
    }

    /**
     * `putAll(other)` as written: it calls `put` as written on each pair of
     * `other`'s left view in turn, and stops at the first `put` that fails.
     */
    method PutAllAsWritten(other: TreeBimap) returns (crashed: bool)
      requires Valid() && other.Valid()
      requires other != this && {other.lt, other.rt} !! {lt, rt}
      modifies this, lt, rt
      ensures Valid() && (model, crashed) == PutSeqAsWritten(old(model), other.Entries(true))
    {
      ghost var olh, olt, orh, ort, om := other.lt.halves, other.lt.tree, other.rt.halves, other.rt.tree, other.model;
      ghost var es := other.Entries(true);
      ghost var m0 := model;
      var node := Sentinel;
      ghost var k := -1;
      crashed := false;
      var more := other.lt.HasNextFrom(node, k);
      while more && !crashed
        invariant Valid()
        invariant -1 <= k < |Items(olt)| && |es| == |Items(olt)|
        invariant node == if k < 0 then Sentinel else Items(olt)[k].id
        invariant more <==> k + 1 < |Items(olt)|
        invariant crashed ==> (model, true) == PutSeqAsWritten(m0, es)
        invariant !crashed ==> PutSeqAsWritten(model, es[k + 1..]) == PutSeqAsWritten(m0, es)
        decreases |Items(olt)| - k
      {
        node := other.lt.Next(node, k);
        k := k + 1;
        LeftPairAt(olh, olt, orh, ort, om, k, Items(olt)[k]);
        assert es[k..][0] == es[k] && es[k..][1..] == es[k + 1..];
        crashed := PutAsWritten(other.lt.halves[node].key, other.rt.halves[node].key);
        more := other.lt.HasNextFrom(node, k);
      }
      if !crashed {
        assert es[k + 1..] == [];
      }
    }
  }

  /**
   * The iterator of `left().entrySet()` (`onLeft`) or `right().entrySet()`:
   * `node` is the node last returned, the sentinel before the first call of
   * `Next`; `pos` is its in-order position on the walked axis, -1 for the
   * sentinel.
   */
  class EntryIterator {
    const owner: TreeBimap
    const onLeft: bool
    var node: int
    var removeValid: bool
    ghost var pos: int

    /** The axis this iterator walks. */
    function Side(): Axis
    {
      owner.SideOf(onLeft)
    }

    ghost predicate Valid()
      reads this, owner, owner.lt, owner.rt
    {
      && owner.Valid()
      && -1 <= pos < |Items(Side().tree)|
      && node == (if pos < 0 then Sentinel else Items(Side().tree)[pos].id)
      && (removeValid ==> 0 <= pos)
    }

    constructor(owner: TreeBimap, onLeft: bool)
      requires owner.Valid()
      ensures Valid() && this.owner == owner && this.onLeft == onLeft
      ensures pos == -1 && !removeValid
    {
      this.owner := owner;
      this.onLeft := onLeft;
      node := Sentinel;
      removeValid := false;
      pos := -1;
    }

    /** `hasNext`: a pair follows the one last returned. */
    method HasNext() returns (b: bool)
      requires Valid()
      ensures b <==> pos + 1 < |owner.Entries(onLeft)|
    {
      b := Side().HasNextFrom(node, pos);
    }

    /**
     * `next`: step to the in-order successor and return its pair; `None`
     * stands for the `NoSuchElementException` thrown past the last pair.
     */
    method Next() returns (r: Option<(string, string)>)
      requires Valid()
      modifies this
      ensures Valid()
      ensures old(pos) + 1 < |old(owner.Entries(onLeft))| ==>
        && pos == old(pos) + 1 && removeValid
        && r == Some(old(owner.Entries(onLeft))[pos])
      ensures old(pos) + 1 >= |old(owner.Entries(onLeft))| ==> r == None && unchanged(this)
    {
      ghost var p := pos;
      var more := Side().HasNextFrom(node, p);
      if !more {
        return None;
      }
      var next, pair := owner.Step(onLeft, node, p);
      node, pos, removeValid := next, p + 1, true;
      owner.StillValid();
      r := Some(pair);
    }

    /**
     * `remove`: remove the pair last returned and step back to its
     * predecessor, so that `Next` goes on with its successor.  `false` stands
     * for the `IllegalStateException` thrown when no pair has been returned
     * since the last removal.
     */
    method Remove() returns (ok: bool)
      requires Valid()
      modifies this, owner, owner.lt, owner.rt
      ensures Valid()
      ensures ok <==> old(removeValid)
      ensures !ok ==> unchanged(this, owner, owner.lt, owner.rt)
      ensures ok ==>
        && pos == old(pos) - 1 && !removeValid
        && owner.model == (if onLeft then BimapModel.LeftRemove(old(owner.model), old(owner.Entries(onLeft))[old(pos)].0)
                           else BimapModel.RightRemove(old(owner.model), old(owner.Entries(onLeft))[old(pos)].0))
        && owner.Entries(onLeft) == old(owner.Entries(onLeft))[..old(pos)] + old(owner.Entries(onLeft))[old(pos) + 1..]
    {
      if !removeValid {
        return false;
      }
      removeValid := false;
      pos := pos - 1;
      node := owner.RemoveAt(onLeft, node, pos + 1);
      ok := true;
    }
  }
}
