/**
 * The meaning of a bimap: a pair of maps, left key to right key and right key
 * to left key, each the inverse of the other.  The functions are the effect
 * of each operation on that pair, exactly as the two-map reference bimap
 * performs it; both bimaps are specified by them.
 */
module BimapModel {

  datatype Option<T> = None | Some(value: T)

  datatype Bimap = Bimap(left: map<string, string>, right: map<string, string>)

  /** The two directions describe one set of pairs. */
  ghost predicate Inverse(m: Bimap)
  {
    && (forall a :: a in m.left ==> m.left[a] in m.right && m.right[m.left[a]] == a)
    && (forall b :: b in m.right ==> m.right[b] in m.left && m.left[m.right[b]] == b)
  }

  function Empty(): Bimap
  {
    Bimap(map[], map[])
  }

  /** Drop the pair whose left key is `a`, if there is one. */
  function LeftRemove(m: Bimap, a: string): Bimap
  {
    if a in m.left then Bimap(m.left - {a}, m.right - {m.left[a]}) else m
  }

  /** Drop the pair whose right key is `b`, if there is one. */
  function RightRemove(m: Bimap, b: string): Bimap
  {
    if b in m.right then Bimap(m.left - {m.right[b]}, m.right - {b}) else m
  }

  /** The partner a removal returns: the right key paired with `a`, or nothing. */
  function LeftPartner(m: Bimap, a: string): Option<string>
  {
    if a in m.left then Some(m.left[a]) else None
  }

  function RightPartner(m: Bimap, b: string): Option<string>
  {
    if b in m.right then Some(m.right[b]) else None
  }

  /** Evict the pairs that own `a` on the left or `b` on the right, then pair `a` with `b`. */
  function Put(m: Bimap, a: string, b: string): Bimap
  {
    var e := RightRemove(LeftRemove(m, a), b);
    Bimap(e.left[a := b], e.right[b := a])
  }

  /** The pairs put by one `put` after another, in order. */
  function PutSeq(m: Bimap, pairs: seq<(string, string)>): Bimap
    decreases |pairs|
  {
    if pairs == [] then m else PutSeq(Put(m, pairs[0].0, pairs[0].1), pairs[1..])
  }

  /** Membership of the entry `(a, b)` in the left view. */
  predicate LeftHas(m: Bimap, a: string, b: string)
  {
    a in m.left && m.left[a] == b
  }

  /** Membership of the entry `(b, a)` in the right view. */
  predicate RightHas(m: Bimap, b: string, a: string)
  {
    b in m.right && m.right[b] == a
  }

  function LeftRemoveEntry(m: Bimap, a: string, b: string): Bimap
  {
    if LeftHas(m, a, b) then Bimap(m.left - {a}, m.right - {b}) else m
  }

  function RightRemoveEntry(m: Bimap, b: string, a: string): Bimap
  {
    if RightHas(m, b, a) then Bimap(m.left - {a}, m.right - {b}) else m
  }

  // ---------------------------------------------------------------------
  // Properties
  // ---------------------------------------------------------------------

  /** Both directions always hold the same number of pairs. */
  lemma {:induction false} InverseSameSize(m: Bimap)
    requires Inverse(m)
    ensures |m.left| == |m.right|
    decreases |m.left|
  {
    if m.left != map[] {
      var a :| a in m.left;
      var m' := Bimap(m.left - {a}, m.right - {m.left[a]});
      assert Inverse(m');
      InverseSameSize(m');
      assert m.left.Keys == m'.left.Keys + {a};
      assert m.right.Keys == m'.right.Keys + {m.left[a]};
    } else {
      assert m.right.Keys == {};
    }
  }

  lemma LeftRemoveCorrect(m: Bimap, a: string)
    requires Inverse(m)
    ensures Inverse(LeftRemove(m, a))
    ensures a !in LeftRemove(m, a).left
    ensures LeftPartner(m, a).Some? ==> LeftPartner(m, a).value !in LeftRemove(m, a).right
    ensures forall x :: x in m.left && x != a ==> x in LeftRemove(m, a).left && LeftRemove(m, a).left[x] == m.left[x]
    ensures LeftRemove(m, a).left.Keys <= m.left.Keys
  {
  }

  lemma RightRemoveCorrect(m: Bimap, b: string)
    requires Inverse(m)
    ensures Inverse(RightRemove(m, b))
    ensures b !in RightRemove(m, b).right
    ensures RightPartner(m, b).Some? ==> RightPartner(m, b).value !in RightRemove(m, b).left
    ensures forall y :: y in m.right && y != b ==> y in RightRemove(m, b).right && RightRemove(m, b).right[y] == m.right[y]
    ensures RightRemove(m, b).right.Keys <= m.right.Keys
  {
  }

  /**
   * After `put(a, b)` the pair is present in both directions; a pair that owned
   * `a` or `b` is gone, and every other pair is unchanged.
   */
  lemma PutCorrect(m: Bimap, a: string, b: string)
    requires Inverse(m)
    ensures Inverse(Put(m, a, b))
    ensures LeftHas(Put(m, a, b), a, b) && RightHas(Put(m, a, b), b, a)
    ensures forall x :: x in Put(m, a, b).left <==> x == a || (x in m.left && m.left[x] != b)
    ensures forall x :: x in m.left && x != a && m.left[x] != b ==> Put(m, a, b).left[x] == m.left[x]
  {
    LeftRemoveCorrect(m, a);
    RightRemoveCorrect(LeftRemove(m, a), b);
  }

  lemma {:induction false} PutSeqInverse(m: Bimap, pairs: seq<(string, string)>)
    requires Inverse(m)
    ensures Inverse(PutSeq(m, pairs))
    decreases |pairs|
  {
    if pairs != [] {
      PutCorrect(m, pairs[0].0, pairs[0].1);
      PutSeqInverse(Put(m, pairs[0].0, pairs[0].1), pairs[1..]);
    }
  }

  /** Putting one more pair after a run of puts: the `putAll` loop step. */
  lemma {:induction false} PutSeqSnoc(m: Bimap, pairs: seq<(string, string)>, p: (string, string))
    ensures PutSeq(m, pairs + [p]) == Put(PutSeq(m, pairs), p.0, p.1)
    decreases |pairs|
  {
    if pairs == [] {
      assert pairs + [p] == [p];
    } else {
      assert (pairs + [p])[1..] == pairs[1..] + [p];
      PutSeqSnoc(Put(m, pairs[0].0, pairs[0].1), pairs[1..], p);
    }
  }

  /** The same step on a prefix of a fixed run of pairs. */
  lemma PutSeqPrefix(m: Bimap, pairs: seq<(string, string)>, k: int)
    requires 0 <= k < |pairs|
    ensures PutSeq(m, pairs[..k + 1]) == Put(PutSeq(m, pairs[..k]), pairs[k].0, pairs[k].1)
  {
    PutSeqSnoc(m, pairs[..k], pairs[k]);
    assert pairs[..k + 1] == pairs[..k] + [pairs[k]];
  }

  lemma LeftRemoveEntryCorrect(m: Bimap, a: string, b: string)
    requires Inverse(m)
    ensures Inverse(LeftRemoveEntry(m, a, b))
    ensures LeftHas(m, a, b) ==> LeftRemoveEntry(m, a, b) == LeftRemove(m, a)
    ensures !LeftHas(m, a, b) ==> LeftRemoveEntry(m, a, b) == m
  {
  }

  lemma RightRemoveEntryCorrect(m: Bimap, b: string, a: string)
    requires Inverse(m)
    ensures Inverse(RightRemoveEntry(m, b, a))
    ensures RightHas(m, b, a) ==> RightRemoveEntry(m, b, a) == RightRemove(m, b)
    ensures !RightHas(m, b, a) ==> RightRemoveEntry(m, b, a) == m
  {
  }

  /**
   * `put` in two steps: evict the owners of `a` and `b`, then add the pair,
   * which then collides with nothing.
   */
  lemma PutAfterEviction(m: Bimap, a: string, b: string)
    requires Inverse(m)
    ensures var e := RightRemove(LeftRemove(m, a), b);
      && Inverse(e) && a !in e.left && b !in e.right
      && Put(e, a, b) == Put(m, a, b)
  {
    LeftRemoveCorrect(m, a);
    RightRemoveCorrect(LeftRemove(m, a), b);
  }

  /** Put onto a bimap all of whose pairs it evicts: what is left after eviction is empty. */
  lemma EvictsAll(m: Bimap, a: string, b: string)
    requires Inverse(m) && m.left != map[]
    requires forall x :: x in m.left ==> x == a || m.left[x] == b
    ensures RightRemove(LeftRemove(m, a), b).left == map[]
  {
  }

  /** A concrete bimap on which `put` evicts every pair: `{a -> x}` followed by `put(a, y)`. */
  lemma EvictsAllExample()
    ensures Inverse(Bimap(map["a" := "x"], map["x" := "a"]))
    ensures RightRemove(LeftRemove(Bimap(map["a" := "x"], map["x" := "a"]), "a"), "y") == Empty()
  {
  }

  /**
   * The right view's entry `(x, a)` of `{a -> x}` is present, while the entry
   * with key and value swapped, `(a, x)`, is not.
   */
  lemma RightEntryMixupExample()
    ensures RightHas(Bimap(map["a" := "x"], map["x" := "a"]), "x", "a")
    ensures !RightHas(Bimap(map["a" := "x"], map["x" := "a"]), "a", "x")
  {
  }

  /** `put(a, b)` as written fails: its evictions empty a bimap that was not empty. */
  predicate PutCrashes(m: Bimap, a: string, b: string)
  {
    m.left != map[] && RightRemove(LeftRemove(m, a), b).left == map[]
  }

  /**
   * `putAll` built on `put` as written: the pairs are put one after another
   * until one `put` fails.  The result is the bimap left behind and whether a
   * `put` failed; a failing `put` leaves its evictions done.
   */
  function PutSeqAsWritten(m: Bimap, pairs: seq<(string, string)>): (Bimap, bool)
    decreases |pairs|
  {
    if pairs == [] then (m, false)
    else if PutCrashes(m, pairs[0].0, pairs[0].1) then (RightRemove(LeftRemove(m, pairs[0].0), pairs[0].1), true)
    else PutSeqAsWritten(Put(m, pairs[0].0, pairs[0].1), pairs[1..])
  }

  /** Where no `put` fails, `putAll` as written puts every pair, as the reference does. */
  lemma {:induction false} PutSeqAsWrittenAgrees(m: Bimap, pairs: seq<(string, string)>)
    ensures !PutSeqAsWritten(m, pairs).1 ==> PutSeqAsWritten(m, pairs).0 == PutSeq(m, pairs)
    decreases |pairs|
  {
    if pairs != [] && !PutCrashes(m, pairs[0].0, pairs[0].1) {
      PutSeqAsWrittenAgrees(Put(m, pairs[0].0, pairs[0].1), pairs[1..]);
    }
  }

  /** `putAll` as written of `{a -> y}` into `{a -> x}` fails, leaving the bimap empty. */
  lemma PutSeqAsWrittenExample()
    ensures PutSeqAsWritten(Bimap(map["a" := "x"], map["x" := "a"]), [("a", "y")]) == (Empty(), true)
    ensures PutSeq(Bimap(map["a" := "x"], map["x" := "a"]), [("a", "y")]) == Bimap(map["a" := "y"], map["y" := "a"])
  {
  }
}
