/**
 * The reference bimap the tree bimap is checked against: two maps, one per
 * direction, updated together.  Every method is specified by the functions of
 * `BimapModel`, so the two bimaps share one meaning.
 */
module SimpleBimaps {
  import opened BimapModel

  class SimpleBimap {
    var left: map<string, string>
    var right: map<string, string>

    function Model(): Bimap
      reads this
    {
      Bimap(left, right)
    }

    ghost predicate Valid()
      reads this
    {
      Inverse(Model())
    }

    constructor()
      ensures Valid() && Model() == Empty()
    {
      left := map[];
      right := map[];
    }

    /** The number of pairs; both directions agree on it. */
    method Size() returns (n: int)
      requires Valid()
      ensures n == |left| && n == |right|
    {
      InverseSameSize(Model());
      n := |left|;
    }

    method IsEmpty() returns (e: bool)
      requires Valid()
      ensures e <==> left == map[]
      ensures e <==> right == map[]
    {
      InverseSameSize(Model());
      e := |left| == 0;
    }

    method Put(a: string, b: string)
      requires Valid()
      modifies this
      ensures Valid() && Model() == BimapModel.Put(old(Model()), a, b)
    {
      PutCorrect(Model(), a, b);
      var _ := LeftRemove(a);
      var _ := RightRemove(b);
      left := left[a := b];
      right := right[b := a];
    }

    method LeftRemove(a: string) returns (r: Option<string>)
      requires Valid()
      modifies this
      ensures Valid() && Model() == BimapModel.LeftRemove(old(Model()), a)
      ensures r == LeftPartner(old(Model()), a)
    {
      LeftRemoveCorrect(Model(), a);
      if a in left {
        var b := left[a];
        left := left - {a};
        right := right - {b};
        r := Some(b);
      } else {
        r := None;
      }
    }

    method RightRemove(b: string) returns (r: Option<string>)
      requires Valid()
      modifies this
      ensures Valid() && Model() == BimapModel.RightRemove(old(Model()), b)
      ensures r == RightPartner(old(Model()), b)
    {
      RightRemoveCorrect(Model(), b);
      if b in right {
        var a := right[b];
        right := right - {b};
        left := left - {a};
        r := Some(a);
      } else {
        r := None;
      }
    }

    method Clear()
      modifies this
      ensures Valid() && Model() == Empty()
    {
      left := map[];
      right := map[];
    }

    /** Membership of the entry `(a, b)` in the left entry set. */
    method LeftContains(a: string, b: string) returns (c: bool)
      ensures c <==> LeftHas(Model(), a, b)
    {
      c := a in left && left[a] == b;
    }

    method LeftRemoveEntry(a: string, b: string) returns (removed: bool)
      requires Valid()
      modifies this
      ensures Valid() && Model() == BimapModel.LeftRemoveEntry(old(Model()), a, b)
      ensures removed <==> LeftHas(old(Model()), a, b)
    {
      LeftRemoveEntryCorrect(Model(), a, b);
      removed := LeftContains(a, b);
      if removed {
        left := left - {a};
        right := right - {b};
      }
    }

    /** Membership of the entry `(b, a)` in the right entry set. */
    method RightContains(b: string, a: string) returns (c: bool)
      ensures c <==> RightHas(Model(), b, a)
    {
      c := b in right && right[b] == a;
    }

    method RightRemoveEntry(b: string, a: string) returns (removed: bool)
      requires Valid()
      modifies this
      ensures Valid() && Model() == BimapModel.RightRemoveEntry(old(Model()), b, a)
      ensures removed <==> RightHas(old(Model()), b, a)
    {
      RightRemoveEntryCorrect(Model(), b, a);
      removed := RightContains(b, a);
      if removed {
        right := right - {b};
        left := left - {a};
      }
    }
  }
}
