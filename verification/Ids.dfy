/** The choice of a free 16-bit query id. */
module Ids {
  import opened Common

  const IDS := 0x1_0000

  predicate Ascending(ks: seq<uint16>) {
    forall i, j :: 0 <= i < j < |ks| ==> ks[i] < ks[j]
  }

  predicate Least(s: set<uint16>, x: uint16) {
    x in s && forall y :: y in s ==> x <= y
  }

  lemma LeastExists(s: set<uint16>)
    requires s != {}
    ensures exists x :: Least(s, x)
  {
    var x :| x in s;
    if s == {x} {
      assert Least(s, x);
    } else {
      LeastExists(s - {x});
      var z :| Least(s - {x}, z);
      assert forall y :: y in s ==> y == x || y in s - {x};
      assert Least(s, if z < x then z else x);
    }
  }

  /** The keys of an ordered map in the order its iterators visit them. */
  function InOrder(s: set<uint16>): (ks: seq<uint16>)
    ensures Ascending(ks) && |ks| == |s|
    ensures forall x :: x in s <==> x in ks
  {
    if s == {} then []
    else
      LeastExists(s);
      var x :| Least(s, x);
      [x] + InOrder(s - {x})
  }

  lemma {:induction false} AscendingRoom(ks: seq<uint16>, j: nat)
    requires Ascending(ks) && j < |ks|
    ensures j <= ks[j]
    decreases j
  {
    if j == 0 {
    } else {
      AscendingRoom(ks, j - 1);
    }
  }

  lemma {:induction false} AscendingCeiling(ks: seq<uint16>, j: nat)
    requires Ascending(ks) && j < |ks|
    ensures ks[j] + (|ks| - j) <= IDS
    decreases |ks| - j
  {
    if j + 1 == |ks| {
    } else {
      AscendingCeiling(ks, j + 1);
    }
  }

  /** Counting: distinct ids number at most 65536, and then every id is taken. */
  lemma AllTaken(ks: seq<uint16>, id: uint16)
    requires Ascending(ks)
    ensures |ks| <= IDS
    ensures |ks| == IDS ==> id in ks
  {
    if |ks| > 0 {
      AscendingCeiling(ks, 0);
      if |ks| == IDS {
        AscendingRoom(ks, id);
        AscendingCeiling(ks, id);
        assert ks[id] == id;
      }
    }
  }

  /** FindFreeId over the keys of idMap; None stands for the too_many_requests exception. */
  method FindFreeId(ks: seq<uint16>) returns (id: Option<uint16>)
    requires Ascending(ks)
    ensures id.None? <==> |ks| == IDS
    ensures id.Some? ==> id.value !in ks
    ensures ks == [] ==> id == Some(0)
    ensures ks != [] && ks[0] != 0 ==> id == Some(ks[0] - 1)
    ensures ks != [] && ks[0] == 0 && ks[|ks| - 1] != 0xffff ==> id == Some(ks[|ks| - 1] + 1)
    ensures ks != [] && ks[0] == 0 && ks[|ks| - 1] == 0xffff && id.Some? ==>
              forall x: uint16 :: x < id.value ==> x in ks
  {
    if |ks| == 0 {
      return Some(0);
    }
    if ks[0] != 0 {
      AllTaken(ks, ks[0] - 1);
      return Some(ks[0] - 1);
    }
    if ks[|ks| - 1] != 0xffff {
      AllTaken(ks, ks[|ks| - 1] + 1);
      return Some(ks[|ks| - 1] + 1);
    }
    var i1, i2 := 0, 1;
    while i2 != |ks|
      invariant i2 == i1 + 1 <= |ks|
      invariant forall j :: 0 <= j <= i1 ==> ks[j] == j
    {
      if ks[i2] - ks[i1] > 1 {
        AllTaken(ks, ks[i1] + 1);
        forall x: uint16 | x < ks[i1] + 1
          ensures x in ks
        {
          assert ks[x] == x;
        }
        return Some(ks[i1] + 1);
      }
      i1, i2 := i1 + 1, i2 + 1;
    }
    return None;
  }
}
