/** Ordered iteration over sets of `u64` keys, as an ordered map or a sorted vector gives it. */
module Order {
  import opened Bytes

  lemma {:induction false} LargestOf(keys: set<u64>) returns (m: u64)
    requires keys != {}
    ensures m in keys && forall k :: k in keys ==> k <= m
    decreases |keys|
  {
    var x :| x in keys;
    var rest := keys - {x};
    m := x;
    if rest != {} {
      var r := LargestOf(rest);
      m := if r < x then x else r;
    }
    forall k | k in keys ensures k <= m {
      assert k == x || k in rest;
    }
  }

  function Largest(keys: set<u64>): (m: u64)
    requires keys != {}
    ensures m in keys && forall k :: k in keys ==> k <= m
  {
    assert exists m :: m in keys && forall k :: k in keys ==> k <= m by {
      var m := LargestOf(keys);
    }
    var m :| m in keys && forall k :: k in keys ==> k <= m;
    m
  }

  predicate Ascending(ids: seq<u64>) {
    forall i, j :: 0 <= i < j < |ids| ==> ids[i] < ids[j]
  }

  /** The keys in increasing order, each once. */
  function Sorted(keys: set<u64>): (ids: seq<u64>)
    ensures Ascending(ids)
    ensures forall id :: id in ids <==> id in keys
    ensures |ids| == |keys|
    decreases |keys|
  {
    if keys == {} then []
    else Sorted(keys - {Largest(keys)}) + [Largest(keys)]
  }
}
