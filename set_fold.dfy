/**
  A run of `setDeep` calls on one initially empty object: each item names
  the segments and the value of one call, applied in order. Both of the
  runtime's trees are built this way.
 */
module SetFold {
  import opened Js
  import opened DeepSet

  /** The segments and the value of one `setDeep` call. */
  type Item = (seq<string>, JsVal)

  /**
    The calls made for a list of keys, one per key in order, each with the
    segments and the value the two functions give for that key.
   */
  function ItemsOf(keys: seq<string>, segs: string -> seq<string>, leaf: string -> JsVal): (items: seq<Item>)
    ensures |items| == |keys|
    ensures forall i :: 0 <= i < |keys| ==> items[i] == (segs(keys[i]), leaf(keys[i]))
  {
    seq(|keys|, i requires 0 <= i < |keys| => (segs(keys[i]), leaf(keys[i])))
  }

  /** The calls for a prefix of the keys are a prefix of the calls. */
  lemma ItemsOfPrefix(keys: seq<string>, i: nat, segs: string -> seq<string>, leaf: string -> JsVal)
    requires i <= |keys|
    ensures ItemsOf(keys[..i], segs, leaf) == ItemsOf(keys, segs, leaf)[..i]
  {
  }

  /** Two more keys are two more calls. */
  lemma ItemsOfSnoc2(keys: seq<string>, a: string, b: string, segs: string -> seq<string>, leaf: string -> JsVal)
    ensures ItemsOf(keys + [a, b], segs, leaf) == ItemsOf(keys, segs, leaf) + [(segs(a), leaf(a)), (segs(b), leaf(b))]
  {
  }

  /** No value written holds an array. */
  predicate LeavesArrayFree(items: seq<Item>) {
    forall i :: 0 <= i < |items| ==> ArrayFree(items[i].1)
  }

  /** The entries of `{}` after `setDeep` with each item in turn. */
  function Build(items: seq<Item>): (t: Entries)
    requires LeavesArrayFree(items)
    ensures ArrayFree(Obj(t))
    decreases |items|
  {
    if items == [] then []
    else
      var prev := Build(items[..|items| - 1]);
      var last := items[|items| - 1];
      ArrayFreeNoArrayOnPath(prev, last.0);
      InsertArrayFree(prev, last.0, last.1);
      Insert(prev, last.0, last.1)
  }

  /** The first `i + 1` calls are the first `i` followed by call `i`. */
  lemma BuildAt(items: seq<Item>, i: nat)
    requires LeavesArrayFree(items) && i < |items|
    ensures LeavesArrayFree(items[..i]) && LeavesArrayFree(items[..i + 1])
    ensures NoArrayOnPath(Build(items[..i]), items[i].0)
    ensures Build(items[..i + 1]) == Insert(Build(items[..i]), items[i].0, items[i].1)
  {
    assert items[..i + 1][..i] == items[..i];
    ArrayFreeNoArrayOnPath(Build(items[..i]), items[i].0);
  }

  /**
    Handling key `i` after the keys before it is one more call, made with
    that key's segments and value.
   */
  lemma StepAt(keys: seq<string>, segs: string -> seq<string>, leaf: string -> JsVal, i: nat)
    requires i < |keys| && LeavesArrayFree(ItemsOf(keys, segs, leaf))
    ensures LeavesArrayFree(ItemsOf(keys[..i], segs, leaf)) && LeavesArrayFree(ItemsOf(keys[..i + 1], segs, leaf))
    ensures NoArrayOnPath(Build(ItemsOf(keys[..i], segs, leaf)), segs(keys[i]))
    ensures Build(ItemsOf(keys[..i + 1], segs, leaf)) ==
              Insert(Build(ItemsOf(keys[..i], segs, leaf)), segs(keys[i]), leaf(keys[i]))
  {
    BuildAt(ItemsOf(keys, segs, leaf), i);
    ItemsOfPrefix(keys, i, segs, leaf);
    ItemsOfPrefix(keys, i + 1, segs, leaf);
  }

  /** Distinct keys at every level survive every call. */
  lemma {:induction false} BuildWellFormed(items: seq<Item>)
    requires LeavesArrayFree(items)
    requires forall i :: 0 <= i < |items| ==> WellFormed(items[i].1)
    ensures WellFormed(Obj(Build(items)))
    decreases |items|
  {
    if items != [] {
      var n := |items|;
      BuildWellFormed(items[..n - 1]);
      var prev := Build(items[..n - 1]);
      ArrayFreeNoArrayOnPath(prev, items[n - 1].0);
      InsertWellFormed(prev, items[n - 1].0, items[n - 1].1);
    }
  }

  /**
    A call's value can be read back at its segments after the whole run,
    provided every later call's segments part ways with them.
   */
  lemma {:induction false} LookupAfterBuild(items: seq<Item>, i: nat)
    requires LeavesArrayFree(items) && i < |items| && items[i].0 != []
    requires forall j :: i < j < |items| ==> Diverge(items[i].0, items[j].0)
    ensures Lookup(Obj(Build(items)), items[i].0) == Some(items[i].1)
    decreases |items|
  {
    var n := |items|;
    var prefix := items[..n - 1];
    var last := items[n - 1];
    var prev := Build(prefix);
    ArrayFreeNoArrayOnPath(prev, last.0);
    if i == n - 1 {
      LookupInsert(prev, last.0, last.1);
    } else {
      assert prefix[i] == items[i];
      forall j | i < j < |prefix|
        ensures Diverge(prefix[i].0, prefix[j].0)
      {
        assert prefix[j] == items[j];
      }
      LookupAfterBuild(prefix, i);
      InsertElsewhere(prev, last.0, last.1, items[i].0);
    }
  }

  /**
    Two calls in a row, the second one level below the first: an object
    written first gains the new child, anything else written first is
    replaced by an object holding only the child.
   */
  lemma LaterBelowEarlier(items: seq<Item>, q: seq<string>, k: string, first: JsVal, second: JsVal)
    requires q != []
    requires LeavesArrayFree(items + [(q, first), (q + [k], second)])
    ensures LeavesArrayFree(items + [(q, first)])
    ensures first.Obj? ==>
              Lookup(Obj(Build(items + [(q, first), (q + [k], second)])), q) == Some(Obj(Put(first.entries, k, second)))
    ensures !first.Obj? ==>
              Lookup(Obj(Build(items + [(q, first), (q + [k], second)])), q) == Some(Obj([(k, second)]))
  {
    var all := items + [(q, first), (q + [k], second)];
    var one := items + [(q, first)];
    assert all[..|all| - 1] == one && one[..|one| - 1] == items;
    assert forall i :: 0 <= i < |one| ==> one[i] == all[i];
    var t0 := Build(items);
    ArrayFreeNoArrayOnPath(t0, q);
    LookupInsert(t0, q, first);
    var t1 := Build(one);
    ArrayFreeNoArrayOnPath(t1, q + [k]);
    if first.Obj? {
      ObjectOnPathGainsChild(t1, q, k, first.entries, second);
    } else {
      LeafOnPathReplaced(t1, q, k, first, second);
    }
  }
}
