/**
  `setDeep` (src/utils.ts) and its twin `setDeepValue` (src/runtime.ts):
  walk a cursor down a nested object along a list of keys, replacing every
  missing or non-object intermediate by `{}`, and assign the value at the
  last key. `Insert` is the functional specification; `Tree.SetDeep` is the
  in-place walk, proved to agree with it.
 */
module DeepSet {
  import opened Js

  /** The entries under key `k`, or those of the fresh `{}` the walk would put there. */
  function ChildEntries(e: Entries, k: string): (c: Entries)
    ensures Get(e, k).Some? && Get(e, k).value.Obj? ==> c == Get(e, k).value.entries
    ensures !(Get(e, k).Some? && Get(e, k).value.Obj?) ==> c == []
  {
    match Get(e, k)
    case Some(Obj(c)) => c
    case _ => []
  }

  /**
    The walk never meets an array before the last key. JavaScript would keep
    an array there and set a named property on it, which this value model
    cannot hold; the trees the catalogue builds contain no arrays.
   */
  predicate NoArrayOnPath(e: Entries, segs: seq<string>)
    decreases |segs|
  {
    |segs| <= 1 ||
    (!(Get(e, segs[0]).Some? && Get(e, segs[0]).value.Arr?) &&
     NoArrayOnPath(ChildEntries(e, segs[0]), segs[1..]))
  }

  /** The entries the cursor points at after walking `q`. */
  function Descend(e: Entries, q: seq<string>): Entries
    decreases |q|
  {
    if q == [] then e else Descend(ChildEntries(e, q[0]), q[1..])
  }

  /**
    The object `setDeep(obj, segs, v)` leaves behind, where `e` are the
    entries of `obj`. With no segments nothing changes.
   */
  function Insert(e: Entries, segs: seq<string>, v: JsVal): (r: Entries)
    requires NoArrayOnPath(e, segs)
    ensures NoArrayOnPath(r, segs)
    ensures segs == [] ==> r == e
    ensures segs != [] ==> Keys(r) == if segs[0] in Keys(e) then Keys(e) else Keys(e) + [segs[0]]
    decreases |segs|
  {
    if segs == [] then e
    else if |segs| == 1 then Put(e, segs[0], v)
    else
      var sub := Insert(ChildEntries(e, segs[0]), segs[1..], v);
      var r := Put(e, segs[0], Obj(sub));
      assert ChildEntries(r, segs[0]) == sub;
      r
  }

  /** Insertion keeps every object's keys distinct. */
  lemma {:induction false} InsertWellFormed(e: Entries, segs: seq<string>, v: JsVal)
    requires NoArrayOnPath(e, segs)
    requires WellFormed(Obj(e)) && WellFormed(v)
    ensures WellFormed(Obj(Insert(e, segs, v)))
    decreases |segs|
  {
    if |segs| > 0 {
      var c := ChildEntries(e, segs[0]);
      var sub := if |segs| == 1 then v else Obj(Insert(c, segs[1..], v));
      if |segs| > 1 {
        if Get(e, segs[0]).Some? {
          var i :| 0 <= i < |e| && e[i] == (segs[0], Get(e, segs[0]).value);
          assert WellFormed(e[i].1);
        }
        assert WellFormed(Obj(c));
        InsertWellFormed(c, segs[1..], v);
      }
      var r := Put(e, segs[0], sub);
      assert r == Insert(e, segs, v);
      forall i | 0 <= i < |r| ensures WellFormed(r[i].1) {
        assert r[i] in r;
        if r[i] in e {
          var j :| 0 <= j < |e| && e[j] == r[i];
        }
      }
    }
  }

  /** Insertion of an array-free value keeps an array-free object array-free. */
  lemma {:induction false} InsertArrayFree(e: Entries, segs: seq<string>, v: JsVal)
    requires NoArrayOnPath(e, segs)
    requires ArrayFree(Obj(e)) && ArrayFree(v)
    ensures ArrayFree(Obj(Insert(e, segs, v)))
    decreases |segs|
  {
    if |segs| > 0 {
      var c := ChildEntries(e, segs[0]);
      var sub := if |segs| == 1 then v else Obj(Insert(c, segs[1..], v));
      if |segs| > 1 {
        if Get(e, segs[0]).Some? {
          var i :| 0 <= i < |e| && e[i] == (segs[0], Get(e, segs[0]).value);
          assert ArrayFree(e[i].1);
        }
        assert ArrayFree(Obj(c));
        InsertArrayFree(c, segs[1..], v);
      }
      var r := Put(e, segs[0], sub);
      assert r == Insert(e, segs, v);
      forall i | 0 <= i < |r| ensures ArrayFree(r[i].1) {
        assert r[i] in r;
        if r[i] in e {
          var j :| 0 <= j < |e| && e[j] == r[i];
        }
      }
    }
  }

  /** After the insertion, following `segs` from the root reaches `v`. */
  lemma {:induction false} LookupInsert(e: Entries, segs: seq<string>, v: JsVal)
    requires segs != [] && NoArrayOnPath(e, segs)
    ensures Lookup(Obj(Insert(e, segs, v)), segs) == Some(v)
    decreases |segs|
  {
    if |segs| > 1 {
      LookupInsert(ChildEntries(e, segs[0]), segs[1..], v);
    }
  }

  /** Inserting twice along the same segments keeps only the second value. */
  lemma {:induction false} InsertTwice(e: Entries, segs: seq<string>, v1: JsVal, v2: JsVal)
    requires NoArrayOnPath(e, segs)
    ensures Insert(Insert(e, segs, v1), segs, v2) == Insert(e, segs, v2)
    decreases |segs|
  {
    if |segs| > 1 {
      var c := ChildEntries(e, segs[0]);
      var r1 := Insert(e, segs, v1);
      assert ChildEntries(r1, segs[0]) == Insert(c, segs[1..], v1);
      InsertTwice(c, segs[1..], v1, v2);
      PutTwice(e, segs[0], Obj(Insert(c, segs[1..], v1)), Obj(Insert(c, segs[1..], v2)));
    } else if |segs| == 1 {
      PutTwice(e, segs[0], v1, v2);
    }
  }

  /** A second assignment to the same key overwrites the first. */
  lemma PutTwice(e: Entries, k: string, v1: JsVal, v2: JsVal)
    ensures Put(Put(e, k, v1), k, v2) == Put(e, k, v2)
  {
    var i := KeyIndex(e, k);
    if i == -1 {
      PutTwiceNew(e, k, v1, v2);
    } else {
      PutTwiceAt(e, k, v1, v2, i);
    }
  }

  /** `PutTwice` for a new key: the first put appends it, the second overwrites that last entry. */
  lemma PutTwiceNew(e: Entries, k: string, v1: JsVal, v2: JsVal)
    requires KeyIndex(e, k) == -1
    ensures Put(Put(e, k, v1), k, v2) == e + [(k, v2)]
  {
    var r1 := e + [(k, v1)];
    assert Put(e, k, v1) == r1;
    KeyIndexIs(r1, k, |e|);
    assert r1[|e| := (k, v2)] == e + [(k, v2)];
  }

  /** `PutTwice` for a key at position `i`: both puts overwrite that position. */
  lemma PutTwiceAt(e: Entries, k: string, v1: JsVal, v2: JsVal, i: nat)
    requires i < |e| && KeyIndex(e, k) == i
    ensures Put(Put(e, k, v1), k, v2) == e[i := (k, v2)]
  {
    PutOverwrites(e, k, v1, i);
    PutOverwrites(e[i := (k, v1)], k, v2, i);
    UpdateTwice(e, i, (k, v1), (k, v2));
  }

  /** A put on a key at position `i` writes that position and leaves the key there. */
  lemma PutOverwrites(e: Entries, k: string, v: JsVal, i: nat)
    requires i < |e| && KeyIndex(e, k) == i
    ensures Put(e, k, v) == e[i := (k, v)]
    ensures KeyIndex(e[i := (k, v)], k) == i
  {
    var r := e[i := (k, v)];
    assert forall j :: 0 <= j < i ==> r[j] == e[j];
    KeyIndexIs(r, k, i);
  }

  /** Two updates at one position leave only the second. */
  lemma UpdateTwice<T>(s: seq<T>, i: nat, a: T, b: T)
    requires i < |s|
    ensures s[i := a][i := b] == s[i := b]
  {
  }

  /** `p` and `q` part ways: at some common position they hold different keys. */
  predicate Diverge(p: seq<string>, q: seq<string>)
    decreases |p|
  {
    p != [] && q != [] && (p[0] != q[0] || Diverge(p[1..], q[1..]))
  }

  /** Keys off the inserted path read as before: siblings and their subtrees are untouched. */
  lemma {:induction false} InsertElsewhere(e: Entries, segs: seq<string>, v: JsVal, p: seq<string>)
    requires NoArrayOnPath(e, segs)
    requires Diverge(p, segs)
    ensures Lookup(Obj(Insert(e, segs, v)), p) == Lookup(Obj(e), p)
    decreases |segs|
  {
    var r := Insert(e, segs, v);
    if p[0] == segs[0] {
      // both paths share the first key, so the insertion went deeper
      var c := ChildEntries(e, segs[0]);
      InsertElsewhere(c, segs[1..], v, p[1..]);
      assert Get(r, p[0]) == Some(Obj(Insert(c, segs[1..], v)));
      if !(Get(e, p[0]).Some? && Get(e, p[0]).value.Obj?) {
        assert c == [] && p[1..] != [];
      }
    }
  }

  /** The cursor after `q` followed by one more key. */
  lemma {:induction false} DescendSnoc(e: Entries, q: seq<string>, k: string)
    ensures Descend(e, q + [k]) == ChildEntries(Descend(e, q), k)
    decreases |q|
  {
    if q != [] {
      assert (q + [k])[1..] == q[1..] + [k];
      DescendSnoc(ChildEntries(e, q[0]), q[1..], k);
    } else {
      assert [k][1..] == [];
    }
  }

  /** Walking part of the path keeps the rest of the walk free of arrays. */
  lemma {:induction false} NoArrayOnSuffix(e: Entries, segs: seq<string>, i: nat)
    requires NoArrayOnPath(e, segs) && i <= |segs|
    ensures NoArrayOnPath(Descend(e, segs[..i]), segs[i..])
    decreases i
  {
    if i > 0 {
      assert segs[1..][..i - 1] == segs[1..i];
      assert segs[..i] == [segs[0]] + segs[1..i];
      assert segs[1..][i - 1..] == segs[i..];
      if |segs| > 1 {
        NoArrayOnSuffix(ChildEntries(e, segs[0]), segs[1..], i - 1);
      } else {
        assert segs[i..] == [];
      }
    }
  }

  /**
    Reading at a proper prefix `q` of the inserted path finds an object: the
    object found there before, extended by the insertion, when there was one
    (a metadata record included), and a fresh one holding only the inserted
    branch when there was a string, `null` or nothing.
   */
  lemma {:induction false} InsertThroughPrefix(e: Entries, segs: seq<string>, v: JsVal, q: seq<string>)
    requires NoArrayOnPath(e, segs)
    requires |q| < |segs| && segs[..|q|] == q
    ensures NoArrayOnPath(Descend(e, q), segs[|q|..])
    ensures Lookup(Obj(Insert(e, segs, v)), q) == Some(Obj(Insert(Descend(e, q), segs[|q|..], v)))
    decreases |q|
  {
    NoArrayOnSuffix(e, segs, |q|);
    if q != [] {
      var c := ChildEntries(e, segs[0]);
      assert segs[1..][..|q| - 1] == q[1..];
      assert segs[1..][|q| - 1..] == segs[|q|..];
      InsertThroughPrefix(c, segs[1..], v, q[1..]);
    }
  }

  /** What `Descend` finds when reading the same path succeeds on an object. */
  lemma {:induction false} DescendFindsObject(e: Entries, q: seq<string>, m: Entries)
    requires Lookup(Obj(e), q) == Some(Obj(m))
    ensures Descend(e, q) == m
    decreases |q|
  {
    if q != [] {
      var c := Get(e, q[0]).value;
      DescendFindsObject(c.entries, q[1..], m);
    }
  }

  /** What `Descend` finds when reading the same path ends on something that is not an object. */
  lemma {:induction false} DescendPastLeaf(e: Entries, q: seq<string>, x: JsVal)
    requires q != [] && Lookup(Obj(e), q) == Some(x) && !x.Obj?
    ensures Descend(e, q) == []
    decreases |q|
  {
    var c := Get(e, q[0]).value;
    if |q| > 1 {
      DescendPastLeaf(c.entries, q[1..], x);
    }
  }

  /** An object (such as a metadata record) at an intermediate key keeps its keys and gains the child. */
  lemma ObjectOnPathGainsChild(e: Entries, q: seq<string>, k: string, m: Entries, v: JsVal)
    requires NoArrayOnPath(e, q + [k])
    requires Lookup(Obj(e), q) == Some(Obj(m))
    ensures Lookup(Obj(Insert(e, q + [k], v)), q) == Some(Obj(Put(m, k, v)))
  {
    assert (q + [k])[..|q|] == q && (q + [k])[|q|..] == [k];
    InsertThroughPrefix(e, q + [k], v, q);
    DescendFindsObject(e, q, m);
  }

  /** A string (or `null`, number, boolean) at an intermediate key is replaced by `{}` holding only the child. */
  lemma LeafOnPathReplaced(e: Entries, q: seq<string>, k: string, x: JsVal, v: JsVal)
    requires q != [] && NoArrayOnPath(e, q + [k])
    requires Lookup(Obj(e), q) == Some(x) && !x.Obj?
    ensures Lookup(Obj(Insert(e, q + [k], v)), q) == Some(Obj([(k, v)]))
  {
    assert (q + [k])[..|q|] == q && (q + [k])[|q|..] == [k];
    InsertThroughPrefix(e, q + [k], v, q);
    DescendPastLeaf(e, q, x);
    assert Insert([], [k], v) == Put([], k, v);
    assert KeyIndex([], k) == -1;
    assert Put([], k, v) == [(k, v)];
  }

  /** An object with no array value has no array on any path. */
  lemma {:induction false} ArrayFreeNoArrayOnPath(e: Entries, segs: seq<string>)
    requires ArrayFree(Obj(e))
    ensures NoArrayOnPath(e, segs)
    decreases |segs|
  {
    if |segs| > 1 {
      var c := ChildEntries(e, segs[0]);
      if Get(e, segs[0]).Some? {
        var i :| 0 <= i < |e| && e[i] == (segs[0], Get(e, segs[0]).value);
        assert ArrayFree(e[i].1);
      }
      ArrayFreeNoArrayOnPath(c, segs[1..]);
    }
  }

  /** One level of the walk: the insertion below the cursor, written back into the cursor's object. */
  lemma InsertAtLevel(root: Entries, segs: seq<string>, v: JsVal, i: nat)
    requires NoArrayOnPath(root, segs) && i < |segs| - 1
    ensures NoArrayOnPath(Descend(root, segs[..i]), segs[i..])
    ensures NoArrayOnPath(Descend(root, segs[..i + 1]), segs[i + 1..])
    ensures Insert(Descend(root, segs[..i]), segs[i..], v) ==
            Put(Descend(root, segs[..i]), segs[i], Obj(Insert(Descend(root, segs[..i + 1]), segs[i + 1..], v)))
  {
    NoArrayOnSuffix(root, segs, i);
    NoArrayOnSuffix(root, segs, i + 1);
    DescendSnoc(root, segs[..i], segs[i]);
    assert segs[..i + 1] == segs[..i] + [segs[i]];
    assert segs[i..][0] == segs[i] && segs[i..][1..] == segs[i + 1..];
  }

  /**
    A JavaScript object that `setDeep` writes into, held by reference: the
    caller's `obj`, whose entries change in place.
   */
  class Tree {
    var entries: Entries

    /** `{}` */
    constructor ()
      ensures entries == []
    {
      entries := [];
    }

    /**
      `setDeep(this, segments, value)`. The cursor walks down, creating `{}`
      where there is no object; the final assignment, made through the
      cursor, is visible from the root, which the second loop reproduces by
      writing each level back into its parent.
     */
    method SetDeep(segments: seq<string>, value: JsVal)
      requires NoArrayOnPath(entries, segments)
      modifies this
      ensures entries == Insert(old(entries), segments, value)
    {
      var n := |segments|;
      if n == 0 {
        return;
      }
      var root := entries;
      var cur := root;
      var parents: seq<Entries> := [];
      var i := 0;
      while i < n - 1
        invariant 0 <= i <= n - 1
        invariant |parents| == i
        invariant forall j :: 0 <= j < i ==> parents[j] == Descend(root, segments[..j])
        invariant cur == Descend(root, segments[..i])
      {
        DescendSnoc(root, segments[..i], segments[i]);
        assert segments[..i + 1] == segments[..i] + [segments[i]];
        parents := parents + [cur];
        cur := ChildEntries(cur, segments[i]);
        i := i + 1;
      }
      NoArrayOnSuffix(root, segments, i);
      assert segments[i..] == [segments[n - 1]];
      assert Insert(cur, segments[i..], value) == Put(cur, segments[n - 1], value);
      cur := Put(cur, segments[n - 1], value);
      while i > 0
        invariant 0 <= i <= n - 1
        invariant NoArrayOnPath(Descend(root, segments[..i]), segments[i..])
        invariant cur == Insert(Descend(root, segments[..i]), segments[i..], value)
      {
        i := i - 1;
        InsertAtLevel(root, segments, value, i);
        cur := Put(parents[i], segments[i], Obj(cur));
      }
      assert segments[..0] == [] && segments[0..] == segments;
      entries := cur;
    }
  }
}
