/**
  The two tree transforms of the catalogue: `mapMetaToPaths` (src/utils.ts)
  collapses every metadata leaf to its path string, and
  `convertToRelativePaths` (src/node-utils.ts) rewrites every leaf's path
  relative to the output file. Both build fresh values and leave their
  input alone, which a pure function states by construction.
 */
module Transforms {
  import opened Js
  import opened Strings

  // ---- mapMetaToPaths (src/utils.ts) ----

  /** `'path' in obj && typeof obj.path === 'string'` */
  predicate HasStringPath(e: Entries) {
    Get(e, "path").Some? && Get(e, "path").value.Str?
  }

  /**
    `mapMetaToPaths(v)`: a value that is not an object comes back as it is;
    an object with a string `path` becomes that string; any other object or
    array is rebuilt with the same keys, each value mapped.
   */
  function MapMetaToPaths(v: JsVal): (r: JsVal)
    decreases v, 1
  {
    match v
    case Obj(e) => if HasStringPath(e) then Get(e, "path").value else Obj(MapEntries(e))
    case Arr(xs) => Arr(seq(|xs|, i requires 0 <= i < |xs| => MapMetaToPaths(xs[i])))
    case _ => v
  }

  /** The `for (const [k, v] of Object.entries(obj)) result[k] = mapMetaToPaths(v)` loop. */
  function MapEntries(e: Entries): (r: Entries)
    ensures |r| == |e|
    ensures forall i :: 0 <= i < |e| ==> r[i] == (e[i].0, MapMetaToPaths(e[i].1))
    decreases Obj(e), 0
  {
    seq(|e|, i requires 0 <= i < |e| => (e[i].0, MapMetaToPaths(e[i].1)))
  }

  /**
    What `mapMetaToPaths` gives: scalars unchanged, a record with a string
    `path` replaced by that string, and any other object rebuilt with the
    same keys in the same order and each value mapped.
   */
  lemma MapMetaToPathsShape(v: JsVal)
    ensures !v.Obj? && !v.Arr? ==> MapMetaToPaths(v) == v
    ensures v.Obj? && HasStringPath(v.entries) ==>
              exists p :: Get(v.entries, "path") == Some(Str(p)) && MapMetaToPaths(v) == Str(p)
    ensures v.Obj? && !HasStringPath(v.entries) ==>
              && MapMetaToPaths(v).Obj?
              && Keys(MapMetaToPaths(v).entries) == Keys(v.entries)
              && forall k :: k in Keys(v.entries) ==>
                   Get(MapMetaToPaths(v).entries, k) == Some(MapMetaToPaths(Get(v.entries, k).value))
    ensures v.Arr? ==> MapMetaToPaths(v).Arr? && |MapMetaToPaths(v).items| == |v.items|
    ensures v.Arr? ==> forall i :: 0 <= i < |v.items| ==> MapMetaToPaths(v).items[i] == MapMetaToPaths(v.items[i])
  {
    if v.Obj? && !HasStringPath(v.entries) {
      MapEntriesKeys(v.entries);
    }
  }

  /** Mapping the values keeps the keys, so every key is looked up at the same place. */
  lemma MapEntriesKeys(e: Entries)
    ensures Keys(MapEntries(e)) == Keys(e)
    ensures forall k :: KeyIndex(MapEntries(e), k) == KeyIndex(e, k)
    ensures forall k :: k in Keys(e) ==> Get(MapEntries(e), k) == Some(MapMetaToPaths(Get(e, k).value))
  {
    var r := MapEntries(e);
    assert Keys(r) == Keys(e);
    forall k ensures KeyIndex(r, k) == KeyIndex(e, k) {
      SameKeysSameIndex(r, e, k);
    }
  }

  /** `KeyIndex` depends on the keys alone. */
  lemma {:induction false} SameKeysSameIndex(a: Entries, b: Entries, k: string)
    requires Keys(a) == Keys(b)
    ensures KeyIndex(a, k) == KeyIndex(b, k)
  {
    var i := KeyIndex(b, k);
    assert forall j :: 0 <= j < |a| ==> a[j].0 == Keys(a)[j] == Keys(b)[j] == b[j].0;
    KeyIndexIs(a, k, i);
  }

  // ---- convertToRelativePaths (src/node-utils.ts) ----

  /**
    `path.relative(fromDir, p)`, where `fromDir` is the directory of the
    output file. The path library cannot be seen here: any function.
   */
  type Relative = string -> string

  /**
    The rewrite of one leaf path: every `\` turned into `/`, then `./` put
    in front unless the result already starts with `.`.
   */
  function RelativeForm(rel: string): (r: string)
    ensures r != [] && r[0] == '.' && '\\' !in r
    ensures var slashed := ReplaceAll(rel, '\\', "/"); r == slashed || r == "./" + slashed
    ensures StartsWith(rel, ".") && '\\' !in rel ==> r == rel
  {
    var slashed := ReplaceAll(rel, '\\', "/");
    assert forall c :: c in "./" ==> c != '\\';
    if StartsWith(slashed, ".") then slashed else "./" + slashed
  }

  /** Rewriting a path already in relative form changes nothing. */
  lemma RelativeFormIdempotent(rel: string)
    ensures RelativeForm(RelativeForm(rel)) == RelativeForm(rel)
  {
    var r := RelativeForm(rel);
    assert StartsWith(r, ".");
  }

  /** `'path' in obj && 'type' in obj`: what `traverse` takes for a leaf. */
  predicate HasPathAndType(e: Entries) {
    "path" in Keys(e) && "type" in Keys(e)
  }

  /**
    `traverse` exactly as written: a leaf is any object with a `path` and a
    `type` key, and `path.relative` throws on a `path` that is not a string,
    which is `None` here and makes the whole conversion fail.
   */
  function TraverseAsWritten(relative: Relative, v: JsVal): (r: Option<JsVal>)
    decreases v
  {
    match v
    case Obj(e) =>
      if HasPathAndType(e) then
        match Get(e, "path")
        case Some(Str(p)) => Some(Obj(Put(e, "path", Str(RelativeForm(relative(p))))))
        case _ => None
      else
        var rs := seq(|e|, i requires 0 <= i < |e| => TraverseAsWritten(relative, e[i].1));
        if forall i :: 0 <= i < |rs| ==> rs[i].Some? then
          Some(Obj(seq(|e|, i requires 0 <= i < |e| => (e[i].0, rs[i].value))))
        else None
    case Arr(xs) =>
      var rs := seq(|xs|, i requires 0 <= i < |xs| => TraverseAsWritten(relative, xs[i]));
      if forall i :: 0 <= i < |rs| ==> rs[i].Some? then
        Some(Obj(seq(|xs|, i requires 0 <= i < |xs| => (NatToString(i), rs[i].value))))
      else None
    case _ => Some(v)
  }

  /**
    A folder holding a file named `path.*` and one named `type.*` is an
    object with a `path` and a `type` key whose `path` is a record, not a
    string: the conversion as written fails on it.
   */
  lemma PathAndTypeFolderFails(relative: Relative, rec: JsVal)
    requires rec.Obj?
    ensures TraverseAsWritten(relative, Obj([("path", rec), ("type", rec)])).None?
  {
    var e := [("path", rec), ("type", rec)];
    assert Keys(e) == ["path", "type"];
    KeyIndexIs(e, "path", 0);
  }

  /** A metadata leaf: an object with a string `path` and a `type` key. */
  predicate IsMetaLeaf(e: Entries) {
    HasStringPath(e) && "type" in Keys(e)
  }

  /**
    `traverse` with leaves told apart by a string `path`, as the comment
    `Leaf node: has path and type fields` intends: it never fails. Arrays
    come back as objects keyed by their indices, as `Object.entries` reports
    them to the `result[key] = ...` loop.
   */
  function Traverse(relative: Relative, v: JsVal): (r: JsVal)
    decreases v, 1
  {
    match v
    case Obj(e) =>
      if IsMetaLeaf(e) then Obj(Put(e, "path", Str(RelativeForm(relative(Get(e, "path").value.s)))))
      else Obj(TraverseEntries(relative, e))
    case Arr(xs) => Obj(seq(|xs|, i requires 0 <= i < |xs| => (NatToString(i), Traverse(relative, xs[i]))))
    case _ => v
  }

  /** The `result[key] = traverse(value)` loop over `Object.entries(obj)`. */
  function TraverseEntries(relative: Relative, e: Entries): (r: Entries)
    ensures |r| == |e|
    ensures forall i :: 0 <= i < |e| ==> r[i] == (e[i].0, Traverse(relative, e[i].1))
    decreases Obj(e), 0
  {
    seq(|e|, i requires 0 <= i < |e| => (e[i].0, Traverse(relative, e[i].1)))
  }

  /** `convertToRelativePaths(metaTree, outFilePath)` */
  function ConvertToRelativePaths(metaTree: Entries, relative: Relative): JsVal {
    Traverse(relative, Obj(metaTree))
  }

  /**
    Where no object has a `path` and a `type` key without its `path` being
    a string, the conversion as written succeeds and agrees with `Traverse`.
   */
  predicate NoPathTypeClash(v: JsVal)
    decreases v
  {
    match v
    case Obj(e) =>
      if HasPathAndType(e) then HasStringPath(e)
      else forall i :: 0 <= i < |e| ==> NoPathTypeClash(e[i].1)
    case Arr(xs) => forall i :: 0 <= i < |xs| ==> NoPathTypeClash(xs[i])
    case _ => true
  }

  lemma {:induction false} TraverseAgrees(relative: Relative, v: JsVal)
    ensures NoPathTypeClash(v) <==> TraverseAsWritten(relative, v).Some?
    ensures NoPathTypeClash(v) ==> TraverseAsWritten(relative, v) == Some(Traverse(relative, v))
    decreases v, 1
  {
    match v
    case Obj(e) => AgreesOnObject(relative, e);
    case Arr(xs) => AgreesOnArray(relative, xs);
    case _ =>
  }

  lemma {:induction false} AgreesOnObject(relative: Relative, e: Entries)
    ensures NoPathTypeClash(Obj(e)) <==> TraverseAsWritten(relative, Obj(e)).Some?
    ensures NoPathTypeClash(Obj(e)) ==> TraverseAsWritten(relative, Obj(e)) == Some(Traverse(relative, Obj(e)))
    decreases Obj(e), 0
  {
    if HasPathAndType(e) {
      if HasStringPath(e) {
        assert IsMetaLeaf(e);
      }
    } else {
      assert !IsMetaLeaf(e);
      var rs := seq(|e|, i requires 0 <= i < |e| => TraverseAsWritten(relative, e[i].1));
      forall i | 0 <= i < |e| ensures
        && (NoPathTypeClash(e[i].1) <==> rs[i].Some?)
        && (NoPathTypeClash(e[i].1) ==> rs[i] == Some(Traverse(relative, e[i].1)))
      {
        TraverseAgrees(relative, e[i].1);
      }
      if NoPathTypeClash(Obj(e)) {
        var out := seq(|e|, i requires 0 <= i < |e| => (e[i].0, rs[i].value));
        assert out == TraverseEntries(relative, e);
      }
    }
  }

  lemma {:induction false} AgreesOnArray(relative: Relative, xs: seq<JsVal>)
    ensures NoPathTypeClash(Arr(xs)) <==> TraverseAsWritten(relative, Arr(xs)).Some?
    ensures NoPathTypeClash(Arr(xs)) ==> TraverseAsWritten(relative, Arr(xs)) == Some(Traverse(relative, Arr(xs)))
    decreases Arr(xs), 0
  {
    var rs := seq(|xs|, i requires 0 <= i < |xs| => TraverseAsWritten(relative, xs[i]));
    forall i | 0 <= i < |xs| ensures
      && (NoPathTypeClash(xs[i]) <==> rs[i].Some?)
      && (NoPathTypeClash(xs[i]) ==> rs[i] == Some(Traverse(relative, xs[i])))
    {
      TraverseAgrees(relative, xs[i]);
    }
    if NoPathTypeClash(Arr(xs)) {
      var out := seq(|xs|, i requires 0 <= i < |xs| => (NatToString(i), rs[i].value));
      assert out == Traverse(relative, Arr(xs)).entries;
    }
  }

  /**
    A leaf keeps its keys in their order and every field but `path`, children
    included and untraversed; its `path` becomes the rewritten relative path.
   */
  lemma TraverseLeaf(relative: Relative, e: Entries)
    requires IsMetaLeaf(e)
    ensures var r := Traverse(relative, Obj(e));
            && r.Obj?
            && Keys(r.entries) == Keys(e)
            && Get(r.entries, "path") == Some(Str(RelativeForm(relative(Get(e, "path").value.s))))
            && forall k :: k != "path" ==> Get(r.entries, k) == Get(e, k)
  {
  }

  /** Any other object keeps its keys in their order, each value traversed. */
  lemma TraverseInner(relative: Relative, e: Entries)
    requires !IsMetaLeaf(e)
    ensures var r := Traverse(relative, Obj(e));
            && r.Obj?
            && Keys(r.entries) == Keys(e)
            && forall k :: k in Keys(e) ==> Get(r.entries, k) == Some(Traverse(relative, Get(e, k).value))
  {
    var r := TraverseEntries(relative, e);
    assert Keys(r) == Keys(e);
    forall k | k in Keys(e) ensures Get(r, k) == Some(Traverse(relative, Get(e, k).value)) {
      SameKeysSameIndex(r, e, k);
    }
  }

  /**
    Every leaf reached from the root through non-leaf objects and arrays
    has a path that starts with `.` and holds no `\`.
   */
  predicate LeavesRelative(v: JsVal)
    decreases v
  {
    match v
    case Obj(e) =>
      if IsMetaLeaf(e) then
        var p := Get(e, "path").value.s;
        p != [] && p[0] == '.' && '\\' !in p
      else forall i :: 0 <= i < |e| ==> LeavesRelative(e[i].1)
    case Arr(xs) => forall i :: 0 <= i < |xs| ==> LeavesRelative(xs[i])
    case _ => true
  }

  /**
    After the conversion every leaf reached from the root through non-leaf
    objects and arrays has a relative path that uses `/` only. A leaf nested
    inside another leaf is copied with it, untouched, as `{...obj, path}` does.
   */
  lemma {:induction false} TraverseLeavesRelative(relative: Relative, v: JsVal)
    ensures LeavesRelative(Traverse(relative, v))
    decreases v
  {
    match v
    case Obj(e) =>
      if IsMetaLeaf(e) {
        TraverseLeaf(relative, e);
        var r := Traverse(relative, v);
        assert HasStringPath(r.entries) && "type" in Keys(r.entries);
      } else {
        var r := TraverseEntries(relative, e);
        forall i | 0 <= i < |r| ensures LeavesRelative(r[i].1) {
          TraverseLeavesRelative(relative, e[i].1);
        }
        TraverseNotLeaf(relative, e);
      }
    case Arr(xs) =>
      var r := Traverse(relative, v).entries;
      forall i | 0 <= i < |r| ensures LeavesRelative(r[i].1) {
        TraverseLeavesRelative(relative, xs[i]);
      }
      ArrayBecomesNonLeaf(relative, xs);
    case _ =>
  }

  /** A non-leaf object is not turned into a leaf. */
  lemma TraverseNotLeaf(relative: Relative, e: Entries)
    requires !IsMetaLeaf(e)
    ensures !IsMetaLeaf(TraverseEntries(relative, e))
  {
    var r := TraverseEntries(relative, e);
    MapKeysKeep(r, e);
    if "path" in Keys(e) {
      var i := KeyIndex(e, "path");
      SameKeysSameIndex(r, e, "path");
      if e[i].1.Str? {
        assert !("type" in Keys(e));
      }
    }
  }

  /** Entries with the same keys. */
  lemma MapKeysKeep(r: Entries, e: Entries)
    requires |r| == |e| && forall i :: 0 <= i < |e| ==> r[i].0 == e[i].0
    ensures Keys(r) == Keys(e)
  {
    assert forall i :: 0 <= i < |e| ==> Keys(r)[i] == Keys(e)[i];
  }

  /**
    An array comes back as an object whose keys are decimal indices, so never
    as a leaf, with each item traversed under its index.
   */
  lemma ArrayBecomesNonLeaf(relative: Relative, xs: seq<JsVal>)
    ensures var r := Traverse(relative, Arr(xs)).entries;
            && |r| == |xs|
            && !IsMetaLeaf(r)
            && forall i :: 0 <= i < |r| ==> r[i].0 == NatToString(i) && r[i].1 == Traverse(relative, xs[i])
  {
  }

  /**
    The conversion keeps every object free of repeated keys: an array's
    index keys are distinct because distinct numbers print differently.
   */
  lemma {:induction false} TraverseWellFormed(relative: Relative, v: JsVal)
    requires WellFormed(v)
    ensures WellFormed(Traverse(relative, v))
    decreases v
  {
    match v
    case Obj(e) =>
      if IsMetaLeaf(e) {
        var r := Put(e, "path", Str(RelativeForm(relative(Get(e, "path").value.s))));
        forall i | 0 <= i < |r| ensures WellFormed(r[i].1) {
          assert r[i] in r;
        }
      } else {
        var r := TraverseEntries(relative, e);
        forall i | 0 <= i < |r| ensures WellFormed(r[i].1) {
          TraverseWellFormed(relative, e[i].1);
        }
      }
    case Arr(xs) =>
      var r := Traverse(relative, v).entries;
      forall i | 0 <= i < |r| ensures WellFormed(r[i].1) {
        TraverseWellFormed(relative, xs[i]);
      }
      forall i, j | 0 <= i < j < |r| ensures r[i].0 != r[j].0 {
        if r[i].0 == r[j].0 {
          NatToStringInjective(i, j);
        }
      }
    case _ =>
  }
}
