/**
  What the runtime composer (src/runtime.ts) builds from a list of glob
  keys: the metadata tree and the path tree, each a run of `setDeep` calls
  with the same segments and a different value.
 */
module RuntimeTrees {
  import opened Js
  import opened Mime
  import opened Segments
  import opened DeepSet
  import opened SetFold

  /** The metadata record the runtime builds for one glob key. */
  function KeyMeta(filePath: string, baseDir: string): JsVal {
    var ext := RuntimeExt(filePath, baseDir);
    MetaRecord(GuessAssetType(ext), ext, GetMimeType(ext), filePath)
  }

  /**
    A key's record: its type is guessed from the extension, its extension
    keeps its case, its MIME type comes from the static table, and its path
    is the glob key itself.
   */
  lemma KeyMetaFields(filePath: string, baseDir: string)
    ensures var m := KeyMeta(filePath, baseDir);
            var ext := RuntimeExt(filePath, baseDir);
            && m.Obj? && ArrayFree(m) && WellFormed(m)
            && Keys(m.entries) == ["type", "ext", "mime", "path"]
            && Get(m.entries, "type") == Some(Str(GuessAssetType(ext).Tag()))
            && Get(m.entries, "ext") == Some(Str(ext))
            && Get(m.entries, "mime") == Some(Str(GetMimeType(ext)))
            && Get(m.entries, "path") == Some(Str(filePath))
  {
    var ext := RuntimeExt(filePath, baseDir);
    MetaRecordShape(GuessAssetType(ext), ext, GetMimeType(ext), filePath);
    MetaRecordFields(GuessAssetType(ext), ext, GetMimeType(ext), filePath);
  }

  /** The runtime's segments for each glob key under `baseDir`. */
  function SegmentsOf(baseDir: string): string -> seq<string> {
    k => RuntimeSegments(k, baseDir)
  }

  /** The metadata record for each glob key under `baseDir`. */
  function MetaLeaf(baseDir: string): string -> JsVal {
    k => KeyMeta(k, baseDir)
  }

  /** The path-tree value for each glob key: the key itself. */
  function AssetLeaf(): string -> JsVal {
    k => Str(k)
  }

  /** No metadata record holds an array. */
  lemma MetaLeavesArrayFree(keys: seq<string>, baseDir: string)
    ensures LeavesArrayFree(ItemsOf(keys, SegmentsOf(baseDir), MetaLeaf(baseDir)))
  {
    var items := ItemsOf(keys, SegmentsOf(baseDir), MetaLeaf(baseDir));
    forall i | 0 <= i < |items| ensures ArrayFree(items[i].1) {
      KeyMetaFields(keys[i], baseDir);
    }
  }

  /** The metadata tree after the loop has handled `keys`, in order. */
  function MetaTreeOf(keys: seq<string>, baseDir: string): Entries {
    MetaLeavesArrayFree(keys, baseDir);
    Build(ItemsOf(keys, SegmentsOf(baseDir), MetaLeaf(baseDir)))
  }

  /** The path tree after the loop has handled `keys`, in order. */
  function AssetsTreeOf(keys: seq<string>, baseDir: string): Entries {
    Build(ItemsOf(keys, SegmentsOf(baseDir), AssetLeaf()))
  }

  /** Handling key `i` is one more `setDeep` on the metadata tree. */
  lemma MetaStep(keys: seq<string>, i: nat, baseDir: string)
    requires i < |keys|
    ensures NoArrayOnPath(MetaTreeOf(keys[..i], baseDir), RuntimeSegments(keys[i], baseDir))
    ensures MetaTreeOf(keys[..i + 1], baseDir) ==
              Insert(MetaTreeOf(keys[..i], baseDir), RuntimeSegments(keys[i], baseDir), KeyMeta(keys[i], baseDir))
  {
    MetaLeavesArrayFree(keys, baseDir);
    StepAt(keys, SegmentsOf(baseDir), MetaLeaf(baseDir), i);
  }

  /** Handling key `i` is one more `setDeep` on the path tree. */
  lemma AssetsStep(keys: seq<string>, i: nat, baseDir: string)
    requires i < |keys|
    ensures NoArrayOnPath(AssetsTreeOf(keys[..i], baseDir), RuntimeSegments(keys[i], baseDir))
    ensures AssetsTreeOf(keys[..i + 1], baseDir) ==
              Insert(AssetsTreeOf(keys[..i], baseDir), RuntimeSegments(keys[i], baseDir), Str(keys[i]))
  {
    StepAt(keys, SegmentsOf(baseDir), AssetLeaf(), i);
  }

  /** Both trees hold no array and no repeated key, at any level. */
  lemma TreesWellFormed(keys: seq<string>, baseDir: string)
    ensures ArrayFree(Obj(MetaTreeOf(keys, baseDir))) && WellFormed(Obj(MetaTreeOf(keys, baseDir)))
    ensures ArrayFree(Obj(AssetsTreeOf(keys, baseDir))) && WellFormed(Obj(AssetsTreeOf(keys, baseDir)))
  {
    MetaWellFormed(keys, baseDir);
    AssetsWellFormed(keys, baseDir);
  }

  lemma MetaWellFormed(keys: seq<string>, baseDir: string)
    ensures WellFormed(Obj(MetaTreeOf(keys, baseDir)))
  {
    var mi := ItemsOf(keys, SegmentsOf(baseDir), MetaLeaf(baseDir));
    MetaLeavesArrayFree(keys, baseDir);
    forall i | 0 <= i < |mi| ensures WellFormed(mi[i].1) {
      KeyMetaFields(keys[i], baseDir);
    }
    BuildWellFormed(mi);
  }

  lemma AssetsWellFormed(keys: seq<string>, baseDir: string)
    ensures WellFormed(Obj(AssetsTreeOf(keys, baseDir)))
  {
    var ai := ItemsOf(keys, SegmentsOf(baseDir), AssetLeaf());
    BuildWellFormed(ai);
  }

  /**
    Reading a key's segments finds its metadata in the metadata tree and the
    key itself in the path tree, provided every later key's segments part
    ways with them (a later key with the same segments, or with segments
    above or below them, wins instead).
   */
  lemma LookupAfterFold(keys: seq<string>, baseDir: string, i: nat)
    requires i < |keys|
    requires forall j :: i < j < |keys| ==>
               Diverge(RuntimeSegments(keys[i], baseDir), RuntimeSegments(keys[j], baseDir))
    ensures Lookup(Obj(MetaTreeOf(keys, baseDir)), RuntimeSegments(keys[i], baseDir)) == Some(KeyMeta(keys[i], baseDir))
    ensures Lookup(Obj(AssetsTreeOf(keys, baseDir)), RuntimeSegments(keys[i], baseDir)) == Some(Str(keys[i]))
  {
    LookupMeta(keys, baseDir, i);
    LookupAssets(keys, baseDir, i);
  }

  lemma LookupMeta(keys: seq<string>, baseDir: string, i: nat)
    requires i < |keys|
    requires forall j :: i < j < |keys| ==>
               Diverge(RuntimeSegments(keys[i], baseDir), RuntimeSegments(keys[j], baseDir))
    ensures Lookup(Obj(MetaTreeOf(keys, baseDir)), RuntimeSegments(keys[i], baseDir)) == Some(KeyMeta(keys[i], baseDir))
  {
    MetaLeavesArrayFree(keys, baseDir);
    LookupAfterBuild(ItemsOf(keys, SegmentsOf(baseDir), MetaLeaf(baseDir)), i);
  }

  lemma LookupAssets(keys: seq<string>, baseDir: string, i: nat)
    requires i < |keys|
    requires forall j :: i < j < |keys| ==>
               Diverge(RuntimeSegments(keys[i], baseDir), RuntimeSegments(keys[j], baseDir))
    ensures Lookup(Obj(AssetsTreeOf(keys, baseDir)), RuntimeSegments(keys[i], baseDir)) == Some(Str(keys[i]))
  {
    LookupAfterBuild(ItemsOf(keys, SegmentsOf(baseDir), AssetLeaf()), i);
  }

  /**
    A key filed after another under the same segments replaces it in both
    trees: glob keys differing only in their extension share one leaf, and
    the later one wins.
   */
  lemma SameSegmentsLaterWins(keys: seq<string>, baseDir: string, i: nat, j: nat)
    requires i < j < |keys|
    requires RuntimeSegments(keys[i], baseDir) == RuntimeSegments(keys[j], baseDir)
    requires forall l :: j < l < |keys| ==>
               Diverge(RuntimeSegments(keys[j], baseDir), RuntimeSegments(keys[l], baseDir))
    ensures Lookup(Obj(MetaTreeOf(keys, baseDir)), RuntimeSegments(keys[i], baseDir)) == Some(KeyMeta(keys[j], baseDir))
    ensures Lookup(Obj(AssetsTreeOf(keys, baseDir)), RuntimeSegments(keys[i], baseDir)) == Some(Str(keys[j]))
  {
    LookupAfterFold(keys, baseDir, j);
  }

  /**
    The two trees part ways when a key's segments run one level below the
    previous key's: the earlier metadata record is kept and gains the new
    child, while the earlier path string is replaced by an object holding
    only the child.
   */
  lemma TreesDiverge(keys: seq<string>, baseDir: string, a: string, b: string, k: string)
    requires RuntimeSegments(b, baseDir) == RuntimeSegments(a, baseDir) + [k]
    ensures var q := RuntimeSegments(a, baseDir);
            Lookup(Obj(MetaTreeOf(keys + [a, b], baseDir)), q) ==
              Some(Obj(Put(KeyMeta(a, baseDir).entries, k, KeyMeta(b, baseDir))))
    ensures var q := RuntimeSegments(a, baseDir);
            Lookup(Obj(AssetsTreeOf(keys + [a, b], baseDir)), q) == Some(Obj([(k, Str(b))]))
  {
    MetaBelow(keys, baseDir, a, b, k);
    AssetsBelow(keys, baseDir, a, b, k);
  }

  lemma MetaBelow(keys: seq<string>, baseDir: string, a: string, b: string, k: string)
    requires RuntimeSegments(b, baseDir) == RuntimeSegments(a, baseDir) + [k]
    ensures var q := RuntimeSegments(a, baseDir);
            Lookup(Obj(MetaTreeOf(keys + [a, b], baseDir)), q) ==
              Some(Obj(Put(KeyMeta(a, baseDir).entries, k, KeyMeta(b, baseDir))))
  {
    var q := RuntimeSegments(a, baseDir);
    KeyMetaFields(a, baseDir);
    ItemsOfSnoc2(keys, a, b, SegmentsOf(baseDir), MetaLeaf(baseDir));
    MetaLeavesArrayFree(keys + [a, b], baseDir);
    LaterBelowEarlier(ItemsOf(keys, SegmentsOf(baseDir), MetaLeaf(baseDir)), q, k, KeyMeta(a, baseDir), KeyMeta(b, baseDir));
  }

  lemma AssetsBelow(keys: seq<string>, baseDir: string, a: string, b: string, k: string)
    requires RuntimeSegments(b, baseDir) == RuntimeSegments(a, baseDir) + [k]
    ensures var q := RuntimeSegments(a, baseDir);
            Lookup(Obj(AssetsTreeOf(keys + [a, b], baseDir)), q) == Some(Obj([(k, Str(b))]))
  {
    var q := RuntimeSegments(a, baseDir);
    ItemsOfSnoc2(keys, a, b, SegmentsOf(baseDir), AssetLeaf());
    LaterBelowEarlier(ItemsOf(keys, SegmentsOf(baseDir), AssetLeaf()), q, k, Str(a), Str(b));
  }
}
