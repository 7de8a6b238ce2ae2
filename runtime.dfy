/**
  The runtime composer (src/runtime.ts): from the keys of a bundler's glob
  result, build the metadata tree and the path tree side by side.
 */
module Runtime {
  import opened Js
  import opened Mime
  import opened Segments
  import opened DeepSet
  import opened SetFold
  import opened RuntimeTrees

  /**
    `processGlobFiles(files, baseDir)`: one pass over `Object.keys(files)`,
    each key filed in both trees under the same segments. The values of
    `files` are never read.
   */
  method ProcessGlobFiles(files: Entries, baseDir: string) returns (metaTree: Tree, assetsTree: Tree)
    ensures fresh(metaTree) && fresh(assetsTree)
    ensures metaTree.entries == MetaTreeOf(Keys(files), baseDir)
    ensures assetsTree.entries == AssetsTreeOf(Keys(files), baseDir)
  {
    metaTree, assetsTree := ProcessKeys(Keys(files), baseDir);
  }

  /** The loop of `processGlobFiles` over the glob keys, in order. */
  method ProcessKeys(keys: seq<string>, baseDir: string) returns (metaTree: Tree, assetsTree: Tree)
    ensures fresh(metaTree) && fresh(assetsTree)
    ensures metaTree.entries == MetaTreeOf(keys, baseDir)
    ensures assetsTree.entries == AssetsTreeOf(keys, baseDir)
  {
    MetaLeavesArrayFree(keys, baseDir);
    metaTree, assetsTree := FileEach(keys, SegmentsOf(baseDir), MetaLeaf(baseDir));
  }

  /**
    The loop itself: for each key in turn, `setDeep` of its record on the
    metadata tree and of the key itself on the path tree, both under the
    key's segments. How a key is cut into segments and how its record is
    built are the two functions.
   */
  method FileEach(keys: seq<string>, segs: string -> seq<string>, meta: string -> JsVal)
    returns (metaTree: Tree, assetsTree: Tree)
    requires LeavesArrayFree(ItemsOf(keys, segs, meta))
    requires LeavesArrayFree(ItemsOf(keys, segs, AssetLeaf()))
    ensures fresh(metaTree) && fresh(assetsTree)
    ensures metaTree.entries == Build(ItemsOf(keys, segs, meta))
    ensures assetsTree.entries == Build(ItemsOf(keys, segs, AssetLeaf()))
  {
    metaTree := new Tree();
    assetsTree := new Tree();
    ghost var metaCalls := ItemsOf(keys, segs, meta);
    ghost var assetCalls := ItemsOf(keys, segs, AssetLeaf());
    var i := 0;
    while i < |keys|
      invariant 0 <= i <= |keys|
      invariant metaTree != assetsTree
      invariant metaTree.entries == Build(metaCalls[..i])
      invariant assetsTree.entries == Build(assetCalls[..i])
    {
      var filePath := keys[i];
      var segments := segs(filePath);
      var record := meta(filePath);
      BuildAt(metaCalls, i);
      BuildAt(assetCalls, i);
      metaTree.SetDeep(segments, record);
      assetsTree.SetDeep(segments, Str(filePath));
      i := i + 1;
    }
    assert metaCalls[..i] == metaCalls && assetCalls[..i] == assetCalls;
  }

  /**
    `createAssets(globResult, baseDir = '')`: the two trees, as
    `{ assetMeta, assets }`.
   */
  method CreateAssets(globResult: Entries, baseDir: string := "") returns (r: JsVal)
    ensures r == Obj([("assetMeta", Obj(MetaTreeOf(Keys(globResult), baseDir))),
                      ("assets", Obj(AssetsTreeOf(Keys(globResult), baseDir)))])
  {
    var metaTree, assetsTree := ProcessGlobFiles(globResult, baseDir);
    r := Obj([("assetMeta", Obj(metaTree.entries)), ("assets", Obj(assetsTree.entries))]);
  }
}
