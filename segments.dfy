/**
  Path segmentation: turning a file path into the list of keys under which
  its entry is stored, as the CLI's directory walk does it (src/cli.ts) and
  as the bundler-facing runtime does it (src/runtime.ts).
 */
module Segments {
  import opened Js
  import opened Strings
  import Mime

  /** The name before its last dot, or the whole name when it has none (`.env` gives `''`). */
  function FileKey(name: string): string {
    var dot := LastIndexOf(name, '.');
    if dot == -1 then name else name[..dot]
  }

  /** The suffix from the last dot, case kept, or `''` when there is no dot. */
  function DotExt(name: string): string {
    var dot := LastIndexOf(name, '.');
    if dot == -1 then "" else name[dot..]
  }

  /**
    A name is its file key followed by its extension; the extension is empty
    or one dot followed by dot-free text; the key is the whole name exactly
    when the name has no dot.
   */
  lemma FileKeyDotExt(name: string)
    ensures FileKey(name) + DotExt(name) == name
    ensures DotExt(name) == "" || (DotExt(name)[0] == '.' && '.' !in DotExt(name)[1..])
    ensures FileKey(name) == name <==> '.' !in name
    ensures DotExt(name) == "" <==> '.' !in name
  {
    var dot := LastIndexOf(name, '.');
    if dot != -1 {
      assert name[..dot] + name[dot..] == name;
      assert name[dot..][1..] == name[dot + 1..];
    }
  }

  /**
    `[...parts, fileKey]` where `parts` are the `/`-pieces of `p` with the
    last one popped: one segment per piece, the last with its extension cut.
   */
  function PathSegments(p: string): (segs: seq<string>)
    ensures |segs| == |Split(p, '/')| && segs != []
    ensures segs[..|segs| - 1] == Split(p, '/')[..|segs| - 1]
    ensures segs[|segs| - 1] == FileKey(Split(p, '/')[|segs| - 1])
  {
    var parts := Split(p, '/');
    parts[..|parts| - 1] + [FileKey(parts[|parts| - 1])]
  }

  /** The extension of the last piece of `p`. */
  function LastExt(p: string): string {
    var parts := Split(p, '/');
    DotExt(parts[|parts| - 1])
  }

  /**
    Segmentation loses nothing but the separators: joining the segments with
    `/` and putting the extension back gives the path, and no segment holds a `/`.
   */
  lemma PathSegmentsRoundTrip(p: string)
    ensures Join(PathSegments(p), "/") + LastExt(p) == p
    ensures forall i :: 0 <= i < |PathSegments(p)| ==> '/' !in PathSegments(p)[i]
  {
    PathSegmentsJoin(p);
    PathSegmentsNoSlash(p);
  }

  lemma PathSegmentsJoin(p: string)
    ensures Join(PathSegments(p), "/") + LastExt(p) == p
  {
    var parts := Split(p, '/');
    var n := |parts|;
    FileKeyDotExt(parts[n - 1]);
    JoinSplit(p, '/');
    JoinLast(parts[..n - 1], parts[n - 1], FileKey(parts[n - 1]), DotExt(parts[n - 1]));
    assert parts == parts[..n - 1] + [parts[n - 1]];
  }

  lemma PathSegmentsNoSlash(p: string)
    ensures forall i :: 0 <= i < |PathSegments(p)| ==> '/' !in PathSegments(p)[i]
  {
    var parts := Split(p, '/');
    var n := |parts|;
    var segs := PathSegments(p);
    var last := parts[n - 1];
    FileKeyDotExt(last);
    NotInPrefix(last, |FileKey(last)|, '/');
    assert segs[n - 1] == last[..|FileKey(last)|];
    forall i | 0 <= i < |segs| ensures '/' !in segs[i] {
      if i < n - 1 {
        assert segs[i] == parts[i];
      }
    }
  }

  /** A character missing from a string is missing from each of its prefixes. */
  lemma NotInPrefix(s: string, m: nat, c: char)
    requires m <= |s| && c !in s
    ensures c !in s[..m]
  {
  }

  /** Cutting a suffix off the last piece cuts it off the join. */
  lemma {:induction false} JoinLast(init: seq<string>, last: string, key: string, ext: string)
    requires key + ext == last
    ensures Join(init + [key], "/") + ext == Join(init + [last], "/")
    decreases |init|
  {
    if init == [] {
      assert [key] == init + [key] && [last] == init + [last];
    } else {
      JoinLast(init[1..], last, key, ext);
      assert (init + [key])[1..] == init[1..] + [key];
      assert (init + [last])[1..] == init[1..] + [last];
    }
  }

  // ---- the CLI walk (src/cli.ts) ----

  /** `inputDir` with every `\` turned into `/` and all trailing `/` removed. */
  function NormalizePrefix(inputDir: string): (r: string)
    ensures '\\' !in r
    ensures r == [] || r[|r| - 1] != '/'
    ensures r == TrimEnd(ReplaceAll(inputDir, '\\', "/"), '/')
  {
    var slashed := ReplaceAll(inputDir, '\\', "/");
    var r := TrimEnd(slashed, '/');
    assert forall c :: c in r ==> c in slashed;
    r
  }

  /** `${normalizedPrefix}/${relFromRoot}` */
  function PathWithRoot(inputDir: string, relFromRoot: string): string {
    NormalizePrefix(inputDir) + "/" + relFromRoot
  }

  /** Keep only what follows the first `assets` segment, when there is one. */
  function AnchorTrim(segs: seq<string>): (r: seq<string>)
    ensures "assets" !in segs ==> r == segs
    ensures "assets" in segs ==>
              exists i :: 0 <= i < |segs| && segs[i] == "assets" && "assets" !in segs[..i] && r == segs[i + 1..]
  {
    var i := IndexOf(segs, "assets");
    if i >= 0 then segs[i + 1..] else segs
  }

  /** The keys the CLI files an entry under, given the input directory and the walked path relative to it. */
  function CliSegments(inputDir: string, relFromRoot: string): seq<string> {
    AnchorTrim(PathSegments(PathWithRoot(inputDir, relFromRoot)))
  }

  /** What the walk records for one file: its keys and its metadata, built from `pathWithRoot`. */
  function CliEntry(lookup: Mime.MimeLookup, inputDir: string, relFromRoot: string): (entry: (seq<string>, JsVal))
    ensures entry.0 == CliSegments(inputDir, relFromRoot)
    ensures entry.1 == Mime.BuildMeta(lookup, PathWithRoot(inputDir, relFromRoot))
    ensures entry.1.Obj? && Get(entry.1.entries, "path") == Some(Str(PathWithRoot(inputDir, relFromRoot)))
    ensures Get(entry.1.entries, "ext") == Some(Str(ToLower(Mime.ExtName(PathWithRoot(inputDir, relFromRoot)))))
  {
    Mime.BuildMetaFields(lookup, PathWithRoot(inputDir, relFromRoot));
    (CliSegments(inputDir, relFromRoot), Mime.BuildMeta(lookup, PathWithRoot(inputDir, relFromRoot)))
  }

  /**
    Before the anchor trim, the CLI's segments are the path with root cut at
    every `/`, the last piece without its extension.
   */
  lemma CliSegmentsUntrimmed(inputDir: string, relFromRoot: string)
    ensures var p := NormalizePrefix(inputDir) + "/" + relFromRoot;
            Join(PathSegments(p), "/") + LastExt(p) == p &&
            |PathSegments(p)| == |Split(p, '/')| &&
            CliSegments(inputDir, relFromRoot) == AnchorTrim(PathSegments(p))
  {
    PathSegmentsRoundTrip(PathWithRoot(inputDir, relFromRoot));
  }

  /** The worked example: `src/assets` and `sound/beep.mp3` give `['sound', 'beep']`. */
  lemma CliSegmentsExample()
    ensures CliSegments("src/assets", "sound/beep.mp3") == ["sound", "beep"]
  {
    ExamplePath();
    ExampleSplit();
    ExampleAnchor(PathSegments(PathWithRoot("src/assets", "sound/beep.mp3")));
  }

  lemma ExampleAnchor(segs: seq<string>)
    requires segs == ["src", "assets", "sound", "beep"]
    ensures AnchorTrim(segs) == ["sound", "beep"]
  {
    assert IndexOf(segs, "assets") == 1;
  }

  lemma ExamplePath()
    ensures PathWithRoot("src/assets", "sound/beep.mp3") == "src/assets/sound/beep.mp3"
  {
    ExampleNormalize();
    ConcatExample(NormalizePrefix("src/assets"), "sound/beep.mp3");
  }

  lemma ConcatExample(d: string, rel: string)
    requires d == "src/assets" && rel == "sound/beep.mp3"
    ensures d + "/" + rel == "src/assets/sound/beep.mp3"
  {
  }

  lemma ExampleNormalize()
    ensures NormalizePrefix("src/assets") == "src/assets"
  {
    ExampleNoBackslash();
    ExampleNoTrailingSlash();
  }

  lemma ExampleNoBackslash()
    ensures ReplaceAll("src/assets", '\\', "/") == "src/assets"
  {
    assert '\\' !in "src/assets";
  }

  lemma ExampleNoTrailingSlash()
    ensures TrimEnd("src/assets", '/') == "src/assets"
  {
    var d := "src/assets";
    assert d[|d| - 1] == 's';
  }

  lemma ExampleSplit()
    ensures PathSegments("src/assets/sound/beep.mp3") == ["src", "assets", "sound", "beep"]
  {
    var parts := ["src", "assets", "sound", "beep.mp3"];
    ExampleJoin();
    SplitJoin(parts, '/');
    ExampleFileKey();
  }

  lemma ExampleJoin()
    ensures Join(["src", "assets", "sound", "beep.mp3"], "/") == "src/assets/sound/beep.mp3"
  {
    var parts := ["src", "assets", "sound", "beep.mp3"];
    assert parts[1..][1..][1..] == ["beep.mp3"];
    assert Join(parts[1..][1..], "/") == "sound/beep.mp3";
    assert Join(parts[1..], "/") == "assets/sound/beep.mp3";
  }

  lemma ExampleFileKey()
    ensures FileKey("beep.mp3") == "beep"
  {
    assert LastIndexOf("beep.mp3", '.') == 4;
  }

  /** A leading-dot name with no other dot gets the empty key and is all extension. */
  lemma DotFileKey()
    ensures FileKey(".env") == "" && DotExt(".env") == ".env"
  {
    assert LastIndexOf(".env", '.') == 0;
  }

  // ---- the runtime (src/runtime.ts) ----

  /** The glob key with a non-empty matching `baseDir` prefix removed, then all leading `/`. */
  function StripBase(filePath: string, baseDir: string): (rel: string)
    ensures rel == [] || rel[0] != '/'
    ensures |rel| <= |filePath| && filePath[|filePath| - |rel|..] == rel
    ensures baseDir != "" && StartsWith(filePath, baseDir) ==> rel == TrimStart(filePath[|baseDir|..], '/')
    ensures !(baseDir != "" && StartsWith(filePath, baseDir)) ==> rel == TrimStart(filePath, '/')
  {
    var cut := if baseDir != "" && StartsWith(filePath, baseDir) then filePath[|baseDir|..] else filePath;
    var rel := TrimStart(cut, '/');
    assert filePath[|filePath| - |rel|..] == cut[|cut| - |rel|..];
    rel
  }

  /** The runtime's keys for a glob key. */
  function RuntimeSegments(filePath: string, baseDir: string): seq<string> {
    PathSegments(StripBase(filePath, baseDir))
  }

  /** The runtime's extension for a glob key: from the last dot of the last piece, case kept. */
  function RuntimeExt(filePath: string, baseDir: string): string {
    LastExt(StripBase(filePath, baseDir))
  }

  /**
    The runtime's segments joined by `/`, followed by the extension, give
    the key without its base and leading slashes; the extension is empty or
    starts with its only dot.
   */
  lemma RuntimeSegmentsRoundTrip(filePath: string, baseDir: string)
    ensures Join(RuntimeSegments(filePath, baseDir), "/") + RuntimeExt(filePath, baseDir) == StripBase(filePath, baseDir)
    ensures var ext := RuntimeExt(filePath, baseDir); ext == "" || (ext[0] == '.' && '.' !in ext[1..])
    ensures RuntimeSegments(filePath, baseDir) != []
  {
    var rel := StripBase(filePath, baseDir);
    PathSegmentsRoundTrip(rel);
    var parts := Split(rel, '/');
    FileKeyDotExt(parts[|parts| - 1]);
  }
}
