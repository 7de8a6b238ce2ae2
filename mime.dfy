/**
  Meta inference: extension to MIME type to coarse asset type
  (src/utils.ts and src/node-utils.ts), and the metadata record a leaf of
  the catalogue holds.
 */
module Mime {
  import opened Js
  import opened Strings

  /** The seven asset types. */
  datatype AssetType = Image | Audio | Video | Font | Application | Text | Other {
    /** The tag as it is written in a metadata record. */
    function Tag(): (t: string)
      ensures t in AllTags()
    {
      match this
      case Image => "image"
      case Audio => "audio"
      case Video => "video"
      case Font => "font"
      case Application => "application"
      case Text => "text"
      case Other => "other"
    }
  }

  function AllTags(): set<string> {
    {"image", "audio", "video", "font", "application", "text", "other"}
  }

  /** The six MIME major types that name an asset type of their own. */
  function MajorTags(): set<string> {
    {"image", "audio", "video", "font", "application", "text"}
  }

  const OctetStream: string := "application/octet-stream"

  /** `COMMON_MIME_TYPES`: the static table, keyed by lower-case dotted extension. */
  const CommonMimeTypes: map<string, string> := map[
    ".jpg" := "image/jpeg",
    ".jpeg" := "image/jpeg",
    ".png" := "image/png",
    ".gif" := "image/gif",
    ".webp" := "image/webp",
    ".svg" := "image/svg+xml",
    ".ico" := "image/x-icon",
    ".bmp" := "image/bmp",
    ".mp3" := "audio/mpeg",
    ".wav" := "audio/wav",
    ".ogg" := "audio/ogg",
    ".m4a" := "audio/mp4",
    ".flac" := "audio/flac",
    ".mp4" := "video/mp4",
    ".webm" := "video/webm",
    ".ogv" := "video/ogg",
    ".mov" := "video/quicktime",
    ".avi" := "video/x-msvideo",
    ".woff" := "font/woff",
    ".woff2" := "font/woff2",
    ".ttf" := "font/ttf",
    ".otf" := "font/otf",
    ".eot" := "application/vnd.ms-fontobject",
    ".json" := "application/json",
    ".txt" := "text/plain",
    ".xml" := "application/xml",
    ".html" := "text/html",
    ".css" := "text/css",
    ".js" := "application/javascript",
    ".ts" := "application/typescript"
  ]

  /** `getMimeType(ext)`: the table entry for the lower-cased extension, else the octet-stream default. */
  function GetMimeType(ext: string): (m: string)
    ensures ToLower(ext) in CommonMimeTypes ==> m == CommonMimeTypes[ToLower(ext)]
    ensures ToLower(ext) !in CommonMimeTypes ==> m == OctetStream
  {
    var key := ToLower(ext);
    if key in CommonMimeTypes && CommonMimeTypes[key] != "" then CommonMimeTypes[key] else OctetStream
  }

  /** Case never matters to `getMimeType`, and it never yields an empty string. */
  lemma GetMimeTypeCaseInsensitive(ext: string)
    ensures GetMimeType(ext) == GetMimeType(ToLower(ext))
    ensures GetMimeType(ext) != ""
  {
    ToLowerIdempotent(ext);
  }

  const ImageExts: seq<string> := [".jpg", ".jpeg", ".png", ".gif", ".webp", ".svg", ".ico", ".bmp"]
  const AudioExts: seq<string> := [".mp3", ".wav", ".ogg", ".m4a", ".flac"]
  const VideoExts: seq<string> := [".mp4", ".webm", ".ogv", ".mov", ".avi"]
  const FontExts: seq<string> := [".woff", ".woff2", ".ttf", ".otf", ".eot"]
  const TextExts: seq<string> := [".json", ".xml", ".txt"]

  /** `guessAssetType(ext)`: the first list holding the lower-cased extension decides. */
  function GuessAssetType(ext: string): AssetType {
    var e := ToLower(ext);
    if e in ImageExts then Image
    else if e in AudioExts then Audio
    else if e in VideoExts then Video
    else if e in FontExts then Font
    else if e in TextExts then Text
    else Other
  }

  /** `guessAssetType` ignores case and never answers `application`. */
  lemma GuessAssetTypeCaseInsensitive(ext: string)
    ensures GuessAssetType(ext) == GuessAssetType(ToLower(ext))
    ensures GuessAssetType(ext) != Application
  {
    ToLowerIdempotent(ext);
  }

  /**
    `guessAssetType` answers each media type exactly for that type's
    extension list (the lists do not overlap), `text` exactly for `.json`,
    `.xml` and `.txt`, and `other` for every extension in no list.
   */
  lemma GuessAssetTypeClassifies(ext: string)
    ensures GuessAssetType(ext) == Image <==> ToLower(ext) in ImageExts
    ensures GuessAssetType(ext) == Audio <==> ToLower(ext) in AudioExts
    ensures GuessAssetType(ext) == Video <==> ToLower(ext) in VideoExts
    ensures GuessAssetType(ext) == Font <==> ToLower(ext) in FontExts
    ensures GuessAssetType(ext) == Text <==> ToLower(ext) in TextExts
    ensures GuessAssetType(ext) == Other <==>
              ToLower(ext) !in ImageExts + AudioExts + VideoExts + FontExts + TextExts
  {
    ListsDisjoint();
  }

  /** No extension sits in two of the lists. */
  lemma ListsDisjoint()
    ensures forall x :: x in AudioExts ==> x !in ImageExts
    ensures forall x :: x in VideoExts ==> x !in ImageExts + AudioExts
    ensures forall x :: x in FontExts ==> x !in ImageExts + AudioExts + VideoExts
    ensures forall x :: x in TextExts ==> x !in ImageExts + AudioExts + VideoExts + FontExts
  {
  }

  /** `mimeType.split('/')[0]`: the text before the first `/`, or all of it. */
  function MajorType(mime: string): (major: string)
    ensures major == Split(mime, '/')[0]
    ensures '/' !in major && |major| <= |mime| && mime[..|major|] == major
    ensures |major| < |mime| ==> mime[|major|] == '/'
  {
    var i := IndexOf(mime, '/');
    var major := if i == -1 then mime else mime[..i];
    FirstPiece(mime, '/');
    major
  }

  /** The first piece of a split is everything before the first separator. */
  lemma {:induction false} FirstPiece(s: string, sep: char)
    ensures var i := IndexOf(s, sep); Split(s, sep)[0] == if i == -1 then s else s[..i]
  {
    if s != [] {
      FirstPiece(s[1..], sep);
      var i := IndexOf(s[1..], sep);
      if s[0] != sep {
        assert IndexOf(s, sep) == if i == -1 then -1 else i + 1;
        if i == -1 { assert s == [s[0]] + s[1..]; } else { assert s[..i + 1] == [s[0]] + s[1..][..i]; }
      }
    }
  }

  /** The coarse type of a MIME major type: itself when it is one of the six named majors. */
  function TypeOfMajor(major: string): (t: AssetType)
    ensures major in MajorTags() ==> t.Tag() == major
    ensures major !in MajorTags() ==> t == Other
  {
    match major
    case "image" => Image
    case "audio" => Audio
    case "video" => Video
    case "font" => Font
    case "application" => Application
    case "text" => Text
    case _ => Other
  }

  /**
    An `AssetMeta` record, `{ type, ext, mime, path }` in that key order, as
    the plain object the trees hold.
   */
  function MetaRecord(t: AssetType, ext: string, mime: string, path: string): JsVal {
    Obj([("type", Str(t.Tag())), ("ext", Str(ext)), ("mime", Str(mime)), ("path", Str(path))])
  }

  /** Each of the four keys of a metadata record reads back the field it was built from. */
  lemma MetaRecordFields(t: AssetType, ext: string, mime: string, path: string)
    ensures var r := MetaRecord(t, ext, mime, path);
            && r.Obj? && |r.entries| == 4
            && Get(r.entries, "type") == Some(Str(t.Tag()))
            && Get(r.entries, "ext") == Some(Str(ext))
            && Get(r.entries, "mime") == Some(Str(mime))
            && Get(r.entries, "path") == Some(Str(path))
  {
    var e := MetaRecord(t, ext, mime, path).entries;
    RecordKeyAt(e, "type", "ext", "mime", "path", 0);
    RecordKeyAt(e, "type", "ext", "mime", "path", 1);
    RecordKeyAt(e, "type", "ext", "mime", "path", 2);
    RecordKeyAt(e, "type", "ext", "mime", "path", 3);
  }

  /** In four entries with four distinct keys, key `a` is found at `a`. */
  lemma RecordKeyAt(e: Entries, k0: string, k1: string, k2: string, k3: string, a: nat)
    requires |e| == 4 && e[0].0 == k0 && e[1].0 == k1 && e[2].0 == k2 && e[3].0 == k3
    requires k0 != k1 && k0 != k2 && k0 != k3 && k1 != k2 && k1 != k3 && k2 != k3
    requires a < 4
    ensures KeyIndex(e, e[a].0) == a
  {
    KeyIndexIs(e, e[a].0, a);
  }

  /** A metadata record has the four keys in order, distinct, and holds only strings. */
  lemma MetaRecordShape(t: AssetType, ext: string, mime: string, path: string)
    ensures var r := MetaRecord(t, ext, mime, path);
            Keys(r.entries) == ["type", "ext", "mime", "path"] && WellFormed(r) && ArrayFree(r)
  {
    var r := MetaRecord(t, ext, mime, path);
    assert Keys(r.entries) == ["type", "ext", "mime", "path"];
  }

  /**
    `path.extname(p)` on POSIX: the suffix of the last path component from
    its last dot, or `''` when that component has no dot or only a leading one.
   */
  function ExtName(p: string): (ext: string)
    ensures ext == [] || (ext[0] == '.' && '.' !in ext[1..] && '/' !in ext)
    ensures |ext| <= |p| && p[|p| - |ext|..] == ext
  {
    var base := BaseName(p);
    var ext := BaseExt(base);
    SuffixOfSuffix(p, base, ext);
    ext
  }

  /**
    `path.extname` finds an extension exactly when the last path component
    has a dot after its first character; with the suffix and single-dot
    clauses of `ExtName`, that makes it the text from the last such dot.
   */
  lemma ExtNameFromLastDot(p: string)
    ensures ExtName(p) != [] <==> exists i :: 0 < i < |BaseName(p)| && BaseName(p)[i] == '.'
    ensures ExtName(p) != [] ==> |ExtName(p)| < |BaseName(p)| && BaseName(p)[|BaseName(p)| - |ExtName(p)|..] == ExtName(p)
  {
    var base := BaseName(p);
    var ext := BaseExt(base);
    assert ExtName(p) == ext;
    if ext != [] {
      var i :| 0 < i < |base| && base[i] == '.';
      assert ext == base[|base| - |ext|..];
    }
  }

  /** The extension of one path component: from its last dot, unless that dot is its first character. */
  function BaseExt(base: string): (ext: string)
    ensures ext == [] || (ext[0] == '.' && '.' !in ext[1..])
    ensures |ext| <= |base| && base[|base| - |ext|..] == ext
    ensures ext != [] <==> exists i :: 0 < i < |base| && base[i] == '.'
  {
    var dot := LastIndexOf(base, '.');
    if dot <= 0 then
      NoInnerDot(base, dot);
      ""
    else
      assert base[dot..][1..] == base[dot + 1..];
      base[dot..]
  }

  /** No dot after position 0 when the last dot is at 0 or absent. */
  lemma NoInnerDot(base: string, dot: int)
    requires dot == LastIndexOf(base, '.') && dot <= 0
    ensures !exists i :: 0 < i < |base| && base[i] == '.'
  {
    forall i | 0 < i < |base|
      ensures base[i] != '.'
    {
      assert base[i] == base[dot + 1..][i - dot - 1];
    }
  }

  /** A suffix of a suffix of `p` is a suffix of `p`, and holds no character its container lacks. */
  lemma SuffixOfSuffix(p: string, base: string, ext: string)
    requires |base| <= |p| && p[|p| - |base|..] == base
    requires |ext| <= |base| && base[|base| - |ext|..] == ext
    ensures |ext| <= |p| && p[|p| - |ext|..] == ext
    ensures forall c :: c in ext ==> c in base
  {
    assert p[|p| - |ext|..] == p[|p| - |base|..][|base| - |ext|..];
    forall c | c in ext
      ensures c in base
    {
      var j :| 0 <= j < |ext| && ext[j] == c;
      assert base[|base| - |ext| + j] == c;
    }
  }

  /** The last `/`-separated component of a path (`path.basename` without a suffix). */
  function BaseName(p: string): (base: string)
    ensures '/' !in base
    ensures |base| <= |p| && p[|p| - |base|..] == base
  {
    JoinSplitSuffix(p, '/');
    Split(p, '/')[|Split(p, '/')| - 1]
  }

  /** The last piece of a split is a suffix of the string. */
  lemma {:induction false} JoinSplitSuffix(s: string, sep: char)
    ensures var parts := Split(s, sep); var last := parts[|parts| - 1];
            |last| <= |s| && s[|s| - |last|..] == last
  {
    if s != [] {
      JoinSplitSuffix(s[1..], sep);
      var rest := Split(s[1..], sep);
      if s[0] != sep && |rest| == 1 {
        JoinSplit(s[1..], sep);
        assert s == [s[0]] + s[1..];
      }
    }
  }

  /**
    `mime.lookup` of the `mime-types` library, which cannot be seen here: any
    function from a path to a MIME type or `false` (`None`).
   */
  type MimeLookup = string -> Option<string>

  /** JavaScript's `lookup(p) || fallback`: a failed or empty lookup gives the fallback. */
  function LookupOr(lookup: MimeLookup, p: string, fallback: string): (m: string)
    ensures m == if lookup(p).Some? && lookup(p).value != "" then lookup(p).value else fallback
  {
    match lookup(p)
    case Some(m) => if m != "" then m else fallback
    case None => fallback
  }

  /**
    `buildMeta` of src/node-utils.ts (the one the CLI uses): the library
    lookup or the octet-stream default, with no table fallback.
   */
  function BuildMeta(lookup: MimeLookup, pathWithRoot: string): JsVal {
    var ext := ToLower(ExtName(pathWithRoot));
    var mime := LookupOr(lookup, pathWithRoot, OctetStream);
    MetaRecord(TypeOfMajor(MajorType(mime)), ext, mime, pathWithRoot)
  }

  /**
    `buildMeta` of src/utils.ts: the library lookup, else the static table
    for the extension, else the octet-stream default.
   */
  function BuildMetaWithTable(lookup: MimeLookup, pathWithRoot: string): JsVal {
    var ext := ToLower(ExtName(pathWithRoot));
    var mime := LookupOr(lookup, pathWithRoot, GetMimeType(ext));
    MetaRecord(TypeOfMajor(MajorType(mime)), ext, mime, pathWithRoot)
  }

  /**
    What `buildMeta` (src/node-utils.ts) produces: a type that is always one of
    the seven tags and is the MIME major type when that is one of the six
    named majors, `other` otherwise; the looked-up MIME type or the default;
    the lower-cased extension; the input path unchanged.
   */
  lemma BuildMetaFields(lookup: MimeLookup, p: string)
    ensures Get(BuildMeta(lookup, p).entries, "mime") ==
              Some(Str(if lookup(p).Some? && lookup(p).value != "" then lookup(p).value else OctetStream))
    ensures var major := Split(LookupOr(lookup, p, OctetStream), '/')[0];
            && Get(BuildMeta(lookup, p).entries, "type").Some?
            && Get(BuildMeta(lookup, p).entries, "type").value.s in AllTags()
            && (major in MajorTags() ==> Get(BuildMeta(lookup, p).entries, "type") == Some(Str(major)))
            && (major !in MajorTags() ==> Get(BuildMeta(lookup, p).entries, "type") == Some(Str("other")))
    ensures Get(BuildMeta(lookup, p).entries, "ext") == Some(Str(ToLower(ExtName(p))))
    ensures Get(BuildMeta(lookup, p).entries, "path") == Some(Str(p))
  {
    BuildMetaRecord(lookup, p);
    BuildMetaType(lookup, p);
  }

  /** The `mime`, `ext` and `path` fields of `buildMeta`'s record. */
  lemma BuildMetaRecord(lookup: MimeLookup, p: string)
    ensures Get(BuildMeta(lookup, p).entries, "mime") == Some(Str(LookupOr(lookup, p, OctetStream)))
    ensures Get(BuildMeta(lookup, p).entries, "ext") == Some(Str(ToLower(ExtName(p))))
    ensures Get(BuildMeta(lookup, p).entries, "path") == Some(Str(p))
  {
    var mime := LookupOr(lookup, p, OctetStream);
    MetaRecordFields(TypeOfMajor(MajorType(mime)), ToLower(ExtName(p)), mime, p);
  }

  /** The `type` field of `buildMeta`'s record, from the major type of its MIME type. */
  lemma BuildMetaType(lookup: MimeLookup, p: string)
    ensures var major := Split(LookupOr(lookup, p, OctetStream), '/')[0];
            && Get(BuildMeta(lookup, p).entries, "type").Some?
            && Get(BuildMeta(lookup, p).entries, "type").value.s in AllTags()
            && (major in MajorTags() ==> Get(BuildMeta(lookup, p).entries, "type") == Some(Str(major)))
            && (major !in MajorTags() ==> Get(BuildMeta(lookup, p).entries, "type") == Some(Str("other")))
  {
    var mime := LookupOr(lookup, p, OctetStream);
    MetaRecordFields(TypeOfMajor(MajorType(mime)), ToLower(ExtName(p)), mime, p);
  }

  /**
    The table variant agrees with the CLI's whenever the library knows the
    path, and otherwise falls back to the table, so an extension the table
    lists never yields the octet-stream default there.
   */
  lemma BuildMetaWithTableFallsBack(lookup: MimeLookup, p: string)
    ensures lookup(p).Some? && lookup(p).value != "" ==> BuildMetaWithTable(lookup, p) == BuildMeta(lookup, p)
    ensures !(lookup(p).Some? && lookup(p).value != "") ==>
              Get(BuildMetaWithTable(lookup, p).entries, "mime") == Some(Str(GetMimeType(ToLower(ExtName(p)))))
    ensures !(lookup(p).Some? && lookup(p).value != "") && ToLower(ExtName(p)) in CommonMimeTypes ==>
              Get(BuildMetaWithTable(lookup, p).entries, "mime") == Some(Str(CommonMimeTypes[ToLower(ExtName(p))]))
  {
    var ext := ToLower(ExtName(p));
    TableMime(lookup, p, ext);
    ToLowerIdempotent(ExtName(p));
  }

  /** The MIME type the table variant records. */
  lemma TableMime(lookup: MimeLookup, p: string, ext: string)
    requires ext == ToLower(ExtName(p))
    ensures Get(BuildMetaWithTable(lookup, p).entries, "mime") == Some(Str(LookupOr(lookup, p, GetMimeType(ext))))
  {
    var mime := LookupOr(lookup, p, GetMimeType(ext));
    MetaRecordFields(TypeOfMajor(MajorType(mime)), ext, mime, p);
  }
}
