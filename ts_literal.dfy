/**
  `toTsLiteral` (src/utils.ts): a JS value rendered as TypeScript source,
  strings single-quoted, keys bare when they are identifiers, and every
  array item or object entry on its own line, two spaces per level.
 */
module TsSource {
  import opened Js
  import opened Strings

  /** `'  '.repeat(n)` */
  function Pad(n: nat): (r: string)
    ensures |r| == 2 * n && forall i :: 0 <= i < |r| ==> r[i] == ' '
  {
    if n == 0 then "" else "  " + Pad(n - 1)
  }

  // ---- string literals ----

  /** The two `replace` calls, backslashes first, then single quotes. */
  function EscapeQuotes(s: string): string {
    ReplaceAll(ReplaceAll(s, '\\', "\\\\"), '\'', "\\'")
  }

  /** One character as it appears inside a single-quoted literal. */
  function EscapeChar(c: char): string {
    if c == '\\' then "\\\\" else if c == '\'' then "\\'" else [c]
  }

  /** Escaping in one left-to-right pass, character by character. */
  function Escape(s: string): (r: string)
    ensures |r| >= |s|
  {
    if s == [] then [] else EscapeChar(s[0]) + Escape(s[1..])
  }

  /**
    Because backslashes are doubled before quotes are escaped, the two
    passes escape each character once: no backslash added for a quote is
    doubled again.
   */
  lemma {:induction false} EscapeQuotesInOnePass(s: string)
    ensures EscapeQuotes(s) == Escape(s)
    decreases |s|
  {
    if s != [] {
      var head := if s[0] == '\\' then "\\\\" else [s[0]];
      assert ReplaceAll(s, '\\', "\\\\") == head + ReplaceAll(s[1..], '\\', "\\\\");
      ReplaceAllConcat(head, ReplaceAll(s[1..], '\\', "\\\\"), '\'', "\\'");
      EscapeQuotesInOnePass(s[1..]);
      if s[0] == '\'' {
        assert ReplaceAll(head, '\'', "\\'") == "\\'" + ReplaceAll([], '\'', "\\'");
      } else {
        assert '\'' !in head;
      }
    }
  }

  /** `'${escaped}'` */
  function Quote(s: string): (r: string)
    ensures |r| >= |s| + 2 && r[0] == '\'' && r[|r| - 1] == '\''
  {
    EscapeQuotesInOnePass(s);
    "'" + EscapeQuotes(s) + "'"
  }

  // ---- keys ----

  /** `[A-Za-z_$]` */
  predicate IsIdentStart(c: char) {
    'A' <= c <= 'Z' || 'a' <= c <= 'z' || c == '_' || c == '$'
  }

  /** `[\w$]`, that is `[A-Za-z0-9_$]` */
  predicate IsIdentPart(c: char) {
    IsIdentStart(c) || '0' <= c <= '9'
  }

  /** `/^[A-Za-z_$][\w$]*$/.test(k)` */
  predicate IsValidId(k: string) {
    k != [] && IsIdentStart(k[0]) && forall i :: 1 <= i < |k| ==> IsIdentPart(k[i])
  }

  /** `isValidId ? k : toTsLiteral(k, 0)` */
  function KeyCode(k: string): string {
    if IsValidId(k) then k else Quote(k)
  }

  /** A key is written bare exactly when it matches the identifier pattern. */
  lemma KeyBareIffIdentifier(k: string)
    ensures KeyCode(k) == k <==> IsValidId(k)
    ensures !IsValidId(k) ==> KeyCode(k) == TsLiteral(Str(k), 0)
  {
  }

  // ---- values ----

  /**
    `toTsLiteral(value, indent)` on the values modelled: `null`, strings,
    integers, booleans, arrays and objects, the last two as `[]`/`{}` when
    empty and otherwise one line per item or entry.
   */
  function TsLiteral(v: JsVal, indent: nat): string
    decreases v, 1
  {
    match v
    case Null => "null"
    case Str(s) => Quote(s)
    case Num(x) => IntToString(x)
    case Bool(b) => if b then "true" else "false"
    case Arr(xs) =>
      if xs == [] then "[]"
      else "[\n" + Join(ArrayLines(xs, indent), ",\n") + "\n" + Pad(indent) + "]"
    case Obj(e) =>
      if e == [] then "{}"
      else "{\n" + Join(ObjectLines(e, indent), ",\n") + "\n" + Pad(indent) + "}"
  }

  /** `value.map((v) => pad(indent + 1) + toTsLiteral(v, indent + 1))` */
  function ArrayLines(xs: seq<JsVal>, indent: nat): (lines: seq<string>)
    ensures |lines| == |xs|
    ensures forall i :: 0 <= i < |xs| ==> lines[i] == Pad(indent + 1) + TsLiteral(xs[i], indent + 1)
    decreases Arr(xs), 0
  {
    seq(|xs|, i requires 0 <= i < |xs| => Pad(indent + 1) + TsLiteral(xs[i], indent + 1))
  }

  /** The lines pushed for the entries, `${pad(indent + 1)}${keyCode}: ${valCode}`. */
  function ObjectLines(e: Entries, indent: nat): (lines: seq<string>)
    ensures |lines| == |e|
    ensures forall i :: 0 <= i < |e| ==>
              lines[i] == Pad(indent + 1) + KeyCode(e[i].0) + ": " + TsLiteral(e[i].1, indent + 1)
    decreases Obj(e), 0
  {
    seq(|e|, i requires 0 <= i < |e| => Pad(indent + 1) + KeyCode(e[i].0) + ": " + TsLiteral(e[i].1, indent + 1))
  }

  /**
    `toTsLiteral` as the source computes it: scalars directly, arrays and
    objects from their lines, each value in them rendered by a recursive
    call one level deeper.
   */
  method ToTsLiteral(value: JsVal, indent: nat) returns (code: string)
    ensures code == TsLiteral(value, indent)
    decreases value, 1
  {
    match value {
      case Null =>
        code := "null";
      case Str(s) =>
        var escaped := ReplaceAll(ReplaceAll(s, '\\', "\\\\"), '\'', "\\'");
        code := "'" + escaped + "'";
      case Num(x) =>
        code := IntToString(x);
      case Bool(b) =>
        code := if b then "true" else "false";
      case Arr(xs) =>
        if |xs| == 0 {
          return "[]";
        }
        var items := RenderItems(xs, indent);
        code := "[\n" + Join(items, ",\n") + "\n" + Pad(indent) + "]";
      case Obj(entries) =>
        if |entries| == 0 {
          return "{}";
        }
        var lines := RenderEntries(entries, indent);
        code := "{\n" + Join(lines, ",\n") + "\n" + Pad(indent) + "}";
    }
  }

  /** The `value.map(...)` over an array's items, in order. */
  method RenderItems(xs: seq<JsVal>, indent: nat) returns (items: seq<string>)
    ensures items == ArrayLines(xs, indent)
    decreases Arr(xs), 0
  {
    items := [];
    var i := 0;
    while i < |xs|
      invariant 0 <= i <= |xs|
      invariant items == ArrayLines(xs, indent)[..i]
    {
      var itemCode := ToTsLiteral(xs[i], indent + 1);
      items := items + [Pad(indent + 1) + itemCode];
      i := i + 1;
    }
  }

  /** The `for (const [k, v] of entries)` loop pushing one line per entry. */
  method RenderEntries(entries: Entries, indent: nat) returns (lines: seq<string>)
    ensures lines == ObjectLines(entries, indent)
    decreases Obj(entries), 0
  {
    lines := [];
    var i := 0;
    while i < |entries|
      invariant 0 <= i <= |entries|
      invariant lines == ObjectLines(entries, indent)[..i]
    {
      var (k, v) := entries[i];
      // the quoted form of a key is `toTsLiteral(k, 0)`, a string literal
      var keyCode := if IsValidId(k) then k else Quote(k);
      var valCode := ToTsLiteral(v, indent + 1);
      lines := lines + [Pad(indent + 1) + keyCode + ": " + valCode];
      i := i + 1;
    }
  }
}
