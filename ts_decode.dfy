/**
  Reading back what `toTsLiteral` (src/utils.ts) writes. The decoder knows
  the layout, indentation included, and the round-trip lemmas show that it
  recovers every value from its rendering: nothing is lost or merged in
  the output, in particular not the order of items and entries, nor any
  key or string.
 */
module TsDecode {
  import opened Js
  import opened Strings
  import opened TsSource

  /** The longest prefix of `t` made of decimal digits. */
  function DigitRun(t: string): (d: string)
    ensures |d| <= |t| && d == t[..|d|]
    ensures forall i :: 0 <= i < |d| ==> '0' <= d[i] <= '9'
    ensures |d| < |t| ==> !('0' <= t[|d|] <= '9')
  {
    if t != [] && '0' <= t[0] <= '9' then [t[0]] + DigitRun(t[1..]) else []
  }

  /** The longest prefix of `t` made of identifier characters. */
  function IdentRun(t: string): (k: string)
    ensures |k| <= |t|
  {
    if t != [] && IsIdentPart(t[0]) then [t[0]] + IdentRun(t[1..]) else []
  }

  /** What follows `p` at the front of `t`, if `t` starts with `p`. */
  function Expect(t: string, p: string): (r: Option<string>)
    ensures r.Some? <==> |p| <= |t| && t[..|p|] == p
    ensures r.Some? ==> r.value == t[|p|..]
  {
    if |p| <= |t| && t[..|p|] == p then Some(t[|p|..]) else None
  }

  /**
    The inside of a single-quoted literal, read after its opening quote: a
    backslash takes the next character as it is, and the first quote not so
    taken closes the literal. Gives the text and what follows the quote.
   */
  function ReadQuoted(t: string): (r: Option<(string, string)>)
    ensures r.Some? ==> |r.value.1| < |t|
    decreases |t|
  {
    if t == [] then None
    else if t[0] == '\'' then Some(([], t[1..]))
    else if t[0] == '\\' then
      if |t| < 2 then None
      else match ReadQuoted(t[2..])
        case None => None
        case Some((s, rest)) => Some(([t[1]] + s, rest))
    else match ReadQuoted(t[1..])
      case None => None
      case Some((s, rest)) => Some(([t[0]] + s, rest))
  }

  /** A key: a quoted literal, or a bare identifier. */
  function ParseKey(t: string): (r: Option<(string, string)>)
    ensures r.Some? ==> |r.value.1| < |t|
  {
    if t != [] && t[0] == '\'' then ReadQuoted(t[1..])
    else
      var k := IdentRun(t);
      if IsValidId(k) then Some((k, t[|k|..])) else None
  }

  /** One value written at `indent`, and what follows it. */
  function ParseValue(t: string, indent: nat): (r: Option<(JsVal, string)>)
    ensures r.Some? ==> |r.value.1| < |t|
    decreases |t|, 1
  {
    if t == [] then None
    else if t[0] == '[' then ParseArray(t, indent)
    else if t[0] == '{' then ParseObject(t, indent)
    else ParseScalar(t)
  }

  /** `null`, `true`, `false`, a string literal or an integer. */
  function ParseScalar(t: string): (r: Option<(JsVal, string)>)
    ensures r.Some? ==> |r.value.1| < |t|
  {
    if t == [] then None
    else if t[0] == '\'' then
      match ReadQuoted(t[1..]) case None => None case Some((s, rest)) => Some((Str(s), rest))
    else if t[0] == '-' || '0' <= t[0] <= '9' then ParseNumber(t)
    else ParseWord(t)
  }

  /** `null`, `true` or `false`. */
  function ParseWord(t: string): (r: Option<(JsVal, string)>)
    ensures r.Some? ==> |r.value.1| < |t|
  {
    match Expect(t, "null")
    case Some(rest) => Some((Null, rest))
    case None =>
      match Expect(t, "true")
      case Some(rest) => Some((Bool(true), rest))
      case None =>
        match Expect(t, "false")
        case Some(rest) => Some((Bool(false), rest))
        case None => None
  }

  /** An optional `-` and then the longest run of digits, which must not be empty. */
  function ParseNumber(t: string): (r: Option<(JsVal, string)>)
    ensures r.Some? ==> |r.value.1| < |t|
  {
    if t != [] && t[0] == '-' then
      var d := DigitRun(t[1..]);
      if d == [] then None else Some((Num(-(DigitsValue(d) as int)), t[1 + |d|..]))
    else
      var d := DigitRun(t);
      if d == [] then None else Some((Num(DigitsValue(d)), t[|d|..]))
  }

  /** `[]`, or `[`, a line break, the items one level deeper, a line break and `]` at `indent`. */
  function ParseArray(t: string, indent: nat): (r: Option<(JsVal, string)>)
    ensures r.Some? ==> |r.value.1| < |t|
    decreases |t|, 0
  {
    if |t| < 2 || t[0] != '[' then None
    else if t[1] == ']' then Some((Arr([]), t[2..]))
    else if t[1] != '\n' then None
    else match ParseItems(t[2..], indent + 1)
      case None => None
      case Some((xs, rest)) =>
        match Expect(rest, "\n" + Pad(indent) + "]")
        case None => None
        case Some(after) => Some((Arr(xs), after))
  }

  /** `{}`, or `{`, a line break, the entries one level deeper, a line break and `}` at `indent`. */
  function ParseObject(t: string, indent: nat): (r: Option<(JsVal, string)>)
    ensures r.Some? ==> |r.value.1| < |t|
    decreases |t|, 0
  {
    if |t| < 2 || t[0] != '{' then None
    else if t[1] == '}' then Some((Obj([]), t[2..]))
    else if t[1] != '\n' then None
    else match ParseEntries(t[2..], indent + 1)
      case None => None
      case Some((e, rest)) =>
        match Expect(rest, "\n" + Pad(indent) + "}")
        case None => None
        case Some(after) => Some((Obj(e), after))
  }

  /** Items at `indent`, each on its own indented line, separated by `,\n`. */
  function ParseItems(t: string, indent: nat): (r: Option<(seq<JsVal>, string)>)
    ensures r.Some? ==> |r.value.1| < |t|
    decreases |t|, 2
  {
    match Expect(t, Pad(indent))
    case None => None
    case Some(u) =>
      match ParseValue(u, indent)
      case None => None
      case Some((x, r)) =>
        if |r| >= 2 && r[0] == ',' && r[1] == '\n' then
          match ParseItems(r[2..], indent)
          case None => None
          case Some((xs, rest)) => Some(([x] + xs, rest))
        else Some(([x], r))
  }

  /** One entry line at `indent`: the padding, a key, `: ` and a value. */
  function ParseEntry(t: string, indent: nat): (r: Option<((string, JsVal), string)>)
    ensures r.Some? ==> |r.value.1| < |t|
    decreases |t|, 2
  {
    match Expect(t, Pad(indent))
    case None => None
    case Some(u) =>
      match ParseKey(u)
      case None => None
      case Some((k, u')) =>
        match Expect(u', ": ")
        case None => None
        case Some(w) =>
          match ParseValue(w, indent)
          case None => None
          case Some((x, r)) => Some(((k, x), r))
  }

  /** Entry lines at `indent`, separated by `,\n`. */
  function ParseEntries(t: string, indent: nat): (r: Option<(Entries, string)>)
    ensures r.Some? ==> |r.value.1| < |t|
    decreases |t|, 3
  {
    match ParseEntry(t, indent)
    case None => None
    case Some((kv, r)) =>
      if |r| >= 2 && r[0] == ',' && r[1] == '\n' then
        match ParseEntries(r[2..], indent)
        case None => None
        case Some((e, rest)) => Some(([kv] + e, rest))
      else Some(([kv], r))
  }

  /** A whole literal written at indent 0. */
  function Decode(t: string): Option<JsVal> {
    match ParseValue(t, 0)
    case Some((v, rest)) => if rest == [] then Some(v) else None
    case None => None
  }

  // ---- the round trip ----

  /** What may follow a value in the output: nothing, a `,` or a line break. */
  predicate Follows(rest: string) {
    rest == [] || rest[0] == ',' || rest[0] == '\n'
  }

  lemma ExpectPrefix(p: string, rest: string)
    ensures Expect(p + rest, p) == Some(rest)
  {
    assert (p + rest)[..|p|] == p;
    assert (p + rest)[|p|..] == rest;
  }

  /** The quoted text is read back, up to the closing quote. */
  lemma {:induction false} ReadEscaped(s: string, rest: string)
    ensures ReadQuoted(Escape(s) + "'" + rest) == Some((s, rest))
    decreases |s|
  {
    var t := Escape(s) + "'" + rest;
    if s == [] {
      assert t == "'" + rest;
    } else {
      ReadEscaped(s[1..], rest);
      var tail := Escape(s[1..]) + "'" + rest;
      assert t == EscapeChar(s[0]) + tail;
      if s[0] == '\\' || s[0] == '\'' {
        assert t[0] == '\\' && t[1] == s[0] && t[2..] == tail;
      } else {
        assert t[0] == s[0] && t[1..] == tail;
      }
      assert [s[0]] + s[1..] == s;
    }
  }

  /** A string literal is read back as the string. */
  lemma StringRoundTrip(s: string, indent: nat, rest: string)
    ensures ParseValue(TsLiteral(Str(s), indent) + rest, indent) == Some((Str(s), rest))
  {
    EscapeQuotesInOnePass(s);
    var t := TsLiteral(Str(s), indent) + rest;
    assert t == "'" + (Escape(s) + "'" + rest);
    ReadEscaped(s, rest);
  }

  /** A run of digits stops where the digits do. */
  lemma {:induction false} DigitRunStops(d: string, rest: string)
    requires forall i :: 0 <= i < |d| ==> '0' <= d[i] <= '9'
    requires rest == [] || !('0' <= rest[0] <= '9')
    ensures DigitRun(d + rest) == d
    decreases |d|
  {
    if d == [] {
      assert d + rest == rest;
    } else {
      assert (d + rest)[1..] == d[1..] + rest;
      DigitRunStops(d[1..], rest);
      assert [d[0]] + d[1..] == d;
    }
  }

  /** A natural number is read back from its digits, which a non-digit ends. */
  lemma NatRoundTrip(m: nat, rest: string)
    requires rest == [] || !('0' <= rest[0] <= '9')
    ensures ParseNumber(NatToString(m) + rest) == Some((Num(m), rest))
  {
    var d := NatToString(m);
    NatToStringValue(m);
    DigitRunStops(d, rest);
    assert (d + rest)[0] == d[0];
    assert (d + rest)[|d|..] == rest;
  }

  /** A negative number is read back from its sign and digits. */
  lemma NegRoundTrip(m: nat, rest: string)
    requires m > 0
    requires rest == [] || !('0' <= rest[0] <= '9')
    ensures ParseNumber("-" + NatToString(m) + rest) == Some((Num(-(m as int)), rest))
  {
    var d := NatToString(m);
    var t := "-" + d + rest;
    Assoc("-", d, rest);
    assert t[0] == '-' && t[1..] == d + rest;
    NatToStringValue(m);
    DigitRunStops(d, rest);
    assert t[1 + |d|..] == (d + rest)[|d|..] == rest;
  }

  /** An integer is read back from its decimal form. */
  lemma NumberRoundTrip(x: int, indent: nat, rest: string)
    requires Follows(rest)
    ensures ParseValue(TsLiteral(Num(x), indent) + rest, indent) == Some((Num(x), rest))
  {
    if x < 0 {
      NegativeRoundTrip(x, indent, rest);
    } else {
      NatToStringValue(x);
      NatRoundTrip(x, rest);
      NumberIsScalar(NatToString(x), rest, indent);
    }
  }

  lemma NegativeRoundTrip(x: int, indent: nat, rest: string)
    requires x < 0 && Follows(rest)
    ensures ParseValue(TsLiteral(Num(x), indent) + rest, indent) == Some((Num(x), rest))
  {
    NegRoundTrip(-x, rest);
    NumberIsScalar("-" + NatToString(-x), rest, indent);
  }

  /** Text that starts with a sign or a digit is read as a number. */
  lemma NumberIsScalar(d: string, rest: string, indent: nat)
    requires d != [] && (d[0] == '-' || '0' <= d[0] <= '9')
    ensures ParseValue(d + rest, indent) == ParseNumber(d + rest)
  {
    assert (d + rest)[0] == d[0];
  }

  /** An identifier key is read back up to the `:` after it. */
  lemma BareKeyRoundTrip(k: string, s: string)
    requires IsValidId(k) && s != [] && s[0] == ':'
    ensures ParseKey(k + s) == Some((k, s))
  {
    var t := k + s;
    assert t[0] == k[0];
    IdentRunStops(k, s);
    assert t[|k|..] == s;
  }

  /** A run of identifier characters stops at the first character that is not one. */
  lemma {:induction false} IdentRunStops(k: string, s: string)
    requires forall i :: 0 <= i < |k| ==> IsIdentPart(k[i])
    requires s == [] || !IsIdentPart(s[0])
    ensures IdentRun(k + s) == k
    decreases |k|
  {
    if k == [] {
      assert k + s == s;
    } else {
      assert (k + s)[1..] == k[1..] + s;
      IdentRunStops(k[1..], s);
      assert [k[0]] + k[1..] == k;
    }
  }

  /** A quoted key is read back up to its closing quote. */
  lemma QuotedKeyRoundTrip(k: string, s: string)
    ensures ParseKey(Quote(k) + s) == Some((k, s))
  {
    EscapeQuotesInOnePass(k);
    assert Quote(k) + s == "'" + (Escape(k) + "'" + s);
    ReadEscaped(k, s);
  }

  /** A key is read back whether it was written bare or quoted. */
  lemma KeyRoundTrip(k: string, s: string)
    requires s != [] && s[0] == ':'
    ensures ParseKey(KeyCode(k) + s) == Some((k, s))
  {
    if IsValidId(k) {
      BareKeyRoundTrip(k, s);
    } else {
      QuotedKeyRoundTrip(k, s);
    }
  }

  /**
    The decoder reads a rendered value back, at any indentation and before
    anything that may follow a value.
   */
  lemma {:induction false} ParseRendered(v: JsVal, indent: nat, rest: string)
    requires Follows(rest)
    ensures ParseValue(TsLiteral(v, indent) + rest, indent) == Some((v, rest))
    decreases v, 2
  {
    match v
    case Null => WordRoundTrip(v, "null", indent, rest);
    case Bool(b) => WordRoundTrip(v, if b then "true" else "false", indent, rest);
    case Str(s) => StringRoundTrip(s, indent, rest);
    case Num(x) => NumberRoundTrip(x, indent, rest);
    case Arr(xs) =>
      if xs == [] {
        assert (TsLiteral(v, indent) + rest)[2..] == rest;
      } else {
        ArrayRoundTrip(xs, indent, rest);
      }
    case Obj(e) =>
      if e == [] {
        assert (TsLiteral(v, indent) + rest)[2..] == rest;
      } else {
        ObjectRoundTrip(e, indent, rest);
      }
  }

  /** What follows line `j` in the rendering: `,\n` and the later lines, or, after the last line, `tail`. */
  function After(lines: seq<string>, j: nat, tail: string): string
    requires j < |lines|
  {
    if j == |lines| - 1 then tail else ",\n" + (Join(lines[j + 1..], ",\n") + tail)
  }

  /** The lines from `i` on, joined, are line `i` and what follows it. */
  lemma JoinFrom(lines: seq<string>, i: nat, tail: string)
    requires i < |lines|
    ensures Join(lines[i..], ",\n") + tail == lines[i] + After(lines, i, tail)
  {
    if i == |lines| - 1 {
      assert lines[i..] == [lines[i]];
    } else {
      assert lines[i..][1..] == lines[i + 1..];
    }
  }

  /** Concatenation regroups. */
  lemma Assoc(a: string, b: string, c: string)
    ensures (a + b) + c == a + (b + c)
  {
  }

  /** `null`, `true` and `false` are read back. */
  lemma WordRoundTrip(v: JsVal, word: string, indent: nat, rest: string)
    requires v == Null || v == Bool(true) || v == Bool(false)
    requires word == TsLiteral(v, indent)
    ensures ParseValue(word + rest, indent) == Some((v, rest))
  {
    ExpectPrefix(word, rest);
    var t := word + rest;
    assert t[0] == word[0];
    if v != Null {
      assert Expect(t, "null") == None by { assert t[0] != 'n'; }
    }
    if v == Bool(false) {
      assert Expect(t, "true") == None by { assert t[0] != 't'; }
    }
  }

  /** A rendered non-empty container: its opening, its joined lines, and its closing line. */
  lemma Layout(open: string, body: string, pad: string, close: string, rest: string)
    ensures open + body + "\n" + pad + close + rest == open + (body + ("\n" + pad + close + rest))
  {
  }

  /** The parser's view of a non-empty array. */
  lemma ParseArrayShell(body: string, indent: nat, xs: seq<JsVal>, rest: string)
    requires ParseItems(body + ("\n" + Pad(indent) + "]" + rest), indent + 1) == Some((xs, "\n" + Pad(indent) + "]" + rest))
    ensures ParseValue("[\n" + (body + ("\n" + Pad(indent) + "]" + rest)), indent) == Some((Arr(xs), rest))
  {
    var t := "[\n" + (body + ("\n" + Pad(indent) + "]" + rest));
    assert t[2..] == body + ("\n" + Pad(indent) + "]" + rest);
    ExpectPrefix("\n" + Pad(indent) + "]", rest);
  }

  /** The parser's view of a non-empty object. */
  lemma ParseObjectShell(body: string, indent: nat, e: Entries, rest: string)
    requires ParseEntries(body + ("\n" + Pad(indent) + "}" + rest), indent + 1) == Some((e, "\n" + Pad(indent) + "}" + rest))
    ensures ParseValue("{\n" + (body + ("\n" + Pad(indent) + "}" + rest)), indent) == Some((Obj(e), rest))
  {
    var t := "{\n" + (body + ("\n" + Pad(indent) + "}" + rest));
    assert t[2..] == body + ("\n" + Pad(indent) + "}" + rest);
    ExpectPrefix("\n" + Pad(indent) + "}", rest);
  }

  /** The renderings of the items, one level below `indent`. */
  function Rendered(xs: seq<JsVal>, indent: nat): (r: seq<string>)
    ensures |r| == |xs|
  {
    seq(|xs|, j requires 0 <= j < |xs| => TsLiteral(xs[j], indent + 1))
  }

  lemma {:induction false} ArrayRoundTrip(xs: seq<JsVal>, indent: nat, rest: string)
    requires xs != [] && Follows(rest)
    ensures ParseValue(TsLiteral(Arr(xs), indent) + rest, indent) == Some((Arr(xs), rest))
    decreases Arr(xs), 1
  {
    ItemsReadBack(xs, indent, "\n" + Pad(indent) + "]" + rest);
    ArrayFromItems(xs, indent, rest);
  }

  /** Each item is read back before what follows it in the array's rendering. */
  lemma {:induction false} ItemsReadBack(xs: seq<JsVal>, indent: nat, tail: string)
    requires tail != [] && tail[0] == '\n'
    ensures forall j :: 0 <= j < |xs| ==>
              ParseValue(Rendered(xs, indent)[j] + After(ArrayLines(xs, indent), j, tail), indent + 1) ==
                Some((xs[j], After(ArrayLines(xs, indent), j, tail)))
    decreases Arr(xs), 0
  {
    var lines := ArrayLines(xs, indent);
    forall j | 0 <= j < |xs|
      ensures ParseValue(Rendered(xs, indent)[j] + After(lines, j, tail), indent + 1) == Some((xs[j], After(lines, j, tail)))
    {
      ParseRendered(xs[j], indent + 1, After(lines, j, tail));
    }
  }

  /** An array whose items are each read back is read back whole. */
  lemma ArrayFromItems(xs: seq<JsVal>, indent: nat, rest: string)
    requires xs != []
    requires forall j :: 0 <= j < |xs| ==>
               ParseValue(Rendered(xs, indent)[j] + After(ArrayLines(xs, indent), j, "\n" + Pad(indent) + "]" + rest), indent + 1) ==
                 Some((xs[j], After(ArrayLines(xs, indent), j, "\n" + Pad(indent) + "]" + rest)))
    ensures ParseValue(TsLiteral(Arr(xs), indent) + rest, indent) == Some((Arr(xs), rest))
  {
    var lines := ArrayLines(xs, indent);
    ArrayLinesPadded(xs, indent);
    ItemsFrom(lines, Rendered(xs, indent), xs, indent + 1, 0, "\n" + Pad(indent) + "]" + rest);
    Layout("[\n", Join(lines, ",\n"), Pad(indent), "]", rest);
    assert lines[0..] == lines && xs[0..] == xs;
    ParseArrayShell(Join(lines, ",\n"), indent, xs, rest);
  }

  /** Each item line is the padding and the item's rendering. */
  lemma ArrayLinesPadded(xs: seq<JsVal>, indent: nat)
    ensures forall j :: 0 <= j < |xs| ==> ArrayLines(xs, indent)[j] == Pad(indent + 1) + Rendered(xs, indent)[j]
  {
  }

  /** One item, then the end of the list. */
  lemma ItemsOne(indent: nat, item: string, x: JsVal, tail: string)
    requires tail != [] && tail[0] == '\n'
    requires ParseValue(item + tail, indent) == Some((x, tail))
    ensures ParseItems(Pad(indent) + (item + tail), indent) == Some(([x], tail))
  {
    ExpectPrefix(Pad(indent), item + tail);
  }

  /** One item, then `,\n` and more items. */
  lemma ItemsCons(indent: nat, item: string, x: JsVal, more: string, xs: seq<JsVal>, tail: string)
    requires ParseValue(item + (",\n" + more), indent) == Some((x, ",\n" + more))
    requires ParseItems(more, indent) == Some((xs, tail))
    ensures ParseItems(Pad(indent) + (item + (",\n" + more)), indent) == Some(([x] + xs, tail))
  {
    ExpectPrefix(Pad(indent), item + (",\n" + more));
    assert (",\n" + more)[2..] == more;
  }

  /**
    Item lines from `i` on, each the padding and an item that is read back
    before what follows it, are read back as the items.
   */
  lemma {:induction false} ItemsFrom(lines: seq<string>, items: seq<string>, xs: seq<JsVal>, indent: nat, i: nat, tail: string)
    requires |lines| == |items| == |xs| && i < |xs| && tail != [] && tail[0] == '\n'
    requires forall j :: i <= j < |xs| ==> lines[j] == Pad(indent) + items[j]
    requires forall j :: i <= j < |xs| ==>
               ParseValue(items[j] + After(lines, j, tail), indent) == Some((xs[j], After(lines, j, tail)))
    ensures ParseItems(Join(lines[i..], ",\n") + tail, indent) == Some((xs[i..], tail))
    decreases |xs| - i
  {
    JoinFrom(lines, i, tail);
    Assoc(Pad(indent), items[i], After(lines, i, tail));
    if i == |xs| - 1 {
      ItemsOne(indent, items[i], xs[i], tail);
      assert xs[i..] == [xs[i]];
    } else {
      ItemsFrom(lines, items, xs, indent, i + 1, tail);
      ItemsCons(indent, items[i], xs[i], Join(lines[i + 1..], ",\n") + tail, xs[i + 1..], tail);
      assert [xs[i]] + xs[i + 1..] == xs[i..];
    }
  }

  /** The renderings of the entries' values, one level below `indent`. */
  function RenderedValues(e: Entries, indent: nat): (r: seq<string>)
    ensures |r| == |e|
  {
    seq(|e|, j requires 0 <= j < |e| => TsLiteral(e[j].1, indent + 1))
  }

  lemma {:induction false} ObjectRoundTrip(e: Entries, indent: nat, rest: string)
    requires e != [] && Follows(rest)
    ensures ParseValue(TsLiteral(Obj(e), indent) + rest, indent) == Some((Obj(e), rest))
    decreases Obj(e), 1
  {
    ValuesReadBack(e, indent, "\n" + Pad(indent) + "}" + rest);
    ObjectFromEntries(e, indent, rest);
  }

  /** Each value is read back before what follows it in the object's rendering. */
  lemma {:induction false} ValuesReadBack(e: Entries, indent: nat, tail: string)
    requires tail != [] && tail[0] == '\n'
    ensures forall j :: 0 <= j < |e| ==>
              ParseValue(RenderedValues(e, indent)[j] + After(ObjectLines(e, indent), j, tail), indent + 1) ==
                Some((e[j].1, After(ObjectLines(e, indent), j, tail)))
    decreases Obj(e), 0
  {
    var lines := ObjectLines(e, indent);
    forall j | 0 <= j < |e|
      ensures ParseValue(RenderedValues(e, indent)[j] + After(lines, j, tail), indent + 1) == Some((e[j].1, After(lines, j, tail)))
    {
      ParseRendered(e[j].1, indent + 1, After(lines, j, tail));
    }
  }

  /** An object whose values are each read back is read back whole. */
  lemma ObjectFromEntries(e: Entries, indent: nat, rest: string)
    requires e != []
    requires forall j :: 0 <= j < |e| ==>
               ParseValue(RenderedValues(e, indent)[j] + After(ObjectLines(e, indent), j, "\n" + Pad(indent) + "}" + rest), indent + 1) ==
                 Some((e[j].1, After(ObjectLines(e, indent), j, "\n" + Pad(indent) + "}" + rest)))
    ensures ParseValue(TsLiteral(Obj(e), indent) + rest, indent) == Some((Obj(e), rest))
  {
    var lines := ObjectLines(e, indent);
    var tail := "\n" + Pad(indent) + "}" + rest;
    EntryLinesRoundTrip(e, indent, tail);
    EntriesFrom(lines, e, indent + 1, 0, tail);
    Layout("{\n", Join(lines, ",\n"), Pad(indent), "}", rest);
    assert lines[0..] == lines && e[0..] == e;
    ParseObjectShell(Join(lines, ",\n"), indent, e, rest);
  }

  /** Every entry line of an object is read back as its entry once its value is. */
  lemma EntryLinesRoundTrip(e: Entries, indent: nat, tail: string)
    requires forall j :: 0 <= j < |e| ==>
               ParseValue(RenderedValues(e, indent)[j] + After(ObjectLines(e, indent), j, tail), indent + 1) ==
                 Some((e[j].1, After(ObjectLines(e, indent), j, tail)))
    ensures forall j {:trigger ParseEntry(ObjectLines(e, indent)[j] + After(ObjectLines(e, indent), j, tail), indent + 1)} ::
              0 <= j < |e| ==>
                ParseEntry(ObjectLines(e, indent)[j] + After(ObjectLines(e, indent), j, tail), indent + 1) ==
                  Some((e[j], After(ObjectLines(e, indent), j, tail)))
  {
    var lines := ObjectLines(e, indent);
    var values := RenderedValues(e, indent);
    forall j | 0 <= j < |e|
      ensures ParseEntry(lines[j] + After(lines, j, tail), indent + 1) == Some((e[j], After(lines, j, tail)))
    {
      EntryRoundTrip(indent + 1, e[j].0, values[j], e[j].1, After(lines, j, tail));
    }
  }

  /** An entry line is read back as its key and value, before what follows it. */
  lemma EntryRoundTrip(indent: nat, k: string, item: string, x: JsVal, after: string)
    requires ParseValue(item + after, indent) == Some((x, after))
    ensures ParseEntry(Pad(indent) + KeyCode(k) + ": " + item + after, indent) == Some(((k, x), after))
  {
    var key := KeyCode(k);
    assert Pad(indent) + key + ": " + item + after == Pad(indent) + (key + (": " + (item + after)));
    ExpectPrefix(Pad(indent), key + (": " + (item + after)));
    KeyRoundTrip(k, ": " + (item + after));
    ExpectPrefix(": ", item + after);
  }

  /** One entry, then the end of the object. */
  lemma EntriesOne(t: string, kv: (string, JsVal), tail: string, indent: nat)
    requires tail != [] && tail[0] == '\n'
    requires ParseEntry(t, indent) == Some((kv, tail))
    ensures ParseEntries(t, indent) == Some(([kv], tail))
  {
  }

  /** One entry, then `,\n` and more entries. */
  lemma EntriesCons(t: string, kv: (string, JsVal), more: string, e: Entries, tail: string, indent: nat)
    requires ParseEntry(t, indent) == Some((kv, ",\n" + more))
    requires ParseEntries(more, indent) == Some((e, tail))
    ensures ParseEntries(t, indent) == Some(([kv] + e, tail))
  {
    assert (",\n" + more)[2..] == more;
  }

  /** Entry lines from `i` on, each read back before what follows it, are read back as the entries. */
  lemma {:induction false} EntriesFrom(lines: seq<string>, e: Entries, indent: nat, i: nat, tail: string)
    requires |lines| == |e| && i < |e| && tail != [] && tail[0] == '\n'
    requires forall j {:trigger ParseEntry(lines[j] + After(lines, j, tail), indent)} :: i <= j < |e| ==>
               ParseEntry(lines[j] + After(lines, j, tail), indent) == Some((e[j], After(lines, j, tail)))
    ensures ParseEntries(Join(lines[i..], ",\n") + tail, indent) == Some((e[i..], tail))
    decreases |e| - i
  {
    if i == |e| - 1 {
      LastEntry(lines, e, indent, i, tail);
    } else {
      EntriesFrom(lines, e, indent, i + 1, tail);
      NextEntry(lines, e, indent, i, tail);
    }
  }

  /** The last entry line, then the end of the object. */
  lemma LastEntry(lines: seq<string>, e: Entries, indent: nat, i: nat, tail: string)
    requires |lines| == |e| && i == |e| - 1 && tail != [] && tail[0] == '\n'
    requires ParseEntry(lines[i] + After(lines, i, tail), indent) == Some((e[i], After(lines, i, tail)))
    ensures ParseEntries(Join(lines[i..], ",\n") + tail, indent) == Some((e[i..], tail))
  {
    JoinFrom(lines, i, tail);
    EntriesOne(lines[i] + After(lines, i, tail), e[i], tail, indent);
    assert e[i..] == [e[i]];
  }

  /** An element followed by the elements after it is the suffix from it. */
  lemma ConsSuffix<T>(s: seq<T>, i: nat)
    requires i < |s|
    ensures [s[i]] + s[i + 1..] == s[i..]
  {
  }

  /** An entry line, then `,\n` and the entry lines after it. */
  lemma NextEntry(lines: seq<string>, e: Entries, indent: nat, i: nat, tail: string)
    requires |lines| == |e| && i < |e| - 1
    requires ParseEntry(lines[i] + After(lines, i, tail), indent) == Some((e[i], After(lines, i, tail)))
    requires ParseEntries(Join(lines[i + 1..], ",\n") + tail, indent) == Some((e[i + 1..], tail))
    ensures ParseEntries(Join(lines[i..], ",\n") + tail, indent) == Some((e[i..], tail))
  {
    var more := Join(lines[i + 1..], ",\n") + tail;
    assert After(lines, i, tail) == ",\n" + more;
    JoinFrom(lines, i, tail);
    EntriesCons(lines[i] + After(lines, i, tail), e[i], more, e[i + 1..], tail, indent);
    ConsSuffix(e, i);
  }

  /** Decoding the rendering of any value gives the value back. */
  lemma DecodeTsLiteral(v: JsVal)
    ensures Decode(TsLiteral(v, 0)) == Some(v)
  {
    ParseRendered(v, 0, []);
    assert TsLiteral(v, 0) + [] == TsLiteral(v, 0);
  }

  /** Distinct values are rendered differently, at every indentation. */
  lemma TsLiteralInjective(v: JsVal, w: JsVal, indent: nat)
    requires TsLiteral(v, indent) == TsLiteral(w, indent)
    ensures v == w
  {
    ParseRendered(v, indent, []);
    ParseRendered(w, indent, []);
  }
}
