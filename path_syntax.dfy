/**
 * The path syntax of the property accessors (`get`, `set`, `remove` and
 * their meta variants): how a path such as `a.b[0].c`, `arr[]` or `a\.b`
 * is cut into tokens, and how the concrete path a `set` wrote is rendered
 * back from its segments.
 */
module PathSyntax {
  import opened JsCore

  /** `s.replace(/\[/g, '.[')` */
  function DotBeforeBrackets(s: string): (r: string)
  {
    if s == [] then [] else (if s[0] == '[' then ".[" else [s[0]]) + DotBeforeBrackets(s[1..])
  }

  /** `s.split(c)` for a one-character separator. */
  function SplitAt(s: string, c: char): (r: seq<string>)
    ensures |r| >= 1
  {
    if s == [] then [""]
    else
      var rest := SplitAt(s[1..], c);
      if s[0] == c then [""] + rest else [[s[0]] + rest[0]] + rest[1..]
  }

  /** `s.replace(/([^\\])\[/g, '$1.[')`: a dot before every `[` not escaped by `\`. */
  function DotBeforeUnescapedBrackets(s: string): string
  {
    if |s| >= 2 && s[0] != '\\' && s[1] == '[' then [s[0]] + ".[" + DotBeforeUnescapedBrackets(s[2..])
    else if s == [] then []
    else [s[0]] + DotBeforeUnescapedBrackets(s[1..])
  }

  /** `s.replace(/([^\\])\./g, '$1..')`: every `.` not escaped by `\` doubled. */
  function DoubleUnescapedDots(s: string): string
  {
    if |s| >= 2 && s[0] != '\\' && s[1] == '.' then [s[0]] + ".." + DoubleUnescapedDots(s[2..])
    else if s == [] then []
    else [s[0]] + DoubleUnescapedDots(s[1..])
  }

  /** `s.replace(/\\([.\[])/g, '$1')`: `\.` and `\[` lose their backslash. */
  function DropEscapes(s: string): string
  {
    if |s| >= 2 && s[0] == '\\' && (s[1] == '.' || s[1] == '[') then [s[1]] + DropEscapes(s[2..])
    else if s == [] then []
    else [s[0]] + DropEscapes(s[1..])
  }

  /** `s.split('..')` */
  function SplitAtDoubleDot(s: string): (r: seq<string>)
    ensures |r| >= 1
  {
    if |s| >= 2 && s[0] == '.' && s[1] == '.' then [""] + SplitAtDoubleDot(s[2..])
    else if s == [] then [""]
    else
      var rest := SplitAtDoubleDot(s[1..]);
      [[s[0]] + rest[0]] + rest[1..]
  }

  /** The three `replace` calls of the escape-aware route. */
  datatype Rewrite = UnescapedBracket | UnescapedDot | Escape

  function Replace(r: Rewrite, s: string): string
  {
    match r
    case UnescapedBracket => DotBeforeUnescapedBrackets(s)
    case UnescapedDot => DoubleUnescapedDots(s)
    case Escape => DropEscapes(s)
  }

  /** `s.replace(…).replace(…)…`: the rewrites applied in turn. */
  function ReplaceAll(s: string, rs: seq<Rewrite>): string
    decreases |rs|
  {
    if rs == [] then s else ReplaceAll(Replace(rs[0], s), rs[1..])
  }

  /** Whether a path has more than one segment (it holds a `.` or a `[`). */
  predicate IsCompound(path: string) { HasChar(path, '.') || HasChar(path, '[') }

  /**
   * The tokens of a compound path: with a backslash anywhere, the
   * escape-aware route; otherwise every `[` starts a new token and the path
   * is split at the dots.
   */
  function Tokenize(path: string): (r: seq<string>)
    ensures |r| >= 1
  {
    if HasChar(path, '\\') then
      SplitAtDoubleDot(ReplaceAll(path, [UnescapedBracket, UnescapedDot, Escape]))
    else SplitAt(DotBeforeBrackets(path), '.')
  }

  /** A token that names an array index (it starts with `[`). */
  predicate IsBracketed(token: string) { |token| > 0 && token[0] == '[' }

  /** `token.substring(1, token.length - 1)` (a lone `[` stays as it is). */
  function Unbracket(token: string): string
  {
    if |token| >= 2 then token[1..|token| - 1] else token
  }

  /** The property key a token addresses. */
  function KeyOf(token: string): string
  {
    if IsBracketed(token) then Unbracket(token) else token
  }

  /** `parts.join(sep)` */
  function Join(parts: seq<string>, sep: string): string
  {
    if parts == [] then ""
    else if |parts| == 1 then parts[0]
    else parts[0] + sep + Join(parts[1..], sep)
  }

  /** `s.replace(/\.\[/g, '[')` */
  function DropDotBeforeBrackets(s: string): string
  {
    if |s| >= 2 && s[0] == '.' && s[1] == '[' then "[" + DropDotBeforeBrackets(s[2..])
    else if s == [] then []
    else [s[0]] + DropDotBeforeBrackets(s[1..])
  }

  /** The path `set` returns: its segments joined by '.', with '.[' turned into '['. */
  function RenderPath(segments: seq<string>): string
  {
    DropDotBeforeBrackets(Join(segments, "."))
  }

  /** The segment `set` records for a key: `[key]` for an array index, else the key. */
  function Segment(key: string, isIndex: bool): string
  {
    if isIndex then "[" + key + "]" else key
  }

  // -------------------------------------------------------------------------
  // The rendered path reads back as the same tokens
  // -------------------------------------------------------------------------

  /** A key that needs no escaping in a path. */
  predicate PlainKey(k: string)
  {
    |k| > 0 && '.' !in k && '[' !in k && '\\' !in k
  }

  predicate SegmentOfPlainKey(e: string)
  {
    PlainKey(e) || (|e| >= 3 && e[0] == '[' && e[|e| - 1] == ']' && PlainKey(e[1..|e| - 1]))
  }

  lemma {:induction false} DotBeforeBracketsAppend(x: string, y: string)
    ensures DotBeforeBrackets(x + y) == DotBeforeBrackets(x) + DotBeforeBrackets(y)
  {
    if x != [] {
      assert (x + y)[1..] == x[1..] + y;
      DotBeforeBracketsAppend(x[1..], y);
    } else {
      assert x + y == y;
    }
  }

  lemma {:induction false} DotBeforeBracketsNoBracket(x: string)
    requires '[' !in x
    ensures DotBeforeBrackets(x) == x
  {
    if x != [] {
      assert x == [x[0]] + x[1..];
      DotBeforeBracketsNoBracket(x[1..]);
    }
  }

  lemma {:induction false} DropDotAppend(x: string, y: string)
    requires x == [] || x[|x| - 1] != '.'
    ensures DropDotBeforeBrackets(x + y) == DropDotBeforeBrackets(x) + DropDotBeforeBrackets(y)
  {
    if x == [] {
      assert x + y == y;
    } else if |x| >= 2 && x[0] == '.' && x[1] == '[' {
      assert (x + y)[2..] == x[2..] + y;
      DropDotAppend(x[2..], y);
    } else {
      assert (x + y)[1..] == x[1..] + y;
      if |x| == 1 {
        assert x[0] != '.';
      }
      DropDotAppend(x[1..], y);
    }
  }

  lemma {:induction false} DropDotNoDot(x: string)
    requires '.' !in x
    ensures DropDotBeforeBrackets(x) == x
  {
    if x != [] {
      assert x == [x[0]] + x[1..];
      DropDotNoDot(x[1..]);
    }
  }

  lemma {:induction false} SplitAtPrefix(e: string, rest: string, c: char)
    requires c !in e
    ensures SplitAt(e + [c] + rest, c) == [e] + SplitAt(rest, c)
    ensures SplitAt(e, c) == [e]
  {
    if e == [] {
      assert e + [c] + rest == [c] + rest;
      assert ([c] + rest)[1..] == rest;
    } else {
      assert (e + [c] + rest)[1..] == e[1..] + [c] + rest;
      SplitAtPrefix(e[1..], rest, c);
      assert [e[0]] + e[1..] == e;
    }
  }

  /** How a segment after the first appears in the rendered path. */
  function Piece(e: string): string
  {
    if IsBracketed(e) then e else "." + e
  }

  /** The segments after the first, each written after a '.' unless it is bracketed. */
  function CompactTail(segments: seq<string>): string
  {
    if segments == [] then "" else Piece(segments[0]) + CompactTail(segments[1..])
  }

  /** What a segment of a plain key is made of. */
  lemma SegmentChars(e: string)
    requires SegmentOfPlainKey(e)
    ensures e != [] && '.' !in e && '\\' !in e && e[|e| - 1] != '.'
    ensures IsBracketed(e) ==> e == "[" + e[1..] && '[' !in e[1..] && '.' !in e[1..]
    ensures !IsBracketed(e) ==> '[' !in e
  {
    if !PlainKey(e) {
      var k := e[1..|e| - 1];
      assert e[1..] == k + "]";
      assert e == "[" + k + "]";
      assert e[|e| - 1] == ']';
    } else {
      assert e[|e| - 1] in e;
    }
  }

  /** A segment of a plain key does not end in a `.`. */
  lemma SegmentLast(e: string)
    requires SegmentOfPlainKey(e)
    ensures e != [] && e[|e| - 1] != '.'
  {
    SegmentChars(e);
  }

  lemma DotBeforeBracketsCons(c: char, x: string)
    ensures DotBeforeBrackets([c] + x) == (if c == '[' then ".[" else [c]) + DotBeforeBrackets(x)
  {
    assert ([c] + x)[1..] == x;
  }

  lemma DropDotPiece(e: string)
    requires SegmentOfPlainKey(e)
    ensures DropDotBeforeBrackets("." + e) == Piece(e)
  {
    SegmentChars(e);
    var head := "." + e;
    if IsBracketed(e) {
      assert head[2..] == e[1..];
      DropDotNoDot(e[1..]);
    } else {
      assert head[1..] == e;
      DropDotNoDot(e);
    }
  }

  lemma DotBeforePiece(e: string)
    requires SegmentOfPlainKey(e)
    ensures DotBeforeBrackets(Piece(e)) == "." + e
  {
    SegmentChars(e);
    if IsBracketed(e) {
      var k := e[1..];
      DotBeforeBracketsCons('[', k);
      DotBeforeBracketsNoBracket(k);
      assert "." + e == ".[" + k;
    } else {
      DotBeforeBracketsCons('.', e);
      DotBeforeBracketsNoBracket(e);
    }
  }

  /**
   * What rendering relies on for one segment: it does not end in `.`, and
   * each of the two replacements maps its piece as a whole.
   */
  predicate Renders(e: string)
  {
    e != [] && e[|e| - 1] != '.' && DropDotBeforeBrackets("." + e) == Piece(e) && DotBeforeBrackets(Piece(e)) == "." + e
  }

  /** Every segment renders as a whole. */
  predicate AllRender(segments: seq<string>)
  {
    segments == [] || (Renders(segments[0]) && AllRender(segments[1..]))
  }

  lemma SegmentRenders(e: string)
    requires SegmentOfPlainKey(e)
    ensures Renders(e)
  {
    SegmentLast(e);
    DropDotPiece(e);
    DotBeforePiece(e);
  }

  lemma {:induction false} AllRenderOf(segments: seq<string>)
    requires forall i :: 0 <= i < |segments| ==> SegmentOfPlainKey(segments[i])
    ensures AllRender(segments)
    decreases |segments|
  {
    if segments != [] {
      var rest := segments[1..];
      SegmentRenders(segments[0]);
      assert forall i :: 0 <= i < |rest| ==> rest[i] == segments[i + 1];
      AllRenderOf(rest);
    }
  }

  lemma {:induction false} DropDotJoin(segments: seq<string>)
    requires segments != [] && AllRender(segments)
    ensures DropDotBeforeBrackets("." + Join(segments, ".")) == CompactTail(segments)
    decreases |segments|
  {
    var e := segments[0];
    var rest := segments[1..];
    if rest == [] {
      assert Join(segments, ".") == e;
    } else {
      DropDotJoin(rest);
      DotJoinCons(segments);
      DropDotJoinStep("." + e, "." + Join(rest, "."));
    }
  }

  lemma DotJoinCons(segments: seq<string>)
    requires |segments| >= 2
    ensures "." + Join(segments, ".") == ("." + segments[0]) + ("." + Join(segments[1..], "."))
  {
    JoinCons(segments);
  }

  /** The step of `DropDotJoin`: one more segment in front. */
  lemma DropDotJoinStep(head: string, tail: string)
    requires head != [] && head[|head| - 1] != '.'
    ensures DropDotBeforeBrackets(head + tail) == DropDotBeforeBrackets(head) + DropDotBeforeBrackets(tail)
  {
    DropDotAppend(head, tail);
  }

  lemma {:induction false} DotBeforeCompactTail(segments: seq<string>)
    requires AllRender(segments)
    ensures DotBeforeBrackets(CompactTail(segments)) == if segments == [] then "" else "." + Join(segments, ".")
    decreases |segments|
  {
    if segments != [] {
      var e := segments[0];
      var rest := segments[1..];
      DotBeforeCompactTail(rest);
      DotBeforeBracketsAppend(Piece(e), CompactTail(rest));
      if rest != [] {
        DotJoinCons(segments);
      } else {
        assert Join(segments, ".") == e;
      }
    }
  }

  lemma {:induction false} SplitJoin(segments: seq<string>)
    requires segments != []
    requires forall i :: 0 <= i < |segments| ==> '.' !in segments[i]
    ensures SplitAt(Join(segments, "."), '.') == segments
  {
    if |segments| == 1 {
      SplitAtPrefix(segments[0], "", '.');
    } else {
      SplitJoin(segments[1..]);
      assert Join(segments, ".") == segments[0] + ['.'] + Join(segments[1..], ".");
      SplitAtPrefix(segments[0], Join(segments[1..], "."), '.');
    }
  }

  /**
   * The path a `set` returns, when its first segment is a plain key and
   * every key is free of '.', '[' and '\', tokenizes back into exactly
   * the segments it was rendered from.
   */
  lemma {:induction false} TokenizeRenderPath(segments: seq<string>)
    requires |segments| >= 2 && PlainKey(segments[0])
    requires forall i :: 1 <= i < |segments| ==> SegmentOfPlainKey(segments[i])
    ensures IsCompound(RenderPath(segments))
    ensures Tokenize(RenderPath(segments)) == segments
  {
    var rest := segments[1..];
    forall i | 0 <= i < |rest| ensures SegmentOfPlainKey(rest[i]) {
      assert rest[i] == segments[i + 1];
    }
    AllRenderOf(rest);
    forall i | 0 <= i < |segments| ensures '.' !in segments[i] {
      if i > 0 { SegmentChars(segments[i]); }
    }
    RenderedAsCompact(segments);
    CompactReadsAsJoin(segments);
    NoBackslashInCompactTail(rest);
    CompactIsCompound(segments[0], rest);
    SplitJoin(segments);
    TokenizeWithoutBackslash(segments[0] + CompactTail(rest));
  }

  lemma TokenizeWithoutBackslash(path: string)
    requires '\\' !in path
    ensures Tokenize(path) == SplitAt(DotBeforeBrackets(path), '.')
  {
  }

  lemma CompactIsCompound(e: string, rest: seq<string>)
    requires PlainKey(e) && rest != [] && SegmentOfPlainKey(rest[0])
    ensures IsCompound(e + CompactTail(rest))
  {
    var rendered := e + CompactTail(rest);
    if IsBracketed(rest[0]) {
      assert rendered[|e|] == '[';
    } else {
      assert rendered[|e|] == '.';
    }
  }

  lemma CompactReadsAsJoin(segments: seq<string>)
    requires |segments| >= 2 && PlainKey(segments[0]) && AllRender(segments[1..])
    ensures DotBeforeBrackets(segments[0] + CompactTail(segments[1..])) == Join(segments, ".")
  {
    var e := segments[0];
    var rest := segments[1..];
    var tail := CompactTail(rest);
    var joined := Join(rest, ".");
    DotBeforeCompactTail(rest);
    assert DotBeforeBrackets(tail) == "." + joined;
    DotBeforeBracketsAppend(e, tail);
    DotBeforeBracketsNoBracket(e);
    assert DotBeforeBrackets(e + tail) == e + ("." + joined);
    JoinCons(segments);
  }

  lemma JoinCons(segments: seq<string>)
    requires |segments| >= 2
    ensures Join(segments, ".") == segments[0] + ("." + Join(segments[1..], "."))
  {
  }

  lemma RenderedAsCompact(segments: seq<string>)
    requires |segments| >= 2 && PlainKey(segments[0]) && AllRender(segments[1..])
    ensures RenderPath(segments) == segments[0] + CompactTail(segments[1..])
  {
    var e := segments[0];
    var rest := segments[1..];
    assert Join(segments, ".") == e + ("." + Join(rest, "."));
    DropDotAppend(e, "." + Join(rest, "."));
    DropDotNoDot(e);
    DropDotJoin(rest);
  }

  lemma {:induction false} NoBackslashInCompactTail(segments: seq<string>)
    requires forall i :: 0 <= i < |segments| ==> SegmentOfPlainKey(segments[i])
    ensures '\\' !in CompactTail(segments)
    decreases |segments|
  {
    if segments != [] {
      SegmentChars(segments[0]);
      assert forall i :: 0 <= i < |segments[1..]| ==> segments[1..][i] == segments[i + 1];
      NoBackslashInCompactTail(segments[1..]);
    }
  }

  /** `key[]` is a compound path of the key and an empty bracket token. */
  lemma AppendTokens(key: string)
    requires PlainKey(key)
    ensures IsCompound(key + "[]") && Tokenize(key + "[]") == [key, "[]"]
  {
    var path := key + "[]";
    assert path[|key|] == '[';
    assert '\\' !in path;
    TokenizeWithoutBackslash(path);
    DotBeforeBracketsAppend(key, "[]");
    DotBeforeBracketsNoBracket(key);
    assert DotBeforeBrackets("[]") == ".[]";
    assert DotBeforeBrackets(path) == key + ['.'] + "[]";
    SplitAtPrefix(key, "[]", '.');
    SplitAtPrefix("[]", "", '.');
  }

  /** The path `set` records for `key[]`, once the index is known, is `key[index]`. */
  lemma AppendRender(key: string, index: string)
    requires PlainKey(key) && PlainKey(index)
    ensures RenderPath([key, Segment(index, true)]) == key + "[" + index + "]"
  {
    var e := Segment(index, true);
    assert SegmentOfPlainKey(e) by {
      assert e[1..|e| - 1] == index;
    }
    JoinPair(key, e);
    DropDotAppend(key, "." + e);
    DropDotNoDot(key);
    DropDotPiece(e);
  }

  lemma JoinPair(a: string, b: string)
    ensures Join([a, b], ".") == a + ("." + b)
  {
    assert [a, b][1..] == [b];
  }

  /** `a.b` for two plain keys is a compound path of the two keys. */
  lemma DottedTokens(a: string, b: string)
    requires PlainKey(a) && PlainKey(b)
    ensures IsCompound(a + "." + b) && Tokenize(a + "." + b) == [a, b]
  {
    var path := a + "." + b;
    assert path[|a|] == '.';
    assert '\\' !in path;
    TokenizeWithoutBackslash(path);
    DotBeforeBracketsNoBracket(path);
    SplitAtPrefix(a, b, '.');
    SplitAtPrefix(b, "", '.');
  }
}
