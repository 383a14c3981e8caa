/**
 * `parseCSS(cssStr)` (lib/utils.js): scans the text with the global
 * pattern `([\w-]+?)\s*:\s*([^;]+)` and, for every match, assigns the
 * value (one pair of matching surrounding quotes removed) to the
 * camel-cased name on a fresh object.
 */
module Css {
  import opened JsCore

  /** A character of a declaration name: `[\w-]`. */
  predicate IsNameChar(c: char) { IsWordChar(c) || c == '-' }

  /** The end of the run of name characters starting at `i`. */
  function NameEnd(t: string, i: nat): (j: nat)
    requires i <= |t|
    ensures i <= j <= |t|
    decreases |t| - i
  {
    if i < |t| && IsNameChar(t[i]) then NameEnd(t, i + 1) else i
  }

  /** The end of the run of characters other than `;` starting at `i`. */
  function SemicolonEnd(t: string, i: nat): (j: nat)
    requires i <= |t|
    ensures i <= j <= |t|
    decreases |t| - i
  {
    if i < |t| && t[i] != ';' then SemicolonEnd(t, i + 1) else i
  }

  /** One match of the pattern: the name, the value and how many characters it consumed. */
  datatype Match = Match(name: string, value: string, len: nat)

  /**
   * The pattern tried at the start of `t`. The lazy name can only end
   * where `\s*:` follows, so it is the whole run of name characters; the
   * greedy `\s*` before the value gives one blank back when the value
   * would otherwise be empty.
   */
  function MatchAt(t: string): (r: Option<Match>)
    ensures r.Some? ==> 0 < r.value.len <= |t| && r.value.name != [] && r.value.value != []
  {
    var k := NameEnd(t, 0);
    if k == 0 then None
    else
      var c := SpaceRunEnd(t, k);
      if c == |t| || t[c] != ':' then None
      else
        var v := SpaceRunEnd(t, c + 1);
        var e := SemicolonEnd(t, v);
        if e > v then Some(Match(t[..k], t[v..e], e))
        else if v > c + 1 then Some(Match(t[..k], [t[v - 1]], v))
        else None
  }

  lemma {:induction false} SemicolonEndFree(t: string, i: nat)
    requires i <= |t|
    ensures forall x :: i <= x < SemicolonEnd(t, i) ==> t[x] != ';'
    decreases |t| - i
  {
    if i < |t| && t[i] != ';' {
      SemicolonEndFree(t, i + 1);
    }
  }

  /** No value reaches past a `;`. */
  lemma MatchValueFree(t: string)
    requires MatchAt(t).Some?
    ensures ';' !in MatchAt(t).value.value
  {
    var k := NameEnd(t, 0);
    var c := SpaceRunEnd(t, k);
    var v := SpaceRunEnd(t, c + 1);
    var e := SemicolonEnd(t, v);
    if e > v {
      SemicolonEndFree(t, v);
      forall x | 0 <= x < e - v ensures t[v..e][x] != ';' {
        assert t[v..e][x] == t[v + x];
      }
    } else {
      assert t[c + 1..v][v - 1 - (c + 1)] == t[v - 1];
    }
  }

  /** The global scan: every match from the start of `t`, each search resuming where the last match ended. */
  function Scan(t: string): seq<(string, string)>
    decreases |t|
  {
    if t == [] then []
    else
      match MatchAt(t)
      case Some(m) => [(m.name, m.value)] + Scan(t[m.len..])
      case None => Scan(t[1..])
  }

  /** Every match has a name and a value, and no value reaches past a `;`. */
  lemma {:induction false} ScanEntries(t: string)
    ensures forall i :: 0 <= i < |Scan(t)| ==> Scan(t)[i].0 != [] && Scan(t)[i].1 != [] && ';' !in Scan(t)[i].1
    decreases |t|
  {
    if t != [] {
      match MatchAt(t)
      case Some(m) =>
        MatchValueFree(t);
        ScanEntries(t[m.len..]);
      case None => ScanEntries(t[1..]);
    }
  }

  /** `name.replace(/-(\w)/g, …toUpperCase())`: a dash and the word character after it become that character in upper case. */
  function CamelCase(n: string): string
  {
    if n == [] then []
    else if |n| >= 2 && n[0] == '-' && IsWordChar(n[1]) then [UpperChar(n[1])] + CamelCase(n[2..])
    else [n[0]] + CamelCase(n[1..])
  }

  predicate IsQuote(c: char) { c == '\'' || c == '"' }

  /** `value.replace(/^(['"])(.*)\1$/g, "$2")`: one pair of matching quotes around text without line terminators is dropped. */
  function Unquote(v: string): (r: string)
    ensures |v| >= 2 && IsQuote(v[0]) && v[|v| - 1] == v[0] && (forall i :: 1 <= i < |v| - 1 ==> !IsLineTerminator(v[i]))
            ==> r == v[1..|v| - 1]
    ensures !(|v| >= 2 && IsQuote(v[0]) && v[|v| - 1] == v[0]) ==> r == v
  {
    if |v| >= 2 && IsQuote(v[0]) && v[|v| - 1] == v[0] && (forall i :: 1 <= i < |v| - 1 ==> !IsLineTerminator(v[i]))
    then v[1..|v| - 1]
    else v
  }

  /** Quoting text without line terminators and unquoting it gives the text back; only the outer pair goes. */
  lemma UnquoteQuoted(q: char, text: string)
    requires IsQuote(q) && forall i :: 0 <= i < |text| ==> !IsLineTerminator(text[i])
    ensures Unquote([q] + text + [q]) == text
  {
    var v := [q] + text + [q];
    assert v[1..|v| - 1] == text;
    forall i | 1 <= i < |v| - 1 ensures !IsLineTerminator(v[i]) { assert v[i] == text[i - 1]; }
  }

  /**
   * `css[key] = value` on a fresh plain object: assigning a string to
   * `__proto__` reaches the prototype setter, which ignores it.
   */
  function Assign(css: map<string, string>, key: string, value: string): map<string, string>
  {
    if key == "__proto__" then css else css[key := value]
  }

  /** The callback run on every match in turn. */
  function AssignAll(css: map<string, string>, matches: seq<(string, string)>): map<string, string>
    decreases |matches|
  {
    if matches == [] then css
    else AssignAll(Assign(css, CamelCase(matches[0].0), Unquote(matches[0].1)), matches[1..])
  }

  /** `parseCSS(cssStr)`. */
  function ParseCss(s: string): map<string, string>
  {
    AssignAll(map[], Scan(s))
  }

  /** `parseCSS(cssStr)`: the pattern's callback fills `css` match by match. */
  method ParseCssLoop(s: string) returns (css: map<string, string>)
    ensures css == ParseCss(s)
  {
    css := map[];
    var p := 0;
    while p < |s|
      invariant 0 <= p <= |s|
      invariant AssignAll(css, Scan(s[p..])) == ParseCss(s)
      decreases |s| - p
    {
      p, css := NextDeclaration(s, p, css);
    }
  }

  /**
   * One search of the global pattern from position `p`: a match runs the
   * callback and the next search starts where it ended; no match moves on
   * one character.
   */
  method NextDeclaration(s: string, p: nat, css: map<string, string>) returns (next: nat, css': map<string, string>)
    requires p < |s|
    ensures p < next <= |s|
    ensures AssignAll(css', Scan(s[next..])) == AssignAll(css, Scan(s[p..]))
  {
    var t := s[p..];
    var m := MatchAt(t);
    AssignStep(css, t);
    if m.Some? {
      next := p + m.value.len;
      assert t[m.value.len..] == s[next..];
      css' := Assign(css, CamelCase(m.value.name), Unquote(m.value.value));
    } else {
      next := p + 1;
      assert t[1..] == s[next..];
      css' := css;
    }
  }

  /** The callback runs on the match at the start of the text, if any, and then on those further on. */
  lemma AssignStep(css: map<string, string>, t: string)
    requires t != []
    ensures AssignAll(css, Scan(t)) == match MatchAt(t)
      case Some(m) => AssignAll(Assign(css, CamelCase(m.name), Unquote(m.value)), Scan(t[m.len..]))
      case None => AssignAll(css, Scan(t[1..]))
  {
    if MatchAt(t).Some? {
      var m := MatchAt(t).value;
      ScanMatched(t);
      AssignAllFirst(css, (m.name, m.value), Scan(t[m.len..]));
    } else {
      ScanUnmatched(t);
    }
  }

  /** Where the pattern matches, the scan records the match and resumes after it. */
  lemma ScanMatched(t: string)
    requires MatchAt(t).Some?
    ensures var m := MatchAt(t).value;
            Scan(t) == [(m.name, m.value)] + Scan(t[m.len..])
  {
  }

  /** Where the pattern does not match, the scan moves on by one character. */
  lemma ScanUnmatched(t: string)
    requires t != [] && MatchAt(t).None?
    ensures Scan(t) == Scan(t[1..])
  {
  }

  lemma AssignAllFirst(css: map<string, string>, m: (string, string), ms: seq<(string, string)>)
    ensures AssignAll(css, [m] + ms) == AssignAll(Assign(css, CamelCase(m.0), Unquote(m.1)), ms)
  {
    assert ([m] + ms)[1..] == ms;
  }

  // -------------------------------------------------------------------------
  // Later declarations win
  // -------------------------------------------------------------------------

  /** The object key a match is stored under. */
  function KeyOf(m: (string, string)): string { CamelCase(m.0) }

  /** A key ends up in the object exactly when some match names it, unless it is `__proto__`. */
  lemma {:induction false} AssignAllKeys(css: map<string, string>, ms: seq<(string, string)>, k: string)
    requires "__proto__" !in css
    ensures k in AssignAll(css, ms) <==> k != "__proto__" && (k in css || exists i :: 0 <= i < |ms| && KeyOf(ms[i]) == k)
    decreases |ms|
  {
    if ms != [] {
      var css' := Assign(css, KeyOf(ms[0]), Unquote(ms[0].1));
      AssignAllKeys(css', ms[1..], k);
      if exists i :: 0 <= i < |ms[1..]| && KeyOf(ms[1..][i]) == k {
        var i :| 0 <= i < |ms[1..]| && KeyOf(ms[1..][i]) == k;
        assert KeyOf(ms[i + 1]) == k;
      }
      if exists i :: 0 <= i < |ms| && KeyOf(ms[i]) == k {
        var i :| 0 <= i < |ms| && KeyOf(ms[i]) == k;
        if i > 0 { assert KeyOf(ms[1..][i - 1]) == k; }
      }
    }
  }

  /** The value under a key is that of the last match naming it. */
  lemma {:induction false} AssignAllLastWins(css: map<string, string>, ms: seq<(string, string)>, i: nat)
    requires i < |ms| && KeyOf(ms[i]) != "__proto__"
    requires forall j :: i < j < |ms| ==> KeyOf(ms[j]) != KeyOf(ms[i])
    ensures var k := KeyOf(ms[i]);
            k in AssignAll(css, ms) && AssignAll(css, ms)[k] == Unquote(ms[i].1)
    decreases |ms|
  {
    var css' := Assign(css, KeyOf(ms[0]), Unquote(ms[0].1));
    if i == 0 {
      AssignAllUntouched(css', ms[1..], KeyOf(ms[0]));
    } else {
      AssignAllLastWins(css', ms[1..], i - 1);
    }
  }

  /** A key no match names keeps its value. */
  lemma {:induction false} AssignAllUntouched(css: map<string, string>, ms: seq<(string, string)>, k: string)
    requires forall j :: 0 <= j < |ms| ==> KeyOf(ms[j]) != k
    ensures (k in AssignAll(css, ms) <==> k in css) && (k in css ==> AssignAll(css, ms)[k] == css[k])
    decreases |ms|
  {
    if ms != [] {
      AssignAllUntouched(Assign(css, KeyOf(ms[0]), Unquote(ms[0].1)), ms[1..], k);
    }
  }

  /** A key is in the parsed object exactly when some declaration names it and it is not `__proto__`. */
  lemma ParseCssKeys(s: string, k: string)
    ensures k in ParseCss(s) <==> k != "__proto__" && exists i :: 0 <= i < |Scan(s)| && KeyOf(Scan(s)[i]) == k
  {
    var none: map<string, string> := map[];
    var ms := Scan(s);
    AssignAllKeys(none, ms, k);
    assert k !in none;
    assert ParseCss(s) == AssignAll(none, ms);
    if k in ParseCss(s) {
      var i :| 0 <= i < |ms| && KeyOf(ms[i]) == k;
      assert KeyOf(Scan(s)[i]) == k;
    }
  }

  /** The value under a key is that of the last declaration naming it, unquoted. */
  lemma ParseCssLastWins(s: string, i: nat)
    requires i < |Scan(s)| && KeyOf(Scan(s)[i]) != "__proto__"
    requires forall j :: i < j < |Scan(s)| ==> KeyOf(Scan(s)[j]) != KeyOf(Scan(s)[i])
    ensures KeyOf(Scan(s)[i]) in ParseCss(s) && ParseCss(s)[KeyOf(Scan(s)[i])] == Unquote(Scan(s)[i].1)
  {
    AssignAllLastWins(map[], Scan(s), i);
  }

  // -------------------------------------------------------------------------
  // Declarations written out are read back
  // -------------------------------------------------------------------------

  /** A declaration `name:value` the scan reads back as written. */
  predicate WellFormed(d: (string, string))
  {
    d.0 != [] && (forall i :: 0 <= i < |d.0| ==> IsNameChar(d.0[i]))
    && d.1 != [] && !IsSpace(d.1[0]) && ';' !in d.1
  }

  /** `name:value;` for each declaration in turn. */
  function Render(ds: seq<(string, string)>): string
  {
    if ds == [] then [] else ds[0].0 + ":" + ds[0].1 + ";" + Render(ds[1..])
  }

  /** The pattern at the start of a well-formed declaration matches exactly the name and the value. */
  lemma MatchOne(n: string, v: string, rest: string)
    requires WellFormed((n, v))
    ensures MatchAt(n + ":" + v + ";" + rest) == Some(Match(n, v, |n| + 1 + |v|))
  {
    DeclarationText(n, v, rest);
    MatchIn(n + ":" + v + ";" + rest, n, v);
  }

  /** The pieces of `name:value;rest`. */
  lemma DeclarationText(n: string, v: string, rest: string)
    ensures var t := n + ":" + v + ";" + rest;
      |n| + 1 + |v| < |t| && t[..|n|] == n && t[|n|] == ':'
      && t[|n| + 1..|n| + 1 + |v|] == v && t[|n| + 1 + |v|] == ';'
  {
  }

  /** `MatchAt` on any text that starts with the declaration `n:v;`. */
  lemma MatchIn(t: string, n: string, v: string)
    requires WellFormed((n, v)) && |n| + 1 + |v| < |t|
    requires t[..|n|] == n && t[|n|] == ':' && t[|n| + 1..|n| + 1 + |v|] == v && t[|n| + 1 + |v|] == ';'
    ensures MatchAt(t) == Some(Match(n, v, |n| + 1 + |v|))
  {
    var k := |n|;
    forall x | 0 <= x < k ensures IsNameChar(t[x]) {
      assert t[x] == t[..k][x];
    }
    NameEndOf(t, 0, k);
    assert SpaceRunEnd(t, k) == k;
    assert t[k + 1] == v[0];
    assert SpaceRunEnd(t, k + 1) == k + 1;
    forall x | k + 1 <= x < k + 1 + |v| ensures t[x] != ';' {
      assert t[x] == v[x - (k + 1)];
      assert v[x - (k + 1)] in v;
    }
    SemicolonEndOf(t, k + 1, k + 1 + |v|);
  }

  lemma {:induction false} NameEndOf(t: string, i: nat, j: nat)
    requires i <= j < |t| && (forall x :: i <= x < j ==> IsNameChar(t[x])) && !IsNameChar(t[j])
    ensures NameEnd(t, i) == j
    decreases j - i
  {
    if i < j {
      NameEndOf(t, i + 1, j);
    }
  }

  lemma {:induction false} SemicolonEndOf(t: string, i: nat, j: nat)
    requires i <= j < |t| && (forall x :: i <= x < j ==> t[x] != ';') && t[j] == ';'
    ensures SemicolonEnd(t, i) == j
    decreases j - i
  {
    if i < j {
      SemicolonEndOf(t, i + 1, j);
    }
  }

  lemma AfterDeclaration(n: string, v: string, rest: string)
    ensures (n + ":" + v + ";" + rest)[|n| + 1 + |v|..] == ";" + rest
  {
  }

  /** A `;` never starts a match: the scan steps over it. */
  lemma SemicolonSkipped(rest: string)
    ensures Scan(";" + rest) == Scan(rest)
  {
    var t := ";" + rest;
    assert NameEnd(t, 0) == 0;
    ScanUnmatched(t);
    assert t[1..] == rest;
  }

  /** The scan records a match and resumes where it ended. */
  lemma ScanAfter(t: string, m: Match, tail: string)
    requires MatchAt(t) == Some(m) && t[m.len..] == tail
    ensures Scan(t) == [(m.name, m.value)] + Scan(tail)
  {
    ScanMatched(t);
  }

  /** The scan reads the first declaration and then resumes right after its `;`. */
  lemma ScanOne(n: string, v: string, rest: string)
    requires WellFormed((n, v))
    ensures Scan(n + ":" + v + ";" + rest) == [(n, v)] + Scan(rest)
  {
    MatchOne(n, v, rest);
    AfterDeclaration(n, v, rest);
    ScanAfter(n + ":" + v + ";" + rest, Match(n, v, |n| + 1 + |v|), ";" + rest);
    SemicolonSkipped(rest);
  }

  /** Well-formed declarations written out with `Render` scan back to themselves. */
  lemma {:induction false} ScanRender(ds: seq<(string, string)>)
    requires forall i :: 0 <= i < |ds| ==> WellFormed(ds[i])
    ensures Scan(Render(ds)) == ds
    decreases |ds|
  {
    if ds != [] {
      var (n, v) := ds[0];
      var rest := Render(ds[1..]);
      assert Render(ds) == n + ":" + v + ";" + rest;
      ScanOne(n, v, rest);
      assert forall i :: 0 <= i < |ds[1..]| ==> ds[1..][i] == ds[i + 1];
      ScanRender(ds[1..]);
    }
  }

  // -------------------------------------------------------------------------
  // Camel case and kebab case
  // -------------------------------------------------------------------------

  /** The inverse of `CamelCase` on kebab-case names: an upper-case letter becomes a dash and the letter in lower case. */
  function KebabCase(n: string): string
  {
    if n == [] then []
    else if 'A' <= n[0] <= 'Z' then ['-', LowerChar(n[0])] + KebabCase(n[1..])
    else [n[0]] + KebabCase(n[1..])
  }

  /** A kebab-case name: word characters without upper case, every dash followed by a lower-case letter. */
  predicate IsKebab(n: string)
  {
    forall i :: 0 <= i < |n| ==>
      (IsNameChar(n[i]) && !('A' <= n[i] <= 'Z'))
      && (n[i] == '-' ==> i + 1 < |n| && 'a' <= n[i + 1] <= 'z')
  }

  /** A camel-case name: word characters only. */
  predicate IsCamel(n: string)
  {
    forall i :: 0 <= i < |n| ==> IsWordChar(n[i])
  }

  lemma KebabTail(n: string, d: nat)
    requires IsKebab(n) && d <= |n|
    ensures IsKebab(n[d..])
  {
    forall i | 0 <= i < |n[d..]|
      ensures (IsNameChar(n[d..][i]) && !('A' <= n[d..][i] <= 'Z'))
              && (n[d..][i] == '-' ==> i + 1 < |n[d..]| && 'a' <= n[d..][i + 1] <= 'z')
    {
      var j := i + d;
      assert n[d..][i] == n[j];
      assert IsNameChar(n[j]) && !('A' <= n[j] <= 'Z') && (n[j] == '-' ==> j + 1 < |n| && 'a' <= n[j + 1] <= 'z');
      if n[j] == '-' {
        assert n[d..][i + 1] == n[j + 1];
      }
    }
  }

  /** An upper-cased lower-case letter turns back into a dash and that letter. */
  lemma KebabOfUpper(c: char, rest: string)
    requires 'a' <= c <= 'z'
    ensures KebabCase([UpperChar(c)] + rest) == ['-', c] + KebabCase(rest)
  {
    assert ([UpperChar(c)] + rest)[1..] == rest;
  }

  /** Camel-casing a kebab-case name and turning it back gives the name. */
  lemma {:induction false} KebabOfCamel(n: string)
    requires IsKebab(n)
    ensures KebabCase(CamelCase(n)) == n
    decreases |n|
  {
    if n != [] {
      if n[0] == '-' {
        assert 0 + 1 < |n| && 'a' <= n[1] <= 'z';
        var (d, c) := (n[0], n[1]);
        KebabTail(n, 2);
        KebabOfCamel(n[2..]);
        KebabOfUpper(c, CamelCase(n[2..]));
        assert CamelCase(n) == [UpperChar(c)] + CamelCase(n[2..]);
        assert n == [d, c] + n[2..];
      } else {
        KebabTail(n, 1);
        KebabOfCamel(n[1..]);
        assert CamelCase(n) == [n[0]] + CamelCase(n[1..]);
        assert n == [n[0]] + n[1..];
      }
    }
  }

  /** A dash and a lowered upper-case letter camel-case back into that letter. */
  lemma CamelOfLowered(c: char, rest: string)
    requires 'A' <= c <= 'Z'
    ensures CamelCase(['-', LowerChar(c)] + rest) == [c] + CamelCase(rest)
  {
    assert (['-', LowerChar(c)] + rest)[2..] == rest;
  }

  /** Any other word character is kept as it is. */
  lemma CamelOfPlain(c: char, rest: string)
    requires IsWordChar(c) && !('A' <= c <= 'Z')
    ensures CamelCase([c] + rest) == [c] + CamelCase(rest)
  {
    assert ([c] + rest)[1..] == rest;
  }

  /** Turning a camel-case name into kebab case and camel-casing it gives the name. */
  lemma {:induction false} CamelOfKebab(n: string)
    requires IsCamel(n)
    ensures CamelCase(KebabCase(n)) == n
    decreases |n|
  {
    if n != [] {
      assert IsCamel(n[1..]) by {
        forall i | 0 <= i < |n[1..]| ensures IsWordChar(n[1..][i]) { assert n[1..][i] == n[i + 1]; }
      }
      CamelOfKebab(n[1..]);
      var c := n[0];
      var rest := KebabCase(n[1..]);
      if 'A' <= c <= 'Z' {
        CamelOfLowered(c, rest);
      } else {
        CamelOfPlain(c, rest);
      }
      assert n == [c] + n[1..];
    }
  }
}
