/**
 * `getFunctionsAndArguments(str)` (dist/utils.js): reads a rule list such
 * as `required,greater(value:5),phone(message:Bad number)` into ordered
 * (name, arguments) pairs. The list is scanned with the global pattern
 * `\s*(\w+)\s*(\([^\\\)]*(?:\\.[^\\\)]*)*?\))?\s*`; the text inside each
 * parenthesised group is read with `\s*(\w+)\s*:\s*([^\\,]*(?:\\.[^\\,]*)*)\s*`,
 * and each argument value is coerced to a number, a boolean or a string.
 */
module RuleSpec {
  import opened JsCore

  /** An argument bag: the own enumerable properties of a plain object. */
  type Args = map<string, Value>

  /** `args[key]` on an argument bag. */
  function ArgOf(args: Args, key: string): Value
  {
    if key in args then args[key] else Undefined
  }

  /** One parsed rule: `{name, args}`. */
  datatype Rule = Rule(name: string, args: Args)

  // -------------------------------------------------------------------------
  // Character runs, each from position `i` of the text being matched
  // -------------------------------------------------------------------------

  /** Where the run of `\w` characters from `i` ends. */
  function WordEnd(t: string, i: nat): (j: nat)
    requires i <= |t|
    ensures i <= j <= |t|
    decreases |t| - i
  {
    if i < |t| && IsWordChar(t[i]) then WordEnd(t, i + 1) else i
  }

  /**
   * After an opening `(` at `i - 1`: `[^\\\)]*(?:\\.[^\\\)]*)*?\)`, the text up
   * to and including the first `)` not escaped by a backslash (an escape
   * cannot take a line terminator); where it ends, if it closes.
   */
  function GroupEnd(t: string, i: nat): (r: Option<nat>)
    requires i <= |t|
    ensures r.Some? ==> i < r.value <= |t|
    decreases |t| - i
  {
    if i == |t| then None
    else if t[i] == ')' then Some(i + 1)
    else if t[i] == '\\' then
      if i + 1 < |t| && !IsLineTerminator(t[i + 1]) then GroupEnd(t, i + 2) else None
    else GroupEnd(t, i + 1)
  }

  // -------------------------------------------------------------------------
  // The rule list
  // -------------------------------------------------------------------------

  /** One match of the rule pattern: the name, the parenthesised group if it closed, and the length consumed. */
  datatype RuleMatch = RuleMatch(name: string, group: Option<string>, len: nat)

  /**
   * The rule pattern tried at the start of `t`. The group is optional: when
   * its `)` is missing it is simply not part of the match.
   */
  function RuleAt(t: string): (r: Option<RuleMatch>)
    ensures r.Some? ==> 0 < r.value.len <= |t|
  {
    var s := SpaceRunEnd(t, 0);
    var p := WordEnd(t, s);
    if p == s then None
    else
      var q := SpaceRunEnd(t, p);
      var g := if q < |t| && t[q] == '(' then GroupEnd(t, q + 1) else None;
      var e := if g.Some? then g.value else q;
      Some(RuleMatch(t[s..p], if g.Some? then Some(t[q..e]) else None, SpaceRunEnd(t, e)))
  }

  /** The global scan of the rule list: every match, each search resuming where the last one ended. */
  function RuleScan(t: string): seq<RuleMatch>
    decreases |t|
  {
    if t == [] then []
    else
      match RuleAt(t)
      case Some(m) => [m] + RuleScan(t[m.len..])
      case None => RuleScan(t[1..])
  }

  // -------------------------------------------------------------------------
  // The argument group
  // -------------------------------------------------------------------------

  /** Where the run of characters other than line terminators from `i` ends. */
  function LineEnd(t: string, i: nat): (j: nat)
    requires i <= |t|
    ensures i <= j <= |t|
    decreases |t| - i
  {
    if i < |t| && !IsLineTerminator(t[i]) then LineEnd(t, i + 1) else i
  }

  /** The index of the last `)` of `t`. */
  function LastClose(t: string): (r: Option<nat>)
    ensures r.Some? ==> r.value < |t|
  {
    if t == [] then None
    else if t[|t| - 1] == ')' then Some(|t| - 1)
    else LastClose(t[..|t| - 1])
  }

  /** `args.replace(/\((.*)\)/g, …)`: the bodies it captures, `.` stopping at line terminators. */
  function Bodies(a: string): seq<string>
    decreases |a|
  {
    if a == [] then []
    else if a[0] == '(' then
      var line := a[1..LineEnd(a, 1)];
      match LastClose(line)
      case Some(j) => [line[..j]] + Bodies(a[j + 2..])
      case None => Bodies(a[1..])
    else Bodies(a[1..])
  }

  /** `.replace(/\\\)/g, ')')`. */
  function UnescapeParens(t: string): string
  {
    if t == [] then []
    else if |t| >= 2 && t[0] == '\\' && t[1] == ')' then [')'] + UnescapeParens(t[2..])
    else [t[0]] + UnescapeParens(t[1..])
  }

  /** Where `[^\\,]*(?:\\.[^\\,]*)*` from `i` ends. */
  function ValueEnd(t: string, i: nat): (j: nat)
    requires i <= |t|
    ensures i <= j <= |t|
    decreases |t| - i
  {
    if i == |t| || t[i] == ',' then i
    else if t[i] == '\\' then (if i + 1 < |t| && !IsLineTerminator(t[i + 1]) then ValueEnd(t, i + 2) else i)
    else ValueEnd(t, i + 1)
  }

  /** One match of the argument pattern: key, raw value text and length consumed. */
  datatype ArgMatch = ArgMatch(key: string, text: string, len: nat)

  /** The argument pattern tried at the start of `t`. */
  function ArgAt(t: string): (r: Option<ArgMatch>)
    ensures r.Some? ==> 0 < r.value.len <= |t|
  {
    var s := SpaceRunEnd(t, 0);
    var p := WordEnd(t, s);
    if p == s then None
    else
      var c := SpaceRunEnd(t, p);
      if c == |t| || t[c] != ':' then None
      else
        var v := SpaceRunEnd(t, c + 1);
        var e := ValueEnd(t, v);
        Some(ArgMatch(t[s..p], t[v..e], SpaceRunEnd(t, e)))
  }

  function ArgScan(t: string): seq<ArgMatch>
    decreases |t|
  {
    if t == [] then []
    else
      match ArgAt(t)
      case Some(m) => [m] + ArgScan(t[m.len..])
      case None => ArgScan(t[1..])
  }

  /** `_value.replace(/\\(.)/g, '$1')`: a backslash keeps the character after it. */
  function Unescape(t: string): string
  {
    if t == [] then []
    else if |t| >= 2 && t[0] == '\\' && !IsLineTerminator(t[1]) then [t[1]] + Unescape(t[2..])
    else [t[0]] + Unescape(t[1..])
  }

  /** Whether `w` occurs in `s`. */
  predicate Contains(s: string, w: string)
    decreases |s|
  {
    |w| <= |s| && (s[..|w|] == w || Contains(s[1..], w))
  }

  /** `value.match(/(true|false)/i)`. */
  predicate MentionsBoolean(text: string)
  {
    Contains(ToLower(text), "true") || Contains(ToLower(text), "false")
  }

  /**
   * The coercion of an argument value: a finite `parseFloat` result, else
   * a boolean (true only for the text `true` in any case) when the text
   * mentions true or false, else the text itself.
   */
  function Coerce(text: string): Value
  {
    var num := ParseFloat(text);
    if num.Finite? then Number(num)
    else if MentionsBoolean(text) then Bool(ToLower(text) == "true")
    else Str(text)
  }

  /**
   * `funcArgs[name] = finalValue`. Assigning a primitive to `__proto__`
   * reaches the prototype setter, which ignores it.
   */
  function Put(args: Args, key: string, v: Value): Args
  {
    if key == "__proto__" then args else args[key := v]
  }

  function PutMatches(args: Args, ms: seq<ArgMatch>): Args
    decreases |ms|
  {
    if ms == [] then args
    else PutMatches(Put(args, ms[0].key, Coerce(Unescape(ms[0].text))), ms[1..])
  }

  function PutBodies(args: Args, bodies: seq<string>): Args
    decreases |bodies|
  {
    if bodies == [] then args
    else PutBodies(PutMatches(args, ArgScan(UnescapeParens(bodies[0]))), bodies[1..])
  }

  /** The rule one match describes. */
  function RuleOf(m: RuleMatch): Rule
  {
    Rule(m.name, if m.group.Some? then PutBodies(map[], Bodies(m.group.value)) else map[])
  }

  function RulesOf(ms: seq<RuleMatch>): (r: seq<Rule>)
    ensures |r| == |ms|
  {
    if ms == [] then [] else [RuleOf(ms[0])] + RulesOf(ms[1..])
  }

  /** `getFunctionsAndArguments(str)`. */
  function FunctionsAndArguments(str: string): seq<Rule>
  {
    RulesOf(RuleScan(str))
  }

  /** `getFunctionsAndArguments(str)`: the scan's callback pushes one rule per match. */
  method GetFunctionsAndArguments(str: string) returns (funcList: seq<Rule>)
    ensures funcList == FunctionsAndArguments(str)
  {
    funcList := [];
    var p := 0;
    while p < |str|
      invariant 0 <= p <= |str|
      invariant funcList + RulesOf(RuleScan(str[p..])) == FunctionsAndArguments(str)
      decreases |str| - p
    {
      p, funcList := NextRule(str, p, funcList);
    }
  }

  /**
   * One search of the global pattern from position `p`: a match pushes its
   * rule and the next search starts where it ended; no match moves on one
   * character.
   */
  method NextRule(str: string, p: nat, funcList: seq<Rule>) returns (next: nat, funcList': seq<Rule>)
    requires p < |str|
    ensures p < next <= |str|
    ensures funcList' + RulesOf(RuleScan(str[next..])) == funcList + RulesOf(RuleScan(str[p..]))
  {
    var t := str[p..];
    var m := RuleAt(t);
    if m.Some? {
      next := p + m.value.len;
      assert t[m.value.len..] == str[next..];
      RulesAfterMatch(t, m.value, str[next..]);
      funcList' := funcList + [RuleOf(m.value)];
    } else {
      next := p + 1;
      assert t[1..] == str[next..];
      RuleScanUnmatched(t);
      funcList' := funcList;
    }
  }

  /** The rules of a text: those of the match at its start, if any, then those further on. */
  lemma RulesStep(t: string)
    requires t != []
    ensures RulesOf(RuleScan(t)) == match RuleAt(t)
      case Some(m) => [RuleOf(m)] + RulesOf(RuleScan(t[m.len..]))
      case None => RulesOf(RuleScan(t[1..]))
  {
    if RuleAt(t).Some? {
      RulesAfterMatch(t, RuleAt(t).value, t[RuleAt(t).value.len..]);
    } else {
      RuleScanUnmatched(t);
    }
  }

  lemma RuleScanMatched(t: string)
    requires RuleAt(t).Some?
    ensures RuleScan(t) == [RuleAt(t).value] + RuleScan(t[RuleAt(t).value.len..])
  {
  }

  lemma RuleScanAt(t: string, m: RuleMatch)
    requires RuleAt(t) == Some(m)
    ensures RuleScan(t) == [m] + RuleScan(t[m.len..])
  {
    RuleScanMatched(t);
  }

  lemma RuleScanUnmatched(t: string)
    requires t != [] && RuleAt(t).None?
    ensures RuleScan(t) == RuleScan(t[1..])
  {
  }

  /** After a match, the rules of a text are its rule and then the rules of what follows it. */
  lemma RulesAfterMatch(t: string, m: RuleMatch, u: string)
    requires RuleAt(t) == Some(m) && t[m.len..] == u
    ensures RulesOf(RuleScan(t)) == [RuleOf(m)] + RulesOf(RuleScan(u))
  {
    RuleScanAt(t, m);
    RulesOfFirst(m, RuleScan(u));
  }

  lemma RulesOfFirst(m: RuleMatch, ms: seq<RuleMatch>)
    ensures RulesOf([m] + ms) == [RuleOf(m)] + RulesOf(ms)
  {
    assert ([m] + ms)[1..] == ms;
  }

  // -------------------------------------------------------------------------
  // Coercion of argument values
  // -------------------------------------------------------------------------

  lemma NotInfinity(text: string)
    requires text != [] && AllDigits(text)
    ensures !(8 <= |text| && text[0..8] == "Infinity")
  {
    assert IsDigit(text[0]);
  }

  lemma ExponentAbsent(text: string)
    requires AllDigits(text)
    ensures ExponentPart(text, |text|) == (|text|, 0)
  {
  }

  /** The decimal literal of a run of digits is the whole run, without fraction or exponent. */
  lemma DigitsPrefix(text: string)
    requires text != [] && AllDigits(text)
    ensures DecimalPrefix(text, 0).Some? && DecimalPrefix(text, 0).value.0.Finite?
    ensures DecimalPrefix(text, 0).value.0.r
            == DigitsValue(text[0..|text|]) as real + DigitsValue(text[|text|..|text|]) as real / Pow10(0)
  {
    NotInfinity(text);
    ExponentAbsent(text);
    assert IsDigit(text[0]);
    assert DigitRunEnd(text, 0) == |text|;
  }

  lemma DigitsMantissa(text: string)
    requires AllDigits(text)
    ensures DigitsValue(text[0..|text|]) as real + DigitsValue(text[|text|..|text|]) as real / Pow10(0)
            == DigitsValue(text) as real
  {
    assert text[0..|text|] == text;
    assert text[|text|..|text|] == [];
    assert Pow10(0) == 1.0;
  }

  /** `parseFloat` reads a run of decimal digits as the number they spell. */
  lemma ParseDigits(text: string)
    requires text != [] && AllDigits(text)
    ensures ParseFloat(text) == Finite(DigitsValue(text) as real)
  {
    DigitLeads(text);
    DigitsPrefix(text);
    DigitsMantissa(text);
  }

  lemma DigitLeads(text: string)
    requires text != [] && AllDigits(text)
    ensures SpaceRunEnd(text, 0) == 0
  {
    assert IsDigit(text[0]);
  }

  /** A run of decimal digits becomes that number. */
  lemma CoerceDigits(text: string)
    requires text != [] && AllDigits(text)
    ensures Coerce(text) == Number(Finite(DigitsValue(text) as real))
  {
    ParseDigits(text);
  }

  /** A text that starts with an ASCII letter never parses as a finite number. */
  lemma LetterNotNumeric(text: string)
    requires text != [] && IsAsciiLetter(text[0])
    ensures !ParseFloat(text).Finite?
  {
    assert SpaceRunEnd(text, 0) == 0;
    assert DigitRunEnd(text, 0) == 0;
  }

  lemma ContainsItself(w: string)
    ensures Contains(w, w)
  {
    assert w[..|w|] == w;
  }

  /** Every character of an occurring word occurs in the text. */
  lemma {:induction false} ContainsChar(s: string, w: string, k: nat)
    requires Contains(s, w) && k < |w|
    ensures exists i :: 0 <= i < |s| && s[i] == w[k]
    decreases |s|
  {
    if s[..|w|] == w {
      assert s[k] == w[k];
    } else {
      ContainsChar(s[1..], w, k);
      var i :| 0 <= i < |s[1..]| && s[1..][i] == w[k];
      assert s[i + 1] == w[k];
    }
  }

  /** A word found at some position occurs in the text. */
  lemma {:induction false} ContainsAt(s: string, w: string, i: nat)
    requires i + |w| <= |s| && s[i..i + |w|] == w
    ensures Contains(s, w)
    decreases i
  {
    if i > 0 {
      assert s[1..][i - 1..i - 1 + |w|] == w;
      ContainsAt(s[1..], w, i - 1);
    } else {
      assert s[..|w|] == w;
    }
  }

  /** A word one of whose characters is missing from the text does not occur in it. */
  lemma NotContains(s: string, w: string, k: nat)
    requires k < |w| && forall i :: 0 <= i < |s| ==> s[i] != w[k]
    ensures !Contains(s, w)
  {
    if Contains(s, w) {
      ContainsChar(s, w, k);
    }
  }

  /** `true`, in any case, becomes the boolean true. */
  lemma CoerceTrue(text: string)
    requires ToLower(text) == "true"
    ensures Coerce(text) == Bool(true)
  {
    assert LowerChar(text[0]) == 't';
    LetterNotNumeric(text);
    ContainsItself("true");
  }

  /** `false`, in any case, becomes the boolean false. */
  lemma CoerceFalse(text: string)
    requires ToLower(text) == "false"
    ensures Coerce(text) == Bool(false)
  {
    assert LowerChar(text[0]) == 'f';
    LetterNotNumeric(text);
    ContainsItself("false");
  }

  /** A word mentioning neither true nor false and starting with a letter stays text. */
  lemma CoerceText(text: string)
    requires text != [] && IsAsciiLetter(text[0]) && !MentionsBoolean(text)
    ensures Coerce(text) == Str(text)
  {
    LetterNotNumeric(text);
  }

  /** Any other text mentioning true or false becomes the boolean false. */
  lemma CoerceMentionIsFalse(text: string)
    requires text != [] && IsAsciiLetter(text[0]) && MentionsBoolean(text) && ToLower(text) != "true"
    ensures Coerce(text) == Bool(false)
  {
    LetterNotNumeric(text);
  }

  // -------------------------------------------------------------------------
  // Rule lists written out are read back
  // -------------------------------------------------------------------------

  /** A name or key: one or more `\w` characters. */
  predicate IsWord(w: string)
  {
    w != [] && forall i :: 0 <= i < |w| ==> IsWordChar(w[i])
  }

  /** Text the group pattern reads straight through: no `)`, backslash or line terminator. */
  predicate IsPlainText(a: string)
  {
    forall i :: 0 <= i < |a| ==> a[i] != ')' && a[i] != '\\' && !IsLineTerminator(a[i])
  }

  /** An argument value written as is: plain text without `,` that does not start with a blank. */
  predicate IsPlainValue(v: string)
  {
    IsPlainText(v) && ',' !in v && (v != [] ==> !IsSpace(v[0]))
  }

  /** `key:value` pairs joined by `,`. */
  function ArgList(kvs: seq<(string, string)>): string
    decreases |kvs|, 1
  {
    if kvs == [] then [] else kvs[0].0 + ":" + kvs[0].1 + ListRest(kvs[1..])
  }

  /** What follows the first pair of a written list: nothing, or `,` and the rest. */
  function ListRest(tail: seq<(string, string)>): (r: string)
    ensures r == [] || r[0] == ','
    decreases |tail|, 2
  {
    if tail == [] then [] else "," + ArgList(tail)
  }

  /** Assigning each written pair in turn, each value coerced. */
  function PutAll(args: Args, kvs: seq<(string, string)>): Args
    decreases |kvs|
  {
    if kvs == [] then args else PutAll(Put(args, kvs[0].0, Coerce(kvs[0].1)), kvs[1..])
  }

  lemma {:induction false} WordEndOf(t: string, i: nat, j: nat)
    requires i <= j <= |t| && (forall x :: i <= x < j ==> IsWordChar(t[x])) && (j == |t| || !IsWordChar(t[j]))
    ensures WordEnd(t, i) == j
    decreases j - i
  {
    if i < j {
      WordEndOf(t, i + 1, j);
    }
  }

  lemma {:induction false} GroupEndOf(t: string, i: nat, j: nat)
    requires i <= j < |t| && t[j] == ')' && forall x :: i <= x < j ==> t[x] != ')' && t[x] != '\\'
    ensures GroupEnd(t, i) == Some(j + 1)
    decreases j - i
  {
    if i < j {
      GroupEndOf(t, i + 1, j);
    }
  }

  lemma {:induction false} LineEndOf(t: string, i: nat)
    requires i <= |t| && forall x :: i <= x < |t| ==> !IsLineTerminator(t[x])
    ensures LineEnd(t, i) == |t|
    decreases |t| - i
  {
    if i < |t| {
      LineEndOf(t, i + 1);
    }
  }

  lemma {:induction false} ValueEndOf(t: string, i: nat, j: nat)
    requires i <= j <= |t| && (forall x :: i <= x < j ==> t[x] != ',' && t[x] != '\\') && (j == |t| || t[j] == ',')
    ensures ValueEnd(t, i) == j
    decreases j - i
  {
    if i < j {
      ValueEndOf(t, i + 1, j);
    }
  }

  lemma {:induction false} UnescapePlain(t: string)
    requires IsPlainText(t)
    ensures Unescape(t) == t && UnescapeParens(t) == t
    decreases |t|
  {
    if t != [] {
      UnescapePlain(t[1..]);
      assert t == [t[0]] + t[1..];
    }
  }

  /** Every key is a word and every value plain. */
  predicate IsPlainPairs(kvs: seq<(string, string)>)
  {
    forall i :: 0 <= i < |kvs| ==> IsWord(kvs[i].0) && IsPlainValue(kvs[i].1)
  }

  lemma WordIsPlain(w: string)
    requires IsWord(w)
    ensures IsPlainText(w) && ',' !in w && ':' !in w
  {
    forall i | 0 <= i < |w| ensures w[i] != ')' && w[i] != '\\' && !IsLineTerminator(w[i]) && w[i] != ',' && w[i] != ':'
    {
      assert IsWordChar(w[i]);
    }
  }

  /** The characters and pieces of `k:v` followed by `rest`. */
  lemma PairText(k: string, v: string, rest: string)
    ensures var t := k + ":" + v + rest;
      |t| == |k| + 1 + |v| + |rest| && t[..|k|] == k && t[|k|] == ':' && t[|k| + 1..|k| + 1 + |v|] == v
      && (rest != [] ==> t[|k| + 1 + |v|] == rest[0]) && t[|k| + 1 + |v|..] == rest
  {
  }

  /** `ArgAt` when the key ends at the `:` at `c` and the value runs from `c + 1` to `e`. */
  lemma ArgAtOf(t: string, c: nat, e: nat)
    requires 0 < c < e <= |t| + 1 && c + 1 <= e <= |t| && t[c] == ':'
    requires SpaceRunEnd(t, 0) == 0 && WordEnd(t, 0) == c && SpaceRunEnd(t, c) == c && SpaceRunEnd(t, c + 1) == c + 1
    requires ValueEnd(t, c + 1) == e && SpaceRunEnd(t, e) == e
    ensures ArgAt(t) == Some(ArgMatch(t[..c], t[c + 1..e], e))
  {
    assert t[0..c] == t[..c];
  }

  /** A plain value runs to its end, where the end or a `,` follows. */
  lemma PlainValueEnd(t: string, i: nat, v: string)
    requires IsPlainValue(v) && i + |v| <= |t| && t[i..i + |v|] == v
    requires i + |v| == |t| || t[i + |v|] == ','
    ensures ValueEnd(t, i) == i + |v| && SpaceRunEnd(t, i) == i && SpaceRunEnd(t, i + |v|) == i + |v|
  {
    forall x | i <= x < i + |v| ensures t[x] != ',' && t[x] != '\\' {
      assert t[x] == v[x - i];
      assert v[x - i] in v;
    }
    ValueEndOf(t, i, i + |v|);
    if v != [] {
      assert t[i] == v[0];
    }
  }

  /** One written pair, followed by the end or a `,`, is one argument match. */
  lemma ArgAtPair(k: string, v: string, rest: string)
    requires IsWord(k) && IsPlainValue(v) && (rest == [] || rest[0] == ',')
    ensures ArgAt(k + ":" + v + rest) == Some(ArgMatch(k, v, |k| + 1 + |v|))
  {
    PairText(k, v, rest);
    ArgAtPairIn(k + ":" + v + rest, k, v);
  }

  /** `ArgAt` on any text that holds the pair `k:v` followed by the end or a `,`. */
  lemma ArgAtPairIn(t: string, k: string, v: string)
    requires IsWord(k) && IsPlainValue(v) && |k| + 1 + |v| <= |t|
    requires t[..|k|] == k && t[|k|] == ':' && t[|k| + 1..|k| + 1 + |v|] == v
    requires |k| + 1 + |v| == |t| || t[|k| + 1 + |v|] == ','
    ensures ArgAt(t) == Some(ArgMatch(k, v, |k| + 1 + |v|))
  {
    NameAt(t, k);
    PlainValueEnd(t, |k| + 1, v);
    ArgAtOf(t, |k|, |k| + 1 + |v|);
  }

  /** A leading `,` starts no argument and is skipped. */
  lemma ArgScanComma(t: string)
    ensures ArgScan("," + t) == ArgScan(t)
  {
    var u := "," + t;
    assert u[0] == ',';
    assert SpaceRunEnd(u, 0) == 0 && WordEnd(u, 0) == 0;
    assert u[1..] == t;
  }

  lemma PutMatchesFirst(args: Args, m: ArgMatch, ms: seq<ArgMatch>)
    ensures PutMatches(args, [m] + ms) == PutMatches(Put(args, m.key, Coerce(Unescape(m.text))), ms)
  {
    assert ([m] + ms)[1..] == ms;
  }

  /** The scan reads a written pair and goes on after it. */
  lemma ArgScanPair(k: string, v: string, rest: string)
    requires IsWord(k) && IsPlainValue(v) && (rest == [] || rest[0] == ',')
    ensures ArgScan(k + ":" + v + rest) == [ArgMatch(k, v, |k| + 1 + |v|)] + ArgScan(rest)
  {
    var t := k + ":" + v + rest;
    var m := ArgMatch(k, v, |k| + 1 + |v|);
    ArgAtPair(k, v, rest);
    ArgScanAt(t, m);
    assert t[m.len..] == rest;
  }

  lemma ArgScanAt(t: string, m: ArgMatch)
    requires ArgAt(t) == Some(m)
    ensures ArgScan(t) == [m] + ArgScan(t[m.len..])
  {
    ArgScanMatched(t);
  }

  lemma ArgScanMatched(t: string)
    requires ArgAt(t).Some?
    ensures ArgScan(t) == [ArgAt(t).value] + ArgScan(t[ArgAt(t).value.len..])
  {
  }

  lemma PlainPairsTail(kvs: seq<(string, string)>)
    requires kvs != [] && IsPlainPairs(kvs)
    ensures IsWord(kvs[0].0) && IsPlainValue(kvs[0].1) && IsPlainPairs(kvs[1..])
  {
    forall i | 0 <= i < |kvs[1..]| ensures IsWord(kvs[1..][i].0) && IsPlainValue(kvs[1..][i].1) {
      assert kvs[1..][i] == kvs[i + 1];
    }
  }

  /** The scan of a written argument list reads its first pair, then goes on after it. */
  lemma ArgScanFirst(k: string, v: string, tail: seq<(string, string)>)
    requires IsWord(k) && IsPlainValue(v)
    ensures ArgScan(ArgList([(k, v)] + tail)) == [ArgMatch(k, v, |k| + 1 + |v|)] + ArgScan(ListRest(tail))
  {
    assert ([(k, v)] + tail)[1..] == tail;
    ArgScanPair(k, v, ListRest(tail));
  }

  /** The `,` between two pairs starts no argument. */
  lemma ArgScanRest(tail: seq<(string, string)>)
    ensures ArgScan(ListRest(tail)) == ArgScan(ArgList(tail))
  {
    if tail != [] {
      ArgScanComma(ArgList(tail));
    }
  }

  /** Reading back a written argument list assigns the written pairs in order. */
  lemma {:induction false} PutMatchesList(args: Args, kvs: seq<(string, string)>)
    requires IsPlainPairs(kvs)
    ensures PutMatches(args, ArgScan(ArgList(kvs))) == PutAll(args, kvs)
    decreases |kvs|
  {
    if kvs != [] {
      PlainPairsTail(kvs);
      var (k, v) := kvs[0];
      UnescapePlain(v);
      assert kvs == [(k, v)] + kvs[1..];
      ArgScanFirst(k, v, kvs[1..]);
      ArgScanRest(kvs[1..]);
      var m := ArgMatch(k, v, |k| + 1 + |v|);
      PutMatchesFirst(args, m, ArgScan(ArgList(kvs[1..])));
      PutMatchesList(Put(args, k, Coerce(v)), kvs[1..]);
    }
  }

  /** Plain text stays plain when joined. */
  lemma PlainJoin(a: string, b: string)
    requires IsPlainText(a) && IsPlainText(b)
    ensures IsPlainText(a + b)
  {
    forall i | 0 <= i < |a + b| ensures (a + b)[i] != ')' && (a + b)[i] != '\\' && !IsLineTerminator((a + b)[i]) {
      if i < |a| { assert (a + b)[i] == a[i]; } else { assert (a + b)[i] == b[i - |a|]; }
    }
  }

  /** A written argument list is plain text: the group pattern reads it straight through. */
  lemma {:induction false} ArgListPlain(kvs: seq<(string, string)>)
    requires IsPlainPairs(kvs)
    ensures IsPlainText(ArgList(kvs))
    decreases |kvs|
  {
    if kvs != [] {
      PlainPairsTail(kvs);
      WordIsPlain(kvs[0].0);
      assert IsPlainText(":") && IsPlainText(",");
      PlainJoin(kvs[0].0, ":");
      PlainJoin(kvs[0].0 + ":", kvs[0].1);
      ArgListPlain(kvs[1..]);
      if kvs[1..] != [] {
        PlainJoin(",", ArgList(kvs[1..]));
      }
      PlainJoin(kvs[0].0 + ":" + kvs[0].1, ListRest(kvs[1..]));
    }
  }

  /** `(A)` holds exactly one body, `A`. */
  lemma BodiesOfGroup(a: string)
    requires IsPlainText(a)
    ensures Bodies("(" + a + ")") == [a]
  {
    var g := "(" + a + ")";
    assert forall x :: 1 <= x < |g| ==> !IsLineTerminator(g[x]) by {
      forall x | 1 <= x < |g| ensures !IsLineTerminator(g[x]) {
        if x <= |a| { assert g[x] == a[x - 1]; }
      }
    }
    LineEndOf(g, 1);
    var line := g[1..|g|];
    assert line == a + ")";
    assert line[|line| - 1] == ')';
    assert line[..|a|] == a;
    assert g[|a| + 2..] == [];
  }

  /** A name `n` at the start of `t`, ended by neither a word character nor a blank. */
  lemma NameAt(t: string, n: string)
    requires IsWord(n) && |n| <= |t| && t[..|n|] == n
    requires |n| == |t| || (!IsWordChar(t[|n|]) && !IsSpace(t[|n|]))
    ensures SpaceRunEnd(t, 0) == 0 && WordEnd(t, 0) == |n| && SpaceRunEnd(t, |n|) == |n|
  {
    forall x | 0 <= x < |n| ensures IsWordChar(t[x]) {
      assert t[x] == t[..|n|][x];
    }
    assert IsWordChar(t[0]);
    WordEndOf(t, 0, |n|);
  }

  /** `RuleAt` when the name ends at `q` and nothing else but the group follows. */
  lemma RuleAtBareOf(t: string, q: nat)
    requires 0 < q <= |t| && SpaceRunEnd(t, 0) == 0 && WordEnd(t, 0) == q && SpaceRunEnd(t, q) == q
    requires q == |t| || t[q] != '('
    ensures RuleAt(t) == Some(RuleMatch(t[..q], None, q))
  {
    assert t[0..q] == t[..q];
  }

  /** `RuleAt` when the name ends at `q` and a group follows, closing at `e`. */
  lemma RuleAtGroupOf(t: string, q: nat, e: nat)
    requires 0 < q < |t| && SpaceRunEnd(t, 0) == 0 && WordEnd(t, 0) == q && SpaceRunEnd(t, q) == q
    requires t[q] == '(' && GroupEnd(t, q + 1) == Some(e) && SpaceRunEnd(t, e) == e
    ensures RuleAt(t) == Some(RuleMatch(t[..q], Some(t[q..e]), e))
  {
    assert t[0..q] == t[..q];
  }

  /** The characters and pieces of `n` followed by `rest`. */
  lemma BareText(n: string, rest: string)
    ensures var t := n + rest;
      |t| == |n| + |rest| && (rest != [] ==> t[|n|] == rest[0]) && t[..|n|] == n
  {
  }

  /** A bare name followed by the end or a `,` is one rule without a group. */
  lemma RuleAtBare(n: string, rest: string)
    requires IsWord(n) && (rest == [] || rest[0] == ',')
    ensures RuleAt(n + rest) == Some(RuleMatch(n, None, |n|))
  {
    var t := n + rest;
    BareText(n, rest);
    NameAt(t, n);
    RuleAtBareOf(t, |n|);
  }

  /** The characters and pieces of `n(a)` followed by `rest`. */
  lemma GroupText(n: string, a: string, rest: string)
    ensures var t := n + "(" + a + ")" + rest;
      |t| == |n| + |a| + 2 + |rest| && t[|n|] == '(' && t[|n| + 1..|n| + 1 + |a|] == a && t[|n| + 1 + |a|] == ')'
      && (rest != [] ==> t[|n| + |a| + 2] == rest[0])
      && t[..|n|] == n && t[|n|..|n| + |a| + 2] == "(" + a + ")" && t[|n| + |a| + 2..] == rest
  {
  }

  /** A plain group body runs up to its `)`. */
  lemma GroupBodyEnd(t: string, q: nat, a: string)
    requires IsPlainText(a) && q + |a| + 1 < |t| && t[q + 1 + |a|] == ')' && t[q + 1..q + 1 + |a|] == a
    ensures GroupEnd(t, q + 1) == Some(q + |a| + 2)
  {
    forall x | q + 1 <= x < q + 1 + |a| ensures t[x] != ')' && t[x] != '\\' {
      assert t[x] == a[x - q - 1];
    }
    GroupEndOf(t, q + 1, q + 1 + |a|);
  }

  /** A name with a group around plain text, followed by the end or a `,`, is one rule with that group. */
  lemma RuleAtGroup(n: string, a: string, rest: string)
    requires IsWord(n) && IsPlainText(a) && (rest == [] || rest[0] == ',')
    ensures RuleAt(n + "(" + a + ")" + rest) == Some(RuleMatch(n, Some("(" + a + ")"), |n| + |a| + 2))
  {
    var t := n + "(" + a + ")" + rest;
    GroupText(n, a, rest);
    NameAt(t, n);
    GroupBodyEnd(t, |n|, a);
    RuleAtGroupOf(t, |n|, |n| + |a| + 2);
  }

  /** A rule written out: the bare name without arguments, else `name(k:v,…)`. */
  function RuleText(n: string, kvs: seq<(string, string)>): string
  {
    if kvs == [] then n else n + "(" + ArgList(kvs) + ")"
  }

  /** Written rules joined by `,`. */
  function RuleListText(ws: seq<(string, seq<(string, string)>)>): string
    decreases |ws|, 1
  {
    if ws == [] then [] else RuleText(ws[0].0, ws[0].1) + RulesRest(ws[1..])
  }

  /** What follows the first written rule: nothing, or `,` and the others. */
  function RulesRest(tail: seq<(string, seq<(string, string)>)>): (r: string)
    ensures r == [] || r[0] == ','
    decreases |tail|, 2
  {
    if tail == [] then [] else "," + RuleListText(tail)
  }

  /** Every name is a word and every argument list plain. */
  predicate IsPlainRules(ws: seq<(string, seq<(string, string)>)>)
  {
    forall i :: 0 <= i < |ws| ==> IsWord(ws[i].0) && IsPlainPairs(ws[i].1)
  }

  /** The rules a written list stands for: each name with its pairs assigned in order. */
  function WrittenRules(ws: seq<(string, seq<(string, string)>)>): (r: seq<Rule>)
    ensures |r| == |ws|
  {
    if ws == [] then [] else [Rule(ws[0].0, PutAll(map[], ws[0].1))] + WrittenRules(ws[1..])
  }

  /** The match the rule pattern makes on one written rule. */
  function MatchOf(n: string, kvs: seq<(string, string)>): RuleMatch
  {
    if kvs == [] then RuleMatch(n, None, |n|)
    else RuleMatch(n, Some("(" + ArgList(kvs) + ")"), |n| + |ArgList(kvs)| + 2)
  }

  /** The rule built from that match carries the written name and pairs. */
  lemma RuleOfMatch(n: string, kvs: seq<(string, string)>)
    requires IsPlainPairs(kvs)
    ensures RuleOf(MatchOf(n, kvs)) == Rule(n, PutAll(map[], kvs))
  {
    if kvs != [] {
      var a := ArgList(kvs);
      ArgListPlain(kvs);
      BodiesOfGroup(a);
      PutBodiesOne(map[], a);
      PutMatchesList(map[], kvs);
    }
  }

  lemma PutBodiesOne(args: Args, a: string)
    requires IsPlainText(a)
    ensures PutBodies(args, [a]) == PutMatches(args, ArgScan(a))
  {
    UnescapePlain(a);
    assert [a][1..] == [];
  }

  lemma RuleScanText(n: string, kvs: seq<(string, string)>, rest: string)
    requires IsWord(n) && IsPlainPairs(kvs) && (rest == [] || rest[0] == ',')
    ensures RuleScan(RuleText(n, kvs) + rest) == [MatchOf(n, kvs)] + RuleScan(rest)
  {
    if kvs == [] {
      RuleScanBare(n, rest);
    } else {
      var a := ArgList(kvs);
      assert RuleText(n, kvs) == n + "(" + a + ")";
      assert MatchOf(n, kvs) == RuleMatch(n, Some("(" + a + ")"), |n| + |a| + 2);
      ArgListPlain(kvs);
      RuleScanGroup(n, a, rest);
    }
  }

  lemma RuleScanBare(n: string, rest: string)
    requires IsWord(n) && (rest == [] || rest[0] == ',')
    ensures RuleScan(n + rest) == [RuleMatch(n, None, |n|)] + RuleScan(rest)
  {
    RuleAtBare(n, rest);
    RuleScanMatched(n + rest);
    assert (n + rest)[|n|..] == rest;
  }

  lemma RuleScanGroup(n: string, a: string, rest: string)
    requires IsWord(n) && IsPlainText(a) && (rest == [] || rest[0] == ',')
    ensures RuleScan(n + "(" + a + ")" + rest) == [RuleMatch(n, Some("(" + a + ")"), |n| + |a| + 2)] + RuleScan(rest)
  {
    var t := n + "(" + a + ")" + rest;
    var m := RuleMatch(n, Some("(" + a + ")"), |n| + |a| + 2);
    RuleAtGroup(n, a, rest);
    RuleScanAt(t, m);
    assert t[m.len..] == rest;
  }

  /** The `,` between two rules starts no rule. */
  lemma RuleScanComma(t: string)
    ensures RuleScan("," + t) == RuleScan(t)
  {
    var u := "," + t;
    assert u[0] == ',';
    assert SpaceRunEnd(u, 0) == 0 && WordEnd(u, 0) == 0;
    assert u[1..] == t;
  }

  lemma PlainRulesTail(ws: seq<(string, seq<(string, string)>)>)
    requires ws != [] && IsPlainRules(ws)
    ensures IsWord(ws[0].0) && IsPlainPairs(ws[0].1) && IsPlainRules(ws[1..])
  {
    forall i | 0 <= i < |ws[1..]| ensures IsWord(ws[1..][i].0) && IsPlainPairs(ws[1..][i].1) {
      assert ws[1..][i] == ws[i + 1];
    }
  }

  /**
   * A rule list written out from words and plain pairs is read back as
   * exactly the written rules, in order, each value coerced.
   */
  lemma {:induction false} ReadBack(ws: seq<(string, seq<(string, string)>)>)
    requires IsPlainRules(ws)
    ensures FunctionsAndArguments(RuleListText(ws)) == WrittenRules(ws)
    decreases |ws|
  {
    if ws != [] {
      PlainRulesTail(ws);
      var (n, kvs) := ws[0];
      var tail := ws[1..];
      RuleScanText(n, kvs, RulesRest(tail));
      if tail != [] {
        RuleScanComma(RuleListText(tail));
      }
      RuleOfMatch(n, kvs);
      RulesOfFirst(MatchOf(n, kvs), RuleScan(RuleListText(tail)));
      ReadBack(tail);
    }
  }
}
